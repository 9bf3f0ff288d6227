/** `lru_impl` and its client `uniq_method`. */
module Lru {
  import opened SeqFacts
  import opened LruSpec
  import opened LruCells

  // What the cells stand for after a history: the front of its stack, and its hit counts.
  ghost predicate StandsFor(c: Cells, history: seq<Op<string>>, maxsize: nat) {
    && Sound(c, maxsize) && "" !in c.dict
    && KeysNotBlank(history, "")
    && Content(c.list) == Window(Stack(history, ""), Capacity(maxsize))
    && forall k :: k in c.dict ==> c.dict[k].cnt == Hits(history, "", k, Capacity(maxsize)) > 0
  }

  lemma NothingDangles(c: Cells, maxsize: nat, key: string)
    requires Sound(c, maxsize) && (key == "" ==> key !in c.dict)
    ensures !Dangles(c, key)
  {
    if key in c.dict {
      assert Node(c.dict[key].pos, key) in c.list;
    }
  }

  lemma CacheStandsFor(c: Cells, history: seq<Op<string>>, key: string, maxsize: nat)
    requires StandsFor(c, history, maxsize) && key != ""
    ensures StandsFor(Cached(c, key, maxsize), history + [Touch(key)], maxsize)
    ensures key in c.dict <==> key in Window(Stack(history, ""), Capacity(maxsize))
    ensures key in c.dict ==> c.dict[key].cnt + 1 == Hits(history + [Touch(key)], "", key, Capacity(maxsize))
  {
    hide Sound, Stack, KeysNotBlank, Hits, Window, Labels, Trimmed, EraseNode, Bounded;
    var cap, h := Capacity(maxsize), history + [Touch(key)];
    SoundLinks(c, maxsize);
    MapIsContent(c.list, c.dict, key);
    OneMore(history, Touch(key), "", cap);
    BoundedTouch(Content(c.list), key, cap);
    var d := Cached(c, key, maxsize);
    if key in c.dict {
      MoveKeeps(c, key, KEY, maxsize);
    } else {
      InsertKeeps(c, key, KEY, maxsize);
      TrimmedValues(Pushed(c, key).list, c.dict[key := PosCnt(c.nextId, 1)], maxsize);
    }
  }

  lemma SoundLinks(c: Cells, maxsize: nat)
    requires Sound(c, maxsize)
    ensures Linked(c.list, c.dict)
  {
  }

  lemma BoundedTouch(list: seq<string>, key: string, cap: nat)
    ensures Bounded(list, Touch(key), "", cap) == if key in list then [key] + Remove(list, key) else Window([key] + list, cap)
    ensures Bounded(list, Blank, "", cap) == Window([""] + list, cap)
  {
  }

  lemma AgeStandsFor(c: Cells, history: seq<Op<string>>, maxsize: nat)
    requires StandsFor(c, history, maxsize)
    ensures StandsFor(Aged(c, maxsize), history + [Blank], maxsize)
  {
    hide Sound, Stack, KeysNotBlank, Hits, Window, Labels, Trimmed, TrimmedDict, Bounded;
    OneMore(history, Blank, "", Capacity(maxsize));
    BoundedTouch(Content(c.list), "", Capacity(maxsize));
    AgeKeeps(c, KEY, maxsize);
  }

  // Stated on maxsize itself: the list stays shorter, and a key that was touched and then left
  // alone is in the map as long as it, the blanks and the other distinct keys fit below maxsize.
  lemma SizeStaysBelow(c: Cells, history: seq<Op<string>>, maxsize: nat)
    requires StandsFor(c, history, maxsize)
    ensures |c.list| < maxsize || (maxsize == 0 && c.list == [])
  {
  }

  lemma InMapIff(c: Cells, h: seq<Op<string>>, k: string, ops: seq<Op<string>>, maxsize: nat)
    requires StandsFor(c, h + [Touch(k)] + ops, maxsize) && k != "" && Touch(k) !in ops
    ensures k in c.dict <==> Blanks(ops) + |Touched(ops)| + 1 < maxsize
  {
    hide Window, Stack;
    RememberedIff(h, k, ops, "", Capacity(maxsize));
    SoundLinks(c, maxsize);
    MapIsContent(c.list, c.dict, k);
  }

  // A key that was never touched is not in the map.
  lemma UnknownIsNotInMap(c: Cells, history: seq<Op<string>>, k: string, maxsize: nat)
    requires StandsFor(c, history, maxsize) && k != "" && Touch(k) !in history
    ensures k !in c.dict
  {
    hide Window;
    SoundLinks(c, maxsize);
    MapIsContent(c.list, c.dict, k);
    UntouchedIsNotStacked(history, k, "");
    WindowIsPart(Stack(history, ""), Capacity(maxsize));
  }

  lemma WindowIsPart<K>(s: seq<K>, cap: nat)
    ensures forall x :: x in Window(s, cap) ==> x in s
  {
  }

  lemma {:induction false} UntouchedIsNotStacked<K>(h: seq<Op<K>>, k: K, blank: K)
    requires k != blank && Touch(k) !in h
    ensures k !in Stack(h, blank)
  {
    if h != [] {
      var before, op := h[..|h| - 1], h[|h| - 1];
      assert op in h;
      assert forall x :: x in before ==> x in h;
      UntouchedIsNotStacked(before, k, blank);
      if op.Touch? {
        RemoveMembers(Stack(before, blank), op.key);
      }
    }
  }

  // The hit count is the number of touches since the key came in, the first one included.
  lemma {:induction false} HitsAreTouches<K(!new)>(h: seq<Op<K>>, k: K, ops: seq<Op<K>>, blank: K, cap: nat)
    requires k !in Window(Stack(h, blank), cap)
    requires forall i :: 0 <= i < |ops| && ops[i] == Touch(k) ==> k in Window(Stack(h + [Touch(k)] + ops[..i], blank), cap)
    ensures Hits(h + [Touch(k)] + ops, blank, k, cap) == 1 + multiset(ops)[Touch(k)]
  {
    hide Window, Stack;
    if ops == [] {
      assert (h + [Touch(k)])[..|h|] == h;
      assert h + [Touch(k)] + ops == h + [Touch(k)];
    } else {
      var n := |ops| - 1;
      var init := ops[..n];
      forall i | 0 <= i < |init| && init[i] == Touch(k) ensures k in Window(Stack(h + [Touch(k)] + init[..i], blank), cap) {
        assert ops[..i] == init[..i] && ops[i] == init[i];
      }
      HitsAreTouches(h, k, init, blank, cap);
      assert ops == init + [ops[n]];
      assert (h + [Touch(k)] + ops)[..|h| + 1 + n] == h + [Touch(k)] + init;
    }
  }

  lemma AfterSnoc(c: Cells, n: nat, maxsize: nat)
    ensures After(c, Repeat(Blank, n + 1), maxsize) == Aged(After(c, Repeat(Blank, n), maxsize), maxsize)
  {
    assert Repeat<Op<string>>(Blank, n + 1)[..n] == Repeat<Op<string>>(Blank, n);
  }

  lemma OneMoreBlank(h: seq<Op<string>>, n: nat)
    ensures (h + Repeat(Blank, n)) + [Blank] == h + Repeat(Blank, n + 1)
  {
  }

  class LruImpl {
    var list: seq<Node>
    var dict: map<string, PosCnt>
    const maxsize: nat
    const maxsec: nat
    var access: nat
    var cached: nat
    var nextId: nat                     // identities handed out so far
    ghost var history: seq<Op<string>>  // every key cached and every blank pushed

    ghost function State(): Cells
      reads this
    {
      Cells(list, dict, nextId)
    }

    ghost predicate Valid()
      reads this
    {
      maxsec > 0 && StandsFor(State(), history, maxsize)
    }

    constructor (maxsize: nat, maxsec: nat)
      requires maxsec > 0
      ensures Valid() && history == [] && this.maxsize == maxsize && this.maxsec == maxsec
    {
      this.maxsize, this.maxsec := maxsize, maxsec;
      list, dict, access, cached, nextId := [], map[], 1, 0, 0;
      history := [];
    }

    method PushFront(key: string)
      modifies this`list, this`nextId
      ensures State() == Pushed(old(State()), key)
    {
      list := [Node(nextId, key)] + list;
      nextId := nextId + 1;
    }

    // remove_tail with its default count of one.
    method RemoveTail()
      modifies this`list, this`dict
      ensures State() == Evicted(old(State()), maxsize)
    {
      if |list| < maxsize { return; }
      if |list| <= 0 { return; }
      var last := list[|list| - 1];
      list := list[..|list| - 1];
      if last.key != "" {
        dict := dict - {last.key};
      }
    }

    // The one thing a caller owes: the map entry's iterator, if there is one, is still good.
    method Cache(key: string, cnt: nat) returns (hit: bool)
      requires !Dangles(State(), key)
      modifies this
      ensures State() == Cached(old(State()), key, maxsize) && history == old(history) + [Touch(key)]
      ensures hit <==> key in old(dict) && old(dict)[key].cnt + 1 >= cnt
      ensures old(Valid()) && key != "" ==> Valid() && (|list| < maxsize || maxsize == 0)
      ensures old(Valid()) && key != "" ==>
        (hit <==> key in Window(Stack(old(history), ""), Capacity(maxsize))
                  && Hits(history, "", key, Capacity(maxsize)) >= cnt)
    {
      hide StandsFor, Moved, Inserted, Window, Stack, Hits, Dangles;
      ghost var c := State();
      if Valid() && key != "" {
        CacheStandsFor(c, history, key, maxsize);
        SizeStaysBelow(Cached(c, key, maxsize), history + [Touch(key)], maxsize);
      }
      access := access + 1;
      if key !in dict {
        InsertNew(key);
        hit := false;
      } else {
        cached := cached + 1;
        var found := dict[key];
        MoveToFront(key);
        hit := found.cnt + 1 >= cnt;
      }
      history := history + [Touch(key)];
    }

    // The not-found branch: push, remember the position, evict.
    method InsertNew(key: string)
      requires key !in dict
      modifies this`list, this`dict, this`nextId
      ensures State() == Inserted(old(State()), key, maxsize)
    {
      PushFront(key);
      dict := dict[key := PosCnt(list[0].id, 1)];
      RemoveTail();
    }

    // The found branch: the node goes to the front under a new identity.
    method MoveToFront(key: string)
      requires key in dict && !Dangles(State(), key)
      modifies this`list, this`dict, this`nextId
      ensures State() == Moved(old(State()), key)
    {
      var hit := dict[key];
      list := EraseNode(list, hit.pos);
      PushFront(key);
      dict := dict[key := PosCnt(list[0].id, hit.cnt + 1)];
    }

    // empty_head and remove_tail, one blank.
    method AgeOnce()
      modifies this`list, this`dict, this`nextId, this`history
      ensures State() == Aged(old(State()), maxsize) && history == old(history) + [Blank]
      ensures old(Valid()) ==> Valid() && (|list| < maxsize || maxsize == 0)
    {
      hide StandsFor;
      if Valid() {
        AgeStandsFor(State(), history, maxsize);
        SizeStaysBelow(Aged(State(), maxsize), history + [Blank], maxsize);
      }
      PushFront("");
      RemoveTail();
      history := history + [Blank];
    }

    method TimeExpire()
      requires maxsec > 0
      modifies this`list, this`dict, this`nextId, this`history
      ensures var blanks := Repeat<Op<string>>(Blank, ExpirePerCall(maxsize, maxsec));
        State() == After(old(State()), blanks, maxsize) && history == old(history) + blanks
      ensures old(Valid()) ==> Valid()
    {
      hide StandsFor, Aged;
      var expire := maxsize / maxsec;
      if expire * maxsec < maxsize {
        expire := expire + 1;
      }
      var i := 0;
      assert Repeat<Op<string>>(Blank, 0) == [];
      while i < expire
        invariant 0 <= i <= expire && (old(Valid()) ==> Valid())
        invariant State() == After(old(State()), Repeat(Blank, i), maxsize)
        invariant history == old(history) + Repeat(Blank, i)
      {
        OneMoreBlank(old(history), i);
        AfterSnoc(old(State()), i, maxsize);
        AgeOnce();
        i := i + 1;
      }
    }
  }

  // uniq_method: an event goes to the next method when its key is not remembered.
  class UniqMethod {
    const lru: LruImpl
    var emitted: seq<string>

    ghost predicate Valid()
      reads this, lru
    {
      lru.Valid() && emitted == Emitted(lru.history, "", Capacity(lru.maxsize))
    }

    constructor (maxcnt: nat, maxsec: nat)
      requires maxsec > 0
      ensures Valid() && fresh(lru) && lru.maxsize == maxcnt && lru.maxsec == maxsec
      ensures lru.history == Repeat(Blank, ExpirePerCall(maxcnt, maxsec))
    {
      lru := new LruImpl(maxcnt, maxsec);
      emitted := [];
      new;
      lru.TimeExpire();
      EmittedBlanks([], ExpirePerCall(maxcnt, maxsec), "", Capacity(maxcnt));
      assert [] + lru.history == lru.history;
    }

    method Proc(key: string)
      requires !Dangles(lru.State(), key)
      modifies this, lru
      ensures lru.State() == Cached(old(lru.State()), key, lru.maxsize)
      ensures lru.history == old(lru.history) + [Touch(key)]
      ensures emitted == old(emitted) + if key in old(lru.dict) then [] else [key]
      ensures old(Valid()) && key != "" ==> Valid()
      ensures old(Valid()) && key != "" ==>
        (key in old(lru.dict) <==> key in Window(Stack(old(lru.history), ""), Capacity(lru.maxsize)))
    {
      hide StandsFor, Dangles, Cached;
      ghost var before := lru.history;
      if lru.Valid() && key != "" {
        CacheStandsFor(lru.State(), before, key, lru.maxsize);
      }
      var hit := lru.Cache(key, 1);
      if !hit {
        emitted := emitted + [key];
      }
      assert lru.history[..|before|] == before;
    }

    method TimeDo()
      requires Valid()
      modifies lru
      ensures Valid() && lru.history == old(lru.history) + Repeat(Blank, ExpirePerCall(lru.maxsize, lru.maxsec))
    {
      hide StandsFor;
      EmittedBlanks(lru.history, ExpirePerCall(lru.maxsize, lru.maxsec), "", Capacity(lru.maxsize));
      lru.TimeExpire();
    }
  }

  lemma {:induction false} EmittedBlanks(h: seq<Op<string>>, n: nat, blank: string, cap: nat)
    ensures Emitted(h + Repeat(Blank, n), blank, cap) == Emitted(h, blank, cap)
  {
    var b := Repeat<Op<string>>(Blank, n);
    if n == 0 {
      assert h + b == h;
    } else {
      assert (h + b)[..|h| + n - 1] == h + Repeat(Blank, n - 1);
      EmittedBlanks(h, n - 1, blank, cap);
    }
  }
}
