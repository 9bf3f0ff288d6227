/**
 * What caching the empty key does to `lru_impl`.  It is pushed like a blank and taken for one
 * when it falls off, so its map entry stays behind, and the next cache("") would erase a list
 * node that no longer exists.
 */
module LruEmptyKey {
  import opened SeqFacts
  import opened LruSpec
  import opened LruCells
  import opened Lru

  // The node with the given identity, and the key of every other one.
  datatype Mark = Marked | Key(key: string)

  function Marker(id: nat): Node -> Mark {
    (n: Node) => if n.id == id then Marked else Key(n.key)
  }

  const BLANK: Mark := Key("")

  // ---- Any list without duplicates is the stack of some history ----

  lemma {:induction false} HistoryOf<K(!new)>(s: seq<K>, blank: K) returns (h: seq<Op<K>>)
    requires NoDuplicateKeys(s, blank)
    ensures Stack(h, blank) == s && KeysNotBlank(h, blank)
  {
    if s == [] {
      h := [];
    } else {
      var before := HistoryOf(s[1..], blank);
      var op := if s[0] == blank then Blank else Touch(s[0]);
      h := before + [op];
      StackSnoc(before, op, blank);
      RemoveMembers(s[1..], s[0]);
      assert s == [s[0]] + s[1..];
    }
  }

  lemma OtherLabel(list: seq<Node>, dict: map<string, PosCnt>, i: nat, j: nat, id: nat)
    requires Linked(list, dict) && DistinctIds(list, id) && i < j < |list| && list[i].key != ""
    ensures Labels(list, Marker(id))[i] != Labels(list, Marker(id))[j]
  {
    assert list[i] in list && list[j] in list;
  }

  lemma {:induction false} LabelsDistinct(list: seq<Node>, dict: map<string, PosCnt>, i: nat, id: nat)
    requires Linked(list, dict) && DistinctIds(list, id) && i <= |list|
    ensures NoDuplicateKeys(Labels(list, Marker(id))[i..], BLANK)
    decreases |list| - i
  {
    var s := Labels(list, Marker(id));
    if i < |list| {
      LabelsDistinct(list, dict, i + 1, id);
      assert s[i..][1..] == s[i + 1..];
      forall j | i < j < |s| && list[i].key != "" ensures s[i] != s[j] {
        OtherLabel(list, dict, i, j, id);
      }
      assert s[i] == Key(list[i].key);
    }
  }

  // ---- The operations seen through the marker ----

  function Lift(ops: seq<Op<string>>): seq<Op<Mark>> {
    seq(|ops|, i requires 0 <= i < |ops| => LiftOp(ops[i]))
  }

  function LiftOp(op: Op<string>): Op<Mark> {
    if op.Blank? then Blank else Touch(Key(op.key))
  }

  // The cells after cache("") handed out identity `id` and other operations followed.
  ghost predicate Follows(c: Cells, id: nat, maxsize: nat) {
    && Sound(c, maxsize) && id < c.nextId
    && "" in c.dict && c.dict[""].pos == id
    && forall n :: n in c.list && n.id == id ==> n.key == ""
  }

  lemma FollowsStep(c: Cells, id: nat, op: Op<string>, maxsize: nat)
    requires Follows(c, id, maxsize) && op != Touch("")
    ensures var d := After(c, [op], maxsize);
      && Follows(d, id, maxsize)
      && Labels(d.list, Marker(id)) == Bounded(Labels(c.list, Marker(id)), LiftOp(op), BLANK, Capacity(maxsize))
  {
    hide Sound, DistinctIds, Linked, Labels;
    var d := After(c, [op], maxsize);
    assert [op][..0] == [] && After(c, [], maxsize) == c;
    if op.Blank? {
      AgeKeeps(c, Marker(id), maxsize);
      SameMarked(c, d, id, Node(c.nextId, ""));
    } else if op.key in c.dict {
      FollowsMove(c, id, op.key, maxsize);
    } else {
      InsertKeeps(c, op.key, Marker(id), maxsize);
      NotLabelled(c, id, op.key, maxsize);
      SameMarked(c, d, id, Node(c.nextId, op.key));
    }
  }

  lemma NotLabelled(c: Cells, id: nat, key: string, maxsize: nat)
    requires Follows(c, id, maxsize) && key != ""
    ensures key in c.dict <==> Key(key) in Labels(c.list, Marker(id))
  {
    InLabels(c.list, Marker(id), Key(key));
    if key in c.dict {
      var n := Node(c.dict[key].pos, key);
      assert n in c.list && n.id != id && Marker(id)(n) == Key(key);
    }
  }

  lemma FollowsMove(c: Cells, id: nat, key: string, maxsize: nat)
    requires Follows(c, id, maxsize) && key != "" && key in c.dict
    ensures var d := Moved(c, key);
      && Follows(d, id, maxsize)
      && Labels(d.list, Marker(id)) == Bounded(Labels(c.list, Marker(id)), Touch(Key(key)), BLANK, Capacity(maxsize))
  {
    var n, moved := Node(c.dict[key].pos, key), Node(c.nextId, key);
    assert n in c.list && n.id != id;
    MoveKeeps(c, key, Marker(id), maxsize);
    NotLabelled(c, id, key, maxsize);
    assert Marker(id)(n) == Marker(id)(moved) == Key(key);
    EraseFacts(c.list, n, c.nextId);
    hide Sound, DistinctIds, Linked, Labels;
    SameMarked(c, Moved(c, key), id, moved);
  }

  lemma SameMarked(c: Cells, d: Cells, id: nat, node: Node)
    requires forall n :: n in d.list ==> n in c.list || n == node
    requires forall n :: n in c.list && n.id == id ==> n.key == ""
    requires node.id != id
    ensures forall n :: n in d.list && n.id == id ==> n.key == ""
  {
  }

  lemma {:induction false} FollowsRun(c: Cells, id: nat, h: seq<Op<Mark>>, ops: seq<Op<string>>, maxsize: nat)
    requires Follows(c, id, maxsize) && Touch("") !in ops && KeysNotBlank(h, BLANK)
    requires Labels(c.list, Marker(id)) == Window(Stack(h, BLANK), Capacity(maxsize))
    ensures var d := After(c, ops, maxsize);
      && Follows(d, id, maxsize) && KeysNotBlank(h + Lift(ops), BLANK)
      && Labels(d.list, Marker(id)) == Window(Stack(h + Lift(ops), BLANK), Capacity(maxsize))
  {
    hide After, Follows, Labels, Window, Stack, KeysNotBlank, Bounded, Lift;
    if ops == [] {
      NoOps(c, maxsize);
      assert h + [] == h;
    } else {
      var n := |ops| - 1;
      var init, op := ops[..n], ops[n];
      assert forall o :: o in init ==> o in ops;
      FollowsRun(c, id, h, init, maxsize);
      AfterLast(c, ops, maxsize);
      FollowsStep(After(c, init, maxsize), id, op, maxsize);
      LiftLast(ops);
      ConcatAssoc(h, Lift(init), [LiftOp(op)]);
      OneMore(h + Lift(init), LiftOp(op), BLANK, Capacity(maxsize));
    }
  }

  lemma NoOps(c: Cells, maxsize: nat)
    ensures After(c, [], maxsize) == c && Lift([]) == []
  {
  }

  lemma AfterLast(c: Cells, ops: seq<Op<string>>, maxsize: nat)
    requires ops != []
    ensures After(c, ops, maxsize) == After(After(c, ops[..|ops| - 1], maxsize), [ops[|ops| - 1]], maxsize)
  {
    var b, op := After(c, ops[..|ops| - 1], maxsize), ops[|ops| - 1];
    assert [op][..0] == [] && After(b, [], maxsize) == b;
  }

  lemma LiftLast(ops: seq<Op<string>>)
    requires ops != []
    ensures Lift(ops) == Lift(ops[..|ops| - 1]) + [LiftOp(ops[|ops| - 1])]
  {
  }

  // ---- Counting through the marker ----

  lemma CountLast<K>(ops: seq<Op<K>>, op: Op<K>)
    ensures Blanks(ops + [op]) == Blanks(ops) + if op.Blank? then 1 else 0
    ensures Touched(ops + [op]) == if op.Blank? then Touched(ops) else Touched(ops) + {op.key}
  {
    assert (ops + [op])[..|ops|] == ops;
  }

  lemma {:induction false} LiftCounts(ops: seq<Op<string>>)
    ensures Blanks(Lift(ops)) == Blanks(ops) && |Touched(Lift(ops))| == |Touched(ops)|
    ensures forall k :: Key(k) in Touched(Lift(ops)) <==> k in Touched(ops)
    ensures Marked !in Touched(Lift(ops)) && Touch(Marked) !in Lift(ops)
  {
    hide Lift, Blanks, Touched;
    if ops == [] {
      NothingTouched();
    } else {
      var init, op := ops[..|ops| - 1], ops[|ops| - 1];
      LiftCounts(init);
      LiftLast(ops);
      assert ops == init + [op];
      CountLast(init, op);
      CountLast(Lift(init), LiftOp(op));
      if op.Touch? {
        OneMember(Touched(init), op.key);
        OneMember(Touched(Lift(init)), Key(op.key));
      }
    }
  }

  lemma OneMember<T>(s: set<T>, x: T)
    ensures |s + {x}| == |s| + if x in s then 0 else 1
  {
    if x in s {
      assert s + {x} == s;
    }
  }

  lemma NothingTouched()
    ensures Lift([]) == [] && Blanks<string>([]) == 0 && Touched<string>([]) == {}
    ensures Blanks<Mark>([]) == 0 && Touched<Mark>([]) == {}
  {
  }

  // ---- What every history keeps ----

  // The empty key's map entry, if there is one, points at no node but a blank.
  ghost predicate Orderly(c: Cells, maxsize: nat) {
    Sound(c, maxsize) && ("" in c.dict ==> Follows(c, c.dict[""].pos, maxsize))
  }

  // Only the empty key's iterator can go bad.
  lemma OnlyEmptyKeyDangles(c: Cells, maxsize: nat, key: string)
    requires Orderly(c, maxsize) && key != ""
    ensures !Dangles(c, key)
  {
    if key in c.dict {
      assert Node(c.dict[key].pos, key) in c.list;
    }
  }

  lemma ValidIsOrderly(c: Cells, history: seq<Op<string>>, maxsize: nat)
    requires StandsFor(c, history, maxsize)
    ensures Orderly(c, maxsize) && !Dangles(c, "")
  {
  }

  // The found branch for the empty key, on a good iterator.
  lemma EmptyKeyMoved(c: Cells, maxsize: nat)
    requires Orderly(c, maxsize) && "" in c.dict && !Dangles(c, "")
    ensures var d, rest := Moved(c, ""), EraseNode(c.list, c.dict[""].pos);
      && Follows(d, c.nextId, maxsize) && d.list == [Node(c.nextId, "")] + rest
      && DistinctIds(rest, c.nextId) && Linked(rest, c.dict)
  {
    var n, node := Node(c.dict[""].pos, ""), Node(c.nextId, "");
    assert n in c.list by {
      var m :| m in c.list && m.id == n.id;
      assert m == n;
    }
    EraseFacts(c.list, n, c.nextId);
    var rest := EraseNode(c.list, n.id);
    assert Linked(rest, c.dict);
    BlankKeeps(rest, c.dict, node);
    assert Moved(c, "").list == [node] + rest;
  }

  // Each operation keeps the order, cache("") included as long as its iterator is good.
  lemma StepKeepsOrder(c: Cells, op: Op<string>, maxsize: nat)
    requires Orderly(c, maxsize) && (op.Touch? ==> !Dangles(c, op.key))
    ensures Orderly(After(c, [op], maxsize), maxsize)
  {
    hide Sound, DistinctIds, Linked, Labels;
    assert [op][..0] == [] && After(c, [], maxsize) == c;
    if op == Touch("") {
      if "" in c.dict {
        EmptyKeyMoved(c, maxsize);
      } else {
        var h := EmptyKeyInserted(c, maxsize);
      }
    } else if "" in c.dict {
      FollowsStep(c, c.dict[""].pos, op, maxsize);
    } else if op.Blank? {
      AgeKeeps(c, KEY, maxsize);
    } else if op.key in c.dict {
      OnlyLabel(c, op.key, maxsize);
      MoveKeeps(c, op.key, KEY, maxsize);
    } else {
      InsertKeeps(c, op.key, KEY, maxsize);
      NoEmptyEntry(c, op.key, maxsize);
    }
  }

  lemma OnlyLabel(c: Cells, key: string, maxsize: nat)
    requires Sound(c, maxsize) && key in c.dict
    ensures forall m :: m in c.list && KEY(m) == KEY(Node(c.dict[key].pos, key)) ==> m.key == key
  {
  }

  lemma NoEmptyEntry(c: Cells, key: string, maxsize: nat)
    requires "" !in c.dict && key != ""
    ensures "" !in Inserted(c, key, maxsize).dict
  {
  }

  // ---- The theorem ----

  // The cells right after cache(""), by either branch.
  lemma EmptyKeyInserted(c: Cells, maxsize: nat) returns (h: seq<Op<Mark>>)
    requires Sound(c, maxsize) && "" !in c.dict
    ensures var d := Inserted(c, "", maxsize);
      && Follows(d, c.nextId, maxsize) && KeysNotBlank(h + [Touch(Marked)], BLANK)
      && Labels(d.list, Marker(c.nextId)) == Window(Stack(h + [Touch(Marked)], BLANK), Capacity(maxsize))
  {
    var id, labels := c.nextId, Labels(c.list, Marker(c.nextId));
    h := HistoryOfUnmarked(c.list, c.dict, id);
    InsertKeeps(c, "", Marker(id), maxsize);
    EntryStays(c, maxsize);
  }

  // A list that lacks the marked node, and the marked node put in front.
  lemma HistoryOfUnmarked(list: seq<Node>, dict: map<string, PosCnt>, id: nat) returns (h: seq<Op<Mark>>)
    requires Linked(list, dict) && DistinctIds(list, id)
    ensures KeysNotBlank(h + [Touch(Marked)], BLANK)
    ensures Stack(h + [Touch(Marked)], BLANK) == [Marked] + Labels(list, Marker(id))
  {
    var labels := Labels(list, Marker(id));
    LabelsDistinct(list, dict, 0, id);
    assert labels[0..] == labels;
    h := HistoryOf(labels, BLANK);
    StackSnoc(h, Touch(Marked), BLANK);
    assert Marked !in labels by { InLabels(list, Marker(id), Marked); }
    RemoveMembers(labels, Marked);
  }

  lemma EntryStays(c: Cells, maxsize: nat)
    requires Sound(c, maxsize) && "" !in c.dict
    ensures var d := Inserted(c, "", maxsize);
      && "" in d.dict && d.dict[""].pos == c.nextId && c.nextId < d.nextId
      && forall n :: n in d.list && n.id == c.nextId ==> n.key == ""
  {
  }

  lemma EmptyKeyCached(c: Cells, maxsize: nat) returns (h: seq<Op<Mark>>)
    requires Orderly(c, maxsize) && !Dangles(c, "")
    ensures var d := Cached(c, "", maxsize);
      && Follows(d, c.nextId, maxsize) && KeysNotBlank(h + [Touch(Marked)], BLANK)
      && Labels(d.list, Marker(c.nextId)) == Window(Stack(h + [Touch(Marked)], BLANK), Capacity(maxsize))
  {
    if "" in c.dict {
      var rest := EraseNode(c.list, c.dict[""].pos);
      EmptyKeyMoved(c, maxsize);
      h := HistoryOfUnmarked(rest, c.dict, c.nextId);
      hide Linked, DistinctIds, Stack, KeysNotBlank;
      var d := Moved(c, "");
      assert Labels(d.list, Marker(c.nextId)) == [Marked] + Labels(rest, Marker(c.nextId));
    } else {
      h := EmptyKeyInserted(c, maxsize);
    }
  }

  // After any history that ends in a safe cache("") and any operations without another one,
  // the map entry of the empty key points at no list node if and only if as many blanks and
  // other distinct keys as the capacity have come in.  Until then the next cache("") is safe.
  lemma EmptyKeyDanglesIff(c: Cells, ops: seq<Op<string>>, maxsize: nat)
    requires Orderly(c, maxsize) && !Dangles(c, "") && Touch("") !in ops
    ensures var d := After(Cached(c, "", maxsize), ops, maxsize);
      && Orderly(d, maxsize) && "" in d.dict
      && (Dangles(d, "") <==> Blanks(ops) + |Touched(ops)| >= Capacity(maxsize))
  {
    hide Labels, Window, Stack, KeysNotBlank, Sound, After, Cached;
    var id, cap := c.nextId, Capacity(maxsize);
    var h := EmptyKeyCached(c, maxsize);
    var first := Cached(c, "", maxsize);
    FollowsRun(first, id, h + [Touch(Marked)], ops, maxsize);
    LiftCounts(ops);
    RememberedIff(h, Marked, Lift(ops), BLANK, cap);
    var d := After(first, ops, maxsize);
    InLabels(d.list, Marker(id), Marked);
    assert Follows(d, id, maxsize) ==> Sound(d, maxsize);
  }
}
