/**
 * What the bounded cache stands for: the unbounded most-recently-used stack of everything
 * that was ever pushed to the front.  `blank` is the marker that ages keys out; no key
 * equals it.
 */
module LruSpec {
  import opened SeqFacts

  datatype Op<K> = Touch(key: K) | Blank

  // Take a key out of the stack; keys occur once, so the first occurrence is the only one.
  function Remove<K(==)>(s: seq<K>, k: K): seq<K> {
    if s == [] then [] else if s[0] == k then s[1..] else [s[0]] + Remove(s[1..], k)
  }

  function Step<K(==)>(s: seq<K>, op: Op<K>, blank: K): seq<K> {
    match op
    case Touch(k) => [k] + Remove(s, k)
    case Blank => [blank] + s
  }

  // The stack after a history, most recent entry first.
  function Stack<K(==)>(h: seq<Op<K>>, blank: K): seq<K> {
    if h == [] then [] else Step(Stack(h[..|h| - 1], blank), h[|h| - 1], blank)
  }

  function Window<K>(s: seq<K>, cap: nat): seq<K> {
    if |s| <= cap then s else s[..cap]
  }

  // How often k was touched since it last entered the window.
  function Hits<K(==)>(h: seq<Op<K>>, blank: K, k: K, cap: nat): nat {
    if h == [] then 0
    else
      var before := h[..|h| - 1];
      if h[|h| - 1] != Touch(k) then Hits(before, blank, k, cap)
      else if k in Window(Stack(before, blank), cap) then Hits(before, blank, k, cap) + 1
      else 1
  }

  predicate KeysNotBlank<K(==)>(h: seq<Op<K>>, blank: K) {
    forall i :: 0 <= i < |h| && h[i].Touch? ==> h[i].key != blank
  }

  predicate NoDuplicateKeys<K(==)>(s: seq<K>, blank: K) {
    s == [] || ((s[0] == blank || s[0] !in s[1..]) && NoDuplicateKeys(s[1..], blank))
  }

  lemma {:induction false} RemoveMembers<K>(s: seq<K>, k: K)
    ensures k !in s ==> Remove(s, k) == s
    ensures forall x :: x in Remove(s, k) ==> x in s
    ensures forall x :: x in s && x != k ==> x in Remove(s, k)
    ensures k in s ==> |Remove(s, k)| == |s| - 1
  {
    if s != [] && s[0] != k {
      RemoveMembers(s[1..], k);
      assert s == [s[0]] + s[1..];
    }
  }

  lemma {:induction false} RemoveKeepsDistinct<K>(s: seq<K>, k: K, blank: K)
    requires NoDuplicateKeys(s, blank) && k != blank
    ensures NoDuplicateKeys(Remove(s, k), blank) && k !in Remove(s, k)
  {
    if s != [] && s[0] != k {
      var t := s[1..];
      RemoveKeepsDistinct(t, k, blank);
      RemoveMembers(t, k);
      assert Remove(s, k)[1..] == Remove(t, k);
    }
  }

  lemma {:induction false} RemoveSplit<K>(a: seq<K>, b: seq<K>, k: K)
    ensures k in a ==> Remove(a + b, k) == Remove(a, k) + b
    ensures k !in a ==> Remove(a + b, k) == a + Remove(b, k)
  {
    if a == [] {
      assert a + b == b;
    } else {
      assert (a + b)[1..] == a[1..] + b;
      RemoveSplit(a[1..], b, k);
      assert a == [a[0]] + a[1..];
    }
  }

  lemma {:induction false} StackHasNoDuplicates<K>(h: seq<Op<K>>, blank: K)
    requires KeysNotBlank(h, blank)
    ensures NoDuplicateKeys(Stack(h, blank), blank)
  {
    if h != [] {
      var before := h[..|h| - 1];
      StackHasNoDuplicates(before, blank);
      if h[|h| - 1].Touch? {
        RemoveKeepsDistinct(Stack(before, blank), h[|h| - 1].key, blank);
      }
      assert Stack(h, blank)[1..] == if h[|h| - 1].Touch? then Remove(Stack(before, blank), h[|h| - 1].key) else Stack(before, blank);
    }
  }

  // ---- The bounded list is the front of the stack ----

  // One cache or blank on the bounded list: a remembered key moves to the front, anything
  // else is pushed and the last entry falls off when the list is full.
  function Bounded<K(==)>(list: seq<K>, op: Op<K>, blank: K, cap: nat): seq<K> {
    match op
    case Touch(k) => if k in list then [k] + Remove(list, k) else Window([k] + list, cap)
    case Blank => Window([blank] + list, cap)
  }

  // Forgetting what lies beyond the capacity never changes the window.
  lemma WindowOfStep<K>(s: seq<K>, op: Op<K>, blank: K, cap: nat)
    requires NoDuplicateKeys(s, blank) && (op.Touch? ==> op.key != blank)
    ensures Bounded(Window(s, cap), op, blank, cap) == Window(Step(s, op, blank), cap)
  {
    if op.Touch? && |s| > cap {
      TouchBeyond(s[..cap], s[cap..], op.key, blank);
      assert s == s[..cap] + s[cap..];
    } else if op.Touch? {
      RemoveMembers(s, op.key);
    }
  }

  lemma TouchBeyond<K>(a: seq<K>, b: seq<K>, k: K, blank: K)
    requires b != []
    ensures Bounded(a, Touch(k), blank, |a|) == Window([k] + Remove(a + b, k), |a|)
  {
    RemoveSplit(a, b, k);
    RemoveMembers(a, k);
    if k in a {
      assert [k] + (Remove(a, k) + b) == ([k] + Remove(a, k)) + b;
    } else {
      assert [k] + (a + Remove(b, k)) == ([k] + a) + Remove(b, k);
    }
  }

  // How the window and the hit counts move with one more operation.
  lemma OneMore<K(!new)>(h: seq<Op<K>>, op: Op<K>, blank: K, cap: nat)
    requires KeysNotBlank(h, blank) && (op.Touch? ==> op.key != blank)
    ensures KeysNotBlank(h + [op], blank)
    ensures Window(Stack(h + [op], blank), cap) == Bounded(Window(Stack(h, blank), cap), op, blank, cap)
    ensures forall k :: op != Touch(k) ==> Hits(h + [op], blank, k, cap) == Hits(h, blank, k, cap)
    ensures op.Touch? ==>
      Hits(h + [op], blank, op.key, cap) == (if op.key in Window(Stack(h, blank), cap) then Hits(h, blank, op.key, cap) + 1 else 1)
  {
    assert (h + [op])[..|h|] == h;
    StackHasNoDuplicates(h, blank);
    WindowOfStep(Stack(h, blank), op, blank, cap);
  }

  // ---- Stack distance and ageing ----

  function Blanks<K>(ops: seq<Op<K>>): nat {
    if ops == [] then 0 else Blanks(ops[..|ops| - 1]) + if ops[|ops| - 1].Blank? then 1 else 0
  }

  function Touched<K(==)>(ops: seq<Op<K>>): set<K> {
    if ops == [] then {} else Touched(ops[..|ops| - 1]) + if ops[|ops| - 1].Blank? then {} else {ops[|ops| - 1].key}
  }

  // What lies in front of a key that was touched and then left alone: as many entries as
  // there were blanks and other distinct keys.
  ghost predicate InFront<K(!new)>(front: seq<K>, k: K, blanks: nat, touched: set<K>, blank: K) {
    && |front| == blanks + |touched|
    && k !in front && blank !in touched
    && (forall x :: x in front && x != blank <==> x in touched)
    && NoDuplicateKeys(front, blank)
  }

  lemma BlankInFront<K(!new)>(front: seq<K>, k: K, blanks: nat, touched: set<K>, blank: K)
    requires InFront(front, k, blanks, touched, blank) && k != blank
    ensures InFront([blank] + front, k, blanks + 1, touched, blank)
  {
    assert ([blank] + front)[1..] == front;
  }

  lemma OldKeyInFront<K(!new)>(front: seq<K>, k: K, blanks: nat, touched: set<K>, x: K, blank: K)
    requires InFront(front, k, blanks, touched, blank) && x != k && x != blank && x in front
    ensures InFront([x] + Remove(front, x), k, blanks, touched + {x}, blank)
  {
    RemoveMembers(front, x);
    RemoveKeepsDistinct(front, x, blank);
    assert ([x] + Remove(front, x))[1..] == Remove(front, x);
    assert touched + {x} == touched;
  }

  lemma NewKeyInFront<K(!new)>(front: seq<K>, k: K, blanks: nat, touched: set<K>, x: K, blank: K)
    requires InFront(front, k, blanks, touched, blank) && x != k && x != blank && x !in front
    ensures InFront([x] + front, k, blanks, touched + {x}, blank)
  {
    assert ([x] + front)[1..] == front;
  }

  // A step on a stack that holds k behind `front`.
  lemma StepAround<K>(front: seq<K>, k: K, tail: seq<K>, op: Op<K>, blank: K)
    requires op != Touch(k)
    ensures Step(front + [k] + tail, op, blank) ==
      match op
      case Blank => ([blank] + front) + [k] + tail
      case Touch(x) =>
        if x in front then ([x] + Remove(front, x)) + [k] + tail else ([x] + front) + [k] + Remove(tail, x)
  {
    if op.Blank? {
      Prepend(blank, front, [k], tail);
    } else {
      var x := op.key;
      RemoveSplit(front + [k], tail, x);
      RemoveSplit(front, [k], x);
      if x in front {
        Prepend(x, Remove(front, x), [k], tail);
      } else {
        Prepend(x, front, [k], Remove(tail, x));
      }
    }
  }

  lemma Prepend<K>(x: K, a: seq<K>, b: seq<K>, c: seq<K>)
    ensures [x] + (a + b + c) == ([x] + a) + b + c
  {
  }

  lemma StackSnoc<K>(h: seq<Op<K>>, op: Op<K>, blank: K)
    ensures Stack(h + [op], blank) == Step(Stack(h, blank), op, blank)
  {
    assert (h + [op])[..|h|] == h;
  }

  lemma NothingInFront<K(!new)>(k: K, blank: K)
    ensures InFront([], k, 0, {}, blank)
  {
  }

  lemma {:induction false} StackDistance<K(!new)>(h: seq<Op<K>>, k: K, ops: seq<Op<K>>, blank: K) returns (front: seq<K>, tail: seq<K>)
    requires k != blank && Touch(k) !in ops && Touch(blank) !in ops
    ensures Stack(h + [Touch(k)] + ops, blank) == front + [k] + tail
    ensures InFront(front, k, Blanks(ops), Touched(ops), blank)
  {
    hide InFront, Stack;
    if ops == [] {
      NothingInFront(k, blank);
      StackSnoc(h, Touch(k), blank);
      assert h + [Touch(k)] + ops == h + [Touch(k)];
      front, tail := [], Remove(Stack(h, blank), k);
      assert front + [k] + tail == [k] + tail;
    } else {
      var last, init := ops[|ops| - 1], ops[..|ops| - 1];
      SplitLast(h + [Touch(k)], ops);
      assert last in ops;
      StackSnoc(h + [Touch(k)] + init, last, blank);
      front, tail := StackDistance(h, k, init, blank);
      StepAround(front, k, tail, last, blank);
      if last.Blank? {
        BlankInFront(front, k, Blanks(init), Touched(init), blank);
        front := [blank] + front;
      } else if last.key in front {
        OldKeyInFront(front, k, Blanks(init), Touched(init), last.key, blank);
        front := [last.key] + Remove(front, last.key);
      } else {
        NewKeyInFront(front, k, Blanks(init), Touched(init), last.key, blank);
        front, tail := [last.key] + front, Remove(tail, last.key);
      }
    }
  }

  // A key is remembered exactly as long as fewer than `cap` blanks and other distinct keys
  // have come in since it was last touched.
  lemma RememberedIff<K(!new)>(h: seq<Op<K>>, k: K, ops: seq<Op<K>>, blank: K, cap: nat)
    requires KeysNotBlank(h + [Touch(k)] + ops, blank) && k != blank && Touch(k) !in ops
    ensures k in Window(Stack(h + [Touch(k)] + ops, blank), cap) <==> Blanks(ops) + |Touched(ops)| < cap
  {
    var all := h + [Touch(k)] + ops;
    forall i | 0 <= i < |ops| ensures ops[i] != Touch(blank) {
      assert all[|h| + 1 + i] == ops[i];
    }
    var front, tail := StackDistance(h, k, ops, blank);
    var s := Stack(all, blank);
    assert s[|front|] == k;
    if |front| < cap {
      assert Window(s, cap)[|front|] == k;
    } else {
      assert forall i :: 0 <= i < |Window(s, cap)| ==> Window(s, cap)[i] == front[i];
    }
  }

  // ceil(maxsize / maxsec), the number of blanks one call of time_expire pushes.
  function ExpirePerCall(maxsize: nat, maxsec: nat): nat
    requires maxsec > 0
  {
    var expire := maxsize / maxsec;
    if expire * maxsec < maxsize then expire + 1 else expire
  }

  lemma ExpireIsCeiling(maxsize: nat, maxsec: nat)
    requires maxsec > 0
    ensures maxsize <= ExpirePerCall(maxsize, maxsec) * maxsec < maxsize + maxsec
  {
    var q := maxsize / maxsec;
    assert maxsize == q * maxsec + maxsize % maxsec;
    assert (q + 1) * maxsec == q * maxsec + maxsec;
  }

  // The steady capacity: eviction already fires when the push makes the size equal maxsize.
  function Capacity(maxsize: nat): nat {
    if maxsize == 0 then 0 else maxsize - 1
  }

  // The ageing bound: a key that is not touched during maxsec calls of time_expire is
  // forgotten, whatever else is cached in between.
  lemma AgedOut<K(!new)>(h: seq<Op<K>>, k: K, ops: seq<Op<K>>, blank: K, maxsize: nat, maxsec: nat)
    requires maxsec > 0 && KeysNotBlank(h + [Touch(k)] + ops, blank) && k != blank && Touch(k) !in ops
    requires Blanks(ops) >= ExpirePerCall(maxsize, maxsec) * maxsec
    ensures k !in Window(Stack(h + [Touch(k)] + ops, blank), Capacity(maxsize))
  {
    ExpireIsCeiling(maxsize, maxsec);
    RememberedIff(h, k, ops, blank, Capacity(maxsize));
  }

  // A history in which each of `parts` is followed by one call of time_expire.
  function WithCalls<K>(parts: seq<seq<Op<K>>>, blanks: nat): seq<Op<K>> {
    if parts == [] then []
    else WithCalls(parts[..|parts| - 1], blanks) + parts[|parts| - 1] + Repeat(Blank, blanks)
  }

  lemma {:induction false} BlanksConcat<K>(a: seq<Op<K>>, b: seq<Op<K>>)
    ensures Blanks(a + b) == Blanks(a) + Blanks(b)
  {
    if b == [] {
      assert a + b == a;
    } else {
      var n := |b| - 1;
      SplitLast(a, b);
      BlanksConcat(a, b[..n]);
      AppendParts(a + b[..n], [b[n]]);
    }
  }

  lemma {:induction false} AllBlanks<K>(n: nat)
    ensures Blanks(Repeat<Op<K>>(Blank, n)) == n
  {
    if n > 0 {
      assert Repeat<Op<K>>(Blank, n)[..n - 1] == Repeat<Op<K>>(Blank, n - 1);
      AllBlanks<K>(n - 1);
    }
  }

  lemma {:induction false} BlanksOfCalls<K>(parts: seq<seq<Op<K>>>, blanks: nat)
    ensures Blanks(WithCalls(parts, blanks)) >= |parts| * blanks
  {
    hide Blanks;
    if parts != [] {
      var init, last := parts[..|parts| - 1], parts[|parts| - 1];
      BlanksOfCalls(init, blanks);
      AllBlanks<K>(blanks);
      BlanksConcat(WithCalls(init, blanks), last);
      BlanksConcat(WithCalls(init, blanks) + last, Repeat<Op<K>>(Blank, blanks));
      OneMoreTimes(|init|, blanks);
    }
  }

  lemma OneMoreTimes(a: nat, b: nat)
    ensures (a + 1) * b == a * b + b
  {
  }

  // The ageing bound in calls: a key that is not touched while time_expire is called maxsec
  // times is forgotten, whatever is cached before, between and after the calls.
  lemma AgedOutAfterCalls<K(!new)>(h: seq<Op<K>>, k: K, parts: seq<seq<Op<K>>>, rest: seq<Op<K>>, blank: K, maxsize: nat, maxsec: nat)
    requires maxsec > 0 && |parts| >= maxsec && k != blank
    requires var ops := WithCalls(parts, ExpirePerCall(maxsize, maxsec)) + rest;
      KeysNotBlank(h + [Touch(k)] + ops, blank) && Touch(k) !in ops
    ensures var ops := WithCalls(parts, ExpirePerCall(maxsize, maxsec)) + rest;
      k !in Window(Stack(h + [Touch(k)] + ops, blank), Capacity(maxsize))
  {
    hide ExpirePerCall, KeysNotBlank, Window, Stack;
    var per := ExpirePerCall(maxsize, maxsec);
    BlanksOfCalls(parts, per);
    BlanksConcat(WithCalls(parts, per), rest);
    ProductGrows(maxsec, |parts|, per);
    AgedOut(h, k, WithCalls(parts, per) + rest, blank, maxsize, maxsec);
  }

  lemma ProductGrows(a: nat, b: nat, c: nat)
    requires a <= b
    ensures c * a <= b * c
  {
  }

  // ---- What the duplicate filter lets through ----

  // The touches that found their key outside the window, in order.
  function Emitted<K(==)>(h: seq<Op<K>>, blank: K, cap: nat): seq<K> {
    if h == [] then []
    else
      var before, op := h[..|h| - 1], h[|h| - 1];
      Emitted(before, blank, cap) + if op.Touch? && op.key !in Window(Stack(before, blank), cap) then [op.key] else []
  }

  // A key seen before is let through again exactly when enough blanks and other keys came in.
  lemma EmittedAgainIff<K(!new)>(h: seq<Op<K>>, k: K, ops: seq<Op<K>>, blank: K, cap: nat)
    requires KeysNotBlank(h + [Touch(k)] + ops, blank) && k != blank && Touch(k) !in ops
    ensures var before := h + [Touch(k)] + ops;
      Emitted(before + [Touch(k)], blank, cap) ==
        Emitted(before, blank, cap) + if Blanks(ops) + |Touched(ops)| >= cap then [k] else []
  {
    var before := h + [Touch(k)] + ops;
    RememberedIff(h, k, ops, blank, cap);
    assert (before + [Touch(k)])[..|before|] == before;
  }
}
