/**
 * Configuration objects: lookup by path, and the traversal that runs a command over an object,
 * its parents and its children in positive or reverse order, with argument maps merged on the
 * way down.
 */
module Rigger {
  import opened SeqFacts

  datatype Option<T> = None | Some(value: T)

  datatype ArgValue = Number(amount: real) | Whole(count: int) | Text(text: string)

  type Args = map<string, ArgValue>

  // conf_args::merge: the other map's entries overwrite.
  method Merge(mine: Args, other: Args) returns (merged: Args)
    ensures merged == mine + other
  {
    merged := mine;
    var left := other;
    while left != map[]
      invariant merged + left == mine + other
      decreases |left.Keys|
    {
      var k :| k in left;
      MergeOne(merged, left, k);
      merged, left := merged[k := left[k]], left - {k};
    }
  }

  lemma MergeOne(merged: Args, left: Args, k: string)
    requires k in left
    ensures merged[k := left[k]] + (left - {k}) == merged + left
    ensures |(left - {k}).Keys| < |left.Keys|
  {
    assert (left - {k}).Keys == left.Keys - {k};
  }

  datatype Order = Positive | Reverse

  // The command an object is bound to, if any.
  datatype Cmd = Unbound | Bound(id: nat)

  // An object's child is another object or a plain value, which takes no part in a call.
  datatype Conf = Value(name: string) | Object(obj: ConfObject)
  {
    function Name(): string {
      if Value? then name else obj.name
    }
  }

  datatype Visit = Visit(name: string, cmd: nat, args: Args)

  // What the bound commands saw of one call.  Only invocations with this call's order and
  // command name can be entered.
  class Journal {
    const order: Order
    const what: string
    var visits: seq<Visit>

    constructor (order: Order, what: string)
      ensures visits == [] && this.order == order && this.what == what
    {
      this.order, this.what, visits := order, what, [];
    }

    method Invoke(cmd: nat, name: string, order: Order, what: string, args: Args)
      requires order == this.order && what == this.what
      modifies this
      ensures visits == old(visits) + [Visit(name, cmd, args)]
    {
      visits := visits + [Visit(name, cmd, args)];
    }
  }

  // Objects that only lead to one another, and a rank that falls along every edge.
  datatype Graph = Graph(region: set<ConfObject>, rank: map<ConfObject, nat>)

  ghost predicate Below(o: ConfObject, g: Graph, bound: nat) {
    o in g.region && o in g.rank && g.rank[o] < bound
  }

  ghost predicate AllBelow(parents: seq<ConfObject>, g: Graph, bound: nat) {
    forall i :: 0 <= i < |parents| ==> Below(parents[i], g, bound)
  }

  ghost predicate KidsBelow(arr: seq<Conf>, g: Graph, bound: nat) {
    forall i :: 0 <= i < |arr| && arr[i].Object? ==> Below(arr[i].obj, g, bound)
  }

  ghost predicate Acyclic(g: Graph)
    reads g.region
  {
    forall o :: o in g.region ==>
      o in g.rank && AllBelow(o.parents, g, g.rank[o]) && KidsBelow(o.arr, g, g.rank[o])
  }

  lemma EdgesBelow(o: ConfObject, g: Graph)
    requires Acyclic(g) && o in g.region
    ensures o in g.rank && AllBelow(o.parents, g, g.rank[o]) && KidsBelow(o.arr, g, g.rank[o])
  {
  }

  // ---- What a call visits ----

  ghost function Own(o: ConfObject, args: Args): seq<Visit>
    reads o
  {
    if o.cmd.Bound? then [Visit(o.name, o.cmd.id, args)] else []
  }

  ghost function Visits(order: Order, o: ConfObject, args: Args, g: Graph): seq<Visit>
    requires Acyclic(g) && o in g.region
    reads g.region
    decreases g.rank[o] + 1, 0
  {
    var parents := ParentVisits(order, o.parents, args, g, g.rank[o]);
    var kids := KidVisits(order, o.arr, args, g, g.rank[o]);
    if order == Positive then parents + kids + Own(o, args) else Own(o, args) + kids + parents
  }

  // Parents take the caller's arguments as they are.
  ghost function ParentVisits(order: Order, ps: seq<ConfObject>, args: Args, g: Graph, bound: nat): seq<Visit>
    requires Acyclic(g) && AllBelow(ps, g, bound)
    reads g.region
    decreases bound, |ps|
  {
    if ps == [] then []
    else
      var first, rest := Visits(order, ps[0], args, g), ParentVisits(order, ps[1..], args, g, bound);
      if order == Positive then first + rest else rest + first
  }

  // A child takes its own defaults with the caller's arguments over them.
  ghost function KidVisits(order: Order, arr: seq<Conf>, args: Args, g: Graph, bound: nat): seq<Visit>
    requires Acyclic(g) && KidsBelow(arr, g, bound)
    reads g.region
    decreases bound, |arr|
  {
    if arr == [] then []
    else
      var rest := KidVisits(order, arr[1..], args, g, bound);
      if arr[0].Value? then rest
      else
        var first := Visits(order, arr[0].obj, arr[0].obj.args + args, g);
        if order == Positive then first + rest else rest + first
  }

  // ---- Reverse is the positive trace read backwards ----

  lemma ReversedThree<T>(a: seq<T>, b: seq<T>, c: seq<T>)
    ensures Reversed(a + b + c) == Reversed(c) + Reversed(b) + Reversed(a)
  {
    ReversedConcat(a + b, c);
    ReversedConcat(a, b);
    ConcatAssoc(Reversed(c), Reversed(b), Reversed(a));
  }

  lemma OwnReversed(o: ConfObject, args: Args)
    ensures Reversed(Own(o, args)) == Own(o, args)
  {
  }

  lemma {:induction false} ReverseIsReversed(o: ConfObject, args: Args, g: Graph)
    requires Acyclic(g) && o in g.region
    ensures Visits(Reverse, o, args, g) == Reversed(Visits(Positive, o, args, g))
    decreases g.rank[o] + 1, 0
  {
    hide Reversed, Own, ParentVisits, KidVisits;
    ParentsReversed(o.parents, args, g, g.rank[o]);
    KidsReversed(o.arr, args, g, g.rank[o]);
    ReversedThree(ParentVisits(Positive, o.parents, args, g, g.rank[o]),
                  KidVisits(Positive, o.arr, args, g, g.rank[o]), Own(o, args));
    OwnReversed(o, args);
  }

  lemma {:induction false} ParentsReversed(ps: seq<ConfObject>, args: Args, g: Graph, bound: nat)
    requires Acyclic(g) && AllBelow(ps, g, bound)
    ensures ParentVisits(Reverse, ps, args, g, bound) == Reversed(ParentVisits(Positive, ps, args, g, bound))
    decreases bound, |ps|
  {
    hide Visits;
    if ps != [] {
      ReverseIsReversed(ps[0], args, g);
      ParentsReversed(ps[1..], args, g, bound);
      ReversedConcat(Visits(Positive, ps[0], args, g), ParentVisits(Positive, ps[1..], args, g, bound));
    }
  }

  lemma {:induction false} KidsReversed(arr: seq<Conf>, args: Args, g: Graph, bound: nat)
    requires Acyclic(g) && KidsBelow(arr, g, bound)
    ensures KidVisits(Reverse, arr, args, g, bound) == Reversed(KidVisits(Positive, arr, args, g, bound))
    decreases bound, |arr|
  {
    hide Visits;
    if arr != [] {
      KidsReversed(arr[1..], args, g, bound);
      if arr[0].Object? {
        var kid := arr[0].obj;
        ReverseIsReversed(kid, kid.args + args, g);
        ReversedConcat(Visits(Positive, kid, kid.args + args, g), KidVisits(Positive, arr[1..], args, g, bound));
      }
    }
  }

  // ---- A call visits the paths of the graph ----

  // An edge to the i-th parent or to the i-th entry of the child list.
  datatype Edge = Up(index: nat) | Down(index: nat)

  ghost predicate IsEdge(o: ConfObject, e: Edge)
    reads o
  {
    if e.Up? then e.index < |o.parents| else e.index < |o.arr| && o.arr[e.index].Object?
  }

  ghost function Target(o: ConfObject, e: Edge): ConfObject
    requires IsEdge(o, e)
    reads o
  {
    if e.Up? then o.parents[e.index] else o.arr[e.index].obj
  }

  // What the arguments become along a path: each object stepped down to adds the defaults
  // that nothing before it has set.
  ghost predicate Reaches(o: ConfObject, args: Args, path: seq<Edge>, v: Visit, g: Graph)
    requires Acyclic(g) && o in g.region
    reads g.region
    decreases |path|
  {
    if path == [] then
      o.cmd == Bound(v.cmd) && v.name == o.name && v.args == args
    else
      IsEdge(o, path[0])
      && var next := Target(o, path[0]);
         Reaches(next, if path[0].Up? then args else next.args + args, path[1..], v, g)
  }

  lemma {:induction false} PathIsVisited(order: Order, o: ConfObject, args: Args, path: seq<Edge>, v: Visit, g: Graph)
    requires Acyclic(g) && o in g.region && Reaches(o, args, path, v, g)
    ensures v in Visits(order, o, args, g)
    decreases |path|
  {
    if path == [] {
      assert v in Own(o, args);
    } else {
      var next := Target(o, path[0]);
      hide Visits, Own;
      if path[0].Up? {
        PathIsVisited(order, next, args, path[1..], v, g);
        ParentIsVisited(order, o.parents, path[0].index, args, v, g, g.rank[o]);
      } else {
        PathIsVisited(order, next, next.args + args, path[1..], v, g);
        KidIsVisited(order, o.arr, path[0].index, args, v, g, g.rank[o]);
      }
      VisitsParts(order, o, args, v, g);
    }
  }

  lemma VisitsParts(order: Order, o: ConfObject, args: Args, v: Visit, g: Graph)
    requires Acyclic(g) && o in g.region
    ensures v in Visits(order, o, args, g) <==>
            v in Own(o, args)
            || v in ParentVisits(order, o.parents, args, g, g.rank[o])
            || v in KidVisits(order, o.arr, args, g, g.rank[o])
  {
    hide Own, ParentVisits, KidVisits;
  }

  lemma {:induction false} ParentIsVisited(order: Order, ps: seq<ConfObject>, i: nat, args: Args, v: Visit, g: Graph, bound: nat)
    requires Acyclic(g) && AllBelow(ps, g, bound) && i < |ps| && v in Visits(order, ps[i], args, g)
    ensures v in ParentVisits(order, ps, args, g, bound)
    decreases i
  {
    hide Visits;
    if i > 0 {
      ParentIsVisited(order, ps[1..], i - 1, args, v, g, bound);
    }
  }

  lemma {:induction false} KidIsVisited(order: Order, arr: seq<Conf>, i: nat, args: Args, v: Visit, g: Graph, bound: nat)
    requires Acyclic(g) && KidsBelow(arr, g, bound) && i < |arr| && arr[i].Object?
    requires v in Visits(order, arr[i].obj, arr[i].obj.args + args, g)
    ensures v in KidVisits(order, arr, args, g, bound)
    decreases i
  {
    hide Visits;
    if i > 0 {
      KidIsVisited(order, arr[1..], i - 1, args, v, g, bound);
    }
  }

  lemma {:induction false} VisitHasPath(order: Order, o: ConfObject, args: Args, v: Visit, g: Graph) returns (path: seq<Edge>)
    requires Acyclic(g) && o in g.region && v in Visits(order, o, args, g)
    ensures Reaches(o, args, path, v, g)
    decreases g.rank[o] + 1, 0
  {
    hide Visits;
    VisitsParts(order, o, args, v, g);
    if v in Own(o, args) {
      path := [];
    } else if v in ParentVisits(order, o.parents, args, g, g.rank[o]) {
      var i, rest := ParentHasPath(order, o.parents, args, v, g, g.rank[o]);
      path := [Up(i)] + rest;
    } else {
      var i, rest := KidHasPath(order, o.arr, args, v, g, g.rank[o]);
      path := [Down(i)] + rest;
    }
  }

  lemma {:induction false} ParentHasPath(order: Order, ps: seq<ConfObject>, args: Args, v: Visit, g: Graph, bound: nat)
    returns (i: nat, path: seq<Edge>)
    requires Acyclic(g) && AllBelow(ps, g, bound) && v in ParentVisits(order, ps, args, g, bound)
    ensures i < |ps| && Reaches(ps[i], args, path, v, g)
    decreases bound, |ps|
  {
    hide Visits, Reaches;
    if v in Visits(order, ps[0], args, g) {
      path := VisitHasPath(order, ps[0], args, v, g);
      i := 0;
    } else {
      i, path := ParentHasPath(order, ps[1..], args, v, g, bound);
      i := i + 1;
    }
  }

  lemma {:induction false} KidHasPath(order: Order, arr: seq<Conf>, args: Args, v: Visit, g: Graph, bound: nat)
    returns (i: nat, path: seq<Edge>)
    requires Acyclic(g) && KidsBelow(arr, g, bound) && v in KidVisits(order, arr, args, g, bound)
    ensures i < |arr| && arr[i].Object? && Reaches(arr[i].obj, arr[i].obj.args + args, path, v, g)
    decreases bound, |arr|
  {
    hide Visits, Reaches;
    if arr[0].Object? && v in Visits(order, arr[0].obj, arr[0].obj.args + args, g) {
      path := VisitHasPath(order, arr[0].obj, arr[0].obj.args + args, v, g);
      i := 0;
    } else {
      i, path := KidHasPath(order, arr[1..], args, v, g, bound);
      i := i + 1;
    }
  }

  // A call visits a command with given arguments if and only if some path leads to it and
  // gathers these arguments.
  lemma VisitsAreThePaths(order: Order, o: ConfObject, args: Args, v: Visit, g: Graph)
    requires Acyclic(g) && o in g.region
    ensures v in Visits(order, o, args, g) <==> exists path :: Reaches(o, args, path, v, g)
  {
    hide Visits, Reaches;
    if v in Visits(order, o, args, g) {
      var path := VisitHasPath(order, o, args, v, g);
    }
    forall path | Reaches(o, args, path, v, g) ensures v in Visits(order, o, args, g) {
      PathIsVisited(order, o, args, path, v, g);
    }
  }

  // ---- The caller's arguments win ----

  ghost predicate Carries(v: Visit, args: Args) {
    forall k :: k in args ==> k in v.args && v.args[k] == args[k]
  }

  lemma {:induction false} PathCarries(o: ConfObject, args: Args, path: seq<Edge>, v: Visit, g: Graph)
    requires Acyclic(g) && o in g.region && Reaches(o, args, path, v, g)
    ensures Carries(v, args)
    decreases |path|
  {
    if path != [] {
      var next := Target(o, path[0]);
      PathCarries(next, if path[0].Up? then args else next.args + args, path[1..], v, g);
    }
  }

  // Every command sees the caller's value for every key the caller gave.
  lemma CallerWins(order: Order, o: ConfObject, args: Args, g: Graph)
    requires Acyclic(g) && o in g.region
    ensures forall v :: v in Visits(order, o, args, g) ==> Carries(v, args)
  {
    hide Visits, Reaches, Carries;
    forall v | v in Visits(order, o, args, g) ensures Carries(v, args) {
      var path := VisitHasPath(order, o, args, v, g);
      PathCarries(o, args, path, v, g);
    }
  }

  // Among defaults the one met first wins: what a child adds reaches everything below it.
  lemma OuterDefaultsWin(o: ConfObject, args: Args, i: nat, path: seq<Edge>, v: Visit, g: Graph)
    requires Acyclic(g) && o in g.region && IsEdge(o, Down(i)) && Reaches(o, args, [Down(i)] + path, v, g)
    ensures var kid := o.arr[i].obj;
      forall k :: k in kid.args && k !in args ==> k in v.args && v.args[k] == kid.args[k]
  {
    hide Reaches;
    var kid := o.arr[i].obj;
    assert Reaches(kid, kid.args + args, path, v, g) by { FirstEdge(o, args, i, path, v, g); }
    PathCarries(kid, kid.args + args, path, v, g);
  }

  lemma FirstEdge(o: ConfObject, args: Args, i: nat, path: seq<Edge>, v: Visit, g: Graph)
    requires Acyclic(g) && o in g.region && IsEdge(o, Down(i)) && Reaches(o, args, [Down(i)] + path, v, g)
    ensures var kid := o.arr[i].obj; Reaches(kid, kid.args + args, path, v, g)
  {
    assert ([Down(i)] + path)[1..] == path;
  }

  // ---- Lookup ----

  // The last child of each name.
  function Latest(arr: seq<Conf>): map<string, Conf> {
    if arr == [] then map[] else Latest(arr[..|arr| - 1])[arr[|arr| - 1].Name() := arr[|arr| - 1]]
  }

  predicate IsLast(arr: seq<Conf>, i: nat, key: string) {
    i < |arr| && arr[i].Name() == key && forall j :: i < j < |arr| ==> arr[j].Name() != key
  }

  lemma {:induction false} LastIsLatest(arr: seq<Conf>, i: nat, key: string)
    requires IsLast(arr, i, key)
    ensures key in Latest(arr) && Latest(arr)[key] == arr[i]
  {
    var n := |arr| - 1;
    if i < n {
      assert IsLast(arr[..n], i, key);
      LastIsLatest(arr[..n], i, key);
    }
  }

  lemma {:induction false} LatestIsLast(arr: seq<Conf>, key: string) returns (i: nat)
    requires key in Latest(arr)
    ensures IsLast(arr, i, key)
  {
    i := |arr| - 1;
    if arr[i].Name() != key {
      i := LatestIsLast(arr[..|arr| - 1], key);
    }
  }

  // The dictionary finds a child if and only if it is the last one appended under that name.
  lemma FoundIffLast(arr: seq<Conf>, key: string, c: Conf)
    ensures (key in Latest(arr) && Latest(arr)[key] == c) <==> (exists i: nat :: IsLast(arr, i, key) && arr[i] == c)
  {
    if key in Latest(arr) {
      var i := LatestIsLast(arr, key);
      LastIsLatest(arr, i, key);
    }
    forall i: nat | IsLast(arr, i, key) ensures key in Latest(arr) && Latest(arr)[key] == arr[i] {
      LastIsLatest(arr, i, key);
    }
  }

  ghost predicate Closed(region: set<ConfObject>)
    reads region
  {
    forall o :: o in region ==> o.Indexed() && forall i :: 0 <= i < |o.arr| && o.arr[i].Object? ==> o.arr[i].obj in region
  }

  // One step from what a path has found so far.
  ghost function Sub(from: Option<Conf>, key: string): Option<Conf>
    reads if from.Some? && from.value.Object? then {from.value.obj} else {}
  {
    if from.Some? && from.value.Object? && key in Latest(from.value.obj.arr) then Some(Latest(from.value.obj.arr)[key])
    else None
  }

  ghost predicate Inside(from: Option<Conf>, region: set<ConfObject>) {
    from.Some? && from.value.Object? ==> from.value.obj in region
  }

  lemma SubInside(from: Option<Conf>, key: string, region: set<ConfObject>)
    requires Closed(region) && Inside(from, region)
    ensures Inside(Sub(from, key), region)
  {
    if Sub(from, key).Some? {
      LatestInside(from.value.obj.arr, key, region);
    }
  }

  lemma {:induction false} LatestInside(arr: seq<Conf>, key: string, region: set<ConfObject>)
    requires forall i :: 0 <= i < |arr| && arr[i].Object? ==> arr[i].obj in region
    requires key in Latest(arr)
    ensures Inside(Some(Latest(arr)[key]), region)
  {
    if key != arr[|arr| - 1].Name() {
      LatestInside(arr[..|arr| - 1], key, region);
    }
  }

  // Following a path name by name.
  ghost function Find(from: Option<Conf>, path: seq<string>, region: set<ConfObject>): (found: Option<Conf>)
    requires Closed(region) && Inside(from, region)
    ensures Inside(found, region)
    reads region
    decreases |path|
  {
    if path == [] then from
    else
      SubInside(from, path[0], region);
      Find(Sub(from, path[0]), path[1..], region)
  }

  // A path can be followed in two stages.
  lemma {:induction false} FindInStages(from: Option<Conf>, p: seq<string>, q: seq<string>, region: set<ConfObject>)
    requires Closed(region) && Inside(from, region)
    ensures Find(from, p + q, region) == Find(Find(from, p, region), q, region)
    decreases |p|
  {
    if p == [] {
      assert p + q == q;
    } else {
      SubInside(from, p[0], region);
      FindInStages(Sub(from, p[0]), p[1..], q, region);
      assert (p + q)[1..] == p[1..] + q;
    }
  }

  // One name finds the last child of that name; a plain value, or nothing, has none.
  lemma FindOne(from: Option<Conf>, key: string, c: Conf, region: set<ConfObject>)
    requires Closed(region) && Inside(from, region)
    ensures Find(from, [key], region) == Some(c) <==>
      from.Some? && from.value.Object? && exists i: nat :: IsLast(from.value.obj.arr, i, key) && from.value.obj.arr[i] == c
  {
    SubInside(from, key, region);
    assert [key][1..] == [];
    assert Find(from, [key], region) == Sub(from, key);
    if from.Some? && from.value.Object? {
      FoundIffLast(from.value.obj.arr, key, c);
    }
  }

  // ---- The object ----

  class ConfObject {
    const name: string
    var parents: seq<ConfObject>
    var arr: seq<Conf>
    var dict: map<string, Conf>
    var args: Args
    var cmd: Cmd

    // The dictionary holds the last child of each name.
    ghost predicate Indexed()
      reads this
    {
      dict == Latest(arr)
    }

    constructor (name: string)
      ensures Indexed() && this.name == name && parents == [] && arr == [] && args == map[] && cmd == Unbound
    {
      this.name := name;
      parents, arr, dict, args, cmd := [], [], map[], map[], Unbound;
    }

    method Inherit(parent: ConfObject)
      modifies this`parents
      ensures parents == old(parents) + [parent]
    {
      parents := parents + [parent];
    }

    method BindCmd(c: Cmd)
      modifies this`cmd
      ensures cmd == c
    {
      cmd := c;
    }

    method SetDefaultArgs(defaults: Args)
      modifies this`args
      ensures args == defaults
    {
      args := defaults;
    }

    method Append(value: Conf)
      requires Indexed()
      modifies this`arr, this`dict
      ensures Indexed() && arr == old(arr) + [value]
    {
      assert (arr + [value])[..|arr|] == arr;
      arr := arr + [value];
      dict := dict[value.Name() := value];
    }

    method GetSub(key: string) returns (found: Option<Conf>)
      requires Indexed()
      ensures found == Sub(Some(Object(this)), key)
    {
      found := if key in dict then Some(dict[key]) else None;
    }

    // The empty path finds nothing; a plain value has no children to look in.
    method XPath(path: seq<string>, ghost region: set<ConfObject>) returns (found: Option<Conf>)
      requires Closed(region) && this in region
      ensures found == if path == [] then None else Find(Some(Object(this)), path, region)
      decreases |path|
    {
      found := None;
      if |path| >= 1 {
        var key, rest := path[0], path[1..];
        SubInside(Some(Object(this)), key, region);
        found := GetSub(key);
        if found.Some? {
          if |rest| == 0 {
            return;
          }
          if found.value.Value? {
            NothingBelow(found, rest, region);
            return None;
          }
          found := found.value.obj.XPath(rest, region);
        } else {
          NothingBelow(None, rest, region);
        }
      }
    }

    // conf_object::impl::call
    method Call(order: Order, what: string, args: Args, journal: Journal, ghost g: Graph)
      requires Acyclic(g) && this in g.region && order == journal.order && what == journal.what
      modifies journal
      ensures journal.visits == old(journal.visits) + Visits(order, this, args, g)
      decreases g.rank[this] + 1, 0
    {
      hide ParentVisits, KidVisits, Acyclic;
      EdgesBelow(this, g);
      ghost var log, bound := journal.visits, g.rank[this];
      ghost var ps, kids := ParentVisits(order, parents, args, g, bound), KidVisits(order, arr, args, g, bound);
      if order == Positive {
        CallParents(order, what, args, journal, g);
        CallKids(order, what, args, journal, g);
        ConcatAssoc(log, ps, kids);
        if cmd.Bound? {
          journal.Invoke(cmd.id, name, order, what, args);
        }
        ConcatAssoc(log, ps + kids, Own(this, args));
      } else {
        if cmd.Bound? {
          journal.Invoke(cmd.id, name, order, what, args);
        }
        CallKids(order, what, args, journal, g);
        ConcatAssoc(log, Own(this, args), kids);
        CallParents(order, what, args, journal, g);
        ConcatAssoc(log, Own(this, args) + kids, ps);
      }
    }

    // The loops over the parents.
    method CallParents(order: Order, what: string, args: Args, journal: Journal, ghost g: Graph)
      requires Acyclic(g) && this in g.region && order == journal.order && what == journal.what
      modifies journal
      ensures journal.visits == old(journal.visits) + ParentVisits(order, parents, args, g, g.rank[this])
      decreases g.rank[this], 1
    {
      hide Visits, ParentVisits;
      ghost var bound, log := g.rank[this], journal.visits;
      if order == Positive {
        ParentsFrom(order, parents, args, g, bound);
        for i := 0 to |parents|
          invariant journal.visits + ParentVisits(order, parents[i..], args, g, bound) ==
                    log + ParentVisits(order, parents, args, g, bound)
        {
          ParentStep(order, parents, i, journal.visits, args, g, bound);
          parents[i].Call(order, what, args, journal, g);
        }
        ParentsDone(order, parents, journal.visits, args, g, bound);
      } else {
        ParentsDone(order, parents, log, args, g, bound);
        for i := |parents| downto 0
          invariant journal.visits == log + ParentVisits(order, parents[i..], args, g, bound)
        {
          ParentStep(order, parents, i, log, args, g, bound);
          parents[i].Call(order, what, args, journal, g);
        }
        ParentsFrom(order, parents, args, g, bound);
      }
    }

    // conf_box::call: children that are not objects are passed over.
    method CallKids(order: Order, what: string, args: Args, journal: Journal, ghost g: Graph)
      requires Acyclic(g) && this in g.region && order == journal.order && what == journal.what
      modifies journal
      ensures journal.visits == old(journal.visits) + KidVisits(order, arr, args, g, g.rank[this])
      decreases g.rank[this], 1
    {
      hide Visits, KidVisits;
      ghost var bound, log := g.rank[this], journal.visits;
      if order == Positive {
        KidsFrom(order, arr, args, g, bound);
        for i := 0 to |arr|
          invariant journal.visits + KidVisits(order, arr[i..], args, g, bound) ==
                    log + KidVisits(order, arr, args, g, bound)
        {
          KidStep(order, arr, i, journal.visits, args, g, bound);
          if arr[i].Object? {
            var now := arr[i].obj.args;
            now := Merge(now, args);
            arr[i].obj.Call(order, what, now, journal, g);
          }
        }
        KidsDone(order, arr, journal.visits, args, g, bound);
      } else {
        KidsDone(order, arr, log, args, g, bound);
        for i := |arr| downto 0
          invariant journal.visits == log + KidVisits(order, arr[i..], args, g, bound)
        {
          KidStep(order, arr, i, log, args, g, bound);
          if arr[i].Object? {
            var now := arr[i].obj.args;
            now := Merge(now, args);
            arr[i].obj.Call(order, what, now, journal, g);
          }
        }
        KidsFrom(order, arr, args, g, bound);
      }
    }
  }

  // ---- One turn of each loop ----

  lemma ParentsFrom(order: Order, ps: seq<ConfObject>, args: Args, g: Graph, bound: nat)
    requires Acyclic(g) && AllBelow(ps, g, bound)
    ensures AllBelow(ps[0..], g, bound)
    ensures ParentVisits(order, ps[0..], args, g, bound) == ParentVisits(order, ps, args, g, bound)
  {
    assert ps[0..] == ps;
  }

  lemma ParentsDone(order: Order, ps: seq<ConfObject>, log: seq<Visit>, args: Args, g: Graph, bound: nat)
    requires Acyclic(g) && AllBelow(ps, g, bound)
    ensures log + ParentVisits(order, ps[|ps|..], args, g, bound) == log
  {
  }

  lemma ParentStep(order: Order, ps: seq<ConfObject>, i: nat, log: seq<Visit>, args: Args, g: Graph, bound: nat)
    requires Acyclic(g) && AllBelow(ps, g, bound) && i < |ps|
    ensures var first, rest := Visits(order, ps[i], args, g), ParentVisits(order, ps[i + 1..], args, g, bound);
      log + ParentVisits(order, ps[i..], args, g, bound) ==
      if order == Positive then log + first + rest else log + rest + first
  {
    hide Visits;
    DropDrop(ps, i, 1);
    var first, rest := Visits(order, ps[i], args, g), ParentVisits(order, ps[i + 1..], args, g, bound);
    ConcatAssoc(log, first, rest);
    ConcatAssoc(log, rest, first);
  }

  lemma KidsFrom(order: Order, arr: seq<Conf>, args: Args, g: Graph, bound: nat)
    requires Acyclic(g) && KidsBelow(arr, g, bound)
    ensures KidVisits(order, arr[0..], args, g, bound) == KidVisits(order, arr, args, g, bound)
  {
    assert arr[0..] == arr;
  }

  lemma KidsDone(order: Order, arr: seq<Conf>, log: seq<Visit>, args: Args, g: Graph, bound: nat)
    requires Acyclic(g) && KidsBelow(arr, g, bound)
    ensures log + KidVisits(order, arr[|arr|..], args, g, bound) == log
  {
  }

  lemma KidStep(order: Order, arr: seq<Conf>, i: nat, log: seq<Visit>, args: Args, g: Graph, bound: nat)
    requires Acyclic(g) && KidsBelow(arr, g, bound) && i < |arr|
    ensures var rest := KidVisits(order, arr[i + 1..], args, g, bound);
      log + KidVisits(order, arr[i..], args, g, bound) ==
      if arr[i].Value? then log + rest
      else
        var first := Visits(order, arr[i].obj, arr[i].obj.args + args, g);
        if order == Positive then log + first + rest else log + rest + first
  {
    hide Visits;
    DropDrop(arr, i, 1);
    if arr[i].Object? {
      var first := Visits(order, arr[i].obj, arr[i].obj.args + args, g);
      var rest := KidVisits(order, arr[i + 1..], args, g, bound);
      ConcatAssoc(log, first, rest);
      ConcatAssoc(log, rest, first);
    }
  }

  lemma {:induction false} NothingBelow(from: Option<Conf>, path: seq<string>, region: set<ConfObject>)
    requires Closed(region) && (from.None? || (from.value.Value? && path != []))
    ensures Find(from, path, region) == None
    decreases |path|
  {
    if path != [] {
      NothingBelow(None, path[1..], region);
    }
  }
}
