/**
 * In which order a call visits: its trace is the list of the graph's paths, each once, in an
 * order that is defined on paths alone.
 */
module RiggerOrder {
  import opened Rigger

  // Parents come before children, lower positions before higher ones, and everything below an
  // object before the object itself.
  predicate Before(e: Edge, f: Edge) {
    (e.Up? && f.Down?) || (e.Up? == f.Up? && e.index < f.index)
  }

  predicate Earlier(p: seq<Edge>, q: seq<Edge>)
    decreases |p|
  {
    p != [] && (q == [] || Before(p[0], q[0]) || (p[0] == q[0] && Earlier(p[1..], q[1..])))
  }

  lemma {:induction false} EarlierIsStrict(p: seq<Edge>, q: seq<Edge>)
    ensures !(Earlier(p, q) && Earlier(q, p)) && !Earlier(p, p)
    decreases |p|
  {
    if p != [] {
      EarlierIsStrict(p[1..], if q == [] then [] else q[1..]);
    }
  }

  // ---- Classes of paths ----

  datatype Part = Here | Through(e: Edge) | UpFrom(i: nat) | DownFrom(i: nat) | Further | Any

  predicate In(part: Part, p: seq<Edge>) {
    match part
    case Here => p == []
    case Through(e) => p != [] && p[0] == e
    case UpFrom(i) => p != [] && p[0].Up? && p[0].index >= i
    case DownFrom(i) => p != [] && p[0].Down? && p[0].index >= i
    case Further => p != []
    case Any => true
  }

  // The paths ps, in order, are all those of a class that lead to a command, and vs is what
  // they lead to.
  ghost predicate Lists(ps: seq<seq<Edge>>, vs: seq<Visit>, o: ConfObject, args: Args, g: Graph, part: Part)
    requires Acyclic(g) && o in g.region
    reads g.region
  {
    && |ps| == |vs|
    && (forall k :: 0 <= k < |ps| ==> In(part, ps[k]) && Reaches(o, args, ps[k], vs[k], g))
    && (forall j, k :: 0 <= j < k < |ps| ==> Earlier(ps[j], ps[k]))
    && (forall p, v :: In(part, p) && Reaches(o, args, p, v, g) ==> p in ps)
  }

  ghost predicate Splits(whole: Part, front: Part, back: Part) {
    && (forall p :: In(whole, p) <==> In(front, p) || In(back, p))
    && (forall p, q :: In(front, p) && In(back, q) ==> Earlier(p, q))
  }

  lemma JoinLists(ps: seq<seq<Edge>>, vs: seq<Visit>, qs: seq<seq<Edge>>, ws: seq<Visit>,
                  o: ConfObject, args: Args, g: Graph, whole: Part, front: Part, back: Part)
    requires Acyclic(g) && o in g.region && Splits(whole, front, back)
    requires Lists(ps, vs, o, args, g, front) && Lists(qs, ws, o, args, g, back)
    ensures Lists(ps + qs, vs + ws, o, args, g, whole)
  {
    hide In, Reaches, Earlier;
  }

  lemma EdgesSplit(i: nat)
    ensures Splits(UpFrom(i), Through(Up(i)), UpFrom(i + 1))
    ensures Splits(DownFrom(i), Through(Down(i)), DownFrom(i + 1))
  {
  }

  lemma PartsSplit()
    ensures Splits(Further, UpFrom(0), DownFrom(0)) && Splits(Any, Further, Here)
  {
  }

  // A path starting with an edge is a path of the object behind it.
  function Prefixed(e: Edge, ps: seq<seq<Edge>>): seq<seq<Edge>> {
    seq(|ps|, k requires 0 <= k < |ps| => [e] + ps[k])
  }

  ghost function ArgsBehind(o: ConfObject, args: Args, e: Edge): Args
    requires IsEdge(o, e)
    reads o, Target(o, e)
  {
    if e.Up? then args else Target(o, e).args + args
  }

  lemma ReachesBehind(o: ConfObject, args: Args, e: Edge, p: seq<Edge>, v: Visit, g: Graph)
    requires Acyclic(g) && o in g.region && IsEdge(o, e)
    ensures Target(o, e) in g.region
    ensures Reaches(o, args, [e] + p, v, g) <==> Reaches(Target(o, e), ArgsBehind(o, args, e), p, v, g)
  {
    assert ([e] + p)[1..] == p;
  }

  lemma PrefixedSorted(e: Edge, ps: seq<seq<Edge>>)
    requires forall j, k :: 0 <= j < k < |ps| ==> Earlier(ps[j], ps[k])
    ensures forall j, k :: 0 <= j < k < |ps| ==> Earlier(Prefixed(e, ps)[j], Prefixed(e, ps)[k])
  {
    var qs := Prefixed(e, ps);
    forall j, k | 0 <= j < k < |ps| ensures Earlier(qs[j], qs[k]) {
      assert qs[j][1..] == ps[j] && qs[k][1..] == ps[k];
    }
  }

  lemma ListBehind(ps: seq<seq<Edge>>, vs: seq<Visit>, o: ConfObject, args: Args, e: Edge, g: Graph)
    requires Acyclic(g) && o in g.region && IsEdge(o, e) && Target(o, e) in g.region
    requires Lists(ps, vs, Target(o, e), ArgsBehind(o, args, e), g, Any)
    ensures Lists(Prefixed(e, ps), vs, o, args, g, Through(e))
  {
    var qs := Prefixed(e, ps);
    hide Reaches, Acyclic, Earlier;
    forall k | 0 <= k < |qs| ensures Reaches(o, args, qs[k], vs[k], g) {
      ReachesBehind(o, args, e, ps[k], vs[k], g);
    }
    PrefixedSorted(e, ps);
    forall p, v | In(Through(e), p) && Reaches(o, args, p, v, g) ensures p in qs {
      assert p == [e] + p[1..];
      ReachesBehind(o, args, e, p[1..], v, g);
      assert In(Any, p[1..]);
      var k :| 0 <= k < |ps| && ps[k] == p[1..];
      assert qs[k] == p;
    }
  }

  // ---- The trace lists the paths ----

  lemma {:induction false} CallListsPaths(o: ConfObject, args: Args, g: Graph) returns (ps: seq<seq<Edge>>)
    requires Acyclic(g) && o in g.region
    ensures Lists(ps, Visits(Positive, o, args, g), o, args, g, Any)
    decreases g.rank[o] + 1, 0
  {
    hide Lists, ParentVisits, KidVisits, Own;
    var up := ParentsList(o, args, g, 0);
    var down := KidsList(o, args, g, 0);
    assert o.parents[0..] == o.parents && o.arr[0..] == o.arr;
    var own := OwnList(o, args, g);
    PartsSplit();
    var vs, ws := ParentVisits(Positive, o.parents, args, g, g.rank[o]), KidVisits(Positive, o.arr, args, g, g.rank[o]);
    JoinLists(up, vs, down, ws, o, args, g, Further, UpFrom(0), DownFrom(0));
    JoinLists(up + down, vs + ws, own, Own(o, args), o, args, g, Any, Further, Here);
    ps := up + down + own;
  }

  lemma OwnList(o: ConfObject, args: Args, g: Graph) returns (ps: seq<seq<Edge>>)
    requires Acyclic(g) && o in g.region
    ensures Lists(ps, Own(o, args), o, args, g, Here)
  {
    ps := if o.cmd.Bound? then [[]] else [];
  }

  lemma {:induction false} ParentsList(o: ConfObject, args: Args, g: Graph, i: nat) returns (ps: seq<seq<Edge>>)
    requires Acyclic(g) && o in g.region && i <= |o.parents|
    ensures Lists(ps, ParentVisits(Positive, o.parents[i..], args, g, g.rank[o]), o, args, g, UpFrom(i))
    decreases g.rank[o], |o.parents| - i
  {
    hide Visits;
    if i == |o.parents| {
      ps := [];
      NoEdgeFrom(o, args, g, i);
    } else {
      var e := Up(i);
      var qs := CallListsPaths(o.parents[i], args, g);
      ListBehind(qs, Visits(Positive, o.parents[i], args, g), o, args, e, g);
      var rest := ParentsList(o, args, g, i + 1);
      EdgesSplit(i);
      hide Lists;
      assert o.parents[i..][1..] == o.parents[i + 1..];
      JoinLists(Prefixed(e, qs), Visits(Positive, o.parents[i], args, g),
                rest, ParentVisits(Positive, o.parents[i + 1..], args, g, g.rank[o]),
                o, args, g, UpFrom(i), Through(e), UpFrom(i + 1));
      ps := Prefixed(e, qs) + rest;
    }
  }

  lemma NoEdgeFrom(o: ConfObject, args: Args, g: Graph, i: nat)
    requires Acyclic(g) && o in g.region
    ensures i >= |o.parents| ==> Lists([], [], o, args, g, UpFrom(i))
    ensures i >= |o.arr| ==> Lists([], [], o, args, g, DownFrom(i))
  {
  }

  lemma {:induction false} KidsList(o: ConfObject, args: Args, g: Graph, i: nat) returns (ps: seq<seq<Edge>>)
    requires Acyclic(g) && o in g.region && i <= |o.arr|
    ensures Lists(ps, KidVisits(Positive, o.arr[i..], args, g, g.rank[o]), o, args, g, DownFrom(i))
    decreases g.rank[o], |o.arr| - i
  {
    hide Visits;
    if i == |o.arr| {
      ps := [];
      NoEdgeFrom(o, args, g, i);
    } else {
      var e := Down(i);
      var rest := KidsList(o, args, g, i + 1);
      EdgesSplit(i);
      assert o.arr[i..][1..] == o.arr[i + 1..];
      var ws := KidVisits(Positive, o.arr[i + 1..], args, g, g.rank[o]);
      if o.arr[i].Object? {
        var kid := o.arr[i].obj;
        var qs := CallListsPaths(kid, kid.args + args, g);
        ListBehind(qs, Visits(Positive, kid, kid.args + args, g), o, args, e, g);
        hide Lists;
        JoinLists(Prefixed(e, qs), Visits(Positive, kid, kid.args + args, g), rest, ws,
                  o, args, g, DownFrom(i), Through(e), DownFrom(i + 1));
        ps := Prefixed(e, qs) + rest;
      } else {
        NoEdgeThrough(o, args, g, i);
        hide Lists;
        var none: seq<seq<Edge>>, noVisit: seq<Visit> := [], [];
        JoinLists(none, noVisit, rest, ws, o, args, g, DownFrom(i), Through(e), DownFrom(i + 1));
        assert none + rest == rest && noVisit + ws == ws;
        ps := rest;
      }
    }
  }

  lemma NoEdgeThrough(o: ConfObject, args: Args, g: Graph, i: nat)
    requires Acyclic(g) && o in g.region && i < |o.arr| && o.arr[i].Value?
    ensures Lists([], [], o, args, g, Through(Down(i)))
  {
  }

  // ---- What this says of two visits ----

  // A path leads to one visit only.
  lemma {:induction false} PathDecidesVisit(o: ConfObject, args: Args, p: seq<Edge>, v: Visit, w: Visit, g: Graph)
    requires Acyclic(g) && o in g.region && Reaches(o, args, p, v, g) && Reaches(o, args, p, w, g)
    ensures v == w
    decreases |p|
  {
    if p != [] {
      PathDecidesVisit(Target(o, p[0]), ArgsBehind(o, args, p[0]), p[1..], v, w, g);
    }
  }

  // The visit an earlier path leads to comes before the one a later path leads to.
  lemma EarlierPathFirst(o: ConfObject, args: Args, p: seq<Edge>, v: Visit, q: seq<Edge>, w: Visit, g: Graph) returns (a: nat, b: nat)
    requires Acyclic(g) && o in g.region
    requires Reaches(o, args, p, v, g) && Reaches(o, args, q, w, g) && Earlier(p, q)
    ensures a < b < |Visits(Positive, o, args, g)|
    ensures Visits(Positive, o, args, g)[a] == v && Visits(Positive, o, args, g)[b] == w
  {
    hide Visits, Reaches, Earlier, Acyclic;
    var ps := CallListsPaths(o, args, g);
    var vs := Visits(Positive, o, args, g);
    assert In(Any, p) && In(Any, q);
    a :| 0 <= a < |ps| && ps[a] == p;
    b :| 0 <= b < |ps| && ps[b] == q;
    PathDecidesVisit(o, args, p, v, vs[a], g);
    PathDecidesVisit(o, args, q, w, vs[b], g);
    EarlierIsStrict(p, q);
  }
}
