/**
 * The cells of `lru_impl`: a linked list of keys and blanks, a map of list positions, and what
 * one operation makes of them.
 */
module LruCells {
  import opened LruSpec

  // A list node; `id` is its identity, which is what a list iterator denotes.
  datatype Node = Node(id: nat, key: string)

  // pos_cnt: an iterator into the list and a hit count.
  datatype PosCnt = PosCnt(pos: nat, cnt: nat)

  // `nextId` counts the identities handed out so far.
  datatype Cells = Cells(list: seq<Node>, dict: map<string, PosCnt>, nextId: nat)

  // The list with every node seen as f sees it.
  function Labels<K>(list: seq<Node>, f: Node -> K): (s: seq<K>)
    ensures |s| == |list| && forall i :: 0 <= i < |s| ==> s[i] == f(list[i])
  {
    if list == [] then [] else [f(list[0])] + Labels(list[1..], f)
  }

  const KEY: Node -> string := (n: Node) => n.key

  function Content(list: seq<Node>): seq<string> {
    Labels(list, KEY)
  }

  // list::erase(iterator)
  function EraseNode(list: seq<Node>, id: nat): seq<Node> {
    if list == [] then [] else if list[0].id == id then list[1..] else [list[0]] + EraseNode(list[1..], id)
  }

  predicate InList(list: seq<Node>, id: nat) {
    exists n :: n in list && n.id == id
  }

  // The map entry's iterator is no iterator into the list any more.
  predicate Dangles(c: Cells, key: string) {
    key in c.dict && !InList(c.list, c.dict[key].pos)
  }

  // ---- What the operations do ----

  // remove_tail: the list part and the map part; nothing is erased from the map for a blank.
  function Trimmed(list: seq<Node>, maxsize: nat): seq<Node> {
    if |list| < maxsize || list == [] then list else list[..|list| - 1]
  }

  function TrimmedDict(list: seq<Node>, dict: map<string, PosCnt>, maxsize: nat): map<string, PosCnt> {
    if |list| < maxsize || list == [] || list[|list| - 1].key == "" then dict else dict - {list[|list| - 1].key}
  }

  function Evicted(c: Cells, maxsize: nat): Cells {
    c.(list := Trimmed(c.list, maxsize), dict := TrimmedDict(c.list, c.dict, maxsize))
  }

  function Pushed(c: Cells, key: string): Cells {
    c.(list := [Node(c.nextId, key)] + c.list, nextId := c.nextId + 1)
  }

  function Inserted(c: Cells, key: string, maxsize: nat): Cells {
    Evicted(Pushed(c, key).(dict := c.dict[key := PosCnt(c.nextId, 1)]), maxsize)
  }

  function Moved(c: Cells, key: string): Cells
    requires key in c.dict
  {
    var hit := c.dict[key];
    Pushed(c.(list := EraseNode(c.list, hit.pos)), key).(dict := c.dict[key := PosCnt(c.nextId, hit.cnt + 1)])
  }

  function Cached(c: Cells, key: string, maxsize: nat): Cells {
    if key in c.dict then Moved(c, key) else Inserted(c, key, maxsize)
  }

  function Aged(c: Cells, maxsize: nat): Cells {
    Evicted(Pushed(c, ""), maxsize)
  }

  function After(c: Cells, ops: seq<Op<string>>, maxsize: nat): Cells {
    if ops == [] then c
    else
      var before, op := After(c, ops[..|ops| - 1], maxsize), ops[|ops| - 1];
      if op.Blank? then Aged(before, maxsize) else Cached(before, op.key, maxsize)
  }

  // ---- What they keep ----

  // Every node has its own identity, below `bound`.
  predicate DistinctIds(list: seq<Node>, bound: nat) {
    && (forall i :: 0 <= i < |list| ==> list[i].id < bound)
    && (forall i, j :: 0 <= i < j < |list| ==> list[i].id != list[j].id)
  }

  // The non-empty keys of the map are exactly the list's, each pointing at its own single entry.
  predicate Linked(list: seq<Node>, dict: map<string, PosCnt>) {
    && (forall n :: n in list && n.key != "" ==> n.key in dict && dict[n.key].pos == n.id)
    && (forall k :: k in dict && k != "" ==> Node(dict[k].pos, k) in list)
  }

  predicate Sound(c: Cells, maxsize: nat) {
    DistinctIds(c.list, c.nextId) && Linked(c.list, c.dict) && |c.list| <= Capacity(maxsize)
  }

  lemma {:induction false} EraseFacts(list: seq<Node>, n: Node, bound: nat)
    requires DistinctIds(list, bound) && n in list
    ensures DistinctIds(EraseNode(list, n.id), bound)
    ensures forall m :: m in EraseNode(list, n.id) <==> m in list && m != n
    ensures |EraseNode(list, n.id)| == |list| - 1
  {
    var t := list[1..];
    assert list == [list[0]] + t;
    if list[0].id == n.id {
      assert list[0] == n;
      assert n !in t;
    } else {
      EraseFacts(t, n, bound);
      var e := [list[0]] + EraseNode(t, n.id);
      forall j | 1 <= j < |e| ensures e[0].id != e[j].id {
        assert e[j] in EraseNode(t, n.id);
      }
    }
  }

  // Erasing the only node with its label takes that label out.
  lemma {:induction false} EraseLabel<K>(list: seq<Node>, n: Node, f: Node -> K, bound: nat)
    requires DistinctIds(list, bound) && n in list
    requires forall m :: m in list && f(m) == f(n) ==> m == n
    ensures Labels(EraseNode(list, n.id), f) == Remove(Labels(list, f), f(n))
  {
    var t := list[1..];
    assert list == [list[0]] + t;
    if list[0].id == n.id {
      assert list[0] == n;
    } else {
      assert list[0] != n;
      EraseLabel(t, n, f, bound);
      assert Labels(list, f)[1..] == Labels(t, f);
    }
  }

  lemma {:induction false} InLabels<K>(list: seq<Node>, f: Node -> K, x: K)
    ensures x in Labels(list, f) <==> exists n :: n in list && f(n) == x
  {
    forall n | n in list && f(n) == x ensures x in Labels(list, f) {
      var i :| 0 <= i < |list| && list[i] == n;
      assert Labels(list, f)[i] == x;
    }
    if x in Labels(list, f) {
      var i :| 0 <= i < |list| && Labels(list, f)[i] == x;
      assert list[i] in list && f(list[i]) == x;
    }
  }

  // A key is in the map exactly when it is in the list.
  lemma MapIsContent(list: seq<Node>, dict: map<string, PosCnt>, k: string)
    requires Linked(list, dict) && k != ""
    ensures k in dict <==> k in Content(list)
  {
    InLabels(list, KEY, k);
  }

  lemma {:induction false} LabelsPrefix<K>(list: seq<Node>, n: nat, f: Node -> K)
    requires n <= |list|
    ensures Labels(list[..n], f) == Labels(list, f)[..n]
  {
  }

  // A push to the front followed by remove_tail leaves the window of what was pushed.
  lemma PushAndTrim<K>(list: seq<Node>, node: Node, f: Node -> K, maxsize: nat)
    requires |list| <= Capacity(maxsize)
    ensures Labels(Trimmed([node] + list, maxsize), f) == Window([f(node)] + Labels(list, f), Capacity(maxsize))
    ensures |Trimmed([node] + list, maxsize)| <= Capacity(maxsize)
  {
    var l := [node] + list;
    assert Labels(l, f) == [f(node)] + Labels(list, f);
    LabelsPrefix(l, |l| - 1, f);
  }

  // remove_tail on cells in order, with room for one push.
  lemma TrimKeeps(list: seq<Node>, dict: map<string, PosCnt>, bound: nat, maxsize: nat)
    requires DistinctIds(list, bound) && Linked(list, dict)
    ensures DistinctIds(Trimmed(list, maxsize), bound)
    ensures Linked(Trimmed(list, maxsize), TrimmedDict(list, dict, maxsize))
    ensures forall k :: k in TrimmedDict(list, dict, maxsize) ==> k in dict
    ensures "" in dict ==> "" in TrimmedDict(list, dict, maxsize)
  {
    if |list| >= maxsize && list != [] {
      var last, t := list[|list| - 1], list[..|list| - 1];
      assert forall n :: n in t ==> n in list && n.id != last.id;
      assert forall n :: n in list && n != last ==> n in t;
    }
  }

  lemma PushKeeps(list: seq<Node>, dict: map<string, PosCnt>, node: Node, cnt: nat)
    requires Linked(list, dict) && node.key !in dict && DistinctIds(list, node.id)
    ensures DistinctIds([node] + list, node.id + 1)
    ensures Linked([node] + list, dict[node.key := PosCnt(node.id, cnt)])
  {
    var l, d := [node] + list, dict[node.key := PosCnt(node.id, cnt)];
    forall k | k in d && k != "" ensures Node(d[k].pos, k) in l {
      if k == node.key {
        assert l[0] == node;
      } else {
        assert Node(dict[k].pos, k) in list;
      }
    }
  }

  lemma BlankKeeps(list: seq<Node>, dict: map<string, PosCnt>, node: Node)
    requires Linked(list, dict) && node.key == "" && DistinctIds(list, node.id)
    ensures DistinctIds([node] + list, node.id + 1) && Linked([node] + list, dict)
  {
    forall k | k in dict && k != "" ensures Node(dict[k].pos, k) in [node] + list {
      assert Node(dict[k].pos, k) in list;
    }
  }

  lemma InsertKeeps<K>(c: Cells, key: string, f: Node -> K, maxsize: nat)
    requires Sound(c, maxsize) && key !in c.dict
    ensures var d := Inserted(c, key, maxsize);
      && Sound(d, maxsize)
      && Labels(d.list, f) == Window([f(Node(c.nextId, key))] + Labels(c.list, f), Capacity(maxsize))
      && ("" in c.dict && key != "" ==> "" in d.dict && d.dict[""] == c.dict[""])
  {
    hide Linked, DistinctIds, Trimmed, TrimmedDict, Window;
    var node := Node(c.nextId, key);
    PushKeeps(c.list, c.dict, node, 1);
    PushAndTrim(c.list, node, f, maxsize);
    TrimKeeps([node] + c.list, c.dict[key := PosCnt(c.nextId, 1)], c.nextId + 1, maxsize);
    TrimmedValues([node] + c.list, c.dict[key := PosCnt(c.nextId, 1)], maxsize);
  }

  lemma TrimmedValues(list: seq<Node>, dict: map<string, PosCnt>, maxsize: nat)
    ensures forall k :: k in TrimmedDict(list, dict, maxsize) ==> k in dict && TrimmedDict(list, dict, maxsize)[k] == dict[k]
  {
  }

  lemma AgeKeeps<K>(c: Cells, f: Node -> K, maxsize: nat)
    requires Sound(c, maxsize)
    ensures var d := Aged(c, maxsize);
      && Sound(d, maxsize)
      && Labels(d.list, f) == Window([f(Node(c.nextId, ""))] + Labels(c.list, f), Capacity(maxsize))
      && ("" in c.dict ==> "" in d.dict && d.dict[""] == c.dict[""])
      && (forall k :: k in d.dict ==> k in c.dict && d.dict[k] == c.dict[k])
  {
    hide Linked, DistinctIds, Trimmed, TrimmedDict, Window;
    var node := Node(c.nextId, "");
    BlankKeeps(c.list, c.dict, node);
    PushAndTrim(c.list, node, f, maxsize);
    TrimKeeps([node] + c.list, c.dict, c.nextId + 1, maxsize);
    TrimmedValues([node] + c.list, c.dict, maxsize);
  }

  lemma MoveKeeps<K>(c: Cells, key: string, f: Node -> K, maxsize: nat)
    requires Sound(c, maxsize) && key in c.dict && key != ""
    requires forall m :: m in c.list && f(m) == f(Node(c.dict[key].pos, key)) ==> m.key == key
    ensures var d := Moved(c, key);
      && Sound(d, maxsize)
      && Labels(d.list, f) == [f(Node(c.nextId, key))] + Remove(Labels(c.list, f), f(Node(c.dict[key].pos, key)))
  {
    hide Linked, DistinctIds, EraseNode;
    var n, moved := Node(c.dict[key].pos, key), Node(c.nextId, key);
    var erased, rest := EraseNode(c.list, n.id), c.dict - {key};
    Unlink(c.list, c.dict, key, f, c.nextId);
    PushKeeps(erased, rest, moved, c.dict[key].cnt + 1);
    assert rest[key := PosCnt(moved.id, c.dict[key].cnt + 1)] == c.dict[key := PosCnt(moved.id, c.dict[key].cnt + 1)];
    assert Labels([moved] + erased, f) == [f(moved)] + Labels(erased, f);
  }

  // Unlinking a remembered key's node and its map entry.
  lemma Unlink<K>(list: seq<Node>, dict: map<string, PosCnt>, key: string, f: Node -> K, bound: nat)
    requires Linked(list, dict) && DistinctIds(list, bound) && key in dict && key != ""
    requires forall m :: m in list && f(m) == f(Node(dict[key].pos, key)) ==> m.key == key
    ensures var erased := EraseNode(list, dict[key].pos);
      && DistinctIds(erased, bound) && Linked(erased, dict - {key}) && |erased| < |list|
      && Labels(erased, f) == Remove(Labels(list, f), f(Node(dict[key].pos, key)))
  {
    var n := Node(dict[key].pos, key);
    assert forall m :: m in list && m.key == key ==> m.id == n.id;
    EraseFacts(list, n, bound);
    EraseLabel(list, n, f, bound);
  }
}
