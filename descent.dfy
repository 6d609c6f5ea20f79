/** Root-to-leaf descent (`SearchBTree`, index.c:102-134) as the code is written, and the
    lookup it evidently means to be. */
module Descent {
  import opened Wrappers
  import opened Keys
  import opened Nodes
  import opened Arena

  /** The `Result` record (index.c:51-58): the node reached, a slot in it, whether the key
      was found there, and the found slot's value descriptor. */
  datatype Outcome = Outcome(node: NodeId, i: nat, found: bool, value: Value)

  /** The arena can be descended: every record has its slots and every child slot in use
      names a node one level lower. */
  ghost predicate Walkable(nodes: map<NodeId, Node>, level: map<NodeId, nat>, m: nat) {
    && Linked(nodes, level)
    && forall id :: id in nodes ==> Sized(nodes[id], m) && nodes[id].keyNum < m
  }

  /** An arena that keeps the invariant can be descended. */
  lemma GoodIsWalkable(nodes: map<NodeId, Node>, level: map<NodeId, nat>, head: Option<Head>, count: nat,
                       m: nat, spare: Option<NodeId>)
    requires Good(nodes, level, head, count, m, spare)
    ensures Walkable(nodes, level, m)
  {
    forall id | id in nodes ensures Sized(nodes[id], m) && nodes[id].keyNum < m {
      assert NodeOk(nodes[id], m);
    }
  }

  /** In an arena that keeps the invariant every record is sorted. */
  lemma GoodIsSorted(nodes: map<NodeId, Node>, level: map<NodeId, nat>, head: Option<Head>, count: nat,
                     m: nat, spare: Option<NodeId>)
    requires Good(nodes, level, head, count, m, spare)
    ensures forall id :: id in nodes ==> nodes[id].keyNum < |nodes[id].key| && Sorted(nodes[id])
  {
    forall id | id in nodes ensures nodes[id].keyNum < |nodes[id].key| && Sorted(nodes[id]) {
      assert NodeOk(nodes[id], m);
    }
  }

  /** `SearchBTree` as written: in each node take `i = Search(node, k)`, report a hit when
      slot `i` holds `k`, and otherwise go down through `ptr[i - 1]`; when that slot is
      empty, report a miss at the last node visited with its slot `i`. A miss leaves the
      value descriptor unset; here it is `Value(0, 0)`. */
  ghost function Descend(nodes: map<NodeId, Node>, level: map<NodeId, nat>, m: nat, id: NodeId, k: Key): (r: Outcome)
    requires Walkable(nodes, level, m) && id in nodes
    ensures r.node in nodes && 1 <= r.i <= nodes[r.node].keyNum + 1
    ensures r.found ==> r.i <= nodes[r.node].keyNum && nodes[r.node].key[r.i] == k
    decreases level[id]
  {
    var n := nodes[id];
    var i := SearchSlot(n, k);
    if i <= n.keyNum && n.key[i] == k then Outcome(id, i, true, n.data[i])
    else
      assert NodeLinked(nodes, level, n, level[id]);
      match n.ptr[i - 1]
      case None => Outcome(id, i, false, Value(0, 0))
      case Some(c) => Descend(nodes, level, m, c, k)
  }

  /** The descent as written never reports a hit: the slot `Search` returns holds a key
      that sorts strictly after `k`, never `k` itself. */
  lemma {:induction false} DescendNeverFinds(nodes: map<NodeId, Node>, level: map<NodeId, nat>, m: nat,
                                             id: NodeId, k: Key)
    requires Walkable(nodes, level, m) && id in nodes
    ensures !Descend(nodes, level, m, id, k).found
    decreases level[id]
  {
    var n := nodes[id];
    SearchSlotNeverMatches(n, k);
    var i := SearchSlot(n, k);
    assert NodeLinked(nodes, level, n, level[id]);
    if n.ptr[i - 1].Some? {
      DescendNeverFinds(nodes, level, m, n.ptr[i - 1].value, k);
    }
  }

  /** Where the descent stops: a node whose child slot `i - 1` is empty, with `i` its
      `Search` slot; in a balanced arena that node is a leaf. */
  lemma {:induction false} DescendReachesLeaf(nodes: map<NodeId, Node>, level: map<NodeId, nat>, m: nat,
                                              id: NodeId, k: Key)
    requires Walkable(nodes, level, m) && id in nodes
    ensures var r := Descend(nodes, level, m, id, k);
            && r.node in nodes && r.i == SearchSlot(nodes[r.node], k)
            && nodes[r.node].ptr[r.i - 1] == None && level[r.node] == 0
    decreases level[id]
  {
    var n := nodes[id];
    SearchSlotNeverMatches(n, k);
    var i := SearchSlot(n, k);
    assert NodeLinked(nodes, level, n, level[id]);
    assert ChildFits(nodes, level, level[id], n.ptr[i - 1]);
    if n.ptr[i - 1].Some? {
      DescendReachesLeaf(nodes, level, m, n.ptr[i - 1].value, k);
    }
  }

  /** The empty root after the key "a" is inserted into it: the descent as written
      misses the key. */
  lemma DescendMissesStoredKey()
    ensures var n := InsertAt(Blank(3), 1, None, "a", Value(1, 4));
            var nodes := map["node0" := n];
            && Walkable(nodes, map["node0" := 0], 3)
            && n.key[1] == "a"
            && !Descend(nodes, map["node0" := 0], 3, "node0", "a").found
  {
    var n := InsertAt(Blank(3), 1, None, "a", Value(1, 4));
    InsertAtSlots(Blank(3), 1, None, "a", Value(1, 4));
    var nodes := map["node0" := n];
    var level := map["node0" := 0];
    assert NodeLinked(nodes, level, n, 0);
    DescendNeverFinds(nodes, level, 3, "node0", "a");
  }

  // ---------------------------------------------------------------- corrected lookup

  /** The ids the descent visits from `id`, top down. The same path is taken whether the
      hit test looks at slot `i` or slot `i - 1`. */
  ghost function Path(nodes: map<NodeId, Node>, level: map<NodeId, nat>, m: nat, id: NodeId, k: Key): (p: seq<NodeId>)
    requires Walkable(nodes, level, m) && id in nodes
    ensures |p| > 0 && p[0] == id && forall x :: x in p ==> x in nodes
    decreases level[id]
  {
    var n := nodes[id];
    var i := SearchSlot(n, k);
    assert NodeLinked(nodes, level, n, level[id]);
    match n.ptr[i - 1]
    case None => [id]
    case Some(c) => [id] + Path(nodes, level, m, c, k)
  }

  /** The lookup `SearchBTree` evidently means: in each node the last key not after `k`
      sits in slot `i - 1`, so a hit is tested there; otherwise it goes down as before. */
  ghost function FindFrom(nodes: map<NodeId, Node>, level: map<NodeId, nat>, m: nat, id: NodeId, k: Key): (r: Outcome)
    requires Walkable(nodes, level, m) && id in nodes
    ensures r.node in nodes && 1 <= r.i <= nodes[r.node].keyNum + 1
    ensures r.found ==> r.i <= nodes[r.node].keyNum && nodes[r.node].key[r.i] == k
                        && r.value == nodes[r.node].data[r.i]
    decreases level[id]
  {
    var n := nodes[id];
    var i := SearchSlot(n, k);
    if i > 1 && n.key[i - 1] == k then Outcome(id, i - 1, true, n.data[i - 1])
    else
      assert NodeLinked(nodes, level, n, level[id]);
      match n.ptr[i - 1]
      case None => Outcome(id, i, false, Value(0, 0))
      case Some(c) => FindFrom(nodes, level, m, c, k)
  }

  /** Some node on the descent path stores `k`. */
  ghost predicate OnPath(nodes: map<NodeId, Node>, level: map<NodeId, nat>, m: nat, id: NodeId, k: Key)
    requires Walkable(nodes, level, m) && id in nodes
  {
    exists x, j :: x in Path(nodes, level, m, id, k) && 1 <= j <= nodes[x].keyNum && nodes[x].key[j] == k
  }

  /** The corrected lookup reports a hit exactly when a node on the descent path stores
      the key, and a hit names that node, a slot holding the key and the slot's value. */
  lemma {:induction false} FindFromExact(nodes: map<NodeId, Node>, level: map<NodeId, nat>, m: nat,
                                         id: NodeId, k: Key)
    requires Walkable(nodes, level, m) && id in nodes
    requires forall x :: x in nodes ==> Sorted(nodes[x])
    ensures var r := FindFrom(nodes, level, m, id, k);
            && (r.found <==> OnPath(nodes, level, m, id, k))
            && (r.found ==> r.node in nodes && 1 <= r.i <= nodes[r.node].keyNum
                            && nodes[r.node].key[r.i] == k && r.value == nodes[r.node].data[r.i])
    decreases level[id]
  {
    var n := nodes[id];
    var i := SearchSlot(n, k);
    var p := Path(nodes, level, m, id, k);
    FoundBeforeSearchSlot(n, k);
    assert NodeLinked(nodes, level, n, level[id]);
    if i > 1 && n.key[i - 1] == k {
      assert OnPath(nodes, level, m, id, k) by {
        assert id in p && 1 <= i - 1 <= n.keyNum;
      }
    } else {
      match n.ptr[i - 1]
      case None =>
        assert p == [id];
      case Some(c) =>
        FindFromExact(nodes, level, m, c, k);
        var q := Path(nodes, level, m, c, k);
        assert p == [id] + q;
        if OnPath(nodes, level, m, id, k) {
          var x, j :| x in p && 1 <= j <= nodes[x].keyNum && nodes[x].key[j] == k;
          if x == id {
            assert false;
          }
          assert x in q;
        }
        if OnPath(nodes, level, m, c, k) {
          var x, j :| x in q && 1 <= j <= nodes[x].keyNum && nodes[x].key[j] == k;
          assert x in p;
        }
    }
  }
}
