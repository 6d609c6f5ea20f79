/** The node files of the index as one arena: node ids, the pairs the arena stores, the
    reparenting a split performs, and the invariant every complete operation keeps. */
module Arena {
  import opened Wrappers
  import opened Keys
  import opened Decimal
  import opened Nodes

  /** The head record (`HeadFile`, index.c:35-38): the root's id and a node counter that
      is a `uint16_t` and so wraps at 65536. */
  datatype Head = Head(root: NodeId, nodeNum: nat)

  const NodeNumLimit: nat := 65536

  // ---------------------------------------------------------------- node ids

  /** The id `nextNodeFileName` (index.c:68-76) issues when the counter is `c`. */
  function NodeName(c: nat): (id: NodeId)
    ensures |id| > 4 && id[..4] == "node"
  {
    "node" + Numeral(c)
  }

  /** Different counter values give different ids. */
  lemma NodeNameInjective(a: nat, b: nat)
    requires NodeName(a) == NodeName(b)
    ensures a == b
  {
    assert Numeral(a) == NodeName(a)[4..];
    NumeralInjective(a, b);
  }

  lemma NodeNamesDistinct(a: nat, b: nat)
    requires a != b
    ensures NodeName(a) != NodeName(b)
  {
    if NodeName(a) == NodeName(b) {
      NodeNameInjective(a, b);
    }
  }

  /** The ids issued while the counter went from 0 to `c`. */
  ghost function NodeNames(c: nat): (ids: set<NodeId>)
    ensures forall k: nat :: k < c ==> NodeName(k) in ids
  {
    if c == 0 then {} else NodeNames(c - 1) + {NodeName(c - 1)}
  }

  /** Every id issued so far comes from a smaller counter value. */
  lemma {:induction false} NodeNamesIssued(c: nat, id: NodeId)
    requires id in NodeNames(c)
    ensures exists k: nat :: k < c && id == NodeName(k)
  {
    if id != NodeName(c - 1) {
      NodeNamesIssued(c - 1, id);
    }
  }

  /** The next id has not been issued yet: ids within one run are pairwise distinct. */
  lemma NextNameFresh(c: nat)
    ensures NodeName(c) !in NodeNames(c)
  {
    if NodeName(c) in NodeNames(c) {
      NodeNamesIssued(c, NodeName(c));
      var k: nat :| k < c && NodeName(c) == NodeName(k);
      NodeNameInjective(c, k);
    }
  }

  // ---------------------------------------------------------------- stored pairs

  /** The pairs one record stores. */
  function Held(n: Node): multiset<Entry> {
    if n.keyNum < |n.key| && n.keyNum < |n.data| then multiset(Entries(n)) else multiset{}
  }

  /** The pairs the nodes named by the first `c` ids store, counted with multiplicity. */
  ghost function Stored(nodes: map<NodeId, Node>, c: nat): multiset<Entry> {
    if c == 0 then multiset{}
    else Stored(nodes, c - 1) + (if NodeName(c - 1) in nodes then Held(nodes[NodeName(c - 1)]) else multiset{})
  }

  /** Two arenas that agree, on the first `c` ids, on which nodes exist and what they hold
      store the same pairs. */
  lemma {:induction false} StoredFrame(a: map<NodeId, Node>, b: map<NodeId, Node>, c: nat)
    requires forall k: nat :: k < c ==> (NodeName(k) in a <==> NodeName(k) in b)
    requires forall k: nat :: k < c && NodeName(k) in a ==> Held(a[NodeName(k)]) == Held(b[NodeName(k)])
    ensures Stored(a, c) == Stored(b, c)
  {
    if c > 0 {
      StoredFrame(a, b, c - 1);
    }
  }

  /** Replacing the node named by the `j`-th id swaps what it held for what the new
      record holds. */
  lemma {:induction false} StoredUpdate(nodes: map<NodeId, Node>, c: nat, j: nat, n: Node)
    requires j < c && NodeName(j) in nodes
    ensures Stored(nodes[NodeName(j) := n], c) + Held(nodes[NodeName(j)]) == Stored(nodes, c) + Held(n)
    decreases c, 1
  {
    if c - 1 == j {
      StoredUpdateAt(nodes, c, j, n);
    } else {
      StoredUpdateStep(nodes, c, j, n);
    }
  }

  lemma StoredUpdateStep(nodes: map<NodeId, Node>, c: nat, j: nat, n: Node)
    requires j < c - 1 && NodeName(j) in nodes
    ensures Stored(nodes[NodeName(j) := n], c) + Held(nodes[NodeName(j)]) == Stored(nodes, c) + Held(n)
    decreases c, 0
  {
    StoredUpdate(nodes, c - 1, j, n);
    StoredUpdateBelow(nodes, c, j, n);
  }

  lemma StoredUpdateAt(nodes: map<NodeId, Node>, c: nat, j: nat, n: Node)
    requires c == j + 1 && NodeName(j) in nodes
    ensures Stored(nodes[NodeName(j) := n], c) + Held(nodes[NodeName(j)]) == Stored(nodes, c) + Held(n)
  {
    StoredUpdateLast(nodes, j, n);
  }

  lemma StoredUpdateLast(nodes: map<NodeId, Node>, j: nat, n: Node)
    requires NodeName(j) in nodes
    ensures Stored(nodes[NodeName(j) := n], j + 1) + Held(nodes[NodeName(j)]) == Stored(nodes, j + 1) + Held(n)
  {
    var id := NodeName(j);
    var after := nodes[id := n];
    StoredFrame(after, nodes, j) by {
      forall k: nat | k < j ensures NodeName(k) != id {
        if NodeName(k) == id { NodeNameInjective(k, j); }
      }
    }
    assert Stored(after, j + 1) == Stored(after, j) + Held(n);
  }

  lemma StoredUpdateBelow(nodes: map<NodeId, Node>, c: nat, j: nat, n: Node)
    requires j < c - 1 && NodeName(j) in nodes
    requires Stored(nodes[NodeName(j) := n], c - 1) + Held(nodes[NodeName(j)]) == Stored(nodes, c - 1) + Held(n)
    ensures Stored(nodes[NodeName(j) := n], c) + Held(nodes[NodeName(j)]) == Stored(nodes, c) + Held(n)
  {
    var id := NodeName(j);
    var after := nodes[id := n];
    var last := NodeName(c - 1);
    NodeNamesDistinct(c - 1, j);
    var x := if last in nodes then Held(nodes[last]) else multiset{};
    assert (last in after) == (last in nodes) && (last in nodes ==> after[last] == nodes[last]);
    assert Stored(after, c) == Stored(after, c - 1) + x;
    assert Stored(nodes, c) == Stored(nodes, c - 1) + x;
    AddToBoth(Stored(after, c - 1), Held(nodes[id]), Stored(nodes, c - 1), Held(n), x);
  }

  /** Adding the same pairs to both sides of an equation keeps it. */
  lemma AddToBoth<T>(a: multiset<T>, h: multiset<T>, b: multiset<T>, g: multiset<T>, x: multiset<T>)
    requires a + h == b + g
    ensures (a + x) + h == (b + x) + g
  {
    assert (a + x) + h == (a + h) + x;
    assert (b + x) + g == (b + g) + x;
  }

  /** Adding a node under the next id adds what it holds. */
  lemma StoredAdd(nodes: map<NodeId, Node>, c: nat, n: Node)
    requires NodeName(c) !in nodes
    ensures Stored(nodes[NodeName(c) := n], c + 1) == Stored(nodes, c) + Held(n)
  {
    var id := NodeName(c);
    StoredFrame(nodes[id := n], nodes, c) by {
      forall k: nat | k < c ensures NodeName(k) != id {
        if NodeName(k) == id { NodeNameInjective(k, c); }
      }
    }
  }

  /** A record's parent does not change what it holds. */
  lemma HeldIgnoresParent(n: Node, p: Option<NodeId>)
    ensures Held(n.(parent := p)) == Held(n)
  {
    if n.keyNum < |n.key| && n.keyNum < |n.data| {
      assert Entries(n.(parent := p)) == Entries(n);
    }
  }

  // ---------------------------------------------------------------- reparenting

  /** The arena after the loop of index.c:196-202: every node named in `kids` gets parent
      `p`; empty slots are skipped. */
  function Reparent(nodes: map<NodeId, Node>, kids: seq<Option<NodeId>>, p: NodeId): (r: map<NodeId, Node>)
    ensures r.Keys == nodes.Keys
    ensures forall id :: id in nodes ==>
              r[id] == if Some(id) in kids then nodes[id].(parent := Some(p)) else nodes[id]
  {
    if |kids| == 0 then nodes
    else
      var rest := kids[..|kids| - 1];
      var m := Reparent(nodes, rest, p);
      var last := kids[|kids| - 1];
      assert forall x :: x in kids <==> x in rest || x == last;
      if last.Some? && last.value in m then m[last.value := m[last.value].(parent := Some(p))] else m
  }

  // ---------------------------------------------------------------- the invariant

  /** The fewest keys a node other than the root holds: a split of a full node leaves
      `s - 1` keys on the left and `M - s` on the right, with `s = (M + 1) / 2`. */
  function MinKeys(m: nat): nat
    requires m >= 1
  {
    (m + 1) / 2 - 1
  }

  /** A record in the arena: `M + 1` slots, fewer than `M` keys, keys in order. */
  ghost predicate NodeOk(n: Node, m: nat) {
    Sized(n, m) && n.keyNum < m && Sorted(n)
  }

  /** `c` may be the child slot of a node at height `l`: empty at a leaf, otherwise a
      node one level lower. */
  ghost predicate ChildFits(nodes: map<NodeId, Node>, level: map<NodeId, nat>, l: nat, c: Option<NodeId>) {
    if l == 0 then c == None else c.Some? && c.value in nodes && c.value in level && level[c.value] + 1 == l
  }

  /** `p` may be the parent of a node at height `l`: none, or a node one level higher. */
  ghost predicate ParentFits(nodes: map<NodeId, Node>, level: map<NodeId, nat>, l: nat, p: Option<NodeId>) {
    p.Some? ==> p.value in nodes && p.value in level && level[p.value] == l + 1
  }

  /** The links of one record fit its height `l`. */
  ghost predicate NodeLinked(nodes: map<NodeId, Node>, level: map<NodeId, nat>, n: Node, l: nat) {
    && ParentFits(nodes, level, l, n.parent)
    && forall j :: 0 <= j <= n.keyNum && j < |n.ptr| ==> ChildFits(nodes, level, l, n.ptr[j])
  }

  /** Every node has a height; a node's children are one level lower and its parent one
      level higher; leaves are exactly the nodes at height 0. All leaves are therefore at
      the same depth. */
  ghost predicate Linked(nodes: map<NodeId, Node>, level: map<NodeId, nat>) {
    && level.Keys == nodes.Keys
    && forall id {:trigger NodeLinked(nodes, level, nodes[id], level[id])} ::
         id in nodes ==> NodeLinked(nodes, level, nodes[id], level[id])
  }

  /** The head names a parentless root at the greatest height, `nodeNum` counts the nodes
      modulo 65536, and every other node holds at least `MinKeys(m)` keys. With no head
      there are no nodes. */
  ghost predicate Rooted(nodes: map<NodeId, Node>, level: map<NodeId, nat>, head: Option<Head>, count: nat, m: nat)
  {
    match head
    case None => count == 0
    case Some(h) =>
      && h.root in nodes && h.root in level && nodes[h.root].parent == None
      && h.nodeNum == count % NodeNumLimit
      && forall id :: id in nodes && id != h.root ==>
           && (id in level ==> level[id] <= level[h.root])
           && m >= 1 && nodes[id].keyNum >= MinKeys(m)
  }

  /** A term for `ListedByParent` to hang on: true of every node. Only a proof that names
      `Climbed(id)` learns about the parent of `id`; every other proof about the arena is
      spared the unfolding. */
  ghost predicate Climbed(id: NodeId) {
    true
  }

  /** Every node other than the root and `spare` has a parent that lists it among the
      children it uses, so that walking children down from the root reaches it. */
  ghost predicate ListedByParent(nodes: map<NodeId, Node>, head: Option<Head>, spare: Option<NodeId>) {
    head.Some? ==>
      forall id {:trigger Climbed(id)} :: id in nodes && id != head.value.root && Some(id) != spare ==>
        && nodes[id].parent.Some? && nodes[id].parent.value in nodes
        && Lists(nodes[nodes[id].parent.value], id)
  }

  /** The whole invariant. `spare` is the one node its parent need not list: the new
      sibling while it waits to go into its parent, or the sibling of a root that has just
      split, which has no parent until `NewRootNode` gives it one. */
  ghost predicate Good(nodes: map<NodeId, Node>, level: map<NodeId, nat>, head: Option<Head>, count: nat,
                       m: nat, spare: Option<NodeId>)
    ensures Good(nodes, level, head, count, m, spare) ==> (head.Some? <==> count > 0)
  {
    && m >= 3
    && nodes.Keys == NodeNames(count)
    && (forall id {:trigger NodeOk(nodes[id], m)} :: id in nodes ==> NodeOk(nodes[id], m))
    && Linked(nodes, level)
    && Rooted(nodes, level, head, count, m)
    && ListedByParent(nodes, head, spare)
  }

  /** One step up: the parent of a node other than the root lists it, one level higher. */
  lemma ParentStep(nodes: map<NodeId, Node>, level: map<NodeId, nat>, head: Option<Head>, count: nat,
                   m: nat, id: NodeId)
    requires Good(nodes, level, head, count, m, None) && head.Some? && id in nodes && id != head.value.root
    ensures nodes[id].parent.Some? && nodes[id].parent.value in nodes
    ensures Lists(nodes[nodes[id].parent.value], id)
    ensures id in level && nodes[id].parent.value in level && head.value.root in level
    ensures level[id] < level[nodes[id].parent.value] <= level[head.value.root]
  {
    assert Climbed(id);
    assert NodeLinked(nodes, level, nodes[id], level[id]);
  }

  /** The chain of parents from `id` up to the root: each node on it is listed by the
      next, so walking the children in use down from the root reaches every node file. */
  ghost function Ancestors(nodes: map<NodeId, Node>, level: map<NodeId, nat>, head: Option<Head>, count: nat,
                           m: nat, id: NodeId): (path: seq<NodeId>)
    requires Good(nodes, level, head, count, m, None) && head.Some? && id in nodes && id in level
    requires head.value.root in level && level[id] <= level[head.value.root]
    ensures |path| >= 1 && path[0] == id && path[|path| - 1] == head.value.root
    ensures forall t :: 1 <= t < |path| ==> path[t] in nodes && Lists(nodes[path[t]], path[t - 1])
    decreases level[head.value.root] - level[id]
  {
    if id == head.value.root then [id]
    else
      ParentStep(nodes, level, head, count, m, id);
      var rest := Ancestors(nodes, level, head, count, m, nodes[id].parent.value);
      assert forall t :: 1 <= t <= |rest| ==> ([id] + rest)[t] == rest[t - 1];
      [id] + rest
  }
}
