/** How one insertion changes the arena: the slot insertion that ends the promotion loop,
    a split with promotion (index.c:238-259 with `Split`, index.c:175-206) and the new
    root (`NewRootNode`, index.c:150-172), each shown to keep the invariant and to store
    exactly the pairs it should. */
module Growth {
  import opened Wrappers
  import opened Keys
  import opened Nodes
  import opened Arena

  // ---------------------------------------------------------------- helpers

  lemma MultisetCancel<T>(a: multiset<T>, b: multiset<T>, h: multiset<T>)
    requires a + h == b + h
    ensures a == b
  {
    forall x ensures a[x] == b[x] {
      assert (a + h)[x] == a[x] + h[x] && (b + h)[x] == b[x] + h[x];
    }
  }

  /** Count by count: the promoted pair stands in for the waiting one. */
  lemma Rebalance<T>(a: multiset<T>, b: multiset<T>, h: multiset<T>, l: multiset<T>, r: multiset<T>,
                     p: multiset<T>, e: multiset<T>, whole: multiset<T>)
    requires a + h == b + l + r && whole == h + e && whole == l + p + r
    ensures a + p == b + e
  {
    forall x ensures (a + p)[x] == (b + e)[x] {
      assert (a + h)[x] == (b + l + r)[x];
      assert whole[x] == (h + e)[x] == (l + p + r)[x];
    }
  }

  /** `nodes2`/`level2` keep every node and every height of `nodes`/`level`. */
  ghost predicate Extends(nodes: map<NodeId, Node>, level: map<NodeId, nat>,
                          nodes2: map<NodeId, Node>, level2: map<NodeId, nat>)
  {
    && (forall x :: x in nodes ==> x in nodes2)
    && (forall x :: x in level ==> x in level2 && level2[x] == level[x])
  }

  lemma ChildFitsGrow(nodes: map<NodeId, Node>, level: map<NodeId, nat>,
                      nodes2: map<NodeId, Node>, level2: map<NodeId, nat>, l: nat, c: Option<NodeId>)
    requires Extends(nodes, level, nodes2, level2) && ChildFits(nodes, level, l, c)
    ensures ChildFits(nodes2, level2, l, c)
  {
  }

  lemma ParentFitsGrow(nodes: map<NodeId, Node>, level: map<NodeId, nat>,
                       nodes2: map<NodeId, Node>, level2: map<NodeId, nat>, l: nat, p: Option<NodeId>)
    requires Extends(nodes, level, nodes2, level2) && ParentFits(nodes, level, l, p)
    ensures ParentFits(nodes2, level2, l, p)
  {
  }

  /** A record whose children fit keeps fitting in a larger arena, with its parent
      replaced by any parent that fits there. */
  lemma NodeLinkedGrow(nodes: map<NodeId, Node>, level: map<NodeId, nat>,
                       nodes2: map<NodeId, Node>, level2: map<NodeId, nat>, n: Node, l: nat, p: Option<NodeId>)
    requires Extends(nodes, level, nodes2, level2) && NodeLinked(nodes, level, n, l)
    requires ParentFits(nodes2, level2, l, p)
    ensures NodeLinked(nodes2, level2, n.(parent := p), l)
  {
    forall j | 0 <= j <= n.keyNum && j < |n.ptr| ensures ChildFits(nodes2, level2, l, n.ptr[j]) {
      ChildFitsGrow(nodes, level, nodes2, level2, l, n.ptr[j]);
    }
  }

  /** Replacing one node of an arena whose ids the counter issued swaps what it held for
      what the new record holds. */
  lemma StoredReplace(nodes: map<NodeId, Node>, c: nat, id: NodeId, n: Node)
    requires nodes.Keys == NodeNames(c) && id in nodes
    ensures Stored(nodes[id := n], c) + Held(nodes[id]) == Stored(nodes, c) + Held(n)
  {
    NodeNamesIssued(c, id);
    var j: nat :| j < c && id == NodeName(j);
    StoredUpdate(nodes, c, j, n);
  }

  // ---------------------------------------------------------------- the promotion state

  /** The state at the head of the loop in `InsertBTree` (index.c:238): the arena keeps
      the invariant, and the pair `k` with child `ap` waits to go into node `cur` at its
      `Search` slot `i`. `ap` is empty at a leaf and otherwise a node one level below `cur`
      that already names `cur` as its parent, the one node its parent does not list yet. */
  ghost predicate Pending(nodes: map<NodeId, Node>, level: map<NodeId, nat>, head: Option<Head>, count: nat,
                          m: nat, cur: NodeId, i: nat, k: Key, ap: Option<NodeId>)
  {
    && Good(nodes, level, head, count, m, ap)
    && cur in nodes && cur in level
    && Sized(nodes[cur], m) && nodes[cur].keyNum < m
    && i == SearchSlot(nodes[cur], k)
    && ChildFits(nodes, level, level[cur], ap)
    && (ap.Some? ==> ap.value in nodes && nodes[ap.value].parent == Some(cur))
  }

  /** A term for `Waiting` and `AwaitingRoot` to hang on: true of every node. */
  ghost predicate Asked(id: NodeId) {
    true
  }

  /** `Pending`, folded: the facts about `cur` that the loop in `InsertBTree` reads
      directly, with the whole invariant behind a quantifier that only an `Asked(cur)`
      term opens. The loop carries it through several heap states; unfolded, the solver
      would expand the whole invariant in each. */
  ghost predicate Waiting(nodes: map<NodeId, Node>, level: map<NodeId, nat>, head: Option<Head>, count: nat,
                          m: nat, cur: NodeId, i: nat, k: Key, ap: Option<NodeId>)
  {
    && head.Some? && cur in nodes && cur in level && head.value.root in level
    && Sized(nodes[cur], m) && nodes[cur].keyNum < m && 1 <= i <= nodes[cur].keyNum + 1
    && level[cur] <= level[head.value.root]
    && PendingSealed(nodes, level, head, count, m, cur, i, k, ap)
  }

  ghost predicate PendingSealed(nodes: map<NodeId, Node>, level: map<NodeId, nat>, head: Option<Head>, count: nat,
                                m: nat, cur: NodeId, i: nat, k: Key, ap: Option<NodeId>)
  {
    forall c {:trigger Asked(c)} :: c == cur ==> Pending(nodes, level, head, count, m, c, i, k, ap)
  }

  lemma OpenWaiting(nodes: map<NodeId, Node>, level: map<NodeId, nat>, head: Option<Head>, count: nat,
                    m: nat, cur: NodeId, i: nat, k: Key, ap: Option<NodeId>)
    requires Waiting(nodes, level, head, count, m, cur, i, k, ap)
    ensures Pending(nodes, level, head, count, m, cur, i, k, ap)
  {
    assert Asked(cur);
  }

  lemma CloseWaiting(nodes: map<NodeId, Node>, level: map<NodeId, nat>, head: Option<Head>, count: nat,
                     m: nat, cur: NodeId, i: nat, k: Key, ap: Option<NodeId>)
    requires Pending(nodes, level, head, count, m, cur, i, k, ap) && head.Some?
    ensures Waiting(nodes, level, head, count, m, cur, i, k, ap)
  {
    LevelBelowRoot(nodes, level, head, count, m, ap, cur);
  }

  /** The record at `cur` once the waiting pair is in (index.c:239). */
  function Inserted(n: Node, m: nat, i: nat, ap: Option<NodeId>, k: Key, d: Value): (r: Node)
    requires Sized(n, m) && n.keyNum < m && 1 <= i <= n.keyNum + 1
    ensures Sized(r, m) && r.keyNum == n.keyNum + 1
  {
    InsertAt(n, i, ap, k, d)
  }

  /** Every child slot in use of the record with the pair inserted fits its height. */
  lemma InsertedChildrenFit(nodes: map<NodeId, Node>, level: map<NodeId, nat>, head: Option<Head>, count: nat,
                            m: nat, cur: NodeId, i: nat, k: Key, d: Value, ap: Option<NodeId>)
    requires Pending(nodes, level, head, count, m, cur, i, k, ap)
    ensures var r := Inserted(nodes[cur], m, i, ap, k, d);
            forall j :: 0 <= j <= r.keyNum ==> ChildFits(nodes, level, level[cur], r.ptr[j])
  {
    var n := nodes[cur];
    assert NodeLinked(nodes, level, n, level[cur]);
    InsertAtSlots(n, i, ap, k, d);
  }

  /** The record with the pair inserted is sorted and holds one pair more. */
  lemma InsertedContents(nodes: map<NodeId, Node>, level: map<NodeId, nat>, head: Option<Head>, count: nat,
                         m: nat, cur: NodeId, i: nat, k: Key, d: Value, ap: Option<NodeId>)
    requires Pending(nodes, level, head, count, m, cur, i, k, ap)
    ensures var r := Inserted(nodes[cur], m, i, ap, k, d);
            && Sorted(r) && r.parent == nodes[cur].parent
            && Held(r) == Held(nodes[cur]) + multiset{Entry(k, d)}
  {
    var n := nodes[cur];
    assert NodeOk(n, m);
    InsertAtSorted(n, i, ap, k, d);
    InsertAtEntries(n, i, ap, k, d);
  }

  /** With the waiting pair in, every node but the root is listed by its parent: `ap`
      now by `cur`, and `cur` keeps listing every child it listed. */
  lemma InsertedListed(nodes: map<NodeId, Node>, level: map<NodeId, nat>, head: Option<Head>, count: nat,
                       m: nat, cur: NodeId, i: nat, k: Key, d: Value, ap: Option<NodeId>)
    requires Pending(nodes, level, head, count, m, cur, i, k, ap)
    ensures ListedByParent(nodes[cur := Inserted(nodes[cur], m, i, ap, k, d)], head, None)
  {
    var r := Inserted(nodes[cur], m, i, ap, k, d);
    var nodes2 := nodes[cur := r];
    if head.Some? {
      forall id | id in nodes2 && id != head.value.root
        ensures && nodes2[id].parent.Some? && nodes2[id].parent.value in nodes2
                && Lists(nodes2[nodes2[id].parent.value], id)
      {
        assert Climbed(id);
        var p := nodes[id].parent.value;
        if p == cur {
          InsertAtLists(nodes[cur], i, ap, k, d, id);
        }
      }
    }
  }

  // ---------------------------------------------------------------- no split

  /** Every record of the arena with the pair inserted at `cur` is in order and linked. */
  lemma FinishLinked(nodes: map<NodeId, Node>, level: map<NodeId, nat>, head: Option<Head>, count: nat,
                     m: nat, cur: NodeId, i: nat, k: Key, d: Value, ap: Option<NodeId>)
    requires Pending(nodes, level, head, count, m, cur, i, k, ap)
    requires Inserted(nodes[cur], m, i, ap, k, d).keyNum < m
    ensures var nodes2 := nodes[cur := Inserted(nodes[cur], m, i, ap, k, d)];
            && (forall id {:trigger NodeOk(nodes2[id], m)} :: id in nodes2 ==> NodeOk(nodes2[id], m))
            && Linked(nodes2, level)
  {
    var r := Inserted(nodes[cur], m, i, ap, k, d);
    var nodes2 := nodes[cur := r];
    InsertedChildrenFit(nodes, level, head, count, m, cur, i, k, d, ap);
    InsertedContents(nodes, level, head, count, m, cur, i, k, d, ap);
    assert Extends(nodes, level, nodes2, level);
    forall id | id in nodes2 ensures NodeOk(nodes2[id], m) && NodeLinked(nodes2, level, nodes2[id], level[id]) {
      if id == cur {
        assert NodeLinked(nodes, level, nodes[cur], level[cur]);
        forall j | 0 <= j <= r.keyNum && j < |r.ptr| ensures ChildFits(nodes2, level, level[cur], r.ptr[j]) {
          ChildFitsGrow(nodes, level, nodes2, level, level[cur], r.ptr[j]);
        }
      } else {
        NodeLinkedGrow(nodes, level, nodes2, level, nodes[id], level[id], nodes[id].parent);
        assert nodes[id].(parent := nodes[id].parent) == nodes[id];
      }
    }
  }

  /** When the node still has fewer than `M` keys the loop ends (index.c:240-242): the
      arena keeps the invariant and stores the waiting pair. */
  lemma FinishKeepsGood(nodes: map<NodeId, Node>, level: map<NodeId, nat>, head: Option<Head>, count: nat,
                        m: nat, cur: NodeId, i: nat, k: Key, d: Value, ap: Option<NodeId>)
    requires Pending(nodes, level, head, count, m, cur, i, k, ap)
    requires Inserted(nodes[cur], m, i, ap, k, d).keyNum < m
    ensures var nodes2 := nodes[cur := Inserted(nodes[cur], m, i, ap, k, d)];
            && Good(nodes2, level, head, count, m, None)
            && Stored(nodes2, count) == Stored(nodes, count) + multiset{Entry(k, d)}
  {
    var r := Inserted(nodes[cur], m, i, ap, k, d);
    var nodes2 := nodes[cur := r];
    InsertedContents(nodes, level, head, count, m, cur, i, k, d, ap);
    FinishLinked(nodes, level, head, count, m, cur, i, k, d, ap);
    assert nodes2.Keys == nodes.Keys;
    assert Rooted(nodes2, level, head, count, m) by {
      assert nodes2[cur].parent == nodes[cur].parent && nodes2[cur].keyNum > nodes[cur].keyNum;
    }
    InsertedListed(nodes, level, head, count, m, cur, i, k, d, ap);
    StoredReplace(nodes, count, cur, r);
    MultisetCancel(Stored(nodes2, count), Stored(nodes, count) + multiset{Entry(k, d)}, Held(nodes[cur]));
  }

  // ---------------------------------------------------------------- split

  /** The split point `s = (M + 1) / 2` (index.c:244). */
  function SplitPoint(m: nat): (s: nat)
    ensures m >= 1 ==> 1 <= s <= m && s - 1 <= m - s <= s
  {
    (m + 1) / 2
  }

  /** The arena after the full record `r` of node `cur` splits at `s` (index.c:175-206,
      written back at index.c:252): the sibling `SplitRight(r, s)` under the next id, its
      children reparented to it, and `SplitLeft(r, s)` at `cur`. */
  function AfterSplit(nodes: map<NodeId, Node>, count: nat, cur: NodeId, r: Node, s: nat): (a: map<NodeId, Node>)
    requires 1 <= s <= r.keyNum < |r.key| && |r.ptr| == |r.key| && |r.data| == |r.key|
    ensures a.Keys == nodes.Keys + {cur, NodeName(count)}
    ensures a[cur].keyNum + a[NodeName(count)].keyNum + 1 == r.keyNum || cur == NodeName(count)
  {
    var sib := NodeName(count);
    var right := SplitRight(r, s);
    Reparent(nodes[sib := right], right.ptr[..r.keyNum - s + 1], sib)[cur := SplitLeft(r, s)]
  }

  /** Child slot `j` of the sibling is child slot `s + j` of the full record. */
  lemma SplitRightChild(r: Node, s: nat, j: nat)
    requires 1 <= s <= r.keyNum < |r.key| && |r.ptr| == |r.key| && |r.data| == |r.key|
    requires j <= r.keyNum - s
    ensures SplitRight(r, s).ptr[j] == r.ptr[s + j]
  {
  }

  /** The children the sibling takes over are among those of the full record. */
  lemma SplitRightChildrenIn(r: Node, s: nat, ids: map<NodeId, Node>)
    requires 1 <= s <= r.keyNum < |r.key| && |r.ptr| == |r.key| && |r.data| == |r.key|
    requires forall t :: s <= t <= r.keyNum && r.ptr[t].Some? ==> r.ptr[t].value in ids
    ensures var right := SplitRight(r, s);
            forall t :: 0 <= t <= right.keyNum && right.ptr[t].Some? ==> right.ptr[t].value in ids
  {
    var right := SplitRight(r, s);
    forall t | 0 <= t <= right.keyNum && right.ptr[t].Some? ensures right.ptr[t].value in ids {
      SplitRightChild(r, s, t);
    }
  }

  /** The children the sibling takes over (index.c:196) are nodes one level below
      `cur`. */
  lemma SplitKidsFit(nodes: map<NodeId, Node>, level: map<NodeId, nat>, head: Option<Head>, count: nat,
                     m: nat, cur: NodeId, i: nat, k: Key, d: Value, ap: Option<NodeId>)
    requires Pending(nodes, level, head, count, m, cur, i, k, ap)
    requires Inserted(nodes[cur], m, i, ap, k, d).keyNum == m
    ensures var r := Inserted(nodes[cur], m, i, ap, k, d);
            var s := SplitPoint(m);
            && 1 <= s <= r.keyNum
            && (forall t :: s <= t <= r.keyNum && r.ptr[t].Some? ==> r.ptr[t].value in nodes)
            && forall x :: x in SplitRight(r, s).ptr[..r.keyNum - s + 1] && x.Some? ==>
                 x.value in nodes && x.value in level && level[x.value] + 1 == level[cur]
  {
    var r := Inserted(nodes[cur], m, i, ap, k, d);
    var s := SplitPoint(m);
    InsertedChildrenFit(nodes, level, head, count, m, cur, i, k, d, ap);
    var kids := SplitRight(r, s).ptr[..r.keyNum - s + 1];
    forall x | x in kids && x.Some? ensures x.value in nodes && x.value in level && level[x.value] + 1 == level[cur] {
      var j :| 0 <= j < |kids| && kids[j] == x;
      SplitRightChild(r, s, j);
      assert ChildFits(nodes, level, level[cur], r.ptr[s + j]);
    }
  }

  /** `nodes2` is `nodes` after a split of `cur`: `cur` and the new node `sib` hold `left`
      and `right`, every other node keeps its record, and only a node one level below
      `cur` may change its parent, to `sib`. */
  ghost predicate SplitShape(nodes: map<NodeId, Node>, level: map<NodeId, nat>, nodes2: map<NodeId, Node>,
                             cur: NodeId, sib: NodeId, left: Node, right: Node)
  {
    && cur in nodes && cur in level && sib !in nodes
    && nodes2.Keys == nodes.Keys + {sib}
    && nodes2[cur] == left && nodes2[sib] == right
    && forall id :: id in nodes && id != cur ==>
         && nodes2[id] == nodes[id].(parent := nodes2[id].parent)
         && (nodes2[id].parent == nodes[id].parent
             || (nodes2[id].parent == Some(sib) && id in level && level[id] + 1 == level[cur]))
  }

  /** In a split of `cur`, exactly the nodes `right` lists take `sib` as their parent. */
  ghost predicate SplitAdopts(nodes: map<NodeId, Node>, nodes2: map<NodeId, Node>, cur: NodeId, sib: NodeId,
                              right: Node)
  {
    forall id {:trigger Climbed(id)} :: id in nodes && id != cur ==>
      id in nodes2 && nodes2[id].parent == if Lists(right, id) then Some(sib) else nodes[id].parent
  }

  /** What a split leaves in the arena, node by node. */
  lemma AfterSplitNodes(nodes: map<NodeId, Node>, level: map<NodeId, nat>, count: nat, cur: NodeId, r: Node, s: nat)
    requires 1 <= s <= r.keyNum < |r.key| && |r.ptr| == |r.key| && |r.data| == |r.key|
    requires cur in nodes && cur in level && NodeName(count) !in nodes
    requires forall x :: x in SplitRight(r, s).ptr[..r.keyNum - s + 1] && x.Some? ==>
               x.value in nodes && x.value in level && level[x.value] + 1 == level[cur]
    ensures SplitShape(nodes, level, AfterSplit(nodes, count, cur, r, s), cur, NodeName(count),
                       SplitLeft(r, s), SplitRight(r, s))
    ensures SplitAdopts(nodes, AfterSplit(nodes, count, cur, r, s), cur, NodeName(count), SplitRight(r, s))
  {
    var sib := NodeName(count);
    var right := SplitRight(r, s);
    var kids := right.ptr[..r.keyNum - s + 1];
    var mid := Reparent(nodes[sib := right], kids, sib);
    var nodes2 := mid[cur := SplitLeft(r, s)];
    assert Some(sib) !in kids;
    assert Some(cur) !in kids;
    assert nodes2.Keys == nodes.Keys + {sib};
    forall id | id in nodes && id != cur
      ensures && nodes2[id] == nodes[id].(parent := nodes2[id].parent)
              && (nodes2[id].parent == nodes[id].parent
                  || (nodes2[id].parent == Some(sib) && id in level && level[id] + 1 == level[cur]))
              && id in nodes2 && nodes2[id].parent == if Lists(right, id) then Some(sib) else nodes[id].parent
    {
      assert id != sib && nodes2[id] == mid[id];
      ListsInUse(right, id);
      if Some(id) in kids {
        assert mid[id] == nodes[id].(parent := Some(sib));
      } else {
        assert mid[id] == nodes[id];
      }
    }
  }

  /** The head after `UpdateFileHead(newHead)` (index.c:137-147): the root becomes
      `newHead` when one is given, and the counter goes up by one, modulo 65536. */
  function UpdatedHead(h: Head, newHead: Option<NodeId>): (r: Head)
    ensures r.nodeNum < NodeNumLimit && r.nodeNum == (h.nodeNum + 1) % NodeNumLimit
    ensures r.root == (if newHead.Some? then newHead.value else h.root)
  {
    Head(if newHead.Some? then newHead.value else h.root, (h.nodeNum + 1) % NodeNumLimit)
  }

  /** The head's counter keeps counting the nodes modulo 65536. */
  lemma CounterStep(h: Head, count: nat, newHead: Option<NodeId>)
    requires h.nodeNum == count % NodeNumLimit
    ensures UpdatedHead(h, newHead).nodeNum == (count + 1) % NodeNumLimit
  {
  }

  /** Both halves of a split and every other record keep their shape. */
  lemma SplitShaped(nodes: map<NodeId, Node>, level: map<NodeId, nat>, head: Option<Head>, count: nat,
                    m: nat, cur: NodeId, i: nat, k: Key, d: Value, ap: Option<NodeId>, nodes2: map<NodeId, Node>)
    requires Pending(nodes, level, head, count, m, cur, i, k, ap)
    requires Inserted(nodes[cur], m, i, ap, k, d).keyNum == m
    requires var r := Inserted(nodes[cur], m, i, ap, k, d);
             SplitShape(nodes, level, nodes2, cur, NodeName(count), SplitLeft(r, SplitPoint(m)), SplitRight(r, SplitPoint(m)))
    ensures forall id :: id in nodes2 ==> NodeOk(nodes2[id], m)
  {
    var r := Inserted(nodes[cur], m, i, ap, k, d);
    var s := SplitPoint(m);
    var sib := NodeName(count);
    InsertedContents(nodes, level, head, count, m, cur, i, k, d, ap);
    SplitSorted(r, s);
    forall id | id in nodes2 ensures NodeOk(nodes2[id], m) {
      if id != cur && id != sib {
        assert NodeOk(nodes[id], m);
      }
    }
  }

  /** After a split every node's links still fit the heights. */
  lemma SplitLinked(nodes: map<NodeId, Node>, level: map<NodeId, nat>, nodes2: map<NodeId, Node>,
                    cur: NodeId, sib: NodeId, r: Node, s: nat)
    requires Linked(nodes, level)
    requires 1 <= s <= r.keyNum < |r.key| && |r.ptr| == |r.key| && |r.data| == |r.key|
    requires SplitShape(nodes, level, nodes2, cur, sib, SplitLeft(r, s), SplitRight(r, s))
    requires r.parent == nodes[cur].parent
    requires forall j :: 0 <= j <= r.keyNum ==> ChildFits(nodes, level, level[cur], r.ptr[j])
    ensures Linked(nodes2, level[sib := level[cur]])
  {
    var level2 := level[sib := level[cur]];
    var left, right := SplitLeft(r, s), SplitRight(r, s);
    assert Extends(nodes, level, nodes2, level2);
    assert NodeLinked(nodes, level, nodes[cur], level[cur]);
    ParentFitsGrow(nodes, level, nodes2, level2, level[cur], r.parent);
    forall id | id in nodes2 ensures NodeLinked(nodes2, level2, nodes2[id], level2[id]) {
      if id == cur {
        forall j | 0 <= j <= left.keyNum && j < |left.ptr| ensures ChildFits(nodes2, level2, level[cur], left.ptr[j]) {
          ChildFitsGrow(nodes, level, nodes2, level2, level[cur], r.ptr[j]);
        }
      } else if id == sib {
        forall j | 0 <= j <= right.keyNum && j < |right.ptr| ensures ChildFits(nodes2, level2, level[cur], right.ptr[j]) {
          SplitRightChild(r, s, j);
          ChildFitsGrow(nodes, level, nodes2, level2, level[cur], r.ptr[s + j]);
        }
      } else {
        var p := nodes2[id].parent;
        assert NodeLinked(nodes, level, nodes[id], level[id]);
        if p == nodes[id].parent {
          ParentFitsGrow(nodes, level, nodes2, level2, level[id], p);
        }
        NodeLinkedGrow(nodes, level, nodes2, level2, nodes[id], level[id], p);
      }
    }
  }

  /** After a split the root, the counter and the occupancy bound still hold. */
  lemma SplitRooted(nodes: map<NodeId, Node>, level: map<NodeId, nat>, head: Option<Head>, count: nat,
                    m: nat, cur: NodeId, spare: Option<NodeId>, nodes2: map<NodeId, Node>, left: Node, right: Node)
    requires Good(nodes, level, head, count, m, spare)
    requires SplitShape(nodes, level, nodes2, cur, NodeName(count), left, right)
    requires left.parent == nodes[cur].parent && right.parent == nodes[cur].parent
    requires left.keyNum == SplitPoint(m) - 1 && right.keyNum == m - SplitPoint(m)
    ensures var sib := NodeName(count);
            && head.Some?
            && Rooted(nodes2, level[sib := level[cur]], Some(UpdatedHead(head.value, None)), count + 1, m)
  {
    var sib := NodeName(count);
    var level2 := level[sib := level[cur]];
    var h := head.value;
    CounterStep(h, count, None);
    assert level[cur] <= level[h.root];
    if h.root != cur {
      assert nodes2[h.root].parent == None;
    }
    forall id | id in nodes2 && id != h.root
      ensures && (id in level2 ==> level2[id] <= level2[h.root])
              && m >= 1 && nodes2[id].keyNum >= MinKeys(m)
    {
      if id != sib && id != cur {
        assert nodes2[id].keyNum == nodes[id].keyNum;
      }
    }
    var h2 := UpdatedHead(h, None);
    assert h2.root in nodes2 && h2.root in level2;
    assert nodes2[h2.root].parent == None;
  }

  /** After a split every node but the root and the sibling is listed by its parent: the
      children `right` lists now name the sibling, the others `cur` listed stay in `left`.
      Only the root has no parent. */
  lemma SplitListed(nodes: map<NodeId, Node>, level: map<NodeId, nat>, head: Option<Head>, count: nat,
                    m: nat, cur: NodeId, i: nat, k: Key, d: Value, ap: Option<NodeId>, nodes2: map<NodeId, Node>)
    requires Pending(nodes, level, head, count, m, cur, i, k, ap)
    requires Inserted(nodes[cur], m, i, ap, k, d).keyNum == m
    requires var r := Inserted(nodes[cur], m, i, ap, k, d);
             SplitShape(nodes, level, nodes2, cur, NodeName(count), SplitLeft(r, SplitPoint(m)), SplitRight(r, SplitPoint(m)))
    requires SplitAdopts(nodes, nodes2, cur, NodeName(count), SplitRight(Inserted(nodes[cur], m, i, ap, k, d), SplitPoint(m)))
    ensures head.Some?
    ensures ListedByParent(nodes2, Some(UpdatedHead(head.value, None)), Some(NodeName(count)))
    ensures nodes[cur].parent.None? ==> cur == head.value.root
  {
    var r := Inserted(nodes[cur], m, i, ap, k, d);
    var s := SplitPoint(m);
    var sib := NodeName(count);
    var left, right := SplitLeft(r, s), SplitRight(r, s);
    var nodes1 := nodes[cur := r];
    InsertedListed(nodes, level, head, count, m, cur, i, k, d, ap);
    assert head.Some?;
    var root := head.value.root;
    forall id | id in nodes2 && id != root && id != sib
      ensures && nodes2[id].parent.Some? && nodes2[id].parent.value in nodes2
              && Lists(nodes2[nodes2[id].parent.value], id)
    {
      assert Climbed(id);
      assert nodes1[id].parent.Some? && Lists(nodes1[nodes1[id].parent.value], id);
      var p := nodes1[id].parent.value;
      assert NodeLinked(nodes, level, nodes[id], level[id]);
      if id == cur {
        assert p != cur && nodes2[p].ptr == nodes[p].ptr && nodes2[p].keyNum == nodes[p].keyNum;
      } else if !Lists(right, id) {
        if p == cur {
          SplitLists(r, s, id);
        } else {
          assert nodes2[p].ptr == nodes[p].ptr && nodes2[p].keyNum == nodes[p].keyNum;
        }
      }
    }
  }

  /** A split keeps the invariant, with the new sibling as the node its parent does not
      list yet. */
  lemma SplitKeepsGood(nodes: map<NodeId, Node>, level: map<NodeId, nat>, head: Option<Head>, count: nat,
                       m: nat, cur: NodeId, i: nat, k: Key, d: Value, ap: Option<NodeId>, nodes2: map<NodeId, Node>)
    requires Pending(nodes, level, head, count, m, cur, i, k, ap)
    requires Inserted(nodes[cur], m, i, ap, k, d).keyNum == m
    requires var r := Inserted(nodes[cur], m, i, ap, k, d);
             SplitShape(nodes, level, nodes2, cur, NodeName(count), SplitLeft(r, SplitPoint(m)), SplitRight(r, SplitPoint(m)))
    requires SplitAdopts(nodes, nodes2, cur, NodeName(count), SplitRight(Inserted(nodes[cur], m, i, ap, k, d), SplitPoint(m)))
    ensures var r := Inserted(nodes[cur], m, i, ap, k, d);
            var sib := NodeName(count);
            && head.Some?
            && Good(nodes2, level[sib := level[cur]], Some(UpdatedHead(head.value, None)), count + 1, m, Some(sib))
            && (r.parent.None? ==> cur == head.value.root)
  {
    SplitShaped(nodes, level, head, count, m, cur, i, k, d, ap, nodes2);
    var r := Inserted(nodes[cur], m, i, ap, k, d);
    InsertedChildrenFit(nodes, level, head, count, m, cur, i, k, d, ap);
    SplitLinked(nodes, level, nodes2, cur, NodeName(count), r, SplitPoint(m));
    InsertedContents(nodes, level, head, count, m, cur, i, k, d, ap);
    SplitRooted(nodes, level, head, count, m, cur, ap, nodes2, SplitLeft(r, SplitPoint(m)), SplitRight(r, SplitPoint(m)));
    SplitListed(nodes, level, head, count, m, cur, i, k, d, ap, nodes2);
  }

  /** After a split the arena stores what it stored, with the record of `cur` traded
      for the two halves. */
  lemma SplitStoredNodes(nodes: map<NodeId, Node>, level: map<NodeId, nat>, count: nat, cur: NodeId,
                         nodes2: map<NodeId, Node>, left: Node, right: Node)
    requires nodes.Keys == NodeNames(count)
    requires SplitShape(nodes, level, nodes2, cur, NodeName(count), left, right)
    ensures Stored(nodes2, count + 1) + Held(nodes[cur]) == Stored(nodes, count) + Held(left) + Held(right)
  {
    var mid := nodes[cur := left];
    StoredFrame(nodes2, mid, count) by {
      forall x: nat | x < count
        ensures (NodeName(x) in nodes2 <==> NodeName(x) in mid)
        ensures NodeName(x) in nodes2 ==> Held(nodes2[NodeName(x)]) == Held(mid[NodeName(x)])
      {
        NodeNamesDistinct(x, count);
        var id := NodeName(x);
        if id in nodes && id != cur {
          HeldIgnoresParent(nodes[id], nodes2[id].parent);
        }
      }
    }
    assert Stored(nodes2, count + 1) == Stored(nodes2, count) + Held(right);
    StoredReplace(nodes, count, cur, left);
  }

  /** The pairs split off and promoted are exactly the pairs the insertion brought:
      what the arena stores plus the promoted pair is what it stored plus the waiting pair. */
  lemma SplitStored(nodes: map<NodeId, Node>, level: map<NodeId, nat>, head: Option<Head>, count: nat,
                    m: nat, cur: NodeId, i: nat, k: Key, d: Value, ap: Option<NodeId>, nodes2: map<NodeId, Node>)
    requires Pending(nodes, level, head, count, m, cur, i, k, ap)
    requires Inserted(nodes[cur], m, i, ap, k, d).keyNum == m
    requires var r := Inserted(nodes[cur], m, i, ap, k, d);
             SplitShape(nodes, level, nodes2, cur, NodeName(count), SplitLeft(r, SplitPoint(m)), SplitRight(r, SplitPoint(m)))
    ensures var r := Inserted(nodes[cur], m, i, ap, k, d);
            var s := SplitPoint(m);
            Stored(nodes2, count + 1) + multiset{Entry(r.key[s], r.data[s])}
              == Stored(nodes, count) + multiset{Entry(k, d)}
  {
    var r := Inserted(nodes[cur], m, i, ap, k, d);
    var s := SplitPoint(m);
    var left, right := SplitLeft(r, s), SplitRight(r, s);
    var promoted := multiset{Entry(r.key[s], r.data[s])};
    SplitStoredNodes(nodes, level, count, cur, nodes2, left, right);
    InsertedContents(nodes, level, head, count, m, cur, i, k, d, ap);
    SplitEntries(r, s);
    assert Held(r) == Held(left) + promoted + Held(right);
    Rebalance(Stored(nodes2, count + 1), Stored(nodes, count), Held(nodes[cur]), Held(left), Held(right),
              promoted, multiset{Entry(k, d)}, Held(r));
  }

  /** When the split node has a parent `p` (index.c:250-254), the sibling, one level below
      `p` and in an arena that keeps the invariant but for the sibling's listing, waits
      with the promoted key `k2` to go into `p` at its `Search` slot. */
  lemma SplitPromotes(nodes: map<NodeId, Node>, level: map<NodeId, nat>, head: Option<Head>, count: nat,
                      m: nat, p: NodeId, sib: NodeId, k2: Key)
    requires Good(nodes, level, head, count, m, Some(sib)) && head.Some?
    requires p in nodes && p in level && sib in nodes && sib in level
    requires level[sib] + 1 == level[p] && nodes[sib].parent == Some(p)
    ensures Sized(nodes[p], m) && nodes[p].keyNum < m
    ensures Waiting(nodes, level, head, count, m, p, SearchSlot(nodes[p], k2), k2, Some(sib))
  {
    assert NodeOk(nodes[p], m);
    CloseWaiting(nodes, level, head, count, m, p, SearchSlot(nodes[p], k2), k2, Some(sib));
  }

  /** A full node can split: the split point lies among its keys, the next id is free,
      and every child the sibling takes over is in the arena. */
  lemma SplitReady(nodes: map<NodeId, Node>, level: map<NodeId, nat>, head: Option<Head>, count: nat,
                   m: nat, cur: NodeId, i: nat, k: Key, d: Value, ap: Option<NodeId>)
    requires Waiting(nodes, level, head, count, m, cur, i, k, ap)
    requires Inserted(nodes[cur], m, i, ap, k, d).keyNum == m
    ensures var r := Inserted(nodes[cur], m, i, ap, k, d);
            var s := SplitPoint(m);
            && 1 <= s <= r.keyNum && NodeName(count) !in nodes
            && forall t :: s <= t <= r.keyNum && r.ptr[t].Some? ==> r.ptr[t].value in nodes
  {
    OpenWaiting(nodes, level, head, count, m, cur, i, k, ap);
    NextNameFresh(count);
    SplitKidsFit(nodes, level, head, count, m, cur, i, k, d, ap);
  }

  /** One round of the split branch of the loop (index.c:243-259) as a whole: after the
      split into `nodes2` the promoted pair stands in for the waiting one, and either it
      waits for the parent, one level up, or the root has split. */
  lemma SplitStep(nodes: map<NodeId, Node>, level: map<NodeId, nat>, head: Option<Head>, count: nat,
                  m: nat, cur: NodeId, i: nat, k: Key, d: Value, ap: Option<NodeId>,
                  nodes2: map<NodeId, Node>, level2: map<NodeId, nat>, head2: Option<Head>, count2: nat,
                  sib: NodeId, p: Option<NodeId>, k2: Key, d2: Value)
    requires Waiting(nodes, level, head, count, m, cur, i, k, ap)
    requires Inserted(nodes[cur], m, i, ap, k, d).keyNum == m
    requires nodes2 == AfterSplit(nodes, count, cur, Inserted(nodes[cur], m, i, ap, k, d), SplitPoint(m))
    requires sib == NodeName(count) && level2 == level[sib := level[cur]]
    requires head2 == Some(UpdatedHead(head.value, None)) && count2 == count + 1
    requires p == nodes[cur].parent
    requires var r := Inserted(nodes[cur], m, i, ap, k, d);
             k2 == r.key[SplitPoint(m)] && d2 == r.data[SplitPoint(m)]
    ensures Stored(nodes2, count2) + multiset{Entry(k2, d2)} == Stored(nodes, count) + multiset{Entry(k, d)}
    ensures p.Some? ==>
              && p.value in nodes2 && nodes2[p.value].keyNum < |nodes2[p.value].key|
              && Waiting(nodes2, level2, head2, count2, m, p.value, SearchSlot(nodes2[p.value], k2), k2, Some(sib))
              && level2[p.value] == level[cur] + 1
              && level2[head.value.root] == level[head.value.root]
    ensures p.None? ==> AwaitingRoot(nodes2, level2, head2, count2, m, sib)
  {
    SplitHalves(nodes, level, head, count, m, cur, i, k, d, ap, nodes2);
    var r := Inserted(nodes[cur], m, i, ap, k, d);
    if p.Some? {
      SplitPromotes(nodes2, level2, head2, count2, m, p.value, sib, k2);
    } else {
      SplitReachesRoot(nodes2, level2, head2, count2, m, cur, sib, r);
    }
  }

  /** The split itself (index.c:243-252): the promoted pair leaves the stored multiset,
      the arena keeps the invariant with the new sibling as its spare node, and the two
      halves sit at `cur` and at the sibling. */
  lemma SplitHalves(nodes: map<NodeId, Node>, level: map<NodeId, nat>, head: Option<Head>, count: nat,
                    m: nat, cur: NodeId, i: nat, k: Key, d: Value, ap: Option<NodeId>,
                    nodes2: map<NodeId, Node>)
    requires Waiting(nodes, level, head, count, m, cur, i, k, ap)
    requires Inserted(nodes[cur], m, i, ap, k, d).keyNum == m
    requires nodes2 == AfterSplit(nodes, count, cur, Inserted(nodes[cur], m, i, ap, k, d), SplitPoint(m))
    ensures var r := Inserted(nodes[cur], m, i, ap, k, d);
            var s := SplitPoint(m);
            var sib := NodeName(count);
            && 1 <= s <= r.keyNum < |r.key| && |r.ptr| == |r.key| && |r.data| == |r.key|
            && r.parent == nodes[cur].parent && sib !in nodes
            && Stored(nodes2, count + 1) + multiset{Entry(r.key[s], r.data[s])}
                 == Stored(nodes, count) + multiset{Entry(k, d)}
            && Good(nodes2, level[sib := level[cur]], Some(UpdatedHead(head.value, None)), count + 1, m, Some(sib))
            && cur in nodes2 && sib in nodes2
            && nodes2[cur] == SplitLeft(r, s) && nodes2[sib] == SplitRight(r, s)
            && (r.parent.None? ==> cur == head.value.root)
            && (r.parent.Some? ==>
                  && r.parent.value in nodes && r.parent.value in level
                  && level[r.parent.value] == level[cur] + 1)
  {
    OpenWaiting(nodes, level, head, count, m, cur, i, k, ap);
    var r := Inserted(nodes[cur], m, i, ap, k, d);
    var s := SplitPoint(m);
    NextNameFresh(count);
    SplitKidsFit(nodes, level, head, count, m, cur, i, k, d, ap);
    AfterSplitNodes(nodes, level, count, cur, r, s);
    SplitStored(nodes, level, head, count, m, cur, i, k, d, ap, nodes2);
    SplitKeepsGood(nodes, level, head, count, m, cur, i, k, d, ap, nodes2);
    if r.parent.Some? {
      assert NodeLinked(nodes, level, nodes[cur], level[cur]);
    }
  }

  // ---------------------------------------------------------------- new root

  /** The state after the root split (index.c:256, 260): the arena keeps the invariant
      except that the sibling `sib` of the old root has no parent yet; both are at the
      root's height. */
  ghost predicate RootSplit(nodes: map<NodeId, Node>, level: map<NodeId, nat>, head: Option<Head>, count: nat,
                            m: nat, sib: NodeId)
  {
    && Good(nodes, level, head, count, m, Some(sib))
    && head.Some? && sib in nodes && sib in level && sib != head.value.root
    && nodes[sib].parent == None && level[sib] == level[head.value.root]
    && nodes[head.value.root].keyNum >= MinKeys(m)
  }

  /** `RootSplit`, folded in the same way as `Waiting`. */
  ghost predicate AwaitingRoot(nodes: map<NodeId, Node>, level: map<NodeId, nat>, head: Option<Head>, count: nat,
                               m: nat, sib: NodeId)
  {
    && head.Some?
    && RootSplitSealed(nodes, level, head, count, m, sib)
  }

  ghost predicate RootSplitSealed(nodes: map<NodeId, Node>, level: map<NodeId, nat>, head: Option<Head>, count: nat,
                                  m: nat, sib: NodeId)
  {
    forall c {:trigger Asked(c)} :: c == sib ==> RootSplit(nodes, level, head, count, m, c)
  }

  lemma OpenAwaitingRoot(nodes: map<NodeId, Node>, level: map<NodeId, nat>, head: Option<Head>, count: nat,
                         m: nat, sib: NodeId)
    requires AwaitingRoot(nodes, level, head, count, m, sib)
    ensures RootSplit(nodes, level, head, count, m, sib)
  {
    assert Asked(sib);
  }

  /** While the root split waits, the old root and its sibling are node files and the
      next id is still free: what `NewRootNode` needs. */
  lemma AwaitingRootReady(nodes: map<NodeId, Node>, level: map<NodeId, nat>, head: Option<Head>, count: nat,
                          m: nat, sib: NodeId)
    requires AwaitingRoot(nodes, level, head, count, m, sib)
    ensures head.Some? && m >= 1 && head.value.root in nodes && head.value.root in level && sib in nodes
    ensures NodeName(count) !in nodes
  {
    OpenAwaitingRoot(nodes, level, head, count, m, sib);
    NextNameFresh(count);
  }

  lemma CloseAwaitingRoot(nodes: map<NodeId, Node>, level: map<NodeId, nat>, head: Option<Head>, count: nat,
                          m: nat, sib: NodeId)
    requires RootSplit(nodes, level, head, count, m, sib)
    ensures AwaitingRoot(nodes, level, head, count, m, sib)
  {
  }

  /** A split of the root `cur` of the full record `r` leaves the root-split state: both
      halves at the root's height, the sibling without a parent. */
  lemma SplitReachesRoot(nodes: map<NodeId, Node>, level: map<NodeId, nat>, head: Option<Head>, count: nat,
                         m: nat, cur: NodeId, sib: NodeId, r: Node)
    requires Good(nodes, level, head, count, m, Some(sib)) && head.Some? && head.value.root == cur
    requires 1 <= SplitPoint(m) <= r.keyNum < |r.key| && |r.ptr| == |r.key| && |r.data| == |r.key|
    requires cur in nodes && sib in nodes && cur != sib && r.parent == None
    requires nodes[cur] == SplitLeft(r, SplitPoint(m)) && nodes[sib] == SplitRight(r, SplitPoint(m))
    requires sib in level && cur in level && level[sib] == level[cur]
    ensures AwaitingRoot(nodes, level, head, count, m, sib)
  {
    CloseAwaitingRoot(nodes, level, head, count, m, sib);
  }

  /** The arena after `NewRootNode(root, k, sib, d)` (index.c:150-172): a new record under
      the next id holding the one pair with the two halves as children, and both halves
      reparented to it. index.c:163-169 reparents `root` twice and `sib` never; this is
      the evident intent. */
  function AfterNewRoot(nodes: map<NodeId, Node>, count: nat, m: nat, root: NodeId, k: Key, sib: NodeId, d: Value)
    : (a: map<NodeId, Node>)
    requires m >= 1 && root in nodes && sib in nodes
    ensures a.Keys == nodes.Keys + {NodeName(count)}
    ensures root != NodeName(count) && sib != NodeName(count) ==>
              a[NodeName(count)].keyNum == 1 && a[root].parent == a[sib].parent == Some(NodeName(count))
  {
    var r := NodeName(count);
    var n := nodes[r := NewRootRecord(m, root, k, sib, d)];
    n[root := nodes[root].(parent := Some(r))][sib := nodes[sib].(parent := Some(r))]
  }

  /** `nodes3` is `nodes` with the new record `rec` under the fresh id `r` and `root`
      and `sib` reparented to it; nothing else changes. */
  ghost predicate NewRootShape(nodes: map<NodeId, Node>, nodes3: map<NodeId, Node>, root: NodeId, sib: NodeId,
                               r: NodeId, rec: Node)
  {
    && root in nodes && sib in nodes && r !in nodes && root != sib
    && nodes3.Keys == nodes.Keys + {r}
    && nodes3[r] == rec
    && nodes3[root] == nodes[root].(parent := Some(r)) && nodes3[sib] == nodes[sib].(parent := Some(r))
    && forall id :: id in nodes && id != root && id != sib ==> nodes3[id] == nodes[id]
  }

  lemma AfterNewRootNodes(nodes: map<NodeId, Node>, level: map<NodeId, nat>, head: Option<Head>, count: nat,
                          m: nat, k: Key, d: Value, sib: NodeId)
    requires RootSplit(nodes, level, head, count, m, sib)
    ensures var root := head.value.root;
            NewRootShape(nodes, AfterNewRoot(nodes, count, m, root, k, sib, d), root, sib, NodeName(count),
                         NewRootRecord(m, root, k, sib, d))
  {
    NextNameFresh(count);
  }

  /** Under the new root every record keeps its shape and its links fit the heights. */
  lemma NewRootLinked(nodes: map<NodeId, Node>, level: map<NodeId, nat>, m: nat, root: NodeId, sib: NodeId,
                      r: NodeId, nodes3: map<NodeId, Node>, rec: Node)
    requires m >= 3 && Linked(nodes, level)
    requires forall id {:trigger NodeOk(nodes[id], m)} :: id in nodes ==> NodeOk(nodes[id], m)
    requires root in level && sib in level && level[sib] == level[root]
    requires NewRootShape(nodes, nodes3, root, sib, r, rec)
    requires Sized(rec, m) && rec.keyNum == 1 && rec.parent == None
    requires rec.ptr[0] == Some(root) && rec.ptr[1] == Some(sib)
    ensures var level3 := level[r := level[root] + 1];
            && (forall id {:trigger NodeOk(nodes3[id], m)} :: id in nodes3 ==> NodeOk(nodes3[id], m))
            && Linked(nodes3, level3)
  {
    var level3 := level[r := level[root] + 1];
    assert Extends(nodes, level, nodes3, level3);
    assert root in nodes3 && sib in nodes3 && level3[root] + 1 == level3[r] && level3[sib] + 1 == level3[r];
    assert ChildFits(nodes3, level3, level3[r], rec.ptr[0]) && ChildFits(nodes3, level3, level3[r], rec.ptr[1]);
    assert NodeLinked(nodes3, level3, rec, level3[r]) by {
      forall j | 0 <= j <= rec.keyNum && j < |rec.ptr| ensures ChildFits(nodes3, level3, level3[r], rec.ptr[j]) {
        assert j == 0 || j == 1;
      }
    }
    assert Sorted(rec) && NodeOk(rec, m);
    forall id | id in nodes3 ensures NodeOk(nodes3[id], m) && NodeLinked(nodes3, level3, nodes3[id], level3[id]) {
      if id != r {
        assert NodeOk(nodes[id], m) && NodeLinked(nodes, level, nodes[id], level[id]);
        var p := nodes3[id].parent;
        if id != root && id != sib {
          assert nodes3[id] == nodes[id].(parent := p);
          ParentFitsGrow(nodes, level, nodes3, level3, level[id], p);
        }
        NodeLinkedGrow(nodes, level, nodes3, level3, nodes[id], level[id], p);
      }
    }
  }

  /** `NewRootLinked` for the old root and its sibling after a root split. */
  lemma NewRootKeepsLinks(nodes: map<NodeId, Node>, level: map<NodeId, nat>, head: Option<Head>, count: nat,
                          m: nat, sib: NodeId, nodes3: map<NodeId, Node>, rec: Node)
    requires RootSplit(nodes, level, head, count, m, sib)
    requires NewRootShape(nodes, nodes3, head.value.root, sib, NodeName(count), rec)
    requires Sized(rec, m) && rec.keyNum == 1 && rec.parent == None
    requires rec.ptr[0] == Some(head.value.root) && rec.ptr[1] == Some(sib)
    ensures var level3 := level[NodeName(count) := level[head.value.root] + 1];
            && (forall id {:trigger NodeOk(nodes3[id], m)} :: id in nodes3 ==> NodeOk(nodes3[id], m))
            && Linked(nodes3, level3)
  {
    NewRootLinked(nodes, level, m, head.value.root, sib, NodeName(count), nodes3, rec);
  }

  /** The new root is the head's root, parentless and highest, and the counter still
      counts the nodes. */
  lemma NewRootRooted(nodes: map<NodeId, Node>, level: map<NodeId, nat>, head: Option<Head>, count: nat,
                      m: nat, sib: NodeId, nodes3: map<NodeId, Node>, rec: Node)
    requires RootSplit(nodes, level, head, count, m, sib)
    requires NewRootShape(nodes, nodes3, head.value.root, sib, NodeName(count), rec)
    requires rec.parent == None
    ensures var r := NodeName(count);
            Rooted(nodes3, level[r := level[head.value.root] + 1], Some(UpdatedHead(head.value, Some(r))),
                   count + 1, m)
  {
    var h := head.value;
    var r := NodeName(count);
    var level3 := level[r := level[h.root] + 1];
    CounterStep(h, count, Some(r));
    forall id | id in nodes3 && id != r
      ensures && (id in level3 ==> level3[id] <= level3[r])
              && m >= 1 && nodes3[id].keyNum >= MinKeys(m)
    {
    }
  }

  /** Under the new root every node but the root is listed by its parent: the old root
      and its sibling by the new root, every other node by the parent it had. */
  lemma NewRootListed(nodes: map<NodeId, Node>, level: map<NodeId, nat>, head: Option<Head>, count: nat,
                      m: nat, sib: NodeId, nodes3: map<NodeId, Node>, rec: Node)
    requires RootSplit(nodes, level, head, count, m, sib)
    requires NewRootShape(nodes, nodes3, head.value.root, sib, NodeName(count), rec)
    requires rec.keyNum == 1 && |rec.ptr| >= 2 && rec.ptr[0] == Some(head.value.root) && rec.ptr[1] == Some(sib)
    ensures ListedByParent(nodes3, Some(UpdatedHead(head.value, Some(NodeName(count)))), None)
  {
    var root := head.value.root;
    var r := NodeName(count);
    assert Lists(rec, root) && Lists(rec, sib);
    forall id | id in nodes3 && id != r
      ensures && nodes3[id].parent.Some? && nodes3[id].parent.value in nodes3
              && Lists(nodes3[nodes3[id].parent.value], id)
    {
      if id != root && id != sib {
        assert id in nodes && Climbed(id);
        assert ListedByParent(nodes, head, Some(sib));
        assert nodes[id].parent.Some?;
        var p := nodes[id].parent.value;
        assert Lists(nodes[p], id);
        var j :| 0 <= j <= nodes[p].keyNum && j < |nodes[p].ptr| && nodes[p].ptr[j] == Some(id);
        assert nodes3[p].ptr[j] == Some(id) && nodes3[p].keyNum == nodes[p].keyNum;
      }
    }
  }

  /** The new root adds its one pair to what the arena stores. */
  lemma NewRootStored(nodes: map<NodeId, Node>, count: nat, root: NodeId, sib: NodeId,
                      nodes3: map<NodeId, Node>, rec: Node)
    requires NewRootShape(nodes, nodes3, root, sib, NodeName(count), rec)
    ensures Stored(nodes3, count + 1) == Stored(nodes, count) + Held(rec)
  {
    StoredFrame(nodes3, nodes, count) by {
      forall x: nat | x < count
        ensures (NodeName(x) in nodes3 <==> NodeName(x) in nodes)
        ensures NodeName(x) in nodes3 ==> Held(nodes3[NodeName(x)]) == Held(nodes[NodeName(x)])
      {
        NodeNamesDistinct(x, count);
        var id := NodeName(x);
        if id in nodes {
          HeldIgnoresParent(nodes[id], nodes3[id].parent);
        }
      }
    }
  }

  /** A new root over the two halves restores the whole invariant and stores the promoted
      pair. */
  lemma NewRootKeepsGood(nodes: map<NodeId, Node>, level: map<NodeId, nat>, head: Option<Head>, count: nat,
                         m: nat, k: Key, d: Value, sib: NodeId,
                         nodes3: map<NodeId, Node>, level3: map<NodeId, nat>, head3: Option<Head>, count3: nat)
    requires AwaitingRoot(nodes, level, head, count, m, sib)
    requires head.Some? && m >= 1 && head.value.root in nodes && head.value.root in level && sib in nodes
    requires nodes3 == AfterNewRoot(nodes, count, m, head.value.root, k, sib, d)
    requires level3 == level[NodeName(count) := level[head.value.root] + 1]
    requires head3 == Some(UpdatedHead(head.value, Some(NodeName(count)))) && count3 == count + 1
    ensures Good(nodes3, level3, head3, count3, m, None)
    ensures Stored(nodes3, count3) == Stored(nodes, count) + multiset{Entry(k, d)}
  {
    OpenAwaitingRoot(nodes, level, head, count, m, sib);
    var root := head.value.root;
    var rec := NewRootRecord(m, root, k, sib, d);
    AfterNewRootNodes(nodes, level, head, count, m, k, d, sib);
    NewRootKeepsLinks(nodes, level, head, count, m, sib, nodes3, rec);
    NewRootRooted(nodes, level, head, count, m, sib, nodes3, rec);
    NewRootListed(nodes, level, head, count, m, sib, nodes3, rec);
    NewRootStored(nodes, count, root, sib, nodes3, rec);
    assert Held(rec) == multiset{Entry(k, d)};
  }

  /** No node stands higher than the root. */
  lemma LevelBelowRoot(nodes: map<NodeId, Node>, level: map<NodeId, nat>, head: Option<Head>, count: nat,
                       m: nat, spare: Option<NodeId>, id: NodeId)
    requires Good(nodes, level, head, count, m, spare) && head.Some? && id in nodes
    ensures id in level && head.value.root in level && level[id] <= level[head.value.root]
  {
  }

  // ---------------------------------------------------------------- first root

  /** The arena `createIndexHeadFile` sets up (index.c:282-297): one empty root under the
      first id and a head with `nodeNum = 1`. It keeps the invariant and stores nothing. */
  lemma FirstRootGood(m: nat)
    requires m >= 3
    ensures var id := NodeName(0);
            && Good(map[id := Blank(m)], map[id := 0], Some(Head(id, 1)), 1, m, None)
            && Stored(map[id := Blank(m)], 1) == multiset{}
  {
    var id := NodeName(0);
    var nodes := map[id := Blank(m)];
    assert NodeLinked(nodes, map[id := 0], Blank(m), 0);
    assert NodeNames(1) == {id};
    assert Held(Blank(m)) == multiset{} by {
      assert Entries(Blank(m)) == [];
    }
  }
}
