/** The index itself (index.c): the node files, the head file and the node counter as the
    state of one object, and the operations that search it, grow it and load it from the
    data file. The source fixes the order `M` at 8191; here it is a parameter, at least 3. */
module BTreeIndex {
  import opened Wrappers
  import opened Keys
  import opened Nodes
  import opened NodeBuffer
  import opened Arena
  import opened Descent
  import opened Growth
  import opened Records

  class Index {
    /** The order: a node holds at most `M - 1` keys between operations. */
    const M: nat
    /** The node files, by name. */
    var nodes: map<NodeId, Node>
    /** The head file `index_btree`, once it exists. */
    var head: Option<Head>
    /** `BTreeNodeCount`, the counter that names node files. */
    var count: nat
    /** The height of every node, leaves at 0. */
    ghost var level: map<NodeId, nat>

    ghost predicate Valid()
      reads this
    {
      Good(nodes, level, head, count, M, None)
    }

    /** The key/value descriptor pairs the index stores, with multiplicity. */
    ghost function Contents(): multiset<Entry>
      reads this
    {
      Stored(nodes, count)
    }

    /** No files yet. */
    constructor (m: nat)
      requires m >= 3
      ensures Valid() && M == m
      ensures head == None && nodes == map[] && count == 0 && Contents() == multiset{}
    {
      M := m;
      nodes := map[];
      head := None;
      count := 0;
      level := map[];
    }

    /** `nextNodeFileName` (index.c:68-76): the name `node<count>`, and the counter moves
        on. The name has not been issued before. */
    method NextNodeName() returns (id: NodeId)
      modifies this
      ensures id == NodeName(old(count)) && id !in NodeNames(old(count))
      ensures count == old(count) + 1
      ensures nodes == old(nodes) && head == old(head) && level == old(level)
    {
      id := NodeName(count);
      NextNameFresh(count);
      count := count + 1;
    }

    /** `UpdateFileHead` (index.c:137-147): a new root name when one is given, and the
        head's 16-bit node counter goes up by one. index.c:145 writes the record after the
        one just read, without seeking back; the model overwrites the head, as evidently
        intended. */
    method UpdateFileHead(newHead: Option<NodeId>)
      requires head.Some?
      modifies this
      ensures head == Some(UpdatedHead(old(head).value, newHead))
      ensures nodes == old(nodes) && count == old(count) && level == old(level)
    {
      var h := head.value;
      var root := if newHead.Some? then newHead.value else h.root;
      head := Some(Head(root, (h.nodeNum + 1) % NodeNumLimit));
    }

    /** The loop of index.c:196-202: every child named in slots `0..keyNum` of the
        sibling's record `sib` gets `ap` as its parent. */
    method AdoptChildren(sib: Node, ap: NodeId)
      requires sib.keyNum < |sib.ptr|
      requires forall t :: 0 <= t <= sib.keyNum && sib.ptr[t].Some? ==> sib.ptr[t].value in nodes
      modifies this
      ensures nodes == Reparent(old(nodes), sib.ptr[..sib.keyNum + 1], ap)
      ensures head == old(head) && count == old(count) && level == old(level)
    {
      var ns := nodes;
      var j := 0;
      while j <= sib.keyNum
        invariant 0 <= j <= sib.keyNum + 1
        invariant ns.Keys == nodes.Keys
        invariant ns == Reparent(nodes, sib.ptr[..j], ap)
      {
        assert sib.ptr[..j + 1][..j] == sib.ptr[..j];
        if sib.ptr[j].Some? {
          var c := sib.ptr[j].value;
          ns := ns[c := ns[c].(parent := Some(ap))];
        }
        j := j + 1;
      }
      nodes := ns;
    }

    /** `Split` (index.c:175-206): the keys, children and values above slot `s` move to a
        new node file with the same parent, the children it takes over are reparented to
        it, and the buffer keeps slots `1..s-1`. Slot `s` stays in the buffer for the
        caller to promote. */
    method Split(buf: NodeBuf, s: nat) returns (ap: NodeId)
      requires head.Some? && buf.Valid() && buf.key.Length == M + 1
      requires 1 <= s <= buf.keyNum <= M
      requires forall t :: s <= t <= buf.keyNum && buf.ptr[t].Some? ==> buf.ptr[t].value in nodes
      modifies this, buf, buf.ptr
      ensures ap == NodeName(old(count)) && count == old(count) + 1
      ensures head == Some(UpdatedHead(old(head).value, None)) && level == old(level)
      ensures buf.Valid() && buf.Record() == SplitLeft(old(buf.Record()), s)
      ensures var r := old(buf.Record());
              nodes == Reparent(old(nodes)[ap := SplitRight(r, s)], SplitRight(r, s).ptr[..r.keyNum - s + 1], ap)
    {
      ghost var r := buf.Record();
      assert forall t :: s <= t <= r.keyNum && r.ptr[t].Some? ==> r.ptr[t].value in nodes;
      var sib := new NodeBuf.Zeroed(M);
      ap := NextNodeName();
      buf.SplitInto(s, sib);
      var right := sib.Record();
      SplitRightChildrenIn(r, s, nodes);
      WriteSibling(ap, right);
    }

    /** The new node file of `Split` (index.c:192-202): the sibling's record is written to
        file `ap`, the head's counter goes up, and every child the record names in slots
        `0..keyNum` gets `ap` as its parent. */
    method WriteSibling(ap: NodeId, sib: Node)
      requires head.Some? && sib.keyNum < |sib.ptr|
      requires forall t :: 0 <= t <= sib.keyNum && sib.ptr[t].Some? ==> sib.ptr[t].value in nodes
      modifies this
      ensures nodes == Reparent(old(nodes)[ap := sib], sib.ptr[..sib.keyNum + 1], ap)
      ensures head == Some(UpdatedHead(old(head).value, None)) && count == old(count) && level == old(level)
    {
      nodes := nodes[ap := sib];
      UpdateFileHead(None);
      AdoptChildren(sib, ap);
    }

    /** `NewRootNode` (index.c:150-172): a new node file holding the promoted pair, with
        the old root and its new sibling as its two children, becomes the root.
        index.c:163-169 sets the parent of `rootFile` twice and never that of `ap`; the
        model sets both, as evidently intended. */
    method NewRootNode(rootFile: NodeId, k: Key, ap: NodeId, d: Value)
      requires head.Some? && M >= 1 && rootFile in nodes && ap in nodes && rootFile in level
      requires NodeName(count) !in nodes
      modifies this
      ensures nodes == AfterNewRoot(old(nodes), old(count), M, rootFile, k, ap, d)
      ensures level == old(level)[NodeName(old(count)) := old(level)[rootFile] + 1]
      ensures head == Some(UpdatedHead(old(head).value, Some(NodeName(old(count))))) && count == old(count) + 1
    {
      ghost var level0 := level;
      var r := NextNodeName();
      var b := new NodeBuf.Zeroed(M);
      b.FillNewRoot(M, rootFile, k, ap, d);
      nodes := nodes[r := b.Record()];
      nodes := nodes[rootFile := nodes[rootFile].(parent := Some(r))];
      nodes := nodes[ap := nodes[ap].(parent := Some(r))];
      level := level0[r := level0[rootFile] + 1];
      UpdateFileHead(Some(r));
    }

    /** `MunmapBTreeNode` with the buffer changed: the record is written back to the node's
        file. The source maps node files `MAP_PRIVATE`, under which no change would reach the
        file; the model writes back, as the algorithm evidently intends. */
    method WriteBack(cur: NodeId, buf: NodeBuf)
      modifies this
      ensures nodes == old(nodes)[cur := buf.Record()]
      ensures head == old(head) && count == old(count) && level == old(level)
    {
      nodes := nodes[cur := buf.Record()];
    }

    /** The branch of the loop in `InsertBTree` where the node still has room
        (index.c:240-242): the buffer is written back and the loop ends. */
    method Finish(buf: NodeBuf, cur: NodeId, ghost i: nat, ghost k: Key, ghost d: Value,
                  ghost ap: Option<NodeId>)
      requires Waiting(nodes, level, head, count, M, cur, i, k, ap)
      requires buf.Record() == Inserted(nodes[cur], M, i, ap, k, d) && buf.keyNum < M
      modifies this
      ensures Valid() && Contents() == old(Contents()) + multiset{Entry(k, d)}
      ensures head == old(head)
    {
      ghost var nodes0 := nodes;
      OpenWaiting(nodes, level, head, count, M, cur, i, k, ap);
      WriteBack(cur, buf);
      FinishKeepsGood(nodes0, level, head, count, M, cur, i, k, d, ap);
    }

    /** The split branch of the loop in `InsertBTree` (index.c:243-249, with the write-back
        of index.c:252): the full buffer of `cur` splits at `s = (M + 1) / 2`, the arena
        takes both halves, and the middle pair is read out of the buffer to be promoted
        with the new sibling as its right child. */
    method SplitFull(buf: NodeBuf, cur: NodeId) returns (sib: NodeId, k: Key, d: Value)
      requires head.Some? && cur in level && buf.Valid() && buf.key.Length == M + 1
      requires 1 <= SplitPoint(M) <= buf.keyNum <= M
      requires forall t :: SplitPoint(M) <= t <= buf.keyNum && buf.ptr[t].Some? ==> buf.ptr[t].value in nodes
      modifies this, buf, buf.ptr
      ensures var r := old(buf.Record());
              && sib == NodeName(old(count)) && k == r.key[SplitPoint(M)] && d == r.data[SplitPoint(M)]
              && buf.parent == r.parent
              && nodes == AfterSplit(old(nodes), old(count), cur, r, SplitPoint(M))
      ensures level == old(level)[sib := old(level)[cur]]
      ensures head == Some(UpdatedHead(old(head).value, None)) && count == old(count) + 1
    {
      ghost var r := buf.Record();
      var s := (M + 1) / 2;
      sib := Split(buf, s);
      k, d := buf.key[s], buf.data[s];
      assert k == r.key[s] && d == r.data[s];
      WriteBack(cur, buf);
      level := level[sib := level[cur]];
    }

    /** `SplitFull` in the loop: the promoted pair stands in for the one inserted; either
        it now waits for the parent, one level up, or the root has split. */
    method SplitNode(buf: NodeBuf, cur: NodeId, ghost i: nat, ghost k0: Key, ghost d0: Value,
                     ghost ap0: Option<NodeId>)
      returns (sib: NodeId, k: Key, d: Value)
      requires Waiting(nodes, level, head, count, M, cur, i, k0, ap0)
      requires buf.Valid() && buf.keyNum == M
      requires buf.Record() == Inserted(nodes[cur], M, i, ap0, k0, d0)
      modifies this, buf, buf.ptr
      ensures head.Some? && head.value.root == old(head.value.root)
      ensures buf.parent == old(nodes[cur].parent)
      ensures Contents() + multiset{Entry(k, d)} == old(Contents()) + multiset{Entry(k0, d0)}
      ensures buf.parent.Some? ==>
                && buf.parent.value in nodes && nodes[buf.parent.value].keyNum < |nodes[buf.parent.value].key|
                && Waiting(nodes, level, head, count, M, buf.parent.value, SearchSlot(nodes[buf.parent.value], k), k, Some(sib))
                && level[buf.parent.value] == old(level[cur]) + 1
                && level[head.value.root] == old(level[head.value.root])
      ensures buf.parent.None? ==> AwaitingRoot(nodes, level, head, count, M, sib)
    {
      ghost var nodes0, level0, head0, count0 := nodes, level, head, count;
      SplitReady(nodes0, level0, head0, count0, M, cur, i, k0, d0, ap0);
      sib, k, d := SplitFull(buf, cur);
      SplitStep(nodes0, level0, head0, count0, M, cur, i, k0, d0, ap0, nodes, level, head, count, sib, buf.parent, k, d);
    }

    /** The end of `InsertBTree` when the root has split (index.c:260-262): a new root over
        the old one and its sibling. The invariant is back and the promoted pair is
        stored. */
    method GrowRoot(rootNodeFile: NodeId, k: Key, sib: NodeId, d: Value)
      requires AwaitingRoot(nodes, level, head, count, M, sib) && rootNodeFile == head.value.root
      modifies this
      ensures Valid() && Contents() == old(Contents()) + multiset{Entry(k, d)}
    {
      ghost var nodes0, level0, head0, count0 := nodes, level, head, count;
      AwaitingRootReady(nodes, level, head, count, M, sib);
      NewRootNode(rootNodeFile, k, sib, d);
      NewRootKeepsGood(nodes0, level0, head0, count0, M, k, d, sib, nodes, level, head, count);
    }

    /** `InsertBTree` (index.c:227-263): insert the pair into the leaf `nodeFile` at slot
        `i0`; while the node reaches `M` keys, split it and carry the middle pair and the
        new sibling up to the parent; when the root splits, grow a new root. The invariant
        is kept and the index stores exactly one pair more. */
    method InsertBTree(rootNodeFile: NodeId, ikey: Key, nodeFile: NodeId, i0: nat, data: Value)
      requires Pending(nodes, level, head, count, M, nodeFile, i0, ikey, None)
      requires rootNodeFile == head.value.root
      modifies this
      ensures Valid()
      ensures Contents() == old(Contents()) + multiset{Entry(ikey, data)}
    {
      ghost var goal := Contents() + multiset{Entry(ikey, data)};
      var k, d := ikey, data;
      var ap: Option<NodeId> := None;
      var cur, i := nodeFile, i0;
      var buf := new NodeBuf.Load(nodes[cur]);
      var finished, needNewRoot := false, false;
      CloseWaiting(nodes, level, head, count, M, cur, i, k, ap);
      while !needNewRoot && !finished
        invariant head.Some? && head.value.root == rootNodeFile
        invariant !finished && !needNewRoot ==>
                    && Waiting(nodes, level, head, count, M, cur, i, k, ap)
                    && fresh(buf) && fresh(buf.key) && fresh(buf.ptr) && fresh(buf.data)
                    && buf.Valid() && buf.Record() == nodes[cur]
                    && Contents() + multiset{Entry(k, d)} == goal
        invariant finished ==> Valid() && Contents() == goal
        invariant needNewRoot ==>
                    && ap.Some? && AwaitingRoot(nodes, level, head, count, M, ap.value)
                    && Contents() + multiset{Entry(k, d)} == goal
        decreases !finished && !needNewRoot,
                  if finished || needNewRoot then 0 else level[rootNodeFile] - level[cur]
      {
        // index.c:239 passes `key` and `ap` in each other's places; the model passes
        // them in the order `Insert` declares.
        buf.Insert(i, ap, k, d);
        if buf.keyNum < M {
          Finish(buf, cur, i, k, d, ap);
          finished := true;
        } else {
          var sib;
          sib, k, d := SplitNode(buf, cur, i, k, d, ap);
          if buf.parent.Some? {
            cur := buf.parent.value;
            buf := new NodeBuf.Load(nodes[cur]);
            i := buf.Search(k);
            SearchSlotUnique(nodes[cur], k, i);
          } else {
            needNewRoot := true;
          }
          ap := Some(sib);
        }
      }
      if needNewRoot {
        GrowRoot(rootNodeFile, k, ap.value, d);
      }
    }

    /** `SearchBTree` (index.c:102-134) as written: in each node `i = Search(node, k)`; a
        hit when slot `i` holds `k`, otherwise down through child slot `i - 1`, until that
        slot is empty; a miss reports the last node visited and its slot `i`. The result
        is the descent `Descend`, which never reports a hit (`DescendNeverFinds`) and
        always stops at a leaf. index.c:112 maps `file`, the node the search started at,
        on every round instead of `nodeFile`; the model loads `nodeFile`, as evidently
        intended. */
    method SearchBTree(file: NodeId, k: Key) returns (r: Outcome)
      requires Walkable(nodes, level, M) && file in nodes
      ensures r == Descend(nodes, level, M, file, k)
      ensures !r.found && r.node in nodes && r.i == SearchSlot(nodes[r.node], k)
      ensures nodes[r.node].ptr[r.i - 1] == None && level[r.node] == 0
    {
      DescendReachesLeaf(nodes, level, M, file, k);
      ghost var goal := Descend(nodes, level, M, file, k);
      var nodeFile: Option<NodeId> := Some(file);
      var parentFile := file;
      var i: nat := 0;
      var found := false;
      var value := Value(0, 0);
      while nodeFile.Some? && !found
        invariant nodeFile.Some? ==> nodeFile.value in nodes
        invariant nodeFile.Some? && !found ==> Descend(nodes, level, M, nodeFile.value, k) == goal
        invariant found ==> nodeFile.Some? && goal == Outcome(nodeFile.value, i, true, value)
        invariant nodeFile.None? ==> goal == Outcome(parentFile, i, false, Value(0, 0))
        decreases if nodeFile.Some? && !found then level[nodeFile.value] + 1 else 0
      {
        var cur := nodeFile.value;
        var buf := new NodeBuf.Load(nodes[cur]);
        i := buf.Search(k);
        SearchSlotUnique(nodes[cur], k, i);
        if i <= buf.keyNum && buf.key[i] == k {
          found := true;
          value := buf.data[i];
        } else {
          assert NodeLinked(nodes, level, nodes[cur], level[cur]);
          parentFile := cur;
          nodeFile := buf.ptr[i - 1];
        }
      }
      if found {
        r := Outcome(nodeFile.value, i, true, value);
      } else {
        r := Outcome(parentFile, i, false, Value(0, 0));
      }
      DescendNeverFinds(nodes, level, M, file, k);
    }

    /** The lookup `SearchBTree` evidently means: the same descent, with the hit tested at
        slot `i - 1`, where the last key not after `k` sits. It reports a hit exactly when
        a node on the descent path holds `k`, and then that node, the key's slot and the
        slot's value descriptor. */
    method Lookup(file: NodeId, k: Key) returns (r: Outcome)
      requires Walkable(nodes, level, M) && file in nodes
      requires forall x :: x in nodes ==> Sorted(nodes[x])
      ensures r == FindFrom(nodes, level, M, file, k)
      ensures r.found <==> OnPath(nodes, level, M, file, k)
      ensures r.found ==> r.node in nodes && 1 <= r.i <= nodes[r.node].keyNum
                          && nodes[r.node].key[r.i] == k && r.value == nodes[r.node].data[r.i]
    {
      ghost var goal := FindFrom(nodes, level, M, file, k);
      var nodeFile: Option<NodeId> := Some(file);
      var parentFile := file;
      var i: nat := 0;
      var found := false;
      var value := Value(0, 0);
      while nodeFile.Some? && !found
        invariant nodeFile.Some? ==> nodeFile.value in nodes
        invariant nodeFile.Some? && !found ==> FindFrom(nodes, level, M, nodeFile.value, k) == goal
        invariant found ==> nodeFile.Some? && goal == Outcome(nodeFile.value, i, true, value)
        invariant nodeFile.None? ==> goal == Outcome(parentFile, i, false, Value(0, 0))
        decreases if nodeFile.Some? && !found then level[nodeFile.value] + 1 else 0
      {
        var cur := nodeFile.value;
        var buf := new NodeBuf.Load(nodes[cur]);
        i := buf.Search(k);
        SearchSlotUnique(nodes[cur], k, i);
        if i > 1 && buf.key[i - 1] == k {
          found := true;
          i := i - 1;
          value := buf.data[i];
        } else {
          assert NodeLinked(nodes, level, nodes[cur], level[cur]);
          parentFile := cur;
          nodeFile := buf.ptr[i - 1];
        }
      }
      if found {
        r := Outcome(nodeFile.value, i, true, value);
      } else {
        r := Outcome(parentFile, i, false, Value(0, 0));
      }
      FindFromExact(nodes, level, M, file, k);
    }

    /** `InsertData` (index.c:265-279): descend from the root named in the head to the
        leaf the key belongs in and insert the pair there. The invariant is kept and the
        index stores exactly one pair more. */
    method InsertData(key: Key, len: nat, pos: nat)
      requires Valid() && head.Some?
      modifies this
      ensures Valid() && head.Some?
      ensures Contents() == old(Contents()) + multiset{Entry(key, Value(len, pos))}
    {
      var root := head.value.root;
      GoodIsWalkable(nodes, level, head, count, M, None);
      var r := SearchBTree(root, key);
      var data := Value(len, pos);
      InsertBTree(root, key, r.node, r.i, data);
    }

    /** `createIndexHeadFile` (index.c:282-297): when there is no head file, an empty root
        under the first name and a head with `nodeNum = 1`, and the result 0; otherwise
        nothing changes and the result is 1. */
    method CreateIndexHeadFile() returns (existed: bool)
      requires Valid()
      modifies this
      ensures Valid()
      ensures existed <==> old(head).Some?
      ensures existed ==> nodes == old(nodes) && head == old(head) && count == old(count)
      ensures !existed ==> && nodes == map[NodeName(0) := Blank(M)] && head == Some(Head(NodeName(0), 1))
                           && count == 1 && Contents() == multiset{}
    {
      if head.Some? {
        return true;
      }
      var nodeBuf := new NodeBuf.Zeroed(M);
      var id := NextNodeName();
      nodes := map[id := nodeBuf.Record()];
      level := map[id := 0];
      head := Some(Head(id, 1));
      FirstRootGood(M);
      return false;
    }

    /** `createIndex` (index.c:300-336) over the data file `buf`: when the head file is
        new, every record of the file is inserted, in file order, until the end of the
        file or the first record that cannot be read whole. The index then stores exactly
        the descriptors `ParseFrom(buf, 0)` lists. */
    method CreateIndex(buf: seq<char>)
      requires Valid()
      modifies this
      ensures Valid()
      ensures old(head).Some? ==> nodes == old(nodes) && head == old(head) && count == old(count)
      ensures old(head).None? ==> Contents() == multiset(ParseFrom(buf, 0))
    {
      var existed := CreateIndexHeadFile();
      if existed {
        return;
      }
      var offset: nat := 0;
      while offset < |buf|
        invariant Valid() && head.Some?
        invariant Contents() + multiset(ParseFrom(buf, offset)) == multiset(ParseFrom(buf, 0))
        decreases |buf| - offset
      {
        var rec := ReadRecord(buf, offset);
        if rec.Err? {
          break;
        }
        InsertData(rec.value.key, rec.value.len, rec.value.pos);
        offset := rec.value.next;
      }
    }
  }
}
