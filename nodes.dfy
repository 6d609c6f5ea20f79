/** One B-Tree node record (`BTreeNode` in index.c) and the pure operations on it:
    the in-node search, slot insertion and the two halves of a split. */
module Nodes {
  import opened Wrappers
  import opened Keys

  /** A node is named by a string ("node0", "node1", ...); an empty name is `None`. */
  type NodeId = string

  /** Where a value lies in the data file: its length and its byte offset. */
  datatype Value = Value(len: nat, pos: nat)

  /** A node record. `key`, `ptr` and `data` are the fixed-size arrays of the record, with
      `M + 1` slots each; keys and values use slots `1..keyNum`, children `0..keyNum`. */
  datatype Node = Node(keyNum: nat, parent: Option<NodeId>, key: seq<Key>,
                       ptr: seq<Option<NodeId>>, data: seq<Value>)

  /** A stored pair: a key and the descriptor of its value. */
  datatype Entry = Entry(key: Key, value: Value)

  /** The three arrays have `m + 1` slots and at most `m` of them hold keys. */
  predicate Sized(n: Node, m: nat) {
    |n.key| == m + 1 && |n.ptr| == m + 1 && |n.data| == m + 1 && n.keyNum <= m
  }

  /** The zero-filled record `MALLOC_NODE` produces. */
  function Blank(m: nat): (n: Node)
    ensures Sized(n, m) && n.keyNum == 0 && n.parent == None
  {
    Node(0, None, seq(m + 1, _ => []), seq(m + 1, _ => None), seq(m + 1, _ => Value(0, 0)))
  }

  /** The keys in slots `1..keyNum` never decrease (equal keys may sit side by side). */
  ghost predicate Sorted(n: Node)
    requires n.keyNum < |n.key|
  {
    forall a, b :: 1 <= a < b <= n.keyNum ==> LessEq(n.key[a], n.key[b])
  }

  /** One of the child slots in use, `0..keyNum`, names `id`. */
  ghost predicate Lists(n: Node, id: NodeId) {
    exists j :: 0 <= j <= n.keyNum && j < |n.ptr| && n.ptr[j] == Some(id)
  }

  /** `Lists` as membership in the slots in use. */
  lemma ListsInUse(n: Node, id: NodeId)
    requires n.keyNum < |n.ptr|
    ensures Lists(n, id) <==> Some(id) in n.ptr[..n.keyNum + 1]
  {
    var used := n.ptr[..n.keyNum + 1];
    if Some(id) in used {
      var j :| 0 <= j < |used| && used[j] == Some(id);
      assert n.ptr[j] == Some(id);
    }
  }

  /** The pairs the node stores, in slot order. */
  function Entries(n: Node): (es: seq<Entry>)
    requires n.keyNum < |n.key| && n.keyNum < |n.data|
    ensures |es| == n.keyNum
    ensures forall j :: 0 <= j < n.keyNum ==> es[j] == Entry(n.key[j + 1], n.data[j + 1])
  {
    seq(n.keyNum, j requires 0 <= j < n.keyNum => Entry(n.key[j + 1], n.data[j + 1]))
  }

  // ---------------------------------------------------------------- Search

  /** `i` is what `Search` returns: the first slot in `1..keyNum` whose key sorts after `k`,
      or `keyNum + 1` when there is none. */
  ghost predicate IsSearchSlot(n: Node, k: Key, i: nat)
    requires n.keyNum < |n.key|
  {
    && 1 <= i <= n.keyNum + 1
    && (forall j :: 1 <= j < i ==> !Less(k, n.key[j]))
    && (i <= n.keyNum ==> Less(k, n.key[i]))
  }

  /** The scan of `Search` from slot `j` on, having passed over slots `1..j-1`. */
  function ScanFrom(n: Node, k: Key, j: nat): (i: nat)
    requires n.keyNum < |n.key|
    requires 1 <= j <= n.keyNum + 1
    requires forall x :: 1 <= x < j ==> !Less(k, n.key[x])
    ensures IsSearchSlot(n, k, i)
    decreases n.keyNum + 1 - j
  {
    if j > n.keyNum || Less(k, n.key[j]) then j else ScanFrom(n, k, j + 1)
  }

  /** The slot `Search` (index.c:90-99) returns for key `k`. */
  function SearchSlot(n: Node, k: Key): (i: nat)
    requires n.keyNum < |n.key|
    ensures IsSearchSlot(n, k, i)
  {
    ScanFrom(n, k, 1)
  }

  /** Only one slot meets the description, so `SearchSlot` is determined by it. */
  lemma SearchSlotUnique(n: Node, k: Key, i: nat)
    requires n.keyNum < |n.key|
    requires IsSearchSlot(n, k, i)
    ensures i == SearchSlot(n, k)
  {
  }

  /** An equal key is passed over: a new key lands after every stored key equal to it. */
  lemma SearchPassesEqualKeys(n: Node, k: Key, j: nat)
    requires n.keyNum < |n.key|
    requires Sorted(n)
    requires 1 <= j <= n.keyNum && n.key[j] == k
    ensures j < SearchSlot(n, k)
  {
    var i := SearchSlot(n, k);
    if i == j {
      LessIrreflexive(k);
    }
  }

  /** The slot `Search` returns never holds the key searched for: it holds a key that
      sorts strictly after it, or lies past `keyNum`. */
  lemma SearchSlotNeverMatches(n: Node, k: Key)
    requires n.keyNum < |n.key|
    ensures SearchSlot(n, k) > n.keyNum || n.key[SearchSlot(n, k)] != k
  {
    LessIrreflexive(k);
  }

  /** In a sorted node the key is stored exactly when the slot before the search slot
      holds it: that slot holds the largest key not after `k`. */
  lemma {:induction false} FoundBeforeSearchSlot(n: Node, k: Key)
    requires n.keyNum < |n.key| && Sorted(n)
    ensures var i := SearchSlot(n, k);
            (i > 1 && n.key[i - 1] == k) <==> (exists j :: 1 <= j <= n.keyNum && n.key[j] == k)
  {
    var i := SearchSlot(n, k);
    if j :| 1 <= j <= n.keyNum && n.key[j] == k {
      SearchPassesEqualKeys(n, k, j);
      assert 1 <= j <= i - 1;
      var w := n.key[i - 1];
      assert !Less(k, w);
      if j < i - 1 {
        assert LessEq(n.key[j], w);
      }
      LessTrichotomy(k, w);
    }
  }

  // ---------------------------------------------------------------- Insert

  /** Array `s` after `for (j = top - 1; j >= i; j--) s[j + 1] = s[j]; s[i] = v;`. */
  function Shift<T>(s: seq<T>, i: nat, top: nat, v: T): (r: seq<T>)
    requires i <= top < |s|
    ensures |r| == |s|
  {
    s[..i] + [v] + s[i..top] + s[top + 1..]
  }

  /** Slot by slot: below `i` nothing moves, `i` holds `v`, slots `i..top-1` move up by one,
      and above `top` nothing moves. */
  lemma ShiftSlots<T>(s: seq<T>, i: nat, top: nat, v: T)
    requires i <= top < |s|
    ensures forall x :: 0 <= x < i ==> Shift(s, i, top, v)[x] == s[x]
    ensures Shift(s, i, top, v)[i] == v
    ensures forall x :: i < x <= top ==> Shift(s, i, top, v)[x] == s[x - 1]
    ensures forall x :: top < x < |s| ==> Shift(s, i, top, v)[x] == s[x]
  {
  }

  /** The record after `Insert(nodeBuf, i, ap, key, data)` (index.c:209-224). */
  function InsertAt(n: Node, i: nat, ap: Option<NodeId>, k: Key, d: Value): (r: Node)
    requires 1 <= i <= n.keyNum + 1 && n.keyNum + 1 < |n.key|
    requires |n.ptr| == |n.key| && |n.data| == |n.key|
    ensures r.keyNum == n.keyNum + 1 && r.parent == n.parent
    ensures |r.key| == |n.key| && |r.ptr| == |n.ptr| && |r.data| == |n.data|
  {
    Node(n.keyNum + 1, n.parent,
         Shift(n.key, i, n.keyNum + 1, k),
         Shift(n.ptr, i, n.keyNum + 1, ap),
         Shift(n.data, i, n.keyNum + 1, d))
  }

  /** What `Insert` does to the slots: the new key, child and value stand at `i`, every
      slot from `i` to `keyNum` moved up by one, and the slots below `i` are untouched. */
  lemma InsertAtSlots(n: Node, i: nat, ap: Option<NodeId>, k: Key, d: Value)
    requires 1 <= i <= n.keyNum + 1 && n.keyNum + 1 < |n.key|
    requires |n.ptr| == |n.key| && |n.data| == |n.key|
    ensures var r := InsertAt(n, i, ap, k, d);
            && r.key[i] == k && r.ptr[i] == ap && r.data[i] == d
            && (forall j :: 0 <= j < i ==> r.key[j] == n.key[j] && r.ptr[j] == n.ptr[j] && r.data[j] == n.data[j])
            && (forall j :: i <= j <= n.keyNum ==>
                  r.key[j + 1] == n.key[j] && r.ptr[j + 1] == n.ptr[j] && r.data[j + 1] == n.data[j])
  {
    ShiftSlots(n.key, i, n.keyNum + 1, k);
    ShiftSlots(n.ptr, i, n.keyNum + 1, ap);
    ShiftSlots(n.data, i, n.keyNum + 1, d);
    var r := InsertAt(n, i, ap, k, d);
    forall j | i <= j <= n.keyNum
      ensures r.key[j + 1] == n.key[j] && r.ptr[j + 1] == n.ptr[j] && r.data[j + 1] == n.data[j]
    {
      assert i < j + 1 <= n.keyNum + 1;
    }
  }

  /** After insertion the record lists exactly the children it listed and the new one. */
  lemma InsertAtLists(n: Node, i: nat, ap: Option<NodeId>, k: Key, d: Value, id: NodeId)
    requires 1 <= i <= n.keyNum + 1 && n.keyNum + 1 < |n.key|
    requires |n.ptr| == |n.key| && |n.data| == |n.key|
    ensures Lists(InsertAt(n, i, ap, k, d), id) <==> Lists(n, id) || ap == Some(id)
  {
    var r := InsertAt(n, i, ap, k, d);
    InsertAtSlots(n, i, ap, k, d);
    if Lists(r, id) {
      var j :| 0 <= j <= r.keyNum && j < |r.ptr| && r.ptr[j] == Some(id);
      if j < i {
        assert n.ptr[j] == Some(id);
      } else if i < j {
        assert n.ptr[j - 1] == Some(id);
      }
    }
    if ap == Some(id) {
      assert r.ptr[i] == Some(id);
    } else if Lists(n, id) {
      var j :| 0 <= j <= n.keyNum && j < |n.ptr| && n.ptr[j] == Some(id);
      if j < i {
        assert r.ptr[j] == Some(id);
      } else {
        assert r.ptr[j + 1] == Some(id);
      }
    }
  }

  /** Insertion adds exactly one pair, and in slot order it comes where `i` says. */
  lemma InsertAtEntries(n: Node, i: nat, ap: Option<NodeId>, k: Key, d: Value)
    requires 1 <= i <= n.keyNum + 1 && n.keyNum + 1 < |n.key|
    requires |n.ptr| == |n.key| && |n.data| == |n.key|
    ensures Entries(InsertAt(n, i, ap, k, d))
            == Entries(n)[..i - 1] + [Entry(k, d)] + Entries(n)[i - 1..]
    ensures multiset(Entries(InsertAt(n, i, ap, k, d))) == multiset(Entries(n)) + multiset{Entry(k, d)}
  {
    var r := InsertAt(n, i, ap, k, d);
    InsertAtSlots(n, i, ap, k, d);
    var es := Entries(n);
    var want := es[..i - 1] + [Entry(k, d)] + es[i - 1..];
    forall j | 0 <= j < |want| ensures Entries(r)[j] == want[j] {
      assert Entries(r)[j] == Entry(r.key[j + 1], r.data[j + 1]);
      if j < i - 1 {
        assert want[j] == es[j];
      } else if j == i - 1 {
        assert want[j] == Entry(k, d);
      } else {
        assert want[j] == es[j - 1];
        assert r.key[j + 1] == n.key[j] && r.data[j + 1] == n.data[j];
      }
    }
    assert Entries(r) == want;
    assert es == es[..i - 1] + es[i - 1..];
  }

  /** Inserting at the slot `Search` chose keeps the node sorted. */
  lemma InsertAtSorted(n: Node, i: nat, ap: Option<NodeId>, k: Key, d: Value)
    requires 1 <= i <= n.keyNum + 1 && n.keyNum + 1 < |n.key|
    requires |n.ptr| == |n.key| && |n.data| == |n.key|
    requires Sorted(n) && IsSearchSlot(n, k, i)
    ensures Sorted(InsertAt(n, i, ap, k, d))
  {
    var r := InsertAt(n, i, ap, k, d);
    InsertAtSlots(n, i, ap, k, d);
    forall a, b | 1 <= a < b <= r.keyNum ensures LessEq(r.key[a], r.key[b]) {
      if a == i {
        // k sorts before the old key[i], which is not after any later key
        LessAsymmetric(k, n.key[i]);
        if b - 1 > i {
          LessThenLessEq(k, n.key[i], n.key[b - 1]);
        }
        LessAsymmetric(k, n.key[b - 1]);
      } else if b == i {
        // every key before slot i is not after k
      } else if a < i < b {
        assert LessEq(n.key[a], k);
        if i <= n.keyNum {
          LessAsymmetric(k, n.key[i]);
          if b - 1 > i {
            LessThenLessEq(k, n.key[i], n.key[b - 1]);
          }
          LessAsymmetric(k, n.key[b - 1]);
        }
        LessEqTransitive(n.key[a], k, n.key[b - 1]);
      }
    }
  }

  // ---------------------------------------------------------------- Split

  /** The overflowing node after `Split(nodeBuf, ap, s)` (index.c:175-206): it keeps slots
      `1..s-1`, and the child slots `s+1..keyNum` it handed over are cleared. */
  function SplitLeft(n: Node, s: nat): (r: Node)
    requires 1 <= s <= n.keyNum < |n.ptr|
    ensures r.keyNum == s - 1 && r.parent == n.parent
    ensures r.key == n.key && r.data == n.data && |r.ptr| == |n.ptr|
    ensures forall j :: 0 <= j <= s ==> r.ptr[j] == n.ptr[j]
    ensures forall j :: s < j <= n.keyNum ==> r.ptr[j] == None
    ensures forall j :: n.keyNum < j < |n.ptr| ==> r.ptr[j] == n.ptr[j]
  {
    Node(s - 1, n.parent, n.key,
         n.ptr[..s + 1] + seq(n.keyNum - s, _ => None) + n.ptr[n.keyNum + 1..],
         n.data)
  }

  /** The new sibling `Split` builds in a zeroed record: slots `s+1..keyNum` of the
      original renumbered from 1, child slot 0 taken from the original's `ptr[s]`,
      and the original's parent. */
  function SplitRight(n: Node, s: nat): (r: Node)
    requires 1 <= s <= n.keyNum < |n.key|
    requires |n.ptr| == |n.key| && |n.data| == |n.key|
    ensures r.keyNum == n.keyNum - s && r.parent == n.parent
    ensures |r.key| == |n.key| && |r.ptr| == |n.ptr| && |r.data| == |n.data|
    ensures r.ptr[0] == n.ptr[s] && r.key[0] == [] && r.data[0] == Value(0, 0)
    ensures forall j :: 1 <= j <= n.keyNum - s ==>
              r.key[j] == n.key[s + j] && r.ptr[j] == n.ptr[s + j] && r.data[j] == n.data[s + j]
    ensures forall j :: n.keyNum - s < j < |n.key| ==>
              r.key[j] == [] && r.ptr[j] == None && r.data[j] == Value(0, 0)
  {
    var rest := |n.key| - (n.keyNum - s + 1);
    Node(n.keyNum - s, n.parent,
         [[]] + n.key[s + 1..n.keyNum + 1] + seq(rest, _ => []),
         [n.ptr[s]] + n.ptr[s + 1..n.keyNum + 1] + seq(rest, _ => None),
         [Value(0, 0)] + n.data[s + 1..n.keyNum + 1] + seq(rest, _ => Value(0, 0)))
  }

  /** A record that agrees slot by slot with `SplitLeft(n, s)` is that record. */
  lemma SplitLeftByIndex(n: Node, s: nat, r: Node)
    requires 1 <= s <= n.keyNum < |n.ptr|
    requires r.keyNum == s - 1 && r.parent == n.parent
    requires r.key == n.key && r.data == n.data && |r.ptr| == |n.ptr|
    requires forall j :: 0 <= j <= s ==> r.ptr[j] == n.ptr[j]
    requires forall j :: s < j <= n.keyNum ==> r.ptr[j] == None
    requires forall j :: n.keyNum < j < |n.ptr| ==> r.ptr[j] == n.ptr[j]
    ensures r == SplitLeft(n, s)
  {
    var t := SplitLeft(n, s);
    assert r.ptr == t.ptr;
  }

  /** A record that agrees slot by slot with `SplitRight(n, s)` is that record. */
  lemma SplitRightByIndex(n: Node, s: nat, r: Node)
    requires 1 <= s <= n.keyNum < |n.key|
    requires |n.ptr| == |n.key| && |n.data| == |n.key|
    requires r.keyNum == n.keyNum - s && r.parent == n.parent
    requires |r.key| == |n.key| && |r.ptr| == |n.ptr| && |r.data| == |n.data|
    requires r.ptr[0] == n.ptr[s] && r.key[0] == [] && r.data[0] == Value(0, 0)
    requires forall j :: 1 <= j <= n.keyNum - s ==>
               r.key[j] == n.key[s + j] && r.ptr[j] == n.ptr[s + j] && r.data[j] == n.data[s + j]
    requires forall j :: n.keyNum - s < j < |n.key| ==>
               r.key[j] == [] && r.ptr[j] == None && r.data[j] == Value(0, 0)
    ensures r == SplitRight(n, s)
  {
    var t := SplitRight(n, s);
    assert r.key == t.key;
    assert r.ptr == t.ptr;
    assert r.data == t.data;
  }

  /** A split hands every child of the record to exactly one half: slots `0..s-1` stay,
      slots `s..keyNum` go to the sibling. */
  lemma SplitLists(n: Node, s: nat, id: NodeId)
    requires 1 <= s <= n.keyNum < |n.key|
    requires |n.ptr| == |n.key| && |n.data| == |n.key|
    ensures Lists(n, id) <==> Lists(SplitLeft(n, s), id) || Lists(SplitRight(n, s), id)
  {
    var l, r := SplitLeft(n, s), SplitRight(n, s);
    if Lists(n, id) {
      var j :| 0 <= j <= n.keyNum && j < |n.ptr| && n.ptr[j] == Some(id);
      if j < s {
        assert l.ptr[j] == Some(id);
      } else {
        assert r.ptr[j - s] == Some(id);
      }
    }
    if Lists(l, id) {
      var j :| 0 <= j <= l.keyNum && j < |l.ptr| && l.ptr[j] == Some(id);
      assert n.ptr[j] == Some(id);
    }
    if Lists(r, id) {
      var j :| 0 <= j <= r.keyNum && j < |r.ptr| && r.ptr[j] == Some(id);
      assert n.ptr[s + j] == Some(id);
    }
  }

  /** A split loses no pair and reorders none: the left part, the promoted pair at slot `s`,
      then the sibling. */
  lemma SplitEntries(n: Node, s: nat)
    requires 1 <= s <= n.keyNum < |n.key|
    requires |n.ptr| == |n.key| && |n.data| == |n.key|
    ensures Entries(n) == Entries(SplitLeft(n, s)) + [Entry(n.key[s], n.data[s])] + Entries(SplitRight(n, s))
    ensures multiset(Entries(n)) == multiset(Entries(SplitLeft(n, s))) + multiset{Entry(n.key[s], n.data[s])}
                                    + multiset(Entries(SplitRight(n, s)))
  {
    var l, r := SplitLeft(n, s), SplitRight(n, s);
    var want := Entries(l) + [Entry(n.key[s], n.data[s])] + Entries(r);
    forall j | 0 <= j < |want| ensures Entries(n)[j] == want[j] {
      if j >= s {
        assert want[j] == Entries(r)[j - s];
      }
    }
    assert Entries(n) == want;
  }

  /** Both halves of a sorted node are sorted, and the promoted key separates them. */
  lemma SplitSorted(n: Node, s: nat)
    requires 1 <= s <= n.keyNum < |n.key|
    requires |n.ptr| == |n.key| && |n.data| == |n.key|
    requires Sorted(n)
    ensures Sorted(SplitLeft(n, s)) && Sorted(SplitRight(n, s))
    ensures forall j :: 1 <= j < s ==> LessEq(n.key[j], n.key[s])
    ensures forall j :: 1 <= j <= n.keyNum - s ==> LessEq(n.key[s], SplitRight(n, s).key[j])
  {
    var r := SplitRight(n, s);
    forall a, b | 1 <= a < b <= r.keyNum ensures LessEq(r.key[a], r.key[b]) {
      assert r.key[a] == n.key[s + a] && r.key[b] == n.key[s + b];
    }
  }

  /** The record `NewRootNode` (index.c:150-172) writes: one key, the old root on its
      left and the new sibling on its right. */
  function NewRootRecord(m: nat, left: NodeId, k: Key, right: NodeId, d: Value): (r: Node)
    requires m >= 1
    ensures Sized(r, m) && r.keyNum == 1 && r.parent == None
    ensures r.key[1] == k && r.data[1] == d && r.ptr[0] == Some(left) && r.ptr[1] == Some(right)
    ensures Entries(r) == [Entry(k, d)]
  {
    var b := Blank(m);
    b.(keyNum := 1, key := b.key[1 := k], ptr := b.ptr[0 := Some(left)][1 := Some(right)],
       data := b.data[1 := d])
  }
}
