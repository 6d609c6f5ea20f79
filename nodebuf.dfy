/** A node mapped into memory (`MmapBTreeNode` in index.c): three fixed-size arrays and the
    header fields, changed in place by `Search`'s callers, `Insert` and `Split`. */
module NodeBuffer {
  import opened Wrappers
  import opened Keys
  import opened Nodes

  /** Array `s` part-way through `Insert`'s loop: slots up to `j + 1` are as they were,
      slots `j + 2..top` hold what stood one place lower. */
  function Moved<T>(s: seq<T>, j: int, top: nat): (r: seq<T>)
    requires -1 <= j < top < |s|
    ensures |r| == |s|
  {
    seq(|s|, x requires 0 <= x < |s| => if j + 1 < x <= top then s[x - 1] else s[x])
  }

  lemma MovedStart<T>(s: seq<T>, top: nat)
    requires 1 <= top < |s|
    ensures Moved(s, top - 1, top) == s
  {
  }

  lemma MovedStep<T>(s: seq<T>, a: seq<T>, j: int, top: nat)
    requires 0 <= j < top < |s| && a == Moved(s, j, top)
    ensures a[j + 1 := a[j]] == Moved(s, j - 1, top)
  {
  }

  lemma MovedEnd<T>(s: seq<T>, i: nat, top: nat, v: T)
    requires 1 <= i <= top < |s|
    ensures Moved(s, i - 1, top)[i := v] == Shift(s, i, top, v)
  {
    ShiftSlots(s, i, top, v);
  }

  /** Once the loop is done, writing the new slot gives `InsertAt`'s record. */
  lemma InsertEnd(n: Node, i: nat, ks: seq<Key>, ps: seq<Option<NodeId>>, ds: seq<Value>,
                  ap: Option<NodeId>, k: Key, d: Value)
    requires 1 <= i <= n.keyNum + 1 && n.keyNum + 1 < |n.key|
    requires |n.ptr| == |n.key| && |n.data| == |n.key|
    requires ks == Moved(n.key, i - 1, n.keyNum + 1)
    requires ps == Moved(n.ptr, i - 1, n.keyNum + 1)
    requires ds == Moved(n.data, i - 1, n.keyNum + 1)
    ensures Node(n.keyNum + 1, n.parent, ks[i := k], ps[i := ap], ds[i := d]) == InsertAt(n, i, ap, k, d)
  {
    MovedEnd(n.key, i, n.keyNum + 1, k);
    MovedEnd(n.ptr, i, n.keyNum + 1, ap);
    MovedEnd(n.data, i, n.keyNum + 1, d);
  }

  /** Child array `p` part-way through `Split`'s copy loop: slots `s+1..i-1` cleared. */
  function Cleared(p: seq<Option<NodeId>>, s: nat, i: nat): (r: seq<Option<NodeId>>)
    requires s < i <= |p|
    ensures |r| == |p|
  {
    seq(|p|, t requires 0 <= t < |p| => if s < t < i then None else p[t])
  }

  lemma ClearedAt(p: seq<Option<NodeId>>, s: nat, i: nat, t: nat)
    requires s < i <= |p| && t < |p|
    ensures Cleared(p, s, i)[t] == if s < t < i then None else p[t]
  {
  }

  lemma ClearedStep(p: seq<Option<NodeId>>, s: nat, i: nat)
    requires s < i < |p|
    ensures Cleared(p, s, i)[i := None] == Cleared(p, s, i + 1)
  {
    var u, w := Cleared(p, s, i)[i := None], Cleared(p, s, i + 1);
    forall t | 0 <= t < |p| ensures u[t] == w[t] {
      ClearedAt(p, s, i, t);
      ClearedAt(p, s, i + 1, t);
    }
  }

  /** Once the loop is done the buffer keeps the children `SplitLeft` keeps. */
  lemma ClearedEnd(n: Node, s: nat)
    requires 1 <= s <= n.keyNum < |n.ptr|
    ensures Cleared(n.ptr, s, n.keyNum + 1) == SplitLeft(n, s).ptr
  {
    forall t | 0 <= t < |n.ptr| ensures Cleared(n.ptr, s, n.keyNum + 1)[t] == SplitLeft(n, s).ptr[t] {
      ClearedAt(n.ptr, s, n.keyNum + 1, t);
    }
  }

  /** The sibling's array `Split`'s copy loop is filling: `first` in slot 0, slots
      `s+1..i-1` of `x` in slots `1..i-s-1`, `blank` above. */
  function Taken<T>(x: seq<T>, s: nat, i: nat, first: T, blank: T): (r: seq<T>)
    requires s < i <= |x|
    ensures |r| == |x|
  {
    seq(|x|, t requires 0 <= t < |x| => if t == 0 then first else if t < i - s then x[s + t] else blank)
  }

  lemma TakenAt<T>(x: seq<T>, s: nat, i: nat, first: T, blank: T, t: nat)
    requires s < i <= |x| && t < |x|
    ensures Taken(x, s, i, first, blank)[t] == if t == 0 then first else if t < i - s then x[s + t] else blank
  {
  }

  lemma TakenStart<T>(x: seq<T>, a: seq<T>, s: nat, first: T, blank: T)
    requires s < |x| && |a| == |x| && forall t :: 0 <= t < |a| ==> a[t] == blank
    ensures a[0 := first] == Taken(x, s, s + 1, first, blank)
  {
    var u, w := a[0 := first], Taken(x, s, s + 1, first, blank);
    forall t | 0 <= t < |a| ensures u[t] == w[t] {
      TakenAt(x, s, s + 1, first, blank, t);
    }
  }

  lemma TakenStep<T>(x: seq<T>, s: nat, i: nat, first: T, blank: T)
    requires s < i < |x|
    ensures Taken(x, s, i, first, blank)[i - s := x[i]] == Taken(x, s, i + 1, first, blank)
  {
    var u, w := Taken(x, s, i, first, blank)[i - s := x[i]], Taken(x, s, i + 1, first, blank);
    forall t | 0 <= t < |x| ensures u[t] == w[t] {
      TakenAt(x, s, i, first, blank, t);
      TakenAt(x, s, i + 1, first, blank, t);
    }
  }

  /** Once the loop is done the sibling holds `SplitRight`'s record. */
  lemma TakenEnd(n: Node, s: nat, ks: seq<Key>, ps: seq<Option<NodeId>>, ds: seq<Value>)
    requires 1 <= s <= n.keyNum < |n.key| && |n.ptr| == |n.key| && |n.data| == |n.key|
    requires ks == Taken(n.key, s, n.keyNum + 1, [], [])
    requires ps == Taken(n.ptr, s, n.keyNum + 1, n.ptr[s], None)
    requires ds == Taken(n.data, s, n.keyNum + 1, Value(0, 0), Value(0, 0))
    ensures Node(n.keyNum - s, n.parent, ks, ps, ds) == SplitRight(n, s)
  {
    forall t | 0 <= t < |n.key|
      ensures ks[t] == Taken(n.key, s, n.keyNum + 1, [], [])[t]
      ensures ps[t] == Taken(n.ptr, s, n.keyNum + 1, n.ptr[s], None)[t]
      ensures ds[t] == Taken(n.data, s, n.keyNum + 1, Value(0, 0), Value(0, 0))[t]
    {
      TakenAt(n.key, s, n.keyNum + 1, [], [], t);
      TakenAt(n.ptr, s, n.keyNum + 1, n.ptr[s], None, t);
      TakenAt(n.data, s, n.keyNum + 1, Value(0, 0), Value(0, 0), t);
    }
    SplitRightByIndex(n, s, Node(n.keyNum - s, n.parent, ks, ps, ds));
  }

  class NodeBuf {
    var keyNum: nat
    var parent: Option<NodeId>
    const key: array<Key>
    const ptr: array<Option<NodeId>>
    const data: array<Value>

    ghost predicate Valid() {
      key.Length == ptr.Length == data.Length
    }

    /** The record these arrays hold, as it would be written back to the node's file. */
    function Record(): (n: Node)
      reads this, key, ptr, data
      ensures |n.key| == key.Length && |n.ptr| == ptr.Length && |n.data| == data.Length
      ensures n.keyNum == keyNum && n.parent == parent
    {
      Node(keyNum, parent, key[..], ptr[..], data[..])
    }

    /** Maps a stored record into a fresh buffer. */
    constructor Load(n: Node)
      requires |n.ptr| == |n.key| && |n.data| == |n.key|
      ensures Valid() && Record() == n
      ensures fresh(key) && fresh(ptr) && fresh(data)
    {
      keyNum := n.keyNum;
      parent := n.parent;
      key := new Key[|n.key|](j requires 0 <= j < |n.key| => n.key[j]);
      ptr := new Option<NodeId>[|n.ptr|](j requires 0 <= j < |n.ptr| => n.ptr[j]);
      data := new Value[|n.data|](j requires 0 <= j < |n.data| => n.data[j]);
      new;
      assert key[..] == n.key && ptr[..] == n.ptr && data[..] == n.data;
    }

    /** A zero-filled buffer of `m + 1` slots, as `MALLOC_NODE` allocates one. */
    constructor Zeroed(m: nat)
      ensures Valid() && key.Length == m + 1 && Record() == Blank(m)
      ensures keyNum == 0 && parent == None
      ensures fresh(key) && fresh(ptr) && fresh(data)
    {
      keyNum := 0;
      parent := None;
      key := new Key[m + 1](_ => []);
      ptr := new Option<NodeId>[m + 1](_ => None);
      data := new Value[m + 1](_ => Value(0, 0));
      new;
      assert key[..] == Blank(m).key && ptr[..] == Blank(m).ptr && data[..] == Blank(m).data;
    }

    /** Fills a zeroed buffer as `NewRootNode` does (index.c:154-158): one pair, with the
        old root `left` and its sibling `right` as the two children. */
    method FillNewRoot(m: nat, left: NodeId, k: Key, right: NodeId, d: Value)
      requires m >= 1 && Valid() && key.Length == m + 1 && Record() == Blank(m)
      modifies this, key, ptr, data
      ensures Valid() && Record() == NewRootRecord(m, left, k, right, d)
    {
      keyNum := 1;
      data[1] := d;
      ptr[0] := Some(left);
      ptr[1] := Some(right);
      key[1] := k;
      assert Record() == NewRootRecord(m, left, k, right, d);
    }

    /** `Search` (index.c:90-99): scans slots `1..keyNum` left to right and stops at the
        first key that sorts after `k`. */
    method Search(k: Key) returns (i: nat)
      requires keyNum < key.Length
      ensures IsSearchSlot(Record(), k, i)
    {
      i := 1;
      while i <= keyNum
        invariant 1 <= i <= keyNum + 1
        invariant forall j :: 1 <= j < i ==> !Less(k, key[j])
      {
        if Less(k, key[i]) {
          break;
        }
        i := i + 1;
      }
    }

    /** The copy loop of `Split` (index.c:182-193): the blank buffer `sib` takes child slot
        `s` as its slot 0 and slots `s+1..keyNum` of all three arrays as its slots
        `1..keyNum-s`, with the key count `keyNum - s` and this node's parent; the child
        slots moved out are cleared here. Keys and values stay, and so does `keyNum`. */
    method MoveUpper(s: nat, sib: NodeBuf)
      requires Valid() && 1 <= s <= keyNum < key.Length
      requires sib != this && sib.key != key && sib.ptr != ptr && sib.data != data
      requires sib.Valid() && sib.key.Length == key.Length && sib.Record() == Blank(key.Length - 1)
      modifies ptr, sib, sib.key, sib.ptr, sib.data
      ensures sib.Valid() && sib.Record() == SplitRight(old(Record()), s)
      ensures ptr[..] == SplitLeft(old(Record()), s).ptr
    {
      ghost var r := Record();
      TakenStart(r.key, sib.key[..], s, [], []);
      TakenStart(r.ptr, sib.ptr[..], s, r.ptr[s], None);
      TakenStart(r.data, sib.data[..], s, Value(0, 0), Value(0, 0));
      sib.ptr[0] := ptr[s];
      var i := s + 1;
      while i <= keyNum
        modifies ptr, sib.key, sib.ptr, sib.data
        invariant s + 1 <= i <= keyNum + 1
        invariant ptr[..] == Cleared(r.ptr, s, i)
        invariant sib.key[..] == Taken(r.key, s, i, [], [])
        invariant sib.ptr[..] == Taken(r.ptr, s, i, r.ptr[s], None)
        invariant sib.data[..] == Taken(r.data, s, i, Value(0, 0), Value(0, 0))
      {
        ClearedAt(r.ptr, s, i, i);
        TakenStep(r.key, s, i, [], []);
        TakenStep(r.ptr, s, i, r.ptr[s], None);
        TakenStep(r.data, s, i, Value(0, 0), Value(0, 0));
        ClearedStep(r.ptr, s, i);
        ghost var ks, ps, ds, qs := sib.key[..], sib.ptr[..], sib.data[..], ptr[..];
        sib.key[i - s] := key[i];
        assert sib.key[..] == ks[i - s := r.key[i]];
        sib.ptr[i - s] := ptr[i];
        assert sib.ptr[..] == ps[i - s := r.ptr[i]];
        ptr[i] := None;
        assert ptr[..] == qs[i := None];
        sib.data[i - s] := data[i];
        assert sib.data[..] == ds[i - s := r.data[i]];
        assert sib.key[..] == ks[i - s := r.key[i]];
        assert sib.ptr[..] == ps[i - s := r.ptr[i]];
        assert ptr[..] == qs[i := None];
        i := i + 1;
      }
      sib.keyNum := keyNum - s;
      sib.parent := parent;
      TakenEnd(r, s, sib.key[..], sib.ptr[..], sib.data[..]);
      ClearedEnd(r, s);
    }

    /** The buffer side of `Split` (index.c:182-193, 204): the upper slots move to the
        blank buffer `sib` and this buffer keeps slots `1..s-1`. */
    method SplitInto(s: nat, sib: NodeBuf)
      requires Valid() && 1 <= s <= keyNum < key.Length
      requires sib != this && sib.key != key && sib.ptr != ptr && sib.data != data
      requires sib.Valid() && sib.key.Length == key.Length && sib.Record() == Blank(key.Length - 1)
      modifies this, ptr, sib, sib.key, sib.ptr, sib.data
      ensures Valid() && Record() == SplitLeft(old(Record()), s)
      ensures sib.Valid() && sib.Record() == SplitRight(old(Record()), s)
    {
      MoveUpper(s, sib);
      // index.c:204 cuts the key count after the sibling is written; nothing in between
      // reads it, so the model cuts it here.
      keyNum := s - 1;
    }

    /** `Insert` (index.c:209-224): shifts slots `i..keyNum` of all three arrays one place
        right, from the top down, writes the new key, child and value at `i`, and counts
        the key. The caller leaves room for it: `keyNum < M`. */
    method Insert(i: nat, ap: Option<NodeId>, k: Key, d: Value)
      requires Valid()
      requires 1 <= i <= keyNum + 1 && keyNum + 1 < key.Length
      modifies this, key, ptr, data
      ensures Valid()
      ensures Record() == InsertAt(old(Record()), i, ap, k, d)
    {
      ghost var n := Record();
      ghost var top := n.keyNum + 1;
      var j: int := keyNum;
      MovedStart(n.key, top);
      MovedStart(n.ptr, top);
      MovedStart(n.data, top);
      while j >= i
        modifies key, ptr, data
        invariant i - 1 <= j <= n.keyNum
        invariant key[..] == Moved(n.key, j, top)
        invariant ptr[..] == Moved(n.ptr, j, top)
        invariant data[..] == Moved(n.data, j, top)
      {
        MovedStep(n.key, key[..], j, top);
        MovedStep(n.ptr, ptr[..], j, top);
        MovedStep(n.data, data[..], j, top);
        ghost var ks, ps, ds := key[..], ptr[..], data[..];
        key[j + 1] := key[j];
        ptr[j + 1] := ptr[j];
        data[j + 1] := data[j];
        assert key[..] == ks[j + 1 := ks[j]];
        assert ptr[..] == ps[j + 1 := ps[j]];
        assert data[..] == ds[j + 1 := ds[j]];
        j := j - 1;
      }
      ghost var ks, ps, ds := key[..], ptr[..], data[..];
      key[i] := k;
      ptr[i] := ap;
      data[i] := d;
      keyNum := keyNum + 1;
      assert Record() == Node(n.keyNum + 1, n.parent, ks[i := k], ps[i := ap], ds[i := d]);
      InsertEnd(n, i, ks, ps, ds, ap, k, d);
    }
  }
}
