# On-disk B-Tree index, modelled in Dafny

`index.c` keeps a B-Tree of order `M` in files. Each node is one file named `node<n>`. A
head file `index_btree` names the root and counts the nodes written, modulo 65536.
`createIndex` creates the head file and an empty root once, then reads the data file.
The data file holds records `<klen>,<key>,<vlen>,<value>`, back to back. For each record
the loader inserts the key together with the length and offset of its value.
An insertion descends from the root to a leaf (`SearchBTree`) and inserts the pair at the
slot `Search` picks (`Insert`). While a node reaches `M` keys, it splits at
`s = (M + 1) / 2` (`Split`), and the middle pair goes up to the parent with the new sibling
as its right child. When the root splits, a new root is created over the two halves
(`NewRootNode`).

The model keeps that structure:

- `Nodes`: the node record as a datatype with its three slot arrays. It also holds the
  pure meaning of `Search`, `Insert` and the two halves of a split.
- `NodeBuffer`: the mapped node as a class over three arrays. `Search`, `Insert` and the
  copy loop of `Split` run on it in place, as loops with invariants. Each loop is proved
  against the pure record it produces.
- `Arena`: the node files as a map from node id to record. It also holds the ids
  `nextNodeFileName` issues, the multiset of pairs the files store, the reparenting loop,
  and the invariant. The invariant says that every node is in order and within size,
  every child sits one level below its parent, every leaf is at height 0, the head names
  the parentless root, and the head counter counts nodes modulo 65536. It also says
  that every node but the root is listed in a used child slot of its parent, so every
  node file is reached from the root.
- `Growth`: how one insertion round changes the arena: the slot insertion that ends the
  loop, a split, and a new root. Each keeps the invariant and the stored pairs.
- `Descent`: root-to-leaf descent as the code is written, and the lookup it evidently
  means.
- `Decimal`, `Records`: the record format of the data file and the loader's parse of it,
  with the round trip from written items to the descriptors loaded.
- `BTreeIndex`: the engine object `Index`. It holds the node files, the head and the node
  counter as fields, and the source's functions as methods. Every public method keeps
  `Valid()`. Every insertion adds exactly one pair to `Contents()`.

The order `M` (8191 in the source) is a parameter, at least 3. The file system becomes
the `nodes` map and the `head` field. The data file becomes a `seq<char>` parameter.

## Model

| member | source | states |
|---|---|---|
| Keys.Less | index.c:93 | `strcmp(a, b) < 0` holds exactly when `a` is a proper prefix of `b`, or `a` has the smaller character at the first position where they differ |
| Keys.LessIrreflexive | index.c:93 | no key sorts before itself under `strcmp` |
| Keys.LessAsymmetric | index.c:93 | if `a` sorts before `b`, `b` does not sort before `a` |
| Keys.LessTransitive | index.c:93 | the `strcmp` order is transitive |
| Keys.LessTrichotomy | index.c:93 | any two keys are equal or one sorts before the other: the order is total |
| Decimal.Numeral | index.c:74 | `sprintf("%d")` prints a non-empty run of digits with no leading zero, unless the number is 0 |
| Decimal.Atoi | index.c:320 | `atoi` on a run of `k` digits reads a number below `10^k`, so 0 when no digit stands at the offset |
| Decimal.ValueOfNumeral | index.c:74 | reading back the digits `sprintf("%d")` prints gives the number printed |
| Decimal.NumeralInjective | index.c:74 | different counter values print differently |
| Decimal.AtoiDigits | index.c:320 | `atoi` on a run of digits followed by a non-digit reads the number the run spells |
| Decimal.DigitRunDigits | index.c:320 | the run `atoi` reads holds digits only |
| Nodes.SearchSlot | index.c:90-99 | `Search` returns the first slot in `1..keyNum` whose key sorts after `k`, or `keyNum + 1`; every earlier key is not after `k` |
| Nodes.SearchSlotUnique | index.c:90-99 | that description fixes the slot: any slot meeting it is the one `Search` returns |
| Nodes.SearchPassesEqualKeys | index.c:90-99 | in a sorted node a key equal to stored keys lands after all of them |
| Nodes.SearchSlotNeverMatches | index.c:90-99 | the slot `Search` returns never holds the key searched for |
| Nodes.FoundBeforeSearchSlot | index.c:90-99 | in a sorted node the key is stored exactly when the slot before `Search`'s slot holds it |
| Nodes.Shift | index.c:212-218 | the shift loop keeps the array's length |
| Nodes.ShiftSlots | index.c:212-218 | after the shift, slots below `i` and above `top` are unchanged, slot `i` holds the new value, and slots `i+1..top` hold what `i..top-1` held |
| Nodes.InsertAt | index.c:209-224 | `Insert` adds one key to the count, keeps the node's parent and keeps the size of all three arrays |
| Nodes.InsertAtSlots | index.c:209-224 | after `Insert` at `i`, slot `i` holds the new key, child and value, slots `i..keyNum` moved up by one, and slots below `i` are unchanged |
| Nodes.InsertAtEntries | index.c:209-224 | `Insert` puts the new pair at position `i` of the node's pairs in slot order and adds exactly that pair |
| Nodes.InsertAtSorted | index.c:209-224 | inserting at the slot `Search` picks keeps a sorted node sorted |
| Nodes.InsertAtLists | index.c:219 | after `Insert` the node lists exactly the children it listed before and the new one |
| Nodes.SplitLists | index.c:182-190 | a child is listed by the full node exactly when one of the two halves lists it |
| Nodes.SplitLeft | index.c:175-206 | the split node keeps slots `1..s-1` with `keyNum = s - 1`, keeps its parent, and has the child slots it handed over cleared |
| Nodes.SplitRight | index.c:180-192 | the sibling has `keyNum = n - s`, takes slot `s + j` of the original as slot `j`, takes `ptr[s]` as `ptr[0]`, and has the original's parent |
| Nodes.SplitEntries | index.c:175-206 | a split loses and reorders no pair: left half, promoted pair `key[s]`, right half |
| Nodes.SplitSorted | index.c:175-206 | both halves of a sorted node are sorted, and the promoted key separates them |
| Nodes.NewRootRecord | index.c:154-159 | the new root has one key, the promoted pair, the old root at `ptr[0]`, the sibling at `ptr[1]`, and no parent |
| Nodes.Blank | index.c:18 | `MALLOC_NODE` gives a zero-filled record with no keys and no parent |
| NodeBuffer.NodeBuf.Search | index.c:90-99 | the scan loop returns the slot `SearchSlot` describes |
| NodeBuffer.NodeBuf.Insert | index.c:209-224 | the in-place descending shift loop leaves the buffer holding `InsertAt` of the old record |
| NodeBuffer.NodeBuf.MoveUpper | index.c:182-191 | the copy loop fills the blank sibling with `SplitRight` of the record and clears the moved child slots of this buffer, as `SplitLeft` has them |
| NodeBuffer.NodeBuf.SplitInto | index.c:182-204 | the buffer ends holding `SplitLeft` of its record and the blank sibling buffer holds `SplitRight` |
| NodeBuffer.NodeBuf.FillNewRoot | index.c:154-158 | the zeroed buffer ends holding `NewRootRecord`: one pair, the old root and its sibling as the two children |
| NodeBuffer.NodeBuf.Load | index.c:79-83 | a mapped buffer holds exactly the stored record |
| NodeBuffer.NodeBuf.Zeroed | index.c:18 | an allocated buffer holds the blank record |
| Arena.NodeName | index.c:68-76 | node ids are `"node"` followed by the counter in decimal |
| Arena.NodeNameInjective | index.c:68-76 | two counter values that give the same id are equal |
| Arena.NextNameFresh | index.c:68-76 | the id issued next was not issued before in the same run |
| Arena.StoredAdd | index.c:193 | writing a new node file under the next id adds exactly the pairs it holds |
| Arena.StoredUpdate | index.c:241 | writing a node's record back swaps the pairs it held for the pairs the new record holds |
| Arena.StoredFrame | index.c:193 | arenas that agree on which nodes exist and what they hold store the same pairs |
| Arena.HeldIgnoresParent | index.c:199 | changing a node's parent does not change the pairs it holds |
| Arena.Reparent | index.c:196-202 | every node named in a used child slot gets the new parent; no other node changes, and no node is added |
| Arena.Good | index.c:282-297 | the invariant; under it the head file exists exactly when node files have been issued |
| Arena.ParentStep | index.c:196-202 | every node but the root has a parent node one level higher, and that parent lists it in a used child slot |
| Arena.Ancestors | index.c:102-134 | from every node a chain of parents, each listing the node below it, reaches the root: every node file is reached from the root |
| Descent.Descend | index.c:102-134 | the loop as written stops at a node of the index, at a slot in `1..keyNum+1`; a hit would name a slot holding the key |
| Descent.FindFrom | index.c:102-134 | the corrected loop stops at a node of the index; a hit names a slot holding the key and reports that slot's value |
| Descent.DescendNeverFinds | index.c:113-114 | the descent as written never reports the key as found |
| Descent.DescendReachesLeaf | index.c:111-133 | the descent stops at a leaf whose child slot `i - 1` is empty, with `i` its `Search` slot |
| Descent.DescendMissesStoredKey | index.c:114 | in a one-node index holding key `"a"`, the descent as written misses `"a"` |
| Descent.FindFromExact | index.c:102-134 | the corrected lookup reports a hit exactly when a node on the descent path stores the key; a hit names a slot holding the key and that slot's value |
| Growth.UpdatedHead | index.c:137-147 | the head names the new root only when one is given, and its 16-bit counter goes up by one |
| Growth.CounterStep | index.c:144 | the head counter keeps equal to the node count modulo 65536 |
| Growth.InsertedContents | index.c:239 | the node with the waiting pair inserted stays sorted and holds exactly that pair more |
| Growth.InsertedListed | index.c:239-242 | once the pair and the waiting sibling are in the node, every node but the root is listed by its parent again |
| Growth.FinishKeepsGood | index.c:240-242 | a node left with fewer than `M` keys ends the loop with the invariant restored and the pair stored |
| Growth.SplitPoint | index.c:244 | for `M >= 1`, `s = (M + 1) / 2` lies in `1..M`, and the right half gets as many keys as the left half or one more |
| Growth.AfterSplit | index.c:175-206 | the arena gains just the sibling's file, and the two halves hold one key fewer than the full node: the promoted one |
| Growth.AfterSplitNodes | index.c:175-206 | after a split `cur` holds the left half and the new id the right half; no other node changes except its parent, and exactly the children the sibling lists take it as parent |
| Growth.SplitKidsFit | index.c:196-202 | the children the sibling takes over are nodes one level below it |
| Growth.SplitListed | index.c:243-252 | after a split every node but the root and the new sibling is listed by its parent; the children the sibling takes over are listed by it |
| Growth.SplitKeepsGood | index.c:243-249 | a split keeps the invariant, with the new sibling as the one node its parent does not list yet; only the root splits without a parent |
| Growth.SplitHalves | index.c:243-252 | a split keeps the invariant with the sibling unlisted, takes the promoted pair out of the stored pairs, and leaves the halves at `cur` and the sibling |
| Growth.SplitStored | index.c:243-249 | the pairs stored plus the promoted pair are the pairs stored before plus the waiting pair |
| Growth.SplitPromotes | index.c:250-254 | after a split below the root, the parent has room, and the promoted pair waits at the parent's `Search` slot with the sibling as its right child |
| Growth.SplitReachesRoot | index.c:255-257 | a split of the root leaves the state in which a new root is due: both halves at the root's height, the sibling without a parent |
| Growth.SplitStep | index.c:243-259 | one split round: the pairs are conserved, and the round either waits at the parent or needs a new root |
| Growth.NewRootLinked | index.c:150-172 | under the new root every record keeps its shape, and every link fits the heights |
| Growth.AfterNewRoot | index.c:150-172 | the arena gains just the new root's file, which holds one key and is the parent of both the old root and the sibling |
| Growth.NewRootRooted | index.c:150-172 | the new root is the head's root, is parentless and is highest, and the counter still counts the nodes |
| Growth.NewRootListed | index.c:156-169 | under the new root every node but the root is listed by its parent; the old root and the sibling are listed by the new root |
| Growth.NewRootStored | index.c:150-160 | the new root adds exactly its one pair to the stored pairs |
| Growth.NewRootKeepsGood | index.c:150-172 | a new root over the two halves restores the whole invariant and stores the promoted pair |
| Growth.FirstRootGood | index.c:285-294 | one empty root under the first id with `nodeNum = 1` satisfies the invariant and stores nothing |
| Records.FindComma | index.c:321-323 | the scan stops at the first comma at or after the offset, or at the end of the file |
| Records.FindCommaAt | index.c:321-323 | a scan past non-commas up to a comma stops at that comma |
| Records.ScanToComma | index.c:328-330 | the scan loop ends where `FindComma` says |
| Records.RecordAt | index.c:320-333 | a record read whole puts its value after its offset and the next record right after the value, so offsets strictly increase |
| Records.RecordAtShape | index.c:320-326 | the key of a record read whole has as many characters as its first numeral says, and starts just past the first comma |
| Records.ReadRecord | index.c:318-332 | one round of the loader reads the record `RecordAt` describes, or the error that stops loading |
| Records.RecordAtEncoded | index.c:320-331 | a written record is read back with its key, its value's length and the value's offset |
| Records.ParseFrom | index.c:315-334 | the loader inserts at most one pair per character of the data file from the offset on |
| Records.ParseFromStep | index.c:315-334 | a record read whole contributes its descriptor, and loading goes on at the next record |
| Records.ParseEncoded | index.c:315-334 | a file of written records loads as every item in order, each with its value's length and offset |
| Records.LoadWritten | index.c:315-334 | the same round trip for a whole data file, read from offset 0 |
| BTreeIndex.Index.NextNodeName | index.c:68-76 | returns `node<count>`, which was never issued before, and the counter goes up by one |
| BTreeIndex.Index.UpdateFileHead | index.c:137-147 | the head becomes `UpdatedHead` of the old head; nothing else changes |
| BTreeIndex.Index.AdoptChildren | index.c:196-202 | the arena becomes `Reparent` over the used child slots `0..keyNum` of the sibling's record |
| BTreeIndex.Index.Split | index.c:175-206 | the buffer holds `SplitLeft`; a new node `node<count>` holds `SplitRight`, and its children are reparented to it; the head counter goes up |
| BTreeIndex.Index.WriteSibling | index.c:192-202 | the sibling's record is stored under its id, the head counter goes up, and its children get it as parent |
| BTreeIndex.Index.NewRootNode | index.c:150-172 | the arena becomes `AfterNewRoot`: a new root over the old root and the sibling, both reparented to it; the head names the new root |
| BTreeIndex.Index.WriteBack | index.c:241 | the node's file takes the buffer's record; nothing else changes |
| BTreeIndex.Index.Finish | index.c:240-242 | after an insert that leaves room the invariant holds, and exactly the waiting pair was added |
| BTreeIndex.Index.SplitFull | index.c:243-252 | the node splits at `(M + 1) / 2`; the promoted pair is the record's `key[s]` and `data[s]`, and the arena becomes `AfterSplit` |
| BTreeIndex.Index.SplitNode | index.c:243-257 | a full node splits, the pairs are conserved, and the loop goes on at the parent's `Search` slot or needs a new root |
| BTreeIndex.Index.GrowRoot | index.c:260-262 | after the root split, a new root restores the invariant and stores the promoted pair |
| BTreeIndex.Index.InsertBTree | index.c:227-263 | insertion with splits and promotion keeps the invariant and adds exactly the one pair |
| BTreeIndex.Index.SearchBTree | index.c:102-134 | the loop computes `Descend`: never a hit, and it stops at a leaf with the key's `Search` slot |
| BTreeIndex.Index.Lookup | index.c:102-134 | the corrected loop computes `FindFrom`: a hit exactly when a node on the path stores the key, with that slot's value |
| BTreeIndex.Index.InsertData | index.c:265-279 | inserting one pair keeps the invariant and adds exactly that pair to the contents |
| BTreeIndex.Index.CreateIndexHeadFile | index.c:282-297 | returns 1 and changes nothing when a head exists; otherwise creates an empty root `node0` and a head with `nodeNum = 1`, and returns 0 |
| BTreeIndex.Index.CreateIndex | index.c:300-336 | with a head present nothing changes; otherwise the index ends up storing exactly the descriptors the data file's records give |

## Left out

- File and mmap plumbing (`open`, `write`, `fopen`, `mmap`, `munmap`) and paths: the node
  files are the `nodes` map and the head file is the `head` field. Durability and I/O
  errors are not modelled.
- `MAP_PRIVATE`: the source maps node files privately, so its in-place changes would never
  reach the files. `WriteBack` stores the buffer, as the algorithm evidently intends.
- `read()` (index.c:338-360): reading a value blob from the data file is I/O.
  `BTreeIndex.Index.Lookup` models the lookup that `read()` performs through `SearchBTree`.
- Fixed-size C buffers: `KEYSIZE`, `PATHSIZE`, the `polishing` padding, `strcpy`
  overflow, and the key copied without a terminating NUL at index.c:325. Keys and ids are
  unbounded strings.
- `atoi` corner cases: signs, leading blanks and overflow. A length field is its run of
  decimal digits; an empty run reads as 0.
- `uint16_t` widths of `keyNum` and the slot index: counts are unbounded naturals. The
  head's `nodeNum` wrap at 65536 is modelled.
- Persistence across runs: `BTreeNodeCount` starts at 0 in every process, so ids are
  unique within one run only.
- index.c:112 maps `file` instead of `nodeFile` on every round. As written, the search
  would re-read the start node forever once it has children. The model loads `nodeFile`.
- index.c:239 passes `key` and `ap` in each other's places. The model passes them in the
  order index.c:209 declares.
- index.c:163-169 set the parent of `rootFile` twice and never that of `ap`. The model
  sets both.
- index.c:145 writes after the record just read, without seeking back. The model
  overwrites the head.
- Records.ReadRecord: the source scans past the end of the data file when a comma is
  missing or a key runs past the end. The model stops loading there, with an error.
- CreateIndex: the `buf != NULL` test of a failed `mmap` is I/O, and is not modelled.
- Keys.Less: keys are any character sequences, `'\0'` included. A C key ends at its first
  NUL, so `Less` agrees with `strcmp` on keys without NUL only.
- Arena.Good: a node's parent lists it, but the invariant does not say that no other
  node lists it, or that it is listed once.
- BTreeIndex.Index.InsertBTree: keeps the invariant and adds the pair, but the invariant
  does not order keys across levels (keys under `ptr[j]` between `key[j]` and
  `key[j+1]`), and keeping that order is not proved. When a promoted key equals the
  separator to its right in the parent, `Search` puts it one slot further right
  (index.c:254); whether the order survives that case is not established.
  `Contents()` counts every node file; the invariant makes every node file reachable
  from the root (`Arena.Ancestors`), so these are the pairs the tree holds.
- BTreeIndex.Index.InsertData: the same as `InsertBTree`: the invariant and the stored
  pairs, not the order of keys across levels.
- BTreeIndex.Index.CreateIndex: the same as `InsertBTree`: the loaded index keeps the
  invariant and stores the file's descriptors, but the order of keys across levels is
  not proved.
- BTreeIndex.Index.Lookup: it finds a key when a node on the key's descent path stores
  it. That every stored key lies on its own descent path is not proved, because the
  ordering of keys across levels is not part of the invariant; equal keys may also go
  right of an equal separator on promotion.
- BTreeIndex.Index.InsertData: descends with `SearchBTree` as written. It never reports a
  hit, so every insertion goes into a leaf, which is what the insertion needs.

## Findings

| source | as written | input that shows it | evidently intended | confidence | as-written member | corrected member |
|---|---|---|---|---|---|---|
| index.c:114 | the hit test looks at slot `i = Search(node, key)`; `Search` stops at the first key that sorts strictly after `key`, so slot `i` never holds `key`, and `SearchBTree` never reports a hit (`read()` always returns NULL) | an index whose only node holds key `"a"` in slot 1, searched for `"a"`: `Search` returns 2, and slot 2 does not hold `"a"` | test slot `i - 1`, where the last key not after `key` stands | not executed | Descent.DescendMissesStoredKey | BTreeIndex.Index.Lookup |
