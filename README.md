# B+ tree over a bump-allocated arena

This project models `bplustree.hpp`: an in-memory B+ tree with fan-out `M`
whose fixed-size nodes are carved from a process-wide bump allocator.

- **`Arena`** hands out 64-byte-aligned blocks from one large buffer and
  gives all of them back at once with `reset`.
- **`BPlusTree<KeyType, ValueType, M>`** has four operations:
  - `insert` works recursively. A leaf split copies the new leaf's first key
    up; an internal split moves `keys[M/2]` up. When the root splits, a new
    root with one key grows the tree by one level.
  - `remove` deletes from the leaf only and never rebalances.
  - Lookup comes in three strategies:
    - `findLinear` scans linearly.
    - `findBinary` uses binary search.
    - `findSIMD` compares keys eight lanes at a time. It falls back to
      `findBinary` for non-`int` keys.

The model has two layers.

- **Value layer** (`tree_model.dfy`): a node and everything below it is a
  `Tree` value. `Leaf(keys, vals)` holds the populated slots of a leaf;
  `Internal(seps, kids)` holds the separator keys and the subtrees below the
  children. `Insert`, `Absorb`, `InsertTop`, `SplitLeaf`, `SplitInternal`,
  `Search`, `Locate` and `Remove` follow the recursion of the C++ code
  branch by branch.
  - `tree_insert.dfy` proves what insertion guarantees.
  - `tree_search.dfy` proves what lookup and removal guarantee, including
    the insert/find round trip.
- **Imperative layer**:
  - `arena.dfy`: class `Arena` with a mutable `offset` and `size_t`
    wrap-around written out.
  - `node.dfy`: class `Node` with the `keys`, `values` and `children`
    arrays, shifted and copied in place by loops. Ghost fields tie each node
    to the `Tree` it holds.
  - `bplustree.dfy`: class `BPlusTree`.

  When an insertion succeeds, and always for a removal, the methods are
  proved to leave the node structure holding exactly what the value-level
  function computes from the old one. Every method that can fail states
  exactly when it fails: `Splits` and `SplitsTop` count the nodes an insert
  takes from the arena, and `StatusAfter` says how that many allocations
  end (`tree_alloc.dfy` proves that each of those nodes ends up in the
  tree). Every find is proved to return exactly what `Search` returns.

Two invariants matter.

- **`WF`**, the shape invariant:
  - Every node holds fewer than `M` keys.
  - Internal nodes hold at least one key and one more child than keys.
  - All leaves are at the same depth.
  - Keys are ordered within the bounds of the separators above them.

  Insert and remove both keep `WF`.
- **`Anchored`**: every separator is the first key of the subtree to its
  right. Insert keeps it, and it is what makes lookup complete. `remove` can
  break it.

Keys are `int`, the only key type the SIMD path is compiled for. The value
type is a type parameter.

**Where the code and its documentation differ, the model follows the code.**

- Documented: "inserting an existing key overwrites its value".
- In the code, the update branch (`bplustree.hpp:115-119`) is unreachable.
  The slot scan stops at the first key not less than the new key, so the key
  before that slot is always smaller. An existing key therefore gets a
  second slot.
- Within one leaf, the newer slot lands in front of the older one and is the
  one found (`TreeSearch.DuplicateInLeaf`).
- A key equal to a separator is treated differently:
  - insertion takes the child left of the separator (strict `>` scan);
  - lookup and removal take the child right of it (`>=` scan).

  A lookup after a second insert of such a key therefore still returns the
  first value (`TreeSearch.SeparatorTieKeepsOldValue`). The round trip is
  proved for distinct keys inserted into an empty tree. A key that was
  removed and is then inserted again can be lost to the lookup
  (`TreeSearch.RemoveThenInsertLoses`).
- `allocate` compares `offset + aligned_bytes` with the capacity in size_t
  arithmetic. A request close to SIZE_MAX wraps around, passes the test and
  moves the offset backwards, so later blocks overlap earlier ones
  (`Arenas.AllocWrapsBack`).

## Model

| member | source | states |
|---|---|---|
| Arenas.Aligned | bplustree.hpp:38 | `(bytes + 63) & ~63` taken in size_t arithmetic is a multiple of 64 and a valid size_t |
| Arenas.RoundUp64Least | bplustree.hpp:37-38 | the reference rounding is a multiple of 64, at least n, less than n + 64, and no larger than any other multiple of 64 that is at least n |
| Arenas.AlignedRoundsUp | bplustree.hpp:38 | when bytes + 63 does not overflow, the aligned size is bytes rounded up to the next multiple of 64 |
| Arenas.AlignedWraps | bplustree.hpp:38 | a request within 63 bytes of SIZE_MAX wraps around to an aligned size of 0 |
| Arenas.AllocStepSpec | bplustree.hpp:35-48 | without wrap-around, allocate succeeds exactly when offset plus the rounded-up size fits in the capacity, and then the offset advances by exactly that size |
| Arenas.AllocStep | bplustree.hpp:35-48 | no contract; follows the cited lines, with the size_t sum of offset and aligned size taken modulo 2^64; characterised by AllocStepSpec and AllocWrapsBack |
| Arenas.AllocWrapsBack | bplustree.hpp:38-46 | at offset 128 of a 1024-byte arena, a request of SIZE_MAX - 63 bytes succeeds and moves the offset back to 64 |
| Arenas.AllocMany | bplustree.hpp:35-48 | no contract; n allocations of the same size one after another, None when one of them throws; characterised by AllocManyFits and AllocManyAdd |
| Arenas.Reach | bplustree.hpp:40-46 | no contract; the offset after those allocations up to the first that throws, which leaves the offset as it was; characterised by AllocManyReach and AllocManyAdd |
| Arenas.AllocManyReach | bplustree.hpp:40-46 | when all n allocations succeed, Reach is the offset after the last one |
| Arenas.AllocManyFits | bplustree.hpp:35-48 | without wrap-around, n allocations succeed exactly when n rounded-up blocks fit below the capacity, and then the offset advances by exactly n blocks |
| Arenas.AllocManyAdd | bplustree.hpp:35-48 | a + b allocations are a allocations and then, unless one of those threw, b more; after a throw, the offset stays where the failed allocation left it |
| Arenas.Arena.constructor | bplustree.hpp:20-28 | a new arena has offset 0, the requested capacity and a valid state |
| Arenas.Arena.Allocate | bplustree.hpp:35-48 | returns the old offset as the block's position and advances the offset by the aligned size; where the source throws, the offset is unchanged; offset <= capacity always holds |
| Arenas.Arena.UsedMemory | bplustree.hpp:50-53 | the memory in use never exceeds the capacity |
| Arenas.Arena.Capacity | bplustree.hpp:55-58 | no contract; reads the capacity field; UsedMemory's contract bounds the used memory by it |
| Arenas.Arena.Reset | bplustree.hpp:60-63 | the offset is 0 again and the arena stays valid |
| Seqs.Insert | bplustree.hpp:123-128 | slot i holds the new element, the elements before i stay in place, and the elements from i on move up by one |
| Seqs.Remove | bplustree.hpp:230-234 | the elements before i stay in place, and the elements after i move down by one |
| Seqs.FirstNotLess | bplustree.hpp:105-109 | every key before the result is less than k, and the key at the result (if any) is not |
| Seqs.FirstGreater | bplustree.hpp:257-262 | every key before the result is at most k, and the key at the result (if any) is greater |
| Seqs.FirstEqual | bplustree.hpp:267-274 | no key before the result is k, the key at the result is k, and the result is past the end exactly when k is absent |
| Seqs.InsertAtFirstNotLessSorted | bplustree.hpp:105-128 | putting a key where the insertion scan stops keeps sorted keys sorted |
| Seqs.RemoveSorted | bplustree.hpp:230-234 | deleting a slot keeps sorted keys sorted |
| Seqs.FirstNotLessUnique | bplustree.hpp:105-109 | the insertion scan's index is the only index with its two defining properties |
| Seqs.FirstGreaterUnique | bplustree.hpp:257-262 | the descent scan's index is the only index with its two defining properties |
| Seqs.FirstEqualUnique | bplustree.hpp:267-274 | the leftmost-match index is the only index with its two defining properties |
| TreeInsert.SplitLeafHalves | bplustree.hpp:169-187 | split_leaf of a full sorted leaf: the node keeps M/2 entries and the new leaf keeps M - M/2; together they are the old entries in order; the median is the new leaf's first key and bounds both halves |
| TreeInsert.SplitInternalHalves | bplustree.hpp:189-212 | split_internal: the median is keys[M/2] and is in neither half; the key counts add up to M - 1; each half has one more child than keys; the right half is empty exactly when M <= 2; the contents below are preserved and ordered around the median |
| TreeInsert.SplitInternalOrdered | bplustree.hpp:189-212 | the ordering and contents part of split_internal for any node with more than M/2 keys |
| TreeInsert.OrderedInsertChild | bplustree.hpp:145-159 | taking a child's median into keys[i] and its sibling into children[i + 1] keeps the parent ordered |
| TreeInsert.InsertShape | bplustree.hpp:102-166 | insert_recursive keeps every node below M keys with one more child than keys and all leaves at one depth; the halves of a split have the height of the node that split |
| TreeInsert.SplitInternalShape | bplustree.hpp:189-212 | splitting an internal node of M >= 3 keys leaves two halves that each have at least one key |
| TreeInsert.InsertOrdered | bplustree.hpp:102-166 | insert_recursive keeps keys ordered within their separator bounds, and the entries afterwards are the old entries with the new entry inserted where the scan stops |
| TreeInsert.InsertPosition | bplustree.hpp:139-143 | the slot where the whole subtree's scan stops lies inside the child that the descent picks, at the slot where that child's own scan stops |
| TreeInsert.InsertAnchored | bplustree.hpp:102-166 | insertion keeps every separator equal to the first key of the subtree to its right, and a split promotes exactly that key |
| TreeInsert.AnchoredSplit | bplustree.hpp:189-212 | split_internal of an anchored node gives two non-empty anchored halves and moves up the right half's first key |
| TreeInsert.InsertTopWF | bplustree.hpp:447-463 | insert keeps WF; the contents gain exactly (k, v) at the first slot whose key is not less than k; anchoring is kept; the height stays the same unless the root splits, and then the new root has one key and two children and the height grows by one |
| TreeInsert.NewRoot | bplustree.hpp:454-461 | the new root over two uniform, ordered halves is well formed, one level higher, and holds the halves' contents |
| TreeSearch.LocateSearch | bplustree.hpp:252-276 | the lookup succeeds exactly when Locate names a slot, and that slot holds the key and the value returned |
| TreeSearch.SearchSound | bplustree.hpp:252-276 | a value that is found belongs to an entry with that key, and a key the tree does not hold is never found |
| TreeSearch.DescentReaches | bplustree.hpp:255-264 | in an anchored node, every key below the node is below the child that the descent (first key > k) picks |
| TreeSearch.SearchComplete | bplustree.hpp:252-276 | in a well-formed anchored tree, every key the tree holds is found |
| TreeSearch.SearchExact | bplustree.hpp:252-276 | with distinct keys, the lookup returns v for k exactly when the tree holds (k, v) |
| TreeSearch.RemoveSpec | bplustree.hpp:214-243 | remove_recursive deletes exactly the slot the lookup reads, or nothing when the key is not found; it keeps the invariant and the height and leaves every separator and the node structure as they were |
| TreeSearch.InsertAll | bplustree.hpp:447-463 | inserting any run of entries keeps WF, and keeps anchoring |
| TreeSearch.InsertFresh | bplustree.hpp:447-463 | inserting a key not yet present keeps keys strictly increasing and adds exactly that entry |
| TreeSearch.InsertAllContents | bplustree.hpp:447-463 | after inserting entries with distinct new keys, the tree holds exactly the old entries and the new ones, with strictly increasing keys |
| TreeSearch.RoundTrip | bplustree.hpp:447-463 | after inserting entries with distinct keys into an empty tree, each key is found with its value and no other key is found |
| TreeSearch.DuplicateInLeaf | bplustree.hpp:105-129 | inserting a key twice into one leaf keeps two slots, the newer first, and the lookup returns the newer value |
| TreeSearch.TieDescents | bplustree.hpp:105-109 | for a key equal to a separator, the insertion scan stops at an earlier child than the `>=` scan of the finds and of remove_recursive |
| TreeSearch.SeparatorTieKeepsOldValue | bplustree.hpp:139-143 | with M = 3 and separator 2 over the leaves [1] and [2, 3], inserting 2 again adds it to the left leaf, and the lookup of 2 returns the first value before and after |
| TreeSearch.TieFirstTwo | bplustree.hpp:447-463 | with M = 3, inserting 1 and then 2 into an empty tree gives the leaf [1, 2] |
| TreeSearch.TieRootSplit | bplustree.hpp:169-187 | with M = 3, inserting 3 into the leaf [1, 2] splits it and puts separator 2 over the leaves [1] and [2, 3] |
| TreeSearch.RemoveThenInsertLoses | bplustree.hpp:214-243 | with M = 3 and separator 2 over the leaves [1] and [2, 3], remove(2) leaves separator 2 over [1] and [3]; inserting (2, 200) then puts it into the left leaf, and the lookup of 2 finds nothing although the tree holds (2, 200) |
| TreeSearch.RemoveThenInsertRemove | bplustree.hpp:214-243 | the removal step of RemoveThenInsertLoses: the right leaf loses key 2 and the separator stays |
| TreeSearch.RemoveThenInsertInsert | bplustree.hpp:139-143 | the insertion step of RemoveThenInsertLoses: key 2 goes into the left leaf, which does not split |
| TreeModel.Insert | bplustree.hpp:102-166 | no contract; follows the cited lines branch by branch; characterised by InsertShape, InsertOrdered, InsertAnchored and InsertCount |
| TreeModel.Absorb | bplustree.hpp:143-165 | no contract; follows the cited lines branch by branch; characterised by InsertShapeStep, InsertOrderedStep, InsertAnchoredStep and AbsorbCount |
| TreeModel.InsertTop | bplustree.hpp:447-463 | no contract; follows the cited lines; characterised by InsertTopWF and InsertTopCount |
| TreeModel.SplitLeaf | bplustree.hpp:169-187 | no contract; follows the cited lines; characterised by SplitLeafHalves |
| TreeModel.SplitInternal | bplustree.hpp:189-212 | no contract; follows the cited lines; characterised by SplitInternalHalves, SplitInternalOrdered and SplitInternalCount |
| TreeModel.Search | bplustree.hpp:252-276 | no contract; follows the cited lines; characterised by LocateSearch, SearchSound, SearchComplete and SearchExact |
| TreeModel.Locate | bplustree.hpp:252-276 | no contract; the position in the tree's entries of the slot the lookup reads; characterised by LocateSearch |
| TreeModel.Remove | bplustree.hpp:214-243 | no contract; follows the cited lines branch by branch; characterised by RemoveSpec and RemoveThenInsertLoses |
| TreeModel.Count | bplustree.hpp:72-97 | no contract; the number of nodes in a subtree |
| TreeModel.Splits | bplustree.hpp:132-164 | no contract; the number of nodes insert_recursive allocates, one per split on the path to the leaf; characterised by InsertCount |
| TreeModel.SplitsTop | bplustree.hpp:447-463 | no contract; Splits plus the new root when the old root splits; characterised by InsertTopCount |
| TreeAlloc.SplitsStep | bplustree.hpp:143-164 | Splits on an internal node is the count below the child the entry goes into, plus one when the node splits in turn |
| TreeAlloc.SplitInternalCount | bplustree.hpp:189-212 | split_internal keeps every node below and adds exactly one |
| TreeAlloc.AbsorbCount | bplustree.hpp:143-165 | taking in the child's outcome adds to the child's growth exactly one node when the node splits, and none otherwise |
| TreeAlloc.InsertCount | bplustree.hpp:102-166 | the node, or the two halves, that insert_recursive hands back have exactly Splits more nodes than the old subtree: every allocated node ends up in the tree |
| TreeAlloc.InsertTopCount | bplustree.hpp:447-463 | insert grows the tree by exactly the SplitsTop nodes it allocates |
| Lanes.FirstSet | bplustree.hpp:388 | the first set lane: all lanes before it are clear |
| Lanes.CmpGt | bplustree.hpp:377-380 | no contract; lane j is set exactly when the key in lane j is greater than the search key; characterised by GtChunk |
| Lanes.CmpEq | bplustree.hpp:419-420 | no contract; lane j is set exactly when the key in lane j equals the search key; characterised by EqChunk |
| Lanes.Movemask | bplustree.hpp:383 | no contract; bit j of the mask is lane j; characterised by MaskFirstSet |
| Lanes.Ctz | bplustree.hpp:388 | no contract; the trailing zeros of a non-zero mask; characterised by MaskFirstSet |
| Lanes.MaskFirstSet | bplustree.hpp:383-388 | the movemask fits in one bit per lane; it is non-zero exactly when some lane is set; its trailing-zero count is then the first set lane |
| Lanes.GtChunk | bplustree.hpp:377-388 | in one 8-key chunk, the keys before the first greater-than lane are at most the search key, and that lane's key is greater |
| Lanes.EqChunk | bplustree.hpp:419-426 | in one 8-key chunk, the keys before the first equal lane differ from the search key, and that lane holds it |
| Nodes.Node.New | bplustree.hpp:84-96 | operator new fails with "Arena not initialized" without an arena and with "Arena out of memory" when allocate throws; otherwise the arena advances by one aligned node and the node is fresh and empty |
| Nodes.Node.constructor | bplustree.hpp:84-87 | a new node has the requested kind and no keys, with fresh arrays of M keys, M values and M + 1 children; a new leaf is a valid empty leaf |
| Nodes.Node.InsertEntryAt | bplustree.hpp:123-129 | keys and values shift right in lockstep: the leaf's entries become the old ones with (key, value) inserted at slot i |
| Nodes.Node.InsertChildAt | bplustree.hpp:149-159 | keys from slot i and children from slot i + 1 shift right; the median lands in keys[i] and the sibling in children[i + 1] |
| Nodes.Node.SplitLeaf | bplustree.hpp:169-187 | both leaves are valid and disjoint, and they hold exactly the model's split_leaf of the old entries |
| Nodes.Node.MoveUpper | bplustree.hpp:195-211 | the keys and children after M/2 move to the front of the new node, this node keeps M/2 keys, and the result is the model's split_internal with median keys[M/2] |
| Nodes.Node.SplitInternal | bplustree.hpp:189-212 | both nodes are valid and disjoint, and they hold exactly the model's split_internal of the old node |
| Nodes.Node.GrowRoot | bplustree.hpp:456-460 | the new root is valid, with the median as its one key and the two halves as its two children |
| Nodes.Node.RemoveEntryAt | bplustree.hpp:230-234 | keys and values shift left in lockstep: the leaf loses exactly slot k |
| Nodes.Node.AbsorbFit | bplustree.hpp:143 | after child i changed in place, the node is valid again and its subtree is the old one with child i replaced |
| Nodes.Node.AbsorbSplit | bplustree.hpp:145-159 | after child i split, the node is valid with the median at keys[i] and the sibling at children[i + 1] |
| Nodes.ArrayInsert | bplustree.hpp:123-128 | the shift-right loop followed by the store: the populated prefix gains x at slot i |
| Nodes.ArrayRemove | bplustree.hpp:230-233 | the shift-left loop: the populated prefix loses slot k |
| Nodes.ArrayCopy | bplustree.hpp:176-179 | the copy loop of the splits: dst[..n] becomes src[from..from + n] |
| Trees.BPlusTree.StatusAfter | bplustree.hpp:89-96 | no contract; how n node allocations end: Ok when none is needed or all succeed, "Arena not initialized" without an arena, "Arena out of memory" when one throws; characterised by StatusFits and Chain |
| Trees.BPlusTree.OffsetAfter | bplustree.hpp:40-46 | no contract; the arena offset after those allocations; characterised by StatusFits and Chain |
| Trees.BPlusTree.Chain | bplustree.hpp:89-96 | a + b node allocations end as the first a do when one of them fails, and otherwise as the next b do from where the first a left the offset |
| Trees.BPlusTree.ChainOk | bplustree.hpp:143-164 | after a first run of allocations that succeeded, the whole run ends as the second part does |
| Trees.BPlusTree.ChainFail | bplustree.hpp:143-164 | after a first run of allocations that failed, the whole run ends with that failure and offset |
| Trees.BPlusTree.StatusFits | bplustree.hpp:35-48 | with an arena and no wrap-around, n node allocations succeed exactly when n rounded-up node blocks fit below the capacity and then advance the offset by exactly those blocks; otherwise the status is "Arena out of memory" |
| Trees.BPlusTree.Create | bplustree.hpp:246-249 | without an arena it fails with "Arena not initialized"; with one, it fails with "Arena out of memory" exactly when allocate throws for the root and otherwise advances the offset by one aligned node; on success the root is a fresh empty leaf |
| Trees.BPlusTree.ScanNotLess | bplustree.hpp:105-109 | the scan loop returns the first slot whose key is not less than the key |
| Trees.BPlusTree.SplitLeaf | bplustree.hpp:169-187 | the status and arena offset are those of one node allocation (StatusAfter(1)); on success, the node and a fresh new leaf hold the model's split_leaf; a failed allocation changes nothing |
| Trees.BPlusTree.SplitInternal | bplustree.hpp:189-212 | the status and arena offset are those of one node allocation; on success, the node and a new node hold the model's split_internal; a failed allocation changes nothing |
| Trees.BPlusTree.InsertRecursive | bplustree.hpp:102-166 | the status and arena offset are those of Splits node allocations; on success, the node and the returned sibling and median are exactly the model's insert outcome, and the node structure stays valid |
| Trees.BPlusTree.InsertLeaf | bplustree.hpp:111-136 | the leaf branch: the entry goes where the scan stops, with a split at M keys, the only allocation; the update branch is shown unreachable |
| Trees.BPlusTree.InsertInternal | bplustree.hpp:139-165 | the internal branch: the status and offset of Splits allocations, those below the child followed by one more if the node splits; on success, the model's Absorb of the child's outcome |
| Trees.BPlusTree.InsertIntoChild | bplustree.hpp:143 | the recursive call into child i: the status and offset of the child's Splits allocations; on success the node is as before except below child i, and child i and its new sibling hold the model's outcome for the child's subtree |
| Trees.BPlusTree.TakeChild | bplustree.hpp:145-165 | takes in the child's median and sibling, and splits at M keys, exactly as the model's Absorb; it allocates one node exactly when Absorb splits, with that status and offset |
| Trees.BPlusTree.Insert | bplustree.hpp:447-463 | the status and arena offset are those of SplitsTop node allocations, so it fails exactly when one of them does; on success, the tree stays valid and the root holds InsertTop of the old root |
| Trees.BPlusTree.InsertAtRoot | bplustree.hpp:452-462 | the status and offset of SplitsTop allocations; on success, the node that is the root afterwards holds InsertTop of the old root |
| Trees.BPlusTree.GrowTree | bplustree.hpp:454-461 | the status and offset of one node allocation; on success, a new internal node holds the median as its one key and the two halves as its two children |
| Trees.BPlusTree.SettleRoot | bplustree.hpp:452-462 | after the root's insert_recursive: with no sibling, the root stays and holds the fitted tree, with no allocation; otherwise the status and offset of one allocation, and on success a new root with the median as its one key over the two halves |
| Trees.BPlusTree.ScanGreater | bplustree.hpp:257-262 | the descent loop returns the first slot whose key is greater than the key |
| Trees.BPlusTree.FindLinear | bplustree.hpp:252-276 | found exactly when the model's lookup succeeds, with its value; val_out is untouched otherwise |
| Trees.BPlusTree.ScanEqual | bplustree.hpp:267-274 | the leaf loop returns the leftmost slot holding the key |
| Trees.BPlusTree.BinaryDescend | bplustree.hpp:283-319 | the binary search plus the `i == hi` fix-up picks the first slot whose key is greater than the key, the same child as the linear scan |
| Trees.BPlusTree.BinaryLeaf | bplustree.hpp:323-343 | on sorted keys, the final equality test succeeds exactly when the key is present, and then at its leftmost slot |
| Trees.BPlusTree.FindBinary | bplustree.hpp:278-349 | the same result as the model's lookup, and so as findLinear |
| Trees.BPlusTree.SimdDescend | bplustree.hpp:360-408 | the 8-lane greater-than scan picks the first slot whose key is greater than the key; lanes past num_keys are never taken |
| Trees.BPlusTree.SimdLeaf | bplustree.hpp:412-434 | the 8-lane equality scan finds the leftmost slot holding the key |
| Trees.BPlusTree.FindSimd | bplustree.hpp:354-437 | for M a multiple of 8, the same result as the model's lookup, and so as findLinear and findBinary |
| Trees.BPlusTree.FindSimdFallback | bplustree.hpp:440-445 | for other key types, findSIMD is findBinary and returns the model's lookup |
| Trees.BPlusTree.RemoveRecursive | bplustree.hpp:214-243 | the node structure afterwards holds the model's Remove of the old subtree, over the same objects |
| Trees.BPlusTree.Remove | bplustree.hpp:465-468 | the tree stays valid and keeps its root and objects; the root holds the model's Remove, which RemoveSpec characterises |

## Left out

- The Arena constructor's malloc, its throw when malloc fails, its console
  message and the destructor's free are not modelled. The buffer is
  abstract, and `Allocate` returns a block's position as an offset rather
  than a pointer.
- `global_arena` is a field of the tree (`arena`, null when not set up).
  `sizeof(Node)` is the field `nodeBytes`.
- `alignas(64)`, `_mm_prefetch` and `__builtin_expect` change only timing
  and layout, so they are left out.
- The source keeps leaf values and child pointers in one union. The model
  gives each node separate `values` and `children` arrays: a node uses only
  one of them, so nothing observable changes.
- Uninitialised array slots are modelled as arbitrary values. The SIMD
  loads that read past num_keys inside the keys array are modelled: the
  lanes past num_keys are never taken.
- The `uint16_t` width of num_keys is not modelled: num_keys stays below M,
  and M is a small template argument.
- Keys are `int` only. The fallback overload of findSIMD for other key types
  is modelled with `int` keys, as a call to findBinary.
- Concurrency is not modelled: the source has no synchronisation.
- Several conditions the source relies on without checking become
  preconditions:
  - M >= 3;
  - M a multiple of 8 for findSIMD;
  - the keys in every node sorted, for findBinary, which the tree invariant
    provides.
- The C++ loops that shift keys and values in lockstep are modelled as one
  loop per array: neither array is read while the other is written.
- In `remove_recursive`, the search for a match and the shift that follows
  are modelled as a scan (`ScanEqual`) and then a shift (`RemoveEntryAt`).
- Trees.BPlusTree.Insert: does not state the state of the tree after a
  failed allocation (a null arena or an arena out of memory); it states the
  status and the arena offset only. In the source, a failed split_leaf or
  split_internal leaves an overfull node with M keys behind, while a failed
  allocation of the new root keeps the old root's left half as the root and
  drops the right half with its entries.
- Trees.BPlusTree.Insert: does not state that the nodes it adds are newly
  allocated. Instead, its helpers show that every new node's objects are
  disjoint from everything outside the subtree being changed.
- Trees.BPlusTree.InsertRecursive: does not state that the sibling it
  returns is newly allocated, only that it is disjoint from the node and
  from everything outside it.
- Trees.BPlusTree.Remove: removal never rebalances or merges nodes and can
  leave an empty leaf or a separator with no matching key, as the source
  does. Removal does not keep anchoring, and a key removed and inserted
  again can then be missed by the lookup (`RemoveThenInsertLoses`):
  `SearchComplete`, which needs an anchored tree, covers trees built by
  insertion only.
- The benchmark drivers and test programs (main.cpp, benchmark_read.cpp)
  are not part of this model.
