# MySTLite containers in Dafny

This project models four container templates of the MySTLite library and proves properties of the models:

- an unrolled-linked-list `deque`;
- an AVL-tree ordered `map` whose nodes are threaded into a sorted list;
- a growable `vector`;
- a leftist-heap `priority_queue`.

Each container has an abstract value, and every operation is specified against it:

- the vector and the deque hold a `seq`, exposed as `Contents`;
- the map holds a `map<int, V>` (`Contents`) and a sorted key list (`KeyList`);
- the priority queue holds a `multiset<int>` (`Contents`).

The three exceptions the library throws are modelled by the `Exceptions` module:

- `index_out_of_bound`, `container_is_empty` and `invalid_iterator` are the datatype `Error`;
- an operation that returns a value or throws returns `Result<R>`;
- a `void` operation that may throw returns `Outcome`.

The files follow the headers:

- `exceptions.dfy` holds the error types.
- `vector.dfy` (module `Vectors`) holds class `Vector`. Its `array` buffer has the `nowSize`/`maxSize` fields. The shift loops of `insert` and `erase` and the copy loop of `doubleSpace` work in place on the buffer.
- `priority_queue.dfy` (module `PriorityQueues`):
  - the `Heap` datatype;
  - `TreeMerge` as a pure recursive function that carries heap-order, leftist and multiset contracts;
  - class `PriorityQueue` with fields `root` and `n`.
- `deque_chain.dfy` (module `DequeChains`) holds facts about block lists: the concatenation of block contents and the `prev`/`next` linking of a chain of blocks.
- `deque.dfy` (module `Deques`):
  - Blocks live in an `Arena` addressed by index. Slot 0 is the sentinel `pastTheEnd`.
  - Every block stores its `sizeB`, `prev`, `next` and `data`.
  - The block primitives are methods on arenas, parameterised by the block capacity `B`:
    - `InsertElement` and `DeleteElement`, with their shifting loops;
    - `SplitBlock` and `MergeBlock`, with their copy loops;
    - `GetRank` and `GetByRank`, with their chain walks;
    - `Mergeable`.
  - Class `Deque` has the fields `sizeD` and `blocks`, and a ghost `chain` that lists the linked blocks in order. It fixes `B` to `maxBlockSize = 1000`.
- `avl_tree.dfy` (module `AvlTrees`):
  - the node type `Tree`, with its cached `sizeT` and `h`;
  - `Update`, the rotations `LL`/`RR`/`LR`/`RL`, and `GetKth`;
  - the functions `InsertTree` and `RemoveTree`. These state what the recursive `Insert`/`Remove` do to the tree.
- `map.dfy` (module `Maps`):
  - Class `Map` has fields `root`, `sizeM` and `beginA`, and its `next`/`prev` threads.
  - Its recursive methods `InsertNode`/`InsertBelow` and `RemoveNode` rebuild the tree as `InsertTree`/`RemoveTree` do. They rewrite the threads in place.

The central invariants are:

- Deque (`Deque.Valid`):
  - every block holds at most `B` elements;
  - every linked block other than `pastTheEnd` holds at least one element, and `pastTheEnd` holds none;
  - `prev`/`next` link the chain in both directions;
  - `first`/`last` are its ends;
  - `sizeD` is the length of the concatenated contents, which `SizeSumIsLength` equates with the sum of the `sizeB`.
- Map (`Map.Valid`):
  - the tree is a BST and AVL-balanced, with true `sizeT`/`h` caches;
  - `sizeM` is its size;
  - `next`/`prev`/`beginA` thread the keys in ascending order, ending at `pastTheEnd`.
- Priority queue (`PriorityQueue.Valid`): the tree is a heap-ordered leftist tree and `n` counts its nodes.
- Vector (`Vector.Valid`): `nowSize <= maxSize == storage.Length` and the first `nowSize` slots are the contents.

## Model

| member | source | states |
|---|---|---|
| Vectors.DoubledCapacity | include/vector.hpp:17-20 | the new capacity exceeds the old; it is 20 from 0 and twice the old capacity otherwise |
| Vectors.Vector.DoubleSpace | include/vector.hpp:17-25 | the buffer is fresh with capacity `DoubledCapacity(maxSize)`; the size and the elements are kept |
| Vectors.Vector.constructor | include/vector.hpp:146-148 | an empty vector with capacity 10 |
| Vectors.Vector.At | include/vector.hpp:175-190 | `index_out_of_bound` iff `pos >= size()`; otherwise the element at `pos` (`at` and `operator[]`) |
| Vectors.Vector.Front | include/vector.hpp:191-194 | `container_is_empty` iff empty; otherwise the first element |
| Vectors.Vector.Back | include/vector.hpp:195-198 | `container_is_empty` iff empty; otherwise the last element |
| Vectors.Vector.Begin | include/vector.hpp:199-201 | the iterator of this vector at index 0 |
| Vectors.Vector.End | include/vector.hpp:205-207 | the iterator of this vector at index `nowSize`, which is `size()` for a valid vector |
| Vectors.Vector.Empty | include/vector.hpp:211-213 | true iff there are no elements |
| Vectors.Vector.Size | include/vector.hpp:214-216 | the number of elements |
| Vectors.Vector.Capacity | include/vector.hpp:217-219 | the buffer length, never below the size |
| Vectors.Vector.EndMinusBegin | include/vector.hpp:199-216 | `end() - begin()` is `size()` |
| Vectors.Vector.Clear | include/vector.hpp:220-227 | no elements and a fresh buffer of capacity 10 |
| Vectors.Vector.Insert | include/vector.hpp:236-244 | `index_out_of_bound` iff `ind > size()`, with nothing changed; otherwise `s[..ind] + [v] + s[ind..]`, the iterator at `ind`, and doubling exactly when the buffer was full |
| Vectors.Vector.ShiftIn | include/vector.hpp:238-243 | the shift loop puts `value` at `ind` and moves the tail one slot right, in the same buffer |
| Vectors.Vector.Erase | include/vector.hpp:252-259 | `index_out_of_bound` iff `ind >= size()`, with nothing changed; otherwise `s[..ind] + s[ind+1..]` and the iterator at `ind` |
| Vectors.Vector.PushBack | include/vector.hpp:260-264 | appends `value`; the capacity doubles exactly when `nowSize == maxSize` |
| Vectors.Vector.PopBack | include/vector.hpp:265-269 | `container_is_empty` iff empty, with nothing changed; otherwise drops the last element |
| Vectors.Plus | include/vector.hpp:45-70 | moving an iterator by `n` keeps its container and moves its index by exactly `n` |
| Vectors.Difference | include/vector.hpp:41-44 | `invalid_iterator` iff the iterators belong to different containers; otherwise the difference of their indices |
| Vectors.DifferenceOfPlus | include/vector.hpp:41-70 | `(it + n) - it == n` and `it - (it + n) == -n` |
| PriorityQueues.NodeCountIsCardinality | include/priority_queue.hpp:96-117 | the node count is the number of elements held |
| PriorityQueues.RootIsMax | include/priority_queue.hpp:58 | in a heap-ordered tree no element is greater than the root |
| PriorityQueues.CachedDistIsNullPath | include/priority_queue.hpp:50-53 | under the leftist property the cached `d` is the null-path length (-1 for an empty tree) |
| PriorityQueues.TreeDist | include/priority_queue.hpp:50-53 | -1 for an empty heap, else the cached `d`; `CachedDistIsNullPath` proves that this is the null-path length of a leftist heap |
| PriorityQueues.TreeMerge | include/priority_queue.hpp:54-63 | the merged multiset is the union of the inputs' multisets; the node count adds up; the root comes from one input; heap order and the leftist property are preserved |
| PriorityQueues.MergeUnder | include/priority_queue.hpp:58-62 | the non-empty case, after the swap: the greater root stays on top over the merge of its right child with the other heap, and all the `TreeMerge` properties hold |
| PriorityQueues.Attach | include/priority_queue.hpp:60-61 | the child with the larger distance goes left and `d` is the right child's distance plus one; heap order, the leftist property and the contents follow from the children |
| PriorityQueues.PriorityQueue.constructor | include/priority_queue.hpp:68-69 | an empty queue |
| PriorityQueues.PriorityQueue.Top | include/priority_queue.hpp:91-94 | `container_is_empty` iff empty; otherwise an element no element exceeds |
| PriorityQueues.PriorityQueue.Push | include/priority_queue.hpp:95-99 | adds `e` to the multiset and increments `n` |
| PriorityQueues.PriorityQueue.Pop | include/priority_queue.hpp:100-107 | `container_is_empty` iff empty, with nothing changed; otherwise removes one occurrence of the maximum and decrements `n` |
| PriorityQueues.PriorityQueue.Size | include/priority_queue.hpp:108-110 | the number of elements held |
| PriorityQueues.PriorityQueue.Empty | include/priority_queue.hpp:111-113 | true iff no element is held |
| PriorityQueues.PriorityQueue.Merge | include/priority_queue.hpp:114-119 | this queue holds the union and the sum of sizes; `other` is left empty with `n == 0` |
| Deques.SizeSumIsLength | include/deque.hpp:14-38 | the number of elements along the chain is the sum of the blocks' `sizeB` |
| Deques.Mergeable | include/deque.hpp:464-467 | true iff both blocks exist, the right one is not `pastTheEnd`, and their sizes together fit in one block |
| Deques.InsertElement | include/deque.hpp:501-506 | the element goes in at `idx` of block `b`; the invariant (capacity included) is kept; the contents become `s[..r] + [v] + s[r..]` for the rank `r` of the slot |
| Deques.DeleteElement | include/deque.hpp:494-500 | the cell at `idx` of block `b` goes; the invariant is kept; the contents become `s[..r] + s[r+1..]` |
| Deques.ShiftIn | include/deque.hpp:502-505 | the shifting loop leaves the block's cells as `e[..idx] + [value] + e[idx..]` |
| Deques.ShiftOut | include/deque.hpp:495-499 | the shifting loop leaves the block's cells as `e[..idx] + e[idx+1..]` |
| Deques.InsertElementKeeps | include/deque.hpp:501-506 | a block grown by one cell at `idx` keeps the invariant; the rank of the slot is unchanged and the contents gain `value` there |
| Deques.DeleteElementKeeps | include/deque.hpp:494-500 | a block that loses the cell at `idx` keeps the invariant and the contents lose the element of that rank |
| Deques.DeleteElements | include/deque.hpp:494-500 | deleting the cell at `idx` of block `b` removes exactly the element of rank `RankAt(b, idx)` from the contents |
| Deques.SplitBlock | include/deque.hpp:477-493 | `b` keeps its first `idx` elements; a new block linked after it takes the rest; the contents are unchanged, and the new block starts at the rank of the old `(b, idx)` |
| Deques.CopyTail | include/deque.hpp:479-480 | the copy loop yields exactly the cells of the block from `idx` on |
| Deques.BuildSplit | include/deque.hpp:477-493 | the arena built field by field is `Split(a, b, idx)`: `b` keeps `idx` cells, the new slot holds the rest and is linked between `b` and its successor |
| Deques.MergeBlock | include/deque.hpp:468-476 | `rb`'s elements are appended to its predecessor `l` and `rb` is unlinked; the invariant and the contents are kept |
| Deques.GetRank | include/deque.hpp:448-455 | the rank of index `idx` of block `p` |
| Deques.GetByRank | include/deque.hpp:456-463 | a valid position whose rank is `k` (the end for `k == size()`) |
| Deques.WalkTo | include/deque.hpp:367-376 | the walk of `at` finds the element at rank `pos` |
| Deques.Order | include/deque.hpp:79-90 | the rank that `operator-` computes for an iterator |
| Deques.Advance | include/deque.hpp:55-66 | moving forward by `n` reaches rank `+n`; past the end it stops at `pastTheEnd` with the excess as index |
| Deques.Retreat | include/deque.hpp:67-78 | moving back by `n` (not past the front) reaches rank `-n` |
| Deques.OpenGap | include/deque.hpp:523-533 | finds the neighbouring blocks of the new block: the block at `pos`'s rank is `nextBlock`, and it splits `pos`'s block when `pos` is inside it |
| Deques.LinkAndMerge | include/deque.hpp:534-546 | links the new block before `nextBlock` and merges where `Mergeable` allows; the new block's elements go in at that rank |
| Deques.InsertSlow | include/deque.hpp:523-547 | the insertion path through a new block: contents `s[..r] + [v] + s[r..]` and a result position of rank `r` |
| Deques.DropBlock | include/deque.hpp:561-570 | erasing the only element of a block unlinks the block and merges its neighbours where allowed; the contents lose rank `r` |
| Deques.DropElement | include/deque.hpp:571-577 | erasing from a larger block deletes the cell and merges with a neighbour where allowed; the contents lose rank `r` |
| Deques.BlocksInsert | include/deque.hpp:508-548 | the blocks after `insert`: contents `s[..r] + [v] + s[r..]`, the invariant kept, and a position of rank `r` |
| Deques.BlocksErase | include/deque.hpp:549-579 | the blocks after `erase`: contents `s[..r] + s[r+1..]`, the invariant kept, and a position of rank `r` |
| Deques.EraseOnlyKeeps | include/deque.hpp:553-558 | erasing the only element leaves a well-formed empty list whose only position, the end, has rank 0 |
| Deques.EraseAmongOthers | include/deque.hpp:559-578 | with other elements left, the rank is taken, the element goes and `GetByRank` finds a position of the same rank in the new contents |
| Deques.BlocksPushBack | include/deque.hpp:580-598 | the blocks after `push_back`: contents `s + [v]`, the invariant kept |
| Deques.BlocksPushFront | include/deque.hpp:616-632 | the blocks after `push_front`: contents `[v] + s`, the invariant kept |
| Deques.BlocksPopBack | include/deque.hpp:599-615 | the blocks after `pop_back`: contents `s[..n-1]`, the invariant kept |
| Deques.BlocksPopFront | include/deque.hpp:633-649 | the blocks after `pop_front`: contents `s[1..]`, the invariant kept |
| Deques.EmptyKeeps | include/deque.hpp:313 | the empty arena (only `pastTheEnd`) satisfies the invariant and holds nothing |
| Deques.RankZero | include/deque.hpp:138-156 | a position has rank 0 iff it is the first cell of the first block |
| Deques.Deque.Rank | include/deque.hpp:448-455 | the rank of a valid iterator lies in `0..size()`, and it is `size()` only at `pastTheEnd` |
| Deques.Deque.constructor | include/deque.hpp:313 | an empty deque |
| Deques.Deque.At | include/deque.hpp:367-397 | `index_out_of_bound` iff `pos` is not in `0..size()-1`; otherwise `s[pos]` (`at` and `operator[]`) |
| Deques.Deque.Front | include/deque.hpp:408-411 | `container_is_empty` iff empty; otherwise `s[0]` |
| Deques.Deque.Back | include/deque.hpp:412-415 | `container_is_empty` iff empty; otherwise the last element |
| Deques.Deque.Begin | include/deque.hpp:416-419 | a valid iterator of rank 0 |
| Deques.Deque.End | include/deque.hpp:424-426 | the `pastTheEnd` iterator, of rank `size()` |
| Deques.Deque.Empty | include/deque.hpp:430-432 | true iff there are no elements |
| Deques.Deque.Size | include/deque.hpp:433-435 | the number of elements |
| Deques.Deque.Clear | include/deque.hpp:436-446 | no elements and the invariant kept |
| Deques.Deque.Plus | include/deque.hpp:55-66 | `it + n` and `it += n` have rank `Rank(it) + n` when in range; past the end they give `pastTheEnd` with the excess as index |
| Deques.Deque.Minus | include/deque.hpp:67-78 | `it - n` and `it -= n` have rank `Rank(it) - n` |
| Deques.Deque.Difference | include/deque.hpp:79-90 | `invalid_iterator` iff the iterators belong to different containers; otherwise `Rank(a) - Rank(b)` |
| Deques.Deque.Increment | include/deque.hpp:119-137 | `invalid_iterator` iff at `end()`; otherwise the iterator of the next rank |
| Deques.Deque.Decrement | include/deque.hpp:138-156 | `invalid_iterator` iff at `begin()`; otherwise the iterator of the previous rank |
| Deques.Deque.Deref | include/deque.hpp:157-160 | `invalid_iterator` iff at `pastTheEnd`; otherwise `s[Rank(it)]` |
| Deques.Deque.Insert | include/deque.hpp:508-548 | `invalid_iterator` iff the iterator is foreign or null, with nothing changed; otherwise `s[..r] + [v] + s[r..]` and an iterator of rank `r` |
| Deques.Deque.Erase | include/deque.hpp:549-579 | `container_is_empty` when empty, else `invalid_iterator` iff the iterator is foreign, null or `pastTheEnd`, with nothing changed; otherwise `s[..r] + s[r+1..]` and an iterator of rank `r` |
| Deques.Deque.PushBack | include/deque.hpp:580-598 | contents `s + [v]`, the invariant kept |
| Deques.Deque.PushFront | include/deque.hpp:616-632 | contents `[v] + s`, the invariant kept |
| Deques.Deque.PopBack | include/deque.hpp:599-615 | `container_is_empty` iff empty, with nothing changed; otherwise `s` without its last element |
| Deques.Deque.PopFront | include/deque.hpp:633-649 | `container_is_empty` iff empty, with nothing changed; otherwise `s[1..]` |
| AvlTrees.Update | include/map.hpp:64-67 | the node over `l` and `r` has `sizeT = sizeT(l) + sizeT(r) + 1` and `h = max(h(l), h(r)) + 1` |
| AvlTrees.CachesAreTrue | include/map.hpp:64-84 | where every node satisfies the `Update` equations, the cached `sizeT` and `h` are the true node count and height |
| AvlTrees.GetSizeT | include/map.hpp:76-79 | 0 for a null child, else the cached `sizeT`; `CachesAreTrue` proves it is the node count of a balanced tree |
| AvlTrees.GetH | include/map.hpp:80-83 | -1 for a null child, else the cached `h`; `CachesAreTrue` proves it is the height of a balanced tree |
| AvlTrees.InOrderKeys | include/map.hpp:36-74 | the in-order key sequence holds exactly the tree's keys, one per node |
| AvlTrees.OrderedIsIncreasing | include/map.hpp:30-35 | a BST lists its keys in strictly increasing order |
| AvlTrees.ModelKeys | include/map.hpp:36-74 | the key-value map of a tree has exactly its keys |
| AvlTrees.IncreasingUnique | include/map.hpp:30-35 | two increasing key lists with the same members are equal |
| AvlTrees.AvlHeightBound | include/map.hpp:36-74 | in an AVL-balanced tree `2^((h+1)/2) <= size + 1`, so the height is logarithmic |
| AvlTrees.Refresh | include/map.hpp:64-67 | recomputing a node's caches keeps its keys and map, and changes nothing in a balanced tree |
| AvlTrees.Pivot | include/map.hpp:90-105 | a single rotation keeps BST order in both directions and keeps the key-value map |
| AvlTrees.LL | include/map.hpp:90-97 | keeps the in-order sequence and the keys, and keeps BST order and the map |
| AvlTrees.RR | include/map.hpp:98-105 | keeps the in-order sequence and the keys, and keeps BST order and the map |
| AvlTrees.LR | include/map.hpp:106-109 | keeps the in-order sequence and the keys, and keeps BST order and the map |
| AvlTrees.RL | include/map.hpp:110-113 | keeps the in-order sequence and the keys, and keeps BST order and the map |
| AvlTrees.LLFix | include/map.hpp:134-136 | `LL` on a left-left imbalance of 2 gives a balanced tree of known height and size |
| AvlTrees.RRFix | include/map.hpp:141-143 | `RR` on a right-right imbalance of 2 gives a balanced tree of known height and size |
| AvlTrees.LRFix | include/map.hpp:134-136 | `LR` on a left-right imbalance of 2 gives a balanced tree of known height and size |
| AvlTrees.RLFix | include/map.hpp:141-143 | `RL` on a right-left imbalance of 2 gives a balanced tree of known height and size |
| AvlTrees.InsertTree | include/map.hpp:114-148 | inserting an absent key keeps the tree a BST and AVL-balanced with true caches; it adds exactly that key and its value; the height grows by at most 1 and the size by 1 |
| AvlTrees.InsertLeft | include/map.hpp:132-137 | after inserting into the left subtree, the `LL`/`LR` fix and `Update` give an AVL tree with the key added |
| AvlTrees.InsertRight | include/map.hpp:139-145 | after inserting into the right subtree, the `RR`/`RL` fix and `Update` give an AVL tree with the key added |
| AvlTrees.RotateLeftHigh | include/map.hpp:134-136 | a left imbalance of 2 after insertion is repaired by `LL` or `LR` chosen by the key's side, without changing the height |
| AvlTrees.RotateRightHigh | include/map.hpp:141-143 | a right imbalance of 2 after insertion is repaired by `RR` or `RL` chosen by the key's side, without changing the height |
| AvlTrees.Leftmost | include/map.hpp:162-163 | the leftmost node has no left child and holds the smallest key of a BST |
| AvlTrees.RebalanceLeft | include/map.hpp:188-212 | after a removal on the left, the rotations and `Update` give a balanced tree with the stated height and a correct `stop` flag |
| AvlTrees.RebalanceRight | include/map.hpp:213-234 | after a removal on the right, the rotations and `Update` give a balanced tree with the stated height and a correct `stop` flag |
| AvlTrees.RemoveTree | include/map.hpp:149-235 | removing a key keeps the tree a BST and AVL-balanced; it removes exactly that key; `stop` is false iff the height dropped by 1; the size drops by 1 iff the key was present; an absent key changes nothing |
| AvlTrees.RemoveLeft | include/map.hpp:153-156 | the recursive removal on the left, then rebalancing, keeps every `RemoveTree` property |
| AvlTrees.RemoveRight | include/map.hpp:157-160 | the recursive removal on the right, then rebalancing, keeps every `RemoveTree` property |
| AvlTrees.RemoveRoot | include/map.hpp:161-175 | a root with two children is replaced by the leftmost node of its right subtree, which is removed there |
| AvlTrees.RemovedLeaf | include/map.hpp:176-187 | a node with at most one child is replaced by that child, losing exactly its own key, one level and one node |
| AvlTrees.GetKth | include/map.hpp:236-242 | for `1 <= k <= size` the node holding the k-th smallest key, with its value |
| AvlTrees.ValueAt | include/map.hpp:417-424 | the value stored with a present key |
| Maps.Map.Rank | include/map.hpp:265-286 | the position of an iterator in the key list; it equals `size()` only at `pastTheEnd` |
| Maps.Map.KeyListIsDomain | include/map.hpp:36-74 | the key list is strictly increasing and holds exactly the map's keys |
| Maps.Map.constructor | include/map.hpp:361 | an empty map with size 0 |
| Maps.Map.Search | include/map.hpp:514-522 | the lookup loop finds a node iff the key is present, and the node holds the key's value |
| Maps.Map.At | include/map.hpp:417-434 | `index_out_of_bound` iff the key is absent; otherwise its value (`at` and const `operator[]`) |
| Maps.Map.Find | include/map.hpp:514-522 | `end()` iff the key is absent; otherwise the key's node |
| Maps.Map.Count | include/map.hpp:510-513 | 1 if the key is present, 0 otherwise |
| Maps.Map.Begin | include/map.hpp:456-458 | a valid iterator of rank 0 (`beginA`) |
| Maps.Map.End | include/map.hpp:462-464 | a valid iterator of rank `size()` |
| Maps.Map.IsEmpty | include/map.hpp:468-470 | true iff the map holds no key |
| Maps.Map.Size | include/map.hpp:471-473 | the number of keys |
| Maps.Map.Clear | include/map.hpp:474-480 | an empty map with the invariant kept |
| Maps.Map.LinkNew | include/map.hpp:116-129 | linking a new leaf next to its parent `fa` (before it when `lorr == 0`, after it otherwise) threads the key list with the key inserted in order |
| Maps.Map.InsertNode | include/map.hpp:114-148 | the tree becomes `InsertTree(t, k, v)`, the result names the new node, and the threads list the key inserted in order |
| Maps.Map.InsertBelow | include/map.hpp:131-148 | the recursive step of `Insert` into a non-empty subtree, with the same contract |
| Maps.Map.InsertIntoLeft | include/map.hpp:132-137 | a key below the root goes into the left subtree with the root as parent, and the rotation of `InsertLeft` follows; the key list gains the key in its place |
| Maps.Map.InsertIntoRight | include/map.hpp:139-144 | the mirror image, through the right subtree and `InsertRight` |
| Maps.Map.Insert | include/map.hpp:481-495 | the result names the key's node; `inserted` is true iff the key was absent; then the key is added with its value, otherwise nothing changes |
| Maps.Map.InsertFirst | include/map.hpp:482-489 | inserting into an empty map gives a single key |
| Maps.Map.InsertNew | include/map.hpp:490-494 | inserting an absent key into a non-empty map adds exactly that key |
| Maps.Map.InsertThreaded | include/map.hpp:493 | `Insert(root, value, NULL, 0)` for an absent key: the tree becomes `InsertTree(t, k, v)`, the new node holds the key and the thread lists exactly the new key list |
| Maps.Map.Index | include/map.hpp:435-445 | non-const `operator[]`: an absent key is first inserted with `T()`; the key's value is returned |
| Maps.Map.Unlink | include/map.hpp:168-182 | unlinking the node of rank `j` threads the key list without that key |
| Maps.Map.RemoveNode | include/map.hpp:149-235 | the tree becomes `RemoveTree(t, x)`; on the original call the threads lose `x`, on the call for the replacement node they are unchanged |
| Maps.Map.RemoveInner | include/map.hpp:161-175 | a node with two children is replaced by the leftmost node of its right subtree: the tree becomes `RemoveTree(t, t.key)` and the threads lose the removed key |
| Maps.Map.RemoveFromLeft | include/map.hpp:153-156 | a key below the root is removed from the left subtree and `RemoveLeft` rebalances; the threads lose the key on the original call and are unchanged on the replacement call |
| Maps.Map.RemoveFromRight | include/map.hpp:157-160 | the mirror image through the right subtree and `RemoveRight`; only the original call goes right of a node |
| Maps.Map.Erase | include/map.hpp:496-508 | `index_out_of_bound` iff the iterator is foreign or `end()`, with nothing changed; otherwise exactly that key is removed |
| Maps.Map.EraseLast | include/map.hpp:498-504 | erasing the only key leaves an empty map |
| Maps.Map.EraseNode | include/map.hpp:505-507 | erasing from a larger map removes exactly that key |
| Maps.Map.RemoveThreaded | include/map.hpp:507 | `Remove(root, x, true)` for a present key: the tree becomes `RemoveTree(t, x)` and the thread lists exactly the remaining keys in order |
| Maps.Map.GetByRank | include/map.hpp:533-536 | `index_out_of_bound` iff not `1 <= k <= size()`; otherwise the node of rank `k - 1`, i.e. the k-th smallest key |
| Maps.Map.Increment | include/map.hpp:265-275 | `invalid_iterator` iff at `end()`; otherwise the iterator of the next rank |
| Maps.Map.Decrement | include/map.hpp:276-286 | `invalid_iterator` iff at rank 0; otherwise the iterator of the previous rank |
| Maps.Map.Deref | include/map.hpp:287-290 | `invalid_iterator` iff at `end()`; otherwise the key and its value |
| Maps.Map.RankDetermines | include/map.hpp:265-286 | two valid iterators of equal rank are equal |
| Maps.Map.IncrementThenDecrement | include/map.hpp:265-286 | `--(++it) == it` for every non-end iterator |
| Maps.Map.DecrementThenIncrement | include/map.hpp:265-286 | `++(--it) == it` for every iterator past rank 0 |

## Left out

- Raw memory management is not modelled: `new`/`delete`, destructors, and `::operator new` and placement construction in the vector. Owned values are held directly.
- The `const_iterator` classes and the `const` overloads are left out. They repeat the `iterator` code; one iterator value type stands for both.
- Copy constructors and assignment operators are left out. They are node-by-node deep copies.
- The `Compare` functor and `std::less` are left out. The priority queue holds `int` elements and the map `int` keys, both ordered by `<`.
- Integer widths are not modelled. `size_t` and `int` are unbounded, so no wrap-around is modelled for sizes, ranks or iterator arithmetic.
- The vector's iterator-based `insert`/`erase` and its iterator `+`/`-`/`++`/`--` are modelled only as index arithmetic (`Plus`), without bounds checks, as in the code. The index-based `insert`/`erase` are modelled in full.
- The vector's storage is `T`s in an `array` of default-constructible `T`. The unconstructed slots of the raw buffer are not modelled.
- PriorityQueues.PriorityQueue.Merge: requires `other != this`. `merge` of a queue with itself doubles `n` and then empties the queue, because both names alias one object; this is not modelled.
- The deque's arena is a value. Every block primitive returns a new `Arena` that the class assigns to its field. In-place pointer updates and aliasing between blocks are therefore not modelled. A freed block stays in the arena unlinked, and a block's identity is its arena index.
- Deques.Deque.Plus: models `it + n` past `end()` as the loop computes it (`pastTheEnd` with the excess as index), and requires that a backward move does not pass `begin()`. Going back before `begin()` makes the code follow a null `prev`.
- Deques.Deque.Minus: requires that `it - n` does not pass `begin()`, for the same reason.
- Deques.Deque.Insert: requires the iterator, when it is of this deque and not null, to name an element or `end()`. A dangling iterator is outside the model.
- Deques.Deque.Erase: requires the iterator, when it is of this deque and not null, to name an element or `end()`. A dangling iterator is outside the model.
- `clear()` leaves `first`/`last` as they were, and so does the model. The invariant constrains them only while the deque is non-empty.
- `pop_back`/`pop_front` do not merge blocks, so "no two adjacent blocks are mergeable" is not an invariant of the code. The model does not claim it.
- The map's tree is a value (`Tree`), and its nodes are named by their keys. The threads are the maps `next` from keys to positions and `prev` from positions to links. `beginA` is a field, and `prev[PastTheEnd]` stands for `pastTheEnd.prev`.
- Maps.Map.Index: `T()` is passed in as `dflt`, since a generic value has no default constructor here.
- The references returned by `at` and `operator[]` are modelled as values, so writing through them is not modelled.
- Maps.Map.Increment: requires a valid iterator of this map (`ValidIter`). The code does not check the container on `++`/`--`/`*`.
- Maps.Map.Decrement: requires a valid iterator of this map (`ValidIter`), for the same reason.
- Maps.Map.Deref: requires a valid iterator of this map (`ValidIter`), for the same reason.
- Maps.Map.Erase: requires an iterator of this map to be valid (`ValidIter`): it names a present key or `end()`. A dangling iterator is outside the model. A foreign iterator may be anything; as the code does, `erase` throws `index_out_of_bound` for it and for `end()`, not `invalid_iterator`.
- AvlTrees.InsertTree: requires the key to be absent. `map::insert` calls the private `Insert` only after `find` fails. When the key is present, `Insert` would return an uninitialised pointer.
- `Remove`'s `t == NULL` case returns `true`. `erase` removes only present keys, so the model covers that case only through `RemoveTree` of an absent key.
- Remove's fall-through with no return after its `switch` is unreachable for AVL trees. `RebalanceLeft`/`RebalanceRight` cover every reachable height difference.
