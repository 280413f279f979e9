# Symbol tables of `top.kindless.search`, modelled in Dafny

This project models the symbol tables (key-to-value maps) of the Java
package `main.top.kindless.search`, all of which share the `ST` interface
and, for the ordered ones, `OrderedST`:

- `SeparateChainingHashST`: an array of `M` buckets. It keeps the counters
  `N`, `threshold` and `filledNum`, and doubles `M` before a `put` once
  `filledNum` reaches `threshold`. Each bucket starts as a
  `SequentialSearchST` chain and becomes a `RedBlackBST` once it holds 8
  pairs.
- `RedBlackBST`: Sedgewick's left-leaning red-black tree, with a subtree
  count `N` on every node.
- `BST`: an unbalanced binary search tree with order statistics.
- `BinarySearchST`: two parallel sorted arrays searched by binary search.
- `SequentialSearchST`: a linked list that grows at its head.
- `ArrayST`: an array in insertion order, with a sentinel in slot 0.
- The default methods of `ST` (`contains`, `isEmpty`, the tombstone
  `delete`) and of `OrderedST` (`deleteMin`, `deleteMax`, `size(lo, hi)`,
  `keys()`). Each table that inherits one has it as a method of its own.

Every table is a Dafny `class`. Its fields are the ones the Java class
updates. Its methods have the Java methods' branches, error cases and
constants, and their loops where the Java has loops. Each method is proved
against a specification over the sequence of pairs the table holds:

- `Common.Get` is the answer of `get`;
- `Common.Insert` is an ordered `put`;
- `Common.Remove` is `delete`;
- `Common.Between` is the range `[lo, hi]`;
- `Common.CountBelow` is `rank`.

Lemmas prove what the tables promise about those functions. A `put` answers
the new value for its key and the old answer for every other key. A
`delete` answers null for its key. Order, rank, floor and ceiling are
proved too. For the trees, the counts `N` are shown to be right, and the
red-black shape (no right-leaning red link, no two reds in a row, equal
black height) is shown to be kept.

Modelling choices:

- Keys are Dafny `int` (`Common.Key`). One total order stands for
  `compareTo`, `equals` and `hashCode` consistency.
- Values are `Option<V>`, where `None` is Java's `null`. A stored null is
  observable: the tombstone `delete` leaves one behind, and `contains`
  answers false for it.
- A null key is modelled (`Option<Key>`) where the Java code tests for it
  and throws.
- Exceptions are `Result`/`Outcome` values (`Common.Error`).
- `forEach(action)` returns the sequence of pairs the action would see. A
  missing action (`actionGiven == false`) is a null pointer.
- Tree nodes are owned by exactly one parent. The recursive private
  helpers therefore become functions from the old subtree to the new one.
  The table object holds the root in a field.
- The linked list of `SequentialSearchST` is a `seq` field.
- `BinarySearchST` and `ArrayST` keep their arrays; their `grow` replaces
  them with a copy.
- The hash table holds an `array` of `Bucket` values, each a chain or a
  red-black tree. `hashCode` is a parameter of the table (`Key -> Int32`).
  The load factor is an exact `real`, and `(int) (loadFactor * M)` is its
  floor.

Where the code and the documentation disagree, the model follows the code:

- **`resize` does not rehash.** It doubles `M` and appends empty chains,
  leaving every pair where it was. The model states this (`Resize`), and
  `SeparateChaining.ResizeLosesKey` shows a key that `get` no longer finds
  afterwards. The hash table's contracts therefore give the symbol-table
  answers only while `Reachable()` holds, meaning every key is in the
  bucket `hash` selects. No rehashing `resize` is modelled beside it: the
  code has no rehashing step to model, and what a corrected one would do
  with chains and trees (the order of re-insertion, when to treeify) is
  not fixed by anything in the package.
- **`N` counts operations, not pairs.** It goes up on every `put`, overwrite
  included, and down on every `delete`, absent key included. It is not the
  sum of the bucket sizes.
- **`threshold` is the resize bound.** The field's comment calls it the
  treeify threshold, but the code compares it with `filledNum` to decide a
  resize. Treeifying uses the constant `TREEIFY_THRESHOLD` (8).
- **`floor` and `ceiling` are not strict.** The comments on `OrderedST`
  describe strict bounds ("smaller than k", "greater than k"), but the
  implementations answer `k` itself when it is present. The model states
  the non-strict bound (`Common.IsFloor`, `Common.IsCeiling`).
- **`RedBlackBST` has stubs.** Its `floor`, `ceiling`, `rank`, `select`,
  `keys()` and `keys(lo, hi)` only return null or 0.

## Model

| member | source | states |
|---|---|---|
| Common.Get | src/main/top/kindless/search/ST.java:23 | `get` answers null for a key not in the table, and a non-null answer is a pair the table holds |
| Common.RemoveSpec | src/main/top/kindless/search/ST.java:33-37 | after `delete(k)`, `k` reads null and is no longer a key, and every other key reads as before |
| Common.InsertSpec | src/main/top/kindless/search/OrderedST.java:3 | `put` on a table in ascending key order keeps the order, answers the new value for its key and the old answer for every other key |
| Common.SortedRemove | src/main/top/kindless/search/OrderedST.java:3 | `delete` on a table in ascending key order keeps the order |
| Common.InsertCount | src/main/top/kindless/search/OrderedST.java:3 | an ordered `put` adds one pair exactly when the key was absent |
| Common.RemoveCount | src/main/top/kindless/search/ST.java:33-37 | `delete` removes one pair exactly when the key was present in a table with distinct keys |
| Common.SortedFloorAt | src/main/top/kindless/search/binary/BinarySearchST.java:46-52 | the floor read at the cut `rank` finds (`k` itself when present, otherwise the key before the cut, or null at 0) is the greatest key at most `k` |
| Common.SortedCeilingAt | src/main/top/kindless/search/binary/BinarySearchST.java:55-58 | the key at the cut `rank` finds is the least key at least `k`, or there is none when the cut is past the end |
| Common.BetweenCount | src/main/top/kindless/search/OrderedST.java:65-73 | the keys in `[lo, hi]` number `rank(hi) - rank(lo)`, plus one when `hi` is present |
| Common.SortedRank | src/main/top/kindless/search/OrderedST.java:36-43 | in an ordered table the key at index `i` has rank `i` |
| Common.GrowAsWrittenRoom | src/main/top/kindless/search/array/ArrayST.java:140-148 | from any positive capacity, `grow` as written makes room for at least one more slot |
| Common.GrowAsWrittenStuck | src/main/top/kindless/search/binary/BinarySearchST.java:181-185 | from capacity 0, `grow` as written stays at 0, one slot short of what `put` needs |
| Common.Grow | src/main/top/kindless/search/binary/BinarySearchST.java:181-187 | the corrected `grow` never returns less than the capacity asked for or than the old capacity |
| Common.GrowAgrees | src/main/top/kindless/search/binary/BinarySearchST.java:181-185 | from a positive capacity, for the one extra slot `put` asks for, the corrected `grow` and the one as written agree |
| Common.CopyOf | src/main/top/kindless/search/binary/BinarySearchST.java:189-190 | `Arrays.copyOf` to a longer length keeps the old slots and pads with null |
| Sequential.PutListSpec | src/main/top/kindless/search/sequential/SequentialSearchST.java:38-47 | the chain after `put` keeps distinct keys, answers `v` for `k` and the old answer elsewhere, and grows by one node exactly when `k` was absent |
| Sequential.PutListKeys | src/main/top/kindless/search/sequential/SequentialSearchST.java:38-47 | the chain after `put(k, v)` holds exactly its old keys and `k` |
| Sequential.PutListAt | src/main/top/kindless/search/sequential/SequentialSearchST.java:39-43 | an overwrite changes only the node holding `k` |
| Sequential.SequentialSearchST.constructor | src/main/top/kindless/search/sequential/SequentialSearchST.java:14-15 | a new table has no nodes and a zero counter |
| Sequential.SequentialSearchST.Put | src/main/top/kindless/search/sequential/SequentialSearchST.java:38-47 | the walk overwrites the node holding `k` or links a new node at the head; then `k` reads `v`, every other key reads as before, keys stay distinct and the counter counts the nodes |
| Sequential.GetList | src/main/top/kindless/search/sequential/SequentialSearchST.java:50-55 | the walk from the head answers the value of the first node holding `k`, or null when it reaches the tail |
| Sequential.SequentialSearchST.Get | src/main/top/kindless/search/sequential/SequentialSearchST.java:50-55 | the walk answers the value of the node holding `k`, or null |
| Sequential.SequentialSearchST.Size | src/main/top/kindless/search/sequential/SequentialSearchST.java:58-60 | the counter equals the number of nodes |
| Sequential.SequentialSearchST.Keys | src/main/top/kindless/search/sequential/SequentialSearchST.java:63-68 | the keys from head to tail, the newest key first |
| Sequential.SequentialSearchST.ForEach | src/main/top/kindless/search/sequential/SequentialSearchST.java:71-84 | a null action throws; otherwise the action sees every pair from head to tail |
| Sequential.SequentialSearchST.Delete | src/main/top/kindless/search/sequential/SequentialSearchST.java:87-102 | a null key throws; otherwise the node holding the key is unlinked, the counter drops by one exactly then, the order of the rest is kept, and an absent key leaves the list alone |
| Sequential.SequentialSearchST.Contains | src/main/top/kindless/search/ST.java:44-46 | `contains` holds exactly when `get` answers non-null |
| Sequential.SequentialSearchST.IsEmpty | src/main/top/kindless/search/ST.java:52-54 | `isEmpty` holds exactly when `size()` is 0 |
| ArraySearch.ArrayST.constructor | src/main/top/kindless/search/array/ArrayST.java:34-39 | a positive capacity gives an array of that length with only the sentinel in use |
| ArraySearch.ArrayST.Default | src/main/top/kindless/search/array/ArrayST.java:29-31 | the default capacity is 8 |
| ArraySearch.NewArrayST | src/main/top/kindless/search/array/ArrayST.java:34-36 | a capacity that is not positive is an illegal argument |
| ArraySearch.ArrayST.Put | src/main/top/kindless/search/array/ArrayST.java:51-61 | a null key is an illegal argument; a present key has its value overwritten in its slot; a new key is appended after the last pair; `get` then answers `v` for `k` and as before elsewhere |
| ArraySearch.ArrayST.OverwriteSlot | src/main/top/kindless/search/array/ArrayST.java:54-56 | the pair in slot `i` takes the new value, and nothing else changes |
| ArraySearch.ArrayST.AppendSlot | src/main/top/kindless/search/array/ArrayST.java:60 | the new pair goes into slot `size` and `size` grows by one |
| ArraySearch.ArrayST.EnsureCapacityInternal | src/main/top/kindless/search/array/ArrayST.java:130-148 | the array grows, by `grow` as written and keeping its pairs, only when it is too short, and afterwards has room for one more pair |
| ArraySearch.ArrayST.Get | src/main/top/kindless/search/array/ArrayST.java:64-73 | a null key is an illegal argument; the downward scan stops at the pair holding `k`, or at the sentinel, whose value is null |
| ArraySearch.ArrayST.Size | src/main/top/kindless/search/array/ArrayST.java:76-78 | `size()` is the slots in use less the sentinel, the number of pairs |
| ArraySearch.ArrayST.Keys | src/main/top/kindless/search/array/ArrayST.java:81-87 | the keys of slots 1 to `size - 1`, in insertion order |
| ArraySearch.ArrayST.ForEach | src/main/top/kindless/search/array/ArrayST.java:90-103 | a null action throws; otherwise the action sees the pairs in insertion order |
| ArraySearch.ArrayST.Contains | src/main/top/kindless/search/ST.java:44-46 | `contains` is `get` answering non-null; a null key is an illegal argument |
| ArraySearch.ArrayST.Delete | src/main/top/kindless/search/ST.java:33-37 | the inherited `delete` puts null for a contained key, which keeps its slot, so `size()` does not drop; the key then reads null and the others as before |
| ArraySearch.ArrayST.IsEmpty | src/main/top/kindless/search/ST.java:52-54 | `isEmpty` holds exactly when there are no pairs |
| BinarySearch.BinarySearchST.constructor | src/main/top/kindless/search/binary/BinarySearchST.java:26-29 | a capacity that is not negative gives empty arrays of that length |
| BinarySearch.BinarySearchST.Default | src/main/top/kindless/search/binary/BinarySearchST.java:21-23 | the default capacity is 8 |
| BinarySearch.NewBinarySearchST | src/main/top/kindless/search/binary/BinarySearchST.java:26-29 | a negative capacity cannot be allocated |
| BinarySearch.BinarySearchST.RankOf | src/main/top/kindless/search/binary/BinarySearchST.java:61-74 | the binary search answers the number of keys below `k`: `k`'s index when present, otherwise where it would go |
| BinarySearch.BinarySearchST.Rank | src/main/top/kindless/search/binary/BinarySearchST.java:61-74 | a null key is an illegal argument; otherwise the rank lies in `[0, size]` |
| BinarySearch.BinarySearchST.Get | src/main/top/kindless/search/binary/BinarySearchST.java:120-127 | an empty table answers null for any key; otherwise a null key is an illegal argument, and the answer is the value paired with `k`, or null |
| BinarySearch.BinarySearchST.Contains | src/main/top/kindless/search/ST.java:44-46 | with no null values stored, `contains` holds exactly for the keys present |
| BinarySearch.BinarySearchST.Size | src/main/top/kindless/search/binary/BinarySearchST.java:130-132 | `size()` is the number of pairs |
| BinarySearch.BinarySearchST.IsEmpty | src/main/top/kindless/search/ST.java:52-54 | `isEmpty` holds exactly when there are no pairs |
| BinarySearch.BinarySearchST.Min | src/main/top/kindless/search/binary/BinarySearchST.java:32-36 | an empty table throws; otherwise the answer is the least key |
| BinarySearch.BinarySearchST.Max | src/main/top/kindless/search/binary/BinarySearchST.java:39-43 | an empty table throws; otherwise the answer is the greatest key |
| BinarySearch.BinarySearchST.Floor | src/main/top/kindless/search/binary/BinarySearchST.java:46-52 | a null key is an illegal argument; otherwise the answer is the greatest key at most `k`, or null |
| BinarySearch.BinarySearchST.Ceiling | src/main/top/kindless/search/binary/BinarySearchST.java:55-58 | a null key is an illegal argument; a rank equal to the array length is out of bounds; otherwise the answer is the slot at the rank, the least key at least `k`, or null past the last pair |
| BinarySearch.BinarySearchST.Select | src/main/top/kindless/search/binary/BinarySearchST.java:77-80 | an index outside `[0, size)` is out of bounds; otherwise the answer is the key of rank `i` |
| BinarySearch.BinarySearchST.KeysBetween | src/main/top/kindless/search/binary/BinarySearchST.java:83-92 | a null bound is an illegal argument; `lo > hi` gives no keys; otherwise the keys in `[lo, hi]` in ascending order |
| BinarySearch.BinarySearchST.KeysFrom | src/main/top/kindless/search/binary/BinarySearchST.java:88 | `subList(a, b)` of the key array is the keys of slots `a` to `b - 1` |
| BinarySearch.BinarySearchST.Keys | src/main/top/kindless/search/OrderedST.java:84-86 | `keys()` is `keys(min(), max())`: every key in ascending order, and an empty table throws from `min()` |
| BinarySearch.BinarySearchST.SizeBetween | src/main/top/kindless/search/OrderedST.java:65-73 | `size(lo, hi)` is the number of keys in `[lo, hi]`, 0 when `hi < lo` |
| BinarySearch.BinarySearchST.ForEach | src/main/top/kindless/search/binary/BinarySearchST.java:152-165 | a null action throws; otherwise the action sees every pair in ascending key order |
| BinarySearch.BinarySearchST.EnsureCapacityInternal | src/main/top/kindless/search/binary/BinarySearchST.java:171-192 | the arrays grow, by the corrected `grow` and keeping their pairs, only when they are too short, and afterwards hold `miniCapacity` slots |
| BinarySearch.BinarySearchST.Put | src/main/top/kindless/search/binary/BinarySearchST.java:102-117 | a null key or value is an illegal argument; a present key has its value overwritten; a new key goes in at its rank with the later pairs moved one slot up; the keys stay ascending and paired with their values |
| BinarySearch.BinarySearchST.Overwrite | src/main/top/kindless/search/binary/BinarySearchST.java:105-107 | the value in slot `i` is replaced, and nothing else changes |
| BinarySearch.BinarySearchST.InsertSlot | src/main/top/kindless/search/binary/BinarySearchST.java:110-116 | the pair goes into slot `i` after the pairs from `i` on move one slot up |
| BinarySearch.BinarySearchST.ShiftUp | src/main/top/kindless/search/binary/BinarySearchST.java:110-113 | the loop moves slots `[i, size)` one slot up and leaves the rest alone |
| BinarySearch.BinarySearchST.Delete | src/main/top/kindless/search/binary/BinarySearchST.java:135-149 | a null key is an illegal argument; an empty table or an absent key changes nothing; otherwise the pair goes, the later pairs move down and the freed slot becomes null |
| BinarySearch.BinarySearchST.RemoveSlot | src/main/top/kindless/search/binary/BinarySearchST.java:142-148 | the pair in slot `i` goes, the later pairs move one slot down, and the last slot becomes null |
| BinarySearch.BinarySearchST.ShiftDown | src/main/top/kindless/search/binary/BinarySearchST.java:142-145 | the loop moves slots `(i, size)` one slot down and leaves the rest alone |
| BinarySearch.BinarySearchST.DeleteMin | src/main/top/kindless/search/OrderedST.java:48-50 | `deleteMin` is `delete(min())`: an empty table throws, otherwise the least pair goes |
| BinarySearch.BinarySearchST.DeleteMax | src/main/top/kindless/search/OrderedST.java:55-57 | `deleteMax` is `delete(max())`: an empty table throws, otherwise the greatest pair goes |
| BinarySearch.RemoveSorted | src/main/top/kindless/search/binary/BinarySearchST.java:135-149 | the pairs after `delete` stay ascending, `k` reads null and the others as before, and exactly one pair goes when `k` was present |
| Bst.Resize | src/main/top/kindless/search/bst/BST.java:283-286 | `resize` keeps the node's pairs and makes its count right when its children's are |
| Bst.SizesOkCount | src/main/top/kindless/search/bst/BST.java:149-151 | with right counts, `size(node)` is the number of pairs below the node |
| Bst.GetNode | src/main/top/kindless/search/bst/BST.java:153-165 | in an ordered tree the answer for `k` lies at the node, on its left or on its right, as the comparison says |
| Bst.MinTree | src/main/top/kindless/search/bst/BST.java:42-44 | `min(Node)` is null only for null, and otherwise the leftmost node, which holds the first pair |
| Bst.MaxTree | src/main/top/kindless/search/bst/BST.java:52-54 | `max(Node)` is null only for null, and otherwise the rightmost node, which holds the last pair |
| Bst.DeleteMinTree | src/main/top/kindless/search/bst/BST.java:174-180 | `deleteMin(Node)` removes the first pair, and the counts stay right |
| Bst.DeleteMaxTree | src/main/top/kindless/search/bst/BST.java:189-195 | `deleteMax(Node)` removes the last pair, and the counts stay right |
| Bst.PutElements | src/main/top/kindless/search/bst/BST.java:224-238 | `put(Node, K, V)` puts the pair where an ordered insert would and keeps the tree ordered |
| Bst.PutSizes | src/main/top/kindless/search/bst/BST.java:224-238 | `put(Node, K, V)` keeps every count right |
| Bst.DeleteElements | src/main/top/kindless/search/bst/BST.java:202-222 | `delete(Node, K)`, with the successor taking a two-child node's place, removes exactly the key's pair and keeps the tree ordered |
| Bst.DeleteSizes | src/main/top/kindless/search/bst/BST.java:202-222 | `delete(Node, K)` keeps every count right |
| Bst.DeleteAbsent | src/main/top/kindless/search/bst/BST.java:202-222 | deleting an absent key gives back the same tree |
| Bst.FloorSpec | src/main/top/kindless/search/bst/BST.java:62-73 | `floor(K, Node)` finds the greatest key at most `k`, or null |
| Bst.CeilingAsWrittenBelow | src/main/top/kindless/search/bst/BST.java:81-92 | with both descents calling `floor`, `ceiling(2)` of the keys {1, 3} answers 1, which is not the ceiling; the ceiling is 3 |
| Bst.CeilingSpec | src/main/top/kindless/search/bst/BST.java:81-92 | `ceiling(K, Node)` with its descents calling `ceiling` finds the least key at least `k`, or null |
| Bst.RankSpec | src/main/top/kindless/search/bst/BST.java:99-111 | `rank(Node, K)` is the number of keys below `k` |
| Bst.InorderKeys | src/main/top/kindless/search/bst/BST.java:256-262 | the walk appends the keys in ascending order |
| Bst.InorderRange | src/main/top/kindless/search/bst/BST.java:264-272 | the walk appends the keys in `[lo, hi]` in ascending order |
| Bst.InorderVisit | src/main/top/kindless/search/bst/BST.java:240-254 | the walk hands the action every pair in ascending key order |
| Bst.BST.constructor | src/main/top/kindless/search/bst/BST.java:11-13 | a new tree is empty |
| Bst.BST.Min | src/main/top/kindless/search/bst/BST.java:37-40 | null on an empty tree, otherwise the least key |
| Bst.BST.Max | src/main/top/kindless/search/bst/BST.java:47-50 | null on an empty tree, otherwise the greatest key |
| Bst.BST.Floor | src/main/top/kindless/search/bst/BST.java:57-60 | the greatest key at most `k`, or null |
| Bst.BST.Ceiling | src/main/top/kindless/search/bst/BST.java:76-79 | the corrected `ceiling`: the least key at least `k`, or null |
| Bst.BST.Rank | src/main/top/kindless/search/bst/BST.java:95-97 | the number of keys below `k` |
| Bst.BST.Size | src/main/top/kindless/search/bst/BST.java:139-141 | the root's stored count is the number of pairs |
| Bst.BST.Select | src/main/top/kindless/search/bst/BST.java:114-119 | an index outside `[0, size)` is out of bounds; otherwise the key of rank `i`, read from the in-order key list |
| Bst.BST.KeysBetween | src/main/top/kindless/search/bst/BST.java:122-126 | the keys in `[lo, hi]` in ascending order, none when `hi < lo` |
| Bst.BST.Keys | src/main/top/kindless/search/OrderedST.java:84-86 | `keys(min(), max())` is every key in ascending order |
| Bst.BST.SizeBetween | src/main/top/kindless/search/OrderedST.java:65-73 | 0 when `hi < lo`; otherwise the keys in `[lo, hi]`, less one when `hi` is stored with a null value, because `contains(hi)` is then false |
| Bst.BST.Put | src/main/top/kindless/search/bst/BST.java:129-131 | the pair replaces the old pair with its key or joins in key order; order and counts stay right; the size grows by one exactly for a new key |
| Bst.BST.Get | src/main/top/kindless/search/bst/BST.java:134-136 | the loop answers the value of `k`, or null when `k` is absent |
| Bst.BST.Contains | src/main/top/kindless/search/ST.java:44-46 | `get` answers non-null |
| Bst.BST.IsEmpty | src/main/top/kindless/search/ST.java:52-54 | the tree has no pairs |
| Bst.BST.ForEach | src/main/top/kindless/search/bst/BST.java:144-147 | a null action throws; otherwise the action sees every pair once, in ascending key order |
| Bst.BST.DeleteMin | src/main/top/kindless/search/bst/BST.java:168-172 | nothing on an empty tree; otherwise the least pair goes |
| Bst.BST.DeleteMax | src/main/top/kindless/search/bst/BST.java:183-187 | nothing on an empty tree; otherwise the greatest pair goes |
| Bst.BST.Delete | src/main/top/kindless/search/bst/BST.java:198-200 | exactly the key's pair goes, the size drops by one exactly when it was present, and an absent key leaves the tree as it was |
| RedBlack.Resize | src/main/top/kindless/search/redblackbst/RedBlackBST.java:218-220 | `resize` sets the count to one more than the children's and keeps the pairs |
| RedBlack.RotateLeft | src/main/top/kindless/search/redblackbst/RedBlackBST.java:182-191 | `rotateLeft` keeps the pairs in order |
| RedBlack.RotateRight | src/main/top/kindless/search/redblackbst/RedBlackBST.java:201-210 | `rotateRight` keeps the pairs in order |
| RedBlack.RotateLeftSizes | src/main/top/kindless/search/redblackbst/RedBlackBST.java:182-191 | after `rotateLeft` the subtrees' counts are right and the new root takes the old count |
| RedBlack.RotateRightSizes | src/main/top/kindless/search/redblackbst/RedBlackBST.java:201-210 | after `rotateRight` the subtrees' counts are right and the new root takes the old count |
| RedBlack.FlipColors | src/main/top/kindless/search/redblackbst/RedBlackBST.java:212-216 | `flipColors` as written makes the node red and both children black, keeping the pairs |
| RedBlack.InvertColors | src/main/top/kindless/search/redblackbst/RedBlackBST.java:212-216 | the corrected flip inverts each of the three colours, keeping the pairs |
| RedBlack.FlipWith | src/main/top/kindless/search/redblackbst/RedBlackBST.java:212-216 | the flip dereferences both children: it fails with a null pointer exactly when one is null |
| RedBlack.SizesOkCount | src/main/top/kindless/search/redblackbst/RedBlackBST.java:222-224 | with right counts, `size(node)` is the number of pairs below it |
| RedBlack.PutFixupSizes | src/main/top/kindless/search/redblackbst/RedBlackBST.java:165-171 | the rotations, flip and `resize` at the end of `put(Node, ...)` leave every count right |
| RedBlack.PutSizes | src/main/top/kindless/search/redblackbst/RedBlackBST.java:156-173 | `put(Node, ...)` keeps every count right |
| RedBlack.PutElements | src/main/top/kindless/search/redblackbst/RedBlackBST.java:156-173 | `put(Node, ...)` puts the pair where an ordered insert would |
| RedBlack.PutFixupBlack | src/main/top/kindless/search/redblackbst/RedBlackBST.java:165-171 | below a black node, the fix-up restores the red-black shape |
| RedBlack.PutFixupRed | src/main/top/kindless/search/redblackbst/RedBlackBST.java:165-171 | below a red node, the fix-up leaves at most a red left child |
| RedBlack.PutShape | src/main/top/kindless/search/redblackbst/RedBlackBST.java:156-173 | `put(Node, ...)` keeps the black height, and below a red link leaves at most a red left child |
| RedBlack.PutRootValid | src/main/top/kindless/search/redblackbst/RedBlackBST.java:34-37 | the public `put` keeps the tree ordered, with right counts, a black root and equal black height, and inserts the pair in key order |
| RedBlack.BlackenRB | src/main/top/kindless/search/redblackbst/RedBlackBST.java:36 | colouring a red-black root black keeps the shape, one black level higher when it was red |
| RedBlack.MoveRedLeft | src/main/top/kindless/search/redblackbst/RedBlackBST.java:269-280 | `moveRedLeft` keeps the pairs when it succeeds |
| RedBlack.MoveRedRight | src/main/top/kindless/search/redblackbst/RedBlackBST.java:284-293 | `moveRedRight` keeps the pairs when it succeeds |
| RedBlack.MoveRedLeftValid | src/main/top/kindless/search/redblackbst/RedBlackBST.java:269-280 | with the corrected flip, `moveRedLeft` on a red node over two black links gives the left subtree a red link at its top and keeps the shape and counts |
| RedBlack.MoveRedRightValid | src/main/top/kindless/search/redblackbst/RedBlackBST.java:284-293 | with the corrected flip, `moveRedRight` either turns the node black over two red children or rotates the pair into a right-leaning right child, keeping the shape and counts |
| RedBlack.Balance | src/main/top/kindless/search/redblackbst/RedBlackBST.java:318-327 | `balance` keeps the pairs |
| RedBlack.BalanceSizes | src/main/top/kindless/search/redblackbst/RedBlackBST.java:318-327 | `balance` makes the node's count right when its children's are |
| RedBlack.BalanceShape | src/main/top/kindless/search/redblackbst/RedBlackBST.java:318-327 | `balance` turns a node over two red-black subtrees of equal height into a red-black tree, red only when the node or both children were |
| RedBlack.MinNode | src/main/top/kindless/search/redblackbst/RedBlackBST.java:295-299 | `min(Node)` dereferences null on an empty tree and otherwise finds the first pair |
| RedBlack.MaxNode | src/main/top/kindless/search/redblackbst/RedBlackBST.java:301-305 | `max(Node)` dereferences null on an empty tree and otherwise finds the last pair |
| RedBlack.PrepLeftValid | src/main/top/kindless/search/redblackbst/RedBlackBST.java:311-312 | before a left descent, the left child is made red or given a red left child, with the pairs, counts and shape kept |
| RedBlack.PrepRightValid | src/main/top/kindless/search/redblackbst/RedBlackBST.java:255-256 | before a right descent, the right child is made red or given a red left child, with the pairs, counts and shape kept |
| RedBlack.DeleteMinValid | src/main/top/kindless/search/redblackbst/RedBlackBST.java:307-316 | with the corrected flip, `deleteMin(Node)` removes the first pair and keeps the black height and the counts |
| RedBlack.DeleteMaxValid | src/main/top/kindless/search/redblackbst/RedBlackBST.java:329-342 | with the corrected flip, `deleteMax(Node)` removes the last pair and keeps the black height and the counts |
| RedBlack.DeleteValid | src/main/top/kindless/search/redblackbst/RedBlackBST.java:242-267 | with the corrected flip, `delete(Node, Key)` of a present key removes exactly its pair, with the successor's pair taking a matched node's place, and keeps the black height and the counts |
| RedBlack.RedRootValid | src/main/top/kindless/search/redblackbst/RedBlackBST.java:74-76 | making the root red when both children are black readies it for every descent |
| RedBlack.BlackRootValid | src/main/top/kindless/search/redblackbst/RedBlackBST.java:79 | after a deletion, colouring a non-empty root black restores a valid tree |
| RedBlack.DeleteMinRootValid | src/main/top/kindless/search/redblackbst/RedBlackBST.java:120-129 | the public `deleteMin` throws on an empty table, otherwise removes the least pair and leaves a valid tree with a black root |
| RedBlack.DeleteMaxRootValid | src/main/top/kindless/search/redblackbst/RedBlackBST.java:132-141 | the public `deleteMax` throws on an empty table, otherwise removes the greatest pair and leaves a valid tree with a black root |
| RedBlack.DeleteRootValid | src/main/top/kindless/search/redblackbst/RedBlackBST.java:74-79 | the public `delete` of a present key removes exactly its pair and leaves a valid tree with a black root |
| RedBlack.PutThreeKeys | src/main/top/kindless/search/redblackbst/RedBlackBST.java:34-37 | `put(0)`, `put(1)`, `put(2)` on an empty tree build a black root over two black leaves |
| RedBlack.OverwriteDeleteMinUnbalanced | src/main/top/kindless/search/redblackbst/RedBlackBST.java:212-216 | with `flipColors` as written, `deleteMin` on those three keys leaves paths of different black heights |
| RedBlack.OverwriteDeleteMaxUnbalanced | src/main/top/kindless/search/redblackbst/RedBlackBST.java:212-216 | with `flipColors` as written, `deleteMax` on those three keys leaves paths of different black heights |
| RedBlack.PutFourKeys | src/main/top/kindless/search/redblackbst/RedBlackBST.java:34-37 | `put(3)` on those three keys builds a four-key tree |
| RedBlack.OverwriteDeleteNullPointer | src/main/top/kindless/search/redblackbst/RedBlackBST.java:269-280 | with `flipColors` as written, `delete(0)` on four keys dereferences a null link inside `moveRedLeft` |
| RedBlack.GetNode | src/main/top/kindless/search/redblackbst/RedBlackBST.java:40-51 | in an ordered tree the answer for `k` lies at the node, on its left or on its right, as the comparison says |
| RedBlack.RedBlackBST.constructor | src/main/top/kindless/search/redblackbst/RedBlackBST.java:16 | a new tree is empty |
| RedBlack.RedBlackBST.Put | src/main/top/kindless/search/redblackbst/RedBlackBST.java:34-37 | the pair replaces the old pair with its key or joins in key order; `get(k)` then answers `v`; the size grows by one exactly for a new key; the root is black and the tree valid |
| RedBlack.GetTree | src/main/top/kindless/search/redblackbst/RedBlackBST.java:40-51 | in an ordered tree the descent answers the value of `k`, or null at a null link when `k` is absent |
| RedBlack.InorderVisit | src/main/top/kindless/search/redblackbst/RedBlackBST.java:226-240 | the walk hands the action every pair in ascending key order |
| RedBlack.RedBlackBST.Get | src/main/top/kindless/search/redblackbst/RedBlackBST.java:40-51 | the loop answers the value of `k`, or null when `k` is absent |
| RedBlack.RedBlackBST.Contains | src/main/top/kindless/search/ST.java:44-46 | `get` answers non-null |
| RedBlack.RedBlackBST.IsEmpty | src/main/top/kindless/search/ST.java:52-54 | the tree has no pairs |
| RedBlack.RedBlackBST.Size | src/main/top/kindless/search/redblackbst/RedBlackBST.java:54-56 | the root's count is the number of pairs |
| RedBlack.RedBlackBST.ForEach | src/main/top/kindless/search/redblackbst/RedBlackBST.java:64-67 | a null action throws; otherwise the action sees every pair once, in ascending key order |
| RedBlack.RedBlackBST.Delete | src/main/top/kindless/search/redblackbst/RedBlackBST.java:70-80 | a null key is an illegal argument; a key whose `get` is null changes nothing; otherwise exactly its pair goes and the size drops by one |
| RedBlack.RedBlackBST.Min | src/main/top/kindless/search/redblackbst/RedBlackBST.java:83-86 | an empty table throws; otherwise the least key |
| RedBlack.RedBlackBST.Max | src/main/top/kindless/search/redblackbst/RedBlackBST.java:89-92 | an empty table throws; otherwise the greatest key |
| RedBlack.RedBlackBST.DeleteMin | src/main/top/kindless/search/redblackbst/RedBlackBST.java:120-129 | an empty table throws; otherwise the least pair goes and the tree stays valid |
| RedBlack.RedBlackBST.DeleteMax | src/main/top/kindless/search/redblackbst/RedBlackBST.java:132-141 | an empty table throws; otherwise the greatest pair goes and the tree stays valid |
| SeparateChaining.BucketSize | src/main/top/kindless/search/hash/SeparateChainingHashST.java:149 | the `size()` of a bucket, chain or tree, is the number of pairs it holds |
| SeparateChaining.BucketPut | src/main/top/kindless/search/hash/SeparateChainingHashST.java:152 | a bucket's own `put` keeps it a valid chain or a valid tree |
| SeparateChaining.BucketPutSpec | src/main/top/kindless/search/hash/SeparateChainingHashST.java:152 | after the bucket's `put`, `k` reads `v` and the other keys read as before; the bucket grows by one pair exactly when `k` was new |
| SeparateChaining.BucketPutKeys | src/main/top/kindless/search/hash/SeparateChainingHashST.java:152 | after the bucket's `put` it holds exactly its old keys and `k` |
| SeparateChaining.BucketDelete | src/main/top/kindless/search/hash/SeparateChainingHashST.java:168 | a bucket's own `delete` keeps it a valid chain or a valid tree of the same kind |
| SeparateChaining.BucketDeleteSpec | src/main/top/kindless/search/hash/SeparateChainingHashST.java:168 | after the bucket's `delete`, `k` reads null and the other keys read as before |
| SeparateChaining.BucketDeleteKeys | src/main/top/kindless/search/hash/SeparateChainingHashST.java:168 | the bucket's `delete` keeps every other key and adds none |
| SeparateChaining.Mask31 | src/main/top/kindless/search/hash/SeparateChainingHashST.java:327 | `hashCode() & 0x7fffffff` is non-negative: the code itself when non-negative, the code plus 2^31 otherwise |
| SeparateChaining.Index | src/main/top/kindless/search/hash/SeparateChainingHashST.java:327 | the masked hash code modulo M is a bucket index |
| SeparateChaining.Threshold | src/main/top/kindless/search/hash/SeparateChainingHashST.java:125 | `(int) (loadFactor * M)` lies between 0 and M for a load factor in (0, 1] |
| SeparateChaining.ThresholdFloor | src/main/top/kindless/search/hash/SeparateChainingHashST.java:125 | the threshold is the whole part of `loadFactor * M` |
| SeparateChaining.FilledResized | src/main/top/kindless/search/hash/SeparateChainingHashST.java:275-286 | `resize` fills no more buckets |
| SeparateChaining.FlattenResized | src/main/top/kindless/search/hash/SeparateChainingHashST.java:275-286 | after `resize`, `forEach` visits the same pairs in the same order |
| SeparateChaining.FlattenMembers | src/main/top/kindless/search/hash/SeparateChainingHashST.java:213-215 | `forEach` visits a pair exactly when some bucket holds it |
| SeparateChaining.FlattenCount | src/main/top/kindless/search/hash/SeparateChainingHashST.java:249-255 | the bucket sizes add up to the number of pairs `forEach` visits |
| SeparateChaining.TreeCountMono | src/main/top/kindless/search/hash/SeparateChainingHashST.java:311-315 | with buckets only ever turned into trees, the number of trees cannot fall |
| SeparateChaining.PlacedGet | src/main/top/kindless/search/hash/SeparateChainingHashST.java:181-183 | when every key is in the bucket `hash` selects, that bucket answers `get` as the whole table does |
| SeparateChaining.PlacedDistinct | src/main/top/kindless/search/hash/SeparateChainingHashST.java:199-203 | when every key is in the bucket `hash` selects, `forEach` visits each key once |
| SeparateChaining.ResizeLosesKey | src/main/top/kindless/search/hash/SeparateChainingHashST.java:275-286 | a one-bucket table under an odd hash code: after `resize` the key stays in bucket 0, `hash` selects bucket 1, and `get` answers null although `forEach` still visits the pair |
| SeparateChaining.BucketGet | src/main/top/kindless/search/hash/SeparateChainingHashST.java:182 | the bucket's own `get`, the chain's walk or the tree's descent, answers the value the bucket pairs with `k`, or null |
| SeparateChaining.PutPair | src/main/top/kindless/search/hash/SeparateChainingHashST.java:152 | the bucket's own `put` answers as a symbol table's `put`; a chain becomes the chain's `put` and a tree holds the ordered insert of the pair |
| SeparateChaining.PutBucket | src/main/top/kindless/search/hash/SeparateChainingHashST.java:152-155 | the bucket's `put`, then `treeify` once it holds 8 pairs: the result answers the `put`, and is a tree exactly when the bucket was one or has reached 8 pairs; a chain that stays a chain is the chain's own `put`, so `forEach` sees its pairs in that order |
| SeparateChaining.TreeifiedAnswers | src/main/top/kindless/search/hash/SeparateChainingHashST.java:153-155 | a tree holding the same pairs as the bucket answers every key as the bucket does |
| SeparateChaining.DeletePair | src/main/top/kindless/search/hash/SeparateChainingHashST.java:168 | the bucket's own `delete` answers as a symbol table's `delete`, and keeps the bucket's kind |
| SeparateChaining.PutTable | src/main/top/kindless/search/hash/SeparateChainingHashST.java:149-152 | in a table whose keys are reachable, putting into the key's bucket keeps them reachable, and the whole table answers the `put` |
| SeparateChaining.DeleteTable | src/main/top/kindless/search/hash/SeparateChainingHashST.java:168 | in a table whose keys are reachable, deleting in the key's bucket keeps them reachable, and the whole table answers the `delete` |
| SeparateChaining.ChainsPut | src/main/top/kindless/search/hash/SeparateChainingHashST.java:149-152 | after a put, the buckets stay valid, with `filledNum` raised by one exactly when the bucket was empty |
| SeparateChaining.ChainsDelete | src/main/top/kindless/search/hash/SeparateChainingHashST.java:167-170 | after a delete, the buckets stay valid and `filledNum` still bounds the filled buckets |
| SeparateChaining.PutStep | src/main/top/kindless/search/hash/SeparateChainingHashST.java:149-155 | the key's bucket taking the `put` changes only that bucket, adds one pair exactly for a new key, and keeps a reachable table reachable and answering the `put` |
| SeparateChaining.DeleteStep | src/main/top/kindless/search/hash/SeparateChainingHashST.java:168 | the key's bucket taking the `delete` changes only that bucket, and keeps a reachable table reachable and answering the `delete` |
| SeparateChaining.SeparateChainingHashST.constructor | src/main/top/kindless/search/hash/SeparateChainingHashST.java:118-130 | for valid arguments: M empty chains, `threshold = (int) (loadFactor * M)`, zero counters |
| SeparateChaining.NewSeparateChainingHashST | src/main/top/kindless/search/hash/SeparateChainingHashST.java:118-130 | fewer than one bucket, or a load factor outside (0, 1], is an initialisation error; otherwise M empty chains |
| SeparateChaining.NewWithBuckets | src/main/top/kindless/search/hash/SeparateChainingHashST.java:105-107 | M buckets with the default load factor 0.75 |
| SeparateChaining.NewDefault | src/main/top/kindless/search/hash/SeparateChainingHashST.java:101-103 | 997 buckets with load factor 0.75, so a threshold of 747 |
| SeparateChaining.EmptyChains | src/main/top/kindless/search/hash/SeparateChainingHashST.java:126-129 | M new empty chains: valid, holding no pair, every key reachable |
| SeparateChaining.SeparateChainingHashST.Hash | src/main/top/kindless/search/hash/SeparateChainingHashST.java:326-328 | 0 for a null key, otherwise the masked hash code modulo M; always in `[0, M)` |
| SeparateChaining.SeparateChainingHashST.Put | src/main/top/kindless/search/hash/SeparateChainingHashST.java:144-157 | a resize first when `filledNum >= threshold`; then the key's bucket takes the `put`, becoming a tree at 8 pairs; `filledNum` rises exactly when that bucket was empty and `N` always rises; without a resize a reachable table stays reachable and answers `get(k) == v` |
| SeparateChaining.SeparateChainingHashST.ResizeIfFull | src/main/top/kindless/search/hash/SeparateChainingHashST.java:146-148 | the resize happens exactly when `filledNum` has reached `threshold` |
| SeparateChaining.SeparateChainingHashST.PutAt | src/main/top/kindless/search/hash/SeparateChainingHashST.java:149-155 | reports whether the bucket was empty, and the bucket takes the `put` and `treeify` |
| SeparateChaining.SeparateChainingHashST.Count | src/main/top/kindless/search/hash/SeparateChainingHashST.java:149-156 | `filledNum` rises when the bucket was empty and `N` rises by one, with nothing else changed |
| SeparateChaining.SeparateChainingHashST.SetBucket | src/main/top/kindless/search/hash/SeparateChainingHashST.java:313 | the bucket at index `h` is replaced, and nothing else |
| SeparateChaining.SeparateChainingHashST.Resize | src/main/top/kindless/search/hash/SeparateChainingHashST.java:275-286 | M doubles; old buckets keep their indices, new empty chains fill the rest, nothing is rehashed; `threshold` is recomputed and `filledNum` unchanged |
| SeparateChaining.Grown | src/main/top/kindless/search/hash/SeparateChainingHashST.java:276-283 | the two loops copy the old buckets to the same indices and fill the rest with new empty chains |
| SeparateChaining.SeparateChainingHashST.Delete | src/main/top/kindless/search/hash/SeparateChainingHashST.java:167-170 | the key's bucket deletes it; `N` drops by one whether or not a pair left; `filledNum` never drops; a reachable table stays reachable and answers `delete` |
| SeparateChaining.SeparateChainingHashST.DeleteAt | src/main/top/kindless/search/hash/SeparateChainingHashST.java:168 | the key's bucket takes the `delete`, and nothing else changes |
| SeparateChaining.SeparateChainingHashST.Get | src/main/top/kindless/search/hash/SeparateChainingHashST.java:181-183 | the answer of the key's bucket, which is the table's answer while every key is reachable |
| SeparateChaining.SeparateChainingHashST.Contains | src/main/top/kindless/search/ST.java:44-46 | the key's bucket answers non-null |
| SeparateChaining.SeparateChainingHashST.Size | src/main/top/kindless/search/hash/SeparateChainingHashST.java:190-192 | `size()` is the counter `N` |
| SeparateChaining.SeparateChainingHashST.IsEmpty | src/main/top/kindless/search/ST.java:52-54 | `isEmpty` holds exactly when `N` is 0 |
| SeparateChaining.SeparateChainingHashST.ForEach | src/main/top/kindless/search/hash/SeparateChainingHashST.java:210-216 | a null action throws; otherwise the buckets in index order each visit their pairs, so the action sees exactly the pairs some bucket holds, each key once while every key is reachable |
| SeparateChaining.SeparateChainingHashST.Keys | src/main/top/kindless/search/hash/SeparateChainingHashST.java:199-203 | the keys `forEach` visits, in its order, without repeats while every key is reachable |
| SeparateChaining.SeparateChainingHashST.SizeOfEachButton | src/main/top/kindless/search/hash/SeparateChainingHashST.java:249-255 | M sizes, one per bucket in index order, adding up to the number of pairs |
| SeparateChaining.SeparateChainingHashST.TreeNum | src/main/top/kindless/search/hash/SeparateChainingHashST.java:261-268 | the number of tree buckets, at most M |
| SeparateChaining.TreeOf | src/main/top/kindless/search/hash/SeparateChainingHashST.java:311-315 | `treeify`: a new red-black tree receives the bucket's pairs one by one and ends up holding exactly them |
| SeparateChaining.TreeifyStep | src/main/top/kindless/search/hash/SeparateChainingHashST.java:314 | each put of `treeify` adds the next pair to the tree |

## Left out

- The background thread of the `ArrayST` constructor, and the
  `collectGarbage` it runs, are left out: they are concurrency.
- `SequentialSearchST.collectGarbage` is left out: it is private and never
  called.
- `hugeCapacity`, `MAX_ARRAY_SIZE` and the overflow checks of `grow` are
  left out, with the `synchronized` block. Integers are unbounded here, so
  `N`, `M` and the capacities never wrap around.
- `SeparateChainingHashST.loadFactor()` is left out: it is a floating-point
  quotient used only for display. The load factor itself is an exact real,
  so `(int) (loadFactor * M)` has no rounding error.
- `SeparateChainingHashST.forEach` prints its action, and `toString`
  formats the table. Both are I/O and are left out.
- The `ConcurrentModificationException` catch blocks in the traversals are
  left out: they cannot fire in sequential code.
- `Serializable` and the `@UnSafe` annotation are left out.
  `SymbolTableInitialException` is the error `InitialState`.
- `RedBlackBST.floor`, `ceiling`, `rank`, `select`, `keys()` and
  `keys(lo, hi)` are left out: they are stubs answering null or 0.
- Null keys are left out where the Java code does not test for them:
  `put` and `get` of `SequentialSearchST`, `BST`, `RedBlackBST` and the hash
  table, and `delete` of `BST`. There the code accepts a
  null key, and a `NullPointerException` comes only later, at a comparison.
  `SequentialSearchST.put(null, v)` links a null-keyed node at the head,
  and a later walk that reaches it throws from `x.k.equals(k)`. `BST` and
  `RedBlackBST` store a null key in an empty tree, and throw from
  `compareTo` once the tree has a node. The hash table sends a null key to
  bucket 0 (`SeparateChaining.SeparateChainingHashST.Hash`), where the
  chain stores it. The model takes only non-null keys for these members.
  The `delete` of `SequentialSearchST` and `RedBlackBST` tests for a null
  key, and the model has that error case. The hash table's `delete` passes
  a null key on to bucket 0, whose own `delete` then throws; the hash table
  model takes a non-null key there too.
- Aliasing is not modelled. Nodes and buckets are values owned by one
  parent, as in the Java code. The in-place updates of nodes become
  functions returning the new subtree, and `treeify` replaces its bucket
  by a new value.
- SeparateChaining.SeparateChainingHashST.Put: the contract does not claim
  that `get` finds every key after a resize, because the code does not
  rehash. It claims the symbol-table answers only while no resize
  happened (`PutPlaced`).
- SeparateChaining.SeparateChainingHashST.Put: the bucket write happens
  before the counter updates (`PutAt`, then `Count`), while the Java code
  raises `filledNum` before it puts. No other code runs in between, so the
  final state is the same.
- RedBlack.RedBlackBST.Delete: the class uses `flipColors` with inverted
  colours inside `moveRedLeft` and `moveRedRight` (the corrected half of
  the first finding). The colour flip as written is modelled by the
  `Overwrite` mode and its counterexamples.
- RedBlack.RedBlackBST.DeleteMin: uses the flip that inverts the colours
  inside `moveRedLeft` (the corrected half of the first finding). The code
  as written leaves the keys {0, 1, 2} without an equal black height
  (`RedBlack.OverwriteDeleteMinUnbalanced`).
- RedBlack.RedBlackBST.DeleteMax: uses the flip that inverts the colours
  inside `moveRedRight` (the corrected half of the first finding). The code
  as written leaves the keys {0, 1, 2} without an equal black height
  (`RedBlack.OverwriteDeleteMaxUnbalanced`).
- SeparateChaining.BucketDelete: a tree bucket deletes with the corrected
  `RedBlackBST.delete` (the inverted flip), where the hash table calls the
  `delete` as written, which can unbalance the tree or dereference null
  (`RedBlack.OverwriteDeleteNullPointer`). The same holds for
  `SeparateChaining.BucketDeleteSpec`, `SeparateChaining.BucketDeleteKeys`
  and `SeparateChaining.DeletePair`, which are about it.
- SeparateChaining.SeparateChainingHashST.Delete: through `BucketDelete`,
  a tree bucket uses the corrected `RedBlackBST.delete`. The same holds
  for `SeparateChaining.SeparateChainingHashST.DeleteAt`.
- BinarySearch.BinarySearchST.Put: uses the corrected `grow` (the third
  finding), so from capacity 0 it succeeds. The code as written stays at
  capacity 0 and writes `keys[0]` out of bounds
  (`Common.GrowAsWrittenStuck`).
- Bst.BST.Ceiling: the class uses the corrected `ceiling` (the second
  finding). The code as written is `Bst.CeilingTreeAsWritten`.
- BinarySearch.BinarySearchST.EnsureCapacityInternal: uses the corrected
  `grow` (the third finding). The code as written is
  `Common.GrowAsWritten`.
- The test sources (interactive loops, timing, random keys) are left out.

## Findings

| source | as written | input that shows it | evidently intended | confidence | as-written member | corrected member |
|---|---|---|---|---|---|---|
| src/main/top/kindless/search/redblackbst/RedBlackBST.java:212-216 | `flipColors` always sets the node red and both children black; `moveRedLeft` and `moveRedRight` call it where the colours must be inverted (node black, children red) | `put(0, 0)`, `put(1, 1)`, `put(2, 2)`, then `deleteMin()`: the root keeps a null left link over a black right leaf, so the black heights differ. With one more `put(3, 3)`, `delete(0)` dereferences a null link inside `moveRedLeft` | the deletions flip each of the three colours, as in Sedgewick's left-leaning red-black tree | high, not executed | RedBlack.OverwriteDeleteMinUnbalanced, RedBlack.OverwriteDeleteMaxUnbalanced, RedBlack.OverwriteDeleteNullPointer | RedBlack.DeleteRootValid, RedBlack.DeleteMinRootValid, RedBlack.DeleteMaxRootValid |
| src/main/top/kindless/search/bst/BST.java:81-92 | `ceiling(K, Node)` calls `floor` in both recursive descents | the keys {1, 3} with root 3: `ceiling(2)` answers 1 | the descents call `ceiling`, answering the least key at least `k` (3 here) | high, not executed | Bst.CeilingAsWrittenBelow | Bst.CeilingSpec |
| src/main/top/kindless/search/binary/BinarySearchST.java:181-185 | `grow` guards with `newCapacity - oldCapacity < 0` where `ArrayList.grow` compares with `minCapacity`, so from capacity 0 the new capacity stays 0 | `new BinarySearchST(0)` then `put(1, v)`: `ensureCapacityInternal(1)` grows to 0 and the shift writes `keys[0]` out of bounds | the guard compares with `miniCapacity`, so `grow` never returns less than what was asked for | medium, not executed | Common.GrowAsWrittenStuck | Common.Grow, Common.GrowAgrees |
