# primitive: the red-black tree map and the skeletal int collection, in Dafny

This project models two parts of the `primitive` Java library (collections keyed by primitive `int`).

The first is `TreeIntObjectMap`, a red-black tree map from `int` keys to values. The model covers:
- the map operations: get, put, remove, clear, containsKey, containsValue, first/last key, poll;
- the balancing code: rotations, fixAfterInsertion, deleteEntry with its successor copy, and fixAfterDeletion;
- the navigation getters and successor/predecessor;
- the range views `NavigableSubMap`, `AscendingSubMap` and `DescendingSubMap`;
- the fail-fast iterators;
- the linear-time builder `buildFromSorted` and `computeRedLevel`.

The second is `AbstractIntCollection`, the skeleton whose algorithms work through a collection's iterator.

Files, one module each:
- `red_black.dfy` (`RedBlackTrees`): the tree and the red-black invariants. A node's position (a Java `Entry` reference with its parent link) is a cursor: the subtree at the node plus the frames of its ancestors, nearest first.
- `entry_lists.dfy` (`EntryLists`): the in-order entry sequence, and its map, key set, insertion and removal. These are the reference definitions the tree is proved against.
- `navigation.dfy` (`Navigation`): getEntry, the ceiling/floor/higher/lower getters, first/last and successor/predecessor, as loops over a cursor.
- `insertion.dfy` (`Insertion`), `deletion.dfy` (`Deletion`): the rebalancing loops, case by case.
- `build.dfy` (`Builds`): computeRedLevel and the recursive builder.
- `tree_map.dfy` (`TreeMaps`): the map class with `root`, `size` and `modCount`.
- `sub_maps.dfy` (`SubMaps`): range bounds and the view class.
- `iterators.dfy` (`Iterators`): the two iterator classes.
- `int_collection.dfy` (`IntCollections`): the collection skeleton and its `toString`.

The map's abstract state is `Contents()`, the finite map held by the in-order entry sequence `Entries(root)`. `Valid()` ties `size` to its length and requires the red-black invariants:
- strictly increasing keys in order;
- a black root;
- no red node with a red child;
- the same number of black nodes on every path.

Every mutating method keeps `Valid()`. A ghost `history` records the key set after each structural modification, indexed by `modCount`, so that an iterator's `expectedModCount` names the key set it was built against.

Keys follow the natural `int` order. The map compares with `Integer.compare` unless a comparator is given; the comparator is not part of this model.

## Model

| member | source | states |
|---|---|---|
| RedBlackTrees.RotateLeftEntries | src/main/io.github.andyalvarezdev.primitive/io/github/andyalvarezdev/primitive/maps/impl/TreeIntObjectMap.java:2615-2641 | `RotateLeft`, rotateLeft on the subtree it restructures, keeps the in-order sequence of (key, value) pairs |
| RedBlackTrees.RotateRightEntries | src/main/io.github.andyalvarezdev.primitive/io/github/andyalvarezdev/primitive/maps/impl/TreeIntObjectMap.java:2646-2672 | `RotateRight`, rotateRight on the subtree it restructures, keeps the in-order sequence of (key, value) pairs |
| RedBlackTrees.PlugEntries | src/main/io.github.andyalvarezdev.primitive/io/github/andyalvarezdev/primitive/maps/impl/TreeIntObjectMap.java:2401-2413 | the tree seen from any node lists the entries before the node's subtree, then that subtree, then the entries after it |
| RedBlackTrees.CursorEntry | src/main/io.github.andyalvarezdev.primitive/io/github/andyalvarezdev/primitive/maps/impl/TreeIntObjectMap.java:2401-2413 | the pair a node holds sits at its in-order index in the whole tree |
| RedBlackTrees.PlugBalanced | src/main/io.github.andyalvarezdev.primitive/io/github/andyalvarezdev/primitive/maps/impl/TreeIntObjectMap.java:2584-2610 | the whole tree has equal black heights exactly when the node's subtree does and every sibling on the way up has the height its level needs |
| RedBlackTrees.PlugNoRedRed | src/main/io.github.andyalvarezdev.primitive/io/github/andyalvarezdev/primitive/maps/impl/TreeIntObjectMap.java:2584-2610 | the whole tree has no red-red link exactly when the subtree has none and no link on the way up is red-red |
| RedBlackTrees.PlugColor | src/main/io.github.andyalvarezdev.primitive/io/github/andyalvarezdev/primitive/maps/impl/TreeIntObjectMap.java:2584-2592 | the root's colour, read from any node: its own colour at the root, otherwise the colour of the topmost ancestor |
| RedBlackTrees.LeftRightWhole | src/main/io.github.andyalvarezdev.primitive/io/github/andyalvarezdev/primitive/maps/impl/TreeIntObjectMap.java:2589-2610 | leftOf/rightOf then parentOf return to the node; what lies before and after each child |
| RedBlackTrees.FocusBounds | src/main/io.github.andyalvarezdev.primitive/io/github/andyalvarezdev/primitive/maps/impl/TreeIntObjectMap.java:2401-2413 | in a sorted tree every key before or in the left subtree is smaller, and every key in the right subtree or after is larger, than the node's key |
| RedBlackTrees.ReplacePair | src/main/io.github.andyalvarezdev.primitive/io/github/andyalvarezdev/primitive/maps/impl/TreeIntObjectMap.java:2448-2453 | overwriting a node's key and value overwrites one position of the in-order sequence and keeps shape and colours |
| EntryLists.MapOfKeys | src/main/io.github.andyalvarezdev.primitive/io/github/andyalvarezdev/primitive/maps/impl/TreeIntObjectMap.java:215-218 | the map's key set is the set of keys in the entry sequence |
| EntryLists.MapOfAt | src/main/io.github.andyalvarezdev.primitive/io/github/andyalvarezdev/primitive/maps/impl/TreeIntObjectMap.java:286-290 | in a sorted sequence every pair is the mapping the map holds for its key |
| EntryLists.ContentsOfEntries | src/main/io.github.andyalvarezdev.primitive/io/github/andyalvarezdev/primitive/maps/impl/TreeIntObjectMap.java:251-261 | in a sorted sequence every entry is a mapping and every mapping is an entry |
| EntryLists.KeyCount | src/main/io.github.andyalvarezdev.primitive/io/github/andyalvarezdev/primitive/maps/impl/TreeIntObjectMap.java:215-218 | a sorted sequence has one entry per key, so its length is the number of mappings |
| EntryLists.UpsertKeys | src/main/io.github.andyalvarezdev.primitive/io/github/andyalvarezdev/primitive/maps/impl/TreeIntObjectMap.java:626-700 | put adds its key to the key set and no other |
| EntryLists.UpsertSorted | src/main/io.github.andyalvarezdev.primitive/io/github/andyalvarezdev/primitive/maps/impl/TreeIntObjectMap.java:626-700 | put keeps the keys strictly increasing |
| EntryLists.UpsertMap | src/main/io.github.andyalvarezdev.primitive/io/github/andyalvarezdev/primitive/maps/impl/TreeIntObjectMap.java:626-700 | put maps the key to the new value and leaves every other mapping as it was |
| EntryLists.UpsertAt | src/main/io.github.andyalvarezdev.primitive/io/github/andyalvarezdev/primitive/maps/impl/TreeIntObjectMap.java:680-683 | put on a present key overwrites that key's position only |
| EntryLists.UpsertBetween | src/main/io.github.andyalvarezdev.primitive/io/github/andyalvarezdev/primitive/maps/impl/TreeIntObjectMap.java:687-695 | put on an absent key inserts the pair between the smaller and the larger keys |
| EntryLists.DeleteAbsent | src/main/io.github.andyalvarezdev.primitive/io/github/andyalvarezdev/primitive/maps/impl/TreeIntObjectMap.java:716-727 | remove of an absent key changes nothing |
| EntryLists.DeleteAt | src/main/io.github.andyalvarezdev.primitive/io/github/andyalvarezdev/primitive/maps/impl/TreeIntObjectMap.java:2734-2802 | removing the key at position i drops exactly that position |
| EntryLists.DeleteSorted | src/main/io.github.andyalvarezdev.primitive/io/github/andyalvarezdev/primitive/maps/impl/TreeIntObjectMap.java:716-727 | remove keeps the keys strictly increasing and takes out exactly its key |
| EntryLists.DeleteMap | src/main/io.github.andyalvarezdev.primitive/io/github/andyalvarezdev/primitive/maps/impl/TreeIntObjectMap.java:716-727 | remove unmaps its key and keeps every other mapping |
| EntryLists.MapOfSnoc | src/main/io.github.andyalvarezdev.primitive/io/github/andyalvarezdev/primitive/maps/impl/TreeIntObjectMap.java:3021-3095 | appending a pair under a new key adds exactly that mapping |
| Navigation.GetEntry | src/main/io.github.andyalvarezdev.primitive/io/github/andyalvarezdev/primitive/maps/impl/TreeIntObjectMap.java:362-388 | getEntry finds the node holding the key, or returns null exactly when no entry has that key |
| Navigation.DescendLeft | src/main/io.github.andyalvarezdev.primitive/io/github/andyalvarezdev/primitive/maps/impl/TreeIntObjectMap.java:434-443 | stepping left from a node above the key keeps every entry after the cursor at or above the key |
| Navigation.DescendRight | src/main/io.github.andyalvarezdev.primitive/io/github/andyalvarezdev/primitive/maps/impl/TreeIntObjectMap.java:482-491 | stepping right from a node below the key keeps every entry before the cursor at or below the key |
| Navigation.CeilingAtParent | src/main/io.github.andyalvarezdev.primitive/io/github/andyalvarezdev/primitive/maps/impl/TreeIntObjectMap.java:453-460 | when the climb leaves a left child, the parent holds the least key at or above the bound |
| Navigation.FloorAtParent | src/main/io.github.andyalvarezdev.primitive/io/github/andyalvarezdev/primitive/maps/impl/TreeIntObjectMap.java:501-508 | when the climb leaves a right child, the parent holds the greatest key at or below the bound |
| Navigation.ClimbRight | src/main/io.github.andyalvarezdev.primitive/io/github/andyalvarezdev/primitive/maps/impl/TreeIntObjectMap.java:453-460 | climbing parent links while coming from a right child finds the least key at or above the bound, or null exactly when every key is below it |
| Navigation.ClimbLeft | src/main/io.github.andyalvarezdev.primitive/io/github/andyalvarezdev/primitive/maps/impl/TreeIntObjectMap.java:501-508 | climbing while coming from a left child finds the greatest key at or below the bound, or null exactly when every key is above it |
| Navigation.GetCeilingEntry | src/main/io.github.andyalvarezdev.primitive/io/github/andyalvarezdev/primitive/maps/impl/TreeIntObjectMap.java:428-469 | the entry with the least key >= key; null iff every key is smaller |
| Navigation.GetFloorEntry | src/main/io.github.andyalvarezdev.primitive/io/github/andyalvarezdev/primitive/maps/impl/TreeIntObjectMap.java:476-518 | the entry with the greatest key <= key; null iff every key is larger |
| Navigation.GetHigherEntry | src/main/io.github.andyalvarezdev.primitive/io/github/andyalvarezdev/primitive/maps/impl/TreeIntObjectMap.java:526-563 | the entry with the least key > key; null iff no key is larger |
| Navigation.GetLowerEntry | src/main/io.github.andyalvarezdev.primitive/io/github/andyalvarezdev/primitive/maps/impl/TreeIntObjectMap.java:570-607 | the entry with the greatest key < key; null iff no key is smaller |
| Navigation.GetFirstEntry | src/main/io.github.andyalvarezdev.primitive/io/github/andyalvarezdev/primitive/maps/impl/TreeIntObjectMap.java:2482-2493 | the leftmost entry, at index 0, holding the least key; null iff the tree is empty |
| Navigation.GetLastEntry | src/main/io.github.andyalvarezdev.primitive/io/github/andyalvarezdev/primitive/maps/impl/TreeIntObjectMap.java:2499-2510 | the rightmost entry, at the last index, holding the greatest key; null iff the tree is empty |
| Navigation.RightmostIndex | src/main/io.github.andyalvarezdev.primitive/io/github/andyalvarezdev/primitive/maps/impl/TreeIntObjectMap.java:2499-2510 | a node with no right child and nothing after its subtree holds the last entry |
| Navigation.LeastFirst | src/main/io.github.andyalvarezdev.primitive/io/github/andyalvarezdev/primitive/maps/impl/TreeIntObjectMap.java:2482-2493 | the first entry of a sorted sequence has the least key |
| Navigation.GreatestLast | src/main/io.github.andyalvarezdev.primitive/io/github/andyalvarezdev/primitive/maps/impl/TreeIntObjectMap.java:2499-2510 | the last entry of a sorted sequence has the greatest key |
| Navigation.LeftmostStep | src/main/io.github.andyalvarezdev.primitive/io/github/andyalvarezdev/primitive/maps/impl/TreeIntObjectMap.java:2521-2528 | each step left keeps the cursor on the left spine of the right subtree |
| Navigation.Successor | src/main/io.github.andyalvarezdev.primitive/io/github/andyalvarezdev/primitive/maps/impl/TreeIntObjectMap.java:2515-2541 | successor is the entry at the next in-order index, or null exactly at the last; with a right child it is that subtree's leftmost node |
| Navigation.Predecessor | src/main/io.github.andyalvarezdev.primitive/io/github/andyalvarezdev/primitive/maps/impl/TreeIntObjectMap.java:2546-2572 | predecessor is the entry at the previous in-order index, or null exactly at the first |
| Insertion.RedParent | src/main/io.github.andyalvarezdev.primitive/io/github/andyalvarezdev/primitive/maps/impl/TreeIntObjectMap.java:2681-2685 | a red parent is not the root: the grandparent exists and is black |
| Insertion.RecolorKeeps | src/main/io.github.andyalvarezdev.primitive/io/github/andyalvarezdev/primitive/maps/impl/TreeIntObjectMap.java:2686-2691 | the red-uncle case keeps the entries and leaves at most one red-red link, now at the grandparent |
| Insertion.RotateUpLeftKeeps | src/main/io.github.andyalvarezdev.primitive/io/github/andyalvarezdev/primitive/maps/impl/TreeIntObjectMap.java:2695-2698 | moving up and rotating left at the parent keeps the entries and puts the red link on the left |
| Insertion.RotateUpRightKeeps | src/main/io.github.andyalvarezdev.primitive/io/github/andyalvarezdev/primitive/maps/impl/TreeIntObjectMap.java:2717-2720 | the mirror case keeps the entries and puts the red link on the right |
| Insertion.RotateGrandRightKeeps | src/main/io.github.andyalvarezdev.primitive/io/github/andyalvarezdev/primitive/maps/impl/TreeIntObjectMap.java:2700-2702 | recolouring and rotating right at the grandparent keeps the entries and removes the red-red link |
| Insertion.RotateGrandLeftKeeps | src/main/io.github.andyalvarezdev.primitive/io/github/andyalvarezdev/primitive/maps/impl/TreeIntObjectMap.java:2722-2724 | the mirror rotation at the grandparent keeps the entries and removes the red-red link |
| Insertion.FixAfterInsertion | src/main/io.github.andyalvarezdev.primitive/io/github/andyalvarezdev/primitive/maps/impl/TreeIntObjectMap.java:2677-2729 | after a new red node is linked in, the loop returns a root with the same entries, equal black heights, no red-red link and a black root |
| RedBlackTrees.ThreeEntryShape | src/main/io.github.andyalvarezdev.primitive/io/github/andyalvarezdev/primitive/maps/impl/TreeIntObjectMap.java:2677-2729 | any tree of three entries that keeps equal black heights and no red-red link, as the rebalancing leaves it, has the middle entry at its root and one entry on each side |
| Deletion.ParentFacts | src/main/io.github.andyalvarezdev.primitive/io/github/andyalvarezdev/primitive/maps/impl/TreeIntObjectMap.java:2809-2813 | what every case reads about a node one black short: its sibling exists, is one black taller and is black under a red parent |
| Deletion.RedSiblingLeftKeeps | src/main/io.github.andyalvarezdev.primitive/io/github/andyalvarezdev/primitive/maps/impl/TreeIntObjectMap.java:2815-2820 | case 1, left: rotating the red sibling up keeps the entries and leaves a black sibling under a red parent |
| Deletion.RedSiblingRightKeeps | src/main/io.github.andyalvarezdev.primitive/io/github/andyalvarezdev/primitive/maps/impl/TreeIntObjectMap.java:2848-2853 | case 1, right: the mirror image |
| Deletion.RecolorUpKeeps | src/main/io.github.andyalvarezdev.primitive/io/github/andyalvarezdev/primitive/maps/impl/TreeIntObjectMap.java:2823-2826 | case 2: painting the sibling red moves the deficit to the parent and keeps the entries |
| Deletion.NearNephewLeftKeeps | src/main/io.github.andyalvarezdev.primitive/io/github/andyalvarezdev/primitive/maps/impl/TreeIntObjectMap.java:2830-2835 | case 3, left: rotating at the sibling makes its far child red and keeps the entries |
| Deletion.NearNephewRightKeeps | src/main/io.github.andyalvarezdev.primitive/io/github/andyalvarezdev/primitive/maps/impl/TreeIntObjectMap.java:2863-2868 | case 3, right: the mirror image |
| Deletion.FarNephewLeftKeeps | src/main/io.github.andyalvarezdev.primitive/io/github/andyalvarezdev/primitive/maps/impl/TreeIntObjectMap.java:2837-2841 | case 4, left: the rotation at the parent ends the loop with a balanced tree and the same entries |
| Deletion.FarNephewRightKeeps | src/main/io.github.andyalvarezdev.primitive/io/github/andyalvarezdev/primitive/maps/impl/TreeIntObjectMap.java:2869-2874 | case 4, right: the mirror image |
| Deletion.FixLeftStep | src/main/io.github.andyalvarezdev.primitive/io/github/andyalvarezdev/primitive/maps/impl/TreeIntObjectMap.java:2811-2843 | one pass of the loop at a left child keeps the entries and the one-black deficit, and either climbs a level or ends at a red node |
| Deletion.FixRightStep | src/main/io.github.andyalvarezdev.primitive/io/github/andyalvarezdev/primitive/maps/impl/TreeIntObjectMap.java:2844-2876 | the mirror pass at a right child keeps the entries and the deficit, and either climbs a level or ends at a red node |
| Deletion.FixAfterDeletion | src/main/io.github.andyalvarezdev.primitive/io/github/andyalvarezdev/primitive/maps/impl/TreeIntObjectMap.java:2807-2880 | starting from a subtree one black node short, the loop returns a root with the same entries that is balanced, has no red-red link and is black |
| Deletion.BeforeLeftRun | src/main/io.github.andyalvarezdev.primitive/io/github/andyalvarezdev/primitive/maps/impl/TreeIntObjectMap.java:2521-2528 | a run of left links adds nothing before the node reached |
| Deletion.CopySuccessor | src/main/io.github.andyalvarezdev.primitive/io/github/andyalvarezdev/primitive/maps/impl/TreeIntObjectMap.java:2739-2746 | a node with two children receives its successor's key and value; the sequence then holds the successor's pair twice, at index i and i + 1 |
| Deletion.UnlinkEntries | src/main/io.github.andyalvarezdev.primitive/io/github/andyalvarezdev/primitive/maps/impl/TreeIntObjectMap.java:2750-2799 | unlinking a node with at most one child drops exactly its position from the in-order sequence |
| Deletion.UnlinkShape | src/main/io.github.andyalvarezdev.primitive/io/github/andyalvarezdev/primitive/maps/impl/TreeIntObjectMap.java:2773-2786 | unlinking a black node leaves its replacement one black short; unlinking a red node keeps the red-black shape |
| Deletion.DropAfterCopy | src/main/io.github.andyalvarezdev.primitive/io/github/andyalvarezdev/primitive/maps/impl/TreeIntObjectMap.java:2739-2746 | after the copy, dropping the successor's old position equals dropping the deleted position |
| Deletion.SortedDrop | src/main/io.github.andyalvarezdev.primitive/io/github/andyalvarezdev/primitive/maps/impl/TreeIntObjectMap.java:2734-2802 | dropping one position keeps a sorted sequence sorted |
| Deletion.UnlinkTarget | src/main/io.github.andyalvarezdev.primitive/io/github/andyalvarezdev/primitive/maps/impl/TreeIntObjectMap.java:2741-2750 | the node deleteEntry finally unlinks has at most one child, and unlinking it leaves the original sequence without the deleted entry |
| Deletion.DeleteNode | src/main/io.github.andyalvarezdev.primitive/io/github/andyalvarezdev/primitive/maps/impl/TreeIntObjectMap.java:2734-2802 | deleteEntry leaves a red-black tree whose sequence is the old one without the deleted entry |
| Builds.RoundsBounds | src/main/io.github.andyalvarezdev.primitive/io/github/andyalvarezdev/primitive/maps/impl/TreeIntObjectMap.java:3106-3114 | computeRedLevel's count of m := m/2 - 1 from sz - 1 is the level with 2^level <= sz + 1 < 2^(level+1) |
| Builds.ComputeRedLevel | src/main/io.github.andyalvarezdev.primitive/io/github/andyalvarezdev/primitive/maps/impl/TreeIntObjectMap.java:3106-3114 | the loop returns that level, and 0 when there are no entries |
| Builds.Build | src/main/io.github.andyalvarezdev.primitive/io/github/andyalvarezdev/primitive/maps/impl/TreeIntObjectMap.java:3021-3095 | building from positions lo..hi consumes exactly hi - lo + 1 input pairs in order; the result is balanced, with no red-red link, and only nodes on the red level are red |
| Builds.BuildFromSorted | src/main/io.github.andyalvarezdev.primitive/io/github/andyalvarezdev/primitive/maps/impl/TreeIntObjectMap.java:3000-3004 | the built tree lists exactly the input pairs, is balanced, has no red-red link and has a black root |
| TreeMaps.CursorMapping | src/main/io.github.andyalvarezdev.primitive/io/github/andyalvarezdev/primitive/maps/impl/TreeIntObjectMap.java:362-388 | the pair a node in the tree holds is a mapping of the map |
| TreeMaps.ExportEntry | src/main/io.github.andyalvarezdev.primitive/io/github/andyalvarezdev/primitive/maps/impl/TreeIntObjectMap.java:1496-1499 | null for a null entry, otherwise a copy of the entry that is one of the tree's in-order pairs, with the same key |
| TreeMaps.KeyOrNull | src/main/io.github.andyalvarezdev.primitive/io/github/andyalvarezdev/primitive/maps/impl/TreeIntObjectMap.java:1504-1507 | the entry's key, which the tree holds; a null entry becomes NullPointerException, since the null result cannot be unboxed to int |
| TreeMaps.Key | src/main/io.github.andyalvarezdev.primitive/io/github/andyalvarezdev/primitive/maps/impl/TreeIntObjectMap.java:1514-1521 | the entry's key, which the tree holds; NoSuchElementException for a null entry |
| TreeMaps.FirstKeys | src/main/io.github.andyalvarezdev.primitive/io/github/andyalvarezdev/primitive/maps/impl/TreeIntObjectMap.java:2482-2493 | getFirstEntry, read on the map: the least key and its value, or null when empty |
| TreeMaps.LastKeys | src/main/io.github.andyalvarezdev.primitive/io/github/andyalvarezdev/primitive/maps/impl/TreeIntObjectMap.java:2499-2510 | getLastEntry, read on the map: the greatest key and its value, or null when empty |
| TreeMaps.AboveKeys | src/main/io.github.andyalvarezdev.primitive/io/github/andyalvarezdev/primitive/maps/impl/TreeIntObjectMap.java:428-469 | getCeilingEntry and getHigherEntry, read on the map: the least key at or above (above) the key, or null |
| TreeMaps.BelowKeys | src/main/io.github.andyalvarezdev.primitive/io/github/andyalvarezdev/primitive/maps/impl/TreeIntObjectMap.java:476-518 | getFloorEntry and getLowerEntry, read on the map: the greatest key at or below (below) the key, or null |
| TreeMaps.SetValueFacts | src/main/io.github.andyalvarezdev.primitive/io/github/andyalvarezdev/primitive/maps/impl/TreeIntObjectMap.java:2448-2453 | setValue on a found node updates the mapping at that key, keeps the size and keeps the tree red-black |
| TreeMaps.LinkFacts | src/main/io.github.andyalvarezdev.primitive/io/github/andyalvarezdev/primitive/maps/impl/TreeIntObjectMap.java:687-699 | linking a new node where the search fell off gives the put sequence, sorted, one longer, with the key new |
| TreeMaps.LinkEntries | src/main/io.github.andyalvarezdev.primitive/io/github/andyalvarezdev/primitive/maps/impl/TreeIntObjectMap.java:687-695 | the tree with the new node linked in lists the old entries with the pair inserted in order |
| TreeMaps.AbsentKey | src/main/io.github.andyalvarezdev.primitive/io/github/andyalvarezdev/primitive/maps/impl/TreeIntObjectMap.java:362-388 | a key no entry holds is not mapped |
| TreeMaps.TreeIntObjectMap.constructor | src/main/io.github.andyalvarezdev.primitive/io/github/andyalvarezdev/primitive/maps/impl/TreeIntObjectMap.java:139-142 | a new map is empty (no entries, no mappings), with modCount 0 |
| TreeMaps.TreeIntObjectMap.FromSorted | src/main/io.github.andyalvarezdev.primitive/io/github/andyalvarezdev/primitive/maps/impl/TreeIntObjectMap.java:192-205 | the map built from a sorted map lists its entries in order |
| TreeMaps.TreeIntObjectMap.Size | src/main/io.github.andyalvarezdev.primitive/io/github/andyalvarezdev/primitive/maps/impl/TreeIntObjectMap.java:215-218 | size is the number of mappings |
| TreeMaps.TreeIntObjectMap.Get | src/main/io.github.andyalvarezdev.primitive/io/github/andyalvarezdev/primitive/maps/impl/TreeIntObjectMap.java:286-290 | get gives the mapped value, or null when the key is absent |
| TreeMaps.TreeIntObjectMap.ContainsKey | src/main/io.github.andyalvarezdev.primitive/io/github/andyalvarezdev/primitive/maps/impl/TreeIntObjectMap.java:233-236 | true iff the key is mapped |
| TreeMaps.TreeIntObjectMap.ContainsValue | src/main/io.github.andyalvarezdev.primitive/io/github/andyalvarezdev/primitive/maps/impl/TreeIntObjectMap.java:251-261 | true iff some key maps to the value; the successor walk meets every entry |
| TreeMaps.TreeIntObjectMap.FirstKey | src/main/io.github.andyalvarezdev.primitive/io/github/andyalvarezdev/primitive/maps/impl/TreeIntObjectMap.java:300-303 | the least key; NoSuchElementException when empty |
| TreeMaps.TreeIntObjectMap.LastKey | src/main/io.github.andyalvarezdev.primitive/io/github/andyalvarezdev/primitive/maps/impl/TreeIntObjectMap.java:308-311 | the greatest key; NoSuchElementException when empty |
| TreeMaps.TreeIntObjectMap.FirstEntry | src/main/io.github.andyalvarezdev.primitive/io/github/andyalvarezdev/primitive/maps/impl/TreeIntObjectMap.java:787-790 | the mapping with the least key, or null |
| TreeMaps.TreeIntObjectMap.LastEntry | src/main/io.github.andyalvarezdev.primitive/io/github/andyalvarezdev/primitive/maps/impl/TreeIntObjectMap.java:795-798 | the mapping with the greatest key, or null |
| TreeMaps.TreeIntObjectMap.CeilingEntry | src/main/io.github.andyalvarezdev.primitive/io/github/andyalvarezdev/primitive/maps/impl/TreeIntObjectMap.java:883-886 | the mapping with the least key >= key, or null |
| TreeMaps.TreeIntObjectMap.HigherEntry | src/main/io.github.andyalvarezdev.primitive/io/github/andyalvarezdev/primitive/maps/impl/TreeIntObjectMap.java:907-910 | the mapping with the least key > key, or null |
| TreeMaps.TreeIntObjectMap.FloorEntry | src/main/io.github.andyalvarezdev.primitive/io/github/andyalvarezdev/primitive/maps/impl/TreeIntObjectMap.java:859-862 | the mapping with the greatest key <= key, or null |
| TreeMaps.TreeIntObjectMap.LowerEntry | src/main/io.github.andyalvarezdev.primitive/io/github/andyalvarezdev/primitive/maps/impl/TreeIntObjectMap.java:835-838 | the mapping with the greatest key < key, or null |
| TreeMaps.TreeIntObjectMap.CeilingKey | src/main/io.github.andyalvarezdev.primitive/io/github/andyalvarezdev/primitive/maps/impl/TreeIntObjectMap.java:895-898 | the least key >= key; NullPointerException when there is none |
| TreeMaps.TreeIntObjectMap.HigherKey | src/main/io.github.andyalvarezdev.primitive/io/github/andyalvarezdev/primitive/maps/impl/TreeIntObjectMap.java:919-922 | the least key > key; NullPointerException when there is none |
| TreeMaps.TreeIntObjectMap.FloorKey | src/main/io.github.andyalvarezdev.primitive/io/github/andyalvarezdev/primitive/maps/impl/TreeIntObjectMap.java:871-874 | the greatest key <= key; NullPointerException when there is none |
| TreeMaps.TreeIntObjectMap.LowerKey | src/main/io.github.andyalvarezdev.primitive/io/github/andyalvarezdev/primitive/maps/impl/TreeIntObjectMap.java:847-850 | the greatest key < key; NullPointerException when there is none |
| TreeMaps.TreeIntObjectMap.Put | src/main/io.github.andyalvarezdev.primitive/io/github/andyalvarezdev/primitive/maps/impl/TreeIntObjectMap.java:626-700 | the key maps to the new value and nothing else changes; the result is the old value or null; a new key adds one to size and modCount, a replaced value changes neither |
| TreeMaps.TreeIntObjectMap.DeleteEntry | src/main/io.github.andyalvarezdev.primitive/io/github/andyalvarezdev/primitive/maps/impl/TreeIntObjectMap.java:2734-2802 | the entry's key is unmapped, the rest is kept, size goes down by one and modCount up by one |
| TreeMaps.TreeIntObjectMap.Remove | src/main/io.github.andyalvarezdev.primitive/io/github/andyalvarezdev/primitive/maps/impl/TreeIntObjectMap.java:716-727 | the key is unmapped and the old value returned; an absent key gives null and changes nothing |
| TreeMaps.TreeIntObjectMap.Clear | src/main/io.github.andyalvarezdev.primitive/io/github/andyalvarezdev/primitive/maps/impl/TreeIntObjectMap.java:733-738 | no mappings, size 0, modCount up by one |
| TreeMaps.TreeIntObjectMap.PollFirstEntry | src/main/io.github.andyalvarezdev.primitive/io/github/andyalvarezdev/primitive/maps/impl/TreeIntObjectMap.java:803-812 | removes and returns the mapping with the least key; null and no change when empty |
| TreeMaps.TreeIntObjectMap.PollLastEntry | src/main/io.github.andyalvarezdev.primitive/io/github/andyalvarezdev/primitive/maps/impl/TreeIntObjectMap.java:817-826 | removes and returns the mapping with the greatest key; null and no change when empty |
| TreeMaps.TreeIntObjectMap.BuildFromSorted | src/main/io.github.andyalvarezdev.primitive/io/github/andyalvarezdev/primitive/maps/impl/TreeIntObjectMap.java:3000-3004 | the tree lists exactly the n sorted input pairs, size is n, and modCount is unchanged |
| TreeMaps.TreeIntObjectMap.PutAll | src/main/io.github.andyalvarezdev.primitive/io/github/andyalvarezdev/primitive/maps/impl/TreeIntObjectMap.java:325-348 | afterwards the map holds the old mappings overridden by the source's; the sorted-source fast path into an empty map builds in linear time |
| TreeMaps.KeySetPollFirst | src/main/io.github.andyalvarezdev.primitive/io/github/andyalvarezdev/primitive/maps/impl/TreeIntObjectMap.java:1290-1294 | removes the least key; on an empty map the unboxing throws NullPointerException and nothing changes |
| TreeMaps.KeySetPollLast | src/main/io.github.andyalvarezdev.primitive/io/github/andyalvarezdev/primitive/maps/impl/TreeIntObjectMap.java:1296-1300 | removes the greatest key; NullPointerException and no change when empty |
| SubMaps.ViewOfUpdate | src/main/io.github.andyalvarezdev.primitive/io/github/andyalvarezdev/primitive/maps/impl/TreeIntObjectMap.java:1739-1746 | a put inside the range is the same put seen through the view |
| SubMaps.ViewOfRemove | src/main/io.github.andyalvarezdev.primitive/io/github/andyalvarezdev/primitive/maps/impl/TreeIntObjectMap.java:1753-1756 | a removal is the same removal seen through the view |
| SubMaps.CutHigh | src/main/io.github.andyalvarezdev.primitive/io/github/andyalvarezdev/primitive/maps/impl/TreeIntObjectMap.java:1629-1633 | dropping the keys above the range keeps the least key, or leaves none |
| SubMaps.CutLow | src/main/io.github.andyalvarezdev.primitive/io/github/andyalvarezdev/primitive/maps/impl/TreeIntObjectMap.java:1635-1639 | dropping the keys below the range keeps the greatest key, or leaves none |
| SubMaps.LowestCut | src/main/io.github.andyalvarezdev.primitive/io/github/andyalvarezdev/primitive/maps/impl/TreeIntObjectMap.java:1629-1633 | the view's keys are the map's keys from the low end on, cut at the high end |
| SubMaps.HighestCut | src/main/io.github.andyalvarezdev.primitive/io/github/andyalvarezdev/primitive/maps/impl/TreeIntObjectMap.java:1635-1639 | the view's keys are the map's keys up to the high end, cut at the low end |
| SubMaps.AboveCut | src/main/io.github.andyalvarezdev.primitive/io/github/andyalvarezdev/primitive/maps/impl/TreeIntObjectMap.java:1641-1659 | the view's keys above a key below the range are all its keys; otherwise the map's keys above it, cut at the high end |
| SubMaps.BelowCut | src/main/io.github.andyalvarezdev.primitive/io/github/andyalvarezdev/primitive/maps/impl/TreeIntObjectMap.java:1661-1679 | the view's keys below a key above the range are all its keys; otherwise the map's keys below it, cut at the low end |
| SubMaps.NewBounds | src/main/io.github.andyalvarezdev.primitive/io/github/andyalvarezdev/primitive/maps/impl/TreeIntObjectMap.java:1550-1577 | the constructor throws IllegalArgumentException iff both ends are present and lo > hi |
| SubMaps.MapSubBounds | src/main/io.github.andyalvarezdev.primitive/io/github/andyalvarezdev/primitive/maps/impl/TreeIntObjectMap.java:1030-1033 | subMap(from, to) is refused iff from > to, and otherwise admits exactly the keys between the two ends |
| SubMaps.MapHeadBounds | src/main/io.github.andyalvarezdev.primitive/io/github/andyalvarezdev/primitive/maps/impl/TreeIntObjectMap.java:1043-1046 | headMap(to) admits exactly the keys below to |
| SubMaps.MapTailBounds | src/main/io.github.andyalvarezdev.primitive/io/github/andyalvarezdev/primitive/maps/impl/TreeIntObjectMap.java:1056-1059 | tailMap(from) admits exactly the keys above from |
| SubMaps.MapWholeBounds | src/main/io.github.andyalvarezdev.primitive/io/github/andyalvarezdev/primitive/maps/impl/TreeIntObjectMap.java:1016-1020 | descendingMap() admits every key |
| SubMaps.AscendingSubBounds | src/main/io.github.andyalvarezdev.primitive/io/github/andyalvarezdev/primitive/maps/impl/TreeIntObjectMap.java:2131-2142 | a nested subMap is refused iff an end is out of range or from > to, and otherwise admits exactly the keys in both ranges |
| SubMaps.AscendingHeadBounds | src/main/io.github.andyalvarezdev.primitive/io/github/andyalvarezdev/primitive/maps/impl/TreeIntObjectMap.java:2144-2151 | a nested headMap is refused iff its end is out of range, and otherwise admits the keys of the view below it |
| SubMaps.AscendingTailBounds | src/main/io.github.andyalvarezdev.primitive/io/github/andyalvarezdev/primitive/maps/impl/TreeIntObjectMap.java:2153-2160 | a nested tailMap is refused iff its end is out of range, and otherwise admits the keys of the view above it |
| SubMaps.DescendingSubBounds | src/main/io.github.andyalvarezdev.primitive/io/github/andyalvarezdev/primitive/maps/impl/TreeIntObjectMap.java:2242-2253 | the descending subMap swaps from and to: refused iff an end is out of range or to > from |
| SubMaps.DescendingHeadBounds | src/main/io.github.andyalvarezdev.primitive/io/github/andyalvarezdev/primitive/maps/impl/TreeIntObjectMap.java:2255-2262 | a descending headMap admits the view's keys above its end |
| SubMaps.DescendingTailBounds | src/main/io.github.andyalvarezdev.primitive/io/github/andyalvarezdev/primitive/maps/impl/TreeIntObjectMap.java:2264-2271 | a descending tailMap admits the view's keys below its end |
| SubMaps.GetAboveEntry | src/main/io.github.andyalvarezdev.primitive/io/github/andyalvarezdev/primitive/maps/impl/TreeIntObjectMap.java:428-563 | getCeilingEntry/getHigherEntry as a least element of the map's key set |
| SubMaps.GetBelowEntry | src/main/io.github.andyalvarezdev.primitive/io/github/andyalvarezdev/primitive/maps/impl/TreeIntObjectMap.java:476-607 | getFloorEntry/getLowerEntry as a greatest element of the map's key set |
| SubMaps.NavigableSubMap.constructor | src/main/io.github.andyalvarezdev.primitive/io/github/andyalvarezdev/primitive/maps/impl/TreeIntObjectMap.java:1550-1577 | the view records the backing map, its bounds and its orientation |
| SubMaps.NavigableSubMap.AbsLowest | src/main/io.github.andyalvarezdev.primitive/io/github/andyalvarezdev/primitive/maps/impl/TreeIntObjectMap.java:1629-1633 | the least key of the view, or null |
| SubMaps.NavigableSubMap.AbsHighest | src/main/io.github.andyalvarezdev.primitive/io/github/andyalvarezdev/primitive/maps/impl/TreeIntObjectMap.java:1635-1639 | the greatest key of the view, or null |
| SubMaps.NavigableSubMap.AbsAbove | src/main/io.github.andyalvarezdev.primitive/io/github/andyalvarezdev/primitive/maps/impl/TreeIntObjectMap.java:1641-1659 | absCeiling/absHigher: the least view key at or above (above) the key, clipped to the range |
| SubMaps.NavigableSubMap.AbsBelow | src/main/io.github.andyalvarezdev.primitive/io/github/andyalvarezdev/primitive/maps/impl/TreeIntObjectMap.java:1661-1679 | absFloor/absLower: the greatest view key at or below (below) the key, clipped to the range |
| SubMaps.NavigableSubMap.AbsHighFence | src/main/io.github.andyalvarezdev.primitive/io/github/andyalvarezdev/primitive/maps/impl/TreeIntObjectMap.java:1684-1687 | the least map key past the high end: where an ascending walk stops |
| SubMaps.NavigableSubMap.AbsLowFence | src/main/io.github.andyalvarezdev.primitive/io/github/andyalvarezdev/primitive/maps/impl/TreeIntObjectMap.java:1692-1695 | the greatest map key past the low end: where a descending walk stops |
| SubMaps.NavigableSubMap.SubLowest | src/main/io.github.andyalvarezdev.primitive/io/github/andyalvarezdev/primitive/maps/impl/TreeIntObjectMap.java:2192-2195 | the first key in the view's order: absLowest ascending, absHighest descending (2303-2306) |
| SubMaps.NavigableSubMap.SubHighest | src/main/io.github.andyalvarezdev.primitive/io/github/andyalvarezdev/primitive/maps/impl/TreeIntObjectMap.java:2197-2200 | the last key in the view's order, with the same swap (2308-2311) |
| SubMaps.NavigableSubMap.SubAfter | src/main/io.github.andyalvarezdev.primitive/io/github/andyalvarezdev/primitive/maps/impl/TreeIntObjectMap.java:2202-2210 | subCeiling/subHigher: the first view key at or after (after) the key in the view's order; descending swaps to absFloor/absLower (2313-2321) |
| SubMaps.NavigableSubMap.SubBefore | src/main/io.github.andyalvarezdev.primitive/io/github/andyalvarezdev/primitive/maps/impl/TreeIntObjectMap.java:2212-2220 | subFloor/subLower: the last view key at or before (before) the key in the view's order; descending swaps to absCeiling/absHigher (2323-2331) |
| SubMaps.NavigableSubMap.ContainsKey | src/main/io.github.andyalvarezdev.primitive/io/github/andyalvarezdev/primitive/maps/impl/TreeIntObjectMap.java:1734-1737 | true iff the key is in range and mapped |
| SubMaps.NavigableSubMap.Get | src/main/io.github.andyalvarezdev.primitive/io/github/andyalvarezdev/primitive/maps/impl/TreeIntObjectMap.java:1748-1751 | the value in range, null outside it or when absent |
| SubMaps.NavigableSubMap.Put | src/main/io.github.andyalvarezdev.primitive/io/github/andyalvarezdev/primitive/maps/impl/TreeIntObjectMap.java:1739-1746 | outside the range IllegalArgumentException and no change; inside it the backing map's put, seen as the same put in the view |
| SubMaps.NavigableSubMap.Remove | src/main/io.github.andyalvarezdev.primitive/io/github/andyalvarezdev/primitive/maps/impl/TreeIntObjectMap.java:1753-1756 | outside the range null and no change; inside it the backing map's remove |
| SubMaps.NavigableSubMap.FirstKey | src/main/io.github.andyalvarezdev.primitive/io/github/andyalvarezdev/primitive/maps/impl/TreeIntObjectMap.java:1798-1801 | the view's first key in its order; NoSuchElementException when empty |
| SubMaps.NavigableSubMap.LastKey | src/main/io.github.andyalvarezdev.primitive/io/github/andyalvarezdev/primitive/maps/impl/TreeIntObjectMap.java:1803-1806 | the view's last key in its order; NoSuchElementException when empty |
| SubMaps.NavigableSubMap.FirstEntry | src/main/io.github.andyalvarezdev.primitive/io/github/andyalvarezdev/primitive/maps/impl/TreeIntObjectMap.java:1808-1811 | the view's first mapping in its order, or null |
| SubMaps.NavigableSubMap.LastEntry | src/main/io.github.andyalvarezdev.primitive/io/github/andyalvarezdev/primitive/maps/impl/TreeIntObjectMap.java:1813-1816 | the view's last mapping in its order, or null |
| SubMaps.NavigableSubMap.AfterEntry | src/main/io.github.andyalvarezdev.primitive/io/github/andyalvarezdev/primitive/maps/impl/TreeIntObjectMap.java:1758-1771 | ceilingEntry/higherEntry in the view's order, or null |
| SubMaps.NavigableSubMap.AfterKey | src/main/io.github.andyalvarezdev.primitive/io/github/andyalvarezdev/primitive/maps/impl/TreeIntObjectMap.java:1763-1776 | ceilingKey/higherKey in the view's order; NullPointerException when none |
| SubMaps.NavigableSubMap.BeforeEntry | src/main/io.github.andyalvarezdev.primitive/io/github/andyalvarezdev/primitive/maps/impl/TreeIntObjectMap.java:1778-1791 | floorEntry/lowerEntry in the view's order, or null |
| SubMaps.NavigableSubMap.BeforeKey | src/main/io.github.andyalvarezdev.primitive/io/github/andyalvarezdev/primitive/maps/impl/TreeIntObjectMap.java:1783-1796 | floorKey/lowerKey in the view's order; NullPointerException when none |
| SubMaps.NavigableSubMap.PollFirstEntry | src/main/io.github.andyalvarezdev.primitive/io/github/andyalvarezdev/primitive/maps/impl/TreeIntObjectMap.java:1818-1827 | removes and returns the view's first mapping; null and no change when the view is empty |
| SubMaps.NavigableSubMap.PollLastEntry | src/main/io.github.andyalvarezdev.primitive/io/github/andyalvarezdev/primitive/maps/impl/TreeIntObjectMap.java:1829-1838 | removes and returns the view's last mapping; null and no change when the view is empty |
| SubMaps.NavigableSubMap.IsEmpty | src/main/io.github.andyalvarezdev.primitive/io/github/andyalvarezdev/primitive/maps/impl/TreeIntObjectMap.java:1903-1907 | true iff the view holds no mapping |
| SubMaps.NavigableSubMap.EntrySetContains | src/main/io.github.andyalvarezdev.primitive/io/github/andyalvarezdev/primitive/maps/impl/TreeIntObjectMap.java:1910-1924 | true iff the pair's key is in the view and mapped to an equal value |
| SubMaps.NavigableSubMap.EntrySetRemove | src/main/io.github.andyalvarezdev.primitive/io/github/andyalvarezdev/primitive/maps/impl/TreeIntObjectMap.java:1927-1946 | with the argument checked to be a pair, as `contains` does (the corrected half of Findings row 3): removes the mapping iff it is in the view with an equal value; otherwise no change |
| SubMaps.EntrySetRemoveAsWritten | src/main/io.github.andyalvarezdev.primitive/io/github/andyalvarezdev/primitive/maps/impl/TreeIntObjectMap.java:1927-1934 | as written, only a `java.util.Map.Entry` passes the gate and then fails the cast to `IntObjectPair` with ClassCastException; every other argument, a pair included, gets false and leaves the map unchanged |
| SubMaps.EntrySetRemoveKeepsPair | src/main/io.github.andyalvarezdev.primitive/io/github/andyalvarezdev/primitive/maps/impl/TreeIntObjectMap.java:1927-1946 | over {1 -> v}, tailMap(0, true) shows 1 -> v, yet removing the pair (1, v) from its entry set as written answers false |
| SubMaps.NavigableSubMap.SubMap | src/main/io.github.andyalvarezdev.primitive/io/github/andyalvarezdev/primitive/maps/impl/TreeIntObjectMap.java:2131-2142 | a nested view with the composed bounds, or IllegalArgumentException; the descending view swaps the ends (2242-2253) |
| SubMaps.NavigableSubMap.HeadMap | src/main/io.github.andyalvarezdev.primitive/io/github/andyalvarezdev/primitive/maps/impl/TreeIntObjectMap.java:2144-2151 | a nested head view, or IllegalArgumentException (descending: 2255-2262) |
| SubMaps.NavigableSubMap.TailMap | src/main/io.github.andyalvarezdev.primitive/io/github/andyalvarezdev/primitive/maps/impl/TreeIntObjectMap.java:2153-2160 | a nested tail view, or IllegalArgumentException (descending: 2264-2271) |
| SubMaps.NavigableSubMap.DescendingMap | src/main/io.github.andyalvarezdev.primitive/io/github/andyalvarezdev/primitive/maps/impl/TreeIntObjectMap.java:2162-2166 | the same range in the other order (descending to ascending: 2273-2277) |
| SubMaps.DescendingMapOf | src/main/io.github.andyalvarezdev.primitive/io/github/andyalvarezdev/primitive/maps/impl/TreeIntObjectMap.java:1016-1020 | the whole map in descending order |
| SubMaps.SubMapOf | src/main/io.github.andyalvarezdev.primitive/io/github/andyalvarezdev/primitive/maps/impl/TreeIntObjectMap.java:1030-1033 | an ascending view over the keys between the ends, or IllegalArgumentException |
| SubMaps.HeadMapOf | src/main/io.github.andyalvarezdev.primitive/io/github/andyalvarezdev/primitive/maps/impl/TreeIntObjectMap.java:1043-1046 | an ascending view over the keys below the end |
| SubMaps.TailMapOf | src/main/io.github.andyalvarezdev.primitive/io/github/andyalvarezdev/primitive/maps/impl/TreeIntObjectMap.java:1056-1059 | an ascending view over the keys above the end |
| Iterators.NextIndexAbove | src/main/io.github.andyalvarezdev.primitive/io/github/andyalvarezdev/primitive/maps/impl/TreeIntObjectMap.java:2515-2541 | in a sorted sequence the key at the next index is the next larger key |
| Iterators.PreviousIndexBelow | src/main/io.github.andyalvarezdev.primitive/io/github/andyalvarezdev/primitive/maps/impl/TreeIntObjectMap.java:2546-2572 | in a sorted sequence the key at the previous index is the next smaller key |
| Iterators.SuccessorKeys | src/main/io.github.andyalvarezdev.primitive/io/github/andyalvarezdev/primitive/maps/impl/TreeIntObjectMap.java:2515-2541 | successor steps to the next larger key of the map, or null after the greatest |
| Iterators.PredecessorKeys | src/main/io.github.andyalvarezdev.primitive/io/github/andyalvarezdev/primitive/maps/impl/TreeIntObjectMap.java:2546-2572 | predecessor steps to the next smaller key of the map, or null before the least |
| Iterators.Locate | src/main/io.github.andyalvarezdev.primitive/io/github/andyalvarezdev/primitive/maps/impl/TreeIntObjectMap.java:362-388 | a key the map holds is found again at its node |
| Iterators.StepUp | src/main/io.github.andyalvarezdev.primitive/io/github/andyalvarezdev/primitive/maps/impl/TreeIntObjectMap.java:2515-2541 | successor of a node, read as the next larger key |
| Iterators.StepDown | src/main/io.github.andyalvarezdev.primitive/io/github/andyalvarezdev/primitive/maps/impl/TreeIntObjectMap.java:2546-2572 | predecessor of a node, read as the next smaller key |
| Iterators.NextAfterRemoval | src/main/io.github.andyalvarezdev.primitive/io/github/andyalvarezdev/primitive/maps/impl/TreeIntObjectMap.java:1398-1416 | removing the key just returned does not change which key follows it in either direction |
| Iterators.PrivateEntryIterator.Ascending | src/main/io.github.andyalvarezdev.primitive/io/github/andyalvarezdev/primitive/maps/impl/TreeIntObjectMap.java:1192-1195 | the ascending iterator starts at the least key, with the current modCount |
| Iterators.PrivateEntryIterator.Descending | src/main/io.github.andyalvarezdev.primitive/io/github/andyalvarezdev/primitive/maps/impl/TreeIntObjectMap.java:1197-1200 | the descending iterator starts at the greatest key, with the current modCount |
| Iterators.PrivateEntryIterator.HasNext | src/main/io.github.andyalvarezdev.primitive/io/github/andyalvarezdev/primitive/maps/impl/TreeIntObjectMap.java:1361-1364 | true iff there is a next node; without a modification that node's key is mapped |
| Iterators.PrivateEntryIterator.NextEntry | src/main/io.github.andyalvarezdev.primitive/io/github/andyalvarezdev/primitive/maps/impl/TreeIntObjectMap.java:1366-1380 | NoSuchElementException at the end, ConcurrentModificationException on a changed modCount, otherwise the next mapping, then a step to the next larger key |
| Iterators.PrivateEntryIterator.PrevEntry | src/main/io.github.andyalvarezdev.primitive/io/github/andyalvarezdev/primitive/maps/impl/TreeIntObjectMap.java:1382-1396 | the same, stepping to the next smaller key |
| Iterators.PrivateEntryIterator.RemoveAsWritten | src/main/io.github.andyalvarezdev.primitive/io/github/andyalvarezdev/primitive/maps/impl/TreeIntObjectMap.java:1398-1416 | as written: IllegalStateException without a returned entry, ConcurrentModificationException on a changed modCount, otherwise the mapping is removed and the snapshot refreshed; with two children next becomes the next larger key whatever the direction |
| Iterators.PrivateEntryIterator.Remove | src/main/io.github.andyalvarezdev.primitive/io/github/andyalvarezdev/primitive/maps/impl/TreeIntObjectMap.java:1398-1416 | the same errors and removal; next is the key after the removed one in the iterator's own direction |
| Iterators.EntryIteratorSurvives | src/main/io.github.andyalvarezdev.primitive/io/github/andyalvarezdev/primitive/maps/impl/TreeIntObjectMap.java:1354-1359 | an iterator built against a modCount stays consistent while the map changes further |
| Iterators.PutOneTwoThree | src/main/io.github.andyalvarezdev.primitive/io/github/andyalvarezdev/primitive/maps/impl/TreeIntObjectMap.java:626-700 | putting 1, 2 and 3 into an empty map gives a red-black tree listing exactly those three entries, with 2 at a node that has two children |
| Iterators.DescendingRemoveRevisits | src/main/io.github.andyalvarezdev.primitive/io/github/andyalvarezdev/primitive/maps/impl/TreeIntObjectMap.java:1460-1472 | in every red-black tree of the keys {1, 2, 3}, 2 has two children; descending, after returning 3 then 2, remove sets next to 3, which was already returned, not to 1 |
| Iterators.FenceKeyAsWritten | src/main/io.github.andyalvarezdev.primitive/io/github/andyalvarezdev/primitive/maps/impl/TreeIntObjectMap.java:1959-1965 | the fence key is the fence entry's key, and 0 when the fence is null; `HasNextAsWritten` is the `next.key != fenceKey` test built on it |
| Iterators.WalkAsWritten | src/main/io.github.andyalvarezdev.primitive/io/github/andyalvarezdev/primitive/maps/impl/TreeIntObjectMap.java:1967-1970 | as written, a sub-map walk returns keys only until it meets the fence key |
| Iterators.Walk | src/main/io.github.andyalvarezdev.primitive/io/github/andyalvarezdev/primitive/maps/impl/TreeIntObjectMap.java:1967-1970 | a walk compared against the fence entry, or not at all without a fence, returns every key it meets up to the fence |
| Iterators.WalkStopsAtFence | src/main/io.github.andyalvarezdev.primitive/io/github/andyalvarezdev/primitive/maps/impl/TreeIntObjectMap.java:1967-1986 | a walk that meets the fence returns exactly the keys before it |
| Iterators.ZeroKeyEndsWalk | src/main/io.github.andyalvarezdev.primitive/io/github/andyalvarezdev/primitive/maps/impl/TreeIntObjectMap.java:1016-1020 | as written, an open-ended view stops at key 0: descending over {-1, 0, 1} yields only 1, and tailMap(-5) over {-5, 0, 3} yields only -5 |
| Iterators.SubMapIterator.constructor | src/main/io.github.andyalvarezdev.primitive/io/github/andyalvarezdev/primitive/maps/impl/TreeIntObjectMap.java:1959-1965 | the walk starts at the view's first key in the iteration order, with the current modCount; the fence is kept as an optional key rather than key 0 for a missing fence (the corrected half of Findings row 2) |
| Iterators.SubMapIterator.HasNext | src/main/io.github.andyalvarezdev.primitive/io/github/andyalvarezdev/primitive/maps/impl/TreeIntObjectMap.java:1967-1970 | true iff the next key exists and lies in the view's range |
| Iterators.SubMapIterator.NextEntry | src/main/io.github.andyalvarezdev.primitive/io/github/andyalvarezdev/primitive/maps/impl/TreeIntObjectMap.java:1972-1986 | under the corrected fence of Findings row 2: NoSuchElementException once the next key is missing or outside the view (not at a key 0), ConcurrentModificationException on a changed modCount, otherwise the next mapping and a step to the next larger key |
| Iterators.SubMapIterator.PrevEntry | src/main/io.github.andyalvarezdev.primitive/io/github/andyalvarezdev/primitive/maps/impl/TreeIntObjectMap.java:1988-2002 | under the corrected fence of Findings row 2: the same, stepping to the next smaller key |
| Iterators.SubMapIterator.Remove | src/main/io.github.andyalvarezdev.primitive/io/github/andyalvarezdev/primitive/maps/impl/TreeIntObjectMap.java:2004-2037 | IllegalStateException, ConcurrentModificationException, or the mapping removed from map and view with the snapshot refreshed; next is the key after it in the walk's direction |
| Iterators.ViewKeyIterator | src/main/io.github.andyalvarezdev.primitive/io/github/andyalvarezdev/primitive/maps/impl/TreeIntObjectMap.java:2168-2176 | a view's keyIterator walks in the view's own order from its first key |
| Iterators.ViewDescendingKeyIterator | src/main/io.github.andyalvarezdev.primitive/io/github/andyalvarezdev/primitive/maps/impl/TreeIntObjectMap.java:2279-2287 | a view's descendingKeyIterator walks against the view's order from its last key |
| IntCollections.Wrap32 | src/main/io.github.andyalvarezdev.primitive/io/github/andyalvarezdev/primitive/collections/abstracts/AbstractIntCollection.java:209 | Java int arithmetic: the value wrapped into 32 bits, unchanged when it fits |
| IntCollections.IncreaseCapacity | src/main/io.github.andyalvarezdev.primitive/io/github/andyalvarezdev/primitive/collections/abstracts/AbstractIntCollection.java:208-218 | ((cap/2)+1)*3 when it grows the capacity, Integer.MAX_VALUE when that overflows, OutOfMemoryError when cap is already MAX_VALUE |
| IntCollections.CopyOf | src/main/io.github.andyalvarezdev.primitive/io/github/andyalvarezdev/primitive/collections/abstracts/AbstractIntCollection.java:194-206 | Arrays.copyOf: a fresh array of the new length, holding the old elements and zeros after them |
| IntCollections.FinishToArray | src/main/io.github.andyalvarezdev.primitive/io/github/andyalvarezdev/primitive/collections/abstracts/AbstractIntCollection.java:194-206 | the elements already copied followed by every remaining element, growing as needed; OutOfMemoryError iff the count exceeds MAX_VALUE |
| IntCollections.ToArray | src/main/io.github.andyalvarezdev.primitive/io/github/andyalvarezdev/primitive/collections/abstracts/AbstractIntCollection.java:125-137 | exactly the iterated elements in order, whatever the size() estimate |
| IntCollections.ToArrayInto | src/main/io.github.andyalvarezdev.primitive/io/github/andyalvarezdev/primitive/collections/abstracts/AbstractIntCollection.java:165-182 | reuses a when it is large enough, with 0 after the last element if there is room and the rest of a untouched; otherwise a fresh array of exactly the elements |
| IntCollections.Contains | src/main/io.github.andyalvarezdev.primitive/io/github/andyalvarezdev/primitive/collections/abstracts/AbstractIntCollection.java:94-102 | true iff some element equals o |
| IntCollections.ContainsAll | src/main/io.github.andyalvarezdev.primitive/io/github/andyalvarezdev/primitive/collections/abstracts/AbstractIntCollection.java:277-285 | true iff every element of c is contained |
| IntCollections.AddAll | src/main/io.github.andyalvarezdev.primitive/io/github/andyalvarezdev/primitive/collections/abstracts/AbstractIntCollection.java:303-310 | true iff some add reported a change; the first failing add's error is passed on (with `Add`, this class's own add at src/main/io.github.andyalvarezdev.primitive/io/github/andyalvarezdev/primitive/collections/abstracts/AbstractIntCollection.java:233-235, UnsupportedOperationException at the first element) |
| IntCollections.AddAllArray | src/main/io.github.andyalvarezdev.primitive/io/github/andyalvarezdev/primitive/collections/abstracts/AbstractIntCollection.java:328-336 | true iff the array is non-empty, whatever add returned; the first failing add's error is passed on |
| IntCollections.RemoveFirstAt | src/main/io.github.andyalvarezdev.primitive/io/github/andyalvarezdev/primitive/collections/abstracts/AbstractIntCollection.java:252-261 | remove(o) cuts out exactly the first position holding o |
| IntCollections.RemoveFirstAbsent | src/main/io.github.andyalvarezdev.primitive/io/github/andyalvarezdev/primitive/collections/abstracts/AbstractIntCollection.java:252-261 | remove of an absent element removes nothing |
| IntCollections.RemoveFirstMultiset | src/main/io.github.andyalvarezdev.primitive/io/github/andyalvarezdev/primitive/collections/abstracts/AbstractIntCollection.java:252-261 | remove takes out exactly one copy of o when there is one |
| IntCollections.SelectAppend | src/main/io.github.andyalvarezdev.primitive/io/github/andyalvarezdev/primitive/collections/abstracts/AbstractIntCollection.java:357-398 | removeAll and retainAll keep the survivors in their order |
| IntCollections.SelectMembers | src/main/io.github.andyalvarezdev.primitive/io/github/andyalvarezdev/primitive/collections/abstracts/AbstractIntCollection.java:357-398 | an element survives iff it was present and its membership in c is the kept one |
| IntCollections.SelectShrinks | src/main/io.github.andyalvarezdev.primitive/io/github/andyalvarezdev/primitive/collections/abstracts/AbstractIntCollection.java:357-398 | something is removed iff some element's membership in c is the removed one |
| IntCollections.SelectPartition | src/main/io.github.andyalvarezdev.primitive/io/github/andyalvarezdev/primitive/collections/abstracts/AbstractIntCollection.java:357-398 | removeAll(c) and retainAll(c) split the collection between them |
| IntCollections.AbstractIntCollection.constructor | src/main/io.github.andyalvarezdev.primitive/io/github/andyalvarezdev/primitive/collections/abstracts/AbstractIntCollection.java:72-73 | the collection iterates the given elements |
| IntCollections.AbstractIntCollection.IsEmpty | src/main/io.github.andyalvarezdev.primitive/io/github/andyalvarezdev/primitive/collections/abstracts/AbstractIntCollection.java:81-84 | true iff there are no elements |
| IntCollections.AbstractIntCollection.Remove | src/main/io.github.andyalvarezdev.primitive/io/github/andyalvarezdev/primitive/collections/abstracts/AbstractIntCollection.java:252-261 | removes the first occurrence of o and returns true, or returns false and changes nothing |
| IntCollections.AbstractIntCollection.RemoveWhere | src/main/io.github.andyalvarezdev.primitive/io/github/andyalvarezdev/primitive/collections/abstracts/AbstractIntCollection.java:357-398 | the shared loop of removeAll and retainAll |
| IntCollections.AbstractIntCollection.RemoveAll | src/main/io.github.andyalvarezdev.primitive/io/github/andyalvarezdev/primitive/collections/abstracts/AbstractIntCollection.java:357-367 | keeps, in order, exactly the elements not in c; true iff some element was in c |
| IntCollections.AbstractIntCollection.RetainAll | src/main/io.github.andyalvarezdev.primitive/io/github/andyalvarezdev/primitive/collections/abstracts/AbstractIntCollection.java:388-398 | keeps, in order, exactly the elements in c; true iff some element was not in c |
| IntCollections.AbstractIntCollection.Clear | src/main/io.github.andyalvarezdev.primitive/io/github/andyalvarezdev/primitive/collections/abstracts/AbstractIntCollection.java:414-420 | removing through the iterator leaves no element |
| IntCollections.Digits | src/main/io.github.andyalvarezdev.primitive/io/github/andyalvarezdev/primitive/collections/abstracts/AbstractIntCollection.java:443 | Integer.toString of a non-negative value: digits only, no leading zero |
| IntCollections.DigitsRoundTrip | src/main/io.github.andyalvarezdev.primitive/io/github/andyalvarezdev/primitive/collections/abstracts/AbstractIntCollection.java:443 | reading back the digits gives the value |
| IntCollections.DecimalRoundTrip | src/main/io.github.andyalvarezdev.primitive/io/github/andyalvarezdev/primitive/collections/abstracts/AbstractIntCollection.java:443 | reading back Integer.toString, sign included, gives the value |
| IntCollections.ListingSnoc | src/main/io.github.andyalvarezdev.primitive/io/github/andyalvarezdev/primitive/collections/abstracts/AbstractIntCollection.java:442-448 | one more element appends ", " and its decimal form |
| IntCollections.ToString | src/main/io.github.andyalvarezdev.primitive/io/github/andyalvarezdev/primitive/collections/abstracts/AbstractIntCollection.java:434-450 | "[" then the elements in order joined by ", " then "]"; "[]" when empty |
| IntCollections.ListingPrefix | src/main/io.github.andyalvarezdev.primitive/io/github/andyalvarezdev/primitive/collections/abstracts/AbstractIntCollection.java:442-448 | each loop step extends the text by one element |
| IntCollections.CommaAt | src/main/io.github.andyalvarezdev.primitive/io/github/andyalvarezdev/primitive/collections/abstracts/AbstractIntCollection.java:448 | the first comma of a text, or its end |
| IntCollections.DecimalHasNoComma | src/main/io.github.andyalvarezdev.primitive/io/github/andyalvarezdev/primitive/collections/abstracts/AbstractIntCollection.java:443 | a number's decimal form holds no comma |
| IntCollections.CommaAfterDecimal | src/main/io.github.andyalvarezdev.primitive/io/github/andyalvarezdev/primitive/collections/abstracts/AbstractIntCollection.java:443-448 | the first comma after an element is its separator |
| IntCollections.ListingRoundTrip | src/main/io.github.andyalvarezdev.primitive/io/github/andyalvarezdev/primitive/collections/abstracts/AbstractIntCollection.java:442-448 | the joined elements can be split back into the elements |
| IntCollections.RenderedRoundTrip | src/main/io.github.andyalvarezdev.primitive/io/github/andyalvarezdev/primitive/collections/abstracts/AbstractIntCollection.java:434-450 | toString loses nothing: the elements are read back in order, and "[]" only for the empty collection |

## Left out

- Nodes are values, not objects. A Java `Entry` reference is a cursor (the node's subtree and its ancestors), and every update rebuilds the path to the root. Sharing and in-place update of `Entry` objects are not modelled. An iterator's `next` and `lastReturned` hold keys, and each step finds the node again by key.
- Comparators: keys use the natural `int` order. `getEntryUsingComparator`, the comparator field and `comparator()` are not modelled. `putAll` takes its fast path when the source is sorted, without comparing comparators.
- `size` and `modCount` are unbounded integers; 32-bit wrap-around of these counters is not modelled.
- `clone`, `writeObject`/`readObject`, `readTreeSet` and `addAllForTreeSet` are not modelled, nor the stream and default-value branches of `buildFromSorted`. These are Java serialization and copying mechanics. The iterator-fed path of `buildFromSorted` is modelled.
- The legacy `SubMap` class, used only by serialization, is not modelled.
- The lazily cached view objects (`keySet`, `values`, `entrySet`, `navigableKeySet`, `descendingMap`) are not modelled. Each view call builds a fresh view.
- The `Values` and `EntrySet` collections of the whole map are not modelled, nor `EntrySetView.size` and the views' `size`. They only count the entries an iterator returns.
- `KeySet`'s `subSet`/`headSet`/`tailSet`/`descendingSet` are not modelled. They wrap a view in `TreeIntSet`, which is not part of this model.
- `EntryIterator`, `ValueIterator` and `KeyIterator` differ only in what they project from the entry. The model returns the (key, value) pair; `NextEntry`/`PrevEntry` stand for all three.
- The `instanceof IntObjectPair` check of the view entry set's `contains`: the model's argument there is always a pair, so the check passes. Its `remove` tests `instanceof Map.Entry` instead; see Findings row 3.
- `Entry.equals`, `hashCode` and `toString`.
- `AbstractIntObjectMap.putAll` is not part of this model. `PutAll`'s slow path is modelled as repeated `put`.
- TreeMaps.TreeIntObjectMap.PutAll: states the final mappings, and that `modCount` and the history only grow. It does not state the exact `modCount`.
- TreeMaps.TreeIntObjectMap.PutAll: requires the source's keys to be distinct, as they are in any map.
- IntCollections.AddAll and IntCollections.AddAllArray: `add` is a parameter standing for a subclass's override. The collection's contents after a successful add are not modelled.
- IntCollections.ToArray, IntCollections.ToArrayInto: the collection's iterator is its element sequence; a collection that changes during iteration is not modelled.
- Thread safety: the map is unsynchronized, and fail-fast is modelled as the sequential counter check.

## Findings

| source | as written | input that shows it | evidently intended | confidence | as-written member | corrected member |
|---|---|---|---|---|---|---|
| src/main/io.github.andyalvarezdev.primitive/io/github/andyalvarezdev/primitive/maps/impl/TreeIntObjectMap.java:1398-1416, src/main/io.github.andyalvarezdev.primitive/io/github/andyalvarezdev/primitive/maps/impl/TreeIntObjectMap.java:1460-1472 | `remove` sets `next = lastReturned` when the removed node has two children. For an ascending walk that is the node now holding the successor. `DescendingKeyIterator` inherits it, but descending the successor was already returned. | put 1, 2, 3; a descending key iterator returns 3 then 2; `remove()`; the next key returned is 3 again instead of 1 | after a removal the descending walk continues with the next smaller key | not executed | Iterators.PrivateEntryIterator.RemoveAsWritten, Iterators.PutOneTwoThree, Iterators.DescendingRemoveRevisits | Iterators.PrivateEntryIterator.Remove |
| src/main/io.github.andyalvarezdev.primitive/io/github/andyalvarezdev/primitive/maps/impl/TreeIntObjectMap.java:1959-1970 | `SubMapIterator` keeps the fence as a key: a null fence becomes key 0, and `hasNext` compares `next.key != fenceKey` | over keys {-1, 0, 1}, `descendingMap()` iterates only 1; over {-5, 0, 3}, `tailMap(-5, true)` iterates only -5 | a view without a fence iterates to its end; with a fence it stops at the fence entry | not executed | Iterators.FenceKeyAsWritten, Iterators.HasNextAsWritten, Iterators.WalkAsWritten, Iterators.ZeroKeyEndsWalk | Iterators.SubMapIterator.constructor, Iterators.SubMapIterator.HasNext, Iterators.SubMapIterator.NextEntry, Iterators.SubMapIterator.PrevEntry, Iterators.Walk, Iterators.WalkStopsAtFence |
| src/main/io.github.andyalvarezdev.primitive/io/github/andyalvarezdev/primitive/maps/impl/TreeIntObjectMap.java:1927-1934 | the view entry set's `remove` lets through only a `java.util.Map.Entry` and then casts it to `IntObjectPair`; no object is both, since the two interfaces declare `getKey()` with different return types | over {1 -> "a"}, `tailMap(0, true).entrySet().remove(pair(1, "a"))` answers false and keeps key 1; any `Map.Entry` throws ClassCastException | like `contains` (line 1912), test for `IntObjectPair` and remove a matching in-range mapping | not executed | SubMaps.EntrySetRemoveAsWritten, SubMaps.EntrySetRemoveKeepsPair | SubMaps.NavigableSubMap.EntrySetRemove |
