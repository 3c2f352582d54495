# CS400 search trees and song backends, in Dafny

This project models the core of a Java coursework repository and proves properties of the model:

- **A naive binary search tree** (`P101_BST/src/BinarySearchTree.java`).
  - Nodes are linked objects with `left`, `right` and `up` references.
  - `insert` attaches a new leaf, with equal keys going left.
  - `contains`, `size`, `isEmpty` and `clear` work from the root.
- **A rotation** (`P104.RBT/BSTRotation.java`) that swaps a child with its parent.
- **A red-black tree** (`P104.RBT/RedBlackTree.java`). Its `insert` attaches a red leaf. Its `ensureRedProperty` then repairs a red node under a red parent in one of three ways:
  - recolouring, when the aunt is red;
  - one rotation, in the line case;
  - two rotations, in the zig case.
- **Two song backends** (`P105.CodeReview/KJAIN39/Backend.java`, `P105.CodeReview/MAMIDWAR/Backend.java`).
  - They answer year-range, loudness-filter and top-five-danceability queries over the songs a tree yields.
  - KJAIN39's `readData` splits CSV lines itself, with quote awareness.

## How the model is built

Modules:

- `Nodes` holds the node objects as an arena.
  - A `Heap` is a `seq<NodeRec>` indexed by object identity. A `Ptr` is `Null` or `Ref(id)`.
  - A ghost `Shape` (a binary tree of node ids, keys and colours) is the structure that hangs from a pointer. `TreeAt(h, p, t)` ties the two together.
  - `Links(h, t, up)` states that every `up` field names the node's parent.
- `BstSpec`, `RotationSpec` and `RedBlackSpec` define what the operations compute on shapes and heaps, and prove the properties.
- `SearchTree` holds the class `BinarySearchTree`. Its `nodes` and `root` fields are updated in place.
- `BstRotation` models `rotate` as a method on a `BinarySearchTree`, because `BSTRotation` adds no state.
- `RedBlack` holds the class `RedBlackTree`. It keeps the inherited state as a `BinarySearchTree` object, since Dafny has no class inheritance.
- `SongSpec` and `CsvSpec` define the song queries and the CSV splitter. `Kjain39` and `Mamidwar` hold the two `Backend` classes.
  - The backends' tree is seen only through its iteration order, the sequence `songs`.
  - Java `Integer` parameters that may be `null` are `Bound = Unset | Set(value)`.

`BSTNode` and `RBTNode` are not part of this model.

- Their setters `setLeft`, `setRight` and `setUp` are modelled as plain field writes, because the code depends on that:
  - `insertHelper` calls `setUp` and `setLeft` separately (`BinarySearchTree.java:25-26`);
  - `rotate` reads `parent.up` (`BSTRotation.java:73`) after `child.setLeft(parent)` (`:62`). That read would find `child` if the setter also updated the attached child's back-reference.
- A new `RBTNode` is red, and `flipColor` toggles its colour (`RedBlackTree.java:19`, `:76`).

Java generics are instantiated at `int` keys. Keys are compared with `<` and `==`, as `compareTo` and `equals` would compare `Integer`s. A `null` argument is `Option.None`.

## Model

| member | source | states |
|---|---|---|
| SearchTree.BinarySearchTree.constructor | P101_BST/src/BinarySearchTree.java:11 | a new tree has no root and is a valid (empty) search tree |
| SearchTree.BinarySearchTree.InsertHelper | P101_BST/src/BinarySearchTree.java:21-46 | a null subtree changes nothing. Otherwise the only change is that the new node is linked, up field included, under the slot `AttachPoint` picks by walking down: equal or smaller keys go left, larger go right |
| BstSpec.AttachPoint | P101_BST/src/BinarySearchTree.java:21-46 | the node insertHelper stops at is a node of the subtree it starts from |
| BstSpec.LinkPlaces | P101_BST/src/BinarySearchTree.java:21-46 | the slot insertHelper writes is empty, and after the write the nodes hang exactly as the shape with the new leaf added (`Place`) |
| BstSpec.LinkKeepsLinks | P101_BST/src/BinarySearchTree.java:24-40 | after `setUp` and the child write, every node's up field still names its parent, the new leaf's included |
| BstSpec.PlaceFacts | P101_BST/src/BinarySearchTree.java:21-46 | the placed node becomes a leaf, the node set grows by exactly it, nodes stay distinct, and the root and its colour are unchanged |
| BstSpec.PlaceSorted | P101_BST/src/BinarySearchTree.java:23-43 | descending with equal-or-smaller keys to the left keeps the in-order key sequence sorted |
| BstSpec.PlaceKeys | P101_BST/src/BinarySearchTree.java:21-46 | the stored keys grow by exactly one copy of the new key (as multisets) |
| BstSpec.SortedParts | P101_BST/src/BinarySearchTree.java:30-43 | keys `a + [k] + b` are sorted iff both sides are sorted, everything in `a` is at most `k`, and everything in `b` is at least `k` (both directions) |
| BstSpec.AttachValid | P101_BST/src/BinarySearchTree.java:96-97 | insertHelper from the root of a valid non-empty tree leaves a valid tree: in order, distinct nodes, consistent up links, one more node and one more copy of the key |
| BstSpec.SingleNode | P101_BST/src/BinarySearchTree.java:94-95 | a detached new node made the root of an empty tree is a valid one-node search tree |
| SearchTree.BinarySearchTree.NewNode | P101_BST/src/BinarySearchTree.java:93 | `new BSTNode(data)` adds one detached node holding data and leaves the tree valid and unchanged |
| SearchTree.BinarySearchTree.AttachNew | P101_BST/src/BinarySearchTree.java:96-97 | the non-empty case of insert keeps the tree valid, adds the node to the tree and adds its key once. The structure afterwards is exactly `Place` of the old one: the node hangs as a new leaf where equal or smaller keys go left, and no existing node moves |
| SearchTree.BinarySearchTree.Insert | P101_BST/src/BinarySearchTree.java:88-99 | a null key throws NullPointerException and changes nothing. Otherwise the tree stays valid, holds exactly one more copy of the key, and gains exactly the new node. The structure is exactly `Place` of the old one: the new black node is the root of an empty tree, or a new leaf where equal or smaller keys go left, and no existing node moves |
| BstSpec.Lookup | P101_BST/src/BinarySearchTree.java:64-79 | on a tree whose keys are in order, the search descending left on smaller keys finds v iff v is stored |
| SearchTree.BinarySearchTree.Contains | P101_BST/src/BinarySearchTree.java:53-56 | a stored key gives true and any other key false. A null key gives false on an empty tree and NullPointerException (from `compareTo`) otherwise |
| BstSpec.Count | P101_BST/src/BinarySearchTree.java:119-128 | the recursive count is the number of nodes in the subtree |
| Nodes.SizeFacts | P101_BST/src/BinarySearchTree.java:101-111 | on distinct nodes, the number of nodes equals the number of stored keys (duplicates included) |
| SearchTree.BinarySearchTree.Size | P101_BST/src/BinarySearchTree.java:105-111 | size is the number of keys stored, duplicates included, which is the number of nodes |
| SearchTree.BinarySearchTree.IsEmpty | P101_BST/src/BinarySearchTree.java:134-137 | true iff the tree has no nodes, and iff size is 0 |
| SearchTree.BinarySearchTree.Clear | P101_BST/src/BinarySearchTree.java:143-146 | the tree becomes empty and stays valid; the node objects are not touched |
| SearchTree.InsertAll | P101_BST/src/BinarySearchTree.java:185-200 | inserting a list of keys in order adds exactly those keys, and the size grows by their number |
| SearchTree.SizeAndClearScenario | P101_BST/src/BinarySearchTree.java:183-208 | test1 holds: size 4, empty after clear, size 6 and not empty, empty after a second clear |
| SearchTree.DuplicatesScenario | P101_BST/src/BinarySearchTree.java:250-264 | test3 holds: negative and repeated keys give size 6, and -3 and 3 are both found |
| RotationSpec.RelatedChild | P104.RBT/BSTRotation.java:51-53 | when the parent's left or right field is the child, the child is a child of the parent in the tree's structure |
| RotationSpec.RotatedCells | P104.RBT/BSTRotation.java:55-84 | the exact cells rotate writes: child and parent swap roles, the inner subtree moves to the parent, the grandparent's slot names the child, and every other node object is untouched |
| RotationSpec.TurnFields | P104.RBT/BSTRotation.java:55-70 | the first block of writes keeps every reference inside the node arena and keeps every key and colour |
| RotationSpec.RotateAtFacts | P104.RBT/BSTRotation.java:55-70 | the rotated structure has the same nodes, the same in-order sequence and the same keys, and the child takes the parent's place |
| RotationSpec.RotatedTree | P104.RBT/BSTRotation.java:43-91 | after rotate's writes, the nodes hang from the new root exactly as the rotated structure, with nodes, order and keys kept |
| RotationSpec.RotateLeavesStaleLink | P104.RBT/BSTRotation.java:55-84 | as written, the moved inner subtree's root keeps `up == child`. The parent links stay consistent iff there is no inner subtree |
| RotationSpec.RotateOutcome | P104.RBT/BSTRotation.java:43-91 | rotating a child over its parent in a valid tree leaves a search tree on the same keys, whose links are consistent iff there was no inner subtree |
| BstRotation.Rotate | P104.RBT/BSTRotation.java:43-91 | a null reference throws NullPointerException and an unrelated pair throws IllegalArgumentException, both with no change. Otherwise: the nodes are rotated as written, the root moves to the child if it was the parent, the tree is still a search tree, and it stays valid iff no subtree moved |
| RotationSpec.RelinkedKeepsLinks | P104.RBT/BSTRotation.java:81-84 | with the moved subtree's up re-pointed at the parent, the rotated tree has every parent link consistent |
| BstRotation.RotateRelinked | P104.RBT/BSTRotation.java:43-91 | the corrected rotation has the same outcomes and structure, keeps the tree valid, and leaves every key and colour in place |
| RedBlackSpec.BalancedCounts | P104.RBT/RedBlackTree.java:14-63 | the recursive black-height balance holds iff every root-to-leaf path has the same number of black nodes |
| RedBlackSpec.PlaceRepairable | P104.RBT/RedBlackTree.java:79-82 | attaching a red leaf to a red-black tree leaves at most one violation: the new node under a red parent |
| RedBlackSpec.BlackParentFree | P104.RBT/RedBlackTree.java:25-28 | when the only candidate violation has a black parent, the tree already has no red node under a red parent |
| RedBlackSpec.RootBlack | P104.RBT/RedBlackTree.java:17-22 | blackening the root removes a violation at the root and keeps black heights balanced |
| RedBlackSpec.RedAuntLocal | P104.RBT/RedBlackTree.java:38-41 | flipping a red parent, a red aunt and a black grandparent keeps the black height and the balance, and leaves the subtree free of red-red pairs |
| RedBlackSpec.RedAuntStep | P104.RBT/RedBlackTree.java:38-43 | after the red-aunt flips, the only possible violation is at the grandparent, which is strictly nearer the root, so the recursion ends; nodes, order and keys are unchanged |
| RedBlackSpec.LineLeftLocal | P104.RBT/RedBlackTree.java:47-50 | in the left line case, one rotation and two flips give a balanced subtree of the same black height, free of red-red pairs |
| RedBlackSpec.LineRightLocal | P104.RBT/RedBlackTree.java:47-50 | the same for the right line case |
| RedBlackSpec.LineStep | P104.RBT/RedBlackTree.java:47-50 | the line repair makes the whole tree red-black again on the same nodes, order and keys |
| RedBlackSpec.ZigLeftLocal | P104.RBT/RedBlackTree.java:53-57 | in the left zig case, two rotations and two flips give a balanced subtree of the same black height, free of red-red pairs |
| RedBlackSpec.ZigRightLocal | P104.RBT/RedBlackTree.java:53-57 | the same for the right zig case |
| RedBlackSpec.ZigStep | P104.RBT/RedBlackTree.java:53-57 | the zig repair makes the whole tree red-black again on the same nodes, order and keys |
| RedBlackSpec.ViolationFacts | P104.RBT/RedBlackTree.java:25-36 | a red node under a red parent has a black grandparent two levels up, and the three nodes are distinct |
| RedBlack.RedBlackTree.FlipColor | P104.RBT/RedBlackTree.java:19 | flipColor toggles one node's colour and changes nothing else; the tree stays a valid search tree |
| RedBlack.RedBlackTree.GrandparentFacts | P104.RBT/RedBlackTree.java:25-36 | parent.getUp() is the black grandparent, and the aunt read from its other slot is a node distinct from parent and grandparent with the colour the structure gives it |
| RedBlack.RedBlackTree.RecolorRedAunt | P104.RBT/RedBlackTree.java:38-41 | the three flips make the parent and aunt black and the grandparent red, and keep the tree valid |
| RedBlack.RedBlackTree.RepairLine | P104.RBT/RedBlackTree.java:47-50 | rotate(parent, grandparent), taken as BstRotation.RotateRelinked (the corrected rotation), followed by two flips gives the rotated and recoloured structure, and keeps the tree valid |
| RedBlack.RedBlackTree.RepairZig | P104.RBT/RedBlackTree.java:53-57 | the two rotations, each taken as BstRotation.RotateRelinked (the corrected rotation), followed by two flips give the doubly rotated and recoloured structure, and keep the tree valid |
| RedBlack.RedBlackTree.EnsureRedProperty | P104.RBT/RedBlackTree.java:14-63 | from a tree whose only violation is x under a red parent, the result is a valid red-black tree on the same nodes, in-order sequence and keys. With a black parent nothing changes |
| RedBlack.RedBlackTree.AttachRed | P104.RBT/RedBlackTree.java:80 | insertHelper places the new red leaf; the tree is valid, gains that node and key, and has at most the one repairable violation |
| RedBlack.RedBlackTree.Insert | P104.RBT/RedBlackTree.java:65-84 | a null key throws NullPointerException and changes nothing. Otherwise, with the repairs rotating by BstRotation.RotateRelinked, the tree is a valid red-black tree with exactly one more copy of the key and exactly the new node added |
| CsvSpec.ScanSplit | P105.CodeReview/KJAIN39/Backend.java:58-68 | the character-by-character scan (quote toggling, closing commas outside quotes) agrees with the reference splitter on every prefix |
| CsvSpec.FieldsRoundTrip | P105.CodeReview/KJAIN39/Backend.java:58-68 | joining the split fields with commas gives back the line with its quote characters removed |
| CsvSpec.JoinSplit | P105.CodeReview/KJAIN39/Backend.java:58-68 | the round trip, from any scanner state: the open field followed by the rest of the line without quotes |
| CsvSpec.SplitNoQuotes | P105.CodeReview/KJAIN39/Backend.java:59-60 | no quote character ever reaches a field |
| CsvSpec.PlainOneField | P105.CodeReview/KJAIN39/Backend.java:58-68 | a line with no quote and no comma is a single field |
| CsvSpec.TrimFacts | P105.CodeReview/KJAIN39/Backend.java:63 | `trim()` removes exactly the leading and trailing characters at or below the space character, and keeps the contiguous middle |
| CsvSpec.TrimIdempotent | P105.CodeReview/KJAIN39/Backend.java:63 | trimming twice is trimming once |
| Kjain39.SplitLine | P105.CodeReview/KJAIN39/Backend.java:53-73 | the splitting loop throws ArrayIndexOutOfBoundsException iff the line has more than ten fields. Otherwise it fills slot k with field k trimmed, for as many slots as there are closing commas, plus one for a non-empty last field while a slot is free, and leaves the rest null |
| Kjain39.Store | P105.CodeReview/KJAIN39/Backend.java:63 | `parts[index] = currentField.trim()` extends the stored prefix by one trimmed field and touches no other slot |
| Kjain39.Overrun | P105.CodeReview/KJAIN39/Backend.java:63 | a comma closing a tenth field means the line has more than ten fields |
| Kjain39.Backend.constructor | P105.CodeReview/KJAIN39/Backend.java:33-40 | the backend keeps the songs, with no year bounds and no loudness threshold |
| Kjain39.Backend.GetRange | P105.CodeReview/KJAIN39/Backend.java:105-121 | the titles of exactly the songs within the year bounds and below the stored threshold, in iteration order. The bounds are stored and the threshold is kept |
| Kjain39.Backend.SetFilter | P105.CodeReview/KJAIN39/Backend.java:131-134 | the threshold is stored and the result is getRange over the stored bounds under the new threshold |
| Kjain39.Backend.FiveMost | P105.CodeReview/KJAIN39/Backend.java:143-166 | the titles of the first min(5, n) of the filtered songs, once stably sorted by decreasing danceability |
| SongSpec.KeptCounts | P105.CodeReview/KJAIN39/Backend.java:108-116 | the query keeps each song with its full multiplicity iff it is within the bounds and below the threshold, and drops it otherwise |
| SongSpec.KeptMembers | P105.CodeReview/MAMIDWAR/Backend.java:100-121 | a song is in the result iff it is in the tree and passes the bounds and the filter |
| SongSpec.TopFive | P105.CodeReview/KJAIN39/Backend.java:158-163 | the first min(5, n) songs after the sort are in decreasing danceability, no song after them is more danceable, and together with the rest they are exactly the filtered songs |
| SongSpec.SortByFacts | P105.CodeReview/MAMIDWAR/Backend.java:124 | the sort's result is ordered by the key and is a permutation of its input |
| SongSpec.SortByStable | P105.CodeReview/MAMIDWAR/Backend.java:124 | the sort is stable: the songs with any one key keep their input order |
| SongSpec.SortedAll | P105.CodeReview/MAMIDWAR/Backend.java:124 | the adjacent-pairs ordering equals the all-pairs ordering (both directions) |
| SongSpec.InsertByFacts | P105.CodeReview/MAMIDWAR/Backend.java:124 | inserting one song into a sorted list keeps it sorted and adds exactly that song |
| SongSpec.InsertByStable | P105.CodeReview/MAMIDWAR/Backend.java:124 | an inserted song goes after every song with an equal key |
| SongSpec.ByYearQuery | P105.CodeReview/MAMIDWAR/Backend.java:124-130 | a getRange result is in non-decreasing year order, and its titles are a permutation of the kept songs' titles |
| SongSpec.TitlesPermutation | P105.CodeReview/MAMIDWAR/Backend.java:127-130 | permuted songs give permuted titles |
| Mamidwar.Backend.constructor | P105.CodeReview/MAMIDWAR/Backend.java:11-22 | the backend keeps the songs, with no filter and no bounds |
| Mamidwar.Backend.Filtered | P105.CodeReview/MAMIDWAR/Backend.java:100-121 | the shared filtering loop keeps exactly the songs passing the stored bounds and filter, in iteration order |
| Mamidwar.Backend.TitlesOf | P105.CodeReview/MAMIDWAR/Backend.java:127-130 | the title-collecting loop returns the titles in order |
| Mamidwar.Backend.GetRange | P105.CodeReview/MAMIDWAR/Backend.java:93-133 | the bounds are stored first, then the result is the titles of the songs passing them and the stored filter, stably sorted by year |
| Mamidwar.Backend.SetFilter | P105.CodeReview/MAMIDWAR/Backend.java:154-192 | the filter is stored (null clears it), then the result is the titles of the songs passing it and the stored bounds, stably sorted by year |
| Mamidwar.Backend.FiveMost | P105.CodeReview/MAMIDWAR/Backend.java:207-242 | the titles of the first min(5, n) of the filtered songs, once stably sorted by decreasing danceability |

## Left out

- File reading in both `readData` methods, `Integer.parseInt` with its NumberFormatException, and building a `Song` from the nine parts. Only KJAIN39's line-splitting loop is modelled. MAMIDWAR's `readData` is not part of this model.
- The backends' tree is abstracted as its iteration order: `IterableSortedCollection`, its `insert` and its iterator are not part of this model.
- `BSTNode`, `RBTNode` and `SortedCollection` are not part of this model. Their setters are modelled as plain field writes, as the code requires.
- `test2` of `BinarySearchTree.java` (string keys), `main`, the JUnit tests of `BSTRotation.java` and `RedBlackTree.java`, and `toLevelOrderString`: test drivers and output formatting.
- Deletion: no class in the source implements it.
- `P209.RoleCode`, `P103.RoleCode` and `P105.CodeReview/MZEAMAN`: outside the modelled core.
- Java generics: keys are `int`, so `compareTo` and `equals` are the integer comparisons.
- BstRotation.Rotate: requires the parent to be a node of the tree, so a rotation involving detached nodes (for example nodes left over after `clear`) is not modelled. It also requires a valid tree, with every up link consistent, so applying the as-written rotation to a tree that an earlier rotation left with a stale link is not modelled either.
- BstSpec.Count: does not model 32-bit `int` overflow of the count, which needs more than 2^31 nodes.
- BstSpec.AttachPoint: states only that the chosen node belongs to the subtree. Where the new node ends up is stated by BstSpec.LinkPlaces and BstSpec.PlaceSorted.
- BstSpec.Lookup: states its answer only for trees whose keys are in order, which every valid tree has.
- RedBlack.RedBlackTree.EnsureRedProperty: its repairs rotate with BstRotation.RotateRelinked, the rotation with the moved subtree's parent link corrected (see Findings). The as-written rotation can break the parent links the repair then reads.
- RedBlack.RedBlackTree.RepairLine: rotates with BstRotation.RotateRelinked where `RedBlackTree.java:47` calls `rotate`, so the stale up link the as-written rotation leaves on the moved subtree is not modelled.
- RedBlack.RedBlackTree.RepairZig: both rotations are BstRotation.RotateRelinked where `RedBlackTree.java:53-54` call `rotate`, for the same reason.
- RedBlack.RedBlackTree.Insert: the red-black result is proved for the corrected rotation only. With the as-written one, a stale up link can mislead a later repair. Keys 10, 20, …, 80 and then 30, 35, 37 are such a case: the line repair at 80 hangs 30 under 20 while 30's up still names 40, and later `ensureRedProperty(30)` reads the black 40 as its parent and stops, leaving red 30 under red 20. That run is not modelled.
- SongSpec.SortBy: `Collections.sort` and `List.sort` are modelled by a stable insertion sort, a function and not an in-place merge sort. Their result is the same for any stable sort, and the properties proved (ordered, permutation, stable) pin it down.
- Mamidwar.Backend.Filtered: the three identical filtering loops of MAMIDWAR's getRange, setFilter and fiveMost are modelled once and called by all three.

## Findings

| source | as written | input that shows it | evidently intended | confidence | as-written member | corrected member |
|---|---|---|---|---|---|---|
| P104.RBT/BSTRotation.java:55-84 | The inner subtree moves from the child to the parent (`child.left` in a left rotation, `child.right` in a right one). It is attached with `parent.setRight(child.left)` or `parent.setLeft(child.right)`, which write only the parent's slot, so its root's `up` still names the child. | keys 1, 3, 2 inserted into a `BinarySearchTree` give 1 with right child 3, and 3 with left child 2. `rotate(node 3, node 1)` makes 2 the right child of 1 while `2.up` is still 3 | the moved subtree's root gets `up = parent`, so every node's `up` names its parent after the rotation | medium, not executed: the node setters are not part of this model and are taken as plain field writes | RotationSpec.RotateLeavesStaleLink | RotationSpec.RelinkedKeepsLinks |

The as-written behaviour is also stated by BstRotation.Rotate: the tree stays valid iff no subtree moved. The corrected rotation is BstRotation.RotateRelinked, and the red-black repairs use it.
