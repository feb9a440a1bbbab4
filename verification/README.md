# Binary search tree over numeric keys

A Dafny model of a small binary search tree library: a `Tree` that is built
balanced from an array of numbers and grows by recursive insertion, over
`Node` cells that each hold a key and two child links.

- `Node.dfy` (module `BstNode`): the `Node` class with its mutable `data`,
  `left` and `right` fields, the constructor with `null` defaults, and the
  three setters. Each node carries two ghost fields: `Repr`, the nodes of its
  subtree, and `Model`, the binary-tree value the subtree denotes. `Valid()`
  says the links form a finite tree with no sharing and no cycles, and that
  `Model` mirrors the linked keys.
- `Tree.dfy` (module `BstTree`): the `Tree` class with its `root` field, the
  constructor (drop duplicates, sort ascending, build), `#buildTree` and
  `#buildTreeHelp` (balanced build from an index range), `#isEmpty`, `insert`
  as written, `insert` as evidently intended, and `#insertHelp` (recursive
  insertion that relinks each parent on the way back). Each heap operation is
  specified by the `Model` it leaves behind. `#insertHelp` may change only the
  nodes on its comparison path, as given by `SearchPath`.
- `TreeModel.dfy` (module `TreeModel`): the value `BTree`, with its keys,
  in-order walk, size, the search-tree order and `InsertKey` (insertion on
  values). The facts the tree promises about its keys are proved here.
- `Balance.dfy` (module `Balance`): heights, the size balance that the build
  produces, and the proof that it implies height balance with the least
  possible height.
- `KeyOrder.dfy` (module `KeyOrder`): the constructor's preprocessing.
  `Dedup` plays the part of `[...new Set(array)]` and `SortAscending` the
  part of `sort((a, b) => a - b)`. The module also holds the proof that
  their result is strictly ascending and holds exactly the input's values.

## Model

| member | source | states |
|---|---|---|
| KeyOrder.Dedup | Tree.js:16 | `[...new Set(array)]`: each value once, in the order of its first occurrence. It has no contract of its own; `KeyOrder.DedupSpec` states its meaning. |
| KeyOrder.DedupSpec | Tree.js:16 | Dropping duplicates leaves no value twice, keeps exactly the input's set of values, and is no longer than the input. |
| KeyOrder.SortAscending | Tree.js:17 | `sort((a, b) => a - b)`, as an insertion sort. It has no contract of its own; `KeyOrder.SortAscendingKeys`, `KeyOrder.SortAscendingSorted` and `KeyOrder.SortAscendingIncreasing` state its meaning. |
| KeyOrder.SortAscendingKeys | Tree.js:17 | The numeric sort is a permutation of its input. |
| KeyOrder.SortAscendingSorted | Tree.js:17 | The numeric sort yields an ascending sequence. |
| KeyOrder.SortAscendingIncreasing | Tree.js:17 | Sorting an input without repeats yields a strictly ascending sequence. |
| KeyOrder.SortedUniqueInput | Tree.js:16-17 | The array the constructor hands to `#buildTree` is strictly ascending and holds exactly the values of the input array. |
| KeyOrder.IncreasingUnique | Tree.js:16-17 | Two strictly ascending sequences with the same values are equal, so the preprocessed array is determined by the input's set of values. |
| KeyOrder.SortedUniqueOf | Tree.js:16-17 | The preprocessed array is the one strictly ascending sequence holding exactly the input's values. |
| KeyOrder.DemoInputPreprocessing | main.js:3 | The demo array of fourteen values with repeats becomes `[1, 3, 4, 5, 7, 8, 9, 23, 28, 67, 95]`. |
| TreeModel.SearchTreeIncreasing | Tree.js:3-7 | The in-order walk of a search tree is strictly ascending. |
| TreeModel.IncreasingSearchTree | Tree.js:38-47 | A tree whose in-order walk is strictly ascending (as a build from a sorted array gives) is a search tree. |
| TreeModel.SearchTreeIffIncreasing | Tree.js:3-7 | The search-tree order holds exactly when the in-order walk is strictly ascending. |
| TreeModel.InOrderElems | Tree.js:38-47 | The in-order walk holds exactly the tree's keys. |
| TreeModel.Found | Tree.js:109-113 | Whether the descent by comparison (smaller left, larger right) meets a node holding the value. It has no contract of its own; `TreeModel.FoundIffKey` states its meaning. |
| TreeModel.InsertKey | Tree.js:106-116 | `#insertHelp` on values: a new leaf where the descent falls off, the tree unchanged where it meets the value. It has no contract of its own; `TreeModel.InsertKeys`, `TreeModel.InsertSearchTree` and `TreeModel.InsertSize` state its meaning. |
| TreeModel.InsertKeys | Tree.js:106-116 | Insertion adds exactly the inserted value to the keys. |
| TreeModel.InsertSearchTree | Tree.js:106-116 | Insertion keeps the search-tree order. |
| TreeModel.FoundIffKey | Tree.js:109-113 | In a search tree, the descent by comparison reaches a node holding `v` exactly when `v` is a key. |
| TreeModel.InsertSize | Tree.js:106-116 | When the descent meets the value, insertion changes nothing; otherwise the tree gains exactly one node. |
| TreeModel.InsertUnchangedIffPresent | Tree.js:91 | In a search tree, insertion leaves the tree unchanged exactly when the value is already present. |
| Balance.SizeBalancedHeight | Tree.js:38-47 | A tree in which every right subtree holds as many keys as its left sibling, or one more, has height floor(log2(size)). |
| Balance.HeightLowerBound | Tree.js:3-7 | No binary tree with m nodes has height below floor(log2(m)). |
| Balance.SizeBalancedLowest | Tree.js:38-47 | The size-balanced shape the build produces is as low as any binary tree with the same number of nodes. |
| Balance.HeightGap | Tree.js:41-45 | Under such a node the right subtree is as tall as the left one or one level taller. |
| Balance.SizeBalancedIsHeightBalanced | Tree.js:3-7 | That size balance implies height balance at every node. |
| BstNode.Node.constructor | Node.js:10-14 | `new Node(data, left = null, right = null)` stores the three arguments. Over two separate valid subtrees the new node heads a valid subtree denoting `Bin(left, data, right)`. |
| BstNode.Node.SetData | Node.js:20-22 | The `data` setter overwrites the key and leaves both links unchanged. |
| BstNode.Node.SetLeft | Node.js:28-30 | The `left` setter relinks the left child and leaves the key and the right link unchanged. Over a fitting subtree the node stays valid and denotes the new shape. |
| BstNode.Node.SetRight | Node.js:36-38 | The `right` setter relinks the right child and leaves the key and the left link unchanged. Over a fitting subtree the node stays valid and denotes the new shape. |
| BstNode.NodeCount | Node.js:1-8 | A valid subtree has exactly one node object per node of the `Model` tree it denotes: links are never shared. |
| BstTree.BuiltAtMiddle | Tree.js:41-46 | Linking the two halves under the lower-middle element gives a subtree whose in-order walk is the whole range and whose right half has as many keys as the left or one more. |
| BstTree.BuiltFromArray | Tree.js:15-20 | A tree built over the preprocessed array is a height-balanced search tree holding exactly the input's values. |
| BstTree.Tree.constructor | Tree.js:15-20 | `new Tree(array)` builds fresh nodes forming a valid search tree. Its in-order walk is the array with duplicates dropped and sorted ascending. Its keys are exactly the array's values, and it is size- and height-balanced. |
| BstTree.Tree.BuildTree | Tree.js:27-29 | `#buildTree` gives `null` exactly for an empty array. Otherwise it builds fresh nodes whose in-order walk is the array, size-balanced. |
| BstTree.Tree.BuildTreeHelp | Tree.js:38-47 | `#buildTreeHelp(a, s, e)` gives `null` exactly when `s > e`. Otherwise the root holds `a[floor((s+e)/2)]`, the in-order walk is `a[s..e]` inclusive, and the subtree is size-balanced, over fresh nodes. |
| BstTree.Tree.IsEmpty | Tree.js:85-87 | `#isEmpty` holds exactly when the tree has no keys. |
| BstTree.Tree.Insert | Tree.js:95-97 | `insert` as written keeps `#root`. A non-empty tree gains the value in place and keeps its order. An empty tree stays empty, and the new leaf is only returned. No key changes. A link changes only from `null` to a fresh node, and only on the comparison path. |
| BstTree.Tree.InsertLinked | Tree.js:95-97 | `insert` with the returned root stored: the tree stays a search tree, its model is `InsertKey` of the old one, and its keys become the old keys plus the value. No existing node's key changes, and an existing link changes only from `null` to a fresh node. |
| BstTree.Tree.InsertHelp | Tree.js:106-116 | `#insertHelp(root, v)` returns the same root, or a fresh leaf holding `v` with `null` children when `root` is `null`. The result denotes `InsertKey` of the old subtree. A node is created exactly when the descent does not meet `v`. No node off the comparison path is written. Every old node keeps its key. Each of its links either stays the same or goes from `null` to the new leaf. |
| BstTree.DemoTree | main.js:3 | The demo driver's tree is valid, walks `[1, 3, 4, 5, 7, 8, 9, 23, 28, 67, 95]` in order, and is height-balanced. |
| BstTree.InsertIntoEmptyTree | Tree.js:95-96 | Inserting 5 into `new Tree([])` as written leaves the tree empty. With the returned root stored, the tree holds exactly `{5}`. |

## Left out

- `prettyPrint` and `#prettyPrintHelp` (Tree.js:53-79) only write to the console; output is not modelled.
- `main.js` is a driver that prints results. The methods it calls (`isBalanced`, `rebalance`, `getTraversalOrder`, the traversals) are not defined in `Tree.js`, so they are not part of this model. Only its input array is used, by `DemoTree` and `DemoInputPreprocessing`.
- Keys are mathematical integers. JavaScript numbers are IEEE-754 doubles; `NaN`, `-0`, fractions and non-number values, with their behaviour under `Set` and the comparator sort, are not modelled.
- `Set` and `Array.prototype.sort` are library code. They are modelled by what they compute: `Dedup` keeps first occurrences in order, and `SortAscending` is an insertion sort. The in-place sort of `uniqueArray` becomes a new sequence.
- The JavaScript array is a Dafny `seq<int>`. `#buildTreeHelp` reads `values[mid]` only for indices inside the array, so reads past its end (`undefined`) do not arise.
- BstTree.Tree.BuildTreeHelp: the source allocates the root first and then assigns `root.left` and `root.right` through the setters. The model builds both subtrees first and passes them to the `Node` constructor's optional parameters. The result and the nodes allocated are the same; only the allocation order differs.
- The getters of `Node.js` are plain field reads in Dafny and so cannot change any field; they have no members of their own.
- Private `#` fields are ordinary fields; encapsulation is a language matter.
- Recursion depth limits on degenerate trees are not modelled.
- BstNode.Node.SetData: it does not require or keep the search-tree order. Overwriting a key can break the order, and the order is a property of the tree (`BstTree.Tree.Valid`), not of a single node.

## Findings

| source | as written | input that shows it | evidently intended | confidence | as-written member | corrected member |
|---|---|---|---|---|---|---|
| Tree.js:95-96 | `insert` returns `#insertHelp(#root, value)` but never stores it in `#root`, so the leaf created for an empty tree is dropped | `new Tree([])` then `insert(5)`: the tree is still empty (`BstTree.InsertIntoEmptyTree`) | `this.#root = this.#insertHelp(this.#root, value)`, so the tree then holds exactly `{5}` | not executed | BstTree.Tree.Insert | BstTree.Tree.InsertLinked |
