/** The binary search tree over numeric keys: balanced construction from an
    array, the emptiness test and recursive insertion. The linked nodes are
    specified by the value `Model` they denote; what the tree promises about
    its keys is proved on that value in `TreeModel` and `Balance`. */
module BstTree {
  import opened KeyOrder
  import opened TreeModel
  import opened BstNode
  import opened Balance

  /** The nodes whose child links `#insertHelp(n, v)` assigns: those where `v`
      is compared and found smaller or larger. The node holding `v`, if any, is
      not among them, and neither is any node off the comparison path. */
  ghost function SearchPath(n: Node?, v: int): (p: set<Node>)
    requires ValidOf(n)
    reads n, ReprOf(n)
    ensures p <= ReprOf(n)
    decreases ReprOf(n)
  {
    if n == null then {}
    else if v < n.data then {n} + SearchPath(n.left, v)
    else if v > n.data then {n} + SearchPath(n.right, v)
    else {}
  }

  /** A size-balanced tree whose in-order walk is the constructor's
      preprocessed array is a height-balanced search tree holding exactly the
      array's values. */
  lemma BuiltFromArray(values: seq<int>, t: BTree)
    requires InOrder(t) == SortAscending(Dedup(values))
    requires SizeBalanced(t)
    ensures SearchTree(t) && Keys(t) == Elems(values) && HeightBalanced(t)
  {
    SortedUniqueInput(values);
    IncreasingSearchTree(t);
    InOrderElems(t);
    SizeBalancedIsHeightBalanced(t);
  }

  /** Objects allocated since a state are apart from any set of objects that
      already existed in it. */
  twostate lemma FreshApart(existing: set<Node>, new created: set<Node>)
    requires fresh(created)
    ensures existing !! created
  {
  }

  /** The subtree `#buildTreeHelp` links over the two halves of a range walks
      the whole range in order and is size-balanced at its root. */
  lemma BuiltAtMiddle(values: seq<int>, start: int, mid: int, end: int, left: BTree, right: BTree)
    requires 0 <= start <= end < |values| && mid == (start + end) / 2
    requires InOrder(left) == values[start..mid] && InOrder(right) == values[mid + 1..end + 1]
    requires SizeBalanced(left) && SizeBalanced(right)
    ensures InOrder(Bin(left, values[mid], right)) == values[start..end + 1]
    ensures SizeBalanced(Bin(left, values[mid], right))
  {
    SliceAround(values, start, mid, end);
    InOrderLength(left);
    InOrderLength(right);
  }

  class Tree {
    var root: Node?

    /** The nodes form a finite linked tree whose keys are in search-tree order. */
    ghost predicate Valid()
      reads this, root, ReprOf(root)
    {
      ValidOf(root) && SearchTree(ModelOf(root))
    }

    /** The value the whole tree denotes. */
    ghost function Model(): BTree
      reads this, root
    {
      ModelOf(root)
    }

    /** `new Tree(array)`: drops duplicates, sorts ascending, builds a balanced
        tree. Its keys are exactly the array's values, each once, in ascending
        in-order. */
    constructor (values: seq<int>)
      ensures Valid() && fresh(ReprOf(root))
      ensures InOrder(Model()) == SortAscending(Dedup(values))
      ensures Keys(Model()) == Elems(values)
      ensures SizeBalanced(Model()) && HeightBalanced(Model())
    {
      var uniqueArray := Dedup(values);
      var sortedUniqueArray := SortAscending(uniqueArray);
      var built := BuildTree(sortedUniqueArray);
      ghost var t := ModelOf(built);
      BuiltFromArray(values, t);
      root := built;
    }

    /** `#buildTree`: the balanced tree over the whole array, whose in-order
        walk is the array itself. */
    static method BuildTree(values: seq<int>) returns (root: Node?)
      ensures ValidOf(root) && fresh(ReprOf(root))
      ensures root == null <==> values == []
      ensures InOrder(ModelOf(root)) == values
      ensures SizeBalanced(ModelOf(root))
    {
      root := BuildTreeHelp(values, 0, |values| - 1);
    }

    /** `#buildTreeHelp`: the balanced tree over `values[start..end]` (both ends
        included), rooted at the lower middle element, whose in-order walk is
        that range. */
    static method BuildTreeHelp(values: seq<int>, start: int, end: int) returns (root: Node?)
      requires 0 <= start && end < |values|
      ensures root == null <==> start > end
      ensures ValidOf(root) && fresh(ReprOf(root))
      ensures start <= end + 1 ==> InOrder(ModelOf(root)) == values[start..end + 1]
      ensures root != null ==> root.data == values[(start + end) / 2]
      ensures SizeBalanced(ModelOf(root))
      decreases end - start + 1
    {
      if start > end {
        return null;
      }
      var mid := (start + end) / 2;
      var l := BuildTreeHelp(values, start, mid - 1);
      label leftBuilt:
      var r := BuildTreeHelp(values, mid + 1, end);
      FreshApart@leftBuilt(ReprOf(l), ReprOf(r));
      BuiltAtMiddle(values, start, mid, end, ModelOf(l), ModelOf(r));
      root := new Node(values[mid], l, r);
    }

    /** `#isEmpty`: the tree has no root node, that is, no keys. */
    predicate IsEmpty()
      reads this, root, ReprOf(root)
      ensures ValidOf(root) ==> (IsEmpty() <==> Keys(Model()) == {})
    {
      root == null
    }

    /** `insert(value)` as written: the subtree root `#insertHelp` returns is
        handed back to the caller and never stored in `#root`. A non-empty tree
        gains `value` in place; an empty tree stays empty, and the new node is
        reachable only through the returned reference. */
    method Insert(value: int) returns (r: Node)
      requires Valid()
      modifies SearchPath(root, value)
      ensures root == old(root) && Valid()
      ensures old(root) == null ==> Model() == Nil && fresh(r) && r.Valid() && r.Model == Bin(Nil, value, Nil)
      ensures old(root) != null ==> r == root && Model() == InsertKey(old(Model()), value)
      ensures old(root) != null ==> Keys(Model()) == old(Keys(Model())) + {value}
      ensures fresh(ReprOf(root) - old(ReprOf(root)))
      ensures forall n :: n in old(ReprOf(root)) ==>
        n.data == old(n.data) &&
        (n.left == old(n.left) || (old(n.left) == null && fresh(n.left))) &&
        (n.right == old(n.right) || (old(n.right) == null && fresh(n.right)))
    {
      ghost var before := Model();
      ghost var leaf;
      r, leaf := InsertHelp(root, value);
      InsertSearchTree(before, value);
      InsertKeys(before, value);
    }

    /** `insert(value)` as evidently intended: `#root = #insertHelp(#root, value)`.
        The tree keeps its order and gains exactly `value`. */
    method InsertLinked(value: int)
      requires Valid()
      modifies this, SearchPath(root, value)
      ensures Valid()
      ensures Model() == InsertKey(old(Model()), value)
      ensures Keys(Model()) == old(Keys(Model())) + {value}
      ensures old(root) != null ==> root == old(root)
      ensures fresh(ReprOf(root) - old(ReprOf(root)))
      ensures forall n :: n in old(ReprOf(root)) ==>
        n.data == old(n.data) &&
        (n.left == old(n.left) || (old(n.left) == null && fresh(n.left))) &&
        (n.right == old(n.right) || (old(n.right) == null && fresh(n.right)))
    {
      ghost var before := Model();
      ghost var leaf;
      root, leaf := InsertHelp(root, value);
      InsertSearchTree(before, value);
      InsertKeys(before, value);
    }

    /** `#insertHelp(root, value)`: descends by comparing with `data`, puts a new
        leaf at the empty slot it reaches, relinks each parent on the way back,
        and does nothing when the descent meets `value`. The subtree it returns
        denotes `InsertKey` of the one it was given; `leaf` names the one node it
        creates, if any. */
    static method InsertHelp(root: Node?, value: int) returns (r: Node, ghost leaf: Node?)
      requires ValidOf(root)
      modifies SearchPath(root, value)
      ensures r.Valid()
      ensures root == null ==> r == leaf
      ensures root != null ==> r == root
      ensures r.Model == InsertKey(old(ModelOf(root)), value)
      ensures leaf == null <==> Found(old(ModelOf(root)), value)
      ensures leaf != null ==> fresh(leaf) && leaf.data == value && leaf.left == null && leaf.right == null
      ensures r.Repr == old(ReprOf(root)) + (if leaf == null then {} else {leaf})
      ensures forall n :: n in old(ReprOf(root)) ==>
        n.data == old(n.data) &&
        (n.left == old(n.left) || (old(n.left) == null && n.left == leaf)) &&
        (n.right == old(n.right) || (old(n.right) == null && n.right == leaf))
      decreases ReprOf(root)
    {
      if root == null {
        r := new Node(value);
        leaf := r;
        return;
      }
      r, leaf := root, null;
      var data, left, right := root.data, root.left, root.right;
      ghost var leftNodes, rightNodes := ReprOf(left), ReprOf(right);
      if value < data {
        assert rightNodes !! SearchPath(left, value);
        assert ValidOf(right) && root !in rightNodes;
        var l;
        l, leaf := InsertHelp(left, value);
        ghost var added := if leaf == null then {} else {leaf};
        assert ReprOf(right) == rightNodes && ValidOf(right);
        assert root !in leftNodes && leftNodes !! rightNodes && root !in rightNodes;
        assert added !! rightNodes && root !in added;
        assert root !in ReprOf(l) && root !in ReprOf(right) && ReprOf(l) !! ReprOf(right);
        assert leaf != null ==> leaf != root && leaf.data == value && leaf.left == null && leaf.right == null;
        root.SetLeft(l);
        ReprAfterLeftInsert({root}, leftNodes, rightNodes, added);
        forall n | n in old(ReprOf(root))
          ensures n.data == old(n.data)
          ensures n.left == old(n.left) || (old(n.left) == null && n.left == leaf)
          ensures n.right == old(n.right) || (old(n.right) == null && n.right == leaf)
        {
          if n != root && n !in leftNodes {
            assert n in rightNodes;
          }
        }
      } else if value > data {
        assert leftNodes !! SearchPath(right, value);
        assert ValidOf(left) && root !in leftNodes;
        var rr;
        rr, leaf := InsertHelp(right, value);
        ghost var added := if leaf == null then {} else {leaf};
        assert ReprOf(left) == leftNodes && ValidOf(left);
        assert root !in leftNodes && leftNodes !! rightNodes && root !in rightNodes;
        assert added !! leftNodes && root !in added;
        assert root !in ReprOf(left) && root !in ReprOf(rr) && ReprOf(left) !! ReprOf(rr);
        assert leaf != null ==> leaf != root && leaf.data == value && leaf.left == null && leaf.right == null;
        root.SetRight(rr);
        ReprAfterRightInsert({root}, leftNodes, rightNodes, added);
        forall n | n in old(ReprOf(root))
          ensures n.data == old(n.data)
          ensures n.left == old(n.left) || (old(n.left) == null && n.left == leaf)
          ensures n.right == old(n.right) || (old(n.right) == null && n.right == leaf)
        {
          if n != root && n !in rightNodes {
            assert n in leftNodes;
          }
        }
      }
    }
  }

  /** The nodes of a relinked parent `p` after its left subtree `q` gained the
      nodes `c`: its old nodes plus `c`. */
  lemma ReprAfterLeftInsert<T>(p: set<T>, q: set<T>, r: set<T>, c: set<T>)
    ensures p + (q + c) + r == (p + q + r) + c
  {
  }

  /** The same after its right subtree `r` gained the nodes `c`. */
  lemma ReprAfterRightInsert<T>(p: set<T>, q: set<T>, r: set<T>, c: set<T>)
    ensures p + q + (r + c) == (p + q + r) + c
  {
  }

  /** The constructor on the demo driver's array: the eleven unique keys in
      ascending order, in a height-balanced tree. */
  method DemoTree() returns (t: Tree)
    ensures t.Valid() && InOrder(t.Model()) == [1, 3, 4, 5, 7, 8, 9, 23, 28, 67, 95]
    ensures HeightBalanced(t.Model())
  {
    t := new Tree([1, 7, 4, 23, 8, 9, 4, 3, 5, 7, 9, 67, 95, 28]);
    DemoInputPreprocessing();
    SizeBalancedIsHeightBalanced(t.Model());
  }

  /** Inserting 5 into trees built from `[]`: as written the tree stays empty;
      with the returned root stored, it holds exactly that key. */
  method InsertIntoEmptyTree() returns (asWritten: Tree, linked: Tree)
    ensures asWritten.Valid() && asWritten.IsEmpty()
    ensures linked.Valid() && Keys(linked.Model()) == {5}
  {
    asWritten := new Tree([]);
    var _ := asWritten.Insert(5);
    linked := new Tree([]);
    linked.InsertLinked(5);
  }
}
