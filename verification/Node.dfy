/** One cell of the binary search tree: a key and two child links, each of
    which is `null` or a node owned by this one alone. */
module BstNode {
  import opened TreeModel

  class Node {
    var data: int
    var left: Node?
    var right: Node?

    /** The nodes of the subtree rooted here. */
    ghost var Repr: set<Node>
    /** The value the subtree rooted here denotes. */
    ghost var Model: BTree

    /** The subtree rooted here is a finite tree: each node is reached by one
        link only, no node is its own descendant, and `Model` mirrors the
        linked keys. (The key order is a property of `Model`, kept by the tree.) */
    ghost predicate Valid()
      reads this, Repr
      decreases Repr
    {
      this in Repr &&
      (left != null ==> left in Repr) &&
      (right != null ==> right in Repr) &&
      Repr == {this} + ReprOf(left) + ReprOf(right) &&
      (left != null ==> this !in left.Repr && left.Valid()) &&
      (right != null ==> this !in right.Repr && right.Valid()) &&
      ReprOf(left) !! ReprOf(right) &&
      Model == Bin(ModelOf(left), data, ModelOf(right))
    }

    /** `new Node(data, left = null, right = null)`: over two separate valid
        subtrees the new node heads a valid subtree. */
    constructor (data: int, left: Node? := null, right: Node? := null)
      ensures this.data == data && this.left == left && this.right == right
      ensures Repr == {this} + ReprOf(left) + ReprOf(right)
      ensures Model == Bin(ModelOf(left), data, ModelOf(right))
      ensures ValidOf(left) && ValidOf(right) && ReprOf(left) !! ReprOf(right) ==> Valid()
    {
      this.data := data;
      this.left := left;
      this.right := right;
      Repr := {this} + ReprOf(left) + ReprOf(right);
      Model := Bin(ModelOf(left), data, ModelOf(right));
    }

    /** The `data` setter: overwrites the key and leaves both links alone. The
        ghost fields follow the new key. */
    method SetData(data: int)
      modifies this
      ensures this.data == data
      ensures left == old(left) && right == old(right)
      ensures Repr == {this} + old(ReprOf(left)) + old(ReprOf(right))
      ensures Model == Bin(old(ModelOf(left)), data, old(ModelOf(right)))
      ensures old(Joinable(this, left, right)) ==> Valid()
    {
      this.data := data;
      Repr := {this} + ReprOf(left) + ReprOf(right);
      Model := Bin(ModelOf(left), data, ModelOf(right));
    }

    /** The `left` setter: relinks the left child and leaves the key and the
        right link alone. When the new child and the right child are separate
        valid subtrees not containing this node, this node heads a valid
        subtree over them afterwards. */
    method SetLeft(left: Node?)
      modifies this
      ensures this.left == left
      ensures data == old(data) && right == old(right)
      ensures Repr == {this} + old(ReprOf(left)) + old(ReprOf(right))
      ensures Model == Bin(old(ModelOf(left)), data, old(ModelOf(right)))
      ensures old(Joinable(this, left, right)) ==> Valid()
    {
      this.left := left;
      Repr := {this} + ReprOf(left) + ReprOf(right);
      Model := Bin(ModelOf(left), data, ModelOf(right));
    }

    /** The `right` setter, the mirror image of the `left` one. */
    method SetRight(right: Node?)
      modifies this
      ensures this.right == right
      ensures data == old(data) && left == old(left)
      ensures Repr == {this} + old(ReprOf(left)) + old(ReprOf(right))
      ensures Model == Bin(old(ModelOf(left)), data, old(ModelOf(right)))
      ensures old(Joinable(this, left, right)) ==> Valid()
    {
      this.right := right;
      Repr := {this} + ReprOf(left) + ReprOf(right);
      Model := Bin(ModelOf(left), data, ModelOf(right));
    }
  }

  /** The nodes of a possibly empty subtree. */
  ghost function ReprOf(n: Node?): set<Node>
    reads n
  {
    if n == null then {} else n.Repr
  }

  /** The value a possibly empty subtree denotes. */
  ghost function ModelOf(n: Node?): BTree
    reads n
  {
    if n == null then Nil else n.Model
  }

  /** A possibly empty subtree that is a valid linked tree. */
  ghost predicate ValidOf(n: Node?)
    reads n, ReprOf(n)
  {
    n != null ==> n.Valid()
  }

  /** `l` and `r` are separate valid subtrees, neither containing `n`: linking
      them under `n` gives a valid subtree. */
  ghost predicate Joinable(n: Node, l: Node?, r: Node?)
    reads l, ReprOf(l), r, ReprOf(r)
  {
    ValidOf(l) && ValidOf(r) &&
    n !in ReprOf(l) && n !in ReprOf(r) && ReprOf(l) !! ReprOf(r)
  }

  /** A valid subtree has one node per entry of its model. */
  lemma {:induction false} NodeCount(n: Node?)
    requires ValidOf(n)
    ensures |ReprOf(n)| == Size(ModelOf(n))
    decreases ReprOf(n)
  {
    if n != null {
      NodeCount(n.left);
      NodeCount(n.right);
      assert n !in ReprOf(n.left) + ReprOf(n.right);
    }
  }
}
