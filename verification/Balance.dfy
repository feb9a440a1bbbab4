/** Shape measures of a subtree: how many keys, how tall, and the two notions
    of "balanced" the tree's construction guarantees. */
module Balance {
  import opened TreeModel

  /** Edges on the longest downward path; an empty subtree has height -1. */
  function Height(t: BTree): (h: int)
    ensures h >= -1
    ensures t.Bin? ==> h >= 0
  {
    if t.Nil? then -1
    else
      var hl, hr := Height(t.left), Height(t.right);
      1 + (if hl < hr then hr else hl)
  }

  /** At every node the right subtree holds as many keys as the left one or
      exactly one more: the shape `#buildTreeHelp` produces. */
  predicate SizeBalanced(t: BTree) {
    t.Bin? ==>
      Size(t.left) <= Size(t.right) <= Size(t.left) + 1 &&
      SizeBalanced(t.left) && SizeBalanced(t.right)
  }

  /** At every node the heights of the two subtrees differ by at most one. */
  predicate HeightBalanced(t: BTree) {
    t.Bin? ==>
      -1 <= Height(t.right) - Height(t.left) <= 1 &&
      HeightBalanced(t.left) && HeightBalanced(t.right)
  }

  /** floor(log2(m)) for m > 0, and -1 for m == 0. */
  function FloorLog2(m: nat): (r: int)
    ensures -1 <= r < m
    ensures m > 0 ==> r >= 0
  {
    if m == 0 then -1 else 1 + FloorLog2(m / 2)
  }

  lemma {:induction false} FloorLog2Monotone(a: nat, b: nat)
    requires a <= b
    ensures FloorLog2(a) <= FloorLog2(b)
  {
    if a > 0 {
      FloorLog2Monotone(a / 2, b / 2);
    }
  }

  lemma {:induction false} FloorLog2Step(m: nat)
    ensures FloorLog2(m + 1) <= FloorLog2(m) + 1
  {
    if m > 0 {
      if (m + 1) / 2 == m / 2 {
      } else {
        FloorLog2Step(m / 2);
      }
    }
  }

  /** A node over two subtrees whose heights are the logarithms of their sizes,
      the right one holding as many keys as the left or one more, has height
      the logarithm of its size. */
  lemma HeightJoin(t: BTree)
    requires t.Bin?
    requires Size(t.left) <= Size(t.right) <= Size(t.left) + 1
    requires Height(t.left) == FloorLog2(Size(t.left))
    requires Height(t.right) == FloorLog2(Size(t.right))
    ensures Height(t) == FloorLog2(Size(t))
  {
    var sl, sr := Size(t.left), Size(t.right);
    FloorLog2Monotone(sl, sr);
    assert Height(t) == 1 + FloorLog2(sr);
    var m := Size(t);
    assert m == sl + 1 + sr && m / 2 == sr;
    assert FloorLog2(m) == 1 + FloorLog2(m / 2);
  }

  /** A size-balanced subtree with m keys has height floor(log2(m)). */
  lemma {:induction false} SizeBalancedHeight(t: BTree)
    requires SizeBalanced(t)
    ensures Height(t) == FloorLog2(Size(t))
  {
    if t.Bin? {
      SizeBalancedHeight(t.left);
      SizeBalancedHeight(t.right);
      HeightJoin(t);
    }
  }

  /** No binary tree with m nodes is lower than floor(log2(m)). */
  lemma {:induction false} HeightLowerBound(t: BTree)
    ensures Height(t) >= FloorLog2(Size(t))
  {
    if t.Bin? {
      HeightLowerBound(t.left);
      HeightLowerBound(t.right);
      if Size(t.left) <= Size(t.right) {
        FloorLog2Monotone(Size(t) / 2, Size(t.right));
      } else {
        FloorLog2Monotone(Size(t) / 2, Size(t.left));
      }
    }
  }

  /** A size-balanced tree is as low as any binary tree with as many nodes. */
  lemma SizeBalancedLowest(t: BTree, u: BTree)
    requires SizeBalanced(t) && Size(u) == Size(t)
    ensures Height(t) <= Height(u)
  {
    SizeBalancedHeight(t);
    HeightLowerBound(u);
  }

  /** Under a size-balanced node the right subtree is as tall as the left one
      or one level taller. */
  lemma HeightGap(t: BTree)
    requires t.Bin? && SizeBalanced(t)
    ensures 0 <= Height(t.right) - Height(t.left) <= 1
  {
    var sl, sr := Size(t.left), Size(t.right);
    SizeBalancedHeight(t.left);
    SizeBalancedHeight(t.right);
    if sr == sl {
      assert Height(t.right) == Height(t.left);
    } else {
      assert sr == sl + 1;
      FloorLog2Monotone(sl, sr);
      FloorLog2Step(sl);
    }
  }

  /** The size balance of `#buildTreeHelp` implies height balance at every node. */
  lemma {:induction false} SizeBalancedIsHeightBalanced(t: BTree)
    requires SizeBalanced(t)
    ensures HeightBalanced(t)
  {
    if t.Bin? {
      HeightGap(t);
      SizeBalancedIsHeightBalanced(t.left);
      SizeBalancedIsHeightBalanced(t.right);
    }
  }
}
