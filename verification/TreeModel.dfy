/** The value a linked subtree denotes: its shape and keys, without the heap.
    The imperative tree in `BstNode`/`BstTree` is specified against these
    functions, and the search-tree facts are proved here once, on values. */
module TreeModel {
  import opened KeyOrder

  datatype BTree = Nil | Bin(left: BTree, key: int, right: BTree)

  /** The keys a subtree holds. */
  function Keys(t: BTree): set<int> {
    if t.Nil? then {} else Keys(t.left) + {t.key} + Keys(t.right)
  }

  /** The keys in in-order: left subtree, node, right subtree. */
  function InOrder(t: BTree): seq<int> {
    if t.Nil? then [] else InOrder(t.left) + [t.key] + InOrder(t.right)
  }

  /** Number of nodes. */
  function Size(t: BTree): nat {
    if t.Nil? then 0 else Size(t.left) + 1 + Size(t.right)
  }

  /** The binary-search-tree order: every key in a left subtree is smaller than
      the node's key, every key in a right subtree larger, at every node. */
  predicate SearchTree(t: BTree) {
    t.Bin? ==>
      (forall k :: k in Keys(t.left) ==> k < t.key) &&
      (forall k :: k in Keys(t.right) ==> t.key < k) &&
      SearchTree(t.left) && SearchTree(t.right)
  }

  /** Whether the descent `#insertHelp` makes — smaller goes left, larger goes
      right — reaches a node holding `v`. */
  predicate Found(t: BTree, v: int) {
    t.Bin? && (if v < t.key then Found(t.left, v) else if v > t.key then Found(t.right, v) else true)
  }

  /** `#insertHelp` on values: a new leaf at the empty slot the descent
      reaches; the tree unchanged when the descent meets `v`. */
  function InsertKey(t: BTree, v: int): BTree {
    if t.Nil? then Bin(Nil, v, Nil)
    else if v < t.key then Bin(InsertKey(t.left, v), t.key, t.right)
    else if v > t.key then Bin(t.left, t.key, InsertKey(t.right, v))
    else t
  }

  lemma {:induction false} InOrderLength(t: BTree)
    ensures |InOrder(t)| == Size(t)
  {
    if t.Bin? {
      InOrderLength(t.left);
      InOrderLength(t.right);
    }
  }

  lemma {:induction false} InOrderElems(t: BTree)
    ensures Elems(InOrder(t)) == Keys(t)
  {
    if t.Bin? {
      InOrderElems(t.left);
      InOrderElems(t.right);
      ElemsJoin(InOrder(t.left), t.key, InOrder(t.right));
    }
  }

  /** The in-order walk of a search tree is strictly ascending. */
  lemma {:induction false} SearchTreeIncreasing(t: BTree)
    requires SearchTree(t)
    ensures Increasing(InOrder(t))
  {
    if t.Bin? {
      SearchTreeIncreasing(t.left);
      SearchTreeIncreasing(t.right);
      InOrderElems(t.left);
      InOrderElems(t.right);
      var l, r := InOrder(t.left), InOrder(t.right);
      var s := InOrder(t);
      assert s == l + [t.key] + r;
      forall i, j | 0 <= i < j < |s| ensures s[i] < s[j] {
        if j < |l| {
          assert s[i] == l[i] && s[j] == l[j];
        } else if i > |l| {
          assert s[i] == r[i - |l| - 1] && s[j] == r[j - |l| - 1];
        } else {
          if i < |l| {
            assert s[i] == l[i] && l[i] in Elems(l);
          }
          if j > |l| {
            assert s[j] == r[j - |l| - 1] && r[j - |l| - 1] in Elems(r);
          }
        }
      }
    }
  }

  /** A tree whose in-order walk is strictly ascending is a search tree. */
  lemma {:induction false} IncreasingSearchTree(t: BTree)
    requires Increasing(InOrder(t))
    ensures SearchTree(t)
  {
    if t.Bin? {
      InOrderElems(t.left);
      InOrderElems(t.right);
      var l, r := InOrder(t.left), InOrder(t.right);
      var s := InOrder(t);
      assert s == l + [t.key] + r;
      assert Increasing(l) by {
        forall i, j | 0 <= i < j < |l| ensures l[i] < l[j] {
          assert s[i] == l[i] && s[j] == l[j];
        }
      }
      assert Increasing(r) by {
        forall i, j | 0 <= i < j < |r| ensures r[i] < r[j] {
          assert s[|l| + 1 + i] == r[i] && s[|l| + 1 + j] == r[j];
        }
      }
      IncreasingSearchTree(t.left);
      IncreasingSearchTree(t.right);
      forall k | k in Keys(t.left) ensures k < t.key {
        var i :| 0 <= i < |l| && l[i] == k;
        assert s[i] == k && s[|l|] == t.key;
      }
      forall k | k in Keys(t.right) ensures t.key < k {
        var i :| 0 <= i < |r| && r[i] == k;
        assert s[|l| + 1 + i] == k && s[|l|] == t.key;
      }
    }
  }

  /** The search-tree order is exactly a strictly ascending in-order walk. */
  lemma SearchTreeIffIncreasing(t: BTree)
    ensures SearchTree(t) <==> Increasing(InOrder(t))
  {
    if SearchTree(t) {
      SearchTreeIncreasing(t);
    }
    if Increasing(InOrder(t)) {
      IncreasingSearchTree(t);
    }
  }

  /** Insertion adds exactly `v` to the keys. */
  lemma {:induction false} InsertKeys(t: BTree, v: int)
    ensures Keys(InsertKey(t, v)) == Keys(t) + {v}
  {
    if t.Bin? {
      if v < t.key {
        InsertKeys(t.left, v);
      } else if v > t.key {
        InsertKeys(t.right, v);
      }
    }
  }

  /** Insertion keeps the search-tree order. */
  lemma {:induction false} InsertSearchTree(t: BTree, v: int)
    requires SearchTree(t)
    ensures SearchTree(InsertKey(t, v))
  {
    if t.Bin? {
      if v < t.key {
        InsertSearchTree(t.left, v);
        InsertKeys(t.left, v);
      } else if v > t.key {
        InsertSearchTree(t.right, v);
        InsertKeys(t.right, v);
      }
    }
  }

  /** In a search tree the descent finds `v` exactly when `v` is a key. */
  lemma {:induction false} FoundIffKey(t: BTree, v: int)
    requires SearchTree(t)
    ensures Found(t, v) <==> v in Keys(t)
  {
    if t.Bin? {
      if v < t.key {
        FoundIffKey(t.left, v);
        assert v !in Keys(t.right);
      } else if v > t.key {
        FoundIffKey(t.right, v);
        assert v !in Keys(t.left);
      }
    }
  }

  /** Inserting a key the descent finds changes nothing; otherwise the tree
      gains exactly one node. */
  lemma {:induction false} InsertSize(t: BTree, v: int)
    ensures Found(t, v) ==> InsertKey(t, v) == t
    ensures !Found(t, v) ==> Size(InsertKey(t, v)) == Size(t) + 1
  {
    if t.Bin? {
      if v < t.key {
        InsertSize(t.left, v);
      } else if v > t.key {
        InsertSize(t.right, v);
      }
    }
  }

  /** In a search tree, insertion leaves the tree as it was exactly when the
      key is already present: "insertion does not occur" for a duplicate. */
  lemma InsertUnchangedIffPresent(t: BTree, v: int)
    requires SearchTree(t)
    ensures InsertKey(t, v) == t <==> v in Keys(t)
  {
    FoundIffKey(t, v);
    InsertSize(t, v);
    InsertKeys(t, v);
  }
}
