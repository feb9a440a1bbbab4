/** Facts about sequences of keys: the order a binary search tree keeps, and the
    preprocessing the tree's constructor applies to its input array
    (duplicates dropped through a `Set`, then a numeric ascending sort). */
module KeyOrder {

  /** Strictly ascending: each key once, smaller keys first. */
  predicate Increasing(s: seq<int>) {
    forall i, j :: 0 <= i < j < |s| ==> s[i] < s[j]
  }

  /** Ascending, with equal keys allowed next to each other. */
  predicate Sorted(s: seq<int>) {
    forall i, j :: 0 <= i < j < |s| ==> s[i] <= s[j]
  }

  /** No key occurs twice. */
  predicate Distinct(s: seq<int>) {
    forall i, j :: 0 <= i < j < |s| ==> s[i] != s[j]
  }

  /** The set of keys a sequence holds. */
  function Elems(s: seq<int>): set<int> {
    set x | x in s
  }

  lemma ElemsJoin(a: seq<int>, x: int, b: seq<int>)
    ensures Elems(a + [x] + b) == Elems(a) + {x} + Elems(b)
  {
    assert forall y :: y in a + [x] + b <==> y in a || y == x || y in b;
  }

  /** A range is its part before `mid`, the key at `mid` and its part after. */
  lemma SliceAround(s: seq<int>, start: int, mid: int, end: int)
    requires 0 <= start <= mid <= end < |s|
    ensures s[start..end + 1] == s[start..mid] + [s[mid]] + s[mid + 1..end + 1]
  {
  }

  /** `[...new Set(xs)]`: every value of `xs` once, in the order of its first occurrence. */
  function Dedup(xs: seq<int>): seq<int> {
    if xs == [] then []
    else
      var d := Dedup(xs[..|xs| - 1]);
      if xs[|xs| - 1] in d then d else d + [xs[|xs| - 1]]
  }

  /** `Dedup` keeps every value of its input, once, and nothing else. */
  lemma {:induction false} DedupSpec(xs: seq<int>)
    ensures Distinct(Dedup(xs))
    ensures Elems(Dedup(xs)) == Elems(xs)
    ensures |Dedup(xs)| <= |xs|
  {
    if xs != [] {
      var init, last := xs[..|xs| - 1], xs[|xs| - 1];
      assert xs == init + [last];
      DedupSpec(init);
      var d := Dedup(init);
      assert Elems(xs) == Elems(init) + {last};
      if last !in d {
        assert Elems(d + [last]) == Elems(d) + {last};
      }
    }
  }

  /** Places `x` into `s` before the first key that is not smaller. */
  function InsertSorted(s: seq<int>, x: int): seq<int> {
    if s == [] || x <= s[0] then [x] + s
    else [s[0]] + InsertSorted(s[1..], x)
  }

  /** Inserting adds `x` and keeps every other key. */
  lemma {:induction false} InsertSortedKeys(s: seq<int>, x: int)
    ensures multiset(InsertSorted(s, x)) == multiset(s) + multiset{x}
  {
    if s != [] && x > s[0] {
      assert s == [s[0]] + s[1..];
      InsertSortedKeys(s[1..], x);
    }
  }

  /** Inserting into a sorted sequence keeps it sorted. */
  lemma {:induction false} InsertSortedOrder(s: seq<int>, x: int)
    requires Sorted(s)
    ensures Sorted(InsertSorted(s, x))
  {
    if s != [] && x > s[0] {
      var t := InsertSorted(s[1..], x);
      InsertSortedOrder(s[1..], x);
      InsertSortedKeys(s[1..], x);
      forall j | 0 <= j < |t| ensures s[0] <= t[j] {
        assert t[j] in multiset(t);
      }
    }
  }

  /** Inserting a new key into a strictly ascending sequence keeps it strictly ascending. */
  lemma {:induction false} InsertSortedIncreasing(s: seq<int>, x: int)
    requires Increasing(s) && x !in s
    ensures Increasing(InsertSorted(s, x))
  {
    if s != [] && x > s[0] {
      var t := InsertSorted(s[1..], x);
      assert Increasing(s[1..]);
      InsertSortedIncreasing(s[1..], x);
      InsertSortedKeys(s[1..], x);
      forall j | 0 <= j < |t| ensures s[0] < t[j] {
        assert t[j] in multiset(t);
      }
    }
  }

  /** The numeric ascending sort `sort((a, b) => a - b)`, as insertion sort. */
  function SortAscending(s: seq<int>): seq<int> {
    if s == [] then [] else InsertSorted(SortAscending(s[1..]), s[0])
  }

  /** The sort is a permutation of its input. */
  lemma {:induction false} SortAscendingKeys(s: seq<int>)
    ensures multiset(SortAscending(s)) == multiset(s)
  {
    if s != [] {
      SortAscendingKeys(s[1..]);
      InsertSortedKeys(SortAscending(s[1..]), s[0]);
      assert s == [s[0]] + s[1..];
    }
  }

  /** The sort yields an ascending sequence. */
  lemma {:induction false} SortAscendingSorted(s: seq<int>)
    ensures Sorted(SortAscending(s))
  {
    if s != [] {
      SortAscendingSorted(s[1..]);
      InsertSortedOrder(SortAscending(s[1..]), s[0]);
    }
  }

  /** Sorting a sequence without repeated keys yields a strictly ascending one. */
  lemma {:induction false} SortAscendingIncreasing(s: seq<int>)
    requires Distinct(s)
    ensures Increasing(SortAscending(s))
  {
    if s != [] {
      var t := SortAscending(s[1..]);
      assert Distinct(s[1..]);
      SortAscendingIncreasing(s[1..]);
      SortAscendingKeys(s[1..]);
      assert s[0] !in multiset(s[1..]);
      assert s[0] !in t;
      InsertSortedIncreasing(t, s[0]);
    }
  }

  /** The array the constructor hands to `#buildTree`: every input value exactly once,
      in strictly ascending order. */
  lemma {:induction false} SortedUniqueInput(xs: seq<int>)
    ensures Increasing(SortAscending(Dedup(xs)))
    ensures Elems(SortAscending(Dedup(xs))) == Elems(xs)
  {
    var d := Dedup(xs);
    var u := SortAscending(d);
    DedupSpec(xs);
    SortAscendingKeys(d);
    SortAscendingIncreasing(d);
    forall x ensures x in u <==> x in d {
      assert x in u <==> x in multiset(u);
      assert x in d <==> x in multiset(d);
    }
  }

  /** A strictly ascending sequence is determined by the set of its keys. */
  lemma {:induction false} IncreasingUnique(s: seq<int>, t: seq<int>)
    requires Increasing(s) && Increasing(t)
    requires Elems(s) == Elems(t)
    ensures s == t
  {
    if s == [] {
      assert forall i :: 0 <= i < |t| ==> t[i] in Elems(t);
    } else {
      assert s[0] in Elems(t);
      assert t != [];
      assert t[0] in Elems(s);
      assert s[0] == t[0];
      assert s == [s[0]] + s[1..];
      assert t == [t[0]] + t[1..];
      assert Elems(s[1..]) == Elems(t[1..]) by {
        forall x ensures x in s[1..] <==> x in t[1..] {
          if x in s[1..] {
            assert x in Elems(t);
            assert x != t[0];
          }
          if x in t[1..] {
            assert x in Elems(s);
            assert x != s[0];
          }
        }
      }
      IncreasingUnique(s[1..], t[1..]);
    }
  }

  /** The constructor's preprocessing on the array used by the demo driver:
      fourteen values with repeats become eleven ascending unique keys. */
  lemma DemoInputPreprocessing()
    ensures SortAscending(Dedup([1, 7, 4, 23, 8, 9, 4, 3, 5, 7, 9, 67, 95, 28]))
         == [1, 3, 4, 5, 7, 8, 9, 23, 28, 67, 95]
  {
    SortedUniqueOf([1, 7, 4, 23, 8, 9, 4, 3, 5, 7, 9, 67, 95, 28], [1, 3, 4, 5, 7, 8, 9, 23, 28, 67, 95]);
  }

  /** The preprocessed input is the one strictly ascending sequence with the input's keys. */
  lemma SortedUniqueOf(xs: seq<int>, want: seq<int>)
    requires Increasing(want)
    requires forall x :: x in xs <==> x in want
    ensures SortAscending(Dedup(xs)) == want
  {
    var u := SortAscending(Dedup(xs));
    SortedUniqueInput(xs);
    forall x ensures x in Elems(u) <==> x in Elems(want) {
      assert x in Elems(u) <==> x in Elems(xs);
    }
    IncreasingUnique(u, want);
  }
}
