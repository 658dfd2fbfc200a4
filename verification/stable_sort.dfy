/**
  A stable sort driven by a comparator, as `Array.prototype.sort` performs it
  (stability has been required of that method since ECMAScript 2019).

  The comparator is given as the relation `before(a, b)`: `a` may stay ahead
  of `b`. The sort itself is a plain insertion sort. Its lemmas show that it
  returns a permutation of its input, that the result is ordered whenever
  `before` is a total preorder, that elements the preorder ties keep their
  input order, and that a sequence with those three properties is unique, so
  any stable sort with the same comparator returns the same sequence.
*/
module StableSort {

  ghost predicate Total<T(!new)>(before: (T, T) -> bool) {
    forall a, b :: before(a, b) || before(b, a)
  }

  ghost predicate Transitive<T(!new)>(before: (T, T) -> bool) {
    forall a, b, c :: before(a, b) && before(b, c) ==> before(a, c)
  }

  /** What a consistent comparator provides: every pair is ordered, and transitively. */
  ghost predicate TotalPreorder<T(!new)>(before: (T, T) -> bool) {
    Total(before) && Transitive(before)
  }

  /** Neither element has to come first: the comparator reports them equal. */
  predicate Tied<T>(before: (T, T) -> bool, a: T, b: T) {
    before(a, b) && before(b, a)
  }

  /** Every earlier element may stay ahead of every later one. */
  ghost predicate Sorted<T>(s: seq<T>, before: (T, T) -> bool) {
    forall i, j :: 0 <= i < j < |s| ==> before(s[i], s[j])
  }

  /** The elements of `s` tied with `k`, in the order they appear in `s`. */
  function TiesOf<T>(s: seq<T>, k: T, before: (T, T) -> bool): (r: seq<T>)
    ensures |r| <= |s|
    ensures forall x :: x in r ==> x in s && Tied(before, x, k)
  {
    if |s| == 0 then []
    else if Tied(before, s[0], k) then [s[0]] + TiesOf(s[1..], k, before)
    else TiesOf(s[1..], k, before)
  }

  /** Stability: every class of tied elements appears in `r` in the order it has in `s`. */
  ghost predicate KeepsTieOrder<T(!new)>(r: seq<T>, s: seq<T>, before: (T, T) -> bool) {
    forall k :: TiesOf(r, k, before) == TiesOf(s, k, before)
  }

  /** What it means for `r` to be a stable sort of `s`. */
  ghost predicate IsStableSortOf<T(!new)>(r: seq<T>, s: seq<T>, before: (T, T) -> bool) {
    && multiset(r) == multiset(s)
    && Sorted(r, before)
    && KeepsTieOrder(r, s, before)
  }

  /** Places `x` ahead of the first element it may precede. */
  function Insert<T>(x: T, s: seq<T>, before: (T, T) -> bool): (r: seq<T>)
    ensures multiset(r) == multiset(s) + multiset{x}
  {
    if |s| == 0 then [x]
    else if before(x, s[0]) then [x] + s
    else
      var rest := Insert(x, s[1..], before);
      assert s == [s[0]] + s[1..];
      [s[0]] + rest
  }

  /** Insertion sort: sort the tail, then insert the head ahead of its ties. */
  function InsertionSort<T>(s: seq<T>, before: (T, T) -> bool): (r: seq<T>)
    ensures multiset(r) == multiset(s)
    ensures |r| == |s|
  {
    if |s| == 0 then []
    else
      var rest := InsertionSort(s[1..], before);
      assert s == [s[0]] + s[1..];
      assert |multiset(rest)| == |rest|;
      Insert(s[0], rest, before)
  }

  /** Inserting into an ordered sequence keeps it ordered. */
  lemma {:induction false} InsertSorted<T(!new)>(x: T, s: seq<T>, before: (T, T) -> bool)
    requires TotalPreorder(before)
    requires Sorted(s, before)
    ensures Sorted(Insert(x, s, before), before)
    decreases |s|
  {
    var r := Insert(x, s, before);
    if |s| == 0 {
    } else if before(x, s[0]) {
      forall i, j | 0 <= i < j < |r| ensures before(r[i], r[j]) {
        if i == 0 && j > 1 {
          assert r[j] == s[j - 1];
        }
      }
    } else {
      var rest := Insert(x, s[1..], before);
      assert Sorted(s[1..], before);
      InsertSorted(x, s[1..], before);
      assert before(s[0], x);
      forall y | y in rest ensures before(s[0], y) {
        assert y in multiset(rest);
        if y != x {
          assert y in multiset(s[1..]);
        }
      }
      forall i, j | 0 <= i < j < |r| ensures before(r[i], r[j]) {
        if i == 0 {
          assert r[j] == rest[j - 1];
          assert r[j] in rest;
        } else {
          assert r[i] == rest[i - 1] && r[j] == rest[j - 1];
        }
      }
    }
  }

  /** The result of the sort is ordered. */
  lemma {:induction false} InsertionSortSorted<T(!new)>(s: seq<T>, before: (T, T) -> bool)
    requires TotalPreorder(before)
    ensures Sorted(InsertionSort(s, before), before)
    decreases |s|
  {
    if |s| > 0 {
      InsertionSortSorted(s[1..], before);
      InsertSorted(s[0], InsertionSort(s[1..], before), before);
    }
  }

  /** Inserting `x` puts it ahead of every element tied with it, wherever the rest of `s` goes. */
  lemma {:induction false} InsertTies<T(!new)>(x: T, s: seq<T>, k: T, before: (T, T) -> bool)
    requires TotalPreorder(before)
    ensures TiesOf(Insert(x, s, before), k, before)
         == (if Tied(before, x, k) then [x] else []) + TiesOf(s, k, before)
    decreases |s|
  {
    if |s| == 0 {
    } else if before(x, s[0]) {
      assert ([x] + s)[1..] == s;
    } else {
      var rest := Insert(x, s[1..], before);
      assert ([s[0]] + rest)[1..] == rest;
      InsertTies(x, s[1..], k, before);
      if Tied(before, x, k) {
        // s[0] cannot be tied with k too: x would then be allowed ahead of s[0].
        assert !Tied(before, s[0], k);
      }
    }
  }

  /** The sort is stable. */
  lemma {:induction false} InsertionSortKeepsTieOrder<T(!new)>(s: seq<T>, before: (T, T) -> bool)
    requires TotalPreorder(before)
    ensures KeepsTieOrder(InsertionSort(s, before), s, before)
    decreases |s|
  {
    if |s| > 0 {
      InsertionSortKeepsTieOrder(s[1..], before);
      forall k ensures TiesOf(InsertionSort(s, before), k, before) == TiesOf(s, k, before) {
        InsertTies(s[0], InsertionSort(s[1..], before), k, before);
      }
    }
  }

  /** Insertion sort is a stable sort in the sense of `IsStableSortOf`. */
  lemma InsertionSortIsStableSort<T(!new)>(s: seq<T>, before: (T, T) -> bool)
    requires TotalPreorder(before)
    ensures IsStableSortOf(InsertionSort(s, before), s, before)
  {
    InsertionSortSorted(s, before);
    InsertionSortKeepsTieOrder(s, before);
  }

  /** An element is tied with itself, so a non-empty sequence has a non-empty class of ties. */
  lemma NonEmptyHasTies<T(!new)>(s: seq<T>, before: (T, T) -> bool)
    requires Total(before)
    requires |s| > 0
    ensures exists k :: TiesOf(s, k, before) != []
  {
    assert TiesOf(s, s[0], before) != [];
  }

  /** Two ordered sequences whose classes of tied elements agree are equal. */
  lemma {:induction false} SortedTiesDetermine<T(!new)>(r1: seq<T>, r2: seq<T>, before: (T, T) -> bool)
    requires TotalPreorder(before)
    requires Sorted(r1, before) && Sorted(r2, before)
    requires forall k :: TiesOf(r1, k, before) == TiesOf(r2, k, before)
    ensures r1 == r2
    decreases |r1| + |r2|
  {
    if |r1| == 0 && |r2| == 0 {
    } else if |r1| == 0 {
      NonEmptyHasTies(r2, before);
      assert false;
    } else if |r2| == 0 {
      NonEmptyHasTies(r1, before);
      assert false;
    } else {
      var h1, h2 := r1[0], r2[0];
      // Each head is in the other sequence, and each head may precede all of its sequence.
      assert h2 in TiesOf(r2, h2, before);
      assert h2 in TiesOf(r1, h2, before);
      assert h1 in TiesOf(r1, h1, before);
      assert h1 in TiesOf(r2, h1, before);
      assert Tied(before, h1, h2);
      assert TiesOf(r1, h1, before)[0] == h1;
      assert TiesOf(r2, h1, before)[0] == h2;
      assert h1 == h2;
      forall k ensures TiesOf(r1[1..], k, before) == TiesOf(r2[1..], k, before) {
        assert Tied(before, h1, k) <==> Tied(before, h2, k);
        assert TiesOf(r1, k, before) == TiesOf(r2, k, before);
        if Tied(before, h1, k) {
          assert TiesOf(r1, k, before) == [h1] + TiesOf(r1[1..], k, before);
          assert TiesOf(r2, k, before) == [h2] + TiesOf(r2[1..], k, before);
          assert TiesOf(r1[1..], k, before) == TiesOf(r1, k, before)[1..];
          assert TiesOf(r2[1..], k, before) == TiesOf(r2, k, before)[1..];
        } else {
          assert TiesOf(r1, k, before) == TiesOf(r1[1..], k, before);
          assert TiesOf(r2, k, before) == TiesOf(r2[1..], k, before);
        }
      }
      assert Sorted(r1[1..], before) && Sorted(r2[1..], before);
      SortedTiesDetermine(r1[1..], r2[1..], before);
      assert r1 == [h1] + r1[1..];
      assert r2 == [h2] + r2[1..];
    }
  }

  /**
    A stable sort is unique: `r` is a stable sort of `s` exactly when it is
    what insertion sort returns.
  */
  lemma StableSortUnique<T(!new)>(r: seq<T>, s: seq<T>, before: (T, T) -> bool)
    requires TotalPreorder(before)
    ensures IsStableSortOf(r, s, before) <==> r == InsertionSort(s, before)
  {
    InsertionSortIsStableSort(s, before);
    if IsStableSortOf(r, s, before) {
      SortedTiesDetermine(r, InsertionSort(s, before), before);
    }
  }
}
