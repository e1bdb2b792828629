/**
 * In-place insertion sort over an array, the model of Go's `sort.Stable` and
 * `sort.Strings`. `less` plays the role of `Less(i, j)`. The specification is
 * InsertionSort: each element, in input order, is moved left past the
 * elements it is strictly less than, exactly as the swap loop does.
 */
module Sorting {

  /** Sorted under `less`: no later element is strictly less than an earlier one. */
  ghost predicate Sorted<T>(s: seq<T>, less: (T, T) -> bool) {
    forall i, j :: 0 <= i < j < |s| ==> !less(s[j], s[i])
  }

  /** What Go's sort package demands of Less: a strict weak ordering. */
  ghost predicate StrictWeakOrder<T(!new)>(less: (T, T) -> bool) {
    && (forall a, b :: less(a, b) ==> !less(b, a))
    && (forall a, b, c :: !less(a, b) && !less(b, c) ==> !less(a, c))
  }

  /** Neither is less than the other: the two may appear in either order. */
  ghost predicate Equivalent<T>(a: T, b: T, less: (T, T) -> bool) {
    !less(a, b) && !less(b, a)
  }

  /** The elements of s equivalent to e, in their order in s. */
  ghost function Class<T>(s: seq<T>, e: T, less: (T, T) -> bool): (r: seq<T>)
    ensures |r| <= |s|
  {
    if s == [] then []
    else Class(s[..|s| - 1], e, less) + (if Equivalent(s[|s| - 1], e, less) then [s[|s| - 1]] else [])
  }

  /** Insert x after s, moving it left past every element it is strictly less than. */
  function InsertLast<T>(s: seq<T>, x: T, less: (T, T) -> bool): (r: seq<T>)
    ensures |r| == |s| + 1
  {
    if s == [] || !less(x, s[|s| - 1]) then s + [x]
    else InsertLast(s[..|s| - 1], x, less) + [s[|s| - 1]]
  }

  /** The stable sort of s: its elements inserted one by one, in order. */
  function InsertionSort<T>(s: seq<T>, less: (T, T) -> bool): (r: seq<T>)
    ensures |r| == |s|
  {
    if s == [] then [] else InsertLast(InsertionSort(s[..|s| - 1], less), s[|s| - 1], less)
  }

  lemma {:induction false} InsertLastPermutes<T>(s: seq<T>, x: T, less: (T, T) -> bool)
    ensures multiset(InsertLast(s, x, less)) == multiset(s) + multiset{x}
  {
    if s != [] && less(x, s[|s| - 1]) {
      InsertLastPermutes(s[..|s| - 1], x, less);
      assert s == s[..|s| - 1] + [s[|s| - 1]];
    }
  }

  /** The sort result is a permutation of its input. */
  lemma {:induction false} InsertionSortPermutes<T>(s: seq<T>, less: (T, T) -> bool)
    ensures multiset(InsertionSort(s, less)) == multiset(s)
  {
    if s != [] {
      InsertionSortPermutes(s[..|s| - 1], less);
      InsertLastPermutes(InsertionSort(s[..|s| - 1], less), s[|s| - 1], less);
      assert s == s[..|s| - 1] + [s[|s| - 1]];
    }
  }

  lemma {:induction false} InsertLastSorted<T(!new)>(s: seq<T>, x: T, less: (T, T) -> bool)
    requires StrictWeakOrder(less) && Sorted(s, less)
    ensures Sorted(InsertLast(s, x, less), less)
  {
    if s == [] || !less(x, s[|s| - 1]) {
      var r := s + [x];
      forall i, j | 0 <= i < j < |r| ensures !less(r[j], r[i]) {
        if j == |s| && i < |s| - 1 {
          assert !less(s[|s| - 1], s[i]);
        }
      }
    } else {
      var init, last := s[..|s| - 1], s[|s| - 1];
      InsertLastSorted(init, x, less);
      InsertLastPermutes(init, x, less);
      var m := InsertLast(init, x, less);
      forall k | 0 <= k < |m| ensures !less(last, m[k]) {
        assert m[k] in multiset(m);
        if m[k] != x {
          assert m[k] in multiset(init);
          var i :| 0 <= i < |init| && init[i] == m[k];
          assert s[i] == m[k];
        }
      }
    }
  }

  /** With a strict weak ordering, the sort result is sorted. */
  lemma {:induction false} InsertionSortSorted<T(!new)>(s: seq<T>, less: (T, T) -> bool)
    requires StrictWeakOrder(less)
    ensures Sorted(InsertionSort(s, less), less)
  {
    if s != [] {
      InsertionSortSorted(s[..|s| - 1], less);
      InsertLastSorted(InsertionSort(s[..|s| - 1], less), s[|s| - 1], less);
    }
  }

  lemma {:induction false} ClassAppend<T>(a: seq<T>, b: seq<T>, e: T, less: (T, T) -> bool)
    ensures Class(a + b, e, less) == Class(a, e, less) + Class(b, e, less)
    decreases |b|
  {
    if b == [] {
      assert a + b == a;
    } else {
      ClassAppend(a, b[..|b| - 1], e, less);
      assert (a + b)[..|a + b| - 1] == a + b[..|b| - 1];
    }
  }

  lemma ClassSingleton<T>(y: T, e: T, less: (T, T) -> bool)
    ensures Class([y], e, less) == if Equivalent(y, e, less) then [y] else []
  {
    assert [y][..0] == [];
  }

  lemma {:induction false} InsertLastStable<T(!new)>(s: seq<T>, x: T, e: T, less: (T, T) -> bool)
    requires StrictWeakOrder(less)
    ensures Class(InsertLast(s, x, less), e, less) == Class(s + [x], e, less)
  {
    if s != [] && less(x, s[|s| - 1]) {
      var init, last := s[..|s| - 1], s[|s| - 1];
      assert s == init + [last];
      var cx, cl := Class([x], e, less), Class([last], e, less);
      ClassSingleton(x, e, less);
      ClassSingleton(last, e, less);
      // x and last cannot both be equivalent to e: x is strictly less than last
      assert cx == [] || cl == [];
      calc {
        Class(InsertLast(s, x, less), e, less);
        Class(InsertLast(init, x, less) + [last], e, less);
        { ClassAppend(InsertLast(init, x, less), [last], e, less); }
        Class(InsertLast(init, x, less), e, less) + cl;
        { InsertLastStable(init, x, e, less); ClassAppend(init, [x], e, less); }
        Class(init, e, less) + cx + cl;
        Class(init, e, less) + cl + cx;
        { ClassAppend(init, [last], e, less); }
        Class(s, e, less) + cx;
        { ClassAppend(s, [x], e, less); }
        Class(s + [x], e, less);
      }
    }
  }

  /**
   * Stability: the elements of any one equivalence class keep their relative
   * order.
   */
  lemma {:induction false} InsertionSortStable<T(!new)>(s: seq<T>, e: T, less: (T, T) -> bool)
    requires StrictWeakOrder(less)
    ensures Class(InsertionSort(s, less), e, less) == Class(s, e, less)
  {
    if s != [] {
      var init, last := s[..|s| - 1], s[|s| - 1];
      InsertionSortStable(init, e, less);
      InsertLastStable(InsertionSort(init, less), last, e, less);
      ClassAppend(InsertionSort(init, less), [last], e, less);
      ClassAppend(init, [last], e, less);
      assert s == init + [last];
    }
  }

  lemma InsertLastStep<T>(s: seq<T>, x: T, j: nat, less: (T, T) -> bool)
    requires 0 < j <= |s| && less(x, s[j - 1])
    ensures InsertLast(s[..j], x, less) + s[j..] == InsertLast(s[..j - 1], x, less) + s[j - 1..]
  {
    assert s[..j][..j - 1] == s[..j - 1];
    assert s[j - 1..] == [s[j - 1]] + s[j..];
  }

  lemma InsertLastStop<T>(s: seq<T>, x: T, j: nat, less: (T, T) -> bool)
    requires j <= |s| && (j == 0 || !less(x, s[j - 1]))
    ensures InsertLast(s[..j], x, less) + s[j..] == s[..j] + [x] + s[j..]
  {
  }

  /** One swap of the insertion loop, on the array's contents: x moves one place left. */
  lemma SwapStep<T>(s: seq<T>, x: T, rest: seq<T>, j: nat, before: seq<T>, after: seq<T>)
    requires 0 < j <= |s|
    requires before == s[..j] + [x] + s[j..] + rest
    requires after == before[j - 1 := x][j := s[j - 1]]
    ensures after == s[..j - 1] + [x] + s[j - 1..] + rest
  {
    assert s[..j] == s[..j - 1] + [s[j - 1]];
    assert s[j - 1..] == [s[j - 1]] + s[j..];
    forall k | 0 <= k < |after| ensures after[k] == (s[..j - 1] + [x] + s[j - 1..] + rest)[k] {
    }
  }

  /** Moves a[i] left past every element of a[..i] that it is strictly less than. */
  method InsertInPlace<T>(a: array<T>, i: nat, less: (T, T) -> bool)
    requires i < a.Length
    modifies a
    ensures a[..i + 1] == InsertLast(old(a[..i]), old(a[i]), less)
    ensures a[i + 1..] == old(a[i + 1..])
  {
    ghost var s := a[..i];
    ghost var rest := a[i + 1..];
    var x := a[i];
    assert a[..] == s + [x] + rest by {
      assert a[..] == a[..i] + [a[i]] + a[i + 1..];
    }
    var j := i;
    assert s[..j] == s && s[j..] == [];
    while j > 0 && less(a[j], a[j - 1])
      invariant 0 <= j <= i
      invariant a[..] == s[..j] + [x] + s[j..] + rest
      invariant InsertLast(s, x, less) == InsertLast(s[..j], x, less) + s[j..]
    {
      InsertLastStep(s, x, j, less);
      ghost var before := a[..];
      a[j - 1], a[j] := a[j], a[j - 1];
      assert a[..] == before[j - 1 := x][j := s[j - 1]];
      SwapStep(s, x, rest, j, before, a[..]);
      j := j - 1;
    }
    InsertLastStop(s, x, j, less);
    ghost var done := s[..j] + [x] + s[j..];
    assert a[..] == done + rest;
    assert a[..i + 1] == done && a[i + 1..] == rest by {
      assert |done| == i + 1;
      assert a[..i + 1] == (done + rest)[..i + 1];
    }
  }

  /** Sorts a in place: each element in turn is swapped leftwards into place. */
  method SortInPlace<T>(a: array<T>, less: (T, T) -> bool)
    modifies a
    ensures a[..] == InsertionSort(old(a[..]), less)
  {
    ghost var input := a[..];
    var i := 0;
    while i < a.Length
      invariant 0 <= i <= a.Length
      invariant a[..i] == InsertionSort(input[..i], less)
      invariant a[i..] == input[i..]
    {
      assert input[..i + 1][..i] == input[..i];
      InsertInPlace(a, i, less);
      i := i + 1;
    }
    assert a[..] == a[..a.Length];
    assert input == input[..a.Length];
  }
}
