/** Array.prototype.sort with a comparator, as ECMAScript 2019 and later
    require it: a stable sort. The specification is a functional insertion
    sort; the array method below sorts in place and is proved to compute it. */
module Sorting {
  import opened Lists

  /** What ECMAScript asks of a comparator: swapping the arguments flips the
      sign of the answer, and "not after" (a result <= 0) is transitive. */
  ghost predicate IsConsistent<T(!new)>(cmp: (T, T) -> real) {
    && (forall x, y :: cmp(x, y) < 0.0 <==> cmp(y, x) > 0.0)
    && (forall x, y, z :: cmp(x, y) <= 0.0 && cmp(y, z) <= 0.0 ==> cmp(x, z) <= 0.0)
  }

  /** No element of `s` is placed after a later one. */
  ghost predicate IsSortedBy<T>(s: seq<T>, cmp: (T, T) -> real) {
    forall i, j :: 0 <= i < j < |s| ==> cmp(s[i], s[j]) <= 0.0
  }

  /** Distinct elements of `s` never compare equal. */
  ghost predicate NoTies<T>(s: seq<T>, cmp: (T, T) -> real) {
    forall x, y :: x in s && y in s && cmp(x, y) == 0.0 ==> x == y
  }

  /** The elements that compare equal to `v`. */
  function TiedWith<T>(cmp: (T, T) -> real, v: T): T -> bool {
    x => cmp(x, v) == 0.0
  }

  /** Inserts `x` into `s`, scanning from the right and stopping at the first
      element that does not compare after `x`. */
  function InsertBy<T>(s: seq<T>, x: T, cmp: (T, T) -> real): (r: seq<T>)
    ensures |r| == |s| + 1
    decreases |s|
  {
    if s == [] || cmp(s[|s| - 1], x) <= 0.0 then s + [x]
    else InsertBy(s[..|s| - 1], x, cmp) + [s[|s| - 1]]
  }

  /** The stable sort of `s`: each element in turn inserted into the sorted
      prefix before it. */
  function SortBy<T>(s: seq<T>, cmp: (T, T) -> real): (r: seq<T>)
    ensures |r| == |s|
    decreases |s|
  {
    if s == [] then []
    else InsertBy(SortBy(s[..|s| - 1], cmp), s[|s| - 1], cmp)
  }

  /** Insertion adds `x` and loses nothing. */
  lemma {:induction false} InsertPermutes<T>(s: seq<T>, x: T, cmp: (T, T) -> real)
    ensures multiset(InsertBy(s, x, cmp)) == multiset(s) + multiset{x}
    decreases |s|
  {
    if s != [] && cmp(s[|s| - 1], x) > 0.0 {
      InsertPermutes(s[..|s| - 1], x, cmp);
      assert s == s[..|s| - 1] + [s[|s| - 1]];
    }
  }

  /** The sorted sequence is a permutation of the input. */
  lemma {:induction false} SortByPermutes<T>(s: seq<T>, cmp: (T, T) -> real)
    ensures multiset(SortBy(s, cmp)) == multiset(s)
    decreases |s|
  {
    if s != [] {
      SortByPermutes(s[..|s| - 1], cmp);
      InsertPermutes(SortBy(s[..|s| - 1], cmp), s[|s| - 1], cmp);
      assert s == s[..|s| - 1] + [s[|s| - 1]];
    }
  }

  /** Appending an element that no element precedes keeps a sequence sorted. */
  lemma SnocSorted<T>(s: seq<T>, x: T, cmp: (T, T) -> real)
    requires IsSortedBy(s, cmp)
    requires forall i :: 0 <= i < |s| ==> cmp(s[i], x) <= 0.0
    ensures IsSortedBy(s + [x], cmp)
  {
    var r := s + [x];
    forall i, j | 0 <= i < j < |r| ensures cmp(r[i], r[j]) <= 0.0 {
      if j < |s| {
        assert r[i] == s[i] && r[j] == s[j];
      }
    }
  }

  /** Inserting into a sorted sequence keeps it sorted. */
  lemma {:induction false} InsertSorted<T(!new)>(s: seq<T>, x: T, cmp: (T, T) -> real)
    requires IsConsistent(cmp) && IsSortedBy(s, cmp)
    ensures IsSortedBy(InsertBy(s, x, cmp), cmp)
    decreases |s|
  {
    if s == [] {
    } else if cmp(s[|s| - 1], x) <= 0.0 {
      forall i | 0 <= i < |s| ensures cmp(s[i], x) <= 0.0 {
        if i < |s| - 1 {
          assert cmp(s[i], s[|s| - 1]) <= 0.0;
        }
      }
      SnocSorted(s, x, cmp);
    } else {
      var init, last := s[..|s| - 1], s[|s| - 1];
      assert IsSortedBy(init, cmp);
      InsertSorted(init, x, cmp);
      var ins := InsertBy(init, x, cmp);
      InsertPermutes(init, x, cmp);
      forall i | 0 <= i < |ins| ensures cmp(ins[i], last) <= 0.0 {
        var y := ins[i];
        assert y in multiset(ins);
        if y != x {
          assert y in multiset(init);
          var k :| 0 <= k < |init| && init[k] == y;
          assert cmp(s[k], s[|s| - 1]) <= 0.0;
        }
      }
      SnocSorted(ins, last, cmp);
    }
  }

  /** The result of SortBy is sorted. */
  lemma {:induction false} SortBySorted<T(!new)>(s: seq<T>, cmp: (T, T) -> real)
    requires IsConsistent(cmp)
    ensures IsSortedBy(SortBy(s, cmp), cmp)
    decreases |s|
  {
    if s != [] {
      SortBySorted(s[..|s| - 1], cmp);
      InsertSorted(SortBy(s[..|s| - 1], cmp), s[|s| - 1], cmp);
    }
  }

  /** A sequence that is already sorted comes back unchanged. */
  lemma {:induction false} SortByOfSorted<T>(s: seq<T>, cmp: (T, T) -> real)
    requires IsSortedBy(s, cmp)
    ensures SortBy(s, cmp) == s
    decreases |s|
  {
    if s != [] {
      var init := s[..|s| - 1];
      assert IsSortedBy(init, cmp);
      SortByOfSorted(init, cmp);
      if |init| > 0 {
        assert cmp(init[|init| - 1], s[|s| - 1]) <= 0.0;
      }
      assert init + [s[|s| - 1]] == s;
    }
  }

  /** Sorting twice is sorting once. */
  lemma SortByIdempotent<T(!new)>(s: seq<T>, cmp: (T, T) -> real)
    requires IsConsistent(cmp)
    ensures SortBy(SortBy(s, cmp), cmp) == SortBy(s, cmp)
  {
    SortBySorted(s, cmp);
    SortByOfSorted(SortBy(s, cmp), cmp);
  }

  /** A comparator that answers 0 for every pair leaves the order alone. */
  lemma AllTiedKeepsOrder<T>(s: seq<T>, cmp: (T, T) -> real)
    requires forall i, j :: 0 <= i < j < |s| ==> cmp(s[i], s[j]) == 0.0
    ensures SortBy(s, cmp) == s
  {
    SortByOfSorted(s, cmp);
  }

  /** Insertion keeps the elements tied with any `v` in their order, with `x`
      after all of them. */
  lemma {:induction false} InsertStable<T(!new)>(s: seq<T>, x: T, cmp: (T, T) -> real, v: T)
    requires IsConsistent(cmp)
    ensures Filter(InsertBy(s, x, cmp), TiedWith(cmp, v))
         == Filter(s, TiedWith(cmp, v)) + Filter([x], TiedWith(cmp, v))
    decreases |s|
  {
    var tied := TiedWith(cmp, v);
    if s == [] || cmp(s[|s| - 1], x) <= 0.0 {
      FilterConcat(s, [x], tied);
    } else {
      var init, last := s[..|s| - 1], s[|s| - 1];
      InsertStable(init, x, cmp, v);
      FilterConcat(InsertBy(init, x, cmp), [last], tied);
      FilterConcat(init, [last], tied);
      assert init + [last] == s;
    }
  }

  /** Stability: the elements tied with any `v` come out in their input order. */
  lemma {:induction false} SortByStable<T(!new)>(s: seq<T>, cmp: (T, T) -> real, v: T)
    requires IsConsistent(cmp)
    ensures Filter(SortBy(s, cmp), TiedWith(cmp, v)) == Filter(s, TiedWith(cmp, v))
    decreases |s|
  {
    if s != [] {
      var init, last := s[..|s| - 1], s[|s| - 1];
      SortByStable(init, cmp, v);
      InsertStable(SortBy(init, cmp), last, cmp, v);
      FilterConcat(init, [last], TiedWith(cmp, v));
      assert init + [last] == s;
    }
  }

  /** Every element of a sorted, non-empty sequence is not before its head. */
  lemma HeadFirst<T(!new)>(r: seq<T>, cmp: (T, T) -> real, y: T)
    requires IsConsistent(cmp) && IsSortedBy(r, cmp)
    requires y in r
    ensures cmp(r[0], y) <= 0.0
  {
    var m :| 0 <= m < |r| && r[m] == y;
    if m == 0 {
      assert !(cmp(y, y) < 0.0);
    } else {
      assert cmp(r[0], r[m]) <= 0.0;
    }
  }

  /** Dropping the head keeps a sequence sorted. */
  lemma TailSorted<T>(r: seq<T>, cmp: (T, T) -> real)
    requires r != [] && IsSortedBy(r, cmp)
    ensures IsSortedBy(r[1..], cmp)
  {
    forall i, j | 0 <= i < j < |r| - 1 ensures cmp(r[1..][i], r[1..][j]) <= 0.0 {
      assert cmp(r[i + 1], r[j + 1]) <= 0.0;
    }
  }

  /** Two sorted arrangements of the same elements start alike when no two
      distinct elements compare equal. */
  lemma SameHead<T(!new)>(r1: seq<T>, r2: seq<T>, cmp: (T, T) -> real)
    requires IsConsistent(cmp)
    requires r1 != [] && multiset(r1) == multiset(r2)
    requires IsSortedBy(r1, cmp) && IsSortedBy(r2, cmp) && NoTies(r1, cmp)
    ensures r2 != [] && r1[0] == r2[0]
  {
    assert r1[0] in multiset(r2);
    var a, b := r1[0], r2[0];
    assert b in multiset(r1);
    HeadFirst(r1, cmp, b);
    HeadFirst(r2, cmp, a);
  }

  /** Equal multisets with equal heads have equal tails. */
  lemma SameTail<T>(r1: seq<T>, r2: seq<T>)
    requires r1 != [] && r2 != [] && r1[0] == r2[0] && multiset(r1) == multiset(r2)
    ensures multiset(r1[1..]) == multiset(r2[1..])
  {
    assert r1 == [r1[0]] + r1[1..] && r2 == [r2[0]] + r2[1..];
    assert multiset(r1) == multiset{r1[0]} + multiset(r1[1..]);
    assert multiset(r2) == multiset{r1[0]} + multiset(r2[1..]);
    forall z ensures multiset(r1[1..])[z] == multiset(r2[1..])[z] {
      assert multiset(r1)[z] == multiset{r1[0]}[z] + multiset(r1[1..])[z];
      assert multiset(r2)[z] == multiset{r1[0]}[z] + multiset(r2[1..])[z];
    }
  }

  lemma TailNoTies<T>(r: seq<T>, cmp: (T, T) -> real)
    requires r != [] && NoTies(r, cmp)
    ensures NoTies(r[1..], cmp)
  {
    forall x | x in r[1..] ensures x in r { }
  }

  /** Two sorted arrangements of the same elements are equal when no two
      distinct elements compare equal. */
  lemma {:induction false} SortedUnique<T(!new)>(r1: seq<T>, r2: seq<T>, cmp: (T, T) -> real)
    requires IsConsistent(cmp)
    requires multiset(r1) == multiset(r2)
    requires IsSortedBy(r1, cmp) && IsSortedBy(r2, cmp) && NoTies(r1, cmp)
    ensures r1 == r2
    decreases |r1|
  {
    if r1 == [] {
      assert |r2| == |multiset(r2)| == 0;
    } else {
      SameHead(r1, r2, cmp);
      SameTail(r1, r2);
      TailSorted(r1, cmp);
      TailSorted(r2, cmp);
      TailNoTies(r1, cmp);
      SortedUnique(r1[1..], r2[1..], cmp);
      assert r1 == [r1[0]] + r1[1..] && r2 == [r2[0]] + r2[1..];
    }
  }

  /** Negating a comparator that never ties two distinct elements of `s`
      sorts `s` into the reverse order. */
  lemma SortByNegated<T(!new)>(s: seq<T>, cmp: (T, T) -> real, neg: (T, T) -> real)
    requires IsConsistent(cmp)
    requires forall x, y :: neg(x, y) == -cmp(x, y)
    requires NoTies(s, cmp)
    ensures SortBy(s, neg) == Reverse(SortBy(s, cmp))
  {
    var up := SortBy(s, cmp);
    var down := SortBy(s, neg);
    SortByPermutes(s, cmp);
    SortByPermutes(s, neg);
    assert IsConsistent(neg);
    SortBySorted(s, cmp);
    SortBySorted(s, neg);
    var rev := Reverse(up);
    forall i, j | 0 <= i < j < |rev| ensures neg(rev[i], rev[j]) <= 0.0 {
      assert cmp(up[|up| - 1 - j], up[|up| - 1 - i]) <= 0.0;
    }
    forall x | x in down ensures x in s {
      assert x in multiset(down);
    }
    SortedUnique(down, rev, neg);
  }

  /** Where insertion puts `x`: after the prefix `s[..j]`, whose last element
      does not compare after `x`, and before the rest, which all compare after
      it. */
  lemma {:induction false} InsertAt<T>(s: seq<T>, x: T, cmp: (T, T) -> real, j: nat)
    requires j <= |s| && (j == 0 || cmp(s[j - 1], x) <= 0.0)
    requires forall k :: j <= k < |s| ==> cmp(s[k], x) > 0.0
    ensures InsertBy(s, x, cmp) == s[..j] + [x] + s[j..]
    decreases |s|
  {
    if j == |s| {
      assert s[..j] == s && s[j..] == [];
    } else {
      var init := s[..|s| - 1];
      assert init[..j] == s[..j];
      if j > 0 { assert init[j - 1] == s[j - 1]; }
      InsertAt(init, x, cmp, j);
      assert init[j..] + [s[|s| - 1]] == s[j..];
    }
  }

  /** Sorting one more element of the input is inserting it. */
  lemma SortBySnoc<T>(s: seq<T>, cmp: (T, T) -> real, i: nat)
    requires i < |s|
    ensures SortBy(s[..i + 1], cmp) == InsertBy(SortBy(s[..i], cmp), s[i], cmp)
  {
    assert s[..i + 1][..i] == s[..i];
  }

  /** Moves `a[i]` left past the elements of the sorted prefix `a[..i]` that
      compare after it. */
  method ShiftInsert<T>(a: array<T>, i: nat, cmp: (T, T) -> real)
    requires i < a.Length
    modifies a
    ensures a[..i + 1] == InsertBy(old(a[..i]), old(a[i]), cmp)
    ensures a[i + 1..] == old(a[i + 1..])
  {
    ghost var sorted := a[..i];
    var x := a[i];
    var j := i;
    while j > 0 && cmp(a[j - 1], x) > 0.0
      invariant 0 <= j <= i
      invariant forall k :: 0 <= k < j ==> a[k] == sorted[k]
      invariant forall k :: j < k <= i ==> a[k] == sorted[k - 1]
      invariant forall k :: i < k < a.Length ==> a[k] == old(a[k])
      invariant forall k :: j <= k < i ==> cmp(sorted[k], x) > 0.0
    {
      a[j] := a[j - 1];
      j := j - 1;
    }
    a[j] := x;
    ghost var inserted := sorted[..j] + [x] + sorted[j..];
    forall k | 0 <= k <= i ensures a[k] == inserted[k] {
      if k < j {
        assert inserted[k] == sorted[k];
      } else if k > j {
        assert inserted[k] == sorted[k - 1];
      }
    }
    assert a[..i + 1] == inserted;
    InsertAt(sorted, x, cmp, j);
  }

  /** Sorts `a` in place by insertion. */
  method InsertionSort<T>(a: array<T>, cmp: (T, T) -> real)
    modifies a
    ensures a[..] == SortBy(old(a[..]), cmp)
  {
    ghost var input := a[..];
    var i := 0;
    while i < a.Length
      invariant 0 <= i <= a.Length
      invariant a[..i] == SortBy(input[..i], cmp)
      invariant a[i..] == input[i..]
    {
      assert a[i] == input[i];
      ShiftInsert(a, i, cmp);
      SortBySnoc(input, cmp, i);
      assert input[i..][1..] == input[i + 1..];
      i := i + 1;
    }
    assert input[..a.Length] == input;
  }

  /** Sorts a fresh copy of `s`, as `[...s].sort(cmp)` does; `s` itself is a
      value and cannot change. */
  method SortCopy<T>(s: seq<T>, cmp: (T, T) -> real) returns (r: seq<T>)
    ensures r == SortBy(s, cmp)
  {
    var a := new T[|s|](i requires 0 <= i < |s| => s[i]);
    assert a[..] == s;
    InsertionSort(a, cmp);
    r := a[..];
  }
}
