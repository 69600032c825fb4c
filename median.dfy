/**
 * The median rule the reporter's queries share: sort the values, skip
 * `(COUNT(*) - 1) / 2` of them, take `2 - COUNT(*) % 2`, average what was
 * taken and truncate toward zero. The average may be divided by a further
 * scale (365 for ages) before the truncation.
 */
module Median {
  import opened Wrappers
  import opened Sql

  predicate Sorted(s: seq<int>)
  {
    forall i, j :: 0 <= i < j < |s| ==> s[i] <= s[j]
  }

  /** Insert `x` into a sorted sequence, before the first larger element. */
  function Insert(x: int, s: seq<int>): (r: seq<int>)
    requires Sorted(s)
    ensures |r| == |s| + 1
    ensures Sorted(r)
    ensures multiset(r) == multiset(s) + multiset{x}
  {
    if s == [] then [x]
    else if x <= s[0] then
      SortedCons(x, s);
      [x] + s
    else
      var rest := Insert(x, s[1..]);
      assert s == [s[0]] + s[1..];
      LowerBound(s[0], x, s[1..], rest);
      SortedCons(s[0], rest);
      [s[0]] + rest
  }

  /** A head at or below every element of a sorted tail gives a sorted sequence. */
  lemma SortedCons(h: int, t: seq<int>)
    requires Sorted(t)
    requires (forall j :: 0 <= j < |t| ==> h <= t[j]) || (t != [] && h <= t[0])
    ensures Sorted([h] + t)
  {
  }

  /** A value at or below x and below every element of s is below every element of s with x added. */
  lemma LowerBound(low: int, x: int, s: seq<int>, r: seq<int>)
    requires low <= x && (forall j :: 0 <= j < |s| ==> low <= s[j])
    requires multiset(r) == multiset(s) + multiset{x}
    ensures forall j :: 0 <= j < |r| ==> low <= r[j]
  {
    forall j | 0 <= j < |r| ensures low <= r[j] {
      assert r[j] in multiset(r);
      if r[j] != x {
        assert r[j] in multiset(s);
        assert r[j] in s;
      }
    }
  }

  /** Two sorted arrangements of the same non-empty values start alike and continue with the same values. */
  lemma SortedSameHead(a: seq<int>, b: seq<int>)
    requires Sorted(a) && Sorted(b) && multiset(a) == multiset(b) && a != []
    ensures b != [] && a[0] == b[0]
    ensures Sorted(a[1..]) && Sorted(b[1..]) && multiset(a[1..]) == multiset(b[1..])
  {
    assert a[0] in multiset(b);
    var j :| 0 <= j < |b| && b[j] == a[0];
    assert b[0] in multiset(a);
    var k :| 0 <= k < |a| && a[k] == b[0];
    MultisetTail(a);
    MultisetTail(b);
  }

  lemma MultisetTail(a: seq<int>)
    requires a != []
    ensures multiset(a[1..]) == multiset(a) - multiset{a[0]}
  {
    assert a == [a[0]] + a[1..];
  }

  /** Two sorted arrangements of the same values are the same sequence. */
  lemma {:induction false} SortedUnique(a: seq<int>, b: seq<int>)
    requires Sorted(a) && Sorted(b) && multiset(a) == multiset(b)
    ensures a == b
    decreases |a|
  {
    if a == [] {
      assert |b| == |multiset(b)| == 0;
    } else {
      SortedSameHead(a, b);
      SortedUnique(a[1..], b[1..]);
      assert a == [a[0]] + a[1..];
      assert b == [b[0]] + b[1..];
    }
  }

  /** `ORDER BY`: the values in ascending order. */
  function SortAscending(s: seq<int>): (r: seq<int>)
    ensures |r| == |s|
    ensures Sorted(r)
    ensures multiset(r) == multiset(s)
  {
    if s == [] then []
    else
      assert s == [s[0]] + s[1..];
      Insert(s[0], SortAscending(s[1..]))
  }

  /** `OFFSET (COUNT(*) - 1) / 2`, with SQLite's division truncating toward zero. */
  function MedianOffset(n: nat): nat
  {
    TruncDiv(n - 1, 2)
  }

  /** `LIMIT 2 - COUNT(*) % 2`. */
  function MedianLimit(n: nat): nat
  {
    2 - n % 2
  }

  /** SQLite's `LIMIT limit OFFSET offset` on an ordered result. */
  function LimitOffset(s: seq<int>, limit: nat, offset: nat): (r: seq<int>)
    ensures |r| <= limit
  {
    var lo := if offset <= |s| then offset else |s|;
    var hi := if offset + limit <= |s| then offset + limit else |s|;
    s[lo..hi]
  }

  /** The rows the median subquery averages. */
  function MiddleValues(values: seq<int>): seq<int>
  {
    var n := |values|;
    LimitOffset(SortAscending(values), MedianLimit(n), MedianOffset(n))
  }

  function Sum(s: seq<int>): int
  {
    if s == [] then 0 else s[0] + Sum(s[1..])
  }

  /**
   * `CAST((SELECT AVG(x) FROM (...)) / scale AS INT)`: NULL when there is
   * nothing to average, otherwise the average divided by `scale`, truncated.
   */
  function MedianOf(values: seq<int>, scale: nat): Option<int>
    requires scale >= 1
  {
    var middle := MiddleValues(values);
    if middle == [] then None else Some(TruncDiv(Sum(middle), |middle| * scale))
  }

  /** The window lies inside the values and is centred: as many values before it as after it. */
  lemma MedianWindow(n: nat)
    requires n >= 1
    ensures 0 <= MedianOffset(n) && MedianOffset(n) + MedianLimit(n) <= n
    ensures n % 2 == 1 ==> MedianLimit(n) == 1 && MedianOffset(n) == n / 2 == n - 1 - MedianOffset(n)
    ensures n % 2 == 0 ==> MedianLimit(n) == 2 && MedianOffset(n) + 1 == n / 2 == n - 1 - MedianOffset(n)
  {
  }

  /** On an empty population the offset is 0, as in SQLite, and nothing is selected. */
  lemma EmptyMedian(scale: nat)
    requires scale >= 1
    ensures MedianOffset(0) == 0 && MedianLimit(0) == 2
    ensures MedianOf([], scale) == None
  {
  }

  /**
   * On n values the window is the single middle value when n is odd and
   * the two middle values when n is even.
   */
  lemma {:induction false} Window(s: seq<int>)
    ensures var n := |s|;
      var w := LimitOffset(s, MedianLimit(n), MedianOffset(n));
      && (n % 2 == 1 ==> w == [s[n / 2]])
      && (n % 2 == 0 && n >= 2 ==> w == [s[n / 2 - 1], s[n / 2]])
      && (n == 0 ==> w == [])
  {
    var n := |s|;
    if n > 0 {
      MedianWindow(n);
      var offset, limit := MedianOffset(n), MedianLimit(n);
      assert LimitOffset(s, limit, offset) == s[offset..offset + limit];
    }
  }

  /** The values the median averages, as positions in the sorted values. */
  lemma MiddleValuesSpec(values: seq<int>)
    ensures var sorted := SortAscending(values);
      var n := |values|;
      && |sorted| == n
      && (n % 2 == 1 ==> MiddleValues(values) == [sorted[n / 2]])
      && (n % 2 == 0 && n >= 2 ==> MiddleValues(values) == [sorted[n / 2 - 1], sorted[n / 2]])
      && (n == 0 ==> MiddleValues(values) == [])
  {
    var n := |values|;
    if n % 2 == 1 {
      MiddleOdd(values);
    } else if n >= 2 {
      MiddleEven(values);
    } else {
      Window(SortAscending(values));
    }
  }

  lemma MiddleOdd(values: seq<int>)
    requires |values| % 2 == 1
    ensures |SortAscending(values)| == |values|
    ensures MiddleValues(values) == [SortAscending(values)[|values| / 2]]
  {
    Window(SortAscending(values));
  }

  /** The selected value of an odd population has as many values at or below it as at or above it. */
  lemma OddMedianCentred(values: seq<int>)
    requires |values| % 2 == 1
    ensures var sorted := SortAscending(values);
      var n := |values|;
      var m := sorted[n / 2];
      && multiset(sorted) == multiset(values)
      && (forall i :: 0 <= i < n / 2 ==> sorted[i] <= m)
      && (forall i :: n / 2 < i < n ==> m <= sorted[i])
      && n / 2 == n - 1 - n / 2
      && MedianOf(values, 1) == Some(m)
  {
    MiddleValuesSpec(values);
    var m := SortAscending(values)[|values| / 2];
    assert Sum([m]) == m;
    assert TruncDiv(m, 1) == m;
  }

  /** The median of an even population is the truncated mean of the two middle values. */
  lemma EvenMedianMean(values: seq<int>, a: int, b: int)
    requires |values| % 2 == 0 && |values| >= 2
    requires |SortAscending(values)| == |values|
    requires a == SortAscending(values)[|values| / 2 - 1] && b == SortAscending(values)[|values| / 2]
    ensures MedianOf(values, 1) == Some(TruncDiv(a + b, 2))
  {
    MiddleEven(values);
    MedianOfTwo(values, a, b);
  }

  lemma MiddleEven(values: seq<int>)
    requires |values| % 2 == 0 && |values| >= 2
    ensures |SortAscending(values)| == |values|
    ensures MiddleValues(values) == [SortAscending(values)[|values| / 2 - 1], SortAscending(values)[|values| / 2]]
  {
    Window(SortAscending(values));
  }

  lemma MedianOfTwo(values: seq<int>, a: int, b: int)
    requires MiddleValues(values) == [a, b]
    ensures MedianOf(values, 1) == Some(TruncDiv(a + b, 2))
  {
    assert [b][1..] == [];
    assert Sum([b]) == b;
    assert [a, b][1..] == [b];
    assert Sum([a, b]) == a + b;
  }

  /** Truncation toward zero of the mean of two integers stays between them. */
  lemma TruncMeanBetween(a: int, b: int)
    requires a <= b
    ensures a <= TruncDiv(a + b, 2) <= b
  {
  }

  /** `MAX(x)` over a non-empty column. */
  function MaxOf(s: seq<int>): (m: int)
    requires s != []
    ensures m in s
    ensures forall x :: x in s ==> x <= m
  {
    if |s| == 1 then s[0]
    else
      var m := MaxOf(s[1..]);
      assert forall x :: x in s ==> x == s[0] || x in s[1..];
      if s[0] >= m then s[0] else m
  }

  /** `MIN(x)` over a non-empty column. */
  function MinOf(s: seq<int>): (m: int)
    requires s != []
    ensures m in s
    ensures forall x :: x in s ==> m <= x
  {
    if |s| == 1 then s[0]
    else
      var m := MinOf(s[1..]);
      assert forall x :: x in s ==> x == s[0] || x in s[1..];
      if s[0] <= m then s[0] else m
  }

  /** The median is NULL exactly when there are no values. */
  lemma MedianDefined(values: seq<int>, scale: nat)
    requires scale >= 1
    ensures MedianOf(values, scale).Some? <==> values != []
  {
    MiddleValuesSpec(values);
  }

  /**
   * The reported median, scaled and truncated like the maximum and the
   * minimum, lies between the reported minimum and the reported maximum.
   */
  lemma MedianBetween(values: seq<int>, scale: nat)
    requires values != [] && scale >= 1
    ensures MedianOf(values, scale).Some?
    ensures TruncDiv(MinOf(values), scale) <= MedianOf(values, scale).value <= TruncDiv(MaxOf(values), scale)
  {
    MiddleValuesSpec(values);
    SortedWithinBounds(values);
    var sorted := SortAscending(values);
    var n := |values|;
    if n % 2 == 1 {
      var m := sorted[n / 2];
      MedianOfOne(values, m, scale);
      OneBetween(MinOf(values), m, MaxOf(values), scale);
    } else {
      var a, b := sorted[n / 2 - 1], sorted[n / 2];
      MedianOfPair(values, a, b, scale);
      PairBetween(MinOf(values), a, b, MaxOf(values), scale);
    }
  }

  lemma OneBetween(lo: int, m: int, hi: int, scale: nat)
    requires lo <= m <= hi && scale >= 1
    ensures TruncDiv(lo, scale) <= TruncDiv(m, scale) <= TruncDiv(hi, scale)
  {
    TruncDivMonotonic(lo, m, scale);
    TruncDivMonotonic(m, hi, scale);
  }

  /** The truncated mean of two values between lo and hi lies between lo and hi, truncated alike. */
  lemma PairBetween(lo: int, a: int, b: int, hi: int, scale: nat)
    requires lo <= a <= hi && lo <= b <= hi && scale >= 1
    ensures TruncDiv(lo, scale) <= TruncDiv(a + b, 2 * scale) <= TruncDiv(hi, scale)
  {
    TruncDivMonotonic(2 * lo, a + b, 2 * scale);
    TruncDivMonotonic(a + b, 2 * hi, 2 * scale);
    TruncDivDoubled(lo, scale);
    TruncDivDoubled(hi, scale);
  }

  lemma SortedWithinBounds(values: seq<int>)
    requires values != []
    ensures forall k :: 0 <= k < |values| ==>
      MinOf(values) <= SortAscending(values)[k] <= MaxOf(values)
  {
    var sorted := SortAscending(values);
    forall k | 0 <= k < |values| ensures MinOf(values) <= sorted[k] <= MaxOf(values) {
      assert sorted[k] in multiset(sorted);
      assert sorted[k] in multiset(values);
      assert sorted[k] in values;
    }
  }

  lemma MedianOfOne(values: seq<int>, m: int, scale: nat)
    requires scale >= 1 && MiddleValues(values) == [m]
    ensures MedianOf(values, scale) == Some(TruncDiv(m, scale))
  {
    assert Sum([m]) == m;
  }

  lemma MedianOfPair(values: seq<int>, a: int, b: int, scale: nat)
    requires scale >= 1 && MiddleValues(values) == [a, b]
    ensures MedianOf(values, scale) == Some(TruncDiv(a + b, 2 * scale))
  {
    assert [b][1..] == [];
    assert Sum([b]) == b;
    assert [a, b][1..] == [b];
    assert Sum([a, b]) == a + b;
  }

  /** An odd population whose sorted middle value is known. */
  lemma OddExample(values: seq<int>, sorted: seq<int>)
    requires |values| % 2 == 1 && |sorted| == |values| && Sorted(sorted) && multiset(values) == multiset(sorted)
    ensures MedianOf(values, 1) == Some(sorted[|values| / 2])
  {
    SortedIsSortAscending(values, sorted);
    OddMedianCentred(values);
  }

  /** An even population whose sorted middle values are known. */
  lemma EvenExample(values: seq<int>, sorted: seq<int>)
    requires |values| % 2 == 0 && |values| >= 2 && |sorted| == |values| && Sorted(sorted) && multiset(values) == multiset(sorted)
    ensures MedianOf(values, 1) == Some(TruncDiv(sorted[|values| / 2 - 1] + sorted[|values| / 2], 2))
  {
    SortedIsSortAscending(values, sorted);
    EvenMedianMean(values, sorted[|values| / 2 - 1], sorted[|values| / 2]);
  }

  /** A sorted arrangement of the values is the one `SortAscending` computes. */
  lemma SortedIsSortAscending(values: seq<int>, sorted: seq<int>)
    requires Sorted(sorted) && multiset(values) == multiset(sorted)
    ensures SortAscending(values) == sorted
  {
    SortedUnique(SortAscending(values), sorted);
  }

  lemma OneToFiveSorted()
    ensures Sorted([1, 2, 3, 4, 5])
  {
  }

  /** The values 1..5, in any order: the median is 3. */
  lemma MedianExampleOdd(values: seq<int>)
    requires multiset(values) == multiset{1, 2, 3, 4, 5}
    ensures MedianOf(values, 1) == Some(3)
  {
    assert |values| == |multiset(values)| == 5;
    assert multiset([1, 2, 3, 4, 5]) == multiset{1, 2, 3, 4, 5};
    OneToFiveSorted();
    OddExample(values, [1, 2, 3, 4, 5]);
  }

  /** The values 1..4, in any order: the median is 2, the truncated 2.5. */
  lemma MedianExampleEven(values: seq<int>)
    requires multiset(values) == multiset{1, 2, 3, 4}
    ensures MedianOf(values, 1) == Some(2)
  {
    assert |values| == |multiset(values)| == 4;
    assert multiset([1, 2, 3, 4]) == multiset{1, 2, 3, 4};
    EvenExample(values, [1, 2, 3, 4]);
  }
}
