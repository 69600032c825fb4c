/**
 * The pieces of SQLite's semantics the script's queries rely on:
 * `SELECT DISTINCT` (duplicates dropped, first occurrences kept) and the
 * truncation toward zero of integer division and of `CAST(... AS INT)`.
 */
module Sql {

  /** No element occurs twice. */
  predicate NoDuplicates<T(==)>(s: seq<T>)
  {
    forall i, j :: 0 <= i < j < |s| ==> s[i] != s[j]
  }

  /** `SELECT DISTINCT`: the first occurrence of each row, in order. */
  function Distinct<T(==,!new)>(s: seq<T>): (r: seq<T>)
    ensures forall x :: x in r <==> x in s
    ensures NoDuplicates(r)
  {
    if s == [] then []
    else
      var d := Distinct(s[..|s| - 1]);
      var last := s[|s| - 1];
      assert forall x :: x in s <==> x in s[..|s| - 1] || x == last;
      if last in d then d else d + [last]
  }

  /** A sequence without duplicates is as long as the set of its elements is large. */
  lemma {:induction false} NoDuplicatesCard<T>(s: seq<T>)
    requires NoDuplicates(s)
    ensures |set x | x in s| == |s|
  {
    if s != [] {
      var init := s[..|s| - 1];
      var last := s[|s| - 1];
      assert NoDuplicates(init);
      NoDuplicatesCard(init);
      assert last !in init;
      assert (set x | x in s) == (set x | x in init) + {last} by {
        assert forall x :: x in s <==> x in init || x == last;
      }
    }
  }

  /**
   * SQLite's `/` on integers and `CAST(x AS INT)` of a quotient: the
   * quotient rounded toward zero (Dafny's own `/` rounds down for a
   * positive divisor).
   */
  function TruncDiv(a: int, b: int): int
    requires b > 0
  {
    if a >= 0 then a / b else -((-a) / b)
  }

  /** The truncated quotient is the whole part of a / b, its sign that of a. */
  lemma TruncDivSpec(a: int, b: int)
    requires b > 0
    ensures var q := TruncDiv(a, b);
      && (a >= 0 ==> q >= 0 && q * b <= a < q * b + b)
      && (a < 0 ==> q <= 0 && q * b - b < a <= q * b)
  {
  }

  /** Dividing by one changes nothing. */
  lemma TruncDivOne(a: int)
    ensures TruncDiv(a, 1) == a
  {
  }

  lemma MulMonotonic(x: int, y: int, d: int)
    requires x <= y && d > 0
    ensures x * d <= y * d
  {
  }

  /** The quotient is the only q with q * d <= a < q * d + d. */
  lemma DivUnique(a: int, d: int, q: int)
    requires d > 0 && q * d <= a < q * d + d
    ensures a / d == q
  {
    var q0 := a / d;
    if q0 > q {
      MulMonotonic(q + 1, q0, d);
    } else if q0 < q {
      MulMonotonic(q0 + 1, q, d);
    }
  }

  /** Doubling numerator and divisor leaves the truncated quotient unchanged. */
  lemma TruncDivDoubled(a: int, d: int)
    requires d > 0
    ensures TruncDiv(2 * a, 2 * d) == TruncDiv(a, d)
  {
    var m := if a >= 0 then a else -a;
    var q := m / d;
    assert q * d <= m < q * d + d;
    DivUnique(2 * m, 2 * d, q);
  }

  lemma DivMonotonic(a: int, b: int, d: int)
    requires 0 <= a <= b && d > 0
    ensures a / d <= b / d
  {
    if a / d > b / d {
      MulMonotonic(b / d + 1, a / d, d);
    }
  }

  /** Truncation toward zero is monotonic in the numerator. */
  lemma TruncDivMonotonic(a: int, b: int, d: int)
    requires a <= b && d > 0
    ensures TruncDiv(a, d) <= TruncDiv(b, d)
  {
    if a >= 0 {
      DivMonotonic(a, b, d);
    } else if b >= 0 {
      assert TruncDiv(a, d) == -((-a) / d) <= 0;
    } else {
      DivMonotonic(-b, -a, d);
    }
  }

  /**
   * SQLite's BINARY collation on text: byte-wise comparison of the UTF-8
   * encodings, which orders strings as their sequences of code points.
   */
  predicate TextLess(a: string, b: string)
  {
    if a == [] then b != []
    else if b == [] then false
    else if a[0] != b[0] then a[0] < b[0]
    else TextLess(a[1..], b[1..])
  }

  lemma {:induction false} TextLessIrreflexive(a: string)
    ensures !TextLess(a, a)
  {
    if a != [] {
      TextLessIrreflexive(a[1..]);
    }
  }

  lemma {:induction false} TextLessTransitive(a: string, b: string, c: string)
    requires TextLess(a, b) && TextLess(b, c)
    ensures TextLess(a, c)
  {
    if a != [] && b != [] && c != [] && a[0] == b[0] && b[0] == c[0] {
      TextLessTransitive(a[1..], b[1..], c[1..]);
    }
  }

  lemma {:induction false} TextLessTotal(a: string, b: string)
    ensures a == b || TextLess(a, b) || TextLess(b, a)
  {
    if a != [] && b != [] && a[0] == b[0] {
      TextLessTotal(a[1..], b[1..]);
      if a[1..] == b[1..] {
        assert a == [a[0]] + a[1..] && b == [b[0]] + b[1..];
      }
    }
  }
}
