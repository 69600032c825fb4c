/**
 * The two string helpers of the loader: `split_rows` (split a line on the
 * field delimiter '|') and `clean_newline` (drop every '\n'), together with
 * the comma join that builds column lists. Splitting follows Python's
 * `str.split(sep)`: empty fields are kept and the empty string gives one
 * empty field.
 */
module Text {

  const Delimiter: char := '|'
  const Newline: char := '\n'

  /** Number of occurrences of `c` in `s`. */
  function Count(s: string, c: char): nat
  {
    if s == [] then 0 else (if s[0] == c then 1 else 0) + Count(s[1..], c)
  }

  lemma {:induction false} CountConcat(a: string, b: string, c: char)
    ensures Count(a + b, c) == Count(a, c) + Count(b, c)
  {
    if a != [] {
      assert (a + b)[1..] == a[1..] + b;
      CountConcat(a[1..], b, c);
    } else {
      assert a + b == b;
    }
  }

  lemma {:induction false} CountZero(s: string, c: char)
    ensures Count(s, c) == 0 <==> c !in s
  {
    if s != [] {
      CountZero(s[1..], c);
      assert s == [s[0]] + s[1..];
    }
  }

  /** Python's `s.split(sep)` for a one-character separator. */
  function Split(s: string, sep: char): (fields: seq<string>)
    ensures |fields| >= 1
    decreases |s|
  {
    if s == [] then [""]
    else
      var rest := Split(s[1..], sep);
      if s[0] == sep then [""] + rest
      else [[s[0]] + rest[0]] + rest[1..]
  }

  /** Python's `sep.join(fields)` for a one-character separator. */
  function Join(fields: seq<string>, sep: char): string
  {
    if fields == [] then ""
    else if |fields| == 1 then fields[0]
    else fields[0] + [sep] + Join(fields[1..], sep)
  }

  /** `split_rows`: split one line of a pipe-separated file into its fields. */
  function SplitRows(line: string): seq<string>
  {
    Split(line, Delimiter)
  }

  /** `clean_newline`: `row.replace('\n', '')`. */
  function CleanNewline(row: string): string
  {
    if row == [] then ""
    else (if row[0] == Newline then "" else [row[0]]) + CleanNewline(row[1..])
  }

  /** Splitting gives one more field than there are separators. */
  lemma {:induction false} SplitCount(s: string, sep: char)
    ensures |Split(s, sep)| == Count(s, sep) + 1
    decreases |s|
  {
    if s != [] {
      SplitCount(s[1..], sep);
    }
  }

  /** No field of a split contains the separator. */
  lemma {:induction false} SplitFieldsFree(s: string, sep: char)
    ensures forall i :: 0 <= i < |Split(s, sep)| ==> sep !in Split(s, sep)[i]
    decreases |s|
  {
    if s != [] {
      SplitFieldsFree(s[1..], sep);
      var rest := Split(s[1..], sep);
      if s[0] != sep {
        assert forall i :: 0 <= i < |rest| ==> sep !in rest[i];
        assert sep !in [s[0]] + rest[0];
      }
    }
  }

  /** A character absent from the string is absent from every field of its split. */
  lemma {:induction false} SplitFieldsAvoid(s: string, sep: char, c: char)
    requires c !in s
    ensures forall j :: 0 <= j < |Split(s, sep)| ==> c !in Split(s, sep)[j]
    decreases |s|
  {
    if s != [] {
      assert c !in s[1..];
      SplitFieldsAvoid(s[1..], sep, c);
      var rest := Split(s[1..], sep);
      if s[0] != sep {
        assert c !in [s[0]] + rest[0];
      }
    }
  }

  /** Joining the fields of a split back with the separator gives the line. */
  lemma {:induction false} JoinSplit(s: string, sep: char)
    ensures Join(Split(s, sep), sep) == s
    decreases |s|
  {
    if s != [] {
      JoinSplit(s[1..], sep);
      var rest := Split(s[1..], sep);
      if s[0] == sep {
        assert Join([""] + rest, sep) == "" + [sep] + Join(rest, sep);
        assert s == [s[0]] + s[1..];
      } else {
        JoinConsHead(s[0], rest, sep);
        assert s == [s[0]] + s[1..];
      }
    }
  }

  /** Prepending a character to the first field prepends it to the join. */
  lemma JoinConsHead(c: char, fields: seq<string>, sep: char)
    requires |fields| >= 1
    ensures Join([[c] + fields[0]] + fields[1..], sep) == [c] + Join(fields, sep)
  {
    var g := [[c] + fields[0]] + fields[1..];
    assert g[1..] == fields[1..];
  }

  /** Splitting a join of separator-free fields gives the fields back. */
  lemma {:induction false} SplitJoin(fields: seq<string>, sep: char)
    requires |fields| >= 1
    requires forall i :: 0 <= i < |fields| ==> sep !in fields[i]
    ensures Split(Join(fields, sep), sep) == fields
    decreases |fields|, |fields[0]|
  {
    if |fields| == 1 {
      SplitNoSep(fields[0], sep);
    } else if fields[0] == "" {
      var tail := fields[1..];
      assert Join(fields, sep) == [sep] + Join(tail, sep);
      SplitJoin(tail, sep);
      assert ([sep] + Join(tail, sep))[1..] == Join(tail, sep);
      assert fields == [""] + tail;
    } else {
      var c := fields[0][0];
      var shorter := [fields[0][1..]] + fields[1..];
      assert fields[0] == [c] + fields[0][1..];
      assert sep !in fields[0][1..];
      forall i | 0 <= i < |shorter| ensures sep !in shorter[i] {
        if i > 0 { assert shorter[i] == fields[i]; }
      }
      SplitJoin(shorter, sep);
      JoinConsHead(c, shorter, sep);
      assert [[c] + shorter[0]] + shorter[1..] == fields;
      var j := Join(fields, sep);
      assert j == [c] + Join(shorter, sep);
      assert j[1..] == Join(shorter, sep);
    }
  }

  /** A string without the separator splits into itself alone. */
  lemma {:induction false} SplitNoSep(s: string, sep: char)
    requires sep !in s
    ensures Split(s, sep) == [s]
    decreases |s|
  {
    if s != [] {
      SplitNoSep(s[1..], sep);
      assert s == [s[0]] + s[1..];
    }
  }

  /** `clean_newline` leaves no newline behind. */
  lemma {:induction false} CleanNewlineFree(row: string)
    ensures Newline !in CleanNewline(row)
  {
    if row != [] {
      CleanNewlineFree(row[1..]);
    }
  }

  /** `clean_newline` works character by character, so it keeps every other character in order. */
  lemma {:induction false} CleanNewlineConcat(a: string, b: string)
    ensures CleanNewline(a + b) == CleanNewline(a) + CleanNewline(b)
  {
    if a != [] {
      assert (a + b)[1..] == a[1..] + b;
      CleanNewlineConcat(a[1..], b);
    } else {
      assert a + b == b;
    }
  }

  /** Every character other than a newline keeps its number of occurrences. */
  lemma {:induction false} CleanNewlineKeeps(row: string, c: char)
    requires c != Newline
    ensures Count(CleanNewline(row), c) == Count(row, c)
  {
    if row != [] {
      CleanNewlineKeeps(row[1..], c);
      var head := if row[0] == Newline then "" else [row[0]];
      CountConcat(head, CleanNewline(row[1..]), c);
    }
  }

  /** A row without a newline is left as it is. */
  lemma {:induction false} CleanNewlineNoop(row: string)
    requires Newline !in row
    ensures CleanNewline(row) == row
  {
    if row != [] {
      CleanNewlineNoop(row[1..]);
      assert row == [row[0]] + row[1..];
    }
  }

  /** `clean_newline` is idempotent. */
  lemma CleanNewlineIdempotent(row: string)
    ensures CleanNewline(CleanNewline(row)) == CleanNewline(row)
  {
    CleanNewlineFree(row);
    CleanNewlineNoop(CleanNewline(row));
  }
}
