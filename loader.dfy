/**
 * The loader (`-load`): `parse_files` reads each pipe-separated file, takes
 * its first line as the column headers, annotates them with the key
 * constraints of its table, and turns every later line into a row; then
 * `create_table` and `insert_rows` build the statement text that is handed to
 * the database. Files are given as the lines `readline`/`readlines` return
 * (each with its '\n', if any); the database itself is not modelled.
 */
module Loader {
  import opened Wrappers
  import opened Text

  const DemoTable := "demo"
  const EventsTable := "events"
  const PrimaryKeySuffix := " PRIMARY KEY"
  const PatientIdColumn := "patient_id"
  /** `FOREIGN KEY (patient_id) REFERENCES demo (patient_id)`. */
  const ForeignKeyClause := "FOREIGN KEY (" + PatientIdColumn + ") REFERENCES " + DemoTable + " (" + PatientIdColumn + ")"

  /** What `parse_files` hands to `create_table` and `insert_rows` for one file. */
  datatype TableLoad = TableLoad(table: string, headers: seq<string>, rows: seq<seq<string>>)

  /** The exception `insert_rows` catches when it is given no row at all. */
  datatype LoadError = IndexError

  /** The header line: what `readline` returns, which is "" for an empty file. */
  function HeaderLine(lines: seq<string>): string
  {
    if lines == [] then "" else lines[0]
  }

  /** The remaining lines: what `readlines` returns after the header was read. */
  function DataLines(lines: seq<string>): seq<string>
  {
    if lines == [] then [] else lines[1..]
  }

  /**
   * The schema annotation of `parse_files`: the first `demo` column becomes
   * the primary key and `events` gains a foreign-key clause; the headers of
   * any other table are left alone.
   */
  function AnnotateHeaders(table: string, headers: seq<string>): (r: seq<string>)
    requires |headers| >= 1
    ensures table == DemoTable ==>
      |r| == |headers| && r[0] == headers[0] + PrimaryKeySuffix && r[1..] == headers[1..]
    ensures table == EventsTable ==>
      |r| == |headers| + 1 && r[..|headers|] == headers && r[|headers|] == ForeignKeyClause
    ensures table != DemoTable && table != EventsTable ==> r == headers
  {
    if table == DemoTable then [headers[0] + PrimaryKeySuffix] + headers[1..]
    else if table == EventsTable then headers + [ForeignKeyClause]
    else headers
  }

  /** One line of data: newlines dropped, then split on '|'. */
  function ParseRow(line: string): seq<string>
  {
    SplitRows(CleanNewline(line))
  }

  /** What `parse_files` produces for one table and its file. */
  function ParseFile(table: string, lines: seq<string>): TableLoad
  {
    var data := DataLines(lines);
    TableLoad(
      table,
      AnnotateHeaders(table, ParseRow(HeaderLine(lines))),
      seq(|data|, i requires 0 <= i < |data| => ParseRow(data[i])))
  }

  /**
   * `parse_files`: the loop over the table-to-file mapping, in the mapping's
   * order, updating the header list in place as the source does.
   */
  method ParseFiles(tables: seq<(string, seq<string>)>) returns (loads: seq<TableLoad>)
    ensures |loads| == |tables|
    ensures forall i :: 0 <= i < |tables| ==> loads[i] == ParseFile(tables[i].0, tables[i].1)
  {
    loads := [];
    for k := 0 to |tables|
      invariant |loads| == k
      invariant forall i :: 0 <= i < k ==> loads[i] == ParseFile(tables[i].0, tables[i].1)
    {
      var (table, lines) := tables[k];
      var headerRow := if lines == [] then "" else lines[0];
      var headers := SplitRows(CleanNewline(headerRow));
      ghost var parsed := headers;
      assert parsed == ParseRow(HeaderLine(lines));
      if table == DemoTable {
        headers := headers[0 := headers[0] + PrimaryKeySuffix];
        assert headers == [parsed[0] + PrimaryKeySuffix] + parsed[1..];
      }
      if table == EventsTable {
        headers := headers + [ForeignKeyClause];
      }
      assert headers == AnnotateHeaders(table, parsed);
      var data := if lines == [] then [] else lines[1..];
      var dataRows := seq(|data|, i requires 0 <= i < |data| => SplitRows(CleanNewline(data[i])));
      assert dataRows == ParseFile(table, lines).rows;
      loads := loads + [TableLoad(table, headers, dataRows)];
    }
  }

  /**
   * Every line after the header becomes exactly one row, in file order; a
   * row holds no delimiter and no newline, and joining it back with '|'
   * gives its line without newlines.
   */
  lemma RowsOfFile(table: string, lines: seq<string>)
    ensures |ParseFile(table, lines).rows| == if lines == [] then 0 else |lines| - 1
    ensures forall i :: 1 <= i < |lines| ==>
      var row := ParseFile(table, lines).rows[i - 1];
      && row == SplitRows(CleanNewline(lines[i]))
      && |row| == Count(lines[i], Delimiter) + 1
      && Join(row, Delimiter) == CleanNewline(lines[i])
      && forall j :: 0 <= j < |row| ==> Delimiter !in row[j] && Newline !in row[j]
  {
    forall i | 1 <= i < |lines|
      ensures ParseFile(table, lines).rows[i - 1] == ParseRow(lines[i])
    {
      assert DataLines(lines)[i - 1] == lines[i];
    }
    forall i | 1 <= i < |lines|
      ensures var row := ParseRow(lines[i]);
        && |row| == Count(lines[i], Delimiter) + 1
        && Join(row, Delimiter) == CleanNewline(lines[i])
        && forall j :: 0 <= j < |row| ==> Delimiter !in row[j] && Newline !in row[j]
    {
      RowOfLine(lines[i]);
    }
  }

  /** One data line's row: a field per delimiter plus one, re-joining to the cleaned line, holding no delimiter or newline. */
  lemma RowOfLine(line: string)
    ensures var row := ParseRow(line);
      && |row| == Count(line, Delimiter) + 1
      && Join(row, Delimiter) == CleanNewline(line)
      && forall j :: 0 <= j < |row| ==> Delimiter !in row[j] && Newline !in row[j]
  {
    var clean := CleanNewline(line);
    SplitCount(clean, Delimiter);
    CleanNewlineKeeps(line, Delimiter);
    JoinSplit(clean, Delimiter);
    SplitFieldsFree(clean, Delimiter);
    CleanNewlineFree(line);
    SplitFieldsAvoid(clean, Delimiter, Newline);
  }

  /** `",".join(headers)`: the column list of `create_table`. */
  function ColumnList(headers: seq<string>): string
  {
    Join(headers, ',')
  }

  /** The statement `create_table` executes. */
  function CreateTableSql(table: string, headers: seq<string>): string
  {
    "CREATE TABLE IF NOT EXISTS " + table + " (" + ColumnList(headers) + ")"
  }

  /** The column list holds each header once, in order, when no header holds a comma. */
  lemma ColumnListRoundTrip(headers: seq<string>)
    requires |headers| >= 1
    requires forall i :: 0 <= i < |headers| ==> ',' !in headers[i]
    ensures Split(ColumnList(headers), ',') == headers
  {
    SplitJoin(headers, ',');
  }

  /** Neither key annotation holds a comma, so neither splits a column of the column list. */
  lemma ConstraintsCommaFree()
    ensures ',' !in PrimaryKeySuffix && ',' !in ForeignKeyClause
  {
    assert ',' !in "FOREIGN KEY (" && ',' !in PatientIdColumn && ',' !in ") REFERENCES ";
    assert ',' !in DemoTable && ',' !in " (" && ',' !in ")";
  }

  /**
   * The statement `create_table` receives for a parsed file: reading the
   * column list back out of the statement text gives the annotated headers,
   * one per field of the header line, plus the foreign-key clause for
   * `events` (when the header line holds no comma).
   */
  lemma CreateTableColumns(table: string, lines: seq<string>)
    requires ',' !in HeaderLine(lines)
    ensures var load := ParseFile(table, lines);
      var sql := CreateTableSql(table, load.headers);
      var prefix := "CREATE TABLE IF NOT EXISTS " + table + " (";
      && |prefix| < |sql| && sql[..|prefix|] == prefix && sql[|sql| - 1] == ')'
      && Split(sql[|prefix|..|sql| - 1], ',') == load.headers
      && |load.headers| == Count(HeaderLine(lines), Delimiter) + (if table == EventsTable then 2 else 1)
  {
    var line := HeaderLine(lines);
    var clean := CleanNewline(line);
    var parsed := SplitRows(clean);
    CleanNewlineKeeps(line, ',');
    CountZero(line, ',');
    CountZero(clean, ',');
    SplitFieldsAvoid(clean, Delimiter, ',');
    SplitCount(clean, Delimiter);
    CleanNewlineKeeps(line, Delimiter);
    var headers := AnnotateHeaders(table, parsed);
    ConstraintsCommaFree();
    forall i | 0 <= i < |headers|
      ensures ',' !in headers[i]
    {
      if table == DemoTable && i == 0 {
        assert headers[0] == parsed[0] + PrimaryKeySuffix;
      } else if table == DemoTable {
        assert headers[i] == parsed[i];
      } else if table == EventsTable && i < |parsed| {
        assert headers[i] == parsed[i];
      }
    }
    ColumnListRoundTrip(headers);
    var prefix := "CREATE TABLE IF NOT EXISTS " + table + " (";
    var sql := CreateTableSql(table, headers);
    assert sql == prefix + ColumnList(headers) + ")";
    assert sql[|prefix|..|sql| - 1] == ColumnList(headers);
  }

  /** `s * k` in Python, for k >= 0. */
  function Repeat(s: string, k: nat): string
  {
    if k == 0 then "" else s + Repeat(s, k - 1)
  }

  /**
   * `"?," * (n - 1) + "?"`: the VALUES list of `insert_rows` for a first row
   * of n fields. Python repeats a string a negative number of times as "".
   */
  function Placeholders(n: nat): string
  {
    Repeat("?,", if n >= 1 then n - 1 else 0) + "?"
  }

  /** n placeholders, each `?`, separated by n - 1 commas. */
  lemma PlaceholdersShape(n: nat)
    requires n >= 1
    ensures Placeholders(n) == Join(seq(n, _ => "?"), ',')
    ensures Count(Placeholders(n), '?') == n && Count(Placeholders(n), ',') == n - 1
    ensures Split(Placeholders(n), ',') == seq(n, _ => "?")
  {
    PlaceholdersJoin(n);
    PlaceholdersCount(n);
    var qs := seq(n, _ => "?");
    forall i | 0 <= i < n ensures ',' !in qs[i] { }
    SplitJoin(qs, ',');
  }

  /** The placeholder list is n `?` joined with commas. */
  lemma {:induction false} PlaceholdersJoin(n: nat)
    requires n >= 1
    ensures Placeholders(n) == Join(seq(n, _ => "?"), ',')
  {
    if n == 1 {
      assert Placeholders(1) == "?";
    } else {
      PlaceholdersJoin(n - 1);
      var qs := seq(n, _ => "?");
      assert qs[1..] == seq(n - 1, _ => "?");
      assert Placeholders(n) == "?," + Placeholders(n - 1);
      assert Placeholders(n) == "?" + [','] + Placeholders(n - 1);
    }
  }

  /** The placeholder list holds n `?` and n - 1 commas. */
  lemma {:induction false} PlaceholdersCount(n: nat)
    requires n >= 1
    ensures Count(Placeholders(n), '?') == n && Count(Placeholders(n), ',') == n - 1
  {
    if n == 1 {
      assert Placeholders(1) == "?";
    } else {
      PlaceholdersCount(n - 1);
      assert Placeholders(n) == "?," + Placeholders(n - 1);
      CountConcat("?,", Placeholders(n - 1), '?');
      CountConcat("?,", Placeholders(n - 1), ',');
    }
  }

  /**
   * The statement `insert_rows` passes to `executemany`, or the IndexError
   * raised by `rows[0]` when the file had no data line.
   */
  function InsertSql(table: string, rows: seq<seq<string>>): (r: Result<string, LoadError>)
    ensures r.Failure? <==> rows == []
    ensures r.Success? ==>
      r.value == "INSERT INTO " + table + " VALUES (" + Placeholders(|rows[0]|) + ")"
  {
    if rows == [] then Failure(IndexError)
    else Success("INSERT INTO " + table + " VALUES (" + Placeholders(|rows[0]|) + ")")
  }

  /** The insert statement for rows whose first row has n fields holds n `?` beyond those of the table name (n >= 1). */
  lemma InsertPlaceholderCount(table: string, rows: seq<seq<string>>)
    requires rows != [] && |rows[0]| >= 1
    ensures Count(InsertSql(table, rows).value, '?') == Count(table, '?') + |rows[0]|
  {
    PlaceholdersShape(|rows[0]|);
    InsertFrame(table, Placeholders(|rows[0]|));
  }

  /** The fixed text of the insert statement holds no `?`. */
  lemma InsertFrame(table: string, values: string)
    ensures Count("INSERT INTO " + table + " VALUES (" + values + ")", '?') == Count(table, '?') + Count(values, '?')
  {
    FrameCount("INSERT INTO ", table, " VALUES (", values, ")", '?');
  }

  lemma FrameCount(a: string, b: string, c: string, d: string, e: string, x: char)
    requires x !in a && x !in c && x !in e
    ensures Count(a + b + c + d + e, x) == Count(b, x) + Count(d, x)
  {
    CountZero(a, x);
    CountZero(c, x);
    CountZero(e, x);
    CountConcat4(a, b, c, d, x);
    CountConcat(a + b + c + d, e, x);
  }

  lemma CountConcat4(a: string, b: string, c: string, d: string, x: char)
    ensures Count(a + b + c + d, x) == Count(a, x) + Count(b, x) + Count(c, x) + Count(d, x)
  {
    CountConcat(a, b, x);
    CountConcat(a + b, c, x);
    CountConcat(a + b + c, d, x);
  }

  /** A file that has at least one data line yields an insert with one `?` per field of its first row. */
  lemma InsertHasOnePlaceholderPerField(table: string, lines: seq<string>)
    requires |lines| >= 2
    ensures var load := ParseFile(table, lines);
      var r := InsertSql(table, load.rows);
      && r.Success?
      && Count(r.value, '?') == Count(table, '?') + Count(lines[1], Delimiter) + 1
  {
    var load := ParseFile(table, lines);
    RowsOfFile(table, lines);
    InsertPlaceholderCount(table, load.rows);
  }

  /** A file with only a header line (or nothing) reaches the error branch of `insert_rows`. */
  lemma EmptyDataFails(table: string, lines: seq<string>)
    requires |lines| <= 1
    ensures InsertSql(table, ParseFile(table, lines).rows) == Failure(IndexError)
  {
  }
}
