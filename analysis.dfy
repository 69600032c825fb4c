/**
 * The reporter (`--run_analysis`): four queries over `patient_events` — the
 * number of distinct patients, the maximum, minimum and median length of
 * the patients' timelines, the number of distinct patients per gender, and
 * the maximum, minimum and median age at the last event.
 *
 * SQLite's `JULIANDAY` is a parameter `day` that maps a date text to its
 * day number; a difference of day numbers is a number of days. Event dates
 * pass through `date()` first and birth dates do not; both are taken as
 * plain dates, so whole day numbers.
 */
module Analysis {
  import opened Wrappers
  import opened Sql
  import opened Median
  import opened PatientEvents
  import opened Export

  const DaysPerYear := 365

  /** One line of the report: `MAX`, `MIN` and the median, in the query's column order. */
  datatype Stats = Stats(max: int, min: int, median: int)

  /** One group of the gender query: the gender and its distinct patients. */
  datatype GenderCount = GenderCount(gender: string, total: nat)

  /**
   * Whether the age query ran. The reporter prints the first two gender
   * groups by position, outside any `try`: with fewer than two groups that
   * raises `IndexError`, the script stops, and the age query is never run.
   */
  datatype AgeResult = NotReached | Reached(stats: Option<Stats>)

  /** The results the reporter computes, in the order it computes them. */
  datatype Report = Report(
    validPatients: nat, timeline: Option<Stats>, genders: seq<GenderCount>, age: AgeResult)

  /** The patient ids present in the view. */
  function PatientIds(view: seq<ViewRow>): set<string>
  {
    set r | r in view :: r.patientId
  }

  /** `SELECT COUNT(DISTINCT patient_id) FROM patient_events`. */
  function ValidPatients(view: seq<ViewRow>): nat
  {
    |PatientIds(view)|
  }

  /** The `patient_id` column, in table order. */
  function IdColumn(view: seq<ViewRow>): seq<string>
  {
    seq(|view|, i requires 0 <= i < |view| => view[i].patientId)
  }

  lemma IdColumnSpec(view: seq<ViewRow>)
    ensures forall id :: id in IdColumn(view) <==> id in PatientIds(view)
  {
    var ids := IdColumn(view);
    forall id | id in ids ensures id in PatientIds(view) {
      var i :| 0 <= i < |ids| && ids[i] == id;
      assert view[i] in view;
    }
    forall id | id in PatientIds(view) ensures id in ids {
      var r :| r in view && r.patientId == id;
      var i :| 0 <= i < |view| && view[i] == r;
      assert ids[i] == id;
    }
  }

  /** `JULIANDAY(date)` of every event of one patient, in table order. */
  function EventDays(view: seq<ViewRow>, patientId: string, day: string -> int): (days: seq<int>)
    ensures patientId in PatientIds(view) ==> days != []
  {
    RowsOfSpec(view, patientId);
    var rows := RowsOf(view, patientId);
    seq(|rows|, i requires 0 <= i < |rows| => day(rows[i].date))
  }

  /** `max(date(date)) ... GROUP BY patient_id`: the day of the patient's last event. */
  function LastDay(view: seq<ViewRow>, patientId: string, day: string -> int): int
    requires patientId in PatientIds(view)
  {
    MaxOf(EventDays(view, patientId, day))
  }

  /** `min(date(date)) ... GROUP BY patient_id`: the day of the patient's first event. */
  function FirstDay(view: seq<ViewRow>, patientId: string, day: string -> int): int
    requires patientId in PatientIds(view)
  {
    MinOf(EventDays(view, patientId, day))
  }

  /** The `event_length` of a patient: days from its first to its last event. */
  function TimelineLength(view: seq<ViewRow>, patientId: string, day: string -> int): int
    requires patientId in PatientIds(view)
  {
    LastDay(view, patientId, day) - FirstDay(view, patientId, day)
  }

  /** The `age` of a patient, in days: from the birth date to the last event. */
  function AgeAt(view: seq<ViewRow>, patientId: string, birthDate: string, day: string -> int): int
    requires patientId in PatientIds(view)
  {
    LastDay(view, patientId, day) - day(birthDate)
  }

  /** The days of a patient's events all lie between its first and its last event day. */
  lemma TimelineBounds(view: seq<ViewRow>, patientId: string, day: string -> int)
    requires patientId in PatientIds(view)
    ensures forall r :: r in view && r.patientId == patientId ==>
      FirstDay(view, patientId, day) <= day(r.date) <= LastDay(view, patientId, day)
  {
    RowsOfSpec(view, patientId);
    var rows := RowsOf(view, patientId);
    var days := EventDays(view, patientId, day);
    forall r | r in view && r.patientId == patientId
      ensures FirstDay(view, patientId, day) <= day(r.date) <= LastDay(view, patientId, day)
    {
      var i :| 0 <= i < |rows| && rows[i] == r;
      assert days[i] in days;
    }
  }

  /** The first and the last event day are days of events of the patient. */
  lemma TimelineEnds(view: seq<ViewRow>, patientId: string, day: string -> int)
    requires patientId in PatientIds(view)
    ensures exists r :: r in view && r.patientId == patientId && day(r.date) == LastDay(view, patientId, day)
    ensures exists r :: r in view && r.patientId == patientId && day(r.date) == FirstDay(view, patientId, day)
  {
    RowsOfSpec(view, patientId);
    var rows := RowsOf(view, patientId);
    var days := EventDays(view, patientId, day);
    var i :| 0 <= i < |days| && days[i] == LastDay(view, patientId, day);
    assert rows[i] in rows;
    var j :| 0 <= j < |days| && days[j] == FirstDay(view, patientId, day);
    assert rows[j] in rows;
  }

  /** `SELECT DISTINCT patient_id ...` in the timeline query's common table expression. */
  function TimelineIds(view: seq<ViewRow>): (ids: seq<string>)
    ensures NoDuplicates(ids)
    ensures forall id :: id in ids <==> id in PatientIds(view)
  {
    IdColumnSpec(view);
    Distinct(IdColumn(view))
  }

  /** The `event_length` column: last event day minus first event day, one value per distinct patient. */
  function TimelineLengths(view: seq<ViewRow>, day: string -> int): seq<int>
  {
    var ids := TimelineIds(view);
    seq(|ids|, i requires 0 <= i < |ids| => TimelineLength(view, ids[i], day))
  }

  /** `SELECT DISTINCT patient_id, birth_date ...` in the age query's common table expression. */
  function BirthPairs(view: seq<ViewRow>): (pairs: seq<(string, string)>)
    ensures NoDuplicates(pairs)
    ensures forall p :: p in pairs <==> exists r :: r in view && p == (r.patientId, r.birthDate)
  {
    var column := seq(|view|, i requires 0 <= i < |view| => (view[i].patientId, view[i].birthDate));
    assert forall p :: p in column <==> exists r :: r in view && p == (r.patientId, r.birthDate) by {
      forall p | p in column ensures exists r :: r in view && p == (r.patientId, r.birthDate) {
        var i :| 0 <= i < |column| && column[i] == p;
        assert view[i] in view;
      }
      forall p | exists r :: r in view && p == (r.patientId, r.birthDate) ensures p in column {
        var r :| r in view && p == (r.patientId, r.birthDate);
        var i :| 0 <= i < |view| && view[i] == r;
        assert column[i] == p;
      }
    }
    Distinct(column)
  }

  /** The `age` column, in days: last event day minus birth day, one value per distinct (patient, birth date). */
  function AgeDays(view: seq<ViewRow>, day: string -> int): seq<int>
  {
    var pairs := BirthPairs(view);
    seq(|pairs|, i requires 0 <= i < |pairs| =>
      BirthPairId(view, pairs[i]);
      AgeAt(view, pairs[i].0, pairs[i].1, day))
  }

  lemma BirthPairId(view: seq<ViewRow>, pair: (string, string))
    requires pair in BirthPairs(view)
    ensures pair.0 in PatientIds(view)
  {
    var r :| r in view && pair == (r.patientId, r.birthDate);
  }

  /**
   * `CAST(MAX(x) / scale AS INT)`, `CAST(MIN(x) / scale AS INT)` and the
   * median rule, all three NULL when the column is empty.
   */
  function Summary(values: seq<int>, scale: nat): (s: Option<Stats>)
    requires scale >= 1
    ensures s.Some? <==> values != []
  {
    if values == [] then None
    else
      MedianDefined(values, scale);
      Some(Stats(TruncDiv(MaxOf(values), scale), TruncDiv(MinOf(values), scale), MedianOf(values, scale).value))
  }

  /**
   * The three numbers of a non-empty column are ordered min <= median <= max,
   * and every value of the column, scaled and truncated the same way, lies
   * between the minimum and the maximum, which are attained.
   */
  lemma SummaryOrdered(values: seq<int>, scale: nat)
    requires values != [] && scale >= 1
    ensures var s := Summary(values, scale).value;
      && s.min <= s.median <= s.max
      && (forall x :: x in values ==> s.min <= TruncDiv(x, scale) <= s.max)
      && (exists x :: x in values && s.max == TruncDiv(x, scale))
      && (exists x :: x in values && s.min == TruncDiv(x, scale))
      && MedianOf(values, scale) == Some(s.median)
  {
    MedianBetween(values, scale);
    forall x | x in values ensures TruncDiv(MinOf(values), scale) <= TruncDiv(x, scale) <= TruncDiv(MaxOf(values), scale) {
      TruncDivMonotonic(MinOf(values), x, scale);
      TruncDivMonotonic(x, MaxOf(values), scale);
    }
  }

  /** Sorting the distinct genders under SQLite's text order: `GROUP BY gender ORDER BY 1`. */
  predicate StrictlyAscending(s: seq<string>)
  {
    forall i, j :: 0 <= i < j < |s| ==> TextLess(s[i], s[j])
  }

  /** Insert a new text into a strictly ascending sequence. */
  function InsertText(x: string, s: seq<string>): (r: seq<string>)
    requires StrictlyAscending(s) && x !in s
    ensures StrictlyAscending(r)
    ensures forall y :: y in r <==> y in s || y == x
    ensures |r| == |s| + 1
  {
    if s == [] then [x]
    else if TextLess(x, s[0]) then
      assert forall j :: 0 <= j < |s| ==> TextLess(x, s[j]) by {
        forall j | 0 <= j < |s| ensures TextLess(x, s[j]) {
          if j > 0 {
            TextLessTransitive(x, s[0], s[j]);
          }
        }
      }
      [x] + s
    else
      TextLessTotal(x, s[0]);
      var rest := InsertText(x, s[1..]);
      assert forall y :: y in s <==> y == s[0] || y in s[1..];
      assert forall j :: 0 <= j < |rest| ==> TextLess(s[0], rest[j]) by {
        forall j | 0 <= j < |rest| ensures TextLess(s[0], rest[j]) {
          assert rest[j] in rest;
          if rest[j] != x {
            var k :| 0 <= k < |s[1..]| && s[1..][k] == rest[j];
            assert s[k + 1] == rest[j];
          }
        }
      }
      [s[0]] + rest
  }

  /** The distinct texts of `s`, in ascending text order. */
  function SortTexts(s: seq<string>): (r: seq<string>)
    requires NoDuplicates(s)
    ensures StrictlyAscending(r)
    ensures forall y :: y in r <==> y in s
    ensures |r| == |s|
  {
    if s == [] then []
    else
      var init := s[..|s| - 1];
      var last := s[|s| - 1];
      assert forall y :: y in s <==> y in init || y == last;
      assert last !in init;
      InsertText(last, SortTexts(init))
  }

  /** The distinct genders of the view, in ascending order. */
  function Genders(view: seq<ViewRow>): (gs: seq<string>)
    ensures StrictlyAscending(gs)
    ensures forall g :: g in gs <==> exists r :: r in view && r.gender == g
  {
    var column := seq(|view|, i requires 0 <= i < |view| => view[i].gender);
    assert forall g :: g in column <==> exists r :: r in view && r.gender == g by {
      forall g | g in column ensures exists r :: r in view && r.gender == g {
        var i :| 0 <= i < |column| && column[i] == g;
        assert view[i] in view;
      }
      forall g | exists r :: r in view && r.gender == g ensures g in column {
        var r :| r in view && r.gender == g;
        var i :| 0 <= i < |view| && view[i] == r;
        assert column[i] == g;
      }
    }
    SortTexts(Distinct(column))
  }

  /** The ids of the patients the view records with the given gender. */
  function PatientsWithGender(view: seq<ViewRow>, gender: string): set<string>
  {
    set r | r in view && r.gender == gender :: r.patientId
  }

  /**
   * `SELECT gender, COUNT(*) FROM (SELECT DISTINCT patient_id, gender ...)
   * GROUP BY gender ORDER BY 1`.
   */
  function GenderCounts(view: seq<ViewRow>): (counts: seq<GenderCount>)
    ensures forall i, j :: 0 <= i < j < |counts| ==> TextLess(counts[i].gender, counts[j].gender)
  {
    var gs := Genders(view);
    seq(|gs|, i requires 0 <= i < |gs| => GenderCount(gs[i], |PatientsWithGender(view, gs[i])|))
  }

  /** Every gender present in the view has its group. */
  lemma GenderCountsCover(view: seq<ViewRow>)
    ensures forall r :: r in view ==>
      exists i :: 0 <= i < |GenderCounts(view)| && GenderCounts(view)[i].gender == r.gender
  {
    forall r | r in view
      ensures exists i :: 0 <= i < |GenderCounts(view)| && GenderCounts(view)[i].gender == r.gender
    {
      GroupOfRow(view, r);
    }
  }

  /**
   * Every group is of a gender present in the view and counts the distinct
   * patients recorded with that gender, at least one.
   */
  lemma GenderCountsGroups(view: seq<ViewRow>)
    ensures var counts := GenderCounts(view);
      forall i :: 0 <= i < |counts| ==>
        && (exists r :: r in view && r.gender == counts[i].gender)
        && counts[i].total == |PatientsWithGender(view, counts[i].gender)|
        && counts[i].total >= 1
  {
    var counts := GenderCounts(view);
    forall i | 0 <= i < |counts|
      ensures exists r :: r in view && r.gender == counts[i].gender
      ensures counts[i].total == |PatientsWithGender(view, counts[i].gender)| && counts[i].total >= 1
    {
      GroupNonEmpty(view, i);
    }
  }

  lemma GroupNonEmpty(view: seq<ViewRow>, i: nat)
    requires i < |GenderCounts(view)|
    ensures exists r :: r in view && r.gender == GenderCounts(view)[i].gender
    ensures GenderCounts(view)[i].total == |PatientsWithGender(view, GenderCounts(view)[i].gender)|
    ensures GenderCounts(view)[i].total >= 1
  {
    var gs := Genders(view);
    assert gs[i] in gs;
    var r :| r in view && r.gender == gs[i];
    assert r.patientId in PatientsWithGender(view, gs[i]);
  }

  lemma GroupOfRow(view: seq<ViewRow>, r: ViewRow)
    requires r in view
    ensures exists i :: 0 <= i < |GenderCounts(view)| && GenderCounts(view)[i].gender == r.gender
  {
    var gs := Genders(view);
    assert r.gender in gs;
    var i :| 0 <= i < |gs| && gs[i] == r.gender;
    assert GenderCounts(view)[i].gender == r.gender;
  }

  /** The sum of the group counts. */
  function Total(counts: seq<GenderCount>): nat
  {
    if counts == [] then 0 else Total(counts[..|counts| - 1]) + counts[|counts| - 1].total
  }

  /** The distinct (patient_id, gender) pairs whose gender lies in `genders`. */
  function GenderPairs(view: seq<ViewRow>, genders: set<string>): set<(string, string)>
  {
    set r | r in view && r.gender in genders :: (r.patientId, r.gender)
  }

  /** Pairing every id of a set with the same gender keeps the size. */
  lemma {:induction false} TaggedCard(ids: set<string>, gender: string)
    ensures |set id | id in ids :: (id, gender)| == |ids|
    decreases ids
  {
    if ids != {} {
      var x :| x in ids;
      TaggedCard(ids - {x}, gender);
      assert (set id | id in ids :: (id, gender)) == (set id | id in ids - {x} :: (id, gender)) + {(x, gender)};
    }
  }

  /** Adding one gender adds its tagged patients, which were not counted before. */
  lemma GenderPairsAdd(view: seq<ViewRow>, before: set<string>, g: string)
    requires g !in before
    ensures |GenderPairs(view, before + {g})| == |GenderPairs(view, before)| + |PatientsWithGender(view, g)|
  {
    var tagged := set id | id in PatientsWithGender(view, g) :: (id, g);
    assert GenderPairs(view, before + {g}) == GenderPairs(view, before) + tagged;
    assert GenderPairs(view, before) !! tagged;
    TaggedCard(PatientsWithGender(view, g), g);
  }

  /** The set of the first k genders. */
  function FirstGenders(view: seq<ViewRow>, k: nat): set<string>
    requires k <= |Genders(view)|
  {
    var prefix := Genders(view)[..k];
    set g | g in prefix
  }

  lemma FirstGendersStep(view: seq<ViewRow>, k: nat)
    requires 1 <= k <= |Genders(view)|
    ensures FirstGenders(view, k) == FirstGenders(view, k - 1) + {Genders(view)[k - 1]}
    ensures Genders(view)[k - 1] !in FirstGenders(view, k - 1)
  {
    PrefixStep(Genders(view), k);
  }

  /** A strictly ascending sequence's k-th element is new to the elements before it. */
  lemma PrefixStep(s: seq<string>, k: nat)
    requires StrictlyAscending(s) && 1 <= k <= |s|
    ensures var prefix, shorter := s[..k], s[..k - 1];
      && (set g | g in prefix) == (set g | g in shorter) + {s[k - 1]}
      && s[k - 1] !in shorter
  {
    var x := s[k - 1];
    assert forall h :: h in s[..k] <==> h in s[..k - 1] || h == x;
    if x in s[..k - 1] {
      var j :| 0 <= j < k - 1 && s[j] == x;
      TextLessIrreflexive(x);
    }
  }

  /** The counts of the first k groups add up to the pairs whose gender is one of those k. */
  lemma {:induction false} TotalPrefix(view: seq<ViewRow>, k: nat)
    requires k <= |Genders(view)|
    ensures Total(GenderCounts(view)[..k]) == |GenderPairs(view, FirstGenders(view, k))|
  {
    if k == 0 {
      assert FirstGenders(view, 0) == {};
      assert GenderPairs(view, {}) == {};
    } else {
      var counts := GenderCounts(view);
      var g := Genders(view)[k - 1];
      TotalPrefix(view, k - 1);
      FirstGendersStep(view, k);
      GenderPairsAdd(view, FirstGenders(view, k - 1), g);
      TotalLast(counts, k);
      assert counts[k - 1].total == |PatientsWithGender(view, g)|;
    }
  }

  lemma TotalLast(counts: seq<GenderCount>, k: nat)
    requires 1 <= k <= |counts|
    ensures Total(counts[..k]) == Total(counts[..k - 1]) + counts[k - 1].total
  {
    assert counts[..k][..k - 1] == counts[..k - 1];
  }

  /** The group counts add up to the number of distinct (patient_id, gender) pairs. */
  lemma GenderCountsTotal(view: seq<ViewRow>)
    ensures Total(GenderCounts(view)) == |set r | r in view :: (r.patientId, r.gender)|
  {
    var gs := Genders(view);
    TotalPrefix(view, |gs|);
    assert GenderCounts(view)[..|gs|] == GenderCounts(view);
    assert gs[..|gs|] == gs;
    assert GenderPairs(view, FirstGenders(view, |gs|)) == set r | r in view :: (r.patientId, r.gender);
  }

  /** `--run_analysis`: the results, before printing; the age query only runs when two gender groups exist. */
  function RunAnalysis(view: seq<ViewRow>, day: string -> int): Report
  {
    var genders := GenderCounts(view);
    Report(
      ValidPatients(view),
      Summary(TimelineLengths(view, day), 1),
      genders,
      if |genders| >= 2 then Reached(Summary(AgeDays(view, day), DaysPerYear)) else NotReached)
  }

  /** The age query runs exactly when the view holds two different genders. */
  lemma AgeReachedTwoGenders(view: seq<ViewRow>, day: string -> int)
    ensures RunAnalysis(view, day).age.Reached? <==>
      exists r1, r2 :: r1 in view && r2 in view && r1.gender != r2.gender
  {
    var gs := Genders(view);
    assert |GenderCounts(view)| == |gs|;
    if |gs| >= 2 {
      assert gs[0] in gs && gs[1] in gs;
      TextLessIrreflexive(gs[0]);
      assert gs[0] != gs[1];
      var r1 :| r1 in view && r1.gender == gs[0];
      var r2 :| r2 in view && r2.gender == gs[1];
      assert r1.gender != r2.gender;
    } else {
      forall r1, r2 | r1 in view && r2 in view
        ensures r1.gender == r2.gender
      {
        assert r1.gender in gs && r2.gender in gs;
        assert r1.gender == gs[0] == r2.gender;
      }
    }
  }

  /** The timeline query has one value per distinct patient, never negative. */
  lemma TimelineLengthsSpec(view: seq<ViewRow>, day: string -> int)
    ensures |TimelineLengths(view, day)| == ValidPatients(view)
    ensures forall x :: x in TimelineLengths(view, day) ==> x >= 0
    ensures forall r :: r in view ==>
      TimelineLength(view, r.patientId, day) in TimelineLengths(view, day)
  {
    var ids := TimelineIds(view);
    var lengths := TimelineLengths(view, day);
    NoDuplicatesCard(ids);
    assert (set id | id in ids) == PatientIds(view);
    forall x | x in lengths ensures x >= 0 {
      var i :| 0 <= i < |lengths| && lengths[i] == x;
      TimelineBounds(view, ids[i], day);
    }
    forall r | r in view
      ensures TimelineLength(view, r.patientId, day) in lengths
    {
      assert r.patientId in PatientIds(view);
      var i :| 0 <= i < |ids| && ids[i] == r.patientId;
      assert lengths[i] == TimelineLength(view, r.patientId, day);
    }
  }

  /** The age query has one value per (patient, birth date) pair; each row's age is among them. */
  lemma AgeDaysSpec(view: seq<ViewRow>, day: string -> int)
    ensures |AgeDays(view, day)| == |set r | r in view :: (r.patientId, r.birthDate)|
    ensures forall r :: r in view ==>
      AgeAt(view, r.patientId, r.birthDate, day) in AgeDays(view, day)
  {
    var pairs := BirthPairs(view);
    var ages := AgeDays(view, day);
    NoDuplicatesCard(pairs);
    assert (set p | p in pairs) == (set r | r in view :: (r.patientId, r.birthDate));
    forall r | r in view
      ensures AgeAt(view, r.patientId, r.birthDate, day) in ages
    {
      assert (r.patientId, r.birthDate) in pairs;
      var i :| 0 <= i < |pairs| && pairs[i] == (r.patientId, r.birthDate);
      assert ages[i] == AgeAt(view, r.patientId, r.birthDate, day);
    }
  }

  /** With one birth date per patient id, the age query also has one value per distinct patient. */
  lemma AgeOnePerPatient(view: seq<ViewRow>, day: string -> int)
    requires OneTriplePerId(view)
    ensures |AgeDays(view, day)| == ValidPatients(view)
  {
    AgeDaysSpec(view, day);
    var pairs := set r | r in view :: (r.patientId, r.birthDate);
    BirthPairIds(view);
    forall p, q | p in pairs && q in pairs && p.0 == q.0 ensures p == q {
      var r1 :| r1 in view && p == (r1.patientId, r1.birthDate);
      var r2 :| r2 in view && q == (r2.patientId, r2.birthDate);
    }
    FirstInjective(pairs);
  }

  /** The ids of the (patient, birth date) pairs are the patient ids. */
  lemma BirthPairIds(view: seq<ViewRow>)
    ensures var pairs := set r | r in view :: (r.patientId, r.birthDate);
      (set p | p in pairs :: p.0) == PatientIds(view)
  {
    var pairs := set r | r in view :: (r.patientId, r.birthDate);
    forall id | id in PatientIds(view) ensures id in (set p | p in pairs :: p.0) {
      var r :| r in view && r.patientId == id;
      assert (r.patientId, r.birthDate) in pairs;
    }
  }

  /** Projecting pairs on their first component keeps the size when no two pairs share it. */
  lemma {:induction false} FirstInjective(pairs: set<(string, string)>)
    requires forall p, q :: p in pairs && q in pairs && p.0 == q.0 ==> p == q
    ensures |set p | p in pairs :: p.0| == |pairs|
    decreases pairs
  {
    if pairs != {} {
      var x :| x in pairs;
      var rest := pairs - {x};
      FirstInjective(rest);
      assert (set p | p in pairs :: p.0) == (set p | p in rest :: p.0) + {x.0};
      assert x.0 !in (set p | p in rest :: p.0);
    }
  }

  /** The distinct-patient count is the number of documents the exporter writes. */
  lemma ValidPatientsIsExportCount(view: seq<ViewRow>)
    requires OneTriplePerId(view)
    ensures ValidPatients(view) == |Patients(view)|
  {
    PatientsDistinctIds(view);
    PatientsSpec(view);
    var ps := Patients(view);
    var pids := seq(|ps|, i requires 0 <= i < |ps| => ps[i].patientId);
    assert NoDuplicates(pids);
    NoDuplicatesCard(pids);
    assert (set id | id in pids) == PatientIds(view) by {
      forall id | id in pids ensures id in PatientIds(view) {
        var i :| 0 <= i < |pids| && pids[i] == id;
        assert ps[i] in ps;
      }
      forall id | id in PatientIds(view) ensures id in pids {
        var r :| r in view && r.patientId == id;
        assert PatientOf(r) in ps;
        var i :| 0 <= i < |ps| && ps[i] == PatientOf(r);
        assert pids[i] == id;
      }
    }
  }

  /** An empty view reports zero patients, a NULL timeline and no gender group, and stops before the age query. */
  lemma EmptyReport(day: string -> int)
    ensures RunAnalysis([], day) == Report(0, None, [], NotReached)
  {
    assert PatientIds([]) == {};
    assert Genders([]) == [];
  }

  /** A value of a column, scaled and truncated, lies between the column's reported minimum and maximum. */
  lemma SummaryCovers(values: seq<int>, scale: nat, x: int)
    requires x in values && scale >= 1
    ensures Summary(values, scale).Some?
    ensures Summary(values, scale).value.min <= TruncDiv(x, scale) <= Summary(values, scale).value.max
  {
    SummaryOrdered(values, scale);
  }

  /** A column value, at scale 1, lies between the reported minimum and maximum. */
  lemma SummaryCoversUnscaled(values: seq<int>, x: int)
    requires x in values
    ensures Summary(values, 1).Some?
    ensures Summary(values, 1).value.min <= x <= Summary(values, 1).value.max
  {
    SummaryCovers(values, 1, x);
    TruncDivOne(x);
  }

  /**
   * On a non-empty view the timeline statistics are present and ordered
   * 0 <= min <= median <= max, and each patient's timeline length lies
   * between the reported minimum and maximum.
   */
  lemma TimelineReport(view: seq<ViewRow>, day: string -> int)
    requires view != []
    ensures var s := Summary(TimelineLengths(view, day), 1);
      && s.Some?
      && 0 <= s.value.min <= s.value.median <= s.value.max
      && (forall r :: r in view ==>
            s.value.min <= TimelineLength(view, r.patientId, day) <= s.value.max)
  {
    var lengths := TimelineLengths(view, day);
    TimelineLengthsSpec(view, day);
    TimelineMinimum(lengths, TimelineLength(view, view[0].patientId, day));
    forall r | r in view
      ensures Summary(lengths, 1).value.min <= TimelineLength(view, r.patientId, day) <= Summary(lengths, 1).value.max
    {
      SummaryCoversUnscaled(lengths, TimelineLength(view, r.patientId, day));
    }
  }

  lemma TimelineMinimum(lengths: seq<int>, x: int)
    requires x in lengths
    requires forall y :: y in lengths ==> y >= 0
    ensures Summary(lengths, 1).Some?
    ensures 0 <= Summary(lengths, 1).value.min <= Summary(lengths, 1).value.median <= Summary(lengths, 1).value.max
  {
    SummaryOrdered(lengths, 1);
    TruncDivOne(MinOf(lengths));
  }

  /**
   * On a non-empty view the age statistics are present and ordered
   * min <= median <= max, and each row's age at the patient's last event, in
   * whole years truncated, lies between the reported minimum and maximum.
   */
  lemma AgeReport(view: seq<ViewRow>, day: string -> int)
    requires view != []
    ensures var s := Summary(AgeDays(view, day), DaysPerYear);
      && s.Some?
      && s.value.min <= s.value.median <= s.value.max
      && (forall r :: r in view ==>
            s.value.min <= TruncDiv(AgeAt(view, r.patientId, r.birthDate, day), DaysPerYear) <= s.value.max)
  {
    var ages := AgeDays(view, day);
    AgeDaysSpec(view, day);
    assert AgeAt(view, view[0].patientId, view[0].birthDate, day) in ages;
    SummaryOrdered(ages, DaysPerYear);
    forall r | r in view
      ensures Summary(ages, DaysPerYear).value.min <= TruncDiv(AgeAt(view, r.patientId, r.birthDate, day), DaysPerYear)
                <= Summary(ages, DaysPerYear).value.max
    {
      SummaryCovers(ages, DaysPerYear, AgeAt(view, r.patientId, r.birthDate, day));
    }
  }

  /**
   * On a non-empty view the report counts at least one patient, carries the
   * timeline statistics and a gender group, and, when the age query runs,
   * its statistics.
   */
  lemma ReportPresent(view: seq<ViewRow>, day: string -> int)
    requires view != []
    ensures var report := RunAnalysis(view, day);
      && report.validPatients >= 1
      && report.timeline.Some?
      && |report.genders| >= 1
      && (report.age.Reached? ==> report.age.stats.Some?)
  {
    var r := view[0];
    assert r.patientId in PatientIds(view);
    TimelineLengthsSpec(view, day);
    AgeDaysSpec(view, day);
    assert AgeAt(view, r.patientId, r.birthDate, day) in AgeDays(view, day);
    GroupOfRow(view, r);
  }
}
