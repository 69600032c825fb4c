/**
 * The exporter (`--run_json`): one JSON document per distinct
 * (patient_id, birth_date, gender) of `patient_events`, holding the birth
 * date, the gender and the list of the patient's events, each as
 * {date, system, code} with the ICD version mapped to its coding-system URI.
 * Documents are written to `./patient_json_files/<patient_id>.json`; the
 * output directory is modelled as a map from file path to document, so a
 * later write to the same path replaces the earlier one.
 */
module Export {
  import opened Wrappers
  import opened Sql
  import opened PatientEvents

  const Icd9Uri := "http://hl7.org/fhir/sid/icd-9-cm"
  const Icd10Uri := "http://hl7.org/fhir/sid/icd-10"
  const OutputDirectory := "./patient_json_files/"

  /** One row of `SELECT DISTINCT patient_id, birth_date, gender FROM patient_events`. */
  datatype Patient = Patient(patientId: string, birthDate: string, gender: string)

  /** One row of the per-patient events query: date, coding system (NULL when unmapped), code. */
  datatype EventTuple = EventTuple(date: string, system: Option<string>, code: string)

  /** One `{'date', 'system', 'code'}` element of a document's event list. */
  datatype Entry = Entry(date: string, system: Option<string>, code: string)

  /** A patient document: `{'birth_date', 'gender', 'event'}`. */
  datatype Document = Document(birthDate: string, gender: string, event: seq<Entry>)

  /** The CASE expression on `icd_version`: '9' and '10' have a URI, every other version is NULL. */
  function CodingSystem(version: string): (system: Option<string>)
    ensures version == "9" ==> system == Some(Icd9Uri)
    ensures version == "10" ==> system == Some(Icd10Uri)
    ensures version != "9" && version != "10" ==> system == None
  {
    if version == "9" then Some(Icd9Uri)
    else if version == "10" then Some(Icd10Uri)
    else None
  }

  function PatientOf(r: ViewRow): Patient
  {
    Patient(r.patientId, r.birthDate, r.gender)
  }

  /** The patients the exporter iterates over. */
  function Patients(view: seq<ViewRow>): seq<Patient>
  {
    Distinct(seq(|view|, i requires 0 <= i < |view| => PatientOf(view[i])))
  }

  /** The rows of `patient_events` with the given patient id, in table order. */
  function RowsOf(view: seq<ViewRow>, patientId: string): seq<ViewRow>
  {
    if view == [] then []
    else (if view[0].patientId == patientId then [view[0]] else []) + RowsOf(view[1..], patientId)
  }

  function TupleOf(r: ViewRow): EventTuple
  {
    EventTuple(r.date, CodingSystem(r.icdVersion), r.icdCode)
  }

  /** The per-patient events query: `SELECT date, CASE ..., icd_code ... WHERE patient_id = ...`. */
  function EventsQuery(view: seq<ViewRow>, patientId: string): seq<EventTuple>
  {
    var rows := RowsOf(view, patientId);
    seq(|rows|, i requires 0 <= i < |rows| => TupleOf(rows[i]))
  }

  function EntryOf(t: EventTuple): Entry
  {
    Entry(t.date, t.system, t.code)
  }

  /** The document built for one patient. */
  function DocumentFor(view: seq<ViewRow>, p: Patient): Document
  {
    var events := EventsQuery(view, p.patientId);
    Document(p.birthDate, p.gender, seq(|events|, i requires 0 <= i < |events| => EntryOf(events[i])))
  }

  /** `os.path.join('./patient_json_files/', patient_id + '.json')` for a relative patient id. */
  function JsonPath(patientId: string): string
  {
    OutputDirectory + patientId + ".json"
  }

  /** The output directory after writing the documents of `ps` in order. */
  function Written(view: seq<ViewRow>, ps: seq<Patient>): map<string, Document>
  {
    if ps == [] then map[]
    else
      var last := ps[|ps| - 1];
      Written(view, ps[..|ps| - 1])[JsonPath(last.patientId) := DocumentFor(view, last)]
  }

  /**
   * `--run_json`: for each distinct patient, query its events, append one
   * entry per event row, and write the document under the patient's path.
   * The directory may already hold files of an earlier run: those the run
   * writes again are replaced, the others are kept.
   */
  method RunJson(view: seq<ViewRow>, existing: map<string, Document>) returns (files: map<string, Document>)
    ensures files == existing + Written(view, Patients(view))
  {
    var results := Patients(view);
    files := existing;
    for k := 0 to |results|
      invariant files == existing + Written(view, results[..k])
    {
      var row := results[k];
      var eventsList := EventsQuery(view, row.patientId);
      var event: seq<Entry> := [];
      for j := 0 to |eventsList|
        invariant |event| == j
        invariant forall i :: 0 <= i < j ==> event[i] == EntryOf(eventsList[i])
      {
        var t := eventsList[j];
        event := event + [Entry(t.date, t.system, t.code)];
      }
      assert Document(row.birthDate, row.gender, event) == DocumentFor(view, row);
      ghost var before := Written(view, results[..k]);
      files := files[JsonPath(row.patientId) := Document(row.birthDate, row.gender, event)];
      assert results[..k + 1][..k] == results[..k];
      assert files == existing + before[JsonPath(row.patientId) := DocumentFor(view, row)];
    }
    assert results[..|results|] == results;
  }

  /** The rows of one patient: exactly the view rows with that id, in table order. */
  lemma {:induction false} RowsOfSpec(view: seq<ViewRow>, patientId: string)
    ensures forall r :: r in RowsOf(view, patientId) <==> r in view && r.patientId == patientId
    ensures forall r: ViewRow :: r.patientId == patientId ==>
      multiset(RowsOf(view, patientId))[r] == multiset(view)[r]
    ensures RowsOf(view, patientId) == [] <==> forall r :: r in view ==> r.patientId != patientId
  {
    if view != [] {
      RowsOfSpec(view[1..], patientId);
      assert view == [view[0]] + view[1..];
    }
  }

  /**
   * A document's event list has one entry per view row of the patient, in
   * table order, carrying its date, code and the URI of its version; it is
   * empty exactly when the patient has no row.
   */
  lemma DocumentEvents(view: seq<ViewRow>, p: Patient)
    ensures var doc := DocumentFor(view, p);
      var rows := RowsOf(view, p.patientId);
      && doc.birthDate == p.birthDate && doc.gender == p.gender
      && |doc.event| == |rows|
      && (forall i :: 0 <= i < |rows| ==>
            doc.event[i] == Entry(rows[i].date, CodingSystem(rows[i].icdVersion), rows[i].icdCode))
      && (doc.event == [] <==> forall r :: r in view ==> r.patientId != p.patientId)
  {
    RowsOfSpec(view, p.patientId);
  }

  /** Every system value in an exported document is one of the two URIs or NULL. */
  lemma SystemsAreKnown(view: seq<ViewRow>, p: Patient)
    ensures forall e :: e in DocumentFor(view, p).event ==>
      e.system == None || e.system == Some(Icd9Uri) || e.system == Some(Icd10Uri)
  {
  }

  /** Each distinct triple of the view is exported exactly once. */
  lemma PatientsSpec(view: seq<ViewRow>)
    ensures forall p :: p in Patients(view) <==> exists r :: r in view && PatientOf(r) == p
    ensures NoDuplicates(Patients(view))
  {
    var triples := seq(|view|, i requires 0 <= i < |view| => PatientOf(view[i]));
    forall p ensures p in triples <==> exists r :: r in view && PatientOf(r) == p {
      if p in triples {
        var i :| 0 <= i < |triples| && triples[i] == p;
        assert view[i] in view;
      }
      if exists r :: r in view && PatientOf(r) == p {
        var r :| r in view && PatientOf(r) == p;
        var i :| 0 <= i < |view| && view[i] == r;
        assert triples[i] == p;
      }
    }
  }

  /** Paths of different patients differ, so writes for different ids never collide. */
  lemma JsonPathInjective(a: string, b: string)
    ensures JsonPath(a) == JsonPath(b) <==> a == b
  {
    if JsonPath(a) == JsonPath(b) {
      var n := |OutputDirectory|;
      assert a == JsonPath(a)[n..|JsonPath(a)| - 5];
      assert b == JsonPath(b)[n..|JsonPath(b)| - 5];
    }
  }

  /** The files written: one path per patient written, each holding the document of the last patient written there. */
  lemma {:induction false} WrittenSpec(view: seq<ViewRow>, ps: seq<Patient>)
    ensures forall path :: path in Written(view, ps) <==> exists p :: p in ps && JsonPath(p.patientId) == path
  {
    if ps != [] {
      var init := ps[..|ps| - 1];
      WrittenSpec(view, init);
      assert forall p :: p in ps <==> p in init || p == ps[|ps| - 1];
    }
  }

  /** No two patients of `ps` share an id. */
  predicate DistinctIds(ps: seq<Patient>)
  {
    forall i, j :: 0 <= i < j < |ps| ==> ps[i].patientId != ps[j].patientId
  }

  /** When no two patients share an id, every patient's file holds its own document and nothing is overwritten. */
  lemma {:induction false} WrittenDistinct(view: seq<ViewRow>, ps: seq<Patient>)
    requires DistinctIds(ps)
    ensures |Written(view, ps)| == |ps|
    ensures forall p :: p in ps ==>
      JsonPath(p.patientId) in Written(view, ps) && Written(view, ps)[JsonPath(p.patientId)] == DocumentFor(view, p)
  {
    if ps != [] {
      var init := ps[..|ps| - 1];
      var last := ps[|ps| - 1];
      assert DistinctIds(init);
      WrittenDistinct(view, init);
      LastPathIsNew(view, ps);
      forall p | p in ps
        ensures JsonPath(p.patientId) in Written(view, ps) && Written(view, ps)[JsonPath(p.patientId)] == DocumentFor(view, p)
      {
        if p != last {
          EarlierPathDiffers(ps, p);
        }
      }
    }
  }

  /** The last patient's path was not written by the patients before it. */
  lemma LastPathIsNew(view: seq<ViewRow>, ps: seq<Patient>)
    requires DistinctIds(ps) && ps != []
    ensures JsonPath(ps[|ps| - 1].patientId) !in Written(view, ps[..|ps| - 1])
  {
    var init := ps[..|ps| - 1];
    var last := ps[|ps| - 1];
    WrittenSpec(view, init);
    forall q | q in init ensures JsonPath(q.patientId) != JsonPath(last.patientId) {
      JsonPathInjective(q.patientId, last.patientId);
    }
  }

  /** A patient before the last one is written to another path. */
  lemma EarlierPathDiffers(ps: seq<Patient>, p: Patient)
    requires DistinctIds(ps) && p in ps && p != ps[|ps| - 1]
    ensures p in ps[..|ps| - 1]
    ensures JsonPath(p.patientId) != JsonPath(ps[|ps| - 1].patientId)
  {
    JsonPathInjective(p.patientId, ps[|ps| - 1].patientId);
  }

  /** Within the view, a patient id determines the birth date and the gender. */
  predicate OneTriplePerId(view: seq<ViewRow>)
  {
    forall r1, r2 :: r1 in view && r2 in view && r1.patientId == r2.patientId ==>
      r1.birthDate == r2.birthDate && r1.gender == r2.gender
  }

  /** The view of a `demo` table with unique ids has one triple per id. */
  lemma ViewOneTriplePerId(demo: seq<Demo>, events: seq<Event>)
    requires UniqueIds(demo)
    ensures OneTriplePerId(View(demo, events))
  {
    var view := View(demo, events);
    forall r1, r2 | r1 in view && r2 in view && r1.patientId == r2.patientId
      ensures r1.birthDate == r2.birthDate && r1.gender == r2.gender
    {
      ViewMembership(demo, events, r1);
      ViewMembership(demo, events, r2);
      var d1, e1 :| d1 in demo && e1 in events && Qualifies(d1, e1) && r1 == Combine(d1, e1);
      var d2, e2 :| d2 in demo && e2 in events && Qualifies(d2, e2) && r2 == Combine(d2, e2);
      var i :| 0 <= i < |demo| && demo[i] == d1;
      var j :| 0 <= j < |demo| && demo[j] == d2;
      assert i == j;
    }
  }

  /** With one triple per id, the exported patients have pairwise different ids. */
  lemma PatientsDistinctIds(view: seq<ViewRow>)
    requires OneTriplePerId(view)
    ensures DistinctIds(Patients(view))
  {
    PatientsSpec(view);
    var ps := Patients(view);
    forall i, j | 0 <= i < j < |ps| ensures ps[i].patientId != ps[j].patientId {
      SameIdSamePatient(view, ps[i], ps[j]);
    }
  }

  /** In a view with one triple per id, two exported patients with the same id are the same patient. */
  lemma SameIdSamePatient(view: seq<ViewRow>, p: Patient, q: Patient)
    requires OneTriplePerId(view)
    requires p in Patients(view) && q in Patients(view)
    ensures p.patientId == q.patientId ==> p == q
  {
    PatientsSpec(view);
    var r1 :| r1 in view && PatientOf(r1) == p;
    var r2 :| r2 in view && PatientOf(r2) == q;
  }

  /**
   * After a load whose `demo` ids are unique, `--run_json` writes exactly one
   * file per patient of the view, holding that patient's document.
   */
  lemma ExportAfterLoad(demo: seq<Demo>, events: seq<Event>)
    requires UniqueIds(demo)
    ensures var view := View(demo, events);
      var files := Written(view, Patients(view));
      && |files| == |Patients(view)|
      && (forall r :: r in view ==>
            JsonPath(r.patientId) in files && files[JsonPath(r.patientId)] == DocumentFor(view, PatientOf(r)))
      && (forall path :: path in files ==> exists r :: r in view && path == JsonPath(r.patientId))
  {
    var view := View(demo, events);
    ViewOneTriplePerId(demo, events);
    PatientsDistinctIds(view);
    PatientsSpec(view);
    WrittenDistinct(view, Patients(view));
    WrittenSpec(view, Patients(view));
    forall r | r in view
      ensures JsonPath(r.patientId) in Written(view, Patients(view))
    {
      assert PatientOf(r) in Patients(view);
    }
    forall path | path in Written(view, Patients(view))
      ensures exists r :: r in view && path == JsonPath(r.patientId)
    {
      var p :| p in Patients(view) && JsonPath(p.patientId) == path;
      var r :| r in view && PatientOf(r) == p;
    }
  }
}
