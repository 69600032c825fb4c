/**
 * The derived table `patient_events`: the inner join of `demo` and `events`
 * on `patient_id`, keeping only the pairs whose event code, code version,
 * event date, birth date and gender are all non-empty, with the fixed
 * output column order patient_id, birth_date, gender, date, icd_version,
 * icd_code.
 *
 * SQL leaves the order of a join's rows to the query planner. The model
 * takes the events table as the outer loop and looks each event's patient
 * up in `demo` (the access path the primary-key index on `demo` offers);
 * `JoinOrderIrrelevant` shows that the other loop order gives the same rows
 * with the same multiplicities.
 */
module PatientEvents {

  /** A row of `demo`. */
  datatype Demo = Demo(patientId: string, birthDate: string, gender: string)

  /** A row of `events`. */
  datatype Event = Event(patientId: string, date: string, icdVersion: string, icdCode: string)

  /** A row of `patient_events`, in its column order. */
  datatype ViewRow = ViewRow(
    patientId: string, birthDate: string, gender: string,
    date: string, icdVersion: string, icdCode: string)

  const ViewTable := "patient_events"
  const ViewColumns := ["patient_id", "birth_date", "gender", "date", "icd_version", "icd_code"]

  /** The join condition and the WHERE clause of the view's INSERT ... SELECT. */
  predicate Qualifies(d: Demo, e: Event)
  {
    && d.patientId == e.patientId
    && e.icdCode != ""
    && e.icdVersion != ""
    && e.date != ""
    && d.birthDate != ""
    && d.gender != ""
  }

  /** The SELECT list: A.patient_id, A.birth_date, A.gender, B.date, B.icd_version, B.icd_code. */
  function Combine(d: Demo, e: Event): ViewRow
  {
    ViewRow(d.patientId, d.birthDate, d.gender, e.date, e.icdVersion, e.icdCode)
  }

  /** The rows one event contributes: one per qualifying `demo` row, in `demo` order. */
  function MatchesOf(demo: seq<Demo>, e: Event): seq<ViewRow>
  {
    if demo == [] then []
    else (if Qualifies(demo[0], e) then [Combine(demo[0], e)] else []) + MatchesOf(demo[1..], e)
  }

  /** The contents of `patient_events` after the load. */
  function View(demo: seq<Demo>, events: seq<Event>): seq<ViewRow>
  {
    if events == [] then [] else MatchesOf(demo, events[0]) + View(demo, events[1..])
  }

  /** A row is in the view exactly when some qualifying pair of rows gives it. */
  lemma {:induction false} MatchesOfMembership(demo: seq<Demo>, e: Event, r: ViewRow)
    ensures r in MatchesOf(demo, e) <==> exists d :: d in demo && Qualifies(d, e) && r == Combine(d, e)
  {
    if demo != [] {
      MatchesOfMembership(demo[1..], e, r);
      assert forall d :: d in demo <==> d == demo[0] || d in demo[1..];
    }
  }

  /** Each row of the view comes from a qualifying `demo` row and `events` row, and every qualifying pair is there. */
  lemma {:induction false} ViewMembership(demo: seq<Demo>, events: seq<Event>, r: ViewRow)
    ensures r in View(demo, events) <==>
      exists d, e :: d in demo && e in events && Qualifies(d, e) && r == Combine(d, e)
  {
    if events != [] {
      ViewMembership(demo, events[1..], r);
      MatchesOfMembership(demo, events[0], r);
      assert forall e :: e in events <==> e == events[0] || e in events[1..];
    }
  }

  /** The five required fields are non-empty in every row of the view. */
  lemma ViewFieldsNonEmpty(demo: seq<Demo>, events: seq<Event>)
    ensures forall r :: r in View(demo, events) ==>
      r.icdCode != "" && r.icdVersion != "" && r.date != "" && r.birthDate != "" && r.gender != ""
  {
    forall r | r in View(demo, events)
      ensures r.icdCode != "" && r.icdVersion != "" && r.date != "" && r.birthDate != "" && r.gender != ""
    {
      ViewMembership(demo, events, r);
    }
  }

  /** Every qualifying pair of rows appears in the view. */
  lemma ViewComplete(demo: seq<Demo>, events: seq<Event>, d: Demo, e: Event)
    requires d in demo && e in events && Qualifies(d, e)
    ensures Combine(d, e) in View(demo, events)
  {
    ViewMembership(demo, events, Combine(d, e));
  }

  /** The primary key of `demo`: no two rows share a patient id. */
  predicate UniqueIds(demo: seq<Demo>)
  {
    forall i, j :: 0 <= i < j < |demo| ==> demo[i].patientId != demo[j].patientId
  }

  /** Some row of `demo` qualifies with the event. */
  predicate HasPartner(demo: seq<Demo>, e: Event)
  {
    exists d :: d in demo && Qualifies(d, e)
  }

  /** The events that find a qualifying patient, in order. */
  function QualifyingEvents(demo: seq<Demo>, events: seq<Event>): seq<Event>
  {
    if events == [] then []
    else (if HasPartner(demo, events[0]) then [events[0]] else []) + QualifyingEvents(demo, events[1..])
  }

  /** With unique patient ids an event gives at most one row. */
  lemma {:induction false} MatchesOfUnique(demo: seq<Demo>, e: Event)
    requires UniqueIds(demo)
    ensures |MatchesOf(demo, e)| == if HasPartner(demo, e) then 1 else 0
  {
    if demo != [] {
      var tail := demo[1..];
      assert UniqueIds(tail) by {
        forall i, j | 0 <= i < j < |tail| ensures tail[i].patientId != tail[j].patientId {
          assert tail[i] == demo[i + 1] && tail[j] == demo[j + 1];
        }
      }
      MatchesOfUnique(tail, e);
      if Qualifies(demo[0], e) {
        assert !HasPartner(tail, e);
      } else {
        if HasPartner(demo, e) {
          var d :| d in demo && Qualifies(d, e);
          assert d in tail;
        }
      }
    }
  }

  /**
   * With unique patient ids the view has one row per event whose patient
   * exists and whose required fields are all non-empty.
   */
  lemma {:induction false} ViewCount(demo: seq<Demo>, events: seq<Event>)
    requires UniqueIds(demo)
    ensures |View(demo, events)| == |QualifyingEvents(demo, events)|
  {
    if events != [] {
      MatchesOfUnique(demo, events[0]);
      ViewCount(demo, events[1..]);
    }
  }

  // The other loop order: `demo` outer, `events` inner.

  /** The rows one patient contributes, in `events` order. */
  function EventsOfDemo(d: Demo, events: seq<Event>): seq<ViewRow>
  {
    if events == [] then []
    else (if Qualifies(d, events[0]) then [Combine(d, events[0])] else []) + EventsOfDemo(d, events[1..])
  }

  /** The join computed with `demo` as the outer loop. */
  function ViewDemoOuter(demo: seq<Demo>, events: seq<Event>): seq<ViewRow>
  {
    if demo == [] then [] else EventsOfDemo(demo[0], events) + ViewDemoOuter(demo[1..], events)
  }

  /** Peeling the first event off the demo-outer join. */
  lemma {:induction false} DemoOuterFirstEvent(demo: seq<Demo>, events: seq<Event>)
    requires events != []
    ensures multiset(ViewDemoOuter(demo, events))
      == multiset(MatchesOf(demo, events[0])) + multiset(ViewDemoOuter(demo, events[1..]))
  {
    if demo != [] {
      DemoOuterFirstEvent(demo[1..], events);
    }
  }

  /** Both loop orders yield the same rows with the same multiplicities. */
  lemma {:induction false} JoinOrderIrrelevant(demo: seq<Demo>, events: seq<Event>)
    ensures multiset(View(demo, events)) == multiset(ViewDemoOuter(demo, events))
  {
    if events == [] {
      DemoOuterEmpty(demo);
    } else {
      JoinOrderIrrelevant(demo, events[1..]);
      DemoOuterFirstEvent(demo, events);
    }
  }

  lemma {:induction false} DemoOuterEmpty(demo: seq<Demo>)
    ensures ViewDemoOuter(demo, []) == []
  {
    if demo != [] {
      DemoOuterEmpty(demo[1..]);
    }
  }
}
