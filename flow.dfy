/**
 * The booking flow end to end: the query string the wizard's submit handler
 * sends is read back by the confirmation page, which stores the record.
 * Percent-encoding is left out, so a value arrives as it was sent.
 */
module Flow {
  import opened Options
  import opened Text
  import opened Wizard
  import opened Store

  /**
   * `getUrlParams`: the query's entries copied in order into an object, so a
   * later value overwrites an earlier one under the same key.
   */
  function QueryParams(q: seq<(string, string)>): (m: map<string, string>)
    ensures forall k :: k in m <==> exists j :: 0 <= j < |q| && q[j].0 == k
  {
    if q == [] then map[]
    else
      var init := QueryParams(q[..|q| - 1]);
      assert forall k :: k in init <==> exists j :: 0 <= j < |q| - 1 && q[j].0 == k by {
        forall k | k in init
          ensures exists j :: 0 <= j < |q| - 1 && q[j].0 == k
        {
          var j :| 0 <= j < |q| - 1 && q[..|q| - 1][j].0 == k;
          assert q[j].0 == k;
        }
      }
      init[q[|q| - 1].0 := q[|q| - 1].1]
  }

  /** A key that does not occur again later reads as the value it was given. */
  lemma {:induction false} LastValueWins(q: seq<(string, string)>, i: nat)
    requires i < |q|
    requires forall j :: i < j < |q| ==> q[j].0 != q[i].0
    ensures q[i].0 in QueryParams(q) && QueryParams(q)[q[i].0] == q[i].1
  {
    if i < |q| - 1 {
      assert q[..|q| - 1][i] == q[i];
      LastValueWins(q[..|q| - 1], i);
    }
  }

  /** The key at position `j` of the submitted query. */
  function KeyAt(j: nat, len: nat): string {
    if j < 4 then ["type", "academic", "date", "time"][j]
    else if j == len - 1 then "id"
    else "notes"
  }

  lemma QueryKeyAt(sel: Selections, id: string, j: nat)
    requires Complete(sel) && j < |BookingQuery(sel, id)|
    ensures BookingQuery(sel, id)[j].0 == KeyAt(j, |BookingQuery(sel, id)|)
  {
    var q := BookingQuery(sel, id);
    if j < 4 {
      assert q[j] == QueryHead(sel)[j];
    } else if j < |q| - 1 {
      assert q[j] == QueryNotes(sel.notes)[j - 4];
    }
  }

  /** No key occurs twice in the submitted query, so every value is read back. */
  lemma QueryKeysDistinct(sel: Selections, id: string)
    requires Complete(sel)
    ensures forall i, j :: 0 <= i < j < |BookingQuery(sel, id)| ==>
      BookingQuery(sel, id)[i].0 != BookingQuery(sel, id)[j].0
  {
    var q := BookingQuery(sel, id);
    forall i, j | 0 <= i < j < |q|
      ensures q[i].0 != q[j].0
    {
      QueryKeyAt(sel, id, i);
      QueryKeyAt(sel, id, j);
      assert KeyAt(i, |q|)[0] != KeyAt(j, |q|)[0] || KeyAt(i, |q|)[1] != KeyAt(j, |q|)[1];
    }
  }

  /** The confirmation page reads back the generated id. */
  lemma SubmittedId(sel: Selections, id: string)
    requires Complete(sel)
    ensures "id" in QueryParams(BookingQuery(sel, id))
    ensures QueryParams(BookingQuery(sel, id))["id"] == id
  {
    var q := BookingQuery(sel, id);
    assert q[|q| - 1] == ("id", id);
    QueryKeysDistinct(sel, id);
    LastValueWins(q, |q| - 1);
  }

  /** The confirmation page reads back the academic line. */
  lemma SubmittedAcademic(sel: Selections, id: string)
    requires Complete(sel)
    ensures "academic" in QueryParams(BookingQuery(sel, id))
    ensures QueryParams(BookingQuery(sel, id))["academic"] == AcademicText(sel.academic.value)
  {
    var q := BookingQuery(sel, id);
    assert q[1] == QueryHead(sel)[1];
    QueryKeysDistinct(sel, id);
    LastValueWins(q, 1);
  }

  /** The confirmation page reads back the time slot. */
  lemma SubmittedTime(sel: Selections, id: string)
    requires Complete(sel)
    ensures "time" in QueryParams(BookingQuery(sel, id))
    ensures QueryParams(BookingQuery(sel, id))["time"] == TimeText(sel.time.value)
  {
    var q := BookingQuery(sel, id);
    assert q[3] == QueryHead(sel)[3];
    QueryKeysDistinct(sel, id);
    LastValueWins(q, 3);
  }

  /** The notes arrive when there are any, and otherwise no `notes` key is sent. */
  lemma SubmittedNotes(sel: Selections, id: string)
    requires Complete(sel)
    ensures sel.notes != "" ==>
      "notes" in QueryParams(BookingQuery(sel, id)) && QueryParams(BookingQuery(sel, id))["notes"] == sel.notes
    ensures sel.notes == "" ==> "notes" !in QueryParams(BookingQuery(sel, id))
  {
    var q := BookingQuery(sel, id);
    if sel.notes != "" {
      assert q[4] == ("notes", sel.notes);
      QueryKeysDistinct(sel, id);
      LastValueWins(q, 4);
    } else {
      forall j | 0 <= j < |q|
        ensures q[j].0 != "notes"
      {
        if j < 4 {
          assert q[j] == QueryHead(sel)[j];
        }
      }
    }
  }

  /**
   * No value of the query holds a `%`. The confirmation page decodes every
   * value a second time after `URLSearchParams` has decoded it once. On such
   * a query the second decode is the identity; otherwise it may change a
   * value ("%41" becomes "A") or throw, and then no record is stored.
   */
  predicate DecodesToItself(q: seq<(string, string)>) {
    forall j :: 0 <= j < |q| ==> '%' !in q[j].1
  }

  /**
   * A booking made in the wizard comes back from the confirmation page as a
   * pending record with the generated id, which is not a unit booking; with
   * the academic's name and department free of " (" and of a ")" in the
   * department, the stored name and department are those of the chosen card,
   * and the time and notes are those that were submitted. The query must
   * carry no `%`, which the second decode would alter.
   */
  lemma BookingRoundTrip(sel: Selections, c: Clock, draw: nat, now: int)
    requires ValidClock(c) && draw < 9000
    requires Complete(sel)
    requires sel.academic.value.name != "" && sel.academic.value.department != ""
    requires !Contains(sel.academic.value.name, " (")
    requires !Contains(sel.academic.value.department, " (") && ')' !in sel.academic.value.department
    requires DecodesToItself(BookingQuery(sel, AppointmentId(c, draw)))
    ensures var params := QueryParams(Submit(sel, c, draw).query);
      && CreateRecord(params, now).Some?
      && var r := CreateRecord(params, now).value;
      && r.id == AppointmentId(c, draw)
      && !IsUnitAppointment(r)
      && r.status == Pending
      && r.academicName == sel.academic.value.name
      && r.academicDepartment == Some(sel.academic.value.department)
      && r.time == TimeText(sel.time.value)
      && r.notes == sel.notes
  {
    var id := AppointmentId(c, draw);
    var params := QueryParams(BookingQuery(sel, id));
    SubmitGate(sel, c, draw);
    AppointmentIdPrefix(c, draw);
    assert id != "" by {
      assert id[0] == 'R';
    }
    SubmittedId(sel, id);
    SubmittedAcademic(sel, id);
    SubmittedTime(sel, id);
    SubmittedNotes(sel, id);
    CreatedRecord(params, now);
    var name, dept := sel.academic.value.name, sel.academic.value.department;
    assert params["academic"] == name + " (" + dept + ")";
    NameDepartmentRoundTrip(name, dept);
  }
}
