/**
 * The per-student attendance summary of `check_attendance.py`, over the
 * student's attendance rows as the query returns them.
 */
module AttendanceSummary {
  import opened Wrappers
  import opened Ratios

  datatype Row = Row(date: string, period: int, status: string)

  /** The rows whose status is exactly `status` (the comparison is case-sensitive). */
  function WithStatus(rows: seq<Row>, status: string): (r: seq<Row>)
    ensures |r| <= |rows|
    ensures forall x :: x in r <==> x in rows && x.status == status
  {
    if rows == [] then []
    else (if rows[0].status == status then [rows[0]] else []) + WithStatus(rows[1..], status)
  }

  /** `set([r[1] for r in results])` */
  function UniqueDates(rows: seq<Row>): set<string> {
    set i | 0 <= i < |rows| :: rows[i].date
  }

  /** `set([r[1] for r in results if r[3] == 'Present'])` */
  function PresentDates(rows: seq<Row>): set<string> {
    set i | 0 <= i < |rows| && rows[i].status == "Present" :: rows[i].date
  }

  datatype Summary = Summary(total: nat, uniqueDates: set<string>, present: nat, absent: nat,
                             presentDates: set<string>, percentage: Option<real>)

  /** The figures the script prints; `None` when the student has no rows. */
  function Summarize(rows: seq<Row>): Option<Summary> {
    if rows == [] then None
    else
      var unique := UniqueDates(rows);
      var presentDates := PresentDates(rows);
      Some(Summary(|rows|, unique, |WithStatus(rows, "Present")|, |WithStatus(rows, "Absent")|, presentDates,
                   if unique != {} then Some(Percent(|presentDates|, |unique|)) else None))
  }

  /** A record is counted at most once, as present or as absent. */
  lemma {:induction false} PresentAbsentBound(rows: seq<Row>)
    ensures |WithStatus(rows, "Present")| + |WithStatus(rows, "Absent")| <= |rows|
  {
    if rows != [] {
      PresentAbsentBound(rows[1..]);
    }
  }

  /** Every day with a present record is a day with a record, so the percentage is at most 100. */
  lemma PresentDatesWithin(rows: seq<Row>)
    ensures PresentDates(rows) <= UniqueDates(rows)
    ensures |PresentDates(rows)| <= |UniqueDates(rows)|
  {
    SubsetCard(PresentDates(rows), UniqueDates(rows));
  }

  lemma {:induction false} SubsetCard(a: set<string>, b: set<string>)
    requires a <= b
    ensures |a| <= |b|
    decreases |b|
  {
    if a != {} {
      var x :| x in a;
      SubsetCard(a - {x}, b - {x});
    }
  }

  /**
   * A summary exists exactly when there are rows; its counts stay within the
   * rows, and its percentage is computed, and lies between 0 and 100, exactly
   * when there is at least one date.
   */
  lemma SummaryBounds(rows: seq<Row>)
    ensures Summarize(rows).Some? <==> rows != []
    ensures Summarize(rows).Some? ==>
              var s := Summarize(rows).value;
              s.present + s.absent <= s.total && s.presentDates <= s.uniqueDates &&
              (s.percentage.Some? <==> s.uniqueDates != {}) &&
              (s.percentage.Some? ==> 0.0 <= s.percentage.value <= 100.0)
  {
    if rows != [] {
      PresentAbsentBound(rows);
      PresentDatesWithin(rows);
      assert rows[0].date in UniqueDates(rows);
    }
  }

  /** The statuses must match exactly: a lower-case "present" is neither present nor absent. */
  lemma StatusIsCaseSensitive()
    ensures var rows := [Row("2025-01-06", 1, "present")];
            Summarize(rows).Some? && Summarize(rows).value.present == 0 && Summarize(rows).value.absent == 0 &&
            Summarize(rows).value.presentDates == {}
  {
    var rows := [Row("2025-01-06", 1, "present")];
    assert "present" != "Present" by { assert "present"[0] != "Present"[0]; }
    assert WithStatus(rows, "Present") == [];
    assert "present" != "Absent" by { assert "present"[0] != "Absent"[0]; }
    assert WithStatus(rows, "Absent") == [];
  }
}
