/**
 * `test_attendance_flow.py`: one pass over a single (date, period) slot of
 * the attendance table, checking each statement's outcome: insert a present
 * row, try to insert it again, look it up, insert an absent row, update it to
 * present, look for students with two rows in the slot, and clean up.
 */
module AttendanceFlow {
  import opened Wrappers
  import opened AttendanceTable

  /** The slot the test uses is today's period 3; students 5 and 6 are the two it marks. */
  const TestPeriod: Period := 3
  const PresentStudent := 5
  const AbsentStudent := 6

  /** No row lies in the slot. */
  predicate SlotFree(rows: seq<Record>, date: Date, period: Period) {
    forall i :: 0 <= i < |rows| ==> !(rows[i].date == date && rows[i].period == period)
  }

  /** Every row lies in the slot. */
  predicate AllInSlot(rows: seq<Record>, date: Date, period: Period) {
    forall i :: 0 <= i < |rows| ==> rows[i].date == date && rows[i].period == period
  }

  lemma WithoutSlotIsFree(rows: seq<Record>, date: Date, period: Period)
    ensures SlotFree(WithoutSlot(rows, date, period), date, period)
  {
    var w := WithoutSlot(rows, date, period);
    assert forall i :: 0 <= i < |w| ==> w[i] in w;
  }

  lemma {:induction false} WithoutSlotAppend(a: seq<Record>, b: seq<Record>, date: Date, period: Period)
    requires SlotFree(a, date, period) && AllInSlot(b, date, period)
    ensures WithoutSlot(a + b, date, period) == a
  {
    if a == [] {
      assert a + b == b;
      WithoutSlotAllIn(b, date, period);
    } else {
      assert (a + b)[1..] == a[1..] + b;
      assert SlotFree(a[1..], date, period) by {
        forall i | 0 <= i < |a[1..]| ensures !(a[1..][i].date == date && a[1..][i].period == period) {
          assert a[1..][i] == a[i + 1];
        }
      }
      WithoutSlotAppend(a[1..], b, date, period);
      assert a == [a[0]] + a[1..];
    }
  }

  lemma {:induction false} WithoutSlotAllIn(b: seq<Record>, date: Date, period: Period)
    requires AllInSlot(b, date, period)
    ensures WithoutSlot(b, date, period) == []
  {
    if b != [] {
      assert AllInSlot(b[1..], date, period) by {
        forall i | 0 <= i < |b[1..]| ensures b[1..][i].date == date && b[1..][i].period == period {
          assert b[1..][i] == b[i + 1];
        }
      }
      WithoutSlotAllIn(b[1..], date, period);
    }
  }

  lemma {:induction false} CountKeyAppend(a: seq<Record>, b: seq<Record>, k: Key)
    ensures CountKey(a + b, k) == CountKey(a, k) + CountKey(b, k)
  {
    if a == [] {
      assert a + b == b;
    } else {
      assert (a + b)[0] == a[0];
      assert (a + b)[1..] == a[1..] + b;
      CountKeyAppend(a[1..], b, k);
    }
  }

  /** A slot-free table holds no key of the slot. */
  lemma SlotFreeHasNoSlotKey(rows: seq<Record>, k: Key)
    requires SlotFree(rows, k.date, k.period)
    ensures !HasKey(rows, k) && CountKey(rows, k) == 0
  {
  }

  /** The first row with key `k` after a prefix without it is found by a lookup. */
  lemma LookupAfterPrefix(a: seq<Record>, r: Record, b: seq<Record>)
    requires !HasKey(a, KeyOf(r))
    ensures Lookup(a + [r] + b, KeyOf(r)) == Some(r)
  {
    var rows := a + [r] + b;
    var k := KeyOf(r);
    assert rows[|a|] == r;
    var found := Lookup(rows, k);
    forall j | 0 <= j < |a| ensures KeyOf(rows[j]) != k {
      assert rows[j] == a[j];
    }
    var i :| FirstWithKeyAt(rows, k, i) && rows[i] == found.value;
    assert i == |a|;
  }

  /** An update of a key that only the rows after a prefix hold leaves the prefix alone. */
  lemma SetStatusAfterPrefix(a: seq<Record>, r: Record, status: string)
    requires !HasKey(a, KeyOf(r))
    ensures SetStatus(a + [r], KeyOf(r), status) == a + [r.(status := status)]
  {
    var u := SetStatus(a + [r], KeyOf(r), status);
    forall j | 0 <= j < |a| ensures u[j] == a[j] {
      assert (a + [r])[j] == a[j];
    }
  }

  /** Rows outside the slot do not change which students the duplicate query reports. */
  lemma DuplicatesOfSlotRows(w: seq<Record>, s: seq<Record>, date: Date, period: Period)
    requires SlotFree(w, date, period)
    ensures DuplicatedStudents(w + s, date, period) == DuplicatedStudents(s, date, period)
  {
    forall x | x in w + s && x.date == date && x.period == period
      ensures x in s && CountKey(w + s, KeyOf(x)) == CountKey(s, KeyOf(x))
    {
      CountKeyAppend(w, s, KeyOf(x));
      SlotFreeHasNoSlotKey(w, KeyOf(x));
    }
  }

  /** What the test prints, as values: the outcome of each numbered step. */
  datatype FlowResult = FlowResult(
    markedPresent: bool,
    duplicatePrevented: bool,
    existing: Option<Record>,
    markedAbsent: bool,
    updated: nat,
    duplicates: set<int>)

  /** Steps 1 and 2: mark student 5 present, then try the same insert again. */
  method MarkPresentTwice(t: Table, today: Date) returns (markedPresent: bool, inserted: bool)
    requires t.Valid() && SlotFree(t.rows, today, TestPeriod)
    modifies t
    ensures t.Valid() && t.unique == old(t.unique)
    ensures markedPresent && (inserted <==> !old(t.unique))
    ensures t.rows == old(t.rows) + PresentRows(today, old(t.nextId), inserted)
    ensures t.nextId == old(t.nextId) + |PresentRows(today, old(t.nextId), inserted)|
  {
    ghost var w := t.rows;
    SlotFreeHasNoSlotKey(w, Key(PresentStudent, today, TestPeriod));
    markedPresent := t.Insert(PresentStudent, today, TestPeriod, "present");
    ghost var r5 := t.rows[|w|];
    assert HasKey(t.rows, KeyOf(r5));
    inserted := t.Insert(PresentStudent, today, TestPeriod, "present");
    assert inserted ==> PresentRows(today, r5.id, inserted) == [r5, r5.(id := r5.id + 1)];
  }

  /** Step 3: the row of student 5 is found. */
  lemma ExistingIsFirstPresentRow(w: seq<Record>, today: Date, id: nat, twice: bool)
    requires SlotFree(w, today, TestPeriod)
    ensures Lookup(w + PresentRows(today, id, twice), Key(PresentStudent, today, TestPeriod)) ==
            Some(Record(id, PresentStudent, today, TestPeriod, "present"))
  {
    var r5 := Record(id, PresentStudent, today, TestPeriod, "present");
    var rest: seq<Record> := if twice then [r5.(id := id + 1)] else [];
    SlotFreeHasNoSlotKey(w, KeyOf(r5));
    LookupAfterPrefix(w, r5, rest);
    assert PresentRows(today, id, twice) == [r5] + rest;
    AppendAssoc(w, [r5], rest);
  }

  /** Steps 4 and 5: mark student 6 absent, then update the row to present. */
  method MarkAbsentThenPresent(t: Table, today: Date) returns (markedAbsent: bool, updated: nat)
    requires t.Valid() && !HasKey(t.rows, Key(AbsentStudent, today, TestPeriod))
    modifies t
    ensures t.Valid() && t.unique == old(t.unique)
    ensures markedAbsent && updated == 1
    ensures t.rows == old(t.rows) + [LateRow(today, old(t.nextId))]
  {
    var k6 := Key(AbsentStudent, today, TestPeriod);
    ghost var before := t.rows;
    ghost var r6 := Record(t.nextId, AbsentStudent, today, TestPeriod, "absent");
    markedAbsent := t.Insert(AbsentStudent, today, TestPeriod, "absent");
    CountKeyAppend(before, [r6], k6);
    SetStatusAfterPrefix(before, r6, "present");
    updated := t.Update(k6, "present");
  }

  /** The rows steps 1 and 2 write, ids counted from `id`. */
  function PresentRows(today: Date, id: nat, twice: bool): seq<Record> {
    var present := Record(id, PresentStudent, today, TestPeriod, "present");
    if twice then [present, present.(id := id + 1)] else [present]
  }

  /** The row steps 4 and 5 leave: student 6, present. */
  function LateRow(today: Date, id: nat): Record {
    Record(id, AbsentStudent, today, TestPeriod, "present")
  }

  /** The rows the flow has written to the slot by step 5, ids counted from `id`. */
  function SlotRowsWritten(today: Date, id: nat, twice: bool): seq<Record> {
    PresentRows(today, id, twice) + [LateRow(today, id + |PresentRows(today, id, twice)|)]
  }

  lemma SlotRowsWrittenAre(today: Date, id: nat, twice: bool)
    ensures SlotRowsWritten(today, id, twice) ==
            PresentRows(today, id, twice) + [LateRow(today, id + |PresentRows(today, id, twice)|)]
  {
  }

  /** Step 6 and the cleanup. */
  method CheckAndCleanUp(t: Table, today: Date, ghost w: seq<Record>, ghost id: nat, ghost twice: bool)
    returns (duplicates: set<int>)
    requires t.Valid() && SlotFree(w, today, TestPeriod)
    requires t.rows == w + SlotRowsWritten(today, id, twice)
    modifies t`rows
    ensures t.Valid()
    ensures duplicates == if twice then {PresentStudent} else {}
    ensures t.rows == w
  {
    var s := SlotRowsWritten(today, id, twice);
    duplicates := DuplicatedStudents(t.rows, today, TestPeriod);
    DuplicatesOfSlotRows(w, s, today, TestPeriod);
    var present := Record(id, PresentStudent, today, TestPeriod, "present");
    SlotDuplicates(s, twice, present, present.(id := id + 1), s[|s| - 1]);
    var _ := t.DeleteSlot(today, TestPeriod);
    SlotRowsInSlot(s, twice, present, present.(id := id + 1), s[|s| - 1]);
    WithoutSlotAppend(w, s, today, TestPeriod);
  }

  /** Steps 1 to 5 on a slot that starts empty. */
  method RunSteps(t: Table, today: Date)
    returns (markedPresent: bool, inserted: bool, existing: Option<Record>, markedAbsent: bool, updated: nat)
    requires t.Valid() && SlotFree(t.rows, today, TestPeriod)
    modifies t
    ensures t.Valid() && t.unique == old(t.unique)
    ensures markedPresent && markedAbsent && updated == 1
    ensures inserted <==> !old(t.unique)
    ensures existing == Some(Record(old(t.nextId), PresentStudent, today, TestPeriod, "present"))
    ensures t.rows == old(t.rows) + SlotRowsWritten(today, old(t.nextId), inserted)
  {
    ghost var w := t.rows;
    ghost var id := t.nextId;
    markedPresent, inserted, existing := PresentSteps(t, today);
    ghost var s := PresentRows(today, id, inserted);
    ghost var late := LateRow(today, id + |s|);
    markedAbsent, updated := MarkAbsentThenPresent(t, today);
    AppendAssoc(w, s, [late]);
    SlotRowsWrittenAre(today, id, inserted);
  }

  /** Steps 1 to 3: the present mark, the duplicate attempt and the lookup of the mark. */
  method PresentSteps(t: Table, today: Date) returns (markedPresent: bool, inserted: bool, existing: Option<Record>)
    requires t.Valid() && SlotFree(t.rows, today, TestPeriod)
    modifies t
    ensures t.Valid() && t.unique == old(t.unique)
    ensures markedPresent && (inserted <==> !old(t.unique))
    ensures existing == Some(Record(old(t.nextId), PresentStudent, today, TestPeriod, "present"))
    ensures t.rows == old(t.rows) + PresentRows(today, old(t.nextId), inserted)
    ensures t.nextId == old(t.nextId) + |PresentRows(today, old(t.nextId), inserted)|
    ensures !HasKey(t.rows, Key(AbsentStudent, today, TestPeriod))
  {
    ghost var w := t.rows;
    ghost var id := t.nextId;
    markedPresent, inserted := MarkPresentTwice(t, today);
    existing := Lookup(t.rows, Key(PresentStudent, today, TestPeriod));
    ExistingIsFirstPresentRow(w, today, id, inserted);
    SlotRowsHaveNoSecondKey(w, PresentRows(today, id, inserted), today);
  }

  /**
   * `test_attendance_flow()` run on `today`. Every step succeeds; the second
   * insert is rejected exactly when the UNIQUE constraint is in force, and
   * otherwise the duplicate query reports student 5. The cleanup leaves every
   * row outside the slot as it was.
   */
  method TestAttendanceFlow(t: Table, today: Date) returns (res: FlowResult)
    requires t.Valid()
    modifies t
    ensures t.Valid() && t.unique == old(t.unique)
    ensures res.markedPresent && res.markedAbsent
    ensures res.duplicatePrevented <==> old(t.unique)
    ensures res.existing.Some? && KeyOf(res.existing.value) == Key(PresentStudent, today, TestPeriod)
    ensures res.existing.Some? && res.existing.value.status == "present"
    ensures res.updated == 1
    ensures res.duplicates == if old(t.unique) then {} else {PresentStudent}
    ensures t.rows == WithoutSlot(old(t.rows), today, TestPeriod)
  {
    var _ := t.DeleteSlot(today, TestPeriod);
    ghost var w := t.rows;
    WithoutSlotIsFree(old(t.rows), today, TestPeriod);
    ghost var id := t.nextId;
    var markedPresent, inserted, existing, markedAbsent, updated := RunSteps(t, today);
    var duplicates := CheckAndCleanUp(t, today, w, id, inserted);
    res := FlowResult(markedPresent, !inserted, existing, markedAbsent, updated, duplicates);
  }

  /** The rows the first steps add hold no row of student 6. */
  lemma SlotRowsHaveNoSecondKey(w: seq<Record>, s: seq<Record>, today: Date)
    requires SlotFree(w, today, TestPeriod)
    requires forall x :: x in s ==> x.studentId == PresentStudent
    ensures !HasKey(w + s, Key(AbsentStudent, today, TestPeriod))
  {
    var rows := w + s;
    forall j | 0 <= j < |rows| ensures KeyOf(rows[j]) != Key(AbsentStudent, today, TestPeriod) {
      if j < |w| { assert rows[j] == w[j]; } else { assert rows[j] == s[j - |w|]; assert rows[j] in s; }
    }
  }

  /** The duplicate query on the rows the flow writes to the slot. */
  lemma SlotDuplicates(s: seq<Record>, twice: bool, a: Record, a': Record, b: Record)
    requires KeyOf(a) == KeyOf(a') && KeyOf(b) != KeyOf(a)
    requires s == if twice then [a, a', b] else [a, b]
    requires a.date == b.date && a.period == b.period
    ensures DuplicatedStudents(s, a.date, a.period) == if twice then {a.studentId} else {}
  {
    var d, p := a.date, a.period;
    assert [b][1..] == [];
    assert CountKey([b], KeyOf(a)) == 0 && CountKey([b], KeyOf(b)) == 1;
    if twice {
      assert s[1..] == [a', b];
      assert [a', b][1..] == [b];
      assert CountKey(s, KeyOf(a)) == 2;
      assert CountKey(s, KeyOf(b)) == 1;
      assert a in s;
    } else {
      assert s[1..] == [b];
      assert CountKey(s, KeyOf(a)) == 1;
      assert CountKey(s, KeyOf(b)) == 1;
      assert forall x :: x in s ==> x == a || x == b;
    }
  }

  lemma SlotRowsInSlot(s: seq<Record>, twice: bool, a: Record, a': Record, b: Record)
    requires s == if twice then [a, a', b] else [a, b]
    requires a.date == a'.date == b.date && a.period == a'.period == b.period
    ensures AllInSlot(s, a.date, a.period)
  {
  }

  lemma AppendAssoc(a: seq<Record>, b: seq<Record>, c: seq<Record>)
    ensures (a + b) + c == a + (b + c)
  {
  }
}
