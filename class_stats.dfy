/**
 * The class-wise attendance summary of `verify_class_stats.py`: one pass over
 * the students adds each student, and that student's attendance records, to
 * the counters of the student's class.
 */
module ClassStats {
  import opened Wrappers
  import opened OrderedMap
  import opened Text
  import opened Ratios

  datatype StudentRow = StudentRow(id: int, className: Option<string>)

  datatype AttendanceRow = AttendanceRow(studentId: int, status: string)

  /** The counters kept per class. */
  datatype Stats = Stats(students: nat, totalRecords: nat, present: nat, absent: nat)

  const Zero := Stats(0, 0, 0, 0)

  function Add(a: Stats, b: Stats): Stats {
    Stats(a.students + b.students, a.totalRecords + b.totalRecords, a.present + b.present, a.absent + b.absent)
  }

  /** `student[3] or 'No Class'` */
  function ClassOf(s: StudentRow): string {
    OrDefault(s.className, "No Class")
  }

  /** `[r for r in attendance_records if r[0] == student_id]` */
  function RecordsOf(records: seq<AttendanceRow>, id: int): (rs: seq<AttendanceRow>)
    ensures |rs| <= |records|
    ensures forall i :: 0 <= i < |rs| ==> rs[i].studentId == id
    ensures forall x :: x in rs <==> x in records && x.studentId == id
  {
    if records == [] then []
    else (if records[0].studentId == id then [records[0]] else []) + RecordsOf(records[1..], id)
  }

  /** The number of records whose status, lower-cased, is `word`. */
  function CountStatus(rs: seq<AttendanceRow>, word: string): (n: nat)
    ensures n <= |rs|
  {
    if rs == [] then 0
    else (if Lower(rs[0].status) == word then 1 else 0) + CountStatus(rs[1..], word)
  }

  /** What one student adds to its class. */
  function Contribution(records: seq<AttendanceRow>, id: int): Stats {
    var rs := RecordsOf(records, id);
    Stats(1, |rs|, CountStatus(rs, "present"), CountStatus(rs, "absent"))
  }

  /** `class_stats` after the loop has seen `students`. */
  function ClassStatsOf(students: seq<StudentRow>, records: seq<AttendanceRow>): OMap<string, Stats>
  {
    if students == [] then []
    else
      var s := students[|students| - 1];
      var m := ClassStatsOf(students[..|students| - 1], records);
      Put(m, ClassOf(s), Add(Get(m, ClassOf(s)).GetOr(Zero), Contribution(records, s.id)))
  }

  /** The counters of all classes added up. */
  function Totals(m: OMap<string, Stats>): Stats {
    if m == [] then Zero else Add(Totals(m[..|m| - 1]), m[|m| - 1].1)
  }

  /** Present and absent records of a class never outnumber its records. */
  predicate Consistent(st: Stats) {
    st.present + st.absent <= st.totalRecords
  }

  predicate AllConsistent(m: OMap<string, Stats>) {
    forall i :: 0 <= i < |m| ==> Consistent(m[i].1)
  }

  /** A record is counted at most once, as present or as absent. */
  lemma {:induction false} PresentAbsentBound(rs: seq<AttendanceRow>)
    ensures CountStatus(rs, "present") + CountStatus(rs, "absent") <= |rs|
  {
    if rs != [] {
      PresentAbsentBound(rs[1..]);
      assert "present"[0] != "absent"[0];
    }
  }

  /** The counts depend on the statuses only through their lower-cased form. */
  lemma {:induction false} CountIgnoresCase(rs: seq<AttendanceRow>, rs': seq<AttendanceRow>, word: string)
    requires |rs| == |rs'| && forall i :: 0 <= i < |rs| ==> Lower(rs[i].status) == Lower(rs'[i].status)
    ensures CountStatus(rs, word) == CountStatus(rs', word)
  {
    if rs != [] {
      assert forall i :: 0 <= i < |rs| - 1 ==> rs[1..][i] == rs[i + 1] && rs'[1..][i] == rs'[i + 1];
      CountIgnoresCase(rs[1..], rs'[1..], word);
    }
  }

  /** "Present" and "PRESENT" both count as present. */
  lemma PresentInAnyCase()
    ensures CountStatus([AttendanceRow(1, "Present"), AttendanceRow(1, "PRESENT"), AttendanceRow(1, "absent")], "present") == 2
  {
    var rs := [AttendanceRow(1, "Present"), AttendanceRow(1, "PRESENT"), AttendanceRow(1, "absent")];
    assert Lower("Present") == "present";
    assert Lower("PRESENT") == "present";
    assert Lower("absent") == "absent";
    assert rs[1..][1..][1..] == [];
  }

  lemma {:induction false} TotalsUpdate(m: OMap<string, Stats>, i: nat, p: (string, Stats))
    requires i < |m|
    ensures Add(Totals(m[i := p]), m[i].1) == Add(Totals(m), p.1)
  {
    var n := |m| - 1;
    var m' := m[i := p];
    if i < n {
      assert m'[..n] == m[..n][i := p];
      TotalsUpdate(m[..n], i, p);
    } else {
      assert m'[..n] == m[..n];
    }
  }

  lemma TotalsAppend(m: OMap<string, Stats>, p: (string, Stats))
    ensures Totals(m + [p]) == Add(Totals(m), p.1)
  {
    assert (m + [p])[..|m|] == m;
  }

  /** Adding `c` to the counters of class `k` adds `c` to the totals. */
  lemma PutAdds(m: OMap<string, Stats>, k: string, c: Stats)
    ensures Totals(Put(m, k, Add(Get(m, k).GetOr(Zero), c))) == Add(Totals(m), c)
  {
    var v := Add(Get(m, k).GetOr(Zero), c);
    if HasKey(m, k) {
      var i := IndexOf(m, k);
      assert v == Add(m[i].1, c);
      assert Put(m, k, v) == m[i := (k, v)];
      TotalsUpdate(m, i, (k, v));
      Cancel(Totals(m[i := (k, v)]), Totals(m), m[i].1, c);
    } else {
      assert v == c;
      TotalsAppend(m, (k, v));
    }
  }

  /** Cancelling the addend `x` on both sides. */
  lemma Cancel(a: Stats, b: Stats, x: Stats, c: Stats)
    requires Add(a, x) == Add(b, Add(x, c))
    ensures a == Add(b, c)
  {
  }

  /** Adding consistent counters keeps every class consistent. */
  lemma PutKeepsConsistent(m: OMap<string, Stats>, k: string, c: Stats)
    requires AllConsistent(m) && Consistent(c)
    ensures AllConsistent(Put(m, k, Add(Get(m, k).GetOr(Zero), c)))
  {
    var v := Add(Get(m, k).GetOr(Zero), c);
    if HasKey(m, k) {
      var i := IndexOf(m, k);
      assert Get(m, k).GetOr(Zero) == m[i].1;
      assert Put(m, k, v) == m[i := (k, v)];
    } else {
      assert Put(m, k, v) == m + [(k, v)];
    }
  }

  lemma ClassStatsStep(students: seq<StudentRow>, records: seq<AttendanceRow>)
    requires students != []
    ensures var s := students[|students| - 1];
            var m := ClassStatsOf(students[..|students| - 1], records);
            ClassStatsOf(students, records) == Put(m, ClassOf(s), Add(Get(m, ClassOf(s)).GetOr(Zero), Contribution(records, s.id)))
  {
  }

  /**
   * The report has a row for exactly the classes of the students, a missing or
   * empty class name being counted under "No Class".
   */
  lemma {:induction false} ClassStatsKeys(students: seq<StudentRow>, records: seq<AttendanceRow>, c: string)
    ensures HasKey(ClassStatsOf(students, records), c) <==> exists i :: 0 <= i < |students| && ClassOf(students[i]) == c
  {
    if students != [] {
      var n := |students| - 1;
      ClassStatsKeys(students[..n], records, c);
      KeysStep(students, records, c);
      ClassesStep(students, students[..n], c);
    }
  }

  lemma KeysStep(students: seq<StudentRow>, records: seq<AttendanceRow>, c: string)
    requires students != []
    ensures HasKey(ClassStatsOf(students, records), c) <==>
            HasKey(ClassStatsOf(students[..|students| - 1], records), c) || ClassOf(students[|students| - 1]) == c
  {
    var s := students[|students| - 1];
    var m := ClassStatsOf(students[..|students| - 1], records);
    ClassStatsStep(students, records);
    PutHasKey(m, ClassOf(s), Add(Get(m, ClassOf(s)).GetOr(Zero), Contribution(records, s.id)), c);
  }

  lemma ClassesStep(students: seq<StudentRow>, front: seq<StudentRow>, c: string)
    requires students != [] && front == students[..|students| - 1]
    ensures (exists i :: 0 <= i < |students| && ClassOf(students[i]) == c) <==>
            (exists i :: 0 <= i < |front| && ClassOf(front[i]) == c) || ClassOf(students[|students| - 1]) == c
  {
    assert forall i :: 0 <= i < |front| ==> front[i] == students[i];
  }

  /** What all students add up to. */
  function AllContributions(students: seq<StudentRow>, records: seq<AttendanceRow>): Stats {
    if students == [] then Zero
    else Add(AllContributions(students[..|students| - 1], records), Contribution(records, students[|students| - 1].id))
  }

  /** Every student's records are added once, to exactly one class, and every class stays consistent. */
  lemma {:induction false} ClassStatsConserve(students: seq<StudentRow>, records: seq<AttendanceRow>)
    ensures Totals(ClassStatsOf(students, records)) == AllContributions(students, records)
    ensures AllConsistent(ClassStatsOf(students, records))
  {
    if students != [] {
      var s := students[|students| - 1];
      var m := ClassStatsOf(students[..|students| - 1], records);
      ClassStatsConserve(students[..|students| - 1], records);
      PresentAbsentBound(RecordsOf(records, s.id));
      ClassStatsStep(students, records);
      PutAdds(m, ClassOf(s), Contribution(records, s.id));
      PutKeepsConsistent(m, ClassOf(s), Contribution(records, s.id));
    }
  }

  lemma {:induction false} AllContributionsStudents(students: seq<StudentRow>, records: seq<AttendanceRow>)
    ensures AllContributions(students, records).students == |students|
  {
    if students != [] {
      AllContributionsStudents(students[..|students| - 1], records);
    }
  }

  /** The classes' student counts add up to the number of students. */
  lemma StudentsConserved(students: seq<StudentRow>, records: seq<AttendanceRow>)
    ensures Totals(ClassStatsOf(students, records)).students == |students|
  {
    ClassStatsConserve(students, records);
    AllContributionsStudents(students, records);
  }

  /** The number of records whose student id is in `ids`. */
  function Matched(records: seq<AttendanceRow>, ids: set<int>): nat {
    if records == [] then 0
    else (if records[0].studentId in ids then 1 else 0) + Matched(records[1..], ids)
  }

  lemma {:induction false} MatchedAdd(records: seq<AttendanceRow>, ids: set<int>, x: int)
    requires x !in ids
    ensures Matched(records, ids + {x}) == Matched(records, ids) + |RecordsOf(records, x)|
  {
    if records != [] {
      MatchedAdd(records[1..], ids, x);
    }
  }

  function Ids(students: seq<StudentRow>): set<int> {
    set i | 0 <= i < |students| :: students[i].id
  }

  predicate DistinctIds(students: seq<StudentRow>) {
    forall i, j :: 0 <= i < j < |students| ==> students[i].id != students[j].id
  }

  lemma IdsSnoc(students: seq<StudentRow>)
    requires students != [] && DistinctIds(students)
    ensures DistinctIds(students[..|students| - 1])
    ensures Ids(students) == Ids(students[..|students| - 1]) + {students[|students| - 1].id}
    ensures students[|students| - 1].id !in Ids(students[..|students| - 1])
  {
    var n := |students| - 1;
    assert forall i :: 0 <= i < n ==> students[..n][i] == students[i];
  }

  lemma {:induction false} ContributedRecords(students: seq<StudentRow>, records: seq<AttendanceRow>)
    requires DistinctIds(students)
    ensures AllContributions(students, records).totalRecords == Matched(records, Ids(students))
  {
    if students == [] {
      assert Ids(students) == {};
      MatchedNone(records);
    } else {
      var n := |students| - 1;
      var init := students[..n];
      assert forall i :: 0 <= i < n ==> init[i] == students[i];
      ContributedRecords(init, records);
      IdsSnoc(students);
      MatchedAdd(records, Ids(init), students[n].id);
    }
  }

  lemma {:induction false} MatchedNone(records: seq<AttendanceRow>)
    ensures Matched(records, {}) == 0
  {
    if records != [] {
      MatchedNone(records[1..]);
    }
  }

  /**
   * The classes' record counts add up to the records that belong to some
   * student: a record whose student id matches no student is not counted.
   */
  lemma RecordsConserved(students: seq<StudentRow>, records: seq<AttendanceRow>)
    requires DistinctIds(students)
    ensures Totals(ClassStatsOf(students, records)).totalRecords == Matched(records, Ids(students))
  {
    ClassStatsConserve(students, records);
    ContributedRecords(students, records);
  }

  /** The body of the loop: the student and its records are added to its class's counters. */
  method CountStudent(stats: OMap<string, Stats>, s: StudentRow, records: seq<AttendanceRow>) returns (stats': OMap<string, Stats>)
    requires UniqueKeys(stats)
    ensures stats' == Put(stats, ClassOf(s), Add(Get(stats, ClassOf(s)).GetOr(Zero), Contribution(records, s.id)))
    ensures UniqueKeys(stats')
  {
    var c := ClassOf(s);
    var studentRecords := RecordsOf(records, s.id);
    var current := Get(stats, c).GetOr(Zero);
    current := current.(students := current.students + 1);
    current := current.(totalRecords := current.totalRecords + |studentRecords|);
    current := current.(present := current.present + CountStatus(studentRecords, "present"));
    current := current.(absent := current.absent + CountStatus(studentRecords, "absent"));
    stats' := Put(stats, c, current);
  }

  /** The loop over the students. */
  method ComputeClassStats(students: seq<StudentRow>, records: seq<AttendanceRow>) returns (stats: OMap<string, Stats>)
    ensures stats == ClassStatsOf(students, records)
    ensures UniqueKeys(stats) && AllConsistent(stats)
  {
    stats := [];
    for i := 0 to |students|
      invariant stats == ClassStatsOf(students[..i], records)
      invariant UniqueKeys(stats)
    {
      assert students[..i + 1][..i] == students[..i];
      ClassStatsStep(students[..i + 1], records);
      stats := CountStudent(stats, students[i], records);
    }
    assert students[..|students|] == students;
    ClassStatsConserve(students, records);
  }

  /** The printed percentage: present records over all records, 0 for a class without records. */
  function Percentage(st: Stats): (r: real)
    ensures st.totalRecords > 0 ==> r * (st.totalRecords as real) == (st.present as real) * 100.0
    ensures st.totalRecords == 0 ==> r == 0.0
    ensures Consistent(st) ==> 0.0 <= r <= 100.0
  {
    if st.totalRecords > 0 then Percent(st.present, st.totalRecords) else 0.0
  }
}
