/**
 * The grouped student listing of `check_students.py`: students, in the order
 * the query returns them, are printed under a header for each run of
 * consecutive students with the same displayed class, numbered within the
 * run, and each run is closed by its subtotal.
 */
module StudentListing {
  import opened Wrappers
  import opened Text

  datatype StudentRow = StudentRow(name: string, rollNo: string, className: Option<string>)

  /** The printed lines. */
  datatype Line = Header(className: string) | Item(number: nat, name: string, rollNo: string) | Subtotal(count: nat)

  /** `class_name if class_name else "No Class"` */
  function Display(s: StudentRow): string {
    OrDefault(s.className, "No Class")
  }

  /** A maximal run of consecutive students shown under one class. */
  datatype Run = Run(className: string, members: seq<StudentRow>)

  /** The runs of `students`, built from the end. */
  function Runs(students: seq<StudentRow>): (runs: seq<Run>)
    ensures |runs| <= |students|
    ensures students == [] <==> runs == []
  {
    if students == [] then []
    else
      var x := students[|students| - 1];
      var r := Runs(students[..|students| - 1]);
      if r != [] && r[|r| - 1].className == Display(x) then
        r[..|r| - 1] + [Run(Display(x), r[|r| - 1].members + [x])]
      else r + [Run(Display(x), [x])]
  }

  /** The members of the runs, one run after the other. */
  function Flatten(runs: seq<Run>): seq<StudentRow> {
    if runs == [] then [] else Flatten(runs[..|runs| - 1]) + runs[|runs| - 1].members
  }

  /** Runs are non-empty, their members show the run's class, and neighbouring runs show different classes. */
  predicate WellFormed(runs: seq<Run>) {
    (forall i :: 0 <= i < |runs| ==> |runs[i].members| > 0) &&
    (forall i, j :: 0 <= i < |runs| && 0 <= j < |runs[i].members| ==> Display(runs[i].members[j]) == runs[i].className) &&
    (forall i :: 0 < i < |runs| ==> runs[i - 1].className != runs[i].className)
  }

  lemma FlattenSnoc(runs: seq<Run>, run: Run)
    ensures Flatten(runs + [run]) == Flatten(runs) + run.members
  {
    assert (runs + [run])[..|runs|] == runs;
  }

  /** One step of `Runs`. */
  lemma RunsUnfold(students: seq<StudentRow>)
    requires students != []
    ensures var x := students[|students| - 1];
            var r := Runs(students[..|students| - 1]);
            Runs(students) ==
              if r != [] && r[|r| - 1].className == Display(x) then r[..|r| - 1] + [Run(Display(x), r[|r| - 1].members + [x])]
              else r + [Run(Display(x), [x])]
  {
  }

  lemma FlattenExtend(p: seq<Run>, c: string, c': string, ms: seq<StudentRow>, x: StudentRow)
    ensures Flatten(p + [Run(c', ms + [x])]) == Flatten(p + [Run(c, ms)]) + [x]
  {
    FlattenSnoc(p, Run(c, ms));
    FlattenSnoc(p, Run(c', ms + [x]));
    Assoc(Flatten(p), ms, [x]);
  }

  lemma Assoc(a: seq<StudentRow>, b: seq<StudentRow>, c: seq<StudentRow>)
    ensures a + (b + c) == (a + b) + c
  {
  }

  /** Each student adds itself at the end of the flattened runs. */
  lemma FlattenRunsStep(students: seq<StudentRow>)
    requires students != []
    ensures Flatten(Runs(students)) == Flatten(Runs(students[..|students| - 1])) + [students[|students| - 1]]
  {
    var n := |students| - 1;
    var x := students[n];
    var r := Runs(students[..n]);
    RunsUnfold(students);
    if r != [] && r[|r| - 1].className == Display(x) {
      var m := |r| - 1;
      assert r == r[..m] + [Run(r[m].className, r[m].members)];
      FlattenExtend(r[..m], r[m].className, Display(x), r[m].members, x);
    } else {
      FlattenSnoc(r, Run(Display(x), [x]));
    }
  }

  /** The runs hold the students in their order. */
  lemma {:induction false} RunsFlatten(students: seq<StudentRow>)
    ensures Flatten(Runs(students)) == students
  {
    if students != [] {
      var n := |students| - 1;
      FlattenRunsStep(students);
      RunsFlatten(students[..n]);
      assert students[..n] + [students[n]] == students;
    }
  }

  /** Extending the last run keeps the runs well formed. */
  lemma ExtendLast(r: seq<Run>, x: StudentRow)
    requires WellFormed(r) && r != [] && r[|r| - 1].className == Display(x)
    ensures WellFormed(r[..|r| - 1] + [Run(Display(x), r[|r| - 1].members + [x])])
  {
    var m := |r| - 1;
    var r' := r[..m] + [Run(Display(x), r[m].members + [x])];
    forall i, j | 0 <= i < |r'| && 0 <= j < |r'[i].members|
      ensures Display(r'[i].members[j]) == r'[i].className
    {
      if i < m {
        assert r'[i] == r[i];
      } else if j < |r[m].members| {
        assert r'[i].members[j] == r[m].members[j];
      }
    }
    forall i | 0 < i < |r'| ensures r'[i - 1].className != r'[i].className {
      assert r'[i - 1] == r[i - 1];
      assert r'[i].className == r[i].className;
    }
    forall i | 0 <= i < |r'| ensures |r'[i].members| > 0 {
      if i < m { assert r'[i] == r[i]; }
    }
  }

  /** Opening a run for a student of another class keeps the runs well formed. */
  lemma OpenRun(r: seq<Run>, x: StudentRow)
    requires WellFormed(r) && (r == [] || r[|r| - 1].className != Display(x))
    ensures WellFormed(r + [Run(Display(x), [x])])
  {
    var r' := r + [Run(Display(x), [x])];
    forall i, j | 0 <= i < |r'| && 0 <= j < |r'[i].members|
      ensures Display(r'[i].members[j]) == r'[i].className
    {
      if i < |r| {
        assert r'[i] == r[i];
      }
    }
    forall i | 0 < i < |r'| ensures r'[i - 1].className != r'[i].className {
      if i < |r| {
        assert r'[i - 1] == r[i - 1] && r'[i] == r[i];
      }
    }
    forall i | 0 <= i < |r'| ensures |r'[i].members| > 0 {
      if i < |r| { assert r'[i] == r[i]; }
    }
  }

  /** The runs are maximal runs of one displayed class. */
  lemma {:induction false} RunsWellFormed(students: seq<StudentRow>)
    ensures WellFormed(Runs(students))
  {
    if students != [] {
      var n := |students| - 1;
      var x := students[n];
      var r := Runs(students[..n]);
      RunsWellFormed(students[..n]);
      if r != [] && r[|r| - 1].className == Display(x) {
        ExtendLast(r, x);
      } else {
        OpenRun(r, x);
      }
    }
  }

  /** The runs split the students into maximal runs of one displayed class, keeping their order. */
  lemma RunsPartition(students: seq<StudentRow>)
    ensures Flatten(Runs(students)) == students
    ensures WellFormed(Runs(students))
  {
    RunsFlatten(students);
    RunsWellFormed(students);
  }

  /** The members numbered from 1, in order. */
  function Items(members: seq<StudentRow>): (lines: seq<Line>)
    ensures |lines| == |members|
  {
    seq(|members|, i requires 0 <= i < |members| => Item(i + 1, members[i].name, members[i].rollNo))
  }

  function RenderRun(run: Run): seq<Line> {
    [Header(run.className)] + Items(run.members) + [Subtotal(|run.members|)]
  }

  function Render(runs: seq<Run>): seq<Line> {
    if runs == [] then [] else Render(runs[..|runs| - 1]) + RenderRun(runs[|runs| - 1])
  }

  /** What the script prints: every run rendered, or a lone zero subtotal when there are no students. */
  function Listing(students: seq<StudentRow>): seq<Line> {
    var runs := Runs(students);
    if runs == [] then [Subtotal(0)] else Render(runs)
  }

  lemma RenderSnoc(runs: seq<Run>, run: Run)
    ensures Render(runs + [run]) == Render(runs) + RenderRun(run)
  {
    assert (runs + [run])[..|runs|] == runs;
  }

  /** The sum of the printed subtotals. */
  function SubtotalSum(lines: seq<Line>): nat {
    if lines == [] then 0
    else SubtotalSum(lines[..|lines| - 1]) + (if lines[|lines| - 1].Subtotal? then lines[|lines| - 1].count else 0)
  }

  lemma {:induction false} SubtotalSumAppend(a: seq<Line>, b: seq<Line>)
    ensures SubtotalSum(a + b) == SubtotalSum(a) + SubtotalSum(b)
    decreases |b|
  {
    if b != [] {
      var n := |b| - 1;
      assert (a + b)[..|a + b| - 1] == a + b[..n];
      SubtotalSumAppend(a, b[..n]);
    } else {
      assert a + b == a;
    }
  }

  lemma {:induction false} ItemsHaveNoSubtotal(members: seq<StudentRow>)
    ensures SubtotalSum(Items(members)) == 0
  {
    if members != [] {
      var n := |members| - 1;
      assert Items(members)[..n] == Items(members[..n]);
      ItemsHaveNoSubtotal(members[..n]);
    }
  }

  lemma {:induction false} RenderSubtotals(runs: seq<Run>)
    ensures SubtotalSum(Render(runs)) == |Flatten(runs)|
  {
    if runs != [] {
      var n := |runs| - 1;
      var run := runs[n];
      RenderSubtotals(runs[..n]);
      SubtotalSumAppend(Render(runs[..n]), RenderRun(run));
      SubtotalSumAppend([Header(run.className)], Items(run.members));
      SubtotalSumAppend([Header(run.className)] + Items(run.members), [Subtotal(|run.members|)]);
      assert SubtotalSum([Header(run.className)]) == 0;
      ItemsHaveNoSubtotal(run.members);
    }
  }

  /**
   * The printed subtotals add up to the number of students, and the listing
   * always ends with a subtotal (0 when there are no students).
   */
  lemma ListingTotals(students: seq<StudentRow>)
    ensures SubtotalSum(Listing(students)) == |students|
    ensures |Listing(students)| > 0 && Listing(students)[|Listing(students)| - 1].Subtotal?
    ensures students == [] ==> Listing(students) == [Subtotal(0)]
  {
    var runs := Runs(students);
    RunsPartition(students);
    if runs != [] {
      RenderSubtotals(runs);
      var n := |runs| - 1;
      RenderSnoc(runs[..n], runs[n]);
      assert runs[..n] + [runs[n]] == runs;
    } else {
      assert SubtotalSum([Subtotal(0)]) == 0 by { assert [Subtotal(0)][..0] == []; }
    }
  }

  /** The last run of the first `i` students gains one member when the next student shows the same class. */
  lemma RunsStep(students: seq<StudentRow>, i: nat)
    requires i < |students|
    ensures var r := Runs(students[..i]);
            var x := students[i];
            Runs(students[..i + 1]) ==
              if r != [] && r[|r| - 1].className == Display(x) then r[..|r| - 1] + [Run(Display(x), r[|r| - 1].members + [x])]
              else r + [Run(Display(x), [x])]
  {
    assert students[..i + 1][..i] == students[..i];
  }

  lemma SnocCancel(a: seq<Line>, b: seq<Line>, x: Line)
    requires a + [x] == b + [x]
    ensures a == b
  {
    assert (a + [x])[..|a|] == a;
    assert (b + [x])[..|b|] == b;
  }

  lemma ItemsSnoc(m: seq<StudentRow>, x: StudentRow)
    ensures Items(m + [x]) == Items(m) + [Item(|m| + 1, x.name, x.rollNo)]
  {
  }

  lemma RenderLast(r: seq<Run>)
    requires r != []
    ensures Render(r) == Render(r[..|r| - 1]) + [Header(r[|r| - 1].className)] + Items(r[|r| - 1].members) + [Subtotal(|r[|r| - 1].members|)]
  {
  }

  /** The step where the student continues the current run. */
  lemma SameClassStep(out: seq<Line>, r: seq<Run>, x: StudentRow)
    requires r != [] && out + [Subtotal(|r[|r| - 1].members|)] == Render(r)
    ensures var m := r[|r| - 1].members;
            out + [Item(|m| + 1, x.name, x.rollNo)] + [Subtotal(|m| + 1)] ==
              Render(r[..|r| - 1] + [Run(r[|r| - 1].className, m + [x])])
  {
    var k := |r| - 1;
    var m := r[k].members;
    var front := Render(r[..k]) + [Header(r[k].className)] + Items(m);
    RenderLast(r);
    SnocCancel(out, front, Subtotal(|m|));
    RenderSnoc(r[..k], Run(r[k].className, m + [x]));
    ItemsSnoc(m, x);
  }

  /** The step where the student opens a new run. */
  lemma NewClassStep(out: seq<Line>, r: seq<Run>, x: StudentRow, closing: seq<Line>)
    requires out + closing == Render(r)
    ensures out + closing + [Header(Display(x))] + [Item(1, x.name, x.rollNo)] + [Subtotal(1)] == Render(r + [Run(Display(x), [x])])
  {
    RenderSnoc(r, Run(Display(x), [x]));
    assert Items([x]) == [Item(1, x.name, x.rollNo)];
  }

  /** After `i` students: `current` is the class of the last run, `count` its size, and closing it gives the rendered runs. */
  ghost predicate Progress(students: seq<StudentRow>, i: nat, out: seq<Line>, current: Option<string>, count: nat)
    requires i <= |students|
  {
    var r := Runs(students[..i]);
    if i == 0 then out == [] && current.None? && count == 0
    else r != [] && current == Some(r[|r| - 1].className) && count == |r[|r| - 1].members| &&
         out + [Subtotal(count)] == Render(r)
  }

  /** A student of another class closes the current run, if any, and opens a new one. */
  lemma ProgressNew(students: seq<StudentRow>, i: nat, out: seq<Line>, current: Option<string>, count: nat)
    requires i < |students| && Progress(students, i, out, current, count)
    requires Some(Display(students[i])) != current
    ensures Progress(students, i + 1,
                     out + (if current.Some? then [Subtotal(count)] else []) +
                       [Header(Display(students[i]))] + [Item(1, students[i].name, students[i].rollNo)],
                     Some(Display(students[i])), 1)
  {
    var x := students[i];
    var r := Runs(students[..i]);
    RunsStep(students, i);
    var closing := if current.Some? then [Subtotal(count)] else [];
    if i == 0 {
      assert r == [];
      assert Render(r) == [];
    }
    NewClassStep(out, r, x, closing);
  }

  /** A student of the current class joins the current run. */
  lemma ProgressSame(students: seq<StudentRow>, i: nat, out: seq<Line>, current: Option<string>, count: nat)
    requires i < |students| && Progress(students, i, out, current, count)
    requires Some(Display(students[i])) == current
    ensures Progress(students, i + 1, out + [Item(count + 1, students[i].name, students[i].rollNo)], current, count + 1)
  {
    var x := students[i];
    var r := Runs(students[..i]);
    RunsStep(students, i);
    SameClassStep(out, r, x);
    var k := |r| - 1;
    var r' := r[..k] + [Run(r[k].className, r[k].members + [x])];
    assert r'[|r'| - 1] == Run(r[k].className, r[k].members + [x]);
  }

  /** The loop of the script: `current` is the class shown last, `count` the students shown under it. */
  method PrintListing(students: seq<StudentRow>) returns (out: seq<Line>)
    ensures out == Listing(students)
  {
    out := [];
    var current: Option<string> := None;
    var count: nat := 0;
    for i := 0 to |students|
      invariant Progress(students, i, out, current, count)
    {
      var x := students[i];
      var display := Display(x);
      if Some(display) != current {
        ProgressNew(students, i, out, current, count);
        if current.Some? {
          out := out + [Subtotal(count)];
        }
        current := Some(display);
        count := 0;
        out := out + [Header(display)];
        count := count + 1;
        out := out + [Item(count, x.name, x.rollNo)];
      } else {
        ProgressSame(students, i, out, current, count);
        count := count + 1;
        out := out + [Item(count, x.name, x.rollNo)];
      }
    }
    out := out + [Subtotal(count)];
    assert students[..|students|] == students;
  }
}
