/**
 * The period matching of `test_period_matching.py`: timetable periods are
 * labels such as "3" or "Period 3", attendance periods are integers, and a
 * label is turned into an integer before the two are compared.
 */
module PeriodMatching {
  import opened Wrappers
  import opened Text

  /**
   * `int(p) if p.isdigit() else int(p.split()[-1])`; `None` where Python
   * raises (a blank label, or a last word that is not an integer).
   */
  function PeriodToInt(text: string): (r: Option<int>)
    ensures IsDigitString(text) ==> r == Some(DecimalValue(text))
  {
    if IsDigitString(text) then Some(DecimalValue(text))
    else
      var words := Words(text);
      if words == [] then None else ParseInt(words[|words| - 1])
  }

  lemma DigitsHaveNoSpace(d: string)
    requires IsDigitString(d)
    ensures NoSpace(d)
  {
    forall i | 0 <= i < |d| ensures !IsSpace(d[i]) {
      assert IsAsciiDigit(d[i]);
    }
  }

  /**
   * A bare number, and any one-word prefix such as "Period" followed by that
   * number, give the same period.
   */
  lemma LabelsAgree(word: string, n: nat)
    requires |word| > 0 && NoSpace(word)
    ensures PeriodToInt(DecimalString(n)) == Some(n)
    ensures PeriodToInt(word + " " + DecimalString(n)) == Some(n)
  {
    var d := DecimalString(n);
    DecimalRoundTrip(n);
    DigitsHaveNoSpace(d);
    var text := word + " " + d;
    assert text[|word|] == ' ';
    assert !IsDigitString(text);
    TwoWords(word, d);
  }

  /**
   * `int()` raises on a blank label, which has no last word, and on a label
   * whose last word is not a number such as "Period X".
   */
  lemma UnconvertibleLabels(blank: string, word: string, last: string)
    requires forall i :: 0 <= i < |blank| ==> IsSpace(blank[i])
    requires |word| > 0 && NoSpace(word) && |last| > 0 && NoSpace(last)
    requires !IsAsciiDigit(last[0]) && last[0] != '+' && last[0] != '-'
    ensures PeriodToInt(blank) == None
    ensures PeriodToInt(word + " " + last) == None
  {
    WordsOfBlank(blank);
    assert blank != [] ==> !IsAsciiDigit(blank[0]);
    var text := word + " " + last;
    assert text[|word|] == ' ';
    assert !IsDigitString(text);
    TwoWords(word, last);
    assert !IsDigitString(last);
  }

  /** A timetable row of one class: the day and the period label. */
  datatype Entry = Entry(day: string, period: string)

  predicate Converts(e: Entry) {
    PeriodToInt(e.period).Some?
  }

  predicate AllConvert(entries: seq<Entry>) {
    forall i :: 0 <= i < |entries| ==> Converts(entries[i])
  }

  function Key(e: Entry): int
    requires Converts(e)
  {
    PeriodToInt(e.period).value
  }

  /** `timetable_grid` after the loop has seen `entries`. */
  function Grid(entries: seq<Entry>): map<string, map<int, string>>
    requires AllConvert(entries)
  {
    if entries == [] then map[]
    else
      var init := entries[..|entries| - 1];
      assert forall i :: 0 <= i < |init| ==> init[i] == entries[i];
      var g := Grid(init);
      var e := entries[|entries| - 1];
      g[e.day := (if e.day in g then g[e.day] else map[])[Key(e) := e.period]]
  }

  /** `all_periods` after the loop has seen `entries`. */
  function AllPeriods(entries: seq<Entry>): set<int>
    requires AllConvert(entries)
  {
    set i | 0 <= i < |entries| :: Key(entries[i])
  }

  /** Entry `i` has day `day` and period `p`. */
  predicate EntryAt(entries: seq<Entry>, day: string, p: int, i: int) {
    0 <= i < |entries| && entries[i].day == day && Converts(entries[i]) && Key(entries[i]) == p
  }

  /** Entry `i` is the last one with day `day` and period `p`. */
  predicate LastEntryAt(entries: seq<Entry>, day: string, p: int, i: int) {
    EntryAt(entries, day, p, i) && forall j :: i < j < |entries| ==> !EntryAt(entries, day, p, j)
  }

  predicate HasDay(entries: seq<Entry>, day: string) {
    exists i :: 0 <= i < |entries| && entries[i].day == day
  }

  /** One step of `Grid`. */
  lemma GridStep(entries: seq<Entry>)
    requires entries != [] && AllConvert(entries)
    ensures AllConvert(entries[..|entries| - 1])
    ensures var g := Grid(entries[..|entries| - 1]);
            var e := entries[|entries| - 1];
            Grid(entries) == g[e.day := (if e.day in g then g[e.day] else map[])[Key(e) := e.period]]
  {
    assert forall i :: 0 <= i < |entries| - 1 ==> entries[..|entries| - 1][i] == entries[i];
  }

  /** A day is in the grid exactly when some entry has it. */
  lemma {:induction false} GridDays(entries: seq<Entry>, day: string)
    requires AllConvert(entries)
    ensures day in Grid(entries) <==> HasDay(entries, day)
  {
    if entries != [] {
      var n := |entries| - 1;
      var init := entries[..n];
      GridStep(entries);
      GridDays(init, day);
      if entries[n].day != day && HasDay(entries, day) {
        var i :| 0 <= i < |entries| && entries[i].day == day;
        assert init[i].day == day;
      }
      if HasDay(init, day) {
        var i :| 0 <= i < |init| && init[i].day == day;
        assert entries[i].day == day;
      }
    }
  }

  /**
   * A cell is filled exactly when some entry has that day and period, and it
   * holds the label of the last such entry.
   */
  lemma {:induction false} GridCells(entries: seq<Entry>, day: string, p: int)
    requires AllConvert(entries)
    ensures (day in Grid(entries) && p in Grid(entries)[day]) <==> exists i :: EntryAt(entries, day, p, i)
    ensures day in Grid(entries) && p in Grid(entries)[day] ==>
              exists i :: LastEntryAt(entries, day, p, i) && Grid(entries)[day][p] == entries[i].period
  {
    if entries != [] {
      var n := |entries| - 1;
      var init := entries[..n];
      GridStep(entries);
      GridCells(init, day, p);
      var e := entries[n];
      if e.day == day && Key(e) == p {
        assert LastEntryAt(entries, day, p, n);
      } else {
        assert Grid(entries)[e.day] == (if e.day in Grid(init) then Grid(init)[e.day] else map[])[Key(e) := e.period];
        assert (day in Grid(entries) && p in Grid(entries)[day]) <==> (day in Grid(init) && p in Grid(init)[day]);
        assert day in Grid(entries) && p in Grid(entries)[day] ==> Grid(entries)[day][p] == Grid(init)[day][p];
        forall i | EntryAt(entries, day, p, i) ensures EntryAt(init, day, p, i) {
          assert init[i] == entries[i];
        }
        forall i | EntryAt(init, day, p, i) ensures EntryAt(entries, day, p, i) {
          assert init[i] == entries[i];
        }
        if day in Grid(entries) && p in Grid(entries)[day] {
          var i :| LastEntryAt(init, day, p, i) && Grid(init)[day][p] == init[i].period;
          forall j | i < j < |entries| ensures !EntryAt(entries, day, p, j) {
            if j < n { assert init[j] == entries[j]; }
          }
          assert LastEntryAt(entries, day, p, i);
        }
      }
    }
  }

  /** `all_periods` is exactly the set of periods that have a cell on some day. */
  lemma AllPeriodsAreGridPeriods(entries: seq<Entry>, p: int)
    requires AllConvert(entries)
    ensures p in AllPeriods(entries) <==> exists day :: day in Grid(entries) && p in Grid(entries)[day]
  {
    if p in AllPeriods(entries) {
      var i :| 0 <= i < |entries| && Key(entries[i]) == p;
      GridCells(entries, entries[i].day, p);
      assert EntryAt(entries, entries[i].day, p, i);
    }
    if exists day :: day in Grid(entries) && p in Grid(entries)[day] {
      var day :| day in Grid(entries) && p in Grid(entries)[day];
      GridCells(entries, day, p);
      var i :| EntryAt(entries, day, p, i);
    }
  }

  lemma GridSnoc(entries: seq<Entry>, i: nat)
    requires i < |entries| && AllConvert(entries[..i]) && Converts(entries[i])
    ensures AllConvert(entries[..i + 1])
    ensures Grid(entries[..i + 1]) ==
              var g := Grid(entries[..i]);
              g[entries[i].day := (if entries[i].day in g then g[entries[i].day] else map[])[Key(entries[i]) := entries[i].period]]
    ensures AllPeriods(entries[..i + 1]) == AllPeriods(entries[..i]) + {Key(entries[i])}
  {
    var s := entries[..i + 1];
    assert s[..i] == entries[..i];
    assert forall j :: 0 <= j < i ==> s[j] == entries[..i][j];
    assert s[i] == entries[i];
  }

  /**
   * The loop that fills `timetable_grid` and `all_periods`. It stops with
   * `ok` false at the first text that does not convert, where the script
   * raises.
   */
  method BuildTimetable(entries: seq<Entry>) returns (ok: bool, grid: map<string, map<int, string>>, periods: set<int>)
    ensures ok <==> AllConvert(entries)
    ensures ok ==> grid == Grid(entries) && periods == AllPeriods(entries)
  {
    grid, periods := map[], {};
    var i := 0;
    while i < |entries|
      invariant 0 <= i <= |entries|
      invariant AllConvert(entries[..i])
      invariant grid == Grid(entries[..i]) && periods == AllPeriods(entries[..i])
    {
      var e := entries[i];
      var p := PeriodToInt(e.period);
      if p.None? {
        assert !Converts(entries[i]);
        return false, grid, periods;
      }
      GridSnoc(entries, i);
      var row := if e.day in grid then grid[e.day] else map[];
      grid := grid[e.day := row[p.value := e.period]];
      periods := periods + {p.value};
      i := i + 1;
    }
    assert entries[..i] == entries;
    ok := true;
  }

  /** A row of the student's attendance today: the period and its status. */
  datatype Mark = Mark(period: int, status: string)

  /** `today_attendance` after the loop has seen `marks`: the last status of each period. */
  function LastStatus(marks: seq<Mark>): map<int, string>
  {
    if marks == [] then map[]
    else LastStatus(marks[..|marks| - 1])[marks[|marks| - 1].period := marks[|marks| - 1].status]
  }

  /** `today_attendance.get(period, "Not Taken")` */
  function StatusOf(attendance: map<int, string>, period: int): string {
    if period in attendance then attendance[period] else "Not Taken"
  }

  predicate LastMarkAt(marks: seq<Mark>, period: int, i: int) {
    0 <= i < |marks| && marks[i].period == period && forall j :: i < j < |marks| ==> marks[j].period != period
  }

  lemma LastStatusStep(marks: seq<Mark>)
    requires marks != []
    ensures LastStatus(marks) == LastStatus(marks[..|marks| - 1])[marks[|marks| - 1].period := marks[|marks| - 1].status]
  {
  }

  /** With no mark for the period, the looked-up status is "Not Taken". */
  lemma {:induction false} StatusNotTaken(marks: seq<Mark>, period: int)
    requires forall i :: 0 <= i < |marks| ==> marks[i].period != period
    ensures StatusOf(LastStatus(marks), period) == "Not Taken"
  {
    if marks != [] {
      var n := |marks| - 1;
      LastStatusStep(marks);
      assert forall i :: 0 <= i < n ==> marks[..n][i] == marks[i];
      StatusNotTaken(marks[..n], period);
    }
  }

  /** The looked-up status is that of the last mark of the period. */
  lemma {:induction false} StatusIsLastMark(marks: seq<Mark>, period: int, i: int)
    requires LastMarkAt(marks, period, i)
    ensures StatusOf(LastStatus(marks), period) == marks[i].status
  {
    var n := |marks| - 1;
    LastStatusStep(marks);
    if i < n {
      var init := marks[..n];
      assert init[i] == marks[i];
      forall j | i < j < |init| ensures init[j].period != period {
        assert init[j] == marks[j];
      }
      StatusIsLastMark(init, period, i);
    }
  }

  /** The loop that fills `today_attendance`. */
  method TodayAttendance(marks: seq<Mark>) returns (attendance: map<int, string>)
    ensures attendance == LastStatus(marks)
  {
    attendance := map[];
    for i := 0 to |marks|
      invariant attendance == LastStatus(marks[..i])
    {
      assert marks[..i + 1][..i] == marks[..i];
      attendance := attendance[marks[i].period := marks[i].status];
    }
    assert marks[..|marks|] == marks;
  }
}
