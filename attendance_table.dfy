/**
 * The `attendance` table as the scripts use it through SQL: rows with an
 * AUTOINCREMENT id, keyed by (student_id, date, period), with or without the
 * UNIQUE(student_id, date, period) constraint. The statements the scripts run
 * are methods of `Table`; the queries are functions of its rows.
 */
module AttendanceTable {
  import opened Wrappers

  type Date = string
  type Period = int

  datatype Key = Key(studentId: int, date: Date, period: Period)

  datatype Record = Record(id: nat, studentId: int, date: Date, period: Period, status: string)

  function KeyOf(r: Record): Key {
    Key(r.studentId, r.date, r.period)
  }

  predicate DistinctIds(rows: seq<Record>) {
    forall i, j :: 0 <= i < j < |rows| ==> rows[i].id != rows[j].id
  }

  /** At most one row per (student_id, date, period). */
  predicate DistinctKeys(rows: seq<Record>) {
    forall i, j :: 0 <= i < j < |rows| ==> KeyOf(rows[i]) != KeyOf(rows[j])
  }

  predicate HasKey(rows: seq<Record>, k: Key) {
    exists i :: 0 <= i < |rows| && KeyOf(rows[i]) == k
  }

  /** `COUNT(*)` of the rows with key `k`. */
  function CountKey(rows: seq<Record>, k: Key): (n: nat)
    ensures n <= |rows|
    ensures n == 0 <==> !HasKey(rows, k)
  {
    if rows == [] then 0
    else
      var n := (if KeyOf(rows[0]) == k then 1 else 0) + CountKey(rows[1..], k);
      assert HasKey(rows, k) <==> KeyOf(rows[0]) == k || HasKey(rows[1..], k) by {
        if HasKey(rows, k) && KeyOf(rows[0]) != k {
          var i :| 0 <= i < |rows| && KeyOf(rows[i]) == k;
          assert KeyOf(rows[1..][i - 1]) == k;
        }
        if HasKey(rows[1..], k) {
          var i :| 0 <= i < |rows[1..]| && KeyOf(rows[1..][i]) == k;
          assert KeyOf(rows[i + 1]) == k;
        }
      }
      n
  }

  /** Row `i` is the first with key `k`. */
  predicate FirstWithKeyAt(rows: seq<Record>, k: Key, i: int) {
    0 <= i < |rows| && KeyOf(rows[i]) == k && forall j :: 0 <= j < i ==> KeyOf(rows[j]) != k
  }

  /** `SELECT * ... WHERE student_id = ? AND date = ? AND period = ?` followed by `fetchone()`. */
  function Lookup(rows: seq<Record>, k: Key): (r: Option<Record>)
    ensures r.Some? <==> HasKey(rows, k)
    ensures r.Some? ==> r.value in rows && KeyOf(r.value) == k
    ensures r.Some? ==> exists i :: FirstWithKeyAt(rows, k, i) && rows[i] == r.value
  {
    if rows == [] then None
    else if KeyOf(rows[0]) == k then Some(rows[0])
    else
      var r := Lookup(rows[1..], k);
      assert HasKey(rows, k) ==> HasKey(rows[1..], k) by {
        if HasKey(rows, k) {
          var i :| 0 <= i < |rows| && KeyOf(rows[i]) == k;
          assert KeyOf(rows[1..][i - 1]) == k;
        }
      }
      assert r.Some? ==> exists i :: FirstWithKeyAt(rows, k, i) && rows[i] == r.value by {
        if r.Some? {
          var i :| FirstWithKeyAt(rows[1..], k, i) && rows[1..][i] == r.value;
          assert rows[i + 1] == r.value;
          forall j | 0 <= j < i + 1 ensures KeyOf(rows[j]) != k {
            if j > 0 { assert rows[j] == rows[1..][j - 1]; }
          }
          assert FirstWithKeyAt(rows, k, i + 1);
        }
      }
      r
  }

  /** The rows whose id is not in `ids` (`DELETE FROM attendance WHERE id = ?`, once per id). */
  function Without(rows: seq<Record>, ids: set<nat>): (r: seq<Record>)
    ensures |r| <= |rows|
    ensures forall x :: x in r <==> x in rows && x.id !in ids
  {
    if rows == [] then []
    else (if rows[0].id in ids then [] else [rows[0]]) + Without(rows[1..], ids)
  }

  /** `UPDATE attendance SET status = ? WHERE student_id = ? AND date = ? AND period = ?` */
  function SetStatus(rows: seq<Record>, k: Key, status: string): (r: seq<Record>)
    ensures |r| == |rows|
    ensures forall i :: 0 <= i < |rows| ==> r[i] == if KeyOf(rows[i]) == k then rows[i].(status := status) else rows[i]
  {
    seq(|rows|, i requires 0 <= i < |rows| => if KeyOf(rows[i]) == k then rows[i].(status := status) else rows[i])
  }

  /** The rows that `DELETE FROM attendance WHERE date = ? AND period = ?` leaves. */
  function WithoutSlot(rows: seq<Record>, date: Date, period: Period): (r: seq<Record>)
    ensures |r| <= |rows|
    ensures forall x :: x in r <==> x in rows && !(x.date == date && x.period == period)
  {
    if rows == [] then []
    else (if rows[0].date == date && rows[0].period == period then [] else [rows[0]]) + WithoutSlot(rows[1..], date, period)
  }

  /** The rows with `date` and `period`. */
  function Slot(rows: seq<Record>, date: Date, period: Period): (r: seq<Record>)
    ensures |r| <= |rows|
    ensures forall x :: x in r <==> x in rows && x.date == date && x.period == period
  {
    if rows == [] then []
    else (if rows[0].date == date && rows[0].period == period then [rows[0]] else []) + Slot(rows[1..], date, period)
  }

  /**
   * `SELECT student_id ... WHERE date = ? AND period = ? GROUP BY student_id HAVING count > 1`:
   * the students holding more than one row for that date and period.
   */
  function DuplicatedStudents(rows: seq<Record>, date: Date, period: Period): set<int> {
    set r | r in rows && r.date == date && r.period == period && CountKey(rows, KeyOf(r)) > 1 :: r.studentId
  }

  /** A key held by two rows is counted at least twice. */
  lemma {:induction false} CountKeyOfTwo(rows: seq<Record>, i: nat, j: nat)
    requires i < j < |rows| && KeyOf(rows[i]) == KeyOf(rows[j])
    ensures CountKey(rows, KeyOf(rows[i])) >= 2
  {
    var k := KeyOf(rows[i]);
    if i == 0 {
      assert HasKey(rows[1..], k) by { assert KeyOf(rows[1..][j - 1]) == k; }
    } else {
      assert rows[1..][i - 1] == rows[i] && rows[1..][j - 1] == rows[j];
      CountKeyOfTwo(rows[1..], i - 1, j - 1);
    }
  }

  /** A key that is counted more than once is held by two distinct rows. */
  lemma {:induction false} CountKeyMany(rows: seq<Record>, k: Key)
    requires CountKey(rows, k) > 1
    ensures exists i, j :: 0 <= i < j < |rows| && KeyOf(rows[i]) == k && KeyOf(rows[j]) == k
  {
    if KeyOf(rows[0]) == k {
      var j :| 0 <= j < |rows[1..]| && KeyOf(rows[1..][j]) == k;
      assert KeyOf(rows[j + 1]) == k;
    } else {
      CountKeyMany(rows[1..], k);
      var i, j :| 0 <= i < j < |rows[1..]| && KeyOf(rows[1..][i]) == k && KeyOf(rows[1..][j]) == k;
      assert rows[i + 1] == rows[1..][i] && rows[j + 1] == rows[1..][j];
    }
  }

  /** The final check of the flow finds nothing exactly when no student holds two rows for the slot. */
  lemma NoDuplicatedStudents(rows: seq<Record>, date: Date, period: Period)
    ensures DuplicatedStudents(rows, date, period) == {} <==>
      forall i, j :: 0 <= i < j < |rows| && rows[i].date == date && rows[i].period == period ==>
        KeyOf(rows[i]) != KeyOf(rows[j])
  {
    if DuplicatedStudents(rows, date, period) != {} {
      var s :| s in DuplicatedStudents(rows, date, period);
      var r :| r in rows && r.date == date && r.period == period && CountKey(rows, KeyOf(r)) > 1 && r.studentId == s;
      CountKeyMany(rows, KeyOf(r));
    }
    forall i, j | 0 <= i < j < |rows| && rows[i].date == date && rows[i].period == period &&
                  KeyOf(rows[i]) == KeyOf(rows[j])
      ensures rows[i].studentId in DuplicatedStudents(rows, date, period)
    {
      CountKeyOfTwo(rows, i, j);
    }
  }

  /** The attendance table. */
  class Table {
    var rows: seq<Record>
    /** The id AUTOINCREMENT hands out next. */
    var nextId: nat
    /** Whether UNIQUE(student_id, date, period) is in force. */
    var unique: bool

    ghost predicate Valid()
      reads this
    {
      DistinctIds(rows) &&
      (forall i :: 0 <= i < |rows| ==> rows[i].id < nextId) &&
      (unique ==> DistinctKeys(rows))
    }

    constructor (rows: seq<Record>, nextId: nat, unique: bool)
      requires DistinctIds(rows) && (forall i :: 0 <= i < |rows| ==> rows[i].id < nextId)
      requires unique ==> DistinctKeys(rows)
      ensures Valid() && this.rows == rows && this.nextId == nextId && this.unique == unique
    {
      this.rows, this.nextId, this.unique := rows, nextId, unique;
    }

    /**
     * `INSERT INTO attendance (student_id, date, period, status) VALUES (...)`:
     * rejected with an integrity error, changing nothing, when the UNIQUE
     * constraint is in force and the key is taken; otherwise one row is added.
     */
    method Insert(studentId: int, date: Date, period: Period, status: string) returns (ok: bool)
      requires Valid()
      modifies this
      ensures Valid() && unique == old(unique)
      ensures ok <==> !(old(unique) && HasKey(old(rows), Key(studentId, date, period)))
      ensures ok ==> rows == old(rows) + [Record(old(nextId), studentId, date, period, status)] && nextId == old(nextId) + 1
      ensures !ok ==> rows == old(rows) && nextId == old(nextId)
    {
      var k := Key(studentId, date, period);
      if unique && Lookup(rows, k).Some? {
        return false;
      }
      var r := Record(nextId, studentId, date, period, status);
      assert forall i :: 0 <= i < |rows| ==> KeyOf(rows[i]) != k || !unique;
      rows := rows + [r];
      nextId := nextId + 1;
      ok := true;
    }

    /** `UPDATE ... SET status = ? WHERE` key; `rowcount` is the number of rows it matched. */
    method Update(k: Key, status: string) returns (rowcount: nat)
      requires Valid()
      modifies this`rows
      ensures Valid()
      ensures rows == SetStatus(old(rows), k, status)
      ensures rowcount == CountKey(old(rows), k)
    {
      rowcount := CountKey(rows, k);
      var updated := SetStatus(rows, k, status);
      assert forall i :: 0 <= i < |rows| ==> updated[i].id == rows[i].id && KeyOf(updated[i]) == KeyOf(rows[i]);
      rows := updated;
    }

    /** `DELETE FROM attendance WHERE id = ?` */
    method DeleteById(id: nat)
      requires Valid()
      modifies this`rows
      ensures Valid()
      ensures rows == Without(old(rows), {id})
    {
      ghost var before := rows;
      rows := Without(rows, {id});
      SubsequenceKeepsDistinct(before, {id});
    }

    /** `DELETE FROM attendance WHERE date = ? AND period = ?`; `rowcount` is the number of rows removed. */
    method DeleteSlot(date: Date, period: Period) returns (rowcount: nat)
      requires Valid()
      modifies this`rows
      ensures Valid()
      ensures rows == WithoutSlot(old(rows), date, period)
      ensures rowcount == |old(rows)| - |rows|
    {
      var before := rows;
      rows := WithoutSlot(rows, date, period);
      SlotSubsequenceKeepsDistinct(before, date, period);
      rowcount := |before| - |rows|;
    }
  }

  /** Prepending a row whose id (and key) no later row has keeps ids (and keys) distinct. */
  lemma ConsDistinct(x: Record, w: seq<Record>)
    ensures DistinctIds(w) && (forall j :: 0 <= j < |w| ==> x.id != w[j].id) ==> DistinctIds([x] + w)
    ensures DistinctKeys(w) && (forall j :: 0 <= j < |w| ==> KeyOf(x) != KeyOf(w[j])) ==> DistinctKeys([x] + w)
  {
    var c := [x] + w;
    assert forall j :: 0 < j < |c| ==> c[j] == w[j - 1];
  }

  lemma TailDistinct(rows: seq<Record>)
    requires rows != []
    ensures DistinctIds(rows) ==> DistinctIds(rows[1..]) && forall j :: 1 <= j < |rows| ==> rows[0].id != rows[j].id
    ensures DistinctKeys(rows) ==> DistinctKeys(rows[1..]) && forall j :: 1 <= j < |rows| ==> KeyOf(rows[0]) != KeyOf(rows[j])
  {
    var t := rows[1..];
    assert forall j :: 0 <= j < |t| ==> t[j] == rows[j + 1];
  }

  /** Rows drawn from the tail differ from the head wherever the whole table does. */
  lemma DistinctFromHead(rows: seq<Record>, w: seq<Record>)
    requires rows != [] && forall y :: y in w ==> y in rows[1..]
    ensures (forall j :: 1 <= j < |rows| ==> rows[0].id != rows[j].id) ==>
            forall j :: 0 <= j < |w| ==> rows[0].id != w[j].id
    ensures (forall j :: 1 <= j < |rows| ==> KeyOf(rows[0]) != KeyOf(rows[j])) ==>
            forall j :: 0 <= j < |w| ==> KeyOf(rows[0]) != KeyOf(w[j])
  {
    forall j | 0 <= j < |w| ensures exists m :: 1 <= m < |rows| && rows[m] == w[j] {
      assert w[j] in w;
      assert w[j] in rows[1..];
      var m :| 0 <= m < |rows[1..]| && rows[1..][m] == w[j];
      assert rows[m + 1] == w[j];
    }
  }

  /** Rows kept by `Without` keep distinct ids and distinct keys. */
  lemma {:induction false} SubsequenceKeepsDistinct(rows: seq<Record>, ids: set<nat>)
    ensures DistinctIds(rows) ==> DistinctIds(Without(rows, ids))
    ensures DistinctKeys(rows) ==> DistinctKeys(Without(rows, ids))
  {
    if rows != [] {
      var w := Without(rows[1..], ids);
      SubsequenceKeepsDistinct(rows[1..], ids);
      TailDistinct(rows);
      DistinctFromHead(rows, w);
      ConsDistinct(rows[0], w);
      assert Without(rows, ids) == (if rows[0].id in ids then [] else [rows[0]]) + w;
    }
  }

  /** Rows kept by `WithoutSlot` keep distinct ids and distinct keys. */
  lemma {:induction false} SlotSubsequenceKeepsDistinct(rows: seq<Record>, date: Date, period: Period)
    ensures DistinctIds(rows) ==> DistinctIds(WithoutSlot(rows, date, period))
    ensures DistinctKeys(rows) ==> DistinctKeys(WithoutSlot(rows, date, period))
  {
    if rows != [] {
      var w := WithoutSlot(rows[1..], date, period);
      SlotSubsequenceKeepsDistinct(rows[1..], date, period);
      TailDistinct(rows);
      DistinctFromHead(rows, w);
      ConsDistinct(rows[0], w);
    }
  }

  /** A key not yet present, once inserted, is found again with the inserted values. */
  lemma LookupAfterInsert(rows: seq<Record>, r: Record)
    requires !HasKey(rows, KeyOf(r))
    ensures Lookup(rows + [r], KeyOf(r)) == Some(r)
  {
    var rows' := rows + [r];
    assert KeyOf(rows'[|rows|]) == KeyOf(r);
    var found := Lookup(rows', KeyOf(r));
    assert forall j :: 0 <= j < |rows| ==> KeyOf(rows'[j]) != KeyOf(r) by {
      forall j | 0 <= j < |rows| ensures KeyOf(rows'[j]) != KeyOf(r) {
        assert rows'[j] == rows[j];
      }
    }
    var i :| FirstWithKeyAt(rows', KeyOf(r), i) && rows'[i] == found.value;
  }

  /** Tables with the same keys, row by row, have the same `COUNT(*)` for every key. */
  lemma {:induction false} CountKeySameKeys(a: seq<Record>, b: seq<Record>, k: Key)
    requires |a| == |b| && forall i :: 0 <= i < |a| ==> KeyOf(a[i]) == KeyOf(b[i])
    ensures CountKey(a, k) == CountKey(b, k)
  {
    if a != [] {
      assert forall i :: 0 <= i < |a| - 1 ==> a[1..][i] == a[i + 1] && b[1..][i] == b[i + 1];
      CountKeySameKeys(a[1..], b[1..], k);
    }
  }

  /**
   * The status update never touches an id or a key: every key keeps its
   * `COUNT(*)`, and distinct ids and keys stay distinct.
   */
  lemma SetStatusKeepsKeys(rows: seq<Record>, k: Key, status: string)
    ensures forall i :: 0 <= i < |rows| ==>
              SetStatus(rows, k, status)[i].id == rows[i].id && KeyOf(SetStatus(rows, k, status)[i]) == KeyOf(rows[i])
    ensures forall k' :: CountKey(SetStatus(rows, k, status), k') == CountKey(rows, k')
    ensures DistinctIds(rows) ==> DistinctIds(SetStatus(rows, k, status))
    ensures DistinctKeys(rows) ==> DistinctKeys(SetStatus(rows, k, status))
  {
    var r := SetStatus(rows, k, status);
    assert forall i :: 0 <= i < |rows| ==> r[i].id == rows[i].id && KeyOf(r[i]) == KeyOf(rows[i]);
    forall k' ensures CountKey(r, k') == CountKey(rows, k') {
      CountKeySameKeys(r, rows, k');
    }
  }

  /**
   * With at most one row per key, an update of key `k` changes the status of
   * that one row and nothing else, and leaves the keys distinct.
   */
  lemma UpdateChangesOnlyThatRow(rows: seq<Record>, k: Key, status: string)
    requires DistinctKeys(rows)
    ensures DistinctKeys(SetStatus(rows, k, status))
    ensures CountKey(rows, k) <= 1
    ensures HasKey(rows, k) ==> Lookup(SetStatus(rows, k, status), k) == Some(Lookup(rows, k).value.(status := status))
    ensures forall i :: 0 <= i < |rows| && KeyOf(rows[i]) != k ==> SetStatus(rows, k, status)[i] == rows[i]
  {
    var r := SetStatus(rows, k, status);
    assert forall i :: 0 <= i < |rows| ==> KeyOf(r[i]) == KeyOf(rows[i]);
    if CountKey(rows, k) > 1 {
      CountKeyMany(rows, k);
    }
    if HasKey(rows, k) {
      var old_ := Lookup(rows, k).value;
      var i :| 0 <= i < |rows| && rows[i] == old_;
      var found := Lookup(r, k).value;
      var m :| 0 <= m < |r| && r[m] == found;
      assert KeyOf(rows[m]) == k;
      assert m == i;
    }
  }
}
