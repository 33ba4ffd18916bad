/**
 * `fix_duplicates.py`: collapse every group of attendance rows sharing a
 * (student_id, date, period) onto the row with the smallest id, report how
 * many rows went, and rebuild the table with UNIQUE(student_id, date, period)
 * unless an index already provides it.
 */
module FixDuplicates {
  import opened AttendanceTable
  import opened Text
  import opened RowIds

  predicate NoDuplicates(s: seq<nat>) {
    forall i, j :: 0 <= i < j < |s| ==> s[i] != s[j]
  }

  function Elems(s: seq<nat>): set<nat> {
    set y | y in s
  }

  /** Some row has key `k` and id `x`. */
  predicate HasIdWithKey(rows: seq<Record>, k: Key, x: nat) {
    exists i :: 0 <= i < |rows| && KeyOf(rows[i]) == k && rows[i].id == x
  }

  lemma HasIdWithKeyCons(rows: seq<Record>, k: Key, x: nat)
    requires rows != []
    ensures HasIdWithKey(rows, k, x) <==> (KeyOf(rows[0]) == k && rows[0].id == x) || HasIdWithKey(rows[1..], k, x)
  {
    if HasIdWithKey(rows[1..], k, x) {
      var i :| 0 <= i < |rows[1..]| && KeyOf(rows[1..][i]) == k && rows[1..][i].id == x;
      assert rows[i + 1] == rows[1..][i];
    }
    if HasIdWithKey(rows, k, x) && !(KeyOf(rows[0]) == k && rows[0].id == x) {
      var i :| 0 <= i < |rows| && KeyOf(rows[i]) == k && rows[i].id == x;
      assert rows[1..][i - 1] == rows[i];
    }
  }

  /** `GROUP_CONCAT(id)` for key `k`: the ids of the rows with that key, in table order. */
  function IdsWithKey(rows: seq<Record>, k: Key): (r: seq<nat>)
    ensures |r| == CountKey(rows, k)
    ensures forall x :: x in r <==> HasIdWithKey(rows, k, x)
  {
    if rows == [] then []
    else
      var rest := IdsWithKey(rows[1..], k);
      assert forall x :: HasIdWithKey(rows, k, x) <==> (KeyOf(rows[0]) == k && rows[0].id == x) || HasIdWithKey(rows[1..], k, x) by {
        forall x ensures HasIdWithKey(rows, k, x) <==> (KeyOf(rows[0]) == k && rows[0].id == x) || HasIdWithKey(rows[1..], k, x) {
          HasIdWithKeyCons(rows, k, x);
        }
      }
      (if KeyOf(rows[0]) == k then [rows[0].id] else []) + rest
  }

  lemma {:induction false} IdsWithKeyDistinct(rows: seq<Record>, k: Key)
    requires DistinctIds(rows)
    ensures NoDuplicates(IdsWithKey(rows, k))
  {
    if rows != [] {
      TailDistinct(rows);
      IdsWithKeyDistinct(rows[1..], k);
      var rest := IdsWithKey(rows[1..], k);
      if KeyOf(rows[0]) == k {
        forall j | 0 <= j < |rest| ensures rows[0].id != rest[j] {
          assert rest[j] in rest;
          var i :| 0 <= i < |rows[1..]| && KeyOf(rows[1..][i]) == k && rows[1..][i].id == rest[j];
          assert rows[i + 1].id == rest[j];
        }
        var c := [rows[0].id] + rest;
        assert forall j :: 0 < j < |c| ==> c[j] == rest[j - 1];
      }
    }
  }

  /** The distinct keys of the table, in order of first appearance. */
  function KeysInOrder(rows: seq<Record>): (ks: seq<Key>)
    ensures forall i, j :: 0 <= i < j < |ks| ==> ks[i] != ks[j]
    ensures forall k :: k in ks <==> HasKey(rows, k)
  {
    if rows == [] then []
    else
      var n := |rows| - 1;
      var rest := KeysInOrder(rows[..n]);
      assert forall k :: HasKey(rows, k) <==> HasKey(rows[..n], k) || KeyOf(rows[n]) == k by {
        forall k ensures HasKey(rows, k) <==> HasKey(rows[..n], k) || KeyOf(rows[n]) == k {
          if HasKey(rows[..n], k) {
            var i :| 0 <= i < n && KeyOf(rows[..n][i]) == k;
            assert rows[i] == rows[..n][i];
          }
          if HasKey(rows, k) && KeyOf(rows[n]) != k {
            var i :| 0 <= i < |rows| && KeyOf(rows[i]) == k;
            assert rows[..n][i] == rows[i];
          }
        }
      }
      if KeyOf(rows[n]) in rest then rest else rest + [KeyOf(rows[n])]
  }

  /** One row of `GROUP BY student_id, date, period HAVING count > 1`. */
  datatype Group = Group(key: Key, ids: seq<nat>)

  predicate DistinctKeyList(keys: seq<Key>) {
    forall i, j :: 0 <= i < j < |keys| ==> keys[i] != keys[j]
  }

  lemma DistinctKeyListTail(keys: seq<Key>)
    requires keys != [] && DistinctKeyList(keys)
    ensures DistinctKeyList(keys[1..]) && keys[0] !in keys[1..]
  {
    forall i, j | 0 <= i < j < |keys[1..]| ensures keys[1..][i] != keys[1..][j] {
      assert keys[1..][i] == keys[i + 1] && keys[1..][j] == keys[j + 1];
    }
    forall m | 0 <= m < |keys[1..]| ensures keys[1..][m] != keys[0] {
      assert keys[1..][m] == keys[m + 1];
    }
  }

  /** The groups for `keys` that hold more than one row. */
  function GroupsOf(rows: seq<Record>, keys: seq<Key>): (gs: seq<Group>)
    ensures forall g :: g in gs <==> g.key in keys && CountKey(rows, g.key) > 1 && g.ids == IdsWithKey(rows, g.key)
    ensures DistinctKeyList(keys) ==> forall i, j :: 0 <= i < j < |gs| ==> gs[i].key != gs[j].key
    ensures (forall k :: k in keys ==> CountKey(rows, k) <= 1) ==> gs == []
  {
    if keys == [] then []
    else
      var rest := GroupsOf(rows, keys[1..]);
      var k := keys[0];
      assert DistinctKeyList(keys) ==> DistinctKeyList(keys[1..]) && k !in keys[1..] by {
        if DistinctKeyList(keys) { DistinctKeyListTail(keys); }
      }
      if CountKey(rows, k) > 1 then
        var gs := [Group(k, IdsWithKey(rows, k))] + rest;
        assert forall j :: 0 < j < |gs| ==> gs[j] == rest[j - 1];
        assert forall j :: 0 < j < |gs| ==> gs[j] in rest;
        gs
      else rest
  }

  /** The duplicate groups the first query returns. */
  function DuplicateGroups(rows: seq<Record>): seq<Group> {
    GroupsOf(rows, KeysInOrder(rows))
  }

  /** `min(id_list)`. */
  function MinOf(ids: seq<nat>): (m: nat)
    requires ids != []
    ensures m in ids && forall x :: x in ids ==> m <= x
  {
    if |ids| == 1 then ids[0]
    else
      var rest := MinOf(ids[1..]);
      assert forall x :: x in ids ==> x == ids[0] || x in ids[1..];
      if ids[0] <= rest then ids[0] else rest
  }

  lemma NoDuplicatesTail(ids: seq<nat>)
    requires ids != [] && NoDuplicates(ids)
    ensures NoDuplicates(ids[1..]) && ids[0] !in ids[1..]
  {
    forall i, j | 0 <= i < j < |ids[1..]| ensures ids[1..][i] != ids[1..][j] {
      assert ids[1..][i] == ids[i + 1] && ids[1..][j] == ids[j + 1];
    }
    forall m | 0 <= m < |ids[1..]| ensures ids[1..][m] != ids[0] {
      assert ids[1..][m] == ids[m + 1];
    }
  }

  /** `[x for x in id_list if x != keep_id]`. */
  function Except(ids: seq<nat>, keep: nat): (r: seq<nat>)
    ensures forall x :: x in r <==> x in ids && x != keep
    ensures keep !in ids ==> r == ids
    ensures NoDuplicates(ids) ==> NoDuplicates(r)
    ensures NoDuplicates(ids) && keep in ids ==> |r| == |ids| - 1
  {
    if ids == [] then []
    else
      var rest := Except(ids[1..], keep);
      assert NoDuplicates(ids) ==> NoDuplicates(ids[1..]) && ids[0] !in ids[1..] by {
        if NoDuplicates(ids) { NoDuplicatesTail(ids); }
      }
      if ids[0] == keep then rest
      else
        var r := [ids[0]] + rest;
        assert forall j :: 0 < j < |r| ==> r[j] == rest[j - 1];
        r
  }

  /** The ids deleted for one group: all but the smallest. */
  function DeleteIds(g: Group): seq<nat> {
    if g.ids == [] then [] else Except(g.ids, MinOf(g.ids))
  }

  /** The delete lists of all groups, in the order the loop visits them. */
  function DeleteLists(gs: seq<Group>): (dls: seq<seq<nat>>)
    ensures |dls| == |gs| && forall i :: 0 <= i < |gs| ==> dls[i] == DeleteIds(gs[i])
  {
    seq(|gs|, i requires 0 <= i < |gs| => DeleteIds(gs[i]))
  }

  /** The number printed as "Removed N duplicate records": the sum of (group size - 1). */
  function RemovedCount(gs: seq<Group>): int {
    if gs == [] then 0 else RemovedCount(gs[..|gs| - 1]) + |gs[|gs| - 1].ids| - 1
  }

  /** Every id in the delete lists `dls`. */
  function Union(dls: seq<seq<nat>>): set<nat> {
    if dls == [] then {} else Union(dls[..|dls| - 1]) + Elems(dls[|dls| - 1])
  }

  predicate InSome(dls: seq<seq<nat>>, x: nat) {
    exists i :: 0 <= i < |dls| && x in dls[i]
  }

  lemma InSomeSnoc(dls: seq<seq<nat>>, x: nat)
    requires dls != []
    ensures InSome(dls, x) <==> InSome(dls[..|dls| - 1], x) || x in dls[|dls| - 1]
  {
    var n := |dls| - 1;
    var init := dls[..n];
    if InSome(init, x) {
      var i :| 0 <= i < |init| && x in init[i];
      assert init[i] == dls[i];
    }
    if !InSome(init, x) && x !in dls[n] {
      forall i | 0 <= i < |dls| ensures x !in dls[i] {
        if i < n { assert dls[i] == init[i]; }
      }
    }
  }

  lemma {:induction false} UnionMember(dls: seq<seq<nat>>, x: nat)
    ensures x in Union(dls) <==> InSome(dls, x)
  {
    if dls != [] {
      UnionMember(dls[..|dls| - 1], x);
      InSomeSnoc(dls, x);
    }
  }

  /** A row survives when no row with the same key has a smaller id. */
  predicate IsSurvivor(rows: seq<Record>, r: Record) {
    forall s :: s in rows && KeyOf(s) == KeyOf(r) ==> r.id <= s.id
  }

  function NonMinimalIds(rows: seq<Record>): set<nat> {
    set r | r in rows && !IsSurvivor(rows, r) :: r.id
  }

  /** The table after the duplicate pass: every row that is not the smallest id of its key is gone. */
  function KeepMin(rows: seq<Record>): seq<Record> {
    Without(rows, NonMinimalIds(rows))
  }

  lemma DuplicateGroupsFacts(rows: seq<Record>)
    ensures forall g :: g in DuplicateGroups(rows) ==> |g.ids| > 1 && g.ids == IdsWithKey(rows, g.key)
    ensures forall k :: CountKey(rows, k) > 1 ==> Group(k, IdsWithKey(rows, k)) in DuplicateGroups(rows)
    ensures forall i, j :: 0 <= i < j < |DuplicateGroups(rows)| ==> DuplicateGroups(rows)[i].key != DuplicateGroups(rows)[j].key
  {
  }

  lemma DeletedIsNonMinimal(rows: seq<Record>, x: nat)
    requires DistinctIds(rows) && InSome(DeleteLists(DuplicateGroups(rows)), x)
    ensures x in NonMinimalIds(rows)
  {
    var gs := DuplicateGroups(rows);
    DuplicateGroupsFacts(rows);
    var dls := DeleteLists(gs);
    var i :| 0 <= i < |dls| && x in dls[i];
    var g := gs[i];
    assert g in gs;
    var m := MinOf(g.ids);
    assert x in DeleteIds(g);
    assert x in g.ids && x != m;
    var a :| 0 <= a < |rows| && KeyOf(rows[a]) == g.key && rows[a].id == x;
    var b :| 0 <= b < |rows| && KeyOf(rows[b]) == g.key && rows[b].id == m;
    assert rows[b] in rows && KeyOf(rows[b]) == KeyOf(rows[a]) && rows[b].id < rows[a].id;
    assert rows[a] in rows && !IsSurvivor(rows, rows[a]);
  }

  lemma NonMinimalIsDeleted(rows: seq<Record>, x: nat)
    requires x in NonMinimalIds(rows)
    ensures InSome(DeleteLists(DuplicateGroups(rows)), x)
  {
    var gs := DuplicateGroups(rows);
    DuplicateGroupsFacts(rows);
    var r :| r in rows && !IsSurvivor(rows, r) && r.id == x;
    var s :| s in rows && KeyOf(s) == KeyOf(r) && s.id < r.id;
    var a :| 0 <= a < |rows| && rows[a] == r;
    var b :| 0 <= b < |rows| && rows[b] == s;
    if a < b { CountKeyOfTwo(rows, a, b); } else { CountKeyOfTwo(rows, b, a); }
    var g := Group(KeyOf(r), IdsWithKey(rows, KeyOf(r)));
    assert g in gs;
    var i :| 0 <= i < |gs| && gs[i] == g;
    assert HasIdWithKey(rows, g.key, x) && HasIdWithKey(rows, g.key, s.id);
    assert x in g.ids && s.id in g.ids;
    assert x in DeleteLists(gs)[i];
  }

  /** The ids the delete loop removes are exactly those of the rows that are not the smallest of their key. */
  lemma DeletedAreNonMinimal(rows: seq<Record>)
    requires DistinctIds(rows)
    ensures Union(DeleteLists(DuplicateGroups(rows))) == NonMinimalIds(rows)
  {
    var dls := DeleteLists(DuplicateGroups(rows));
    forall x | x in Union(dls) ensures x in NonMinimalIds(rows) {
      UnionMember(dls, x);
      DeletedIsNonMinimal(rows, x);
    }
    forall x | x in NonMinimalIds(rows) ensures x in Union(dls) {
      NonMinimalIsDeleted(rows, x);
      UnionMember(dls, x);
    }
  }

  /** What the delete loop relies on about its delete lists. */
  predicate IsDeletePlan(orig: seq<Record>, gs: seq<Group>, dls: seq<seq<nat>>) {
    |dls| == |gs| &&
    (forall i, j :: 0 <= i < j < |gs| ==> gs[i].key != gs[j].key) &&
    (forall i :: 0 <= i < |dls| ==> NoDuplicates(dls[i])) &&
    (forall i, x :: 0 <= i < |dls| && x in dls[i] ==> HasIdWithKey(orig, gs[i].key, x))
  }

  lemma DeletePlanHolds(orig: seq<Record>)
    requires DistinctIds(orig)
    ensures IsDeletePlan(orig, DuplicateGroups(orig), DeleteLists(DuplicateGroups(orig)))
  {
    var gs := DuplicateGroups(orig);
    var dls := DeleteLists(gs);
    DuplicateGroupsFacts(orig);
    forall i | 0 <= i < |dls| ensures NoDuplicates(dls[i]) {
      assert gs[i] in gs;
      IdsWithKeyDistinct(orig, gs[i].key);
    }
    forall i, x | 0 <= i < |dls| && x in dls[i] ensures HasIdWithKey(orig, gs[i].key, x) {
      assert gs[i] in gs;
    }
  }

  /** With distinct ids, an id belongs to one key only. */
  lemma IdHasOneKey(rows: seq<Record>, k1: Key, k2: Key, x: nat)
    requires DistinctIds(rows)
    ensures k1 != k2 ==> !(HasIdWithKey(rows, k1, x) && HasIdWithKey(rows, k2, x))
  {
    if HasIdWithKey(rows, k1, x) && HasIdWithKey(rows, k2, x) {
      var a :| 0 <= a < |rows| && KeyOf(rows[a]) == k1 && rows[a].id == x;
      var b :| 0 <= b < |rows| && KeyOf(rows[b]) == k2 && rows[b].id == x;
      assert a == b;
    }
  }

  lemma WithoutCons(rows: seq<Record>, ids: set<nat>)
    requires rows != []
    ensures Without(rows, ids) == (if rows[0].id in ids then [] else [rows[0]]) + Without(rows[1..], ids)
  {
  }

  /** Removing one id that is present removes exactly one row. */
  lemma {:induction false} WithoutOnePresent(rows: seq<Record>, x: nat)
    requires DistinctIds(rows)
    requires exists i :: 0 <= i < |rows| && rows[i].id == x
    ensures |Without(rows, {x})| == |rows| - 1
  {
    TailDistinct(rows);
    WithoutCons(rows, {x});
    if rows[0].id == x {
      WithoutAbsent(rows[1..], {x});
    } else {
      var i :| 0 <= i < |rows| && rows[i].id == x;
      assert rows[1..][i - 1].id == x;
      WithoutOnePresent(rows[1..], x);
    }
  }

  lemma {:induction false} WithoutAbsent(rows: seq<Record>, ids: set<nat>)
    requires forall i :: 0 <= i < |rows| ==> rows[i].id !in ids
    ensures Without(rows, ids) == rows
  {
    if rows != [] {
      WithoutCons(rows, ids);
      WithoutAbsent(rows[1..], ids);
    }
  }

  lemma {:induction false} WithoutTwice(rows: seq<Record>, a: set<nat>, b: set<nat>)
    ensures Without(Without(rows, a), b) == Without(rows, a + b)
  {
    if rows != [] {
      WithoutCons(rows, a);
      WithoutCons(rows, a + b);
      WithoutTwice(rows[1..], a, b);
      var w := Without(rows[1..], a);
      if rows[0].id in a {
        assert Without(rows, a) == w;
      } else {
        assert Without(rows, a) == [rows[0]] + w;
        WithoutCons([rows[0]] + w, b);
        assert ([rows[0]] + w)[1..] == w;
      }
    }
  }

  /** Some row has id `x`. */
  predicate HasId(rows: seq<Record>, x: nat) {
    exists m :: 0 <= m < |rows| && rows[m].id == x
  }

  /** The ids a group deletes were not deleted by an earlier group and are in the original table. */
  lemma GroupIdsFresh(orig: seq<Record>, gs: seq<Group>, dls: seq<seq<nat>>, i: nat, x: nat)
    requires DistinctIds(orig) && IsDeletePlan(orig, gs, dls)
    requires i < |dls| && x in dls[i]
    ensures x !in Union(dls[..i])
    ensures HasId(orig, x)
  {
    assert HasIdWithKey(orig, gs[i].key, x);
    UnionMember(dls[..i], x);
    forall i' | 0 <= i' < i ensures x !in dls[..i][i'] {
      assert dls[..i][i'] == dls[i'];
      IdHasOneKey(orig, gs[i].key, gs[i'].key, x);
    }
  }

  lemma GroupIdsPresent(orig: seq<Record>, gs: seq<Group>, dls: seq<seq<nat>>, i: nat)
    requires DistinctIds(orig) && IsDeletePlan(orig, gs, dls)
    requires i < |dls|
    ensures forall x :: x in dls[i] ==> HasId(Without(orig, Union(dls[..i])), x)
  {
    forall x | x in dls[i] ensures HasId(Without(orig, Union(dls[..i])), x) {
      GroupIdsFresh(orig, gs, dls, i, x);
      var m :| 0 <= m < |orig| && orig[m].id == x;
      StillPresent(orig, Union(dls[..i]), m);
    }
  }

  lemma StillPresent(rows: seq<Record>, ids: set<nat>, m: nat)
    requires m < |rows| && rows[m].id !in ids
    ensures exists m' :: 0 <= m' < |Without(rows, ids)| && Without(rows, ids)[m'].id == rows[m].id
  {
    var w := Without(rows, ids);
    assert rows[m] in w;
    var m' :| 0 <= m' < |w| && w[m'] == rows[m];
  }

  lemma ElemsSnoc(s: seq<nat>, j: nat)
    requires j < |s|
    ensures Elems(s[..j + 1]) == Elems(s[..j]) + {s[j]}
  {
    assert s[..j + 1] == s[..j] + [s[j]];
  }

  /** One `DELETE FROM attendance WHERE id = ?` of the inner loop. */
  lemma DeleteStep(orig: seq<Record>, ids: seq<nat>, j: nat)
    requires DistinctIds(orig) && NoDuplicates(ids) && forall x :: x in ids ==> HasId(orig, x)
    requires j < |ids|
    ensures |Without(Without(orig, Elems(ids[..j])), {ids[j]})| == |Without(orig, Elems(ids[..j]))| - 1
    ensures Without(Without(orig, Elems(ids[..j])), {ids[j]}) == Without(orig, Elems(ids[..j + 1]))
  {
    var x := ids[j];
    var gone := Elems(ids[..j]);
    forall m | 0 <= m < j ensures ids[..j][m] != x {
      assert ids[..j][m] == ids[m];
    }
    assert x in ids;
    var m :| 0 <= m < |orig| && orig[m].id == x;
    StillPresent(orig, gone, m);
    SubsequenceKeepsDistinct(orig, gone);
    WithoutOnePresent(Without(orig, gone), x);
    WithoutTwice(orig, gone, {x});
    ElemsSnoc(ids, j);
  }

  /** The loop's view of one group: it has a smallest id, and its delete list drops exactly that one. */
  lemma GroupStep(orig: seq<Record>, gs: seq<Group>, dls: seq<seq<nat>>, i: nat)
    requires DistinctIds(orig) && gs == DuplicateGroups(orig) && dls == DeleteLists(gs)
    requires i < |gs|
    ensures gs[i].ids != []
    ensures dls[i] == Except(gs[i].ids, MinOf(gs[i].ids))
    ensures |dls[i]| == |gs[i].ids| - 1
  {
    DuplicateGroupsFacts(orig);
    assert gs[i] in gs;
    IdsWithKeyDistinct(orig, gs[i].key);
  }

  lemma PrefixStep(gs: seq<Group>, dls: seq<seq<nat>>, i: nat)
    requires i < |gs| && |dls| == |gs|
    ensures Union(dls[..i + 1]) == Union(dls[..i]) + Elems(dls[i])
    ensures RemovedCount(gs[..i + 1]) == RemovedCount(gs[..i]) + |gs[i].ids| - 1
  {
    assert gs[..i + 1][..i] == gs[..i];
    assert dls[..i + 1][..i] == dls[..i];
  }

  /** The table after the loop has handled group `i`. */
  lemma AfterGroup(orig: seq<Record>, gs: seq<Group>, dls: seq<seq<nat>>, i: nat, mid: seq<Record>, after: seq<Record>)
    requires i < |gs| && |dls| == |gs| && |dls[i]| == |gs[i].ids| - 1
    requires mid == Without(orig, Union(dls[..i])) && |mid| == |orig| - RemovedCount(gs[..i])
    requires after == Without(mid, Elems(dls[i])) && |after| == |mid| - |dls[i]|
    ensures after == Without(orig, Union(dls[..i + 1]))
    ensures |after| == |orig| - RemovedCount(gs[..i + 1])
  {
    WithoutTwice(orig, Union(dls[..i]), Elems(dls[i]));
    PrefixStep(gs, dls, i);
  }

  lemma LoopEnd(orig: seq<Record>, gs: seq<Group>, dls: seq<seq<nat>>, rows: seq<Record>)
    requires DistinctIds(orig) && gs == DuplicateGroups(orig) && dls == DeleteLists(gs)
    requires rows == Without(orig, Union(dls[..|gs|]))
    ensures rows == KeepMin(orig)
  {
    assert dls[..|gs|] == dls;
    DeletedAreNonMinimal(orig);
  }

  /** `for del_id in delete_ids: DELETE FROM attendance WHERE id = ?` */
  method DeleteAll(t: Table, ids: seq<nat>)
    requires t.Valid() && NoDuplicates(ids) && forall x :: x in ids ==> HasId(t.rows, x)
    modifies t`rows
    ensures t.Valid()
    ensures t.rows == Without(old(t.rows), Elems(ids))
    ensures |t.rows| == |old(t.rows)| - |ids|
  {
    ghost var orig := t.rows;
    assert Elems(ids[..0]) == {};
    WithoutAbsent(orig, {});
    var j := 0;
    while j < |ids|
      invariant 0 <= j <= |ids|
      invariant t.Valid()
      invariant t.rows == Without(orig, Elems(ids[..j]))
      invariant |t.rows| == |orig| - j
    {
      DeleteStep(orig, ids, j);
      t.DeleteById(ids[j]);
      j := j + 1;
    }
    assert ids[..j] == ids;
  }

  /** The duplicate loop: for each group, keep the smallest id and delete the others. */
  method RemoveDuplicates(t: Table) returns (groups: seq<Group>, removed: int)
    requires t.Valid()
    modifies t`rows
    ensures t.Valid()
    ensures groups == DuplicateGroups(old(t.rows))
    ensures t.rows == KeepMin(old(t.rows))
    ensures removed == RemovedCount(groups) == |old(t.rows)| - |t.rows|
  {
    ghost var orig := t.rows;
    groups := DuplicateGroups(t.rows);
    ghost var dls := DeleteLists(groups);
    DeletePlanHolds(orig);
    var i := 0;
    assert Union(dls[..0]) == {};
    WithoutAbsent(orig, {});
    while i < |groups|
      invariant 0 <= i <= |groups|
      invariant t.Valid()
      invariant t.rows == Without(orig, Union(dls[..i]))
      invariant |t.rows| == |orig| - RemovedCount(groups[..i])
    {
      var g := groups[i];
      GroupStep(orig, groups, dls, i);
      var keepId := MinOf(g.ids);
      var deleteIds := Except(g.ids, keepId);
      GroupIdsPresent(orig, groups, dls, i);
      ghost var mid := t.rows;
      DeleteAll(t, deleteIds);
      AfterGroup(orig, groups, dls, i, mid, t.rows);
      i := i + 1;
    }
    assert groups[..i] == groups;
    LoopEnd(orig, groups, dls, t.rows);
    removed := RemovedCount(groups);
  }

  /** A row that is the smallest id of its key is a row of the table it was kept from. */
  lemma SurvivorKept(rows: seq<Record>, r: Record)
    requires DistinctIds(rows) && r in rows && IsSurvivor(rows, r)
    ensures r in KeepMin(rows)
  {
    forall s | s in rows && !IsSurvivor(rows, s) ensures s.id != r.id {
      var a :| 0 <= a < |rows| && rows[a] == s;
      var b :| 0 <= b < |rows| && rows[b] == r;
      assert a != b;
    }
  }

  lemma KeptIsSurvivor(rows: seq<Record>, r: Record)
    requires r in KeepMin(rows)
    ensures r in rows && IsSurvivor(rows, r)
  {
  }

  /** After the pass every (student_id, date, period) has at most one row. */
  lemma KeepMinUnique(rows: seq<Record>)
    requires DistinctIds(rows)
    ensures DistinctKeys(KeepMin(rows))
  {
    var w := KeepMin(rows);
    SubsequenceKeepsDistinct(rows, NonMinimalIds(rows));
    forall i, j | 0 <= i < j < |w| ensures KeyOf(w[i]) != KeyOf(w[j]) {
      var a, b := w[i], w[j];
      KeptIsSurvivor(rows, a);
      KeptIsSurvivor(rows, b);
      assert KeyOf(a) == KeyOf(b) ==> a.id <= b.id && b.id <= a.id;
      assert a.id != b.id;
    }
  }

  /** Every key of the table survives the pass, on its smallest id. */
  lemma KeepMinKeepsSmallest(rows: seq<Record>, k: Key)
    requires DistinctIds(rows) && HasKey(rows, k)
    ensures exists s :: s in KeepMin(rows) && KeyOf(s) == k && IsSurvivor(rows, s)
  {
    var ids := IdsWithKey(rows, k);
    assert ids != [] by {
      var i :| 0 <= i < |rows| && KeyOf(rows[i]) == k;
      assert HasIdWithKey(rows, k, rows[i].id);
    }
    var m := MinOf(ids);
    var a :| 0 <= a < |rows| && KeyOf(rows[a]) == k && rows[a].id == m;
    forall s | s in rows && KeyOf(s) == k ensures m <= s.id {
      var b :| 0 <= b < |rows| && rows[b] == s;
      assert HasIdWithKey(rows, k, s.id);
    }
    SurvivorKept(rows, rows[a]);
  }

  /** A row whose key is not duplicated is left as it is. */
  lemma KeepMinUntouched(rows: seq<Record>, i: nat)
    requires DistinctIds(rows) && i < |rows| && CountKey(rows, KeyOf(rows[i])) == 1
    ensures rows[i] in KeepMin(rows)
  {
    forall s | s in rows && KeyOf(s) == KeyOf(rows[i]) ensures rows[i].id <= s.id {
      var j :| 0 <= j < |rows| && rows[j] == s;
      if j < i { CountKeyOfTwo(rows, j, i); }
      if i < j { CountKeyOfTwo(rows, i, j); }
    }
    SurvivorKept(rows, rows[i]);
  }

  lemma {:induction false} CountKeyAtMostOne(rows: seq<Record>, k: Key)
    requires DistinctKeys(rows)
    ensures CountKey(rows, k) <= 1
  {
    if rows != [] {
      TailDistinct(rows);
      CountKeyAtMostOne(rows[1..], k);
      if KeyOf(rows[0]) == k {
        assert !HasKey(rows[1..], k) by {
          forall j | 0 <= j < |rows[1..]| ensures KeyOf(rows[1..][j]) != k {
            assert rows[1..][j] == rows[j + 1];
          }
        }
      }
    }
  }

  /** The final query finds no duplicate group in a table whose keys are distinct. */
  lemma NoGroupsWhenDistinct(rows: seq<Record>)
    requires DistinctKeys(rows)
    ensures DuplicateGroups(rows) == []
  {
    forall k ensures CountKey(rows, k) <= 1 {
      CountKeyAtMostOne(rows, k);
    }
  }

  /** Running the pass again removes nothing. */
  lemma KeepMinIdempotent(rows: seq<Record>)
    requires DistinctIds(rows)
    ensures KeepMin(KeepMin(rows)) == KeepMin(rows)
  {
    var w := KeepMin(rows);
    KeepMinUnique(rows);
    SubsequenceKeepsDistinct(rows, NonMinimalIds(rows));
    forall r | r in w ensures IsSurvivor(w, r) {
      var a :| 0 <= a < |w| && w[a] == r;
      forall s | s in w && KeyOf(s) == KeyOf(r) ensures r.id <= s.id {
        var b :| 0 <= b < |w| && w[b] == s;
        assert a == b;
      }
    }
    assert NonMinimalIds(w) == {};
    WithoutAbsent(w, {});
  }

  /** A row of `PRAGMA index_list(attendance)` with the columns `PRAGMA index_info` reports for it. */
  datatype Index = Index(name: string, columns: seq<string>)

  predicate IsKeyIndex(ix: Index) {
    Contains(Lower(ix.name), "unique") && |ix.columns| == 3
  }

  /** The `has_unique` loop. */
  method DetectUnique(indexes: seq<Index>) returns (hasUnique: bool)
    ensures hasUnique <==> exists i :: 0 <= i < |indexes| && IsKeyIndex(indexes[i])
  {
    hasUnique := false;
    var i := 0;
    while i < |indexes|
      invariant 0 <= i <= |indexes|
      invariant forall m :: 0 <= m < i ==> !IsKeyIndex(indexes[m])
    {
      var ix := indexes[i];
      if Contains(Lower(ix.name), "unique") {
        var cols := ix.columns;
        if |cols| == 3 {
          hasUnique := true;
          break;
        }
      }
      i := i + 1;
    }
  }

  /** The AUTOINCREMENT counter of a table filled by copying `rows` with their ids. */
  function NextAfterCopy(rows: seq<Record>): (n: nat)
    ensures forall i :: 0 <= i < |rows| ==> rows[i].id < n
    ensures rows == [] ==> n == 1
    ensures rows != [] ==> exists i :: 0 <= i < |rows| && rows[i].id == n - 1
  {
    var ids := seq(|rows|, i requires 0 <= i < |rows| => rows[i].id);
    assert forall i :: 0 <= i < |rows| ==> ids[i] == rows[i].id;
    NextRowId(ids)
  }

  /**
   * `CREATE TABLE attendance_new (... UNIQUE(student_id, date, period))`, the
   * `INSERT ... SELECT` copy, `DROP TABLE attendance` and the rename. The copy
   * is one statement: a duplicate key makes it fail and nothing is replaced.
   */
  method RebuildWithUnique(t: Table) returns (ok: bool)
    requires t.Valid()
    modifies t
    ensures t.Valid()
    ensures ok <==> DistinctKeys(old(t.rows))
    ensures ok ==> t.rows == old(t.rows) && t.unique && t.nextId == NextAfterCopy(old(t.rows))
    ensures !ok ==> t.rows == old(t.rows) && t.unique == old(t.unique) && t.nextId == old(t.nextId)
  {
    if !DistinctKeys(t.rows) {
      return false;
    }
    var copy := new Table(t.rows, NextAfterCopy(t.rows), true);
    t.rows, t.nextId, t.unique := copy.rows, copy.nextId, copy.unique;
    ok := true;
  }

  /** What the script reports. */
  datatype Report = Report(groups: seq<Group>, removed: int, hadUnique: bool, total: nat, remaining: nat)

  /** `fix_duplicates()`. */
  method FixDuplicates(t: Table, indexes: seq<Index>) returns (report: Report)
    requires t.Valid()
    modifies t
    ensures t.Valid()
    ensures t.rows == KeepMin(old(t.rows))
    ensures report.groups == DuplicateGroups(old(t.rows))
    ensures report.removed == RemovedCount(report.groups) == |old(t.rows)| - |t.rows|
    ensures report.hadUnique <==> exists i :: 0 <= i < |indexes| && IsKeyIndex(indexes[i])
    ensures !report.hadUnique ==> t.unique
    ensures report.hadUnique ==> t.unique == old(t.unique)
    ensures report.total == |t.rows| && report.remaining == 0
  {
    ghost var orig := t.rows;
    var groups, removed := RemoveDuplicates(t);
    KeepMinUnique(orig);
    var hasUnique := DetectUnique(indexes);
    if !hasUnique {
      var ok := RebuildWithUnique(t);
    }
    NoGroupsWhenDistinct(t.rows);
    var remaining := DuplicateGroups(t.rows);
    report := Report(groups, removed, hasUnique, |t.rows|, |remaining|);
  }
}
