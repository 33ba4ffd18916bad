/** The ids SQLite gives new rows. */
module RowIds {

  /**
   * One more than the largest id present, 1 for an empty table: the rowid
   * SQLite picks for an INTEGER PRIMARY KEY when the insert names none, and
   * the AUTOINCREMENT counter after a copy that keeps the ids.
   */
  function NextRowId(ids: seq<nat>): (n: nat)
    ensures forall i :: 0 <= i < |ids| ==> ids[i] < n
    ensures ids == [] ==> n == 1
    ensures ids != [] ==> exists i :: 0 <= i < |ids| && ids[i] == n - 1
  {
    if ids == [] then 1
    else
      var rest := NextRowId(ids[..|ids| - 1]);
      var last := ids[|ids| - 1];
      assert forall i :: 0 <= i < |ids| - 1 ==> ids[i] == ids[..|ids| - 1][i];
      if last + 1 >= rest then last + 1
      else
        var i :| 0 <= i < |ids| - 1 && ids[..|ids| - 1][i] == rest - 1;
        assert ids[i] == rest - 1;
        rest
  }
}
