/**
 Where the tree walks of tools/nmo-inspect.c write: the rows printed so far and
 the counter rows_written that the walks share and test against --max-rows.
 */
module Report {

  class Sheet<T> {
    var rows: seq<T>
    var rowsWritten: nat

    ghost predicate Valid()
      reads this
    {
      rowsWritten == |rows|
    }

    constructor ()
      ensures Valid() && rows == []
    {
      rows, rowsWritten := [], 0;
    }

    method Print(row: T)
      requires Valid()
      modifies this
      ensures Valid() && rows == old(rows) + [row]
    {
      rows, rowsWritten := rows + [row], rowsWritten + 1;
    }
  }
}
