/**
  The frontend's table: once the `/api/data` response arrives, one text
  column per key of the first record, and the records as the rows.
*/
module Grid {
  import opened Wrappers
  import opened Records
  import opened Ingest
  import Cache
  import Whitelist

  /** The options object of one grid column. */
  datatype ColumnDef = ColumnDef(
    headerName: string,
    field: string,
    sortable: bool,
    filter: string,
    floatingFilter: bool,
    resizable: bool)

  /** A sortable, resizable column with a text filter and a floating filter, titled by its key. */
  predicate IsTextColumn(c: ColumnDef, key: string) {
    && c.headerName == key && c.field == key
    && c.sortable && c.filter == "agTextColumnFilter" && c.floatingFilter && c.resizable
  }

  /** The fields the columns display, in column order. */
  function Fields(defs: seq<ColumnDef>): seq<string> {
    seq(|defs|, i requires 0 <= i < |defs| => defs[i].field)
  }

  /** `Object.keys(data[0]).map(header => ({...}))`. */
  function ColumnDefsFor(first: Record): (defs: seq<ColumnDef>)
    ensures |defs| == |Keys(first)| && Fields(defs) == Keys(first)
    ensures forall i | 0 <= i < |defs| :: IsTextColumn(defs[i], Keys(first)[i])
  {
    var headers := Keys(first);
    seq(|headers|, i requires 0 <= i < |headers| =>
      ColumnDef(headers[i], headers[i], true, "agTextColumnFilter", true, true))
  }

  /** The component's state: `rowData` and `columnDefs`. */
  class GridView {
    var rowData: seq<Record>
    var columnDefs: seq<ColumnDef>

    /** Both pieces of state start as `[]`. */
    constructor()
      ensures rowData == [] && columnDefs == []
    {
      rowData := [];
      columnDefs := [];
    }

    /**
      The `.then` callback of the request.  Only a 200 reaches it (any other
      answer goes to `.catch`, which only logs), and it sets both pieces of
      state only when the body is a non-empty array; the rows are the body
      unchanged.
    */
    method OnResponse(resp: Cache.Response)
      modifies this
      ensures resp.Ok? && |resp.body| > 0 ==>
        columnDefs == ColumnDefsFor(resp.body[0]) && rowData == resp.body
      ensures !(resp.Ok? && |resp.body| > 0) ==>
        columnDefs == old(columnDefs) && rowData == old(rowData)
    {
      if resp.Ok? {
        var data := resp.body;
        if |data| > 0 {
          var colDefs := ColumnDefsFor(data[0]);
          columnDefs := colDefs;
          rowData := data;
        }
      }
    }
  }

  /**
    The columns derived from the first record are the whitelisted header
    cells of the sheet's header row (each once, in first-column order), and
    every record has exactly those keys in that order: each row has a value
    for each column and nothing the grid does not show.
  */
  lemma ColumnsFitEveryRecord(rows: seq<Row>, headerRow: int)
    requires Snapshot(Some(rows), headerRow, Whitelist.HeaderTest).Some?
    requires |Snapshot(Some(rows), headerRow, Whitelist.HeaderTest).value| > 0
    ensures headerRow >= 1
    ensures var s := Snapshot(Some(rows), headerRow, Whitelist.HeaderTest).value;
      var fields := Fields(ColumnDefsFor(s[0]));
      && fields == Columns(rows[headerRow - 1], Whitelist.HeaderTest)
      && forall i | 0 <= i < |s| :: Keys(s[i]) == fields
  {
    SnapshotShape(rows, headerRow, Whitelist.HeaderTest);
  }
}
