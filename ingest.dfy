/**
  The sheet-to-records transform of the backend's refresh step: the sheet
  arrives as a ragged grid of strings, one row is chosen as the header row by
  its 1-based number, and every row after it becomes one record holding the
  whitelisted columns only.  `accepts` is the header test; the backend uses
  `Whitelist.HeaderTest`.
*/
module Ingest {
  import opened Wrappers
  import opened Records

  /** One sheet row; rows are ragged, and a missing cell is simply absent. */
  type Row = seq<string>

  type Grid = seq<Row>

  /** `row[index] || ''`: the cell at `index`, or the empty string when the row is too short. */
  function Cell(row: Row, index: nat): (c: string)
    ensures c == "" <==> index >= |row| || row[index] == ""
    ensures c != "" ==> c == row[index]
  {
    if index < |row| then row[index] else ""
  }

  /** The position of the first occurrence of `t` in `hs`. */
  function FirstIndex(hs: seq<string>, t: string): (n: nat)
    requires t in hs
    ensures n < |hs| && hs[n] == t && t !in hs[..n]
    decreases |hs|
  {
    var init := hs[..|hs| - 1];
    if t in init then FirstIndex(init, t) else |hs| - 1
  }

  /** The position of the last occurrence of `t` in `hs`. */
  function LastIndex(hs: seq<string>, t: string): (n: nat)
    requires t in hs
    ensures n < |hs| && hs[n] == t
    ensures forall m | n < m < |hs| :: hs[m] != t
    decreases |hs|
  {
    if hs[|hs| - 1] == t then |hs| - 1 else LastIndex(hs[..|hs| - 1], t)
  }

  /** Dropping a last cell that differs from `t` keeps the last position of `t`. */
  lemma LastIndexBefore(hs: seq<string>, t: string)
    requires hs != [] && t in hs[..|hs| - 1] && hs[|hs| - 1] != t
    ensures LastIndex(hs, t) == LastIndex(hs[..|hs| - 1], t)
  {
  }

  /**
    The keys a record built from `headers` has, in the order the assignments
    first create them: each accepted header cell once, at its first column.
  */
  function Columns(headers: Row, accepts: string -> bool): (ks: seq<string>)
    ensures Distinct(ks)
    ensures forall p | 0 <= p < |ks| :: accepts(ks[p]) && ks[p] in headers
    decreases |headers|
  {
    if headers == [] then []
    else
      var init := headers[..|headers| - 1];
      var h := headers[|headers| - 1];
      var ks := Columns(init, accepts);
      assert forall i | 0 <= i < |init| :: init[i] == headers[i];
      if accepts(h) && h !in ks then ks + [h] else ks
  }

  /** Every accepted header cell is among the keys. */
  lemma {:induction false} ColumnsComplete(headers: Row, accepts: string -> bool, i: nat)
    requires i < |headers| && accepts(headers[i])
    ensures headers[i] in Columns(headers, accepts)
    decreases |headers|
  {
    var init := headers[..|headers| - 1];
    if i < |init| {
      ColumnsComplete(init, accepts, i);
    }
  }

  /** Keys appear in the order of their first column. */
  lemma {:induction false} ColumnsOrdered(headers: Row, accepts: string -> bool)
    ensures forall p, q | 0 <= p < q < |Columns(headers, accepts)| ::
      FirstIndex(headers, Columns(headers, accepts)[p]) < FirstIndex(headers, Columns(headers, accepts)[q])
    decreases |headers|
  {
    if headers != [] {
      var init := headers[..|headers| - 1];
      var h := headers[|headers| - 1];
      ColumnsOrdered(init, accepts);
      var ks, ks' := Columns(init, accepts), Columns(headers, accepts);
      forall t | t in init
        ensures FirstIndex(headers, t) == FirstIndex(init, t)
      {
      }
      if accepts(h) && h !in ks {
        assert ks' == ks + [h];
        if h in init {
          var i :| 0 <= i < |init| && init[i] == h;
          ColumnsComplete(init, accepts, i);
        }
        assert FirstIndex(headers, h) == |init|;
      } else {
        assert ks' == ks;
      }
    }
  }

  /**
    The record that the `headers.forEach` loop has built once it has seen the
    header cells `headers`: each accepted cell `header` at position `index`
    performs `rowData[header] = row[index] || ''`.  Its keys are `Columns`.
  */
  function RecordOf(headers: Row, row: Row, accepts: string -> bool): (r: Record)
    ensures Keys(r) == Columns(headers, accepts)
    ensures DistinctKeys(r)
    decreases |headers|
  {
    if headers == [] then []
    else
      var init := headers[..|headers| - 1];
      var h := headers[|headers| - 1];
      var r := RecordOf(init, row, accepts);
      if accepts(h) then Put(r, h, Cell(row, |init|)) else r
  }

  /** One more header cell is one more step of the loop. */
  lemma RecordOfStep(headers: Row, row: Row, accepts: string -> bool, index: nat)
    requires index < |headers|
    ensures RecordOf(headers[..index + 1], row, accepts)
         == if accepts(headers[index])
            then Put(RecordOf(headers[..index], row, accepts), headers[index], Cell(row, index))
            else RecordOf(headers[..index], row, accepts)
  {
    assert headers[..index + 1][..index] == headers[..index];
  }

  /**
    The `headers.forEach` callback of the backend: for every header cell that
    is non-empty and whitelisted, assign `rowData[header] = row[index] || ''`.
  */
  method BuildRecord(headers: Row, row: Row, accepts: string -> bool) returns (rowData: Record)
    ensures rowData == RecordOf(headers, row, accepts)
  {
    rowData := [];
    var index := 0;
    while index < |headers|
      invariant 0 <= index <= |headers|
      invariant rowData == RecordOf(headers[..index], row, accepts)
    {
      var header := headers[index];
      RecordOfStep(headers, row, accepts, index);
      if accepts(header) {
        rowData := Put(rowData, header, Cell(row, index));
      }
      index := index + 1;
    }
    assert headers[..|headers|] == headers;
  }

  /**
    What a record holds, key by key: an accepted header cell maps to the cell
    under the LAST column carrying that header (or `''` when the row stops
    short of it); any other string is not a key at all.
  */
  lemma {:induction false} RecordGet(headers: Row, row: Row, accepts: string -> bool, k: string)
    ensures Get(RecordOf(headers, row, accepts), k)
         == if k in headers && accepts(k) then Some(Cell(row, LastIndex(headers, k))) else None
    decreases |headers|
  {
    if headers != [] {
      var init := headers[..|headers| - 1];
      var h := headers[|headers| - 1];
      assert headers == init + [h];
      assert k in headers <==> k in init || k == h;
      if k == h {
        assert LastIndex(headers, k) == |init|;
      } else if k in init {
        LastIndexBefore(headers, k);
      }
      RecordGet(init, row, accepts, k);
      if accepts(h) {
        PutGet(RecordOf(init, row, accepts), h, Cell(row, |init|), k);
      }
    }
  }

  /**
    A key is present exactly when some header cell is accepted and equal to
    it: a non-empty raw header text whose trimmed form equals a whitelist
    entry up to case.
  */
  lemma RecordKeyIff(headers: Row, row: Row, accepts: string -> bool, k: string)
    ensures k in Keys(RecordOf(headers, row, accepts)) <==> k in headers && accepts(k)
  {
    RecordGet(headers, row, accepts, k);
  }

  /**
    When several columns carry the same accepted header, the record holds
    the cell of the last of them.
  */
  lemma RecordLastColumnWins(headers: Row, row: Row, accepts: string -> bool, j: nat)
    requires j < |headers| && accepts(headers[j])
    requires forall m | j < m < |headers| :: headers[m] != headers[j]
    ensures Get(RecordOf(headers, row, accepts), headers[j]) == Some(if j < |row| then row[j] else "")
  {
    RecordGet(headers, row, accepts, headers[j]);
    assert LastIndex(headers, headers[j]) == j;
  }

  /** Cells at or beyond the header row's length are never read. */
  lemma {:induction false} RecordIgnoresExtraCells(headers: Row, row: Row, row': Row, accepts: string -> bool)
    requires forall i | 0 <= i < |headers| :: Cell(row, i) == Cell(row', i)
    ensures RecordOf(headers, row, accepts) == RecordOf(headers, row', accepts)
    decreases |headers|
  {
    if headers != [] {
      RecordIgnoresExtraCells(headers[..|headers| - 1], row, row', accepts);
    }
  }

  /** The records built from `dataRows`, one per row, in order. */
  function Transform(headers: Row, dataRows: Grid, accepts: string -> bool): (records: seq<Record>)
    ensures |records| == |dataRows|
  {
    seq(|dataRows|, i requires 0 <= i < |dataRows| => RecordOf(headers, dataRows[i], accepts))
  }

  /** The backend's `dataRows.map(...)`. */
  method MapRows(headers: Row, dataRows: Grid, accepts: string -> bool) returns (records: seq<Record>)
    ensures records == Transform(headers, dataRows, accepts)
  {
    records := [];
    var i := 0;
    while i < |dataRows|
      invariant 0 <= i <= |dataRows|
      invariant records == Transform(headers, dataRows[..i], accepts)
    {
      var rowData := BuildRecord(headers, dataRows[i], accepts);
      assert dataRows[..i + 1] == dataRows[..i] + [dataRows[i]];
      records := records + [rowData];
      i := i + 1;
    }
    assert dataRows[..|dataRows|] == dataRows;
  }

  /**
    What a refresh makes of the fetched sheet, before anything is cached.
    `None` means the refresh stops without touching the cache: the sheet has
    no values, it has fewer rows than the header-row number, or (for a
    header-row number below 1, whose header row `rows[headerRow - 1]` is
    `undefined`) building the first record throws.  Otherwise it is the
    records of every row after the header row.
  */
  function Snapshot(rows: Option<Grid>, headerRow: int, accepts: string -> bool): (s: Option<seq<Record>>)
    ensures headerRow >= 1 ==> (s.None? <==> rows.None? || |rows.value| < headerRow)
    ensures headerRow >= 1 && s.Some? ==> |s.value| == |rows.value| - headerRow
    ensures headerRow < 1 ==> (s.Some? <==> rows == Some([])) && (s.Some? ==> s.value == [])
  {
    if rows.None? || |rows.value| < headerRow then None
    else if headerRow >= 1 then Some(Transform(rows.value[headerRow - 1], rows.value[headerRow..], accepts))
    else if rows.value == [] then Some([])
    else None
  }

  /**
    The shape of a snapshot: one record per row after the header row, in
    order, each built from the header row `rows[headerRow - 1]`, and all
    with the same keys.
  */
  lemma SnapshotShape(rows: Grid, headerRow: int, accepts: string -> bool)
    requires 1 <= headerRow <= |rows|
    ensures var s := Snapshot(Some(rows), headerRow, accepts).value;
      && |s| == |rows| - headerRow
      && (forall i | 0 <= i < |s| :: s[i] == RecordOf(rows[headerRow - 1], rows[headerRow + i], accepts))
      && (forall i | 0 <= i < |s| :: Keys(s[i]) == Columns(rows[headerRow - 1], accepts) && DistinctKeys(s[i]))
  {
  }
}
