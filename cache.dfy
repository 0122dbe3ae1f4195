/**
  The snapshot cache of the backend: a database table `sheet_data` of
  `(id, data)` rows with an AUTOINCREMENT key, replaced by every refresh in
  two separate steps (delete every row, then insert the new text) and read
  by the `/api/data` endpoint, which takes the row with the highest id.
*/
module Cache {
  import opened Wrappers
  import opened Records
  import opened Ingest
  import Json
  import Whitelist

  datatype TableRow = TableRow(id: nat, data: string)

  /** The outcome of the endpoint's `SELECT`: a database error, no row, or the row's `data`. */
  datatype DbGet = DbError | NoRow | Found(data: string)

  /**
    What the endpoint answers: 200 with the parsed snapshot, 404, 500, or
    (`Unparsable`) a stored text that `JSON.parse` throws on.
  */
  datatype Response = Ok(body: seq<Record>) | NotFound | ServerError | Unparsable

  predicate IdsIncreasing(rows: seq<TableRow>) {
    forall p, q | 0 <= p < q < |rows| :: rows[p].id < rows[q].id
  }

  /** The position of a row with the highest id. */
  function NewestIndex(rows: seq<TableRow>): (p: nat)
    requires rows != []
    ensures p < |rows| && forall q | 0 <= q < |rows| :: rows[q].id <= rows[p].id
    decreases |rows|
  {
    if |rows| == 1 then 0
    else
      var p := NewestIndex(rows[..|rows| - 1]);
      assert forall q | 0 <= q < |rows| - 1 :: rows[..|rows| - 1][q] == rows[q];
      if rows[|rows| - 1].id > rows[p].id then |rows| - 1 else p
  }

  /** `SELECT data FROM sheet_data ORDER BY id DESC LIMIT 1` on a table that answers. */
  function Newest(rows: seq<TableRow>): (g: DbGet)
    ensures g.NoRow? <==> rows == []
    ensures g.Found? <==> rows != []
    ensures g.Found? ==> exists p | 0 <= p < |rows| ::
      rows[p].data == g.data && forall q | 0 <= q < |rows| :: rows[q].id <= rows[p].id
  {
    if rows == [] then NoRow else Found(rows[NewestIndex(rows)].data)
  }

  /** With ids in insertion order, the newest row is the last one inserted. */
  lemma NewestIsLast(rows: seq<TableRow>)
    requires rows != [] && IdsIncreasing(rows)
    ensures Newest(rows) == Found(rows[|rows| - 1].data)
  {
  }

  /**
    The endpoint's answer: a database error is a 500; a row whose `data` is
    a non-empty text is a 200 with `JSON.parse` of it; no row, or an empty
    text, is a 404.
  */
  function Classify(g: DbGet): (r: Response)
    ensures r.ServerError? <==> g.DbError?
    ensures r.NotFound? <==> g.NoRow? || g == Found([])
    ensures r.Ok? <==> g.Found? && g.data != [] && Json.Parse(g.data).Some?
    ensures r.Ok? ==> Json.Parse(g.data) == Some(r.body)
  {
    match g
    case DbError => ServerError
    case NoRow => NotFound
    case Found(d) =>
      if d == [] then NotFound
      else
        match Json.Parse(d)
        case Some(v) => Ok(v)
        case None => Unparsable
  }

  /** The `sheet_data` table and its AUTOINCREMENT counter. */
  class SnapshotTable {
    var rows: seq<TableRow>
    /** The id the next insert receives. */
    var nextId: nat

    ghost predicate Valid()
      reads this
    {
      nextId >= 1 && IdsIncreasing(rows) && forall p | 0 <= p < |rows| :: rows[p].id < nextId
    }

    /** `CREATE TABLE IF NOT EXISTS sheet_data (...)` on a fresh database. */
    constructor()
      ensures Valid() && rows == [] && nextId == 1
    {
      rows := [];
      nextId := 1;
    }

    /** `DELETE FROM sheet_data`; when it fails, the table is as it was. */
    method DeleteAll(fails: bool)
      requires Valid()
      modifies this
      ensures Valid()
      ensures rows == (if fails then old(rows) else []) && nextId == old(nextId)
      ensures !fails ==> Classify(Newest(rows)) == NotFound
    {
      if !fails {
        rows := [];
      }
    }

    /** `INSERT INTO sheet_data (data) VALUES (?)`: the new row takes the next id. */
    method Insert(data: string, fails: bool) returns (ok: bool)
      requires Valid()
      modifies this
      ensures Valid() && ok == !fails
      ensures ok ==> rows == old(rows) + [TableRow(old(nextId), data)] && nextId == old(nextId) + 1
      ensures !ok ==> rows == old(rows) && nextId == old(nextId)
    {
      if fails {
        return false;
      }
      rows := rows + [TableRow(nextId, data)];
      nextId := nextId + 1;
      return true;
    }

    /** The endpoint's `SELECT`; `fails` stands for a database error. */
    method Read(fails: bool) returns (g: DbGet)
      ensures fails ==> g == DbError
      ensures !fails ==> g == Newest(rows)
    {
      if fails {
        return DbError;
      }
      return Newest(rows);
    }
  }

  /**
    After the text of a snapshot has been inserted, the endpoint answers 200
    with exactly that snapshot, whatever rows an earlier failed delete left
    behind: the new row has the highest id.
  */
  lemma ServedAfterInsert(rows: seq<TableRow>, id: nat, s: seq<Record>)
    requires IdsIncreasing(rows) && forall p | 0 <= p < |rows| :: rows[p].id < id
    requires forall i | 0 <= i < |s| :: DistinctKeys(s[i])
    ensures Classify(Newest(rows + [TableRow(id, Json.Stringify(s))])) == Ok(s)
  {
    var rows' := rows + [TableRow(id, Json.Stringify(s))];
    NewestIsLast(rows');
    Json.RoundTrip(s);
    assert Json.Stringify(s)[0] == '[';
  }

  /** Every record of a snapshot has distinct keys, as every JavaScript object does. */
  lemma SnapshotDistinct(rows: Option<Grid>, headerRow: int, accepts: string -> bool)
    requires Snapshot(rows, headerRow, accepts).Some?
    ensures var s := Snapshot(rows, headerRow, accepts).value;
      forall i | 0 <= i < |s| :: DistinctKeys(s[i])
  {
    if headerRow >= 1 {
      SnapshotShape(rows.value, headerRow, accepts);
    }
  }

  /** The result of the Sheets request: an error, or the response's `values`, which may be absent. */
  datatype Fetch = FetchFailed | Fetched(values: Option<Grid>)

  /**
    One run of `pollAndCacheData`.  A failed fetch, too few rows or a failed
    record build stop it before the cache is touched.  Otherwise the records
    are stringified and the table is replaced in two steps: the delete, whose
    error is ignored, and then the insert.  Nothing makes the two steps one:
    a read between them sees the delete only.
  */
  method Refresh(table: SnapshotTable, fetch: Fetch, headerRow: int, deleteFails: bool, insertFails: bool)
    requires table.Valid()
    modifies table
    ensures table.Valid()
    ensures fetch.FetchFailed? || Snapshot(fetch.values, headerRow, Whitelist.HeaderTest).None? ==>
      table.rows == old(table.rows) && table.nextId == old(table.nextId)
    ensures fetch.Fetched? && Snapshot(fetch.values, headerRow, Whitelist.HeaderTest).Some? ==>
      var s := Snapshot(fetch.values, headerRow, Whitelist.HeaderTest).value;
      && table.rows == (if deleteFails then old(table.rows) else [])
                     + (if insertFails then [] else [TableRow(old(table.nextId), Json.Stringify(s))])
      && table.nextId == old(table.nextId) + (if insertFails then 0 else 1)
      && (!insertFails ==> Classify(Newest(table.rows)) == Ok(s))
      && (insertFails && !deleteFails ==> Classify(Newest(table.rows)) == NotFound)
  {
    if fetch.FetchFailed? {
      return;
    }
    var rows := fetch.values;
    if rows.None? || |rows.value| < headerRow {
      return;
    }
    var records: seq<Record>;
    if headerRow >= 1 {
      var headers := rows.value[headerRow - 1];
      var dataRows := rows.value[headerRow..];
      records := MapRows(headers, dataRows, Whitelist.HeaderTest);
    } else if rows.value == [] {
      // The header row is `undefined`, but `map` over no rows never reads it.
      records := [];
    } else {
      // `headers.forEach` on `undefined` throws; the refresh only logs it.
      return;
    }
    assert Snapshot(rows, headerRow, Whitelist.HeaderTest) == Some(records);
    SnapshotDistinct(rows, headerRow, Whitelist.HeaderTest);
    var text := Json.Stringify(records);
    ghost var before, id := table.rows, table.nextId;
    table.DeleteAll(deleteFails);
    var ok := table.Insert(text, insertFails);
    ReplaceOutcome(before, id, records, deleteFails, insertFails);
  }

  /**
    What the endpoint answers once both steps of a replace have run: the new
    snapshot when the insert succeeded (even if the delete failed), and 404
    when the delete succeeded and the insert failed.
  */
  lemma ReplaceOutcome(before: seq<TableRow>, id: nat, s: seq<Record>, deleteFails: bool, insertFails: bool)
    requires IdsIncreasing(before) && forall p | 0 <= p < |before| :: before[p].id < id
    requires forall i | 0 <= i < |s| :: DistinctKeys(s[i])
    ensures var after := (if deleteFails then before else [])
                       + (if insertFails then [] else [TableRow(id, Json.Stringify(s))]);
      && (!insertFails ==> Classify(Newest(after)) == Ok(s))
      && (insertFails && !deleteFails ==> Classify(Newest(after)) == NotFound)
  {
    if !insertFails {
      ServedAfterInsert(if deleteFails then before else [], id, s);
    }
  }
}
