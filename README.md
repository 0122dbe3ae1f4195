# Sheet cache: a Dafny model

The system mirrors a Google Sheet into a local cache and shows it in a
browser grid. This project models and proves the parts of it that carry
logic:

- **the ingestion step** of the backend's periodic refresh
  (`pollAndCacheData`):
  - one row of the fetched grid is chosen as the header row by its 1-based
    number;
  - only columns whose header passes the whitelist test are kept;
  - every later row becomes one record. A record is a JavaScript object,
    modelled as its ordered (key, value) pairs.
- **the whitelist test**:
  - the regular expression `^\s*(e1|...|e11)\s*$` with the `i` flag, over
    the eleven Vietnamese column names;
  - it is modelled once as the regex means it (`RegexMatches`) and once as
    "trim, then compare case-insensitively" (`AcceptsIn`), with a proof
    that the two agree on the whitelist.
- **the JSON text** the backend stores (`JSON.stringify`) and reads back
  (`JSON.parse`), with a round-trip proof.
- **the snapshot cache**:
  - a `sheet_data` table of `(id, data)` rows with an AUTOINCREMENT counter;
  - the refresh replaces it in two separate steps, `DELETE` and then
    `INSERT`;
  - the `/api/data` read takes the row with the highest id and answers
    200, 404 or 500.
- **the frontend's column derivation**: one text column per key of the first
  record, applied only to a non-empty response.

Modules:

- `Wrappers`: `Option`.
- `Whitelist`: `\s`, case canonicalisation, trimming, the two forms of the
  test and their equivalence, the fixed whitelist.
- `Records`: records, property lookup `Get`, property assignment `Put`.
- `Ingest`:
  - the header-cell loop `BuildRecord`, proved against `RecordOf`;
  - the row loop `MapRows`, proved against `Transform`;
  - the refresh's outcome before caching, `Snapshot`.
- `Json`: `Stringify`, `Parse`, and the round trip.
- `Cache`:
  - the `SnapshotTable` class (`DeleteAll`, `Insert`, `Read`);
  - the read classification `Classify`;
  - one whole refresh, `Refresh`.
- `Grid`: `ColumnDefsFor` and the `GridView` class holding `rowData` and
  `columnDefs`.

`Ingest` takes the header test as a parameter `accepts`. The backend's
test is `Whitelist.HeaderTest`, which `Cache.Refresh` passes.

Points where the code behaves differently from what one might expect of
such a system. The model follows the code in each case.

- **Replace is not atomic.**
  - The delete and the insert are two statements.
  - A read between them finds no row and answers 404.
  - A failed insert after a successful delete leaves the table empty: 404
    until the next refresh (`Cache.ReplaceOutcome`).
  - A failed delete is ignored and the insert still runs. The newest row
    then still wins, so the new snapshot is served (`Cache.ServedAfterInsert`).
- **Refreshes can overlap.** `setInterval` does not wait for a refresh to
  finish, and the model claims nothing about overlapping runs.
- **Trimming only.** The whitelist test trims surrounding `\s` and folds
  case character by character. It does not normalise Unicode.
  - Two entries, 'link ảnh chỉ căn' and 'loại quỹ', are spelled in the
    source with combining marks (U+0309, U+0323, U+0303).
  - So the same words typed with precomposed letters are rejected
    (`Whitelist.PrecomposedLoaiQuyRejected`).
- **Header-row numbers below 1.** `parseInt(...) || 1` lets negative
  numbers through.
  - The header row `rows[H-1]` is then `undefined`.
  - Building the first record throws, and the refresh's `catch` only logs.
  - When there are no rows at all, nothing is read and `[]` is cached.
  - `Ingest.Snapshot` models all of this for every integer `H`.
- **Stored key.** The key stored is the raw header text, untrimmed.
- **Duplicate headers.** When two accepted columns carry the same header,
  the record holds one key, with the cell of the last such column.

## Model

| member | source | states |
|---|---|---|
| Whitelist.AcceptsInIffRegex | backend/src/index.js:20-21 | for entries that neither start nor end with whitespace, "trimmed header equals an entry up to case" holds exactly when the anchored `^\s*(…)\s*$`/i alternation matches (both directions) |
| Whitelist.AcceptsIffRegex | backend/src/index.js:16-21 | with the fixed whitelist, `Accepts`, and so the backend's `HeaderTest`, is exactly `header != '' && regexPattern.test(header)` |
| Whitelist.Accepts | backend/src/index.js:57 | `header && regexPattern.test(header)`, the test every header cell gets (the constant `HeaderTest` fixes `allowed` to the whitelist): a cell passes exactly when it is non-empty and its trimmed form equals some entry up to case; `Whitelist.AcceptsIffRegex` ties it to the pattern |
| Whitelist.RegexMatches | backend/src/index.js:21 | the pattern `^\s*(…)\s*$`/i over the eleven alternatives: leading `\s`, a part equal to an entry up to case, trailing `\s`; a match needs an entry no longer than the header; `Whitelist.AcceptsInIffRegex` is its partner |
| Whitelist.IsSpace | backend/src/index.js:21 | the `\s` class of the pattern, JavaScript's WhiteSpace and LineTerminator characters; `Whitelist.CanonFixesSpace` states that none of them has a case |
| Whitelist.Canon | backend/src/index.js:21 | the `i` flag's character canonicalisation: a character outside ASCII never becomes ASCII; `Whitelist.CanonIdempotent` and `Whitelist.AllowedColumnsInCaseTable` state the rest |
| Whitelist.CanonIdempotent | backend/src/index.js:21 | canonicalising a canonical form changes nothing |
| Whitelist.AllowedColumnsWellFormed | backend/src/index.js:16-19 | every whitelist entry is non-empty and neither starts nor ends with a `\s` character, even up to case |
| Whitelist.AllowedColumnsInCaseTable | backend/src/index.js:16-18 | every character of every entry of the constant `AllowedColumns` is one whose canonical form `Canon` gives as JavaScript does |
| Whitelist.AcceptsInSome | backend/src/index.js:21 | trying the alternatives in order succeeds exactly when some entry equals the trimmed header up to case |
| Whitelist.TrimStart | backend/src/index.js:21 | the result is a suffix of the header, everything removed is `\s`, and the result does not start with `\s` |
| Whitelist.TrimEnd | backend/src/index.js:21 | the result is a prefix, everything removed is `\s`, and the result does not end with `\s` |
| Whitelist.TrimAround | backend/src/index.js:21 | a header made of whitespace, a part that starts and ends with non-whitespace, and whitespace trims to exactly that part |
| Whitelist.MatchedPartIsTrim | backend/src/index.js:21 | the part of a header that the alternation matches is the trimmed header |
| Whitelist.CanonFixesSpace | backend/src/index.js:21 | case canonicalisation leaves `\s` characters unchanged |
| Whitelist.PaddedUpperCaseAccepted | backend/src/index.js:21 | " TÒA" followed by a tab passes the test; surrounding whitespace and case are ignored |
| Whitelist.PrecomposedLoaiQuyRejected | backend/src/index.js:18 | 'loại quỹ' typed with precomposed letters fails the test, because the entry is spelled with combining marks |
| Whitelist.OtherColumnRejected | backend/src/index.js:16-21 | a header that is not in the whitelist ('Ghi chú') fails the test |
| Records.Get | backend/src/index.js:58 | lookup of a key is absent exactly when the key is not among the record's keys |
| Records.Put | backend/src/index.js:58 | assignment keeps the key order and adds a new key at the end, and it keeps keys distinct |
| Records.PutGet | backend/src/index.js:58 | after `r[k] = v`, `r[k]` is `v` and every other key reads as before |
| Records.PutFresh | backend/src/index.js:58 | assigning a key that is not present appends the pair |
| Records.PutExisting | backend/src/index.js:58 | assigning a present key replaces its value in place and changes nothing else |
| Records.GetAt | backend/src/index.js:58 | in a record with distinct keys, lookup of each pair's key finds that pair's value |
| Records.Keys | frontend/src/App.jsx:19 | `Object.keys`: the keys in insertion order; `Records.Put` states how assignment extends it and `Grid.ColumnDefsFor` uses it |
| Ingest.Columns | backend/src/index.js:56-58 | the keys a record gets are distinct, accepted by the header test, and header cells |
| Ingest.Cell | backend/src/index.js:58 | `row[index]` with `''` as the fallback: the result is `''` exactly when the cell is missing or empty, and otherwise the cell; `Ingest.RecordGet` states it per key |
| Ingest.ColumnsComplete | backend/src/index.js:56-58 | every accepted header cell becomes a key |
| Ingest.ColumnsOrdered | backend/src/index.js:56-58 | keys are ordered by the column where each header first occurs |
| Ingest.RecordOf | backend/src/index.js:55-61 | the record's keys are exactly `Columns` of the header row, with no key twice |
| Ingest.BuildRecord | backend/src/index.js:55-61 | the `headers.forEach` loop builds exactly `RecordOf(headers, row)` |
| Ingest.RecordGet | backend/src/index.js:56-58 | an accepted header maps to the cell under the last column carrying it, or `''` when the row is shorter; any other string is absent |
| Ingest.RecordKeyIff | backend/src/index.js:57 | a string is a key exactly when it is a header cell that passes the test |
| Ingest.RecordLastColumnWins | backend/src/index.js:56-58 | with a repeated accepted header, the value is the cell of its last column, or `''` past the row's end |
| Ingest.RecordIgnoresExtraCells | backend/src/index.js:56-58 | cells beyond the header row's length never affect the record |
| Ingest.LastIndexBefore | backend/src/index.js:56-58 | dropping a final different header cell keeps the last position of a header |
| Ingest.Transform | backend/src/index.js:54-62 | there is one record per data row |
| Ingest.MapRows | backend/src/index.js:54-62 | the `dataRows.map` loop computes `Transform`, one `BuildRecord` per row in order |
| Ingest.Snapshot | backend/src/index.js:45-54 | for `H >= 1`, the refresh stops exactly when the values are absent or fewer than `H`, and otherwise yields `rows.length - H` records; for `H < 1`, it yields `[]` exactly when there are no rows |
| Ingest.SnapshotShape | backend/src/index.js:50-62 | record `i` is built from header row `rows[H-1]` and row `rows[H+i]`, and every record has the same keys, `Columns(rows[H-1])` |
| Json.Stringify | backend/src/index.js:64 | `JSON.stringify(filteredData)`: an array literal, `[]` exactly for no records; `Json.RoundTrip` is its partner |
| Json.Parse | backend/src/index.js:81 | `JSON.parse(row.data)` for arrays of objects with string values: a text that parses starts, after whitespace, with `[`, so the empty text does not; `Json.RoundTrip` is its partner |
| Json.RoundTrip | backend/src/index.js:64 | `JSON.parse(JSON.stringify(records))` returns the records, keys in order, when no record repeats a key |
| Json.RecordRoundTrip | backend/src/index.js:64 | one stringified object parses back to itself, whatever text follows it |
| Json.QuoteRoundTrip | backend/src/index.js:64 | one stringified string parses back to itself, whatever text follows it |
| Json.EscapeCharRoundTrip | backend/src/index.js:64 | each character's escape, as `JSON.stringify` writes it, reads back as that character |
| Json.HexDigit | backend/src/index.js:64 | the lower-case hex digit written for `d` reads back as `d` |
| Cache.NewestIndex | backend/src/index.js:79 | the chosen row has an id no smaller than any other row's |
| Cache.Newest | backend/src/index.js:79 | `ORDER BY id DESC LIMIT 1` on a working database gives no row exactly on an empty table, a found row exactly on a non-empty one (never an error), and the data of a row with the highest id |
| Cache.NewestIsLast | backend/src/index.js:29 | with AUTOINCREMENT ids, the newest row is the last one inserted |
| Cache.Classify | backend/src/index.js:80-82 | a DB error gives 500; no row or empty data gives 404; 200 exactly when the data is non-empty and parses, with the parsed body |
| Cache.SnapshotTable.constructor | backend/src/index.js:29 | a new table is empty and its next id is 1 |
| Cache.SnapshotTable.DeleteAll | backend/src/index.js:66 | the table is emptied unless the delete fails, the counter is unchanged, and an emptied table reads as 404 |
| Cache.SnapshotTable.Insert | backend/src/index.js:67 | on success, the text is appended under the next id and the counter advances; on failure, nothing changes |
| Cache.SnapshotTable.Read | backend/src/index.js:79-80 | the read is a DB error exactly when it fails; otherwise it is `Newest` of the table, so a table with rows gives the data of its highest-id row and an empty one gives no row |
| Cache.ServedAfterInsert | backend/src/index.js:67-81 | after the insert of a snapshot's text, the endpoint answers 200 with that snapshot, whatever older rows remain |
| Cache.ReplaceOutcome | backend/src/index.js:66-71 | after both steps: the new snapshot is served if the insert succeeded, and 404 if the delete succeeded but the insert failed |
| Cache.SnapshotDistinct | backend/src/index.js:54-61 | every record of a snapshot has distinct keys |
| Cache.Refresh | backend/src/index.js:45-71 | a failed fetch or a stopped refresh leaves the table and its counter unchanged; otherwise the table becomes the old rows (if the delete failed) plus the new text under the next id (if the insert succeeded), the counter advances exactly when the insert succeeds, and the read outcome is as above |
| Grid.ColumnDefsFor | frontend/src/App.jsx:19-28 | one column per key of the first record, in key order, each titled and keyed by its key, sortable, text-filtered with a floating filter, and resizable |
| Grid.GridView.constructor | frontend/src/App.jsx:9-10 | `rowData` and `columnDefs` start as `[]` |
| Grid.GridView.OnResponse | frontend/src/App.jsx:17-31 | for a 200 with a non-empty array, the columns come from its first record and the rows are the body unchanged; otherwise both stay as they were |
| Grid.ColumnsFitEveryRecord | frontend/src/App.jsx:19 | the grid's fields are the whitelisted header cells of the sheet's header row, and every record has exactly those keys in that order |

## Left out

- Google Sheets authentication and the values request
  (backend/src/index.js:36-43) call a foreign service. Their result is the
  input `Cache.Fetch`.
- SQLite opening and table creation are not modelled. The table is
  `Cache.SnapshotTable`, a new one starting empty.
- The asynchronous callbacks are not modelled: `Cache.Refresh` runs its
  steps in order, and a database error is a boolean parameter.
- Express routing, CORS, `app.listen` and `setInterval` are transport and
  timers. Overlapping refreshes, and reads that interleave with a refresh,
  are not modelled. The state between the two replace steps is described by
  `Cache.SnapshotTable.DeleteAll`'s contract.
- The parsing of `HEADER_ROW_NUMBER` from the environment is not modelled.
  The header-row number is an integer parameter.
- Logging has no observable effect.
- The axios request, React hooks, AgGrid rendering, CSS and `defaultColDef`
  are UI and network. `Grid.GridView.OnResponse` receives the response.
- Grid.GridView.OnResponse receives the parsed body of `Cache.Response`
  directly. The server serialises it again with `res.json(...)`
  (backend/src/index.js:81) and axios parses that text again. The model
  treats this second serialisation as the identity, which `Json.RoundTrip`
  justifies, because every record has distinct keys.
- Whitelist.Canon: the case table covers ASCII, Latin-1 except µ, and the
  Vietnamese letters. Every other character is treated as its own canonical
  form, which is weaker than JavaScript's full `toUpperCase`-based
  canonicalisation (JavaScript maps µ, U+00B5, to U+039C, for example).
  - The gap does not change which headers pass.
  - No entry contains a character outside the table
    (`Whitelist.AllowedColumnsInCaseTable`).
  - For those characters, the only characters JavaScript canonicalises to the
    same form are their case partners, which the table has.
  - Letters outside ASCII whose upper case is ASCII (ſ, ı) keep their own
    form under JavaScript's rule, and the model keeps it too.
  - This last argument is about JavaScript's case tables and is not proved.
- Whitelist.AcceptsIn: the regex-escaping at line 20 changes no entry, since
  none contains a metacharacter, so the entries are compared as written.
- Json.Parse:
  - it models `JSON.parse` only for arrays of objects whose values are
    strings, which is all the backend stores;
  - other JSON values, and `\u` escapes of UTF-16 surrogates, give `None`,
    although `JSON.parse` accepts them.
- Cache.Classify: `Unparsable` stands for a stored text on which `JSON.parse`
  throws, where the server would throw inside a database callback.
  - The model also answers `Unparsable` for valid JSON outside the modelled
    shape (`null`, `[1]`, `{"a":1}`, surrogate escapes).
  - The server would answer 200 with such a value.
  - The backend never stores either kind, since `Cache.Refresh` only inserts
    `Json.Stringify` output (`Cache.ServedAfterInsert`).
- Json.Stringify has no lone-surrogate escaping, because a Dafny `char` is
  a Unicode scalar value.
- Records.Put: JavaScript lists array-index-like keys first. Every accepted
  key contains letters, so this ordering rule never applies. It is not
  modelled.
- Ingest.Cell: sheet cells are strings. `row[index] || ''` maps both a
  missing cell and an empty cell to `''`.
