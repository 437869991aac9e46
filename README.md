# QueryXplorer CSV query engine, in Dafny

QueryXplorer is a browser SQL playground over CSV-backed tables. Its only
logic beyond rendering is `src/utils/csvUtils.ts`, and this project models
that file:

- **`parseCSV`**: a naive CSV splitter. The first `\n`-separated line gives
  the headers. Every later non-blank line gives a row. Both are split on `,`
  and every piece is trimmed. Rows are written into a pre-allocated sparse
  array in chunks of 100 lines, and the holes are then filtered out.
- **The table cache**: a `Map` from table name to
  `{data, timestamp, lastAccessed}`, holding at most 5 tables.
  - `loadCSV` refreshes `lastAccessed` on a hit.
  - On a miss it fetches `/<table>.csv`, parses it, and evicts the entry
    with the smallest `lastAccessed` when the cache is full. It then inserts
    the new table.
  - `clearCache` empties the cache, and `getCacheStats` reports on it.
- **`executeQuery`**: lowercases the query and takes the table name from
  the first match of `/from\s+(\w+)/i`. It refuses names outside an
  8-table allow-list, loads the table, and re-maps every row through
  `headers.indexOf(col)` for each header.

Files and modules:

| file | module | models |
|---|---|---|
| `results.dfy` | `Results` | `Option` and `Result` for `undefined` and thrown errors |
| `jsstring.dfy` | `JsString` | the ECMAScript primitives the code relies on: `split` with one separator character, `trim`, `toLowerCase`, `indexOf`, and the regex classes `\s` and `\w` |
| `csvparse.dfy` | `CsvParse` | `parseCSV`: the method `ParseCSV` keeps the source's chunked loop over a pre-allocated array, and is proved equal to the function `Parse` |
| `tablecache.dfy` | `TableCache` | the cache as a class `Cache` whose field `entries` is the `Map` in insertion order, plus the eviction scan `FindOldest`; the method `LoadCSV` is proved equal to the function `LoadSpec` on the cache before the call |
| `query.dfy` | `Query` | the regular expression, the allow-list, the row re-mapping `Project`, and `ExecuteQuery` (a method on the cache, proved equal to `QuerySpec`) |

Two inputs of the source are replaced with parameters:

- **The fetch.** `Fetched` is `NotOk` (the response is not ok), `Threw(message)`
  (`fetch` or `response.text()` threw), or `Body(text)`.
- **The clock.** `Date.now()` is two integers. `now` is the first read of a
  call: the hit's new `lastAccessed` (line 51) or the miss's `timestamp`
  (line 79). `nowAgain` is the second read, the miss's `lastAccessed` (line 80).

## What the code does, where a SQL engine would do more

The model follows the code in each of these cases.

- There are no column lists, no WHERE (comparisons, LIKE, IN) and no
  LIMIT. Whatever the query says, `selectedColumns` is always
  `data.headers` (src/utils/csvUtils.ts:129), every row is returned, and
  no query fails for naming an unknown column. The model adds none of these.
- Headers need not be unique, and a row need not have one cell per header.
  The parser enforces neither.
  - `RowLength` shows that a row has one more cell than its line has commas.
  - In the query result, duplicate headers repeat the first such column
    (`ProjectDuplicateHeaders`).
  - Long rows are cut to the headers, and short rows get `undefined` cells
    (`ProjectDistinctHeaders`).
- The code raises three failures of its own. Each is a plain `Error`, told
  apart only by its message, and the model gives each message its own
  constructor:
  - `No table specified in query` (line 116): `NoTableSpecified`
  - `Invalid table name: "<name>"` (line 123): `InvalidTableName(name)`
  - `Failed to load <table>.csv` when the response is not ok (line 58):
    `FailedToLoad(table)`
- Anything `fetch` or `response.text()` throws is rethrown as it is, whatever
  its type (a `TypeError` on a network failure, an `AbortError` on an
  abort; lines 84-86). The model keeps only its message, as
  `Rethrown(message)`; see "Left out".
- A query has "no FROM clause" when no `from` followed by whitespace and a
  word occurs anywhere in the lowercased query. The `from` may sit inside
  a word (`wherefrom orders` names `orders`). `from` with nothing after it
  names no table.
- A cached table is not copied: the code returns the stored object itself
  (line 52); see "Left out".

## Model

| member | source | states |
|---|---|---|
| `JsString.Split` | src/utils/csvUtils.ts:19-20 | `split` with a one-character separator gives at least one piece, and no piece contains the separator |
| `JsString.SplitLength` | src/utils/csvUtils.ts:19-20 | `split` gives exactly one more piece than the text has separators, so the empty text gives one piece |
| `JsString.JoinSplit` | src/utils/csvUtils.ts:19-20 | joining the pieces of `split` with the separator gives back the original text |
| `JsString.SplitJoin` | src/utils/csvUtils.ts:19-20 | splitting a join of separator-free pieces gives back the pieces, so no information is lost in either direction |
| `JsString.Trim` | src/utils/csvUtils.ts:20 | `trim` returns text that neither starts nor ends with ECMAScript whitespace, and it is empty exactly when the input is all whitespace |
| `JsString.LeadingRun` | src/utils/csvUtils.ts:20 | the leading run `trim` strips is all whitespace |
| `JsString.TrailingRun` | src/utils/csvUtils.ts:20 | the trailing run `trim` strips is all whitespace |
| `JsString.TrimIsSlice` | src/utils/csvUtils.ts:20 | `trim` only removes a run of whitespace from each end: the input is that run, the result, then another run |
| `JsString.TrimIdempotent` | src/utils/csvUtils.ts:20 | trimming a trimmed string changes nothing |
| `JsString.ToLowerCase` | src/utils/csvUtils.ts:114 | `toLowerCase` keeps the length, turns each upper-case ASCII letter into its lower-case letter, and keeps every other character |
| `JsString.IndexOf` | src/utils/csvUtils.ts:132 | `indexOf` gives -1 exactly when the value is absent, and otherwise the first position that holds it |
| `CsvParse.Cells` | src/utils/csvUtils.ts:20 | a line gives one cell per `split(',')` piece (at least one), and cell k is piece k trimmed |
| `CsvParse.ParseCSV` | src/utils/csvUtils.ts:18-43 | the chunked fill of the pre-allocated sparse array, followed by the hole filter, returns exactly `Parse(csvText)` |
| `CsvParse.FillRows` | src/utils/csvUtils.ts:22-35 | after the chunked loop, the sparse array has one slot per line after the header line: the line's cells for a non-blank line, a hole for a blank one |
| `CsvParse.FillChunk` | src/utils/csvUtils.ts:28-33 | processing one chunk fills exactly that chunk's slots and keeps the slots filled before it |
| `CsvParse.DropHoles` | src/utils/csvUtils.ts:37 | filtering the filled sparse array keeps the row of every non-blank line, in order, and drops the holes |
| `CsvParse.ParseHeaders` | src/utils/csvUtils.ts:19-20 | there is one more header than the first line has commas (even for empty text), and header k is piece k of the first line, trimmed |
| `CsvParse.ParseEmpty` | src/utils/csvUtils.ts:19-20 | empty text parses to the single header `""` and no rows |
| `CsvParse.RowsOfAppend` | src/utils/csvUtils.ts:26-34 | the rows of two consecutive groups of lines are the rows of the first group followed by those of the second, so cutting the lines into chunks does not change the rows |
| `CsvParse.RowsComeFromLines` | src/utils/csvUtils.ts:29-37 | every row is the cells of some non-blank line of the input |
| `CsvParse.NonBlankLinesGiveRows` | src/utils/csvUtils.ts:29-33 | every non-blank line after the header line gives a row, so blank lines are the only lines dropped |
| `CsvParse.RowLength` | src/utils/csvUtils.ts:31 | a row has one more cell than its line has commas, whatever the number of headers |
| `TableCache.Find` | src/utils/csvUtils.ts:48 | `cache.get` finds the entry with the given name, and finds none exactly when the name is not a key |
| `TableCache.RemoveKey` | src/utils/csvUtils.ts:73 | after `cache.delete(key)` the key is gone and the cache is no larger |
| `TableCache.LeastRecent` | src/utils/csvUtils.ts:65-73 | the eviction victim has the smallest `lastAccessed`, and every entry inserted before it has a strictly larger one: ties go to the first-inserted entry |
| `TableCache.FindOldest` | src/utils/csvUtils.ts:66-72 | the scan from `{key: '', timestamp: Infinity}` using strict `<` returns the key of `LeastRecent`, or `''` on an empty cache |
| `TableCache.RemoveKeyAt` | src/utils/csvUtils.ts:73 | with distinct keys, deleting an entry's key removes exactly that entry and keeps the order of the rest |
| `TableCache.Cache.constructor` | src/utils/csvUtils.ts:15 | the cache starts empty and within its bound |
| `TableCache.Cache.LoadCSV` | src/utils/csvUtils.ts:46-88 | keeps the invariant (at most 5 entries, distinct names), and its result and new cache are exactly `LoadSpec` of the old cache |
| `TableCache.Cache.Clear` | src/utils/csvUtils.ts:91-93 | afterwards the cache is empty and its stats show size 0 and no tables, whatever it held before, so a second clear changes nothing |
| `TableCache.Cache.GetCacheStats` | src/utils/csvUtils.ts:96-107 | size, table list and entry list all have the cache's length; table i and entry i are the i-th inserted table, with that entry's `timestamp`, `lastAccessed` and row count |
| `TableCache.LoadHit` | src/utils/csvUtils.ts:48-53 | a hit returns the stored table, sets only that entry's `lastAccessed` to now, and keeps every other entry and the key order; the result does not depend on the fetch |
| `TableCache.LoadMissFails` | src/utils/csvUtils.ts:55-59 | a miss whose fetch is not ok or throws leaves the cache exactly as it was, and fails with `Failed to load` or the rethrown exception |
| `TableCache.LoadMissSucceeds` | src/utils/csvUtils.ts:61-83 | a successful miss returns the parsed text and admits it; afterwards the table is cached, there are at most 5 entries, and the names are distinct |
| `TableCache.AdmitFull` | src/utils/csvUtils.ts:64-81 | on a full cache exactly one entry, `LeastRecent`, is removed; the others keep their order, the new entry goes last, the size stays the same, and the evicted name is gone |
| `TableCache.AdmitNotFull` | src/utils/csvUtils.ts:76-81 | on a cache that is not full, the new entry is appended and nothing is removed |
| `TableCache.LoadKeepsInvariant` | src/utils/csvUtils.ts:64-81 | every `loadCSV` keeps the cache at most `CACHE_SIZE` entries with distinct names |
| `TableCache.LoadTwice` | src/utils/csvUtils.ts:48-53 | loading a table right after it loaded successfully returns the same table, fetches nothing, and keeps the cached names |
| `TableCache.StatsSizeIsTableCount` | src/utils/csvUtils.ts:98-99 | with distinct keys, the reported size is the number of distinct cached table names |
| `Query.MatchesAtIsRegexMatch` | src/utils/csvUtils.ts:114 | the match test holds at p exactly when `from\s+\w+` matches some span starting at p |
| `Query.SpaceRunIsLeadingSpaces` | src/utils/csvUtils.ts:114 | the whitespace run `\s+` consumes is the same run `trim` strips from the front of the rest of the text: one notion of whitespace run |
| `Query.CaptureIsGreedy` | src/utils/csvUtils.ts:114-119 | the captured group is a nonempty run of word characters that follows the whitespace and is not followed by another word character |
| `Query.FirstMatch` | src/utils/csvUtils.ts:114 | the match found is the leftmost one, and none is found exactly when no position matches |
| `Query.ExtractTable` | src/utils/csvUtils.ts:114-119 | there is no table name exactly when the lowercased query matches nowhere; otherwise the name is group 1 of the leftmost match, a nonempty word of lower-case ASCII letters, digits and `_` |
| `Query.SelectTable` | src/utils/csvUtils.ts:110-124 | an accepted name is the extracted name and is on the allow-list; `No table specified` exactly when nothing matches; otherwise `Invalid table name` with the extracted name, which is off the list |
| `Query.Project` | src/utils/csvUtils.ts:129-140 | the result has the loaded headers and one row per table row, with one cell per header, even for a table with no rows |
| `Query.ProjectCells` | src/utils/csvUtils.ts:132-135 | cell j of row i is the row's cell at the first index of `headers[j]`, or `undefined` past the row's end |
| `Query.ProjectDuplicateHeaders` | src/utils/csvUtils.ts:132-135 | two columns with the same header show the same cell |
| `Query.ProjectDistinctHeaders` | src/utils/csvUtils.ts:132-135 | with distinct headers, cell j is the row's own cell j, so long rows are truncated and short rows padded with `undefined` |
| `Query.ProjectWellFormed` | src/utils/csvUtils.ts:129-140 | on a table with distinct headers and full-length rows, the result holds exactly the table's cells |
| `Query.ExecuteQuery` | src/utils/csvUtils.ts:112-141 | keeps the cache invariant, and its result and new cache are exactly `QuerySpec` of the old cache |
| `Query.RejectedQueryLeavesCache` | src/utils/csvUtils.ts:114-124 | a query with no table, or with a table off the allow-list, fails with the matching error and leaves the cache untouched |
| `Query.AnsweredQueryShape` | src/utils/csvUtils.ts:126-140 | a successful query read an allow-listed table, which is cached afterwards; the result has that table's headers, its row count, and one cell per header in every row |
| `Query.SelectStarFrom` | src/utils/csvUtils.ts:110-124 | `SELECT * FROM <word>`, the shape of every predefined query, names the lowercased word, and is accepted exactly when that word is on the allow-list |
| `Query.NoFromNoTable` | src/utils/csvUtils.ts:114-117 | `SELECT * WHERE x = 1` names no table and fails with `No table specified in query` |

## Left out

- `JsString.ToLowerCase`: maps only the ASCII letters A-Z. Full Unicode
  lowercasing can turn a non-ASCII character into an ASCII one (the Kelvin
  sign becomes `k`), and that could change which table a query names.
- `\s`, `\w` and `trim` need no such restriction. `\s` and `trim` use the
  exact ECMAScript whitespace set, and `\w` is ASCII-only in a pattern
  without the `u` flag.
- The `fetch` and `response.text()` calls and the `async`/`Promise`
  plumbing are I/O. They are replaced by the `Fetched` input. The URL
  `/<table>.csv` is not modelled.
- `Date.now()` is the wall clock. It is replaced by the `now` and `nowAgain`
  inputs, with no assumption that time moves forward.
- Interleaving: between its cache check and its insertion, `loadCSV` awaits
  the fetch, so two overlapping calls can interleave. The model runs each
  call to completion. The eviction and insertion after the await are
  synchronous, so the size bound holds either way.
- Aliasing: `loadCSV` and the hit path return the cached table object itself,
  so a caller that mutated it would change the cache. The model treats
  tables as immutable values.
- Errors are modelled as constructors carrying the table name or the
  exception message, not as `Error` objects with message strings.
- The type of an exception rethrown from the fetch (`TypeError`,
  `AbortError` or any other) is dropped: `Threw(message)` and
  `Rethrown(message)` keep only the message, so two exceptions with the same
  message and different types are the same failure in the model.
- The commented-out `console.error` in the `catch` has no effect and is
  not modelled.
- The React components, `src/App.tsx`, `vite.config.ts` and the static data
  in `src/data/` and `src/types/` contain no query logic. They are not part
  of this model.
