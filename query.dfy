/**
 * `executeQuery` of `src/utils/csvUtils.ts`: lowercase the query, take the
 * table name from the first match of `/from\s+(\w+)/i`, refuse names outside
 * the allow-list, load the table through the cache, and re-map every row
 * through `headers.indexOf(col)` for each header. No column list, WHERE or
 * LIMIT is interpreted: every query selects all headers of its table.
 */
module Query {
  import opened Results
  import opened JsString
  import opened CsvParse
  import opened TableCache

  /** `VALID_TABLES`. */
  const ValidTables: set<string> :=
    {"categories", "customers", "employees", "orders", "products", "suppliers", "shippers", "order_details"}

  /** `No table specified in query`, `Invalid table name: "<name>"`, or
      the error of `loadCSV`, propagated. */
  datatype QueryError = NoTableSpecified | InvalidTableName(name: string) | LoadFailed(cause: LoadError)

  /** A cell of a result row: a string, or `undefined` when `row[index]`
      reads past the end of the row. */
  datatype Cell = Text(value: string) | Undefined

  datatype QueryResult = QueryResult(headers: seq<string>, rows: seq<seq<Cell>>)

  /** The value `executeQuery` settles with, and the cache afterwards. */
  datatype Answered = Answered(result: Result<QueryResult, QueryError>, entries: seq<Entry>)

  // -----------------------------------------------------------------------
  // The regular expression /from\s+(\w+)/i
  // -----------------------------------------------------------------------

  /** Length of the `\s` run starting at `i`. */
  function SpaceRun(s: string, i: nat): (n: nat)
    requires i <= |s|
    ensures i + n <= |s|
    ensures forall k :: i <= k < i + n ==> IsSpace(s[k])
    ensures i + n < |s| ==> !IsSpace(s[i + n])
    decreases |s| - i
  {
    if i < |s| && IsSpace(s[i]) then 1 + SpaceRun(s, i + 1) else 0
  }

  /** The `\s` run is the run `trim` would strip from the rest of the text. */
  lemma {:induction false} SpaceRunIsLeadingSpaces(s: string, i: nat)
    requires i <= |s|
    ensures SpaceRun(s, i) == LeadingSpaces(s[i..])
    decreases |s| - i
  {
    if i < |s| {
      assert s[i..][0] == s[i];
      assert s[i..][1..] == s[i + 1..];
      if IsSpace(s[i]) {
        SpaceRunIsLeadingSpaces(s, i + 1);
      }
    }
  }

  /** Length of the `\w` run starting at `i`. */
  function WordRun(s: string, i: nat): (n: nat)
    requires i <= |s|
    ensures i + n <= |s|
    ensures forall k :: i <= k < i + n ==> IsWordChar(s[k])
    ensures i + n < |s| ==> !IsWordChar(s[i + n])
    decreases |s| - i
  {
    if i < |s| && IsWordChar(s[i]) then 1 + WordRun(s, i + 1) else 0
  }

  /** Where the group `(\w+)` starts when the match starts at `p`. */
  function GroupStart(s: string, p: nat): nat
    requires p + 4 <= |s|
  {
    p + 4 + SpaceRun(s, p + 4)
  }

  /** The pattern matches at `p`: `from`, then `\s+`, then `\w+`. Since no
      character is both `\s` and `\w`, `\s+` has to take the whole run of
      whitespace and `\w+` must begin right after it. */
  predicate MatchesAt(s: string, p: nat) {
    && p + 4 <= |s|
    && s[p..p + 4] == "from"
    && GroupStart(s, p) > p + 4
    && GroupStart(s, p) < |s|
    && IsWordChar(s[GroupStart(s, p)])
  }

  /** Group 1 of the match at `p`: the greedy `\w+`. */
  function Capture(s: string, p: nat): string
    requires MatchesAt(s, p)
  {
    var a := GroupStart(s, p);
    s[a..a + WordRun(s, a)]
  }

  /** The regular expression's own reading of a match at `p` whose `\s+`
      spans `[p+4, a)` and whose `\w+` spans `[a, b)`. */
  ghost predicate RegexMatch(s: string, p: nat, a: nat, b: nat) {
    && p + 4 < a < b <= |s|
    && s[p..p + 4] == "from"
    && (forall k :: p + 4 <= k < a ==> IsSpace(s[k]))
    && (forall k :: a <= k < b ==> IsWordChar(s[k]))
  }

  /** `MatchesAt` holds exactly where the pattern matches some span. */
  lemma MatchesAtIsRegexMatch(s: string, p: nat)
    ensures MatchesAt(s, p) <==> exists a, b :: RegexMatch(s, p, a, b)
  {
    if MatchesAt(s, p) {
      var a := GroupStart(s, p);
      assert RegexMatch(s, p, a, a + 1);
    }
    if exists a, b :: RegexMatch(s, p, a, b) {
      var a: nat, b: nat :| RegexMatch(s, p, a, b);
      var g := GroupStart(s, p);
      assert IsWordChar(s[a]) && !IsSpace(s[a]);
      assert g < |s| ==> !IsSpace(s[g]);
      assert g == a;
    }
  }

  /** The capture is the longest `\w` run the match can end with: nonempty,
      made of word characters, and not followed by one. */
  lemma CaptureIsGreedy(s: string, p: nat)
    requires MatchesAt(s, p)
    ensures var a := GroupStart(s, p);
            var c := Capture(s, p);
            && |c| > 0
            && RegexMatch(s, p, a, a + |c|)
            && (a + |c| == |s| || !IsWordChar(s[a + |c|]))
  {
  }

  /** The leftmost match at or after `from`. */
  function FirstMatch(s: string, from: nat): (r: Option<nat>)
    requires from <= |s|
    ensures r.Some? ==> from <= r.value && MatchesAt(s, r.value)
    ensures r.Some? ==> forall q :: from <= q < r.value ==> !MatchesAt(s, q)
    ensures r.None? ==> forall q :: from <= q <= |s| ==> !MatchesAt(s, q)
    decreases |s| - from
  {
    if from == |s| then None
    else if MatchesAt(s, from) then Some(from)
    else FirstMatch(s, from + 1)
  }

  /** `query.toLowerCase().match(/from\s+(\w+)/i)?.[1]`. */
  function ExtractTable(query: string): (r: Option<string>)
    ensures var s := ToLowerCase(query);
            r.None? <==> forall p :: 0 <= p <= |s| ==> !MatchesAt(s, p)
    ensures r.Some? ==> |r.value| > 0
    ensures r.Some? ==> forall k :: 0 <= k < |r.value| ==> IsWordChar(r.value[k]) && !IsUpper(r.value[k])
    ensures var s := ToLowerCase(query);
            r.Some? ==> exists p :: 0 <= p <= |s| && MatchesAt(s, p)
                                 && (forall q :: 0 <= q < p ==> !MatchesAt(s, q))
                                 && r.value == Capture(s, p)
  {
    var s := ToLowerCase(query);
    match FirstMatch(s, 0)
    case None => None
    case Some(p) =>
      CaptureIsLowerWord(s, p);
      Some(Capture(s, p))
  }

  /** On lowered text the capture is a nonempty run of lower-case word characters. */
  lemma CaptureIsLowerWord(s: string, p: nat)
    requires MatchesAt(s, p)
    requires forall k :: 0 <= k < |s| ==> !IsUpper(s[k])
    ensures var c := Capture(s, p);
            |c| > 0 && forall k :: 0 <= k < |c| ==> IsWordChar(c[k]) && !IsUpper(c[k])
  {
    var a := GroupStart(s, p);
    var c := Capture(s, p);
    forall k | 0 <= k < |c|
      ensures IsWordChar(c[k]) && !IsUpper(c[k])
    {
      assert c[k] == s[a + k];
    }
  }

  /** The table name check of `executeQuery`, before anything is loaded. */
  function SelectTable(query: string): (r: Result<string, QueryError>)
    ensures r.Success? ==> r.value in ValidTables && ExtractTable(query) == Some(r.value)
    ensures r == Failure(NoTableSpecified) <==> ExtractTable(query).None?
    ensures r.Failure? && r.error != NoTableSpecified ==>
              ExtractTable(query).Some? && r.error == InvalidTableName(ExtractTable(query).value)
              && ExtractTable(query).value !in ValidTables
  {
    match ExtractTable(query)
    case None => Failure(NoTableSpecified)
    case Some(tableName) =>
      if tableName in ValidTables then Success(tableName) else Failure(InvalidTableName(tableName))
  }

  // -----------------------------------------------------------------------
  // Re-mapping the rows
  // -----------------------------------------------------------------------

  /** `row[index]`. */
  function CellAt(row: Row, index: int): Cell {
    if 0 <= index < |row| then Text(row[index]) else Undefined
  }

  /** The result of `executeQuery` for the loaded table `data`: every header
      selected, each row re-mapped through the first index of each header. */
  function Project(data: TableData): (out: QueryResult)
    ensures out.headers == data.headers && |out.rows| == |data.rows|
    ensures forall i :: 0 <= i < |out.rows| ==> |out.rows[i]| == |data.headers|
  {
    var selectedColumns := data.headers;
    var columnIndices := seq(|selectedColumns|, j requires 0 <= j < |selectedColumns| =>
                           IndexOf(data.headers, selectedColumns[j]));
    var mappedRows := seq(|data.rows|, i requires 0 <= i < |data.rows| =>
                        seq(|columnIndices|, j requires 0 <= j < |columnIndices| =>
                          CellAt(data.rows[i], columnIndices[j])));
    QueryResult(selectedColumns, mappedRows)
  }

  /** Cell `j` of row `i` is the row's cell at the first column named
      `headers[j]`: `undefined` when the row is too short. */
  lemma ProjectCells(data: TableData, i: nat, j: nat)
    requires i < |data.rows| && j < |data.headers|
    ensures var out := Project(data);
            var f := IndexOf(data.headers, data.headers[j]);
            && 0 <= f <= j
            && data.headers[f] == data.headers[j]
            && (forall k :: 0 <= k < f ==> data.headers[k] != data.headers[j])
            && out.rows[i][j] == (if f < |data.rows[i]| then Text(data.rows[i][f]) else Undefined)
  {
  }

  /** Two columns with the same header both show the first such column. */
  lemma ProjectDuplicateHeaders(data: TableData, i: nat, j: nat, j': nat)
    requires i < |data.rows| && j < |data.headers| && j' < |data.headers|
    requires data.headers[j] == data.headers[j']
    ensures Project(data).rows[i][j] == Project(data).rows[i][j']
  {
  }

  /** With distinct headers, cell `j` is the row's own cell `j`: longer rows
      are cut to the headers, shorter ones padded with `undefined`. */
  lemma ProjectDistinctHeaders(data: TableData, i: nat, j: nat)
    requires i < |data.rows| && j < |data.headers|
    requires forall a, b :: 0 <= a < b < |data.headers| ==> data.headers[a] != data.headers[b]
    ensures Project(data).rows[i][j] == CellAt(data.rows[i], j)
  {
    var f := IndexOf(data.headers, data.headers[j]);
    assert data.headers[f] == data.headers[j];
  }

  /** On a well-formed table (distinct headers, every row exactly as long
      as the headers) the result is the table itself. */
  lemma ProjectWellFormed(data: TableData)
    requires forall a, b :: 0 <= a < b < |data.headers| ==> data.headers[a] != data.headers[b]
    requires forall i :: 0 <= i < |data.rows| ==> |data.rows[i]| == |data.headers|
    ensures var out := Project(data);
            && out.headers == data.headers
            && |out.rows| == |data.rows|
            && forall i, j :: 0 <= i < |data.rows| && 0 <= j < |data.headers| ==>
                 out.rows[i][j] == Text(data.rows[i][j])
  {
    forall i, j | 0 <= i < |data.rows| && 0 <= j < |data.headers|
      ensures Project(data).rows[i][j] == Text(data.rows[i][j])
    {
      ProjectDistinctHeaders(data, i, j);
    }
  }

  // -----------------------------------------------------------------------
  // executeQuery
  // -----------------------------------------------------------------------

  /** `executeQuery(query)` on the cache `es`; `fetched`, `now` and
      `nowAgain` are what `loadCSV` would see. */
  function QuerySpec(es: seq<Entry>, query: string, fetched: Fetched, now: int, nowAgain: int): Answered {
    match SelectTable(query)
    case Failure(e) => Answered(Failure(e), es)
    case Success(tableName) =>
      var loaded := LoadSpec(es, tableName, fetched, now, nowAgain);
      match loaded.result
      case Failure(e) => Answered(Failure(LoadFailed(e)), loaded.entries)
      case Success(data) => Answered(Success(Project(data)), loaded.entries)
  }

  /** `executeQuery(query)`. */
  method ExecuteQuery(cache: Cache, query: string, fetched: Fetched, now: int, nowAgain: int)
    returns (r: Result<QueryResult, QueryError>)
    requires cache.Valid()
    modifies cache
    ensures cache.Valid()
    ensures Answered(r, cache.entries) == QuerySpec(old(cache.entries), query, fetched, now, nowAgain)
  {
    var tableMatch := ExtractTable(query);
    if tableMatch.None? {
      return Failure(NoTableSpecified);
    }
    var tableName := tableMatch.value;
    if tableName !in ValidTables {
      return Failure(InvalidTableName(tableName));
    }
    var loaded := cache.LoadCSV(tableName, fetched, now, nowAgain);
    if loaded.Failure? {
      return Failure(LoadFailed(loaded.error));
    }
    return Success(Project(loaded.value));
  }

  // -----------------------------------------------------------------------
  // Properties
  // -----------------------------------------------------------------------

  /** A query without a table, or naming a table outside the allow-list,
      fails before anything is loaded: the cache is left as it was. */
  lemma RejectedQueryLeavesCache(es: seq<Entry>, query: string, fetched: Fetched, now: int, nowAgain: int)
    requires ExtractTable(query).None? || ExtractTable(query).value !in ValidTables
    ensures var answer := QuerySpec(es, query, fetched, now, nowAgain);
            && answer.entries == es
            && answer.result == Failure(if ExtractTable(query).None? then NoTableSpecified
                                        else InvalidTableName(ExtractTable(query).value))
  {
  }

  /** A successful query read an allow-listed table: its headers are the
      table's headers, it has one row per table row, one cell per header in
      each, and the table is cached afterwards. */
  lemma AnsweredQueryShape(es: seq<Entry>, query: string, fetched: Fetched, now: int, nowAgain: int)
    requires |es| <= CacheSize && DistinctKeys(es)
    requires QuerySpec(es, query, fetched, now, nowAgain).result.Success?
    ensures var tableName := ExtractTable(query).value;
            var data := LoadSpec(es, tableName, fetched, now, nowAgain).result.value;
            var answer := QuerySpec(es, query, fetched, now, nowAgain);
            && tableName in ValidTables
            && tableName in Keys(answer.entries)
            && answer.result.value.headers == data.headers
            && |answer.result.value.rows| == |data.rows|
            && forall i :: 0 <= i < |data.rows| ==> |answer.result.value.rows[i]| == |data.headers|
  {
    var tableName := ExtractTable(query).value;
    if tableName in Keys(es) {
      LoadHit(es, tableName, fetched, fetched, now, nowAgain);
    } else {
      LoadMissSucceeds(es, tableName, fetched.text, now, nowAgain);
    }
  }

  /** Lowercasing distributes over concatenation. */
  lemma ToLowerCaseConcat(a: string, b: string)
    ensures ToLowerCase(a + b) == ToLowerCase(a) + ToLowerCase(b)
  {
  }

  /** `SELECT * FROM <name>` for a word `name`, as in the predefined queries:
      the query names the lowercased `name`, accepted exactly when it is in
      the allow-list. */
  lemma SelectStarFrom(name: string)
    requires |name| > 0 && forall k :: 0 <= k < |name| ==> IsWordChar(name[k])
    ensures SelectTable("SELECT * FROM " + name)
         == if ToLowerCase(name) in ValidTables then Success(ToLowerCase(name))
            else Failure(InvalidTableName(ToLowerCase(name)))
  {
    var lowered := ToLowerCase(name);
    LowerSelectStar(name);
    var s := "select * from " + lowered;
    CaptureAfterFrom(lowered);
    NoMatchBeforeFrom(lowered);
    FirstMatchFrom(s, 0, 9);
    assert ExtractTable("SELECT * FROM " + name) == Some(lowered);
  }

  /** Lowercasing `SELECT * FROM <name>` lowercases the keywords and leaves
      the name a nonempty word. */
  lemma LowerSelectStar(name: string)
    requires |name| > 0 && forall k :: 0 <= k < |name| ==> IsWordChar(name[k])
    ensures ToLowerCase("SELECT * FROM " + name) == "select * from " + ToLowerCase(name)
    ensures forall k :: 0 <= k < |ToLowerCase(name)| ==> IsWordChar(ToLowerCase(name)[k])
  {
    var lowered := ToLowerCase(name);
    ToLowerCaseConcat("SELECT * FROM ", name);
    assert ToLowerCase("SELECT * FROM ") == "select * from ";
    forall k | 0 <= k < |lowered| ensures IsWordChar(lowered[k]) {
      assert lowered[k] == LowerChar(name[k]);
    }
  }

  /** In `select * from <word>` the pattern matches at the `from`, and
      captures the whole word. */
  lemma CaptureAfterFrom(word: string)
    requires |word| > 0 && forall k :: 0 <= k < |word| ==> IsWordChar(word[k])
    ensures var s := "select * from " + word;
            MatchesAt(s, 9) && Capture(s, 9) == word
  {
    var s := "select * from " + word;
    assert SpaceRun(s, 13) == 1;
    assert GroupStart(s, 9) == 14;
    assert s[9..13] == "from";
    assert forall k :: 0 <= k < |word| ==> s[14 + k] == word[k];
    assert WordRun(s, 14) == |word|;
    assert s[14..14 + |word|] == word;
  }

  /** Nothing before the `from` of `select * from <word>` starts a match. */
  lemma NoMatchBeforeFrom(word: string)
    ensures forall q :: 0 <= q < 9 ==> !MatchesAt("select * from " + word, q)
  {
    var s := "select * from " + word;
    forall q | 0 <= q < 9 ensures !MatchesAt(s, q) {
      assert s[q] == "select * "[q] != 'f';
      assert s[q..q + 4][0] == s[q];
    }
  }

  /** The leftmost match is the first position that matches. */
  lemma {:induction false} FirstMatchFrom(s: string, from: nat, p: nat)
    requires from <= p <= |s| && MatchesAt(s, p)
    requires forall q :: from <= q < p ==> !MatchesAt(s, q)
    ensures FirstMatch(s, from) == Some(p)
    decreases p - from
  {
    if from < p {
      FirstMatchFrom(s, from + 1, p);
    }
  }

  /** A query with no `from` before whitespace and a word names no table. */
  lemma NoFromNoTable()
    ensures SelectTable("SELECT * WHERE x = 1") == Failure(NoTableSpecified)
  {
    var s := ToLowerCase("SELECT * WHERE x = 1");
    assert s == "select * where x = 1";
    forall p | 0 <= p <= |s| ensures !MatchesAt(s, p) {
      if p + 4 <= |s| {
        assert s[p] != 'f';
        assert s[p..p + 4][0] == s[p];
      }
    }
  }
}
