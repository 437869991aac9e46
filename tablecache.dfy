/**
 * The bounded table cache of `src/utils/csvUtils.ts`: a JavaScript `Map`
 * from table name to `{data, timestamp, lastAccessed}`, iterated in
 * insertion order and holding at most `CacheSize` tables; `loadCSV`,
 * `clearCache` and `getCacheStats`.
 *
 * The `Map` is an insertion-ordered sequence of entries with distinct keys.
 * `Date.now()` and the fetch of `/<table>.csv` are parameters.
 */
module TableCache {
  import opened Results
  import opened CsvParse

  /** Maximum number of tables kept. */
  const CacheSize: nat := 5

  datatype Entry = Entry(table: string, data: TableData, timestamp: int, lastAccessed: int)

  /** What fetching `/<table>.csv` gave: a response that is not ok, an
      exception from `fetch` or `response.text()`, or the body text. */
  datatype Fetched = NotOk | Threw(message: string) | Body(text: string)

  /** `Failed to load <table>.csv`, or the exception of the fetch, rethrown. */
  datatype LoadError = FailedToLoad(table: string) | Rethrown(message: string)

  /** The value `loadCSV` settles with, and the cache afterwards. */
  datatype Loaded = Loaded(result: Result<TableData, LoadError>, entries: seq<Entry>)

  /** Snapshot of one entry, as `getCacheStats` reports it. */
  datatype EntryStats = EntryStats(table: string, timestamp: int, lastAccessed: int, rowCount: nat)

  /** Snapshot of the cache, as `getCacheStats` reports it. */
  datatype CacheStats = CacheStats(size: nat, tables: seq<string>, entries: seq<EntryStats>)

  /** The initial `timestamp: Infinity` of the eviction scan, or a time seen. */
  datatype Bound = Infinity | At(ms: int)

  // -----------------------------------------------------------------------
  // The Map, as a sequence of entries in insertion order
  // -----------------------------------------------------------------------

  /** `cache.keys()`, in insertion order. */
  function Keys(es: seq<Entry>): (ks: seq<string>)
    ensures |ks| == |es|
    ensures forall i :: 0 <= i < |es| ==> ks[i] == es[i].table
  {
    seq(|es|, i requires 0 <= i < |es| => es[i].table)
  }

  predicate DistinctKeys(es: seq<Entry>) {
    forall i, j :: 0 <= i < j < |es| ==> es[i].table != es[j].table
  }

  /** `cache.get(name)`: the position of the entry for `name`, if any. */
  function Find(es: seq<Entry>, name: string): (r: Option<nat>)
    ensures r.Some? ==> r.value < |es| && es[r.value].table == name
    ensures r.None? <==> name !in Keys(es)
  {
    if es == [] then None
    else if es[0].table == name then Some(0)
    else match Find(es[1..], name)
      case Some(i) => Some(i + 1)
      case None => None
  }

  /** `cache.delete(key)`: every entry for `key` goes, the others keep their order. */
  function RemoveKey(es: seq<Entry>, key: string): (r: seq<Entry>)
    ensures key !in Keys(r)
    ensures |r| <= |es|
  {
    if es == [] then []
    else if es[0].table == key then RemoveKey(es[1..], key)
    else [es[0]] + RemoveKey(es[1..], key)
  }

  /** The entry the eviction scan settles on: the least `lastAccessed`,
      and among equal ones the first in insertion order, since the scan
      replaces its candidate only on a strictly smaller time. */
  function LeastRecent(es: seq<Entry>): (m: nat)
    requires es != []
    ensures m < |es|
    ensures forall j :: 0 <= j < |es| ==> es[m].lastAccessed <= es[j].lastAccessed
    ensures forall j :: 0 <= j < m ==> es[m].lastAccessed < es[j].lastAccessed
  {
    if |es| == 1 then 0
    else
      var m := LeastRecent(es[..|es| - 1]);
      if es[|es| - 1].lastAccessed < es[m].lastAccessed then |es| - 1 else m
  }

  // -----------------------------------------------------------------------
  // loadCSV, as a function of the cache before the call
  // -----------------------------------------------------------------------

  /** The `Map` after `cachedEntry.lastAccessed = now` on entry `i`. */
  function Touch(es: seq<Entry>, i: nat, now: int): seq<Entry>
    requires i < |es|
  {
    es[i := es[i].(lastAccessed := now)]
  }

  /** The `Map` after a successful miss: the eviction when full, then
      `cache.set` of a key not present, which goes last. */
  function Admit(es: seq<Entry>, name: string, data: TableData, now: int, nowAgain: int): seq<Entry> {
    var kept := if |es| >= CacheSize then RemoveKey(es, es[LeastRecent(es)].table) else es;
    kept + [Entry(name, data, now, nowAgain)]
  }

  /** `loadCSV(name)` on the cache `es`. `now` is what `Date.now()` reads
      first in the call and `nowAgain` what it reads second (only a miss
      reads it twice). */
  function LoadSpec(es: seq<Entry>, name: string, fetched: Fetched, now: int, nowAgain: int): Loaded {
    match Find(es, name)
    case Some(i) => Loaded(Success(es[i].data), Touch(es, i, now))
    case None =>
      match fetched
      case NotOk => Loaded(Failure(FailedToLoad(name)), es)
      case Threw(message) => Loaded(Failure(Rethrown(message)), es)
      case Body(csvText) =>
        var data := Parse(csvText);
        Loaded(Success(data), Admit(es, name, data, now, nowAgain))
  }

  /** The `getCacheStats()` snapshot of the cache `es`. */
  function StatsOf(es: seq<Entry>): CacheStats {
    CacheStats(|es|, Keys(es),
      seq(|es|, i requires 0 <= i < |es| =>
        EntryStats(es[i].table, es[i].timestamp, es[i].lastAccessed, |es[i].data.rows|)))
  }

  // -----------------------------------------------------------------------
  // The cache object
  // -----------------------------------------------------------------------

  /** The module-level `cache`. */
  class Cache {
    var entries: seq<Entry>

    /** At most `CacheSize` tables, one entry per table name. */
    ghost predicate Valid()
      reads this
    {
      |entries| <= CacheSize && DistinctKeys(entries)
    }

    constructor ()
      ensures Valid() && entries == []
    {
      entries := [];
    }

    /** `loadCSV(tableName)`. A hit refreshes `lastAccessed` and returns the
        stored table without fetching; a miss parses the fetched text,
        evicts the least recently accessed table when the cache is full and
        inserts the new one; a failed fetch leaves the cache as it was. */
    method LoadCSV(tableName: string, fetched: Fetched, now: int, nowAgain: int)
      returns (r: Result<TableData, LoadError>)
      requires Valid()
      modifies this
      ensures Valid()
      ensures Loaded(r, entries) == LoadSpec(old(entries), tableName, fetched, now, nowAgain)
    {
      var cachedEntry := Find(entries, tableName);
      if cachedEntry.Some? {
        var i := cachedEntry.value;
        entries := entries[i := entries[i].(lastAccessed := now)];
        return Success(entries[i].data);
      }
      match fetched {
        case NotOk =>
          return Failure(FailedToLoad(tableName));
        case Threw(message) =>
          return Failure(Rethrown(message));
        case Body(csvText) =>
          ghost var before := entries;
          var parsedData := ParseCSV(csvText);
          if |entries| >= CacheSize {
            var oldestKey := FindOldest(entries);
            entries := RemoveKey(entries, oldestKey);
          }
          entries := entries + [Entry(tableName, parsedData, now, nowAgain)];
          LoadKeepsInvariant(before, tableName, fetched, now, nowAgain);
          return Success(parsedData);
      }
    }

    /** `clearCache()`. */
    method Clear()
      modifies this
      ensures Valid()
      ensures entries == [] && GetCacheStats() == CacheStats(0, [], [])
    {
      entries := [];
    }

    /** `getCacheStats()`: size, table names in insertion order, and per
        entry its times and row count. */
    function GetCacheStats(): (r: CacheStats)
      reads this
      ensures r.size == |r.tables| == |r.entries| == |entries|
      ensures forall i :: 0 <= i < |entries| ==>
                && r.tables[i] == r.entries[i].table == entries[i].table
                && r.entries[i].timestamp == entries[i].timestamp
                && r.entries[i].lastAccessed == entries[i].lastAccessed
                && r.entries[i].rowCount == |entries[i].data.rows|
    {
      StatsOf(entries)
    }
  }

  /** The eviction scan of `loadCSV`: walk the entries in insertion order,
      keeping the key of the first strictly smallest `lastAccessed`. */
  method FindOldest(es: seq<Entry>) returns (key: string)
    ensures es == [] ==> key == ""
    ensures es != [] ==> key == es[LeastRecent(es)].table
  {
    var oldestKey := "";
    var oldestTimestamp := Infinity;
    var i := 0;
    while i < |es|
      invariant 0 <= i <= |es|
      invariant i == 0 ==> oldestKey == "" && oldestTimestamp == Infinity
      invariant i > 0 ==> && oldestKey == es[LeastRecent(es[..i])].table
                          && oldestTimestamp == At(es[LeastRecent(es[..i])].lastAccessed)
    {
      assert es[..i + 1][..i] == es[..i];
      if oldestTimestamp.Infinity? || es[i].lastAccessed < oldestTimestamp.ms {
        oldestKey, oldestTimestamp := es[i].table, At(es[i].lastAccessed);
      }
      i := i + 1;
    }
    assert es[..|es|] == es;
    key := oldestKey;
  }

  // -----------------------------------------------------------------------
  // Properties
  // -----------------------------------------------------------------------

  /** With distinct keys, deleting the key of entry `m` removes exactly that
      entry. */
  lemma {:induction false} RemoveKeyAt(es: seq<Entry>, m: nat)
    requires DistinctKeys(es) && m < |es|
    ensures RemoveKey(es, es[m].table) == es[..m] + es[m + 1..]
  {
    if m == 0 {
      RemoveKeyAbsent(es[1..], es[0].table);
    } else {
      RemoveKeyAt(es[1..], m - 1);
      assert es[1..][..m - 1] == es[1..m];
      assert es[1..][m..] == es[m + 1..];
      assert [es[0]] + es[1..m] == es[..m];
    }
  }

  /** Deleting an absent key changes nothing. */
  lemma {:induction false} RemoveKeyAbsent(es: seq<Entry>, key: string)
    requires key !in Keys(es)
    ensures RemoveKey(es, key) == es
  {
    if es != [] {
      assert Keys(es[1..]) == Keys(es)[1..];
      RemoveKeyAbsent(es[1..], key);
    }
  }

  /** Removing entries keeps the keys distinct. */
  lemma DistinctWithout(es: seq<Entry>, m: nat)
    requires DistinctKeys(es) && m < |es|
    ensures DistinctKeys(es[..m] + es[m + 1..])
  {
    var r := es[..m] + es[m + 1..];
    forall i, j | 0 <= i < j < |r| ensures r[i].table != r[j].table {
      var i' := if i < m then i else i + 1;
      var j' := if j < m then j else j + 1;
      assert r[i] == es[i'] && r[j] == es[j'];
    }
  }

  /** A hit returns the stored table, changes nothing but that entry's
      `lastAccessed`, and does not depend on any fetch. */
  lemma LoadHit(es: seq<Entry>, name: string, fetched: Fetched, other: Fetched, now: int, nowAgain: int)
    requires name in Keys(es)
    ensures var i := Find(es, name).value;
            var after := LoadSpec(es, name, fetched, now, nowAgain);
            && after.result == Success(es[i].data)
            && |after.entries| == |es| && Keys(after.entries) == Keys(es)
            && after.entries[i] == es[i].(lastAccessed := now)
            && (forall j :: 0 <= j < |es| && j != i ==> after.entries[j] == es[j])
            && after == LoadSpec(es, name, other, now, nowAgain)
  {
    var i := Find(es, name).value;
    var after := LoadSpec(es, name, fetched, now, nowAgain);
    assert Keys(after.entries) == Keys(es);
  }

  /** A miss whose fetch fails leaves the cache exactly as it was. */
  lemma LoadMissFails(es: seq<Entry>, name: string, fetched: Fetched, now: int, nowAgain: int)
    requires name !in Keys(es) && !fetched.Body?
    ensures var after := LoadSpec(es, name, fetched, now, nowAgain);
            && after.entries == es
            && after.result == Failure(if fetched.NotOk? then FailedToLoad(name) else Rethrown(fetched.message))
  {
  }

  /** A successful miss settles with the parsed table and admits it (see
      `AdmitFull` and `AdmitNotFull`); the bound and the distinct keys are
      kept and the table is cached afterwards. */
  lemma LoadMissSucceeds(es: seq<Entry>, name: string, csvText: string, now: int, nowAgain: int)
    requires |es| <= CacheSize && DistinctKeys(es) && name !in Keys(es)
    ensures var after := LoadSpec(es, name, Body(csvText), now, nowAgain);
            && after.result == Success(Parse(csvText))
            && after.entries == Admit(es, name, Parse(csvText), now, nowAgain)
            && |after.entries| <= CacheSize && DistinctKeys(after.entries)
            && name in Keys(after.entries)
  {
    var data := Parse(csvText);
    var added := Entry(name, data, now, nowAgain);
    assert LoadSpec(es, name, Body(csvText), now, nowAgain)
        == Loaded(Success(data), Admit(es, name, data, now, nowAgain));
    if |es| >= CacheSize {
      AdmitFull(es, added);
    } else {
      AdmitNotFull(es, added);
    }
  }

  /** Admitting into a full cache: the least recently accessed entry goes,
      the new one goes last. */
  lemma AdmitFull(es: seq<Entry>, added: Entry)
    requires |es| >= CacheSize && DistinctKeys(es) && added.table !in Keys(es)
    ensures var after := Admit(es, added.table, added.data, added.timestamp, added.lastAccessed);
            var m := LeastRecent(es);
            && after == es[..m] + es[m + 1..] + [added]
            && |after| == |es|
            && DistinctKeys(after)
            && added.table in Keys(after)
            && es[m].table !in Keys(after)
  {
    var after := Admit(es, added.table, added.data, added.timestamp, added.lastAccessed);
    var m := LeastRecent(es);
    var kept := es[..m] + es[m + 1..];
    RemoveKeyAt(es, m);
    DistinctWithout(es, m);
    assert after == kept + [added];
    assert Keys(after)[|kept|] == added.table;
    forall j | 0 <= j < |after| ensures after[j].table != es[m].table {
      if j < m {
        assert after[j] == es[j];
      } else if j < |kept| {
        assert after[j] == es[j + 1];
      } else {
        assert after[j] == added;
        assert es[m].table in Keys(es);
      }
    }
    forall j | 0 <= j < |kept| ensures kept[j].table != added.table {
      if j < m { assert kept[j] == es[j]; } else { assert kept[j] == es[j + 1]; }
    }
    NotInDistinctAppend(kept, added);
  }

  /** Admitting into a cache that is not full appends the new entry. */
  lemma AdmitNotFull(es: seq<Entry>, added: Entry)
    requires |es| < CacheSize && DistinctKeys(es) && added.table !in Keys(es)
    ensures var after := Admit(es, added.table, added.data, added.timestamp, added.lastAccessed);
            && after == es + [added]
            && DistinctKeys(after)
            && added.table in Keys(after)
  {
    var after := Admit(es, added.table, added.data, added.timestamp, added.lastAccessed);
    assert Keys(after)[|es|] == added.table;
    forall j | 0 <= j < |es| ensures es[j].table != added.table {
      assert Keys(es)[j] == es[j].table;
    }
    NotInDistinctAppend(es, added);
  }

  lemma NotInDistinctAppend(es: seq<Entry>, e: Entry)
    requires DistinctKeys(es)
    requires forall j :: 0 <= j < |es| ==> es[j].table != e.table
    ensures DistinctKeys(es + [e])
  {
    var r := es + [e];
    forall i, j | 0 <= i < j < |r| ensures r[i].table != r[j].table {
      assert r[i] == es[i];
    }
  }

  /** Every `loadCSV` keeps the cache within `CacheSize` tables with
      distinct names. */
  lemma LoadKeepsInvariant(es: seq<Entry>, name: string, fetched: Fetched, now: int, nowAgain: int)
    requires |es| <= CacheSize && DistinctKeys(es)
    ensures var after := LoadSpec(es, name, fetched, now, nowAgain).entries;
            |after| <= CacheSize && DistinctKeys(after)
  {
    match Find(es, name)
    case Some(i) =>
      var after := LoadSpec(es, name, fetched, now, nowAgain).entries;
      assert forall j :: 0 <= j < |es| ==> after[j].table == es[j].table;
    case None =>
      if fetched.Body? {
        LoadMissSucceeds(es, name, fetched.text, now, nowAgain);
      }
  }

  /** Loading a table twice in a row gives the same table both times, and the
      second load neither fetches nor changes which tables are cached. */
  lemma LoadTwice(es: seq<Entry>, name: string, fetched: Fetched, again: Fetched,
                  now: int, nowAgain: int, later: int, laterAgain: int)
    requires |es| <= CacheSize && DistinctKeys(es)
    requires LoadSpec(es, name, fetched, now, nowAgain).result.Success?
    ensures var first := LoadSpec(es, name, fetched, now, nowAgain);
            var second := LoadSpec(first.entries, name, again, later, laterAgain);
            && second.result == first.result
            && Keys(second.entries) == Keys(first.entries)
  {
    var first := LoadSpec(es, name, fetched, now, nowAgain);
    match Find(es, name)
    case Some(i) =>
      LoadHit(es, name, fetched, fetched, now, nowAgain);
      LoadHit(first.entries, name, again, again, later, laterAgain);
    case None =>
      LoadMissSucceeds(es, name, fetched.text, now, nowAgain);
      var last := |first.entries| - 1;
      assert first.entries[last].table == name;
      assert Find(first.entries, name) == Some(last) by {
        var k := Find(first.entries, name).value;
        assert first.entries[k].table == first.entries[last].table;
      }
      LoadHit(first.entries, name, again, again, later, laterAgain);
  }

  /** The set of table names cached. */
  function KeySet(es: seq<Entry>): set<string> {
    set i | 0 <= i < |es| :: es[i].table
  }

  lemma KeySetCons(es: seq<Entry>)
    requires es != []
    ensures KeySet(es) == {es[0].table} + KeySet(es[1..])
  {
    var tail := es[1..];
    forall t | t in KeySet(es) ensures t in {es[0].table} + KeySet(tail) {
      var i :| 0 <= i < |es| && es[i].table == t;
      if i > 0 { assert tail[i - 1] == es[i]; }
    }
    forall t | t in KeySet(tail) ensures t in KeySet(es) {
      var i :| 0 <= i < |tail| && tail[i].table == t;
      assert es[i + 1] == tail[i];
    }
  }

  lemma HeadNotInTail(es: seq<Entry>)
    requires es != [] && DistinctKeys(es)
    ensures es[0].table !in KeySet(es[1..])
    ensures DistinctKeys(es[1..])
  {
    var tail := es[1..];
    forall i | 0 <= i < |tail| ensures tail[i].table != es[0].table {
      assert tail[i] == es[i + 1];
    }
  }

  /** With distinct keys, the reported size is the number of cached tables. */
  lemma {:induction false} StatsSizeIsTableCount(es: seq<Entry>)
    requires DistinctKeys(es)
    ensures StatsOf(es).size == |KeySet(es)|
  {
    if es != [] {
      HeadNotInTail(es);
      StatsSizeIsTableCount(es[1..]);
      KeySetCons(es);
    } else {
      assert KeySet(es) == {};
    }
  }
}
