// Scanning a VALUE index: key ranges, and pages linked by continuations.
module ValueIndexScan {
  import opened Wrappers
  import opened Values
  import opened KeySpace
  import opened KeyExpressions
  import opened Indexes

  datatype IndexScanRange = IndexScanRange(low: Option<Tuple>, high: Option<Tuple>, lowInclusive: bool, highInclusive: bool)

  function RangeBegin(range: IndexScanRange): Cut {
    match range.low
    case None => AfterSelf([])
    case Some(low) => if range.lowInclusive then At(low) else AfterSelf(low)
  }

  function RangeEnd(range: IndexScanRange): Cut {
    match range.high
    case None => AfterExtensions([])
    case Some(high) => if range.highInclusive then AfterExtensions(high) else At(high)
  }

  /** The entries a range read returns. */
  function KeysBetween(entries: set<Tuple>, begin: Cut, end: Cut): seq<Tuple> {
    Sorted(set k | k in entries && InCuts(begin, end, k))
  }

  /** Decode an entry and load the record it points to. */
  function LoadEntry(entry: Tuple, columns: nat, records: Records): Option<RecordKey> {
    if |entry| <= columns || !entry[columns].Str? then None
    else
      var k := RecordKey(entry[columns].s, entry[columns + 1..]);
      if k in records then Some(k) else None
  }

  function LoadEntries(entries: seq<Tuple>, columns: nat, records: Records): seq<RecordKey> {
    if entries == [] then []
    else
      var k := LoadEntry(entries[0], columns, records);
      (if k.Some? then [k.value] else []) + LoadEntries(entries[1..], columns, records)
  }

  predicate AllLoad(entries: seq<Tuple>, columns: nat, records: Records) {
    forall j :: 0 <= j < |entries| ==> LoadEntry(entries[j], columns, records).Some?
  }

  lemma {:induction false} LoadEntriesConcat(a: seq<Tuple>, b: seq<Tuple>, columns: nat, records: Records)
    ensures LoadEntries(a + b, columns, records) == LoadEntries(a, columns, records) + LoadEntries(b, columns, records)
  {
    if a == [] {
      assert a + b == b;
    } else {
      LoadEntriesConcat(a[1..], b, columns, records);
      assert (a + b)[1..] == a[1..] + b;
    }
  }

  lemma {:induction false} LoadEntriesSize(entries: seq<Tuple>, columns: nat, records: Records)
    ensures |LoadEntries(entries, columns, records)| <= |entries|
    ensures |LoadEntries(entries, columns, records)| == |entries| <==> AllLoad(entries, columns, records)
    ensures AllLoad(entries, columns, records) ==> forall j :: 0 <= j < |entries| ==>
      Some(LoadEntries(entries, columns, records)[j]) == LoadEntry(entries[j], columns, records)
  {
    if entries != [] {
      LoadEntriesSize(entries[1..], columns, records);
      assert forall j :: 0 <= j < |entries[1..]| ==> entries[1..][j] == entries[j + 1];
    }
  }

  // ---- One page ----

  datatype Page = Page(results: seq<RecordKey>, next: Option<Cut>)

  /** What one call of scan returns for the keys of its range: a full page with a continuation when
      the first `limit` keys all load and another key follows; otherwise everything that loads
      among the limit + 1 keys it fetched, and no continuation. */
  function PageOf(keys: seq<Tuple>, limit: nat, columns: nat, records: Records): Page {
    if limit == 0 || |keys| <= limit then Page(LoadEntries(keys, columns, records), None)
    else if AllLoad(keys[..limit], columns, records)
    then Page(LoadEntries(keys[..limit], columns, records), Some(AfterSelf(keys[limit - 1])))
    else Page(LoadEntries(keys[..limit + 1], columns, records), None)
  }

  lemma LoadOneMore(keys: seq<Tuple>, i: nat, columns: nat, records: Records)
    requires i < |keys|
    ensures var k := LoadEntry(keys[i], columns, records);
            LoadEntries(keys[..i + 1], columns, records)
              == LoadEntries(keys[..i], columns, records) + (if k.Some? then [k.value] else []) &&
            (AllLoad(keys[..i + 1], columns, records) <==> AllLoad(keys[..i], columns, records) && k.Some?)
  {
    hide LoadEntry;
    assert keys[..i + 1] == keys[..i] + [keys[i]];
    LoadEntriesConcat(keys[..i], [keys[i]], columns, records);
    assert [keys[i]][1..] == [] && LoadEntries([], columns, records) == [];
    assert keys[..i + 1][i] == keys[i];
    assert forall j :: 0 <= j < i ==> keys[..i + 1][j] == keys[..i][j];
  }

  /** The loop of ValueIndexMaintainer.scan. */
  method ScanKeys(keys: seq<Tuple>, limit: nat, columns: nat, records: Records) returns (page: Page)
    ensures page == PageOf(keys, limit, columns, records)
  {
    hide LoadEntry, LoadEntries, AllLoad;
    var fetched := if limit == 0 || |keys| <= limit + 1 then keys else keys[..limit + 1];
    var results: seq<RecordKey> := [];
    var hasMore := false;
    var lastKey: Option<Tuple> := None;
    var i := 0;
    LoadEntriesSize(fetched[..0], columns, records);
    while i < |fetched|
      invariant 0 <= i <= |fetched|
      invariant !hasMore && results == LoadEntries(fetched[..i], columns, records)
      invariant limit > 0 && i > limit ==> !AllLoad(fetched[..limit], columns, records)
      invariant AllLoad(fetched[..i], columns, records) && i > 0 ==> lastKey == Some(fetched[i - 1])
    {
      LoadEntriesSize(fetched[..i], columns, records);
      if limit > 0 && |results| >= limit {
        assert i == limit && fetched[..i] == keys[..limit];
        hasMore := true;
        break;
      }
      LoadOneMore(fetched, i, columns, records);
      var k := LoadEntry(fetched[i], columns, records);
      if k.Some? {
        results := results + [k.value];
        lastKey := Some(fetched[i]);
      }
      i := i + 1;
    }
    assert hasMore || fetched[..i] == fetched;
    if !hasMore {
      if limit > 0 && |keys| > limit {
        assert fetched[..limit] == keys[..limit] && fetched == keys[..limit + 1];
      }
    }
    page := Page(results, if hasMore && lastKey.Some? then Some(AfterSelf(lastKey.value)) else None);
  }

  /** A page has at most `limit` records; it ends with a continuation exactly when it has that many and
      the range goes on, and the continuation starts just after the page's last key. */
  lemma PagesAreFull(keys: seq<Tuple>, limit: nat, columns: nat, records: Records)
    requires limit > 0
    ensures var page := PageOf(keys, limit, columns, records);
            |page.results| <= limit &&
            (page.next.Some? <==> |keys| > limit && forall j :: 0 <= j < limit ==> LoadEntry(keys[j], columns, records).Some?) &&
            (page.next.Some? ==> |page.results| == limit && page.next == Some(AfterSelf(keys[limit - 1]))) &&
            (forall j :: 0 <= j < |page.results| && page.next.Some? ==>
              Some(page.results[j]) == LoadEntry(keys[j], columns, records))
  {
    hide LoadEntry;
    if |keys| > limit {
      LoadEntriesSize(keys[..limit], columns, records);
      LoadOneMore(keys, limit, columns, records);
      assert AllLoad(keys[..limit], columns, records) <==>
        forall j :: 0 <= j < limit ==> LoadEntry(keys[j], columns, records).Some? by { AllLoadMeans(keys, limit, columns, records); }
    } else {
      LoadEntriesSize(keys, columns, records);
    }
  }

  lemma AllLoadMeans(keys: seq<Tuple>, n: nat, columns: nat, records: Records)
    requires n <= |keys|
    ensures AllLoad(keys[..n], columns, records) <==> forall j :: 0 <= j < n ==> LoadEntry(keys[j], columns, records).Some?
  {
    hide LoadEntry;
    assert forall j :: 0 <= j < n ==> keys[..n][j] == keys[j];
  }

  // ---- Pages chained by their continuations ----

  /** Everything beyond one key of a range is the rest of the range. */
  lemma RestOfRange(entries: set<Tuple>, begin: Cut, end: Cut, n: nat)
    requires n < |KeysBetween(entries, begin, end)|
    ensures var keys := KeysBetween(entries, begin, end);
            KeysBetween(entries, AfterSelf(keys[n]), end) == keys[n + 1..]
  {
    hide TupleLess, Less, Sorted;
    var inRange := set k | k in entries && InCuts(begin, end, k);
    var keys := KeysBetween(entries, begin, end);
    var beyond := set k | k in entries && InCuts(AfterSelf(keys[n]), end, k);
    SortedIsSorted(inRange);
    SortedIsSorted(beyond);
    assert keys[n] in keys;
    assert forall j :: 0 <= j < n ==> TupleLess(keys[j], keys[n]);
    forall k ensures k in keys[n + 1..] <==> k in beyond {
      if k in keys[n + 1..] {
        var j :| n + 1 <= j < |keys| && keys[j] == k;
        assert TupleLess(keys[n], keys[j]) && k in keys;
      }
      if k in beyond {
        NotBeforeUpwardClosed(begin, keys[n], k);
        assert k in keys;
        var j :| 0 <= j < |keys| && keys[j] == k;
        TupleLessTotal(keys[n], k);
        assert n < j;
      }
    }
    SortedUnique(keys[n + 1..], Sorted(beyond));
  }

  /** Restarting the scan from each continuation until none is given. */
  ghost function AllPages(entries: set<Tuple>, begin: Cut, end: Cut, limit: nat, columns: nat,
        records: Records): seq<RecordKey>
    requires limit > 0
    decreases |KeysBetween(entries, begin, end)|
  {
    var keys := KeysBetween(entries, begin, end);
    var page := PageOf(keys, limit, columns, records);
    if page.next.None? then page.results
    else
      RestOfRange(entries, begin, end, limit - 1);
      page.results + AllPages(entries, page.next.value, end, limit, columns, records)
  }

  /** Paging: over an unchanging index whose entries all load, the pages together visit every entry
      of the range once, in order, and stop. */
  lemma {:induction false} PagingIsComplete(entries: set<Tuple>, begin: Cut, end: Cut, limit: nat, columns: nat,
        records: Records)
    requires limit > 0 && AllLoad(KeysBetween(entries, begin, end), columns, records)
    ensures AllPages(entries, begin, end, limit, columns, records)
         == LoadEntries(KeysBetween(entries, begin, end), columns, records)
    decreases |KeysBetween(entries, begin, end)|
  {
    var keys := KeysBetween(entries, begin, end);
    if |keys| > limit {
      RestOfRange(entries, begin, end, limit - 1);
      PagingIsComplete(entries, AfterSelf(keys[limit - 1]), end, limit, columns, records);
      assert keys == keys[..limit] + keys[limit..];
      LoadEntriesConcat(keys[..limit], keys[limit..], columns, records);
    }
  }

  /** With dangling entries paging ends early.  When the first key that does not load is on page p
      (counting from 0), paging visits the loadable entries up to the end of that page and the one
      key fetched beyond it, and nothing after. */
  lemma {:induction false} PagingStopsAtDangling(entries: set<Tuple>, begin: Cut, end: Cut, limit: nat, columns: nat,
                                                 records: Records, p: nat, d: nat)
    requires limit > 0 && d < |KeysBetween(entries, begin, end)| && p * limit <= d < p * limit + limit
    requires LoadEntry(KeysBetween(entries, begin, end)[d], columns, records).None?
    requires AllLoad(KeysBetween(entries, begin, end)[..d], columns, records)
    ensures AllPages(entries, begin, end, limit, columns, records)
         == LoadEntries(UpTo(KeysBetween(entries, begin, end), p * limit + limit + 1), columns, records)
    decreases p
  {
    hide AllPages, LoadEntries, UpTo, KeysBetween, LoadEntry;
    var keys := KeysBetween(entries, begin, end);
    if p == 0 {
      assert p * limit == 0;
      FirstPageDangles(entries, begin, end, limit, columns, records, d);
    } else {
      var start := (p - 1) * limit;
      assert p * limit == start + limit;
      RestOfRange(entries, begin, end, limit - 1);
      var rest := keys[limit..];
      LaterKeys(keys, limit, d, columns, records);
      PagingStopsAtDangling(entries, AfterSelf(keys[limit - 1]), end, limit, columns, records, p - 1, d - limit);
      FirstPageThenRest(entries, begin, end, limit, columns, records, start + limit + 1);
    }
  }

  lemma FirstPageDangles(entries: set<Tuple>, begin: Cut, end: Cut, limit: nat, columns: nat, records: Records, d: nat)
    requires d < limit && d < |KeysBetween(entries, begin, end)|
    requires LoadEntry(KeysBetween(entries, begin, end)[d], columns, records).None?
    ensures AllPages(entries, begin, end, limit, columns, records)
         == LoadEntries(UpTo(KeysBetween(entries, begin, end), limit + 1), columns, records)
  {
    var keys := KeysBetween(entries, begin, end);
    if |keys| > limit {
      assert keys[..limit][d] == keys[d];
      assert keys[..|keys|] == keys;
    }
  }

  lemma FirstPageThenRest(entries: set<Tuple>, begin: Cut, end: Cut, limit: nat, columns: nat, records: Records, stop: nat)
    requires 0 < limit < |KeysBetween(entries, begin, end)|
    requires AllLoad(KeysBetween(entries, begin, end)[..limit], columns, records)
    requires AllPages(entries, AfterSelf(KeysBetween(entries, begin, end)[limit - 1]), end, limit, columns, records)
          == LoadEntries(UpTo(KeysBetween(entries, begin, end)[limit..], stop), columns, records)
    ensures AllPages(entries, begin, end, limit, columns, records)
         == LoadEntries(UpTo(KeysBetween(entries, begin, end), stop + limit), columns, records)
  {
    var keys := KeysBetween(entries, begin, end);
    assert UpTo(keys, stop + limit) == keys[..limit] + UpTo(keys[limit..], stop);
    LoadEntriesConcat(keys[..limit], UpTo(keys[limit..], stop), columns, records);
  }

  function UpTo(keys: seq<Tuple>, n: nat): seq<Tuple> { if n < |keys| then keys[..n] else keys }

  lemma LaterKeys(keys: seq<Tuple>, limit: nat, d: nat, columns: nat, records: Records)
    requires 0 < limit <= d < |keys| && AllLoad(keys[..d], columns, records)
    ensures AllLoad(keys[..limit], columns, records) && AllLoad(keys[limit..][..d - limit], columns, records)
  {
    assert keys[..d][..limit] == keys[..limit] && keys[..d][limit..] == keys[limit..][..d - limit];
    var some := keys[..d];
    assert forall j :: 0 <= j < limit ==> some[..limit][j] == some[j];
    forall j | 0 <= j < d - limit ensures LoadEntry(some[limit..][j], columns, records).Some? {
      assert some[limit..][j] == some[j + limit];
    }
  }

  // ---- When paging visits everything ----

  /** The place of the first key that does not load; past the end when all do. */
  function FirstDangling(keys: seq<Tuple>, columns: nat, records: Records): (d: nat)
    ensures d <= |keys| && (forall j :: 0 <= j < d ==> LoadEntry(keys[j], columns, records).Some?)
    ensures d < |keys| ==> LoadEntry(keys[d], columns, records).None?
  {
    if keys == [] || LoadEntry(keys[0], columns, records).None? then 0
    else 1 + FirstDangling(keys[1..], columns, records)
  }

  /** One key beyond the end of the page that holds the place. */
  function PageEnd(d: nat, limit: nat): nat
    requires limit > 0
  {
    d / limit * limit + limit + 1
  }

  lemma PageHolds(d: nat, limit: nat)
    requires limit > 0
    ensures d / limit * limit <= d < d / limit * limit + limit
  {
  }

  lemma EndOfPage(d: nat, limit: nat)
    requires limit > 0
    ensures PageEnd(d, limit) == d / limit * limit + limit + 1 > d
  {
    PageHolds(d, limit);
  }

  lemma {:induction false} NothingLoads(keys: seq<Tuple>, columns: nat, records: Records)
    ensures LoadEntries(keys, columns, records) == [] <==>
            forall j :: 0 <= j < |keys| ==> LoadEntry(keys[j], columns, records).None?
  {
    hide LoadEntry;
    if keys != [] {
      NothingLoads(keys[1..], columns, records);
      assert keys == [keys[0]] + keys[1..];
      assert forall j :: 0 < j < |keys| ==> keys[j] == keys[1..][j - 1];
      assert forall j :: 0 <= j < |keys[1..]| ==> keys[1..][j] == keys[j + 1];
    }
  }

  lemma AppendsNothing(a: seq<RecordKey>, b: seq<RecordKey>)
    ensures a + b == a <==> b == []
  {
    assert |a + b| == |a| + |b|;
    assert b == [] ==> a + b == a;
  }

  /** For any limit, paging visits every loadable entry of the range, in order, exactly when nothing
      that loads lies beyond the page of the first entry that does not. */
  lemma PagingIsCompleteIff(entries: set<Tuple>, begin: Cut, end: Cut, limit: nat, columns: nat, records: Records)
    requires limit > 0
    ensures var keys := KeysBetween(entries, begin, end);
            AllPages(entries, begin, end, limit, columns, records) == LoadEntries(keys, columns, records) <==>
            forall j :: PageEnd(FirstDangling(keys, columns, records), limit) <= j < |keys| ==>
              LoadEntry(keys[j], columns, records).None?
  {
    hide AllPages, LoadEntries, LoadEntry, KeysBetween, UpTo, PageEnd;
    var keys := KeysBetween(entries, begin, end);
    var d := FirstDangling(keys, columns, records);
    var stop := PageEnd(d, limit);
    EndOfPage(d, limit);
    PageHolds(d, limit);
    if d == |keys| {
      PagingIsComplete(entries, begin, end, limit, columns, records);
    } else {
      PagingStopsAtDangling(entries, begin, end, limit, columns, records, d / limit, d);
      BeyondLoads(keys, stop, columns, records);
    }
  }

  lemma BeyondLoads(keys: seq<Tuple>, stop: nat, columns: nat, records: Records)
    ensures LoadEntries(UpTo(keys, stop), columns, records) == LoadEntries(keys, columns, records) <==>
            forall j :: stop <= j < |keys| ==> LoadEntry(keys[j], columns, records).None?
  {
    hide LoadEntries, LoadEntry;
    if stop < |keys| {
      assert keys == keys[..stop] + keys[stop..];
      LoadEntriesConcat(keys[..stop], keys[stop..], columns, records);
      AppendsNothing(LoadEntries(keys[..stop], columns, records), LoadEntries(keys[stop..], columns, records));
      NothingLoads(keys[stop..], columns, records);
      assert forall j :: stop <= j < |keys| ==> keys[j] == keys[stop..][j - stop];
    }
  }
}
