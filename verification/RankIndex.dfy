// RANK indexes: entries ordered by score, and counters per bucket of 1, 10, 100 and 1000 scores.
module RankIndex {
  import opened Wrappers
  import opened Values
  import opened KeySpace
  import opened KeyExpressions
  import opened Indexes

  const LEVELS: nat := 4
  const BUCKET_SIZE: nat := 10

  type Counter = (nat, int)

  datatype RankState = RankState(entries: set<Tuple>, counts: map<Counter, int>)

  function Divisor(level: nat): (d: nat)
    ensures d > 0
  {
    if level == 0 then 1 else BUCKET_SIZE * Divisor(level - 1)
  }

  /** _get_bucket_key for integers; the division rounds down. */
  function Bucket(score: int, level: nat): int { score / Divisor(level) }

  predicate Scored(entry: Tuple) { entry != [] && entry[0].Int? }

  function Score(entry: Tuple): int
    requires Scored(entry)
  {
    entry[0].i
  }

  function CountAt(counts: map<Counter, int>, at: Counter): int { if at in counts then counts[at] else 0 }

  function Bump(counts: map<Counter, int>, at: Counter, delta: int): map<Counter, int> {
    counts[at := Wrap(CountAt(counts, at) + delta)]
  }

  function BumpLevels(counts: map<Counter, int>, score: int, delta: int, level: nat): map<Counter, int>
    decreases LEVELS - level
  {
    if level >= LEVELS then counts
    else BumpLevels(Bump(counts, (level, Bucket(score, level)), delta), score, delta, level + 1)
  }

  function EntryAdded(st: RankState, entry: Tuple): RankState
    requires Scored(entry)
  {
    if entry in st.entries then st
    else RankState(st.entries + {entry}, BumpLevels(st.counts, Score(entry), 1, 0))
  }

  function EntryRemoved(st: RankState, entry: Tuple): RankState
    requires Scored(entry)
  {
    if entry !in st.entries then st
    else RankState(st.entries - {entry}, BumpLevels(st.counts, Score(entry), -1, 0))
  }

  // ---- The counters count ----

  ghost predicate AllScored(entries: set<Tuple>) { forall e :: e in entries ==> Scored(e) }

  ghost function InBucket(entries: set<Tuple>, level: nat, bucket: int): set<Tuple>
    requires AllScored(entries)
  {
    set e | e in entries && Bucket(Score(e), level) == bucket
  }

  /** The level-k counter of a bucket holds the number of entries whose score falls into it. */
  ghost predicate Hierarchy(st: RankState) {
    AllScored(st.entries) &&
    forall level: nat, bucket: int :: level < LEVELS ==>
      CountAt(st.counts, (level, bucket)) == Wrap(|InBucket(st.entries, level, bucket)|)
  }

  lemma {:induction false} BumpLevelsCounts(counts: map<Counter, int>, score: int, delta: int, level: nat, at: Counter)
    ensures CountAt(BumpLevels(counts, score, delta, level), at) ==
      if level <= at.0 < LEVELS && at.1 == Bucket(score, at.0) then Wrap(CountAt(counts, at) + delta) else CountAt(counts, at)
    decreases LEVELS - level
  {
    if level < LEVELS {
      BumpLevelsCounts(Bump(counts, (level, Bucket(score, level)), delta), score, delta, level + 1, at);
    }
  }

  lemma AddedKeepsHierarchy(st: RankState, entry: Tuple)
    requires Hierarchy(st) && Scored(entry)
    ensures Hierarchy(EntryAdded(st, entry))
  {
    hide BumpLevels, Bucket, Wrap;
    if entry !in st.entries {
      forall level: nat, bucket: int | level < LEVELS
        ensures CountAt(EntryAdded(st, entry).counts, (level, bucket)) == Wrap(|InBucket(EntryAdded(st, entry).entries, level, bucket)|)
      {
        BumpLevelsCounts(st.counts, Score(entry), 1, 0, (level, bucket));
        var before := InBucket(st.entries, level, bucket);
        if bucket == Bucket(Score(entry), level) {
          assert InBucket(st.entries + {entry}, level, bucket) == before + {entry};
          WrapAdd(|before|, 1);
        } else {
          assert InBucket(st.entries + {entry}, level, bucket) == before;
        }
      }
    }
  }

  lemma RemovedKeepsHierarchy(st: RankState, entry: Tuple)
    requires Hierarchy(st) && Scored(entry)
    ensures Hierarchy(EntryRemoved(st, entry))
  {
    hide BumpLevels, Bucket, Wrap;
    if entry in st.entries {
      forall level: nat, bucket: int | level < LEVELS
        ensures CountAt(EntryRemoved(st, entry).counts, (level, bucket)) == Wrap(|InBucket(EntryRemoved(st, entry).entries, level, bucket)|)
      {
        BumpLevelsCounts(st.counts, Score(entry), -1, 0, (level, bucket));
        var before := InBucket(st.entries, level, bucket);
        if bucket == Bucket(Score(entry), level) {
          assert InBucket(st.entries - {entry}, level, bucket) == before - {entry};
          WrapAdd(|before|, -1);
        } else {
          assert InBucket(st.entries - {entry}, level, bucket) == before;
        }
      }
    }
  }

  datatype RankOp = AddOp(entry: Tuple) | RemoveOp(entry: Tuple)

  function RunRank(st: RankState, ops: seq<RankOp>): RankState
    requires forall j :: 0 <= j < |ops| ==> Scored(ops[j].entry)
    decreases |ops|
  {
    if ops == [] then st
    else RunRank(if ops[0].AddOp? then EntryAdded(st, ops[0].entry) else EntryRemoved(st, ops[0].entry), ops[1..])
  }

  /** Every run of updates and removes from the empty index keeps the counters right. */
  lemma {:induction false} RunKeepsHierarchy(st: RankState, ops: seq<RankOp>)
    requires Hierarchy(st)
    requires forall j :: 0 <= j < |ops| ==> Scored(ops[j].entry)
    ensures Hierarchy(RunRank(st, ops))
    decreases |ops|
  {
    if ops != [] {
      if ops[0].AddOp? {
        AddedKeepsHierarchy(st, ops[0].entry);
        RunKeepsHierarchy(EntryAdded(st, ops[0].entry), ops[1..]);
      } else {
        RemovedKeepsHierarchy(st, ops[0].entry);
        RunKeepsHierarchy(EntryRemoved(st, ops[0].entry), ops[1..]);
      }
    }
  }

  // ---- get_rank ----

  ghost function Below(entries: set<Tuple>, score: int): set<Tuple>
    requires AllScored(entries)
  {
    set e | e in entries && Score(e) < score
  }

  ghost function SumOf(counts: map<Counter, int>, ats: set<Counter>): int
    requires ats <= counts.Keys
  {
    if ats == {} then 0 else var at :| at in ats; counts[at] + SumOf(counts, ats - {at})
  }

  function CountersBelow(counts: map<Counter, int>, level: nat, bucket: int): (ats: set<Counter>)
    ensures ats <= counts.Keys
  {
    set at | at in counts && at.0 == level && at.1 < bucket
  }

  /** get_rank for an integer: at every level, the counters of the buckets below the score's own. */
  ghost function RankOf(st: RankState, score: int): int {
    LevelSum(st, score, 0) + LevelSum(st, score, 1) + LevelSum(st, score, 2) + LevelSum(st, score, 3)
  }

  ghost function LevelSum(st: RankState, score: int, level: nat): int {
    SumOf(st.counts, CountersBelow(st.counts, level, Bucket(score, level)))
  }

  ghost predicate Consistent(st: RankState) {
    Hierarchy(st) && |st.entries| < TWO63
  }

  ghost function Counted(entries: set<Tuple>, level: nat, ats: set<Counter>): set<Tuple>
    requires AllScored(entries)
  {
    set e | e in entries && (level, Bucket(Score(e), level)) in ats
  }

  lemma SubsetSize(a: set<Tuple>, b: set<Tuple>)
    requires a <= b
    ensures |a| <= |b|
    ensures |a| == |b| ==> a == b
  {
    assert b == a + (b - a);
  }

  lemma {:induction false} SumIsCounted(st: RankState, level: nat, ats: set<Counter>)
    requires Consistent(st) && level < LEVELS
    requires ats <= st.counts.Keys && forall at :: at in ats ==> at.0 == level
    ensures SumOf(st.counts, ats) == |Counted(st.entries, level, ats)|
    decreases |ats|
  {
    if ats == {} {
      assert Counted(st.entries, level, ats) == {};
    } else {
      var at :| at in ats && SumOf(st.counts, ats) == st.counts[at] + SumOf(st.counts, ats - {at});
      SumIsCounted(st, level, ats - {at});
      var here := InBucket(st.entries, level, at.1);
      SubsetSize(here, st.entries);
      assert st.counts[at] == CountAt(st.counts, (level, at.1)) == |here|;
      assert Counted(st.entries, level, ats) == here + Counted(st.entries, level, ats - {at});
    }
  }

  /** The first score of the bucket that holds the given score. */
  function BucketStart(score: int, level: nat): int { Divisor(level) * Bucket(score, level) }

  lemma TimesMonotone(d: nat, p: int, q: int)
    requires p <= q
    ensures d * p <= d * q
  {
  }

  lemma FloorOf(d: nat, x: int)
    requires d > 0
    ensures d * (x / d) <= x < d * (x / d) + d
  {
  }

  lemma FloorMonotone(d: nat, a: int, b: int)
    requires d > 0 && a <= b
    ensures d * (a / d) <= d * (b / d) <= b
  {
    FloorOf(d, a);
    FloorOf(d, b);
    FloorOrder(d, b, a / d, b / d);
  }

  lemma FloorOrder(d: nat, b: int, p: int, q: int)
    requires d * p <= b < d * q + d
    ensures d * p <= d * q
  {
    if q + 1 <= p { TimesMonotone(d, q + 1, p); } else { TimesMonotone(d, p, q); }
  }

  lemma BucketOrder(a: int, score: int, level: nat)
    ensures Bucket(a, level) < Bucket(score, level) <==> a < BucketStart(score, level)
    ensures score - Divisor(level) < BucketStart(score, level) <= score
  {
    var d := Divisor(level);
    FloorOf(d, a);
    FloorOf(d, score);
    QuotientOrder(d, a, a / d, score / d);
  }

  lemma QuotientOrder(d: nat, a: int, q: int, p: int)
    requires d * q <= a < d * q + d
    ensures q < p <==> a < d * p
  {
    if q + 1 <= p { TimesMonotone(d, q + 1, p); } else { TimesMonotone(d, p, q); }
  }

  lemma LevelSumIsBelow(st: RankState, score: int, level: nat)
    requires Consistent(st) && level < LEVELS
    ensures LevelSum(st, score, level) == |Below(st.entries, BucketStart(score, level))|
  {
    var ats := CountersBelow(st.counts, level, Bucket(score, level));
    SumIsCounted(st, level, ats);
    forall e | e in st.entries
      ensures e in Counted(st.entries, level, ats) <==> e in Below(st.entries, BucketStart(score, level))
    {
      BucketOrder(Score(e), score, level);
      var b := Bucket(Score(e), level);
      var here := InBucket(st.entries, level, b);
      assert e in here;
      SubsetSize(here, st.entries);
      SubsetSize({e}, here);
      assert CountAt(st.counts, (level, b)) == |here|;
    }
    assert Counted(st.entries, level, ats) == Below(st.entries, BucketStart(score, level));
  }

  /** What get_rank returns: the number of smaller scores, plus, for each coarser level, the number
      of scores below the score's bucket of that level. */
  lemma RankValue(st: RankState, score: int)
    requires Consistent(st)
    ensures RankOf(st, score) == |Below(st.entries, score)|
      + |Below(st.entries, 10 * (score / 10))|
      + |Below(st.entries, 100 * (score / 100))|
      + |Below(st.entries, 1000 * (score / 1000))|
  {
    LevelSumIsBelow(st, score, 0);
    LevelSumIsBelow(st, score, 1);
    LevelSumIsBelow(st, score, 2);
    LevelSumIsBelow(st, score, 3);
    assert Divisor(0) == 1 && Divisor(1) == 10 && Divisor(2) == 100 && Divisor(3) == 1000;
    assert BucketStart(score, 0) == score;
  }

  lemma BelowMonotone(entries: set<Tuple>, a: int, b: int)
    requires AllScored(entries) && a <= b
    ensures |Below(entries, a)| <= |Below(entries, b)|
  {
    SubsetSize(Below(entries, a), Below(entries, b));
  }

  /** get_rank lies between the true rank and four times it. */
  lemma RankBounds(st: RankState, score: int)
    requires Consistent(st)
    ensures |Below(st.entries, score)| <= RankOf(st, score) <= 4 * |Below(st.entries, score)|
  {
    RankValue(st, score);
    FloorMonotone(10, score, score);
    FloorMonotone(100, score, score);
    FloorMonotone(1000, score, score);
    BelowMonotone(st.entries, 10 * (score / 10), score);
    BelowMonotone(st.entries, 100 * (score / 100), score);
    BelowMonotone(st.entries, 1000 * (score / 1000), score);
  }

  /** get_rank never decreases as the score grows. */
  lemma RankMonotone(st: RankState, a: int, b: int)
    requires Consistent(st) && a <= b
    ensures RankOf(st, a) <= RankOf(st, b)
  {
    RankValue(st, a);
    RankValue(st, b);
    FloorMonotone(10, a, b);
    FloorMonotone(100, a, b);
    FloorMonotone(1000, a, b);
    BelowMonotone(st.entries, a, b);
    BelowMonotone(st.entries, 10 * (a / 10), 10 * (b / 10));
    BelowMonotone(st.entries, 100 * (a / 100), 100 * (b / 100));
    BelowMonotone(st.entries, 1000 * (a / 1000), 1000 * (b / 1000));
  }

  lemma CoarserFloors(score: int)
    ensures 1000 * (score / 1000) <= 10 * (score / 10) && 100 * (score / 100) <= 10 * (score / 10)
  {
    FloorOrder(10, score, 10 * (score / 100), score / 10);
    FloorOrder(10, score, 100 * (score / 1000), score / 10);
  }

  lemma NoneBelow(entries: set<Tuple>, start: int)
    requires AllScored(entries)
    ensures |Below(entries, start)| == 0 <==> forall e :: e in entries ==> Score(e) >= start
  {
    if e :| e in entries && Score(e) < start {
      assert e in Below(entries, start);
    } else {
      assert Below(entries, start) == {};
    }
  }

  /** get_rank is the true rank exactly when no entry lies below the score's bucket of ten. */
  lemma RankExactIff(st: RankState, score: int)
    requires Consistent(st)
    ensures RankOf(st, score) == |Below(st.entries, score)| <==>
            forall e :: e in st.entries ==> Score(e) >= 10 * (score / 10)
  {
    RankValue(st, score);
    CoarserFloors(score);
    BelowMonotone(st.entries, 100 * (score / 100), 10 * (score / 10));
    BelowMonotone(st.entries, 1000 * (score / 1000), 10 * (score / 10));
    NoneBelow(st.entries, 10 * (score / 10));
  }

  /** For example: with scores 1 and 20 stored, the rank of 20 comes out as 2. */
  lemma RankOvercounts(st: RankState, low: Tuple, high: Tuple)
    requires Consistent(st) && st.entries == {low, high}
    requires Score(low) == 1 && Score(high) == 20
    ensures RankOf(st, 20) == 2 && |Below(st.entries, 20)| == 1
  {
    RankValue(st, 20);
    assert Below(st.entries, 20) == {low};
    assert 10 * (20 / 10) == 20 && 100 * (20 / 100) == 0 && 1000 * (20 / 1000) == 0;
    assert Below(st.entries, 0) == {};
  }

  /** get_count is the number of entries: the finest level counts each entry once. */
  lemma CountIsSize(st: RankState)
    requires Consistent(st)
    ensures SumOf(st.counts, set at | at in st.counts && at.0 == 0) == |st.entries|
  {
    var ats := set at | at in st.counts && at.0 == 0;
    SumIsCounted(st, 0, ats);
    forall e | e in st.entries ensures e in Counted(st.entries, 0, ats) {
      var here := InBucket(st.entries, 0, Bucket(Score(e), 0));
      assert e in here;
      SubsetSize(here, st.entries);
      SubsetSize({e}, here);
      assert CountAt(st.counts, (0, Bucket(Score(e), 0))) == |here|;
    }
    assert Counted(st.entries, 0, ats) == st.entries;
  }

  // ---- Ranges of ranks ----

  /** The first column that names a record type, which the code takes for the type column. */
  function TypeColumn(entry: Tuple, types: set<string>): (at: nat)
    ensures at <= |entry|
    ensures at < |entry| ==> entry[at].Str? && entry[at].s in types
  {
    if entry == [] then 0
    else if entry[0].Str? && entry[0].s in types then 0
    else 1 + TypeColumn(entry[1..], types)
  }

  function Load(entry: Tuple, types: set<string>, records: Records): Option<RecordKey> {
    var at := TypeColumn(entry, types);
    if at == |entry| then None
    else
      var k := RecordKey(entry[at].s, entry[at + 1..]);
      if k in records then Some(k) else None
  }

  /** The loadable entries among some, in order. */
  function LoadAll(entries: seq<Tuple>, types: set<string>, records: Records): seq<RecordKey> {
    if entries == [] then []
    else
      var k := Load(entries[0], types, records);
      (if k.Some? then [k.value] else []) + LoadAll(entries[1..], types, records)
  }

  function Slice(entries: seq<Tuple>, startRank: int, endRank: int): seq<Tuple> {
    var lo := if startRank < 0 then 0 else if startRank > |entries| then |entries| else startRank;
    var hi := if endRank < lo then lo else if endRank > |entries| then |entries| else endRank;
    entries[lo..hi]
  }

  lemma ScoresInOrder(a: Tuple, b: Tuple)
    requires Scored(a) && Scored(b) && TupleLess(a, b)
    ensures Score(a) <= Score(b)
  {
  }

  /** Sorted entries are in score order. */
  lemma SortedByScore(entries: set<Tuple>, i: nat, j: nat)
    requires AllScored(entries) && i < j < |Sorted(entries)|
    ensures Scored(Sorted(entries)[i]) && Scored(Sorted(entries)[j])
    ensures Score(Sorted(entries)[i]) <= Score(Sorted(entries)[j])
  {
    SortedIsSorted(entries);
    var a, b := Sorted(entries)[i], Sorted(entries)[j];
    assert a in Sorted(entries) && b in Sorted(entries);
    ScoresInOrder(a, b);
  }

  /** When every entry's record loads, a rank range is the exact slice of the sorted entries. */
  lemma {:induction false} LoadAllExact(entries: seq<Tuple>, types: set<string>, records: Records)
    requires forall j :: 0 <= j < |entries| ==> Load(entries[j], types, records).Some?
    ensures |LoadAll(entries, types, records)| == |entries|
    ensures forall j :: 0 <= j < |entries| ==> Some(LoadAll(entries, types, records)[j]) == Load(entries[j], types, records)
  {
    if entries != [] {
      assert forall j :: 0 <= j < |entries[1..]| ==> entries[1..][j] == entries[j + 1];
      LoadAllExact(entries[1..], types, records);
    }
  }

  /** An entry of an integer score loads the record it was made for. */
  lemma EntryLoads(score: int, k: RecordKey, types: set<string>, records: Records)
    requires k.typeName in types && k in records
    ensures Load(FullKey([Int(score)], k.typeName, k.pk), types, records) == Some(k)
  {
    var entry := FullKey([Int(score)], k.typeName, k.pk);
    assert entry[1..] == [Str(k.typeName)] + k.pk;
    assert TypeColumn(entry, types) == 1;
    assert entry[2..] == k.pk;
  }

  // ---- The maintainer ----

  /** A record's entry, when its first key exists. */
  function RankEntry(root: KeyExpression, r: Record, pk: Tuple): Option<Tuple> {
    var keys := Evaluate(root, r);
    if keys == [] then None else Some(FullKey(keys[0], r.typeName, pk))
  }

  class RankIndexMaintainer {
    const root: KeyExpression
    var entries: set<Tuple>
    var counts: map<Counter, int>

    function Abstract(): RankState
      reads this
    {
      RankState(entries, counts)
    }

    constructor (root: KeyExpression)
      ensures this.root == root && Abstract() == RankState({}, map[]) && Hierarchy(Abstract())
    {
      this.root := root;
      entries := {};
      counts := map[];
      new;
      assert forall level: nat, bucket: int :: InBucket({}, level, bucket) == {};
    }

    /** The record's first key, when it exists, is an integer score. */
    predicate IntegerScore(r: Record) {
      var keys := Evaluate(root, r);
      keys != [] ==> Scored(keys[0])
    }

    method BumpAll(score: int, delta: int)
      modifies this`counts
      ensures counts == BumpLevels(old(counts), score, delta, 0)
    {
      var level := 0;
      while level < LEVELS
        invariant level <= LEVELS
        invariant BumpLevels(counts, score, delta, level) == BumpLevels(old(counts), score, delta, 0)
      {
        var at := (level, Bucket(score, level));
        counts := counts[at := Wrap(CountAt(counts, at) + delta)];
        level := level + 1;
      }
    }

    method Update(r: Record, pk: Tuple)
      requires IntegerScore(r) && Hierarchy(Abstract())
      modifies this
      ensures Hierarchy(Abstract())
      ensures Abstract() == if RankEntry(root, r, pk).None? then old(Abstract()) else EntryAdded(old(Abstract()), RankEntry(root, r, pk).value)
    {
      var entry := RankEntry(root, r, pk);
      if entry.None? {
        return;
      }
      AddedKeepsHierarchy(Abstract(), entry.value);
      if entry.value in entries {
        return;
      }
      entries := entries + {entry.value};
      BumpAll(Score(entry.value), 1);
    }

    method Remove(r: Record, pk: Tuple)
      requires IntegerScore(r) && Hierarchy(Abstract())
      modifies this
      ensures Hierarchy(Abstract())
      ensures Abstract() == if RankEntry(root, r, pk).None? then old(Abstract()) else EntryRemoved(old(Abstract()), RankEntry(root, r, pk).value)
    {
      var entry := RankEntry(root, r, pk);
      if entry.None? {
        return;
      }
      RemovedKeepsHierarchy(Abstract(), entry.value);
      if entry.value !in entries {
        return;
      }
      entries := entries - {entry.value};
      BumpAll(Score(entry.value), -1);
    }

    /** Add up the counters a range read returns. */
    method SumRange(ats: set<Counter>) returns (total: int)
      requires ats <= counts.Keys
      ensures total == SumOf(counts, ats)
    {
      total := 0;
      var rest := ats;
      while rest != {}
        invariant rest <= ats
        invariant total + SumOf(counts, rest) == SumOf(counts, ats)
      {
        var at :| at in rest;
        SumOfRemove(counts, rest, at);
        total := total + counts[at];
        rest := rest - {at};
      }
    }

    method GetRank(score: int) returns (rank: int)
      ensures rank == RankOf(Abstract(), score)
      ensures Consistent(Abstract()) ==> |Below(entries, score)| <= rank <= 4 * |Below(entries, score)|
    {
      rank := 0;
      var level := LEVELS;
      while level > 0
        invariant level <= LEVELS
        invariant rank == (if level <= 0 then LevelSum(Abstract(), score, 0) else 0)
                        + (if level <= 1 then LevelSum(Abstract(), score, 1) else 0)
                        + (if level <= 2 then LevelSum(Abstract(), score, 2) else 0)
                        + (if level <= 3 then LevelSum(Abstract(), score, 3) else 0)
      {
        level := level - 1;
        var sum := SumRange(CountersBelow(counts, level, Bucket(score, level)));
        rank := rank + sum;
      }
      if Consistent(Abstract()) { RankBounds(Abstract(), score); }
    }

    method GetCount() returns (total: int)
      ensures Consistent(Abstract()) ==> total == |entries|
    {
      total := SumRange(set at | at in counts && at.0 == 0);
      if Consistent(Abstract()) { CountIsSize(Abstract()); }
    }

    /** get_by_rank_range. */
    method GetByRankRange(startRank: int, endRank: int, types: set<string>,
          records: Records) returns (results: seq<RecordKey>)
      ensures results == if startRank >= endRank then [] else LoadAll(Slice(Sorted(entries), startRank, endRank), types, records)
    {
      if startRank >= endRank {
        return [];
      }
      results := WalkRanks(Sorted(entries), startRank, endRank, types, records);
    }
  }

  /** Walk the entries in order, skipping to the start rank and stopping at the end rank. */
  method WalkRanks(ordered: seq<Tuple>, startRank: int, endRank: int, types: set<string>, records: Records)
    returns (results: seq<RecordKey>)
    requires startRank < endRank
    ensures results == LoadAll(Slice(ordered, startRank, endRank), types, records)
  {
    results := [];
    var currentRank := 0;
    while currentRank < |ordered|
      invariant 0 <= currentRank <= |ordered|
      invariant results + Rest(ordered, currentRank, startRank, endRank, types, records)
             == Rest(ordered, 0, startRank, endRank, types, records)
    {
      if currentRank >= endRank {
        break;
      }
      RestStep(ordered, currentRank, startRank, endRank, types, records);
      ghost var rest := Rest(ordered, currentRank + 1, startRank, endRank, types, records);
      if currentRank >= startRank {
        var k := Load(ordered[currentRank], types, records);
        if k.Some? {
          Regroup(results, [k.value], rest);
          results := results + [k.value];
        }
      }
      currentRank := currentRank + 1;
    }
    NoRest(ordered, currentRank, startRank, endRank, types, records);
    Regroup(results, [], []);
  }

  /** What the walk still has to load from a rank on. */
  function Rest(ordered: seq<Tuple>, rank: int, startRank: int, endRank: int, types: set<string>,
        records: Records): seq<RecordKey> {
    LoadAll(Slice(ordered, Later(startRank, rank), endRank), types, records)
  }

  lemma RestStep(ordered: seq<Tuple>, rank: nat, startRank: int, endRank: int, types: set<string>, records: Records)
    requires rank < |ordered| && rank < endRank
    ensures var k := Load(ordered[rank], types, records);
            Rest(ordered, rank, startRank, endRank, types, records)
            == (if rank >= startRank && k.Some? then [k.value] else [])
               + Rest(ordered, rank + 1, startRank, endRank, types, records)
  {
    if rank >= startRank {
      SliceStep(ordered, rank, endRank);
      LoadFirst(Slice(ordered, rank, endRank), types, records);
    } else {
      Regroup([], [], Rest(ordered, rank + 1, startRank, endRank, types, records));
    }
  }

  lemma NoRest(ordered: seq<Tuple>, rank: nat, startRank: int, endRank: int, types: set<string>, records: Records)
    requires startRank < endRank && (rank >= |ordered| || rank >= endRank)
    ensures Rest(ordered, rank, startRank, endRank, types, records) == []
    ensures Rest(ordered, 0, startRank, endRank, types, records) == LoadAll(Slice(ordered, startRank, endRank), types, records)
  {
  }

  lemma LoadFirst(entries: seq<Tuple>, types: set<string>, records: Records)
    requires entries != []
    ensures var k := Load(entries[0], types, records);
            LoadAll(entries, types, records) == (if k.Some? then [k.value] else []) + LoadAll(entries[1..], types, records)
  {
  }

  function Later(a: int, b: int): int { if a < b then b else a }

  lemma SliceStep(entries: seq<Tuple>, rank: nat, endRank: int)
    requires rank < |entries| && rank < endRank
    ensures Slice(entries, rank, endRank) != []
    ensures Slice(entries, rank, endRank)[0] == entries[rank]
    ensures Slice(entries, rank, endRank)[1..] == Slice(entries, rank + 1, endRank)
  {
  }

  lemma {:induction false} SumOfRemove(counts: map<Counter, int>, ats: set<Counter>, at: Counter)
    requires ats <= counts.Keys && at in ats
    ensures SumOf(counts, ats) == counts[at] + SumOf(counts, ats - {at})
    decreases |ats|
  {
    var p :| p in ats && SumOf(counts, ats) == counts[p] + SumOf(counts, ats - {p});
    if p != at {
      SumOfRemove(counts, ats - {p}, at);
      SumOfRemove(counts, ats - {at}, p);
      assert ats - {p} - {at} == ats - {at} - {p};
    }
  }
}
