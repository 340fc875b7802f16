// Records split over several key-value pairs.
module SplitRecords {
  import opened Wrappers
  import opened Values
  import opened KeySpace

  type Byte = b: int | 0 <= b < 256

  type Bytes = seq<Byte>

  /** The stored pairs, by key tuple within the records subspace. */
  type Pairs = map<Tuple, Bytes>

  const SPLIT_RECORD_SIZE: nat := 100_000
  const UNSPLIT_RECORD: int := 0
  const START_SPLIT_RECORD: int := 1
  const RECORD_VERSION: int := -1

  function KeyOf(pk: Tuple, suffix: int): Tuple { pk + [Int(suffix)] }

  // ---- Saving ----

  function FirstChunk(data: Bytes): (chunk: Bytes)
    requires data != []
    ensures 0 < |chunk| <= |data| && data == chunk + data[|chunk|..]
  {
    if |data| <= SPLIT_RECORD_SIZE then data else data[..SPLIT_RECORD_SIZE]
  }

  function WriteChunks(pairs: Pairs, pk: Tuple, data: Bytes, index: int): Pairs
    decreases |data|
  {
    if data == [] then pairs
    else
      var chunk := FirstChunk(data);
      WriteChunks(pairs[KeyOf(pk, index) := chunk], pk, data[|chunk|..], index + 1)
  }

  function ChunkCount(data: Bytes): nat
    decreases |data|
  {
    if data == [] then 0 else 1 + ChunkCount(data[|FirstChunk(data)|..])
  }

  function Saved(pairs: Pairs, pk: Tuple, data: Bytes, omitUnsplitSuffix: bool): Pairs {
    if |data| <= SPLIT_RECORD_SIZE
    then pairs[if omitUnsplitSuffix then pk else KeyOf(pk, UNSPLIT_RECORD) := data]
    else WriteChunks(pairs, pk, data, START_SPLIT_RECORD)
  }

  /** How many pairs a save writes. */
  function Written(data: Bytes): nat { if |data| <= SPLIT_RECORD_SIZE then 1 else ChunkCount(data) }

  // ---- Deleting and loading ----

  /** The range of a primary key's subspace: every key with more columns after the primary key. */
  predicate InRange(k: Tuple, pk: Tuple) { InCuts(AfterSelf(pk), AfterExtensions(pk), k) }

  function Deleted(pairs: Pairs, pk: Tuple): Pairs { map k | k in pairs && !InRange(k, pk) :: pairs[k] }

  predicate IsChunkKey(k: Tuple, pk: Tuple) {
    HasPrefix(k, pk) && |k| == |pk| + 1 && k[|pk|].Int? && k[|pk|].i >= START_SPLIT_RECORD
  }

  function ChunkKeys(pairs: Pairs, pk: Tuple): seq<Tuple> { Sorted(set k: Tuple | k in pairs && IsChunkKey(k, pk)) }

  function Join(pairs: Pairs, ks: seq<Tuple>): Bytes {
    if ks == [] then [] else (if ks[0] in pairs then pairs[ks[0]] else []) + Join(pairs, ks[1..])
  }

  function Loaded(pairs: Pairs, pk: Tuple): Option<Bytes> {
    if KeyOf(pk, UNSPLIT_RECORD) in pairs then Some(pairs[KeyOf(pk, UNSPLIT_RECORD)])
    else if pk in pairs then Some(pairs[pk])
    else if ChunkKeys(pairs, pk) == [] then None
    else Some(Join(pairs, ChunkKeys(pairs, pk)))
  }

  // ---- The range of a key ----

  lemma RangeIsExtensions(k: Tuple, pk: Tuple)
    ensures InRange(k, pk) <==> HasPrefix(k, pk) && k != pk
  {
    TupleLessTotal(pk, k);
    if HasPrefix(k, pk) { PrefixAtMost(k, pk); }
  }

  lemma KeyOfIsChunkKey(pk: Tuple, suffix: int)
    ensures IsChunkKey(KeyOf(pk, suffix), pk) <==> suffix >= START_SPLIT_RECORD
    ensures InRange(KeyOf(pk, suffix), pk) && KeyOf(pk, suffix) != pk
  {
    RangeIsExtensions(KeyOf(pk, suffix), pk);
    assert KeyOf(pk, suffix)[..|pk|] == pk;
  }

  lemma ChunkKeyIsKeyOf(k: Tuple, pk: Tuple)
    requires IsChunkKey(k, pk)
    ensures k == KeyOf(pk, k[|pk|].i)
  {
    assert k == k[..|pk|] + [k[|pk|]];
  }

  lemma KeyOfOrder(pk: Tuple, a: int, b: int)
    ensures TupleLess(KeyOf(pk, a), KeyOf(pk, b)) <==> a < b
    ensures KeyOf(pk, a) == KeyOf(pk, b) <==> a == b
  {
    TupleLessAfterPrefix(pk, [Int(a)], [Int(b)]);
    assert KeyOf(pk, a)[|pk|] == Int(a) && KeyOf(pk, b)[|pk|] == Int(b);
  }

  // ---- What a split save writes ----

  /** The keys of n chunks from an index on. */
  function ChunkRun(pk: Tuple, index: int, n: nat): (ks: seq<Tuple>)
    ensures |ks| == n && forall j :: 0 <= j < n ==> ks[j] == KeyOf(pk, index + j)
  {
    seq(n, j requires 0 <= j < n => KeyOf(pk, index + j))
  }

  lemma {:induction false} JoinConcat(pairs: Pairs, a: seq<Tuple>, b: seq<Tuple>)
    ensures Join(pairs, a + b) == Join(pairs, a) + Join(pairs, b)
  {
    if a == [] {
      assert a + b == b;
    } else {
      assert (a + b)[1..] == a[1..] + b;
      JoinConcat(pairs, a[1..], b);
    }
  }

  /** The keys are there, in order their values are the bytes, and no other pair differs. */
  ghost predicate Holds(pairs: Pairs, before: Pairs, run: seq<Tuple>, data: Bytes) {
    Join(pairs, run) == data && (forall j :: 0 <= j < |run| ==> run[j] in pairs) &&
    forall k :: k !in run ==> (k in pairs <==> k in before) && (k in before ==> pairs[k] == before[k])
  }

  lemma RunStep(pk: Tuple, index: int, n: nat)
    requires n > 0
    ensures ChunkRun(pk, index, n) == [KeyOf(pk, index)] + ChunkRun(pk, index + 1, n - 1)
    ensures KeyOf(pk, index) !in ChunkRun(pk, index + 1, n - 1)
  {
    var later := ChunkRun(pk, index + 1, n - 1);
    forall j | 0 <= j < |later| ensures later[j] != KeyOf(pk, index) { KeyOfOrder(pk, index, index + 1 + j); }
  }

  lemma OneMoreHolds(after: Pairs, before: Pairs, first: Tuple, chunk: Bytes, later: seq<Tuple>, rest: Bytes)
    requires Holds(after, before[first := chunk], later, rest) && first !in later
    ensures Holds(after, before, [first] + later, chunk + rest)
  {
    var run := [first] + later;
    assert run[1..] == later;
    assert first in after && after[first] == chunk;
  }

  /** The chunks, in order, are the data; nothing else changes. */
  lemma {:induction false} ChunksHold(pairs: Pairs, pk: Tuple, data: Bytes, index: int)
    ensures Holds(WriteChunks(pairs, pk, data, index), pairs, ChunkRun(pk, index, ChunkCount(data)), data)
    decreases |data|
  {
    hide KeyOf, Holds;
    if data == [] {
      NothingWritten(pairs);
    } else {
      var chunk := FirstChunk(data);
      var first := KeyOf(pk, index);
      var rest := data[|chunk|..];
      var next := pairs[first := chunk];
      ChunksHold(next, pk, rest, index + 1);
      RunStep(pk, index, ChunkCount(data));
      OneMoreHolds(WriteChunks(next, pk, rest, index + 1), pairs, first, chunk, ChunkRun(pk, index + 1, ChunkCount(rest)), rest);
    }
  }

  lemma NothingWritten(pairs: Pairs)
    ensures Holds(pairs, pairs, [], [])
  {
  }

  lemma ChunksWritten(pairs: Pairs, pk: Tuple, data: Bytes, index: int)
    ensures var after := WriteChunks(pairs, pk, data, index);
            var run := ChunkRun(pk, index, ChunkCount(data));
            Join(after, run) == data && (forall j :: 0 <= j < |run| ==> run[j] in after)
    ensures forall k :: k !in ChunkRun(pk, index, ChunkCount(data)) ==>
              (k in WriteChunks(pairs, pk, data, index) <==> k in pairs) &&
              (k in pairs ==> WriteChunks(pairs, pk, data, index)[k] == pairs[k])
  {
    hide KeyOf, WriteChunks, ChunkCount;
    ChunksHold(pairs, pk, data, index);
  }

  /** Every chunk but the last is full. */
  lemma {:induction false} ChunksAreFull(pairs: Pairs, pk: Tuple, data: Bytes, index: int, j: nat)
    requires j < ChunkCount(data)
    ensures var k := KeyOf(pk, index + j);
            k in WriteChunks(pairs, pk, data, index) &&
            |WriteChunks(pairs, pk, data, index)[k]| ==
              if j < ChunkCount(data) - 1 then SPLIT_RECORD_SIZE else |data| - SPLIT_RECORD_SIZE * (ChunkCount(data) - 1)
    decreases |data|
  {
    hide KeyOf;
    var chunk := FirstChunk(data);
    var rest := data[|chunk|..];
    var next := pairs[KeyOf(pk, index) := chunk];
    if j > 0 {
      ChunksAreFull(next, pk, rest, index + 1, j - 1);
    } else {
      ChunksWritten(next, pk, rest, index + 1);
      RunStep(pk, index, ChunkCount(data));
    }
  }

  /** A save writes one pair, or one per started 100,000 bytes. */
  lemma {:induction false} ChunkCountIsCeiling(data: Bytes)
    ensures SPLIT_RECORD_SIZE * ChunkCount(data) - SPLIT_RECORD_SIZE < |data| <= SPLIT_RECORD_SIZE * ChunkCount(data) || data == []
    ensures ChunkCount(data) == (|data| + SPLIT_RECORD_SIZE - 1) / SPLIT_RECORD_SIZE
    decreases |data|
  {
    if data != [] { ChunkCountIsCeiling(data[|FirstChunk(data)|..]); }
  }

  lemma RunIsSorted(pk: Tuple, index: int, n: nat)
    ensures SortedKeys(ChunkRun(pk, index, n))
  {
    forall i, j | 0 <= i < j < n ensures TupleLess(ChunkRun(pk, index, n)[i], ChunkRun(pk, index, n)[j]) {
      KeyOfOrder(pk, index + i, index + j);
    }
  }

  // ---- Loading what was saved ----

  /** Chunks of an earlier, longer save, beyond those of this data. */
  function StaleKeys(pairs: Pairs, pk: Tuple, data: Bytes): seq<Tuple> {
    Sorted(set k: Tuple | k in pairs && IsChunkKey(k, pk) && k[|pk|].i > ChunkCount(data))
  }

  /** After a split save the chunks are the new ones, then the stale ones. */
  lemma ChunkKeysAfterSave(pairs: Pairs, pk: Tuple, data: Bytes)
    ensures ChunkKeys(WriteChunks(pairs, pk, data, START_SPLIT_RECORD), pk)
         == ChunkRun(pk, START_SPLIT_RECORD, ChunkCount(data)) + StaleKeys(pairs, pk, data)
  {
    hide WriteChunks, ChunkCount, TupleLess, Less;
    var n := ChunkCount(data);
    var after := WriteChunks(pairs, pk, data, START_SPLIT_RECORD);
    var run, stale := ChunkRun(pk, START_SPLIT_RECORD, n), StaleKeys(pairs, pk, data);
    ChunksWritten(pairs, pk, data, START_SPLIT_RECORD);
    SortedIsSorted(set k: Tuple | k in after && IsChunkKey(k, pk));
    SortedIsSorted(set k: Tuple | k in pairs && IsChunkKey(k, pk) && k[|pk|].i > n);
    RunIsSorted(pk, START_SPLIT_RECORD, n);
    forall j | 0 <= j < |stale| ensures IsChunkKey(stale[j], pk) && stale[j][|pk|].i > n { assert stale[j] in stale; }
    RunThenStaleIsSorted(pk, n, stale);
    forall k ensures k in ChunkKeys(after, pk) <==> k in run + stale {
      InRun(k, pk, n);
    }
    SortedUnique(ChunkKeys(after, pk), run + stale);
  }

  lemma InRun(k: Tuple, pk: Tuple, n: nat)
    ensures k in ChunkRun(pk, START_SPLIT_RECORD, n) <==> IsChunkKey(k, pk) && k[|pk|].i <= n
  {
    if k in ChunkRun(pk, START_SPLIT_RECORD, n) {
      var j :| 0 <= j < n && ChunkRun(pk, START_SPLIT_RECORD, n)[j] == k;
      KeyOfIsChunkKey(pk, START_SPLIT_RECORD + j);
    }
    if IsChunkKey(k, pk) && k[|pk|].i <= n {
      ChunkKeyIsKeyOf(k, pk);
      assert ChunkRun(pk, START_SPLIT_RECORD, n)[k[|pk|].i - START_SPLIT_RECORD] == k;
    }
  }

  lemma RunThenStaleIsSorted(pk: Tuple, n: nat, stale: seq<Tuple>)
    requires SortedKeys(stale) && forall j :: 0 <= j < |stale| ==> IsChunkKey(stale[j], pk) && stale[j][|pk|].i > n
    ensures SortedKeys(ChunkRun(pk, START_SPLIT_RECORD, n) + stale)
  {
    hide TupleLess;
    var run := ChunkRun(pk, START_SPLIT_RECORD, n);
    var all := run + stale;
    RunIsSorted(pk, START_SPLIT_RECORD, n);
    forall i, j | 0 <= i < j < |all| ensures TupleLess(all[i], all[j]) {
      if i < n {
        if j < n {
          assert all[i] == run[i] && all[j] == run[j];
        } else {
          ChunkKeyIsKeyOf(stale[j - n], pk);
          KeyOfOrder(pk, START_SPLIT_RECORD + i, stale[j - n][|pk|].i);
        }
      } else {
        assert all[i] == stale[i - n] && all[j] == stale[j - n];
      }
    }
  }

  lemma {:induction false} JoinSame(a: Pairs, b: Pairs, ks: seq<Tuple>)
    requires forall j :: 0 <= j < |ks| ==> (ks[j] in a <==> ks[j] in b) && (ks[j] in a ==> a[ks[j]] == b[ks[j]])
    ensures Join(a, ks) == Join(b, ks)
  {
    if ks != [] {
      assert forall j :: 0 <= j < |ks[1..]| ==> ks[1..][j] == ks[j + 1];
      JoinSame(a, b, ks[1..]);
    }
  }

  /** What loading gives after a split save: another form of the record if there is one, else the data
      followed by whatever stale chunks hold. */
  lemma LoadAfterSplitSave(pairs: Pairs, pk: Tuple, data: Bytes)
    requires |data| > SPLIT_RECORD_SIZE
    ensures Loaded(Saved(pairs, pk, data, false), pk) ==
      if KeyOf(pk, UNSPLIT_RECORD) in pairs then Some(pairs[KeyOf(pk, UNSPLIT_RECORD)])
      else if pk in pairs then Some(pairs[pk])
      else Some(data + Join(pairs, StaleKeys(pairs, pk, data)))
  {
    hide WriteChunks, IsChunkKey;
    var after := WriteChunks(pairs, pk, data, START_SPLIT_RECORD);
    var n := ChunkCount(data);
    var run, stale := ChunkRun(pk, START_SPLIT_RECORD, n), StaleKeys(pairs, pk, data);
    ChunksWritten(pairs, pk, data, START_SPLIT_RECORD);
    ChunkKeysAfterSave(pairs, pk, data);
    JoinConcat(after, run, stale);
    OtherKeys(pk, n);
    StaleAreOthers(pairs, pk, data);
    JoinSame(after, pairs, stale);
    ChunkCountIsCeiling(data);
    assert n > 0;
  }

  lemma OtherKeys(pk: Tuple, n: nat)
    ensures KeyOf(pk, UNSPLIT_RECORD) !in ChunkRun(pk, START_SPLIT_RECORD, n) && pk !in ChunkRun(pk, START_SPLIT_RECORD, n)
  {
    InRun(KeyOf(pk, UNSPLIT_RECORD), pk, n);
    InRun(pk, pk, n);
    KeyOfIsChunkKey(pk, UNSPLIT_RECORD);
  }

  lemma StaleAreOthers(pairs: Pairs, pk: Tuple, data: Bytes)
    ensures var stale := StaleKeys(pairs, pk, data);
            forall j :: 0 <= j < |stale| ==> stale[j] in pairs && stale[j] !in ChunkRun(pk, START_SPLIT_RECORD, ChunkCount(data))
  {
    hide ChunkCount;
    SortedIsSorted(set k: Tuple | k in pairs && IsChunkKey(k, pk) && k[|pk|].i > ChunkCount(data));
    var stale := StaleKeys(pairs, pk, data);
    forall j | 0 <= j < |stale| ensures stale[j] in pairs && stale[j] !in ChunkRun(pk, START_SPLIT_RECORD, ChunkCount(data)) {
      assert stale[j] in stale;
      InRun(stale[j], pk, ChunkCount(data));
    }
  }

  /** What saves leave for a key: whole records of at most the split size, chunks that are not empty. */
  ghost predicate WellStored(pairs: Pairs, pk: Tuple) {
    (KeyOf(pk, UNSPLIT_RECORD) in pairs ==> |pairs[KeyOf(pk, UNSPLIT_RECORD)]| <= SPLIT_RECORD_SIZE) &&
    (pk in pairs ==> |pairs[pk]| <= SPLIT_RECORD_SIZE) &&
    forall k :: k in pairs && IsChunkKey(k, pk) ==> pairs[k] != []
  }

  /** Saving over an older version, without deleting it first, loads back as the new data exactly when
      the new data is not split, or nothing of an unsplit or longer version is left. */
  lemma {:induction false} SaveOverwritesIff(pairs: Pairs, pk: Tuple, data: Bytes)
    requires WellStored(pairs, pk)
    ensures Loaded(Saved(pairs, pk, data, false), pk) == Some(data) <==>
      |data| <= SPLIT_RECORD_SIZE ||
      (KeyOf(pk, UNSPLIT_RECORD) !in pairs && pk !in pairs &&
       forall k: Tuple :: k in pairs && IsChunkKey(k, pk) ==> k[|pk|].i <= ChunkCount(data))
  {
    hide Loaded, StaleKeys, Join, IsChunkKey, WriteChunks;
    if |data| > SPLIT_RECORD_SIZE {
      LoadAfterSplitSave(pairs, pk, data);
      StaleBytes(pairs, pk, data);
      Longer(data, Join(pairs, StaleKeys(pairs, pk, data)));
    } else {
      LoadAfterUnsplitSave(pairs, pk, data);
    }
  }

  lemma LoadAfterUnsplitSave(pairs: Pairs, pk: Tuple, data: Bytes)
    requires |data| <= SPLIT_RECORD_SIZE
    ensures Loaded(Saved(pairs, pk, data, false), pk) == Some(data)
  {
    hide WriteChunks;
  }

  lemma Longer(a: Bytes, b: Bytes)
    ensures a + b == a <==> b == []
  {
    if b != [] { assert |a + b| > |a|; }
  }

  /** No bytes are stale exactly when no later chunk is left. */
  lemma StaleBytes(pairs: Pairs, pk: Tuple, data: Bytes)
    requires WellStored(pairs, pk)
    ensures Join(pairs, StaleKeys(pairs, pk, data)) == [] <==>
            forall k: Tuple :: k in pairs && IsChunkKey(k, pk) ==> k[|pk|].i <= ChunkCount(data)
  {
    hide ChunkCount;
    var keys := set k: Tuple | k in pairs && IsChunkKey(k, pk) && k[|pk|].i > ChunkCount(data);
    var stale := StaleKeys(pairs, pk, data);
    SortedIsSorted(keys);
    if stale != [] {
      assert stale[0] in stale;
      assert pairs[stale[0]] != [];
      assert stale[0] in pairs && IsChunkKey(stale[0], pk);
    } else {
      forall k: Tuple | k in pairs && IsChunkKey(k, pk) ensures k[|pk|].i <= ChunkCount(data) {
        assert k !in stale;
        assert k !in keys;
      }
    }
  }

  lemma DeletedPairs(pairs: Pairs, pk: Tuple)
    ensures KeyOf(pk, UNSPLIT_RECORD) !in Deleted(pairs, pk) && (pk in Deleted(pairs, pk) <==> pk in pairs)
    ensures forall k :: k in Deleted(pairs, pk) ==> !IsChunkKey(k, pk)
    ensures pk in pairs ==> Deleted(pairs, pk)[pk] == pairs[pk]
  {
    KeyOfIsChunkKey(pk, UNSPLIT_RECORD);
    RangeIsExtensions(pk, pk);
    forall k | k in Deleted(pairs, pk) ensures !IsChunkKey(k, pk) { RangeIsExtensions(k, pk); }
  }

  /** Round trip: after a delete, a save loads back byte for byte, exactly when the data is not split or
      no older-format pair stands under the bare key, which the delete leaves alone. */
  lemma DeleteSaveLoadIff(pairs: Pairs, pk: Tuple, data: Bytes)
    requires WellStored(pairs, pk)
    ensures Loaded(Saved(Deleted(pairs, pk), pk, data, false), pk) == Some(data) <==> |data| <= SPLIT_RECORD_SIZE || pk !in pairs
  {
    hide Saved, Loaded, IsChunkKey, Deleted;
    DeletedPairs(pairs, pk);
    SaveOverwritesIff(Deleted(pairs, pk), pk, data);
  }

  /** The older format, without the suffix, comes back too after a delete. */
  lemma OmittedSuffixLoads(pairs: Pairs, pk: Tuple, data: Bytes)
    requires |data| <= SPLIT_RECORD_SIZE
    ensures Loaded(Saved(Deleted(pairs, pk), pk, data, true), pk) == Some(data)
  {
    hide IsChunkKey, Deleted;
    DeletedPairs(pairs, pk);
    KeyOfIsChunkKey(pk, UNSPLIT_RECORD);
  }

  /** A record's version never enters its bytes. */
  lemma VersionIsSeparate(pairs: Pairs, pk: Tuple, version: Bytes)
    ensures Loaded(pairs[KeyOf(pk, RECORD_VERSION) := version], pk) == Loaded(pairs, pk)
  {
    var key := KeyOf(pk, RECORD_VERSION);
    var after := pairs[key := version];
    KeyOfIsChunkKey(pk, RECORD_VERSION);
    KeyOfOrder(pk, RECORD_VERSION, UNSPLIT_RECORD);
    assert (set k: Tuple | k in after && IsChunkKey(k, pk)) == (set k: Tuple | k in pairs && IsChunkKey(k, pk));
    SortedIsSorted(set k: Tuple | k in pairs && IsChunkKey(k, pk));
    var ks := ChunkKeys(pairs, pk);
    forall j | 0 <= j < |ks| ensures ks[j] != key { assert ks[j] in ks; }
    JoinSame(after, pairs, ks);
  }

  // ---- Other records ----

  /** The pairs a primary key's load looks at: the bare key, and the unsplit and chunk suffixes. */
  predicate Reads(k: Tuple, pk: Tuple) { k == pk || k == KeyOf(pk, UNSPLIT_RECORD) || IsChunkKey(k, pk) }

  lemma LoadedSame(a: Pairs, b: Pairs, pk: Tuple)
    requires forall k :: Reads(k, pk) ==> (k in a <==> k in b) && (k in a ==> a[k] == b[k])
    ensures Loaded(a, pk) == Loaded(b, pk)
  {
    assert Reads(pk, pk) && Reads(KeyOf(pk, UNSPLIT_RECORD), pk);
    assert (set k: Tuple | k in a && IsChunkKey(k, pk)) == (set k: Tuple | k in b && IsChunkKey(k, pk));
    SortedIsSorted(set k: Tuple | k in a && IsChunkKey(k, pk));
    var ks := ChunkKeys(a, pk);
    forall j | 0 <= j < |ks| ensures Reads(ks[j], pk) { assert ks[j] in ks; }
    JoinSame(a, b, ks);
  }

  /** Something loads exactly when some pair the load looks at is there. */
  lemma LoadedIff(pairs: Pairs, pk: Tuple)
    ensures Loaded(pairs, pk).Some? <==> exists k :: k in pairs && Reads(k, pk)
  {
    var chunks := set k: Tuple | k in pairs && IsChunkKey(k, pk);
    var ks := ChunkKeys(pairs, pk);
    SortedIsSorted(chunks);
    assert Reads(pk, pk) && Reads(KeyOf(pk, UNSPLIT_RECORD), pk);
    if ks != [] { assert ks[0] in ks; }
    if k :| k in pairs && IsChunkKey(k, pk) { assert k in chunks; }
  }

  ghost predicate DeleteLeavesAlone(pk: Tuple, other: Tuple) {
    forall pairs: Pairs :: Loaded(Deleted(pairs, pk), other) == Loaded(pairs, other)
  }

  /** A delete leaves what loads under another key alone, whatever is stored, exactly when that key does
      not extend the deleted one. */
  lemma DeleteLeavesAloneIff(pk: Tuple, other: Tuple)
    ensures DeleteLeavesAlone(pk, other) <==> !HasPrefix(other, pk)
  {
    hide Loaded;
    if HasPrefix(other, pk) {
      var k := KeyOf(other, UNSPLIT_RECORD);
      var pairs: Pairs := map[k := []];
      assert k[..|pk|] == pk;
      RangeIsExtensions(k, pk);
      LoadedIff(pairs, other);
      LoadedIff(Deleted(pairs, pk), other);
      assert Reads(k, other);
      assert Deleted(pairs, pk) == map[];
    } else {
      forall pairs: Pairs ensures Loaded(Deleted(pairs, pk), other) == Loaded(pairs, other) {
        forall k | Reads(k, other) ensures !InRange(k, pk) {
          RangeIsExtensions(k, pk);
          ReadOutside(k, pk, other);
        }
        LoadedSame(Deleted(pairs, pk), pairs, other);
      }
    }
  }

  lemma ReadOutside(k: Tuple, pk: Tuple, other: Tuple)
    requires Reads(k, other) && !HasPrefix(other, pk)
    ensures HasPrefix(k, pk) ==> k == pk
  {
    assert KeyOf(other, UNSPLIT_RECORD)[..|other|] == other;
    PrefixesNest(k, pk, other);
  }

  lemma PrefixesNest(k: Tuple, a: Tuple, b: Tuple)
    requires HasPrefix(k, b)
    ensures HasPrefix(k, a) && |a| <= |b| ==> HasPrefix(b, a)
  {
    if HasPrefix(k, a) && |a| <= |b| { assert k[..|b|][..|a|] == k[..|a|]; }
  }

  /** The pairs a save writes. */
  predicate WritesKey(k: Tuple, pk: Tuple, data: Bytes, omitUnsplitSuffix: bool) {
    if |data| <= SPLIT_RECORD_SIZE then k == if omitUnsplitSuffix then pk else KeyOf(pk, UNSPLIT_RECORD)
    else IsChunkKey(k, pk) && k[|pk|].i <= ChunkCount(data)
  }

  lemma SavedPairs(pairs: Pairs, pk: Tuple, data: Bytes, omitUnsplitSuffix: bool, k: Tuple)
    ensures var after := Saved(pairs, pk, data, omitUnsplitSuffix);
            if WritesKey(k, pk, data, omitUnsplitSuffix) then k in after
            else (k in after <==> k in pairs) && (k in pairs ==> after[k] == pairs[k])
  {
    hide WriteChunks, ChunkCount;
    if |data| > SPLIT_RECORD_SIZE {
      ChunksWritten(pairs, pk, data, START_SPLIT_RECORD);
      InRun(k, pk, ChunkCount(data));
    }
  }

  ghost predicate SaveLeavesAlone(pk: Tuple, data: Bytes, omitUnsplitSuffix: bool, other: Tuple) {
    forall pairs: Pairs :: Loaded(Saved(pairs, pk, data, omitUnsplitSuffix), other) == Loaded(pairs, other)
  }

  /** The other key is the saved one, or one of the two is the other with a suffix the save writes or
      the load reads. */
  predicate SaveReaches(pk: Tuple, data: Bytes, omitUnsplitSuffix: bool, other: Tuple) {
    other == pk ||
    if |data| > SPLIT_RECORD_SIZE then IsChunkKey(other, pk) && other[|pk|].i <= ChunkCount(data)
    else if omitUnsplitSuffix then pk == KeyOf(other, UNSPLIT_RECORD) || IsChunkKey(pk, other)
    else other == KeyOf(pk, UNSPLIT_RECORD)
  }

  /** A save leaves what loads under another key alone, whatever is stored, exactly when the keys do
      not meet in a suffix. */
  lemma SaveLeavesAloneIff(pk: Tuple, data: Bytes, omitUnsplitSuffix: bool, other: Tuple)
    ensures SaveLeavesAlone(pk, data, omitUnsplitSuffix, other) <==> !SaveReaches(pk, data, omitUnsplitSuffix, other)
  {
    hide Loaded, Saved, ChunkCount;
    ReachedKeyIff(pk, data, omitUnsplitSuffix, other);
    if k :| WritesKey(k, pk, data, omitUnsplitSuffix) && Reads(k, other) {
      var empty: Pairs := map[];
      SavedPairs(empty, pk, data, omitUnsplitSuffix, k);
      LoadedIff(empty, other);
      LoadedIff(Saved(empty, pk, data, omitUnsplitSuffix), other);
    } else {
      forall pairs: Pairs ensures Loaded(Saved(pairs, pk, data, omitUnsplitSuffix), other) == Loaded(pairs, other) {
        var after := Saved(pairs, pk, data, omitUnsplitSuffix);
        forall k | Reads(k, other) ensures (k in after <==> k in pairs) && (k in after ==> after[k] == pairs[k]) {
          SavedPairs(pairs, pk, data, omitUnsplitSuffix, k);
        }
        LoadedSame(after, pairs, other);
      }
    }
  }

  /** Some pair is both written by the save and read by the load. */
  lemma ReachedKeyIff(pk: Tuple, data: Bytes, omitUnsplitSuffix: bool, other: Tuple)
    ensures (exists k :: WritesKey(k, pk, data, omitUnsplitSuffix) && Reads(k, other)) <==> SaveReaches(pk, data, omitUnsplitSuffix, other)
  {
    if |data| > SPLIT_RECORD_SIZE {
      var first := KeyOf(pk, START_SPLIT_RECORD);
      KeyOfIsChunkKey(pk, START_SPLIT_RECORD);
      assert WritesKey(first, pk, data, omitUnsplitSuffix);
      if IsChunkKey(other, pk) && other[|pk|].i <= ChunkCount(data) {
        assert WritesKey(other, pk, data, omitUnsplitSuffix) && Reads(other, other);
      }
      forall k | WritesKey(k, pk, data, omitUnsplitSuffix) && Reads(k, other)
        ensures SaveReaches(pk, data, omitUnsplitSuffix, other)
      {
        if k != other { assert other == k[..|other|] == k[..|pk|] == pk by { SamePrefix(k, pk, other); } }
      }
    } else {
      var k := if omitUnsplitSuffix then pk else KeyOf(pk, UNSPLIT_RECORD);
      assert WritesKey(k, pk, data, omitUnsplitSuffix);
      if !omitUnsplitSuffix && Reads(k, other) && k != other {
        SamePrefix(k, pk, other);
      }
    }
  }

  /** Saves and deletes leave the records under other primary keys of the same width alone. */
  lemma OthersUntouched(pk: Tuple, data: Bytes, omitUnsplitSuffix: bool, other: Tuple)
    requires |pk| == |other| && pk != other
    ensures DeleteLeavesAlone(pk, other) && SaveLeavesAlone(pk, data, omitUnsplitSuffix, other)
  {
    DeleteLeavesAloneIff(pk, other);
    SaveLeavesAloneIff(pk, data, omitUnsplitSuffix, other);
  }

  /** Two keys with the same suffixed form are the same. */
  lemma SamePrefix(k: Tuple, pk: Tuple, other: Tuple)
    requires |k| == |pk| + 1 && k[..|pk|] == pk && Reads(k, other) && k != other
    ensures other == pk
  {
    assert KeyOf(other, UNSPLIT_RECORD)[..|other|] == other;
    assert k[..|other|] == other;
  }

  // ---- The helper's methods ----

  class Transaction {
    var pairs: Pairs

    constructor (pairs: Pairs)
      ensures this.pairs == pairs
    {
      this.pairs := pairs;
    }

    method Set(k: Tuple, value: Bytes)
      modifies this
      ensures pairs == old(pairs)[k := value]
    {
      pairs := pairs[k := value];
    }

    method ClearRange(begin: Cut, end: Cut)
      modifies this
      ensures pairs == map k | k in old(pairs) && !InCuts(begin, end, k) :: old(pairs)[k]
    {
      pairs := map k | k in pairs && !InCuts(begin, end, k) :: pairs[k];
    }
  }

  method SavePossiblySplit(tr: Transaction, pk: Tuple, data: Bytes, omitUnsplitSuffix: bool) returns (written: nat)
    modifies tr
    ensures tr.pairs == Saved(old(tr.pairs), pk, data, omitUnsplitSuffix) && written == Written(data)
  {
    if |data| <= SPLIT_RECORD_SIZE {
      tr.Set(if omitUnsplitSuffix then pk else KeyOf(pk, UNSPLIT_RECORD), data);
      return 1;
    }
    var chunkIndex, offset := START_SPLIT_RECORD, 0;
    while offset < |data|
      invariant 0 <= offset && chunkIndex >= START_SPLIT_RECORD
      invariant var rest := if offset < |data| then data[offset..] else [];
                WriteChunks(tr.pairs, pk, rest, chunkIndex) == WriteChunks(old(tr.pairs), pk, data, START_SPLIT_RECORD) &&
                chunkIndex - START_SPLIT_RECORD + ChunkCount(rest) == ChunkCount(data)
    {
      ghost var rest := data[offset..];
      var end := if offset + SPLIT_RECORD_SIZE < |data| then offset + SPLIT_RECORD_SIZE else |data|;
      var chunk := data[offset..end];
      assert chunk == FirstChunk(rest) && rest[|chunk|..] == data[end..];
      tr.Set(KeyOf(pk, chunkIndex), chunk);
      chunkIndex := chunkIndex + 1;
      offset := offset + SPLIT_RECORD_SIZE;
    }
    written := chunkIndex - START_SPLIT_RECORD;
  }

  method DeletePossiblySplit(tr: Transaction, pk: Tuple)
    modifies tr
    ensures tr.pairs == Deleted(old(tr.pairs), pk)
  {
    tr.ClearRange(AfterSelf(pk), AfterExtensions(pk));
  }

  /** The range read returns the keys in order, so the chunks are in suffix order when collected. */
  method LoadPossiblySplit(tr: Transaction, pk: Tuple) returns (r: Option<Bytes>)
    ensures r == Loaded(tr.pairs, pk)
  {
    var pairs := tr.pairs;
    var unsplit := KeyOf(pk, UNSPLIT_RECORD);
    if unsplit in pairs {
      return Some(pairs[unsplit]);
    }
    if pk in pairs {
      return Some(pairs[pk]);
    }
    var range := set k: Tuple | k in pairs && InRange(k, pk);
    var kvs := Sorted(range);
    var chunks := CollectChunks(pairs, kvs, pk);
    CollectedAreChunkKeys(pairs, pk);
    if chunks == [] {
      return None;
    }
    r := Some(Join(pairs, chunks));
  }

  function OnlyChunks(ks: seq<Tuple>, pk: Tuple): seq<Tuple> {
    if ks == [] then [] else (if IsChunkKey(ks[0], pk) then [ks[0]] else []) + OnlyChunks(ks[1..], pk)
  }

  method CollectChunks(pairs: Pairs, kvs: seq<Tuple>, pk: Tuple) returns (chunks: seq<Tuple>)
    ensures chunks == OnlyChunks(kvs, pk)
  {
    chunks := [];
    for j := 0 to |kvs|
      invariant chunks + OnlyChunks(kvs[j..], pk) == OnlyChunks(kvs, pk)
    {
      assert kvs[j..][0] == kvs[j] && kvs[j..][1..] == kvs[j + 1..];
      if IsChunkKey(kvs[j], pk) { chunks := chunks + [kvs[j]]; }
    }
    assert chunks + [] == chunks;
  }

  lemma {:induction false} OnlyChunksMembers(ks: seq<Tuple>, pk: Tuple)
    requires SortedKeys(ks)
    ensures SortedKeys(OnlyChunks(ks, pk))
    ensures forall k :: k in OnlyChunks(ks, pk) <==> k in ks && IsChunkKey(k, pk)
  {
    if ks != [] {
      assert SortedKeys(ks[1..]) by { assert forall j :: 0 <= j < |ks[1..]| ==> ks[1..][j] == ks[j + 1]; }
      OnlyChunksMembers(ks[1..], pk);
      assert ks == [ks[0]] + ks[1..];
      var rest := OnlyChunks(ks[1..], pk);
      forall j | 0 <= j < |rest| ensures TupleLess(ks[0], rest[j]) { assert rest[j] in rest; }
    }
  }

  /** Reading the range and keeping the chunk keys gives the chunk keys in order. */
  lemma CollectedAreChunkKeys(pairs: Pairs, pk: Tuple)
    ensures OnlyChunks(Sorted(set k: Tuple | k in pairs && InRange(k, pk)), pk) == ChunkKeys(pairs, pk)
  {
    hide TupleLess, IsChunkKey;
    var range := set k: Tuple | k in pairs && InRange(k, pk);
    var chunks := set k: Tuple | k in pairs && IsChunkKey(k, pk);
    SortedIsSorted(range);
    SortedIsSorted(chunks);
    OnlyChunksMembers(Sorted(range), pk);
    forall k | k in pairs && IsChunkKey(k, pk) ensures InRange(k, pk) { ChunkKeyInRange(k, pk); }
    SortedUnique(OnlyChunks(Sorted(range), pk), Sorted(chunks));
  }

  lemma ChunkKeyInRange(k: Tuple, pk: Tuple)
    requires IsChunkKey(k, pk)
    ensures InRange(k, pk)
  {
    RangeIsExtensions(k, pk);
  }
}
