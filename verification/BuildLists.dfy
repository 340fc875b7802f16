// Online builds over a list of record types: exactly when every build comes out right.
//
// The builder's position is one bare primary key for all types, so a batch of one type's records can
// carry it past records of a type listed later.
module BuildLists {
  import opened Wrappers
  import opened Values
  import opened KeySpace
  import opened KeyExpressions
  import opened Indexes
  import opened RecordStore
  import opened OnlineBuild

  /** Every completed build of every store, in every interleaving, ends in agreement. */
  ghost predicate BuildsRight(meta: MetaData, n: nat, types: seq<string>, size: nat) {
    forall store: State, steps: seq<Step> ::
      MayStart(meta, n, store) && AllPermitted(meta.indexes[n], steps) ==>
        CompletesRight(meta, n, types, size, store, steps)
  }

  ghost predicate CompletesRight(meta: MetaData, n: nat, types: seq<string>, size: nat, store: State, steps: seq<Step>)
    requires MayStart(meta, n, store)
  {
    var end := RunBuild(meta, n, types, size, BuildState(store, NotStarted), [Begin] + steps);
    end.phase.Completed? ==> IndexAgrees(meta, end.store, n)
  }

  /** Some build goes wrong on a store that calls on the empty one lead to. */
  ghost predicate GoesWrong(meta: MetaData, n: nat, types: seq<string>, size: nat) {
    DistinctNames(meta.indexes) && ValidState(meta, EmptyStore(meta)) &&
    exists ops: seq<Op>, steps: seq<Step> ::
      MayStart(meta, n, Run(meta, EmptyStore(meta), ops)) && AllPermitted(meta.indexes[n], steps) &&
      !CompletesRight(meta, n, types, size, Run(meta, EmptyStore(meta), ops), steps)
  }

  /** Builds over a list of types are right on every store and in every interleaving exactly when no
      batch can overtake a record with entries; otherwise one goes wrong on a store that saves produce. */
  lemma BuildsRightIff(meta: MetaData, n: nat, types: seq<string>, size: nat)
    requires DistinctNames(meta.indexes) && n < |meta.indexes| && HoldsEntries(meta.indexes[n])
    requires Lists(meta, meta.indexes[n], types)
    ensures BuildsRight(meta, n, types, size) <==> NothingOvertaken(meta, meta.indexes[n], types, size)
    ensures GoesWrong(meta, n, types, size) <==> !NothingOvertaken(meta, meta.indexes[n], types, size)
  {
    hide Lists, CompletesRight, CanBeOvertaken, KeyOf, RecordEntries;
    var i := meta.indexes[n];
    EmptyStoreIsValid(meta);
    if NothingOvertaken(meta, i, types, size) {
      forall store: State, steps: seq<Step> | MayStart(meta, n, store) && AllPermitted(i, steps)
        ensures CompletesRight(meta, n, types, size, store, steps)
      {
        RightBuild(meta, n, types, size, store, steps);
      }
    } else {
      var j: nat, r: Record :| FirstListed(types, j) && r.typeName == types[j] && Contributing(meta, i, r) &&
        !(Applies(i, types[j]) && !CanBeOvertaken(meta, types[..j], size, KeyOf(meta, r).value.pk));
      if Applies(i, types[j]) {
        OvertakenIsMissed(meta, n, types, size, j, r);
      } else {
        UncoveredIsIndexed(meta, n, types, size, r);
      }
      WrongIsNotRight(meta, n, types, size);
    }
  }

  lemma RightBuild(meta: MetaData, n: nat, types: seq<string>, size: nat, store: State, steps: seq<Step>)
    requires MayStart(meta, n, store) && AllPermitted(meta.indexes[n], steps)
    requires Lists(meta, meta.indexes[n], types) && NothingOvertaken(meta, meta.indexes[n], types, size)
    ensures CompletesRight(meta, n, types, size, store, steps)
  {
    hide Lists, NothingOvertaken;
    CompletedBuildAgrees(meta, n, types, size, store, steps);
  }

  lemma WrongIsNotRight(meta: MetaData, n: nat, types: seq<string>, size: nat)
    requires GoesWrong(meta, n, types, size)
    ensures !BuildsRight(meta, n, types, size)
  {
  }

  // ---- Stores that saves produce ----

  /** Any records under their own keys can be saved while the index is DISABLED, which leaves it empty. */
  lemma {:induction false} SavedWhileDisabled(meta: MetaData, n: nat, records: Records) returns (ops: seq<Op>)
    requires ValidState(meta, EmptyStore(meta)) && n < |meta.indexes| && Keyed(meta, records)
    ensures var store := Run(meta, EmptyStore(meta), ops);
            store.records == records && StateOf(store.states, meta.indexes[n].name) == Disabled &&
            ValidState(meta, store) && store.contents[meta.indexes[n].name] == EmptyContent(meta.indexes[n])
    decreases |records|
  {
    if records == map[] {
      ops := [SetStateOp(meta.indexes[n].name, Disabled)];
      EmptyContentsAt(meta.indexes);
      assert ops[1..] == [];
    } else {
      var k :| k in records;
      var fewer := records - {k};
      assert records == fewer[k := records[k]];
      assert fewer.Keys == records.Keys - {k};
      var before := SavedWhileDisabled(meta, n, fewer);
      ops := before + [SaveOp(records[k])];
      OneMoreSaved(meta, n, before, k, records[k]);
    }
  }

  lemma OneMoreSaved(meta: MetaData, n: nat, before: seq<Op>, k: RecordKey, r: Record)
    requires ValidState(meta, EmptyStore(meta)) && n < |meta.indexes| && KeyOf(meta, r) == Ok(k)
    requires var store := Run(meta, EmptyStore(meta), before);
             StateOf(store.states, meta.indexes[n].name) == Disabled &&
             ValidState(meta, store) && store.contents[meta.indexes[n].name] == EmptyContent(meta.indexes[n])
    ensures var store, after := Run(meta, EmptyStore(meta), before), Run(meta, EmptyStore(meta), before + [SaveOp(r)]);
            after.records == store.records[k := r] && StateOf(after.states, meta.indexes[n].name) == Disabled &&
            ValidState(meta, after) && after.contents[meta.indexes[n].name] == EmptyContent(meta.indexes[n])
  {
    var store := Run(meta, EmptyStore(meta), before);
    RunConcat(meta, EmptyStore(meta), before, [SaveOp(r)]);
    ApplyIsValid(meta, store, SaveOp(r));
    assert [SaveOp(r)][1..] == [];
    assert Run(meta, store, [SaveOp(r)]) == Apply(meta, store, SaveOp(r));
    MaintainAllContents(meta.indexes, store.contents, store.states, k, Lookup(store.records, k), Some(r));
  }

  /** A wrong build of records under their own keys is one on a store that saves produce. */
  lemma WrongOnSaved(meta: MetaData, n: nat, types: seq<string>, size: nat, ops: seq<Op>, steps: seq<Step>)
    requires DistinctNames(meta.indexes) && ValidState(meta, EmptyStore(meta))
    requires MayStart(meta, n, Run(meta, EmptyStore(meta), ops)) && AllPermitted(meta.indexes[n], steps)
    requires !CompletesRight(meta, n, types, size, Run(meta, EmptyStore(meta), ops), steps)
    ensures GoesWrong(meta, n, types, size)
  {
  }

  // ---- A batch that overtakes a record ----

  lemma {:induction false} IndexEachKeys(i: Index, c: Content, records: Records, keys: seq<RecordKey>, key: Tuple)
    requires HoldsEntries(i) && RightKind(i, c)
    requires forall j :: 0 <= j < |keys| ==> keys[j] in records
    ensures key in IndexEach(i, c, records, keys).entries <==>
      key in c.entries || exists k :: k in keys && key in RecordEntries(i, records[k], k.pk)
    decreases |keys|
  {
    if keys != [] {
      assert keys == [keys[0]] + keys[1..];
      IndexEachKeys(i, Updated(i, c, records[keys[0]], keys[0].pk), records, keys[1..], key);
    }
  }

  /** The entry is missing, and only records that the position has passed have it. */
  ghost predicate LeftBehind(meta: MetaData, n: nat, b: BuildState, key: Tuple) {
    ValidBuild(meta, n, b) && HoldsEntries(meta.indexes[n]) &&
    b.phase.Building? && b.phase.position.Some? && b.phase.position.value != [] &&
    key !in b.store.contents[meta.indexes[n].name].entries &&
    forall k :: k in b.store.records && key in RecordEntries(meta.indexes[n], b.store.records[k], k.pk) ==>
      TupleAtMost(k.pk, b.phase.position.value)
  }

  /** One more batch does not bring the entry back, and leaves fewer records ahead. */
  lemma StaysBehind(meta: MetaData, n: nat, types: seq<string>, size: nat, b: BuildState, key: Tuple)
    requires LeftBehind(meta, n, b, key)
    ensures var after := Next(meta, n, types, size, b, Batch);
            after.store.records == b.store.records && key !in after.store.contents[meta.indexes[n].name].entries &&
            (after.phase.Completed? ||
             (LeftBehind(meta, n, after, key) &&
              KeysAfter(b.store.records, types, after.phase.position) < KeysAfter(b.store.records, types, b.phase.position)))
  {
    hide RecordEntries, Scan, TupleLess;
    var i, records, position := meta.indexes[n], b.store.records, b.phase.position;
    var keys := Scan(records, types, position, size);
    ScanStored(records, types, position, size);
    IndexEachKeys(i, b.store.contents[i.name], records, keys, key);
    ScannedAreAfter(records, types, position, size);
    forall k | k in keys ensures k in records && key !in RecordEntries(i, records[k], k.pk) {
      assert !TupleAtMost(k.pk, position.value);
    }
    BatchShrinks(records, types, position, size);
    if keys != [] {
      var last := keys[|keys| - 1];
      assert last in keys;
      EmptyIsLeast(last.pk, position.value);
      forall k | k in records && key in RecordEntries(i, records[k], k.pk) ensures TupleAtMost(k.pk, last.pk) {
        StillPassed(k.pk, position.value, last.pk);
      }
    }
  }

  lemma ScannedAreAfter(records: Records, types: seq<string>, position: Option<Tuple>, size: nat)
    ensures forall k :: k in Scan(records, types, position, size) ==> After(position, k.pk)
  {
    CandidatesStored(records, types, position);
    forall k | k in Scan(records, types, position, size) ensures k in Candidates(records, types, position) {
    }
  }

  lemma EmptyIsLeast(pk: Tuple, position: Tuple)
    ensures !TupleAtMost(pk, position) ==> pk != []
  {
  }

  lemma StillPassed(pk: Tuple, position: Tuple, last: Tuple)
    requires TupleAtMost(pk, position) && !TupleAtMost(last, position)
    ensures TupleAtMost(pk, last)
  {
    TupleLessTotal(position, last);
    if pk != position { TupleLessTransitive(pk, position, last); }
  }

  /** Left to itself, the builder completes without the entry. */
  lemma {:induction false} QuietlyCompletes(meta: MetaData, n: nat, types: seq<string>, size: nat, b: BuildState,
        key: Tuple)
    returns (steps: seq<Step>)
    requires LeftBehind(meta, n, b, key)
    ensures AllPermitted(meta.indexes[n], steps)
    ensures var end := RunBuild(meta, n, types, size, b, steps);
            end.phase.Completed? && end.store.records == b.store.records &&
            key !in end.store.contents[meta.indexes[n].name].entries
    decreases KeysAfter(b.store.records, types, b.phase.position)
  {
    hide RecordEntries, Scan, TupleLess;
    var after := Next(meta, n, types, size, b, Batch);
    StaysBehind(meta, n, types, size, b, key);
    if after.phase.Completed? {
      steps := [Batch];
      assert steps[1..] == [];
    } else {
      var rest := QuietlyCompletes(meta, n, types, size, after, key);
      steps := [Batch] + rest;
      assert steps[0] == Batch && steps[1..] == rest;
    }
  }

  /** Adding a record of another type leaves the candidates of these types alone. */
  lemma {:induction false} SameCandidates(records: Records, types: seq<string>, k: RecordKey, r: Record)
    requires k.typeName !in types
    ensures Candidates(records[k := r], types, None) == Candidates(records, types, None)
  {
    if types != [] {
      SameCandidates(records, types[1..], k, r);
      var after := records[k := r];
      forall pk ensures pk in PksOf(after, types[0]) <==> pk in PksOf(records, types[0]) {
        assert pk in PksOf(after, types[0]) <==> RecordKey(types[0], pk) in after;
        assert pk in PksOf(records, types[0]) <==> RecordKey(types[0], pk) in records;
      }
      assert PksAfter(after, types[0], None) == PksAfter(records, types[0], None);
    }
  }

  /** The first batch over a store of such records and the overtaken one. */
  lemma FirstBatchOvertakes(meta: MetaData, records: Records, types: seq<string>, size: nat, j: nat,
        k: RecordKey, r: Record)
    requires FirstListed(types, j) && k.typeName == types[j] && Overtakes(meta, records, types[..j], size, k.pk)
    ensures var keys := Scan(records[k := r], types, None, size);
            |keys| == FullBatch(size) && keys[|keys| - 1].pk != [] && TupleAtMost(k.pk, keys[|keys| - 1].pk) &&
            forall l :: l in keys ==> l.typeName != k.typeName
  {
    hide TupleLess, Keyed;
    var earlier := Candidates(records, types[..j], None);
    SameCandidates(records, types[..j], k, r);
    CandidatesAround(records[k := r], types, None, j);
    CandidatesStored(records, types[..j], None);
    var keys := Scan(records[k := r], types, None, size);
    assert keys == earlier[..FullBatch(size)] == Scan(records, types[..j], None, size);
    forall l | l in keys ensures l.typeName in types[..j] {
      assert l in earlier;
    }
  }

  lemma OvertakenIsMissed(meta: MetaData, n: nat, types: seq<string>, size: nat, j: nat, r: Record)
    requires DistinctNames(meta.indexes) && n < |meta.indexes| && ValidState(meta, EmptyStore(meta))
    requires HoldsEntries(meta.indexes[n]) && Contributing(meta, meta.indexes[n], r)
    requires FirstListed(types, j) && r.typeName == types[j] && Applies(meta.indexes[n], types[j])
    requires CanBeOvertaken(meta, types[..j], size, KeyOf(meta, r).value.pk)
    ensures GoesWrong(meta, n, types, size)
  {
    var k := KeyOf(meta, r).value;
    var fillers: Records :| Overtakes(meta, fillers, types[..j], size, k.pk);
    MissedBehind(meta, n, types, size, j, k, r, fillers);
  }

  lemma MissedBehind(meta: MetaData, n: nat, types: seq<string>, size: nat, j: nat, k: RecordKey, r: Record,
        fillers: Records)
    requires DistinctNames(meta.indexes) && n < |meta.indexes| && ValidState(meta, EmptyStore(meta))
    requires HoldsEntries(meta.indexes[n]) && KeyOf(meta, r) == Ok(k) && RecordEntries(meta.indexes[n], r, k.pk) != map[]
    requires FirstListed(types, j) && k.typeName == types[j] && Applies(meta.indexes[n], types[j])
    requires Overtakes(meta, fillers, types[..j], size, k.pk)
    ensures GoesWrong(meta, n, types, size)
  {
    hide Scan, RecordEntries, TupleLess, Run, KeyOf, GoesWrong, EmptyStore, ValidState, DistinctNames;
    var records := fillers[k := r];
    assert Keyed(meta, records);
    FirstBatchOvertakes(meta, fillers, types, size, j, k, r);
    var ops := SavedWhileDisabled(meta, n, records);
    MissedOn(meta, n, types, size, ops, k);
  }

  /** The run of a build whose first batch overtakes the record under k. */
  lemma MissedOn(meta: MetaData, n: nat, types: seq<string>, size: nat, ops: seq<Op>, k: RecordKey)
    requires DistinctNames(meta.indexes) && ValidState(meta, EmptyStore(meta)) && n < |meta.indexes|
    requires HoldsEntries(meta.indexes[n]) && Applies(meta.indexes[n], k.typeName)
    requires var store := Run(meta, EmptyStore(meta), ops);
             ValidState(meta, store) && Keyed(meta, store.records) && k in store.records &&
             store.contents[meta.indexes[n].name] == EmptyContent(meta.indexes[n]) &&
             RecordEntries(meta.indexes[n], store.records[k], k.pk) != map[] &&
             var keys := Scan(store.records, types, None, size);
             |keys| == FullBatch(size) && keys[|keys| - 1].pk != [] && TupleAtMost(k.pk, keys[|keys| - 1].pk) &&
             forall l :: l in keys ==> l.typeName != k.typeName
    ensures GoesWrong(meta, n, types, size)
  {
    hide RecordEntries, Scan, TupleLess, Agrees, KeyOf;
    var i, store := meta.indexes[n], Run(meta, EmptyStore(meta), ops);
    var b0 := BuildState(store, NotStarted);
    BuildMayStart(meta, n, types, store);
    var b1 := Next(meta, n, types, size, b0, Begin);
    var b2 := Next(meta, n, types, size, b1, Batch);
    var key :| key in RecordEntries(i, store.records[k], k.pk);
    FirstBatchLeavesBehind(meta, n, types, size, b1, k, key);
    var rest := QuietlyCompletes(meta, n, types, size, b2, key);
    var steps := [Batch] + rest;
    var all := [Begin] + steps;
    assert all[0] == Begin && all[1..] == steps && steps[0] == Batch && steps[1..] == rest;
    assert RunBuild(meta, n, types, size, b1, steps) == RunBuild(meta, n, types, size, b2, rest);
    var end := RunBuild(meta, n, types, size, b0, all);
    assert end == RunBuild(meta, n, types, size, b2, rest);
    MissingEntryDisagrees(i, end.store.contents[i.name], store.records, k, key);
    WrongOnSaved(meta, n, types, size, ops, steps);
  }

  lemma MissingEntryDisagrees(i: Index, c: Content, records: Records, k: RecordKey, key: Tuple)
    requires HoldsEntries(i) && RightKind(i, c) && k in records && Applies(i, k.typeName)
    requires key in RecordEntries(i, records[k], k.pk) && key !in c.entries
    ensures !Agrees(i, c, records)
  {
    var payload := RecordEntries(i, records[k], k.pk)[key];
    assert Contributes(i, records, k, key, payload);
    assert Expected(i, records, key, payload);
  }

  lemma FirstBatchLeavesBehind(meta: MetaData, n: nat, types: seq<string>, size: nat, b: BuildState,
        k: RecordKey, key: Tuple)
    requires ValidBuild(meta, n, b) && HoldsEntries(meta.indexes[n]) && b.phase == Building(None)
    requires b.store.contents[meta.indexes[n].name] == EmptyContent(meta.indexes[n])
    requires k in b.store.records && key in RecordEntries(meta.indexes[n], b.store.records[k], k.pk)
    requires var keys := Scan(b.store.records, types, None, size);
             |keys| == FullBatch(size) && keys[|keys| - 1].pk != [] && TupleAtMost(k.pk, keys[|keys| - 1].pk) &&
             forall l :: l in keys ==> l.typeName != k.typeName
    ensures var after := Next(meta, n, types, size, b, Batch);
            LeftBehind(meta, n, after, key) && after.store.records == b.store.records
  {
    hide RecordEntries, Scan, TupleLess;
    var i, records := meta.indexes[n], b.store.records;
    var keys := Scan(records, types, None, size);
    ScanStored(records, types, None, size);
    IndexEachKeys(i, b.store.contents[i.name], records, keys, key);
    forall l | l in records && key in RecordEntries(i, records[l], l.pk) ensures l == k {
      EntriesIdentifyRecord(i, records[l], l.pk, records[k], k.pk, key);
    }
  }

  // ---- A listed type that the index does not cover ----

  lemma OnlyRecordIsScanned(records: Records, k: RecordKey, types: seq<string>, size: nat)
    requires records.Keys == {k} && k.typeName in types
    ensures var keys := Scan(records, types, None, size);
            keys != [] && forall j :: 0 <= j < |keys| ==> keys[j] == k
  {
    CandidatesStored(records, types, None);
    ScanStored(records, types, None, size);
    assert k in Candidates(records, types, None);
  }

  lemma NothingToScan(types: seq<string>, position: Option<Tuple>, size: nat)
    ensures Scan(map[], types, position, size) == []
  {
    var candidates := Candidates(map[], types, position);
    CandidatesStored(map[], types, position);
    FirstIsMember(candidates);
  }

  lemma FirstIsMember(keys: seq<RecordKey>)
    ensures keys != [] ==> keys[0] in keys
  {
  }

  /** The builder indexes a record of such a type, and nothing removes the entry when the record goes. */
  lemma UncoveredIsIndexed(meta: MetaData, n: nat, types: seq<string>, size: nat, r: Record)
    requires DistinctNames(meta.indexes) && n < |meta.indexes| && ValidState(meta, EmptyStore(meta))
    requires HoldsEntries(meta.indexes[n]) && Contributing(meta, meta.indexes[n], r)
    requires r.typeName in types && !Applies(meta.indexes[n], r.typeName)
    ensures GoesWrong(meta, n, types, size)
  {
    hide RecordEntries, Scan, Agrees, IndexEach, MaintainAll, Maintained, TupleLess, Run, RunBuild, GoesWrong;
    var i, k := meta.indexes[n], KeyOf(meta, r).value;
    var ops := SavedWhileDisabled(meta, n, map[k := r]);
    var store := Run(meta, EmptyStore(meta), ops);
    BuildMayStart(meta, n, types, store);
    var key :| key in RecordEntries(i, r, k.pk);
    var b0 := BuildState(store, NotStarted);
    var b1 := Next(meta, n, types, size, b0, Begin);
    var b2 := Next(meta, n, types, size, b1, Batch);
    var b3 := Next(meta, n, types, size, b2, Call(DeleteOp(k)));
    var end := Next(meta, n, types, size, b3, Batch);
    OnlyRecordIsScanned(store.records, k, types, size);
    var keys := Scan(store.records, types, None, size);
    IndexEachKeys(i, Entries(map[]), store.records, keys, key);
    assert keys[0] in keys && key in b2.store.contents[i.name].entries;
    UncoveredStays(meta, n, types, size, b2, k, r);
    LastBatch(meta, n, types, size, b3);
    assert end.phase.Completed? && end.store.records == map[] && key in end.store.contents[i.name].entries;
    var steps := [Batch, Call(DeleteOp(k)), Batch];
    FourSteps(meta, n, types, size, b0, Batch, Call(DeleteOp(k)), Batch);
    DanglingEntryDisagrees(i, end.store.contents[i.name], key);
    WrongOnSaved(meta, n, types, size, ops, steps);
  }

  /** Deleting the only record leaves an index that does not cover its type as it was. */
  lemma UncoveredStays(meta: MetaData, n: nat, types: seq<string>, size: nat, b: BuildState, k: RecordKey, r: Record)
    requires ValidBuild(meta, n, b) && b.store.records == map[k := r] && k.typeName in meta.recordTypes
    requires !Applies(meta.indexes[n], k.typeName)
    ensures var next := Next(meta, n, types, size, b, Call(DeleteOp(k)));
            var name := meta.indexes[n].name;
            next.store.records == map[] && next.phase == b.phase && next.store.contents[name] == b.store.contents[name]
  {
    hide MaintainAll, Maintained;
    MaintainAllContents(meta.indexes, b.store.contents, b.store.states, k, Some(r), None);
  }

  /** Without records a batch changes no index and completes the build. */
  lemma LastBatch(meta: MetaData, n: nat, types: seq<string>, size: nat, b: BuildState)
    requires ValidBuild(meta, n, b) && b.store.records == map[] && !b.phase.NotStarted?
    ensures var next := Next(meta, n, types, size, b, Batch);
            var name := meta.indexes[n].name;
            next.phase.Completed? && next.store.records == map[] && next.store.contents[name] == b.store.contents[name]
  {
    hide Scan, IndexEach;
    NothingToScan(types, if b.phase.Building? then b.phase.position else None, size);
    NothingIndexed(meta.indexes[n], b.store.contents[meta.indexes[n].name], b.store.records);
  }

  lemma NothingIndexed(i: Index, c: Content, records: Records)
    requires RightKind(i, c)
    ensures IndexEach(i, c, records, []) == c
  {
  }

  lemma DanglingEntryDisagrees(i: Index, c: Content, key: Tuple)
    requires HoldsEntries(i) && RightKind(i, c) && key in c.entries
    ensures !Agrees(i, c, map[])
  {
    assert !Expected(i, map[], key, c.entries[key]);
  }

  lemma FourSteps(meta: MetaData, n: nat, types: seq<string>, size: nat, b: BuildState, x: Step, y: Step, z: Step)
    requires ValidBuild(meta, n, b)
    ensures var b1 := Next(meta, n, types, size, b, Begin);
            var b2 := Next(meta, n, types, size, b1, x);
            var b3 := Next(meta, n, types, size, b2, y);
            RunBuild(meta, n, types, size, b, [Begin] + [x, y, z]) == Next(meta, n, types, size, b3, z)
  {
    hide Next;
    var all := [Begin] + [x, y, z];
    assert all[0] == Begin && all[1..] == [x, y, z] && [x, y, z][1..] == [y, z] && [y, z][1..] == [z] && [z][1..] == [];
    var b1 := Next(meta, n, types, size, b, Begin);
    var b2 := Next(meta, n, types, size, b1, x);
    var b3 := Next(meta, n, types, size, b2, y);
    assert RunBuild(meta, n, types, size, b3, [z]) == Next(meta, n, types, size, b3, z);
    assert RunBuild(meta, n, types, size, b2, [y, z]) == RunBuild(meta, n, types, size, b3, [z]);
    assert RunBuild(meta, n, types, size, b1, [x, y, z]) == RunBuild(meta, n, types, size, b2, [y, z]);
  }

  // ---- Lists on which builds are right ----

  /** Records of a type listed earlier have smaller primary keys. */
  ghost predicate KeysInListOrder(meta: MetaData, types: seq<string>) {
    forall l: nat, j: nat, r: Record, s: Record ::
      l < j < |types| && types[l] != types[j] && r.typeName == types[l] && s.typeName == types[j] &&
      KeyOf(meta, r).Ok? && KeyOf(meta, s).Ok? ==>
        TupleLess(KeyOf(meta, r).value.pk, KeyOf(meta, s).value.pk)
  }

  /** Where every type's keys come after those of the types listed before it, builds are right. */
  lemma OrderedTypesBuildRight(meta: MetaData, n: nat, types: seq<string>, size: nat)
    requires DistinctNames(meta.indexes) && n < |meta.indexes| && HoldsEntries(meta.indexes[n])
    requires Lists(meta, meta.indexes[n], types) && forall j :: 0 <= j < |types| ==> Applies(meta.indexes[n], types[j])
    requires KeysInListOrder(meta, types)
    ensures BuildsRight(meta, n, types, size)
  {
    hide Lists;
    var i := meta.indexes[n];
    forall j: nat, r: Record | FirstListed(types, j) && r.typeName == types[j] && Contributing(meta, i, r)
      ensures Applies(i, types[j]) && !CanBeOvertaken(meta, types[..j], size, KeyOf(meta, r).value.pk)
    {
      NotOvertakenInOrder(meta, types, size, j, r);
    }
    BuildsRightIff(meta, n, types, size);
  }

  lemma NotOvertakenInOrder(meta: MetaData, types: seq<string>, size: nat, j: nat, r: Record)
    requires KeysInListOrder(meta, types) && FirstListed(types, j) && r.typeName == types[j] && KeyOf(meta, r).Ok?
    ensures !CanBeOvertaken(meta, types[..j], size, KeyOf(meta, r).value.pk)
  {
    hide KeyOf;
    var pk := KeyOf(meta, r).value.pk;
    forall records: Records ensures !Overtakes(meta, records, types[..j], size, pk) {
      var keys := Scan(records, types[..j], None, size);
      if Keyed(meta, records) && keys != [] {
        var last := keys[|keys| - 1];
        LastScanned(records, types[..j], size);
        var l :| 0 <= l < j && types[l] == last.typeName;
        assert KeyOf(meta, records[last]) == Ok(last);
        KeyOfTyped(meta, records[last]);
        TupleLessTotal(last.pk, pk);
      }
    }
  }

  lemma KeyOfTyped(meta: MetaData, r: Record)
    ensures KeyOf(meta, r).Ok? ==> KeyOf(meta, r).value.typeName == r.typeName
  {
  }

  lemma LastScanned(records: Records, types: seq<string>, size: nat)
    ensures var keys := Scan(records, types, None, size);
            keys != [] ==> keys[|keys| - 1] in records && keys[|keys| - 1].typeName in types
  {
    var keys := Scan(records, types, None, size);
    CandidatesStored(records, types, None);
    if keys != [] {
      assert keys[|keys| - 1] == Candidates(records, types, None)[|keys| - 1];
      assert keys[|keys| - 1] in Candidates(records, types, None);
    }
  }

  /** In particular over a single type that the index covers. */
  lemma SingleTypeBuildsRight(meta: MetaData, n: nat, types: seq<string>, size: nat)
    requires DistinctNames(meta.indexes) && n < |meta.indexes| && HoldsEntries(meta.indexes[n])
    requires Lists(meta, meta.indexes[n], types)
    requires forall j :: 0 <= j < |types| ==> types[j] == types[0] && Applies(meta.indexes[n], types[j])
    ensures BuildsRight(meta, n, types, size)
  {
    OrderedTypesBuildRight(meta, n, types, size);
  }

  /** A primary key that begins with the record type. */
  predicate KeyedByType(e: KeyExpression) { e.ConcatKey? && e.children != [] && e.children[0].RecordTypeKey? }

  /** And over types whose primary keys begin with the record type, listed in order of their names. */
  lemma TypePrefixedKeysBuildRight(meta: MetaData, n: nat, types: seq<string>, size: nat)
    requires DistinctNames(meta.indexes) && n < |meta.indexes| && HoldsEntries(meta.indexes[n])
    requires Lists(meta, meta.indexes[n], types) && forall j :: 0 <= j < |types| ==> Applies(meta.indexes[n], types[j])
    requires forall j :: 0 <= j < |types| && types[j] in meta.recordTypes ==> KeyedByType(meta.recordTypes[types[j]])
    requires forall l, j :: 0 <= l < j < |types| ==> types[l] == types[j] || StrLess(types[l], types[j])
    ensures BuildsRight(meta, n, types, size)
  {
    hide Lists, BuildsRight;
    forall l: nat, j: nat, r: Record, s: Record
      | l < j < |types| && types[l] != types[j] && r.typeName == types[l] && s.typeName == types[j] &&
        KeyOf(meta, r).Ok? && KeyOf(meta, s).Ok?
      ensures TupleLess(KeyOf(meta, r).value.pk, KeyOf(meta, s).value.pk)
    {
      FirstColumnIsType(meta, r);
      FirstColumnIsType(meta, s);
      assert Less(Str(types[l]), Str(types[j]));
    }
    OrderedTypesBuildRight(meta, n, types, size);
  }

  lemma FirstColumnIsType(meta: MetaData, r: Record)
    requires KeyOf(meta, r).Ok? && KeyedByType(meta.recordTypes[r.typeName])
    ensures var pk := KeyOf(meta, r).value.pk; pk != [] && pk[0] == Str(r.typeName)
  {
    var es := meta.recordTypes[r.typeName].children;
    var rest := EvaluateAll(es[1..], r);
    var only: seq<Tuple> := [[Str(r.typeName)]];
    assert Evaluate(es[0], r) == only;
    assert only[1..] == [] && Cross([], rest) == [];
    assert EvaluateAll(es, r) == Prepend(only[0], rest) + [] == Prepend(only[0], rest);
  }

  // ---- Lists on which builds go wrong ----

  /** Records of a type with the integers from low on in one field. */
  function Fillers(typeName: string, field: string, low: int, count: nat): Records {
    map k | k in FillerKeys(typeName, low, count) :: Record(typeName, map[field := Scalar(k.pk[0])])
  }

  function FillerKeys(typeName: string, low: int, count: nat): (keys: set<RecordKey>)
    ensures forall k :: k in keys ==> k.typeName == typeName && k.pk != []
  {
    set x: int | low <= x < low + count :: RecordKey(typeName, [Int(x)])
  }

  /** Where the first listed type is keyed by a plain field, any covered record of a later type with
      an integer key and an entry can be missed: some build goes wrong, whatever the batch size. */
  lemma IntegerKeysGoWrong(meta: MetaData, n: nat, types: seq<string>, size: nat, field: string, j: nat, r: Record, x: int)
    requires DistinctNames(meta.indexes) && n < |meta.indexes| && HoldsEntries(meta.indexes[n])
    requires Lists(meta, meta.indexes[n], types) && FirstListed(types, j) && j > 0
    requires types[0] in meta.recordTypes && meta.recordTypes[types[0]].FieldKey? && meta.recordTypes[types[0]].fieldName == field
    requires r.typeName == types[j] && Contributing(meta, meta.indexes[n], r) && KeyOf(meta, r).value.pk == [Int(x)]
    ensures GoesWrong(meta, n, types, size) && !BuildsRight(meta, n, types, size)
  {
    hide Lists, BuildsRight, GoesWrong, Contributing;
    FillersOvertake(meta, types, size, field, j, x);
    BuildsRightIff(meta, n, types, size);
  }

  lemma FillersOvertake(meta: MetaData, types: seq<string>, size: nat, field: string, j: nat, x: int)
    requires 0 < j < |types|
    requires types[0] in meta.recordTypes && meta.recordTypes[types[0]].FieldKey? && meta.recordTypes[types[0]].fieldName == field
    ensures CanBeOvertaken(meta, types[..j], size, [Int(x)])
  {
    var fillers := Fillers(types[0], field, x, FullBatch(size));
    FillersAreKeyed(meta, types[0], field, x, FullBatch(size));
    FillersFillABatch(fillers, types[..j], size, x);
    assert Overtakes(meta, fillers, types[..j], size, [Int(x)]);
  }

  lemma FillersAreKeyed(meta: MetaData, typeName: string, field: string, low: int, count: nat)
    requires typeName in meta.recordTypes && meta.recordTypes[typeName].FieldKey? && meta.recordTypes[typeName].fieldName == field
    ensures Keyed(meta, Fillers(typeName, field, low, count))
  {
    var fillers := Fillers(typeName, field, low, count);
    forall k | k in fillers ensures KeyOf(meta, fillers[k]) == Ok(k) {
      var x: int :| low <= x < low + count && k == RecordKey(typeName, [Int(x)]);
    }
  }

  lemma FillersFillABatch(records: Records, types: seq<string>, size: nat, low: int)
    requires types != [] && records.Keys == FillerKeys(types[0], low, FullBatch(size))
    ensures var keys := Scan(records, types, None, size);
            |keys| == FullBatch(size) && keys[|keys| - 1].pk != [] && TupleAtMost([Int(low)], keys[|keys| - 1].pk)
  {
    var count := FullBatch(size);
    var pks := PksAfter(records, types[0], None);
    FillerPks(records, types[0], low, count);
    SortedIsSorted(pks);
    var first := KeysOfType(types[0], Sorted(pks));
    assert Candidates(records, types, None) == first + Candidates(records, types[1..], None);
    var keys := Scan(records, types, None, size);
    assert keys == first;
    var last := Sorted(pks)[count - 1];
    assert last in Sorted(pks);
    assert [Int(low)] in pks;
    assert [Int(low)] in Sorted(pks);
    var at :| 0 <= at < count && Sorted(pks)[at] == [Int(low)];
    assert at < count - 1 ==> TupleLess(Sorted(pks)[at], last);
  }

  lemma FillerPks(records: Records, typeName: string, low: int, count: nat)
    requires records.Keys == FillerKeys(typeName, low, count)
    ensures PksAfter(records, typeName, None) == set x: int | low <= x < low + count :: [Int(x)]
    ensures |PksAfter(records, typeName, None)| == count
  {
    var pks := PksAfter(records, typeName, None);
    forall x: int | low <= x < low + count ensures [Int(x)] in pks {
      assert RecordKey(typeName, [Int(x)]) in records;
    }
    NumberOfInts(low, count);
  }

  lemma {:induction false} NumberOfInts(low: int, count: nat)
    ensures |set x: int | low <= x < low + count :: [Int(x)]| == count
  {
    var s := set x: int | low <= x < low + count :: [Int(x)];
    if count == 0 {
      assert s == {};
    } else {
      NumberOfInts(low, count - 1);
      var before := set x: int | low <= x < low + count - 1 :: [Int(x)];
      var last: Tuple := [Int(low + count - 1)];
      assert forall e: Tuple :: e in before ==> e[0].i < last[0].i;
      assert s == before + {last};
    }
  }
}
