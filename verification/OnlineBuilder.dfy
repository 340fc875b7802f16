// OnlineIndexBuilder: the loops that scan a store and fill an index while other callers write.
module OnlineBuilder {
  import opened Wrappers
  import opened Values
  import opened KeySpace
  import opened KeyExpressions
  import opened Indexes
  import opened RecordStore
  import opened RecordStoreClass
  import opened OnlineBuild

  function KeepAfter(pks: seq<Tuple>, start: Option<Tuple>): seq<Tuple> {
    if pks == [] then []
    else (if After(start, pks[0]) then [pks[0]] else []) + KeepAfter(pks[1..], start)
  }

  lemma {:induction false} KeepAfterSorted(pks: seq<Tuple>, start: Option<Tuple>)
    requires SortedKeys(pks)
    ensures SortedKeys(KeepAfter(pks, start))
    ensures forall pk :: pk in KeepAfter(pks, start) <==> pk in pks && After(start, pk)
  {
    if pks != [] {
      KeepAfterSorted(pks[1..], start);
      var rest := KeepAfter(pks[1..], start);
      assert pks == [pks[0]] + pks[1..];
      forall pk | pk in rest ensures TupleLess(pks[0], pk) {
        assert pk in pks[1..];
      }
      assert forall j :: 0 <= j < |rest| ==> rest[j] in rest;
    }
  }

  lemma KeepAfterIsPksAfter(records: Records, typeName: string, start: Option<Tuple>)
    ensures KeepAfter(Sorted(PksOf(records, typeName)), start) == Sorted(PksAfter(records, typeName, start))
  {
    var pks := Sorted(PksOf(records, typeName));
    SortedIsSorted(PksOf(records, typeName));
    KeepAfterSorted(pks, start);
    SortedIsSorted(PksAfter(records, typeName, start));
    SortedUnique(KeepAfter(pks, start), Sorted(PksAfter(records, typeName, start)));
  }

  /** What is left to find among the given keys of one type. */
  function ToFind(typeName: string, pks: seq<Tuple>, start: Option<Tuple>): seq<RecordKey> {
    KeysOfType(typeName, KeepAfter(pks, start))
  }

  lemma ToFindNext(typeName: string, pks: seq<Tuple>, start: Option<Tuple>)
    requires pks != []
    ensures ToFind(typeName, pks, start)
         == (if After(start, pks[0]) then [RecordKey(typeName, pks[0])] else []) + ToFind(typeName, pks[1..], start)
  {
  }

  /** The records of one type, stopping once enough are found. */
  method ScanType(found0: seq<RecordKey>, typeName: string, pks: seq<Tuple>, start: Option<Tuple>, limit: nat)
    returns (found: seq<RecordKey>, full: bool)
    requires |found0| < limit || found0 == []
    ensures found <= found0 + ToFind(typeName, pks, start)
    ensures full ==> |found| == if limit == 0 then 1 else limit
    ensures !full ==> found == found0 + ToFind(typeName, pks, start) && (|found| < limit || found == [])
  {
    ghost var all := found0 + ToFind(typeName, pks, start);
    found := found0;
    for j := 0 to |pks|
      invariant |found| < limit || found == []
      invariant found + ToFind(typeName, pks[j..], start) == all
    {
      assert pks[j..][0] == pks[j] && pks[j..][1..] == pks[j + 1..];
      ToFindNext(typeName, pks[j..], start);
      if After(start, pks[j]) {
        found := found + [RecordKey(typeName, pks[j])];
        assert found + ToFind(typeName, pks[j + 1..], start) == all;
        if |found| >= limit {
          return found, true;
        }
      }
    }
    assert ToFind(typeName, pks[|pks|..], start) == [];
    full := false;
  }

  lemma CandidatesFrom(records: Records, types: seq<string>, start: Option<Tuple>, t: nat)
    requires t < |types|
    ensures Candidates(records, types[t..], start)
         == ToFind(types[t], Sorted(PksOf(records, types[t])), start) + Candidates(records, types[t + 1..], start)
  {
    KeepAfterIsPksAfter(records, types[t], start);
    assert types[t..][0] == types[t] && types[t..][1..] == types[t + 1..];
  }

  lemma TakePrefix(found: seq<RecordKey>, some: seq<RecordKey>, rest: seq<RecordKey>)
    requires found <= some
    ensures |found| <= |some + rest| && found == (some + rest)[..|found|]
  {
  }

  /** _scan_records. */
  method ScanRecords(records: Records, types: seq<string>, start: Option<Tuple>, limit: nat)
    returns (found: seq<RecordKey>)
    ensures found == Scan(records, types, start, limit)
  {
    hide Candidates, ToFind, PksOf, Sorted;
    ghost var all := Candidates(records, types, start);
    found := [];
    assert types[0..] == types;
    for t := 0 to |types|
      invariant |found| < limit || found == []
      invariant found + Candidates(records, types[t..], start) == all
    {
      var pks := Sorted(PksOf(records, types[t]));
      ghost var here, later := ToFind(types[t], pks, start), Candidates(records, types[t + 1..], start);
      CandidatesFrom(records, types, start, t);
      Regroup(found, here, later);
      ghost var some := found + here;
      var full: bool;
      found, full := ScanType(found, types[t], pks, start, limit);
      if full {
        TakePrefix(found, some, later);
        return;
      }
    }
    NoCandidates(records, types, start);
    assert found + [] == found;
  }

  lemma NoCandidates(records: Records, types: seq<string>, start: Option<Tuple>)
    ensures Candidates(records, types[|types|..], start) == []
  {
  }

  /** Add each scanned record to the index. */
  method IndexRecords(i: Index, c: Content, records: Records, keys: seq<RecordKey>) returns (c': Content)
    requires RightKind(i, c)
    requires forall j :: 0 <= j < |keys| ==> keys[j] in records
    ensures c' == IndexEach(i, c, records, keys)
  {
    c' := c;
    for j := 0 to |keys|
      invariant RightKind(i, c')
      invariant IndexEach(i, c', records, keys[j..]) == IndexEach(i, c, records, keys)
    {
      assert keys[j..][0] == keys[j] && keys[j..][1..] == keys[j + 1..];
      c' := Update(i, c', records[keys[j]], keys[j].pk);
    }
  }

  predicate PksNonEmpty(records: Records) { forall k :: k in records ==> k.pk != [] }

  predicate PrimaryKeysHaveColumns(meta: MetaData) {
    forall t :: t in meta.recordTypes ==> ColumnSize(meta.recordTypes[t]) > 0
  }

  lemma ApplyKeepsPksNonEmpty(meta: MetaData, st: State, op: Op)
    requires ValidState(meta, st) && PrimaryKeysHaveColumns(meta) && PksNonEmpty(st.records)
    ensures PksNonEmpty(Apply(meta, st, op).records)
  {
    match op
    case SaveOp(r) =>
      if KeyOf(meta, r).Ok? { KeysHaveColumnSize(meta.recordTypes[r.typeName], r); }
    case _ =>
  }

  predicate WritesOnly(b: BuildState, name: string) {
    b.phase.Building? && StateOf(b.store.states, name) == WriteOnly
  }

  predicate OthersLeaveState(i: Index, others: seq<seq<Op>>) {
    forall j, l :: 0 <= j < |others| && 0 <= l < |others[j]| ==> LeavesState(i, Call(others[j][l]))
  }

  class OnlineIndexBuilder {
    const store: FDBRecordStore
    const index: nat
    const types: seq<string>
    const batchSize: nat
    var phase: Phase
    var batchesCompleted: nat
    /** How things stood before each batch. */
    ghost var boundaries: seq<BuildState>

    ghost predicate Valid()
      reads this, store
    {
      ValidBuild(store.meta, index, Progress()) && HoldsEntries(store.meta.indexes[index]) &&
      Lists(store.meta, store.meta.indexes[index], types)
    }

    /** What a build keeps when no batch can overtake a record with entries. */
    ghost predicate Sound()
      requires Valid()
      reads this, store
    {
      BuildInvariant(store.meta, index, Progress()) &&
      NothingOvertaken(store.meta, store.meta.indexes[index], types, batchSize)
    }

    function Progress(): BuildState
      reads this, store
    {
      BuildState(store.Abstract(), phase)
    }

    constructor (store: FDBRecordStore, index: nat, types: seq<string>, batchSize: nat)
      requires ValidBuild(store.meta, index, BuildState(store.Abstract(), NotStarted))
      requires HoldsEntries(store.meta.indexes[index]) && Lists(store.meta, store.meta.indexes[index], types)
      ensures Valid() && this.store == store && this.index == index && this.types == types && phase == NotStarted
      ensures boundaries == []
    {
      this.store := store;
      this.index := index;
      this.types := types;
      this.batchSize := batchSize;
      phase := NotStarted;
      batchesCompleted := 0;
      boundaries := [];
    }

    /** One transaction: scan a batch, add each record, move the position. */
    method BuildBatch() returns (hasMore: bool)
      requires Valid() && phase.Building?
      modifies this, store`contents, store`states
      ensures Valid() && (old(Sound()) ==> Sound())
      ensures Progress() == Next(store.meta, index, types, batchSize, old(Progress()), Batch)
      ensures boundaries == old(boundaries) + [old(Progress())]
      ensures if hasMore then phase.Building? && store.states == old(store.states)
              else phase.Completed? && StateOf(store.states, store.meta.indexes[index].name) == Readable
      ensures store.records == old(store.records)
      ensures hasMore && PksNonEmpty(store.records) ==>
        KeysAfter(store.records, types, phase.position) < KeysAfter(store.records, types, old(phase).position)
    {
      hide BuildInvariant, NothingOvertaken, Lists, Scan, IndexEach, KeysAfter;
      ghost var before := Progress();
      boundaries := boundaries + [before];
      if Sound() { NextKeepsInvariant(store.meta, index, types, batchSize, before, Batch); }
      var i := store.meta.indexes[index];
      var position := phase.position;
      var keys := ScanRecords(store.records, types, position, batchSize);
      ScanStored(store.records, types, position, batchSize);
      var c := IndexRecords(i, store.contents[i.name], store.records, keys);
      store.contents := store.contents[i.name := c];
      batchesCompleted := batchesCompleted + 1;
      hasMore := keys != [] && |keys| >= batchSize;
      if hasMore {
        if PksNonEmpty(store.records) {
          assert keys[|keys| - 1] in store.records;
          BatchShrinks(store.records, types, position, batchSize);
        }
        phase := Building(Some(keys[|keys| - 1].pk));
      } else {
        store.states := store.states[i.name := Readable];
        phase := Completed;
      }
    }

    /** One call by another caller. */
    method OtherCall(op: Op)
      requires Valid() && Permitted(store.meta.indexes[index], Call(op))
      requires Maintains(store.meta.indexes[index], Progress(), Call(op))
      modifies store
      ensures Valid() && (old(Sound()) ==> Sound())
      ensures Progress() == Next(store.meta, index, types, batchSize, old(Progress()), Call(op))
    {
      if Sound() { NextKeepsInvariant(store.meta, index, types, batchSize, Progress(), Call(op)); }
      match op {
        case SaveOp(r) => var _ := store.SaveRecord(r);
        case DeleteOp(k) => var _ := store.DeleteRecord(k);
        case SetStateOp(name, state) => store.SetIndexState(name, state);
      }
    }

    /** What the other callers do between two batches. */
    method OtherCalls(ops: seq<Op>)
      requires Valid() && phase.Building?
      requires forall l :: 0 <= l < |ops| ==> Permitted(store.meta.indexes[index], Call(ops[l]))
      requires PrimaryKeysHaveColumns(store.meta) && PksNonEmpty(store.records)
      modifies store
      ensures Valid() && (old(Sound()) ==> Sound()) && PksNonEmpty(store.records)
      ensures (forall l :: 0 <= l < |ops| ==> LeavesState(store.meta.indexes[index], Call(ops[l]))) ==>
        StateOf(store.states, store.meta.indexes[index].name) == StateOf(old(store.states), store.meta.indexes[index].name)
    {
      hide BuildInvariant, NothingOvertaken, Lists;
      for l := 0 to |ops|
        invariant Valid() && (old(Sound()) ==> Sound()) && PksNonEmpty(store.records)
        invariant (forall m :: 0 <= m < l ==> LeavesState(store.meta.indexes[index], Call(ops[m]))) ==>
          StateOf(store.states, store.meta.indexes[index].name) == StateOf(old(store.states), store.meta.indexes[index].name)
      {
        ApplyKeepsPksNonEmpty(store.meta, store.Abstract(), ops[l]);
        OtherCall(ops[l]);
      }
    }

    /** Mark the index WRITE_ONLY, before the first batch. */
    method SetWriteOnly()
      requires Valid() && phase.NotStarted?
      modifies this`phase, store
      ensures Valid() && WritesOnly(Progress(), store.meta.indexes[index].name)
      ensures Progress() == BuildState(old(store.Abstract()).(states := store.states), Building(None))
      ensures forall name :: name != store.meta.indexes[index].name ==>
                StateOf(store.states, name) == StateOf(old(store.states), name)
      ensures old(MayStart(store.meta, index, store.Abstract())) &&
              NothingOvertaken(store.meta, store.meta.indexes[index], types, batchSize) ==>
        Sound()
    {
      hide NoDangling, CoveredUpTo, Agrees, NothingOvertaken, Lists, Keyed;
      var i := store.meta.indexes[index];
      if MayStart(store.meta, index, store.Abstract()) && NothingOvertaken(store.meta, i, types, batchSize) {
        NextKeepsInvariant(store.meta, index, types, batchSize, Progress(), Begin);
      }
      store.SetIndexState(i.name, WriteOnly);
      phase := Building(None);
    }

    /** _build_index: run batches until one comes back short, and mark the index READABLE.  Between two
        batches other callers may do anything; others[j] is what they do after batch j.  Unless one of
        them sets its state, the index is WRITE_ONLY before every batch. */
    method BuildIndex(others: seq<seq<Op>>)
      requires Valid() && phase.Building?
      requires forall j, l :: 0 <= j < |others| && 0 <= l < |others[j]| ==>
        Permitted(store.meta.indexes[index], Call(others[j][l]))
      requires PrimaryKeysHaveColumns(store.meta) && PksNonEmpty(store.records)
      modifies this, store
      ensures Valid() && phase.Completed? && (old(Sound()) ==> Sound())
      ensures StateOf(store.states, store.meta.indexes[index].name) == Readable
      ensures |boundaries| > |old(boundaries)| && old(boundaries) + [old(Progress())] <= boundaries
      ensures WritesOnly(old(Progress()), store.meta.indexes[index].name) && OthersLeaveState(store.meta.indexes[index], others) ==>
        forall j :: |old(boundaries)| <= j < |boundaries| ==> WritesOnly(boundaries[j], store.meta.indexes[index].name)
    {
      hide BuildInvariant, NothingOvertaken, Lists, KeysAfter, Next, ValidState, PksNonEmpty, StateOf;
      var name := store.meta.indexes[index].name;
      ghost var leave := WritesOnly(Progress(), name) && OthersLeaveState(store.meta.indexes[index], others);
      ghost var earlier := |boundaries|;
      var round := 0;
      var hasMore := BuildBatch();
      while hasMore
        invariant Valid() && (old(Sound()) ==> Sound()) && PksNonEmpty(store.records)
        invariant 0 <= round <= |others|
        invariant hasMore <==> phase.Building?
        invariant !hasMore ==> phase.Completed? && StateOf(store.states, name) == Readable
        invariant old(boundaries) + [old(Progress())] <= boundaries
        invariant leave && hasMore ==> WritesOnly(Progress(), name)
        invariant leave ==> forall j :: earlier <= j < |boundaries| ==> WritesOnly(boundaries[j], name)
        decreases |others| - round, hasMore,
                  if phase.Building? then KeysAfter(store.records, types, phase.position) else {}
      {
        if round < |others| {
          OtherCalls(others[round]);
          round := round + 1;
        }
        hasMore := BuildBatch();
      }
    }

    /** build: mark WRITE_ONLY, run the batches, mark READABLE.  The index may start in any state.
        Before the first batch nothing but that state has changed; before every batch the index is
        WRITE_ONLY unless another caller has set its state. */
    method Build(others: seq<seq<Op>>)
      requires Valid() && phase.NotStarted?
      requires forall j, l :: 0 <= j < |others| && 0 <= l < |others[j]| ==>
        Permitted(store.meta.indexes[index], Call(others[j][l]))
      requires PrimaryKeysHaveColumns(store.meta) && PksNonEmpty(store.records)
      modifies this, store
      ensures Valid() && phase.Completed?
      ensures StateOf(store.states, store.meta.indexes[index].name) == Readable
      ensures |boundaries| > |old(boundaries)|
      ensures var first := boundaries[|old(boundaries)|];
              first == BuildState(old(store.Abstract()).(states := first.store.states), Building(None)) &&
              WritesOnly(first, store.meta.indexes[index].name) &&
              (forall name :: name != store.meta.indexes[index].name ==>
                StateOf(first.store.states, name) == StateOf(old(store.states), name))
      ensures OthersLeaveState(store.meta.indexes[index], others) ==>
        forall j :: |old(boundaries)| <= j < |boundaries| ==> WritesOnly(boundaries[j], store.meta.indexes[index].name)
      ensures old(MayStart(store.meta, index, store.Abstract())) &&
              NothingOvertaken(store.meta, store.meta.indexes[index], types, batchSize) ==>
        IndexAgrees(store.meta, store.Abstract(), index)
    {
      hide MayStart, NothingOvertaken, Lists;
      SetWriteOnly();
      BuildIndex(others);
    }
  }
}
