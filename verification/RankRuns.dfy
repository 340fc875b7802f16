// A RANK index over runs of the store: its entries stay the stored records' entries.
module RankRuns {
  import opened Wrappers
  import opened Values
  import opened KeySpace
  import opened KeyExpressions
  import opened Indexes
  import opened RecordStore
  import opened RankIndex

  /** A record whose first key, when it has one, is a single integer: its score. */
  predicate HasIntegerScore(root: KeyExpression, r: Record) {
    var keys := Evaluate(root, r);
    keys != [] ==> |keys[0]| == 1 && keys[0][0].Int?
  }

  function EntryFor(root: KeyExpression, r: Option<Record>, pk: Tuple): Option<Tuple> {
    if r.None? then None else RankEntry(root, r.value, pk)
  }

  /** The entries the stored records have. */
  function RankEntries(i: Index, records: Records): set<Tuple> {
    set k | k in records && Applies(i, k.typeName) && RankEntry(i.root, records[k], k.pk).Some? ::
      RankEntry(i.root, records[k], k.pk).value
  }

  ghost predicate AllIntegerScores(i: Index, records: Records) {
    forall k :: k in records && Applies(i, k.typeName) ==> HasIntegerScore(i.root, records[k])
  }

  ghost predicate RankAgrees(i: Index, rank: RankState, records: Records) {
    Hierarchy(rank) && rank.entries == RankEntries(i, records)
  }

  function WithoutEntry(rank: RankState, entry: Option<Tuple>): RankState
    requires entry.Some? ==> Scored(entry.value)
  {
    if entry.Some? then EntryRemoved(rank, entry.value) else rank
  }

  function WithEntry(rank: RankState, entry: Option<Tuple>): RankState
    requires entry.Some? ==> Scored(entry.value)
  {
    if entry.Some? then EntryAdded(rank, entry.value) else rank
  }

  lemma EntryIsScored(root: KeyExpression, r: Record, pk: Tuple)
    requires HasIntegerScore(root, r)
    ensures RankEntry(root, r, pk).Some? ==> Scored(RankEntry(root, r, pk).value)
    ensures RankEntry(root, r, pk).Some? ==>
      exists score :: RankEntry(root, r, pk).value == FullKey([Int(score)], r.typeName, pk)
  {
    var keys: seq<Tuple> := Evaluate(root, r);
    if keys != [] {
      var score := keys[0][0].i;
      assert keys[0] == [Int(score)];
      assert RankEntry(root, r, pk).value == FullKey([Int(score)], r.typeName, pk);
    }
  }

  lemma EntriesAreScored(root: KeyExpression, r: Option<Record>, pk: Tuple)
    requires r.Some? ==> HasIntegerScore(root, r.value)
    ensures EntryFor(root, r, pk).Some? ==> Scored(EntryFor(root, r, pk).value)
  {
    if r.Some? { EntryIsScored(root, r.value, pk); }
  }

  lemma EntryIdentifiesRecord(root: KeyExpression, r: Record, pk: Tuple, r': Record, pk': Tuple)
    requires RankEntry(root, r, pk).Some? && RankEntry(root, r', pk') == RankEntry(root, r, pk)
    ensures r.typeName == r'.typeName && pk == pk'
  {
    var entry := RankEntry(root, r, pk).value;
    assert FullKeys(root, r, pk)[0] == entry && FullKeys(root, r', pk')[0] == entry;
    FullKeysIdentifyRecord(root, r, pk, r', pk', entry);
  }

  /** One write: the old record's entry leaves, the new one's comes. */
  ghost function RankWritten(i: Index, rank: RankState, st: State, k: RecordKey, r: Option<Record>): RankState
    requires AllIntegerScores(i, st.records) && (r.Some? && Applies(i, k.typeName) ==> HasIntegerScore(i.root, r.value))
  {
    if !Active(i, st.states, k.typeName) then rank
    else
      var old_, new_ := EntryFor(i.root, Lookup(st.records, k), k.pk), EntryFor(i.root, r, k.pk);
      EntriesAreScored(i.root, Lookup(st.records, k), k.pk);
      EntriesAreScored(i.root, r, k.pk);
      WithEntry(WithoutEntry(rank, old_), new_)
  }

  lemma RankEntriesChange(i: Index, records: Records, k: RecordKey, r: Option<Record>)
    requires WellTyped(records) && (r.Some? ==> r.value.typeName == k.typeName) && Applies(i, k.typeName)
    ensures var old_, new_ := EntryFor(i.root, Lookup(records, k), k.pk), EntryFor(i.root, r, k.pk);
            RankEntries(i, Put(records, k, r))
              == RankEntries(i, records) - (if old_.Some? then {old_.value} else {}) + (if new_.Some? then {new_.value} else {})
  {
    var after := Put(records, k, r);
    var old_, new_ := EntryFor(i.root, Lookup(records, k), k.pk), EntryFor(i.root, r, k.pk);
    forall j | j != k ensures j in after <==> j in records {
    }
    forall j | j != k && j in records && RankEntry(i.root, records[j], j.pk).Some?
      ensures RankEntry(i.root, records[j], j.pk) != old_
    {
      if RankEntry(i.root, records[j], j.pk) == old_ {
        EntryIdentifiesRecord(i.root, records[j], j.pk, records[k], k.pk);
      }
    }
  }

  /** A write keeps entries and counters in agreement with the records. */
  lemma RankWriteAgrees(i: Index, rank: RankState, st: State, k: RecordKey, r: Option<Record>)
    requires RankAgrees(i, rank, st.records) && WellTyped(st.records) && (r.Some? ==> r.value.typeName == k.typeName)
    requires AllIntegerScores(i, st.records) && (r.Some? && Applies(i, k.typeName) ==> HasIntegerScore(i.root, r.value))
    requires StateOf(st.states, i.name) != Disabled
    ensures RankAgrees(i, RankWritten(i, rank, st, k, r), Put(st.records, k, r)) && AllIntegerScores(i, Put(st.records, k, r))
  {
    hide Hierarchy, RankEntries, RankEntry, HasIntegerScore, Scored, EntryAdded, EntryRemoved, AllIntegerScores;
    StillIntegerScores(i, st.records, k, r);
    if Applies(i, k.typeName) {
      var old_, new_ := EntryFor(i.root, Lookup(st.records, k), k.pk), EntryFor(i.root, r, k.pk);
      RankEntriesChange(i, st.records, k, r);
      LookupHasScore(i, st.records, k);
      EntriesAreScored(i.root, Lookup(st.records, k), k.pk);
      EntriesAreScored(i.root, r, k.pk);
      EntriesMoved(rank, old_, new_);
    } else {
      UncoveredWrite(i, st.records, k, r);
    }
  }

  lemma LookupHasScore(i: Index, records: Records, k: RecordKey)
    requires AllIntegerScores(i, records) && Applies(i, k.typeName)
    ensures Lookup(records, k).Some? ==> HasIntegerScore(i.root, Lookup(records, k).value)
  {
  }

  lemma StillIntegerScores(i: Index, records: Records, k: RecordKey, r: Option<Record>)
    requires AllIntegerScores(i, records) && (r.Some? && Applies(i, k.typeName) ==> HasIntegerScore(i.root, r.value))
    ensures AllIntegerScores(i, Put(records, k, r))
  {
  }

  lemma EntriesMoved(rank: RankState, old_: Option<Tuple>, new_: Option<Tuple>)
    requires Hierarchy(rank) && (old_.Some? ==> Scored(old_.value)) && (new_.Some? ==> Scored(new_.value))
    ensures var after := WithEntry(WithoutEntry(rank, old_), new_);
            Hierarchy(after) && after.entries
              == rank.entries - (if old_.Some? then {old_.value} else {}) + (if new_.Some? then {new_.value} else {})
  {
    hide Hierarchy;
    if old_.Some? { RemovedKeepsHierarchy(rank, old_.value); }
    if new_.Some? { AddedKeepsHierarchy(WithoutEntry(rank, old_), new_.value); }
  }

  lemma UncoveredWrite(i: Index, records: Records, k: RecordKey, r: Option<Record>)
    requires !Applies(i, k.typeName)
    ensures RankEntries(i, Put(records, k, r)) == RankEntries(i, records)
  {
    var after := Put(records, k, r);
    forall j | j != k ensures j in after <==> j in records {
    }
  }

  // ---- Runs ----

  predicate SavesIntegerScores(i: Index, ops: seq<Op>) {
    forall j :: 0 <= j < |ops| && ops[j].SaveOp? && Applies(i, ops[j].record.typeName) ==>
      HasIntegerScore(i.root, ops[j].record)
  }

  /** One call, as the RANK index sees it. */
  ghost function RankApplied(meta: MetaData, i: Index, rank: RankState, st: State, op: Op): RankState
    requires AllIntegerScores(i, st.records) && SavesIntegerScores(i, [op])
  {
    match op
    case SaveOp(r) =>
      assert [op][0].SaveOp?;
      if KeyOf(meta, r).Ok? then RankWritten(i, rank, st, KeyOf(meta, r).value, Some(r)) else rank
    case DeleteOp(k) =>
      if k.typeName in meta.recordTypes && k in st.records then RankWritten(i, rank, st, k, None) else rank
    case SetStateOp(_, _) => rank
  }

  lemma ApplyKeepsRank(meta: MetaData, i: Index, rank: RankState, st: State, op: Op)
    requires ValidState(meta, st) && RankAgrees(i, rank, st.records) && AllIntegerScores(i, st.records)
    requires SavesIntegerScores(i, [op]) && StateOf(st.states, i.name) != Disabled
    ensures RankAgrees(i, RankApplied(meta, i, rank, st, op), Apply(meta, st, op).records)
    ensures AllIntegerScores(i, Apply(meta, st, op).records)
  {
    match op
    case SaveOp(r) =>
      assert [op][0].SaveOp?;
      if KeyOf(meta, r).Ok? { RankWriteAgrees(i, rank, st, KeyOf(meta, r).value, Some(r)); }
    case DeleteOp(k) =>
      if k.typeName in meta.recordTypes && k in st.records { RankWriteAgrees(i, rank, st, k, None); }
    case SetStateOp(_, _) =>
  }

  ghost function RunWithRank(meta: MetaData, i: Index, rank: RankState, st: State, ops: seq<Op>): RankState
    requires ValidState(meta, st) && RankAgrees(i, rank, st.records) && AllIntegerScores(i, st.records)
    requires SavesIntegerScores(i, ops) && StateOf(st.states, i.name) != Disabled && NeverDisables(ops, i.name)
    decreases |ops|
  {
    if ops == [] then rank
    else
      assert SavesIntegerScores(i, [ops[0]]);
      ApplyIsValid(meta, st, ops[0]);
      ApplyKeepsRank(meta, i, rank, st, ops[0]);
      RunWithRank(meta, i, RankApplied(meta, i, rank, st, ops[0]), Apply(meta, st, ops[0]), ops[1..])
  }

  /** Over every run of saves and deletes the RANK entries are those of the stored records, the counters
      count them, and every entry loads its record. */
  lemma {:induction false} RunKeepsRank(meta: MetaData, i: Index, rank: RankState, st: State, ops: seq<Op>)
    requires ValidState(meta, st) && RankAgrees(i, rank, st.records) && AllIntegerScores(i, st.records)
    requires SavesIntegerScores(i, ops) && StateOf(st.states, i.name) != Disabled && NeverDisables(ops, i.name)
    ensures var rank', st' := RunWithRank(meta, i, rank, st, ops), Run(meta, st, ops);
            RankAgrees(i, rank', st'.records) && AllIntegerScores(i, st'.records) && WellTyped(st'.records)
    decreases |ops|
  {
    if ops != [] {
      assert SavesIntegerScores(i, [ops[0]]);
      ApplyIsValid(meta, st, ops[0]);
      ApplyKeepsRank(meta, i, rank, st, ops[0]);
      RunKeepsRank(meta, i, RankApplied(meta, i, rank, st, ops[0]), Apply(meta, st, ops[0]), ops[1..]);
    }
  }

  /** An entry in agreement with the records loads the record it belongs to. */
  lemma AgreeingEntryLoads(i: Index, rank: RankState, records: Records, types: set<string>, entry: Tuple)
    requires RankAgrees(i, rank, records) && AllIntegerScores(i, records) && WellTyped(records)
    requires (forall k :: k in records ==> k.typeName in types) && entry in rank.entries
    ensures Load(entry, types, records).Some?
    ensures var k := Load(entry, types, records).value; k in records && RankEntry(i.root, records[k], k.pk) == Some(entry)
  {
    var k :| k in records && Applies(i, k.typeName) && RankEntry(i.root, records[k], k.pk) == Some(entry);
    EntryIsScored(i.root, records[k], k.pk);
    var score :| entry == FullKey([Int(score)], k.typeName, k.pk);
    EntryLoads(score, k, types, records);
  }

  /** So after any run a range of ranks is the exact slice: one stored record per entry, in order. */
  lemma RankRangeIsExact(meta: MetaData, i: Index, rank: RankState, st: State, ops: seq<Op>, types: set<string>,
                         startRank: int, endRank: int)
    requires ValidState(meta, st) && RankAgrees(i, rank, st.records) && AllIntegerScores(i, st.records)
    requires SavesIntegerScores(i, ops) && StateOf(st.states, i.name) != Disabled && NeverDisables(ops, i.name)
    requires forall k :: k in Run(meta, st, ops).records ==> k.typeName in types
    ensures var rank', records := RunWithRank(meta, i, rank, st, ops), Run(meta, st, ops).records;
            var entries := Slice(Sorted(rank'.entries), startRank, endRank);
            var found := LoadAll(entries, types, records);
            |found| == |entries| &&
            forall j :: 0 <= j < |found| ==> found[j] in records && RankEntry(i.root, records[found[j]], found[j].pk) == Some(entries[j])
  {
    RunKeepsRank(meta, i, rank, st, ops);
    var rank', records := RunWithRank(meta, i, rank, st, ops), Run(meta, st, ops).records;
    var entries := Slice(Sorted(rank'.entries), startRank, endRank);
    SortedIsSorted(rank'.entries);
    forall j | 0 <= j < |entries|
      ensures Load(entries[j], types, records).Some?
      ensures var k := Load(entries[j], types, records).value; k in records && RankEntry(i.root, records[k], k.pk) == Some(entries[j])
    {
      SliceMember(Sorted(rank'.entries), startRank, endRank, j);
      AgreeingEntryLoads(i, rank', records, types, entries[j]);
    }
    LoadAllExact(entries, types, records);
  }

  lemma SliceMember(entries: seq<Tuple>, startRank: int, endRank: int, j: nat)
    requires j < |Slice(entries, startRank, endRank)|
    ensures Slice(entries, startRank, endRank)[j] in entries
  {
  }
}
