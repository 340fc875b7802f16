// The online index builder as a protocol: batches of one build interleaved with saves and deletes.
//
// A batch is one transaction, so it is one step.  The builder's position is the primary key of
// the last record it indexed.
module OnlineBuild {
  import opened Wrappers
  import opened Values
  import opened KeySpace
  import opened KeyExpressions
  import opened Indexes
  import opened RecordStore

  // ---- One batch ----

  predicate After(start: Option<Tuple>, pk: Tuple) {
    // An empty start key is falsy, so nothing is skipped.
    start.Some? && start.value != [] ==> !TupleAtMost(pk, start.value)
  }

  function PksAfter(records: Records, typeName: string, start: Option<Tuple>): set<Tuple> {
    set pk | pk in PksOf(records, typeName) && After(start, pk)
  }

  /** The records still to be scanned, type by type, each type in primary key order. */
  function Candidates(records: Records, types: seq<string>, start: Option<Tuple>): seq<RecordKey> {
    if types == [] then []
    else KeysOfType(types[0], Sorted(PksAfter(records, types[0], start))) + Candidates(records, types[1..], start)
  }

  /** The size of a full batch: the scan looks at its limit only after adding a record. */
  function FullBatch(limit: nat): nat { if limit == 0 then 1 else limit }

  /** The scan stops as soon as it holds `limit` records. */
  function Scan(records: Records, types: seq<string>, start: Option<Tuple>, limit: nat): seq<RecordKey> {
    var candidates := Candidates(records, types, start);
    if |candidates| <= FullBatch(limit) then candidates else candidates[..FullBatch(limit)]
  }

  function IndexEach(i: Index, c: Content, records: Records, keys: seq<RecordKey>): (c': Content)
    requires RightKind(i, c)
    requires forall j :: 0 <= j < |keys| ==> keys[j] in records
    ensures RightKind(i, c')
    decreases |keys|
  {
    if keys == [] then c
    else IndexEach(i, Updated(i, c, records[keys[0]], keys[0].pk), records, keys[1..])
  }

  lemma {:induction false} CandidatesStored(records: Records, types: seq<string>, start: Option<Tuple>)
    ensures forall k :: k in Candidates(records, types, start) <==>
      k in records && k.typeName in types && After(start, k.pk)
  {
    if types != [] {
      CandidatesStored(records, types[1..], start);
      var pks := PksAfter(records, types[0], start);
      SortedIsSorted(pks);
      forall k ensures k in KeysOfType(types[0], Sorted(pks)) <==> k in records && k.typeName == types[0] && After(start, k.pk) {
        if k in records && k.typeName == types[0] && After(start, k.pk) {
          assert k.pk in Sorted(pks);
          var j :| 0 <= j < |Sorted(pks)| && Sorted(pks)[j] == k.pk;
          assert KeysOfType(types[0], Sorted(pks))[j] == k;
        }
        if k in KeysOfType(types[0], Sorted(pks)) {
          var j :| 0 <= j < |Sorted(pks)| && KeysOfType(types[0], Sorted(pks))[j] == k;
          assert k.pk in Sorted(pks);
        }
      }
    }
  }

  lemma ScanStored(records: Records, types: seq<string>, start: Option<Tuple>, limit: nat)
    ensures forall j :: 0 <= j < |Scan(records, types, start, limit)| ==> Scan(records, types, start, limit)[j] in records
  {
    CandidatesStored(records, types, start);
    var scan := Scan(records, types, start, limit);
    forall j | 0 <= j < |scan| ensures scan[j] in records {
      assert scan[j] == Candidates(records, types, start)[j];
      assert scan[j] in Candidates(records, types, start);
    }
  }

  // ---- What a partial build guarantees ----

  ghost predicate NoDangling(i: Index, c: Content, records: Records)
    requires HoldsEntries(i) && RightKind(i, c)
  {
    forall key :: key in c.entries ==> Expected(i, records, key, c.entries[key])
  }

  ghost predicate Covers(i: Index, c: Content, r: Record, pk: Tuple)
    requires HoldsEntries(i) && RightKind(i, c)
  {
    forall key :: key in RecordEntries(i, r, pk) ==> key in c.entries && c.entries[key] == RecordEntries(i, r, pk)[key]
  }

  /** Every record the index applies to, at or before the builder's position, is indexed. */
  ghost predicate CoveredUpTo(i: Index, c: Content, records: Records, position: Option<Tuple>)
    requires HoldsEntries(i) && RightKind(i, c)
  {
    forall k :: k in records && Applies(i, k.typeName) && !After(position, k.pk) ==> Covers(i, c, records[k], k.pk)
  }

  lemma CoveredAllAgrees(i: Index, c: Content, records: Records)
    requires HoldsEntries(i) && RightKind(i, c) && WellTyped(records)
    requires NoDangling(i, c, records)
    requires forall k :: k in records && Applies(i, k.typeName) ==> Covers(i, c, records[k], k.pk)
    ensures Agrees(i, c, records)
  {
    forall key, payload: nat ensures (key in c.entries && c.entries[key] == payload) <==> Expected(i, records, key, payload) {
      if Expected(i, records, key, payload) {
        var k :| Contributes(i, records, k, key, payload);
        assert Covers(i, c, records[k], k.pk);
      }
    }
  }

  lemma AgreesCoversAll(i: Index, c: Content, records: Records)
    requires HoldsEntries(i) && Agrees(i, c, records)
    ensures NoDangling(i, c, records)
    ensures forall k :: k in records && Applies(i, k.typeName) ==> Covers(i, c, records[k], k.pk)
  {
    forall k | k in records && Applies(i, k.typeName) ensures Covers(i, c, records[k], k.pk) {
      forall key | key in RecordEntries(i, records[k], k.pk)
        ensures key in c.entries && c.entries[key] == RecordEntries(i, records[k], k.pk)[key]
      {
        assert Contributes(i, records, k, key, RecordEntries(i, records[k], k.pk)[key]);
        assert Expected(i, records, key, RecordEntries(i, records[k], k.pk)[key]);
      }
    }
  }

  /** A save or delete by another caller, which maintains the index, keeps both guarantees. */
  lemma MaintainedKeepsPartial(i: Index, c: Content, records: Records, records': Records, k: RecordKey,
        position: Option<Tuple>)
    requires HoldsEntries(i) && RightKind(i, c) && WellTyped(records) && WellTyped(records')
    requires records' - {k} == records - {k}
    requires NoDangling(i, c, records) && CoveredUpTo(i, c, records, position)
    ensures var c' := if Applies(i, k.typeName) then Maintained(i, c, k.pk, Lookup(records, k), Lookup(records', k)) else c;
            NoDangling(i, c', records') && CoveredUpTo(i, c', records', position)
  {
    var c' := if Applies(i, k.typeName) then Maintained(i, c, k.pk, Lookup(records, k), Lookup(records', k)) else c;
    SameElsewhere(records, records', k);
    forall key | key in c'.entries ensures Expected(i, records', key, c'.entries[key]) {
      if k in records' && Applies(i, k.typeName) && key in RecordEntries(i, records'[k], k.pk) {
        assert Contributes(i, records', k, key, c'.entries[key]);
      } else {
        var j :| Contributes(i, records, j, key, c.entries[key]);
        assert Contributes(i, records', j, key, c'.entries[key]);
      }
    }
    forall j | j in records' && Applies(i, j.typeName) && !After(position, j.pk) ensures Covers(i, c', records'[j], j.pk) {
      if j != k {
        assert Covers(i, c, records[j], j.pk);
        forall key | key in RecordEntries(i, records'[j], j.pk)
          ensures key in c'.entries && c'.entries[key] == RecordEntries(i, records'[j], j.pk)[key]
        {
          if k in records && key in RecordEntries(i, records[k], k.pk) {
            EntriesIdentifyRecord(i, records[k], k.pk, records[j], j.pk, key);
          }
          if k in records' && key in RecordEntries(i, records'[k], k.pk) {
            EntriesIdentifyRecord(i, records'[k], k.pk, records'[j], j.pk, key);
          }
        }
      }
    }
  }

  lemma SameElsewhere(records: Records, records': Records, k: RecordKey)
    requires records' - {k} == records - {k}
    ensures forall j :: j != k ==> (j in records <==> j in records')
    ensures forall j :: j != k && j in records ==> records[j] == records'[j]
  {
    forall j | j != k ensures j in records <==> j in records' {
      assert j in records <==> j in records - {k};
      assert j in records' <==> j in records' - {k};
    }
    forall j | j != k && j in records ensures records[j] == records'[j] {
      assert (records - {k})[j] == records[j] && (records' - {k})[j] == records'[j];
    }
  }

  /** Indexing stored records adds nothing dangling, covers each of them, uncovers nothing. */
  lemma {:induction false} IndexEachCovers(i: Index, c: Content, records: Records, keys: seq<RecordKey>)
    requires HoldsEntries(i) && RightKind(i, c) && WellTyped(records)
    requires forall j :: 0 <= j < |keys| ==>
      keys[j] in records && (Applies(i, keys[j].typeName) || RecordEntries(i, records[keys[j]], keys[j].pk) == map[])
    requires NoDangling(i, c, records)
    ensures NoDangling(i, IndexEach(i, c, records, keys), records)
    ensures forall k :: k in records && Applies(i, k.typeName) && (k in keys || Covers(i, c, records[k], k.pk)) ==>
              Covers(i, IndexEach(i, c, records, keys), records[k], k.pk)
    decreases |keys|
  {
    if keys != [] {
      var first := keys[0];
      var next := Updated(i, c, records[first], first.pk);
      forall key | key in next.entries ensures Expected(i, records, key, next.entries[key]) {
        if key in RecordEntries(i, records[first], first.pk) {
          assert Contributes(i, records, first, key, next.entries[key]);
        }
      }
      forall k | k in records && Applies(i, k.typeName) && (k == first || Covers(i, c, records[k], k.pk))
        ensures Covers(i, next, records[k], k.pk)
      {
        forall key | key in RecordEntries(i, records[k], k.pk)
          ensures key in next.entries && next.entries[key] == RecordEntries(i, records[k], k.pk)[key]
        {
          if key in RecordEntries(i, records[first], first.pk) {
            EntriesIdentifyRecord(i, records[first], first.pk, records[k], k.pk, key);
          }
        }
      }
      IndexEachCovers(i, next, records, keys[1..]);
    }
  }

  // ---- The build as a state machine ----

  datatype Phase = NotStarted | Building(position: Option<Tuple>) | Completed

  datatype BuildState = BuildState(store: State, phase: Phase)

  /** What the other callers and the builder can do next. */
  datatype Step = Call(op: Op) | Begin | Batch

  ghost predicate ValidBuild(meta: MetaData, n: nat, b: BuildState) {
    n < |meta.indexes| && ValidState(meta, b.store)
  }

  datatype BatchResult = BatchResult(content: Content, position: Option<Tuple>, hasMore: bool)

  /** _build_batch: scan, add each record to the index, remember the last key.  A scan that comes
      back short of the batch size is the last one. */
  function BatchOf(i: Index, c: Content, records: Records, types: seq<string>, position: Option<Tuple>,
        size: nat): (b: BatchResult)
    requires RightKind(i, c)
    ensures RightKind(i, b.content)
  {
    ScanStored(records, types, position, size);
    var keys := Scan(records, types, position, size);
    BatchResult(IndexEach(i, c, records, keys),
                if keys == [] then position else Some(keys[|keys| - 1].pk),
                keys != [] && |keys| >= size)
  }

  ghost function Next(meta: MetaData, n: nat, types: seq<string>, size: nat, b: BuildState, step: Step): (b': BuildState)
    requires ValidBuild(meta, n, b)
    ensures ValidBuild(meta, n, b')
  {
    var i := meta.indexes[n];
    match step
    case Call(op) => ApplyIsValid(meta, b.store, op); b.(store := Apply(meta, b.store, op))
    case Begin =>
      if b.phase.NotStarted?
      then BuildState(b.store.(states := b.store.states[i.name := WriteOnly]), Building(None))
      else b
    case Batch =>
      if !b.phase.Building? then b
      else
        var result := BatchOf(i, b.store.contents[i.name], b.store.records, types, b.phase.position, size);
        var store := b.store.(contents := b.store.contents[i.name := result.content]);
        if result.hasMore then BuildState(store, Building(result.position))
        else BuildState(store.(states := store.states[i.name := Readable]), Completed)
  }

  /** Callers do not disable the index under construction. */
  predicate Permitted(i: Index, step: Step) { step.Call? ==> step.op != SetStateOp(i.name, Disabled) }

  ghost predicate BuildInvariant(meta: MetaData, n: nat, b: BuildState) {
    ValidBuild(meta, n, b) &&
    var i := meta.indexes[n];
    HoldsEntries(i) && Keyed(meta, b.store.records) &&
    (!b.phase.NotStarted? ==> StateOf(b.store.states, i.name) != Disabled) &&
    NoDangling(i, b.store.contents[i.name], b.store.records) &&
    (b.phase.Building? ==> CoveredUpTo(i, b.store.contents[i.name], b.store.records, b.phase.position)) &&
    (b.phase.Completed? ==> Agrees(i, b.store.contents[i.name], b.store.records))
  }

  /** The list _build_index scans: the index's own types or, without any, the metadata's. */
  ghost predicate Lists(meta: MetaData, i: Index, types: seq<string>) {
    forall t :: t in types <==>
      if i.recordTypes.Some? && i.recordTypes.value != {} then t in i.recordTypes.value else t in meta.recordTypes
  }

  // ---- What can go wrong with a list of types ----

  /** The records fill a batch over the types whose last key is at or after the given one. */
  ghost predicate Overtakes(meta: MetaData, records: Records, before: seq<string>, size: nat, pk: Tuple) {
    Keyed(meta, records) &&
    var keys := Scan(records, before, None, size);
    |keys| == FullBatch(size) && keys[|keys| - 1].pk != [] && TupleAtMost(pk, keys[|keys| - 1].pk)
  }

  /** Some store has such records. */
  ghost predicate CanBeOvertaken(meta: MetaData, before: seq<string>, size: nat, pk: Tuple) {
    exists records :: Overtakes(meta, records, before, size, pk)
  }

  /** The record can be saved, and has entries in the index. */
  ghost predicate Contributing(meta: MetaData, i: Index, r: Record)
    requires HoldsEntries(i)
  {
    KeyOf(meta, r).Ok? && RecordEntries(i, r, KeyOf(meta, r).value.pk) != map[]
  }

  predicate FirstListed(types: seq<string>, j: nat) { j < |types| && types[j] !in types[..j] }

  /** Records with entries are of types that the index covers, and no batch full of records of types
      listed earlier can carry the position to their keys. */
  ghost predicate NothingOvertaken(meta: MetaData, i: Index, types: seq<string>, size: nat)
    requires HoldsEntries(i)
  {
    forall j: nat, r: Record :: FirstListed(types, j) && r.typeName == types[j] && Contributing(meta, i, r) ==>
      Applies(i, types[j]) && !CanBeOvertaken(meta, types[..j], size, KeyOf(meta, r).value.pk)
  }

  lemma {:induction false} FindFirstListed(types: seq<string>, t: string) returns (j: nat)
    requires t in types
    ensures FirstListed(types, j) && types[j] == t
  {
    var l :| 0 <= l < |types| && types[l] == t;
    j := l;
    while types[j] in types[..j]
      invariant j < |types| && types[j] == t
      decreases j
    {
      var earlier :| 0 <= earlier < j && types[earlier] == t;
      j := earlier;
    }
  }

  lemma CallKeepsInvariant(meta: MetaData, n: nat, b: BuildState, k: RecordKey, r: Option<Record>)
    requires BuildInvariant(meta, n, b)
    requires StateOf(b.store.states, meta.indexes[n].name) != Disabled
    requires r.Some? ==> KeyOf(meta, r.value) == Ok(k)
    ensures var store := Write(meta, b.store, k, Lookup(b.store.records, k), r);
            BuildInvariant(meta, n, b.(store := store))
  {
    var i := meta.indexes[n];
    var store := Write(meta, b.store, k, Lookup(b.store.records, k), r);
    WriteIsValid(meta, b.store, k, Lookup(b.store.records, k), r);
    MaintainAllContents(meta.indexes, b.store.contents, b.store.states, k, Lookup(b.store.records, k), r);
    assert store.records - {k} == b.store.records - {k};
    assert Lookup(store.records, k) == r;
    var c := b.store.contents[i.name];
    if b.phase.Completed? {
      WriteAgrees(meta, b.store, k, r, n);
      AgreesCoversAll(i, store.contents[i.name], store.records);
    } else {
      var position := if b.phase.Building? then b.phase.position else None;
      if b.phase.NotStarted? {
        assert CoveredUpTo(i, c, b.store.records, None);
      }
      MaintainedKeepsPartial(i, c, b.store.records, store.records, k, position);
    }
  }

  lemma {:induction false} CandidatesConcat(records: Records, a: seq<string>, b: seq<string>, start: Option<Tuple>)
    ensures Candidates(records, a + b, start) == Candidates(records, a, start) + Candidates(records, b, start)
    decreases |a|
  {
    hide PksAfter, Sorted, KeysOfType;
    if a == [] {
      assert a + b == b;
    } else {
      assert (a + b)[0] == a[0] && (a + b)[1..] == a[1..] + b;
      CandidatesConcat(records, a[1..], b, start);
      Regroup(KeysOfType(a[0], Sorted(PksAfter(records, a[0], start))), Candidates(records, a[1..], start), Candidates(records, b, start));
    }
  }

  /** The candidates at a listed type: those of the types before it, its own, those of the types after it. */
  lemma CandidatesAround(records: Records, types: seq<string>, start: Option<Tuple>, j: nat)
    requires j < |types|
    ensures Candidates(records, types, start)
         == Candidates(records, types[..j], start)
            + (KeysOfType(types[j], Sorted(PksAfter(records, types[j], start))) + Candidates(records, types[j + 1..], start))
  {
    assert types == types[..j] + types[j..];
    CandidatesConcat(records, types[..j], types[j..], start);
    assert types[j..][0] == types[j] && types[j..][1..] == types[j + 1..];
  }

  function RecordsBeyond(records: Records, start: Option<Tuple>): Records {
    map k | k in records && After(start, k.pk) :: records[k]
  }

  /** Scanning from a position finds what scanning only the records beyond it finds. */
  lemma {:induction false} CandidatesBeyond(records: Records, types: seq<string>, start: Option<Tuple>)
    ensures Candidates(RecordsBeyond(records, start), types, None) == Candidates(records, types, start)
  {
    if types != [] {
      CandidatesBeyond(records, types[1..], start);
      var beyond := RecordsBeyond(records, start);
      forall pk ensures pk in PksAfter(beyond, types[0], None) <==> pk in PksAfter(records, types[0], start) {
        assert RecordKey(types[0], pk) in beyond <==> RecordKey(types[0], pk) in records && After(start, pk);
        assert pk in PksOf(beyond, types[0]) <==> RecordKey(types[0], pk) in beyond;
        assert pk in PksOf(records, types[0]) <==> RecordKey(types[0], pk) in records;
      }
      assert PksAfter(beyond, types[0], None) == PksAfter(records, types[0], start);
    }
  }

  /** Where a record beyond the position stands among the candidates: after those of the types listed
      before its own, and after its own type's records with smaller keys. */
  lemma PlaceAmongCandidates(records: Records, types: seq<string>, position: Option<Tuple>, k: RecordKey,
        j: nat) returns (l: nat)
    requires k in records && After(position, k.pk) && j < |types| && types[j] == k.typeName
    ensures var candidates, earlier := Candidates(records, types, position), Candidates(records, types[..j], position);
            earlier <= candidates && |earlier| <= l < |candidates| && candidates[l] == k &&
            forall m :: |earlier| <= m < l ==> TupleLess(candidates[m].pk, k.pk)
  {
    hide Candidates, Sorted, TupleLess;
    var pks := PksAfter(records, types[j], position);
    var earlier, own := Candidates(records, types[..j], position), KeysOfType(types[j], Sorted(pks));
    CandidatesAround(records, types, position, j);
    SortedIsSorted(pks);
    assert k.pk in Sorted(pks);
    var at :| 0 <= at < |Sorted(pks)| && Sorted(pks)[at] == k.pk;
    l := |earlier| + at;
    var candidates := Candidates(records, types, position);
    forall m | |earlier| <= m < l ensures TupleLess(candidates[m].pk, k.pk) {
      assert candidates[m] == own[m - |earlier|];
    }
  }

  /** A record beyond the position that a batch leaves out comes after the batch's last record, or a
      batch full of earlier types' records has overtaken it. */
  lemma LeftOutIsOvertaken(meta: MetaData, records: Records, types: seq<string>, position: Option<Tuple>, size: nat,
        k: RecordKey, j: nat)
    requires Keyed(meta, records) && k in records && After(position, k.pk)
    requires FirstListed(types, j) && types[j] == k.typeName && k !in Scan(records, types, position, size)
    ensures var keys := Scan(records, types, position, size);
            keys != [] && |keys| >= size &&
            (!After(Some(keys[|keys| - 1].pk), k.pk) ==> CanBeOvertaken(meta, types[..j], size, k.pk))
  {
    hide Candidates, TupleLess, KeyOf, CanBeOvertaken;
    var keys := Scan(records, types, position, size);
    var candidates, earlier := Candidates(records, types, position), Candidates(records, types[..j], position);
    var l := PlaceAmongCandidates(records, types, position, k, j);
    LeftOutIsLater(candidates, keys, FullBatch(size), l);
    if |keys| <= |earlier| {
      if !After(Some(keys[|keys| - 1].pk), k.pk) {
        EarlierTypesOvertake(meta, records, types[..j], position, size, k.pk);
      }
    } else {
      TupleLessTotal(keys[|keys| - 1].pk, k.pk);
    }
  }

  lemma LeftOutIsLater(candidates: seq<RecordKey>, keys: seq<RecordKey>, full: nat, l: nat)
    requires full > 0 && l < |candidates| && candidates[l] !in keys
    requires keys == if |candidates| <= full then candidates else candidates[..full]
    ensures |keys| == full <= l && keys == candidates[..full]
  {
    assert forall m :: 0 <= m < |keys| ==> keys[m] == candidates[m] && keys[m] in keys;
  }

  lemma EarlierTypesOvertake(meta: MetaData, records: Records, before: seq<string>, position: Option<Tuple>,
        size: nat, pk: Tuple)
    requires Keyed(meta, records) && FullBatch(size) <= |Candidates(records, before, position)|
    requires !After(Some(Candidates(records, before, position)[FullBatch(size) - 1].pk), pk)
    ensures CanBeOvertaken(meta, before, size, pk)
  {
    hide KeyOf, Candidates;
    var beyond := RecordsBeyond(records, position);
    CandidatesBeyond(records, before, position);
    assert Overtakes(meta, beyond, before, size, pk);
  }

  /** Coverage reaches the last record of a batch, or everything when the batch is short. */
  lemma BatchCovers(meta: MetaData, i: Index, c: Content, records: Records, types: seq<string>,
        position: Option<Tuple>, size: nat)
    requires HoldsEntries(i) && RightKind(i, c) && Keyed(meta, records)
    requires Lists(meta, i, types) && NothingOvertaken(meta, i, types, size)
    requires NoDangling(i, c, records) && CoveredUpTo(i, c, records, position)
    ensures var result := BatchOf(i, c, records, types, position, size);
            NoDangling(i, result.content, records) &&
            CoveredUpTo(i, result.content, records, result.position) &&
            (!result.hasMore ==> Agrees(i, result.content, records))
  {
    hide Scan, Lists, Contributing, NothingOvertaken, KeyOf;
    var keys := Scan(records, types, position, size);
    var result := BatchOf(i, c, records, types, position, size);
    ScanStored(records, types, position, size);
    ScannedContribute(meta, i, records, types, position, size);
    KeyedIsTyped(meta, records);
    IndexEachCovers(i, c, records, keys);
    forall k | k in records && Applies(i, k.typeName) && (!After(result.position, k.pk) || !result.hasMore)
      ensures k in keys || Covers(i, c, records[k], k.pk)
    {
      if k !in keys && After(position, k.pk) {
        LeftOutHasNoEntries(meta, i, records, types, position, size, k);
      }
    }
    if !result.hasMore {
      CoveredAllAgrees(i, result.content, records);
    }
  }

  lemma LeftOutHasNoEntries(meta: MetaData, i: Index, records: Records, types: seq<string>,
        position: Option<Tuple>, size: nat,
        k: RecordKey)
    requires HoldsEntries(i) && Keyed(meta, records) && Lists(meta, i, types) && NothingOvertaken(meta, i, types, size)
    requires k in records && Applies(i, k.typeName) && After(position, k.pk) && k !in Scan(records, types, position, size)
    ensures var keys := Scan(records, types, position, size);
            keys != [] && |keys| >= size &&
            (!After(Some(keys[|keys| - 1].pk), k.pk) ==> RecordEntries(i, records[k], k.pk) == map[])
  {
    hide Scan, RecordEntries;
    CoveredIsListed(meta, i, records, types, k);
    var j := FindFirstListed(types, k.typeName);
    LeftOutIsOvertaken(meta, records, types, position, size, k, j);
    assert KeyOf(meta, records[k]) == Ok(k);
    assert Contributing(meta, i, records[k]) <==> RecordEntries(i, records[k], k.pk) != map[];
  }

  lemma CoveredIsListed(meta: MetaData, i: Index, records: Records, types: seq<string>, k: RecordKey)
    requires Keyed(meta, records) && Lists(meta, i, types) && k in records && Applies(i, k.typeName)
    ensures k.typeName in types
  {
    assert KeyOf(meta, records[k]) == Ok(k);
  }

  lemma ScannedContribute(meta: MetaData, i: Index, records: Records, types: seq<string>,
        position: Option<Tuple>, size: nat)
    requires HoldsEntries(i) && Keyed(meta, records) && NothingOvertaken(meta, i, types, size)
    ensures var keys := Scan(records, types, position, size);
            forall j :: 0 <= j < |keys| ==>
              keys[j] in records && (Applies(i, keys[j].typeName) || RecordEntries(i, records[keys[j]], keys[j].pk) == map[])
  {
    hide RecordEntries;
    var keys := Scan(records, types, position, size);
    CandidatesStored(records, types, position);
    forall j | 0 <= j < |keys|
      ensures keys[j] in records && (Applies(i, keys[j].typeName) || RecordEntries(i, records[keys[j]], keys[j].pk) == map[])
    {
      assert keys[j] == Candidates(records, types, position)[j];
      assert keys[j] in Candidates(records, types, position);
      var l := FindFirstListed(types, keys[j].typeName);
      assert KeyOf(meta, records[keys[j]]) == Ok(keys[j]);
      assert Contributing(meta, i, records[keys[j]]) <==> RecordEntries(i, records[keys[j]], keys[j].pk) != map[];
    }
  }

  /** What another caller does before the build has begun is maintained only if the index is not
      DISABLED then. */
  predicate Maintains(i: Index, b: BuildState, step: Step) {
    step.Call? && b.phase.NotStarted? ==> StateOf(b.store.states, i.name) != Disabled
  }

  /** Every step of a build, by the builder or by another caller, keeps the invariant. */
  lemma NextKeepsInvariant(meta: MetaData, n: nat, types: seq<string>, size: nat, b: BuildState, step: Step)
    requires BuildInvariant(meta, n, b)
    requires Lists(meta, meta.indexes[n], types) && NothingOvertaken(meta, meta.indexes[n], types, size)
    requires Permitted(meta.indexes[n], step) && Maintains(meta.indexes[n], b, step)
    ensures BuildInvariant(meta, n, Next(meta, n, types, size, b, step))
  {
    hide Lists, NothingOvertaken, KeyOf;
    var i := meta.indexes[n];
    match step
    case Call(SaveOp(r)) =>
      if KeyOf(meta, r).Ok? { CallKeepsInvariant(meta, n, b, KeyOf(meta, r).value, Some(r)); }
    case Call(DeleteOp(k)) =>
      if k in b.store.records { CallKeepsInvariant(meta, n, b, k, None); }
    case Call(SetStateOp(_, _)) =>
    case Begin =>
    case Batch =>
      if b.phase.Building? {
        BatchCovers(meta, i, b.store.contents[i.name], b.store.records, types, b.phase.position, size);
        var result := BatchOf(i, b.store.contents[i.name], b.store.records, types, b.phase.position, size);
        if !result.hasMore { AgreesCoversAll(i, result.content, b.store.records); }
      }
  }

  ghost function RunBuild(meta: MetaData, n: nat, types: seq<string>, size: nat, b: BuildState,
        steps: seq<Step>): (b': BuildState)
    requires ValidBuild(meta, n, b)
    ensures ValidBuild(meta, n, b')
    decreases |steps|
  {
    if steps == [] then b else RunBuild(meta, n, types, size, Next(meta, n, types, size, b, steps[0]), steps[1..])
  }

  predicate AllPermitted(i: Index, steps: seq<Step>) {
    forall j :: 0 <= j < |steps| ==> Permitted(i, steps[j])
  }

  /** Where a build may start: records stand under their own primary keys, as saves leave them, and no
      entry stands without its record.  The index may be in any state; DISABLED is the usual one. */
  ghost predicate MayStart(meta: MetaData, n: nat, store: State) {
    ValidBuild(meta, n, BuildState(store, NotStarted)) && HoldsEntries(meta.indexes[n]) && Keyed(meta, store.records) &&
    NoDangling(meta.indexes[n], store.contents[meta.indexes[n].name], store.records)
  }

  /** An empty index may be built whatever its state. */
  lemma BuildMayStart(meta: MetaData, n: nat, types: seq<string>, store: State)
    requires ValidBuild(meta, n, BuildState(store, NotStarted)) && HoldsEntries(meta.indexes[n])
    requires Keyed(meta, store.records) && store.contents[meta.indexes[n].name].entries == map[]
    ensures MayStart(meta, n, store)
    ensures BuildInvariant(meta, n, Next(meta, n, types, 0, BuildState(store, NotStarted), Begin))
  {
  }

  lemma {:induction false} BegunBuildKeepsInvariant(meta: MetaData, n: nat, types: seq<string>, size: nat,
        b: BuildState, steps: seq<Step>)
    requires BuildInvariant(meta, n, b) && !b.phase.NotStarted?
    requires Lists(meta, meta.indexes[n], types) && NothingOvertaken(meta, meta.indexes[n], types, size)
    requires AllPermitted(meta.indexes[n], steps)
    ensures BuildInvariant(meta, n, RunBuild(meta, n, types, size, b, steps))
    decreases |steps|
  {
    hide Lists, NothingOvertaken;
    if steps != [] {
      NextKeepsInvariant(meta, n, types, size, b, steps[0]);
      BegunBuildKeepsInvariant(meta, n, types, size, Next(meta, n, types, size, b, steps[0]), steps[1..]);
    }
  }

  /** Online build: from any store without dangling entries, in every interleaving of the builder's
      batches with other callers' saves and deletes, whenever the build is complete the index holds
      exactly the entries of the stored records. */
  lemma CompletedBuildAgrees(meta: MetaData, n: nat, types: seq<string>, size: nat, store: State, steps: seq<Step>)
    requires MayStart(meta, n, store)
    requires Lists(meta, meta.indexes[n], types) && NothingOvertaken(meta, meta.indexes[n], types, size)
    requires AllPermitted(meta.indexes[n], steps)
    ensures var end := RunBuild(meta, n, types, size, BuildState(store, NotStarted), [Begin] + steps);
            BuildInvariant(meta, n, end) &&
            (end.phase.Completed? ==> IndexAgrees(meta, end.store, n))
  {
    hide Lists, NothingOvertaken;
    var b := BuildState(store, NotStarted);
    assert ([Begin] + steps)[1..] == steps;
    NextKeepsInvariant(meta, n, types, size, b, Begin);
    BegunBuildKeepsInvariant(meta, n, types, size, Next(meta, n, types, size, b, Begin), steps);
  }

  // ---- Readable means built ----

  /** Callers do not set the state of the index under construction. */
  predicate LeavesState(i: Index, step: Step) {
    step.Call? && step.op.SetStateOp? ==> step.op.indexName != i.name
  }

  predicate AllLeaveState(i: Index, steps: seq<Step>) { forall j :: 0 <= j < |steps| ==> LeavesState(i, steps[j]) }

  /** The state an index has by the phase of its build: its own before, WRITE_ONLY while the batches
      run, READABLE after. */
  function StateInPhase(phase: Phase, before: IndexState): IndexState {
    match phase
    case NotStarted => before
    case Building(_) => WriteOnly
    case Completed => Readable
  }

  lemma NextKeepsState(meta: MetaData, n: nat, types: seq<string>, size: nat, b: BuildState, step: Step, before: IndexState)
    requires ValidBuild(meta, n, b) && LeavesState(meta.indexes[n], step)
    requires StateOf(b.store.states, meta.indexes[n].name) == StateInPhase(b.phase, before)
    ensures var next := Next(meta, n, types, size, b, step);
            StateOf(next.store.states, meta.indexes[n].name) == StateInPhase(next.phase, before) &&
            (!b.phase.NotStarted? ==> !next.phase.NotStarted?) && (step == Begin ==> !next.phase.NotStarted?)
  {
  }

  /** In every interleaving in which the other callers leave its state alone, an index is WRITE_ONLY
      as long as its build runs and READABLE only when it was before the build or the build is complete. */
  lemma {:induction false} StateFollowsPhase(meta: MetaData, n: nat, types: seq<string>, size: nat,
        b: BuildState, steps: seq<Step>, before: IndexState)
    requires ValidBuild(meta, n, b) && AllLeaveState(meta.indexes[n], steps)
    requires StateOf(b.store.states, meta.indexes[n].name) == StateInPhase(b.phase, before)
    ensures var end := RunBuild(meta, n, types, size, b, steps);
            StateOf(end.store.states, meta.indexes[n].name) == StateInPhase(end.phase, before) &&
            (!b.phase.NotStarted? ==> !end.phase.NotStarted?)
    decreases |steps|
  {
    hide Next, ValidBuild;
    if steps != [] {
      NextKeepsState(meta, n, types, size, b, steps[0], before);
      StateFollowsPhase(meta, n, types, size, Next(meta, n, types, size, b, steps[0]), steps[1..], before);
    }
  }

  /** An index under construction is never READABLE, so from the moment a build begins a READABLE
      index holds exactly the entries of the stored records. */
  lemma ReadableAgrees(meta: MetaData, n: nat, types: seq<string>, size: nat, store: State, steps: seq<Step>)
    requires MayStart(meta, n, store)
    requires Lists(meta, meta.indexes[n], types) && NothingOvertaken(meta, meta.indexes[n], types, size)
    requires AllLeaveState(meta.indexes[n], steps)
    ensures var end := RunBuild(meta, n, types, size, BuildState(store, NotStarted), [Begin] + steps);
            var state := StateOf(end.store.states, meta.indexes[n].name);
            (end.phase.Building? ==> state == WriteOnly) && (end.phase.Completed? ==> state == Readable) &&
            (state == Readable ==> IndexAgrees(meta, end.store, n))
  {
    hide Lists, NothingOvertaken, NoDangling, Keyed, IndexAgrees;
    var b := BuildState(store, NotStarted);
    assert ([Begin] + steps)[1..] == steps;
    var before := StateOf(store.states, meta.indexes[n].name);
    NextKeepsState(meta, n, types, size, b, Begin, before);
    StateFollowsPhase(meta, n, types, size, Next(meta, n, types, size, b, Begin), steps, before);
    CompletedBuildAgrees(meta, n, types, size, store, steps);
  }

  // ---- Progress ----

  function KeysAfter(records: Records, types: seq<string>, start: Option<Tuple>): set<RecordKey> {
    set k | k in records && k.typeName in types && After(start, k.pk)
  }

  /** A batch with more to come leaves strictly fewer records beyond its position. */
  lemma BatchShrinks(records: Records, types: seq<string>, position: Option<Tuple>, size: nat)
    ensures var keys := Scan(records, types, position, size);
            keys != [] && keys[|keys| - 1].pk != [] ==>
              KeysAfter(records, types, Some(keys[|keys| - 1].pk)) < KeysAfter(records, types, position)
  {
    var keys := Scan(records, types, position, size);
    if keys != [] && keys[|keys| - 1].pk != [] {
      var last := keys[|keys| - 1];
      CandidatesStored(records, types, position);
      assert last == Candidates(records, types, position)[|keys| - 1];
      assert last in Candidates(records, types, position);
      assert last in KeysAfter(records, types, position);
      assert last !in KeysAfter(records, types, Some(last.pk));
      forall k | k in KeysAfter(records, types, Some(last.pk)) ensures k in KeysAfter(records, types, position) {
        if position.Some? && position.value != [] {
          TupleLessTotal(k.pk, last.pk);
          TupleLessTotal(last.pk, position.value);
          TupleLessTransitive(position.value, last.pk, k.pk);
          TupleLessTotal(position.value, k.pk);
        }
      }
    }
  }

  // ---- More than one record type ----

  /** The position is a bare primary key, so with several types a record of a later type is never
      scanned again once the position has passed its key. */
  lemma LaterTypeIsSkipped(records: Records, types: seq<string>, k: RecordKey, position: Option<Tuple>, size: nat)
    requires position.Some? && position.value != [] && TupleAtMost(k.pk, position.value)
    ensures k !in Scan(records, types, position, size)
  {
    CandidatesStored(records, types, position);
  }
}
