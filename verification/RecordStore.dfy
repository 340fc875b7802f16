// The record store: saving and deleting records while maintaining every index.
module RecordStore {
  import opened Wrappers
  import opened Values
  import opened KeyExpressions
  import opened Indexes

  datatype IndexState = Disabled | WriteOnly | Readable

  datatype StoreError = RecordTypeNotFound | InvalidPrimaryKey | IndexNotFound

  /** recordTypes maps a type to its primary key expression. */
  datatype MetaData = MetaData(recordTypes: map<string, KeyExpression>, indexes: seq<Index>)

  datatype State = State(records: Records, contents: map<string, Content>, states: map<string, IndexState>)

  // ---- Specification ----

  predicate DistinctNames(indexes: seq<Index>) {
    forall m, n :: 0 <= m < n < |indexes| ==> indexes[m].name != indexes[n].name
  }

  /** An index is found under its name. */
  lemma {:induction false} FindDistinct(indexes: seq<Index>, n: nat)
    requires DistinctNames(indexes) && n < |indexes|
    ensures FindIndex(indexes, indexes[n].name) == Some(n)
    decreases n
  {
    if n > 0 {
      assert indexes[0].name != indexes[n].name;
      FindDistinct(indexes[1..], n - 1);
    }
  }

  predicate HasContents(indexes: seq<Index>, contents: map<string, Content>) {
    forall n :: 0 <= n < |indexes| ==>
      indexes[n].name in contents && RightKind(indexes[n], contents[indexes[n].name])
  }

  /** The default state of an index is READABLE. */
  function StateOf(states: map<string, IndexState>, name: string): IndexState {
    if name in states then states[name] else Readable
  }

  predicate Active(i: Index, states: map<string, IndexState>, typeName: string) {
    Applies(i, typeName) && StateOf(states, i.name) != Disabled
  }

  function MaintainAll(indexes: seq<Index>, contents: map<string, Content>, states: map<string, IndexState>,
                       k: RecordKey, old_: Option<Record>, new_: Option<Record>): (contents': map<string, Content>)
    requires DistinctNames(indexes) && HasContents(indexes, contents)
    decreases |indexes|
  {
    if indexes == [] then contents
    else
      var i := indexes[0];
      var next := if Active(i, states, k.typeName)
                  then contents[i.name := Maintained(i, contents[i.name], k.pk, old_, new_)]
                  else contents;
      MaintainAll(indexes[1..], next, states, k, old_, new_)
  }

  /** Each index ends up maintained on its own; nothing else in the contents changes. */
  lemma {:induction false} MaintainAllContents(indexes: seq<Index>, contents: map<string, Content>,
      states: map<string, IndexState>, k: RecordKey, old_: Option<Record>, new_: Option<Record>)
    requires DistinctNames(indexes) && HasContents(indexes, contents)
    ensures var contents' := MaintainAll(indexes, contents, states, k, old_, new_);
            contents'.Keys == contents.Keys &&
            (forall n :: 0 <= n < |indexes| ==>
              contents'[indexes[n].name] ==
                if Active(indexes[n], states, k.typeName)
                then Maintained(indexes[n], contents[indexes[n].name], k.pk, old_, new_)
                else contents[indexes[n].name]) &&
            (forall name :: name in contents && (forall n :: 0 <= n < |indexes| ==> indexes[n].name != name) ==>
              contents'[name] == contents[name])
    decreases |indexes|
  {
    if indexes != [] {
      var i := indexes[0];
      var next := if Active(i, states, k.typeName)
                  then contents[i.name := Maintained(i, contents[i.name], k.pk, old_, new_)]
                  else contents;
      MaintainAllContents(indexes[1..], next, states, k, old_, new_);
      var contents' := MaintainAll(indexes, contents, states, k, old_, new_);
      forall n | 0 <= n < |indexes|
        ensures contents'[indexes[n].name] ==
                if Active(indexes[n], states, k.typeName)
                then Maintained(indexes[n], contents[indexes[n].name], k.pk, old_, new_)
                else contents[indexes[n].name]
      {
        if n > 0 { assert indexes[n] == indexes[1..][n - 1]; }
      }
      forall name | name in contents && (forall n :: 0 <= n < |indexes| ==> indexes[n].name != name)
        ensures contents'[name] == contents[name]
      {
        assert indexes[0].name != name;
      }
    }
  }

  ghost predicate ValidState(meta: MetaData, st: State) {
    DistinctNames(meta.indexes) && HasContents(meta.indexes, st.contents) && WellTyped(st.records)
  }

  function Put(records: Records, k: RecordKey, r: Option<Record>): Records {
    if r.Some? then records[k := r.value] else records - {k}
  }

  /** Write or clear one record and update the indexes from the given old record. */
  function Write(meta: MetaData, st: State, k: RecordKey, old_: Option<Record>, new_: Option<Record>): State
    requires DistinctNames(meta.indexes) && HasContents(meta.indexes, st.contents)
  {
    State(Put(st.records, k, new_), MaintainAll(meta.indexes, st.contents, st.states, k, old_, new_), st.states)
  }

  function KeyOf(meta: MetaData, r: Record): Result<RecordKey, StoreError> {
    if r.typeName !in meta.recordTypes then Err(RecordTypeNotFound)
    else
      var keys := Evaluate(meta.recordTypes[r.typeName], r);
      if |keys| != 1 then Err(InvalidPrimaryKey) else Ok(RecordKey(r.typeName, keys[0]))
  }

  /** Every record stands under the primary key it evaluates to, as a save puts it. */
  ghost predicate Keyed(meta: MetaData, records: Records) { forall k :: k in records ==> KeyOf(meta, records[k]) == Ok(k) }

  lemma KeyedIsTyped(meta: MetaData, records: Records)
    requires Keyed(meta, records)
    ensures WellTyped(records)
  {
  }

  function Saved(meta: MetaData, st: State, k: RecordKey, r: Record): State
    requires DistinctNames(meta.indexes) && HasContents(meta.indexes, st.contents)
  {
    Write(meta, st, k, Lookup(st.records, k), Some(r))
  }

  function Deleted(meta: MetaData, st: State, k: RecordKey): State
    requires DistinctNames(meta.indexes) && HasContents(meta.indexes, st.contents)
  {
    if k in st.records then Write(meta, st, k, Some(st.records[k]), None) else st
  }

  lemma WriteIsValid(meta: MetaData, st: State, k: RecordKey, old_: Option<Record>, new_: Option<Record>)
    requires ValidState(meta, st)
    requires new_.Some? ==> new_.value.typeName == k.typeName
    ensures ValidState(meta, Write(meta, st, k, old_, new_))
  {
    MaintainAllContents(meta.indexes, st.contents, st.states, k, old_, new_);
  }

  lemma DeletedIsValid(meta: MetaData, st: State, k: RecordKey)
    requires ValidState(meta, st)
    ensures ValidState(meta, Deleted(meta, st, k))
  {
    if k in st.records { WriteIsValid(meta, st, k, Some(st.records[k]), None); }
  }

  /** The index agrees with the records. */
  ghost predicate IndexAgrees(meta: MetaData, st: State, n: nat)
    requires n < |meta.indexes| && HasContents(meta.indexes, st.contents)
  {
    Agrees(meta.indexes[n], st.contents[meta.indexes[n].name], st.records)
  }

  lemma WriteAgrees(meta: MetaData, st: State, k: RecordKey, new_: Option<Record>, n: nat)
    requires ValidState(meta, st) && n < |meta.indexes|
    requires new_.Some? ==> new_.value.typeName == k.typeName
    requires StateOf(st.states, meta.indexes[n].name) != Disabled
    requires IndexAgrees(meta, st, n)
    ensures var st' := Write(meta, st, k, Lookup(st.records, k), new_);
            ValidState(meta, st') && IndexAgrees(meta, st', n)
  {
    var i := meta.indexes[n];
    var st' := Write(meta, st, k, Lookup(st.records, k), new_);
    WriteIsValid(meta, st, k, Lookup(st.records, k), new_);
    MaintainAllContents(meta.indexes, st.contents, st.states, k, Lookup(st.records, k), new_);
    assert st'.records - {k} == st.records - {k};
    if Applies(i, k.typeName) {
      MaintainedAgrees(i, st.contents[i.name], st.records, st'.records, k);
    } else {
      NotCoveredAgrees(i, st.contents[i.name], st.records, st'.records, k);
    }
  }

  // ---- Runs of the store ----

  datatype Op =
    | SaveOp(record: Record)
    | DeleteOp(key: RecordKey)
    | SetStateOp(indexName: string, state: IndexState)

  /** One call.  A call that raises leaves the store as it was. */
  function Apply(meta: MetaData, st: State, op: Op): State
    requires DistinctNames(meta.indexes) && HasContents(meta.indexes, st.contents)
  {
    match op
    case SaveOp(r) => (match KeyOf(meta, r) case Ok(k) => Saved(meta, st, k, r) case Err(_) => st)
    case DeleteOp(k) => if k.typeName in meta.recordTypes then Deleted(meta, st, k) else st
    case SetStateOp(name, state) => st.(states := st.states[name := state])
  }

  lemma ApplyIsValid(meta: MetaData, st: State, op: Op)
    requires ValidState(meta, st)
    ensures ValidState(meta, Apply(meta, st, op))
  {
    match op
    case SaveOp(r) =>
      if KeyOf(meta, r).Ok? { WriteIsValid(meta, st, KeyOf(meta, r).value, Lookup(st.records, KeyOf(meta, r).value), Some(r)); }
    case DeleteOp(k) =>
      DeletedIsValid(meta, st, k);
    case SetStateOp(_, _) =>
  }

  ghost function Run(meta: MetaData, st: State, ops: seq<Op>): State
    requires ValidState(meta, st)
    decreases |ops|
  {
    if ops == [] then st
    else ApplyIsValid(meta, st, ops[0]); Run(meta, Apply(meta, st, ops[0]), ops[1..])
  }

  lemma ApplyKeepsKeyed(meta: MetaData, st: State, op: Op)
    requires ValidState(meta, st) && Keyed(meta, st.records)
    ensures Keyed(meta, Apply(meta, st, op).records)
  {
  }

  /** Every store that runs of calls lead to from the empty one has its records under their own keys. */
  lemma {:induction false} RunKeepsKeyed(meta: MetaData, st: State, ops: seq<Op>)
    requires ValidState(meta, st) && Keyed(meta, st.records)
    ensures Keyed(meta, Run(meta, st, ops).records)
    decreases |ops|
  {
    if ops != [] {
      ApplyIsValid(meta, st, ops[0]);
      ApplyKeepsKeyed(meta, st, ops[0]);
      RunKeepsKeyed(meta, Apply(meta, st, ops[0]), ops[1..]);
    }
  }

  lemma {:induction false} RunConcat(meta: MetaData, st: State, a: seq<Op>, b: seq<Op>)
    requires ValidState(meta, st)
    ensures ValidState(meta, Run(meta, st, a)) && Run(meta, st, a + b) == Run(meta, Run(meta, st, a), b)
    decreases |a|
  {
    if a == [] {
      assert a + b == b;
    } else {
      assert (a + b)[0] == a[0] && (a + b)[1..] == a[1..] + b;
      ApplyIsValid(meta, st, a[0]);
      RunConcat(meta, Apply(meta, st, a[0]), a[1..], b);
    }
  }

  // ---- What is stored, read off the calls ----

  /** The record last saved under a key and not deleted since; before any of these calls, the one there
      was.  A save that raises saves nothing, and a delete of an unknown type deletes nothing. */
  ghost function LastSaved(meta: MetaData, ops: seq<Op>, k: RecordKey, before: Option<Record>): Option<Record>
    decreases |ops|
  {
    if ops == [] then before
    else
      var earlier, op := LastSaved(meta, ops[..|ops| - 1], k, before), ops[|ops| - 1];
      if op.SaveOp? && KeyOf(meta, op.record) == Ok(k) then Some(op.record)
      else if op.DeleteOp? && op.key == k && k.typeName in meta.recordTypes then None
      else earlier
  }

  lemma RunSnoc(meta: MetaData, st: State, ops: seq<Op>)
    requires ValidState(meta, st) && ops != []
    ensures var before := Run(meta, st, ops[..|ops| - 1]);
            ValidState(meta, before) && Run(meta, st, ops) == Apply(meta, before, ops[|ops| - 1])
  {
    var n := |ops| - 1;
    RunConcat(meta, st, ops[..n], [ops[n]]);
    assert ops == ops[..n] + [ops[n]];
    assert [ops[n]][1..] == [];
  }

  /** After any calls each key holds the record last saved under it and not deleted since, and nothing
      else is stored: no call touches another key's record. */
  lemma {:induction false} StoresLastSaved(meta: MetaData, st: State, ops: seq<Op>, k: RecordKey)
    requires ValidState(meta, st)
    ensures Lookup(Run(meta, st, ops).records, k) == LastSaved(meta, ops, k, Lookup(st.records, k))
    decreases |ops|
  {
    if ops != [] {
      hide ValidState, MaintainAll, KeyOf;
      RunSnoc(meta, st, ops);
      StoresLastSaved(meta, st, ops[..|ops| - 1], k);
    }
  }

  predicate NeverDisables(ops: seq<Op>, name: string) {
    forall j :: 0 <= j < |ops| ==> ops[j] != SetStateOp(name, Disabled)
  }

  /** Index agreement over every run: an index that starts in agreement and is never DISABLED
      agrees with the records after any sequence of saves, deletes and state changes. */
  lemma {:induction false} RunAgrees(meta: MetaData, st: State, ops: seq<Op>, n: nat)
    requires ValidState(meta, st) && n < |meta.indexes|
    requires IndexAgrees(meta, st, n)
    requires StateOf(st.states, meta.indexes[n].name) != Disabled && NeverDisables(ops, meta.indexes[n].name)
    ensures ValidState(meta, Run(meta, st, ops)) && IndexAgrees(meta, Run(meta, st, ops), n)
    decreases |ops|
  {
    if ops != [] {
      var op := ops[0];
      ApplyIsValid(meta, st, op);
      match op {
        case SaveOp(r) =>
          if KeyOf(meta, r).Ok? { WriteAgrees(meta, st, KeyOf(meta, r).value, Some(r), n); }
        case DeleteOp(k) =>
          if k in st.records { WriteAgrees(meta, st, k, None, n); }
        case SetStateOp(_, _) =>
      }
      RunAgrees(meta, Apply(meta, st, op), ops[1..], n);
    }
  }

  function EmptyContents(indexes: seq<Index>): map<string, Content> {
    if indexes == [] then map[]
    else EmptyContents(indexes[1..])[indexes[0].name := EmptyContent(indexes[0])]
  }

  lemma {:induction false} EmptyContentsAt(indexes: seq<Index>)
    requires DistinctNames(indexes)
    ensures forall n :: 0 <= n < |indexes| ==>
      indexes[n].name in EmptyContents(indexes) && EmptyContents(indexes)[indexes[n].name] == EmptyContent(indexes[n])
    decreases |indexes|
  {
    if indexes != [] {
      EmptyContentsAt(indexes[1..]);
      forall n | 0 < n < |indexes|
        ensures indexes[n].name in EmptyContents(indexes) && EmptyContents(indexes)[indexes[n].name] == EmptyContent(indexes[n])
      {
        assert indexes[1..][n - 1] == indexes[n] && indexes[0].name != indexes[n].name;
      }
    }
  }

  /** The store before anything was saved. */
  function EmptyStore(meta: MetaData): State { State(map[], EmptyContents(meta.indexes), map[]) }

  lemma EmptyStoreIsValid(meta: MetaData)
    requires DistinctNames(meta.indexes)
    ensures ValidState(meta, EmptyStore(meta)) && forall n :: 0 <= n < |meta.indexes| ==> IndexAgrees(meta, EmptyStore(meta), n)
  {
    EmptyContentsAt(meta.indexes);
    forall n | 0 <= n < |meta.indexes| ensures IndexAgrees(meta, EmptyStore(meta), n) {
      EmptyAgrees(meta, EmptyStore(meta), n);
    }
  }

  /** A store with no records and empty indexes is in agreement. */
  lemma EmptyAgrees(meta: MetaData, st: State, n: nat)
    requires n < |meta.indexes| && HasContents(meta.indexes, st.contents)
    requires st.records == map[] && st.contents[meta.indexes[n].name] == EmptyContent(meta.indexes[n])
    ensures IndexAgrees(meta, st, n)
  {
  }

  // ---- DISABLED indexes ----

  function EntriesOf(i: Index, r: Option<Record>, pk: Tuple): map<Tuple, nat>
    requires HoldsEntries(i)
  {
    if r.Some? then RecordEntries(i, r.value, pk) else map[]
  }

  /** Two records, or none, that an index cannot tell apart under one primary key. */
  ghost predicate SameShare(i: Index, a: Option<Record>, b: Option<Record>, pk: Tuple) {
    if HoldsEntries(i) then EntriesOf(i, a, pk) == EntriesOf(i, b, pk)
    else forall key :: (ShareOf(i, a, key) - ShareOf(i, b, key)) % TWO64 == 0
  }

  /** While an index is DISABLED, saving a record keeps its agreement exactly when the index could
      not tell the new record from what was stored before. */
  lemma DisabledSaveAgreesIff(meta: MetaData, st: State, k: RecordKey, r: Record, n: nat)
    requires ValidState(meta, st) && n < |meta.indexes| && r.typeName == k.typeName
    requires Applies(meta.indexes[n], k.typeName) && StateOf(st.states, meta.indexes[n].name) == Disabled
    requires IndexAgrees(meta, st, n)
    ensures HasContents(meta.indexes, Saved(meta, st, k, r).contents)
    ensures IndexAgrees(meta, Saved(meta, st, k, r), n) <==>
            SameShare(meta.indexes[n], Some(r), Lookup(st.records, k), k.pk)
  {
    var i := meta.indexes[n];
    MaintainAllContents(meta.indexes, st.contents, st.states, k, Lookup(st.records, k), Some(r));
    UnmaintainedAgreesIff(i, st.contents[i.name], st.records, k, Some(r));
  }

  /** Deleting a record keeps it exactly when the record put nothing into the index. */
  lemma DisabledDeleteAgreesIff(meta: MetaData, st: State, k: RecordKey, n: nat)
    requires ValidState(meta, st) && n < |meta.indexes|
    requires Applies(meta.indexes[n], k.typeName) && StateOf(st.states, meta.indexes[n].name) == Disabled
    requires IndexAgrees(meta, st, n)
    ensures HasContents(meta.indexes, Deleted(meta, st, k).contents)
    ensures IndexAgrees(meta, Deleted(meta, st, k), n) <==>
            SameShare(meta.indexes[n], Lookup(st.records, k), None, k.pk)
  {
    var i := meta.indexes[n];
    MaintainAllContents(meta.indexes, st.contents, st.states, k, Lookup(st.records, k), None);
    UnmaintainedAgreesIff(i, st.contents[i.name], st.records, k, None);
    SameShareSymmetric(i, Lookup(st.records, k), None, k.pk);
  }

  lemma SameShareSymmetric(i: Index, a: Option<Record>, b: Option<Record>, pk: Tuple)
    ensures SameShare(i, a, b, pk) <==> SameShare(i, b, a, pk)
  {
    if !HoldsEntries(i) {
      forall key ensures (ShareOf(i, a, key) - ShareOf(i, b, key)) % TWO64 == 0 <==> (ShareOf(i, b, key) - ShareOf(i, a, key)) % TWO64 == 0 {
        WrapEqual(ShareOf(i, a, key), ShareOf(i, b, key));
        WrapEqual(ShareOf(i, b, key), ShareOf(i, a, key));
      }
    }
  }

  /** A content that agreed and is not maintained for a change still agrees exactly when the index
      could not tell the two records apart. */
  lemma UnmaintainedAgreesIff(i: Index, c: Content, records: Records, k: RecordKey, r: Option<Record>)
    requires WellTyped(records) && Applies(i, k.typeName) && (r.Some? ==> r.value.typeName == k.typeName)
    requires Agrees(i, c, records)
    ensures Agrees(i, c, Put(records, k, r)) <==> SameShare(i, r, Lookup(records, k), k.pk)
  {
    if HoldsEntries(i) {
      SameEntriesAgreeIff(i, c, records, k, r);
    } else {
      var records' := Put(records, k, r);
      assert records' - {k} == records - {k};
      forall key
        ensures Total(c.totals, key) == Wrap(Shares(i, records', records'.Keys, key)) <==>
                (ShareOf(i, r, key) - ShareOf(i, Lookup(records, k), key)) % TWO64 == 0
      {
        SharesChange(i, records, records', k, key);
        ShareIsShareOf(i, records, k, key);
        ShareIsShareOf(i, records', k, key);
        assert Lookup(records', k) == r;
        WrapEqual(Shares(i, records', records'.Keys, key), Shares(i, records, records.Keys, key));
      }
    }
  }

  lemma SameEntriesAgreeIff(i: Index, c: Content, records: Records, k: RecordKey, r: Option<Record>)
    requires HoldsEntries(i) && WellTyped(records) && Applies(i, k.typeName) && (r.Some? ==> r.value.typeName == k.typeName)
    requires Agrees(i, c, records)
    ensures Agrees(i, c, Put(records, k, r)) <==> EntriesOf(i, r, k.pk) == EntriesOf(i, Lookup(records, k), k.pk)
  {
    var records' := Put(records, k, r);
    var before, after := EntriesOf(i, Lookup(records, k), k.pk), EntriesOf(i, r, k.pk);
    forall j, key, payload: nat | j != k
      ensures Contributes(i, records, j, key, payload) <==> Contributes(i, records', j, key, payload)
    {
    }
    if after == before {
      forall key, payload: nat ensures Expected(i, records, key, payload) <==> Expected(i, records', key, payload) {
        assert Contributes(i, records, k, key, payload) <==> Contributes(i, records', k, key, payload);
      }
    } else if Agrees(i, c, records') {
      forall key, payload: nat ensures Has(before, key, payload) <==> Has(after, key, payload) {
        assert Expected(i, records, key, payload) <==> Expected(i, records', key, payload);
        if Has(before, key, payload) {
          assert Contributes(i, records, k, key, payload);
          OnlyContributor(i, records, k, key, payload);
        }
        if Has(after, key, payload) {
          assert Contributes(i, records', k, key, payload);
          OnlyContributor(i, records', k, key, payload);
        }
      }
      SameEntries(before, after);
    }
  }

  predicate Has(entries: map<Tuple, nat>, key: Tuple, payload: nat) { key in entries && entries[key] == payload }

  lemma SameEntries(a: map<Tuple, nat>, b: map<Tuple, nat>)
    requires forall key, payload: nat :: Has(a, key, payload) <==> Has(b, key, payload)
    ensures a == b
  {
    forall key ensures key in a <==> key in b {
      if key in a { assert Has(a, key, a[key]); }
      if key in b { assert Has(b, key, b[key]); }
    }
    forall key | key in a ensures a[key] == b[key] {
      assert Has(a, key, a[key]);
    }
  }

  // ---- Batches ----

  datatype Item = Item(key: RecordKey, record: Record)

  /** save_records: every old record is read before the first write. */
  ghost function BatchSaved(meta: MetaData, st: State, before: Records, items: seq<Item>): State
    requires ValidState(meta, st) && ItemsTyped(items)
    decreases |items|
  {
    if items == [] then st
    else
      WriteIsValid(meta, st, items[0].key, Lookup(before, items[0].key), Some(items[0].record));
      BatchSaved(meta, Write(meta, st, items[0].key, Lookup(before, items[0].key), Some(items[0].record)), before, items[1..])
  }

  ghost function EachSaved(meta: MetaData, st: State, items: seq<Item>): State
    requires ValidState(meta, st) && ItemsTyped(items)
    decreases |items|
  {
    if items == [] then st
    else
      WriteIsValid(meta, st, items[0].key, Lookup(st.records, items[0].key), Some(items[0].record));
      EachSaved(meta, Saved(meta, st, items[0].key, items[0].record), items[1..])
  }

  predicate ItemsTyped(items: seq<Item>) {
    forall j :: 0 <= j < |items| ==> items[j].record.typeName == items[j].key.typeName
  }

  predicate DistinctKeys(items: seq<Item>) {
    forall j, l :: 0 <= j < l < |items| ==> items[j].key != items[l].key
  }

  predicate SameOldRecords(before: Records, records: Records, items: seq<Item>) {
    forall j :: 0 <= j < |items| ==> Lookup(before, items[j].key) == Lookup(records, items[j].key)
  }

  /** With pairwise distinct keys, a batch save leaves what saving one at a time leaves. */
  lemma {:induction false} BatchSaveRefinesSequence(meta: MetaData, st: State, before: Records, items: seq<Item>)
    requires ValidState(meta, st) && ItemsTyped(items) && DistinctKeys(items)
    requires SameOldRecords(before, st.records, items)
    ensures BatchSaved(meta, st, before, items) == EachSaved(meta, st, items)
    decreases |items|
  {
    if items != [] {
      var k, r := items[0].key, items[0].record;
      var next := Saved(meta, st, k, r);
      WriteIsValid(meta, st, k, Lookup(st.records, k), Some(r));
      forall j | 0 <= j < |items[1..]|
        ensures Lookup(before, items[1..][j].key) == Lookup(next.records, items[1..][j].key)
      {
        assert items[1..][j] == items[j + 1] && items[0].key != items[j + 1].key;
      }
      assert ItemsTyped(items[1..]) && DistinctKeys(items[1..]);
      BatchSaveRefinesSequence(meta, next, before, items[1..]);
    }
  }

  /** delete_records: the old records of all the keys are read before the first clear. */
  ghost function BatchDeleted(meta: MetaData, st: State, before: Records, keys: seq<RecordKey>): (State, nat)
    requires ValidState(meta, st)
    decreases |keys|
  {
    if keys == [] then (st, 0)
    else if keys[0] !in before then BatchDeleted(meta, st, before, keys[1..])
    else
      WriteIsValid(meta, st, keys[0], Some(before[keys[0]]), None);
      var (st', n) := BatchDeleted(meta, Write(meta, st, keys[0], Some(before[keys[0]]), None), before, keys[1..]);
      (st', n + 1)
  }

  ghost function EachDeleted(meta: MetaData, st: State, keys: seq<RecordKey>): State
    requires ValidState(meta, st)
    decreases |keys|
  {
    if keys == [] then st
    else
      DeletedIsValid(meta, st, keys[0]);
      EachDeleted(meta, Deleted(meta, st, keys[0]), keys[1..])
  }

  /** With pairwise distinct keys, a batch delete leaves what deleting one at a time leaves. */
  lemma {:induction false} BatchDeleteRefinesSequence(meta: MetaData, st: State, before: Records, keys: seq<RecordKey>)
    requires ValidState(meta, st)
    requires forall j, l :: 0 <= j < l < |keys| ==> keys[j] != keys[l]
    requires forall j :: 0 <= j < |keys| ==> Lookup(before, keys[j]) == Lookup(st.records, keys[j])
    ensures BatchDeleted(meta, st, before, keys).0 == EachDeleted(meta, st, keys)
    decreases |keys|
  {
    if keys != [] {
      var k := keys[0];
      assert keys[0] == k;
      LaterLookupsStand(meta, st, before, keys);
      if k in before {
        WriteIsValid(meta, st, k, Some(before[k]), None);
        BatchDeleteRefinesSequence(meta, Deleted(meta, st, k), before, keys[1..]);
      } else {
        BatchDeleteRefinesSequence(meta, st, before, keys[1..]);
      }
    }
  }

  lemma LaterLookupsStand(meta: MetaData, st: State, before: Records, keys: seq<RecordKey>)
    requires ValidState(meta, st) && keys != []
    requires forall j, l :: 0 <= j < l < |keys| ==> keys[j] != keys[l]
    requires forall j :: 0 <= j < |keys| ==> Lookup(before, keys[j]) == Lookup(st.records, keys[j])
    ensures ValidState(meta, Deleted(meta, st, keys[0]))
    ensures Lookup(before, keys[0]) == Lookup(st.records, keys[0])
    ensures forall j :: 0 <= j < |keys[1..]| ==> Lookup(before, keys[1..][j]) == Lookup(Deleted(meta, st, keys[0]).records, keys[1..][j])
  {
    DeletedIsValid(meta, st, keys[0]);
    forall j | 0 <= j < |keys[1..]|
      ensures Lookup(before, keys[1..][j]) == Lookup(Deleted(meta, st, keys[0]).records, keys[1..][j])
    {
      assert keys[1..][j] == keys[j + 1] && keys[0] != keys[j + 1];
    }
  }

  /** The delete count is the number of listed keys that were present. */
  lemma {:induction false} BatchDeleteCountsPresent(meta: MetaData, st: State, before: Records, keys: seq<RecordKey>)
    requires ValidState(meta, st)
    requires forall j, l :: 0 <= j < l < |keys| ==> keys[j] != keys[l]
    ensures BatchDeleted(meta, st, before, keys).1 == |set k | k in keys && k in before|
    decreases |keys|
  {
    var present := set k | k in keys && k in before;
    if keys == [] {
      assert present == {};
    } else {
      var k := keys[0];
      var rest := set l | l in keys[1..] && l in before;
      assert keys == [k] + keys[1..];
      assert k !in keys[1..];
      if k in before {
        WriteIsValid(meta, st, k, Some(before[k]), None);
        BatchDeleteCountsPresent(meta, Write(meta, st, k, Some(before[k]), None), before, keys[1..]);
        assert present == {k} + rest;
      } else {
        BatchDeleteCountsPresent(meta, st, before, keys[1..]);
        assert present == rest;
      }
    }
  }
}
