// FDBRecordStore: the methods that write records and indexes in place, each proved against
// the specification in RecordStore.
module RecordStoreClass {
  import opened Wrappers
  import opened Values
  import opened KeyExpressions
  import opened Indexes
  import opened RecordStore

  class FDBRecordStore {
    const meta: MetaData
    var records: Records
    var contents: map<string, Content>
    var states: map<string, IndexState>

    ghost predicate Valid()
      reads this
    {
      ValidState(meta, Abstract())
    }

    function Abstract(): State
      reads this
    {
      State(records, contents, states)
    }

    constructor (meta: MetaData)
      requires DistinctNames(meta.indexes)
      ensures Valid() && this.meta == meta
      ensures Abstract().records == map[] && Abstract().states == map[]
      ensures forall n :: 0 <= n < |meta.indexes| ==> IndexAgrees(meta, Abstract(), n)
    {
      this.meta := meta;
      records := map[];
      states := map[];
      var empty: map<string, Content> := map[];
      for n := 0 to |meta.indexes|
        invariant forall m :: 0 <= m < n ==>
          meta.indexes[m].name in empty && empty[meta.indexes[m].name] == EmptyContent(meta.indexes[m])
      {
        empty := empty[meta.indexes[n].name := EmptyContent(meta.indexes[n])];
      }
      contents := empty;
      new;
      forall n | 0 <= n < |meta.indexes| ensures IndexAgrees(meta, Abstract(), n) {
        EmptyAgrees(meta, Abstract(), n);
      }
    }

    method SetIndexState(indexName: string, state: IndexState)
      requires Valid()
      modifies this`states
      ensures Valid() && Abstract() == Apply(meta, old(Abstract()), SetStateOp(indexName, state))
    {
      states := states[indexName := state];
    }

    /** _update_indexes: for each index of the type that is not DISABLED, remove the old entries,
        then add the new ones. */
    method UpdateIndexes(k: RecordKey, old_: Option<Record>, new_: Option<Record>)
      requires DistinctNames(meta.indexes) && HasContents(meta.indexes, contents)
      modifies this`contents
      ensures contents == old(MaintainAll(meta.indexes, contents, states, k, old_, new_))
    {
      for n := 0 to |meta.indexes|
        invariant HasContents(meta.indexes, contents)
        invariant MaintainAll(meta.indexes[n..], contents, states, k, old_, new_)
               == old(MaintainAll(meta.indexes, contents, states, k, old_, new_))
      {
        var i := meta.indexes[n];
        assert meta.indexes[n..][0] == i && meta.indexes[n..][1..] == meta.indexes[n + 1..];
        if Applies(i, k.typeName) && StateOf(states, i.name) != Disabled {
          var c := contents[i.name];
          if old_.Some? {
            c := Remove(i, c, old_.value, k.pk);
          }
          if new_.Some? {
            c := Update(i, c, new_.value, k.pk);
          }
          contents := contents[i.name := c];
        }
      }
    }

    method SaveRecord(r: Record) returns (result: Result<RecordKey, StoreError>)
      requires Valid()
      modifies this`records, this`contents
      ensures result == KeyOf(meta, r)
      ensures Valid() && Abstract() == Apply(meta, old(Abstract()), SaveOp(r))
    {
      ghost var st := Abstract();
      ApplyIsValid(meta, st, SaveOp(r));
      result := KeyOf(meta, r);
      if result.Ok? {
        var k := result.value;
        var oldRecord := Lookup(records, k);
        records := records[k := r];
        UpdateIndexes(k, oldRecord, Some(r));
      }
    }

    method DeleteRecord(k: RecordKey) returns (result: Result<bool, StoreError>)
      requires Valid()
      modifies this`records, this`contents
      ensures result == if k.typeName in meta.recordTypes then Ok(k in old(records)) else Err(RecordTypeNotFound)
      ensures Valid() && Abstract() == Apply(meta, old(Abstract()), DeleteOp(k))
    {
      ghost var st := Abstract();
      ApplyIsValid(meta, st, DeleteOp(k));
      if k.typeName !in meta.recordTypes {
        return Err(RecordTypeNotFound);
      }
      var oldRecord := Lookup(records, k);
      if oldRecord.None? {
        return Ok(false);
      }
      records := records - {k};
      UpdateIndexes(k, oldRecord, None);
      result := Ok(true);
    }

    /** save_records: all keys are computed, then all old records are read, then all are written. */
    method SaveRecords(rs: seq<Record>) returns (result: Result<seq<Item>, StoreError>)
      requires Valid()
      modifies this`records, this`contents
      ensures Valid()
      ensures result.Ok? <==> forall j :: 0 <= j < |rs| ==> KeyOf(meta, rs[j]).Ok?
      ensures result.Ok? ==>
        |result.value| == |rs| && ItemsTyped(result.value) &&
        (forall j :: 0 <= j < |rs| ==> result.value[j] == Item(KeyOf(meta, rs[j]).value, rs[j])) &&
        Abstract() == BatchSaved(meta, old(Abstract()), old(records), result.value)
      ensures result.Err? ==> Abstract() == old(Abstract())
    {
      var items: seq<Item> := [];
      for j := 0 to |rs|
        invariant |items| == j && ItemsTyped(items)
        invariant forall l :: 0 <= l < j ==> KeyOf(meta, rs[l]).Ok? && items[l] == Item(KeyOf(meta, rs[l]).value, rs[l])
      {
        var key := KeyOf(meta, rs[j]);
        if key.Err? {
          return Err(key.error);
        }
        items := items + [Item(key.value, rs[j])];
      }
      var oldRecords: map<RecordKey, Option<Record>> := map[];
      for j := 0 to |items|
        invariant forall l :: 0 <= l < j ==> items[l].key in oldRecords
        invariant forall k :: k in oldRecords ==> oldRecords[k] == Lookup(records, k)
      {
        oldRecords := oldRecords[items[j].key := Lookup(records, items[j].key)];
      }
      ghost var before := records;
      for j := 0 to |items|
        invariant Valid()
        invariant BatchSaved(meta, Abstract(), before, items[j..]) == BatchSaved(meta, old(Abstract()), before, items)
      {
        var k, r := items[j].key, items[j].record;
        assert items[j..][0] == items[j] && items[j..][1..] == items[j + 1..];
        WriteIsValid(meta, Abstract(), k, oldRecords[k], Some(r));
        records := records[k := r];
        UpdateIndexes(k, oldRecords[k], Some(r));
      }
      result := Ok(items);
    }

    /** delete_records: returns the number of records deleted.  An empty request returns before
        the type is looked up. */
    method DeleteRecords(typeName: string, pks: seq<Tuple>) returns (result: Result<nat, StoreError>)
      requires Valid()
      modifies this`records, this`contents
      ensures Valid()
      ensures result.Err? <==> pks != [] && typeName !in meta.recordTypes
      ensures result.Err? ==> result.error == RecordTypeNotFound && Abstract() == old(Abstract())
      ensures result.Ok? ==>
        (Abstract(), result.value) == BatchDeleted(meta, old(Abstract()), old(records), KeysOfType(typeName, pks))
    {
      if pks == [] {
        return Ok(0);
      }
      if typeName !in meta.recordTypes {
        return Err(RecordTypeNotFound);
      }
      var keys := KeysOfType(typeName, pks);
      var oldRecords: map<RecordKey, Option<Record>> := map[];
      for j := 0 to |keys|
        invariant forall l :: 0 <= l < j ==> keys[l] in oldRecords
        invariant forall k :: k in oldRecords ==> oldRecords[k] == Lookup(records, k)
      {
        oldRecords := oldRecords[keys[j] := Lookup(records, keys[j])];
      }
      ghost var before := records;
      var deleted := 0;
      for j := 0 to |keys|
        invariant Valid()
        invariant var (st, n) := BatchDeleted(meta, Abstract(), before, keys[j..]);
                  (st, n + deleted) == BatchDeleted(meta, old(Abstract()), before, keys)
      {
        var k := keys[j];
        assert keys[j..][0] == k && keys[j..][1..] == keys[j + 1..];
        if oldRecords[k].Some? {
          WriteIsValid(meta, Abstract(), k, oldRecords[k], None);
          records := records - {k};
          UpdateIndexes(k, oldRecords[k], None);
          deleted := deleted + 1;
        }
      }
      result := Ok(deleted);
    }
  }
}
