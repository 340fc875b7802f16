// save_records and delete_records when a key is listed more than once.
//
// Both read every old record before the first write, so a repeated key is maintained each time
// from the record it had before the batch.
module BatchWrites {
  import opened Wrappers
  import opened Values
  import opened KeyExpressions
  import opened Indexes
  import opened RecordStore

  /** One write of a batch: the record to store under the key, or None to clear it. */
  datatype Change = Change(key: RecordKey, record: Option<Record>)

  predicate ChangesTyped(changes: seq<Change>) {
    forall j :: 0 <= j < |changes| && changes[j].record.Some? ==> changes[j].record.value.typeName == changes[j].key.typeName
  }

  ghost function BatchWritten(meta: MetaData, st: State, before: Records, changes: seq<Change>): (st': State)
    requires ValidState(meta, st) && ChangesTyped(changes)
    ensures ValidState(meta, st')
    decreases |changes|
  {
    if changes == [] then st
    else
      var k := changes[0].key;
      WriteIsValid(meta, st, k, Lookup(before, k), changes[0].record);
      BatchWritten(meta, Write(meta, st, k, Lookup(before, k), changes[0].record), before, changes[1..])
  }

  // ---- What one index and the records become ----

  function MaintainedBy(i: Index, c: Content, before: Records, change: Change): (c': Content)
    requires RightKind(i, c)
    ensures RightKind(i, c')
  {
    if Applies(i, change.key.typeName)
    then Maintained(i, c, change.key.pk, Lookup(before, change.key), change.record) else c
  }

  function ContentAfter(i: Index, c: Content, before: Records, changes: seq<Change>): (c': Content)
    requires RightKind(i, c)
    ensures RightKind(i, c')
    decreases |changes|
  {
    if changes == [] then c else ContentAfter(i, MaintainedBy(i, c, before, changes[0]), before, changes[1..])
  }

  function RecordsAfter(records: Records, changes: seq<Change>): Records
    decreases |changes|
  {
    if changes == [] then records else RecordsAfter(Put(records, changes[0].key, changes[0].record), changes[1..])
  }

  lemma {:induction false} BatchIsContentAfter(meta: MetaData, st: State, before: Records, changes: seq<Change>, n: nat)
    requires ValidState(meta, st) && ChangesTyped(changes)
    requires n < |meta.indexes| && StateOf(st.states, meta.indexes[n].name) != Disabled
    ensures var st' := BatchWritten(meta, st, before, changes);
            st'.records == RecordsAfter(st.records, changes) &&
            st'.contents[meta.indexes[n].name]
              == ContentAfter(meta.indexes[n], st.contents[meta.indexes[n].name], before, changes)
    decreases |changes|
  {
    if changes != [] {
      var k := changes[0].key;
      WriteIsValid(meta, st, k, Lookup(before, k), changes[0].record);
      MaintainAllContents(meta.indexes, st.contents, st.states, k, Lookup(before, k), changes[0].record);
      BatchIsContentAfter(meta, Write(meta, st, k, Lookup(before, k), changes[0].record), before, changes[1..], n);
    }
  }

  lemma {:induction false} ContentAfterConcat(i: Index, c: Content, before: Records, a: seq<Change>, b: seq<Change>)
    requires RightKind(i, c)
    ensures ContentAfter(i, c, before, a + b) == ContentAfter(i, ContentAfter(i, c, before, a), before, b)
    decreases |a|
  {
    if a == [] {
      assert a + b == b;
    } else {
      assert (a + b)[1..] == a[1..] + b;
      ContentAfterConcat(i, MaintainedBy(i, c, before, a[0]), before, a[1..], b);
    }
  }

  predicate Changed(changes: seq<Change>, k: RecordKey) { exists j :: 0 <= j < |changes| && changes[j].key == k }

  /** A key's last change decides what is stored under it. */
  lemma {:induction false} LastChangeStands(records: Records, changes: seq<Change>, m: nat)
    requires m < |changes| && forall j :: m < j < |changes| ==> changes[j].key != changes[m].key
    ensures Lookup(RecordsAfter(records, changes), changes[m].key) == changes[m].record
    decreases |changes|
  {
    var next := Put(records, changes[0].key, changes[0].record);
    if m == 0 {
      UnchangedStands(next, changes[1..], changes[0].key);
    } else {
      LastChangeStands(next, changes[1..], m - 1);
    }
  }

  lemma {:induction false} UnchangedStands(records: Records, changes: seq<Change>, k: RecordKey)
    requires forall j :: 0 <= j < |changes| ==> changes[j].key != k
    ensures Lookup(RecordsAfter(records, changes), k) == Lookup(records, k)
    decreases |changes|
  {
    if changes != [] {
      UnchangedStands(Put(records, changes[0].key, changes[0].record), changes[1..], k);
    }
  }

  lemma {:induction false} LastChangeOf(changes: seq<Change>, from: nat) returns (m: nat)
    requires from < |changes|
    ensures from <= m < |changes| && changes[m].key == changes[from].key
    ensures forall j :: m < j < |changes| ==> changes[j].key != changes[from].key
    decreases |changes| - from
  {
    m := from;
    if l :| from < l < |changes| && changes[l].key == changes[from].key {
      m := LastChangeOf(changes, l);
    }
  }

  lemma {:induction false} RecordsAfterTyped(records: Records, changes: seq<Change>)
    requires WellTyped(records) && ChangesTyped(changes)
    ensures WellTyped(RecordsAfter(records, changes))
    decreases |changes|
  {
    if changes != [] { RecordsAfterTyped(Put(records, changes[0].key, changes[0].record), changes[1..]); }
  }

  // ---- VALUE and TEXT indexes ----

  /** The change writes or clears the entry. */
  ghost predicate Touches(i: Index, before: Records, change: Change, key: Tuple)
    requires HoldsEntries(i)
  {
    Applies(i, change.key.typeName) &&
    (key in EntriesOf(i, change.record, change.key.pk) || key in EntriesOf(i, Lookup(before, change.key), change.key.pk))
  }

  ghost predicate Untouched(i: Index, before: Records, changes: seq<Change>, key: Tuple)
    requires HoldsEntries(i)
  {
    forall j :: 0 <= j < |changes| ==> !Touches(i, before, changes[j], key)
  }

  lemma {:induction false} UntouchedStays(i: Index, c: Content, before: Records, changes: seq<Change>, key: Tuple)
    requires HoldsEntries(i) && RightKind(i, c) && Untouched(i, before, changes, key)
    ensures var c' := ContentAfter(i, c, before, changes);
            (key in c'.entries <==> key in c.entries) && (key in c.entries ==> c'.entries[key] == c.entries[key])
    decreases |changes|
  {
    if changes != [] {
      assert !Touches(i, before, changes[0], key);
      forall j | 0 <= j < |changes[1..]| ensures !Touches(i, before, changes[1..][j], key) {
        assert changes[1..][j] == changes[j + 1];
      }
      UntouchedStays(i, MaintainedBy(i, c, before, changes[0]), before, changes[1..], key);
    }
  }

  ghost predicate LastTouch(i: Index, before: Records, changes: seq<Change>, m: nat, key: Tuple)
    requires HoldsEntries(i)
  {
    m < |changes| && Touches(i, before, changes[m], key) && Untouched(i, before, changes[m + 1..], key)
  }

  /** The last change that touches an entry decides it. */
  lemma LastTouchStands(i: Index, c: Content, before: Records, changes: seq<Change>, m: nat, key: Tuple)
    requires HoldsEntries(i) && RightKind(i, c) && LastTouch(i, before, changes, m, key)
    ensures var c' := ContentAfter(i, c, before, changes);
            var entries := EntriesOf(i, changes[m].record, changes[m].key.pk);
            (key in c'.entries <==> key in entries) && (key in entries ==> c'.entries[key] == entries[key])
  {
    var earlier, later := changes[..m], changes[m + 1..];
    assert changes == earlier + ([changes[m]] + later);
    ContentAfterConcat(i, c, before, earlier, [changes[m]] + later);
    var c0 := ContentAfter(i, c, before, earlier);
    assert ([changes[m]] + later)[1..] == later;
    UntouchedStays(i, MaintainedBy(i, c0, before, changes[m]), before, later, key);
  }

  lemma {:induction false} FindLastTouch(i: Index, before: Records, changes: seq<Change>, from: nat,
        key: Tuple) returns (m: nat)
    requires HoldsEntries(i) && from < |changes| && Touches(i, before, changes[from], key)
    ensures from <= m && LastTouch(i, before, changes, m, key)
    decreases |changes| - from
  {
    m := from;
    var later := changes[from + 1..];
    if l :| 0 <= l < |later| && Touches(i, before, later[l], key) {
      assert later[l] == changes[from + 1 + l];
      m := FindLastTouch(i, before, changes, from + 1 + l, key);
    }
  }

  lemma NoLaterTouch(i: Index, before: Records, changes: seq<Change>, m: nat, later: nat, key: Tuple)
    requires HoldsEntries(i) && LastTouch(i, before, changes, m, key) && later < |changes|
    ensures later > m ==> !Touches(i, before, changes[later], key)
  {
    if later > m { assert changes[later] == changes[m + 1..][later - m - 1]; }
  }

  /** Every version written has only entries that the version stored in the end has too, or that the
      record stored before the batch had: those are the ones each write clears. */
  ghost predicate NothingStale(i: Index, before: Records, changes: seq<Change>)
    requires HoldsEntries(i)
  {
    forall j :: 0 <= j < |changes| && Applies(i, changes[j].key.typeName) ==> Covered(i, before, changes, changes[j])
  }

  ghost predicate Covered(i: Index, before: Records, changes: seq<Change>, change: Change)
    requires HoldsEntries(i)
  {
    EntriesOf(i, change.record, change.key.pk).Keys
      <= EntriesOf(i, Lookup(RecordsAfter(before, changes), change.key), change.key.pk).Keys
       + EntriesOf(i, Lookup(before, change.key), change.key.pk).Keys
  }

  /** An entry a change touches can belong to no record but the changed one. */
  lemma TouchedBelongs(i: Index, before: Records, change: Change, k: RecordKey, r: Record, key: Tuple)
    requires HoldsEntries(i) && WellTyped(before) && r.typeName == k.typeName
    requires change.record.Some? ==> change.record.value.typeName == change.key.typeName
    requires Touches(i, before, change, key) && key in RecordEntries(i, r, k.pk)
    ensures k == change.key
  {
    if key in EntriesOf(i, change.record, change.key.pk) {
      EntriesIdentifyRecord(i, change.record.value, change.key.pk, r, k.pk, key);
    } else {
      EntriesIdentifyRecord(i, before[change.key], change.key.pk, r, k.pk, key);
    }
  }

  lemma UntouchedExpected(i: Index, before: Records, changes: seq<Change>, key: Tuple, payload: nat)
    requires HoldsEntries(i) && Untouched(i, before, changes, key)
    ensures Expected(i, before, key, payload) <==> Expected(i, RecordsAfter(before, changes), key, payload)
  {
    var after := RecordsAfter(before, changes);
    forall k ensures Contributes(i, before, k, key, payload) <==> Contributes(i, after, k, key, payload) {
      if Changed(changes, k) {
        var from :| 0 <= from < |changes| && changes[from].key == k;
        var m := LastChangeOf(changes, from);
        LastChangeStands(before, changes, m);
        assert !Touches(i, before, changes[m], key);
      } else {
        UnchangedStands(before, changes, k);
      }
      assert Lookup(before, k).Some? <==> k in before;
      assert Lookup(after, k).Some? <==> k in after;
    }
  }

  /** The last touch of an entry leaves it as the records stored in the end require, unless a
      version overwritten later put it there. */
  lemma TouchedAgrees(i: Index, c: Content, before: Records, changes: seq<Change>, m: nat, key: Tuple, payload: nat)
    requires HoldsEntries(i) && RightKind(i, c) && WellTyped(before) && ChangesTyped(changes)
    requires LastTouch(i, before, changes, m, key) && Covered(i, before, changes, changes[m])
    ensures Has(ContentAfter(i, c, before, changes).entries, key, payload)
       <==> Expected(i, RecordsAfter(before, changes), key, payload)
  {
    var after := RecordsAfter(before, changes);
    var k := changes[m].key;
    LastTouchStands(i, c, before, changes, m, key);
    RecordsAfterTyped(before, changes);
    var last := LastChangeOf(changes, m);
    LastChangeStands(before, changes, last);
    NoLaterTouch(i, before, changes, m, last, key);
    forall other | Contributes(i, after, other, key, payload) ensures other == k {
      TouchedBelongs(i, before, changes[m], other, after[other], key);
    }
    assert Expected(i, after, key, payload) <==> Contributes(i, after, k, key, payload);
  }

  lemma EntriesAfterAgreeIff(i: Index, c: Content, before: Records, changes: seq<Change>)
    requires HoldsEntries(i) && Agrees(i, c, before) && WellTyped(before) && ChangesTyped(changes)
    ensures Agrees(i, ContentAfter(i, c, before, changes), RecordsAfter(before, changes)) <==> NothingStale(i, before, changes)
  {
    var c' := ContentAfter(i, c, before, changes);
    var after := RecordsAfter(before, changes);
    if NothingStale(i, before, changes) {
      forall key, payload: nat ensures Has(c'.entries, key, payload) <==> Expected(i, after, key, payload) {
        if Untouched(i, before, changes, key) {
          UntouchedStays(i, c, before, changes, key);
          UntouchedExpected(i, before, changes, key, payload);
        } else {
          var from :| 0 <= from < |changes| && Touches(i, before, changes[from], key);
          var m := FindLastTouch(i, before, changes, from, key);
          TouchedAgrees(i, c, before, changes, m, key, payload);
        }
      }
    } else {
      var j :| 0 <= j < |changes| && Applies(i, changes[j].key.typeName) && !Covered(i, before, changes, changes[j]);
      StaleDisagrees(i, c, before, changes, j);
    }
  }

  lemma StaleDisagrees(i: Index, c: Content, before: Records, changes: seq<Change>, j: nat)
    requires HoldsEntries(i) && RightKind(i, c) && WellTyped(before) && ChangesTyped(changes)
    requires j < |changes| && Applies(i, changes[j].key.typeName) && !Covered(i, before, changes, changes[j])
    ensures !Agrees(i, ContentAfter(i, c, before, changes), RecordsAfter(before, changes))
  {
    var c' := ContentAfter(i, c, before, changes);
    var after := RecordsAfter(before, changes);
    var k := changes[j].key;
    var key :| key in EntriesOf(i, changes[j].record, k.pk).Keys &&
      key !in EntriesOf(i, Lookup(after, k), k.pk).Keys + EntriesOf(i, Lookup(before, k), k.pk).Keys;
    assert Touches(i, before, changes[j], key);
    var m := FindLastTouch(i, before, changes, j, key);
    LastTouchStands(i, c, before, changes, m, key);
    RecordsAfterTyped(before, changes);
    TouchedBelongs(i, before, changes[m], k, changes[j].record.value, key);
    assert Has(c'.entries, key, c'.entries[key]);
    forall other | Contributes(i, after, other, key, c'.entries[key]) ensures other == k {
      TouchedBelongs(i, before, changes[m], other, after[other], key);
    }
    assert !Expected(i, after, key, c'.entries[key]);
  }

  // ---- COUNT and SUM indexes ----

  /** What one change adds to a key's total. */
  function Added(i: Index, before: Records, change: Change, key: Tuple): int
    requires !HoldsEntries(i)
  {
    if Applies(i, change.key.typeName) then ShareOf(i, change.record, key) - ShareOf(i, Lookup(before, change.key), key) else 0
  }

  function AddedInAll(i: Index, before: Records, changes: seq<Change>, key: Tuple): int
    requires !HoldsEntries(i)
  {
    if changes == [] then 0 else Added(i, before, changes[0], key) + AddedInAll(i, before, changes[1..], key)
  }

  /** What the changes that a later change of the same key overwrites add. */
  function AddedTwice(i: Index, before: Records, changes: seq<Change>, key: Tuple): int
    requires !HoldsEntries(i)
  {
    if changes == [] then 0
    else
      (if Changed(changes[1..], changes[0].key) then Added(i, before, changes[0], key) else 0) +
      AddedTwice(i, before, changes[1..], key)
  }

  lemma {:induction false} TotalAfter(i: Index, c: Content, before: Records, changes: seq<Change>, key: Tuple, sum: int)
    requires !HoldsEntries(i) && RightKind(i, c) && Total(c.totals, key) == Wrap(sum)
    ensures Total(ContentAfter(i, c, before, changes).totals, key) == Wrap(sum + AddedInAll(i, before, changes, key))
    decreases |changes|
  {
    if changes != [] {
      var change := changes[0];
      if Applies(i, change.key.typeName) {
        MaintainedTotal(i, c, change.key.pk, Lookup(before, change.key), change.record, key, sum);
      }
      TotalAfter(i, MaintainedBy(i, c, before, change), before, changes[1..], key, sum + Added(i, before, change, key));
    }
  }

  lemma {:induction false} OverwrittenLeavesNothing(records: Records, k: RecordKey, r: Option<Record>, changes: seq<Change>)
    requires Changed(changes, k)
    ensures RecordsAfter(Put(records, k, r), changes) == RecordsAfter(records, changes)
    decreases |changes|
  {
    var change := changes[0];
    if change.key == k {
      assert Put(Put(records, k, r), k, change.record) == Put(records, k, change.record);
    } else {
      var j :| 0 <= j < |changes| && changes[j].key == k;
      assert changes[1..][j - 1].key == k;
      PutCommutes(records, k, r, change.key, change.record);
      OverwrittenLeavesNothing(Put(records, change.key, change.record), k, r, changes[1..]);
    }
  }

  lemma PutCommutes(records: Records, k: RecordKey, r: Option<Record>, l: RecordKey, s: Option<Record>)
    requires k != l
    ensures Put(Put(records, k, r), l, s) == Put(Put(records, l, s), k, r)
  {
  }

  lemma {:induction false} PutLast(records: Records, k: RecordKey, r: Option<Record>, changes: seq<Change>)
    requires !Changed(changes, k)
    ensures RecordsAfter(Put(records, k, r), changes) == Put(RecordsAfter(records, changes), k, r)
    decreases |changes|
  {
    if changes != [] {
      assert changes[0].key != k;
      PutCommutes(records, k, r, changes[0].key, changes[0].record);
      PutLast(Put(records, changes[0].key, changes[0].record), k, r, changes[1..]);
    }
  }

  /** The records' own shares change by what the last change of each key adds. */
  lemma {:induction false} SharesAfter(i: Index, before: Records, changes: seq<Change>, key: Tuple)
    requires !HoldsEntries(i)
    ensures var after := RecordsAfter(before, changes);
            Shares(i, after, after.Keys, key)
              == Shares(i, before, before.Keys, key) + AddedInAll(i, before, changes, key) - AddedTwice(i, before, changes, key)
    decreases |changes|
  {
    if changes != [] {
      var change, rest := changes[0], changes[1..];
      SharesAfter(i, before, rest, key);
      if Changed(rest, change.key) {
        OverwrittenLeavesNothing(before, change.key, change.record, rest);
      } else {
        LastChangeAdds(i, before, change, rest, key);
      }
    }
  }

  lemma LastChangeAdds(i: Index, before: Records, change: Change, rest: seq<Change>, key: Tuple)
    requires !HoldsEntries(i) && !Changed(rest, change.key)
    ensures var others := RecordsAfter(before, rest);
            var after := RecordsAfter(before, [change] + rest);
            Shares(i, after, after.Keys, key) == Shares(i, others, others.Keys, key) + Added(i, before, change, key)
  {
    var others := RecordsAfter(before, rest);
    var after := Put(others, change.key, change.record);
    assert ([change] + rest)[1..] == rest;
    PutLast(before, change.key, change.record, rest);
    UnchangedStands(before, rest, change.key);
    assert after - {change.key} == others - {change.key};
    SharesChange(i, others, after, change.key, key);
    if Applies(i, change.key.typeName) {
      ShareIsShareOf(i, others, change.key, key);
      ShareIsShareOf(i, after, change.key, key);
    }
  }

  ghost predicate NothingCountedTwice(i: Index, before: Records, changes: seq<Change>)
    requires !HoldsEntries(i)
  {
    forall key :: AddedTwice(i, before, changes, key) % TWO64 == 0
  }

  lemma TotalsAfterAgreeIff(i: Index, c: Content, before: Records, changes: seq<Change>)
    requires !HoldsEntries(i) && Agrees(i, c, before)
    ensures Agrees(i, ContentAfter(i, c, before, changes), RecordsAfter(before, changes)) <==> NothingCountedTwice(i, before, changes)
  {
    var c' := ContentAfter(i, c, before, changes);
    var after := RecordsAfter(before, changes);
    forall key
      ensures Total(c'.totals, key) == Wrap(Shares(i, after, after.Keys, key)) <==> AddedTwice(i, before, changes, key) % TWO64 == 0
    {
      var sum := Shares(i, before, before.Keys, key);
      TotalAfter(i, c, before, changes, key, sum);
      SharesAfter(i, before, changes, key);
      WrapEqual(sum + AddedInAll(i, before, changes, key), Shares(i, after, after.Keys, key));
    }
  }

  // ---- The two batch calls ----

  /** An index that is not DISABLED and agreed before a batch agrees after it exactly when repeated
      keys leave no stale entry, or count nothing twice. */
  lemma BatchWrittenAgreesIff(meta: MetaData, st: State, changes: seq<Change>, n: nat)
    requires ValidState(meta, st) && ChangesTyped(changes) && n < |meta.indexes|
    requires StateOf(st.states, meta.indexes[n].name) != Disabled && IndexAgrees(meta, st, n)
    ensures IndexAgrees(meta, BatchWritten(meta, st, st.records, changes), n) <==>
      if HoldsEntries(meta.indexes[n]) then NothingStale(meta.indexes[n], st.records, changes)
      else NothingCountedTwice(meta.indexes[n], st.records, changes)
  {
    var i := meta.indexes[n];
    var c := st.contents[i.name];
    BatchIsContentAfter(meta, st, st.records, changes, n);
    if HoldsEntries(i) {
      EntriesAfterAgreeIff(i, c, st.records, changes);
    } else {
      TotalsAfterAgreeIff(i, c, st.records, changes);
    }
  }

  function Saves(items: seq<Item>): (changes: seq<Change>)
    ensures |changes| == |items| && forall j :: 0 <= j < |items| ==> changes[j] == Change(items[j].key, Some(items[j].record))
  {
    seq(|items|, j requires 0 <= j < |items| => Change(items[j].key, Some(items[j].record)))
  }

  function Deletes(keys: seq<RecordKey>): (changes: seq<Change>)
    ensures |changes| == |keys| && forall j :: 0 <= j < |keys| ==> changes[j] == Change(keys[j], None)
  {
    seq(|keys|, j requires 0 <= j < |keys| => Change(keys[j], None))
  }

  lemma {:induction false} SavedIsWritten(meta: MetaData, st: State, before: Records, items: seq<Item>)
    requires ValidState(meta, st) && ItemsTyped(items)
    ensures BatchSaved(meta, st, before, items) == BatchWritten(meta, st, before, Saves(items))
    decreases |items|
  {
    if items != [] {
      var k := items[0].key;
      WriteIsValid(meta, st, k, Lookup(before, k), Some(items[0].record));
      assert Saves(items)[1..] == Saves(items[1..]);
      SavedIsWritten(meta, Write(meta, st, k, Lookup(before, k), Some(items[0].record)), before, items[1..]);
    }
  }

  /** Clearing an absent key changes nothing. */
  lemma {:induction false} NothingMaintained(indexes: seq<Index>, contents: map<string, Content>,
        states: map<string, IndexState>, k: RecordKey)
    requires DistinctNames(indexes) && HasContents(indexes, contents)
    ensures MaintainAll(indexes, contents, states, k, None, None) == contents
    decreases |indexes|
  {
    if indexes != [] {
      assert contents[indexes[0].name := contents[indexes[0].name]] == contents;
      NothingMaintained(indexes[1..], contents, states, k);
    }
  }

  lemma {:induction false} DeletedIsWritten(meta: MetaData, st: State, before: Records, keys: seq<RecordKey>)
    requires ValidState(meta, st) && st.records.Keys <= before.Keys
    ensures BatchDeleted(meta, st, before, keys).0 == BatchWritten(meta, st, before, Deletes(keys))
    decreases |keys|
  {
    if keys != [] {
      var k := keys[0];
      WriteIsValid(meta, st, k, Lookup(before, k), None);
      assert Deletes(keys)[1..] == Deletes(keys[1..]);
      if k !in before {
        NothingMaintained(meta.indexes, st.contents, st.states, k);
        assert st.records - {k} == st.records;
      }
      DeletedIsWritten(meta, Write(meta, st, k, Lookup(before, k), None), before, keys[1..]);
    }
  }

  /** save_records keeps an index in agreement exactly when repeated keys do no harm. */
  lemma BatchSaveAgreesIff(meta: MetaData, st: State, items: seq<Item>, n: nat)
    requires ValidState(meta, st) && ItemsTyped(items) && n < |meta.indexes|
    requires StateOf(st.states, meta.indexes[n].name) != Disabled && IndexAgrees(meta, st, n)
    ensures var st' := BatchSaved(meta, st, st.records, items);
            ValidState(meta, st') &&
            (IndexAgrees(meta, st', n) <==>
              if HoldsEntries(meta.indexes[n]) then NothingStale(meta.indexes[n], st.records, Saves(items))
              else NothingCountedTwice(meta.indexes[n], st.records, Saves(items)))
  {
    SavedIsWritten(meta, st, st.records, items);
    BatchWrittenAgreesIff(meta, st, Saves(items), n);
  }

  /** delete_records always keeps a VALUE or TEXT index in agreement, and a COUNT or SUM index
      exactly when the shares subtracted again for repeated keys cancel. */
  lemma BatchDeleteAgreesIff(meta: MetaData, st: State, keys: seq<RecordKey>, n: nat)
    requires ValidState(meta, st) && n < |meta.indexes|
    requires StateOf(st.states, meta.indexes[n].name) != Disabled && IndexAgrees(meta, st, n)
    ensures var st' := BatchDeleted(meta, st, st.records, keys).0;
            ValidState(meta, st') &&
            (IndexAgrees(meta, st', n) <==>
              HoldsEntries(meta.indexes[n]) || NothingCountedTwice(meta.indexes[n], st.records, Deletes(keys)))
  {
    DeletedIsWritten(meta, st, st.records, keys);
    BatchWrittenAgreesIff(meta, st, Deletes(keys), n);
  }

  /** A repeated key is counted as deleted each time it is listed. */
  lemma {:induction false} BatchDeleteCountsPlaces(meta: MetaData, st: State, before: Records, keys: seq<RecordKey>)
    requires ValidState(meta, st)
    ensures BatchDeleted(meta, st, before, keys).1 == |Places(keys, before)|
    decreases |keys|
  {
    if keys == [] {
      assert Places(keys, before) == {};
    } else {
      PlacesFirst(keys, before);
      if keys[0] in before {
        WriteIsValid(meta, st, keys[0], Some(before[keys[0]]), None);
        BatchDeleteCountsPlaces(meta, Write(meta, st, keys[0], Some(before[keys[0]]), None), before, keys[1..]);
      } else {
        BatchDeleteCountsPlaces(meta, st, before, keys[1..]);
      }
    }
  }

  function Places(keys: seq<RecordKey>, before: Records): set<nat> {
    set j: nat | j < |keys| && keys[j] in before
  }

  lemma PlacesFirst(keys: seq<RecordKey>, before: Records)
    requires keys != []
    ensures |Places(keys, before)| == (if keys[0] in before then 1 else 0) + |Places(keys[1..], before)|
  {
    var later := Places(keys, before) - {0};
    forall j: nat ensures j in Places(keys[1..], before) <==> j + 1 in later {
      if j < |keys| - 1 { assert keys[1..][j] == keys[j + 1]; }
    }
    ShiftedSize(Places(keys[1..], before), later);
    assert Places(keys, before) == (if keys[0] in before then {0} else {}) + later;
  }

  lemma {:induction false} ShiftedSize(s: set<nat>, shifted: set<nat>)
    requires 0 !in shifted && forall j: nat :: j in s <==> j + 1 in shifted
    ensures |shifted| == |s|
    decreases |s|
  {
    if s == {} {
      assert forall j :: j in shifted ==> j - 1 in s;
    } else {
      var j :| j in s;
      ShiftedSize(s - {j}, shifted - {j + 1});
    }
  }
}
