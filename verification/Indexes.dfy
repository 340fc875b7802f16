// What each index kind stores, how a maintainer changes it for one record, and what the
// stored content has to be for a given set of records.
module Indexes {
  import opened Wrappers
  import opened Values
  import opened KeyExpressions

  type Tokenizer = string -> seq<(string, nat)>

  datatype IndexKind =
    | ValueIndex
    | TextIndex(tokenize: Tokenizer)
    | CountIndex
    | SumIndex(valueField: string)

  /** recordTypes is None for an index over every type. */
  datatype Index = Index(name: string, root: KeyExpression, kind: IndexKind, recordTypes: Option<set<string>>)

  predicate Applies(i: Index, typeName: string) {
    i.recordTypes.None? || typeName in i.recordTypes.value
  }

  function FindIndex(indexes: seq<Index>, name: string): (n: Option<nat>)
    ensures n.Some? ==> n.value < |indexes| && indexes[n.value].name == name
    ensures n.None? ==> forall m :: 0 <= m < |indexes| ==> indexes[m].name != name
  {
    if indexes == [] then None
    else if indexes[0].name == name then Some(0)
    else
      var n := FindIndex(indexes[1..], name);
      assert forall m :: 0 < m < |indexes| ==> indexes[m] == indexes[1..][m - 1];
      if n.None? then None else Some(n.value + 1)
  }

  predicate HoldsEntries(i: Index) { i.kind.ValueIndex? || i.kind.TextIndex? }

  /** VALUE and TEXT indexes keep entries with a small payload (empty, or a token position);
      COUNT and SUM indexes keep one signed 64-bit total per key. */
  datatype Content = Entries(entries: map<Tuple, nat>) | Totals(totals: map<Tuple, int>)

  predicate RightKind(i: Index, c: Content) { HoldsEntries(i) <==> c.Entries? }

  function EmptyContent(i: Index): Content { if HoldsEntries(i) then Entries(map[]) else Totals(map[]) }

  // ---- What one record puts into an index ----

  /** TextIndexMaintainer._get_text: the first column of the first key, when it is a string. */
  function GetText(root: KeyExpression, r: Record): Option<string> {
    var keys := Evaluate(root, r);
    if keys != [] && keys[0] != [] && keys[0][0].Str? then Some(keys[0][0].s) else None
  }

  /** One entry per distinct token, holding the token's first position. */
  function TextEntries(tokens: seq<(string, nat)>, typeName: string, pk: Tuple): map<Tuple, nat> {
    if tokens == [] then map[]
    else TextEntries(tokens[1..], typeName, pk)[FullKey([Str(tokens[0].0)], typeName, pk) := tokens[0].1]
  }

  function EmptyPayloads(keys: seq<Tuple>): map<Tuple, nat> { map k | k in keys :: 0 }

  lemma PutOneMore(entries: map<Tuple, nat>, keys: seq<Tuple>, j: nat)
    requires j < |keys|
    ensures entries + EmptyPayloads(keys[..j + 1]) == (entries + EmptyPayloads(keys[..j]))[keys[j] := 0]
  {
    assert keys[..j + 1] == keys[..j] + [keys[j]];
  }

  function RecordEntries(i: Index, r: Record, pk: Tuple): map<Tuple, nat>
    requires HoldsEntries(i)
  {
    match i.kind
    case ValueIndex => EmptyPayloads(FullKeys(i.root, r, pk))
    case TextIndex(tokenize) =>
      var text := GetText(i.root, r);
      if text.None? || text.value == "" then map[]
      else TextEntries(tokenize(text.value), r.typeName, pk)
  }

  const TWO63: int := 0x8000_0000_0000_0000
  const TWO64: int := 0x1_0000_0000_0000_0000

  /** A signed 64-bit counter after an atomic add. */
  function Wrap(x: int): (w: int)
    ensures -TWO63 <= w < TWO63
    ensures -TWO63 <= x < TWO63 ==> w == x
  {
    (x + TWO63) % TWO64 - TWO63
  }

  lemma WrapAdd(x: int, y: int)
    ensures Wrap(Wrap(x) + y) == Wrap(x + y)
  {
    var q := (x + TWO63) / TWO64;
    assert Wrap(x) == x - q * TWO64;
    WrapPeriodic(x + y, -q);
  }

  lemma WrapPeriodic(x: int, q: int)
    ensures Wrap(x + q * TWO64) == Wrap(x)
  {
    var a := x + TWO63;
    var d := a / TWO64;
    var m := a % TWO64;
    assert a + q * TWO64 == (d + q) * TWO64 + m;
  }

  lemma WrapEqual(x: int, y: int)
    ensures Wrap(x) == Wrap(y) <==> (x - y) % TWO64 == 0
  {
  }

  /** The amount a record adds to each of its keys: one for COUNT, the field's integer for SUM. */
  function Amount(i: Index, r: Record): int
    requires !HoldsEntries(i)
  {
    match i.kind
    case CountIndex => 1
    case SumIndex(f) =>
      if f in r.fields && r.fields[f].Scalar? && r.fields[f].v.Int? then r.fields[f].v.i else 0
  }

  function Occurrences(keys: seq<Tuple>, key: Tuple): nat {
    if keys == [] then 0 else (if keys[0] == key then 1 else 0) + Occurrences(keys[1..], key)
  }

  function Total(totals: map<Tuple, int>, key: Tuple): int {
    if key in totals then totals[key] else 0
  }

  function AddToEach(totals: map<Tuple, int>, keys: seq<Tuple>, amount: int): map<Tuple, int>
    decreases |keys|
  {
    if keys == [] then totals
    else AddToEach(totals[keys[0] := Wrap(Total(totals, keys[0]) + amount)], keys[1..], amount)
  }

  /** What adding an amount at each of the keys adds to one key. */
  function Added(keys: seq<Tuple>, key: Tuple, amount: int): int {
    if keys == [] then 0 else (if keys[0] == key then amount else 0) + Added(keys[1..], key, amount)
  }

  /** A key's share is the amount times the number of times the record has that key. */
  lemma {:induction false} AddedIsOccurrences(keys: seq<Tuple>, key: Tuple, amount: int)
    ensures Added(keys, key, amount) == Occurrences(keys, key) * amount
  {
    if keys != [] { AddedIsOccurrences(keys[1..], key, amount); }
  }

  lemma {:induction false} AddedNegated(keys: seq<Tuple>, key: Tuple, amount: int)
    ensures Added(keys, key, -amount) == -Added(keys, key, amount)
  {
    if keys != [] { AddedNegated(keys[1..], key, amount); }
  }

  lemma {:induction false} AddToEachTotal(totals: map<Tuple, int>, keys: seq<Tuple>, amount: int, key: Tuple, sum: int)
    requires Total(totals, key) == Wrap(sum)
    ensures Total(AddToEach(totals, keys, amount), key) == Wrap(sum + Added(keys, key, amount))
    decreases |keys|
  {
    if keys != [] {
      var next := totals[keys[0] := Wrap(Total(totals, keys[0]) + amount)];
      if keys[0] == key {
        WrapAdd(sum, amount);
        AddToEachTotal(next, keys[1..], amount, key, sum + amount);
      } else {
        AddToEachTotal(next, keys[1..], amount, key, sum);
      }
    }
  }

  // ---- The maintainers' update and remove ----

  function Updated(i: Index, c: Content, r: Record, pk: Tuple): (c': Content)
    requires RightKind(i, c)
    ensures RightKind(i, c')
  {
    if HoldsEntries(i) then Entries(c.entries + RecordEntries(i, r, pk))
    else Totals(AddToEach(c.totals, Evaluate(i.root, r), Amount(i, r)))
  }

  function Removed(i: Index, c: Content, r: Record, pk: Tuple): (c': Content)
    requires RightKind(i, c)
    ensures RightKind(i, c')
  {
    if HoldsEntries(i) then Entries(c.entries - RecordEntries(i, r, pk).Keys)
    else Totals(AddToEach(c.totals, Evaluate(i.root, r), -Amount(i, r)))
  }

  /** ValueIndexMaintainer.update and .remove. */
  method UpdateValue(entries: map<Tuple, nat>, i: Index, r: Record, pk: Tuple) returns (entries': map<Tuple, nat>)
    requires i.kind.ValueIndex?
    ensures Entries(entries') == Updated(i, Entries(entries), r, pk)
  {
    var fullKeys := GetIndexKey(i.root, r, pk);
    entries' := entries;
    for j := 0 to |fullKeys|
      invariant entries' == entries + EmptyPayloads(fullKeys[..j])
    {
      PutOneMore(entries, fullKeys, j);
      entries' := entries'[fullKeys[j] := 0];
    }
    assert fullKeys[..|fullKeys|] == fullKeys;
  }

  method RemoveValue(entries: map<Tuple, nat>, i: Index, r: Record, pk: Tuple) returns (entries': map<Tuple, nat>)
    requires i.kind.ValueIndex?
    ensures Entries(entries') == Removed(i, Entries(entries), r, pk)
  {
    var fullKeys := GetIndexKey(i.root, r, pk);
    entries' := entries;
    for j := 0 to |fullKeys|
      invariant entries' == entries - set k | k in fullKeys[..j]
    {
      entries' := entries' - {fullKeys[j]};
    }
    assert fullKeys[..|fullKeys|] == fullKeys;
    assert (set k | k in fullKeys) == RecordEntries(i, r, pk).Keys;
  }

  lemma {:induction false} TextEntriesSnoc(tokens: seq<(string, nat)>, t: (string, nat), typeName: string, pk: Tuple)
    ensures TextEntries(tokens + [t], typeName, pk)
         == map[FullKey([Str(t.0)], typeName, pk) := t.1] + TextEntries(tokens, typeName, pk)
  {
    if tokens == [] {
      assert tokens + [t] == [t] && [t][1..] == [];
    } else {
      TextEntriesSnoc(tokens[1..], t, typeName, pk);
      assert (tokens + [t])[1..] == tokens[1..] + [t];
    }
  }

  lemma {:induction false} TextEntriesKeys(tokens: seq<(string, nat)>, typeName: string, pk: Tuple, token: string)
    ensures FullKey([Str(token)], typeName, pk) in TextEntries(tokens, typeName, pk)
       <==> exists j :: 0 <= j < |tokens| && tokens[j].0 == token
  {
    if tokens != [] {
      TextEntriesKeys(tokens[1..], typeName, pk, token);
      assert FullKey([Str(token)], typeName, pk)[0] == Str(token);
      assert FullKey([Str(tokens[0].0)], typeName, pk)[0] == Str(tokens[0].0);
    }
  }

  /** One more token adds an entry exactly when it has not been seen before. */
  lemma OneMoreToken(tokens: seq<(string, nat)>, j: nat, typeName: string, pk: Tuple)
    requires j < |tokens|
    ensures var key := FullKey([Str(tokens[j].0)], typeName, pk);
            var before := TextEntries(tokens[..j], typeName, pk);
            TextEntries(tokens[..j + 1], typeName, pk)
              == if exists n :: 0 <= n < j && tokens[n].0 == tokens[j].0 then before else before[key := tokens[j].1]
  {
    assert tokens[..j + 1] == tokens[..j] + [tokens[j]];
    TextEntriesSnoc(tokens[..j], tokens[j], typeName, pk);
    TextEntriesKeys(tokens[..j], typeName, pk, tokens[j].0);
  }

  /** TextIndexMaintainer.update: the seen set lets only a token's first position through. */
  method UpdateText(entries: map<Tuple, nat>, i: Index, r: Record, pk: Tuple) returns (entries': map<Tuple, nat>)
    requires i.kind.TextIndex?
    ensures Entries(entries') == Updated(i, Entries(entries), r, pk)
  {
    var text := GetText(i.root, r);
    if text.None? || text.value == "" {
      assert entries + map[] == entries;
      return entries;
    }
    var tokens := i.kind.tokenize(text.value);
    var seen: set<string> := {};
    entries' := entries;
    for j := 0 to |tokens|
      invariant seen == set n | 0 <= n < j :: tokens[n].0
      invariant entries' == entries + TextEntries(tokens[..j], r.typeName, pk)
    {
      var (token, pos) := tokens[j];
      var key := FullKey([Str(token)], r.typeName, pk);
      OneMoreToken(tokens, j, r.typeName, pk);
      if token !in seen {
        seen := seen + {token};
        entries' := entries'[key := pos];
      }
    }
    assert tokens[..|tokens|] == tokens;
  }

  /** TextIndexMaintainer.remove. */
  method RemoveText(entries: map<Tuple, nat>, i: Index, r: Record, pk: Tuple) returns (entries': map<Tuple, nat>)
    requires i.kind.TextIndex?
    ensures Entries(entries') == Removed(i, Entries(entries), r, pk)
  {
    var text := GetText(i.root, r);
    if text.None? || text.value == "" {
      return entries;
    }
    var tokens := i.kind.tokenize(text.value);
    var seen: set<string> := {};
    entries' := entries;
    for j := 0 to |tokens|
      invariant seen == set n | 0 <= n < j :: tokens[n].0
      invariant entries' == entries - TextEntries(tokens[..j], r.typeName, pk).Keys
    {
      var (token, _) := tokens[j];
      var key := FullKey([Str(token)], r.typeName, pk);
      assert tokens[..j + 1] == tokens[..j] + [tokens[j]];
      TextEntriesSnoc(tokens[..j], tokens[j], r.typeName, pk);
      TextEntriesKeys(tokens[..j], r.typeName, pk, token);
      if token !in seen {
        seen := seen + {token};
        entries' := entries' - {key};
      }
    }
    assert tokens[..|tokens|] == tokens;
  }

  /** CountIndexMaintainer and SumIndexMaintainer: an atomic add per key. */
  method AddPerKey(totals: map<Tuple, int>, keys: seq<Tuple>, amount: int) returns (totals': map<Tuple, int>)
    ensures totals' == AddToEach(totals, keys, amount)
  {
    totals' := totals;
    for j := 0 to |keys|
      invariant AddToEach(totals', keys[j..], amount) == AddToEach(totals, keys, amount)
    {
      assert keys[j..][1..] == keys[j + 1..];
      totals' := totals'[keys[j] := Wrap(Total(totals', keys[j]) + amount)];
    }
  }

  method Update(i: Index, c: Content, r: Record, pk: Tuple) returns (c': Content)
    requires RightKind(i, c)
    ensures c' == Updated(i, c, r, pk)
  {
    match i.kind
    case ValueIndex => var entries := UpdateValue(c.entries, i, r, pk); c' := Entries(entries);
    case TextIndex(_) => var entries := UpdateText(c.entries, i, r, pk); c' := Entries(entries);
    case _ => var totals := AddPerKey(c.totals, Evaluate(i.root, r), Amount(i, r)); c' := Totals(totals);
  }

  method Remove(i: Index, c: Content, r: Record, pk: Tuple) returns (c': Content)
    requires RightKind(i, c)
    ensures c' == Removed(i, c, r, pk)
  {
    match i.kind
    case ValueIndex => var entries := RemoveValue(c.entries, i, r, pk); c' := Entries(entries);
    case TextIndex(_) => var entries := RemoveText(c.entries, i, r, pk); c' := Entries(entries);
    case _ => var totals := AddPerKey(c.totals, Evaluate(i.root, r), -Amount(i, r)); c' := Totals(totals);
  }

  // ---- Agreement with the stored records ----

  datatype RecordKey = RecordKey(typeName: string, pk: Tuple)

  type Records = map<RecordKey, Record>

  /** The primary keys stored under a type. */
  function PksOf(records: Records, typeName: string): set<Tuple> {
    set k | k in records && k.typeName == typeName :: k.pk
  }

  function KeysOfType(typeName: string, pks: seq<Tuple>): (keys: seq<RecordKey>)
    ensures |keys| == |pks| && forall j :: 0 <= j < |pks| ==> keys[j] == RecordKey(typeName, pks[j])
  {
    seq(|pks|, j requires 0 <= j < |pks| => RecordKey(typeName, pks[j]))
  }

  /** Every record is stored under its own type. */
  ghost predicate WellTyped(records: Records) {
    forall k :: k in records ==> records[k].typeName == k.typeName
  }

  ghost predicate Contributes(i: Index, records: Records, k: RecordKey, key: Tuple, payload: nat)
    requires HoldsEntries(i)
  {
    k in records && Applies(i, k.typeName) &&
    key in RecordEntries(i, records[k], k.pk) && RecordEntries(i, records[k], k.pk)[key] == payload
  }

  /** Some stored record puts this entry into the index. */
  ghost predicate Expected(i: Index, records: Records, key: Tuple, payload: nat)
    requires HoldsEntries(i)
  {
    exists k :: Contributes(i, records, k, key, payload)
  }

  ghost function Share(i: Index, records: Records, k: RecordKey, key: Tuple): int
    requires !HoldsEntries(i)
  {
    if k in records && Applies(i, k.typeName)
    then Added(Evaluate(i.root, records[k]), key, Amount(i, records[k]))
    else 0
  }

  /** The shares of a set of records, added up. */
  ghost function Shares(i: Index, records: Records, ks: set<RecordKey>, key: Tuple): int
    requires !HoldsEntries(i)
  {
    if ks == {} then 0
    else var k :| k in ks; Share(i, records, k, key) + Shares(i, records, ks - {k}, key)
  }

  /** The index content is what recomputing it from the records gives. */
  ghost predicate Agrees(i: Index, c: Content, records: Records) {
    RightKind(i, c) &&
    if HoldsEntries(i) then
      forall key, payload: nat :: (key in c.entries && c.entries[key] == payload) <==> Expected(i, records, key, payload)
    else
      forall key :: Total(c.totals, key) == Wrap(Shares(i, records, records.Keys, key))
  }

  lemma {:induction false} SharesRemove(i: Index, records: Records, ks: set<RecordKey>, k: RecordKey, key: Tuple)
    requires !HoldsEntries(i) && k in ks
    ensures Shares(i, records, ks, key) == Share(i, records, k, key) + Shares(i, records, ks - {k}, key)
    decreases |ks|
  {
    var p :| p in ks && Shares(i, records, ks, key) == Share(i, records, p, key) + Shares(i, records, ks - {p}, key);
    if p != k {
      SharesRemove(i, records, ks - {p}, k, key);
      SharesRemove(i, records, ks - {k}, p, key);
      assert ks - {p} - {k} == ks - {k} - {p};
    }
  }

  lemma {:induction false} SharesSame(i: Index, records: Records, records': Records, ks: set<RecordKey>, key: Tuple)
    requires !HoldsEntries(i)
    requires forall k :: k in ks ==> Share(i, records, k, key) == Share(i, records', k, key)
    ensures Shares(i, records, ks, key) == Shares(i, records', ks, key)
    decreases |ks|
  {
    if ks != {} {
      var p :| p in ks && Shares(i, records, ks, key) == Share(i, records, p, key) + Shares(i, records, ks - {p}, key);
      SharesSame(i, records, records', ks - {p}, key);
      SharesRemove(i, records', ks, p, key);
    }
  }

  /** Splitting off one record's share, whether or not it is stored. */
  lemma SharesSplit(i: Index, records: Records, k: RecordKey, key: Tuple)
    requires !HoldsEntries(i)
    ensures Shares(i, records, records.Keys, key)
         == Share(i, records, k, key) + Shares(i, records, records.Keys - {k}, key)
  {
    if k in records {
      SharesRemove(i, records, records.Keys, k, key);
    } else {
      assert records.Keys - {k} == records.Keys;
    }
  }

  /** Records that differ only at k differ in their shares only by k's. */
  lemma SharesChange(i: Index, records: Records, records': Records, k: RecordKey, key: Tuple)
    requires !HoldsEntries(i) && records' - {k} == records - {k}
    ensures Shares(i, records', records'.Keys, key)
         == Shares(i, records, records.Keys, key) - Share(i, records, k, key) + Share(i, records', k, key)
  {
    SharesSplit(i, records, k, key);
    SharesSplit(i, records', k, key);
    var rest := records.Keys - {k};
    assert records'.Keys - {k} == (records' - {k}).Keys == (records - {k}).Keys == rest;
    forall j | j in rest ensures Share(i, records, j, key) == Share(i, records', j, key) {
      assert j in records - {k} && (records - {k})[j] == records[j];
      assert j in records' - {k} && (records' - {k})[j] == records'[j];
    }
    SharesSame(i, records, records', rest, key);
  }

  lemma {:induction false} TextKeyShape(tokens: seq<(string, nat)>, typeName: string, pk: Tuple, key: Tuple)
    requires key in TextEntries(tokens, typeName, pk)
    ensures exists token :: key == FullKey([Str(token)], typeName, pk)
  {
    if key != FullKey([Str(tokens[0].0)], typeName, pk) {
      TextKeyShape(tokens[1..], typeName, pk, key);
    }
  }

  /** Entries of different records never coincide, for VALUE and TEXT alike. */
  lemma EntriesIdentifyRecord(i: Index, r: Record, pk: Tuple, r': Record, pk': Tuple, key: Tuple)
    requires HoldsEntries(i)
    requires key in RecordEntries(i, r, pk) && key in RecordEntries(i, r', pk')
    ensures r.typeName == r'.typeName && pk == pk'
  {
    if i.kind.ValueIndex? {
      FullKeysIdentifyRecord(i.root, r, pk, r', pk', key);
    } else {
      TextKeyShape(i.kind.tokenize(GetText(i.root, r).value), r.typeName, pk, key);
      TextKeyShape(i.kind.tokenize(GetText(i.root, r').value), r'.typeName, pk', key);
      assert key[1] == Str(r.typeName) && key[1] == Str(r'.typeName);
      assert key[2..] == pk && key[2..] == pk';
    }
  }

  /** The change _update_indexes makes to one index that is maintained. */
  function Maintained(i: Index, c: Content, pk: Tuple, old_: Option<Record>, new_: Option<Record>): (c': Content)
    requires RightKind(i, c)
    ensures RightKind(i, c')
  {
    var removed := if old_.Some? then Removed(i, c, old_.value, pk) else c;
    if new_.Some? then Updated(i, removed, new_.value, pk) else removed
  }

  function Lookup(records: Records, k: RecordKey): Option<Record> {
    if k in records then Some(records[k]) else None
  }

  /** Replacing, adding or deleting one record and maintaining the index keeps the agreement. */
  lemma MaintainedAgrees(i: Index, c: Content, records: Records, records': Records, k: RecordKey)
    requires Agrees(i, c, records) && WellTyped(records) && WellTyped(records')
    requires records' - {k} == records - {k}
    requires Applies(i, k.typeName)
    ensures Agrees(i, Maintained(i, c, k.pk, Lookup(records, k), Lookup(records', k)), records')
  {
    if HoldsEntries(i) {
      MaintainedEntriesAgree(i, c, records, records', k);
    } else {
      var c' := Maintained(i, c, k.pk, Lookup(records, k), Lookup(records', k));
      forall key ensures Total(c'.totals, key) == Wrap(Shares(i, records', records'.Keys, key)) {
        MaintainedTotalsAgree(i, c, records, records', k, key);
      }
    }
  }

  function ShareOf(i: Index, r: Option<Record>, key: Tuple): int
    requires !HoldsEntries(i)
  {
    if r.None? then 0 else Added(Evaluate(i.root, r.value), key, Amount(i, r.value))
  }

  lemma MaintainedTotal(i: Index, c: Content, pk: Tuple, old_: Option<Record>, new_: Option<Record>, key: Tuple, sum: int)
    requires !HoldsEntries(i) && RightKind(i, c)
    requires Total(c.totals, key) == Wrap(sum)
    ensures Total(Maintained(i, c, pk, old_, new_).totals, key)
         == Wrap(sum - ShareOf(i, old_, key) + ShareOf(i, new_, key))
  {
    var removed := if old_.Some? then Removed(i, c, old_.value, pk) else c;
    if old_.Some? {
      var keys, amount := Evaluate(i.root, old_.value), Amount(i, old_.value);
      AddToEachTotal(c.totals, keys, -amount, key, sum);
      AddedNegated(keys, key, amount);
    }
    if new_.Some? {
      AddToEachTotal(removed.totals, Evaluate(i.root, new_.value), Amount(i, new_.value), key, sum - ShareOf(i, old_, key));
    }
  }

  lemma ShareIsShareOf(i: Index, records: Records, k: RecordKey, key: Tuple)
    requires !HoldsEntries(i) && Applies(i, k.typeName)
    ensures Share(i, records, k, key) == ShareOf(i, Lookup(records, k), key)
  {
  }

  lemma MaintainedTotalsAgree(i: Index, c: Content, records: Records, records': Records, k: RecordKey, key: Tuple)
    requires !HoldsEntries(i) && RightKind(i, c)
    requires Total(c.totals, key) == Wrap(Shares(i, records, records.Keys, key))
    requires records' - {k} == records - {k}
    requires Applies(i, k.typeName)
    ensures Total(Maintained(i, c, k.pk, Lookup(records, k), Lookup(records', k)).totals, key)
         == Wrap(Shares(i, records', records'.Keys, key))
  {
    var sum := Shares(i, records, records.Keys, key);
    var old_, new_ := Lookup(records, k), Lookup(records', k);
    assert Shares(i, records', records'.Keys, key) == sum - ShareOf(i, old_, key) + ShareOf(i, new_, key) by {
      SharesChange(i, records, records', k, key);
      ShareIsShareOf(i, records, k, key);
      ShareIsShareOf(i, records', k, key);
    }
    MaintainedTotal(i, c, k.pk, old_, new_, key, sum);
  }

  lemma MaintainedEntriesAgree(i: Index, c: Content, records: Records, records': Records, k: RecordKey)
    requires HoldsEntries(i)
    requires Agrees(i, c, records) && WellTyped(records) && WellTyped(records')
    requires records' - {k} == records - {k}
    requires Applies(i, k.typeName)
    ensures Agrees(i, Maintained(i, c, k.pk, Lookup(records, k), Lookup(records', k)), records')
  {
    var c' := Maintained(i, c, k.pk, Lookup(records, k), Lookup(records', k));
    forall key, payload: nat
      ensures (key in c'.entries && c'.entries[key] == payload) <==> Expected(i, records', key, payload)
    {
      if k in records' && key in RecordEntries(i, records'[k], k.pk) {
        var mine := RecordEntries(i, records'[k], k.pk);
        assert Contributes(i, records', k, key, mine[key]);
        OnlyContributor(i, records', k, key, mine[key]);
      } else {
        NotContributedBy(i, records, records', k, key, payload);
      }
    }
  }

  lemma OnlyContributor(i: Index, records: Records, k: RecordKey, key: Tuple, payload: nat)
    requires HoldsEntries(i) && WellTyped(records)
    requires Contributes(i, records, k, key, payload)
    ensures forall k', payload': nat :: Contributes(i, records, k', key, payload') ==> k' == k && payload' == payload
  {
    forall k', payload': nat | Contributes(i, records, k', key, payload') ensures k' == k && payload' == payload {
      EntriesIdentifyRecord(i, records[k], k.pk, records[k'], k'.pk, key);
    }
  }

  /** For a key that k's new record does not have, only k's old record can have changed anything. */
  lemma NotContributedBy(i: Index, records: Records, records': Records, k: RecordKey, key: Tuple, payload: nat)
    requires HoldsEntries(i) && WellTyped(records) && records' - {k} == records - {k}
    requires Applies(i, k.typeName)
    requires k in records' ==> key !in RecordEntries(i, records'[k], k.pk)
    ensures Expected(i, records', key, payload)
       <==> Expected(i, records, key, payload) && (k in records ==> key !in RecordEntries(i, records[k], k.pk))
  {
    forall j | j != k ensures Contributes(i, records, j, key, payload) <==> Contributes(i, records', j, key, payload) {
      assert j in records <==> j in records - {k};
      assert j in records' <==> j in records' - {k};
      if j in records { assert (records - {k})[j] == records[j] && (records' - {k})[j] == records'[j]; }
    }
    if Expected(i, records, key, payload) {
      var j :| Contributes(i, records, j, key, payload);
      if k in records && key in RecordEntries(i, records[k], k.pk) {
        OnlyContributor(i, records, k, key, RecordEntries(i, records[k], k.pk)[key]);
      }
    }
  }

  /** A change to a record of a type the index does not cover leaves the agreement alone. */
  lemma NotCoveredAgrees(i: Index, c: Content, records: Records, records': Records, k: RecordKey)
    requires Agrees(i, c, records) && records' - {k} == records - {k} && !Applies(i, k.typeName)
    ensures Agrees(i, c, records')
  {
    if HoldsEntries(i) {
      forall key, payload: nat ensures Expected(i, records', key, payload) <==> Expected(i, records, key, payload) {
        forall j | j != k ensures Contributes(i, records, j, key, payload) <==> Contributes(i, records', j, key, payload) {
          assert j in records <==> j in records - {k};
          assert j in records' <==> j in records' - {k};
          if j in records { assert (records - {k})[j] == records[j] && (records' - {k})[j] == records'[j]; }
        }
      }
    } else {
      forall key ensures Total(c.totals, key) == Wrap(Shares(i, records', records'.Keys, key)) {
        SharesChange(i, records, records', k, key);
      }
    }
  }

  // ---- What COUNT counts ----

  /** Every place where a stored record has the key: which record, which of its keys. */
  ghost function Pairs(i: Index, records: Records, ks: set<RecordKey>, key: Tuple): set<(RecordKey, nat)> {
    set k, j | k in ks && k in records && Applies(i, k.typeName) && j in Positions(Evaluate(i.root, records[k]), key) :: (k, j)
  }

  ghost function Positions(keys: seq<Tuple>, key: Tuple): set<nat> {
    set j: nat | j < |keys| && keys[j] == key
  }

  lemma {:induction false} OccurrencesSnoc(keys: seq<Tuple>, last: Tuple, key: Tuple)
    ensures Occurrences(keys + [last], key) == Occurrences(keys, key) + if last == key then 1 else 0
  {
    if keys == [] {
      assert keys + [last] == [last] && [last][1..] == [];
    } else {
      OccurrencesSnoc(keys[1..], last, key);
      assert (keys + [last])[1..] == keys[1..] + [last];
    }
  }

  lemma {:induction false} OccurrencesArePositions(keys: seq<Tuple>, key: Tuple)
    ensures Occurrences(keys, key) == |Positions(keys, key)|
    decreases |keys|
  {
    if keys == [] {
      assert Positions(keys, key) == {};
    } else {
      var n := |keys| - 1;
      OccurrencesArePositions(keys[..n], key);
      assert keys == keys[..n] + [keys[n]];
      OccurrencesSnoc(keys[..n], keys[n], key);
      assert Positions(keys, key) == Positions(keys[..n], key) + if keys[n] == key then {n} else {};
    }
  }

  lemma {:induction false} Tagged(k: RecordKey, js: set<nat>, pairs: set<(RecordKey, nat)>)
    requires pairs == set j | j in js :: (k, j)
    ensures |pairs| == |js|
    decreases |js|
  {
    if js == {} {
      assert pairs == {};
    } else {
      var j :| j in js;
      Tagged(k, js - {j}, pairs - {(k, j)});
      assert pairs == (pairs - {(k, j)}) + {(k, j)};
    }
  }

  lemma DisjointSize(a: set<(RecordKey, nat)>, b: set<(RecordKey, nat)>)
    requires a !! b
    ensures |a + b| == |a| + |b|
  {
  }

  lemma RecordPairs(i: Index, records: Records, k: RecordKey, key: Tuple)
    requires i.kind.CountIndex?
    ensures |Pairs(i, records, {k}, key)| == Share(i, records, k, key)
  {
    var mine := Pairs(i, records, {k}, key);
    if k in records && Applies(i, k.typeName) {
      var keys := Evaluate(i.root, records[k]);
      AddedIsOccurrences(keys, key, 1);
      OccurrencesArePositions(keys, key);
      Tagged(k, Positions(keys, key), mine);
    } else {
      assert mine == {};
    }
  }

  lemma PairsWithout(i: Index, records: Records, ks: set<RecordKey>, k: RecordKey, key: Tuple)
    requires k in ks
    ensures |Pairs(i, records, ks, key)| == |Pairs(i, records, {k}, key)| + |Pairs(i, records, ks - {k}, key)|
  {
    var mine, rest := Pairs(i, records, {k}, key), Pairs(i, records, ks - {k}, key);
    assert Pairs(i, records, ks, key) == mine + rest;
    DisjointSize(mine, rest);
  }

  lemma {:induction false} CountSharesArePairs(i: Index, records: Records, ks: set<RecordKey>, key: Tuple)
    requires i.kind.CountIndex?
    ensures Shares(i, records, ks, key) == |Pairs(i, records, ks, key)|
    decreases |ks|
  {
    if ks == {} {
      assert Pairs(i, records, ks, key) == {};
    } else {
      var k :| k in ks && Shares(i, records, ks, key) == Share(i, records, k, key) + Shares(i, records, ks - {k}, key);
      CountSharesArePairs(i, records, ks - {k}, key);
      RecordPairs(i, records, k, key);
      PairsWithout(i, records, ks, k, key);
    }
  }

  /** A COUNT index in agreement gives, per key, the number of (record, key occurrence) pairs. */
  lemma CountIsNumberOfPairs(i: Index, c: Content, records: Records, key: Tuple)
    requires i.kind.CountIndex? && Agrees(i, c, records)
    requires |Pairs(i, records, records.Keys, key)| < TWO63
    ensures Total(c.totals, key) == |Pairs(i, records, records.Keys, key)|
  {
    CountSharesArePairs(i, records, records.Keys, key);
  }

  // ---- What SUM sums ----

  /** The integer a field holds, 0 where it holds none. */
  function IntegerIn(r: Record, field: string): int {
    if field !in r.fields then 0
    else
      match r.fields[field]
      case Scalar(Int(n)) => n
      case _ => 0
  }

  /** The field's integers over a set of (record, key occurrence) pairs, added up. */
  ghost function SumOver(records: Records, field: string, pairs: set<(RecordKey, nat)>): int
    requires forall p :: p in pairs ==> p.0 in records
  {
    if pairs == {} then 0
    else var p :| p in pairs; IntegerIn(records[p.0], field) + SumOver(records, field, pairs - {p})
  }

  lemma {:induction false} SumOverRemove(records: Records, field: string, pairs: set<(RecordKey, nat)>, p: (RecordKey, nat))
    requires (forall q :: q in pairs ==> q.0 in records) && p in pairs
    ensures SumOver(records, field, pairs) == IntegerIn(records[p.0], field) + SumOver(records, field, pairs - {p})
    decreases |pairs|
  {
    var q :| q in pairs &&
      SumOver(records, field, pairs) == IntegerIn(records[q.0], field) + SumOver(records, field, pairs - {q});
    if q != p {
      SumOverRemove(records, field, pairs - {q}, p);
      SumOverRemove(records, field, pairs - {p}, q);
      assert pairs - {q} - {p} == pairs - {p} - {q};
    }
  }

  lemma {:induction false} SumOverUnion(records: Records, field: string, a: set<(RecordKey, nat)>, b: set<(RecordKey, nat)>)
    requires (forall p :: p in a + b ==> p.0 in records) && a !! b
    ensures SumOver(records, field, a + b) == SumOver(records, field, a) + SumOver(records, field, b)
    decreases |a|
  {
    if a == {} {
      assert a + b == b;
    } else {
      var p :| p in a;
      SumOverUnion(records, field, a - {p}, b);
      SumOverRemove(records, field, a, p);
      SumOverRemove(records, field, a + b, p);
      assert a + b - {p} == (a - {p}) + b;
    }
  }

  lemma {:induction false} SumOverOne(records: Records, field: string, k: RecordKey, pairs: set<(RecordKey, nat)>)
    requires k in records && forall p :: p in pairs ==> p.0 == k
    ensures SumOver(records, field, pairs) == |pairs| * IntegerIn(records[k], field)
    decreases |pairs|
  {
    if pairs != {} {
      var p :| p in pairs;
      SumOverRemove(records, field, pairs, p);
      SumOverOne(records, field, k, pairs - {p});
    }
  }

  lemma ShareIsSum(i: Index, records: Records, k: RecordKey, key: Tuple)
    requires i.kind.SumIndex?
    ensures Share(i, records, k, key) == SumOver(records, i.kind.valueField, Pairs(i, records, {k}, key))
  {
    var mine := Pairs(i, records, {k}, key);
    if k in records && Applies(i, k.typeName) {
      var keys, amount := Evaluate(i.root, records[k]), IntegerIn(records[k], i.kind.valueField);
      AddedIsOccurrences(keys, key, amount);
      OccurrencesArePositions(keys, key);
      Tagged(k, Positions(keys, key), mine);
      SumOverOne(records, i.kind.valueField, k, mine);
    } else {
      assert mine == {};
    }
  }

  lemma SumOfPairsWithout(i: Index, records: Records, ks: set<RecordKey>, k: RecordKey, key: Tuple)
    requires i.kind.SumIndex? && k in ks
    ensures SumOver(records, i.kind.valueField, Pairs(i, records, ks, key))
         == SumOver(records, i.kind.valueField, Pairs(i, records, {k}, key))
            + SumOver(records, i.kind.valueField, Pairs(i, records, ks - {k}, key))
  {
    hide SumOver, Evaluate;
    var mine, rest := Pairs(i, records, {k}, key), Pairs(i, records, ks - {k}, key);
    assert Pairs(i, records, ks, key) == mine + rest;
    SumOverUnion(records, i.kind.valueField, mine, rest);
  }

  lemma {:induction false} SumSharesArePairs(i: Index, records: Records, ks: set<RecordKey>, key: Tuple)
    requires i.kind.SumIndex?
    ensures Shares(i, records, ks, key) == SumOver(records, i.kind.valueField, Pairs(i, records, ks, key))
    decreases |ks|
  {
    if ks == {} {
      assert Pairs(i, records, ks, key) == {};
    } else {
      var k :| k in ks && Shares(i, records, ks, key) == Share(i, records, k, key) + Shares(i, records, ks - {k}, key);
      SumSplits(i, records, ks, k, key);
    }
  }

  lemma {:induction false} SumSplits(i: Index, records: Records, ks: set<RecordKey>, k: RecordKey, key: Tuple)
    requires i.kind.SumIndex? && k in ks
    ensures Share(i, records, k, key) + Shares(i, records, ks - {k}, key)
         == SumOver(records, i.kind.valueField, Pairs(i, records, ks, key))
    decreases |ks|, 0
  {
    hide Shares, Share, SumOver, Pairs;
    SumSharesArePairs(i, records, ks - {k}, key);
    ShareIsSum(i, records, k, key);
    SumOfPairsWithout(i, records, ks, k, key);
  }

  /** A SUM index in agreement gives, per key, the sum of the value field's integers over the
      (record, key occurrence) pairs: modulo 2^64, and outright when the sum fits a signed counter. */
  lemma SumIsSumOfField(i: Index, c: Content, records: Records, key: Tuple)
    requires i.kind.SumIndex? && Agrees(i, c, records)
    ensures var total := Total(c.totals, key);
            var sum := SumOver(records, i.kind.valueField, Pairs(i, records, records.Keys, key));
            -TWO63 <= total < TWO63 && (total - sum) % TWO64 == 0 && (-TWO63 <= sum < TWO63 ==> total == sum)
  {
    hide Shares, SumOver, Wrap;
    SumSharesArePairs(i, records, records.Keys, key);
    WrapMeans(SumOver(records, i.kind.valueField, Pairs(i, records, records.Keys, key)));
  }

  lemma WrapMeans(sum: int)
    ensures -TWO63 <= Wrap(sum) < TWO63 && (Wrap(sum) - sum) % TWO64 == 0 && (-TWO63 <= sum < TWO63 ==> Wrap(sum) == sum)
  {
    assert Wrap(sum) - sum == -((sum + TWO63) / TWO64) * TWO64;
    MultipleModulo(-((sum + TWO63) / TWO64));
  }

  lemma MultipleModulo(q: int)
    ensures (q * TWO64) % TWO64 == 0
  {
  }

  // ---- What TEXT holds ----

  /** Each token of a text has one entry, which holds the position where the token first stands. */
  lemma {:induction false} TextHoldsFirstPositions(tokens: seq<(string, nat)>, typeName: string, pk: Tuple, token: string)
    ensures var entries, key := TextEntries(tokens, typeName, pk), FullKey([Str(token)], typeName, pk);
            (key in entries <==> exists j :: 0 <= j < |tokens| && tokens[j].0 == token) &&
            forall j :: 0 <= j < |tokens| && tokens[j].0 == token && (forall l :: 0 <= l < j ==> tokens[l].0 != token) ==>
              entries[key] == tokens[j].1
  {
    TextEntriesKeys(tokens, typeName, pk, token);
    if tokens != [] {
      var entries, rest := TextEntries(tokens, typeName, pk), TextEntries(tokens[1..], typeName, pk);
      TextHoldsFirstPositions(tokens[1..], typeName, pk, token);
      assert FullKey([Str(token)], typeName, pk)[0] == Str(token);
      assert FullKey([Str(tokens[0].0)], typeName, pk)[0] == Str(tokens[0].0);
      forall j | 0 <= j < |tokens| && tokens[j].0 == token && (forall l :: 0 <= l < j ==> tokens[l].0 != token)
        ensures entries[FullKey([Str(token)], typeName, pk)] == tokens[j].1
      {
        if j > 0 {
          assert tokens[1..][j - 1] == tokens[j];
          assert forall l :: 0 <= l < j - 1 ==> tokens[1..][l] == tokens[l + 1];
        }
      }
    }
  }
}
