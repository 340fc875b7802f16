// Records and the key expressions that turn a record into key tuples.
module KeyExpressions {
  import opened Values

  /** A message: its type's name and the fields it has.  A field missing from the map is one
      the message type does not declare. */
  datatype Record = Record(typeName: string, fields: map<string, FieldValue>)

  datatype FieldValue =
    | Scalar(v: Value)
    | Repeated(vs: seq<Value>)
    | Message(m: Record)
    | Messages(ms: seq<Record>)

  datatype FanType = FanNone | FanOut | Concatenate

  datatype KeyExpression =
    | EmptyKey
    | LiteralKey(value: Value)
    | RecordTypeKey
    | FieldKey(fieldName: string, fanType: FanType, nullStandalone: bool)
    | NestKey(parentField: string, child: KeyExpression)
    | ConcatKey(children: seq<KeyExpression>)

  /** Number of columns of every key the expression produces. */
  function ColumnSize(e: KeyExpression): nat {
    match e
    case EmptyKey => 0
    case NestKey(_, child) => ColumnSize(child)
    case ConcatKey(children) => ColumnSizes(children)
    case _ => 1
  }

  function ColumnSizes(es: seq<KeyExpression>): nat {
    if es == [] then 0 else ColumnSize(es[0]) + ColumnSizes(es[1..])
  }

  function AsKeys(vs: seq<Value>): (keys: seq<Tuple>)
    ensures |keys| == |vs| && forall i :: 0 <= i < |vs| ==> keys[i] == [vs[i]]
  {
    seq(|vs|, i requires 0 <= i < |vs| => [vs[i]])
  }

  function NoValue(nullStandalone: bool): seq<Tuple> {
    if nullStandalone then [[Null]] else []
  }

  function EvaluateField(r: Record, name: string, fan: FanType, nullStandalone: bool): seq<Tuple> {
    if name !in r.fields then NoValue(nullStandalone)
    else match r.fields[name]
      case Scalar(Null) => NoValue(nullStandalone)
      case Scalar(v) => [[v]]
      case Repeated(vs) => (
        match fan
        case FanOut => if vs == [] then NoValue(nullStandalone) else AsKeys(vs)
        case Concatenate => [[Tup(vs)]]
        case FanNone => if vs == [] then NoValue(nullStandalone) else [[vs[0]]])
      // A message is not a packable column; see "Left out" in README.md.
      case _ => []
  }

  /** The keys of a record, in the order the code lists them. */
  function Evaluate(e: KeyExpression, r: Record): seq<Tuple>
    decreases e, 0, 0
  {
    match e
    case EmptyKey => [[]]
    case LiteralKey(value) => [[value]]
    case RecordTypeKey => [[Str(r.typeName)]]
    case FieldKey(name, fan, nullStandalone) => EvaluateField(r, name, fan, nullStandalone)
    case NestKey(parent, child) =>
      if parent !in r.fields then []
      else (match r.fields[parent]
            case Message(m) => Evaluate(child, m)
            case Messages(ms) => EvaluateEach(child, ms)
            case _ => [])
    case ConcatKey(children) => EvaluateAll(children, r)
  }

  function EvaluateEach(e: KeyExpression, rs: seq<Record>): seq<Tuple>
    decreases e, 1, |rs|
  {
    if rs == [] then [] else Evaluate(e, rs[0]) + EvaluateEach(e, rs[1..])
  }

  /** Keys of a concatenation: every choice of one key per child, the last child varying fastest. */
  function EvaluateAll(es: seq<KeyExpression>, r: Record): seq<Tuple>
    decreases es, 1, 0
  {
    if es == [] then [[]] else Cross(Evaluate(es[0], r), EvaluateAll(es[1..], r))
  }

  /** The cross product of two key lists, as an ordered list. */
  function Cross(a: seq<Tuple>, b: seq<Tuple>): seq<Tuple> {
    if a == [] then [] else Prepend(a[0], b) + Cross(a[1..], b)
  }

  function Prepend(t: Tuple, b: seq<Tuple>): (r: seq<Tuple>)
    ensures |r| == |b| && forall i :: 0 <= i < |b| ==> r[i] == t + b[i]
  {
    seq(|b|, i requires 0 <= i < |b| => t + b[i])
  }

  // ---- Cross products associate ----

  lemma PrependConcat(t: Tuple, b: seq<Tuple>, c: seq<Tuple>)
    ensures Prepend(t, b + c) == Prepend(t, b) + Prepend(t, c)
  {
  }

  lemma {:induction false} CrossConcat(a: seq<Tuple>, b: seq<Tuple>, c: seq<Tuple>)
    ensures Cross(a + b, c) == Cross(a, c) + Cross(b, c)
  {
    if a == [] {
      assert a + b == b;
    } else {
      CrossConcat(a[1..], b, c);
      assert (a + b)[0] == a[0] && (a + b)[1..] == a[1..] + b;
      Associate(Prepend(a[0], c), Cross(a[1..], c), Cross(b, c));
    }
  }

  lemma Associate(x: seq<Tuple>, y: seq<Tuple>, z: seq<Tuple>)
    ensures (x + y) + z == x + (y + z)
  {
  }

  lemma {:induction false} CrossPrepend(t: Tuple, b: seq<Tuple>, c: seq<Tuple>)
    ensures Cross(Prepend(t, b), c) == Prepend(t, Cross(b, c))
  {
    if b != [] {
      CrossPrepend(t, b[1..], c);
      assert Prepend(t, b)[1..] == Prepend(t, b[1..]);
      assert Prepend(t + b[0], c) == Prepend(t, Prepend(b[0], c)) by {
        forall i | 0 <= i < |c| ensures Prepend(t + b[0], c)[i] == Prepend(t, Prepend(b[0], c))[i] {
          assert (t + b[0]) + c[i] == t + (b[0] + c[i]);
        }
      }
      PrependConcat(t, Prepend(b[0], c), Cross(b[1..], c));
    } else {
      assert Prepend(t, b) == [];
      assert Prepend(t, Cross(b, c)) == [];
    }
  }

  lemma {:induction false} CrossAssociates(a: seq<Tuple>, b: seq<Tuple>, c: seq<Tuple>)
    ensures Cross(Cross(a, b), c) == Cross(a, Cross(b, c))
  {
    if a != [] {
      CrossConcat(Prepend(a[0], b), Cross(a[1..], b), c);
      CrossPrepend(a[0], b, c);
      CrossAssociates(a[1..], b, c);
    }
  }

  lemma CrossUnitLeft(a: seq<Tuple>)
    ensures Cross([[]], a) == a
  {
    assert Cross([[]][1..], a) == [];
    assert Prepend([], a) == a by {
      forall i | 0 <= i < |a| ensures Prepend([], a)[i] == a[i] { assert [] + a[i] == a[i]; }
    }
  }

  lemma {:induction false} CrossUnitRight(a: seq<Tuple>)
    ensures Cross(a, [[]]) == a
  {
    if a != [] {
      CrossUnitRight(a[1..]);
      assert Prepend(a[0], [[]]) == [a[0] + []] && a[0] + [] == a[0];
    }
  }

  lemma {:induction false} CrossEmptyRight(a: seq<Tuple>)
    ensures Cross(a, []) == []
  {
    if a != [] { CrossEmptyRight(a[1..]); }
  }

  lemma {:induction false} EvaluateAllConcat(es: seq<KeyExpression>, fs: seq<KeyExpression>, r: Record)
    ensures EvaluateAll(es + fs, r) == Cross(EvaluateAll(es, r), EvaluateAll(fs, r))
  {
    if es == [] {
      assert es + fs == fs;
      CrossUnitLeft(EvaluateAll(fs, r));
    } else {
      EvaluateAllConcat(es[1..], fs, r);
      assert (es + fs)[1..] == es[1..] + fs;
      CrossAssociates(Evaluate(es[0], r), EvaluateAll(es[1..], r), EvaluateAll(fs, r));
    }
  }

  lemma EvaluateAllSingle(e: KeyExpression, r: Record)
    ensures EvaluateAll([e], r) == Evaluate(e, r)
  {
    assert [e][1..] == [];
    CrossUnitRight(Evaluate(e, r));
  }

  // ---- Which keys there are ----

  lemma Places(i: nat, j: nat, m: nat, n: nat)
    requires i < m && j < n
    ensures 0 <= i * n + j < m * n
  {
    assert (i + 1) * n <= m * n;
  }

  /** A cross product has each pair of a key of the first and a key of the second once, joined, and
      the second varies fastest. */
  lemma {:induction false} CrossAt(a: seq<Tuple>, b: seq<Tuple>, i: nat, j: nat)
    requires i < |a| && j < |b|
    ensures |Cross(a, b)| == |a| * |b| && i * |b| + j < |Cross(a, b)|
    ensures Cross(a, b)[i * |b| + j] == a[i] + b[j]
    decreases |a|
  {
    CrossSize(a, b);
    Places(i, j, |a|, |b|);
    if i > 0 {
      CrossAt(a[1..], b, i - 1, j);
      assert i * |b| + j == |b| + ((i - 1) * |b| + j);
      assert Cross(a, b)[|b| + ((i - 1) * |b| + j)] == Cross(a[1..], b)[(i - 1) * |b| + j];
    } else {
      assert Cross(a, b)[j] == Prepend(a[0], b)[j];
    }
  }

  lemma {:induction false} CrossSize(a: seq<Tuple>, b: seq<Tuple>)
    ensures |Cross(a, b)| == |a| * |b|
    decreases |a|
  {
    if a != [] {
      CrossSize(a[1..], b);
      assert |a| * |b| == |b| + (|a| - 1) * |b|;
    }
  }

  /** The keys of a concatenation: one for each choice of one key per child, the children's keys joined
      in order. */
  lemma ConcatKeysAt(e: KeyExpression, es: seq<KeyExpression>, r: Record, i: nat, j: nat)
    requires i < |Evaluate(e, r)| && j < |Evaluate(ConcatKey(es), r)|
    ensures var first, rest, keys := Evaluate(e, r), Evaluate(ConcatKey(es), r), Evaluate(ConcatKey([e] + es), r);
            |keys| == |first| * |rest| && i * |rest| + j < |keys| && keys[i * |rest| + j] == first[i] + rest[j]
    ensures Evaluate(ConcatKey([]), r) == [[]]
  {
    assert ([e] + es)[1..] == es;
    CrossAt(Evaluate(e, r), EvaluateAll(es, r), i, j);
  }

  /** The three ways to read a repeated field's values: a key for each; one key of one column that
      holds them all; the first of the keys. */
  lemma FansRelate(r: Record, name: string, nullStandalone: bool, vs: seq<Value>)
    requires name in r.fields && r.fields[name] == Repeated(vs) && vs != []
    ensures var each := Evaluate(FieldKey(name, FanOut, nullStandalone), r);
            |each| == |vs| && (forall i :: 0 <= i < |vs| ==> each[i] == [vs[i]]) &&
            Evaluate(FieldKey(name, FanNone, nullStandalone), r) == [each[0]] &&
            Evaluate(FieldKey(name, Concatenate, nullStandalone), r) == [[Tup(vs)]]
  {
  }

  /** Without a value there is the null key if the field stands alone as null, and else no key; only a
      concatenated list keeps its column when it is empty. */
  lemma MissingValues(r: Record, name: string, fan: FanType, nullStandalone: bool)
    requires name !in r.fields || r.fields[name] == Scalar(Null) || r.fields[name] == Repeated([])
    ensures var keys := Evaluate(FieldKey(name, fan, nullStandalone), r);
            if name in r.fields && r.fields[name].Repeated? && fan == Concatenate then keys == [[Tup([])]]
            else keys == if nullStandalone then [[Null]] else []
  {
  }

  /** Through a repeated message the keys are those of each message in turn. */
  lemma {:induction false} NestedKeysConcat(child: KeyExpression, a: seq<Record>, b: seq<Record>)
    ensures EvaluateEach(child, a + b) == EvaluateEach(child, a) + EvaluateEach(child, b)
    decreases |a|
  {
    if a == [] {
      assert a + b == b;
    } else {
      assert (a + b)[0] == a[0] && (a + b)[1..] == a[1..] + b;
      NestedKeysConcat(child, a[1..], b);
      Associate(Evaluate(child, a[0]), EvaluateEach(child, a[1..]), EvaluateEach(child, b));
    }
  }

  lemma NestedKeys(r: Record, parent: string, child: KeyExpression, before: seq<Record>, m: Record, later: seq<Record>)
    requires parent in r.fields && r.fields[parent] == Messages(before + [m] + later)
    ensures Evaluate(NestKey(parent, child), r)
         == EvaluateEach(child, before) + Evaluate(child, m) + EvaluateEach(child, later)
  {
    hide EvaluateEach;
    NestedKeysConcat(child, before + [m], later);
    NestedKeysConcat(child, before, [m]);
    NestedKeysOfOne(child, m);
  }

  lemma NestedKeysOfOne(child: KeyExpression, m: Record)
    ensures EvaluateEach(child, [m]) == Evaluate(child, m)
  {
    assert [m][1..] == [];
    assert EvaluateEach(child, [m]) == Evaluate(child, m) + [];
  }

  // ---- The loops of a concatenation ----

  /** Cross product by the code's two nested loops. */
  method CrossLoop(results: seq<Tuple>, childResults: seq<Tuple>) returns (newResults: seq<Tuple>)
    ensures newResults == Cross(results, childResults)
  {
    newResults := [];
    for i := 0 to |results|
      invariant newResults == Cross(results[..i], childResults)
    {
      for j := 0 to |childResults|
        invariant newResults == Cross(results[..i], childResults) + Prepend(results[i], childResults[..j])
      {
        newResults := newResults + [results[i] + childResults[j]];
        assert Prepend(results[i], childResults[..j + 1])
            == Prepend(results[i], childResults[..j]) + [results[i] + childResults[j]];
      }
      assert childResults[..|childResults|] == childResults;
      assert results[..i + 1] == results[..i] + [results[i]];
      CrossConcat(results[..i], [results[i]], childResults);
      assert Cross([results[i]], childResults) == Prepend(results[i], childResults) by {
        assert [results[i]][1..] == [];
      }
    }
    assert results[..|results|] == results;
  }

  /** ConcatenateKeyExpression.evaluate: folds the children's keys from the left and stops at
      the first child without keys. */
  method EvaluateConcat(children: seq<KeyExpression>, r: Record) returns (results: seq<Tuple>)
    ensures results == Evaluate(ConcatKey(children), r)
  {
    if children == [] {
      return [[]];
    }
    results := [[]];
    for i := 0 to |children|
      invariant results == EvaluateAll(children[..i], r)
    {
      var childResults := Evaluate(children[i], r);
      assert children[..i + 1] == children[..i] + [children[i]];
      EvaluateAllConcat(children[..i], [children[i]], r);
      EvaluateAllSingle(children[i], r);
      if childResults == [] {
        CrossEmptyRight(results);
        assert children == children[..i + 1] + children[i + 1..];
        EvaluateAllConcat(children[..i + 1], children[i + 1..], r);
        return [];
      }
      results := CrossLoop(results, childResults);
    }
    assert children[..|children|] == children;
  }

  // ---- Flattening ----

  function Normalize(e: KeyExpression): KeyExpression {
    match e
    case ConcatKey(children) =>
      var flattened := Flatten(children);
      if |flattened| == 0 then EmptyKey
      else if |flattened| == 1 then flattened[0]
      else ConcatKey(flattened)
    case _ => e
  }

  function Flatten(children: seq<KeyExpression>): seq<KeyExpression> {
    if children == [] then []
    else
      var normalized := Normalize(children[0]);
      (if normalized.ConcatKey? then normalized.children else [normalized]) + Flatten(children[1..])
  }

  lemma FlattenFrom(children: seq<KeyExpression>, i: nat, before: seq<KeyExpression>)
    requires i < |children|
    ensures var normalized := Normalize(children[i]);
            before + Flatten(children[i..])
            == before + (if normalized.ConcatKey? then normalized.children else [normalized]) + Flatten(children[i + 1..])
  {
    assert children[i..][0] == children[i] && children[i..][1..] == children[i + 1..];
  }

  /** ConcatenateKeyExpression.normalize, as the loop that extends one list. */
  method NormalizeConcat(children: seq<KeyExpression>) returns (e: KeyExpression)
    ensures e == Normalize(ConcatKey(children))
  {
    var flattened: seq<KeyExpression> := [];
    for i := 0 to |children|
      invariant flattened + Flatten(children[i..]) == Flatten(children)
    {
      var normalized := Normalize(children[i]);
      FlattenFrom(children, i, flattened);
      if normalized.ConcatKey? {
        flattened := flattened + normalized.children;
      } else {
        flattened := flattened + [normalized];
      }
    }
    assert flattened == Flatten(children);
    if |flattened| == 0 {
      e := EmptyKey;
    } else if |flattened| == 1 {
      e := flattened[0];
    } else {
      e := ConcatKey(flattened);
    }
  }

  predicate NoNestedConcat(e: KeyExpression) {
    e.ConcatKey? ==> forall i :: 0 <= i < |e.children| ==> !e.children[i].ConcatKey?
  }

  /** Flattening keeps every record's keys, in the same order, and the number of columns. */
  lemma {:induction false} NormalizePreservesKeys(e: KeyExpression, r: Record)
    ensures Evaluate(Normalize(e), r) == Evaluate(e, r)
    ensures ColumnSize(Normalize(e)) == ColumnSize(e)
    decreases e, 0
  {
    if e.ConcatKey? {
      FlattenPreservesKeys(e.children, r);
      var flattened := Flatten(e.children);
      if |flattened| == 1 {
        assert flattened == [flattened[0]];
        EvaluateAllSingle(flattened[0], r);
        assert flattened[1..] == [];
      }
    }
  }

  lemma {:induction false} FlattenPreservesKeys(children: seq<KeyExpression>, r: Record)
    ensures EvaluateAll(Flatten(children), r) == EvaluateAll(children, r)
    ensures ColumnSizes(Flatten(children)) == ColumnSizes(children)
    decreases children, 1
  {
    if children != [] {
      var normalized := Normalize(children[0]);
      var front := if normalized.ConcatKey? then normalized.children else [normalized];
      NormalizePreservesKeys(children[0], r);
      FlattenPreservesKeys(children[1..], r);
      EvaluateAllConcat(front, Flatten(children[1..]), r);
      ColumnSizesConcat(front, Flatten(children[1..]));
      if !normalized.ConcatKey? {
        EvaluateAllSingle(normalized, r);
        assert front[1..] == [];
      }
    }
  }

  lemma {:induction false} ColumnSizesConcat(es: seq<KeyExpression>, fs: seq<KeyExpression>)
    ensures ColumnSizes(es + fs) == ColumnSizes(es) + ColumnSizes(fs)
  {
    if es == [] {
      assert es + fs == fs;
    } else {
      ColumnSizesConcat(es[1..], fs);
      assert (es + fs)[1..] == es[1..] + fs;
    }
  }

  /** Flattening leaves no concatenation directly inside another. */
  lemma {:induction false} NormalizeFlattens(e: KeyExpression)
    ensures e.ConcatKey? ==> NoNestedConcat(Normalize(e))
    decreases e, 0
  {
    if e.ConcatKey? { FlattenHasNoConcat(e.children); }
  }

  lemma {:induction false} FlattenHasNoConcat(children: seq<KeyExpression>)
    ensures forall i :: 0 <= i < |Flatten(children)| ==> !Flatten(children)[i].ConcatKey?
    decreases children, 1
  {
    if children != [] {
      NormalizeFlattens(children[0]);
      FlattenHasNoConcat(children[1..]);
    }
  }

  // ---- Every key has the advertised number of columns ----

  predicate AllWide(keys: seq<Tuple>, n: nat) { forall i :: 0 <= i < |keys| ==> |keys[i]| == n }

  lemma {:induction false} KeysHaveColumnSize(e: KeyExpression, r: Record)
    ensures AllWide(Evaluate(e, r), ColumnSize(e))
    decreases e, 0, 0
  {
    match e
    case NestKey(parent, child) =>
      if parent in r.fields {
        match r.fields[parent]
        case Message(m) => KeysHaveColumnSize(child, m);
        case Messages(ms) => EachKeysHaveColumnSize(child, ms);
        case _ =>
      }
    case ConcatKey(children) => AllKeysHaveColumnSize(children, r);
    case _ =>
  }

  lemma {:induction false} EachKeysHaveColumnSize(e: KeyExpression, rs: seq<Record>)
    ensures AllWide(EvaluateEach(e, rs), ColumnSize(e))
    decreases e, 1, |rs|
  {
    if rs != [] {
      KeysHaveColumnSize(e, rs[0]);
      EachKeysHaveColumnSize(e, rs[1..]);
    }
  }

  lemma {:induction false} AllKeysHaveColumnSize(es: seq<KeyExpression>, r: Record)
    ensures AllWide(EvaluateAll(es, r), ColumnSizes(es))
    decreases es, 1, 0
  {
    if es != [] {
      KeysHaveColumnSize(es[0], r);
      AllKeysHaveColumnSize(es[1..], r);
      CrossIsWide(Evaluate(es[0], r), EvaluateAll(es[1..], r), ColumnSize(es[0]), ColumnSizes(es[1..]));
    }
  }

  lemma {:induction false} CrossIsWide(a: seq<Tuple>, b: seq<Tuple>, m: nat, n: nat)
    requires AllWide(a, m) && AllWide(b, n)
    ensures AllWide(Cross(a, b), m + n)
  {
    if a != [] { CrossIsWide(a[1..], b, m, n); }
  }

  // ---- Index entries ----

  /** IndexMaintainer.get_index_key: the index columns, the record's type, its primary key. */
  function FullKey(indexKey: Tuple, typeName: string, pk: Tuple): Tuple {
    indexKey + [Str(typeName)] + pk
  }

  /** What a scan reads back out of an entry, given the index's column count. */
  datatype Entry = Entry(indexKey: Tuple, typeColumn: Value, pk: Tuple)

  function Decode(full: Tuple, columns: nat): Entry
    requires columns < |full|
  {
    Entry(full[..columns], full[columns], full[columns + 1..])
  }

  /** Scanning inverts entry construction for every key of every expression. */
  lemma DecodeInvertsFullKey(e: KeyExpression, r: Record, i: nat, typeName: string, pk: Tuple)
    requires i < |Evaluate(e, r)|
    ensures var full := FullKey(Evaluate(e, r)[i], typeName, pk);
            ColumnSize(e) < |full| &&
            Decode(full, ColumnSize(e)) == Entry(Evaluate(e, r)[i], Str(typeName), pk)
  {
    KeysHaveColumnSize(e, r);
  }

  /** get_index_key's loop. */
  method GetIndexKey(root: KeyExpression, r: Record, pk: Tuple) returns (result: seq<Tuple>)
    ensures result == FullKeys(root, r, pk)
  {
    var indexKeys := Evaluate(root, r);
    result := [];
    for i := 0 to |indexKeys|
      invariant |result| == i
      invariant forall j :: 0 <= j < i ==> result[j] == FullKey(indexKeys[j], r.typeName, pk)
    {
      result := result + [indexKeys[i] + [Str(r.typeName)] + pk];
    }
  }

  function FullKeys(root: KeyExpression, r: Record, pk: Tuple): (keys: seq<Tuple>)
    ensures |keys| == |Evaluate(root, r)|
    ensures forall i :: 0 <= i < |keys| ==> keys[i] == FullKey(Evaluate(root, r)[i], r.typeName, pk)
  {
    var indexKeys := Evaluate(root, r);
    seq(|indexKeys|, i requires 0 <= i < |indexKeys| => FullKey(indexKeys[i], r.typeName, pk))
  }

  /** Entries of different records never coincide. */
  lemma FullKeysIdentifyRecord(root: KeyExpression, r: Record, pk: Tuple, r': Record, pk': Tuple, full: Tuple)
    requires full in FullKeys(root, r, pk) && full in FullKeys(root, r', pk')
    ensures r.typeName == r'.typeName && pk == pk'
  {
    var i :| 0 <= i < |FullKeys(root, r, pk)| && FullKeys(root, r, pk)[i] == full;
    var j :| 0 <= j < |FullKeys(root, r', pk')| && FullKeys(root, r', pk')[j] == full;
    DecodeInvertsFullKey(root, r, i, r.typeName, pk);
    DecodeInvertsFullKey(root, r', j, r'.typeName, pk');
  }
}
