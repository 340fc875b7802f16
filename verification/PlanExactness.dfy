// Running the planned tree returns exactly the records the filter holds of.
module PlanExactness {
  import opened Wrappers
  import opened Values
  import opened KeySpace
  import opened KeyExpressions
  import opened Indexes
  import opened RecordStore
  import opened ValueIndexScan
  import opened Decimal
  import opened Query
  import opened ScanBounds
  import opened Planner

  // ---- What is assumed of an index ----

  predicate PlainField(e: KeyExpression) { e.FieldKey? }

  /** A field, or a non-empty concatenation of fields. */
  predicate PlainRoot(e: KeyExpression) {
    PlainField(e) || (e.ConcatKey? && e.children != [] && forall j :: 0 <= j < |e.children| ==> PlainField(e.children[j]))
  }

  predicate HasScalar(r: Record, name: string) {
    name in r.fields && r.fields[name].Scalar? && r.fields[name].v != Null
  }

  function ScalarOf(r: Record, name: string): Value
    requires HasScalar(r, name)
  {
    r.fields[name].v
  }

  predicate HasScalars(r: Record, names: seq<string>) {
    forall j :: 0 <= j < |names| ==> HasScalar(r, names[j])
  }

  function Columns(r: Record, names: seq<string>): (cols: Tuple)
    requires HasScalars(r, names)
    ensures |cols| == |names| && forall j :: 0 <= j < |names| ==> cols[j] == ScalarOf(r, names[j])
  {
    seq(|names|, j requires 0 <= j < |names| => ScalarOf(r, names[j]))
  }

  /** A VALUE index over plain fields that all records of the type have.  It may cover other types too,
      whose records need not have the fields. */
  ghost predicate GoodIndex(i: Index, typeName: string, records: Records) {
    i.kind.ValueIndex? && Applies(i, typeName) && PlainRoot(i.root) &&
    forall k :: k in records && k.typeName == typeName ==> HasScalars(records[k], IndexFields(i))
  }

  ghost predicate GoodStore(meta: MetaData, st: State, typeName: string) {
    ValidState(meta, st) && typeName in meta.recordTypes &&
    forall n :: 0 <= n < |meta.indexes| && Applies(meta.indexes[n], typeName) ==>
      GoodIndex(meta.indexes[n], typeName, st.records) && IndexAgrees(meta, st, n)
  }

  /** The scans of a query over the type may come upon records of the other type. */
  predicate Sees(meta: MetaData, typeName: string, other: string) {
    other == typeName ||
    exists n :: 0 <= n < |meta.indexes| && Applies(meta.indexes[n], typeName) && Applies(meta.indexes[n], other)
  }

  /** No record the scans may come upon shares its primary key with a record of the type.  Where every
      index on the type covers that type alone, nothing is asked. */
  ghost predicate KeysApart(meta: MetaData, records: Records, typeName: string) {
    forall k, l :: k in records && l in records && k.typeName == typeName && Sees(meta, typeName, l.typeName) && k.pk == l.pk ==>
      l.typeName == typeName
  }

  lemma FieldHasOneKey(e: KeyExpression, r: Record)
    requires e.FieldKey? && HasScalar(r, e.fieldName)
    ensures Evaluate(e, r) == [[ScalarOf(r, e.fieldName)]]
  {
    var v := r.fields[e.fieldName].v;
    assert v.Str? || v.Tup? || v.Int?;
  }

  lemma CrossOfSingles(a: Tuple, b: Tuple)
    ensures Cross([a], [b]) == [a + b]
  {
    assert [a][1..] == [] && Cross([], [b]) == [];
    assert Prepend(a, [b]) == [a + b];
  }

  lemma PrependColumn(e: KeyExpression, es: seq<KeyExpression>, r: Record)
    requires e.FieldKey? && HasScalar(r, e.fieldName) && HasScalars(r, FieldNames(es))
    requires EvaluateAll(es, r) == [Columns(r, FieldNames(es))]
    ensures EvaluateAll([e] + es, r) == [Columns(r, [e.fieldName] + FieldNames(es))]
  {
    var v, tail := ScalarOf(r, e.fieldName), Columns(r, FieldNames(es));
    FieldHasOneKey(e, r);
    CrossOfSingles([v], tail);
    assert ([e] + es)[1..] == es;
    assert Columns(r, [e.fieldName] + FieldNames(es)) == [v] + tail;
  }

  lemma {:induction false} ConcatKeysAreColumns(es: seq<KeyExpression>, r: Record)
    requires forall j :: 0 <= j < |es| ==> PlainField(es[j])
    requires HasScalars(r, FieldNames(es))
    ensures |FieldNames(es)| == |es| == ColumnSizes(es)
    ensures EvaluateAll(es, r) == [Columns(r, FieldNames(es))]
  {
    if es != [] {
      hide Evaluate, EvaluateAll, Columns;
      FirstScalar(r, es);
      ConcatKeysAreColumns(es[1..], r);
      PrependColumn(es[0], es[1..], r);
      assert [es[0]] + es[1..] == es;
    } else {
      assert Columns(r, FieldNames(es)) == [];
    }
  }

  lemma FirstScalar(r: Record, es: seq<KeyExpression>)
    requires es != [] && PlainField(es[0]) && HasScalars(r, FieldNames(es))
    ensures FieldNames(es) == [es[0].fieldName] + FieldNames(es[1..])
    ensures HasScalar(r, es[0].fieldName) && HasScalars(r, FieldNames(es[1..]))
  {
    var names, rest := FieldNames(es), FieldNames(es[1..]);
    assert HasScalar(r, names[0]);
    assert forall j :: 0 <= j < |rest| ==> rest[j] == names[j + 1];
  }

  /** Such an index gives each record of the type one key, the values of its fields. */
  lemma OneKeyPerRecord(i: Index, r: Record)
    requires PlainRoot(i.root) && HasScalars(r, IndexFields(i))
    ensures IndexFields(i) != [] && ColumnSize(i.root) == |IndexFields(i)|
    ensures Evaluate(i.root, r) == [Columns(r, IndexFields(i))]
  {
    if i.root.ConcatKey? {
      ConcatKeysAreColumns(i.root.children, r);
    } else {
      assert HasScalar(r, IndexFields(i)[0]);
      FieldHasOneKey(i.root, r);
      assert Columns(r, IndexFields(i)) == [ScalarOf(r, i.root.fieldName)];
    }
  }

  // ---- What an index scan returns ----

  /** The columns meet the equalities and the folded bounds. */
  predicate ColumnsInScan(s: ScanComparisons, cols: Tuple)
    requires |s.equalities| <= |cols| && (s.inequalities != [] ==> |s.equalities| < |cols|)
  {
    var b := BoundsOf(s);
    cols[..|s.equalities|] == b.prefix &&
    (s.inequalities != [] ==>
       AboveLowScanned(b.low, cols[|s.equalities|]) && BelowHigh(b.high, cols[|s.equalities|]))
  }

  predicate FitsFields(s: ScanComparisons, names: seq<string>) {
    |s.equalities| <= |names| && (s.inequalities != [] ==> |s.equalities| < |names|)
  }

  lemma EntryInRangeIff(s: ScanComparisons, cols: Tuple, typeName: string, pk: Tuple)
    requires |s.equalities| <= |cols| && (s.inequalities != [] ==> |s.equalities| < |cols|)
    ensures InRange(ToScanRange(BoundsOf(s)), FullKey(cols, typeName, pk)) <==> ColumnsInScan(s, cols)
  {
    var key := FullKey(cols, typeName, pk);
    var b := BoundsOf(s);
    var m := |s.equalities|;
    assert key[..m] == cols[..m];
    if s.inequalities != [] {
      assert key[m] == cols[m];
    }
    RangeIsPrefixAndBounds(b, key);
  }

  ghost predicate NoRepeats(keys: seq<RecordKey>) {
    forall a, b :: 0 <= a < b < |keys| ==> keys[a] != keys[b]
  }

  /** The result lists exactly the records of the type the filter holds of, each once. */
  ghost predicate Exact(result: seq<RecordKey>, st: State, typeName: string, q: Component) {
    NoRepeats(result) &&
    forall k :: k in result <==> k in st.records && k.typeName == typeName && Holds(q, st.records[k])
  }

  ghost predicate NoRepeatsOf(keys: seq<RecordKey>, typeName: string) {
    forall a, b :: 0 <= a < b < |keys| && keys[a].typeName == typeName ==> keys[a] != keys[b]
  }

  /** As far as the type goes, the result lists exactly the records the filter holds of, each once;
      records of other types may stand between them. */
  ghost predicate Answers(result: seq<RecordKey>, meta: MetaData, st: State, typeName: string, q: Component) {
    NoRepeatsOf(result, typeName) && AllSeen(result, meta, st.records, typeName) &&
    forall k: RecordKey | k.typeName == typeName :: k in result <==> k in st.records && Holds(q, st.records[k])
  }

  ghost predicate AllSeen(result: seq<RecordKey>, meta: MetaData, records: Records, typeName: string) {
    forall k :: k in result ==> k in records && Sees(meta, typeName, k.typeName)
  }

  /** The entry a stored record of the type has in a good index. */
  lemma EntryOfRecord(i: Index, c: Content, records: Records, typeName: string, k: RecordKey)
    requires GoodIndex(i, typeName, records) && Agrees(i, c, records) && WellTyped(records)
    requires k in records && k.typeName == typeName
    ensures FullKey(Columns(records[k], IndexFields(i)), typeName, k.pk) in c.entries
    ensures LoadEntry(FullKey(Columns(records[k], IndexFields(i)), typeName, k.pk), ColumnSize(i.root), records) == Some(k)
  {
    OneKeyPerRecord(i, records[k]);
    var entry := FullKey(Columns(records[k], IndexFields(i)), typeName, k.pk);
    var keys := FullKeys(i.root, records[k], k.pk);
    assert keys[0] == entry;
    assert entry in keys;
    assert Contributes(i, records, k, entry, 0);
    assert Expected(i, records, entry, 0);
    assert entry[|IndexFields(i)| + 1..] == k.pk;
  }

  /** Every entry loads the record it is an entry of. */
  lemma EntryLoadsItsRecord(i: Index, c: Content, records: Records, entry: Tuple)
    requires i.kind.ValueIndex? && Agrees(i, c, records) && WellTyped(records)
    requires entry in c.entries
    ensures LoadEntry(entry, ColumnSize(i.root), records).Some?
    ensures var k := LoadEntry(entry, ColumnSize(i.root), records).value;
            k in records && Applies(i, k.typeName) && entry in FullKeys(i.root, records[k], k.pk)
  {
    assert Expected(i, records, entry, c.entries[entry]);
    var k :| Contributes(i, records, k, entry, c.entries[entry]);
    var keys := FullKeys(i.root, records[k], k.pk);
    var j :| 0 <= j < |keys| && keys[j] == entry;
    DecodeInvertsFullKey(i.root, records[k], j, k.typeName, k.pk);
  }

  /** A record of the type has one entry. */
  lemma RecordOfEntry(i: Index, c: Content, records: Records, typeName: string, entry: Tuple)
    requires GoodIndex(i, typeName, records) && Agrees(i, c, records) && WellTyped(records)
    requires entry in c.entries
    ensures LoadEntry(entry, ColumnSize(i.root), records).Some?
    ensures var k := LoadEntry(entry, ColumnSize(i.root), records).value;
            k in records && Applies(i, k.typeName) &&
            (k.typeName == typeName ==>
              HasScalars(records[k], IndexFields(i)) && entry == FullKey(Columns(records[k], IndexFields(i)), typeName, k.pk))
  {
    EntryLoadsItsRecord(i, c, records, entry);
    var k := LoadEntry(entry, ColumnSize(i.root), records).value;
    if k.typeName == typeName {
      OneKeyPerRecord(i, records[k]);
    }
  }

  /** An index scan returns each record of the type whose columns meet the comparisons, once. */
  lemma ScanIndexExact(i: Index, c: Content, records: Records, typeName: string, s: ScanComparisons)
    requires GoodIndex(i, typeName, records) && Agrees(i, c, records) && WellTyped(records)
    requires FitsFields(s, IndexFields(i))
    ensures var result := ScanIndex(i, c, records, s);
            NoRepeatsOf(result, typeName) &&
            (forall k :: k in result ==> k in records && Applies(i, k.typeName)) &&
            forall k: RecordKey | k.typeName == typeName :: k in result <==>
              k in records && HasScalars(records[k], IndexFields(i)) && ColumnsInScan(s, Columns(records[k], IndexFields(i)))
  {
    hide TupleLess, Less, ToScanRange, BoundsOf, ColumnsInScan, Sorted;
    var range := ToScanRange(BoundsOf(s));
    var inRange := set e | e in c.entries.Keys && InCuts(RangeBegin(range), RangeEnd(range), e);
    var keys := KeysBetween(c.entries.Keys, RangeBegin(range), RangeEnd(range));
    var columns := ColumnSize(i.root);
    var result := ScanIndex(i, c, records, s);
    SortedIsSorted(inRange);
    forall j | 0 <= j < |keys|
      ensures LoadEntry(keys[j], columns, records).Some?
      ensures Applies(i, LoadEntry(keys[j], columns, records).value.typeName)
    {
      assert keys[j] in keys;
      RecordOfEntry(i, c, records, typeName, keys[j]);
    }
    LoadEntriesSize(keys, columns, records);
    forall a, b | 0 <= a < b < |result| && result[a].typeName == typeName ensures result[a] != result[b] {
      assert keys[a] in keys && keys[b] in keys;
      RecordOfEntry(i, c, records, typeName, keys[a]);
      RecordOfEntry(i, c, records, typeName, keys[b]);
      TupleLessTotal(keys[a], keys[b]);
    }
    forall k: RecordKey | k.typeName == typeName
      ensures k in result <==>
        k in records && HasScalars(records[k], IndexFields(i)) && ColumnsInScan(s, Columns(records[k], IndexFields(i)))
    {
      if k in result {
        var j :| 0 <= j < |result| && result[j] == k;
        assert keys[j] in keys;
        RecordOfEntry(i, c, records, typeName, keys[j]);
        EntryInRangeIff(s, Columns(records[k], IndexFields(i)), typeName, k.pk);
      }
      if k in records && ColumnsInScan(s, Columns(records[k], IndexFields(i))) {
        EntryOfRecord(i, c, records, typeName, k);
        EntryInRangeIff(s, Columns(records[k], IndexFields(i)), typeName, k.pk);
        var entry := FullKey(Columns(records[k], IndexFields(i)), typeName, k.pk);
        assert entry in keys;
        var j :| 0 <= j < |keys| && keys[j] == entry;
        assert result[j] == k;
      }
    }
  }

  // ---- Which comparisons an index scan answers exactly ----

  /** A single comparison is answered exactly by the scan it becomes, on every non-null value. */
  predicate ExactComparison(c: Comparison) {
    match c.kind
    case Equals => true
    case LessThan => true
    case LessThanOrEquals => true
    case GreaterThanOrEquals => true
    case IsNotNull => true
    case IsNull => c.value == Null
    case NotEquals => c.value == Null
    case GreaterThan => c.value == Null
    case NotIn => forall j :: 0 <= j < |c.values| ==> c.values[j] == Null
    case EndsWith => Text(c.value) == ""
    case Contains => Text(c.value) == ""
    case StartsWith => false
    case In => false
  }

  /** The values the scan of a lone comparison admits. */
  predicate Scanned(c: Comparison, v: Value) { ColumnsInScan(FromComparison(c), [v]) }

  lemma FoldOne(c: Comparison)
    ensures FoldLow([c]) == TightenLow(Unbounded, c) && FoldHigh([c]) == TightenHigh(Unbounded, c)
    ensures FoldLow([]) == Unbounded && FoldHigh([]) == Unbounded
  {
    assert [c][..0] == [];
  }

  lemma ScannedMeaning(c: Comparison, v: Value)
    ensures Scanned(c, v) <==>
      if IsEquality(c.kind) then v == c.value
      else if IsInequality(c.kind) then
        AboveLowScanned(TightenLow(Unbounded, c), v) && BelowHigh(TightenHigh(Unbounded, c), v)
      else true
  {
    FoldOne(c);
    assert [v][..0] == [] && [v][..1] == [v];
    assert Operands([c]) == [c.value] && Operands([]) == [];
  }

  lemma ExactComparisonScans(c: Comparison, v: Value)
    requires ExactComparison(c) && v != Null
    ensures Scanned(c, v) <==> Satisfies(c, v)
  {
    ScannedMeaning(c, v);
    match c.kind
    case GreaterThan => LessTotal(Null, v);
    case EndsWith => assert Text(v)[|Text(v)|..] == "";
    case Contains => assert "" <= Text(v);
    case _ =>
  }

  /** A value on which the scan and the comparison disagree. */
  lemma InexactComparisonWitness(c: Comparison) returns (v: Value)
    requires !ExactComparison(c)
    ensures v != Null && (Scanned(c, v) <==> !Satisfies(c, v))
  {
    match c.kind
    case IsNull | NotEquals =>
      v := c.value;
      ScannedMeaning(c, v);
    case GreaterThan =>
      v := c.value;
      LessTotal(v, v);
      ScannedMeaning(c, v);
    case NotIn =>
      var j :| 0 <= j < |c.values| && c.values[j] != Null;
      v := c.values[j];
      ScannedMeaning(c, v);
    case EndsWith | Contains =>
      v := Str("");
      ScannedMeaning(c, v);
    case In =>
      var n := FreshInt(c.values);
      v := Int(n);
      ScannedMeaning(c, v);
    case StartsWith =>
      match c.value {
        case Null => v := Str("None");
        case Str(p) =>
          v := Str(p + "\U{0100}");
          StrLessAfterPrefix(p, "\U{00FF}", "\U{0100}");
          StrLessTotal(p + "\U{00FF}", p + "\U{0100}");
        case Int(i) => v := Str(IntText(i));
        case Tup(_) => v := Str("");
      }
      ScannedMeaning(c, v);
  }

  lemma {:induction false} StrLessAfterPrefix(p: string, a: string, b: string)
    ensures StrLess(p + a, p + b) <==> StrLess(a, b)
    decreases |p|
  {
    if p == "" {
      assert p + a == a && p + b == b;
    } else {
      StrLessAfterPrefix(p[1..], a, b);
      assert (p + a)[1..] == p[1..] + a && (p + b)[1..] == p[1..] + b;
      assert (p + a)[0] == p[0] == (p + b)[0];
    }
  }

  // ---- A lone comparison ----

  lemma ColumnsOfFirst(c: Comparison, cols: Tuple)
    requires cols != []
    ensures FitsScan(FromComparison(c), |cols|)
    ensures ColumnsInScan(FromComparison(c), cols) <==> Scanned(c, cols[0])
  {
    assert cols[..1] == [cols[0]] && cols[..0] == [] && [cols[0]][..1] == [cols[0]] && [cols[0]][..0] == [];
  }

  predicate FitsScan(s: ScanComparisons, n: nat) {
    |s.equalities| <= n && (s.inequalities != [] ==> |s.equalities| < n)
  }

  /** The scan of a lone comparison on an index's first field. */
  lemma LoneScanResult(meta: MetaData, st: State, typeName: string, n: nat, c: Comparison)
    requires GoodStore(meta, st, typeName) && n < |meta.indexes| && Applies(meta.indexes[n], typeName)
    ensures IndexFields(meta.indexes[n]) != []
    ensures var result := Execute(IndexScan(meta.indexes[n].name, FromComparison(c)), meta, st);
            var name := IndexFields(meta.indexes[n])[0];
            NoRepeatsOf(result, typeName) && AllSeen(result, meta, st.records, typeName) &&
            forall k: RecordKey | k.typeName == typeName :: k in result <==>
              k in st.records && HasScalar(st.records[k], name) && Scanned(c, ScalarOf(st.records[k], name))
  {
    var i := meta.indexes[n];
    FindDistinct(meta.indexes, n);
    PlainRootHasFields(i);
    ColumnsOfFirst(c, [Null]);
    ScanIndexExact(i, st.contents[i.name], st.records, typeName, FromComparison(c));
    var result := Execute(IndexScan(i.name, FromComparison(c)), meta, st);
    forall k: RecordKey | k.typeName == typeName
      ensures k in result <==>
        k in st.records && HasScalar(st.records[k], IndexFields(i)[0]) && Scanned(c, ScalarOf(st.records[k], IndexFields(i)[0]))
    {
      if k in st.records {
        ColumnsOfFirst(c, Columns(st.records[k], IndexFields(i)));
      }
    }
  }

  lemma PlainRootHasFields(i: Index)
    requires PlainRoot(i.root)
    ensures IndexFields(i) != []
  {
  }

  lemma LoneScanIsExact(meta: MetaData, st: State, typeName: string, n: nat, c: Comparison)
    requires GoodStore(meta, st, typeName) && n < |meta.indexes| && Applies(meta.indexes[n], typeName)
    requires ExactComparison(c) && IndexFields(meta.indexes[n]) != []
    ensures Answers(Execute(IndexScan(meta.indexes[n].name, FromComparison(c)), meta, st), meta, st, typeName,
                  FieldIs(IndexFields(meta.indexes[n])[0], c))
  {
    var name := IndexFields(meta.indexes[n])[0];
    LoneScanResult(meta, st, typeName, n, c);
    forall k | k in st.records && k.typeName == typeName
      ensures HasScalar(st.records[k], name) &&
              (Holds(FieldIs(name, c), st.records[k]) <==> Scanned(c, ScalarOf(st.records[k], name)))
    {
      ExactComparisonScans(c, ScalarOf(st.records[k], name));
    }
  }

  // ---- Conjunctions ----

  /** What _match_index has collected for an index: one predicate per leading field, equalities
      first, then at most one inequality. */
  ghost predicate Matches(m: Match, names: seq<string>, preds: seq<Component>) {
    var eqs, ineqs := m.comparisons.equalities, m.comparisons.inequalities;
    |ineqs| <= 1 && |eqs| + |ineqs| <= |names| && |m.matched| == |eqs| + |ineqs| &&
    (forall j :: 0 <= j < |m.matched| ==> m.matched[j] in preds) &&
    (forall j :: 0 <= j < |eqs| ==> m.matched[j] == FieldIs(names[j], eqs[j]) && IsEquality(eqs[j].kind)) &&
    (ineqs != [] ==> m.matched[|eqs|] == FieldIs(names[|eqs|], ineqs[0]) && IsInequality(ineqs[0].kind))
  }

  lemma {:induction false} MatchFieldsMatches(names: seq<string>, j: nat, preds: seq<Component>, m: Match)
    requires AreFields(preds) && j <= |names|
    requires Matches(m, names, preds) && |m.comparisons.equalities| == j && m.comparisons.inequalities == []
    ensures Matches(MatchFields(names[j..], preds, m), names, preds)
    decreases |names| - j
  {
    if j < |names| {
      var rest := names[j..];
      assert rest[0] == names[j] && rest[1..] == names[j + 1..];
      PredicatesOnField(preds, names[j]);
      var on := PredicatesOn(preds, names[j]);
      FirstEqualityIsField(on);
      LastInequalityIsField(on);
      var equality := FirstEquality(on);
      if equality.Some? {
        var next := Match(m.comparisons.(equalities := m.comparisons.equalities + [equality.value.comparison]),
                          m.matched + [equality.value], m.score + 10);
        assert equality.value == FieldIs(names[j], equality.value.comparison);
        MatchFieldsMatches(names, j + 1, preds, next);
      }
    }
  }

  predicate ExactAll(cs: seq<Comparison>) { forall j :: 0 <= j < |cs| ==> ExactComparison(cs[j]) }

  /** The matched predicates hold exactly when the record's columns are in the scan. */
  lemma MatchedMeaning(m: Match, names: seq<string>, preds: seq<Component>, r: Record)
    requires Matches(m, names, preds) && HasScalars(r, names)
    requires ExactAll(m.comparisons.equalities) && ExactAll(m.comparisons.inequalities)
    ensures EachHolds(m.matched, r) <==> ColumnsInScan(m.comparisons, Columns(r, names))
  {
    hide ExactComparison;
    var eqs, ineqs := m.comparisons.equalities, m.comparisons.inequalities;
    var cols := Columns(r, names);
    forall j | 0 <= j < |eqs| ensures Holds(m.matched[j], r) <==> cols[j] == eqs[j].value {
      assert HasScalar(r, names[j]);
      MatchedEquality(names[j], eqs[j], r);
    }
    assert cols[..|eqs|] == Operands(eqs) <==> forall j :: 0 <= j < |eqs| ==> cols[j] == Operands(eqs)[j];
    if ineqs != [] {
      assert HasScalar(r, names[|eqs|]);
      var c, v := ineqs[0], cols[|eqs|];
      assert Holds(m.matched[|eqs|], r) <==> Satisfies(c, v);
      InequalityScans(c, v);
      assert ineqs == [ineqs[0]];
    }
    assert EachHolds(m.matched, r) <==>
      (forall j :: 0 <= j < |eqs| ==> Holds(m.matched[j], r)) && (ineqs != [] ==> Holds(m.matched[|eqs|], r));
  }

  lemma MatchedEquality(name: string, c: Comparison, r: Record)
    requires HasScalar(r, name) && IsEquality(c.kind) && ExactComparison(c)
    ensures Holds(FieldIs(name, c), r) <==> ScalarOf(r, name) == c.value
  {
  }

  lemma InequalityScans(c: Comparison, v: Value)
    requires v != Null && IsInequality(c.kind) && ExactComparison(c)
    ensures Satisfies(c, v) <==> AboveLowScanned(FoldLow([c]), v) && BelowHigh(FoldHigh([c]), v)
  {
    hide ExactComparison, Satisfies;
    ExactComparisonScans(c, v);
    ScannedMeaning(c, v);
    FoldOne(c);
  }

  lemma {:induction false} WithoutHolds(preds: seq<Component>, matched: seq<Component>, r: Record)
    requires EachHolds(matched, r)
    ensures EachHolds(Without(preds, matched), r) <==> EachHolds(preds, r)
  {
    if preds != [] {
      WithoutHolds(preds[1..], matched, r);
      EachHoldsFirst(preds, r);
      if preds[0] !in matched {
        EachHoldsFirst([preds[0]] + Without(preds[1..], matched), r);
        assert ([preds[0]] + Without(preds[1..], matched))[1..] == Without(preds[1..], matched);
      } else {
        assert [] + Without(preds[1..], matched) == Without(preds[1..], matched);
      }
    }
  }

  lemma {:induction false} FieldsAndOthersHold(children: seq<Component>, r: Record)
    ensures EachHolds(children, r) <==> EachHolds(Fields(children), r) && EachHolds(Others(children), r)
  {
    if children != [] {
      FieldsAndOthersHold(children[1..], r);
      EachHoldsFirst(children, r);
      var c := children[0];
      if c.FieldIs? {
        EachHoldsFirst([c] + Fields(children[1..]), r);
        assert ([c] + Fields(children[1..]))[1..] == Fields(children[1..]);
        assert [] + Others(children[1..]) == Others(children[1..]);
      } else {
        EachHoldsFirst([c] + Others(children[1..]), r);
        assert ([c] + Others(children[1..]))[1..] == Others(children[1..]);
        assert [] + Fields(children[1..]) == Fields(children[1..]);
      }
    }
  }

  /** The matched predicates and the residual together are the whole conjunction. */
  lemma ResidualHolds(q: Component, m: Match, r: Record)
    requires q.And? && forall j :: 0 <= j < |m.matched| ==> m.matched[j] in Fields(q.children)
    ensures Holds(q, r) <==> EachHolds(m.matched, r) && EachHolds(Without(Fields(q.children), m.matched) + Others(q.children), r)
  {
    var fields, others := Fields(q.children), Others(q.children);
    FieldsAndOthersHold(q.children, r);
    EachHoldsConcat(Without(fields, m.matched), others, r);
    if EachHolds(m.matched, r) {
      WithoutHolds(fields, m.matched, r);
    }
    MembersHold(m.matched, fields, r);
  }

  lemma MembersHold(some: seq<Component>, all: seq<Component>, r: Record)
    requires forall j :: 0 <= j < |some| ==> some[j] in all
    ensures EachHolds(all, r) ==> EachHolds(some, r)
  {
  }

  lemma CombineHolds(preds: seq<Component>, r: Record)
    requires preds != []
    ensures Holds(Combine(preds), r) <==> EachHolds(preds, r)
  {
  }

  // ---- Filters and scans ----

  lemma {:induction false} KeepHoldingMembers(keys: seq<RecordKey>, records: Records, q: Component, typeName: string)
    requires NoRepeatsOf(keys, typeName)
    ensures NoRepeatsOf(KeepHolding(keys, records, q), typeName)
    ensures forall k :: k in KeepHolding(keys, records, q) <==> k in keys && k in records && Holds(q, records[k])
  {
    if keys != [] {
      var rest := keys[1..];
      KeepHoldingMembers(rest, records, q, typeName);
      var kept := KeepHolding(rest, records, q);
      assert keys == [keys[0]] + rest;
      assert keys[0].typeName == typeName ==> keys[0] !in rest;
      assert forall j :: 0 <= j < |kept| ==> kept[j] in kept;
    }
  }

  lemma {:induction false} KeepTypeMembers(keys: seq<RecordKey>, typeName: string)
    requires NoRepeatsOf(keys, typeName)
    ensures NoRepeats(KeepTypes(keys, [typeName]))
    ensures forall k :: k in KeepTypes(keys, [typeName]) <==> k in keys && k.typeName == typeName
  {
    if keys != [] {
      var rest := keys[1..];
      KeepTypeMembers(rest, typeName);
      var kept := KeepTypes(rest, [typeName]);
      assert keys == [keys[0]] + rest;
      assert keys[0].typeName == typeName ==> keys[0] !in rest;
      assert forall j :: 0 <= j < |kept| ==> kept[j] in kept;
    }
  }

  lemma ScanOfTypeMembers(records: Records, typeName: string)
    ensures NoRepeats(ScanOfType(records, typeName))
    ensures forall k :: k in ScanOfType(records, typeName) <==> k in records && k.typeName == typeName
  {
    var pks := PksOf(records, typeName);
    SortedIsSorted(pks);
    var sorted, scan := Sorted(pks), ScanOfType(records, typeName);
    forall a, b | 0 <= a < b < |scan| ensures scan[a] != scan[b] {
      TupleLessTotal(sorted[a], sorted[b]);
    }
    forall k ensures k in scan <==> k in records && k.typeName == typeName {
      if k in records && k.typeName == typeName {
        assert k.pk in sorted;
        var j :| 0 <= j < |sorted| && sorted[j] == k.pk;
        assert scan[j] == k;
      }
      if k in scan {
        var j :| 0 <= j < |scan| && scan[j] == k;
        assert sorted[j] in sorted;
      }
    }
  }

  lemma FilteredScanExact(meta: MetaData, st: State, typeName: string, q: Component)
    requires GoodStore(meta, st, typeName)
    ensures Answers(Execute(FilterBy(ScanPlanFor([typeName]), q), meta, st), meta, st, typeName, q)
  {
    ScanOfTypeMembers(st.records, typeName);
    KeepHoldingMembers(ScanOfType(st.records, typeName), st.records, q, typeName);
  }

  // ---- The theorem ----

  predicate OnIndexedField(q: Component, indexes: seq<Index>) {
    q.FieldIs? && exists n :: 0 <= n < |indexes| && q.fieldName in IndexFields(indexes[n])
  }

  /** Comparisons that may reach an index scan are ones it answers: any comparison standing alone on
      an indexed field, and the equalities and inequalities of a conjunction. */
  predicate Answerable(q: Component, indexes: seq<Index>) {
    match q
    case FieldIs(_, c) => OnIndexedField(q, indexes) ==> ExactComparison(c)
    case And(children) => forall j :: 0 <= j < |children| ==>
      OnIndexedField(children[j], indexes) ==>
        (IsEquality(children[j].comparison.kind) || IsInequality(children[j].comparison.kind)) ==>
          ExactComparison(children[j].comparison)
    case Or(children) => forall j :: 0 <= j < |children| ==> Answerable(children[j], indexes)
    case _ => true
  }

  lemma {:induction false} IndexesForMembers(indexes: seq<Index>, typeName: string, n: nat)
    requires n < |IndexesFor(indexes, typeName)|
    ensures exists m :: 0 <= m < |indexes| && indexes[m] == IndexesFor(indexes, typeName)[n] && Applies(indexes[m], typeName)
  {
    if Applies(indexes[0], typeName) && n == 0 {
      assert indexes[0] == IndexesFor(indexes, typeName)[0];
    } else {
      var n' := if Applies(indexes[0], typeName) then n - 1 else n;
      IndexesForMembers(indexes[1..], typeName, n');
      var m :| 0 <= m < |indexes[1..]| && indexes[1..][m] == IndexesFor(indexes[1..], typeName)[n'] && Applies(indexes[1..][m], typeName);
      assert indexes[m + 1] == indexes[1..][m];
    }
  }

  lemma {:induction false} FieldsAreChildren(children: seq<Component>)
    ensures forall f :: f in Fields(children) ==> f in children
  {
    if children != [] {
      FieldsAreChildren(children[1..]);
      assert children == [children[0]] + children[1..];
    }
  }

  lemma PlanAndExact(meta: MetaData, st: State, typeName: string, q: Component)
    requires GoodStore(meta, st, typeName) && q.And?
    requires Answerable(q, IndexesFor(meta.indexes, typeName))
    ensures Answers(Execute(PlanAnd(q, IndexesFor(meta.indexes, typeName), [typeName]), meta, st), meta, st, typeName, q)
  {
    var indexes := IndexesFor(meta.indexes, typeName);
    var fields := Fields(q.children);
    var best := BestIndex(indexes, fields);
    if best.None? {
      FilteredScanExact(meta, st, typeName, q);
    } else {
      var i := indexes[best.value];
      IndexesForMembers(meta.indexes, typeName, best.value);
      var n :| 0 <= n < |meta.indexes| && meta.indexes[n] == i && Applies(meta.indexes[n], typeName);
      FindDistinct(meta.indexes, n);
      var names := IndexFields(i);
      assert names[0..] == names;
      MatchFieldsMatches(names, 0, fields, NO_MATCH);
      var m := MatchFields(names, fields, NO_MATCH);
      MatchedAreExact(q, indexes, best.value, m);
      MatchedScanExact(meta, st, typeName, q, n, m);
    }
  }

  lemma AnswerableChild(q: Component, indexes: seq<Index>, n: nat, l: nat)
    requires q.And? && Answerable(q, indexes) && n < |indexes| && l < |q.children|
    requires q.children[l].FieldIs? && q.children[l].fieldName in IndexFields(indexes[n])
    requires IsEquality(q.children[l].comparison.kind) || IsInequality(q.children[l].comparison.kind)
    ensures ExactComparison(q.children[l].comparison)
  {
    assert OnIndexedField(q.children[l], indexes);
  }

  lemma {:induction false} MatchedIsExact(q: Component, indexes: seq<Index>, n: nat, m: Match, j: nat)
    requires q.And? && Answerable(q, indexes) && n < |indexes| && j < |m.matched|
    requires Matches(m, IndexFields(indexes[n]), Fields(q.children))
    ensures ExactComparison(m.matched[j].comparison)
  {
    MatchedOf(m, IndexFields(indexes[n]), Fields(q.children), j);
    FieldsAreChildren(q.children);
    hide *;
    var l :| 0 <= l < |q.children| && q.children[l] == m.matched[j];
    AnswerableChild(q, indexes, n, l);
  }

  lemma MatchedOf(m: Match, names: seq<string>, preds: seq<Component>, j: nat)
    requires Matches(m, names, preds) && j < |m.matched|
    ensures m.matched[j] in preds && m.matched[j].FieldIs? && m.matched[j].fieldName in names
    ensures IsEquality(m.matched[j].comparison.kind) || IsInequality(m.matched[j].comparison.kind)
  {
    assert m.matched[j].fieldName == names[j];
  }

  lemma {:induction false} MatchedAreExact(q: Component, indexes: seq<Index>, n: nat, m: Match)
    requires q.And? && Answerable(q, indexes) && n < |indexes|
    requires Matches(m, IndexFields(indexes[n]), Fields(q.children))
    ensures ExactAll(m.comparisons.equalities) && ExactAll(m.comparisons.inequalities)
  {
    hide Answerable, ExactComparison;
    forall j | 0 <= j < |m.matched| ensures ExactComparison(m.matched[j].comparison) {
      MatchedIsExact(q, indexes, n, m, j);
    }
    AllMatchedExact(m, IndexFields(indexes[n]), Fields(q.children));
  }

  lemma AllMatchedExact(m: Match, names: seq<string>, preds: seq<Component>)
    requires Matches(m, names, preds)
    requires forall j :: 0 <= j < |m.matched| ==> ExactComparison(m.matched[j].comparison)
    ensures ExactAll(m.comparisons.equalities) && ExactAll(m.comparisons.inequalities)
  {
    var eqs, ineqs := m.comparisons.equalities, m.comparisons.inequalities;
    forall j | 0 <= j < |eqs| ensures ExactComparison(eqs[j]) {
      assert m.matched[j].comparison == eqs[j];
    }
    if ineqs != [] { assert m.matched[|eqs|].comparison == ineqs[0]; }
  }

  /** The scan for the matched predicates, filtered by the residual, is the conjunction. */
  lemma MatchedScanExact(meta: MetaData, st: State, typeName: string, q: Component, n: nat, m: Match)
    requires GoodStore(meta, st, typeName) && q.And?
    requires n < |meta.indexes| && Applies(meta.indexes[n], typeName)
    requires Matches(m, IndexFields(meta.indexes[n]), Fields(q.children))
    requires ExactAll(m.comparisons.equalities) && ExactAll(m.comparisons.inequalities)
    ensures var scan := IndexScan(meta.indexes[n].name, m.comparisons);
            var residual := Without(Fields(q.children), m.matched) + Others(q.children);
            var plan := if residual == [] then scan else FilterBy(scan, Combine(residual));
            Answers(Execute(plan, meta, st), meta, st, typeName, q)
  {
    hide Answers, ExactAll, Without, Others, Fields, GoodIndex;
    FindDistinct(meta.indexes, n);
    MatchedScanMembers(meta, st, typeName, q, n, m);
    ResidualExact(Execute(IndexScan(meta.indexes[n].name, m.comparisons), meta, st), meta, st, typeName, q, m);
  }

  lemma MatchedScanMembers(meta: MetaData, st: State, typeName: string, q: Component, n: nat, m: Match)
    requires GoodStore(meta, st, typeName) && q.And?
    requires n < |meta.indexes| && Applies(meta.indexes[n], typeName)
    requires Matches(m, IndexFields(meta.indexes[n]), Fields(q.children))
    requires ExactAll(m.comparisons.equalities) && ExactAll(m.comparisons.inequalities)
    ensures var scanned := Execute(IndexScan(meta.indexes[n].name, m.comparisons), meta, st);
            NoRepeatsOf(scanned, typeName) && AllSeen(scanned, meta, st.records, typeName) &&
            forall k: RecordKey | k.typeName == typeName :: k in scanned <==> k in st.records && EachHolds(m.matched, st.records[k])
  {
    var i := meta.indexes[n];
    FindDistinct(meta.indexes, n);
    ScanIndexExact(i, st.contents[i.name], st.records, typeName, m.comparisons);
    forall k | k in st.records && k.typeName == typeName
      ensures EachHolds(m.matched, st.records[k]) <==>
              k in Execute(IndexScan(i.name, m.comparisons), meta, st)
    {
      MatchedMeaning(m, IndexFields(i), Fields(q.children), st.records[k]);
    }
  }

  lemma {:induction false} ResidualExact(scanned: seq<RecordKey>, meta: MetaData, st: State, typeName: string,
        q: Component, m: Match)
    requires q.And? && NoRepeatsOf(scanned, typeName) && AllSeen(scanned, meta, st.records, typeName)
    requires forall j :: 0 <= j < |m.matched| ==> m.matched[j] in Fields(q.children)
    requires forall k: RecordKey | k.typeName == typeName :: k in scanned <==> k in st.records && EachHolds(m.matched, st.records[k])
    ensures var residual := Without(Fields(q.children), m.matched) + Others(q.children);
            Answers(if residual == [] then scanned else KeepHolding(scanned, st.records, Combine(residual)), meta, st, typeName, q)
  {
    hide EachHolds, Combine, Without, Others, Fields;
    var residual := Without(Fields(q.children), m.matched) + Others(q.children);
    forall k | k in st.records ensures Holds(q, st.records[k]) <==> EachHolds(m.matched, st.records[k]) && EachHolds(residual, st.records[k]) {
      ResidualHolds(q, m, st.records[k]);
    }
    NoneLeft(st.records);
    if residual != [] {
      KeepHoldingMembers(scanned, st.records, Combine(residual), typeName);
      forall k | k in st.records ensures Holds(Combine(residual), st.records[k]) <==> EachHolds(residual, st.records[k]) {
        CombineHolds(residual, st.records[k]);
      }
    }
  }

  lemma NoneLeft(records: Records)
    ensures forall k :: k in records ==> EachHolds([], records[k])
  {
  }

  /** The first key listed with a primary key. */
  function FirstWith(keys: seq<RecordKey>, pk: Tuple): Option<RecordKey> {
    if keys == [] then None else if keys[0].pk == pk then Some(keys[0]) else FirstWith(keys[1..], pk)
  }

  lemma {:induction false} FirstWithMember(keys: seq<RecordKey>, k: RecordKey)
    requires k in keys
    ensures var first := FirstWith(keys, k.pk); first.Some? && first.value in keys && first.value.pk == k.pk
  {
    if keys[0].pk != k.pk {
      assert keys == [keys[0]] + keys[1..];
      FirstWithMember(keys[1..], k);
    }
  }

  /** A union keeps a key exactly when it is the first of its children's with that primary key. */
  lemma {:induction false} DedupMembers(keys: seq<RecordKey>, seen: set<Tuple>)
    ensures NoRepeats(DedupByPk(keys, seen))
    ensures forall k :: k in DedupByPk(keys, seen) <==> k.pk !in seen && FirstWith(keys, k.pk) == Some(k)
    decreases |keys|
  {
    if keys != [] {
      var seen' := if keys[0].pk in seen then seen else seen + {keys[0].pk};
      DedupMembers(keys[1..], seen');
      var rest := DedupByPk(keys[1..], seen');
      assert forall j :: 0 <= j < |rest| ==> rest[j] in rest;
    }
  }

  /** A union, filtered by type, returns every record of the type that some child returns exactly when
      no child returns, before the record, one of another type with the record's primary key. */
  lemma UnionExactIff(meta: MetaData, st: State, plans: seq<Plan>, typeName: string)
    requires ValidState(meta, st)
    ensures var all := ExecuteAll(plans, meta, st);
            var result := Execute(TypeFilter(UnionOf(plans), [typeName]), meta, st);
            NoRepeats(result) && (forall k :: k in result ==> k in all && k.typeName == typeName) &&
            ((forall k: RecordKey | k.typeName == typeName :: k in all ==> k in result) <==>
             forall k: RecordKey | k.typeName == typeName :: k in all ==> FirstWith(all, k.pk) == Some(k))
  {
    var all := ExecuteAll(plans, meta, st);
    var union := DedupByPk(all, {});
    DedupMembers(all, {});
    KeepTypeMembers(union, typeName);
    forall k | k in all ensures FirstWith(all, k.pk).Some? && FirstWith(all, k.pk).value.pk == k.pk {
      FirstWithMember(all, k);
    }
    forall k | k in union ensures k in all {
      FirstWithIsMember(all, k.pk);
    }
  }

  lemma {:induction false} FirstWithIsMember(keys: seq<RecordKey>, pk: Tuple)
    ensures FirstWith(keys, pk).Some? ==> FirstWith(keys, pk).value in keys
  {
    if keys != [] { FirstWithIsMember(keys[1..], pk); }
  }

  lemma PlanFieldExact(meta: MetaData, st: State, typeName: string, q: Component)
    requires GoodStore(meta, st, typeName) && q.FieldIs?
    requires Answerable(q, IndexesFor(meta.indexes, typeName))
    ensures Answers(Execute(PlanField(q, IndexesFor(meta.indexes, typeName), [typeName]), meta, st), meta, st, typeName, q)
  {
    var indexes := IndexesFor(meta.indexes, typeName);
    var n := FirstIndexOn(indexes, q.fieldName);
    if n.Some? {
      IndexesForMembers(meta.indexes, typeName, n.value);
      var m :| 0 <= m < |meta.indexes| && meta.indexes[m] == indexes[n.value] && Applies(meta.indexes[m], typeName);
      assert q.fieldName in IndexFields(indexes[n.value]);
      LoneScanIsExact(meta, st, typeName, m, q.comparison);
    } else {
      FilteredScanExact(meta, st, typeName, q);
    }
  }

  /** A union of plans whose results together are, as far as the type goes, the records some child
      holds of. */
  lemma UnionExact(meta: MetaData, st: State, typeName: string, plans: seq<Plan>, q: Component)
    requires GoodStore(meta, st, typeName) && KeysApart(meta, st.records, typeName) && q.Or?
    requires AllSeen(ExecuteAll(plans, meta, st), meta, st.records, typeName)
    requires forall k: RecordKey | k.typeName == typeName :: k in ExecuteAll(plans, meta, st) <==>
      k in st.records && Holds(q, st.records[k])
    ensures Answers(Execute(UnionOf(plans), meta, st), meta, st, typeName, q)
  {
    var all := ExecuteAll(plans, meta, st);
    DedupMembers(all, {});
    forall k | k in DedupByPk(all, {}) ensures k in all {
      FirstWithIsMember(all, k.pk);
    }
    forall k: RecordKey | k.typeName == typeName && k in all ensures FirstWith(all, k.pk) == Some(k) {
      FirstWithMember(all, k);
    }
  }

  /** Plan exactness: for a query over one type, running the planned tree of any filter whose indexed
      comparisons the scans answer returns, as far as the type goes, exactly the stored records the
      filter holds of, each once. */
  lemma {:induction false} PlanFilterExact(meta: MetaData, st: State, typeName: string, q: Component)
    requires GoodStore(meta, st, typeName) && KeysApart(meta, st.records, typeName)
    requires Answerable(q, IndexesFor(meta.indexes, typeName))
    ensures Answers(Execute(PlanFilter(q, IndexesFor(meta.indexes, typeName), [typeName]), meta, st), meta, st, typeName, q)
    decreases q, 1
  {
    var indexes := IndexesFor(meta.indexes, typeName);
    match q
    case And(_) => PlanAndExact(meta, st, typeName, q);
    case FieldIs(_, _) => PlanFieldExact(meta, st, typeName, q);
    case Or(children) =>
      ChildrenExact(meta, st, typeName, children);
      UnionExact(meta, st, typeName, PlanEach(children, indexes, [typeName]), q);
      FilteredScanExact(meta, st, typeName, q);
    case _ => FilteredScanExact(meta, st, typeName, q);
  }

  lemma {:induction false} ChildrenExact(meta: MetaData, st: State, typeName: string, qs: seq<Component>)
    requires GoodStore(meta, st, typeName) && KeysApart(meta, st.records, typeName)
    requires forall j :: 0 <= j < |qs| ==> Answerable(qs[j], IndexesFor(meta.indexes, typeName))
    ensures var all := ExecuteAll(PlanEach(qs, IndexesFor(meta.indexes, typeName), [typeName]), meta, st);
            AllSeen(all, meta, st.records, typeName) &&
            forall k: RecordKey | k.typeName == typeName :: k in all <==>
              k in st.records && exists j :: 0 <= j < |qs| && Holds(qs[j], st.records[k])
    decreases qs, 0
  {
    if qs != [] {
      var indexes := IndexesFor(meta.indexes, typeName);
      PlanFilterExact(meta, st, typeName, qs[0]);
      ChildrenExact(meta, st, typeName, qs[1..]);
      var plans := PlanEach(qs, indexes, [typeName]);
      assert plans[1..] == PlanEach(qs[1..], indexes, [typeName]);
      forall k | k in st.records
        ensures (exists j :: 0 <= j < |qs| && Holds(qs[j], st.records[k])) <==>
                Holds(qs[0], st.records[k]) || exists j :: 0 <= j < |qs[1..]| && Holds(qs[1..][j], st.records[k])
      {
        SomeOfFirst(qs, st.records[k]);
      }
    }
  }

  lemma SomeOfFirst(qs: seq<Component>, r: Record)
    requires qs != []
    ensures (exists j :: 0 <= j < |qs| && Holds(qs[j], r)) <==>
            Holds(qs[0], r) || exists j :: 0 <= j < |qs[1..]| && Holds(qs[1..][j], r)
  {
    hide Holds;
    if j :| 0 <= j < |qs| && Holds(qs[j], r) {
      if j > 0 { assert Holds(qs[1..][j - 1], r); }
    }
    if j :| 0 <= j < |qs[1..]| && Holds(qs[1..][j], r) {
      assert Holds(qs[j + 1], r);
    }
  }

  /** The whole query, with the record type filter the planner adds.  The indexes may cover other types,
      universal ones included, as long as no primary key is shared with a record they bring in. */
  lemma PlanQueryExact(meta: MetaData, st: State, typeName: string, filter: Option<Component>)
    requires GoodStore(meta, st, typeName) && KeysApart(meta, st.records, typeName)
    requires forall k :: k in st.records && Sees(meta, typeName, k.typeName) ==> k.typeName in meta.recordTypes
    requires filter.Some? ==> Answerable(filter.value, IndexesFor(meta.indexes, typeName))
    ensures Exact(Execute(PlanQuery(meta, typeName, filter), meta, st), st, typeName,
                  if filter.Some? then filter.value else And([]))
  {
    hide PlanFilter, IndexesFor, Answerable, GoodIndex, ScanOfType, KeepTypes, Sees, KeysApart;
    if filter.None? {
      ScanOfTypeMembers(st.records, typeName);
    } else {
      PlanFilterExact(meta, st, typeName, filter.value);
      var result := Execute(PlanFilter(filter.value, IndexesFor(meta.indexes, typeName), [typeName]), meta, st);
      KeepTypeMembers(result, typeName);
      if |meta.recordTypes| <= 1 {
        forall k | k in result ensures k.typeName == typeName {
          OnlyType(meta.recordTypes.Keys, k.typeName, typeName);
        }
      }
    }
  }

  lemma OnlyType(types: set<string>, a: string, b: string)
    requires |types| <= 1 && a in types && b in types
    ensures a == b
  {
    assert |types - {a}| == |types| - 1;
    assert a != b ==> b in types - {a};
  }
}
