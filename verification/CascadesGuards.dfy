// When the rules that CascadesRules guards are right: the exact conditions.
module CascadesGuards {
  import opened Wrappers
  import opened Values
  import opened KeyExpressions
  import opened Indexes
  import opened RecordStore
  import opened Query
  import opened CascadesExpressions
  import opened MemoGroups
  import opened PredicateSplit
  import opened CascadesRules

  /** The same rows on every store whose records stand under their own primary keys. */
  ghost predicate SameOnStores(meta: MetaData, a: RelExpr, b: RelExpr) {
    forall records: Records :: Indexed(meta, records) && Keyed(meta, records) ==>
      Rows(meta.indexes, records, a) == Rows(meta.indexes, records, b)
  }

  /** A record that a store may hold: it has a primary key, and one key in every field index. */
  ghost predicate Storable(meta: MetaData, r: Record) {
    KeyOf(meta, r).Ok? &&
    forall n :: 0 <= n < |meta.indexes| && meta.indexes[n].root.FieldKey? && Applies(meta.indexes[n], r.typeName) ==>
      |Evaluate(meta.indexes[n].root, r)| == 1
  }

  /** The row of the record under its own key. */
  function RowOf(meta: MetaData, r: Record): Row
    requires KeyOf(meta, r).Ok?
  {
    Row(KeyOf(meta, r).value, r)
  }

  lemma OneRecordStore(meta: MetaData, r: Record)
    requires Storable(meta, r)
    ensures var k := KeyOf(meta, r).value;
            k.typeName == r.typeName && Indexed(meta, map[k := r]) && Keyed(meta, map[k := r])
  {
  }

  lemma StoredIsStorable(meta: MetaData, records: Records, k: RecordKey)
    requires Indexed(meta, records) && Keyed(meta, records) && k in records
    ensures Storable(meta, records[k]) && KeyOf(meta, records[k]) == Ok(k) && records[k].typeName == k.typeName
  {
    assert KeyOf(meta, records[k]) == Ok(k);
  }

  // ---- Unions that keep duplicates ----

  /** Implementing a union that keeps duplicates by the physical one, which does not, is right on a
      store exactly when the inputs together have no row twice. */
  lemma UnionImplementedIff(indexes: seq<Index>, records: Records, inputs: seq<RelExpr>)
    ensures Rows(indexes, records, PhysicalUnion(inputs)) == Rows(indexes, records, LogicalUnion(inputs, false)) <==>
            forall r :: SumRows(indexes, records, inputs)[r] <= 1
  {
    var all := SumRows(indexes, records, inputs);
    RowsOfUnion(indexes, records, inputs);
    DistinctIff(all);
  }

  lemma RowsOfUnion(indexes: seq<Index>, records: Records, inputs: seq<RelExpr>)
    ensures Rows(indexes, records, PhysicalUnion(inputs)) == Distinct(SumRows(indexes, records, inputs))
    ensures Rows(indexes, records, LogicalUnion(inputs, false)) == SumRows(indexes, records, inputs)
  {
  }

  lemma DistinctIff(all: Bag)
    ensures Distinct(all) == all <==> forall r :: all[r] <= 1
  {
    forall r ensures Distinct(all)[r] == if all[r] > 0 then 1 else 0 {
    }
    if forall r :: all[r] <= 1 {
      SameCounts(Distinct(all), all);
    } else {
      var r :| all[r] > 1;
      assert Distinct(all)[r] == 1;
    }
  }

  /** The union rule over one scan twice is wrong exactly on the stores that have a record of its types. */
  lemma ScanTwiceIff(indexes: seq<Index>, records: Records, types: seq<string>)
    ensures var scan := LogicalScan(types);
            Rows(indexes, records, PhysicalUnion([scan, scan])) == Rows(indexes, records, LogicalUnion([scan, scan], false)) <==>
            forall k :: k in records ==> k.typeName !in types
  {
    var scan := LogicalScan(types);
    var inputs := [scan, scan];
    UnionImplementedIff(indexes, records, inputs);
    assert inputs[1..] == [scan] && [scan][1..] == [];
    var all := SumRows(indexes, records, inputs);
    SumFirst(indexes, records, inputs);
    SumFirst(indexes, records, [scan]);
    assert all == ScanBag(records, types) + (ScanBag(records, types) + multiset{});
    forall r: Row
      ensures all[r] == if r.key in records && r.record == records[r.key] then 2 * multiset(types)[r.key.typeName] else 0
    {
      ScanBagCount(records, types, r);
    }
    forall k | k in records ensures all[Row(k, records[k])] == 2 * multiset(types)[k.typeName] {
    }
  }

  /** Filters pushed into a union become one that removes duplicates.  For a union that keeps them this is
      right on a store exactly when the inputs have no row twice that the filter holds of. */
  lemma PushDownIff(indexes: seq<Index>, records: Records, q: Component, inputs: seq<RelExpr>)
    ensures var pushed, above := LogicalUnion(FilterEach(q, inputs), true), LogicalFilter(q, LogicalUnion(inputs, false));
            Rows(indexes, records, pushed) == Rows(indexes, records, above) <==>
            forall r: Row :: Holds(q, r.record) ==> SumRows(indexes, records, inputs)[r] <= 1
  {
    hide FilterBag, Holds;
    var all := SumRows(indexes, records, inputs);
    FilterSumRows(indexes, records, q, inputs);
    RowsOfUnion(indexes, records, inputs);
    RowsOfFilter(indexes, records, q, LogicalUnion(inputs, false));
    RowsOfDistinctUnion(indexes, records, FilterEach(q, inputs));
    DistinctIff(FilterBag(all, q));
    forall r ensures FilterBag(all, q)[r] == if Holds(q, r.record) then all[r] else 0 {
      FilterBagCount(all, q, r);
    }
  }

  lemma RowsOfDistinctUnion(indexes: seq<Index>, records: Records, inputs: seq<RelExpr>)
    ensures Rows(indexes, records, LogicalUnion(inputs, true)) == Distinct(SumRows(indexes, records, inputs))
  {
  }

  // ---- Index selection ----

  /** Every record type is scanned as often as the index covers it, or has no record the filter holds of. */
  ghost predicate ServesExactly(meta: MetaData, i: Index, q: Component, types: seq<string>) {
    forall t :: t in meta.recordTypes ==> CoveredAsListed(i, types, t) || NoneMatches(meta, t, q)
  }

  predicate CoveredAsListed(i: Index, types: seq<string>, t: string) {
    multiset(types)[t] == if Applies(i, t) then 1 else 0
  }

  ghost predicate NoneMatches(meta: MetaData, t: string, q: Component) {
    forall r: Record :: Storable(meta, r) && r.typeName == t ==> !Holds(q, r)
  }

  /** How often an index plan returns a row of a store. */
  lemma IndexPlanCount(meta: MetaData, records: Records, n: nat, q: Component, types: seq<string>, r: Row)
    requires Indexed(meta, records) && DistinctNames(meta.indexes) && n < |meta.indexes|
    requires IndexPlan(meta.indexes[n], q, types) != []
    ensures Rows(meta.indexes, records, IndexPlan(meta.indexes[n], q, types)[0])[r] ==
      if r.key in records && r.record == records[r.key] && Applies(meta.indexes[n], r.key.typeName) && Holds(q, r.record) then 1 else 0
  {
    hide Holds, PartHolds, SplitPredicate;
    var i := meta.indexes[n];
    var s := SplitPredicate(q, i.root.fieldName);
    var found := IndexRows(i, records, s.scan.value);
    FindDistinct(meta.indexes, n);
    assert Rows(meta.indexes, records, IndexPlan(i, q, types)[0]) == Remaining(found, s.residual);
    RemainingCount(found, s.residual, r);
    SplitIsEquivalent(q, i.root.fieldName, r.record);
    BothParts(s, q, r.record);
  }

  lemma BothParts(s: Split, q: Component, r: Record)
    requires s.scan.Some? && (Holds(q, r) <==> PartHolds(s.scan, r) && PartHolds(s.residual, r))
    ensures Holds(q, r) <==> Holds(s.scan.value, r) && PartHolds(s.residual, r)
  {
  }

  lemma FilteredScanCount(meta: MetaData, records: Records, q: Component, types: seq<string>, r: Row)
    ensures Rows(meta.indexes, records, LogicalFilter(q, LogicalScan(types)))[r] ==
      if r.key in records && r.record == records[r.key] && Holds(q, r.record) then multiset(types)[r.key.typeName] else 0
  {
    hide Holds, FilterBag, ScanBag;
    FilterBagCount(ScanBag(records, types), q, r);
    ScanBagCount(records, types, r);
  }

  /** The plan over an index agrees with the filtered scan on every store exactly when, for every record
      type, the index covers it just as the scan lists it or no record of it can satisfy the filter. */
  lemma IndexPlanIff(meta: MetaData, n: nat, q: Component, types: seq<string>)
    requires DistinctNames(meta.indexes) && n < |meta.indexes| && IndexPlan(meta.indexes[n], q, types) != []
    ensures SameOnStores(meta, IndexPlan(meta.indexes[n], q, types)[0], LogicalFilter(q, LogicalScan(types))) <==>
            ServesExactly(meta, meta.indexes[n], q, types)
  {
    hide Rows, IndexPlan, Holds;
    var i := meta.indexes[n];
    var plan, filtered := IndexPlan(i, q, types)[0], LogicalFilter(q, LogicalScan(types));
    if ServesExactly(meta, i, q, types) {
      forall records: Records | Indexed(meta, records) && Keyed(meta, records)
        ensures Rows(meta.indexes, records, plan) == Rows(meta.indexes, records, filtered)
      {
        forall r ensures Rows(meta.indexes, records, plan)[r] == Rows(meta.indexes, records, filtered)[r] {
          IndexPlanCount(meta, records, n, q, types, r);
          FilteredScanCount(meta, records, q, types, r);
          if r.key in records { StoredIsStorable(meta, records, r.key); }
        }
        SameCounts(Rows(meta.indexes, records, plan), Rows(meta.indexes, records, filtered));
      }
    } else {
      var t :| t in meta.recordTypes && !CoveredAsListed(i, types, t) && !NoneMatches(meta, t, q);
      var r: Record :| Storable(meta, r) && r.typeName == t && Holds(q, r);
      var k := KeyOf(meta, r).value;
      var records := map[k := r];
      OneRecordStore(meta, r);
      IndexPlanCount(meta, records, n, q, types, Row(k, r));
      FilteredScanCount(meta, records, q, types, Row(k, r));
    }
  }

  lemma {:induction false} IndexPlansInclude(indexes: seq<Index>, q: Component, types: seq<string>, n: nat)
    requires n < |indexes| && IndexPlan(indexes[n], q, types) != []
    ensures IndexPlan(indexes[n], q, types)[0] in IndexPlans(indexes, q, types)
    decreases n
  {
    if n > 0 {
      assert indexes[1..][n - 1] == indexes[n];
      IndexPlansInclude(indexes[1..], q, types, n - 1);
    }
  }

  /** Index selection is right for a query exactly when every index it offers serves it exactly. */
  lemma SelectionIsSoundIff(meta: MetaData, q: Component, types: seq<string>)
    requires DistinctNames(meta.indexes)
    ensures (forall plan :: plan in IndexPlans(meta.indexes, q, types) ==>
              SameOnStores(meta, plan, LogicalFilter(q, LogicalScan(types)))) <==>
            (forall n :: 0 <= n < |meta.indexes| && IndexPlan(meta.indexes[n], q, types) != [] ==>
              ServesExactly(meta, meta.indexes[n], q, types))
  {
    hide SameOnStores, ServesExactly, IndexPlan, IndexPlans;
    forall n | 0 <= n < |meta.indexes| && IndexPlan(meta.indexes[n], q, types) != []
      ensures IndexPlan(meta.indexes[n], q, types)[0] in IndexPlans(meta.indexes, q, types)
      ensures SameOnStores(meta, IndexPlan(meta.indexes[n], q, types)[0], LogicalFilter(q, LogicalScan(types))) <==>
              ServesExactly(meta, meta.indexes[n], q, types)
    {
      IndexPlansInclude(meta.indexes, q, types, n);
      IndexPlanIff(meta, n, q, types);
    }
    forall plan | plan in IndexPlans(meta.indexes, q, types)
      ensures exists n :: 0 <= n < |meta.indexes| && IndexPlan(meta.indexes[n], q, types) != [] &&
                          IndexPlan(meta.indexes[n], q, types)[0] == plan
    {
      var k :| 0 <= k < |IndexPlans(meta.indexes, q, types)| && IndexPlans(meta.indexes, q, types)[k] == plan;
      IndexPlansFrom(meta.indexes, q, types, k);
    }
  }

  /** The guard the rules rely on is enough. */
  lemma CoveredScansAreServed(meta: MetaData, q: Component, types: seq<string>, n: nat)
    requires ScanIsCovered(meta, types) && n < |meta.indexes| && IndexPlan(meta.indexes[n], q, types) != []
    ensures ServesExactly(meta, meta.indexes[n], q, types)
  {
    assert CoversExactly(meta, meta.indexes[n], types);
    forall t | t in meta.recordTypes ensures CoveredAsListed(meta.indexes[n], types, t) {
      ListedOnce(types, t);
    }
  }

  // ---- Filters below projections ----

  /** The filter cannot tell a row from its projection. */
  ghost predicate SurvivesProjection(q: Component, fields: seq<string>, r: Row) {
    Holds(q, Projected(r, fields).record) <==> Holds(q, r.record)
  }

  ghost predicate Pushes(q: Component, fields: seq<string>, m: Bag) {
    FilterBag(ProjectBag(m, fields), q) == ProjectBag(FilterBag(m, q), fields)
  }

  lemma PushesOneIff(q: Component, fields: seq<string>, r: Row)
    ensures Pushes(q, fields, multiset{r}) <==> SurvivesProjection(q, fields, r)
  {
    hide FilterBag, ProjectBag;
    FilterOne(r, q);
    ProjectOne(r, fields);
    FilterOne(Projected(r, fields), q);
    ProjectNone(fields);
    assert Projected(r, fields) in multiset{Projected(r, fields)};
  }

  lemma ProjectNone(fields: seq<string>)
    ensures ProjectBag(multiset{}, fields) == multiset{}
  {
  }

  /** Pushing a filter below a projection of one type's records is right on every store exactly when
      the filter cannot tell any record that may be stored from its projection. */
  lemma PushFilterIff(meta: MetaData, q: Component, fields: seq<string>, t: string)
    ensures SameOnStores(meta, LogicalFilter(q, LogicalProject(fields, LogicalScan([t]))),
                               LogicalProject(fields, LogicalFilter(q, LogicalScan([t])))) <==>
            forall r: Record :: Storable(meta, r) && r.typeName == t ==> SurvivesProjection(q, fields, RowOf(meta, r))
  {
    hide Rows, FilterBag, ProjectBag, ScanBag, Holds;
    var above := LogicalFilter(q, LogicalProject(fields, LogicalScan([t])));
    var below := LogicalProject(fields, LogicalFilter(q, LogicalScan([t])));
    forall records: Records
      ensures Rows(meta.indexes, records, above) == Rows(meta.indexes, records, below) <==> Pushes(q, fields, ScanBag(records, [t]))
    {
      RowsPushed(meta.indexes, records, q, fields, [t]);
    }
    if forall r: Record :: Storable(meta, r) && r.typeName == t ==> SurvivesProjection(q, fields, RowOf(meta, r)) {
      forall records: Records | Indexed(meta, records) && Keyed(meta, records) ensures Pushes(q, fields, ScanBag(records, [t])) {
        forall r | r in ScanBag(records, [t]) ensures SurvivesProjection(q, fields, r) {
          ScanBagCount(records, [t], r);
          StoredIsStorable(meta, records, r.key);
          assert SurvivesProjection(q, fields, RowOf(meta, r.record));
        }
        FilterCommutesWithProject(ScanBag(records, [t]), q, fields);
      }
    } else {
      var r: Record :| Storable(meta, r) && r.typeName == t && !SurvivesProjection(q, fields, RowOf(meta, r));
      var k := KeyOf(meta, r).value;
      OneRecordStore(meta, r);
      OneRow(map[k := r], k);
      PushesOneIff(q, fields, Row(k, r));
      assert !Pushes(q, fields, ScanBag(map[k := r], [t]));
    }
  }

  lemma RowsPushed(indexes: seq<Index>, records: Records, q: Component, fields: seq<string>, types: seq<string>)
    ensures Rows(indexes, records, LogicalFilter(q, LogicalProject(fields, LogicalScan(types))))
         == FilterBag(ProjectBag(ScanBag(records, types), fields), q)
    ensures Rows(indexes, records, LogicalProject(fields, LogicalFilter(q, LogicalScan(types))))
         == ProjectBag(FilterBag(ScanBag(records, types), q), fields)
  {
    hide *;
    RowsOfScan(indexes, records, types);
    RowsOfProject(indexes, records, fields, LogicalScan(types));
    RowsOfFilter(indexes, records, q, LogicalProject(fields, LogicalScan(types)));
    RowsOfFilter(indexes, records, q, LogicalScan(types));
    RowsOfProject(indexes, records, fields, LogicalFilter(q, LogicalScan(types)));
  }

  /** No value satisfies the comparison: nothing lies below null or the empty string, nothing but null
      is at most null, nothing is in an empty list. */
  predicate Unsatisfiable(c: Comparison) {
    match c.kind
    case LessThan => c.value == Null || c.value == Str("")
    case LessThanOrEquals => c.value == Null
    case In => c.values == []
    case _ => false
  }

  lemma SatisfyingValue(c: Comparison) returns (v: Value)
    requires !Unsatisfiable(c)
    ensures Satisfies(c, v)
  {
    match c.kind
    case NotEquals => v := if c.value == Null then Str("") else Null;
    case LessThan => v := BelowValue(c.value);
    case GreaterThan => v := AboveValue(c.value);
    case GreaterThanOrEquals => v := AboveValue(c.value);
    case StartsWith | EndsWith =>
      v := Str(Text(c.value));
      assert Text(c.value)[0..] == Text(c.value);
    case Contains => v := Str(Text(c.value));
    case In => v := c.values[0];
    case NotIn =>
      var n := FreshInt(c.values);
      v := Int(n);
    case IsNull => v := Null;
    case IsNotNull => v := Str("");
    case _ => v := c.value;
  }

  function BelowValue(v: Value): (low: Value)
    requires v != Null && v != Str("")
    ensures low != Null && Less(low, v)
  {
    match v
    case Str(_) => Str("")
    case Tup(_) => Str("")
    case Int(i) => Int(i - 1)
  }

  function AboveValue(v: Value): (high: Value)
    ensures high != Null && Less(v, high)
  {
    match v
    case Int(i) => Int(i + 1)
    case _ => Int(0)
  }

  lemma UnsatisfiableMeans(c: Comparison)
    ensures Unsatisfiable(c) <==> forall v :: !Satisfies(c, v)
  {
    if Unsatisfiable(c) {
      forall v ensures !Satisfies(c, v) {
      }
    } else {
      var v := SatisfyingValue(c);
    }
  }

  /** A comparison on one field pushes below a projection, whatever the rows, exactly when the
      projection keeps the field or no value satisfies the comparison. */
  lemma PushFieldIff(field: string, c: Comparison, fields: seq<string>)
    ensures (forall m: Bag :: Pushes(FieldIs(field, c), fields, m)) <==> field in fields || Unsatisfiable(c)
  {
    var q := FieldIs(field, c);
    UnsatisfiableMeans(c);
    if field in fields || Unsatisfiable(c) {
      forall m: Bag ensures Pushes(q, fields, m) {
        FilterCommutesWithProject(m, q, fields);
      }
    } else {
      var v := Int(0);
      if c.kind != IsNull { v := SatisfyingValue(c); }
      var r := Row(RecordKey("", []), Record("", map[field := Scalar(v)]));
      assert !SurvivesProjection(q, fields, r);
      PushesOneIff(q, fields, r);
    }
  }
}
