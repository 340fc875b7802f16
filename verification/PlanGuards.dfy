// Exactly when a plan over one index answers a query, on every store.
module PlanGuards {
  import opened Wrappers
  import opened Values
  import opened KeyExpressions
  import opened Indexes
  import opened RecordStore
  import opened Query
  import opened ScanBounds
  import opened Planner
  import opened PlanExactness

  /** Records stand under their own primary keys, those of the type have the index's fields, and the
      index, of whatever kind, agrees with them. */
  ghost predicate FairStore(meta: MetaData, st: State, typeName: string, n: nat) {
    ValidState(meta, st) && Keyed(meta, st.records) && n < |meta.indexes| && IndexAgrees(meta, st, n) &&
    forall k :: k in st.records && k.typeName == typeName ==> HasScalars(st.records[k], IndexFields(meta.indexes[n]))
  }

  /** A record of the type that such a store may hold. */
  ghost predicate MayStand(meta: MetaData, i: Index, typeName: string, r: Record) {
    r.typeName == typeName && KeyOf(meta, r).Ok? && HasScalars(r, IndexFields(i))
  }

  ghost predicate AnswersOnFairStores(meta: MetaData, typeName: string, n: nat, plan: Plan, q: Component) {
    forall st: State :: FairStore(meta, st, typeName, n) ==> Answers(Execute(plan, meta, st), meta, st, typeName, q)
  }

  /** The plans the planner builds over one index. */
  function IndexPlanOf(name: string, s: ScanComparisons, residual: seq<Component>): Plan {
    if residual == [] then IndexScan(name, s) else FilterBy(IndexScan(name, s), Combine(residual))
  }

  /** Such a plan returns the record: only VALUE indexes return any. */
  ghost predicate Picks(i: Index, s: ScanComparisons, residual: seq<Component>, r: Record)
    requires FitsFields(s, IndexFields(i)) && HasScalars(r, IndexFields(i))
  {
    i.kind.ValueIndex? && ColumnsInScan(s, Columns(r, IndexFields(i))) && EachHolds(residual, r)
  }

  lemma IndexPlanResult(meta: MetaData, st: State, typeName: string, n: nat, s: ScanComparisons, residual: seq<Component>)
    requires FairStore(meta, st, typeName, n) && Applies(meta.indexes[n], typeName) && PlainRoot(meta.indexes[n].root)
    requires FitsFields(s, IndexFields(meta.indexes[n]))
    ensures var result := Execute(IndexPlanOf(meta.indexes[n].name, s, residual), meta, st);
            NoRepeatsOf(result, typeName) && AllSeen(result, meta, st.records, typeName) &&
            forall k: RecordKey | k.typeName == typeName :: k in result <==>
              k in st.records && Picks(meta.indexes[n], s, residual, st.records[k])
  {
    hide Keyed, ColumnsInScan;
    var i := meta.indexes[n];
    FindDistinct(meta.indexes, n);
    var scanned := Execute(IndexScan(i.name, s), meta, st);
    if i.kind.ValueIndex? {
      ScanIndexExact(i, st.contents[i.name], st.records, typeName, s);
    } else {
      assert scanned == [];
    }
    ResidualResult(scanned, st.records, residual, typeName);
  }

  lemma ResidualResult(scanned: seq<RecordKey>, records: Records, residual: seq<Component>, typeName: string)
    requires NoRepeatsOf(scanned, typeName) && forall k :: k in scanned ==> k in records
    ensures var result := if residual == [] then scanned else KeepHolding(scanned, records, Combine(residual));
            NoRepeatsOf(result, typeName) &&
            forall k :: k in result <==> k in scanned && EachHolds(residual, records[k])
  {
    hide Holds, Combine;
    if residual != [] {
      KeepHoldingMembers(scanned, records, Combine(residual), typeName);
      forall k | k in records ensures Holds(Combine(residual), records[k]) <==> EachHolds(residual, records[k]) {
        CombineHolds(residual, records[k]);
      }
    }
  }

  /** The store that holds one record. */
  lemma OneRecordStore(meta: MetaData, typeName: string, n: nat, r: Record) returns (st: State)
    requires DistinctNames(meta.indexes) && n < |meta.indexes| && MayStand(meta, meta.indexes[n], typeName, r)
    ensures FairStore(meta, st, typeName, n) && KeyOf(meta, r).value.typeName == typeName
    ensures st.records == map[KeyOf(meta, r).value := r]
  {
    hide HasScalars;
    var k := KeyOf(meta, r).value;
    EmptyStoreIsValid(meta);
    st := Saved(meta, EmptyStore(meta), k, r);
    WriteAgrees(meta, EmptyStore(meta), k, Some(r), n);
  }

  /** A plan over one index answers a query on every store exactly when it picks the right records,
      whatever record of the type may be stored. */
  lemma IndexPlanAnswersIff(meta: MetaData, typeName: string, n: nat, s: ScanComparisons,
        residual: seq<Component>, q: Component)
    requires DistinctNames(meta.indexes) && n < |meta.indexes| && Applies(meta.indexes[n], typeName)
    requires PlainRoot(meta.indexes[n].root) && FitsFields(s, IndexFields(meta.indexes[n]))
    ensures AnswersOnFairStores(meta, typeName, n, IndexPlanOf(meta.indexes[n].name, s, residual), q) <==>
            forall r: Record :: MayStand(meta, meta.indexes[n], typeName, r) ==>
              (Holds(q, r) <==> Picks(meta.indexes[n], s, residual, r))
  {
    hide Holds, Picks, Execute, PlainRoot, HasScalars, FitsFields, KeyOf;
    var i := meta.indexes[n];
    var plan := IndexPlanOf(i.name, s, residual);
    if forall r: Record :: MayStand(meta, i, typeName, r) ==> (Holds(q, r) <==> Picks(i, s, residual, r)) {
      forall st: State | FairStore(meta, st, typeName, n) ensures Answers(Execute(plan, meta, st), meta, st, typeName, q) {
        IndexPlanResult(meta, st, typeName, n, s, residual);
        forall k | k in st.records && k.typeName == typeName ensures MayStand(meta, i, typeName, st.records[k]) {
          assert KeyOf(meta, st.records[k]) == Ok(k);
        }
      }
    } else {
      var r: Record :| MayStand(meta, i, typeName, r) && !(Holds(q, r) <==> Picks(i, s, residual, r));
      var st := OneRecordStore(meta, typeName, n, r);
      IndexPlanResult(meta, st, typeName, n, s, residual);
      var k := KeyOf(meta, r).value;
      assert k in st.records && st.records[k] == r;
      assert !Answers(Execute(plan, meta, st), meta, st, typeName, q);
    }
  }

  // ---- Lone comparisons ----

  /** The comparison and the scan of the index agree on the value. */
  predicate AnsweredOn(i: Index, c: Comparison, v: Value) { Satisfies(c, v) <==> i.kind.ValueIndex? && Scanned(c, v) }

  /** A record of the type in which every named field has the value. */
  function Witness(typeName: string, names: set<string>, v: Value): Record {
    Record(typeName, map name | name in names :: Scalar(v))
  }

  /** Where the primary key is made of plain fields too, any value may stand in the index's fields. */
  lemma AnyValueMayStand(meta: MetaData, i: Index, typeName: string, v: Value) returns (r: Record)
    requires typeName in meta.recordTypes && PlainRoot(meta.recordTypes[typeName]) && PlainRoot(i.root) && v != Null
    ensures MayStand(meta, i, typeName, r) && IndexFields(i) != [] && ScalarOf(r, IndexFields(i)[0]) == v
  {
    var key := Index("", meta.recordTypes[typeName], ValueIndex, None);
    var names := (set j | 0 <= j < |IndexFields(i)| :: IndexFields(i)[j]) + (set j | 0 <= j < |IndexFields(key)| :: IndexFields(key)[j]);
    r := Witness(typeName, names, v);
    forall j | 0 <= j < |IndexFields(i)| ensures HasScalar(r, IndexFields(i)[j]) {
      assert IndexFields(i)[j] in names;
    }
    forall j | 0 <= j < |IndexFields(key)| ensures HasScalar(r, IndexFields(key)[j]) {
      assert IndexFields(key)[j] in names;
    }
    OneKeyPerRecord(key, r);
    PlainRootHasFields(i);
  }

  /** The scan a lone comparison on an index's first field becomes is exact on every store for the
      comparisons of ExactComparison over a VALUE index; under a primary key of plain fields for no
      others, and over an index of another kind exactly when no value satisfies the comparison. */
  lemma LoneComparisonExactIff(meta: MetaData, typeName: string, n: nat, c: Comparison)
    requires DistinctNames(meta.indexes) && n < |meta.indexes| && Applies(meta.indexes[n], typeName)
    requires typeName in meta.recordTypes && PlainRoot(meta.indexes[n].root)
    ensures IndexFields(meta.indexes[n]) != []
    ensures var i := meta.indexes[n];
            var q := FieldIs(IndexFields(i)[0], c);
            var answers := AnswersOnFairStores(meta, typeName, n, IndexScan(i.name, FromComparison(c)), q);
            (i.kind.ValueIndex? && ExactComparison(c) ==> answers) &&
            (PlainRoot(meta.recordTypes[typeName]) ==>
              (answers <==> if i.kind.ValueIndex? then ExactComparison(c) else forall v :: v != Null ==> !Satisfies(c, v)))
  {
    hide ExactComparison, Satisfies, Scanned, AnswersOnFairStores;
    var i := meta.indexes[n];
    PlainRootHasFields(i);
    var name := IndexFields(i)[0];
    var q := FieldIs(name, c);
    ColumnsOfFirst(c, IndexFieldsAsValues(i));
    IndexPlanAnswersIff(meta, typeName, n, FromComparison(c), [], q);
    forall r: Record | MayStand(meta, i, typeName, r)
      ensures (Holds(q, r) <==> Picks(i, FromComparison(c), [], r)) <==> AnsweredOn(i, c, ScalarOf(r, name))
    {
      LonePicks(i, c, r);
    }
    if i.kind.ValueIndex? && ExactComparison(c) {
      forall r: Record | MayStand(meta, i, typeName, r) ensures AnsweredOn(i, c, ScalarOf(r, name)) {
        ExactComparisonScans(c, ScalarOf(r, name));
      }
    } else if PlainRoot(meta.recordTypes[typeName]) {
      if i.kind.ValueIndex? {
        var v := InexactComparisonWitness(c);
        var r := AnyValueMayStand(meta, i, typeName, v);
        assert !AnsweredOn(i, c, ScalarOf(r, name));
      } else if v :| v != Null && Satisfies(c, v) {
        var r := AnyValueMayStand(meta, i, typeName, v);
        assert !AnsweredOn(i, c, ScalarOf(r, name));
      }
    }
  }

  /** Some columns of the right number. */
  function IndexFieldsAsValues(i: Index): (cols: Tuple)
    ensures |cols| == |IndexFields(i)|
  {
    seq(|IndexFields(i)|, _ => Null)
  }

  lemma LonePicks(i: Index, c: Comparison, r: Record)
    requires IndexFields(i) != [] && HasScalars(r, IndexFields(i))
    ensures FitsFields(FromComparison(c), IndexFields(i))
    ensures Picks(i, FromComparison(c), [], r) <==> i.kind.ValueIndex? && Scanned(c, ScalarOf(r, IndexFields(i)[0]))
    ensures Holds(FieldIs(IndexFields(i)[0], c), r) <==> Satisfies(c, ScalarOf(r, IndexFields(i)[0]))
  {
    ColumnsOfFirst(c, Columns(r, IndexFields(i)));
    assert HasScalar(r, IndexFields(i)[0]);
  }

  /** The planner does not look at an index's kind: what it plans for a lone comparison on a field is
      the scan of the first index on it. */
  lemma PlanFieldExactIff(meta: MetaData, typeName: string, n: nat, q: Component)
    requires DistinctNames(meta.indexes) && n < |meta.indexes| && Applies(meta.indexes[n], typeName)
    requires typeName in meta.recordTypes && PlainRoot(meta.indexes[n].root) && PlainRoot(meta.recordTypes[typeName])
    requires q.FieldIs? && FirstIndexOn(IndexesFor(meta.indexes, typeName), q.fieldName).Some?
    requires var indexes := IndexesFor(meta.indexes, typeName);
             meta.indexes[n] == indexes[FirstIndexOn(indexes, q.fieldName).value]
    ensures AnswersOnFairStores(meta, typeName, n, PlanField(q, IndexesFor(meta.indexes, typeName), [typeName]), q) <==>
            if meta.indexes[n].kind.ValueIndex? then ExactComparison(q.comparison)
            else forall v :: v != Null ==> !Satisfies(q.comparison, v)
  {
    hide AnswersOnFairStores, ExactComparison, Satisfies, IndexesFor;
    LoneComparisonExactIff(meta, typeName, n, q.comparison);
  }

  /** On any one store a lone comparison on a field whose first index is a COUNT, SUM or TEXT index
      returns nothing, so it is exact only when nothing matches. */
  lemma {:induction false} AggregateIndexHidesRecords(meta: MetaData, st: State, typeName: string, q: Component)
    requires ValidState(meta, st) && q.FieldIs?
    requires var indexes := IndexesFor(meta.indexes, typeName);
             var n := FirstIndexOn(indexes, q.fieldName);
             n.Some? && !indexes[n.value].kind.ValueIndex?
    ensures var plan := PlanField(q, IndexesFor(meta.indexes, typeName), [typeName]);
            Execute(plan, meta, st) == [] &&
            (Exact(Execute(plan, meta, st), st, typeName, q) <==>
             forall k :: k in st.records && k.typeName == typeName ==> !Holds(q, st.records[k]))
  {
    hide Exact, Holds, IndexesFor, FirstIndexOn;
    var indexes := IndexesFor(meta.indexes, typeName);
    var n := FirstIndexOn(indexes, q.fieldName);
    IndexesForMembers(meta.indexes, typeName, n.value);
    var m :| 0 <= m < |meta.indexes| && meta.indexes[m] == indexes[n.value] && Applies(meta.indexes[m], typeName);
    FindDistinct(meta.indexes, m);
    NothingIsExactIff(st, typeName, q);
  }

  lemma NothingIsExactIff(st: State, typeName: string, q: Component)
    ensures Exact([], st, typeName, q) <==> forall k :: k in st.records && k.typeName == typeName ==> !Holds(q, st.records[k])
  {
  }

  // ---- Conjunctions ----

  /** What the planner plans for a conjunction over the index it picks is exact on every store exactly
      when, for records the residual holds of, the scan returns what the matched predicates ask for. */
  lemma PlanAndExactIff(meta: MetaData, typeName: string, n: nat, q: Component)
    requires DistinctNames(meta.indexes) && n < |meta.indexes| && Applies(meta.indexes[n], typeName)
    requires PlainRoot(meta.indexes[n].root) && q.And?
    requires BestIndex(IndexesFor(meta.indexes, typeName), Fields(q.children)).Some?
    requires var indexes := IndexesFor(meta.indexes, typeName);
             meta.indexes[n] == indexes[BestIndex(indexes, Fields(q.children)).value]
    ensures var i := meta.indexes[n];
            var m := MatchFields(IndexFields(i), Fields(q.children), NO_MATCH);
            var residual := Without(Fields(q.children), m.matched) + Others(q.children);
            FitsFields(m.comparisons, IndexFields(i)) &&
            (AnswersOnFairStores(meta, typeName, n, PlanAnd(q, IndexesFor(meta.indexes, typeName), [typeName]), q) <==>
             forall r: Record :: MayStand(meta, i, typeName, r) && EachHolds(residual, r) ==>
               (EachHolds(m.matched, r) <==> i.kind.ValueIndex? && ColumnsInScan(m.comparisons, Columns(r, IndexFields(i)))))
  {
    hide AnswersOnFairStores, IndexesFor, BestIndex, MatchFields, Without, Others, Fields, Holds, EachHolds, ColumnsInScan;
    var i := meta.indexes[n];
    var fields := Fields(q.children);
    var m := MatchFields(IndexFields(i), fields, NO_MATCH);
    var residual := Without(fields, m.matched) + Others(q.children);
    MatchedFits(i, q);
    IndexPlanAnswersIff(meta, typeName, n, m.comparisons, residual, q);
    forall r: Record | MayStand(meta, i, typeName, r)
      ensures Holds(q, r) <==> EachHolds(m.matched, r) && EachHolds(residual, r)
    {
      ResidualHolds(q, m, r);
    }
  }

  lemma MatchedFits(i: Index, q: Component)
    requires q.And?
    ensures var m := MatchFields(IndexFields(i), Fields(q.children), NO_MATCH);
            FitsFields(m.comparisons, IndexFields(i)) && forall j :: 0 <= j < |m.matched| ==> m.matched[j] in Fields(q.children)
  {
    var names := IndexFields(i);
    assert names[0..] == names;
    MatchFieldsMatches(names, 0, Fields(q.children), NO_MATCH);
  }
}
