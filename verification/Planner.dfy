// The heuristic planner: from a filter to an execution plan, and what executing a plan returns.
module Planner {
  import opened Wrappers
  import opened Values
  import opened KeySpace
  import opened KeyExpressions
  import opened Indexes
  import opened RecordStore
  import opened ValueIndexScan
  import opened Query
  import opened ScanBounds

  datatype Plan =
    | TypeScan(typeName: string)
    | MultiScan(typeNames: seq<string>)
    | IndexScan(indexName: string, comparisons: ScanComparisons)
    | FilterBy(child: Plan, filter: Component)
    | UnionOf(children: seq<Plan>)
    | TypeFilter(child: Plan, typeNames: seq<string>)

  predicate HasFullScan(p: Plan) {
    match p
    case TypeScan(_) => true
    case MultiScan(_) => true
    case IndexScan(_, _) => false
    case FilterBy(child, _) => HasFullScan(child)
    case TypeFilter(child, _) => HasFullScan(child)
    case UnionOf(children) => exists j :: 0 <= j < |children| && HasFullScan(children[j])
  }

  // ---- Matching predicates to an index ----

  function FieldNames(es: seq<KeyExpression>): seq<string> {
    if es == [] then []
    else (if es[0].FieldKey? then [es[0].fieldName] else []) + FieldNames(es[1..])
  }

  /** _get_index_fields: children of a concatenation that are not fields are skipped. */
  function IndexFields(i: Index): seq<string> {
    match i.root
    case FieldKey(name, _, _) => [name]
    case ConcatKey(children) => FieldNames(children)
    case _ => []
  }

  function PredicatesOn(preds: seq<Component>, name: string): seq<Component>
    requires forall j :: 0 <= j < |preds| ==> preds[j].FieldIs?
  {
    if preds == [] then []
    else (if preds[0].fieldName == name then [preds[0]] else []) + PredicatesOn(preds[1..], name)
  }

  predicate AreFields(preds: seq<Component>) { forall j :: 0 <= j < |preds| ==> preds[j].FieldIs? }

  lemma {:induction false} PredicatesOnField(preds: seq<Component>, name: string)
    requires AreFields(preds)
    ensures var on := PredicatesOn(preds, name);
            AreFields(on) && forall j :: 0 <= j < |on| ==> on[j].fieldName == name && on[j] in preds
  {
    if preds != [] { PredicatesOnField(preds[1..], name); }
  }

  /** The first equality among predicates on one field. */
  function FirstEquality(on: seq<Component>): Option<Component>
    requires AreFields(on)
  {
    if on == [] then None
    else if IsEquality(on[0].comparison.kind) then Some(on[0])
    else FirstEquality(on[1..])
  }

  /** The last inequality among predicates on one field. */
  function LastInequality(on: seq<Component>): Option<Component>
    requires AreFields(on)
  {
    if on == [] then None
    else
      var later := LastInequality(on[1..]);
      if later.Some? then later
      else if IsInequality(on[0].comparison.kind) then Some(on[0])
      else None
  }

  datatype Match = Match(comparisons: ScanComparisons, matched: seq<Component>, score: nat)

  const NO_MATCH := Match(NO_COMPARISONS, [], 0)

  /** Equalities on the leading fields, then at most one inequality. */
  function MatchFields(fields: seq<string>, preds: seq<Component>, m: Match): Match
    requires AreFields(preds)
    decreases |fields|
  {
    if fields == [] then m
    else
      PredicatesOnField(preds, fields[0]);
      var on := PredicatesOn(preds, fields[0]);
      var equality := FirstEquality(on);
      var inequality := LastInequality(on);
      if equality.Some? then
        FirstEqualityIsField(on);
        MatchFields(fields[1..], preds,
          Match(m.comparisons.(equalities := m.comparisons.equalities + [equality.value.comparison]),
                m.matched + [equality.value], m.score + 10))
      else if inequality.Some? then
        LastInequalityIsField(on);
        Match(m.comparisons.(inequalities := m.comparisons.inequalities + [inequality.value.comparison]),
              m.matched + [inequality.value], m.score + 5)
      else m
  }

  lemma {:induction false} FirstEqualityIsField(on: seq<Component>)
    requires AreFields(on)
    ensures FirstEquality(on).Some? ==>
      FirstEquality(on).value in on && FirstEquality(on).value.FieldIs? &&
      IsEquality(FirstEquality(on).value.comparison.kind)
  {
    if on != [] { FirstEqualityIsField(on[1..]); }
  }

  lemma {:induction false} LastInequalityIsField(on: seq<Component>)
    requires AreFields(on)
    ensures LastInequality(on).Some? ==>
      LastInequality(on).value in on && LastInequality(on).value.FieldIs? &&
      IsInequality(LastInequality(on).value.comparison.kind)
  {
    if on != [] { LastInequalityIsField(on[1..]); }
  }

  function ScoreOf(i: Index, preds: seq<Component>): nat
    requires AreFields(preds)
  {
    MatchFields(IndexFields(i), preds, NO_MATCH).score
  }

  function Scores(indexes: seq<Index>, preds: seq<Component>): (scores: seq<nat>)
    requires AreFields(preds)
    ensures |scores| == |indexes| && forall n :: 0 <= n < |indexes| ==> scores[n] == ScoreOf(indexes[n], preds)
  {
    seq(|indexes|, n requires 0 <= n < |indexes| => ScoreOf(indexes[n], preds))
  }

  /** The first position with the greatest score, if any score is positive. */
  function BestOf(scores: seq<nat>): (best: Option<nat>)
    ensures best.None? ==> forall n :: 0 <= n < |scores| ==> scores[n] == 0
    ensures best.Some? ==>
      best.value < |scores| && scores[best.value] > 0 &&
      (forall n :: 0 <= n < |scores| ==> scores[n] <= scores[best.value]) &&
      (forall n :: 0 <= n < best.value ==> scores[n] < scores[best.value])
    decreases |scores|
  {
    if scores == [] then None
    else
      var n := |scores| - 1;
      var before := BestOf(scores[..n]);
      assert forall m :: 0 <= m < n ==> scores[..n][m] == scores[m];
      if scores[n] > (if before.None? then 0 else scores[before.value]) then Some(n) else before
  }

  function BestIndex(indexes: seq<Index>, preds: seq<Component>): (best: Option<nat>)
    requires AreFields(preds)
    ensures best.Some? ==> best.value < |indexes|
  {
    BestOf(Scores(indexes, preds))
  }

  function Without(preds: seq<Component>, matched: seq<Component>): seq<Component> {
    if preds == [] then []
    else (if preds[0] in matched then [] else [preds[0]]) + Without(preds[1..], matched)
  }

  // ---- Planning ----

  function ScanPlanFor(types: seq<string>): Plan {
    if |types| == 1 then TypeScan(types[0]) else MultiScan(types)
  }

  function Fields(children: seq<Component>): (fs: seq<Component>)
    ensures AreFields(fs)
  {
    if children == [] then []
    else (if children[0].FieldIs? then [children[0]] else []) + Fields(children[1..])
  }

  function Others(children: seq<Component>): seq<Component> {
    if children == [] then []
    else (if children[0].FieldIs? then [] else [children[0]]) + Others(children[1..])
  }

  function Combine(preds: seq<Component>): Component { if |preds| == 1 then preds[0] else And(preds) }

  function PlanAnd(q: Component, indexes: seq<Index>, types: seq<string>): Plan
    requires q.And?
  {
    var fields := Fields(q.children);
    var best := BestIndex(indexes, fields);
    if best.None? then FilterBy(ScanPlanFor(types), q)
    else
      var m := MatchFields(IndexFields(indexes[best.value]), fields, NO_MATCH);
      var scan := IndexScan(indexes[best.value].name, m.comparisons);
      var residual := Without(fields, m.matched) + Others(q.children);
      if residual == [] then scan else FilterBy(scan, Combine(residual))
  }

  function FirstIndexOn(indexes: seq<Index>, name: string): (n: Option<nat>)
    ensures n.Some? ==> n.value < |indexes| && IndexFields(indexes[n.value]) != [] && IndexFields(indexes[n.value])[0] == name
    ensures n.None? ==> forall m :: 0 <= m < |indexes| ==> IndexFields(indexes[m]) == [] || IndexFields(indexes[m])[0] != name
    decreases |indexes|
  {
    if indexes == [] then None
    else
      assert forall m :: 0 <= m < |indexes| - 1 ==> indexes[..|indexes| - 1][m] == indexes[m];
      var before := FirstIndexOn(indexes[..|indexes| - 1], name);
      var last := IndexFields(indexes[|indexes| - 1]);
      if before.Some? then before
      else if last != [] && last[0] == name then Some(|indexes| - 1)
      else None
  }

  function PlanField(q: Component, indexes: seq<Index>, types: seq<string>): Plan
    requires q.FieldIs?
  {
    var n := FirstIndexOn(indexes, q.fieldName);
    if n.Some? then IndexScan(indexes[n.value].name, FromComparison(q.comparison))
    else FilterBy(ScanPlanFor(types), q)
  }

  function PlanFilter(q: Component, indexes: seq<Index>, types: seq<string>): Plan
    decreases q, 0
  {
    match q
    case And(_) => PlanAnd(q, indexes, types)
    case Or(children) =>
      var plans := PlanEach(children, indexes, types);
      if |plans| > 1 && !AnyFullScan(plans) then UnionOf(plans)
      else FilterBy(ScanPlanFor(types), q)
    case FieldIs(_, _) => PlanField(q, indexes, types)
    case _ => FilterBy(ScanPlanFor(types), q)
  }

  predicate AnyFullScan(plans: seq<Plan>) { exists j :: 0 <= j < |plans| && HasFullScan(plans[j]) }

  function PlanEach(qs: seq<Component>, indexes: seq<Index>, types: seq<string>): (plans: seq<Plan>)
    ensures |plans| == |qs| && forall j :: 0 <= j < |qs| ==> plans[j] == PlanFilter(qs[j], indexes, types)
    decreases qs, 1
  {
    if qs == [] then [] else [PlanFilter(qs[0], indexes, types)] + PlanEach(qs[1..], indexes, types)
  }

  function IndexesFor(indexes: seq<Index>, typeName: string): seq<Index> {
    if indexes == [] then []
    else (if Applies(indexes[0], typeName) then [indexes[0]] else []) + IndexesFor(indexes[1..], typeName)
  }

  /** HeuristicPlanner.plan for a query over one record type. */
  function PlanQuery(meta: MetaData, typeName: string, filter: Option<Component>): Plan {
    if filter.None? then TypeScan(typeName)
    else
      var plan := PlanFilter(filter.value, IndexesFor(meta.indexes, typeName), [typeName]);
      if 1 < |meta.recordTypes| then TypeFilter(plan, [typeName]) else plan
  }

  // ---- The planner's loops ----

  /** The loops of _match_index over one index's fields and the predicates on each field. */
  method MatchOne(fields: seq<string>, preds: seq<Component>) returns (m: Match)
    requires AreFields(preds)
    ensures m == MatchFields(fields, preds, NO_MATCH)
  {
    m := NO_MATCH;
    for j := 0 to |fields|
      invariant MatchFields(fields[j..], preds, m) == MatchFields(fields, preds, NO_MATCH)
    {
      assert fields[j..][0] == fields[j] && fields[j..][1..] == fields[j + 1..];
      PredicatesOnField(preds, fields[j]);
      var on := PredicatesOn(preds, fields[j]);
      if on == [] {
        return;
      }
      var equality: Option<Component> := None;
      var inequality: Option<Component> := None;
      for l := 0 to |on|
        invariant equality.None?
        invariant FirstEquality(on) == FirstEquality(on[l..])
        invariant LastInequality(on) == if LastInequality(on[l..]).Some? then LastInequality(on[l..]) else inequality
      {
        assert on[l..][0] == on[l] && on[l..][1..] == on[l + 1..];
        var kind := on[l].comparison.kind;
        if IsEquality(kind) {
          equality := Some(on[l]);
          break;
        } else if IsInequality(kind) {
          inequality := Some(on[l]);
        }
      }
      FirstEqualityIsField(on);
      LastInequalityIsField(on);
      if equality.Some? {
        m := Match(m.comparisons.(equalities := m.comparisons.equalities + [equality.value.comparison]),
                   m.matched + [equality.value], m.score + 10);
      } else if inequality.Some? {
        m := Match(m.comparisons.(inequalities := m.comparisons.inequalities + [inequality.value.comparison]),
                   m.matched + [inequality.value], m.score + 5);
        return;
      } else {
        return;
      }
    }
  }

  /** _match_index: try each index, keep the first best. */
  method MatchIndex(preds: seq<Component>, indexes: seq<Index>)
    returns (best: Option<nat>, comparisons: ScanComparisons, residual: seq<Component>)
    requires AreFields(preds)
    ensures best == BestIndex(indexes, preds)
    ensures best.Some? ==>
      comparisons == MatchFields(IndexFields(indexes[best.value]), preds, NO_MATCH).comparisons &&
      residual == Without(preds, MatchFields(IndexFields(indexes[best.value]), preds, NO_MATCH).matched)
    ensures best.None? ==> comparisons == NO_COMPARISONS && residual == preds
  {
    best, comparisons, residual := None, NO_COMPARISONS, preds;
    var bestScore := 0;
    for n := 0 to |indexes|
      invariant best == BestOf(Scores(indexes, preds)[..n])
      invariant best.None? ==> bestScore == 0 && comparisons == NO_COMPARISONS && residual == preds
      invariant best.Some? ==>
        bestScore == ScoreOf(indexes[best.value], preds) &&
        comparisons == MatchFields(IndexFields(indexes[best.value]), preds, NO_MATCH).comparisons &&
        residual == Without(preds, MatchFields(IndexFields(indexes[best.value]), preds, NO_MATCH).matched)
    {
      ghost var scores := Scores(indexes, preds);
      assert scores[..n + 1][..n] == scores[..n] && scores[..n + 1][n] == ScoreOf(indexes[n], preds);
      var fields := IndexFields(indexes[n]);
      if fields != [] {
        var m := MatchOne(fields, preds);
        if m.score > bestScore {
          best := Some(n);
          comparisons := m.comparisons;
          residual := Without(preds, m.matched);
          bestScore := m.score;
        }
      }
    }
    assert Scores(indexes, preds)[..|indexes|] == Scores(indexes, preds);
  }

  /** The field predicates of a conjunction, and the rest. */
  method SplitChildren(children: seq<Component>) returns (fields: seq<Component>, others: seq<Component>)
    ensures fields == Fields(children) && others == Others(children)
  {
    fields, others := [], [];
    for j := 0 to |children|
      invariant fields + Fields(children[j..]) == Fields(children)
      invariant others + Others(children[j..]) == Others(children)
    {
      assert children[j..][0] == children[j] && children[j..][1..] == children[j + 1..];
      if children[j].FieldIs? {
        fields := fields + [children[j]];
      } else {
        others := others + [children[j]];
      }
    }
    assert fields + [] == fields && others + [] == others;
  }

  /** _plan_and. */
  method PlanAndLoop(q: Component, indexes: seq<Index>, types: seq<string>) returns (plan: Plan)
    requires q.And?
    ensures plan == PlanAnd(q, indexes, types)
  {
    hide Fields, Others, BestIndex, MatchFields, Without, Combine;
    var fields, others := SplitChildren(q.children);
    var best, comparisons, residual := MatchIndex(fields, indexes);
    if best.None? {
      return FilterBy(ScanPlanFor(types), q);
    }
    plan := IndexScan(indexes[best.value].name, comparisons);
    var allResidual := residual + others;
    if allResidual != [] {
      plan := FilterBy(plan, Combine(allResidual));
    }
  }

  /** _plan_or. */
  method PlanOrLoop(q: Component, indexes: seq<Index>, types: seq<string>) returns (plan: Plan)
    requires q.Or?
    ensures plan == PlanFilter(q, indexes, types)
    decreases q, 0
  {
    var plans: seq<Plan> := [];
    var canUseUnion := true;
    for j := 0 to |q.children|
      invariant |plans| == j && forall l :: 0 <= l < j ==> plans[l] == PlanFilter(q.children[l], indexes, types)
      invariant canUseUnion <==> !AnyFullScan(plans)
    {
      var child := PlanFilterLoop(q.children[j], indexes, types);
      ghost var before := plans;
      plans := plans + [child];
      assert forall l :: 0 <= l < j ==> plans[l] == before[l];
      assert plans[j] == child;
      if HasFullScan(child) {
        canUseUnion := false;
      } else if !canUseUnion {
        ghost var l :| 0 <= l < j && HasFullScan(before[l]);
        assert HasFullScan(plans[l]);
      }
    }
    assert plans == PlanEach(q.children, indexes, types);
    if canUseUnion && |plans| > 1 {
      plan := UnionOf(plans);
    } else {
      plan := FilterBy(ScanPlanFor(types), q);
    }
  }

  /** _plan_field. */
  method PlanFieldLoop(q: Component, indexes: seq<Index>, types: seq<string>) returns (plan: Plan)
    requires q.FieldIs?
    ensures plan == PlanField(q, indexes, types)
  {
    for n := 0 to |indexes|
      invariant FirstIndexOn(indexes[..n], q.fieldName).None?
    {
      var fields := IndexFields(indexes[n]);
      assert indexes[..n + 1][..n] == indexes[..n];
      if fields != [] && fields[0] == q.fieldName {
        FirstIndexStays(indexes, n + 1, q.fieldName);
        return IndexScan(indexes[n].name, FromComparison(q.comparison));
      }
    }
    assert indexes[..|indexes|] == indexes;
    plan := FilterBy(ScanPlanFor(types), q);
  }

  lemma {:induction false} FirstIndexStays(indexes: seq<Index>, n: nat, name: string)
    requires n <= |indexes| && FirstIndexOn(indexes[..n], name).Some?
    ensures FirstIndexOn(indexes, name) == FirstIndexOn(indexes[..n], name)
    decreases |indexes|
  {
    if n < |indexes| {
      var shorter := indexes[..|indexes| - 1];
      assert shorter[..n] == indexes[..n];
      FirstIndexStays(shorter, n, name);
    } else {
      assert indexes[..n] == indexes;
    }
  }

  /** _plan_filter. */
  method PlanFilterLoop(q: Component, indexes: seq<Index>, types: seq<string>) returns (plan: Plan)
    ensures plan == PlanFilter(q, indexes, types)
    decreases q, 1
  {
    match q {
      case And(_) => plan := PlanAndLoop(q, indexes, types);
      case Or(_) => plan := PlanOrLoop(q, indexes, types);
      case FieldIs(_, _) => plan := PlanFieldLoop(q, indexes, types);
      case _ => plan := FilterBy(ScanPlanFor(types), q);
    }
  }

  // ---- Execution ----

  /** All records of a type, in primary key order. */
  function ScanOfType(records: Records, typeName: string): seq<RecordKey> {
    KeysOfType(typeName, Sorted(PksOf(records, typeName)))
  }

  function ScanOfTypes(records: Records, typeNames: seq<string>): seq<RecordKey> {
    if typeNames == [] then [] else ScanOfType(records, typeNames[0]) + ScanOfTypes(records, typeNames[1..])
  }

  /** Only a VALUE index's scan returns records; the aggregate and TEXT maintainers return none. */
  function ScanIndex(i: Index, c: Content, records: Records, s: ScanComparisons): seq<RecordKey>
    requires RightKind(i, c)
  {
    if !i.kind.ValueIndex? then []
    else
      var range := ToScanRange(BoundsOf(s));
      LoadEntries(KeysBetween(c.entries.Keys, RangeBegin(range), RangeEnd(range)), ColumnSize(i.root), records)
  }

  function KeepHolding(keys: seq<RecordKey>, records: Records, q: Component): seq<RecordKey> {
    if keys == [] then []
    else (if keys[0] in records && Holds(q, records[keys[0]]) then [keys[0]] else [])
         + KeepHolding(keys[1..], records, q)
  }

  function KeepTypes(keys: seq<RecordKey>, typeNames: seq<string>): seq<RecordKey> {
    if keys == [] then []
    else (if keys[0].typeName in typeNames then [keys[0]] else []) + KeepTypes(keys[1..], typeNames)
  }

  /** The union keeps the first record seen with each primary key. */
  function DedupByPk(keys: seq<RecordKey>, seen: set<Tuple>): seq<RecordKey> {
    if keys == [] then []
    else if keys[0].pk in seen then DedupByPk(keys[1..], seen)
    else [keys[0]] + DedupByPk(keys[1..], seen + {keys[0].pk})
  }

  function Execute(p: Plan, meta: MetaData, st: State): seq<RecordKey>
    requires DistinctNames(meta.indexes) && HasContents(meta.indexes, st.contents)
    decreases p, 0
  {
    match p
    case TypeScan(typeName) => if typeName in meta.recordTypes then ScanOfType(st.records, typeName) else []
    case MultiScan(typeNames) => ScanOfTypes(st.records, Known(typeNames, meta))
    case IndexScan(name, comparisons) =>
      var n := FindIndex(meta.indexes, name);
      // An unknown index raises; the planner only names indexes it was given.
      if n.None? then []
      else ScanIndex(meta.indexes[n.value], st.contents[name], st.records, comparisons)
    case FilterBy(child, q) => KeepHolding(Execute(child, meta, st), st.records, q)
    case TypeFilter(child, typeNames) => KeepTypes(Execute(child, meta, st), typeNames)
    case UnionOf(children) => DedupByPk(ExecuteAll(children, meta, st), {})
  }

  function Known(typeNames: seq<string>, meta: MetaData): seq<string> {
    if typeNames == [] then []
    else (if typeNames[0] in meta.recordTypes then [typeNames[0]] else []) + Known(typeNames[1..], meta)
  }

  function ExecuteAll(ps: seq<Plan>, meta: MetaData, st: State): seq<RecordKey>
    requires DistinctNames(meta.indexes) && HasContents(meta.indexes, st.contents)
    decreases ps, 1
  {
    if ps == [] then [] else Execute(ps[0], meta, st) + ExecuteAll(ps[1..], meta, st)
  }

  lemma {:induction false} DedupConcat(a: seq<RecordKey>, b: seq<RecordKey>, seen: set<Tuple>)
    ensures DedupByPk(a + b, seen) == DedupByPk(a, seen) + DedupByPk(b, seen + set k | k in a :: k.pk)
    decreases |a|
  {
    if a == [] {
      assert a + b == b;
      assert seen + (set k | k in a :: k.pk) == seen;
    } else {
      assert (a + b)[1..] == a[1..] + b;
      var seen' := if a[0].pk in seen then seen else seen + {a[0].pk};
      DedupConcat(a[1..], b, seen');
      assert a == [a[0]] + a[1..];
      assert seen' + (set k | k in a[1..] :: k.pk) == seen + (set k | k in a :: k.pk);
    }
  }

  /** UnionPlan.execute: all children's results in turn, each primary key once. */
  method ExecuteUnion(children: seq<Plan>, meta: MetaData, st: State) returns (allResults: seq<RecordKey>)
    requires DistinctNames(meta.indexes) && HasContents(meta.indexes, st.contents)
    ensures allResults == Execute(UnionOf(children), meta, st)
  {
    allResults := [];
    var seenKeys: set<Tuple> := {};
    for j := 0 to |children|
      invariant allResults + DedupByPk(ExecuteAll(children[j..], meta, st), seenKeys) == Execute(UnionOf(children), meta, st)
    {
      hide Execute;
      assert children[j..][0] == children[j] && children[j..][1..] == children[j + 1..];
      var cursor := Execute(children[j], meta, st);
      ghost var later := ExecuteAll(children[j + 1..], meta, st);
      for l := 0 to |cursor|
        invariant allResults + DedupByPk(cursor[l..] + later, seenKeys) == Execute(UnionOf(children), meta, st)
      {
        assert (cursor[l..] + later)[0] == cursor[l] && (cursor[l..] + later)[1..] == cursor[l + 1..] + later;
        if cursor[l].pk !in seenKeys {
          seenKeys := seenKeys + {cursor[l].pk};
          allResults := allResults + [cursor[l]];
        }
      }
      assert cursor[|cursor|..] + later == later;
    }
  }
}
