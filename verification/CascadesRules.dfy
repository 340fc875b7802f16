// The default rules of the Cascades optimizer, applied to a member of a memo group.
module CascadesRules {
  import opened Wrappers
  import opened KeyExpressions
  import opened Indexes
  import opened RecordStore
  import opened Query
  import opened CascadesExpressions
  import opened MemoGroups
  import opened PredicateSplit

  datatype Rule =
    | PushFilterThroughProject
    | FilterMerge
    | PredicatePushDown
    | ImplementScan
    | ImplementIndexScan
    | ImplementFilter
    | ImplementSort
    | ImplementUnion
    | ImplementIntersection
    | IndexSelection

  const TRANSFORMATIONS: seq<Rule> := [PushFilterThroughProject, FilterMerge, PredicatePushDown]
  const IMPLEMENTATIONS: seq<Rule> :=
    [ImplementScan, ImplementIndexScan, ImplementFilter, ImplementSort, ImplementUnion, ImplementIntersection, IndexSelection]

  function Name(rule: Rule): string {
    match rule
    case PushFilterThroughProject => "PushFilterThroughProjectRule"
    case FilterMerge => "FilterMergeRule"
    case PredicatePushDown => "PredicatePushDownRule"
    case ImplementScan => "ImplementScanRule"
    case ImplementIndexScan => "ImplementIndexScanRule"
    case ImplementFilter => "ImplementFilterRule"
    case ImplementSort => "ImplementSortRule"
    case ImplementUnion => "ImplementUnionRule"
    case ImplementIntersection => "ImplementIntersectionRule"
    case IndexSelection => "IndexSelectionRule"
  }

  // ---- Matching ----

  function FirstOf(xs: seq<GroupExpression>, wanted: RelExpr -> bool): Option<RelExpr> {
    if xs == [] then None
    else if wanted(xs[0].expression) then Some(xs[0].expression)
    else FirstOf(xs[1..], wanted)
  }

  /** The first wanted member of the group of x's only input: rules look at any member, not at the
      input the expression was written with. */
  function InputMember(m: MemoState, x: GroupExpression, wanted: RelExpr -> bool): Option<RelExpr> {
    if x.childGroups == [] || x.childGroups[0] >= |m.groups| then None
    else FirstOf(m.groups[x.childGroups[0]].expressions, wanted)
  }

  predicate IsProject(e: RelExpr) { e.LogicalProject? }
  predicate IsFilter(e: RelExpr) { e.LogicalFilter? }
  predicate IsUnion(e: RelExpr) { e.LogicalUnion? }
  predicate IsScan(e: RelExpr) { e.LogicalScan? }

  predicate Matches(m: MemoState, rule: Rule, x: GroupExpression) {
    var e := x.expression;
    match rule
    case PushFilterThroughProject => e.LogicalFilter? && InputMember(m, x, IsProject).Some?
    case FilterMerge => e.LogicalFilter? && InputMember(m, x, IsFilter).Some?
    case PredicatePushDown => e.LogicalFilter? && InputMember(m, x, IsUnion).Some?
    case ImplementScan => e.LogicalScan?
    case ImplementIndexScan => e.LogicalIndexScan?
    case ImplementFilter => e.LogicalFilter?
    case ImplementSort => e.LogicalSort?
    case ImplementUnion => e.LogicalUnion?
    case ImplementIntersection => e.LogicalIntersection?
    case IndexSelection => e.LogicalFilter? && InputMember(m, x, IsScan).Some?
  }

  // ---- Applying ----

  function FilterEach(q: Component, es: seq<RelExpr>): (fs: seq<RelExpr>)
    ensures |fs| == |es| && forall j :: 0 <= j < |es| ==> fs[j] == LogicalFilter(q, es[j])
  {
    seq(|es|, j requires 0 <= j < |es| => LogicalFilter(q, es[j]))
  }

  /** The plan that scans one index for the part of the filter it can serve. */
  function IndexPlan(i: Index, q: Component, types: seq<string>): seq<RelExpr> {
    if !Selectable(i, types) then []
    else
      var s := SplitPredicate(q, i.root.fieldName);
      if s.scan.None? then []
      else
        var scan := PhysicalIndexScan(i.name, s.scan.value, false);
        if s.residual.Some? then [PhysicalFilter(s.residual.value, scan)] else [scan]
  }

  function IndexPlans(indexes: seq<Index>, q: Component, types: seq<string>): seq<RelExpr> {
    if indexes == [] then [] else IndexPlan(indexes[0], q, types) + IndexPlans(indexes[1..], q, types)
  }

  /** The alternatives a matching rule adds to x's group. */
  function Alternatives(meta: MetaData, m: MemoState, rule: Rule, x: GroupExpression): seq<RelExpr>
    requires Matches(m, rule, x)
  {
    var e := x.expression;
    match rule
    case PushFilterThroughProject =>
      var project := InputMember(m, x, IsProject).value;
      FirstOfIsWanted(m, x, IsProject);
      [LogicalProject(project.fields, LogicalFilter(e.predicate_, project.input))]
    case FilterMerge =>
      var inner := InputMember(m, x, IsFilter).value;
      FirstOfIsWanted(m, x, IsFilter);
      [LogicalFilter(And([e.predicate_, inner.predicate_]), inner.input)]
    case PredicatePushDown =>
      var union := InputMember(m, x, IsUnion).value;
      FirstOfIsWanted(m, x, IsUnion);
      [LogicalUnion(FilterEach(e.predicate_, union.inputs), true)]
    case ImplementScan => [PhysicalScan(e.types)]
    case ImplementIndexScan =>
      [PhysicalIndexScan(e.indexName, e.scanPredicate, false), PhysicalIndexScan(e.indexName, e.scanPredicate, true)]
    case ImplementFilter => [PhysicalFilter(e.predicate_, e.input)]
    case ImplementSort => [PhysicalSort(e.sortFields, e.input)]
    case ImplementUnion => [PhysicalUnion(e.inputs)]
    case ImplementIntersection => [PhysicalIntersection(e.inputs)]
    case IndexSelection =>
      var scan := InputMember(m, x, IsScan).value;
      FirstOfIsWanted(m, x, IsScan);
      IndexPlans(meta.indexes, e.predicate_, scan.types)
  }

  lemma {:induction false} FirstOfMembers(xs: seq<GroupExpression>, wanted: RelExpr -> bool)
    ensures FirstOf(xs, wanted).Some? ==>
      wanted(FirstOf(xs, wanted).value) && exists n :: 0 <= n < |xs| && xs[n].expression == FirstOf(xs, wanted).value
  {
    if xs != [] {
      FirstOfMembers(xs[1..], wanted);
      if FirstOf(xs, wanted).Some? {
        if wanted(xs[0].expression) {
          assert xs[0].expression == FirstOf(xs, wanted).value;
        } else {
          var n :| 0 <= n < |xs[1..]| && xs[1..][n].expression == FirstOf(xs[1..], wanted).value;
          assert xs[n + 1].expression == FirstOf(xs, wanted).value;
        }
      }
    }
  }

  lemma FirstOfIsWanted(m: MemoState, x: GroupExpression, wanted: RelExpr -> bool)
    requires InputMember(m, x, wanted).Some?
    ensures wanted(InputMember(m, x, wanted).value)
  {
    FirstOfMembers(m.groups[x.childGroups[0]].expressions, wanted);
  }

  // ---- Soundness ----

  /** An alternative denotes what the expression denotes, is safe for the rules, and is no deeper. */
  ghost predicate SoundFor(meta: MetaData, fields: set<string>, alternative: RelExpr, e: RelExpr) {
    SameResult(meta, alternative, e) && Safe(meta, fields, alternative) && Depth(alternative) <= Depth(e)
  }

  /** Whatever member of the child group the rule picks stands for the input. */
  lemma {:induction false} PickedMember(meta: MetaData, fields: set<string>, m: MemoState, g: nat,
        x: GroupExpression, wanted: RelExpr -> bool)
    requires Equivalent(meta, fields, m) && Ranked(m) && g < |m.groups| && x in m.groups[g].expressions
    requires x.expression.LogicalFilter? && InputMember(m, x, wanted).Some?
    ensures wanted(InputMember(m, x, wanted).value)
    ensures SoundFor(meta, fields, InputMember(m, x, wanted).value, x.expression.input)
    ensures Safe(meta, fields, x.expression)
  {
    MemberIsEquivalent(meta, fields, m, g, x);
    MemberIsRanked(m, g, x);
    var c := x.childGroups[0];
    assert DenotesChild(meta, m.groups, c, Children(x.expression)[0]);
    FirstOfMembers(m.groups[c].expressions, wanted);
    var y := InputMember(m, x, wanted).value;
    var n :| 0 <= n < |m.groups[c].expressions| && m.groups[c].expressions[n].expression == y;
    var member := m.groups[c].expressions[n];
    assert member in m.groups[c].expressions;
    MemberIsEquivalent(meta, fields, m, c, member);
    MemberIsRanked(m, c, member);
    SameResultTransitive(meta, y, m.groups[c].origin, x.expression.input);
  }

  lemma MemberIsRanked(m: MemoState, g: nat, x: GroupExpression)
    requires Ranked(m) && g < |m.groups| && x in m.groups[g].expressions
    ensures MemberRanked(m.groups, g, x)
  {
    var n :| 0 <= n < |m.groups[g].expressions| && m.groups[g].expressions[n] == x;
    assert MemberRanked(m.groups, g, m.groups[g].expressions[n]);
  }

  /** Filter(Project(X)) to Project(Filter(X)). */
  lemma PushFilterIsSound(meta: MetaData, fields: set<string>, project: RelExpr, e: RelExpr)
    requires e.LogicalFilter? && project.LogicalProject? && Safe(meta, fields, e)
    requires SoundFor(meta, fields, project, e.input)
    ensures SoundFor(meta, fields, LogicalProject(project.fields, LogicalFilter(e.predicate_, project.input)), e)
  {
    var alternative := LogicalProject(project.fields, LogicalFilter(e.predicate_, project.input));
    forall records: Records | Indexed(meta, records)
      ensures Rows(meta.indexes, records, alternative) == Rows(meta.indexes, records, e)
    {
      assert Rows(meta.indexes, records, project) == Rows(meta.indexes, records, e.input);
      PushFilterSameRows(meta.indexes, records, project, e);
    }
  }

  lemma PushFilterSameRows(indexes: seq<Index>, records: Records, project: RelExpr, e: RelExpr)
    requires e.LogicalFilter? && project.LogicalProject? && ProjectsAll(e.predicate_, project.fields)
    requires Rows(indexes, records, project) == Rows(indexes, records, e.input)
    ensures Rows(indexes, records, LogicalProject(project.fields, LogicalFilter(e.predicate_, project.input)))
         == Rows(indexes, records, e)
  {
    var below := Rows(indexes, records, project.input);
    FilterThroughProject(below, e.predicate_, project.fields);
    assert Rows(indexes, records, LogicalFilter(e.predicate_, project.input)) == FilterBag(below, e.predicate_);
  }

  /** Filter(Filter(X, inner), outer) to Filter(X, AND(outer, inner)). */
  lemma FilterMergeIsSound(meta: MetaData, fields: set<string>, inner: RelExpr, e: RelExpr)
    requires e.LogicalFilter? && inner.LogicalFilter? && Safe(meta, fields, e)
    requires SoundFor(meta, fields, inner, e.input)
    ensures SoundFor(meta, fields, LogicalFilter(And([e.predicate_, inner.predicate_]), inner.input), e)
  {
    var both := [e.predicate_, inner.predicate_];
    var alternative := LogicalFilter(And(both), inner.input);
    forall records: Records | Indexed(meta, records)
      ensures Rows(meta.indexes, records, alternative) == Rows(meta.indexes, records, e)
    {
      assert Rows(meta.indexes, records, inner) == Rows(meta.indexes, records, e.input);
      FilterBagAnd(Rows(meta.indexes, records, inner.input), e.predicate_, inner.predicate_);
    }
    MentionsBoth(e.predicate_, inner.predicate_);
  }

  lemma MentionsBoth(p: Component, q: Component)
    ensures Mentions(And([p, q])) == Mentions(p) + Mentions(q)
  {
    assert [p, q][1..] == [q] && [q][1..] == [];
    assert MentionsAny([q]) == Mentions(q);
  }

  lemma {:induction false} FilterSumRows(indexes: seq<Index>, records: Records, q: Component, es: seq<RelExpr>)
    ensures SumRows(indexes, records, FilterEach(q, es)) == FilterBag(SumRows(indexes, records, es), q)
    decreases |es|
  {
    if es == [] {
      assert FilterEach(q, es) == [];
    } else {
      FilterSumRows(indexes, records, q, es[1..]);
      FilterSumStep(indexes, records, q, es);
    }
  }

  lemma FilterSumStep(indexes: seq<Index>, records: Records, q: Component, es: seq<RelExpr>)
    requires es != []
    requires SumRows(indexes, records, FilterEach(q, es[1..])) == FilterBag(SumRows(indexes, records, es[1..]), q)
    ensures SumRows(indexes, records, FilterEach(q, es)) == FilterBag(SumRows(indexes, records, es), q)
  {
    hide *;
    var fs := FilterEach(q, es);
    assert fs[1..] == FilterEach(q, es[1..]);
    SumFirst(indexes, records, es);
    SumFirst(indexes, records, fs);
    RowsOfFilter(indexes, records, q, es[0]);
    FilterBagSum(Rows(indexes, records, es[0]), SumRows(indexes, records, es[1..]), q);
  }

  lemma SumFirst(indexes: seq<Index>, records: Records, es: seq<RelExpr>)
    requires es != []
    ensures SumRows(indexes, records, es) == Rows(indexes, records, es[0]) + SumRows(indexes, records, es[1..])
  {
    hide Rows;
  }

  /** Filter(Union(A, B)) to Union(Filter(A), Filter(B)). */
  lemma PushDownIsSound(meta: MetaData, fields: set<string>, union: RelExpr, e: RelExpr)
    requires e.LogicalFilter? && union.LogicalUnion? && Safe(meta, fields, e)
    requires SoundFor(meta, fields, union, e.input)
    ensures SoundFor(meta, fields, LogicalUnion(FilterEach(e.predicate_, union.inputs), true), e)
  {
    var inputs := FilterEach(e.predicate_, union.inputs);
    forall records: Records | Indexed(meta, records)
      ensures Rows(meta.indexes, records, LogicalUnion(inputs, true)) == Rows(meta.indexes, records, e)
    {
      assert Rows(meta.indexes, records, union) == Rows(meta.indexes, records, e.input);
      FilterSumRows(meta.indexes, records, e.predicate_, union.inputs);
      FilterBagDistinct(SumRows(meta.indexes, records, union.inputs), e.predicate_);
    }
    AllSafeEach(meta, fields, union.inputs);
    AllSafeEach(meta, fields, inputs);
    forall j | 0 <= j < |inputs| ensures Depth(inputs[j]) <= Depth(union) && Safe(meta, fields, inputs[j]) {
      ChildrenAreShallower(union);
      assert Children(union)[j] == union.inputs[j];
      assert inputs[j] == LogicalFilter(e.predicate_, union.inputs[j]);
    }
    MaxDepthAtMost(inputs, Depth(union));
  }

  // ---- Index selection ----

  /** A scan returns each stored record as often as its type is listed. */
  lemma {:induction false} ScanBagCount(records: Records, types: seq<string>, r: Row)
    ensures ScanBag(records, types)[r] ==
      if r.key in records && r.record == records[r.key] then multiset(types)[r.key.typeName] else 0
    decreases |types|
  {
    if types != [] {
      ScanBagCount(records, types[1..], r);
      assert types == [types[0]] + types[1..];
      assert r in RowsOfType(records, types[0]) <==>
        r.key.typeName == types[0] && r.key in records && r.record == records[r.key];
    }
  }

  lemma {:induction false} ListedOnce(types: seq<string>, t: string)
    requires forall j, l :: 0 <= j < l < |types| ==> types[j] != types[l]
    ensures multiset(types)[t] == if t in types then 1 else 0
    decreases |types|
  {
    if types != [] {
      ListedOnce(types[1..], t);
      assert types == [types[0]] + types[1..];
      assert types[0] !in types[1..];
    }
  }

  /** One row, through the index and through the scan. */
  lemma IndexRowCount(meta: MetaData, records: Records, i: Index, q: Component, types: seq<string>, r: Row)
    requires Indexed(meta, records) && i in meta.indexes && Selectable(i, types)
    requires ScanIsCovered(meta, types) && SplitPredicate(q, i.root.fieldName).scan.Some?
    ensures var s := SplitPredicate(q, i.root.fieldName);
            r in IndexRows(i, records, s.scan.value) && PartHolds(s.residual, r.record) <==>
            ScanBag(records, types)[r] == 1 && Holds(q, r.record)
    ensures ScanBag(records, types)[r] <= 1
  {
    ScanBagCount(records, types, r);
    ListedOnce(types, r.key.typeName);
    SplitIsEquivalent(q, i.root.fieldName, r.record);
    if r.key in records {
      var n :| 0 <= n < |meta.indexes| && meta.indexes[n] == i;
      assert CoversExactly(meta, meta.indexes[n], types);
      assert r.key.typeName in meta.recordTypes;
    }
  }

  /** Filter(Scan(types)) to Filter(IndexScan(index, scan part), residual part). */
  lemma IndexPlanSameRows(meta: MetaData, records: Records, n: nat, q: Component, types: seq<string>)
    requires Indexed(meta, records) && DistinctNames(meta.indexes) && n < |meta.indexes|
    requires ScanIsCovered(meta, types) && IndexPlan(meta.indexes[n], q, types) != []
    ensures Rows(meta.indexes, records, IndexPlan(meta.indexes[n], q, types)[0]) == FilterBag(ScanBag(records, types), q)
  {
    hide Holds, PartHolds, ScanIsCovered, SplitPredicate, IndexRows, ScanBag, Indexed;
    var i := meta.indexes[n];
    var s := SplitPredicate(q, i.root.fieldName);
    var found := IndexRows(i, records, s.scan.value);
    FindDistinct(meta.indexes, n);
    assert Rows(meta.indexes, records, IndexPlan(i, q, types)[0]) == Remaining(found, s.residual);
    forall r ensures Remaining(found, s.residual)[r] == FilterBag(ScanBag(records, types), q)[r] {
      IndexRowCount(meta, records, i, q, types, r);
      FilterBagCount(ScanBag(records, types), q, r);
      RemainingCount(found, s.residual, r);
    }
    SameCounts(Remaining(found, s.residual), FilterBag(ScanBag(records, types), q));
  }

  ghost function Remaining(found: set<Row>, residual: Option<Component>): Bag {
    if residual.Some? then FilterBag(multiset(found), residual.value) else multiset(found)
  }

  lemma RemainingCount(found: set<Row>, residual: Option<Component>, r: Row)
    ensures Remaining(found, residual)[r] == if r in found && PartHolds(residual, r.record) then 1 else 0
  {
    if residual.Some? { FilterBagCount(multiset(found), residual.value, r); }
  }

  lemma {:induction false} IndexPlansFrom(indexes: seq<Index>, q: Component, types: seq<string>, k: nat)
    requires k < |IndexPlans(indexes, q, types)|
    ensures exists n :: 0 <= n < |indexes| && IndexPlan(indexes[n], q, types) == [IndexPlans(indexes, q, types)[k]]
  {
    var first := IndexPlan(indexes[0], q, types);
    if k < |first| {
      assert IndexPlan(indexes[0], q, types) == [IndexPlans(indexes, q, types)[k]];
    } else {
      IndexPlansFrom(indexes[1..], q, types, k - |first|);
      var n :| 0 <= n < |indexes[1..]| &&
        IndexPlan(indexes[1..][n], q, types) == [IndexPlans(indexes[1..], q, types)[k - |first|]];
      assert IndexPlan(indexes[n + 1], q, types) == [IndexPlans(indexes, q, types)[k]];
    }
  }

  lemma IndexPlansAreSound(meta: MetaData, fields: set<string>, scan: RelExpr, e: RelExpr, k: nat)
    requires e.LogicalFilter? && scan.LogicalScan? && Safe(meta, fields, e) && DistinctNames(meta.indexes)
    requires SoundFor(meta, fields, scan, e.input)
    requires k < |IndexPlans(meta.indexes, e.predicate_, scan.types)|
    ensures SoundFor(meta, fields, IndexPlans(meta.indexes, e.predicate_, scan.types)[k], e)
  {
    hide IndexPlan, IndexPlans, ScanIsCovered, DistinctNames;
    var plan := IndexPlans(meta.indexes, e.predicate_, scan.types)[k];
    IndexPlansFrom(meta.indexes, e.predicate_, scan.types, k);
    var n :| 0 <= n < |meta.indexes| && IndexPlan(meta.indexes[n], e.predicate_, scan.types) == [plan];
    forall records: Records | Indexed(meta, records)
      ensures Rows(meta.indexes, records, plan) == Rows(meta.indexes, records, e)
    {
      assert Rows(meta.indexes, records, scan) == Rows(meta.indexes, records, e.input);
      IndexPlanSameRows(meta, records, n, e.predicate_, scan.types);
    }
    IndexPlanIsFlat(meta, fields, meta.indexes[n], e.predicate_, scan.types);
  }

  lemma IndexPlanIsFlat(meta: MetaData, fields: set<string>, i: Index, q: Component, types: seq<string>)
    requires IndexPlan(i, q, types) != []
    ensures Safe(meta, fields, IndexPlan(i, q, types)[0]) && Depth(IndexPlan(i, q, types)[0]) <= 2
  {
  }

  /** Every alternative of every default rule is sound for the member it was made from. */
  lemma AlternativesAreSound(meta: MetaData, fields: set<string>, m: MemoState, rule: Rule, g: nat,
        x: GroupExpression, k: nat)
    requires Equivalent(meta, fields, m) && Ranked(m) && DistinctNames(meta.indexes)
    requires g < |m.groups| && x in m.groups[g].expressions && Matches(m, rule, x)
    requires k < |Alternatives(meta, m, rule, x)|
    ensures SoundFor(meta, fields, Alternatives(meta, m, rule, x)[k], x.expression)
  {
    var e := x.expression;
    MemberIsEquivalent(meta, fields, m, g, x);
    match rule
    case PushFilterThroughProject =>
      PickedMember(meta, fields, m, g, x, IsProject);
      PushFilterIsSound(meta, fields, InputMember(m, x, IsProject).value, e);
    case FilterMerge =>
      PickedMember(meta, fields, m, g, x, IsFilter);
      FilterMergeIsSound(meta, fields, InputMember(m, x, IsFilter).value, e);
    case PredicatePushDown =>
      PickedMember(meta, fields, m, g, x, IsUnion);
      PushDownIsSound(meta, fields, InputMember(m, x, IsUnion).value, e);
    case IndexSelection =>
      PickedMember(meta, fields, m, g, x, IsScan);
      IndexPlansAreSound(meta, fields, InputMember(m, x, IsScan).value, e, k);
    case _ => ImplementIsSound(meta, fields, Alternatives(meta, m, rule, x)[k], e);
  }

  /** A physical form of a logical node, over the same children. */
  predicate Implements(p: RelExpr, e: RelExpr) {
    match e
    case LogicalScan(types) => p == PhysicalScan(types)
    case LogicalIndexScan(name, q, _) => p == PhysicalIndexScan(name, q, false) || p == PhysicalIndexScan(name, q, true)
    case LogicalFilter(q, input) => p == PhysicalFilter(q, input)
    case LogicalSort(fields, input) => p == PhysicalSort(fields, input)
    case LogicalUnion(inputs, _) => p == PhysicalUnion(inputs)
    case LogicalIntersection(inputs) => p == PhysicalIntersection(inputs)
    case _ => false
  }

  lemma ImplementIsSound(meta: MetaData, fields: set<string>, p: RelExpr, e: RelExpr)
    requires Implements(p, e) && Safe(meta, fields, e)
    ensures SoundFor(meta, fields, p, e)
  {
  }

  // ---- Rows, one level at a time ----

  lemma RowsOfScan(indexes: seq<Index>, records: Records, types: seq<string>)
    ensures Rows(indexes, records, LogicalScan(types)) == ScanBag(records, types)
  {
  }

  lemma RowsOfFilter(indexes: seq<Index>, records: Records, q: Component, input: RelExpr)
    ensures Rows(indexes, records, LogicalFilter(q, input)) == FilterBag(Rows(indexes, records, input), q)
  {
  }

  lemma RowsOfProject(indexes: seq<Index>, records: Records, fields: seq<string>, input: RelExpr)
    ensures Rows(indexes, records, LogicalProject(fields, input)) == ProjectBag(Rows(indexes, records, input), fields)
  {
  }

  lemma OneRow(records: Records, k: RecordKey)
    requires records.Keys == {k}
    ensures ScanBag(records, [k.typeName]) == multiset{Row(k, records[k])}
  {
    assert RowsOfType(records, k.typeName) == {Row(k, records[k])};
    assert [k.typeName][1..] == [];
  }

  lemma ProjectOne(r: Row, fields: seq<string>)
    ensures ProjectBag(multiset{r}, fields) == multiset{Projected(r, fields)}
  {
    ProjectBagRemove(multiset{r}, fields, r);
    assert multiset{r} - multiset{r} == multiset{};
  }
}
