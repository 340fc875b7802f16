// The Cascades optimizer's steps on its memo: exploring, implementing and costing members.
module CascadesPlanner {
  import opened Wrappers
  import opened Indexes
  import opened RecordStore
  import opened Query
  import opened CascadesExpressions
  import opened MemoGroups
  import opened CascadesRules

  function AddAll(m: MemoState, es: seq<RelExpr>, g: nat): (m': MemoState)
    ensures |m'.groups| >= |m.groups|
    decreases |es|
  {
    if es == [] then m else AddAll(AddToGroup(m, es[0], g), es[1..], g)
  }

  function MarkExplored(m: MemoState, g: nat, rule: Rule): MemoState
    requires g < |m.groups|
  {
    m.(groups := m.groups[g := m.groups[g].(exploredRules := m.groups[g].exploredRules + {Name(rule)})])
  }

  /** One rule on one member.  A transformation is tried once per group, an implementation on every
      member. */
  function ApplyRule(meta: MetaData, m: MemoState, rule: Rule, g: nat, x: GroupExpression, once: bool): (m': MemoState)
    requires g < |m.groups|
    ensures |m'.groups| >= |m.groups|
  {
    if !Matches(m, rule, x) || (once && Name(rule) in m.groups[g].exploredRules) then m
    else
      var added := AddAll(m, Alternatives(meta, m, rule, x), g);
      if once then MarkExplored(added, g, rule) else added
  }

  function ApplyRules(meta: MetaData, m: MemoState, rules: seq<Rule>, g: nat, x: GroupExpression,
        once: bool): (m': MemoState)
    requires g < |m.groups|
    ensures |m'.groups| >= |m.groups|
    decreases |rules|
  {
    if rules == [] then m
    else ApplyRules(meta, ApplyRule(meta, m, rules[0], g, x, once), rules[1..], g, x, once)
  }

  /** _explore_expression. */
  function Explored(meta: MetaData, m: MemoState, g: nat, x: GroupExpression): MemoState
    requires g < |m.groups|
  {
    ApplyRules(meta, m, TRANSFORMATIONS, g, x, true)
  }

  /** _implement_expression: logical members only. */
  function Implemented(meta: MetaData, m: MemoState, g: nat, x: GroupExpression): MemoState
    requires g < |m.groups|
  {
    if IsPhysical(x.expression) then m else ApplyRules(meta, m, IMPLEMENTATIONS, g, x, false)
  }

  /** One task on the n-th member of group g; the cost model's answer is a parameter. */
  datatype Task = Explore(g: nat, n: nat) | Implement(g: nat, n: nat) | OptimizeInputs(g: nat, n: nat, cost: real)

  function Process(meta: MetaData, m: MemoState, task: Task): MemoState {
    if task.g >= |m.groups| || task.n >= |m.groups[task.g].expressions| then m
    else
      var x := m.groups[task.g].expressions[task.n];
      match task
      case Explore(g, _) => Explored(meta, m, g, x)
      case Implement(g, _) => Implemented(meta, m, g, x)
      case OptimizeInputs(g, n, cost) => OfferWinner(m, g, n, cost)
  }

  function ProcessAll(meta: MetaData, m: MemoState, tasks: seq<Task>): MemoState
    decreases |tasks|
  {
    if tasks == [] then m else ProcessAll(meta, Process(meta, m, tasks[0]), tasks[1..])
  }

  const EMPTY: MemoState := MemoState([], map[], 0)

  // ---- Every run keeps the memo ----

  ghost predicate Sound(meta: MetaData, fields: set<string>, m: MemoState) {
    Equivalent(meta, fields, m) && Ranked(m)
  }

  /** Groups keep their origins and their members. */
  ghost predicate Grown(m: MemoState, m': MemoState) {
    SameOrigins(m.groups, m'.groups) && forall h :: 0 <= h < |m.groups| ==> m.groups[h].expressions <= m'.groups[h].expressions
  }

  lemma GrownTransitive(a: MemoState, b: MemoState, c: MemoState)
    requires Grown(a, b) && Grown(b, c)
    ensures Grown(a, c)
  {
  }

  lemma AddOneKeeps(meta: MetaData, fields: set<string>, m: MemoState, e: RelExpr, g: nat)
    requires Sound(meta, fields, m) && g < |m.groups| && SoundFor(meta, fields, e, m.groups[g].origin)
    ensures Sound(meta, fields, AddToGroup(m, e, g)) && Grown(m, AddToGroup(m, e, g))
  {
    hide Equivalent, Ranked, AddToGroup;
    AddToGroupKeeps(meta, fields, m, e, g);
    var m' := AddToGroup(m, e, g);
    var members := m'.groups[g].expressions;
    assert members[..|members| - 1] <= members;
  }

  lemma {:induction false} AddAllKeeps(meta: MetaData, fields: set<string>, m: MemoState, es: seq<RelExpr>, g: nat)
    requires Sound(meta, fields, m) && g < |m.groups|
    requires forall k :: 0 <= k < |es| ==> SoundFor(meta, fields, es[k], m.groups[g].origin)
    ensures Sound(meta, fields, AddAll(m, es, g)) && Grown(m, AddAll(m, es, g))
    decreases |es|
  {
    hide Sound, SoundFor, AddToGroup;
    if es != [] {
      AddOneKeeps(meta, fields, m, es[0], g);
      var m1 := AddToGroup(m, es[0], g);
      assert m1.groups[g].origin == m.groups[g].origin;
      AddAllKeeps(meta, fields, m1, es[1..], g);
      GrownTransitive(m, m1, AddAll(m1, es[1..], g));
    }
  }

  lemma MarkKeeps(meta: MetaData, fields: set<string>, m: MemoState, g: nat, rule: Rule)
    requires Sound(meta, fields, m) && g < |m.groups|
    ensures Sound(meta, fields, MarkExplored(m, g, rule)) && Grown(m, MarkExplored(m, g, rule))
  {
    var m' := MarkExplored(m, g, rule);
    forall h, n | 0 <= h < |m'.groups| && 0 <= n < |m'.groups[h].expressions|
      ensures MemberEquivalent(meta, fields, m'.groups, h, m'.groups[h].expressions[n])
      ensures MemberRanked(m'.groups, h, m'.groups[h].expressions[n])
    {
      MemberStaysEquivalent(meta, fields, m.groups, m'.groups, h, m.groups[h].expressions[n]);
      MemberStaysRanked(m.groups, m'.groups, h, m.groups[h].expressions[n]);
    }
    forall fp | fp in m'.fingerprints ensures DenotesChild(meta, m'.groups, m'.fingerprints[fp], fp) {
      assert DenotesChild(meta, m.groups, m.fingerprints[fp], fp);
    }
  }

  lemma AlternativeFitsGroup(meta: MetaData, fields: set<string>, m: MemoState, g: nat, x: GroupExpression, e: RelExpr)
    requires Sound(meta, fields, m) && g < |m.groups| && x in m.groups[g].expressions
    requires SoundFor(meta, fields, e, x.expression)
    ensures SoundFor(meta, fields, e, m.groups[g].origin)
  {
    MemberIsEquivalent(meta, fields, m, g, x);
    MemberIsRanked(m, g, x);
    SameResultTransitive(meta, e, x.expression, m.groups[g].origin);
  }

  lemma ApplyRuleKeeps(meta: MetaData, fields: set<string>, m: MemoState, rule: Rule, g: nat, x: GroupExpression,
        once: bool)
    requires Sound(meta, fields, m) && DistinctNames(meta.indexes)
    requires g < |m.groups| && x in m.groups[g].expressions
    ensures Sound(meta, fields, ApplyRule(meta, m, rule, g, x, once))
    ensures Grown(m, ApplyRule(meta, m, rule, g, x, once))
  {
    if Matches(m, rule, x) && !(once && Name(rule) in m.groups[g].exploredRules) {
      var es := Alternatives(meta, m, rule, x);
      hide Alternatives, Matches, SoundFor, Equivalent, Ranked;
      forall k | 0 <= k < |es| ensures SoundFor(meta, fields, es[k], m.groups[g].origin) {
        AlternativesAreSound(meta, fields, m, rule, g, x, k);
        AlternativeFitsGroup(meta, fields, m, g, x, es[k]);
      }
      AddAllKeeps(meta, fields, m, es, g);
      var added := AddAll(m, es, g);
      MarkKeeps(meta, fields, added, g, rule);
      GrownTransitive(m, added, MarkExplored(added, g, rule));
    }
  }

  lemma {:induction false} ApplyRulesKeep(meta: MetaData, fields: set<string>, m: MemoState, rules: seq<Rule>,
        g: nat, x: GroupExpression, once: bool)
    requires Sound(meta, fields, m) && DistinctNames(meta.indexes)
    requires g < |m.groups| && x in m.groups[g].expressions
    ensures Sound(meta, fields, ApplyRules(meta, m, rules, g, x, once))
    ensures Grown(m, ApplyRules(meta, m, rules, g, x, once))
    decreases |rules|
  {
    hide Sound, ApplyRule;
    if rules != [] {
      ApplyRuleKeeps(meta, fields, m, rules[0], g, x, once);
      var m1 := ApplyRule(meta, m, rules[0], g, x, once);
      assert x in m1.groups[g].expressions by { StillMember(m, m1, g, x); }
      ApplyRulesKeep(meta, fields, m1, rules[1..], g, x, once);
      GrownTransitive(m, m1, ApplyRules(meta, m1, rules[1..], g, x, once));
    }
  }

  lemma StillMember(m: MemoState, m': MemoState, g: nat, x: GroupExpression)
    requires Grown(m, m') && g < |m.groups| && x in m.groups[g].expressions
    ensures x in m'.groups[g].expressions
  {
    var n :| 0 <= n < |m.groups[g].expressions| && m.groups[g].expressions[n] == x;
    assert m'.groups[g].expressions[n] == x;
  }

  lemma GrownSelf(m: MemoState)
    ensures Grown(m, m)
  {
  }

  lemma OfferWinnerGrows(m: MemoState, g: nat, n: nat, cost: real)
    requires g < |m.groups| && n < |m.groups[g].expressions|
    ensures Grown(m, OfferWinner(m, g, n, cost))
  {
  }

  /** Each task keeps every group's meaning and rank. */
  lemma ProcessKeeps(meta: MetaData, fields: set<string>, m: MemoState, task: Task)
    requires Sound(meta, fields, m) && DistinctNames(meta.indexes)
    ensures Sound(meta, fields, Process(meta, m, task)) && Grown(m, Process(meta, m, task))
  {
    hide ApplyRules, OfferWinner, Equivalent, Ranked, Grown;
    GrownSelf(m);
    if task.g < |m.groups| && task.n < |m.groups[task.g].expressions| {
      var x := m.groups[task.g].expressions[task.n];
      match task
      case Explore(g, _) => ApplyRulesKeep(meta, fields, m, TRANSFORMATIONS, g, x, true);
      case Implement(g, _) => ApplyRulesKeep(meta, fields, m, IMPLEMENTATIONS, g, x, false);
      case OptimizeInputs(g, n, cost) =>
        OfferWinnerKeeps(meta, fields, m, g, n, cost);
        OfferWinnerGrows(m, g, n, cost);
    }
  }

  lemma {:induction false} ProcessAllKeeps(meta: MetaData, fields: set<string>, m: MemoState, tasks: seq<Task>)
    requires Sound(meta, fields, m) && DistinctNames(meta.indexes)
    ensures Sound(meta, fields, ProcessAll(meta, m, tasks)) && Grown(m, ProcessAll(meta, m, tasks))
    decreases |tasks|
  {
    hide Sound, Process;
    if tasks != [] {
      ProcessKeeps(meta, fields, m, tasks[0]);
      var m1 := Process(meta, m, tasks[0]);
      ProcessAllKeeps(meta, fields, m1, tasks[1..]);
      GrownTransitive(m, m1, ProcessAll(meta, m1, tasks[1..]));
    }
  }

  /** Optimizer soundness: start from any safe expression and process any tasks in any order; the
      plan then extracted for the root, if its groups resolve, is physical throughout and denotes the
      expression. */
  lemma OptimizedSameResult(meta: MetaData, fields: set<string>, root: RelExpr, tasks: seq<Task>)
    requires DistinctNames(meta.indexes) && Safe(meta, fields, root)
    ensures var m := ProcessAll(meta, CreateGroup(EMPTY, root), tasks);
            Sound(meta, fields, m) && m.groups != [] && m.groups[0].origin == root &&
            (m.groups[0].winner.Some? ==>
              var x := m.groups[0].winner.value.expression;
              IsMember(m, x) &&
              (Resolvable(m, x) ==> SameResult(meta, Extract(m, x), root) && AllPhysical(Extract(m, x))))
  {
    CreateGroupKeeps(meta, fields, EMPTY, root);
    var m0 := CreateGroup(EMPTY, root);
    ProcessAllKeeps(meta, fields, m0, tasks);
    var m := ProcessAll(meta, m0, tasks);
    assert m.groups[0].origin == m0.groups[0].origin;
    if m.groups[0].winner.Some? { BestPlanSameResult(meta, fields, m, 0); }
  }

  /** _query_to_logical: a scan, then the filter and the sort if there are any. */
  function QueryToLogical(types: seq<string>, filter: Option<Component>, sort: Option<seq<(string, bool)>>): RelExpr {
    var scan := LogicalScan(types);
    var filtered := if filter.Some? then LogicalFilter(filter.value, scan) else scan;
    if sort.Some? && sort.value != [] then LogicalSort(sort.value, filtered) else filtered
  }

  /** A query is safe to optimize exactly when each index that could serve it covers just its types. */
  lemma QueryIsSafeIff(meta: MetaData, types: seq<string>, filter: Option<Component>, sort: Option<seq<(string, bool)>>)
    ensures Safe(meta, if filter.Some? then Mentions(filter.value) else {}, QueryToLogical(types, filter, sort))
       <==> ScanIsCovered(meta, types)
  {
    var fields := if filter.Some? then Mentions(filter.value) else {};
    var scan := LogicalScan(types);
    assert Safe(meta, fields, scan) <==> ScanIsCovered(meta, types);
    if filter.Some? {
      assert Safe(meta, fields, LogicalFilter(filter.value, scan)) <==> Safe(meta, fields, scan);
    }
  }

  /** So for a query whose indexes cover just its types: whatever tasks run, a plan extracted at the end
      denotes the query. */
  lemma OptimizedQuerySameResult(meta: MetaData, types: seq<string>, filter: Option<Component>,
        sort: Option<seq<(string, bool)>>, tasks: seq<Task>)
    requires DistinctNames(meta.indexes) && ScanIsCovered(meta, types)
    ensures var root := QueryToLogical(types, filter, sort);
            var fields := if filter.Some? then Mentions(filter.value) else {};
            var m := ProcessAll(meta, CreateGroup(EMPTY, root), tasks);
            Sound(meta, fields, m) && m.groups != [] &&
            (m.groups[0].winner.Some? ==>
              var x := m.groups[0].winner.value.expression;
              IsMember(m, x) &&
              (Resolvable(m, x) ==> SameResult(meta, Extract(m, x), root) && AllPhysical(Extract(m, x))))
  {
    QueryIsSafeIff(meta, types, filter, sort);
    OptimizedSameResult(meta, if filter.Some? then Mentions(filter.value) else {}, QueryToLogical(types, filter, sort), tasks);
  }
}
