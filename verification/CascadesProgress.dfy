// What the optimizer's rules are sure to find and to add, and that costing then gives a winner.
module CascadesProgress {
  import opened Wrappers
  import opened Indexes
  import opened RecordStore
  import opened Query
  import opened CascadesExpressions
  import opened MemoGroups
  import opened PredicateSplit
  import opened CascadesRules
  import opened CascadesPlanner
  import opened MemoWinners

  // ---- Finding ----

  /** A rule finds the first member of the wanted kind in its input's group, whenever there is one. */
  lemma {:induction false} FirstOfIff(xs: seq<GroupExpression>, wanted: RelExpr -> bool)
    ensures FirstOf(xs, wanted).None? <==> forall n :: 0 <= n < |xs| ==> !wanted(xs[n].expression)
    ensures FirstOf(xs, wanted).Some? ==>
      exists n :: 0 <= n < |xs| && xs[n].expression == FirstOf(xs, wanted).value && wanted(xs[n].expression) &&
        forall l :: 0 <= l < n ==> !wanted(xs[l].expression)
  {
    if xs != [] {
      var rest := xs[1..];
      FirstOfIff(rest, wanted);
      assert forall n :: 0 <= n < |rest| ==> rest[n] == xs[n + 1];
      assert forall n :: 0 < n < |xs| ==> xs[n] == rest[n - 1];
      if wanted(xs[0].expression) {
        assert xs[0].expression == FirstOf(xs, wanted).value;
      } else if FirstOf(rest, wanted).Some? {
        var n :| 0 <= n < |rest| && rest[n].expression == FirstOf(rest, wanted).value && wanted(rest[n].expression) &&
          forall l :: 0 <= l < n ==> !wanted(rest[l].expression);
        assert xs[n + 1].expression == FirstOf(xs, wanted).value;
      }
    }
  }

  ghost predicate InputGroupHas(m: MemoState, x: GroupExpression, wanted: RelExpr -> bool) {
    x.childGroups != [] && x.childGroups[0] < |m.groups| &&
    exists n :: 0 <= n < |m.groups[x.childGroups[0]].expressions| && wanted(m.groups[x.childGroups[0]].expressions[n].expression)
  }

  /** The rewriting rules match a filter exactly when its input's group has a projection, a filter, a
      union or a scan among its members. */
  lemma MatchesIff(m: MemoState, x: GroupExpression)
    ensures Matches(m, PushFilterThroughProject, x) <==> x.expression.LogicalFilter? && InputGroupHas(m, x, IsProject)
    ensures Matches(m, FilterMerge, x) <==> x.expression.LogicalFilter? && InputGroupHas(m, x, IsFilter)
    ensures Matches(m, PredicatePushDown, x) <==> x.expression.LogicalFilter? && InputGroupHas(m, x, IsUnion)
    ensures Matches(m, IndexSelection, x) <==> x.expression.LogicalFilter? && InputGroupHas(m, x, IsScan)
  {
    hide FirstOf;
    if x.childGroups != [] && x.childGroups[0] < |m.groups| {
      var members := m.groups[x.childGroups[0]].expressions;
      FirstOfIff(members, IsProject);
      FirstOfIff(members, IsFilter);
      FirstOfIff(members, IsUnion);
      FirstOfIff(members, IsScan);
    }
  }

  // ---- Adding ----

  ghost predicate HasMember(m: MemoState, g: nat, e: RelExpr) {
    g < |m.groups| && exists n :: 0 <= n < |m.groups[g].expressions| && m.groups[g].expressions[n].expression == e
  }

  lemma MemberStays(m: MemoState, m': MemoState, g: nat, e: RelExpr)
    requires HasMember(m, g, e) && |m.groups| <= |m'.groups| && m.groups[g].expressions <= m'.groups[g].expressions
    ensures HasMember(m', g, e)
  {
    var n :| 0 <= n < |m.groups[g].expressions| && m.groups[g].expressions[n].expression == e;
    assert m'.groups[g].expressions[n].expression == e;
  }

  lemma AddToGroupAdds(m: MemoState, e: RelExpr, g: nat)
    requires g < |m.groups|
    ensures HasMember(AddToGroup(m, e, g), g, e)
  {
    hide GroupsOf;
    GroupsOfCarries(m, e, |Children(e)|);
    var (m1, childGroups) := GroupsOf(m, e, |Children(e)|);
    var members := AddToGroup(m, e, g).groups[g].expressions;
    assert members[|members| - 1].expression == e;
  }

  lemma {:induction false} AddAllAdds(m: MemoState, es: seq<RelExpr>, g: nat)
    requires g < |m.groups|
    ensures forall e :: e in es ==> HasMember(AddAll(m, es, g), g, e)
    decreases |es|
  {
    hide AddToGroup, HasMember;
    if es != [] {
      AddToGroupAdds(m, es[0], g);
      var m1 := AddToGroup(m, es[0], g);
      AddAllAdds(m1, es[1..], g);
      AddAllCarries(m1, es[1..], g);
      MemberStays(m1, AddAll(m, es, g), g, es[0]);
    }
  }

  /** A matching rule that has not been tried adds each of its alternatives to the group. */
  lemma RuleAdds(meta: MetaData, m: MemoState, rule: Rule, g: nat, x: GroupExpression, once: bool)
    requires g < |m.groups| && Matches(m, rule, x) && !(once && Name(rule) in m.groups[g].exploredRules)
    ensures forall e :: e in Alternatives(meta, m, rule, x) ==> HasMember(ApplyRule(meta, m, rule, g, x, once), g, e)
  {
    hide AddAll, Alternatives, Matches, Name, HasMember;
    var es := Alternatives(meta, m, rule, x);
    AddAllAdds(m, es, g);
    AddAllCarries(m, es, g);
    var added, m' := AddAll(m, es, g), ApplyRule(meta, m, rule, g, x, once);
    assert m'.groups[g].expressions == added.groups[g].expressions;
    forall e | e in es ensures HasMember(m', g, e) { MemberStays(added, m', g, e); }
  }

  /** A rewriting of a filter over some expression. */
  predicate Rewrites(rule: Rule, q: Component, below: RelExpr, e: RelExpr) {
    match rule
    case PushFilterThroughProject => below.LogicalProject? && e == LogicalProject(below.fields, LogicalFilter(q, below.input))
    case FilterMerge => below.LogicalFilter? && e == LogicalFilter(And([q, below.predicate_]), below.input)
    case PredicatePushDown =>
      below.LogicalUnion? && e.LogicalUnion? && e.removeDuplicates && |e.inputs| == |below.inputs| &&
      forall j :: 0 <= j < |e.inputs| ==> e.inputs[j] == LogicalFilter(q, below.inputs[j])
    case _ => false
  }

  ghost predicate IsBelow(m: MemoState, x: GroupExpression, e: RelExpr) {
    x.childGroups != [] && HasMember(m, x.childGroups[0], e)
  }

  /** Every rewriting rule that matches rewrites the filter over a member of its input's group. */
  lemma MatchingRewrites(meta: MetaData, m: MemoState, x: GroupExpression, rule: Rule)
    requires rule in TRANSFORMATIONS && Matches(m, rule, x)
    ensures exists below, e :: IsBelow(m, x, below) && e in Alternatives(meta, m, rule, x) &&
                               Rewrites(rule, x.expression.predicate_, below, e)
  {
    hide FirstOf;
    var members := m.groups[x.childGroups[0]].expressions;
    var wanted := match rule case PushFilterThroughProject => IsProject case FilterMerge => IsFilter case _ => IsUnion;
    FirstOfIff(members, wanted);
    var below := FirstOf(members, wanted).value;
    assert IsBelow(m, x, below);
    assert Rewrites(rule, x.expression.predicate_, below, Alternatives(meta, m, rule, x)[0]);
  }

  /** If the index is selectable for a scan of the types and the filter has a part on its field, there is
      a plan over it among the alternatives. */
  ghost predicate OffersFor(meta: MetaData, m: MemoState, x: GroupExpression, types: seq<string>, i: Index)
    requires Matches(m, IndexSelection, x)
  {
    Selectable(i, types) && Helps(x.expression.predicate_, i.root.fieldName) ==>
      exists plan :: plan in Alternatives(meta, m, IndexSelection, x) && ServedBy(plan, i, x.expression.predicate_)
  }

  /** Index selection offers a plan for every selectable index that some part of the filter is on. */
  lemma UsefulIndexesAreOffered(meta: MetaData, m: MemoState, x: GroupExpression, n: nat)
    requires Matches(m, IndexSelection, x) && n < |meta.indexes|
    ensures exists types :: IsBelow(m, x, LogicalScan(types)) && OffersFor(meta, m, x, types, meta.indexes[n])
  {
    hide FirstOf, SplitPredicate, Helps, IndexPlans;
    var members := m.groups[x.childGroups[0]].expressions;
    FirstOfIff(members, IsScan);
    var types, i, q := FirstOf(members, IsScan).value.types, meta.indexes[n], x.expression.predicate_;
    assert IsBelow(m, x, LogicalScan(types));
    if Selectable(i, types) && Helps(q, i.root.fieldName) {
      SplitIsComplete(q, i.root.fieldName);
      IndexPlanOffered(meta.indexes, q, types, n);
      assert ServedBy(IndexPlan(i, q, types)[0], i, q);
    }
  }

  /** The plan scans the index for the split's scan part and filters by what is left over. */
  predicate ServedBy(plan: RelExpr, i: Index, q: Component) {
    i.root.FieldKey? &&
    var s := SplitPredicate(q, i.root.fieldName);
    s.scan.Some? &&
    var scan := PhysicalIndexScan(i.name, s.scan.value, false);
    plan == if s.residual.Some? then PhysicalFilter(s.residual.value, scan) else scan
  }

  lemma {:induction false} IndexPlanOffered(indexes: seq<Index>, q: Component, types: seq<string>, n: nat)
    requires n < |indexes| && IndexPlan(indexes[n], q, types) != []
    ensures IndexPlan(indexes[n], q, types)[0] in IndexPlans(indexes, q, types)
    decreases n
  {
    hide IndexPlan;
    if n > 0 {
      assert indexes[1..][n - 1] == indexes[n];
      IndexPlanOffered(indexes[1..], q, types, n - 1);
    }
  }

  /** A merge moves the second group's members to the first after its own, and leads every fingerprint
      that led to either group to the first: nothing leads to the emptied group any more. */
  lemma MergeMovesAll(m: MemoState, g1: nat, g2: nat)
    requires g1 < |m.groups| && g2 < |m.groups| && g1 != g2
    ensures var m' := MergeGroups(m, g1, g2);
            |m'.groups| == |m.groups| && m.groups[g1].expressions <= m'.groups[g1].expressions &&
            (forall e :: HasMember(m', g1, e) <==> HasMember(m, g1, e) || HasMember(m, g2, e)) &&
            m'.groups[g2].expressions == [] &&
            m'.groups[g1].exploredRules == m.groups[g1].exploredRules + m.groups[g2].exploredRules &&
            (forall h :: 0 <= h < |m.groups| && h != g1 && h != g2 ==> m'.groups[h] == m.groups[h]) &&
            m'.fingerprints.Keys == m.fingerprints.Keys &&
            (forall fp :: fp in m.fingerprints ==>
              m'.fingerprints[fp] == if m.fingerprints[fp] in {g1, g2} then g1 else m.fingerprints[fp])
  {
    var m' := MergeGroups(m, g1, g2);
    var a, b := m.groups[g1].expressions, m.groups[g2].expressions;
    forall e ensures HasMember(m', g1, e) <==> HasMember(m, g1, e) || HasMember(m, g2, e) {
      if HasMember(m, g1, e) { MemberStays(m, m', g1, e); }
      if HasMember(m, g2, e) {
        var n :| 0 <= n < |b| && b[n].expression == e;
        assert m'.groups[g1].expressions[|a| + n].expression == e;
      }
      if HasMember(m', g1, e) {
        var n :| 0 <= n < |a + b| && (a + b)[n].expression == e;
        assert n < |a| ==> a[n].expression == e;
        assert n >= |a| ==> b[n - |a|].expression == e;
      }
    }
  }

  // ---- Exploring ----

  lemma {:induction false} FirstOfStays(xs: seq<GroupExpression>, ys: seq<GroupExpression>, wanted: RelExpr -> bool)
    requires xs <= ys && FirstOf(xs, wanted).Some?
    ensures FirstOf(ys, wanted) == FirstOf(xs, wanted)
  {
    if !wanted(xs[0].expression) {
      assert xs[1..] <= ys[1..];
      FirstOfStays(xs[1..], ys[1..], wanted);
    }
  }

  lemma InputStays(m: MemoState, m': MemoState, x: GroupExpression, wanted: RelExpr -> bool)
    requires |m.groups| <= |m'.groups| && forall h :: 0 <= h < |m.groups| ==> m.groups[h].expressions <= m'.groups[h].expressions
    requires InputMember(m, x, wanted).Some?
    ensures InputMember(m', x, wanted) == InputMember(m, x, wanted)
  {
    var c := x.childGroups[0];
    FirstOfStays(m.groups[c].expressions, m'.groups[c].expressions, wanted);
  }

  /** What a rule matches and gives does not change while members are added. */
  lemma MatchStays(meta: MetaData, m: MemoState, m': MemoState, rule: Rule, x: GroupExpression)
    requires |m.groups| <= |m'.groups| && forall h :: 0 <= h < |m.groups| ==> m.groups[h].expressions <= m'.groups[h].expressions
    requires Matches(m, rule, x)
    ensures Matches(m', rule, x) && Alternatives(meta, m', rule, x) == Alternatives(meta, m, rule, x)
  {
    hide InputMember, IndexPlans, FilterEach;
    match rule
    case PushFilterThroughProject => InputStays(m, m', x, IsProject);
    case FilterMerge => InputStays(m, m', x, IsFilter);
    case PredicatePushDown => InputStays(m, m', x, IsUnion);
    case IndexSelection => InputStays(m, m', x, IsScan);
    case _ =>
  }

  lemma NamesDiffer(a: Rule, b: Rule)
    requires a != b
    ensures Name(a) != Name(b)
  {
    assert |Name(a)| != |Name(b)| || Name(a)[0] != Name(b)[0] || Name(a)[9] != Name(b)[9] || Name(a)[11] != Name(b)[11];
  }

  lemma TriedIs(meta: MetaData, m: MemoState, rule: Rule, g: nat, x: GroupExpression)
    requires g < |m.groups|
    ensures ApplyRule(meta, m, rule, g, x, true).groups[g].exploredRules <= m.groups[g].exploredRules + {Name(rule)}
  {
    hide AddAll, Alternatives, Matches, Name;
    if Matches(m, rule, x) { AddAllCarries(m, Alternatives(meta, m, rule, x), g); }
  }

  lemma {:induction false} RulesAddAll(meta: MetaData, m: MemoState, rules: seq<Rule>, rule: Rule, g: nat, x: GroupExpression)
    requires g < |m.groups| && rule in rules && Matches(m, rule, x) && Name(rule) !in m.groups[g].exploredRules
    ensures forall e :: e in Alternatives(meta, m, rule, x) ==> HasMember(ApplyRules(meta, m, rules, g, x, true), g, e)
    decreases |rules|
  {
    hide ApplyRule, Alternatives, Matches, Name, HasMember;
    var m1 := ApplyRule(meta, m, rules[0], g, x, true);
    var m' := ApplyRules(meta, m1, rules[1..], g, x, true);
    ApplyRuleCarries(meta, m, rules[0], g, x, true);
    if rules[0] == rule {
      RuleAdds(meta, m, rule, g, x, true);
      ApplyRulesCarry(meta, m1, rules[1..], g, x, true);
      forall e | e in Alternatives(meta, m, rule, x) ensures HasMember(m', g, e) { MemberStays(m1, m', g, e); }
    } else {
      MatchStays(meta, m, m1, rule, x);
      TriedIs(meta, m, rules[0], g, x);
      NamesDiffer(rule, rules[0]);
      RulesAddAll(meta, m1, rules[1..], rule, g, x);
    }
  }

  /** Exploring a member applies every rewriting rule that matches it and has not been tried on its
      group: each of its alternatives becomes a member. */
  lemma ExploredAdds(meta: MetaData, m: MemoState, g: nat, x: GroupExpression, rule: Rule)
    requires g < |m.groups| && rule in TRANSFORMATIONS && Matches(m, rule, x) && Name(rule) !in m.groups[g].exploredRules
    ensures forall e :: e in Alternatives(meta, m, rule, x) ==> HasMember(Explored(meta, m, g, x), g, e)
  {
    hide ApplyRules, Alternatives, Matches, Name, HasMember;
    RulesAddAll(meta, m, TRANSFORMATIONS, rule, g, x);
  }

  // ---- Implementing and costing ----

  /** The rule that implements an expression, and what it gives. */
  function ImplementerOf(e: RelExpr): Option<Rule> {
    match e
    case LogicalScan(_) => Some(ImplementScan)
    case LogicalIndexScan(_, _, _) => Some(ImplementIndexScan)
    case LogicalFilter(_, _) => Some(ImplementFilter)
    case LogicalSort(_, _) => Some(ImplementSort)
    case LogicalUnion(_, _) => Some(ImplementUnion)
    case LogicalIntersection(_) => Some(ImplementIntersection)
    case _ => None
  }

  lemma ImplementerGives(meta: MetaData, m: MemoState, x: GroupExpression)
    requires ImplementerOf(x.expression).Some?
    ensures var rule := ImplementerOf(x.expression).value;
            rule in IMPLEMENTATIONS && Matches(m, rule, x) && !IsPhysical(x.expression) &&
            forall p :: p in Alternatives(meta, m, rule, x) <==> Implements(p, x.expression)
  {
  }

  lemma {:induction false} ImplementedAfter(meta: MetaData, m: MemoState, rules: seq<Rule>, g: nat, x: GroupExpression, p: RelExpr)
    requires g < |m.groups| && Implements(p, x.expression) && ImplementerOf(x.expression).Some?
    requires ImplementerOf(x.expression).value in rules || HasMember(m, g, p)
    ensures HasMember(ApplyRules(meta, m, rules, g, x, false), g, p)
    decreases |rules|
  {
    hide ApplyRule, HasMember, Implements, ImplementerOf, Matches, Alternatives;
    if rules != [] {
      var m1 := ApplyRule(meta, m, rules[0], g, x, false);
      ApplyRuleCarries(meta, m, rules[0], g, x, false);
      ImplementerGives(meta, m, x);
      if HasMember(m, g, p) {
        MemberStays(m, m1, g, p);
      } else if rules[0] == ImplementerOf(x.expression).value {
        RuleAdds(meta, m, rules[0], g, x, false);
      }
      ImplementedAfter(meta, m1, rules[1..], g, x, p);
    }
  }

  /** Implementing a logical scan, index scan, filter, sort, union or intersection adds all its physical
      forms to its group. */
  lemma ImplementAddsForms(meta: MetaData, m: MemoState, g: nat, x: GroupExpression)
    requires g < |m.groups| && ImplementerOf(x.expression).Some?
    ensures forall p :: Implements(p, x.expression) ==> HasMember(Implemented(meta, m, g, x), g, p)
  {
    hide ApplyRules, Matches, Alternatives;
    ImplementerGives(meta, m, x);
    forall p | Implements(p, x.expression) ensures HasMember(Implemented(meta, m, g, x), g, p) {
      ImplementedAfter(meta, m, IMPLEMENTATIONS, g, x, p);
    }
  }

  lemma SomeForm(e: RelExpr) returns (p: RelExpr)
    requires ImplementerOf(e).Some?
    ensures Implements(p, e) && IsPhysical(p)
  {
    match e
    case LogicalScan(types) => p := PhysicalScan(types);
    case LogicalIndexScan(name, q, _) => p := PhysicalIndexScan(name, q, false);
    case LogicalFilter(q, input) => p := PhysicalFilter(q, input);
    case LogicalSort(fields, input) => p := PhysicalSort(fields, input);
    case LogicalUnion(inputs, _) => p := PhysicalUnion(inputs);
    case LogicalIntersection(inputs) => p := PhysicalIntersection(inputs);
    case _ =>
  }

  /** So a group with such a member gets a winner: implement the member, then cost what that added. */
  lemma ImplementedMemberWins(meta: MetaData, m: MemoState, g: nat, n: nat, cost: real) returns (k: nat)
    requires g < |m.groups| && n < |m.groups[g].expressions| && ImplementerOf(m.groups[g].expressions[n].expression).Some?
    ensures WinnerOf(ProcessAll(meta, m, [Implement(g, n), OptimizeInputs(g, k, cost)]), g).Some?
  {
    hide ImplementerOf, ApplyRules, Implements, OfferAt;
    var x := m.groups[g].expressions[n];
    var tasks := [Implement(g, n)];
    var m1 := Process(meta, m, Implement(g, n));
    ImplementAddsForms(meta, m, g, x);
    var p := SomeForm(x.expression);
    assert HasMember(m1, g, p);
    k :| 0 <= k < |m1.groups[g].expressions| && m1.groups[g].expressions[k].expression == p;
    var all := [Implement(g, n), OptimizeInputs(g, k, cost)];
    assert all[..1] == tasks && tasks[1..] == [];
    assert ProcessAll(meta, m, all[..1]) == m1;
    assert OfferAt(meta, m, all, g, 1).Some? by { OfferedThen(meta, m, all, g, m1); }
    WinnerCostsLeast(meta, m, all, g);
  }

  lemma OfferedThen(meta: MetaData, m: MemoState, tasks: seq<Task>, g: nat, m1: MemoState)
    requires |tasks| == 2 && ProcessAll(meta, m, tasks[..1]) == m1 && Offer(m1, tasks[1], g).Some?
    ensures OfferAt(meta, m, tasks, g, 1).Some?
  {
  }
}
