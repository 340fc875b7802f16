// The Memo and CascadesPlanner classes, proved against the functions on memo states.
module MemoClass {
  import opened Wrappers
  import opened RecordStore
  import opened CascadesExpressions
  import opened MemoGroups
  import opened CascadesRules
  import CP = CascadesPlanner

  class Memo {
    var groups: seq<Group>
    var fingerprints: map<RelExpr, nat>
    var nextExprId: nat

    function State(): MemoState
      reads this
    {
      MemoState(groups, fingerprints, nextExprId)
    }

    constructor ()
      ensures State() == CP.EMPTY
    {
      groups, fingerprints, nextExprId := [], map[], 0;
    }

    method CreateGroup(e: RelExpr) returns (g: nat)
      modifies this
      ensures g == |old(groups)| && State() == MemoGroups.CreateGroup(old(State()), e)
      decreases e, 1
    {
      g := |groups|;
      groups := groups + [Group(e, [], None, {})];
      AddExpressionToGroup(e, g);
      fingerprints := fingerprints[Fingerprint(e) := g];
    }

    method GetOrCreateGroup(e: RelExpr) returns (g: nat)
      modifies this
      ensures (State(), g) == MemoGroups.GetOrCreateGroup(old(State()), e)
      decreases e, 2
    {
      var fp := Fingerprint(e);
      if fp in fingerprints {
        return fingerprints[fp];
      }
      g := CreateGroup(e);
      fingerprints := fingerprints[fp := g];
      assert State() == MemoGroups.CreateGroup(old(State()), e);
    }

    method AddExpressionToGroup(e: RelExpr, g: nat)
      requires g < |groups|
      modifies this
      ensures State() == AddToGroup(old(State()), e, g)
      decreases e, 0
    {
      ghost var m0 := State();
      var children := Children(e);
      var childGroups: seq<nat> := [];
      for j := 0 to |children|
        invariant g < |groups|
        invariant (State(), childGroups) == GroupsOf(m0, e, j)
      {
        assert children[j] < e;
        var child := GetOrCreateGroup(children[j]);
        childGroups := childGroups + [child];
      }
      var added := GroupExpression(e, nextExprId, childGroups);
      nextExprId := nextExprId + 1;
      groups := groups[g := groups[g].(expressions := groups[g].expressions + [added])];
    }

    /** The merged-away group stays in the list, emptied. */
    method MergeGroups(g1: nat, g2: nat)
      requires g1 < |groups| && g2 < |groups|
      modifies this
      ensures State() == MemoGroups.MergeGroups(old(State()), g1, g2)
    {
      if g1 == g2 {
        return;
      }
      var a, b := groups[g1], groups[g2];
      var members := MoveMembers(a.expressions, b.expressions);
      var merged := a.(expressions := members, exploredRules := a.exploredRules + b.exploredRules);
      if b.winner.Some? && (a.winner.None? || b.winner.value.cost < a.winner.value.cost) {
        merged := merged.(winner := b.winner);
      }
      groups := groups[g1 := merged][g2 := b.(expressions := [], winner := None)];
      fingerprints := Redirect(fingerprints, g2, g1);
    }

    /** _optimize_inputs, with the member's cost already estimated. */
    method OptimizeInputs(g: nat, n: nat, cost: real)
      requires g < |groups| && n < |groups[g].expressions|
      modifies this`groups
      ensures State() == OfferWinner(old(State()), g, n, cost)
      ensures IsPhysical(groups[g].expressions[n].expression) ==>
        groups[g].winner.Some? && groups[g].winner.value.cost <= cost
      ensures old(groups[g].winner).Some? ==>
        groups[g].winner.Some? && groups[g].winner.value.cost <= old(groups[g].winner).value.cost
      ensures groups[g].winner != old(groups[g].winner) ==>
        groups[g].winner == Some(Winner(old(groups[g].expressions[n]), cost))
    {
      var x := groups[g].expressions[n];
      if !IsPhysical(x.expression) {
        return;
      }
      var current := groups[g].winner;
      if current.None? || cost < current.value.cost {
        groups := groups[g := groups[g].(winner := Some(Winner(x, cost)))];
      }
    }

    method ExtractPlan(x: GroupExpression) returns (plan: RelExpr)
      requires Ranked(State()) && IsMember(State(), x)
      ensures plan == Extract(State(), x)
      decreases Depth(x.expression)
    {
      hide Ranked, IsMember, Kept, ChildPlans, ChildChoice;
      if x.childGroups == [] {
        return x.expression;
      }
      ghost var m := State();
      ghost var plans := ChildPlans(m, x);
      assert plans[0..] == plans;
      var childPlans: seq<RelExpr> := [];
      PlanOfChild(m, x, 0);
      for j := 0 to |x.childGroups|
        invariant |plans| == |x.childGroups| && childPlans + Kept(plans[j..]) == Kept(plans)
      {
        PlanOfChild(m, x, j);
        var group := groups[x.childGroups[j]];
        var chosen := if group.winner.Some? then Some(group.winner.value.expression) else FirstPhysical(group.expressions);
        NextKept(plans, j, childPlans);
        if chosen.Some? {
          var childPlan := ExtractPlan(chosen.value);
          childPlans := childPlans + [childPlan];
        }
      }
      NoMoreKept(plans, childPlans);
      plan := Rebuild(x.expression, childPlans);
    }
  }

  lemma PlanOfChild(m: MemoState, x: GroupExpression, j: nat)
    requires Ranked(m) && IsMember(m, x) && j < |x.childGroups|
    ensures x.childGroups[j] < |m.groups| && |ChildPlans(m, x)| == |x.childGroups|
    ensures var y := Choice(m.groups[x.childGroups[j]]);
            (y.Some? ==> IsMember(m, y.value) && Depth(y.value.expression) < Depth(x.expression)) &&
            ChildPlans(m, x)[j] == if y.Some? then Some(Extract(m, y.value)) else None
  {
    ChoiceIsShallower(m, x, j);
    assert ChildPlans(m, x)[j] == ChildPlan(m, x, j);
  }

  lemma NoMoreKept(plans: seq<Option<RelExpr>>, all: seq<RelExpr>)
    ensures all + Kept(plans[|plans|..]) == all
  {
  }

  lemma NextKept(plans: seq<Option<RelExpr>>, j: nat, before: seq<RelExpr>)
    requires j < |plans|
    ensures before + Kept(plans[j..]) == before + (if plans[j].Some? then [plans[j].value] else []) + Kept(plans[j + 1..])
  {
    assert plans[j..][0] == plans[j] && plans[j..][1..] == plans[j + 1..];
  }

  method MoveMembers(into: seq<GroupExpression>, from: seq<GroupExpression>) returns (members: seq<GroupExpression>)
    ensures members == into + from
  {
    members := into;
    for j := 0 to |from|
      invariant members == into + from[..j]
    {
      members := members + [from[j]];
    }
  }

  /** Make the fingerprints of one group lead to another. */
  method Redirect(fingerprints: map<RelExpr, nat>, from: nat, into: nat) returns (redirected: map<RelExpr, nat>)
    ensures redirected == map fp | fp in fingerprints :: if fingerprints[fp] == from then into else fingerprints[fp]
  {
    redirected := fingerprints;
    var rest := fingerprints.Keys;
    while rest != {}
      invariant rest <= fingerprints.Keys && redirected.Keys == fingerprints.Keys
      invariant forall fp :: fp in fingerprints ==>
        redirected[fp] == if fp !in rest && fingerprints[fp] == from then into else fingerprints[fp]
      decreases |rest|
    {
      var fp :| fp in rest;
      if fingerprints[fp] == from {
        redirected := redirected[fp := into];
      }
      rest := rest - {fp};
    }
  }

  class CascadesPlanner {
    const metaData: MetaData
    const memo: Memo

    constructor (metaData: MetaData, memo: Memo)
      ensures this.metaData == metaData && this.memo == memo
    {
      this.metaData, this.memo := metaData, memo;
    }

    method ExploreExpression(g: nat, x: GroupExpression)
      requires g < |memo.groups|
      modifies memo
      ensures memo.State() == CP.Explored(metaData, old(memo.State()), g, x)
    {
      ApplyRules(TRANSFORMATIONS, g, x, true);
    }

    method ImplementExpression(g: nat, x: GroupExpression)
      requires g < |memo.groups|
      modifies memo
      ensures memo.State() == CP.Implemented(metaData, old(memo.State()), g, x)
    {
      if IsPhysical(x.expression) {
        return;
      }
      ApplyRules(IMPLEMENTATIONS, g, x, false);
    }

    method ApplyRules(rules: seq<Rule>, g: nat, x: GroupExpression, once: bool)
      requires g < |memo.groups|
      modifies memo
      ensures memo.State() == CP.ApplyRules(metaData, old(memo.State()), rules, g, x, once)
    {
      ghost var m0 := memo.State();
      assert rules[0..] == rules;
      for k := 0 to |rules|
        invariant g < |memo.groups|
        invariant CP.ApplyRules(metaData, memo.State(), rules[k..], g, x, once) == CP.ApplyRules(metaData, m0, rules, g, x, once)
      {
        hide Matches, Alternatives, CP.MarkExplored;
        assert rules[k..][0] == rules[k] && rules[k..][1..] == rules[k + 1..];
        ApplyRule(rules[k], g, x, once);
      }
    }

    method ApplyRule(rule: Rule, g: nat, x: GroupExpression, once: bool)
      requires g < |memo.groups|
      modifies memo
      ensures memo.State() == CP.ApplyRule(metaData, old(memo.State()), rule, g, x, once)
    {
      if !Matches(memo.State(), rule, x) || (once && Name(rule) in memo.groups[g].exploredRules) {
        return;
      }
      var alternatives := Alternatives(metaData, memo.State(), rule, x);
      AddAll(alternatives, g);
      if once {
        memo.groups := memo.groups[g := memo.groups[g].(exploredRules := memo.groups[g].exploredRules + {Name(rule)})];
      }
    }

    method AddAll(alternatives: seq<RelExpr>, g: nat)
      requires g < |memo.groups|
      modifies memo
      ensures memo.State() == CP.AddAll(old(memo.State()), alternatives, g)
    {
      ghost var m0 := memo.State();
      assert alternatives[0..] == alternatives;
      for k := 0 to |alternatives|
        invariant g < |memo.groups|
        invariant CP.AddAll(memo.State(), alternatives[k..], g) == CP.AddAll(m0, alternatives, g)
      {
        assert alternatives[k..][0] == alternatives[k] && alternatives[k..][1..] == alternatives[k + 1..];
        memo.AddExpressionToGroup(alternatives[k], g);
      }
    }
  }
}
