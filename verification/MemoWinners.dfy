// What the optimizer's steps never lose: a group's cheapest costed member, the rules already tried
// on it, and the group a fingerprint leads to.
module MemoWinners {
  import opened Wrappers
  import opened RecordStore
  import opened CascadesExpressions
  import opened MemoGroups
  import opened CascadesRules
  import opened CascadesPlanner

  // ---- What adding expressions leaves alone ----

  /** Old groups keep their winner, their tried rules and their members; new ones have no winner and
      no rule tried on them; fingerprints keep leading where they led. */
  ghost predicate Carried(m: MemoState, m': MemoState) {
    |m.groups| <= |m'.groups| &&
    (forall h :: 0 <= h < |m.groups| ==>
      m'.groups[h].winner == m.groups[h].winner && m'.groups[h].exploredRules == m.groups[h].exploredRules &&
      m.groups[h].expressions <= m'.groups[h].expressions) &&
    (forall h :: |m.groups| <= h < |m'.groups| ==> m'.groups[h].winner == None && m'.groups[h].exploredRules == {}) &&
    (forall fp :: fp in m.fingerprints ==> fp in m'.fingerprints && m'.fingerprints[fp] == m.fingerprints[fp])
  }

  lemma CarriedTransitive(a: MemoState, b: MemoState, c: MemoState)
    requires Carried(a, b) && Carried(b, c)
    ensures Carried(a, c)
  {
    forall h | 0 <= h < |a.groups| ensures a.groups[h].expressions <= c.groups[h].expressions {
      assert a.groups[h].expressions <= b.groups[h].expressions <= c.groups[h].expressions;
    }
  }

  lemma {:induction false} AddToGroupCarries(m: MemoState, e: RelExpr, g: nat)
    ensures Carried(m, AddToGroup(m, e, g))
    decreases e, 0
  {
    hide GroupsOf;
    GroupsOfCarries(m, e, |Children(e)|);
    var (m1, childGroups) := GroupsOf(m, e, |Children(e)|);
    CarriedTransitive(m, m1, AddToGroup(m, e, g));
  }

  lemma {:induction false} GroupsOfCarries(m: MemoState, e: RelExpr, n: nat)
    requires n <= |Children(e)|
    ensures Carried(m, GroupsOf(m, e, n).0)
    decreases e, -1, n
  {
    if n > 0 {
      hide Carried, GetOrCreateGroup;
      GroupsOfCarries(m, e, n - 1);
      var m1 := GroupsOf(m, e, n - 1).0;
      assert Children(e)[n - 1] < e;
      GetOrCreateGroupCarries(m1, Children(e)[n - 1]);
      CarriedTransitive(m, m1, GetOrCreateGroup(m1, Children(e)[n - 1]).0);
    }
  }

  lemma {:induction false} GetOrCreateGroupCarries(m: MemoState, e: RelExpr)
    ensures Carried(m, GetOrCreateGroup(m, e).0)
    decreases e, 2
  {
    hide Fingerprint, AddToGroup;
    if Fingerprint(e) !in m.fingerprints {
      var m0 := m.(groups := m.groups + [Group(e, [], None, {})]);
      AddToGroupCarries(m0, e, |m.groups|);
      var m1 := AddToGroup(m0, e, |m.groups|);
      CarriedTransitive(m, m0, m1);
      assert CreateGroup(m, e) == m1.(fingerprints := m1.fingerprints[Fingerprint(e) := |m.groups|]);
    }
  }

  /** Asking for an expression's group a second time, or for that of another with its fingerprint,
      gives the group of the first time and changes nothing. */
  lemma SameFingerprintSameGroup(m: MemoState, e: RelExpr, e': RelExpr)
    requires Fingerprint(e') == Fingerprint(e)
    ensures var (m1, g) := GetOrCreateGroup(m, e);
            GetOrCreateGroup(m1, e') == (m1, g)
  {
  }

  // ---- What a task leaves alone ----

  lemma {:induction false} AddAllCarries(m: MemoState, es: seq<RelExpr>, g: nat)
    ensures Carried(m, AddAll(m, es, g))
    decreases |es|
  {
    hide Carried, AddToGroup;
    if es == [] {
      CarriedSelf(m);
    } else {
      AddToGroupCarries(m, es[0], g);
      AddAllCarries(AddToGroup(m, es[0], g), es[1..], g);
      CarriedTransitive(m, AddToGroup(m, es[0], g), AddAll(m, es, g));
    }
  }

  lemma CarriedSelf(m: MemoState)
    ensures Carried(m, m)
  {
  }

  /** As Carried, but one group may have had more rules tried on it, or a new winner. */
  ghost predicate CarriedBut(m: MemoState, m': MemoState, g: nat) {
    |m.groups| <= |m'.groups| &&
    (forall h :: 0 <= h < |m.groups| ==>
      (h != g ==> m'.groups[h].winner == m.groups[h].winner) &&
      m.groups[h].exploredRules <= m'.groups[h].exploredRules &&
      m.groups[h].expressions <= m'.groups[h].expressions) &&
    (forall h :: |m.groups| <= h < |m'.groups| ==> m'.groups[h].winner == None) &&
    (forall fp :: fp in m.fingerprints ==> fp in m'.fingerprints && m'.fingerprints[fp] == m.fingerprints[fp])
  }

  lemma ApplyRuleCarries(meta: MetaData, m: MemoState, rule: Rule, g: nat, x: GroupExpression, once: bool)
    requires g < |m.groups|
    ensures var m' := ApplyRule(meta, m, rule, g, x, once);
            CarriedBut(m, m', g) && m'.groups[g].winner == m.groups[g].winner &&
            (once && Matches(m, rule, x) ==> Name(rule) in m'.groups[g].exploredRules) &&
            (once && Name(rule) in m.groups[g].exploredRules ==> m' == m)
  {
    hide AddAll, Alternatives, Matches, Name;
    if Matches(m, rule, x) { AddAllCarries(m, Alternatives(meta, m, rule, x), g); }
  }

  lemma {:induction false} ApplyRulesCarry(meta: MetaData, m: MemoState, rules: seq<Rule>, g: nat, x: GroupExpression,
        once: bool)
    requires g < |m.groups|
    ensures var m' := ApplyRules(meta, m, rules, g, x, once);
            CarriedBut(m, m', g) && m'.groups[g].winner == m.groups[g].winner
    decreases |rules|
  {
    hide ApplyRule;
    if rules != [] {
      ApplyRuleCarries(meta, m, rules[0], g, x, once);
      var m1 := ApplyRule(meta, m, rules[0], g, x, once);
      ApplyRulesCarry(meta, m1, rules[1..], g, x, once);
      ButTransitive(m, m1, ApplyRules(meta, m, rules, g, x, once), g);
    }
  }

  lemma ButTransitive(a: MemoState, b: MemoState, c: MemoState, g: nat)
    requires CarriedBut(a, b, g) && CarriedBut(b, c, g) && g < |a.groups|
    ensures CarriedBut(a, c, g)
  {
    forall h | 0 <= h < |a.groups| ensures a.groups[h].expressions <= c.groups[h].expressions {
      assert a.groups[h].expressions <= b.groups[h].expressions <= c.groups[h].expressions;
    }
  }

  // ---- The cheapest member wins ----

  /** The member and cost that a task offers to a group: a physical member is costed, nothing else. */
  ghost function Offer(m: MemoState, task: Task, g: nat): Option<Winner> {
    if task.OptimizeInputs? && task.g == g < |m.groups| && task.n < |m.groups[g].expressions| &&
       IsPhysical(m.groups[g].expressions[task.n].expression)
    then Some(Winner(m.groups[g].expressions[task.n], task.cost))
    else None
  }

  /** What the k-th task of a list offers to a group, from the memo as it then is. */
  ghost function OfferAt(meta: MetaData, m: MemoState, tasks: seq<Task>, g: nat, k: nat): Option<Winner>
    requires k < |tasks|
  {
    Offer(ProcessAll(meta, m, tasks[..k]), tasks[k], g)
  }

  function WinnerOf(m: MemoState, g: nat): Option<Winner> {
    if g < |m.groups| then m.groups[g].winner else None
  }

  ghost predicate CostsMore(offer: Option<Winner>, cost: real) { offer.Some? ==> offer.value.cost > cost }

  ghost predicate CostsAtLeast(offer: Option<Winner>, cost: real) { offer.Some? ==> offer.value.cost >= cost }

  /** The winner was offered by the k-th task, cheaper than everything before and no dearer than
      anything after. */
  ghost predicate WonAt(meta: MetaData, m: MemoState, tasks: seq<Task>, g: nat, winner: Option<Winner>, k: nat) {
    k < |tasks| && winner.Some? && OfferAt(meta, m, tasks, g, k) == winner &&
    CostsMore(WinnerOf(m, g), winner.value.cost) &&
    (forall j: nat :: j < k ==> CostsMore(OfferAt(meta, m, tasks, g, j), winner.value.cost)) &&
    (forall j: nat :: k < j < |tasks| ==> CostsAtLeast(OfferAt(meta, m, tasks, g, j), winner.value.cost))
  }

  /** No offer beats the winner there was, or none is made and there is none. */
  ghost predicate Unbeaten(meta: MetaData, m: MemoState, tasks: seq<Task>, g: nat) {
    forall j: nat :: j < |tasks| ==>
      var offer := OfferAt(meta, m, tasks, g, j);
      offer.Some? ==> WinnerOf(m, g).Some? && offer.value.cost >= WinnerOf(m, g).value.cost
  }

  /** One task leaves the winners of all groups alone, or offers one member to one group. */
  lemma ProcessOffers(meta: MetaData, m: MemoState, task: Task, g: nat)
    ensures var before, after, offer := WinnerOf(m, g), WinnerOf(Process(meta, m, task), g), Offer(m, task, g);
            after == if offer.Some? && (before.None? || offer.value.cost < before.value.cost) then offer else before
    ensures exists h :: CarriedBut(m, Process(meta, m, task), h)
  {
    hide ApplyRules;
    assert CarriedBut(m, m, 0);
    if task.g < |m.groups| && task.n < |m.groups[task.g].expressions| {
      var x := m.groups[task.g].expressions[task.n];
      match task
      case Explore(h, _) => ApplyRulesCarry(meta, m, TRANSFORMATIONS, h, x, true);
      case Implement(h, _) => ApplyRulesCarry(meta, m, IMPLEMENTATIONS, h, x, false);
      case OptimizeInputs(h, n, cost) => assert CarriedBut(m, Process(meta, m, task), h);
    }
  }

  lemma {:induction false} ProcessAllSnoc(meta: MetaData, m: MemoState, tasks: seq<Task>)
    requires tasks != []
    ensures ProcessAll(meta, m, tasks) == Process(meta, ProcessAll(meta, m, tasks[..|tasks| - 1]), tasks[|tasks| - 1])
    decreases |tasks|
  {
    hide Process;
    if |tasks| > 1 {
      ProcessAllSnoc(meta, Process(meta, m, tasks[0]), tasks[1..]);
      assert tasks[1..][..|tasks| - 2] == tasks[..|tasks| - 1][1..];
    }
  }

  lemma OffersOfPrefix(meta: MetaData, m: MemoState, tasks: seq<Task>, n: nat, g: nat)
    requires n <= |tasks|
    ensures forall j: nat :: j < n ==> OfferAt(meta, m, tasks[..n], g, j) == OfferAt(meta, m, tasks, g, j)
  {
    forall j: nat | j < n ensures OfferAt(meta, m, tasks[..n], g, j) == OfferAt(meta, m, tasks, g, j) {
      assert tasks[..n][..j] == tasks[..j];
    }
  }

  /** The cheapest member wins: after any tasks, a group's winner is the one it had when no task
      offered a cheaper physical member, and else the first of the cheapest members offered, at the
      cost it was offered at. */
  lemma {:induction false} CheapestWins(meta: MetaData, m: MemoState, tasks: seq<Task>, g: nat)
    ensures var before, after := WinnerOf(m, g), WinnerOf(ProcessAll(meta, m, tasks), g);
            if Unbeaten(meta, m, tasks, g) then after == before else exists k: nat :: WonAt(meta, m, tasks, g, after, k)
    decreases |tasks|
  {
    if tasks != [] {
      hide Process, ProcessAll, Offer;
      var n := |tasks| - 1;
      CheapestWins(meta, m, tasks[..n], g);
      ProcessAllSnoc(meta, m, tasks);
      ProcessOffers(meta, ProcessAll(meta, m, tasks[..n]), tasks[n], g);
      OneMoreOffer(meta, m, tasks, g);
    }
  }

  lemma OneMoreOffer(meta: MetaData, m: MemoState, tasks: seq<Task>, g: nat)
    requires tasks != []
    ensures var n := |tasks| - 1;
            var offer := OfferAt(meta, m, tasks, g, n);
            var winner := WinnerOf(m, g);
            (Unbeaten(meta, m, tasks, g) <==>
              Unbeaten(meta, m, tasks[..n], g) &&
              (offer.Some? ==> winner.Some? && offer.value.cost >= winner.value.cost)) &&
            (Unbeaten(meta, m, tasks[..n], g) && offer.Some? && CostsMore(winner, offer.value.cost) ==>
              WonAt(meta, m, tasks, g, offer, n)) &&
            (forall k: nat, w :: WonAt(meta, m, tasks[..n], g, w, k) && CostsAtLeast(offer, w.value.cost) ==>
              WonAt(meta, m, tasks, g, w, k)) &&
            (forall k: nat, w :: WonAt(meta, m, tasks[..n], g, w, k) && offer.Some? && offer.value.cost < w.value.cost ==>
              WonAt(meta, m, tasks, g, offer, n))
  {
    hide OfferAt;
    OffersOfPrefix(meta, m, tasks, |tasks| - 1, g);
  }

  /** So the winner costs no more than the one before and than any physical member costed since. */
  lemma WinnerCostsLeast(meta: MetaData, m: MemoState, tasks: seq<Task>, g: nat)
    ensures var before, after := WinnerOf(m, g), WinnerOf(ProcessAll(meta, m, tasks), g);
            (before.Some? ==> after.Some? && after.value.cost <= before.value.cost) &&
            (forall j: nat :: j < |tasks| && OfferAt(meta, m, tasks, g, j).Some? ==>
              after.Some? && after.value.cost <= OfferAt(meta, m, tasks, g, j).value.cost)
  {
    hide ProcessAll, OfferAt;
    CheapestWins(meta, m, tasks, g);
    var after := WinnerOf(ProcessAll(meta, m, tasks), g);
    if !Unbeaten(meta, m, tasks, g) {
      var k: nat :| WonAt(meta, m, tasks, g, after, k);
      forall j: nat | j < |tasks| && OfferAt(meta, m, tasks, g, j).Some?
        ensures after.value.cost <= OfferAt(meta, m, tasks, g, j).value.cost
      {
        assert j < k ==> CostsMore(OfferAt(meta, m, tasks, g, j), after.value.cost);
        assert k < j ==> CostsAtLeast(OfferAt(meta, m, tasks, g, j), after.value.cost);
      }
    }
  }

  /** A merge keeps the cheaper of the two winners, the first group's when they cost the same, and
      leaves none in the group it empties. */
  lemma MergeKeepsCheaper(m: MemoState, g1: nat, g2: nat)
    requires g1 < |m.groups| && g2 < |m.groups| && g1 != g2
    ensures var a, b, kept := WinnerOf(m, g1), WinnerOf(m, g2), WinnerOf(MergeGroups(m, g1, g2), g1);
            (kept.None? <==> a.None? && b.None?) && (kept.Some? ==> kept == a || kept == b) &&
            (a.Some? ==> kept.value.cost <= a.value.cost) && (b.Some? ==> kept.value.cost <= b.value.cost) &&
            (a.Some? && b.Some? && a.value.cost == b.value.cost ==> kept == a)
    ensures WinnerOf(MergeGroups(m, g1, g2), g2) == None
    ensures forall g :: g != g1 && g != g2 ==> WinnerOf(MergeGroups(m, g1, g2), g) == WinnerOf(m, g)
  {
  }

  // ---- Nothing is done twice ----

  lemma {:induction false} ProcessAllCarries(meta: MetaData, m: MemoState, tasks: seq<Task>)
    ensures var m' := ProcessAll(meta, m, tasks);
            |m.groups| <= |m'.groups| &&
            (forall h :: 0 <= h < |m.groups| ==>
              m.groups[h].exploredRules <= m'.groups[h].exploredRules && m.groups[h].expressions <= m'.groups[h].expressions) &&
            (forall fp :: fp in m.fingerprints ==> fp in m'.fingerprints && m'.fingerprints[fp] == m.fingerprints[fp])
    decreases |tasks|
  {
    hide Process;
    if tasks != [] {
      ProcessOffers(meta, m, tasks[0], 0);
      var m1 := Process(meta, m, tasks[0]);
      ProcessAllCarries(meta, m1, tasks[1..]);
      var m' := ProcessAll(meta, m1, tasks[1..]);
      forall h | 0 <= h < |m.groups| ensures m.groups[h].expressions <= m'.groups[h].expressions {
        assert m.groups[h].expressions <= m1.groups[h].expressions <= m'.groups[h].expressions;
      }
    }
  }

  /** A transformation that has been tried on a group is never tried on it again, on any member,
      whatever tasks run in between. */
  lemma TriedOnce(meta: MetaData, m: MemoState, rule: Rule, g: nat, x: GroupExpression, tasks: seq<Task>, y: GroupExpression)
    requires g < |m.groups| && Matches(m, rule, x)
    ensures var later := ProcessAll(meta, ApplyRule(meta, m, rule, g, x, true), tasks);
            g < |later.groups| && ApplyRule(meta, later, rule, g, y, true) == later
  {
    hide Matches, Alternatives, ProcessAll;
    ApplyRuleCarries(meta, m, rule, g, x, true);
    var tried := ApplyRule(meta, m, rule, g, x, true);
    ProcessAllCarries(meta, tried, tasks);
    ApplyRuleCarries(meta, ProcessAll(meta, tried, tasks), rule, g, y, true);
  }

  /** Once an expression has a group, asking for that of any expression with its fingerprint, after any
      tasks, leads to the same group and creates none. */
  lemma DeduplicatedForGood(meta: MetaData, m: MemoState, e: RelExpr, tasks: seq<Task>, e': RelExpr)
    requires Fingerprint(e') == Fingerprint(e)
    ensures var (m1, g) := GetOrCreateGroup(m, e);
            var later := ProcessAll(meta, m1, tasks);
            GetOrCreateGroup(later, e') == (later, g)
  {
    hide ProcessAll, Fingerprint;
    SameFingerprintSameGroup(m, e, e');
    ProcessAllCarries(meta, GetOrCreateGroup(m, e).0, tasks);
  }

  // ---- Numbers tell members apart ----

  ghost predicate NumberedBelow(m: MemoState, g: int, n: int) {
    0 <= g < |m.groups| && 0 <= n < |m.groups[g].expressions| ==> m.groups[g].expressions[n].exprId < m.nextExprId
  }

  ghost predicate Distinguished(m: MemoState, g: int, n: int, h: int, l: int) {
    0 <= g < |m.groups| && 0 <= n < |m.groups[g].expressions| && 0 <= h < |m.groups| && 0 <= l < |m.groups[h].expressions| &&
    (g != h || n != l) ==>
      m.groups[g].expressions[n].exprId != m.groups[h].expressions[l].exprId
  }

  /** Members of the same or of different groups have different numbers, all of them given out. */
  ghost predicate Numbered(m: MemoState) {
    (forall g, n :: NumberedBelow(m, g, n)) && forall g, n, h, l :: Distinguished(m, g, n, h, l)
  }

  lemma AppendNumbers(m: MemoState, e: RelExpr, g: nat, childGroups: seq<nat>)
    requires Numbered(m) && g < |m.groups|
    ensures Numbered(Append(m, e, g, childGroups))
  {
    var m' := Append(m, e, g, childGroups);
    forall h, n ensures NumberedBelow(m', h, n) { assert NumberedBelow(m, h, n); }
    forall f, n, h, l ensures Distinguished(m', f, n, h, l) {
      assert Distinguished(m, f, n, h, l) && NumberedBelow(m, f, n) && NumberedBelow(m, h, l);
    }
  }

  lemma SameMembersNumbered(m: MemoState, m': MemoState)
    requires Numbered(m) && m'.nextExprId == m.nextExprId && |m.groups| <= |m'.groups|
    requires forall g :: 0 <= g < |m.groups| ==> m'.groups[g].expressions == m.groups[g].expressions
    requires forall g :: |m.groups| <= g < |m'.groups| ==> m'.groups[g].expressions == []
    ensures Numbered(m')
  {
    forall g, n ensures NumberedBelow(m', g, n) { assert NumberedBelow(m, g, n); }
    forall g, n, h, l ensures Distinguished(m', g, n, h, l) { assert Distinguished(m, g, n, h, l); }
  }

  lemma {:induction false} AddToGroupNumbers(m: MemoState, e: RelExpr, g: nat)
    requires Numbered(m)
    ensures Numbered(AddToGroup(m, e, g))
    decreases e, 0
  {
    hide Numbered, GroupsOf;
    GroupsOfNumbers(m, e, |Children(e)|);
    var (m1, childGroups) := GroupsOf(m, e, |Children(e)|);
    if g < |m1.groups| { AppendNumbers(m1, e, g, childGroups); }
  }

  lemma {:induction false} GroupsOfNumbers(m: MemoState, e: RelExpr, n: nat)
    requires Numbered(m) && n <= |Children(e)|
    ensures Numbered(GroupsOf(m, e, n).0)
    decreases e, -1, n
  {
    if n > 0 {
      hide Numbered, AddToGroup, CreateGroup, Fingerprint;
      GroupsOfNumbers(m, e, n - 1);
      var m1, child := GroupsOf(m, e, n - 1).0, Children(e)[n - 1];
      assert child < e;
      if Fingerprint(child) !in m1.fingerprints { CreateGroupNumbers(m1, child); }
    }
  }

  lemma {:induction false} CreateGroupNumbers(m: MemoState, e: RelExpr)
    requires Numbered(m)
    ensures Numbered(CreateGroup(m, e))
    decreases e, 1
  {
    hide Numbered, AddToGroup, Fingerprint;
    var m0 := m.(groups := m.groups + [Group(e, [], None, {})]);
    SameMembersNumbered(m, m0);
    AddToGroupNumbers(m0, e, |m.groups|);
    SameMembersNumbered(AddToGroup(m0, e, |m.groups|), CreateGroup(m, e));
  }

  lemma {:induction false} AddAllNumbers(m: MemoState, es: seq<RelExpr>, g: nat)
    requires Numbered(m)
    ensures Numbered(AddAll(m, es, g))
    decreases |es|
  {
    hide Numbered, AddToGroup;
    if es != [] {
      AddToGroupNumbers(m, es[0], g);
      AddAllNumbers(AddToGroup(m, es[0], g), es[1..], g);
    }
  }

  lemma {:induction false} ApplyRulesNumber(meta: MetaData, m: MemoState, rules: seq<Rule>, g: nat, x: GroupExpression,
        once: bool)
    requires Numbered(m) && g < |m.groups|
    ensures Numbered(ApplyRules(meta, m, rules, g, x, once))
    decreases |rules|
  {
    hide Numbered, AddAll, Alternatives, Matches;
    if rules != [] {
      var m1 := ApplyRule(meta, m, rules[0], g, x, once);
      if m1 != m {
        var es := Alternatives(meta, m, rules[0], x);
        AddAllNumbers(m, es, g);
        SameMembersNumbered(AddAll(m, es, g), m1);
      }
      ApplyRulesNumber(meta, m1, rules[1..], g, x, once);
    }
  }

  /** After any tasks on the memo of one query, no two members have the same number. */
  lemma {:induction false} MembersAreNumbered(meta: MetaData, m: MemoState, tasks: seq<Task>)
    requires Numbered(m)
    ensures Numbered(ProcessAll(meta, m, tasks))
    decreases |tasks|
  {
    hide Numbered, ApplyRules;
    if tasks != [] {
      var task := tasks[0];
      if task.g < |m.groups| && task.n < |m.groups[task.g].expressions| {
        var x := m.groups[task.g].expressions[task.n];
        match task
        case Explore(g, _) => ApplyRulesNumber(meta, m, TRANSFORMATIONS, g, x, true);
        case Implement(g, _) => ApplyRulesNumber(meta, m, IMPLEMENTATIONS, g, x, false);
        case OptimizeInputs(g, n, cost) => SameMembersNumbered(m, Process(meta, m, task));
      }
      MembersAreNumbered(meta, Process(meta, m, task), tasks[1..]);
    }
  }

  lemma QueryMemoIsNumbered(root: RelExpr)
    ensures Numbered(EMPTY) && Numbered(CreateGroup(EMPTY, root))
  {
    forall g, n ensures NumberedBelow(EMPTY, g, n) {}
    forall g, n, h, l ensures Distinguished(EMPTY, g, n, h, l) {}
    CreateGroupNumbers(EMPTY, root);
  }

  // ---- What extraction takes ----

  /** The member that stands for a group: its winner's, or without a winner its first physical one. */
  ghost predicate Represents(group: Group, x: GroupExpression) {
    if group.winner.Some? then x == group.winner.value.expression
    else
      exists n :: 0 <= n < |group.expressions| && group.expressions[n] == x && IsPhysical(x.expression) &&
        forall l :: 0 <= l < n ==> !IsPhysical(group.expressions[l].expression)
  }

  lemma {:induction false} FirstPhysicalIsFirst(xs: seq<GroupExpression>)
    ensures FirstPhysical(xs).None? <==> forall l :: 0 <= l < |xs| ==> !IsPhysical(xs[l].expression)
    ensures FirstPhysical(xs).Some? ==>
      exists n :: 0 <= n < |xs| && xs[n] == FirstPhysical(xs).value && IsPhysical(xs[n].expression) &&
        forall l :: 0 <= l < n ==> !IsPhysical(xs[l].expression)
  {
    if xs != [] {
      var rest := xs[1..];
      FirstPhysicalIsFirst(rest);
      assert forall l :: 0 <= l < |rest| ==> rest[l] == xs[l + 1];
      if IsPhysical(xs[0].expression) {
        assert xs[0] == FirstPhysical(xs).value;
      } else if FirstPhysical(rest).Some? {
        var n :| 0 <= n < |rest| && rest[n] == FirstPhysical(rest).value && IsPhysical(rest[n].expression) &&
          forall l :: 0 <= l < n ==> !IsPhysical(rest[l].expression);
        assert xs[n + 1] == FirstPhysical(xs).value;
        assert forall l :: 0 < l < n + 1 ==> xs[l] == rest[l - 1];
      }
    }
  }

  /** The tree is the plan extracted for the member that stands for x's j-th child group. */
  ghost predicate ChildFollowsWinner(m: MemoState, x: GroupExpression, j: nat, tree: RelExpr)
    requires Ranked(m) && j < |x.childGroups|
  {
    exists y ::
      IsMember(m, y) && x.childGroups[j] < |m.groups| && Represents(m.groups[x.childGroups[j]], y) && tree == Extract(m, y)
  }

  lemma ChildPlanFollows(m: MemoState, x: GroupExpression, j: nat)
    requires Ranked(m) && IsMember(m, x) && j < |x.childGroups| && ChildChoice(m, x, j).Some?
    ensures ChildPlans(m, x)[j].Some? && ChildFollowsWinner(m, x, j, ChildPlans(m, x)[j].value)
  {
    hide Ranked, Extract, IsMember;
    assert ChildPlans(m, x)[j] == ChildPlan(m, x, j);
    ChoiceIsShallower(m, x, j);
    FirstPhysicalIsFirst(m.groups[x.childGroups[j]].expressions);
    assert Represents(m.groups[x.childGroups[j]], ChildChoice(m, x, j).value);
  }

  lemma RebuiltChildren(e: RelExpr, children: seq<RelExpr>)
    requires |children| == |Children(e)|
    ensures Children(Rebuild(e, children)) == children
  {
  }

  /** Extraction follows the winners: when each child group has a member to stand for it, the extracted
      tree's children are the plans extracted for those members, in order. */
  lemma ExtractionFollowsWinners(meta: MetaData, fields: set<string>, m: MemoState, x: GroupExpression)
    requires Equivalent(meta, fields, m) && Ranked(m) && IsMember(m, x)
    requires forall j :: 0 <= j < |x.childGroups| ==> ChildChoice(m, x, j).Some?
    ensures var children := Children(Extract(m, x));
            |children| == |x.childGroups| &&
            forall j :: 0 <= j < |x.childGroups| ==> ChildFollowsWinner(m, x, j, children[j])
  {
    hide Ranked, Equivalent, IsMember, ChildFollowsWinner, ChildChoice, Rebuild, Children;
    ChildCountOf(meta, fields, m, x);
    var plans := ChildPlans(m, x);
    forall j | 0 <= j < |x.childGroups| ensures plans[j].Some? && ChildFollowsWinner(m, x, j, plans[j].value) {
      ChildPlanFollows(m, x, j);
    }
    KeptAll(plans);
    if x.childGroups != [] { RebuiltChildren(x.expression, Kept(plans)); }
  }
}
