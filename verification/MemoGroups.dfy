// The memo: groups of expressions that denote the same rows, deduplicated by fingerprint.
module MemoGroups {
  import opened Wrappers
  import opened KeyExpressions
  import opened Indexes
  import opened RecordStore
  import opened Query
  import opened CascadesExpressions

  /** A member of a group; childGroups names the groups of its children, in order. */
  datatype GroupExpression = GroupExpression(expression: RelExpr, exprId: nat, childGroups: seq<nat>)

  datatype Winner = Winner(expression: GroupExpression, cost: real)

  /** origin is the expression the group was created for. */
  datatype Group = Group(origin: RelExpr, expressions: seq<GroupExpression>, winner: Option<Winner>, exploredRules: set<string>)

  datatype MemoState = MemoState(groups: seq<Group>, fingerprints: map<RelExpr, nat>, nextExprId: nat)

  // ---- Fingerprints ----

  /** _compute_fingerprint: everything about an expression except the record types of a logical
      index scan. */
  function Fingerprint(e: RelExpr): RelExpr
    decreases e, 0
  {
    match e
    case LogicalIndexScan(name, q, _) => LogicalIndexScan(name, q, [])
    case LogicalFilter(q, input) => LogicalFilter(q, Fingerprint(input))
    case LogicalProject(fields, input) => LogicalProject(fields, Fingerprint(input))
    case LogicalSort(fields, input) => LogicalSort(fields, Fingerprint(input))
    case PhysicalFilter(q, input) => PhysicalFilter(q, Fingerprint(input))
    case PhysicalSort(fields, input) => PhysicalSort(fields, Fingerprint(input))
    case LogicalUnion(inputs, removeDuplicates) => LogicalUnion(Fingerprints(inputs), removeDuplicates)
    case LogicalIntersection(inputs) => LogicalIntersection(Fingerprints(inputs))
    case PhysicalUnion(inputs) => PhysicalUnion(Fingerprints(inputs))
    case PhysicalIntersection(inputs) => PhysicalIntersection(Fingerprints(inputs))
    case _ => e
  }

  function Fingerprints(es: seq<RelExpr>): seq<RelExpr>
    decreases es, 1
  {
    if es == [] then [] else [Fingerprint(es[0])] + Fingerprints(es[1..])
  }

  /** Equal fingerprints mean equal rows and equal depth: deduplication never mixes results. */
  lemma {:induction false} FingerprintKeepsRows(indexes: seq<Index>, records: Records, e: RelExpr)
    ensures Rows(indexes, records, Fingerprint(e)) == Rows(indexes, records, e)
    decreases e, 0
  {
    if HasInput(e) {
      FingerprintKeepsRows(indexes, records, e.input);
    } else if HasInputs(e) {
      FingerprintsKeepRows(indexes, records, e.inputs);
    }
  }

  lemma {:induction false} FingerprintsKeepRows(indexes: seq<Index>, records: Records, es: seq<RelExpr>)
    ensures SumRows(indexes, records, Fingerprints(es)) == SumRows(indexes, records, es)
    ensures forall r :: InEach(indexes, records, r, Fingerprints(es)) <==> InEach(indexes, records, r, es)
    ensures CommonRows(indexes, records, Fingerprints(es)) == CommonRows(indexes, records, es)
    decreases es, 1
  {
    if es != [] {
      FingerprintKeepsRows(indexes, records, es[0]);
      FingerprintsKeepRows(indexes, records, es[1..]);
      assert Fingerprints(es)[0] == Fingerprint(es[0]) && Fingerprints(es)[1..] == Fingerprints(es[1..]);
      var first := Rows(indexes, records, es[0]);
      assert (set r | r in first && InEach(indexes, records, r, Fingerprints(es[1..])))
          == (set r | r in first && InEach(indexes, records, r, es[1..]));
    }
  }

  lemma {:induction false} FingerprintKeepsDepth(e: RelExpr)
    ensures Depth(Fingerprint(e)) == Depth(e)
    decreases e, 0
  {
    if HasInput(e) {
      FingerprintKeepsDepth(e.input);
    } else if HasInputs(e) {
      FingerprintsKeepDepth(e.inputs);
    }
  }

  lemma {:induction false} FingerprintsKeepDepth(es: seq<RelExpr>)
    ensures MaxDepth(Fingerprints(es)) == MaxDepth(es)
    decreases es, 1
  {
    if es != [] {
      FingerprintKeepsDepth(es[0]);
      FingerprintsKeepDepth(es[1..]);
      assert Fingerprints(es)[1..] == Fingerprints(es[1..]);
    }
  }

  // ---- Equivalence ----

  /** Stored records as the theorems assume them: of known types, with exactly one key in every
      single-field VALUE index that covers them. */
  ghost predicate Indexed(meta: MetaData, records: Records) {
    forall k :: k in records ==>
      k.typeName in meta.recordTypes &&
      forall n :: 0 <= n < |meta.indexes| && meta.indexes[n].root.FieldKey? && Applies(meta.indexes[n], k.typeName) ==>
        |Evaluate(meta.indexes[n].root, records[k])| == 1
  }

  ghost predicate SameResult(meta: MetaData, a: RelExpr, b: RelExpr) {
    forall records: Records :: Indexed(meta, records) ==> Rows(meta.indexes, records, a) == Rows(meta.indexes, records, b)
  }

  lemma SameFingerprintSameResult(meta: MetaData, a: RelExpr, b: RelExpr)
    requires Fingerprint(a) == Fingerprint(b)
    ensures SameResult(meta, a, b) && Depth(a) == Depth(b)
  {
    FingerprintKeepsDepth(a);
    FingerprintKeepsDepth(b);
    forall records: Records ensures Rows(meta.indexes, records, a) == Rows(meta.indexes, records, b) {
      FingerprintKeepsRows(meta.indexes, records, a);
      FingerprintKeepsRows(meta.indexes, records, b);
    }
  }

  // ---- Operations ----

  /** create_group: a new group with the expression as its first member; the fingerprint is
      registered last. */
  function CreateGroup(m: MemoState, e: RelExpr): (m': MemoState)
    ensures |m'.groups| > |m.groups|
    decreases e, 1
  {
    var g := |m.groups|;
    var m1 := AddToGroup(m.(groups := m.groups + [Group(e, [], None, {})]), e, g);
    m1.(fingerprints := m1.fingerprints[Fingerprint(e) := g])
  }

  function GetOrCreateGroup(m: MemoState, e: RelExpr): (r: (MemoState, nat))
    ensures |r.0.groups| >= |m.groups|
    decreases e, 2
  {
    if Fingerprint(e) in m.fingerprints then (m, m.fingerprints[Fingerprint(e)])
    else (CreateGroup(m, e), |m.groups|)
  }

  /** _add_expression_to_group: find or create the children's groups, then append. */
  function AddToGroup(m: MemoState, e: RelExpr, g: nat): (m': MemoState)
    ensures |m'.groups| >= |m.groups|
    decreases e, 0
  {
    var (m1, childGroups) := GroupsOf(m, e, |Children(e)|);
    var added := GroupExpression(e, m1.nextExprId, childGroups);
    if g < |m1.groups|
    then MemoState(m1.groups[g := m1.groups[g].(expressions := m1.groups[g].expressions + [added])],
                   m1.fingerprints, m1.nextExprId + 1)
    else m1
  }

  /** The groups of the first n children of e. */
  function GroupsOf(m: MemoState, e: RelExpr, n: nat): (r: (MemoState, seq<nat>))
    requires n <= |Children(e)|
    ensures |r.0.groups| >= |m.groups| && |r.1| == n
    decreases e, -1, n
  {
    if n == 0 then (m, [])
    else
      var (m1, childGroups) := GroupsOf(m, e, n - 1);
      assert Children(e)[n - 1] < e;
      var (m2, child) := GetOrCreateGroup(m1, Children(e)[n - 1]);
      (m2, childGroups + [child])
  }

  // ---- What the memo keeps ----

  /** An index that _find_applicable_indexes considers for a scan of these types. */
  predicate Selectable(i: Index, types: seq<string>) {
    i.kind.ValueIndex? && i.root.FieldKey? &&
    (i.recordTypes.None? || exists t :: t in types && t in i.recordTypes.value)
  }

  /** Over the metadata's record types, the index covers the scan's types and no others. */
  predicate CoversExactly(meta: MetaData, i: Index, types: seq<string>) {
    forall t :: t in meta.recordTypes ==> (Applies(i, t) <==> t in types)
  }

  /** A scan lists each type once, and every index that could stand in for it covers just its types. */
  predicate ScanIsCovered(meta: MetaData, types: seq<string>) {
    (forall j, l :: 0 <= j < l < |types| ==> types[j] != types[l]) &&
    forall n :: 0 <= n < |meta.indexes| && Selectable(meta.indexes[n], types) ==> CoversExactly(meta, meta.indexes[n], types)
  }

  /** What the rules rely on: unions remove duplicates, every projection keeps the fields that the
      filters look at, and scans are covered. */
  predicate Safe(meta: MetaData, fields: set<string>, e: RelExpr)
    decreases e, 0
  {
    (e.LogicalUnion? ==> e.removeDuplicates) &&
    (e.LogicalFilter? ==> Mentions(e.predicate_) <= fields) &&
    (e.LogicalProject? ==> forall f :: f in fields ==> f in e.fields) &&
    (e.LogicalScan? ==> ScanIsCovered(meta, e.types)) &&
    if HasInput(e) then Safe(meta, fields, e.input) else if HasInputs(e) then AllSafe(meta, fields, e.inputs) else true
  }

  predicate AllSafe(meta: MetaData, fields: set<string>, es: seq<RelExpr>)
    decreases es, 1
  {
    es == [] || (Safe(meta, fields, es[0]) && AllSafe(meta, fields, es[1..]))
  }

  lemma {:induction false} AllSafeEach(meta: MetaData, fields: set<string>, es: seq<RelExpr>)
    ensures AllSafe(meta, fields, es) <==> forall j :: 0 <= j < |es| ==> Safe(meta, fields, es[j])
    decreases |es|
  {
    if es != [] {
      AllSafeEach(meta, fields, es[1..]);
      assert forall j :: 0 < j < |es| ==> es[j] == es[1..][j - 1];
      assert forall j :: 0 <= j < |es[1..]| ==> es[1..][j] == es[j + 1];
    }
  }

  lemma ChildIsSafe(meta: MetaData, fields: set<string>, e: RelExpr, j: nat)
    requires Safe(meta, fields, e) && j < |Children(e)|
    ensures Safe(meta, fields, Children(e)[j])
  {
    if HasInputs(e) { AllSafeEach(meta, fields, e.inputs); }
  }

  /** The group c denotes the child. */
  ghost predicate DenotesChild(meta: MetaData, groups: seq<Group>, c: nat, child: RelExpr) {
    c < |groups| && SameResult(meta, groups[c].origin, child)
  }

  ghost predicate MemberEquivalent(meta: MetaData, fields: set<string>, groups: seq<Group>, g: nat, x: GroupExpression)
    requires g < |groups|
  {
    SameResult(meta, x.expression, groups[g].origin) && Safe(meta, fields, x.expression) &&
    |x.childGroups| == |Children(x.expression)| &&
    forall j :: 0 <= j < |x.childGroups| ==> DenotesChild(meta, groups, x.childGroups[j], Children(x.expression)[j])
  }

  /** Every member of a group has the group's result, with child groups denoting the children;
      fingerprints lead to groups of the same result; a winner is a physical member. */
  ghost predicate Equivalent(meta: MetaData, fields: set<string>, m: MemoState) {
    (forall g, n :: 0 <= g < |m.groups| && 0 <= n < |m.groups[g].expressions| ==>
      MemberEquivalent(meta, fields, m.groups, g, m.groups[g].expressions[n])) &&
    (forall fp :: fp in m.fingerprints ==> DenotesChild(meta, m.groups, m.fingerprints[fp], fp)) &&
    (forall g :: 0 <= g < |m.groups| && m.groups[g].winner.Some? ==>
      m.groups[g].winner.value.expression in m.groups[g].expressions &&
      IsPhysical(m.groups[g].winner.value.expression.expression))
  }

  ghost predicate MemberRanked(groups: seq<Group>, g: nat, x: GroupExpression)
    requires g < |groups|
  {
    Depth(x.expression) <= Depth(groups[g].origin) && |x.childGroups| == |Children(x.expression)| &&
    forall j :: 0 <= j < |x.childGroups| ==>
      x.childGroups[j] < |groups| && Depth(groups[x.childGroups[j]].origin) == Depth(Children(x.expression)[j])
  }

  /** No member is deeper than the expression its group was created for, and child groups were
      created for expressions of the children's depth: so no group reaches itself. */
  ghost predicate Ranked(m: MemoState) {
    (forall g, n :: 0 <= g < |m.groups| && 0 <= n < |m.groups[g].expressions| ==>
      MemberRanked(m.groups, g, m.groups[g].expressions[n])) &&
    (forall fp :: fp in m.fingerprints ==>
      m.fingerprints[fp] < |m.groups| && Depth(m.groups[m.fingerprints[fp]].origin) == Depth(fp)) &&
    (forall g :: 0 <= g < |m.groups| && m.groups[g].winner.Some? ==>
      m.groups[g].winner.value.expression in m.groups[g].expressions)
  }

  ghost predicate SameOrigins(groups: seq<Group>, groups': seq<Group>) {
    |groups| <= |groups'| && forall g :: 0 <= g < |groups| ==> groups'[g].origin == groups[g].origin
  }

  lemma MemberStaysEquivalent(meta: MetaData, fields: set<string>, groups: seq<Group>, groups': seq<Group>,
        g: nat, x: GroupExpression)
    requires g < |groups| && SameOrigins(groups, groups') && MemberEquivalent(meta, fields, groups, g, x)
    ensures MemberEquivalent(meta, fields, groups', g, x)
  {
    forall j | 0 <= j < |x.childGroups| ensures DenotesChild(meta, groups', x.childGroups[j], Children(x.expression)[j]) {
      assert DenotesChild(meta, groups, x.childGroups[j], Children(x.expression)[j]);
    }
  }

  lemma MemberStaysRanked(groups: seq<Group>, groups': seq<Group>, g: nat, x: GroupExpression)
    requires g < |groups| && SameOrigins(groups, groups') && MemberRanked(groups, g, x)
    ensures MemberRanked(groups', g, x)
  {
  }

  lemma FingerprintSameResult(meta: MetaData, e: RelExpr)
    ensures SameResult(meta, Fingerprint(e), e) && Depth(Fingerprint(e)) == Depth(e)
  {
    FingerprintKeepsDepth(e);
    forall records: Records ensures Rows(meta.indexes, records, Fingerprint(e)) == Rows(meta.indexes, records, e) {
      FingerprintKeepsRows(meta.indexes, records, e);
    }
  }

  /** Opening an empty group keeps the memo. */
  lemma OpenGroupKeeps(meta: MetaData, fields: set<string>, m: MemoState, e: RelExpr)
    requires Equivalent(meta, fields, m)
    ensures Equivalent(meta, fields, m.(groups := m.groups + [Group(e, [], None, {})]))
    ensures Ranked(m) ==> Ranked(m.(groups := m.groups + [Group(e, [], None, {})]))
  {
    var groups' := m.groups + [Group(e, [], None, {})];
    forall g, n | 0 <= g < |groups'| && 0 <= n < |groups'[g].expressions|
      ensures MemberEquivalent(meta, fields, groups', g, groups'[g].expressions[n])
    {
      MemberStaysEquivalent(meta, fields, m.groups, groups', g, groups'[g].expressions[n]);
    }
    forall fp | fp in m.fingerprints ensures DenotesChild(meta, groups', m.fingerprints[fp], fp) {
      assert DenotesChild(meta, m.groups, m.fingerprints[fp], fp);
    }
    if Ranked(m) {
      forall g, n | 0 <= g < |groups'| && 0 <= n < |groups'[g].expressions|
        ensures MemberRanked(groups', g, groups'[g].expressions[n])
      {
        MemberStaysRanked(m.groups, groups', g, groups'[g].expressions[n]);
      }
    }
  }

  function Append(m: MemoState, e: RelExpr, g: nat, childGroups: seq<nat>): MemoState
    requires g < |m.groups|
  {
    var added := GroupExpression(e, m.nextExprId, childGroups);
    MemoState(m.groups[g := m.groups[g].(expressions := m.groups[g].expressions + [added])],
              m.fingerprints, m.nextExprId + 1)
  }

  lemma AppendKeeps(meta: MetaData, fields: set<string>, m: MemoState, e: RelExpr, g: nat, childGroups: seq<nat>)
    requires Equivalent(meta, fields, m) && g < |m.groups|
    requires MemberEquivalent(meta, fields, m.groups, g, GroupExpression(e, m.nextExprId, childGroups))
    ensures Equivalent(meta, fields, Append(m, e, g, childGroups))
  {
    var m' := Append(m, e, g, childGroups);
    forall h, n | 0 <= h < |m'.groups| && 0 <= n < |m'.groups[h].expressions|
      ensures MemberEquivalent(meta, fields, m'.groups, h, m'.groups[h].expressions[n])
    {
      MemberStaysEquivalent(meta, fields, m.groups, m'.groups, h, m'.groups[h].expressions[n]);
    }
    forall fp | fp in m'.fingerprints ensures DenotesChild(meta, m'.groups, m'.fingerprints[fp], fp) {
      assert DenotesChild(meta, m.groups, m.fingerprints[fp], fp);
    }
  }

  lemma AppendKeepsRank(m: MemoState, e: RelExpr, g: nat, childGroups: seq<nat>)
    requires Ranked(m) && g < |m.groups|
    requires MemberRanked(m.groups, g, GroupExpression(e, m.nextExprId, childGroups))
    ensures Ranked(Append(m, e, g, childGroups))
  {
    var m' := Append(m, e, g, childGroups);
    forall h, n | 0 <= h < |m'.groups| && 0 <= n < |m'.groups[h].expressions|
      ensures MemberRanked(m'.groups, h, m'.groups[h].expressions[n])
    {
      MemberStaysRanked(m.groups, m'.groups, h, m'.groups[h].expressions[n]);
    }
  }

  /** Adding an expression with the group's result keeps the memo; only that group gains a member,
      and new groups come after the old ones. */
  lemma {:induction false} AddToGroupKeeps(meta: MetaData, fields: set<string>, m: MemoState, e: RelExpr, g: nat)
    requires Equivalent(meta, fields, m) && g < |m.groups| && Safe(meta, fields, e)
    requires SameResult(meta, e, m.groups[g].origin)
    ensures var m' := AddToGroup(m, e, g);
            Equivalent(meta, fields, m') && SameOrigins(m.groups, m'.groups) &&
            (forall h :: 0 <= h < |m.groups| && h != g ==> m'.groups[h] == m.groups[h]) &&
            m'.groups[g].expressions != [] &&
            m'.groups[g].(expressions := m.groups[g].expressions) == m.groups[g] &&
            m'.groups[g].expressions[..|m'.groups[g].expressions| - 1] == m.groups[g].expressions &&
            m'.groups[g].expressions[|m'.groups[g].expressions| - 1].expression == e
    ensures Ranked(m) && Depth(e) <= Depth(m.groups[g].origin) ==> Ranked(AddToGroup(m, e, g))
    decreases e, 0
  {
    hide Safe, SameResult, Depth, Fingerprint, GroupsOf;
    GroupsOfKeeps(meta, fields, m, e, |Children(e)|);
    var (m1, childGroups) := GroupsOf(m, e, |Children(e)|);
    assert AddToGroup(m, e, g) == Append(m1, e, g, childGroups);
    AppendKeeps(meta, fields, m1, e, g, childGroups);
    if Ranked(m) && Depth(e) <= Depth(m.groups[g].origin) {
      AppendKeepsRank(m1, e, g, childGroups);
    }
  }

  /** The child groups found so far denote the first n children, at their depths. */
  ghost predicate FirstChildren(meta: MetaData, groups: seq<Group>, childGroups: seq<nat>, e: RelExpr, n: nat, ranked: bool)
    requires n <= |Children(e)|
  {
    |childGroups| == n && forall j :: 0 <= j < n ==>
      DenotesChild(meta, groups, childGroups[j], Children(e)[j]) &&
      (ranked ==> Depth(groups[childGroups[j]].origin) == Depth(Children(e)[j]))
  }

  lemma NextChild(meta: MetaData, groups: seq<Group>, groups': seq<Group>, childGroups: seq<nat>, c: nat,
        e: RelExpr, n: nat, ranked: bool)
    requires n < |Children(e)| && FirstChildren(meta, groups, childGroups, e, n, ranked) && groups <= groups'
    requires DenotesChild(meta, groups', c, Children(e)[n])
    requires ranked ==> Depth(groups'[c].origin) == Depth(Children(e)[n])
    ensures FirstChildren(meta, groups', childGroups + [c], e, n + 1, ranked)
  {
    var all := childGroups + [c];
    forall j | 0 <= j < n + 1
      ensures DenotesChild(meta, groups', all[j], Children(e)[j]) &&
              (ranked ==> Depth(groups'[all[j]].origin) == Depth(Children(e)[j]))
    {
      if j < n { assert DenotesChild(meta, groups, childGroups[j], Children(e)[j]); }
    }
  }

  lemma {:induction false} GroupsOfKeeps(meta: MetaData, fields: set<string>, m: MemoState, e: RelExpr, n: nat)
    requires Equivalent(meta, fields, m) && n <= |Children(e)| && Safe(meta, fields, e)
    ensures var (m', childGroups) := GroupsOf(m, e, n);
            Equivalent(meta, fields, m') && m.groups <= m'.groups && (Ranked(m) ==> Ranked(m')) &&
            FirstChildren(meta, m'.groups, childGroups, e, n, Ranked(m))
    decreases e, -1, n
  {
    hide Equivalent, Ranked, GetOrCreateGroup, DenotesChild, Safe, Depth;
    if n > 0 {
      GroupsOfKeeps(meta, fields, m, e, n - 1);
      var (m1, before) := GroupsOf(m, e, n - 1);
      assert Children(e)[n - 1] < e;
      ChildIsSafe(meta, fields, e, n - 1);
      GetOrCreateGroupKeeps(meta, fields, m1, Children(e)[n - 1]);
      var (m2, c) := GetOrCreateGroup(m1, Children(e)[n - 1]);
      NextChild(meta, m1.groups, m2.groups, before, c, e, n - 1, Ranked(m));
    }
  }

  lemma {:induction false} GetOrCreateGroupKeeps(meta: MetaData, fields: set<string>, m: MemoState, e: RelExpr)
    requires Equivalent(meta, fields, m) && Safe(meta, fields, e)
    ensures var (m', g) := GetOrCreateGroup(m, e);
            Equivalent(meta, fields, m') && m.groups <= m'.groups && DenotesChild(meta, m'.groups, g, e) &&
            (Ranked(m) ==> Ranked(m') && Depth(m'.groups[g].origin) == Depth(e))
    decreases e, 2
  {
    var fp := Fingerprint(e);
    if fp in m.fingerprints {
      FingerprintSameResult(meta, e);
      assert DenotesChild(meta, m.groups, m.fingerprints[fp], fp);
    } else {
      CreateGroupKeeps(meta, fields, m, e);
    }
  }

  lemma {:induction false} CreateGroupKeeps(meta: MetaData, fields: set<string>, m: MemoState, e: RelExpr)
    requires Equivalent(meta, fields, m) && Safe(meta, fields, e)
    ensures var m' := CreateGroup(m, e);
            Equivalent(meta, fields, m') && m.groups <= m'.groups &&
            m'.groups[|m.groups|].origin == e && m'.groups[|m.groups|].expressions != [] &&
            m'.groups[|m.groups|].expressions[0].expression == e &&
            (Ranked(m) ==> Ranked(m'))
    decreases e, 1
  {
    var g := |m.groups|;
    var m0 := m.(groups := m.groups + [Group(e, [], None, {})]);
    OpenGroupKeeps(meta, fields, m, e);
    AddToGroupKeeps(meta, fields, m0, e, g);
    var m1 := AddToGroup(m0, e, g);
    var m' := CreateGroup(m, e);
    assert m'.groups == m1.groups;
    forall h | 0 <= h < |m.groups| ensures m'.groups[h] == m.groups[h] {
      assert m0.groups[h] == m.groups[h];
    }
    FingerprintSameResult(meta, e);
    forall fp | fp in m'.fingerprints ensures DenotesChild(meta, m'.groups, m'.fingerprints[fp], fp) {
      if fp != Fingerprint(e) { assert DenotesChild(meta, m1.groups, m1.fingerprints[fp], fp); }
    }
  }

  // ---- Merging ----

  function BetterWinner(a: Option<Winner>, b: Option<Winner>): Option<Winner> {
    if b.Some? && (a.None? || b.value.cost < a.value.cost) then b else a
  }

  /** merge_groups: the second group's members, winner and explored rules move to the first, and
      fingerprints follow.  Members elsewhere keep naming the second group as a child. */
  function MergeGroups(m: MemoState, g1: nat, g2: nat): MemoState
    requires g1 < |m.groups| && g2 < |m.groups|
  {
    if g1 == g2 then m
    else
      var a, b := m.groups[g1], m.groups[g2];
      var merged := Group(a.origin, a.expressions + b.expressions, BetterWinner(a.winner, b.winner), a.exploredRules + b.exploredRules);
      MemoState(m.groups[g1 := merged][g2 := b.(expressions := [], winner := None)],
                map fp | fp in m.fingerprints :: if m.fingerprints[fp] == g2 then g1 else m.fingerprints[fp],
                m.nextExprId)
  }

  lemma SameResultTransitive(meta: MetaData, a: RelExpr, b: RelExpr, c: RelExpr)
    requires SameResult(meta, a, b) && SameResult(meta, b, c)
    ensures SameResult(meta, a, c)
  {
    forall records: Records | Indexed(meta, records) ensures Rows(meta.indexes, records, a) == Rows(meta.indexes, records, c) {
      assert Rows(meta.indexes, records, a) == Rows(meta.indexes, records, b);
    }
  }

  /** Merging two groups of equal result keeps every group's meaning. */
  lemma MergeKeepsEquivalent(meta: MetaData, fields: set<string>, m: MemoState, g1: nat, g2: nat)
    requires Equivalent(meta, fields, m) && g1 < |m.groups| && g2 < |m.groups|
    requires SameResult(meta, m.groups[g1].origin, m.groups[g2].origin)
    ensures Equivalent(meta, fields, MergeGroups(m, g1, g2))
  {
    if g1 != g2 {
      var m' := MergeGroups(m, g1, g2);
      var a, b := m.groups[g1], m.groups[g2];
      assert SameResult(meta, b.origin, a.origin);
      forall g, n | 0 <= g < |m'.groups| && 0 <= n < |m'.groups[g].expressions|
        ensures MemberEquivalent(meta, fields, m'.groups, g, m'.groups[g].expressions[n])
      {
        var x := m'.groups[g].expressions[n];
        if g == g1 && n >= |a.expressions| {
          assert x == b.expressions[n - |a.expressions|];
          MemberStaysEquivalent(meta, fields, m.groups, m'.groups, g2, x);
          SameResultTransitive(meta, x.expression, b.origin, a.origin);
        } else {
          assert x == m.groups[g].expressions[n];
          MemberStaysEquivalent(meta, fields, m.groups, m'.groups, g, x);
        }
      }
      forall fp | fp in m'.fingerprints ensures DenotesChild(meta, m'.groups, m'.fingerprints[fp], fp) {
        assert DenotesChild(meta, m.groups, m.fingerprints[fp], fp);
        if m.fingerprints[fp] == g2 { SameResultTransitive(meta, a.origin, b.origin, fp); }
      }
      if m'.groups[g1].winner.Some? { WinnerSurvives(a, b); }
    }
  }

  lemma WinnerSurvives(a: Group, b: Group)
    requires a.winner.Some? ==> a.winner.value.expression in a.expressions
    requires b.winner.Some? ==> b.winner.value.expression in b.expressions
    ensures var w := BetterWinner(a.winner, b.winner);
            w.Some? ==> w.value.expression in a.expressions + b.expressions
  {
  }

  lemma MergedMemberRanked(m: MemoState, g1: nat, g2: nat, g: nat, n: nat)
    requires Ranked(m) && g1 < |m.groups| && g2 < |m.groups| && g1 != g2
    requires Depth(m.groups[g1].origin) == Depth(m.groups[g2].origin)
    requires g < |m.groups| && n < |MergeGroups(m, g1, g2).groups[g].expressions|
    ensures MemberRanked(MergeGroups(m, g1, g2).groups, g, MergeGroups(m, g1, g2).groups[g].expressions[n])
  {
    var groups' := MergeGroups(m, g1, g2).groups;
    var a, b := m.groups[g1], m.groups[g2];
    var x := groups'[g].expressions[n];
    if g == g1 && n >= |a.expressions| {
      assert x == b.expressions[n - |a.expressions|];
      MemberStaysRanked(m.groups, groups', g2, x);
    } else {
      assert x == m.groups[g].expressions[n];
      MemberStaysRanked(m.groups, groups', g, x);
    }
  }

  /** When the two groups were created for expressions of the same depth, ranks survive too. */
  lemma MergeKeepsRank(m: MemoState, g1: nat, g2: nat)
    requires Ranked(m) && g1 < |m.groups| && g2 < |m.groups|
    requires Depth(m.groups[g1].origin) == Depth(m.groups[g2].origin)
    ensures Ranked(MergeGroups(m, g1, g2))
  {
    if g1 != g2 {
      var m' := MergeGroups(m, g1, g2);
      var a, b := m.groups[g1], m.groups[g2];
      forall g, n | 0 <= g < |m'.groups| && 0 <= n < |m'.groups[g].expressions|
        ensures MemberRanked(m'.groups, g, m'.groups[g].expressions[n])
      {
        MergedMemberRanked(m, g1, g2, g, n);
      }
      if m'.groups[g1].winner.Some? { WinnerSurvives(a, b); }
    }
  }

  // ---- Winners ----

  /** _optimize_inputs: a costed physical member becomes the winner when it is the first or cheaper. */
  function OfferWinner(m: MemoState, g: nat, n: nat, cost: real): MemoState
    requires g < |m.groups| && n < |m.groups[g].expressions|
  {
    var x := m.groups[g].expressions[n];
    var current := m.groups[g].winner;
    if !IsPhysical(x.expression) then m
    else if current.None? || cost < current.value.cost
    then m.(groups := m.groups[g := m.groups[g].(winner := Some(Winner(x, cost)))])
    else m
  }

  lemma OfferWinnerKeeps(meta: MetaData, fields: set<string>, m: MemoState, g: nat, n: nat, cost: real)
    requires Equivalent(meta, fields, m) && Ranked(m) && g < |m.groups| && n < |m.groups[g].expressions|
    ensures var m' := OfferWinner(m, g, n, cost);
            Equivalent(meta, fields, m') && Ranked(m') &&
            (IsPhysical(m.groups[g].expressions[n].expression) ==>
              m'.groups[g].winner.Some? && m'.groups[g].winner.value.cost <= cost) &&
            (m.groups[g].winner.Some? ==>
              m'.groups[g].winner.Some? && m'.groups[g].winner.value.cost <= m.groups[g].winner.value.cost) &&
            (m'.groups[g].winner != m.groups[g].winner ==>
              m'.groups[g].winner == Some(Winner(m.groups[g].expressions[n], cost)) &&
              (m.groups[g].winner.Some? ==> cost < m.groups[g].winner.value.cost))
  {
    var m' := OfferWinner(m, g, n, cost);
    forall h, l | 0 <= h < |m'.groups| && 0 <= l < |m'.groups[h].expressions|
      ensures MemberEquivalent(meta, fields, m'.groups, h, m'.groups[h].expressions[l]) &&
              MemberRanked(m'.groups, h, m'.groups[h].expressions[l])
    {
      MemberStaysEquivalent(meta, fields, m.groups, m'.groups, h, m.groups[h].expressions[l]);
      MemberStaysRanked(m.groups, m'.groups, h, m.groups[h].expressions[l]);
    }
    forall fp | fp in m'.fingerprints ensures DenotesChild(meta, m'.groups, m'.fingerprints[fp], fp) {
      assert DenotesChild(meta, m.groups, m.fingerprints[fp], fp);
    }
  }

  // ---- Extraction ----

  function FirstPhysical(xs: seq<GroupExpression>): (x: Option<GroupExpression>)
    ensures x.Some? ==> x.value in xs && IsPhysical(x.value.expression)
  {
    if xs == [] then None
    else if IsPhysical(xs[0].expression) then Some(xs[0])
    else FirstPhysical(xs[1..])
  }

  /** What extraction takes for a group: its winner, else its first physical member. */
  function Choice(group: Group): Option<GroupExpression> {
    if group.winner.Some? then Some(group.winner.value.expression) else FirstPhysical(group.expressions)
  }

  /** A member of some group, as extraction meets it. */
  ghost predicate IsMember(m: MemoState, x: GroupExpression) {
    exists g :: 0 <= g < |m.groups| && x in m.groups[g].expressions
  }

  lemma ChoiceIsShallower(m: MemoState, x: GroupExpression, j: nat)
    requires Ranked(m) && IsMember(m, x) && j < |x.childGroups|
    ensures x.childGroups[j] < |m.groups| && |x.childGroups| == |Children(x.expression)|
    ensures var y := Choice(m.groups[x.childGroups[j]]);
            y.Some? ==> IsMember(m, y.value) && Depth(y.value.expression) < Depth(x.expression)
  {
    var g :| 0 <= g < |m.groups| && x in m.groups[g].expressions;
    var n :| 0 <= n < |m.groups[g].expressions| && m.groups[g].expressions[n] == x;
    assert MemberRanked(m.groups, g, m.groups[g].expressions[n]);
    var c := x.childGroups[j];
    var y := Choice(m.groups[c]);
    ChildrenAreShallower(x.expression);
    if y.Some? {
      assert y.value in m.groups[c].expressions;
      var l :| 0 <= l < |m.groups[c].expressions| && m.groups[c].expressions[l] == y.value;
      assert MemberRanked(m.groups, c, m.groups[c].expressions[l]);
    }
  }

  /** _rebuild_with_children. */
  function Rebuild(e: RelExpr, children: seq<RelExpr>): RelExpr {
    if children == [] then e
    else match e
      case LogicalFilter(q, _) => LogicalFilter(q, children[0])
      case PhysicalFilter(q, _) => PhysicalFilter(q, children[0])
      case LogicalProject(fields, _) => LogicalProject(fields, children[0])
      case LogicalSort(fields, _) => LogicalSort(fields, children[0])
      case PhysicalSort(fields, _) => PhysicalSort(fields, children[0])
      case LogicalUnion(_, removeDuplicates) => LogicalUnion(children, removeDuplicates)
      case PhysicalUnion(_) => PhysicalUnion(children)
      case LogicalIntersection(_) => LogicalIntersection(children)
      case PhysicalIntersection(_) => PhysicalIntersection(children)
      case _ => e
  }

  /** The choice for x's j-th child group. */
  ghost function ChildChoice(m: MemoState, x: GroupExpression, j: nat): (y: Option<GroupExpression>)
    requires Ranked(m) && IsMember(m, x) && j < |x.childGroups|
    ensures y.Some? ==> IsMember(m, y.value) && Depth(y.value.expression) < Depth(x.expression)
  {
    ChoiceIsShallower(m, x, j);
    Choice(m.groups[x.childGroups[j]])
  }

  /** The plans there are, in order. */
  function Kept(plans: seq<Option<RelExpr>>): seq<RelExpr> {
    if plans == [] then [] else (if plans[0].Some? then [plans[0].value] else []) + Kept(plans[1..])
  }

  lemma {:induction false} KeptAll(plans: seq<Option<RelExpr>>)
    ensures |Kept(plans)| <= |plans|
    ensures |Kept(plans)| == |plans| <==> forall j :: 0 <= j < |plans| ==> plans[j].Some?
    ensures |Kept(plans)| == |plans| ==> forall j :: 0 <= j < |plans| ==> plans[j] == Some(Kept(plans)[j])
  {
    if plans != [] {
      KeptAll(plans[1..]);
      assert forall j :: 0 < j < |plans| ==> plans[j] == plans[1..][j - 1];
      assert forall j :: 0 <= j < |plans| - 1 ==> plans[1..][j] == plans[j + 1];
    }
  }

  /** _extract_plan_recursive; a child group with no winner and no physical member is skipped.
      Ranks are why it ends. */
  ghost function Extract(m: MemoState, x: GroupExpression): RelExpr
    requires Ranked(m) && IsMember(m, x)
    decreases Depth(x.expression), 1
  {
    if x.childGroups == [] then x.expression else Rebuild(x.expression, Kept(ChildPlans(m, x)))
  }

  ghost function ChildPlans(m: MemoState, x: GroupExpression): seq<Option<RelExpr>>
    requires Ranked(m) && IsMember(m, x)
    decreases Depth(x.expression), 0, 1
  {
    seq(|x.childGroups|, j requires 0 <= j < |x.childGroups| => ChildPlan(m, x, j))
  }

  ghost function ChildPlan(m: MemoState, x: GroupExpression, j: nat): Option<RelExpr>
    requires Ranked(m) && IsMember(m, x) && j < |x.childGroups|
    decreases Depth(x.expression), 0, 0
  {
    var y := ChildChoice(m, x, j);
    if y.Some? then Some(Extract(m, y.value)) else None
  }

  /** Every child group reached has a winner or a physical member. */
  ghost predicate Resolvable(m: MemoState, x: GroupExpression)
    requires Ranked(m) && IsMember(m, x)
    decreases Depth(x.expression)
  {
    forall j :: 0 <= j < |x.childGroups| ==>
      var y := ChildChoice(m, x, j);
      y.Some? && Resolvable(m, y.value)
  }

  predicate AllPhysical(e: RelExpr)
    decreases e, 0
  {
    IsPhysical(e) && if HasInput(e) then AllPhysical(e.input) else if HasInputs(e) then EachAllPhysical(e.inputs) else true
  }

  predicate EachAllPhysical(es: seq<RelExpr>)
    decreases es, 1
  {
    es == [] || (AllPhysical(es[0]) && EachAllPhysical(es[1..]))
  }

  lemma {:induction false} EachAllPhysicalIff(es: seq<RelExpr>)
    ensures EachAllPhysical(es) <==> forall j :: 0 <= j < |es| ==> AllPhysical(es[j])
    decreases |es|
  {
    if es != [] {
      EachAllPhysicalIff(es[1..]);
      assert forall j :: 0 < j < |es| ==> es[j] == es[1..][j - 1];
      assert forall j :: 0 <= j < |es[1..]| ==> es[1..][j] == es[j + 1];
    }
  }

  lemma {:induction false} SameInputsSameRows(indexes: seq<Index>, records: Records, es: seq<RelExpr>, fs: seq<RelExpr>)
    requires |es| == |fs|
    requires forall j :: 0 <= j < |es| ==> Rows(indexes, records, es[j]) == Rows(indexes, records, fs[j])
    ensures SumRows(indexes, records, es) == SumRows(indexes, records, fs)
    ensures forall r :: InEach(indexes, records, r, es) <==> InEach(indexes, records, r, fs)
    ensures CommonRows(indexes, records, es) == CommonRows(indexes, records, fs)
    decreases |es|
  {
    if es != [] {
      forall j | 0 <= j < |es[1..]| ensures Rows(indexes, records, es[1..][j]) == Rows(indexes, records, fs[1..][j]) {
        assert es[1..][j] == es[j + 1] && fs[1..][j] == fs[j + 1];
      }
      SameInputsSameRows(indexes, records, es[1..], fs[1..]);
      var first := Rows(indexes, records, es[0]);
      assert first == Rows(indexes, records, fs[0]);
      assert (set r | r in first && InEach(indexes, records, r, es[1..]))
          == (set r | r in first && InEach(indexes, records, r, fs[1..]));
    }
  }

  /** Replacing every child by one of equal result keeps the result. */
  lemma RebuildSameResult(meta: MetaData, e: RelExpr, children: seq<RelExpr>)
    requires |children| == |Children(e)|
    requires forall j :: 0 <= j < |children| ==> SameResult(meta, children[j], Children(e)[j])
    ensures SameResult(meta, Rebuild(e, children), e)
  {
    forall records: Records | Indexed(meta, records)
      ensures Rows(meta.indexes, records, Rebuild(e, children)) == Rows(meta.indexes, records, e)
    {
      assert forall j :: 0 <= j < |children| ==>
        Rows(meta.indexes, records, children[j]) == Rows(meta.indexes, records, Children(e)[j]);
      if HasInputs(e) {
        SameInputsSameRows(meta.indexes, records, children, e.inputs);
      }
    }
  }

  /** A member of any group is a member its group vouches for. */
  lemma MemberIsEquivalent(meta: MetaData, fields: set<string>, m: MemoState, g: nat, x: GroupExpression)
    requires Equivalent(meta, fields, m) && g < |m.groups| && x in m.groups[g].expressions
    ensures MemberEquivalent(meta, fields, m.groups, g, x)
  {
    var n :| 0 <= n < |m.groups[g].expressions| && m.groups[g].expressions[n] == x;
    assert MemberEquivalent(meta, fields, m.groups, g, m.groups[g].expressions[n]);
  }

  lemma ChoiceSameResult(meta: MetaData, fields: set<string>, m: MemoState, x: GroupExpression, j: nat)
    requires Equivalent(meta, fields, m) && Ranked(m) && IsMember(m, x) && j < |x.childGroups|
    requires ChildChoice(m, x, j).Some?
    ensures |x.childGroups| == |Children(x.expression)|
    ensures SameResult(meta, ChildChoice(m, x, j).value.expression, Children(x.expression)[j])
    ensures IsPhysical(ChildChoice(m, x, j).value.expression)
  {
    var g :| 0 <= g < |m.groups| && x in m.groups[g].expressions;
    MemberIsEquivalent(meta, fields, m, g, x);
    var c, y := x.childGroups[j], ChildChoice(m, x, j).value;
    assert DenotesChild(meta, m.groups, c, Children(x.expression)[j]);
    assert Choice(m.groups[c]) == Some(y);
    MemberIsEquivalent(meta, fields, m, c, y);
    SameResultTransitive(meta, y.expression, m.groups[c].origin, Children(x.expression)[j]);
  }

  /** The plan extracted for x's j-th child. */
  lemma {:induction false} ExtractChildSameResult(meta: MetaData, fields: set<string>, m: MemoState,
        x: GroupExpression, j: nat)
    requires Equivalent(meta, fields, m) && Ranked(m) && IsMember(m, x) && Resolvable(m, x) && j < |x.childGroups|
    ensures ChildChoice(m, x, j).Some? && |x.childGroups| == |Children(x.expression)|
    ensures SameResult(meta, Extract(m, ChildChoice(m, x, j).value), Children(x.expression)[j])
    ensures AllPhysical(Extract(m, ChildChoice(m, x, j).value))
    decreases Depth(x.expression), 0
  {
    var y := ChildChoice(m, x, j).value;
    ChoiceSameResult(meta, fields, m, x, j);
    ExtractSameResult(meta, fields, m, y);
    SameResultTransitive(meta, Extract(m, y), y.expression, Children(x.expression)[j]);
  }

  /** Extraction: whenever each reached child group has a winner or a physical member, the extracted
      tree denotes the group's result, and is physical throughout if it starts at a physical member. */
  lemma {:induction false} ExtractSameResult(meta: MetaData, fields: set<string>, m: MemoState, x: GroupExpression)
    requires Equivalent(meta, fields, m) && Ranked(m) && IsMember(m, x) && Resolvable(m, x)
    ensures SameResult(meta, Extract(m, x), x.expression)
    ensures IsPhysical(x.expression) ==> AllPhysical(Extract(m, x))
    decreases Depth(x.expression), 1
  {
    ChildCountOf(meta, fields, m, x);
    if x.childGroups != [] {
      forall j | 0 <= j < |x.childGroups| ensures ChildPlans(m, x)[j] == Some(Extract(m, ChildChoice(m, x, j).value)) {
        ExtractChildSameResult(meta, fields, m, x, j);
      }
      KeptAll(ChildPlans(m, x));
      var children := Kept(ChildPlans(m, x));
      forall j | 0 <= j < |children|
        ensures SameResult(meta, children[j], Children(x.expression)[j]) && AllPhysical(children[j])
      {
        ExtractChildSameResult(meta, fields, m, x, j);
      }
      RebuildSameResult(meta, x.expression, children);
      RebuildPhysical(x.expression, children);
    }
  }

  lemma ChildCountOf(meta: MetaData, fields: set<string>, m: MemoState, x: GroupExpression)
    requires Equivalent(meta, fields, m) && IsMember(m, x)
    ensures |x.childGroups| == |Children(x.expression)|
    ensures x.childGroups == [] && IsPhysical(x.expression) ==> AllPhysical(x.expression)
  {
    var g :| 0 <= g < |m.groups| && x in m.groups[g].expressions;
    MemberIsEquivalent(meta, fields, m, g, x);
  }

  lemma RebuildPhysical(e: RelExpr, children: seq<RelExpr>)
    requires |children| == |Children(e)| && forall j :: 0 <= j < |children| ==> AllPhysical(children[j])
    requires children != []
    ensures IsPhysical(e) ==> AllPhysical(Rebuild(e, children))
  {
    EachAllPhysicalIff(children);
  }

  /** The plan taken from a group's winner denotes the expression the group was created for. */
  lemma BestPlanSameResult(meta: MetaData, fields: set<string>, m: MemoState, g: nat)
    requires Equivalent(meta, fields, m) && Ranked(m) && g < |m.groups| && m.groups[g].winner.Some?
    ensures IsMember(m, m.groups[g].winner.value.expression)
    ensures Resolvable(m, m.groups[g].winner.value.expression) ==>
      SameResult(meta, Extract(m, m.groups[g].winner.value.expression), m.groups[g].origin) &&
      AllPhysical(Extract(m, m.groups[g].winner.value.expression))
  {
    var x := m.groups[g].winner.value.expression;
    assert x in m.groups[g].expressions;
    if Resolvable(m, x) {
      ExtractSameResult(meta, fields, m, x);
      MemberIsEquivalent(meta, fields, m, g, x);
      SameResultTransitive(meta, Extract(m, x), x.expression, m.groups[g].origin);
    }
  }

  /** A child group with neither is dropped in silence: extraction keeps one child per child group
      exactly when all of them have a choice. */
  lemma ExtractDropsUnresolved(m: MemoState, x: GroupExpression)
    requires Ranked(m) && IsMember(m, x)
    ensures |Kept(ChildPlans(m, x))| <= |x.childGroups|
    ensures |Kept(ChildPlans(m, x))| == |x.childGroups| <==>
            forall j :: 0 <= j < |x.childGroups| ==> ChildChoice(m, x, j).Some?
  {
    KeptAll(ChildPlans(m, x));
    forall j | 0 <= j < |x.childGroups| ensures ChildPlans(m, x)[j].Some? <==> ChildChoice(m, x, j).Some? {
      assert ChildPlans(m, x)[j] == ChildPlan(m, x, j);
    }
  }
}
