// Which index a plan uses, and when a plan does without a full scan.
module PlanChoice {
  import opened Wrappers
  import opened Indexes
  import opened Query
  import opened ScanBounds
  import opened Planner

  predicate EqualityOn(p: Component, name: string) { p.FieldIs? && p.fieldName == name && IsEquality(p.comparison.kind) }

  predicate InequalityOn(p: Component, name: string) { p.FieldIs? && p.fieldName == name && IsInequality(p.comparison.kind) }

  predicate HasEquality(preds: seq<Component>, name: string) { exists j :: 0 <= j < |preds| && EqualityOn(preds[j], name) }

  predicate HasInequality(preds: seq<Component>, name: string) { exists j :: 0 <= j < |preds| && InequalityOn(preds[j], name) }

  /** The first of the predicates that is an equality on the field. */
  ghost predicate IsFirstEquality(preds: seq<Component>, name: string, p: Component) {
    exists j :: 0 <= j < |preds| && preds[j] == p && EqualityOn(p, name) && forall l :: 0 <= l < j ==> !EqualityOn(preds[l], name)
  }

  /** The last of the predicates that is an inequality on the field. */
  ghost predicate IsLastInequality(preds: seq<Component>, name: string, p: Component) {
    exists j :: 0 <= j < |preds| && preds[j] == p && InequalityOn(p, name) &&
      forall l :: j < l < |preds| ==> !InequalityOn(preds[l], name)
  }

  /** Looking at the predicates on one field one at a time. */
  lemma OnFirst(preds: seq<Component>, name: string)
    requires preds != [] && AreFields(preds)
    ensures AreFields(preds[1..]) && AreFields(PredicatesOn(preds, name)) && AreFields(PredicatesOn(preds[1..], name))
    ensures var later := PredicatesOn(preds[1..], name);
            FirstEquality(PredicatesOn(preds, name)) ==
              (if EqualityOn(preds[0], name) then Some(preds[0]) else FirstEquality(later)) &&
            LastInequality(PredicatesOn(preds, name)) ==
              (if LastInequality(later).Some? then LastInequality(later)
               else if InequalityOn(preds[0], name) then Some(preds[0]) else None)
  {
    hide IsEquality, IsInequality;
    PredicatesOnField(preds, name);
    PredicatesOnField(preds[1..], name);
    var on, later := PredicatesOn(preds, name), PredicatesOn(preds[1..], name);
    assert on == if preds[0].fieldName == name then [preds[0]] + later else later;
    assert preds[0].fieldName == name ==> on[1..] == later;
  }

  lemma FirstEqualityLater(preds: seq<Component>, name: string, p: Component)
    requires preds != [] && !EqualityOn(preds[0], name) && IsFirstEquality(preds[1..], name, p)
    ensures IsFirstEquality(preds, name, p)
  {
    hide EqualityOn;
    var rest := preds[1..];
    var j :| 0 <= j < |rest| && rest[j] == p && forall l :: 0 <= l < j ==> !EqualityOn(rest[l], name);
    assert preds[j + 1] == p;
    assert forall l :: 0 < l < j + 1 ==> preds[l] == rest[l - 1];
  }

  lemma LastInequalityLater(preds: seq<Component>, name: string, p: Component)
    requires preds != [] && IsLastInequality(preds[1..], name, p)
    ensures IsLastInequality(preds, name, p)
  {
    hide InequalityOn;
    var rest := preds[1..];
    var j :| 0 <= j < |rest| && rest[j] == p && forall l :: j < l < |rest| ==> !InequalityOn(rest[l], name);
    assert preds[j + 1] == p;
    assert forall l :: j + 1 < l < |preds| ==> preds[l] == rest[l - 1];
  }

  lemma LastInequalityFirst(preds: seq<Component>, name: string)
    requires preds != [] && InequalityOn(preds[0], name) && !HasInequality(preds[1..], name)
    ensures IsLastInequality(preds, name, preds[0])
  {
    hide InequalityOn;
    assert forall l :: 0 < l < |preds| ==> preds[l] == preds[1..][l - 1];
  }

  lemma {:induction false} FirstEqualityMeans(preds: seq<Component>, name: string)
    requires AreFields(preds)
    ensures AreFields(PredicatesOn(preds, name))
    ensures var first := FirstEquality(PredicatesOn(preds, name));
            (first.Some? <==> HasEquality(preds, name)) && (first.Some? ==> IsFirstEquality(preds, name, first.value))
  {
    PredicatesOnField(preds, name);
    if preds != [] {
      hide FirstEquality, PredicatesOn, EqualityOn, HasEquality;
      OnFirst(preds, name);
      FirstEqualityMeans(preds[1..], name);
      HasFirst(preds[0], preds[1..], name);
      assert preds == [preds[0]] + preds[1..];
      var first := FirstEquality(PredicatesOn(preds, name));
      if !EqualityOn(preds[0], name) && first.Some? { FirstEqualityLater(preds, name, first.value); }
    }
  }

  lemma {:induction false} LastInequalityMeans(preds: seq<Component>, name: string)
    requires AreFields(preds)
    ensures AreFields(PredicatesOn(preds, name))
    ensures var last := LastInequality(PredicatesOn(preds, name));
            (last.Some? <==> HasInequality(preds, name)) && (last.Some? ==> IsLastInequality(preds, name, last.value))
  {
    PredicatesOnField(preds, name);
    if preds != [] {
      hide LastInequality, PredicatesOn, InequalityOn, HasInequality, IsLastInequality;
      OnFirst(preds, name);
      LastInequalityMeans(preds[1..], name);
      HasFirst(preds[0], preds[1..], name);
      assert preds == [preds[0]] + preds[1..];
      var later := LastInequality(PredicatesOn(preds[1..], name));
      if later.Some? {
        LastInequalityLater(preds, name, later.value);
      } else if InequalityOn(preds[0], name) {
        LastInequalityFirst(preds, name);
      }
    }
  }

  // ---- How much of an index a conjunction can use ----

  /** The number of leading fields on which the predicates have an equality. */
  function EqualityPrefix(fields: seq<string>, preds: seq<Component>): (n: nat)
    ensures n <= |fields|
    ensures forall j :: 0 <= j < n ==> HasEquality(preds, fields[j])
    ensures n < |fields| ==> !HasEquality(preds, fields[n])
  {
    if fields == [] || !HasEquality(preds, fields[0]) then 0 else 1 + EqualityPrefix(fields[1..], preds)
  }

  /** The field after the equalities has an inequality. */
  predicate Bounded(fields: seq<string>, preds: seq<Component>) {
    var n := EqualityPrefix(fields, preds);
    n < |fields| && HasInequality(preds, fields[n])
  }

  /** What is matched: for each field of the prefix its first equality, and then the next field's last
      inequality if it has one. */
  ghost predicate MatchedAre(fields: seq<string>, preds: seq<Component>, matched: seq<Component>) {
    var n := EqualityPrefix(fields, preds);
    |matched| == n + (if Bounded(fields, preds) then 1 else 0) &&
    (forall j :: 0 <= j < n ==> IsFirstEquality(preds, fields[j], matched[j])) &&
    (Bounded(fields, preds) ==> IsLastInequality(preds, fields[n], matched[n]))
  }

  function ComparisonsOf(ps: seq<Component>): (cs: seq<Comparison>)
    requires AreFields(ps)
    ensures |cs| == |ps|
  {
    seq(|ps|, j requires 0 <= j < |ps| => ps[j].comparison)
  }

  /** A match with these predicates added, the first n as equalities. */
  function Extended(m: Match, matched: seq<Component>, n: nat): Match
    requires AreFields(matched) && n <= |matched|
  {
    var c := ComparisonsOf(matched);
    Match(ScanComparisons(m.comparisons.equalities + c[..n], m.comparisons.inequalities + c[n..], m.comparisons.ins),
          m.matched + matched, m.score + 10 * n + 5 * (|matched| - n))
  }

  function WithEquality(m: Match, p: Component): Match
    requires p.FieldIs?
  {
    Match(m.comparisons.(equalities := m.comparisons.equalities + [p.comparison]), m.matched + [p], m.score + 10)
  }

  lemma ExtendedByNone(m: Match)
    ensures Extended(m, [], 0) == m
  {
    assert m.comparisons.equalities + [] == m.comparisons.equalities;
    assert m.comparisons.inequalities + [] == m.comparisons.inequalities && m.matched + [] == m.matched;
  }

  lemma ExtendedByBound(m: Match, p: Component)
    requires p.FieldIs?
    ensures Extended(m, [p], 0) ==
      Match(m.comparisons.(inequalities := m.comparisons.inequalities + [p.comparison]), m.matched + [p], m.score + 5)
  {
    assert ComparisonsOf([p]) == [p.comparison];
    assert m.comparisons.equalities + [] == m.comparisons.equalities;
  }

  lemma ExtendedByEquality(m: Match, p: Component, rest: seq<Component>, n: nat)
    requires p.FieldIs? && AreFields(rest) && n <= |rest|
    ensures AreFields([p] + rest) && Extended(WithEquality(m, p), rest, n) == Extended(m, [p] + rest, n + 1)
  {
    var c, all := ComparisonsOf(rest), ComparisonsOf([p] + rest);
    assert all == [p.comparison] + c;
    assert m.comparisons.equalities + [p.comparison] + c[..n] == m.comparisons.equalities + all[..n + 1];
    assert all[n + 1..] == c[n..];
    assert m.matched + [p] + rest == m.matched + ([p] + rest);
  }

  lemma MatchedOneMore(fields: seq<string>, preds: seq<Component>, p: Component, rest: seq<Component>)
    requires fields != [] && HasEquality(preds, fields[0]) && IsFirstEquality(preds, fields[0], p)
    requires MatchedAre(fields[1..], preds, rest)
    ensures EqualityPrefix(fields, preds) == 1 + EqualityPrefix(fields[1..], preds)
    ensures MatchedAre(fields, preds, [p] + rest)
  {
    hide HasEquality, HasInequality, IsFirstEquality, IsLastInequality;
    var all := [p] + rest;
    assert all[0] == p;
    forall j | 0 < j < |all| ensures all[j] == rest[j - 1] && fields[j] == fields[1..][j - 1] {}
  }

  /** An index is matched on the longest prefix of its fields that have equalities and on one bound
      after it; the score counts 10 for each equality and 5 for the bound. */
  lemma MatchIsLongest(fields: seq<string>, preds: seq<Component>) returns (matched: seq<Component>)
    requires AreFields(preds)
    ensures MatchedAre(fields, preds, matched) && AreFields(matched)
    ensures var n, c := EqualityPrefix(fields, preds), ComparisonsOf(matched);
            MatchFields(fields, preds, NO_MATCH) ==
              Match(ScanComparisons(c[..n], c[n..], []), matched, 10 * n + (if Bounded(fields, preds) then 5 else 0))
  {
    hide MatchFields, MatchedAre, EqualityPrefix, Bounded, Extended;
    matched := MatchAfter(fields, preds, NO_MATCH);
    MatchedSize(fields, preds, matched);
    ExtendedFromNone(matched, EqualityPrefix(fields, preds));
  }

  lemma MatchedSize(fields: seq<string>, preds: seq<Component>, matched: seq<Component>)
    requires MatchedAre(fields, preds, matched)
    ensures |matched| == EqualityPrefix(fields, preds) + if Bounded(fields, preds) then 1 else 0
  {
  }

  lemma ExtendedFromNone(matched: seq<Component>, n: nat)
    requires AreFields(matched) && n <= |matched|
    ensures var c := ComparisonsOf(matched);
            Extended(NO_MATCH, matched, n) ==
              Match(ScanComparisons(c[..n], c[n..], []), matched, 10 * n + 5 * (|matched| - n))
  {
    var c := ComparisonsOf(matched);
    assert [] + matched == matched && [] + c[..n] == c[..n] && [] + c[n..] == c[n..];
  }

  lemma {:induction false} MatchAfter(fields: seq<string>, preds: seq<Component>, m: Match) returns (matched: seq<Component>)
    requires AreFields(preds)
    ensures MatchedAre(fields, preds, matched) && AreFields(matched)
    ensures MatchFields(fields, preds, m) == Extended(m, matched, EqualityPrefix(fields, preds))
    decreases |fields|
  {
    hide FirstEquality, LastInequality, PredicatesOn, Extended, IsFirstEquality, IsLastInequality, HasEquality, HasInequality;
    matched := [];
    ExtendedByNone(m);
    if fields != [] {
      FirstEqualityMeans(preds, fields[0]);
      LastInequalityMeans(preds, fields[0]);
      var on := PredicatesOn(preds, fields[0]);
      FirstEqualityIsField(on);
      LastInequalityIsField(on);
      var equality, inequality := FirstEquality(on), LastInequality(on);
      if equality.Some? {
        var p := equality.value;
        var rest := MatchAfter(fields[1..], preds, WithEquality(m, p));
        matched := [p] + rest;
        MatchedOneMore(fields, preds, p, rest);
        ExtendedByEquality(m, p, rest, EqualityPrefix(fields[1..], preds));
      } else if inequality.Some? {
        matched := [inequality.value];
        ExtendedByBound(m, inequality.value);
      }
    }
  }

  // ---- Which index, and whether any ----

  function Usefulness(i: Index, preds: seq<Component>): nat {
    10 * EqualityPrefix(IndexFields(i), preds) + if Bounded(IndexFields(i), preds) then 5 else 0
  }

  /** The index used is the first of those on which the predicates fix the most leading fields, a bound
      counting half; none is used when no index's first field has an equality or an inequality. */
  lemma BestIndexIsMostUseful(indexes: seq<Index>, preds: seq<Component>)
    requires AreFields(preds)
    ensures var best := BestIndex(indexes, preds);
            (best.None? <==> forall n :: 0 <= n < |indexes| ==> !Leads(indexes[n], preds)) &&
            (best.Some? ==>
              Leads(indexes[best.value], preds) &&
              (forall n :: 0 <= n < |indexes| ==> Usefulness(indexes[n], preds) <= Usefulness(indexes[best.value], preds)) &&
              (forall n :: 0 <= n < best.value ==> Usefulness(indexes[n], preds) < Usefulness(indexes[best.value], preds)))
  {
    hide MatchFields, EqualityPrefix, Bounded, MatchedAre, Leads;
    forall n | 0 <= n < |indexes|
      ensures ScoreOf(indexes[n], preds) == Usefulness(indexes[n], preds) && (Leads(indexes[n], preds) <==> Usefulness(indexes[n], preds) > 0)
    {
      var _ := MatchIsLongest(IndexFields(indexes[n]), preds);
      LeadsIsUseful(indexes[n], preds);
    }
  }

  /** Some predicate is on the index's first field, and can be scanned for. */
  predicate Leads(i: Index, preds: seq<Component>) {
    var fields := IndexFields(i);
    fields != [] && (HasEquality(preds, fields[0]) || HasInequality(preds, fields[0]))
  }

  lemma LeadsIsUseful(i: Index, preds: seq<Component>)
    ensures Leads(i, preds) <==> Usefulness(i, preds) > 0
  {
  }

  // ---- Full scans ----

  /** The filters a plan answers from indexes alone. */
  predicate Indexable(q: Component, indexes: seq<Index>)
    decreases q
  {
    match q
    case FieldIs(name, _) => exists n :: 0 <= n < |indexes| && IndexFields(indexes[n]) != [] && IndexFields(indexes[n])[0] == name
    case And(children) => exists n :: 0 <= n < |indexes| && Leads(indexes[n], children)
    case Or(children) => |children| > 1 && forall j :: 0 <= j < |children| ==> Indexable(children[j], indexes)
    case _ => false
  }

  lemma {:induction false} FieldsOfChildren(children: seq<Component>, name: string)
    ensures HasEquality(Fields(children), name) <==> HasEquality(children, name)
    ensures HasInequality(Fields(children), name) <==> HasInequality(children, name)
    decreases |children|
  {
    if children != [] {
      hide EqualityOn, InequalityOn;
      var first, rest := children[0], children[1..];
      FieldsOfChildren(rest, name);
      HasFirst(first, rest, name);
      HasFirst(first, Fields(rest), name);
      assert children == [first] + rest;
      if first.FieldIs? {
        assert Fields(children) == [first] + Fields(rest);
      } else {
        assert Fields(children) == Fields(rest);
        NotOnField(first, name);
      }
    }
  }

  lemma NotOnField(p: Component, name: string)
    requires !p.FieldIs?
    ensures !EqualityOn(p, name) && !InequalityOn(p, name)
  {
  }

  lemma HasFirst(first: Component, rest: seq<Component>, name: string)
    ensures HasEquality([first] + rest, name) <==> EqualityOn(first, name) || HasEquality(rest, name)
    ensures HasInequality([first] + rest, name) <==> InequalityOn(first, name) || HasInequality(rest, name)
  {
    hide EqualityOn, InequalityOn;
    var all := [first] + rest;
    assert all[0] == first;
    assert forall j :: 0 < j < |all| ==> all[j] == rest[j - 1];
    assert forall j :: 0 <= j < |rest| ==> rest[j] == all[j + 1];
  }

  lemma AndUsesIndexIff(q: Component, indexes: seq<Index>, types: seq<string>)
    requires q.And?
    ensures HasFullScan(PlanAnd(q, indexes, types)) <==> forall n :: 0 <= n < |indexes| ==> !Leads(indexes[n], q.children)
  {
    hide MatchFields, Leads, Without, Others, BestIndex, Fields;
    BestIndexIsMostUseful(indexes, Fields(q.children));
    forall n | 0 <= n < |indexes| ensures Leads(indexes[n], Fields(q.children)) <==> Leads(indexes[n], q.children) {
      LeadsSame(indexes[n], q.children);
    }
  }

  lemma LeadsSame(i: Index, children: seq<Component>)
    ensures Leads(i, Fields(children)) <==> Leads(i, children)
  {
    if IndexFields(i) != [] { FieldsOfChildren(children, IndexFields(i)[0]); }
  }

  /** A plan does without a full scan exactly when the filter can be answered from indexes: a comparison
      on some index's first field; a conjunction with an equality or an inequality on one; a disjunction
      of at least two such filters. */
  lemma {:induction false} NoFullScanIff(q: Component, indexes: seq<Index>, types: seq<string>)
    ensures !HasFullScan(PlanFilter(q, indexes, types)) <==> Indexable(q, indexes)
    decreases q
  {
    match q
    case And(_) => AndUsesIndexIff(q, indexes, types);
    case Or(children) =>
      hide Indexable;
      forall j | 0 <= j < |children|
        ensures !HasFullScan(PlanEach(children, indexes, types)[j]) <==> Indexable(children[j], indexes)
      {
        NoFullScanIff(children[j], indexes, types);
      }
      OrIndexable(q, indexes);
    case FieldIs(_, _) =>
    case _ =>
  }

  lemma OrIndexable(q: Component, indexes: seq<Index>)
    requires q.Or?
    ensures Indexable(q, indexes) <==> |q.children| > 1 && forall j :: 0 <= j < |q.children| ==> Indexable(q.children[j], indexes)
  {
  }
}
