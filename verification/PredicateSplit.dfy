// Splitting a predicate into a part an index can scan for and a residual part.
module PredicateSplit {
  import opened Wrappers
  import opened KeyExpressions
  import opened Query

  datatype Split = Split(scan: Option<Component>, residual: Option<Component>)

  function Collect(part: Option<Component>): seq<Component> { if part.Some? then [part.value] else [] }

  /** IndexSelectionRule._split_predicate. */
  function SplitPredicate(q: Component, indexedField: string): Split
    decreases q, 0
  {
    match q
    case FieldIs(name, _) => if name == indexedField then Split(Some(q), None) else Split(None, Some(q))
    case And(children) =>
      var (scans, residuals) := SplitEach(children, indexedField);
      Split(if scans != [] then Some(And(scans)) else None,
            if |residuals| > 1 then Some(And(residuals)) else if residuals != [] then Some(residuals[0]) else None)
    case Or(children) =>
      var (scans, residuals) := SplitEach(children, indexedField);
      if |scans| == |children| && residuals == [] then Split(Some(Or(scans)), None) else Split(None, Some(q))
    case _ => Split(None, Some(q))
  }

  /** The scan parts and the residual parts of some predicates. */
  function SplitEach(qs: seq<Component>, indexedField: string): (seq<Component>, seq<Component>)
    decreases qs, 1
  {
    if qs == [] then ([], [])
    else
      var first := SplitPredicate(qs[0], indexedField);
      var (scans, residuals) := SplitEach(qs[1..], indexedField);
      (Collect(first.scan) + scans, Collect(first.residual) + residuals)
  }

  /** A missing part reads as true. */
  predicate PartHolds(part: Option<Component>, r: Record) { part.Some? ==> Holds(part.value, r) }

  predicate SomeHolds(qs: seq<Component>, r: Record) { exists j :: 0 <= j < |qs| && Holds(qs[j], r) }

  /** The predicate looks at no field but this one. */
  predicate OnlyOn(q: Component, field: string) {
    match q
    case FieldIs(name, _) => name == field
    case And(children) => forall j :: 0 <= j < |children| ==> OnlyOn(children[j], field)
    case Or(children) => forall j :: 0 <= j < |children| ==> OnlyOn(children[j], field)
    case _ => false
  }

  lemma CollectHolds(part: Option<Component>, r: Record)
    ensures EachHolds(Collect(part), r) <==> PartHolds(part, r)
  {
    if part.Some? { assert Collect(part)[0] == part.value; }
  }

  /** Split exactness: the parts together are equivalent to the predicate, and the scan part looks
      only at the indexed field. */
  lemma {:induction false} SplitIsEquivalent(q: Component, indexedField: string, r: Record)
    ensures var s := SplitPredicate(q, indexedField);
            (Holds(q, r) <==> PartHolds(s.scan, r) && PartHolds(s.residual, r)) &&
            (s.scan.Some? ==> OnlyOn(s.scan.value, indexedField))
    decreases q, 0
  {
    match q
    case And(children) =>
      SplitEachIsEquivalent(children, indexedField, r);
    case Or(children) =>
      SplitEachIsEquivalent(children, indexedField, r);
      AllScanned(children, indexedField, r);
    case _ =>
  }

  lemma {:induction false} SplitEachIsEquivalent(qs: seq<Component>, indexedField: string, r: Record)
    ensures var (scans, residuals) := SplitEach(qs, indexedField);
            (EachHolds(qs, r) <==> EachHolds(scans, r) && EachHolds(residuals, r)) &&
            forall j :: 0 <= j < |scans| ==> OnlyOn(scans[j], indexedField)
    decreases qs, 1
  {
    if qs != [] {
      var first := SplitPredicate(qs[0], indexedField);
      var (scans, residuals) := SplitEach(qs[1..], indexedField);
      SplitIsEquivalent(qs[0], indexedField, r);
      SplitEachIsEquivalent(qs[1..], indexedField, r);
      EachHoldsFirst(qs, r);
      EachHoldsConcat(Collect(first.scan), scans, r);
      EachHoldsConcat(Collect(first.residual), residuals, r);
      CollectHolds(first.scan, r);
      CollectHolds(first.residual, r);
    }
  }

  lemma {:induction false} SplitEachSizes(qs: seq<Component>, indexedField: string)
    ensures |SplitEach(qs, indexedField).0| <= |qs|
    decreases |qs|
  {
    if qs != [] { SplitEachSizes(qs[1..], indexedField); }
  }

  /** When every branch is scannable as a whole, the scan parts are the branches' equivalents. */
  lemma {:induction false} AllScanned(qs: seq<Component>, indexedField: string, r: Record)
    ensures var (scans, residuals) := SplitEach(qs, indexedField);
            |scans| == |qs| && residuals == [] ==> (SomeHolds(qs, r) <==> SomeHolds(scans, r))
    decreases qs, 1
  {
    var (scans, residuals) := SplitEach(qs, indexedField);
    if qs != [] && |scans| == |qs| && residuals == [] {
      var first := SplitPredicate(qs[0], indexedField);
      SplitEachSizes(qs[1..], indexedField);
      SplitIsEquivalent(qs[0], indexedField, r);
      AllScanned(qs[1..], indexedField, r);
      SomeHoldsFirst(qs, r);
      SomeHoldsFirst(scans, r);
      assert scans[1..] == SplitEach(qs[1..], indexedField).0;
    }
  }

  lemma SomeHoldsFirst(qs: seq<Component>, r: Record)
    requires qs != []
    ensures SomeHolds(qs, r) <==> Holds(qs[0], r) || SomeHolds(qs[1..], r)
  {
    if SomeHolds(qs, r) {
      var j :| 0 <= j < |qs| && Holds(qs[j], r);
      if j > 0 { assert Holds(qs[1..][j - 1], r); }
    }
    if SomeHolds(qs[1..], r) {
      var j :| 0 <= j < |qs[1..]| && Holds(qs[1..][j], r);
      assert Holds(qs[j + 1], r);
    }
  }

  /** The whole predicate can be scanned for: conjunctions and disjunctions of comparisons on the field;
      a disjunction with a branch that asks nothing is left to the filter. */
  predicate Served(q: Component, field: string)
    decreases q, 0
  {
    match q
    case FieldIs(name, _) => name == field
    case And(children) => forall j :: 0 <= j < |children| ==> Served(children[j], field)
    case Or(children) => forall j :: 0 <= j < |children| ==> Served(children[j], field) && Helps(children[j], field)
    case _ => false
  }

  /** Some part of the predicate can be scanned for. */
  predicate Helps(q: Component, field: string)
    decreases q, 1
  {
    match q
    case And(children) => exists j :: 0 <= j < |children| && Helps(children[j], field)
    case _ => Served(q, field)
  }

  predicate AllServed(qs: seq<Component>, field: string) { forall j :: 0 <= j < |qs| ==> Served(qs[j], field) }

  predicate SomeHelps(qs: seq<Component>, field: string) { exists j :: 0 <= j < |qs| && Helps(qs[j], field) }

  predicate AllHelp(qs: seq<Component>, field: string) { forall j :: 0 <= j < |qs| ==> Helps(qs[j], field) }

  lemma PartsOf(a: seq<Component>, b: seq<Component>, field: string)
    ensures AllServed(a + b, field) <==> AllServed(a, field) && AllServed(b, field)
    ensures SomeHelps(a + b, field) <==> SomeHelps(a, field) || SomeHelps(b, field)
    ensures AllHelp(a + b, field) <==> AllHelp(a, field) && AllHelp(b, field)
  {
    hide Served, Helps;
    var all := a + b;
    assert forall j :: 0 <= j < |a| ==> all[j] == a[j];
    forall j | 0 <= j < |b| ensures b[j] == all[|a| + j] {}
    assert forall j :: |a| <= j < |all| ==> all[j] == b[j - |a|];
  }

  lemma PartsOfOne(q: Component, field: string)
    ensures AllServed([q], field) <==> Served(q, field)
    ensures SomeHelps([q], field) <==> Helps(q, field)
    ensures AllHelp([q], field) <==> Helps(q, field)
  {
    hide Served, Helps;
    assert [q][0] == q;
  }

  lemma PartsOfTree(q: Component, field: string)
    ensures q.And? ==> (Served(q, field) <==> AllServed(q.children, field)) && (Helps(q, field) <==> SomeHelps(q.children, field))
    ensures q.Or? ==> (Served(q, field) <==> AllServed(q.children, field) && AllHelp(q.children, field)) &&
                      (Helps(q, field) <==> Served(q, field))
  {
  }

  /** The split leaves no residual exactly when the whole predicate can be scanned for, and has a scan
      part exactly when some conjunct can; what is left over has no such part, and what is scanned for
      can be as a whole. */
  lemma {:induction false} SplitIsComplete(q: Component, field: string)
    ensures var s := SplitPredicate(q, field);
            (s.residual.None? <==> Served(q, field)) && (s.scan.Some? <==> Helps(q, field)) &&
            (s.residual.Some? ==> !Helps(s.residual.value, field)) &&
            (s.scan.Some? ==> Served(s.scan.value, field) && Helps(s.scan.value, field))
    decreases q, 0
  {
    if q.And? || q.Or? {
      hide Served, Helps, AllServed, SomeHelps, AllHelp;
      SplitEachIsComplete(q.children, field);
      var (scans, residuals) := SplitEach(q.children, field);
      PartsOfTree(q, field);
      PartsOfTree(And(scans), field);
      PartsOfTree(And(residuals), field);
      PartsOfTree(Or(scans), field);
      if |residuals| == 1 {
        PartsOfOne(residuals[0], field);
        assert residuals == [residuals[0]];
      }
    }
  }

  lemma {:induction false} SplitEachIsComplete(qs: seq<Component>, field: string)
    ensures var (scans, residuals) := SplitEach(qs, field);
            (residuals == [] <==> AllServed(qs, field)) && (scans != [] <==> SomeHelps(qs, field)) &&
            |scans| <= |qs| && (|scans| == |qs| <==> AllHelp(qs, field)) &&
            !SomeHelps(residuals, field) && AllServed(scans, field) && AllHelp(scans, field) &&
            (scans != [] ==> SomeHelps(scans, field))
    decreases qs, 1
  {
    if qs != [] {
      hide Served, Helps, AllServed, SomeHelps, AllHelp, SplitPredicate;
      var first, rest := SplitPredicate(qs[0], field), SplitEach(qs[1..], field);
      SplitIsComplete(qs[0], field);
      SplitEachIsComplete(qs[1..], field);
      assert qs == [qs[0]] + qs[1..];
      PartsOf([qs[0]], qs[1..], field);
      PartsOfOne(qs[0], field);
      PartsOf(Collect(first.scan), rest.0, field);
      PartsOf(Collect(first.residual), rest.1, field);
      NoParts(field);
      if first.scan.Some? { PartsOfOne(first.scan.value, field); }
      if first.residual.Some? { PartsOfOne(first.residual.value, field); }
    } else {
      NoParts(field);
    }
  }

  lemma NoParts(field: string)
    ensures AllServed([], field) && !SomeHelps([], field) && AllHelp([], field)
  {
  }

  lemma SplitEachFrom(qs: seq<Component>, indexedField: string, j: nat)
    requires j < |qs|
    ensures var part := SplitPredicate(qs[j], indexedField);
            SplitEach(qs[j..], indexedField) ==
              (Collect(part.scan) + SplitEach(qs[j + 1..], indexedField).0,
               Collect(part.residual) + SplitEach(qs[j + 1..], indexedField).1)
  {
    assert qs[j..][0] == qs[j] && qs[j..][1..] == qs[j + 1..];
  }

  /** The loop over a conjunction's children. */
  method SplitAnd(children: seq<Component>, indexedField: string)
    returns (scanParts: seq<Component>, residualParts: seq<Component>)
    ensures (scanParts, residualParts) == SplitEach(children, indexedField)
    decreases children, 1
  {
    scanParts, residualParts := [], [];
    assert children[0..] == children;
    for j := 0 to |children|
      invariant scanParts + SplitEach(children[j..], indexedField).0 == SplitEach(children, indexedField).0
      invariant residualParts + SplitEach(children[j..], indexedField).1 == SplitEach(children, indexedField).1
    {
      SplitEachFrom(children, indexedField, j);
      ghost var (scans, residuals) := SplitEach(children[j + 1..], indexedField);
      var part := SplitLoop(children[j], indexedField);
      Regroup(scanParts, Collect(part.scan), scans);
      Regroup(residualParts, Collect(part.residual), residuals);
      scanParts := scanParts + Collect(part.scan);
      residualParts := residualParts + Collect(part.residual);
    }
    assert SplitEach(children[|children|..], indexedField) == ([], []);
    assert scanParts + [] == scanParts && residualParts + [] == residualParts;
  }

  /** The loop over a disjunction's children: it gives up at the first branch that is not wholly scannable. */
  method SplitOr(children: seq<Component>, indexedField: string) returns (allScan: Option<seq<Component>>)
    ensures var (scans, residuals) := SplitEach(children, indexedField);
            allScan == if |scans| == |children| && residuals == [] then Some(scans) else None
    decreases children, 1
  {
    var found: seq<Component> := [];
    assert children[0..] == children;
    for j := 0 to |children|
      invariant |found| == j
      invariant found + SplitEach(children[j..], indexedField).0 == SplitEach(children, indexedField).0
      invariant SplitEach(children[j..], indexedField).1 == SplitEach(children, indexedField).1
    {
      SplitEachFrom(children, indexedField, j);
      SplitEachSizes(children[j + 1..], indexedField);
      ghost var (scans, residuals) := SplitEach(children[j + 1..], indexedField);
      var part := SplitLoop(children[j], indexedField);
      if part.scan.None? {
        assert |SplitEach(children, indexedField).0| < |children|;
        return None;
      }
      if part.residual.Some? {
        assert SplitEach(children, indexedField).1 == [part.residual.value] + residuals;
        return None;
      }
      Regroup(found, [part.scan.value], scans);
      found := found + [part.scan.value];
    }
    assert SplitEach(children[|children|..], indexedField) == ([], []);
    assert found + [] == found;
    allScan := Some(found);
  }

  method SplitLoop(q: Component, indexedField: string) returns (s: Split)
    ensures s == SplitPredicate(q, indexedField)
    decreases q, 0
  {
    match q {
      case FieldIs(name, _) =>
        if name == indexedField { s := Split(Some(q), None); } else { s := Split(None, Some(q)); }
      case And(children) =>
        var scanParts, residualParts := SplitAnd(children, indexedField);
        s := Split(if scanParts != [] then Some(And(scanParts)) else None,
                   if |residualParts| > 1 then Some(And(residualParts))
                   else if residualParts != [] then Some(residualParts[0]) else None);
      case Or(children) =>
        var allScan := SplitOr(children, indexedField);
        s := if allScan.Some? then Split(Some(Or(allScan.value)), None) else Split(None, Some(q));
      case _ => s := Split(None, Some(q));
    }
  }
}
