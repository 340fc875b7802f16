// Deduplication by printed predicates, as the memo's fingerprints have it.
module MemoPrinted {
  import opened Wrappers
  import opened Values
  import opened KeyExpressions
  import opened Indexes
  import opened RecordStore
  import opened Query
  import opened CascadesExpressions
  import opened MemoGroups
  import opened PredicatePrinted

  /** The expressions have the same fingerprint when predicates are compared by what they print as. */
  predicate SamePrinted(repr: Repr, a: RelExpr, b: RelExpr)
    decreases a, 0
  {
    match (a, b)
    case (LogicalScan(types), LogicalScan(others)) => types == others
    case (PhysicalScan(types), PhysicalScan(others)) => types == others
    case (LogicalIndexScan(name, q, _), LogicalIndexScan(other, p, _)) => name == other && Printed(repr, q) == Printed(repr, p)
    case (PhysicalIndexScan(name, q, reverse), PhysicalIndexScan(other, p, reverse')) =>
      name == other && Printed(repr, q) == Printed(repr, p) && reverse == reverse'
    case (LogicalFilter(q, x), LogicalFilter(p, y)) => Printed(repr, q) == Printed(repr, p) && SamePrinted(repr, x, y)
    case (PhysicalFilter(q, x), PhysicalFilter(p, y)) => Printed(repr, q) == Printed(repr, p) && SamePrinted(repr, x, y)
    case (LogicalProject(fields, x), LogicalProject(others, y)) => fields == others && SamePrinted(repr, x, y)
    case (LogicalSort(fields, x), LogicalSort(others, y)) => fields == others && SamePrinted(repr, x, y)
    case (PhysicalSort(fields, x), PhysicalSort(others, y)) => fields == others && SamePrinted(repr, x, y)
    case (LogicalUnion(xs, distinct), LogicalUnion(ys, distinct')) => distinct == distinct' && EachSamePrinted(repr, xs, ys)
    case (PhysicalUnion(xs), PhysicalUnion(ys)) => EachSamePrinted(repr, xs, ys)
    case (LogicalIntersection(xs), LogicalIntersection(ys)) => EachSamePrinted(repr, xs, ys)
    case (PhysicalIntersection(xs), PhysicalIntersection(ys)) => EachSamePrinted(repr, xs, ys)
    case _ => false
  }

  predicate EachSamePrinted(repr: Repr, xs: seq<RelExpr>, ys: seq<RelExpr>)
    decreases xs, 1
  {
    |xs| == |ys| && (xs == [] || (SamePrinted(repr, xs[0], ys[0]) && EachSamePrinted(repr, xs[1..], ys[1..])))
  }

  /** All names in the expression's predicates are plain. */
  predicate AllPlain(e: RelExpr)
    decreases e, 0
  {
    (e.LogicalFilter? || e.PhysicalFilter? ==> PlainNames(e.predicate_)) &&
    (e.LogicalIndexScan? || e.PhysicalIndexScan? ==> PlainNames(e.scanPredicate)) &&
    if HasInput(e) then AllPlain(e.input) else if HasInputs(e) then EachPlain(e.inputs) else true
  }

  predicate EachPlain(es: seq<RelExpr>)
    decreases es, 1
  {
    es == [] || (AllPlain(es[0]) && EachPlain(es[1..]))
  }

  lemma SameFilterBag(repr: Repr, m: Bag, q: Component, p: Component)
    requires Delimited(repr) && PlainNames(q) && PlainNames(p) && Printed(repr, q) == Printed(repr, p)
    ensures FilterBag(m, q) == FilterBag(m, p)
  {
    hide FilterBag, Delimited, Printed, PlainNames, Holds;
    forall r ensures FilterBag(m, q)[r] == FilterBag(m, p)[r] {
      FilterBagCount(m, q, r);
      FilterBagCount(m, p, r);
      SamePrintHolds(repr, q, p, r.record);
    }
    SameCounts(FilterBag(m, q), FilterBag(m, p));
  }

  lemma SameIndexRows(repr: Repr, i: Index, records: Records, q: Component, p: Component)
    requires Delimited(repr) && PlainNames(q) && PlainNames(p) && Printed(repr, q) == Printed(repr, p)
    ensures IndexRows(i, records, q) == IndexRows(i, records, p)
  {
    hide Delimited, Printed, PlainNames, Holds;
    forall r: Record ensures Holds(q, r) <==> Holds(p, r) {
      SamePrintHolds(repr, q, p, r);
    }
  }

  lemma SameIndexBag(repr: Repr, indexes: seq<Index>, name: string, records: Records, q: Component, p: Component)
    requires Delimited(repr) && PlainNames(q) && PlainNames(p) && Printed(repr, q) == Printed(repr, p)
    ensures IndexBag(indexes, name, records, q) == IndexBag(indexes, name, records, p)
  {
    hide Delimited, Printed, PlainNames, IndexRows;
    var n := FindIndex(indexes, name);
    if n.Some? { SameIndexRows(repr, indexes[n.value], records, q, p); }
  }

  /** Expressions told apart only by what their predicates print as denote the same rows. */
  lemma {:induction false} SamePrintedSameRows(repr: Repr, indexes: seq<Index>, records: Records, a: RelExpr, b: RelExpr)
    requires Delimited(repr) && AllPlain(a) && AllPlain(b) && SamePrinted(repr, a, b)
    ensures Rows(indexes, records, a) == Rows(indexes, records, b)
    decreases a, 0
  {
    hide Delimited, Printed, PlainNames, IndexBag, FilterBag;
    match a
    case LogicalScan(_) =>
    case PhysicalScan(_) =>
    case LogicalIndexScan(name, q, _) => SameIndexBag(repr, indexes, name, records, q, b.scanPredicate);
    case PhysicalIndexScan(name, q, _) => SameIndexBag(repr, indexes, name, records, q, b.scanPredicate);
    case LogicalFilter(q, input) =>
      SamePrintedSameRows(repr, indexes, records, input, b.input);
      SameFilterBag(repr, Rows(indexes, records, input), q, b.predicate_);
    case PhysicalFilter(q, input) =>
      SamePrintedSameRows(repr, indexes, records, input, b.input);
      SameFilterBag(repr, Rows(indexes, records, input), q, b.predicate_);
    case LogicalProject(_, input) => SamePrintedSameRows(repr, indexes, records, input, b.input);
    case LogicalSort(_, input) => SamePrintedSameRows(repr, indexes, records, input, b.input);
    case PhysicalSort(_, input) => SamePrintedSameRows(repr, indexes, records, input, b.input);
    case _ =>
      EachSameRows(repr, indexes, records, a.inputs, b.inputs);
      SameInputsSameRows(indexes, records, a.inputs, b.inputs);
  }

  lemma {:induction false} EachSameRows(repr: Repr, indexes: seq<Index>, records: Records, xs: seq<RelExpr>,
        ys: seq<RelExpr>)
    requires Delimited(repr) && EachPlain(xs) && EachPlain(ys) && EachSamePrinted(repr, xs, ys)
    ensures |xs| == |ys| && forall j :: 0 <= j < |xs| ==> Rows(indexes, records, xs[j]) == Rows(indexes, records, ys[j])
    decreases xs, 1
  {
    hide Delimited, Rows;
    if xs != [] {
      SamePrintedSameRows(repr, indexes, records, xs[0], ys[0]);
      EachSameRows(repr, indexes, records, xs[1..], ys[1..]);
      forall j | 0 <= j < |xs| ensures Rows(indexes, records, xs[j]) == Rows(indexes, records, ys[j]) {
        if j > 0 { assert xs[j] == xs[1..][j - 1] && ys[j] == ys[1..][j - 1]; }
      }
    }
  }

  /** So the memo's deduplication never joins expressions of different results. */
  lemma SamePrintedSameResult(repr: Repr, meta: MetaData, a: RelExpr, b: RelExpr)
    requires Delimited(repr) && AllPlain(a) && AllPlain(b) && SamePrinted(repr, a, b)
    ensures SameResult(meta, a, b) && Depth(a) == Depth(b)
  {
    hide Delimited, AllPlain, SamePrinted, Rows;
    forall records: Records ensures Rows(meta.indexes, records, a) == Rows(meta.indexes, records, b) {
      SamePrintedSameRows(repr, meta.indexes, records, a, b);
    }
    SamePrintedSameDepth(repr, a, b);
  }

  lemma {:induction false} SamePrintedSameDepth(repr: Repr, a: RelExpr, b: RelExpr)
    requires SamePrinted(repr, a, b)
    ensures Depth(a) == Depth(b)
    decreases a, 0
  {
    if HasInput(a) {
      SamePrintedSameDepth(repr, a.input, b.input);
    } else if HasInputs(a) {
      EachSameDepth(repr, a.inputs, b.inputs);
    }
  }

  lemma {:induction false} EachSameDepth(repr: Repr, xs: seq<RelExpr>, ys: seq<RelExpr>)
    requires EachSamePrinted(repr, xs, ys)
    ensures MaxDepth(xs) == MaxDepth(ys)
    decreases xs, 1
  {
    if xs != [] {
      SamePrintedSameDepth(repr, xs[0], ys[0]);
      EachSameDepth(repr, xs[1..], ys[1..]);
    }
  }
}
