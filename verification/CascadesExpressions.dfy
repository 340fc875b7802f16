// Relational expressions of the Cascades optimizer and the rows they denote.
module CascadesExpressions {
  import opened Wrappers
  import opened Values
  import opened KeyExpressions
  import opened Indexes
  import opened RecordStore
  import opened Query

  datatype RelExpr =
    | LogicalScan(types: seq<string>)
    | LogicalIndexScan(indexName: string, scanPredicate: Component, types: seq<string>)
    | LogicalFilter(predicate_: Component, input: RelExpr)
    | LogicalProject(fields: seq<string>, input: RelExpr)
    | LogicalSort(sortFields: seq<(string, bool)>, input: RelExpr)
    | LogicalUnion(inputs: seq<RelExpr>, removeDuplicates: bool)
    | LogicalIntersection(inputs: seq<RelExpr>)
    | PhysicalScan(types: seq<string>)
    | PhysicalIndexScan(indexName: string, scanPredicate: Component, reverse: bool)
    | PhysicalFilter(predicate_: Component, input: RelExpr)
    | PhysicalSort(sortFields: seq<(string, bool)>, input: RelExpr)
    | PhysicalUnion(inputs: seq<RelExpr>)
    | PhysicalIntersection(inputs: seq<RelExpr>)

  predicate IsPhysical(e: RelExpr) {
    e.PhysicalScan? || e.PhysicalIndexScan? || e.PhysicalFilter? || e.PhysicalSort? || e.PhysicalUnion? || e.PhysicalIntersection?
  }

  predicate HasInput(e: RelExpr) {
    e.LogicalFilter? || e.LogicalProject? || e.LogicalSort? || e.PhysicalFilter? || e.PhysicalSort?
  }

  predicate HasInputs(e: RelExpr) {
    e.LogicalUnion? || e.LogicalIntersection? || e.PhysicalUnion? || e.PhysicalIntersection?
  }

  function Children(e: RelExpr): seq<RelExpr> {
    if HasInput(e) then [e.input] else if HasInputs(e) then e.inputs else []
  }

  /** Depth of the tree. */
  function Depth(e: RelExpr): nat
    decreases e, 0
  {
    1 + if HasInput(e) then Depth(e.input) else if HasInputs(e) then MaxDepth(e.inputs) else 0
  }

  function MaxDepth(es: seq<RelExpr>): (d: nat)
    ensures forall j :: 0 <= j < |es| ==> Depth(es[j]) <= d
    decreases es, 1
  {
    if es == [] then 0
    else
      var rest := MaxDepth(es[1..]);
      assert forall j :: 0 < j < |es| ==> es[j] == es[1..][j - 1];
      if Depth(es[0]) > rest then Depth(es[0]) else rest
  }

  lemma {:induction false} MaxDepthAtMost(es: seq<RelExpr>, d: nat)
    requires forall j :: 0 <= j < |es| ==> Depth(es[j]) <= d
    ensures MaxDepth(es) <= d
  {
    if es != [] {
      assert forall j :: 0 <= j < |es[1..]| ==> es[1..][j] == es[j + 1];
      MaxDepthAtMost(es[1..], d);
    }
  }

  lemma ChildrenAreShallower(e: RelExpr)
    ensures forall j :: 0 <= j < |Children(e)| ==> Depth(Children(e)[j]) < Depth(e)
  {
  }

  // ---- Rows ----

  /** A row is a record or a projection of one, still known by the record's key. */
  datatype Row = Row(key: RecordKey, record: Record)

  type Bag = multiset<Row>

  ghost function RowsOfType(records: Records, typeName: string): set<Row> {
    set k | k in records && k.typeName == typeName :: Row(k, records[k])
  }

  ghost function ScanBag(records: Records, types: seq<string>): Bag {
    if types == [] then multiset{} else multiset(RowsOfType(records, types[0])) + ScanBag(records, types[1..])
  }

  /** An index scan returns the indexed records that meet the scan predicate. */
  ghost function IndexRows(i: Index, records: Records, q: Component): set<Row> {
    set k | k in records && Applies(i, k.typeName) && Evaluate(i.root, records[k]) != [] && Holds(q, records[k]) :: Row(k, records[k])
  }

  ghost function IndexBag(indexes: seq<Index>, name: string, records: Records, q: Component): Bag {
    match FindIndex(indexes, name)
    case None => multiset{}
    case Some(n) => multiset(IndexRows(indexes[n], records, q))
  }

  ghost function FilterBag(m: Bag, q: Component): Bag
    decreases |m|
  {
    if m == multiset{} then m
    else
      var r :| r in m;
      (if Holds(q, r.record) then multiset{r} else multiset{}) + FilterBag(m - multiset{r}, q)
  }

  function Projected(r: Row, fields: seq<string>): Row {
    Row(r.key, Record(r.record.typeName, map f | f in r.record.fields && f in fields :: r.record.fields[f]))
  }

  ghost function ProjectBag(m: Bag, fields: seq<string>): Bag
    decreases |m|
  {
    if m == multiset{} then m
    else
      var r :| r in m;
      multiset{Projected(r, fields)} + ProjectBag(m - multiset{r}, fields)
  }

  ghost function Distinct(m: Bag): Bag { multiset(set r | r in m) }

  /** The rows an expression denotes over a metadata's indexes and some stored records.  Order is
      not part of the denotation, so sorting leaves it alone. */
  ghost function Rows(indexes: seq<Index>, records: Records, e: RelExpr): Bag
    decreases e, 0
  {
    match e
    case LogicalScan(types) => ScanBag(records, types)
    case PhysicalScan(types) => ScanBag(records, types)
    case LogicalIndexScan(name, q, _) => IndexBag(indexes, name, records, q)
    case PhysicalIndexScan(name, q, _) => IndexBag(indexes, name, records, q)
    case LogicalFilter(q, input) => FilterBag(Rows(indexes, records, input), q)
    case PhysicalFilter(q, input) => FilterBag(Rows(indexes, records, input), q)
    case LogicalProject(fields, input) => ProjectBag(Rows(indexes, records, input), fields)
    case LogicalSort(_, input) => Rows(indexes, records, input)
    case PhysicalSort(_, input) => Rows(indexes, records, input)
    case LogicalUnion(inputs, removeDuplicates) =>
      var all := SumRows(indexes, records, inputs);
      if removeDuplicates then Distinct(all) else all
    case PhysicalUnion(inputs) => Distinct(SumRows(indexes, records, inputs))
    case LogicalIntersection(inputs) => CommonRows(indexes, records, inputs)
    case PhysicalIntersection(inputs) => CommonRows(indexes, records, inputs)
  }

  ghost function SumRows(indexes: seq<Index>, records: Records, es: seq<RelExpr>): Bag
    decreases es, 1
  {
    if es == [] then multiset{} else Rows(indexes, records, es[0]) + SumRows(indexes, records, es[1..])
  }

  ghost function CommonRows(indexes: seq<Index>, records: Records, es: seq<RelExpr>): Bag
    decreases es, 2
  {
    if es == [] then multiset{}
    else multiset(set r | r in Rows(indexes, records, es[0]) && InEach(indexes, records, r, es[1..]))
  }

  ghost predicate InEach(indexes: seq<Index>, records: Records, r: Row, es: seq<RelExpr>)
    decreases es, 1
  {
    es == [] || (r in Rows(indexes, records, es[0]) && InEach(indexes, records, r, es[1..]))
  }

  // ---- Laws of the row operations ----

  /** Filtering keeps a row's multiplicity or drops the row. */
  lemma {:induction false} FilterBagCount(m: Bag, q: Component, r: Row)
    ensures FilterBag(m, q)[r] == if Holds(q, r.record) then m[r] else 0
    decreases |m|
  {
    if m != multiset{} {
      var p :| p in m && FilterBag(m, q) == (if Holds(q, p.record) then multiset{p} else multiset{}) + FilterBag(m - multiset{p}, q);
      FilterBagCount(m - multiset{p}, q, r);
      OneOut(m, p, r, Holds(q, p.record), FilterBag(m - multiset{p}, q));
    }
  }

  lemma OneOut(m: Bag, p: Row, r: Row, kept: bool, rest: Bag)
    requires p in m
    ensures (m - multiset{p})[r] == m[r] - if r == p then 1 else 0
    ensures ((if kept then multiset{p} else multiset{}) + rest)[r] == rest[r] + if kept && r == p then 1 else 0
  {
  }

  /** Bags with the same multiplicities are equal. */
  lemma SameCounts(a: Bag, b: Bag)
    requires forall r :: a[r] == b[r]
    ensures a == b
  {
  }

  lemma BothHold(p: Component, q: Component, r: Record)
    ensures Holds(And([p, q]), r) <==> Holds(p, r) && Holds(q, r)
  {
    var both := [p, q];
    assert Holds(And(both), r) <==> Holds(both[0], r) && Holds(both[1], r);
  }

  lemma {:induction false} FilterBagAnd(m: Bag, outer: Component, inner: Component)
    ensures FilterBag(FilterBag(m, inner), outer) == FilterBag(m, And([outer, inner]))
  {
    hide FilterBag, Holds;
    forall r ensures FilterBag(FilterBag(m, inner), outer)[r] == FilterBag(m, And([outer, inner]))[r] {
      FilterBagCount(FilterBag(m, inner), outer, r);
      FilterBagCount(m, inner, r);
      FilterBagCount(m, And([outer, inner]), r);
      BothHold(outer, inner, r.record);
    }
    SameCounts(FilterBag(FilterBag(m, inner), outer), FilterBag(m, And([outer, inner])));
  }

  lemma FilterBagSum(a: Bag, b: Bag, q: Component)
    ensures FilterBag(a + b, q) == FilterBag(a, q) + FilterBag(b, q)
  {
    hide FilterBag;
    forall r ensures FilterBag(a + b, q)[r] == (FilterBag(a, q) + FilterBag(b, q))[r] {
      FilterBagCount(a + b, q, r);
      FilterBagCount(a, q, r);
      FilterBagCount(b, q, r);
    }
    SameCounts(FilterBag(a + b, q), FilterBag(a, q) + FilterBag(b, q));
  }

  lemma FilterBagDistinct(m: Bag, q: Component)
    ensures FilterBag(Distinct(m), q) == Distinct(FilterBag(m, q))
  {
    hide FilterBag;
    forall r ensures FilterBag(Distinct(m), q)[r] == Distinct(FilterBag(m, q))[r] {
      FilterBagCount(Distinct(m), q, r);
      FilterBagCount(m, q, r);
    }
    SameCounts(FilterBag(Distinct(m), q), Distinct(FilterBag(m, q)));
  }

  lemma {:induction false} ProjectBagRemove(m: Bag, fields: seq<string>, r: Row)
    requires r in m
    ensures ProjectBag(m, fields) == multiset{Projected(r, fields)} + ProjectBag(m - multiset{r}, fields)
    decreases |m|
  {
    var p := ProjectBagPick(m, fields);
    if p != r {
      TwoOut(m, p, r);
      var withoutP, withoutR := m - multiset{p}, m - multiset{r};
      var less := withoutP - multiset{r};
      ProjectBagRemove(withoutP, fields, r);
      ProjectBagRemove(withoutR, fields, p);
      Swap(multiset{Projected(p, fields)}, multiset{Projected(r, fields)}, ProjectBag(less, fields));
    }
  }

  lemma TwoOut(m: Bag, p: Row, r: Row)
    requires p in m && r in m && p != r
    ensures r in m - multiset{p} && p in m - multiset{r}
    ensures |m - multiset{p}| < |m| && |m - multiset{r}| < |m|
    ensures m - multiset{p} - multiset{r} == m - multiset{r} - multiset{p}
  {
  }

  lemma BackOut(r: Row, b: Bag)
    ensures r in multiset{r} + b && multiset{r} + b - multiset{r} == b
  {
  }

  lemma {:induction false} ProjectBagPick(m: Bag, fields: seq<string>) returns (p: Row)
    requires m != multiset{}
    ensures p in m && ProjectBag(m, fields) == multiset{Projected(p, fields)} + ProjectBag(m - multiset{p}, fields)
  {
    p :| p in m && ProjectBag(m, fields) == multiset{Projected(p, fields)} + ProjectBag(m - multiset{p}, fields);
  }

  lemma Swap(x: Bag, y: Bag, z: Bag)
    ensures x + (y + z) == y + (x + z)
  {
  }

  // ---- Predicates and projections ----

  /** The top-level fields a filter looks at. */
  function Mentions(q: Component): set<string>
    decreases q, 0
  {
    match q
    case FieldIs(f, _) => {f}
    case NestedField(f, _) => {f}
    case OneOfThem(f, _) => {f}
    case RecordTypeIs(_) => {}
    case And(children) => MentionsAny(children)
    case Or(children) => MentionsAny(children)
    case Not(child) => Mentions(child)
  }

  function MentionsAny(qs: seq<Component>): (fs: set<string>)
    ensures forall j :: 0 <= j < |qs| ==> Mentions(qs[j]) <= fs
    decreases qs, 1
  {
    if qs == [] then {}
    else
      assert forall j :: 0 < j < |qs| ==> qs[j] == qs[1..][j - 1];
      Mentions(qs[0]) + MentionsAny(qs[1..])
  }

  predicate ProjectsAll(q: Component, fields: seq<string>) { forall f :: f in Mentions(q) ==> f in fields }

  lemma {:induction false} ProjectionKeepsHolds(q: Component, r: Row, fields: seq<string>)
    requires ProjectsAll(q, fields)
    ensures Holds(q, Projected(r, fields).record) <==> Holds(q, r.record)
  {
    match q
    case And(children) =>
      forall j | 0 <= j < |children| ensures Holds(children[j], Projected(r, fields).record) <==> Holds(children[j], r.record) {
        ProjectionKeepsHolds(children[j], r, fields);
      }
    case Or(children) =>
      forall j | 0 <= j < |children| ensures Holds(children[j], Projected(r, fields).record) <==> Holds(children[j], r.record) {
        ProjectionKeepsHolds(children[j], r, fields);
      }
    case Not(child) => ProjectionKeepsHolds(child, r, fields);
    case RecordTypeIs(_) =>
    case FieldIs(f, _) => assert f in Mentions(q);
    case NestedField(f, _) => assert f in Mentions(q);
    case OneOfThem(f, _) => assert f in Mentions(q);
  }

  /** Filtering commutes with a projection that the filter cannot tell a row from. */
  lemma {:induction false} FilterCommutesWithProject(m: Bag, q: Component, fields: seq<string>)
    requires forall r :: r in m ==> (Holds(q, Projected(r, fields).record) <==> Holds(q, r.record))
    ensures FilterBag(ProjectBag(m, fields), q) == ProjectBag(FilterBag(m, q), fields)
    decreases |m|
  {
    if m == multiset{} {
      assert FilterBag(ProjectBag(m, fields), q) == multiset{} == ProjectBag(FilterBag(m, q), fields);
    } else {
      var r :| r in m;
      FilterCommutesWithProject(m - multiset{r}, q, fields);
      FilterProjectStep(m, q, fields, r);
      ProjectFilterStep(m, q, fields, r);
    }
  }

  /** Filtering commutes with a projection that keeps the filter's fields. */
  lemma FilterThroughProject(m: Bag, q: Component, fields: seq<string>)
    requires ProjectsAll(q, fields)
    ensures FilterBag(ProjectBag(m, fields), q) == ProjectBag(FilterBag(m, q), fields)
  {
    forall r | r in m ensures Holds(q, Projected(r, fields).record) <==> Holds(q, r.record) {
      ProjectionKeepsHolds(q, r, fields);
    }
    FilterCommutesWithProject(m, q, fields);
  }

  lemma {:induction false} FilterProjectStep(m: Bag, q: Component, fields: seq<string>, r: Row)
    requires r in m && (Holds(q, Projected(r, fields).record) <==> Holds(q, r.record))
    ensures FilterBag(ProjectBag(m, fields), q)
         == (if Holds(q, r.record) then multiset{Projected(r, fields)} else multiset{})
            + FilterBag(ProjectBag(m - multiset{r}, fields), q)
  {
    ProjectBagRemove(m, fields, r);
    FilterBagSum(multiset{Projected(r, fields)}, ProjectBag(m - multiset{r}, fields), q);
    FilterOne(Projected(r, fields), q);
  }

  lemma ProjectFilterStep(m: Bag, q: Component, fields: seq<string>, r: Row)
    requires r in m
    ensures ProjectBag(FilterBag(m, q), fields)
         == (if Holds(q, r.record) then multiset{Projected(r, fields)} else multiset{})
            + ProjectBag(FilterBag(m - multiset{r}, q), fields)
  {
    var rest := m - multiset{r};
    assert m == multiset{r} + rest;
    FilterBagSum(multiset{r}, rest, q);
    FilterOne(r, q);
    var kept := FilterBag(m, q);
    if Holds(q, r.record) {
      BackOut(r, FilterBag(rest, q));
      ProjectBagRemove(kept, fields, r);
    } else {
      assert kept == FilterBag(rest, q);
    }
  }

  lemma FilterOne(r: Row, q: Component)
    ensures FilterBag(multiset{r}, q) == if Holds(q, r.record) then multiset{r} else multiset{}
  {
    forall x ensures FilterBag(multiset{r}, q)[x] == (if Holds(q, r.record) then multiset{r} else multiset{})[x] {
      FilterBagCount(multiset{r}, q, x);
    }
    SameCounts(FilterBag(multiset{r}, q), if Holds(q, r.record) then multiset{r} else multiset{});
  }
}
