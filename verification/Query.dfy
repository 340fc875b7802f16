// Query filters: comparisons on field values and the tree of components over them.
module Query {
  import opened Values
  import opened KeyExpressions
  import opened Decimal

  datatype ComparisonType =
    | Equals | NotEquals
    | LessThan | LessThanOrEquals | GreaterThan | GreaterThanOrEquals
    | StartsWith | EndsWith | Contains
    | In | NotIn
    | IsNull | IsNotNull

  /** values is the list of an IN or NOT IN; value is the operand of every other type. */
  datatype Comparison = Comparison(kind: ComparisonType, value: Value, values: seq<Value>)

  predicate IsEquality(t: ComparisonType) { t == Equals || t == IsNull }

  predicate IsInequality(t: ComparisonType) {
    t in {LessThan, LessThanOrEquals, GreaterThan, GreaterThanOrEquals, StartsWith, IsNotNull}
  }

  function Text(v: Value): string {
    match v
    case Null => "None"
    case Str(s) => s
    case Int(i) => IntText(i)
    case Tup(_) => ""
  }

  predicate HasSuffix(s: string, t: string) { |t| <= |s| && s[|s| - |t|..] == t }

  predicate HasInfix(s: string, t: string) {
    t <= s || (s != [] && HasInfix(s[1..], t))
  }

  /** Comparison.evaluate. */
  predicate Satisfies(c: Comparison, v: Value) {
    match c.kind
    case Equals => v == c.value
    case NotEquals => v != c.value
    case LessThan => v != Null && Less(v, c.value)
    case LessThanOrEquals => v != Null && AtMost(v, c.value)
    case GreaterThan => v != Null && Less(c.value, v)
    case GreaterThanOrEquals => v != Null && AtMost(c.value, v)
    case StartsWith => v != Null && Text(c.value) <= Text(v)
    case EndsWith => v != Null && HasSuffix(Text(v), Text(c.value))
    case Contains => v != Null && HasInfix(Text(v), Text(c.value))
    case In => v in c.values
    case NotIn => v !in c.values
    case IsNull => v == Null
    case IsNotNull => v != Null
  }

  /** How the comparison types relate: three pairs of opposites, membership as one of several equalities,
      and for a value that is not null exactly one of less, equal and greater; null meets no bound. */
  lemma ComparisonsRelate(value: Value, values: seq<Value>, v: Value)
    ensures Satisfies(Comparison(NotEquals, value, values), v) <==> !Satisfies(Comparison(Equals, value, values), v)
    ensures Satisfies(Comparison(NotIn, value, values), v) <==> !Satisfies(Comparison(In, value, values), v)
    ensures Satisfies(Comparison(IsNotNull, value, values), v) <==> !Satisfies(Comparison(IsNull, value, values), v)
    ensures Satisfies(Comparison(IsNull, value, values), v) <==> Satisfies(Comparison(Equals, Null, values), v)
    ensures Satisfies(Comparison(In, value, values), v) <==>
            exists j :: 0 <= j < |values| && Satisfies(Comparison(Equals, values[j], values), v)
    ensures var less, equal, greater :=
              Satisfies(Comparison(LessThan, value, values), v), Satisfies(Comparison(Equals, value, values), v),
              Satisfies(Comparison(GreaterThan, value, values), v);
            var atMost, atLeast :=
              Satisfies(Comparison(LessThanOrEquals, value, values), v), Satisfies(Comparison(GreaterThanOrEquals, value, values), v);
            if v == Null then !less && !greater && !atMost && !atLeast
            else
              (less || equal || greater) && !(less && equal) && !(equal && greater) && !(less && greater) &&
              (atMost <==> less || equal) && (atLeast <==> greater || equal)
  {
    LessTotal(v, value);
  }

  lemma {:induction false} InfixIsBetween(s: string, t: string)
    ensures HasInfix(s, t) <==> exists head: string, tail: string :: s == head + t + tail
  {
    if t <= s {
      assert s == [] + t + s[|t|..];
    } else if s != [] {
      InfixIsBetween(s[1..], t);
      if HasInfix(s[1..], t) {
        var head: string, tail: string :| s[1..] == head + t + tail;
        assert s == ([s[0]] + head) + t + tail;
      }
      forall head: string, tail: string | s == head + t + tail ensures HasInfix(s[1..], t) {
        assert head == [] ==> s == t + tail;
        assert s[1..] == head[1..] + t + tail;
      }
    }
  }

  /** What the three text comparisons mean: the operand's text comes first, last or somewhere in the value's. */
  lemma TextComparisonMeans(c: Comparison, v: Value)
    ensures c.kind == StartsWith ==> (Satisfies(c, v) <==> v != Null && exists tail: string :: Text(v) == Text(c.value) + tail)
    ensures c.kind == EndsWith ==> (Satisfies(c, v) <==> v != Null && exists head: string :: Text(v) == head + Text(c.value))
    ensures c.kind == Contains ==>
      (Satisfies(c, v) <==> v != Null && exists head: string, tail: string :: Text(v) == head + Text(c.value) + tail)
  {
    var s, t := Text(v), Text(c.value);
    if t <= s { assert s == t + s[|t|..]; }
    if HasSuffix(s, t) { assert s == s[..|s| - |t|] + t; }
    InfixIsBetween(s, t);
  }

  datatype Component =
    | FieldIs(fieldName: string, comparison: Comparison)
    | NestedField(parentField: string, child: Component)
    | OneOfThem(fieldName: string, comparison: Comparison)
    | RecordTypeIs(typeNames: seq<string>)
    | And(children: seq<Component>)
    | Or(children: seq<Component>)
    | Not(child: Component)

  /** The value a field comparison looks at. */
  function ComparedValue(v: FieldValue): Value {
    match v
    case Scalar(v) => v
    case Repeated(vs) => Tup(vs)
    case Message(_) => Tup([])
    case Messages(_) => Tup([])
  }

  function Bare(): Record { Record("", map[]) }

  /** QueryComponent.evaluate: what a filter means for a record. */
  predicate Holds(q: Component, r: Record)
    decreases q
  {
    match q
    case FieldIs(name, c) =>
      if name !in r.fields then c.kind == IsNull else Satisfies(c, ComparedValue(r.fields[name]))
    case NestedField(parent, child) =>
      parent in r.fields &&
      (match r.fields[parent]
       case Message(m) => Holds(child, m)
       case Messages(ms) => exists j :: 0 <= j < |ms| && Holds(child, ms[j])
       case Scalar(Null) => false
       case Scalar(_) => Holds(child, Bare())
       case Repeated(vs) => vs != [] && Holds(child, Bare()))
    case OneOfThem(name, c) =>
      name in r.fields &&
      (match r.fields[name]
       case Scalar(Null) => false
       case Scalar(Str(s)) => exists j :: 0 <= j < |s| && Satisfies(c, Str([s[j]]))
       case Scalar(v) => Satisfies(c, v)
       case Repeated(vs) => exists j :: 0 <= j < |vs| && Satisfies(c, vs[j])
       case _ => false)
    case RecordTypeIs(typeNames) => r.typeName in typeNames
    case And(children) => forall j :: 0 <= j < |children| ==> Holds(children[j], r)
    case Or(children) => exists j :: 0 <= j < |children| && Holds(children[j], r)
    case Not(child) => !Holds(child, r)
  }

  predicate EachHolds(qs: seq<Component>, r: Record) { forall j :: 0 <= j < |qs| ==> Holds(qs[j], r) }

  lemma EachHoldsConcat(a: seq<Component>, b: seq<Component>, r: Record)
    ensures EachHolds(a + b, r) <==> EachHolds(a, r) && EachHolds(b, r)
  {
    if EachHolds(a + b, r) {
      assert forall j :: 0 <= j < |a| ==> (a + b)[j] == a[j];
      assert forall j :: 0 <= j < |b| ==> b[j] == (a + b)[|a| + j];
    }
  }

  lemma EachHoldsFirst(qs: seq<Component>, r: Record)
    requires qs != []
    ensures EachHolds(qs, r) <==> Holds(qs[0], r) && EachHolds(qs[1..], r)
  {
    assert qs == [qs[0]] + qs[1..];
    EachHoldsConcat([qs[0]], qs[1..], r);
  }

  // ---- Laws of the component tree ----

  lemma NegationLaws(qs: seq<Component>, ns: seq<Component>, r: Record)
    requires |ns| == |qs| && forall j :: 0 <= j < |qs| ==> ns[j] == Not(qs[j])
    ensures Holds(Not(And(qs)), r) <==> Holds(Or(ns), r)
    ensures Holds(Not(Or(qs)), r) <==> Holds(And(ns), r)
  {
    assert forall j :: 0 <= j < |qs| ==> (Holds(ns[j], r) <==> !Holds(qs[j], r));
  }

  /** A nested filter asks for one message below the field that meets all of it: a disjunction may be
      asked for branch by branch. */
  lemma NestedOr(parent: string, qs: seq<Component>, ns: seq<Component>, r: Record)
    requires |ns| == |qs| && forall j :: 0 <= j < |qs| ==> ns[j] == NestedField(parent, qs[j])
    ensures Holds(NestedField(parent, Or(qs)), r) <==> Holds(Or(ns), r)
  {
    if parent in r.fields {
      match r.fields[parent]
      case Messages(ms) =>
        forall l | 0 <= l < |ms| && Holds(Or(qs), ms[l]) ensures Holds(Or(ns), r) {
          var j :| 0 <= j < |qs| && Holds(qs[j], ms[l]);
          assert Holds(ns[j], r);
        }
        forall j | 0 <= j < |ns| && Holds(ns[j], r) ensures Holds(NestedField(parent, Or(qs)), r) {
          var l :| 0 <= l < |ms| && Holds(qs[j], ms[l]);
          assert Holds(Or(qs), ms[l]);
        }
      case Message(m) => NestedSame(parent, qs, ns, r, m);
      case Scalar(Null) => assert forall j :: 0 <= j < |ns| ==> !Holds(ns[j], r);
      case Scalar(_) => NestedSame(parent, qs, ns, r, Bare());
      case Repeated(vs) =>
        if vs == [] {
          assert forall j :: 0 <= j < |ns| ==> !Holds(ns[j], r);
        } else {
          NestedSame(parent, qs, ns, r, Bare());
        }
    } else {
      assert forall j :: 0 <= j < |ns| ==> !Holds(ns[j], r);
    }
  }

  lemma NestedSame(parent: string, qs: seq<Component>, ns: seq<Component>, r: Record, m: Record)
    requires |ns| == |qs| && forall j :: 0 <= j < |qs| ==> (Holds(ns[j], r) <==> Holds(qs[j], m))
    ensures Holds(Or(ns), r) <==> Holds(Or(qs), m)
  {
    assert forall j :: 0 <= j < |qs| ==> (Holds(ns[j], r) <==> Holds(qs[j], m));
  }

  /** Some value of a field meets a comparison exactly when the field's fanned-out keys have one that
      does: the filter asks of a repeated field what an index over it holds. */
  lemma OneOfThemIsFanOut(r: Record, name: string, c: Comparison)
    requires name in r.fields ==>
      r.fields[name].Repeated? || (r.fields[name].Scalar? && (r.fields[name].v.Int? || r.fields[name].v == Null))
    ensures var keys := Evaluate(FieldKey(name, FanOut, false), r);
            Holds(OneOfThem(name, c), r) <==> exists k :: 0 <= k < |keys| && |keys[k]| == 1 && Satisfies(c, keys[k][0])
  {
    var keys := Evaluate(FieldKey(name, FanOut, false), r);
    if name in r.fields {
      match r.fields[name]
      case Repeated(vs) =>
        assert forall k :: 0 <= k < |keys| ==> |keys[k]| == 1 && keys[k][0] == vs[k];
      case Scalar(Int(n)) => assert keys[0] == [Int(n)];
      case _ =>
    }
  }
}
