// The printed form of a filter, by which the memo tells filters apart.
module PredicatePrinted {
  import opened Wrappers
  import opened Values
  import opened KeyExpressions
  import opened Query

  /** How the language prints a value. */
  type Repr = Value -> string

  /** A printed value can be told from what follows it, and is not mistaken for the end of a list. */
  ghost predicate Delimited(repr: Repr) {
    (forall v: Value :: repr(v) != "" && repr(v)[0] != ']') &&
    forall v: Value, w: Value, x: string, y: string :: AfterValue(x) && AfterValue(y) && repr(v) + x == repr(w) + y ==> v == w && x == y
  }

  predicate AfterValue(x: string) { x != "" && x[0] in {',', ')', ']'} }

  /** Names of fields and types have none of the characters the printed form uses around them. */
  predicate PlainName(name: string) { ',' !in name && '\'' !in name }

  function KindText(kind: ComparisonType): string {
    match kind
    case Equals => "equals"
    case NotEquals => "not_equals"
    case LessThan => "less_than"
    case LessThanOrEquals => "less_than_or_equals"
    case GreaterThan => "greater_than"
    case GreaterThanOrEquals => "greater_than_or_equals"
    case StartsWith => "starts_with"
    case EndsWith => "ends_with"
    case Contains => "contains"
    case In => "in"
    case NotIn => "not_in"
    case IsNull => "is_null"
    case IsNotNull => "is_not_null"
  }

  predicate TakesList(kind: ComparisonType) { kind == In || kind == NotIn }

  // Each function gives the printed form followed by the rest of the text.

  function MoreValues(repr: Repr, vs: seq<Value>, rest: string): string {
    if vs == [] then "]" + rest else ", " + (repr(vs[0]) + MoreValues(repr, vs[1..], rest))
  }

  function ValuesThen(repr: Repr, vs: seq<Value>, rest: string): string {
    if vs == [] then "]" + rest else repr(vs[0]) + MoreValues(repr, vs[1..], rest)
  }

  function ComparisonThen(repr: Repr, c: Comparison, rest: string): string {
    "Comparison(" + (KindText(c.kind) + (", " +
      if TakesList(c.kind) then "[" + ValuesThen(repr, c.values, ")" + rest) else repr(c.value) + (")" + rest)))
  }

  function MoreNames(names: seq<string>, rest: string): string {
    if names == [] then "]" + rest else ", '" + (names[0] + ("'" + MoreNames(names[1..], rest)))
  }

  function NamesThen(names: seq<string>, rest: string): string {
    if names == [] then "]" + rest else "'" + (names[0] + ("'" + MoreNames(names[1..], rest)))
  }

  /** repr of a query component. */
  function PrintThen(repr: Repr, q: Component, rest: string): string
    decreases q, 2
  {
    match q
    case FieldIs(f, c) => "FieldComponent(" + (f + (", " + ComparisonThen(repr, c, ")" + rest)))
    case NestedField(p, child) => "NestedFieldComponent(parent_field='" + (p + ("', child=" + PrintThen(repr, child, ")" + rest)))
    case OneOfThem(f, c) => "OneOfThemComponent(field_name='" + (f + ("', comparison=" + ComparisonThen(repr, c, ")" + rest)))
    case RecordTypeIs(names) => "RecordTypeComponent(record_types=[" + NamesThen(names, ")" + rest)
    case And(children) => "And([" + EachThen(repr, children, ")" + rest)
    case Or(children) => "Or([" + EachThen(repr, children, ")" + rest)
    case Not(child) => "Not(" + PrintThen(repr, child, ")" + rest)
  }

  function MoreThen(repr: Repr, qs: seq<Component>, rest: string): string
    decreases qs, 0
  {
    if qs == [] then "]" + rest else ", " + PrintThen(repr, qs[0], MoreThen(repr, qs[1..], rest))
  }

  function EachThen(repr: Repr, qs: seq<Component>, rest: string): string
    decreases qs, 1
  {
    if qs == [] then "]" + rest else PrintThen(repr, qs[0], MoreThen(repr, qs[1..], rest))
  }

  function Printed(repr: Repr, q: Component): string { PrintThen(repr, q, "") }

  predicate PlainNames(q: Component) {
    match q
    case FieldIs(f, _) => PlainName(f)
    case NestedField(p, child) => PlainName(p) && PlainNames(child)
    case OneOfThem(f, _) => PlainName(f)
    case RecordTypeIs(names) => forall j :: 0 <= j < |names| ==> PlainName(names[j])
    case And(children) => forall j :: 0 <= j < |children| ==> PlainNames(children[j])
    case Or(children) => forall j :: 0 <= j < |children| ==> PlainNames(children[j])
    case Not(child) => PlainNames(child)
  }

  // ---- Filters that print alike ----

  predicate SameComparison(a: Comparison, b: Comparison) {
    a.kind == b.kind && if TakesList(a.kind) then a.values == b.values else a.value == b.value
  }

  /** The same filter, but for operands its comparisons do not use. */
  predicate Alike(a: Component, b: Component)
    decreases a
  {
    match (a, b)
    case (FieldIs(f, c), FieldIs(g, d)) => f == g && SameComparison(c, d)
    case (NestedField(p, c), NestedField(r, d)) => p == r && Alike(c, d)
    case (OneOfThem(f, c), OneOfThem(g, d)) => f == g && SameComparison(c, d)
    case (RecordTypeIs(names), RecordTypeIs(others)) => names == others
    case (And(cs), And(ds)) => |cs| == |ds| && forall j :: 0 <= j < |cs| ==> Alike(cs[j], ds[j])
    case (Or(cs), Or(ds)) => |cs| == |ds| && forall j :: 0 <= j < |cs| ==> Alike(cs[j], ds[j])
    case (Not(c), Not(d)) => Alike(c, d)
    case _ => false
  }

  lemma SameComparisonSatisfies(a: Comparison, b: Comparison, v: Value)
    requires SameComparison(a, b)
    ensures Satisfies(a, v) <==> Satisfies(b, v)
  {
  }

  lemma {:induction false} AlikeHolds(a: Component, b: Component, r: Record)
    requires Alike(a, b)
    ensures Holds(a, r) <==> Holds(b, r)
    decreases a
  {
    match a
    case FieldIs(_, c) => forall v { SameComparisonSatisfies(c, b.comparison, v); }
    case OneOfThem(_, c) => forall v { SameComparisonSatisfies(c, b.comparison, v); }
    case NestedField(_, child) => forall m: Record { AlikeHolds(child, b.child, m); }
    case RecordTypeIs(_) =>
    case And(children) =>
      forall j | 0 <= j < |children| ensures Holds(children[j], r) <==> Holds(b.children[j], r) { AlikeHolds(children[j], b.children[j], r); }
    case Or(children) =>
      forall j | 0 <= j < |children| ensures Holds(children[j], r) <==> Holds(b.children[j], r) { AlikeHolds(children[j], b.children[j], r); }
    case Not(child) => AlikeHolds(child, b.child, r);
  }

  // ---- Reading a printed form back ----

  lemma SamePrefix(p: string, s: string, t: string)
    requires p + s == p + t
    ensures s == t
  {
    assert (p + s)[|p|..] == s && (p + t)[|p|..] == t;
  }

  /** A name ends at the first character it cannot have. */
  lemma {:induction false} NameEnds(f: string, g: string, d: char, s: string, t: string)
    requires d !in f && d !in g
    requires s != "" && t != "" && s[0] == d == t[0] && f + s == g + t
    ensures f == g && s == t
    decreases |f|
  {
    FirstCharacter(f, s);
    FirstCharacter(g, t);
    if f == "" {
      assert f + s == s && g + t == t;
    } else {
      assert (f + s)[1..] == f[1..] + s && (g + t)[1..] == g[1..] + t;
      NameEnds(f[1..], g[1..], d, s, t);
      assert f == [f[0]] + f[1..] && g == [g[0]] + g[1..];
    }
  }

  lemma FirstCharacter(f: string, s: string)
    requires s != ""
    ensures (f + s)[0] == if f == "" then s[0] else f[0]
  {
  }

  lemma MoreBegins(repr: Repr, vs: seq<Value>, rest: string)
    ensures AfterValue(MoreValues(repr, vs, rest))
    ensures MoreValues(repr, vs, rest)[0] == if vs == [] then ']' else ','
  {
  }

  lemma {:induction false} MoreValuesRead(repr: Repr, vs: seq<Value>, ws: seq<Value>, x: string, y: string)
    requires Delimited(repr) && MoreValues(repr, vs, x) == MoreValues(repr, ws, y)
    ensures vs == ws && x == y
    decreases |vs|
  {
    MoreBegins(repr, vs, x);
    MoreBegins(repr, ws, y);
    if vs == [] {
      SamePrefix("]", x, y);
    } else {
      var s, t := MoreValues(repr, vs[1..], x), MoreValues(repr, ws[1..], y);
      SamePrefix(", ", repr(vs[0]) + s, repr(ws[0]) + t);
      MoreBegins(repr, vs[1..], x);
      MoreBegins(repr, ws[1..], y);
      assert vs[0] == ws[0] && s == t;
      MoreValuesRead(repr, vs[1..], ws[1..], x, y);
      assert vs == [vs[0]] + vs[1..] && ws == [ws[0]] + ws[1..];
    }
  }

  lemma ValuesRead(repr: Repr, vs: seq<Value>, ws: seq<Value>, x: string, y: string)
    requires Delimited(repr) && ValuesThen(repr, vs, x) == ValuesThen(repr, ws, y)
    ensures vs == ws && x == y
  {
    ValuesBegin(repr, vs, x);
    ValuesBegin(repr, ws, y);
    if vs == [] {
      SamePrefix("]", x, y);
    } else {
      var s, t := MoreValues(repr, vs[1..], x), MoreValues(repr, ws[1..], y);
      MoreBegins(repr, vs[1..], x);
      MoreBegins(repr, ws[1..], y);
      assert repr(vs[0]) + s == repr(ws[0]) + t;
      MoreValuesRead(repr, vs[1..], ws[1..], x, y);
      assert vs == [vs[0]] + vs[1..] && ws == [ws[0]] + ws[1..];
    }
  }

  lemma ValuesBegin(repr: Repr, vs: seq<Value>, rest: string)
    requires Delimited(repr)
    ensures var text := ValuesThen(repr, vs, rest); text != "" && (text[0] == ']' <==> vs == [])
  {
    if vs != [] { assert (repr(vs[0]) + MoreValues(repr, vs[1..], rest))[0] == repr(vs[0])[0]; }
  }

  lemma KindsDiffer(a: ComparisonType, b: ComparisonType)
    ensures ',' !in KindText(a)
    ensures KindText(a) == KindText(b) ==> a == b
  {
  }

  lemma ComparisonRead(repr: Repr, c: Comparison, d: Comparison, x: string, y: string)
    requires Delimited(repr) && ComparisonThen(repr, c, x) == ComparisonThen(repr, d, y)
    ensures SameComparison(c, d) && x == y
  {
    var operand := if TakesList(c.kind) then "[" + ValuesThen(repr, c.values, ")" + x) else repr(c.value) + (")" + x);
    var other := if TakesList(d.kind) then "[" + ValuesThen(repr, d.values, ")" + y) else repr(d.value) + (")" + y);
    SamePrefix("Comparison(", KindText(c.kind) + (", " + operand), KindText(d.kind) + (", " + other));
    KindsDiffer(c.kind, d.kind);
    KindsDiffer(d.kind, c.kind);
    NameEnds(KindText(c.kind), KindText(d.kind), ',', ", " + operand, ", " + other);
    SamePrefix(", ", operand, other);
    if TakesList(c.kind) {
      SamePrefix("[", ValuesThen(repr, c.values, ")" + x), ValuesThen(repr, d.values, ")" + y));
      ValuesRead(repr, c.values, d.values, ")" + x, ")" + y);
    } else {
      assert AfterValue(")" + x) && AfterValue(")" + y);
      assert c.value == d.value && ")" + x == ")" + y;
    }
    SamePrefix(")", x, y);
  }

  lemma {:induction false} MoreNamesRead(names: seq<string>, others: seq<string>, x: string, y: string)
    requires forall j :: 0 <= j < |names| ==> PlainName(names[j])
    requires forall j :: 0 <= j < |others| ==> PlainName(others[j])
    requires MoreNames(names, x) == MoreNames(others, y)
    ensures names == others && x == y
    decreases |names|
  {
    assert MoreNames(names, x)[0] == if names == [] then ']' else ',';
    assert MoreNames(others, y)[0] == if others == [] then ']' else ',';
    if names == [] {
      SamePrefix("]", x, y);
    } else {
      var s, t := "'" + MoreNames(names[1..], x), "'" + MoreNames(others[1..], y);
      SamePrefix(", '", names[0] + s, others[0] + t);
      NameEnds(names[0], others[0], '\'', s, t);
      SamePrefix("'", MoreNames(names[1..], x), MoreNames(others[1..], y));
      MoreNamesRead(names[1..], others[1..], x, y);
      assert names == [names[0]] + names[1..] && others == [others[0]] + others[1..];
    }
  }

  lemma NamesRead(names: seq<string>, others: seq<string>, x: string, y: string)
    requires forall j :: 0 <= j < |names| ==> PlainName(names[j])
    requires forall j :: 0 <= j < |others| ==> PlainName(others[j])
    requires NamesThen(names, x) == NamesThen(others, y)
    ensures names == others && x == y
  {
    assert NamesThen(names, x)[0] == if names == [] then ']' else '\'';
    assert NamesThen(others, y)[0] == if others == [] then ']' else '\'';
    if names == [] {
      SamePrefix("]", x, y);
    } else {
      var s, t := "'" + MoreNames(names[1..], x), "'" + MoreNames(others[1..], y);
      SamePrefix("'", names[0] + s, others[0] + t);
      NameEnds(names[0], others[0], '\'', s, t);
      SamePrefix("'", MoreNames(names[1..], x), MoreNames(others[1..], y));
      MoreNamesRead(names[1..], others[1..], x, y);
      assert names == [names[0]] + names[1..] && others == [others[0]] + others[1..];
    }
  }

  /** Two characters tell the kinds of component apart. */
  function Sign(q: Component): (char, char) {
    match q
    case FieldIs(_, _) => ('F', 'i')
    case NestedField(_, _) => ('N', 'e')
    case OneOfThem(_, _) => ('O', 'n')
    case RecordTypeIs(_) => ('R', 'e')
    case And(_) => ('A', 'n')
    case Or(_) => ('O', 'r')
    case Not(_) => ('N', 'o')
  }

  ghost predicate BeginsAs(repr: Repr, q: Component, rest: string) {
    var text := PrintThen(repr, q, rest);
    |text| > 1 && (text[0], text[1]) == Sign(q)
  }

  lemma PrintBegins(repr: Repr, q: Component, rest: string)
    ensures var text := PrintThen(repr, q, rest); |text| > 1 && (text[0], text[1]) == Sign(q)
  {
    assert BeginsAs(repr, q, rest) by {
      hide BeginsAs;
      match q
      case NestedField(_, _) => NestedBegins(repr, q, rest);
      case OneOfThem(_, _) => OneOfThemBegins(repr, q, rest);
      case RecordTypeIs(_) => RecordTypeBegins(repr, q, rest);
      case _ => OthersBegin(repr, q, rest);
    }
  }

  lemma NestedBegins(repr: Repr, q: Component, rest: string)
    requires q.NestedField?
    ensures BeginsAs(repr, q, rest)
  {
    TwoCharacters("NestedFieldComponent(parent_field='", q.parentField + ("', child=" + PrintThen(repr, q.child, ")" + rest)));
  }

  lemma OneOfThemBegins(repr: Repr, q: Component, rest: string)
    requires q.OneOfThem?
    ensures BeginsAs(repr, q, rest)
  {
    hide ComparisonThen;
    TwoCharacters("OneOfThemComponent(field_name='", q.fieldName + ("', comparison=" + ComparisonThen(repr, q.comparison, ")" + rest)));
  }

  lemma RecordTypeBegins(repr: Repr, q: Component, rest: string)
    requires q.RecordTypeIs?
    ensures BeginsAs(repr, q, rest)
  {
    hide NamesThen;
    TwoCharacters("RecordTypeComponent(record_types=[", NamesThen(q.typeNames, ")" + rest));
  }

  lemma OthersBegin(repr: Repr, q: Component, rest: string)
    requires q.FieldIs? || q.And? || q.Or? || q.Not?
    ensures BeginsAs(repr, q, rest)
  {
    hide ComparisonThen, EachThen;
    match q
    case FieldIs(f, c) => TwoCharacters("FieldComponent(", f + (", " + ComparisonThen(repr, c, ")" + rest)));
    case And(children) => TwoCharacters("And([", EachThen(repr, children, ")" + rest));
    case Or(children) => TwoCharacters("Or([", EachThen(repr, children, ")" + rest));
    case Not(child) => TwoCharacters("Not(", PrintThen(repr, child, ")" + rest));
  }

  lemma TwoCharacters(p: string, s: string)
    requires |p| > 1
    ensures |p + s| > 1 && (p + s)[0] == p[0] && (p + s)[1] == p[1]
  {
  }

  /** What a component prints as can be told from what follows it. */
  lemma {:induction false} PrintRead(repr: Repr, a: Component, b: Component, x: string, y: string)
    requires Delimited(repr) && PlainNames(a) && PlainNames(b) && PrintThen(repr, a, x) == PrintThen(repr, b, y)
    ensures Alike(a, b) && x == y
    decreases a, 2
  {
    hide Delimited, ComparisonThen, NamesThen, EachThen;
    PrintBegins(repr, a, x);
    PrintBegins(repr, b, y);
    match a
    case FieldIs(f, c) =>
      var s, t := ", " + ComparisonThen(repr, c, ")" + x), ", " + ComparisonThen(repr, b.comparison, ")" + y);
      SamePrefix("FieldComponent(", f + s, b.fieldName + t);
      NameEnds(f, b.fieldName, ',', s, t);
      SamePrefix(", ", ComparisonThen(repr, c, ")" + x), ComparisonThen(repr, b.comparison, ")" + y));
      ComparisonRead(repr, c, b.comparison, ")" + x, ")" + y);
      SamePrefix(")", x, y);
    case NestedField(p, child) =>
      var s, t := "', child=" + PrintThen(repr, child, ")" + x), "', child=" + PrintThen(repr, b.child, ")" + y);
      SamePrefix("NestedFieldComponent(parent_field='", p + s, b.parentField + t);
      NameEnds(p, b.parentField, '\'', s, t);
      SamePrefix("', child=", PrintThen(repr, child, ")" + x), PrintThen(repr, b.child, ")" + y));
      PrintRead(repr, child, b.child, ")" + x, ")" + y);
      SamePrefix(")", x, y);
    case OneOfThem(f, c) =>
      var s, t := "', comparison=" + ComparisonThen(repr, c, ")" + x), "', comparison=" + ComparisonThen(repr, b.comparison, ")" + y);
      SamePrefix("OneOfThemComponent(field_name='", f + s, b.fieldName + t);
      NameEnds(f, b.fieldName, '\'', s, t);
      SamePrefix("', comparison=", ComparisonThen(repr, c, ")" + x), ComparisonThen(repr, b.comparison, ")" + y));
      ComparisonRead(repr, c, b.comparison, ")" + x, ")" + y);
      SamePrefix(")", x, y);
    case RecordTypeIs(names) =>
      SamePrefix("RecordTypeComponent(record_types=[", NamesThen(names, ")" + x), NamesThen(b.typeNames, ")" + y));
      NamesRead(names, b.typeNames, ")" + x, ")" + y);
      SamePrefix(")", x, y);
    case And(children) =>
      SamePrefix("And([", EachThen(repr, children, ")" + x), EachThen(repr, b.children, ")" + y));
      EachRead(repr, children, b.children, ")" + x, ")" + y);
      SamePrefix(")", x, y);
    case Or(children) =>
      SamePrefix("Or([", EachThen(repr, children, ")" + x), EachThen(repr, b.children, ")" + y));
      EachRead(repr, children, b.children, ")" + x, ")" + y);
      SamePrefix(")", x, y);
    case Not(child) =>
      SamePrefix("Not(", PrintThen(repr, child, ")" + x), PrintThen(repr, b.child, ")" + y));
      PrintRead(repr, child, b.child, ")" + x, ")" + y);
      SamePrefix(")", x, y);
  }

  predicate EachAlike(qs: seq<Component>, ps: seq<Component>) {
    |qs| == |ps| && forall j :: 0 <= j < |qs| ==> Alike(qs[j], ps[j])
  }

  lemma FirstAlike(qs: seq<Component>, ps: seq<Component>)
    requires qs != [] && ps != [] && Alike(qs[0], ps[0]) && EachAlike(qs[1..], ps[1..])
    ensures EachAlike(qs, ps)
  {
    forall j | 0 <= j < |qs| ensures Alike(qs[j], ps[j]) {
      if j > 0 { assert qs[j] == qs[1..][j - 1] && ps[j] == ps[1..][j - 1]; }
    }
  }

  lemma {:induction false} MoreRead(repr: Repr, qs: seq<Component>, ps: seq<Component>, x: string, y: string)
    requires Delimited(repr) && MoreThen(repr, qs, x) == MoreThen(repr, ps, y)
    requires forall j :: 0 <= j < |qs| ==> PlainNames(qs[j])
    requires forall j :: 0 <= j < |ps| ==> PlainNames(ps[j])
    ensures EachAlike(qs, ps) && x == y
    decreases qs, 0
  {
    hide Delimited;
    assert MoreThen(repr, qs, x)[0] == if qs == [] then ']' else ',';
    assert MoreThen(repr, ps, y)[0] == if ps == [] then ']' else ',';
    if qs == [] {
      SamePrefix("]", x, y);
    } else {
      var s, t := MoreThen(repr, qs[1..], x), MoreThen(repr, ps[1..], y);
      SamePrefix(", ", PrintThen(repr, qs[0], s), PrintThen(repr, ps[0], t));
      PrintRead(repr, qs[0], ps[0], s, t);
      MoreRead(repr, qs[1..], ps[1..], x, y);
      FirstAlike(qs, ps);
    }
  }

  lemma {:induction false} EachRead(repr: Repr, qs: seq<Component>, ps: seq<Component>, x: string, y: string)
    requires Delimited(repr) && EachThen(repr, qs, x) == EachThen(repr, ps, y)
    requires forall j :: 0 <= j < |qs| ==> PlainNames(qs[j])
    requires forall j :: 0 <= j < |ps| ==> PlainNames(ps[j])
    ensures EachAlike(qs, ps) && x == y
    decreases qs, 1
  {
    hide Delimited, PrintThen;
    EachBegins(repr, qs, x);
    EachBegins(repr, ps, y);
    if qs == [] {
      SamePrefix("]", x, y);
    } else {
      var s, t := MoreThen(repr, qs[1..], x), MoreThen(repr, ps[1..], y);
      PrintRead(repr, qs[0], ps[0], s, t);
      MoreRead(repr, qs[1..], ps[1..], x, y);
      FirstAlike(qs, ps);
    }
  }

  lemma EachBegins(repr: Repr, qs: seq<Component>, rest: string)
    ensures var text := EachThen(repr, qs, rest); text != "" && (text[0] == ']' <==> qs == [])
  {
    if qs != [] { PrintBegins(repr, qs[0], MoreThen(repr, qs[1..], rest)); }
  }

  /** Filters that print the same hold of the same records. */
  lemma SamePrintHolds(repr: Repr, a: Component, b: Component, r: Record)
    requires Delimited(repr) && PlainNames(a) && PlainNames(b) && Printed(repr, a) == Printed(repr, b)
    ensures Holds(a, r) <==> Holds(b, r)
  {
    hide Holds, Alike, PrintThen, PlainNames;
    PrintRead(repr, a, b, "", "");
    AlikeHolds(a, b, r);
  }
}
