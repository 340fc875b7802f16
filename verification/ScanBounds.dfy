// From comparisons to the key range of an index scan.
module ScanBounds {
  import opened Wrappers
  import opened Values
  import opened KeyExpressions
  import opened Query
  import opened ValueIndexScan

  datatype ScanBound = Unbounded | Inclusive(value: Value) | Exclusive(value: Value)

  datatype ScanComparisons = ScanComparisons(equalities: seq<Comparison>, inequalities: seq<Comparison>, ins: seq<Comparison>)

  const NO_COMPARISONS := ScanComparisons([], [], [])

  datatype IndexScanBounds = IndexScanBounds(prefix: Tuple, low: ScanBound, high: ScanBound)

  function FromComparison(c: Comparison): ScanComparisons {
    if IsEquality(c.kind) then NO_COMPARISONS.(equalities := [c])
    else if c.kind == In then NO_COMPARISONS.(ins := [c])
    else if IsInequality(c.kind) then NO_COMPARISONS.(inequalities := [c])
    else NO_COMPARISONS
  }

  // ---- Folding the inequalities ----

  /** The text just above every text with the prefix, as the code takes it. */
  function PrefixEnd(v: Value): Value { if v.Str? then Str(v.s + "\U{0000FF}") else v }

  function TightenLow(low: ScanBound, c: Comparison): ScanBound {
    match c.kind
    case GreaterThan => if low.Unbounded? || Less(low.value, c.value) then Exclusive(c.value) else low
    case GreaterThanOrEquals => if low.Unbounded? || AtMost(low.value, c.value) then Inclusive(c.value) else low
    case StartsWith => Inclusive(c.value)
    case _ => low
  }

  function TightenHigh(high: ScanBound, c: Comparison): ScanBound {
    match c.kind
    case LessThan => if high.Unbounded? || Less(c.value, high.value) then Exclusive(c.value) else high
    case LessThanOrEquals => if high.Unbounded? || AtMost(c.value, high.value) then Inclusive(c.value) else high
    case StartsWith => Inclusive(PrefixEnd(c.value))
    case _ => high
  }

  function FoldLow(cs: seq<Comparison>): ScanBound {
    if cs == [] then Unbounded else TightenLow(FoldLow(cs[..|cs| - 1]), cs[|cs| - 1])
  }

  function FoldHigh(cs: seq<Comparison>): ScanBound {
    if cs == [] then Unbounded else TightenHigh(FoldHigh(cs[..|cs| - 1]), cs[|cs| - 1])
  }

  function Operands(cs: seq<Comparison>): (vs: seq<Value>)
    ensures |vs| == |cs| && forall j :: 0 <= j < |cs| ==> vs[j] == cs[j].value
  {
    seq(|cs|, j requires 0 <= j < |cs| => cs[j].value)
  }

  function BoundsOf(s: ScanComparisons): IndexScanBounds {
    IndexScanBounds(Operands(s.equalities), FoldLow(s.inequalities), FoldHigh(s.inequalities))
  }

  /** IndexScanBounds.from_scan_comparisons. */
  method FromScanComparisons(s: ScanComparisons) returns (bounds: IndexScanBounds)
    ensures bounds == BoundsOf(s)
  {
    var prefix: Tuple := [];
    for j := 0 to |s.equalities|
      invariant |prefix| == j && forall l :: 0 <= l < j ==> prefix[l] == s.equalities[l].value
    {
      prefix := prefix + [s.equalities[j].value];
    }
    if s.inequalities == [] {
      return IndexScanBounds(prefix, Unbounded, Unbounded);
    }
    var low, high := Unbounded, Unbounded;
    for j := 0 to |s.inequalities|
      invariant low == FoldLow(s.inequalities[..j]) && high == FoldHigh(s.inequalities[..j])
    {
      var c := s.inequalities[j];
      assert s.inequalities[..j + 1][..j] == s.inequalities[..j];
      match c.kind {
        case GreaterThan =>
          if low.Unbounded? || Less(low.value, c.value) { low := Exclusive(c.value); }
        case GreaterThanOrEquals =>
          if low.Unbounded? || AtMost(low.value, c.value) { low := Inclusive(c.value); }
        case LessThan =>
          if high.Unbounded? || Less(c.value, high.value) { high := Exclusive(c.value); }
        case LessThanOrEquals =>
          if high.Unbounded? || AtMost(c.value, high.value) { high := Inclusive(c.value); }
        case StartsWith =>
          low := Inclusive(c.value);
          high := Inclusive(PrefixEnd(c.value));
        case _ =>
      }
    }
    assert s.inequalities[..|s.inequalities|] == s.inequalities;
    bounds := IndexScanBounds(prefix, low, high);
  }

  predicate Relational(c: Comparison) {
    c.kind in {LessThan, LessThanOrEquals, GreaterThan, GreaterThanOrEquals}
  }

  predicate BoundsBelow(c: Comparison) { c.kind == GreaterThan || c.kind == GreaterThanOrEquals }

  predicate BoundsAbove(c: Comparison) { c.kind == LessThan || c.kind == LessThanOrEquals }

  /** The lower bounds' fold: their greatest operand, inclusive exactly when a non-strict one has it. */
  predicate IsGreatestLow(low: ScanBound, cs: seq<Comparison>) {
    if low.Unbounded? then forall j :: 0 <= j < |cs| ==> !BoundsBelow(cs[j])
    else
      (exists j :: 0 <= j < |cs| && BoundsBelow(cs[j]) && cs[j].value == low.value) &&
      (forall j :: 0 <= j < |cs| && BoundsBelow(cs[j]) ==> AtMost(cs[j].value, low.value)) &&
      (low.Inclusive? <==> exists j :: 0 <= j < |cs| && cs[j].kind == GreaterThanOrEquals && cs[j].value == low.value)
  }

  predicate IsLeastHigh(high: ScanBound, cs: seq<Comparison>) {
    if high.Unbounded? then forall j :: 0 <= j < |cs| ==> !BoundsAbove(cs[j])
    else
      (exists j :: 0 <= j < |cs| && BoundsAbove(cs[j]) && cs[j].value == high.value) &&
      (forall j :: 0 <= j < |cs| && BoundsAbove(cs[j]) ==> AtMost(high.value, cs[j].value)) &&
      (high.Inclusive? <==> exists j :: 0 <= j < |cs| && cs[j].kind == LessThanOrEquals && cs[j].value == high.value)
  }

  predicate AllRelational(cs: seq<Comparison>) { forall j :: 0 <= j < |cs| ==> Relational(cs[j]) }

  lemma {:induction false} FoldLowIsGreatest(cs: seq<Comparison>)
    requires AllRelational(cs)
    ensures IsGreatestLow(FoldLow(cs), cs)
    decreases |cs|
  {
    if cs != [] {
      var n := |cs| - 1;
      var before, c := cs[..n], cs[n];
      FoldLowIsGreatest(before);
      var low, low' := FoldLow(before), FoldLow(cs);
      assert forall j :: 0 <= j < n ==> before[j] == cs[j];
      if BoundsBelow(c) && !low.Unbounded? {
        LessTotal(low.value, c.value);
        forall j | 0 <= j < n && BoundsBelow(cs[j]) ensures AtMost(cs[j].value, low'.value) {
          assert AtMost(before[j].value, low.value);
          if cs[j].value != low.value && low.value != low'.value { LessTransitive(cs[j].value, low.value, low'.value); }
        }
        if Less(low.value, c.value) {
          forall j | 0 <= j < n && cs[j].kind == GreaterThanOrEquals ensures cs[j].value != c.value {
            assert AtMost(before[j].value, low.value);
          }
        }
      }
      if low'.Inclusive? && low' == low {
        var j :| 0 <= j < n && before[j].kind == GreaterThanOrEquals && before[j].value == low.value;
        assert cs[j].kind == GreaterThanOrEquals;
      }
    }
  }

  lemma {:induction false} FoldHighIsLeast(cs: seq<Comparison>)
    requires AllRelational(cs)
    ensures IsLeastHigh(FoldHigh(cs), cs)
    decreases |cs|
  {
    if cs != [] {
      var n := |cs| - 1;
      var before, c := cs[..n], cs[n];
      FoldHighIsLeast(before);
      var high, high' := FoldHigh(before), FoldHigh(cs);
      assert forall j :: 0 <= j < n ==> before[j] == cs[j];
      if BoundsAbove(c) && !high.Unbounded? {
        LessTotal(high.value, c.value);
        forall j | 0 <= j < n && BoundsAbove(cs[j]) ensures AtMost(high'.value, cs[j].value) {
          assert AtMost(high.value, before[j].value);
          if cs[j].value != high.value && high.value != high'.value { LessTransitive(high'.value, high.value, cs[j].value); }
        }
        if Less(c.value, high.value) {
          forall j | 0 <= j < n && cs[j].kind == LessThanOrEquals ensures cs[j].value != c.value {
            assert AtMost(high.value, before[j].value);
          }
        }
      }
      if high'.Inclusive? && high' == high {
        var j :| 0 <= j < n && before[j].kind == LessThanOrEquals && before[j].value == high.value;
        assert cs[j].kind == LessThanOrEquals;
      }
    }
  }

  predicate AboveLow(low: ScanBound, v: Value) {
    match low
    case Unbounded => true
    case Inclusive(b) => AtMost(b, v)
    case Exclusive(b) => Less(b, v)
  }

  predicate BelowHigh(high: ScanBound, v: Value) {
    match high
    case Unbounded => true
    case Inclusive(b) => AtMost(v, b)
    case Exclusive(b) => Less(v, b)
  }

  /** A strict and a non-strict lower bound share an operand, not null, that no lower bound exceeds. */
  predicate TiedLow(cs: seq<Comparison>) {
    exists j, l :: 0 <= j < |cs| && 0 <= l < |cs| && TieLow(cs, cs[j], cs[l])
  }

  predicate TieLow(cs: seq<Comparison>, strict: Comparison, other: Comparison) {
    strict.kind == GreaterThan && other.kind == GreaterThanOrEquals && strict.value == other.value != Null && NoneAbove(cs, strict.value)
  }

  predicate NoneAbove(cs: seq<Comparison>, v: Value) {
    forall m :: 0 <= m < |cs| && BoundsBelow(cs[m]) ==> AtMost(cs[m].value, v)
  }

  lemma TiedLowIff(cs: seq<Comparison>)
    requires AllRelational(cs)
    ensures TiedLow(cs) <==> TiedAtLow(cs) && FoldLow(cs).value != Null
  {
    FoldLowIsGreatest(cs);
    var low := FoldLow(cs);
    if j, l :| 0 <= j < |cs| && 0 <= l < |cs| && TieLow(cs, cs[j], cs[l]) {
      LessTotal(cs[j].value, low.value);
    }
    if TiedAtLow(cs) && low.value != Null {
      var j :| 0 <= j < |cs| && cs[j].kind == GreaterThan && cs[j].value == low.value;
      var l :| 0 <= l < |cs| && cs[l].kind == GreaterThanOrEquals && cs[l].value == low.value;
      assert TieLow(cs, cs[j], cs[l]);
    }
  }

  /** The same, at the folded bound. */
  predicate TiedAtLow(cs: seq<Comparison>) {
    var low := FoldLow(cs);
    !low.Unbounded? &&
    (exists j :: 0 <= j < |cs| && cs[j].kind == GreaterThan && cs[j].value == low.value) &&
    (exists j :: 0 <= j < |cs| && cs[j].kind == GreaterThanOrEquals && cs[j].value == low.value)
  }

  /** The folded lower bound means all the lower bounds together exactly when no strict and
      non-strict bound tie at the greatest operand (a tie loses the strictness). */
  lemma FoldLowMeansAllIff(cs: seq<Comparison>)
    requires AllRelational(cs)
    ensures (forall v: Value :: v != Null ==>
              (AboveLow(FoldLow(cs), v) <==> forall j :: 0 <= j < |cs| && BoundsBelow(cs[j]) ==> Satisfies(cs[j], v)))
       <==> !TiedLow(cs)
  {
    FoldLowIsGreatest(cs);
    TiedLowIff(cs);
    var low := FoldLow(cs);
    if !TiedAtLow(cs) || low.value == Null {
      forall v: Value | v != Null
        ensures AboveLow(low, v) <==> forall j :: 0 <= j < |cs| && BoundsBelow(cs[j]) ==> Satisfies(cs[j], v)
      {
        if !low.Unbounded? { FoldedLowMeaning(cs, v); }
      }
    } else {
      var v := low.value;
      var j :| 0 <= j < |cs| && cs[j].kind == GreaterThan && cs[j].value == v;
      LessTotal(v, v);
      assert AboveLow(low, v) && !Satisfies(cs[j], v);
    }
  }

  lemma FoldedLowMeaning(cs: seq<Comparison>, v: Value)
    requires AllRelational(cs) && v != Null && !FoldLow(cs).Unbounded?
    requires !TiedAtLow(cs) || FoldLow(cs).value == Null
    ensures AboveLow(FoldLow(cs), v) <==> forall j :: 0 <= j < |cs| && BoundsBelow(cs[j]) ==> Satisfies(cs[j], v)
  {
    FoldLowIsGreatest(cs);
    var low := FoldLow(cs);
    var m :| 0 <= m < |cs| && BoundsBelow(cs[m]) && cs[m].value == low.value;
    if AboveLow(low, v) {
      forall j | 0 <= j < |cs| && BoundsBelow(cs[j]) ensures Satisfies(cs[j], v) {
        if cs[j].value != low.value {
          if v != low.value { LessTransitive(cs[j].value, low.value, v); }
        } else if cs[j].kind == GreaterThan && v == low.value {
          assert low.Inclusive? ==> TiedAtLow(cs);
          LessTotal(v, v);
        }
      }
    } else {
      LessTotal(v, low.value);
      if v == low.value {
        assert cs[m].kind == GreaterThan;
      }
      assert !Satisfies(cs[m], v);
    }
  }

  /** A strict and a non-strict upper bound share an operand, not null, that no upper bound is below. */
  predicate TiedHigh(cs: seq<Comparison>) {
    exists j, l :: 0 <= j < |cs| && 0 <= l < |cs| && TieHigh(cs, cs[j], cs[l])
  }

  predicate TieHigh(cs: seq<Comparison>, strict: Comparison, other: Comparison) {
    strict.kind == LessThan && other.kind == LessThanOrEquals && strict.value == other.value != Null && NoneBelow(cs, strict.value)
  }

  predicate NoneBelow(cs: seq<Comparison>, v: Value) {
    forall m :: 0 <= m < |cs| && BoundsAbove(cs[m]) ==> AtMost(v, cs[m].value)
  }

  lemma TiedHighIff(cs: seq<Comparison>)
    requires AllRelational(cs)
    ensures TiedHigh(cs) <==> TiedAtHigh(cs) && FoldHigh(cs).value != Null
  {
    FoldHighIsLeast(cs);
    var high := FoldHigh(cs);
    if j, l :| 0 <= j < |cs| && 0 <= l < |cs| && TieHigh(cs, cs[j], cs[l]) {
      LessTotal(cs[j].value, high.value);
    }
    if TiedAtHigh(cs) && high.value != Null {
      var j :| 0 <= j < |cs| && cs[j].kind == LessThan && cs[j].value == high.value;
      var l :| 0 <= l < |cs| && cs[l].kind == LessThanOrEquals && cs[l].value == high.value;
      assert TieHigh(cs, cs[j], cs[l]);
    }
  }

  predicate TiedAtHigh(cs: seq<Comparison>) {
    var high := FoldHigh(cs);
    !high.Unbounded? &&
    (exists j :: 0 <= j < |cs| && cs[j].kind == LessThan && cs[j].value == high.value) &&
    (exists j :: 0 <= j < |cs| && cs[j].kind == LessThanOrEquals && cs[j].value == high.value)
  }

  /** The same for the upper bounds. */
  lemma FoldHighMeansAllIff(cs: seq<Comparison>)
    requires AllRelational(cs)
    ensures (forall v: Value :: v != Null ==>
              (BelowHigh(FoldHigh(cs), v) <==> forall j :: 0 <= j < |cs| && BoundsAbove(cs[j]) ==> Satisfies(cs[j], v)))
       <==> !TiedHigh(cs)
  {
    FoldHighIsLeast(cs);
    TiedHighIff(cs);
    var high := FoldHigh(cs);
    if !TiedAtHigh(cs) || high.value == Null {
      forall v: Value | v != Null
        ensures BelowHigh(high, v) <==> forall j :: 0 <= j < |cs| && BoundsAbove(cs[j]) ==> Satisfies(cs[j], v)
      {
        if !high.Unbounded? { FoldedHighMeaning(cs, v); }
      }
    } else {
      var v := high.value;
      var j :| 0 <= j < |cs| && cs[j].kind == LessThan && cs[j].value == v;
      LessTotal(v, v);
      assert BelowHigh(high, v) && !Satisfies(cs[j], v);
    }
  }

  lemma FoldedHighMeaning(cs: seq<Comparison>, v: Value)
    requires AllRelational(cs) && v != Null && !FoldHigh(cs).Unbounded?
    requires !TiedAtHigh(cs) || FoldHigh(cs).value == Null
    ensures BelowHigh(FoldHigh(cs), v) <==> forall j :: 0 <= j < |cs| && BoundsAbove(cs[j]) ==> Satisfies(cs[j], v)
  {
    FoldHighIsLeast(cs);
    var high := FoldHigh(cs);
    var m :| 0 <= m < |cs| && BoundsAbove(cs[m]) && cs[m].value == high.value;
    if BelowHigh(high, v) {
      forall j | 0 <= j < |cs| && BoundsAbove(cs[j]) ensures Satisfies(cs[j], v) {
        if cs[j].value != high.value {
          if v != high.value { LessTransitive(v, high.value, cs[j].value); }
        } else if cs[j].kind == LessThan && v == high.value {
          assert high.Inclusive? ==> TiedAtHigh(cs);
          LessTotal(v, v);
        }
      }
    } else {
      LessTotal(v, high.value);
      if v == high.value {
        assert cs[m].kind == LessThan;
      }
      assert !Satisfies(cs[m], v);
    }
  }

  // ---- The key range ----

  /** IndexScanPlan._bounds_to_scan_range. */
  function ToScanRange(b: IndexScanBounds): IndexScanRange {
    var low := b.prefix + if b.low.Unbounded? then [] else [b.low.value];
    var high := b.prefix + if b.high.Unbounded? then [] else [b.high.value];
    IndexScanRange(if low == [] then None else Some(low),
                   if high == [] then None else Some(high),
                   !b.low.Exclusive?,
                   !b.high.Exclusive?)
  }

  predicate InRange(range: IndexScanRange, key: Tuple) { InCuts(RangeBegin(range), RangeEnd(range), key) }

  /** A strict low bound admits its own value too: an entry always extends the bound. */
  predicate AboveLowScanned(low: ScanBound, v: Value) { low.Unbounded? || AtMost(low.value, v) }

  /** The range holds exactly the entries with the prefix whose next column lies within the bounds,
      except that a strict lower bound gives its inclusive set. */
  lemma RangeIsPrefixAndBounds(b: IndexScanBounds, key: Tuple)
    requires |b.prefix| < |key|
    requires !b.low.Unbounded? || !b.high.Unbounded? ==> |b.prefix| + 1 < |key|
    ensures InRange(ToScanRange(b), key) <==>
            HasPrefix(key, b.prefix) && AboveLowScanned(b.low, key[|b.prefix|]) && BelowHigh(b.high, key[|b.prefix|])
  {
    var range := ToScanRange(b);
    if HasPrefix(key, b.prefix) {
      BeginWithPrefix(b, key);
      EndWithPrefix(b, key);
    } else {
      assert b.prefix != [] by { EmptyIsPrefix(key, b.prefix); }
      OutsidePrefix(b, key);
    }
  }

  lemma EmptyIsPrefix(key: Tuple, p: Tuple)
    ensures p == [] ==> HasPrefix(key, p)
  {
  }

  lemma OneColumnOrder(rest: Tuple, v: Value)
    requires |rest| > 1
    ensures TupleLess([v], rest) <==> AtMost(v, rest[0])
    ensures TupleLess(rest, [v]) <==> Less(rest[0], v)
  {
    LessTotal(v, rest[0]);
    assert [v][1..] == [] && rest[1..] != [];
  }

  lemma OneMoreColumn(key: Tuple, p: Tuple, v: Value)
    requires HasPrefix(key, p) && |p| < |key|
    ensures HasPrefix(key, p + [v]) <==> key[|p|] == v
  {
    assert key[..|p| + 1] == p + [key[|p|]];
    assert (p + [v])[|p|] == v && (p + [key[|p|]])[|p|] == key[|p|];
  }

  /** Comparing a key with a prefix plus one value compares the key's next column. */
  lemma {:induction false} NextColumn(key: Tuple, p: Tuple, v: Value)
    requires HasPrefix(key, p) && |p| + 1 < |key|
    ensures TupleLess(p + [v], key) <==> AtMost(v, key[|p|])
    ensures TupleLess(key, p + [v]) <==> Less(key[|p|], v)
    ensures HasPrefix(key, p + [v]) <==> key[|p|] == v
  {
    hide TupleLess, Less, AtMost;
    var rest := key[|p|..];
    assert key == p + rest;
    TupleLessAfterPrefix(p, [v], rest);
    TupleLessAfterPrefix(p, rest, [v]);
    OneColumnOrder(rest, v);
    OneMoreColumn(key, p, v);
  }

  lemma BeginWithPrefix(b: IndexScanBounds, key: Tuple)
    requires HasPrefix(key, b.prefix) && |b.prefix| < |key| && (!b.low.Unbounded? ==> |b.prefix| + 1 < |key|)
    ensures NotBefore(RangeBegin(ToScanRange(b)), key) <==> AboveLowScanned(b.low, key[|b.prefix|])
  {
    if b.low.Unbounded? {
      assert b.prefix + [] == b.prefix;
      PrefixAtMost(key, b.prefix);
      assert TupleLess([], key);
    } else {
      NextColumn(key, b.prefix, b.low.value);
      assert key != b.prefix + [b.low.value];
    }
  }

  lemma EndWithPrefix(b: IndexScanBounds, key: Tuple)
    requires HasPrefix(key, b.prefix) && |b.prefix| < |key| && (!b.high.Unbounded? ==> |b.prefix| + 1 < |key|)
    ensures !NotBefore(RangeEnd(ToScanRange(b)), key) <==> BelowHigh(b.high, key[|b.prefix|])
  {
    if b.high.Unbounded? {
      assert b.prefix + [] == b.prefix;
      EmptyIsPrefix(key, []);
    } else {
      NextColumn(key, b.prefix, b.high.value);
      LessTotal(key[|b.prefix|], b.high.value);
      assert key != b.prefix + [b.high.value];
    }
  }

  lemma ShorterPrefix(key: Tuple, p: Tuple, ext: Tuple)
    ensures HasPrefix(key, p + ext) ==> HasPrefix(key, p)
  {
    assert (p + ext)[..|p|] == p;
    if |p + ext| <= |key| { assert key[..|p|] == key[..|p + ext|][..|p|]; }
  }

  lemma OutsidePrefix(b: IndexScanBounds, key: Tuple)
    requires !HasPrefix(key, b.prefix) && b.prefix != []
    ensures !InRange(ToScanRange(b), key)
  {
    var p := b.prefix;
    var range := ToScanRange(b);
    assert p + [] == p;
    var lowExt := if b.low.Unbounded? then [] else [b.low.value];
    var highExt := if b.high.Unbounded? then [] else [b.high.value];
    NoPrefixSameSide(key, p, lowExt);
    NoPrefixSameSide(key, p, highExt);
    TupleLessTotal(key, p);
    TupleLessTotal(key, p + lowExt);
    TupleLessTotal(key, p + highExt);
    ShorterPrefix(key, p, lowExt);
    ShorterPrefix(key, p, highExt);
  }
}
