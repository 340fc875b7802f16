// Column values, key tuples and their order.
//
// A packed key is modelled as the tuple itself; what the byte encoding gives the
// code is the column-by-column order below.  A position in the key space that is
// not a key (a packed tuple followed by an extra byte) is a Cut.
module Values {
  datatype Value =
    | Null
    | Str(s: string)
    | Tup(items: seq<Value>)
    | Int(i: int)

  type Tuple = seq<Value>

  /** The order of type codes: null, then strings, then nested tuples, then integers. */
  function Rank(v: Value): nat {
    match v
    case Null => 0
    case Str(_) => 1
    case Tup(_) => 2
    case Int(_) => 3
  }

  /** Strings compare code point by code point, a proper prefix first. */
  predicate StrLess(a: string, b: string) {
    if b == [] then false
    else if a == [] then true
    else if a[0] == b[0] then StrLess(a[1..], b[1..])
    else a[0] < b[0]
  }

  predicate Less(a: Value, b: Value)
    decreases a, 0
  {
    if Rank(a) != Rank(b) then Rank(a) < Rank(b)
    else match a
      case Null => false
      case Str(s) => StrLess(s, b.s)
      case Tup(items) => TupleLess(items, b.items)
      case Int(i) => i < b.i
  }

  /** Tuples compare column by column, a proper prefix first. */
  predicate TupleLess(a: Tuple, b: Tuple)
    decreases a, 0
  {
    if b == [] then false
    else if a == [] then true
    else if a[0] == b[0] then TupleLess(a[1..], b[1..])
    else Less(a[0], b[0])
  }

  predicate AtMost(a: Value, b: Value) { a == b || Less(a, b) }

  predicate TupleAtMost(a: Tuple, b: Tuple) { a == b || TupleLess(a, b) }

  // ---- The order is total ----

  lemma {:induction false} StrLessTotal(a: string, b: string)
    ensures StrLess(a, b) || a == b || StrLess(b, a)
    ensures !(StrLess(a, b) && StrLess(b, a))
    ensures !StrLess(a, a)
    decreases |a|
  {
    if a != [] {
      StrLessTotal(a[1..], a[1..]);
      if b != [] && a[0] == b[0] {
        StrLessTotal(a[1..], b[1..]);
        assert a == [a[0]] + a[1..] && b == [b[0]] + b[1..];
      }
    }
  }

  lemma {:induction false} StrLessTransitive(a: string, b: string, c: string)
    requires StrLess(a, b) && StrLess(b, c)
    ensures StrLess(a, c)
    decreases |a|
  {
    if a != [] && b != [] && c != [] && a[0] == b[0] == c[0] {
      StrLessTransitive(a[1..], b[1..], c[1..]);
    }
  }

  lemma {:induction false} LessTotal(a: Value, b: Value)
    ensures Less(a, b) || a == b || Less(b, a)
    ensures !(Less(a, b) && Less(b, a))
    ensures !Less(a, a)
    decreases a, 0
  {
    if a.Str? {
      StrLessTotal(a.s, a.s);
      if b.Str? { StrLessTotal(a.s, b.s); }
    } else if a.Tup? {
      TupleLessTotal(a.items, a.items);
      if b.Tup? { TupleLessTotal(a.items, b.items); }
    }
  }

  lemma {:induction false} TupleLessTotal(a: Tuple, b: Tuple)
    ensures TupleLess(a, b) || a == b || TupleLess(b, a)
    ensures !(TupleLess(a, b) && TupleLess(b, a))
    ensures !TupleLess(a, a)
    decreases a, 0
  {
    if a != [] {
      TupleLessTotal(a[1..], a[1..]);
      if b != [] {
        LessTotal(a[0], b[0]);
        if a[0] == b[0] {
          TupleLessTotal(a[1..], b[1..]);
          assert a == [a[0]] + a[1..] && b == [b[0]] + b[1..];
        }
      }
    }
  }

  lemma {:induction false} LessTransitive(a: Value, b: Value, c: Value)
    requires Less(a, b) && Less(b, c)
    ensures Less(a, c)
    decreases a, 0
  {
    if a.Str? && b.Str? && c.Str? {
      StrLessTransitive(a.s, b.s, c.s);
    } else if a.Tup? && b.Tup? && c.Tup? {
      TupleLessTransitive(a.items, b.items, c.items);
    }
  }

  lemma {:induction false} TupleLessTransitive(a: Tuple, b: Tuple, c: Tuple)
    requires TupleLess(a, b) && TupleLess(b, c)
    ensures TupleLess(a, c)
    decreases a, 0
  {
    if a != [] {
      if a[0] == b[0] == c[0] {
        TupleLessTransitive(a[1..], b[1..], c[1..]);
      } else if a[0] != b[0] && b[0] != c[0] {
        LessTransitive(a[0], b[0], c[0]);
        LessTotal(a[0], b[0]);
      }
    }
  }

  /** From some integer on, none is listed. */
  lemma {:induction false} FreshInt(vs: seq<Value>) returns (n: int)
    ensures forall m: int :: m >= n ==> Int(m) !in vs
    decreases |vs|
  {
    if vs == [] {
      n := 0;
    } else {
      n := FreshInt(vs[1..]);
      assert vs == [vs[0]] + vs[1..];
      if vs[0].Int? && vs[0].i >= n { n := vs[0].i + 1; }
    }
  }

  // ---- Prefixes ----

  predicate HasPrefix(t: Tuple, p: Tuple) { |p| <= |t| && t[..|p|] == p }

  lemma HasPrefixByColumn(t: Tuple, p: Tuple)
    requires t != [] && p != []
    ensures HasPrefix(t, p) <==> t[0] == p[0] && HasPrefix(t[1..], p[1..])
  {
    if |p| <= |t| {
      assert t[..|p|] == [t[0]] + t[1..][..|p|-1];
      assert p == [p[0]] + p[1..];
    }
  }

  /** What follows a shared prefix decides the comparison. */
  lemma {:induction false} TupleLessAfterPrefix(p: Tuple, a: Tuple, b: Tuple)
    ensures TupleLess(p + a, p + b) <==> TupleLess(a, b)
    decreases |p|
  {
    if p == [] {
      assert p + a == a && p + b == b;
    } else {
      TupleLessAfterPrefix(p[1..], a, b);
      assert (p + a)[1..] == p[1..] + a && (p + b)[1..] == p[1..] + b;
      assert (p + a)[0] == p[0] && (p + b)[0] == p[0];
    }
  }

  /** A key that lacks the prefix p lies on the same side of p and of every extension of p. */
  lemma {:induction false} NoPrefixSameSide(t: Tuple, p: Tuple, ext: Tuple)
    requires !HasPrefix(t, p)
    ensures TupleLess(t, p) <==> TupleLess(t, p + ext)
    ensures TupleLess(p, t) <==> TupleLess(p + ext, t)
    decreases |p|
  {
    assert p != [];
    assert (p + ext)[0] == p[0];
    if t != [] && t[0] == p[0] {
      assert (p + ext)[1..] == p[1..] + ext;
      HasPrefixByColumn(t, p);
      NoPrefixSameSide(t[1..], p[1..], ext);
    }
  }

  lemma PrefixAtMost(t: Tuple, p: Tuple)
    requires HasPrefix(t, p)
    ensures TupleAtMost(p, t)
  {
    TupleLessAfterPrefix(p, [], t[|p|..]);
    assert t == p + t[|p|..] && p == p + [];
  }

  // ---- Cuts: positions between keys ----

  /** At(t): the packed tuple.  AfterSelf(t): followed by a zero byte, so just after t and
      before its extensions.  AfterExtensions(t): followed by 0xFF, so after them all. */
  datatype Cut = At(t: Tuple) | AfterSelf(t: Tuple) | AfterExtensions(t: Tuple)

  /** The key does not lie before the cut. */
  predicate NotBefore(cut: Cut, key: Tuple) {
    match cut
    case At(t) => TupleAtMost(t, key)
    case AfterSelf(t) => TupleLess(t, key)
    case AfterExtensions(t) => TupleLess(t, key) && !HasPrefix(key, t)
  }

  predicate InCuts(begin: Cut, end: Cut, key: Tuple) {
    NotBefore(begin, key) && !NotBefore(end, key)
  }

  /** A cut splits the keys into a lower and an upper part. */
  lemma NotBeforeUpwardClosed(cut: Cut, k: Tuple, k': Tuple)
    requires NotBefore(cut, k) && TupleLess(k, k')
    ensures NotBefore(cut, k')
  {
    if cut.t != k { TupleLessTransitive(cut.t, k, k'); }
    if cut.AfterExtensions? && HasPrefix(k', cut.t) {
      var ext := k'[|cut.t|..];
      assert k' == cut.t + ext;
      NoPrefixSameSide(k, cut.t, ext);
      TupleLessTotal(k, k');
    }
  }
}
