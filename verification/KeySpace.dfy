// Ordered reads of a set of keys.
module KeySpace {
  import opened Values

  predicate SortedKeys(ks: seq<Tuple>) {
    forall i, j :: 0 <= i < j < |ks| ==> TupleLess(ks[i], ks[j])
  }

  predicate IsLeast(m: Tuple, s: set<Tuple>) {
    m in s && forall x :: x in s ==> TupleAtMost(m, x)
  }

  lemma {:induction false} LeastExists(s: set<Tuple>) returns (m: Tuple)
    requires s != {}
    ensures IsLeast(m, s)
    decreases |s|
  {
    var x :| x in s;
    if s == {x} {
      m := x;
    } else {
      assert s == (s - {x}) + {x};
      m := LeastExists(s - {x});
      TupleLessTotal(m, x);
      if TupleLess(x, m) {
        forall y | y in s ensures TupleAtMost(x, y) {
          if y != x && y != m { assert y in s - {x}; TupleLessTransitive(x, m, y); }
        }
        m := x;
      }
    }
  }

  lemma LeastInhabited(s: set<Tuple>)
    requires s != {}
    ensures exists m :: m in s && IsLeast(m, s)
  {
    var m := LeastExists(s);
  }

  lemma LeastUnique(s: set<Tuple>)
    ensures forall a, b :: IsLeast(a, s) && IsLeast(b, s) ==> a == b
  {
    forall a, b | IsLeast(a, s) && IsLeast(b, s) ensures a == b { TupleLessTotal(a, b); }
  }

  /** The keys in order, as a range read returns them. */
  function Sorted(s: set<Tuple>): seq<Tuple> {
    if s == {} then []
    else
      LeastInhabited(s);
      LeastUnique(s);
      var m :| m in s && IsLeast(m, s);
      [m] + Sorted(s - {m})
  }

  lemma {:induction false} SortedIsSorted(s: set<Tuple>)
    ensures SortedKeys(Sorted(s))
    ensures forall k :: k in Sorted(s) <==> k in s
    ensures |Sorted(s)| == |s|
    decreases |s|
  {
    if s != {} {
      LeastInhabited(s);
      LeastUnique(s);
      var m := Sorted(s)[0];
      SortedIsSorted(s - {m});
      var rest := Sorted(s - {m});
      assert Sorted(s) == [m] + rest;
      forall i, j | 0 <= i < j < |Sorted(s)| ensures TupleLess(Sorted(s)[i], Sorted(s)[j]) {
        if i == 0 { assert rest[j - 1] in rest; }
      }
    }
  }

  /** A strictly sorted sequence is determined by its elements. */
  lemma {:induction false} SortedUnique(a: seq<Tuple>, b: seq<Tuple>)
    requires SortedKeys(a) && SortedKeys(b)
    requires forall k :: k in a <==> k in b
    ensures a == b
    decreases |a|
  {
    if a == [] {
      assert forall j :: 0 <= j < |b| ==> b[j] in b;
    } else {
      assert a[0] in a;
      assert a[0] in b;
      assert b[0] in a;
      TupleLessTotal(a[0], b[0]);
      assert a[0] == b[0];
      forall k ensures k in a[1..] <==> k in b[1..] {
        if k in a[1..] { assert k in a && k in b; TupleLessTotal(a[0], k); }
        if k in b[1..] { assert k in b && k in a; TupleLessTotal(b[0], k); }
      }
      SortedUnique(a[1..], b[1..]);
      assert a == [a[0]] + a[1..] && b == [b[0]] + b[1..];
    }
  }
}
