// The LRU cache, and two caches of different sizes run side by side.
module LruCache {
  import opened Wrappers

  datatype Config = Config(maxSize: nat, statsEnabled: bool)

  datatype Stats = Stats(hits: nat, misses: nat, evictions: nat)

  /** order holds the keys from least to most recently used. */
  datatype Cache<K, V> = Cache(order: seq<K>, values: map<K, V>, stats: Stats)

  function Empty<K, V>(): Cache<K, V> { Cache([], map[], Stats(0, 0, 0)) }

  ghost predicate Distinct<K(!new)>(order: seq<K>) { forall j, l :: 0 <= j < l < |order| ==> order[j] != order[l] }

  ghost predicate Valid<K(!new), V>(c: Cache<K, V>, config: Config) {
    Distinct(c.order) &&
    (forall k :: k in c.order <==> k in c.values) &&
    |c.order| <= config.maxSize
  }

  function Without<K(==)>(order: seq<K>, k: K): seq<K> {
    if order == [] then [] else (if order[0] == k then [] else [order[0]]) + Without(order[1..], k)
  }

  function MoveToEnd<K(==)>(order: seq<K>, k: K): seq<K> { Without(order, k) + [k] }

  function Count(on: bool, n: nat): nat { if on then n + 1 else n }

  // ---- Operations ----

  function Got<K(==), V>(c: Cache<K, V>, k: K, config: Config): (r: (Cache<K, V>, Option<V>)) {
    if k !in c.values then (c.(stats := c.stats.(misses := Count(config.statsEnabled, c.stats.misses))), None)
    else (c.(order := MoveToEnd(c.order, k), stats := c.stats.(hits := Count(config.statsEnabled, c.stats.hits))), Some(c.values[k]))
  }

  function Evicted<K(==), V>(c: Cache<K, V>, config: Config): Cache<K, V>
    decreases |c.order|
  {
    if |c.order| <= config.maxSize then c
    else Evicted(Cache(c.order[1..], c.values - {c.order[0]},
                       c.stats.(evictions := Count(config.statsEnabled, c.stats.evictions))), config)
  }

  function Stored<K(==), V>(c: Cache<K, V>, k: K, v: V, config: Config): Cache<K, V> {
    if k in c.values then c.(order := MoveToEnd(c.order, k), values := c.values[k := v])
    else Evicted(c.(order := c.order + [k], values := c.values[k := v]), config)
  }

  function Dropped<K(==), V>(c: Cache<K, V>, k: K): Cache<K, V> {
    if k in c.values then c.(order := Without(c.order, k), values := c.values - {k}) else c
  }

  function Cleared<K(==), V>(c: Cache<K, V>): Cache<K, V> { c.(order := [], values := map[]) }

  datatype Op<K, V> = Get(k: K) | Put(k: K, v: V) | Remove(k: K) | Clear

  function Apply<K(==), V>(c: Cache<K, V>, op: Op<K, V>, config: Config): Cache<K, V> {
    match op
    case Get(k) => Got(c, k, config).0
    case Put(k, v) => Stored(c, k, v, config)
    case Remove(k) => Dropped(c, k)
    case Clear => Cleared(c)
  }

  function Run<K(==), V>(c: Cache<K, V>, trace: seq<Op<K, V>>, config: Config): Cache<K, V>
    decreases |trace|
  {
    if trace == [] then c else Apply(Run(c, trace[..|trace| - 1], config), trace[|trace| - 1], config)
  }

  // ---- Recency orders ----

  /** The part of an order that is in a set of keys. */
  function Keep<K(==)>(order: seq<K>, keys: set<K>): seq<K> {
    if order == [] then [] else (if order[0] in keys then [order[0]] else []) + Keep(order[1..], keys)
  }

  lemma KeepCons<K(!new)>(first: K, rest: seq<K>, keys: set<K>)
    ensures Keep([first] + rest, keys) == if first in keys then [first] + Keep(rest, keys) else Keep(rest, keys)
  {
    assert ([first] + rest)[1..] == rest;
    assert [] + Keep(rest, keys) == Keep(rest, keys);
  }

  lemma WithoutCons<K(!new)>(first: K, rest: seq<K>, k: K)
    ensures Without([first] + rest, k) == if first == k then Without(rest, k) else [first] + Without(rest, k)
  {
    assert ([first] + rest)[1..] == rest;
    assert [] + Without(rest, k) == Without(rest, k);
  }

  lemma {:induction false} WithoutMembers<K(!new)>(order: seq<K>, k: K)
    ensures forall x :: x in Without(order, k) <==> x in order && x != k
    ensures k !in order ==> Without(order, k) == order
  {
    if order != [] {
      assert order == [order[0]] + order[1..];
      WithoutMembers(order[1..], k);
      WithoutCons(order[0], order[1..], k);
    }
  }

  lemma DistinctCons<K(!new)>(first: K, rest: seq<K>)
    ensures Distinct([first] + rest) <==> first !in rest && Distinct(rest)
  {
    var order := [first] + rest;
    if Distinct(order) {
      forall j, l | 0 <= j < l < |rest| ensures rest[j] != rest[l] {
        assert order[j + 1] != order[l + 1];
      }
      assert forall j :: 0 <= j < |rest| ==> rest[j] == order[j + 1] && order[0] != order[j + 1];
    }
  }

  lemma {:induction false} WithoutDistinct<K(!new)>(order: seq<K>, k: K)
    requires Distinct(order)
    ensures Distinct(Without(order, k))
    ensures k in order ==> |Without(order, k)| == |order| - 1
  {
    hide Distinct, Without;
    if order == [] {
      WithoutMembers(order, k);
    } else {
      var first, rest := order[0], order[1..];
      assert order == [first] + rest;
      DistinctCons(first, rest);
      WithoutDistinct(rest, k);
      WithoutMembers(rest, k);
      WithoutCons(first, rest, k);
      DistinctCons(first, Without(rest, k));
    }
  }

  lemma {:induction false} KeepConcat<K(!new)>(a: seq<K>, b: seq<K>, keys: set<K>)
    ensures Keep(a + b, keys) == Keep(a, keys) + Keep(b, keys)
  {
    if a == [] {
      assert a + b == b;
    } else {
      hide Keep;
      var first, rest := a[0], a[1..];
      assert a == [first] + rest && a + b == [first] + (rest + b);
      KeepConcat(rest, b, keys);
      KeepCons(first, rest, keys);
      KeepCons(first, rest + b, keys);
    }
  }

  lemma {:induction false} KeepWithout<K(!new)>(order: seq<K>, keys: set<K>, k: K)
    ensures Keep(Without(order, k), keys) == Without(Keep(order, keys), k)
    ensures Keep(Without(order, k), keys) == Keep(order, keys - {k})
  {
    if order != [] {
      hide Keep, Without;
      var first, rest := order[0], order[1..];
      assert order == [first] + rest;
      KeepWithout(rest, keys, k);
      WithoutCons(first, rest, k);
      KeepCons(first, rest, keys);
      KeepCons(first, rest, keys - {k});
      KeepCons(first, Without(rest, k), keys);
      WithoutCons(first, Keep(rest, keys), k);
    }
  }

  lemma KeepOne<K(!new)>(k: K, keys: set<K>)
    ensures Keep([k], keys) == if k in keys then [k] else []
  {
    assert [k][1..] == [];
  }

  // ---- One cache ----

  /** A new key evicts at most one other: the least recently used. */
  lemma EvictedOne<K(!new), V>(c: Cache<K, V>, config: Config)
    requires |c.order| <= config.maxSize + 1
    ensures Evicted(c, config) ==
      if |c.order| <= config.maxSize then c
      else Cache(c.order[1..], c.values - {c.order[0]}, c.stats.(evictions := Count(config.statsEnabled, c.stats.evictions)))
  {
  }

  lemma MoveKeepsValid<K(!new), V>(c: Cache<K, V>, k: K, config: Config)
    requires Valid(c, config) && k in c.values
    ensures Distinct(MoveToEnd(c.order, k)) && |MoveToEnd(c.order, k)| == |c.order|
    ensures forall x :: x in MoveToEnd(c.order, k) <==> x in c.order
  {
    assert k in c.order;
    WithoutMembers(c.order, k);
    WithoutDistinct(c.order, k);
  }

  lemma StoredIsValid<K(!new), V>(c: Cache<K, V>, k: K, v: V, config: Config)
    requires Valid(c, config)
    ensures Valid(Stored(c, k, v, config), config)
  {
    if k in c.values {
      MoveKeepsValid(c, k, config);
    } else {
      assert k !in c.order;
      var longer := c.(order := c.order + [k], values := c.values[k := v]);
      EvictedOne(longer, config);
      if |longer.order| > config.maxSize { TailIsValid(longer); }
    }
  }

  lemma TailIsValid<K(!new), V>(c: Cache<K, V>)
    requires c.order != [] && Distinct(c.order) && forall k :: k in c.order <==> k in c.values
    ensures Distinct(c.order[1..]) && c.order[0] !in c.order[1..]
    ensures forall k :: k in c.order[1..] <==> k in c.values - {c.order[0]}
  {
    assert forall j :: 0 <= j < |c.order[1..]| ==> c.order[1..][j] == c.order[j + 1];
    assert c.order == [c.order[0]] + c.order[1..];
  }

  lemma ApplyIsValid<K(!new), V>(c: Cache<K, V>, op: Op<K, V>, config: Config)
    requires Valid(c, config)
    ensures Valid(Apply(c, op, config), config)
  {
    match op
    case Get(k) => if k in c.values { MoveKeepsValid(c, k, config); }
    case Put(k, v) => StoredIsValid(c, k, v, config);
    case Remove(k) =>
      if k in c.values {
        assert k in c.order;
        WithoutMembers(c.order, k);
        WithoutDistinct(c.order, k);
      }
    case Clear =>
  }

  lemma {:induction false} RunIsValid<K(!new), V>(trace: seq<Op<K, V>>, config: Config)
    ensures Valid(Run(Empty(), trace, config), config)
    decreases |trace|
  {
    if trace != [] {
      RunIsValid<K, V>(trace[..|trace| - 1], config);
      ApplyIsValid(Run(Empty(), trace[..|trace| - 1], config), trace[|trace| - 1], config);
    }
  }

  // ---- Hits return the last value put ----

  function LastPut<K(==), V>(trace: seq<Op<K, V>>, k: K): Option<V>
    decreases |trace|
  {
    if trace == [] then None
    else
      var last := trace[|trace| - 1];
      if last.Put? && last.k == k then Some(last.v) else LastPut(trace[..|trace| - 1], k)
  }

  /** After any trace, what the cache holds for a key, and so what a hit returns, is the value last put. */
  lemma {:induction false} HitsReturnLastPut<K(!new), V>(trace: seq<Op<K, V>>, config: Config, k: K)
    ensures var c := Run(Empty(), trace, config);
            k in c.values ==> LastPut(trace, k) == Some(c.values[k]) && Got(c, k, config).1 == LastPut(trace, k)
    decreases |trace|
  {
    if trace != [] {
      var before := trace[..|trace| - 1];
      var c, op := Run(Empty(), before, config), trace[|trace| - 1];
      HitsReturnLastPut(before, config, k);
      RunIsValid(before, config);
      if op.Put? && op.k !in c.values {
        EvictedOne(c.(order := c.order + [op.k], values := c.values[op.k := op.v]), config);
      }
    }
  }

  // ---- What is held, read off the trace ----

  /** What has come into use behind a key since its own last put or hit, or None once the cache does
      not hold it.  Another key's put or hit brings that key into use; a remove takes it out; the key
      itself is lost when as many others are behind it as the cache has room for. */
  function Behind<K(==), V>(trace: seq<Op<K, V>>, key: K, max: nat): Option<set<K>>
    decreases |trace|
  {
    if trace == [] then None
    else
      var before, op := trace[..|trace| - 1], trace[|trace| - 1];
      match op
      case Put(k, _) => if k == key then (if max > 0 then Some({}) else None) else Joined(Behind(before, key, max), k, max)
      case Get(k) =>
        if Behind(before, k, max).None? then Behind(before, key, max)
        else if k == key then Some({})
        else Joined(Behind(before, key, max), k, max)
      case Remove(k) =>
        if k == key || Behind(before, key, max).None? then None else Some(Behind(before, key, max).value - {k})
      case Clear => None
  }

  function Joined<K(==)>(behind: Option<set<K>>, k: K, max: nat): Option<set<K>> {
    if behind.None? || |behind.value + {k}| >= max then None else Some(behind.value + {k})
  }

  /** The keys more recently used than one of an order's keys. */
  function After<K(==)>(order: seq<K>, key: K): set<K> {
    if order == [] then {}
    else if order[0] == key then set k | k in order[1..]
    else After(order[1..], key)
  }

  lemma AfterCons<K(!new)>(first: K, rest: seq<K>, key: K)
    ensures After([first] + rest, key) == if first == key then set k | k in rest else After(rest, key)
  {
    assert ([first] + rest)[1..] == rest;
  }

  lemma {:induction false} AfterWithout<K(!new)>(order: seq<K>, k: K, key: K)
    requires key != k
    ensures After(Without(order, k), key) == After(order, key) - {k}
  {
    if order != [] {
      hide After, Without;
      var first, rest := order[0], order[1..];
      assert order == [first] + rest;
      AfterWithout(rest, k, key);
      WithoutCons(first, rest, k);
      AfterCons(first, rest, key);
      AfterCons(first, Without(rest, k), key);
      WithoutMembers(rest, k);
    }
  }

  lemma {:induction false} AfterAppended<K(!new)>(order: seq<K>, k: K, key: K)
    requires k !in order
    ensures After(order + [k], key) == if key in order then After(order, key) + {k} else {}
  {
    if order == [] {
      assert order + [k] == [k] + [];
      AfterCons(k, [], key);
    } else {
      hide After;
      var first, rest := order[0], order[1..];
      assert order == [first] + rest && order + [k] == [first] + (rest + [k]);
      AfterAppended(rest, k, key);
      AfterCons(first, rest, key);
      AfterCons(first, rest + [k], key);
    }
  }

  lemma {:induction false} MembersSize<K(!new)>(order: seq<K>)
    requires Distinct(order)
    ensures |set k | k in order| == |order|
  {
    if order != [] {
      var first, rest := order[0], order[1..];
      assert order == [first] + rest;
      DistinctCons(first, rest);
      MembersSize(rest);
      assert (set k | k in order) == {first} + set k | k in rest;
    }
  }

  /** Only the least recently used key has every other one behind it. */
  lemma {:induction false} AfterSize<K(!new)>(order: seq<K>, key: K)
    requires Distinct(order) && key in order
    ensures After(order, key) <= (set k | k in order) - {key}
    ensures if order[0] == key then |After(order, key)| == |order| - 1 else |After(order, key)| < |order| - 1
  {
    var first, rest := order[0], order[1..];
    assert order == [first] + rest;
    DistinctCons(first, rest);
    AfterCons(first, rest, key);
    if first == key { MembersSize(rest); } else { AfterSize(rest, key); }
  }

  /** How an operation changes what lies behind a held key. */
  lemma MovedBehind<K(!new), V>(c: Cache<K, V>, k: K, key: K, config: Config)
    requires Valid(c, config) && k in c.values && key in c.values
    ensures After(MoveToEnd(c.order, k), key) == if k == key then {} else After(c.order, key) + {k}
    ensures k != key ==> |After(c.order, key) + {k}| < config.maxSize
  {
    assert k in c.order && key in c.order;
    WithoutMembers(c.order, k);
    AfterAppended(Without(c.order, k), k, key);
    if k != key {
      AfterWithout(c.order, k, key);
      MoveKeepsValid(c, k, config);
      AfterSize(MoveToEnd(c.order, k), key);
      assert After(c.order, key) - {k} + {k} == After(c.order, key) + {k};
    }
  }

  lemma NewBehind<K(!new), V>(c: Cache<K, V>, k: K, v: V, key: K, config: Config)
    requires Valid(c, config) && k !in c.values
    ensures var after := Stored(c, k, v, config);
            (k in after.values <==> config.maxSize > 0) &&
            (k in after.values ==> After(after.order, k) == {}) &&
            (key != k ==> (key in after.values <==> key in c.values && |After(c.order, key) + {k}| < config.maxSize)) &&
            (key != k && key in after.values ==> After(after.order, key) == After(c.order, key) + {k})
  {
    hide After, Distinct;
    assert k !in c.order;
    var longer := c.(order := c.order + [k], values := c.values[k := v]);
    LongerIsValid(c, k, v, config);
    EvictedOne(longer, config);
    AfterAppended(c.order, k, k);
    AfterAppended(c.order, k, key);
    if key in longer.order { AfterSize(longer.order, key); }
    AfterSize(longer.order, k);
    assert longer.order == [longer.order[0]] + longer.order[1..];
    AfterCons(longer.order[0], longer.order[1..], key);
    AfterCons(longer.order[0], longer.order[1..], k);
  }

  /** After any trace, a key is held exactly when it was put, not removed or cleared since, and fewer
      other keys than the cache has room for have come into use since its own last put or hit; and
      the keys more recent than it are exactly those. */
  lemma {:induction false} HeldIff<K(!new), V>(trace: seq<Op<K, V>>, config: Config, key: K)
    ensures var c, behind := Run(Empty(), trace, config), Behind(trace, key, config.maxSize);
            (key in c.values <==> behind.Some?) &&
            (key in c.values ==> After(c.order, key) == behind.value && Some(c.values[key]) == LastPut(trace, key))
    decreases |trace|
  {
    HitsReturnLastPut(trace, config, key);
    if trace != [] {
      var before, op := trace[..|trace| - 1], trace[|trace| - 1];
      HeldIff(before, config, key);
      RunIsValid(before, config);
      if !op.Clear? { HeldIff(before, config, op.k); }
      HeldStep(Run(Empty(), before, config), op, config, key);
    }
  }

  /** What one operation does to a key and to what is behind it. */
  lemma HeldStep<K(!new), V>(c: Cache<K, V>, op: Op<K, V>, config: Config, key: K)
    requires Valid(c, config)
    ensures var after, max := Apply(c, op, config), config.maxSize;
            var behind := if key in c.values then Some(After(c.order, key)) else None;
            var held := match op
                        case Put(k, _) => if k == key then (if max > 0 then Some({}) else None) else Joined(behind, k, max)
                        case Get(k) =>
                          if k !in c.values then behind else if k == key then Some({}) else Joined(behind, k, max)
                        case Remove(k) => if k == key || behind.None? then None else Some(behind.value - {k})
                        case Clear => None;
            held == if key in after.values then Some(After(after.order, key)) else None
  {
    hide After, Without;
    match op
    case Put(k, v) =>
      if k !in c.values {
        NewBehind(c, k, v, key, config);
      } else {
        assert k in c.order;
        if key in c.values { MovedBehind(c, k, key, config); }
      }
    case Get(k) => if k in c.values && key in c.values { MovedBehind(c, k, key, config); }
    case Remove(k) =>
      WithoutMembers(c.order, k);
      if k != key { AfterWithout(c.order, k, key); }
      if k !in c.values && key in c.values { assert key in c.order && k !in c.order; AfterSize(c.order, key); }
    case Clear =>
  }

  /** In a cache with room for anything, a get straight after a put of its key hits with the value put. */
  lemma PutThenGet<K(!new), V>(trace: seq<Op<K, V>>, config: Config, k: K, v: V)
    ensures Got(Run(Empty(), trace + [Put(k, v)], config), k, config).1 == if config.maxSize > 0 then Some(v) else None
  {
    var longer := trace + [Put(k, v)];
    assert longer[..|longer| - 1] == trace;
    HeldIff(longer, config, k);
  }

  // ---- The counters ----

  predicate IsHit<K(==), V>(before: seq<Op<K, V>>, op: Op<K, V>, max: nat) {
    op.Get? && Behind(before, op.k, max).Some?
  }

  predicate IsNew<K(==), V>(before: seq<Op<K, V>>, op: Op<K, V>, max: nat) {
    op.Put? && Behind(before, op.k, max).None?
  }

  /** The gets, the hits, the puts of a key not held, and the entries a remove or a clear took out. */
  function Tally<K(==), V>(trace: seq<Op<K, V>>, config: Config): (t: (nat, nat, nat, nat))
    decreases |trace|
  {
    if trace == [] then (0, 0, 0, 0)
    else
      var before, op, max := trace[..|trace| - 1], trace[|trace| - 1], config.maxSize;
      var t := Tally(before, config);
      (t.0 + (if op.Get? then 1 else 0),
       t.1 + (if IsHit(before, op, max) then 1 else 0),
       t.2 + (if IsNew(before, op, max) then 1 else 0),
       t.3 + (if op.Clear? then |Run(Empty(), before, config).order|
              else if op.Remove? && Behind(before, op.k, max).Some? then 1 else 0))
  }

  /** The counters tell hits from misses, and every entry that came in is still held, was taken out,
      or was counted as evicted. */
  lemma {:induction false} CountersBalance<K(!new), V>(trace: seq<Op<K, V>>, config: Config)
    ensures var c, (gets, hits, entered, left) := Run(Empty(), trace, config), Tally(trace, config);
            if !config.statsEnabled then c.stats == Stats(0, 0, 0)
            else
              c.stats.hits == hits && c.stats.hits + c.stats.misses == gets &&
              |c.order| + c.stats.evictions + left == entered
    decreases |trace|
  {
    if trace != [] {
      var before, op := trace[..|trace| - 1], trace[|trace| - 1];
      var c := Run(Empty(), before, config);
      CountersBalance<K, V>(before, config);
      RunIsValid<K, V>(before, config);
      if !op.Clear? { HeldIff(before, config, op.k); }
      if op.Put? && op.k !in c.values {
        EvictedOne(c.(order := c.order + [op.k], values := c.values[op.k := op.v]), config);
      }
      if !op.Clear? && op.k in c.values {
        assert op.k in c.order;
        WithoutDistinct(c.order, op.k);
      }
    }
  }

  // ---- Two caches ----

  /** The smaller cache's keys are among the larger's, in the larger's recency order and with its
      values; and the larger is never ahead by more entries than it is larger. */
  ghost predicate Included<K(!new), V>(small: Cache<K, V>, large: Cache<K, V>, n: Config, m: Config) {
    Valid(small, n) && Valid(large, m) &&
    small.values.Keys <= large.values.Keys &&
    (forall k :: k in small.values ==> small.values[k] == large.values[k]) &&
    small.order == Keep(large.order, small.values.Keys) &&
    |large.order| - |small.order| <= m.maxSize - n.maxSize &&
    small.stats.hits <= large.stats.hits
  }

  lemma IncludedGet<K(!new), V>(small: Cache<K, V>, large: Cache<K, V>, k: K, n: Config, m: Config)
    requires Included(small, large, n, m) && n.statsEnabled == m.statsEnabled
    ensures Included(Got(small, k, n).0, Got(large, k, m).0, n, m)
  {
    ApplyIsValid(small, Get(k), n);
    ApplyIsValid(large, Get(k), m);
    if k in large.values {
      MoveKeepsValid(large, k, m);
      MovedInLarge(small, large, k, n, m);
      if k in small.values { MoveKeepsValid(small, k, n); }
    }
  }

  /** Moving a key to the end in the larger cache moves it in the smaller, if it is there. */
  lemma MovedInLarge<K(!new), V>(small: Cache<K, V>, large: Cache<K, V>, k: K, n: Config, m: Config)
    requires Included(small, large, n, m) && k in large.values
    ensures Keep(MoveToEnd(large.order, k), small.values.Keys) == if k in small.values then MoveToEnd(small.order, k) else small.order
  {
    var keys := small.values.Keys;
    KeepConcat(Without(large.order, k), [k], keys);
    KeepOne(k, keys);
    KeepWithout(large.order, keys, k);
    if k !in keys { assert keys - {k} == keys; }
  }

  lemma IncludedRemove<K(!new), V>(small: Cache<K, V>, large: Cache<K, V>, k: K, n: Config, m: Config)
    requires Included(small, large, n, m)
    ensures Included(Dropped(small, k), Dropped(large, k), n, m)
  {
    ApplyIsValid(small, Remove(k), n);
    ApplyIsValid(large, Remove(k), m);
    if k in large.values {
      assert k in large.order;
      WithoutDistinct(large.order, k);
      KeepWithout(large.order, small.values.Keys, k);
      if k in small.values {
        assert k in small.order;
        WithoutDistinct(small.order, k);
        WithoutKeys(large.order, small.values.Keys, k);
      } else {
        assert small.values.Keys - {k} == small.values.Keys;
      }
    }
  }

  lemma WithoutKeys<K(!new)>(order: seq<K>, keys: set<K>, k: K)
    ensures Keep(Without(order, k), keys - {k}) == Without(Keep(order, keys), k)
  {
    KeepWithout(order, keys, k);
    KeepWithout(order, keys - {k}, k);
    assert keys - {k} - {k} == keys - {k};
  }

  /** A key known to the larger cache only: it moves there and is new here. */
  lemma IncludedPutKnown<K(!new), V>(small: Cache<K, V>, large: Cache<K, V>, k: K, v: V, n: Config, m: Config)
    requires Included(small, large, n, m) && n.maxSize <= m.maxSize && k in large.values && k !in small.values
    ensures Included(Stored(small, k, v, n), Stored(large, k, v, m), n, m)
  {
    hide Keep, Without, Distinct;
    StoredIsValid(small, k, v, n);
    StoredIsValid(large, k, v, m);
    MoveKeepsValid(large, k, m);
    var keys := small.values.Keys;
    var longer := small.(order := small.order + [k], values := small.values[k := v]);
    EvictedOne(longer, n);
    assert longer.values.Keys == keys + {k} && keys - {k} == keys;
    AppendedKey(large.order, keys, k);
    LongerIsValid(small, k, v, n);
    if |longer.order| > n.maxSize { OldestLeaves(longer, MoveToEnd(large.order, k)); }
  }

  lemma LongerIsValid<K(!new), V>(c: Cache<K, V>, k: K, v: V, config: Config)
    requires Valid(c, config) && k !in c.values
    ensures var longer := c.(order := c.order + [k], values := c.values[k := v]);
            Distinct(longer.order) && (forall x :: x in longer.order <==> x in longer.values) && k !in c.order
  {
    assert k !in c.order;
  }

  lemma AppendedKey<K(!new)>(order: seq<K>, keys: set<K>, k: K)
    ensures Keep(Without(order, k) + [k], keys + {k}) == Keep(order, keys - {k}) + [k]
  {
    KeepConcat(Without(order, k), [k], keys + {k});
    KeepOne(k, keys + {k});
    KeepWithout(order, keys + {k}, k);
    assert keys + {k} - {k} == keys - {k};
  }

  /** Evicting the smaller cache's oldest key keeps its order a part of the larger's. */
  lemma OldestLeaves<K(!new), V>(c: Cache<K, V>, order: seq<K>)
    requires c.order != [] && Distinct(c.order) && Distinct(order)
    requires forall k :: k in c.order <==> k in c.values
    requires c.order == Keep(order, c.values.Keys)
    ensures c.order[1..] == Keep(order, (c.values - {c.order[0]}).Keys)
  {
    var oldest := c.order[0];
    TailIsValid(c);
    KeepWithout(order, c.values.Keys, oldest);
    WithoutMembers(c.order[1..], oldest);
    assert Without(c.order, oldest) == c.order[1..];
    assert (c.values - {oldest}).Keys == c.values.Keys - {oldest};
  }

  /** A key new to both: when the larger cache evicts, so does the smaller, and a key the smaller
      keeps is never the one the larger evicts. */
  lemma IncludedPutNew<K(!new), V>(small: Cache<K, V>, large: Cache<K, V>, k: K, v: V, n: Config, m: Config)
    requires Included(small, large, n, m) && n.maxSize <= m.maxSize && k !in large.values
    ensures Included(Stored(small, k, v, n), Stored(large, k, v, m), n, m)
  {
    hide Keep, Without, Distinct, Valid, Evicted;
    StoredIsValid(small, k, v, n);
    StoredIsValid(large, k, v, m);
    var longer := small.(order := small.order + [k], values := small.values[k := v]);
    var wider := large.(order := large.order + [k], values := large.values[k := v]);
    Room(small, n);
    Room(large, m);
    EvictedOne(longer, n);
    EvictedOne(wider, m);
    NewKeyOrders(small, large, k, v, n, m);
  }

  lemma Room<K(!new), V>(c: Cache<K, V>, config: Config)
    requires Valid(c, config)
    ensures |c.order| <= config.maxSize
  {
  }

  /** The orders after appending the key to both, and after the smaller, or both, have evicted. */
  lemma NewKeyOrders<K(!new), V>(small: Cache<K, V>, large: Cache<K, V>, k: K, v: V, n: Config, m: Config)
    requires Included(small, large, n, m) && k !in large.values
    ensures var order, wide := small.order + [k], large.order + [k];
            var values := small.values[k := v];
            var left := (values - {order[0]}).Keys;
            order == Keep(wide, values.Keys) && order[1..] == Keep(wide, left) &&
            wide[0] !in left && order[1..] == Keep(wide[1..], left)
  {
    hide Keep, Without, Distinct;
    LongerIsValid(small, k, v, n);
    LongerIsValid(large, k, v, m);
    var longer := small.(order := small.order + [k], values := small.values[k := v]);
    AppendedToBoth(small.values.Keys, large.order, k);
    assert longer.values.Keys == small.values.Keys + {k};
    OldestLeaves(longer, large.order + [k]);
    LargeEvictsToo(longer, large.order + [k]);
  }

  lemma AppendedToBoth<K(!new)>(keys: set<K>, order: seq<K>, k: K)
    requires k !in order && k !in keys
    ensures Keep(order + [k], keys + {k}) == Keep(order, keys) + [k]
  {
    WithoutMembers(order, k);
    AppendedKey(order, keys, k);
    assert keys - {k} == keys;
  }

  /** If the larger cache's oldest key is in the smaller, it is the smaller's oldest too. */
  lemma LargeEvictsToo<K(!new), V>(c: Cache<K, V>, order: seq<K>)
    requires order != [] && c.order != [] && Distinct(c.order) && Distinct(order)
    requires forall k :: k in c.order <==> k in c.values
    requires c.order == Keep(order, c.values.Keys)
    ensures var left := (c.values - {c.order[0]}).Keys;
            order[0] !in left && Keep(order, left) == Keep(order[1..], left)
  {
    TailIsValid(c);
    if order[0] in c.values { assert c.order[0] == order[0]; }
  }

  lemma IncludedPutShared<K(!new), V>(small: Cache<K, V>, large: Cache<K, V>, k: K, v: V, n: Config, m: Config)
    requires Included(small, large, n, m) && k in small.values
    ensures Included(Stored(small, k, v, n), Stored(large, k, v, m), n, m)
  {
    StoredIsValid(small, k, v, n);
    StoredIsValid(large, k, v, m);
    MoveKeepsValid(small, k, n);
    MoveKeepsValid(large, k, m);
    MovedInLarge(small, large, k, n, m);
    assert small.values[k := v].Keys == small.values.Keys;
  }

  lemma IncludedStep<K(!new), V>(small: Cache<K, V>, large: Cache<K, V>, op: Op<K, V>, n: Config, m: Config)
    requires Included(small, large, n, m) && n.maxSize <= m.maxSize && n.statsEnabled == m.statsEnabled
    ensures Included(Apply(small, op, n), Apply(large, op, m), n, m)
  {
    match op
    case Get(k) => IncludedGet(small, large, k, n, m);
    case Put(k, v) =>
      if k in small.values {
        IncludedPutShared(small, large, k, v, n, m);
      } else if k in large.values {
        IncludedPutKnown(small, large, k, v, n, m);
      } else {
        IncludedPutNew(small, large, k, v, n, m);
      }
    case Remove(k) => IncludedRemove(small, large, k, n, m);
    case Clear =>
  }

  /** LRU inclusion: after any common trace, the smaller cache is included in the larger. */
  lemma {:induction false} RunIncluded<K(!new), V>(trace: seq<Op<K, V>>, n: Config, m: Config)
    requires n.maxSize <= m.maxSize && n.statsEnabled == m.statsEnabled
    ensures Included(Run(Empty(), trace, n), Run(Empty(), trace, m), n, m)
    decreases |trace|
  {
    if trace != [] {
      var before := trace[..|trace| - 1];
      RunIncluded(before, n, m);
      IncludedStep(Run(Empty(), before, n), Run(Empty(), before, m), trace[|trace| - 1], n, m);
    }
  }

  // ---- The class ----

  class LRUCache<K(==), V> {
    const config: Config
    var order: seq<K>
    var values: map<K, V>
    var hits: nat
    var misses: nat
    var evictions: nat

    function State(): Cache<K, V>
      reads this
    {
      Cache(order, values, Stats(hits, misses, evictions))
    }

    constructor (config: Config)
      ensures this.config == config && State() == Empty()
    {
      this.config, order, values, hits, misses, evictions := config, [], map[], 0, 0, 0;
    }

    method Get(key: K, default: Option<V>) returns (r: Option<V>)
      modifies this
      ensures State() == Got(old(State()), key, config).0
      ensures r == if key in old(values) then Got(old(State()), key, config).1 else default
    {
      if key !in values {
        if config.statsEnabled { misses := misses + 1; }
        return default;
      }
      order := MoveToEnd(order, key);
      if config.statsEnabled { hits := hits + 1; }
      r := Some(values[key]);
    }

    method Put(key: K, value: V)
      modifies this
      ensures State() == Stored(old(State()), key, value, config)
    {
      if key in values {
        values := values[key := value];
        order := MoveToEnd(order, key);
        return;
      }
      order, values := order + [key], values[key := value];
      while |order| > config.maxSize
        invariant Evicted(State(), config) == Stored(old(State()), key, value, config)
        decreases |order|
      {
        values := values - {order[0]};
        order := order[1..];
        if config.statsEnabled { evictions := evictions + 1; }
      }
    }

    method Remove(key: K) returns (removed: bool)
      modifies this
      ensures State() == Dropped(old(State()), key) && removed == (key in old(values))
    {
      if key !in values {
        return false;
      }
      order, values := Without(order, key), values - {key};
      removed := true;
    }

    method Clear()
      modifies this`order, this`values
      ensures State() == Cleared(old(State()))
    {
      order, values := [], map[];
    }
  }
}
