// The connection pool: lock-atomic steps of many tasks, and the class that takes them.
module ConnectionPools {
  import opened Wrappers

  /** Connections are numbered in the order of their creation; discarded ones have been closed. */
  datatype Pool = Pool(available: seq<nat>, inUse: set<nat>, discarded: set<nat>, closed: bool,
                       created: nat, acquired: nat, released: nat)

  function EmptyPool(): Pool { Pool([], {}, {}, false, 0, 0, 0) }

  // ---- What runs under the lock ----

  /** Pop from the end, closing connections that are invalid or have been idle too long, until one is
      usable or none is left. */
  function PopUsable(p: Pool, usable: set<nat>): (r: (Pool, Option<nat>))
    decreases |p.available|
  {
    if p.available == [] then (p, None)
    else
      var last := |p.available| - 1;
      var conn := p.available[last];
      var popped := p.(available := p.available[..last]);
      if conn in usable then (popped, Some(conn)) else PopUsable(popped.(discarded := p.discarded + {conn}), usable)
  }

  function HandOut(p: Pool, conn: nat): Pool { p.(inUse := p.inUse + {conn}, acquired := p.acquired + 1) }

  /** One pass of _acquire: an available connection, or a new one while there is room, or nothing yet. */
  function AcquirePass(p: Pool, usable: set<nat>, factoryFails: bool, max: nat): (r: (Pool, Option<nat>)) {
    var (popped, conn) := PopUsable(p, usable);
    if conn.Some? then (HandOut(popped, conn.value), conn)
    else if |popped.available| + |popped.inUse| < max && !factoryFails then
      (HandOut(popped.(created := popped.created + 1), popped.created), Some(popped.created))
    else (popped, None)
  }

  function Release(p: Pool, conn: nat): Pool {
    if conn !in p.inUse then p
    else p.(inUse := p.inUse - {conn}, released := p.released + 1, available := p.available + [conn])
  }

  function Members(conns: seq<nat>): set<nat> { set c | c in conns }

  function Close(p: Pool): Pool {
    p.(closed := true, available := [], inUse := {}, discarded := p.discarded + Members(p.available) + p.inUse)
  }

  /** Where in the available connections the last usable one is, if there is one. */
  ghost predicate LastUsable(available: seq<nat>, usable: set<nat>, j: int) {
    0 <= j < |available| && available[j] in usable && forall l :: j < l < |available| ==> available[l] !in usable
  }

  ghost predicate NoneUsable(available: seq<nat>, usable: set<nat>) {
    forall l :: 0 <= l < |available| ==> available[l] !in usable
  }

  /** What a pass has to come to: with a usable connection available, the last one is handed out, those
      after it are closed and those before it left; without one, all are closed, and a new one is handed
      out if there is room and the factory gives one. */
  ghost predicate PassedTo(p: Pool, usable: set<nat>, factoryFails: bool, max: nat, q: Pool, conn: Option<nat>) {
    (forall j :: LastUsable(p.available, usable, j) ==>
      conn == Some(p.available[j]) &&
      q == p.(available := p.available[..j], discarded := p.discarded + Members(p.available[j + 1..]),
              inUse := p.inUse + {p.available[j]}, acquired := p.acquired + 1)) &&
    (NoneUsable(p.available, usable) ==>
      var emptied := p.(available := [], discarded := p.discarded + Members(p.available));
      if |p.inUse| < max && !factoryFails then
        conn == Some(p.created) &&
        q == emptied.(inUse := p.inUse + {p.created}, created := p.created + 1, acquired := p.acquired + 1)
      else conn == None && q == emptied)
  }

  /** A pass takes the last usable available connection and closes exactly the unusable ones after it;
      one or the other case always applies. */
  lemma {:induction false} PassTakesLastUsable(p: Pool, usable: set<nat>, factoryFails: bool, max: nat)
    ensures var (q, conn) := AcquirePass(p, usable, factoryFails, max);
            PassedTo(p, usable, factoryFails, max, q, conn)
    ensures NoneUsable(p.available, usable) || exists j :: LastUsable(p.available, usable, j)
    decreases |p.available|
  {
    hide LastUsable, NoneUsable, Members, PassedTo;
    if p.available == [] || p.available[|p.available| - 1] in usable {
      PassEndsHere(p, usable, factoryFails, max);
    } else {
      var last := |p.available| - 1;
      var next := p.(available := p.available[..last], discarded := p.discarded + {p.available[last]});
      PassTakesLastUsable(next, usable, factoryFails, max);
      DiscardedTogether(p, usable);
      var (q, conn) := AcquirePass(p, usable, factoryFails, max);
      assert (q, conn) == AcquirePass(next, usable, factoryFails, max);
      PassGoesOn(p, usable, factoryFails, max, q, conn);
    }
  }

  lemma PassEndsHere(p: Pool, usable: set<nat>, factoryFails: bool, max: nat)
    requires p.available == [] || p.available[|p.available| - 1] in usable
    ensures var (q, conn) := AcquirePass(p, usable, factoryFails, max);
            PassedTo(p, usable, factoryFails, max, q, conn)
    ensures NoneUsable(p.available, usable) || exists j :: LastUsable(p.available, usable, j)
  {
    var last := |p.available| - 1;
    if p.available != [] {
      assert LastUsable(p.available, usable, last);
      assert Members(p.available[last + 1..]) == {} && p.discarded + {} == p.discarded;
    } else {
      assert Members(p.available) == {} && p.discarded + {} == p.discarded;
    }
  }

  lemma PassGoesOn(p: Pool, usable: set<nat>, factoryFails: bool, max: nat, q: Pool, conn: Option<nat>)
    requires p.available != [] && p.available[|p.available| - 1] !in usable
    requires var last := |p.available| - 1;
             var next := p.(available := p.available[..last], discarded := p.discarded + {p.available[last]});
             PassedTo(next, usable, factoryFails, max, q, conn)
    ensures PassedTo(p, usable, factoryFails, max, q, conn)
  {
    hide LastUsable, NoneUsable, Members;
    DiscardedTogether(p, usable);
  }

  /** Closing the last available connection first and then the others after a place closes them all. */
  lemma DiscardedTogether(p: Pool, usable: set<nat>)
    requires p.available != [] && p.available[|p.available| - 1] !in usable
    ensures var last := |p.available| - 1;
            var next := p.(available := p.available[..last], discarded := p.discarded + {p.available[last]});
            (forall j :: LastUsable(p.available, usable, j) ==>
              LastUsable(next.available, usable, j) && next.available[j] == p.available[j] &&
              next.available[..j] == p.available[..j] &&
              next.discarded + Members(next.available[j + 1..]) == p.discarded + Members(p.available[j + 1..])) &&
            (forall j :: LastUsable(next.available, usable, j) ==> LastUsable(p.available, usable, j)) &&
            (NoneUsable(next.available, usable) <==> NoneUsable(p.available, usable)) &&
            next.discarded + Members(next.available) == p.discarded + Members(p.available)
  {
    var last := |p.available| - 1;
    var rest := p.available[..last];
    assert p.available == rest + [p.available[last]];
    forall j | LastUsable(p.available, usable, j)
      ensures Members(p.available[j + 1..]) == Members(rest[j + 1..]) + {p.available[last]}
    {
      assert p.available[j + 1..] == rest[j + 1..] + [p.available[last]];
    }
    assert Members(p.available) == Members(rest) + {p.available[last]};
  }

  /** The connection released last is the next one taken, while it is usable. */
  lemma ReleasedIsNext(p: Pool, conn: nat, usable: set<nat>, factoryFails: bool, max: nat)
    requires conn in p.inUse && conn in usable
    ensures AcquirePass(Release(p, conn), usable, factoryFails, max).1 == Some(conn)
  {
    var released := Release(p, conn);
    assert LastUsable(released.available, usable, |p.available|);
    PassTakesLastUsable(released, usable, factoryFails, max);
  }

  // ---- Tasks ----

  /** A task that has passed acquire()'s check of the closed flag, or holds a connection. */
  datatype Phase = Entered | Holding(conn: nat)

  datatype System = System(pool: Pool, tasks: map<nat, Phase>)

  datatype Step =
    | Enter(task: nat)
    | Pass(task: nat, usable: set<nat>, factoryFails: bool)
    | GiveUp(task: nat)
    | Leave(task: nat)
    | Shut

  /** Steps of different tasks interleave in any order; a step that does not apply changes nothing. */
  function Next(s: System, step: Step, max: nat): System {
    match step
    case Enter(t) =>
      if t in s.tasks || s.pool.closed then s else s.(tasks := s.tasks[t := Entered])
    case Pass(t, usable, factoryFails) =>
      if t !in s.tasks || !s.tasks[t].Entered? then s
      else
        var (pool, conn) := AcquirePass(s.pool, usable, factoryFails, max);
        System(pool, if conn.Some? then s.tasks[t := Holding(conn.value)] else s.tasks)
    case GiveUp(t) =>
      if t !in s.tasks || !s.tasks[t].Entered? then s else s.(tasks := s.tasks - {t})
    case Leave(t) =>
      if t !in s.tasks || !s.tasks[t].Holding? then s
      else System(Release(s.pool, s.tasks[t].conn), s.tasks - {t})
    case Shut => s.(pool := Close(s.pool))
  }

  function Run(s: System, steps: seq<Step>, max: nat): System
    decreases |steps|
  {
    if steps == [] then s else Run(Next(s, steps[0], max), steps[1..], max)
  }

  const START: System := System(EmptyPool(), map[])

  // ---- What every step keeps ----

  /** Each created connection is in exactly one place: available, in use, or discarded. */
  ghost predicate Accounted(p: Pool, max: nat) {
    (forall j, l :: 0 <= j < l < |p.available| ==> p.available[j] != p.available[l]) &&
    (forall j :: 0 <= j < |p.available| ==> p.available[j] !in p.inUse && p.available[j] !in p.discarded) &&
    p.inUse !! p.discarded &&
    (forall c: nat :: c < p.created <==> c in p.available || c in p.inUse || c in p.discarded) &&
    p.created == |p.available| + |p.inUse| + |p.discarded| &&
    |p.available| + |p.inUse| <= max &&
    (!p.closed ==> p.acquired == p.released + |p.inUse|) &&
    p.acquired >= p.released + |p.inUse|
  }

  /** No connection has two holders; connections in use have one; and until the pool is closed a
      held connection is in use. */
  ghost predicate Held(s: System) {
    (forall t, u :: t in s.tasks && u in s.tasks && t != u && s.tasks[t].Holding? && s.tasks[u].Holding? ==>
      s.tasks[t].conn != s.tasks[u].conn) &&
    (forall c :: c in s.pool.inUse ==> exists t :: t in s.tasks && s.tasks[t] == Holding(c)) &&
    (forall t :: t in s.tasks && s.tasks[t].Holding? ==>
      s.tasks[t].conn in s.pool.inUse || (s.pool.closed && s.tasks[t].conn in s.pool.discarded))
  }

  ghost predicate Safe(s: System, max: nat) { Accounted(s.pool, max) && Held(s) }

  lemma {:induction false} PopUsableKeeps(p: Pool, usable: set<nat>, max: nat)
    requires Accounted(p, max)
    ensures var (q, conn) := PopUsable(p, usable);
            q == p.(available := q.available, discarded := q.discarded) && p.discarded <= q.discarded &&
            (conn.None? ==> Accounted(q, max) && q.available == []) &&
            (conn.Some? ==> Accounted(q.(available := q.available + [conn.value]), max))
    decreases |p.available|
  {
    if p.available != [] {
      var last := |p.available| - 1;
      var conn := p.available[last];
      var popped := p.(available := p.available[..last]);
      if conn in usable {
        assert popped.available + [conn] == p.available;
      } else {
        DiscardKeeps(p, max);
        PopUsableKeeps(popped.(discarded := p.discarded + {conn}), usable, max);
      }
    }
  }

  lemma DiscardKeeps(p: Pool, max: nat)
    requires Accounted(p, max) && p.available != []
    ensures var last := |p.available| - 1;
            Accounted(p.(available := p.available[..last], discarded := p.discarded + {p.available[last]}), max)
  {
    var last := |p.available| - 1;
    assert p.available == p.available[..last] + [p.available[last]];
  }

  lemma HandOutKeeps(p: Pool, conn: nat, max: nat)
    requires Accounted(p.(available := p.available + [conn]), max)
    ensures Accounted(HandOut(p, conn), max)
    ensures conn !in p.inUse && conn !in p.discarded
  {
    var before := p.available + [conn];
    assert before[|p.available|] == conn;
    forall j | 0 <= j < |p.available| ensures p.available[j] != conn && p.available[j] !in p.inUse && p.available[j] !in p.discarded {
      assert before[j] == p.available[j] && before[j] != before[|p.available|];
    }
    forall j, l | 0 <= j < l < |p.available| ensures p.available[j] != p.available[l] { assert before[j] != before[l]; }
    forall c: nat ensures c in before <==> c in p.available || c == conn {
      if c in p.available { assert c in before; }
    }
  }

  lemma NewConnectionKeeps(p: Pool, max: nat)
    requires Accounted(p, max) && p.available == [] && |p.inUse| < max
    ensures Accounted(HandOut(p.(created := p.created + 1), p.created), max)
    ensures p.created !in p.inUse && p.created !in p.discarded
  {
  }

  /** A pass hands out a connection nobody holds. */
  lemma AcquirePassKeeps(p: Pool, usable: set<nat>, factoryFails: bool, max: nat)
    requires Accounted(p, max)
    ensures var (q, conn) := AcquirePass(p, usable, factoryFails, max);
            Accounted(q, max) && q.closed == p.closed && p.discarded <= q.discarded && p.created <= q.created &&
            (conn.None? ==> q.inUse == p.inUse) &&
            (conn.Some? ==> q.inUse == p.inUse + {conn.value} && conn.value !in p.inUse && conn.value !in p.discarded)
  {
    hide Accounted;
    PopUsableKeeps(p, usable, max);
    var (popped, conn) := PopUsable(p, usable);
    if conn.Some? {
      HandOutKeeps(popped, conn.value, max);
    } else if |popped.available| + |popped.inUse| < max && !factoryFails {
      NewConnectionKeeps(popped, max);
    }
  }

  lemma ReleaseKeeps(p: Pool, conn: nat, max: nat)
    requires Accounted(p, max)
    ensures Accounted(Release(p, conn), max)
  {
    if conn in p.inUse {
      var q := Release(p, conn);
      forall c: nat ensures c in q.available <==> c in p.available || c == conn {
        if c in p.available { var j :| 0 <= j < |p.available| && p.available[j] == c; assert q.available[j] == c; }
        if c == conn { assert q.available[|p.available|] == c; }
      }
    }
  }

  lemma {:induction false} DistinctSize(s: seq<nat>)
    requires forall j, l :: 0 <= j < l < |s| ==> s[j] != s[l]
    ensures |Members(s)| == |s|
    decreases |s|
  {
    var all := Members(s);
    if s == [] {
      assert all == {};
    } else {
      var rest, last := s[..|s| - 1], s[|s| - 1];
      var fewer := Members(rest);
      DistinctSize(rest);
      assert s == rest + [last];
      assert last !in fewer;
      assert all == fewer + {last};
    }
  }

  lemma CloseKeeps(p: Pool, max: nat)
    requires Accounted(p, max)
    ensures Accounted(Close(p), max)
  {
    var idle := Members(p.available);
    DistinctSize(p.available);
    assert idle !! p.inUse && idle !! p.discarded;
    var all := p.discarded + idle + p.inUse;
    assert |all| == |p.discarded| + |idle| + |p.inUse|;
    assert Close(p).discarded == all;
    forall c: nat ensures c < p.created <==> c in all {
      assert c in idle <==> c in p.available;
    }
  }

  /** Pool safety, one step: every connection stays accounted for, and no one shares one. */
  lemma NextIsSafe(s: System, step: Step, max: nat)
    requires Safe(s, max)
    ensures Safe(Next(s, step, max), max)
  {
    hide Accounted;
    match step
    case Enter(_) => EnterKeepsHeld(s, step, max);
    case GiveUp(_) => EnterKeepsHeld(s, step, max);
    case Pass(_, usable, factoryFails) =>
      AcquirePassKeeps(s.pool, usable, factoryFails, max);
      PassKeepsHeld(s, step, max);
    case Leave(t) =>
      if t in s.tasks && s.tasks[t].Holding? {
        ReleaseKeeps(s.pool, s.tasks[t].conn, max);
        LeaveKeepsHeld(s, t, max);
      }
    case Shut => CloseKeeps(s.pool, max);
  }

  lemma EnterKeepsHeld(s: System, step: Step, max: nat)
    requires Held(s) && (step.Enter? || step.GiveUp?)
    ensures Held(Next(s, step, max))
  {
    var after := Next(s, step, max);
    forall c | c in after.pool.inUse ensures exists t :: t in after.tasks && after.tasks[t] == Holding(c) {
      var t :| t in s.tasks && s.tasks[t] == Holding(c);
      assert after.tasks[t] == Holding(c);
    }
  }

  lemma PassKeepsHeld(s: System, step: Step, max: nat)
    requires Held(s) && step.Pass?
    requires var (q, conn) := AcquirePass(s.pool, step.usable, step.factoryFails, max);
             q.closed == s.pool.closed && s.pool.discarded <= q.discarded &&
             (conn.None? ==> q.inUse == s.pool.inUse) &&
             (conn.Some? ==> q.inUse == s.pool.inUse + {conn.value} && conn.value !in s.pool.inUse && conn.value !in s.pool.discarded)
    ensures Held(Next(s, step, max))
  {
    hide AcquirePass;
    if step.task !in s.tasks || !s.tasks[step.task].Entered? { return; }
    var (q, conn) := AcquirePass(s.pool, step.usable, step.factoryFails, max);
    var after := Next(s, step, max);
    assert after == System(q, if conn.Some? then s.tasks[step.task := Holding(conn.value)] else s.tasks);
    forall c | c in after.pool.inUse ensures exists t :: t in after.tasks && after.tasks[t] == Holding(c) {
      if c in s.pool.inUse {
        var t :| t in s.tasks && s.tasks[t] == Holding(c);
        assert after.tasks[t] == Holding(c);
      } else {
        assert after.tasks[step.task] == Holding(c);
      }
    }
  }

  lemma LeaveKeepsHeld(s: System, t: nat, max: nat)
    requires Held(s) && t in s.tasks && s.tasks[t].Holding?
    ensures Held(Next(s, Leave(t), max))
  {
    var after := Next(s, Leave(t), max);
    forall c | c in after.pool.inUse ensures exists u :: u in after.tasks && after.tasks[u] == Holding(c) {
      var u :| u in s.tasks && s.tasks[u] == Holding(c);
      assert u != t && after.tasks[u] == Holding(c);
    }
  }

  /** Pool safety over every interleaving. */
  lemma {:induction false} RunIsSafe(s: System, steps: seq<Step>, max: nat)
    requires Safe(s, max)
    ensures Safe(Run(s, steps, max), max)
    decreases |steps|
  {
    hide Safe, Next;
    if steps != [] {
      NextIsSafe(s, steps[0], max);
      RunIsSafe(Next(s, steps[0], max), steps[1..], max);
    }
  }

  lemma StartIsSafe(max: nat)
    ensures Safe(START, max)
  {
  }

  // ---- After the pool is closed ----

  ghost predicate NoneEntered(s: System) { forall t :: t in s.tasks ==> !s.tasks[t].Entered? }

  /** Once the pool is closed and nobody is on the way in, nothing is handed out or created again. */
  lemma {:induction false} QuietAfterClose(s: System, steps: seq<Step>, max: nat)
    requires Safe(s, max) && s.pool.closed && NoneEntered(s)
    ensures var end := Run(s, steps, max);
            end.pool.closed && NoneEntered(end) && end.pool.created == s.pool.created && end.pool.acquired == s.pool.acquired &&
            forall t :: t in end.tasks ==> t in s.tasks && end.tasks[t] == s.tasks[t]
    decreases |steps|
  {
    if steps != [] {
      NextIsSafe(s, steps[0], max);
      QuietAfterClose(Next(s, steps[0], max), steps[1..], max);
    }
  }

  /** A task that has entered before the close still gets a connection afterwards, for the locked part
      does not look at the closed flag again; released, it makes a closed pool hold a connection. */
  lemma EnteredBeforeCloseStillAcquires(s: System, t: nat, max: nat)
    requires Safe(s, max) && t in s.tasks && s.tasks[t].Entered? && max > 0
    ensures var end := Run(s, [Shut, Pass(t, {}, false)], max);
            end.pool.closed && t in end.tasks && end.tasks[t] == Holding(s.pool.created) && end.pool.created == s.pool.created + 1 &&
            Next(end, Leave(t), max).pool.available == [s.pool.created]
  {
    var shut := Next(s, Shut, max);
    assert [Shut, Pass(t, {}, false)][1..] == [Pass(t, {}, false)] && [Pass(t, {}, false)][1..] == [];
    assert shut.pool.available == [] && shut.pool.inUse == {};
    var after := Next(shut, Pass(t, {}, false), max);
    assert Run(shut, [Pass(t, {}, false)], max) == after;
  }

  /** No run of steps hands out or creates a connection any more. */
  ghost predicate HandsOutNoMore(s: System, max: nat) {
    forall steps: seq<Step> ::
      Run(s, steps, max).pool.created == s.pool.created && Run(s, steps, max).pool.acquired == s.pool.acquired
  }

  /** A pool without room has no connections and never gets one. */
  lemma {:induction false} NoRoomNoConnections(s: System, steps: seq<Step>)
    requires Safe(s, 0)
    ensures Run(s, steps, 0).pool.created == s.pool.created && Run(s, steps, 0).pool.acquired == s.pool.acquired
    decreases |steps|
  {
    if steps != [] {
      NextIsSafe(s, steps[0], 0);
      NoRoomNoConnections(Next(s, steps[0], 0), steps[1..]);
    }
  }

  /** In a pool that is full, some task holds a connection in use; once it leaves, there is room. */
  lemma EnteredAcquires(s: System, t: nat, max: nat) returns (steps: seq<Step>)
    requires Safe(s, max) && t in s.tasks && s.tasks[t].Entered? && max > 0
    ensures Run(s, steps, max).pool.acquired > s.pool.acquired
  {
    var pass := Pass(t, {}, false);
    if |s.pool.inUse| < max {
      steps := [pass];
      PassAcquires(s, t, max);
      assert steps[1..] == [] && Run(s, steps, max) == Next(s, pass, max);
    } else {
      var c :| c in s.pool.inUse;
      var u :| u in s.tasks && s.tasks[u] == Holding(c);
      var left := Next(s, Leave(u), max);
      NextIsSafe(s, Leave(u), max);
      PassAcquires(left, t, max);
      steps := [Leave(u), pass];
      assert steps[1..] == [pass] && [pass][1..] == [] && Run(left, [pass], max) == Next(left, pass, max);
    }
  }

  /** With every available connection unusable a pass still creates one. */
  lemma PassAcquires(s: System, t: nat, max: nat)
    requires Safe(s, max) && t in s.tasks && s.tasks[t].Entered? && |s.pool.inUse| < max
    ensures Next(s, Pass(t, {}, false), max).pool.acquired == s.pool.acquired + 1
  {
    PopUsableKeeps(s.pool, {}, max);
    var (popped, conn) := PopUsable(s.pool, {});
    assert popped.acquired == s.pool.acquired && popped.inUse == s.pool.inUse;
    assert conn.None? ==> popped.available == [];
  }

  /** A closed pool hands nothing out any more exactly when no task is on its way in, or there is no
      room for any connection. */
  lemma QuietAfterCloseIff(s: System, max: nat)
    requires Safe(s, max) && s.pool.closed
    ensures HandsOutNoMore(s, max) <==> NoneEntered(s) || max == 0
  {
    hide Safe, Next, Run;
    if NoneEntered(s) || max == 0 {
      forall steps: seq<Step>
        ensures Run(s, steps, max).pool.created == s.pool.created && Run(s, steps, max).pool.acquired == s.pool.acquired
      {
        if max == 0 { NoRoomNoConnections(s, steps); } else { QuietAfterClose(s, steps, max); }
      }
    } else {
      var t :| t in s.tasks && s.tasks[t].Entered?;
      var steps := EnteredAcquires(s, t, max);
    }
  }

  // ---- The class ----

  datatype PoolError = Closed

  class ConnectionPool {
    const maxConnections: nat
    var available: seq<nat>
    var inUse: set<nat>
    ghost var discarded: set<nat>
    var closed: bool
    var totalCreated: nat
    var totalAcquired: nat
    var totalReleased: nat

    ghost function State(): Pool
      reads this
    {
      Pool(available, inUse, discarded, closed, totalCreated, totalAcquired, totalReleased)
    }

    constructor (maxConnections: nat)
      ensures this.maxConnections == maxConnections && State() == EmptyPool()
    {
      this.maxConnections, available, inUse, discarded := maxConnections, [], {}, {};
      closed, totalCreated, totalAcquired, totalReleased := false, 0, 0, 0;
    }

    /** acquire(), before the lock is taken. */
    method EnterAcquire() returns (r: Result<(), PoolError>)
      ensures r == if closed then Err(Closed) else Ok(())
    {
      r := if closed then Err(Closed) else Ok(());
    }

    /** One pass of _acquire's loop; without a result the caller waits for a release or times out. */
    method AcquireOnce(usable: set<nat>, factoryFails: bool) returns (conn: Option<nat>)
      modifies this
      ensures (State(), conn) == AcquirePass(old(State()), usable, factoryFails, maxConnections)
    {
      while available != []
        invariant PopUsable(State(), usable) == PopUsable(old(State()), usable)
        invariant (inUse, closed, totalCreated, totalAcquired, totalReleased)
               == (old(inUse), old(closed), old(totalCreated), old(totalAcquired), old(totalReleased))
        decreases |available|
      {
        var last := |available| - 1;
        var popped := available[last];
        available := available[..last];
        if popped in usable {
          inUse, totalAcquired := inUse + {popped}, totalAcquired + 1;
          return Some(popped);
        }
        discarded := discarded + {popped};
      }
      if |available| + |inUse| < maxConnections && !factoryFails {
        var created := totalCreated;
        totalCreated := totalCreated + 1;
        inUse, totalAcquired := inUse + {created}, totalAcquired + 1;
        return Some(created);
      }
      conn := None;
    }

    method ReleaseConnection(conn: nat)
      modifies this
      ensures State() == Release(old(State()), conn)
    {
      if conn in inUse {
        inUse := inUse - {conn};
        totalReleased := totalReleased + 1;
        available := available + [conn];
      }
    }

    method CloseAll()
      modifies this
      ensures State() == Close(old(State()))
    {
      closed := true;
      discarded := discarded + Members(available) + inUse;
      available, inUse := [], {};
    }
  }
}
