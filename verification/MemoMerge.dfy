// merge_groups: when merging lets a group reach itself, and the members it leaves behind.
module MemoMerge {
  import opened Wrappers
  import opened CascadesExpressions
  import opened MemoGroups

  // ---- Reaching a group through child groups ----

  /** Some member of group g has h as a child group. */
  ghost predicate Edge(groups: seq<Group>, g: nat, h: nat) {
    g < |groups| && exists x :: x in groups[g].expressions && h in x.childGroups
  }

  ghost predicate Path(groups: seq<Group>, path: seq<nat>) {
    forall k :: 0 <= k < |path| - 1 ==> Edge(groups, path[k], path[k + 1])
  }

  ghost predicate PathBetween(groups: seq<Group>, path: seq<nat>, g: nat, h: nat) {
    |path| > 1 && path[0] == g && path[|path| - 1] == h && Path(groups, path)
  }

  ghost predicate Reaches(groups: seq<Group>, g: nat, h: nat) { exists path :: PathBetween(groups, path, g, h) }

  /** No group reaches itself. */
  ghost predicate Acyclic(groups: seq<Group>) { forall g :: !Reaches(groups, g, g) }

  lemma EdgeReaches(groups: seq<Group>, g: nat, h: nat)
    requires Edge(groups, g, h)
    ensures Reaches(groups, g, h)
  {
    assert PathBetween(groups, [g, h], g, h);
  }

  lemma ReachesFurther(groups: seq<Group>, g: nat, h: nat, l: nat)
    requires Edge(groups, g, h) && (h == l || Reaches(groups, h, l))
    ensures Reaches(groups, g, l)
  {
    if h == l {
      EdgeReaches(groups, g, h);
    } else {
      var path :| PathBetween(groups, path, h, l);
      var longer := [g] + path;
      forall k | 0 <= k < |longer| - 1 ensures Edge(groups, longer[k], longer[k + 1]) {
        if k > 0 { assert longer[k] == path[k - 1] && longer[k + 1] == path[k]; }
      }
      assert PathBetween(groups, longer, g, l);
    }
  }

  // ---- What a merge does to the edges ----

  /** The kept group gets the other's edges too; the emptied one has none; no other edge changes. */
  lemma MergedEdges(m: MemoState, g1: nat, g2: nat, g: nat, h: nat)
    requires g1 < |m.groups| && g2 < |m.groups| && g1 != g2
    ensures Edge(MergeGroups(m, g1, g2).groups, g, h) <==>
      if g == g2 then false
      else if g == g1 then Edge(m.groups, g1, h) || Edge(m.groups, g2, h)
      else Edge(m.groups, g, h)
  {
    var groups' := MergeGroups(m, g1, g2).groups;
    var a, b := m.groups[g1].expressions, m.groups[g2].expressions;
    if g == g1 {
      assert forall x :: x in groups'[g1].expressions <==> x in a || x in b;
    }
  }

  /** A path to the kept group, after the merge, was one before as far as its first visit there. */
  lemma {:induction false} PathToKept(m: MemoState, g1: nat, g2: nat, path: seq<nat>)
    requires g1 < |m.groups| && g2 < |m.groups| && g1 != g2
    requires path != [] && Path(MergeGroups(m, g1, g2).groups, path) && path[|path| - 1] == g1
    ensures path[0] == g1 || Reaches(m.groups, path[0], g1)
    decreases |path|
  {
    if path[0] != g1 {
      assert Edge(MergeGroups(m, g1, g2).groups, path[0], path[1]);
      MergedEdges(m, g1, g2, path[0], path[1]);
      TailIsPath(MergeGroups(m, g1, g2).groups, path, 1);
      PathToKept(m, g1, g2, path[1..]);
      ReachesFurther(m.groups, path[0], path[1], g1);
    }
  }

  lemma TailIsPath(groups: seq<Group>, path: seq<nat>, k: nat)
    requires Path(groups, path) && k <= |path|
    ensures Path(groups, path[k..])
  {
    forall l | 0 <= l < |path[k..]| - 1 ensures Edge(groups, path[k..][l], path[k..][l + 1]) {
      assert Edge(groups, path[k + l], path[k + l + 1]);
    }
  }

  lemma HeadIsPath(groups: seq<Group>, path: seq<nat>, k: nat)
    requires Path(groups, path) && k <= |path|
    ensures Path(groups, path[..k])
  {
    forall l | 0 <= l < k - 1 ensures Edge(groups, path[..k][l], path[..k][l + 1]) {
      assert Edge(groups, path[l], path[l + 1]);
    }
  }

  /** A cycle through the kept group goes through an edge that the other group brought. */
  lemma CycleThroughKept(m: MemoState, g1: nat, g2: nat, path: seq<nat>, k: nat)
    requires g1 < |m.groups| && g2 < |m.groups| && g1 != g2 && Acyclic(m.groups)
    requires k < |path| - 1 && Path(MergeGroups(m, g1, g2).groups, path) && path[0] == path[|path| - 1] && path[k] == g1
    ensures Reaches(m.groups, g2, g1)
  {
    var groups' := MergeGroups(m, g1, g2).groups;
    var next := path[k + 1];
    var round := path[k + 1..] + path[1..k + 1];
    forall l | 0 <= l < |round| - 1 ensures Edge(groups', round[l], round[l + 1]) {
      var first := |path| - k - 1;
      if l < first - 1 {
        assert Edge(groups', path[k + 1 + l], path[k + 2 + l]);
      } else {
        assert Edge(groups', path[l - first + 1], path[l - first + 2]);
      }
    }
    assert round[0] == next;
    assert round[|round| - 1] == g1;
    PathToKept(m, g1, g2, round);
    assert Edge(groups', path[k], path[k + 1]);
    MergedEdges(m, g1, g2, g1, next);
    if Edge(m.groups, g1, next) { ReachesFurther(m.groups, g1, next, g1); }
    ReachesFurther(m.groups, g2, next, g1);
  }

  lemma NeverBack(groups: seq<Group>, path: seq<nat>, k: nat)
    requires Acyclic(groups) && Path(groups, path) && 0 < k < |path|
    ensures path[k] != path[0]
  {
    assert !Reaches(groups, path[0], path[0]);
    if path[k] == path[0] {
      HeadIsPath(groups, path, k + 1);
      assert PathBetween(groups, path[..k + 1], path[0], path[0]);
    }
  }

  /** A path out of the emptied group becomes one out of the kept group. */
  lemma PathTakenOver(m: MemoState, g1: nat, g2: nat, path: seq<nat>)
    requires g1 < |m.groups| && g2 < |m.groups| && g1 != g2 && Acyclic(m.groups)
    requires PathBetween(m.groups, path, g2, g1)
    ensures Reaches(MergeGroups(m, g1, g2).groups, g1, g1)
  {
    var groups' := MergeGroups(m, g1, g2).groups;
    var taken := path[0 := g1];
    forall k | 0 <= k < |taken| - 1 ensures Edge(groups', taken[k], taken[k + 1]) {
      assert Edge(m.groups, path[k], path[k + 1]);
      if k > 0 { NeverBack(m.groups, path, k); }
      MergedEdges(m, g1, g2, taken[k], taken[k + 1]);
    }
    assert PathBetween(groups', taken, g1, g1);
  }

  /** In a memo where no group reaches itself, a merge keeps that exactly when the emptied group does
      not reach the kept one.  The other way round there is no cycle: members that name the emptied
      group go on naming it. */
  lemma MergeKeepsAcyclicIff(m: MemoState, g1: nat, g2: nat)
    requires g1 < |m.groups| && g2 < |m.groups| && g1 != g2 && Acyclic(m.groups)
    ensures Acyclic(MergeGroups(m, g1, g2).groups) <==> !Reaches(m.groups, g2, g1)
  {
    var groups' := MergeGroups(m, g1, g2).groups;
    if Reaches(m.groups, g2, g1) {
      var path :| PathBetween(m.groups, path, g2, g1);
      PathTakenOver(m, g1, g2, path);
    } else {
      forall g ensures !Reaches(groups', g, g) {
        if path :| PathBetween(groups', path, g, g) {
          CycleWasThere(m, g1, g2, path);
        }
      }
    }
  }

  lemma CycleWasThere(m: MemoState, g1: nat, g2: nat, path: seq<nat>)
    requires g1 < |m.groups| && g2 < |m.groups| && g1 != g2 && Acyclic(m.groups)
    requires |path| > 1 && PathBetween(MergeGroups(m, g1, g2).groups, path, path[0], path[0])
    ensures Reaches(m.groups, g2, g1)
  {
    CycleVisitsKept(m, g1, g2, path);
    var k :| 0 <= k < |path| - 1 && path[k] == g1;
    CycleThroughKept(m, g1, g2, path, k);
  }

  /** A cycle after the merge goes through the kept group. */
  lemma CycleVisitsKept(m: MemoState, g1: nat, g2: nat, path: seq<nat>)
    requires g1 < |m.groups| && g2 < |m.groups| && g1 != g2 && Acyclic(m.groups)
    requires |path| > 1 && PathBetween(MergeGroups(m, g1, g2).groups, path, path[0], path[0])
    ensures exists k :: 0 <= k < |path| - 1 && path[k] == g1
  {
    assert !Reaches(m.groups, path[0], path[0]);
    if forall k :: 0 <= k < |path| - 1 ==> path[k] != g1 {
      forall k | 0 <= k < |path| - 1 ensures Edge(m.groups, path[k], path[k + 1]) {
        assert Edge(MergeGroups(m, g1, g2).groups, path[k], path[k + 1]);
        MergedEdges(m, g1, g2, path[k], path[k + 1]);
      }
      assert PathBetween(m.groups, path, path[0], path[0]);
    }
  }

  /** Ranks exclude cycles. */
  lemma RankedIsAcyclic(m: MemoState)
    requires Ranked(m)
    ensures Acyclic(m.groups)
  {
    forall g ensures !Reaches(m.groups, g, g) {
      if path :| PathBetween(m.groups, path, g, g) {
        PathDescends(m, path);
      }
    }
  }

  lemma {:induction false} PathDescends(m: MemoState, path: seq<nat>)
    requires Ranked(m) && |path| > 1 && Path(m.groups, path)
    ensures path[0] < |m.groups| && path[|path| - 1] < |m.groups|
    ensures Depth(m.groups[path[|path| - 1]].origin) < Depth(m.groups[path[0]].origin)
    decreases |path|
  {
    assert Edge(m.groups, path[0], path[1]);
    EdgeDescends(m, path[0], path[1]);
    if |path| > 2 {
      TailIsPath(m.groups, path, 1);
      PathDescends(m, path[1..]);
    }
  }

  lemma EdgeDescends(m: MemoState, g: nat, h: nat)
    requires Ranked(m) && Edge(m.groups, g, h)
    ensures h < |m.groups| && Depth(m.groups[h].origin) < Depth(m.groups[g].origin)
  {
    var x :| x in m.groups[g].expressions && h in x.childGroups;
    var n :| 0 <= n < |m.groups[g].expressions| && m.groups[g].expressions[n] == x;
    var j :| 0 <= j < |x.childGroups| && x.childGroups[j] == h;
    assert MemberRanked(m.groups, g, m.groups[g].expressions[n]);
    ChildrenAreShallower(x.expression);
  }

  // ---- Members that name the emptied group ----

  lemma MembersSurvive(m: MemoState, g1: nat, g2: nat, x: GroupExpression)
    requires g1 < |m.groups| && g2 < |m.groups| && g1 != g2 && IsMember(m, x)
    ensures IsMember(MergeGroups(m, g1, g2), x)
  {
    var g :| 0 <= g < |m.groups| && x in m.groups[g].expressions;
    var m' := MergeGroups(m, g1, g2);
    if g == g1 || g == g2 {
      assert x in m'.groups[g1].expressions;
    } else {
      assert x in m'.groups[g].expressions;
    }
  }

  /** A member whose child group was merged away is still a member, still names the emptied group, and
      never resolves: extraction drops that child. */
  lemma MergedAwayNeverResolves(m: MemoState, g1: nat, g2: nat, x: GroupExpression)
    requires Ranked(m) && g1 < |m.groups| && g2 < |m.groups| && g1 != g2
    requires Depth(m.groups[g1].origin) == Depth(m.groups[g2].origin)
    requires IsMember(m, x) && g2 in x.childGroups
    ensures var m' := MergeGroups(m, g1, g2);
            Ranked(m') && IsMember(m', x) && !Resolvable(m', x) && |Kept(ChildPlans(m', x))| < |x.childGroups|
  {
    hide Ranked, Resolvable, ChildPlans, Kept, IsMember;
    MergeKeepsRank(m, g1, g2);
    MembersSurvive(m, g1, g2, x);
    var j :| 0 <= j < |x.childGroups| && x.childGroups[j] == g2;
    ChildWithoutChoice(MergeGroups(m, g1, g2), x, j);
  }

  lemma ChildWithoutChoice(m: MemoState, x: GroupExpression, j: nat)
    requires Ranked(m) && IsMember(m, x) && j < |x.childGroups| && x.childGroups[j] < |m.groups|
    requires Choice(m.groups[x.childGroups[j]]) == None
    ensures !Resolvable(m, x) && |Kept(ChildPlans(m, x))| < |x.childGroups|
  {
    hide Ranked, IsMember, Choice;
    assert ChildChoice(m, x, j) == None;
    ExtractDropsUnresolved(m, x);
  }
}
