/**
 * Facts shared by the three graph searches (BFS, DFS, A*): a set of states
 * closed under the problem's transitions contains every state a legal path
 * reaches, and the bookkeeping that makes each search terminate on a finite
 * state space.
 */
module GraphSearch {
  import opened Wrappers
  import opened Problems
  import opened SearchNodes
  import opened Frontiers

  /** Every successor of `t` lies in `seen`. */
  ghost predicate SuccessorsIn<S, A>(p: Problem<S, A>, t: S, seen: set<S>)
  {
    forall a | a in p.actions(t) :: p.result(a, t) in seen
  }

  /** No successor of `t` is a goal. */
  ghost predicate SuccessorsNonGoal<S, A>(p: Problem<S, A>, t: S)
  {
    forall a | a in p.actions(t) :: !p.isGoal(p.result(a, t))
  }

  /** `u` holds every successor of each of its states. */
  ghost predicate ClosedUnder<S, A>(p: Problem<S, A>, u: set<S>)
  {
    forall t | t in u :: SuccessorsIn(p, t, u)
  }

  /** The sequence lists no value twice. */
  ghost predicate NoDuplicates<T>(s: seq<T>)
  {
    forall i, j | 0 <= i < j < |s| :: s[i] != s[j]
  }

  /** The values a sequence lists. */
  ghost function Elems<T>(s: seq<T>): set<T>
  {
    set x | x in s
  }

  /** A legal path from a state of a closed set stays inside the set. */
  lemma {:induction false} ClosedReach<S, A>(p: Problem<S, A>, u: set<S>, s: S, path: seq<A>)
    requires ClosedUnder(p, u) && s in u && Legal(p, s, path)
    ensures Run(p, s, path) in u
    decreases |path|
  {
    if path != [] {
      assert SuccessorsIn(p, s, u);
      ClosedReach(p, u, p.result(path[0], s), path[1..]);
    }
  }

  /**
   * When no state of a closed set has a goal successor, no legal path of
   * at least one action from a state of the set ends in a goal.
   */
  lemma {:induction false} NoGoalBeyond<S, A>(p: Problem<S, A>, u: set<S>, s: S, path: seq<A>)
    requires ClosedUnder(p, u) && (forall t | t in u :: SuccessorsNonGoal(p, t))
    requires s in u && Legal(p, s, path) && |path| >= 1
    ensures !p.isGoal(Run(p, s, path))
    decreases |path|
  {
    assert SuccessorsIn(p, s, u) && SuccessorsNonGoal(p, s);
    if |path| > 1 {
      NoGoalBeyond(p, u, p.result(path[0], s), path[1..]);
    }
  }

  /** A set of successors known to lie in `x` lies in any superset of `x`. */
  lemma SuccessorsInGrows<S, A>(p: Problem<S, A>, t: S, x: set<S>, y: set<S>)
    requires SuccessorsIn(p, t, x) && x <= y
    ensures SuccessorsIn(p, t, y)
  {
  }

  /** Adding a new state of `u` to `x` shrinks what is left of `u`. */
  lemma SetDiffShrinks<S>(u: set<S>, x: set<S>, s: S)
    requires s in u && s !in x
    ensures |u - (x + {s})| < |u - x|
  {
    assert u - (x + {s}) == (u - x) - {s};
  }

  /**
   * The frontier bookkeeping of a run: every frontier node was generated
   * from the initial state by legal actions and lies in `u`, explored states
   * lie in `u`, no state is twice on the frontier and none is both explored
   * and on the frontier.
   */
  ghost predicate FrontierInv<S, A>(p: Problem<S, A>, u: set<S>, f: seq<Node<S, A>>, e: set<S>)
  {
    TreeNodesIn(p, u, f) && e <= u && DistinctStates(f) && e !! States(f)
  }

  /** Every node of `f` is a search-tree node whose state lies in `u`. */
  ghost predicate TreeNodesIn<S, A>(p: Problem<S, A>, u: set<S>, f: seq<Node<S, A>>)
    decreases |f|
  {
    f == [] || (TreeNodesIn(p, u, f[..|f| - 1]) && SearchTreeNode(p, f[|f| - 1]) && f[|f| - 1].state in u)
  }

  lemma {:induction false} TreeNodesInAll<S, A>(p: Problem<S, A>, u: set<S>, f: seq<Node<S, A>>)
    ensures TreeNodesIn(p, u, f) <==> forall m | m in f :: SearchTreeNode(p, m) && m.state in u
    decreases |f|
  {
    if f != [] {
      var g := f[..|f| - 1];
      TreeNodesInAll(p, u, g);
      assert f == g + [f[|f| - 1]];
    }
  }

  /** The admission log lists each state once: exactly the explored ones and those on the frontier. */
  ghost predicate AdmittedLog<S, A>(log: seq<S>, f: seq<Node<S, A>>, e: set<S>)
  {
    NoDuplicates(log) && Elems(log) == e + States(f)
  }

  /** Every state of `x` has all its successors in `seen`. */
  ghost predicate Expanded<S, A>(p: Problem<S, A>, x: set<S>, seen: set<S>)
  {
    forall t | t in x :: SuccessorsIn(p, t, seen)
  }

  lemma ExpandedGrows<S, A>(p: Problem<S, A>, x: set<S>, seen: set<S>, seen': set<S>)
    requires Expanded(p, x, seen) && seen <= seen'
    ensures Expanded(p, x, seen')
  {
    forall t | t in x ensures SuccessorsIn(p, t, seen') {
      SuccessorsInGrows(p, t, seen, seen');
    }
  }

  /**
   * Taking the node at `k` off the frontier and marking its state explored
   * keeps the bookkeeping: the state was neither explored before nor left on
   * the frontier, so the states seen so far are unchanged and the explored
   * set grows by one state of `u`.
   */
  lemma PopStep<S, A>(p: Problem<S, A>, u: set<S>, f: seq<Node<S, A>>, e: set<S>, k: nat)
    requires FrontierInv(p, u, f, e) && k < |f|
    ensures f[k].state !in e && f[k].state in u && SearchTreeNode(p, f[k])
    ensures FrontierInv(p, u, RemoveAt(f, k), e + {f[k].state}) && FrontierInv(p, u, RemoveAt(f, k), e)
    ensures (e + {f[k].state}) + States(RemoveAt(f, k)) == e + States(f)
  {
    TreeNodesInAll(p, u, f);
    TreeNodesInAll(p, u, RemoveAt(f, k));
    assert f[k] in f;
    StatesHeld(f);
  }

  /** Pushing a node whose state is new keeps the bookkeeping and the log. */
  lemma AdmitStep<S, A>(p: Problem<S, A>, u: set<S>, f: seq<Node<S, A>>, e: set<S>, log: seq<S>, c: Node<S, A>)
    requires FrontierInv(p, u, f, e) && AdmittedLog(log, f, e)
    requires SearchTreeNode(p, c) && c.state in u && c.state !in e && c.state !in States(f)
    ensures FrontierInv(p, u, Push(f, c), e) && AdmittedLog(log + [c.state], Push(f, c), e)
    ensures e + States(Push(f, c)) == e + States(f) + {c.state}
  {
    PushStep(p, u, f, e, c);
    assert c.state !in Elems(log);
    assert Elems(log + [c.state]) == Elems(log) + {c.state};
  }

  /** Pushing a node whose state is new keeps the bookkeeping. */
  lemma PushStep<S, A>(p: Problem<S, A>, u: set<S>, f: seq<Node<S, A>>, e: set<S>, c: Node<S, A>)
    requires FrontierInv(p, u, f, e)
    requires SearchTreeNode(p, c) && c.state in u && c.state !in e && c.state !in States(f)
    ensures FrontierInv(p, u, Push(f, c), e)
    ensures e + States(Push(f, c)) == e + States(f) + {c.state}
  {
    TreeNodesInAll(p, u, f);
    TreeNodesInAll(p, u, Push(f, c));
  }

  /**
   * pushIfBetter with a node whose state is already on the frontier keeps
   * the bookkeeping and the set of states seen.
   */
  lemma ReplaceStep<S, A>(p: Problem<S, A>, u: set<S>, f: seq<Node<S, A>>, e: set<S>, c: Node<S, A>,
                              priority: Node<S, A> -> nat)
    requires FrontierInv(p, u, f, e) && SearchTreeNode(p, c) && c.state in States(f)
    ensures FrontierInv(p, u, PushIfBetter(f, c, priority), e)
    ensures e + States(PushIfBetter(f, c, priority)) == e + States(f)
  {
    var g := PushIfBetter(f, c, priority);
    TreeNodesInAll(p, u, f);
    TreeNodesInAll(p, u, g);
    StatesHeld(f);
    forall m | m in g ensures SearchTreeNode(p, m) && m.state in u {
      if m != c {
        assert m in f;
      } else {
        var i :| 0 <= i < |f| && f[i].state == c.state;
        assert f[i] in f;
      }
    }
  }

  /** The successors of `s` by the actions `acts` lie in `seen`. */
  ghost predicate ResultsIn<S, A>(p: Problem<S, A>, s: S, acts: seq<A>, seen: set<S>)
  {
    forall a | a in acts :: p.result(a, s) in seen
  }

  /** No successor of `s` by the actions `acts` is a goal. */
  ghost predicate ResultsNonGoal<S, A>(p: Problem<S, A>, s: S, acts: seq<A>)
  {
    forall a | a in acts :: !p.isGoal(p.result(a, s))
  }

  /** One more generated child, now seen, extends ResultsIn. */
  lemma ResultsInSnoc<S, A>(p: Problem<S, A>, s: S, acts: seq<A>, a: A, seen: set<S>, seen': set<S>)
    requires ResultsIn(p, s, acts, seen) && seen <= seen' && p.result(a, s) in seen'
    ensures ResultsIn(p, s, acts + [a], seen')
  {
  }

  /** One more generated child that is not a goal extends ResultsNonGoal. */
  lemma ResultsNonGoalSnoc<S, A>(p: Problem<S, A>, s: S, acts: seq<A>, a: A)
    requires ResultsNonGoal(p, s, acts) && !p.isGoal(p.result(a, s))
    ensures ResultsNonGoal(p, s, acts + [a])
  {
  }

  /** The prefix of `i + 1` elements is the prefix of `i` followed by element `i`. */
  lemma PrefixSnoc<T>(s: seq<T>, i: nat)
    requires i < |s|
    ensures s[..i + 1] == s[..i] + [s[i]]
  {
  }

  /**
   * When the frontier is exhausted, the explored states hold all their
   * successors; if none of them is a goal, no legal path from an explored
   * state reaches a goal.
   */
  lemma ExhaustedNoGoal<S, A>(p: Problem<S, A>, e: set<S>, s: S)
    requires Expanded(p, e, e) && s in e && forall t | t in e :: !p.isGoal(t)
    ensures forall path: seq<A> | Legal(p, s, path) :: !p.isGoal(Run(p, s, path))
  {
    forall path: seq<A> | Legal(p, s, path) ensures !p.isGoal(Run(p, s, path)) {
      ClosedReach(p, e, s, path);
    }
  }

  /**
   * When the frontier is exhausted and no explored state has a goal
   * successor, no legal path of one action or more from an explored state
   * reaches a goal.
   */
  lemma ExhaustedNoGoalBeyond<S, A>(p: Problem<S, A>, e: set<S>, s: S)
    requires Expanded(p, e, e) && s in e && forall t | t in e :: SuccessorsNonGoal(p, t)
    ensures forall path: seq<A> | Legal(p, s, path) && |path| >= 1 :: !p.isGoal(Run(p, s, path))
  {
    forall path: seq<A> | Legal(p, s, path) && |path| >= 1 ensures !p.isGoal(Run(p, s, path)) {
      NoGoalBeyond(p, e, s, path);
    }
  }

  /** An empty frontier holds no states. */
  lemma EmptyFrontier<S, A>(f: seq<Node<S, A>>)
    requires f == []
    ensures States(f) == {}
  {
  }

  /**
   * The frontier the loop over the actions `acts` of `n` leaves behind in
   * BFS and DFS, starting from `f`: each child, in action order, is pushed
   * when its state is neither in `e` nor already on the frontier, and is
   * dropped otherwise.
   */
  ghost function PushNewChildren<S, A>(p: Problem<S, A>, n: Node<S, A>, acts: seq<A>, e: set<S>, f: seq<Node<S, A>>)
    : seq<Node<S, A>>
    decreases |acts|
  {
    if acts == [] then f
    else
      var g := PushNewChildren(p, n, acts[..|acts| - 1], e, f);
      var c := MakeNode(p, n, acts[|acts| - 1]);
      if c.state !in e && c.state !in States(g) then Push(g, c) else g
  }

  /** One more action of the loop: PushNewChildren over a prefix one longer. */
  lemma PushNewChildrenSnoc<S, A>(p: Problem<S, A>, n: Node<S, A>, acts: seq<A>, i: nat, e: set<S>, f: seq<Node<S, A>>)
    requires i < |acts|
    ensures var g := PushNewChildren(p, n, acts[..i], e, f);
            var c := MakeNode(p, n, acts[i]);
            PushNewChildren(p, n, acts[..i + 1], e, f)
            == if c.state !in e && c.state !in States(g) then Push(g, c) else g
  {
    assert acts[..i + 1][..i] == acts[..i];
  }

  /**
   * What the loop of BFS and DFS does to the frontier: the old frontier is
   * kept, in order, in front; behind it come at most one node per action,
   * each a child of `n` whose state was in neither `e` nor the old frontier,
   * no two with the same state; and afterwards every successor of `n` by
   * `acts` is in `e` or on the frontier.
   */
  lemma {:induction false} PushNewChildrenShape<S, A>(p: Problem<S, A>, n: Node<S, A>, acts: seq<A>, e: set<S>,
                                                      f: seq<Node<S, A>>)
    ensures var r := PushNewChildren(p, n, acts, e, f);
            |f| <= |r| <= |f| + |acts| && r[..|f|] == f && States(f) <= States(r)
            && (forall m | m in r[|f|..] :: m.parent == Some(n) && m.state !in e && m.state !in States(f))
            && (DistinctStates(f) ==> DistinctStates(r))
            && (forall a | a in acts :: p.result(a, n.state) in e + States(r))
    decreases |acts|
  {
    if acts != [] {
      var init := acts[..|acts| - 1];
      var g := PushNewChildren(p, n, init, e, f);
      var c := MakeNode(p, n, acts[|acts| - 1]);
      PushNewChildrenShape(p, n, init, e, f);
      assert acts == init + [acts[|acts| - 1]];
      if c.state !in e && c.state !in States(g) {
        var r := Push(g, c);
        assert r[..|f|] == g[..|f|];
        assert r[|f|..] == g[|f|..] + [c];
      }
    }
  }
}
