/**
 * Depth-limited search: a recursive tree search that expands a node's
 * children only while the remaining limit is positive, and reports whether
 * the limit pruned the search (cutoff) apart from whether a solution was
 * found.
 */
module DepthLimitedSearch {
  import opened Wrappers
  import opened Problems
  import opened SearchNodes

  /** recursiveDLS's result pair `(actions?, cutoff)`. */
  datatype DlsOutcome<A> = DlsOutcome(actions: Option<seq<A>>, cutoff: bool)

  /**
   * What recursiveDLS returns for `n` with `limit` levels left: the goal
   * test comes first, then the limit, then the children in the order the
   * problem lists their actions.
   */
  function Dls<S, A>(p: Problem<S, A>, n: Node<S, A>, limit: nat): (r: DlsOutcome<A>)
    ensures !(r.actions.Some? && r.cutoff)
    ensures p.isGoal(n.state) ==> r == DlsOutcome(Some(PathOf(n)), false)
    ensures !p.isGoal(n.state) && limit == 0 ==> r == DlsOutcome(None, true)
    decreases limit, |p.actions(n.state)| + 1
  {
    if p.isGoal(n.state) then DlsOutcome(Some(PathOf(n)), false)
    else if limit == 0 then DlsOutcome(None, true)
    else DlsChildren(p, n, p.actions(n.state), 0, limit, false)
  }

  /**
   * The loop over the children `acts[i..]` of `n`, `cutoff` being the flag
   * accumulated over the children before `i`: a child that reports cutoff
   * sets the flag, the first child that reports a solution is returned at
   * once, and after the last child the flag is returned with no actions.
   */
  function DlsChildren<S, A>(p: Problem<S, A>, n: Node<S, A>, acts: seq<A>, i: nat, limit: nat, cutoff: bool)
    : (r: DlsOutcome<A>)
    requires i <= |acts| && limit > 0
    ensures !(r.actions.Some? && r.cutoff)
    decreases limit, |acts| - i
  {
    if i == |acts| then DlsOutcome(None, cutoff)
    else
      var result := Dls(p, MakeNode(p, n, acts[i]), limit - 1);
      if result.cutoff then DlsChildren(p, n, acts, i + 1, limit, true)
      else if result.actions.Some? then result
      else DlsChildren(p, n, acts, i + 1, limit, cutoff)
  }

  /**
   * DLS is exact about its three outcomes: it finds a solution iff a goal
   * lies within `limit` actions of the node, and it reports cutoff iff it
   * finds none although some branch reaches the full depth `limit` (so the
   * limit, not the absence of a goal, ended the search).
   */
  lemma {:induction false} DlsExact<S, A>(p: Problem<S, A>, n: Node<S, A>, limit: nat)
    ensures Dls(p, n, limit).actions.Some? <==> GoalWithin(p, n.state, limit)
    ensures Dls(p, n, limit).cutoff <==> !GoalWithin(p, n.state, limit) && Reaches(p, n.state, limit)
    decreases limit, |p.actions(n.state)| + 1
  {
    if !p.isGoal(n.state) && limit > 0 {
      var acts := p.actions(n.state);
      DlsChildrenExact(p, n, acts, 0, limit, false);
      assert (exists j | 0 <= j < |acts| :: GoalWithin(p, p.result(acts[j], n.state), limit - 1))
             <==> (exists a | a in acts :: GoalWithin(p, p.result(a, n.state), limit - 1)) by {
        if exists a | a in acts :: GoalWithin(p, p.result(a, n.state), limit - 1) {
          var a :| a in acts && GoalWithin(p, p.result(a, n.state), limit - 1);
          var j :| 0 <= j < |acts| && acts[j] == a;
        }
      }
      assert (exists j | 0 <= j < |acts| :: Reaches(p, p.result(acts[j], n.state), limit - 1))
             <==> (exists a | a in acts :: Reaches(p, p.result(a, n.state), limit - 1)) by {
        if exists a | a in acts :: Reaches(p, p.result(a, n.state), limit - 1) {
          var a :| a in acts && Reaches(p, p.result(a, n.state), limit - 1);
          var j :| 0 <= j < |acts| && acts[j] == a;
        }
      }
    }
  }

  /** The loop over the children: a solution iff some remaining child has a goal within reach. */
  lemma {:induction false} DlsChildrenExact<S, A>(
    p: Problem<S, A>, n: Node<S, A>, acts: seq<A>, i: nat, limit: nat, cutoff: bool)
    requires i <= |acts| && limit > 0
    ensures DlsChildren(p, n, acts, i, limit, cutoff).actions.Some?
            <==> exists j | i <= j < |acts| :: GoalWithin(p, p.result(acts[j], n.state), limit - 1)
    ensures DlsChildren(p, n, acts, i, limit, cutoff).cutoff
            <==> (forall j | i <= j < |acts| :: !GoalWithin(p, p.result(acts[j], n.state), limit - 1))
                 && (cutoff || exists j | i <= j < |acts| :: Reaches(p, p.result(acts[j], n.state), limit - 1))
    decreases limit, |acts| - i
  {
    if i < |acts| {
      var child := MakeNode(p, n, acts[i]);
      DlsExact(p, child, limit - 1);
      var result := Dls(p, child, limit - 1);
      if result.cutoff {
        DlsChildrenExact(p, n, acts, i + 1, limit, true);
      } else if result.actions.Some? {
      } else {
        DlsChildrenExact(p, n, acts, i + 1, limit, cutoff);
      }
    }
  }

  /**
   * A solution DLS returns for `n` extends `n`'s own path by at most `limit`
   * actions, legal from `n`'s state, that lead to a goal.
   */
  lemma {:induction false} DlsSolutionSound<S, A>(p: Problem<S, A>, n: Node<S, A>, limit: nat)
    requires Dls(p, n, limit).actions.Some?
    ensures var path := Dls(p, n, limit).actions.value;
            |PathOf(n)| <= |path| && path[..|PathOf(n)|] == PathOf(n)
            && var ext := path[|PathOf(n)|..];
               |ext| <= limit && Legal(p, n.state, ext) && p.isGoal(Run(p, n.state, ext))
    decreases limit, |p.actions(n.state)| + 1
  {
    var path := Dls(p, n, limit).actions.value;
    if p.isGoal(n.state) {
      assert path[|PathOf(n)|..] == [];
    } else {
      DlsChildrenSound(p, n, p.actions(n.state), 0, limit, false);
    }
  }

  lemma {:induction false} DlsChildrenSound<S, A>(
    p: Problem<S, A>, n: Node<S, A>, acts: seq<A>, i: nat, limit: nat, cutoff: bool)
    requires i <= |acts| && limit > 0 && acts == p.actions(n.state)
    requires DlsChildren(p, n, acts, i, limit, cutoff).actions.Some?
    ensures var path := DlsChildren(p, n, acts, i, limit, cutoff).actions.value;
            |PathOf(n)| <= |path| && path[..|PathOf(n)|] == PathOf(n)
            && var ext := path[|PathOf(n)|..];
               |ext| <= limit && Legal(p, n.state, ext) && p.isGoal(Run(p, n.state, ext))
    decreases limit, |acts| - i
  {
    var child := MakeNode(p, n, acts[i]);
    var result := Dls(p, child, limit - 1);
    if result.cutoff {
      DlsChildrenSound(p, n, acts, i + 1, limit, true);
    } else if result.actions.Some? {
      DlsSolutionSound(p, child, limit - 1);
      var path := result.actions.value;
      var k := |PathOf(n)|;
      var childExt := path[k + 1..];
      assert PathOf(child) == PathOf(n) + [acts[i]];
      assert path[..k] == PathOf(n) by {
        assert path[..k] == path[..k + 1][..k];
      }
      assert path[k..] == [acts[i]] + childExt;
      var ext := path[k..];
      assert ext[0] == acts[i] && ext[1..] == childExt;
      assert acts[i] in p.actions(n.state);
    } else {
      DlsChildrenSound(p, n, acts, i + 1, limit, cutoff);
    }
  }

  /**
   * The first child whose search returns a solution decides the result:
   * its outcome is returned unchanged and the later actions do not matter.
   */
  lemma {:induction false} FirstSolvedChildWins<S, A>(
    p: Problem<S, A>, n: Node<S, A>, acts: seq<A>, i: nat, limit: nat, cutoff: bool, k: nat)
    requires i <= k < |acts| && limit > 0
    requires Dls(p, MakeNode(p, n, acts[k]), limit - 1).actions.Some?
    requires forall j | i <= j < k :: Dls(p, MakeNode(p, n, acts[j]), limit - 1).actions.None?
    ensures DlsChildren(p, n, acts, i, limit, cutoff) == Dls(p, MakeNode(p, n, acts[k]), limit - 1)
    decreases k - i
  {
    if i < k {
      var result := Dls(p, MakeNode(p, n, acts[i]), limit - 1);
      FirstSolvedChildWins(p, n, acts, i + 1, limit, result.cutoff || cutoff, k);
    }
  }

  /**
   * When no child finds a solution, the result carries no actions, and its
   * cutoff flag is set iff the incoming flag was or some child reported cutoff.
   */
  lemma {:induction false} NoSolvedChild<S, A>(
    p: Problem<S, A>, n: Node<S, A>, acts: seq<A>, i: nat, limit: nat, cutoff: bool)
    requires i <= |acts| && limit > 0
    requires forall j | i <= j < |acts| :: Dls(p, MakeNode(p, n, acts[j]), limit - 1).actions.None?
    ensures DlsChildren(p, n, acts, i, limit, cutoff)
            == DlsOutcome(None, cutoff || exists j | i <= j < |acts| :: Dls(p, MakeNode(p, n, acts[j]), limit - 1).cutoff)
    decreases |acts| - i
  {
    if i < |acts| {
      var result := Dls(p, MakeNode(p, n, acts[i]), limit - 1);
      NoSolvedChild(p, n, acts, i + 1, limit, result.cutoff || cutoff);
    }
  }

  /**
   * recursiveDLS: goal test, then the limit test, then a loop over the
   * children that records cutoff and returns the first solution found.
   */
  method RecursiveDls<S, A>(p: Problem<S, A>, node: Node<S, A>, limit: nat) returns (r: DlsOutcome<A>)
    ensures r == Dls(p, node, limit)
    decreases limit
  {
    if p.isGoal(node.state) {
      var solution := ReconstructPath(node);
      return DlsOutcome(Some(solution), false);
    }
    if limit == 0 {
      return DlsOutcome(None, true);
    }
    var cutoff := false;
    var allActions := p.actions(node.state);
    for i := 0 to |allActions|
      invariant DlsChildren(p, node, allActions, i, limit, cutoff) == Dls(p, node, limit)
    {
      var childNode := MakeNode(p, node, allActions[i]);
      var result := RecursiveDls(p, childNode, limit - 1);
      if result.cutoff {
        cutoff := true;
      } else if result.actions.Some? {
        return result;
      }
    }
    if cutoff {
      return DlsOutcome(None, true);
    } else {
      return DlsOutcome(None, false);
    }
  }

  /** The actions DLS with `limit` returns for the root of the initial state. */
  function DlsSolution<S, A>(p: Problem<S, A>, limit: nat): Option<seq<A>>
  {
    Dls(p, MakeRootNode(p.initial), limit).actions
  }

  /**
   * What `DLS(limit).solve` returns: a solution iff a goal lies within
   * `limit` actions of the initial state; such a solution is legal, has at
   * most `limit` actions and reaches a goal.
   */
  lemma DlsSolutionSpec<S, A>(p: Problem<S, A>, limit: nat)
    ensures DlsSolution(p, limit).Some? <==> GoalWithin(p, p.initial, limit)
    ensures DlsSolution(p, limit).Some? ==>
              var path := DlsSolution(p, limit).value;
              |path| <= limit && Legal(p, p.initial, path) && p.isGoal(Run(p, p.initial, path))
  {
    var root: Node<S, A> := MakeRootNode(p.initial);
    DlsExact(p, root, limit);
    if DlsSolution(p, limit).Some? {
      DlsSolutionSound(p, root, limit);
      var path := DlsSolution(p, limit).value;
      assert path[|PathOf(root)|..] == path;
    }
  }

  /** The DLS strategy: a fixed depth limit and nothing else. */
  class DepthLimited<S, A> {
    const limit: int

    constructor (limit: int)
      ensures this.limit == limit
    {
      this.limit := limit;
    }

    /** `solve`: DLS from the root of the initial state, keeping only the actions. */
    method Solve(p: Problem<S, A>) returns (r: Option<seq<A>>)
      requires limit >= 0
      ensures r == DlsSolution(p, limit)
      ensures r.Some? <==> GoalWithin(p, p.initial, limit)
      ensures r.Some? ==> |r.value| <= limit && Legal(p, p.initial, r.value)
                          && p.isGoal(Run(p, p.initial, r.value))
    {
      var rootState := p.initial;
      var rootNode := MakeRootNode(rootState);
      var result := RecursiveDls(p, rootNode, limit);
      DlsSolutionSpec(p, limit);
      r := result.actions;
    }
  }
}
