/**
 * Iterative deepening: depth-limited search with limits 0, 1, 2, ... below
 * the strategy's own limit, returning the first solution found.
 */
module IterativeDeepeningSearch {
  import opened Wrappers
  import opened Problems
  import opened DepthLimitedSearch

  /** Swift's `Int.max`, the default limit. */
  const IntMax: int := 0x7FFF_FFFF_FFFF_FFFF

  class IterativeDeepening<S, A> {
    const limit: int

    constructor (limit: int)
      ensures this.limit == limit
    {
      this.limit := limit;
    }

    /** The strategy built without an explicit limit. */
    constructor Unbounded()
      ensures limit == IntMax
    {
      limit := IntMax;
    }

    /**
     * `solve`: the first solution of DLS(0), DLS(1), ..., DLS(limit - 1).
     * That solution is legal, reaches a goal, and has exactly as many actions
     * as the limit that found it, so no legal path to a goal is shorter. No
     * solution is returned iff no goal lies within `limit - 1` actions.
     */
    method Solve(p: Problem<S, A>) returns (r: Option<seq<A>>)
      requires limit >= 0
      ensures r.Some? ==> exists i | 0 <= i < limit ::
                            r == DlsSolution(p, i) && forall j | 0 <= j < i :: DlsSolution(p, j).None?
      ensures r.None? <==> (limit == 0 || !GoalWithin(p, p.initial, limit - 1))
      ensures r.Some? ==> Legal(p, p.initial, r.value) && p.isGoal(Run(p, p.initial, r.value))
      ensures r.Some? ==> forall path: seq<A> | Legal(p, p.initial, path) && p.isGoal(Run(p, p.initial, path)) ::
                            |r.value| <= |path|
    {
      for i := 0 to limit
        invariant forall j | 0 <= j < i :: DlsSolution(p, j).None?
      {
        var dls := new DepthLimited<S, A>(i);
        var result := dls.Solve(p);
        if result.Some? {
          r := result;
          DlsSolutionSpec(p, i);
          ShortestAmongSolutions(p, i, r.value);
          GoalWithinMonotone(p, p.initial, i, limit - 1);
          return;
        }
      }
      r := None;
      AllSmallerLimitsFail(p, limit);
    }
  }

  /**
   * When DLS(i) is the first limit that finds `sol`, no legal path to a goal
   * is shorter than `sol`.
   */
  lemma ShortestAmongSolutions<S, A>(p: Problem<S, A>, i: nat, sol: seq<A>)
    requires DlsSolution(p, i) == Some(sol)
    requires forall j | 0 <= j < i :: DlsSolution(p, j).None?
    ensures forall path: seq<A> | Legal(p, p.initial, path) && p.isGoal(Run(p, p.initial, path)) ::
              |sol| <= |path|
  {
    DlsSolutionSpec(p, i);
    forall path: seq<A> | Legal(p, p.initial, path) && p.isGoal(Run(p, p.initial, path))
      ensures |sol| <= |path|
    {
      LegalGoalWithin(p, p.initial, path);
      if |path| < i {
        DlsSolutionSpec(p, |path|);
      }
    }
  }

  /**
   * The limit that succeeds is the length of the solution: DLS(i) returns a
   * path of exactly `i` actions when every smaller limit failed.
   */
  lemma FirstSolutionLength<S, A>(p: Problem<S, A>, i: nat, sol: seq<A>)
    requires DlsSolution(p, i) == Some(sol)
    requires forall j | 0 <= j < i :: DlsSolution(p, j).None?
    ensures |sol| == i
  {
    DlsSolutionSpec(p, i);
    LegalGoalWithin(p, p.initial, sol);
    if |sol| < i {
      DlsSolutionSpec(p, |sol|);
    }
  }

  /** Every smaller limit fails exactly when no goal lies within `i - 1` actions. */
  lemma AllSmallerLimitsFail<S, A>(p: Problem<S, A>, i: nat)
    ensures (forall j | 0 <= j < i :: DlsSolution(p, j).None?)
            <==> (i == 0 || !GoalWithin(p, p.initial, i - 1))
  {
    if i > 0 {
      if !GoalWithin(p, p.initial, i - 1) {
        forall j | 0 <= j < i ensures DlsSolution(p, j).None? {
          DlsSolutionSpec(p, j);
          if GoalWithin(p, p.initial, j) {
            GoalWithinMonotone(p, p.initial, j, i - 1);
          }
        }
      } else {
        DlsSolutionSpec(p, i - 1);
      }
    }
  }
}
