/**
 * Uniform-cost search: A* with a heuristic that is constantly zero, so the
 * frontier is ordered by path cost alone. Every operation forwards to the
 * wrapped A* strategy.
 */
module UniformCostSearch {
  import opened Wrappers
  import opened Problems
  import opened SearchNodes
  import opened Frontiers
  import opened GraphSearch
  import opened AStarSearch

  /**
   * The heuristic uniform-cost search hands to A*: zero for every node, so
   * the A* priority `CostPlusHeuristic` of a node is its path cost alone.
   */
  function ZeroHeuristic<S, A>(): (h: Node<S, A> -> nat)
  {
    (n: Node<S, A>) => 0
  }

  class UniformCost<S(==), A> {
    const aStar: AStar<S, A>

    /** The wrapped A* strategy runs with the zero heuristic. */
    ghost predicate Valid()
    {
      aStar.heuristic == ZeroHeuristic() && aStar.PriorityIsF()
    }

    constructor ()
      ensures Valid() && aStar.Fresh() && aStar.latestOptimalSolutionCost == None
    {
      aStar := new AStar(ZeroHeuristic());
    }

    /**
     * `solve` forwards to A*: a solution is legal, reaches a goal, and its
     * cost is recorded; none is returned iff no legal path reaches a goal,
     * and then the recorded cost is left as it was.
     */
    method Solve(p: Problem<S, A>, ghost universe: set<S>) returns (r: Option<seq<A>>)
      requires Valid() && aStar.Fresh() && p.initial in universe && ClosedUnder(p, universe)
      modifies aStar
      ensures Valid()
      ensures r.Some? ==> Legal(p, p.initial, r.value) && p.isGoal(Run(p, p.initial, r.value))
                          && aStar.latestOptimalSolutionCost == Some(PathCost(p, p.initial, r.value))
      ensures r.None? <==> forall path: seq<A> | Legal(p, p.initial, path) :: !p.isGoal(Run(p, p.initial, path))
      ensures r.None? ==> aStar.latestOptimalSolutionCost == old(aStar.latestOptimalSolutionCost)
      ensures p.isGoal(p.initial) ==> r == Some([]) && aStar.latestOptimalSolutionCost == Some(0)
    {
      r := aStar.Solve(p, universe);
    }

    /** `reset` forwards to A*: empty frontier and explored set, no recorded cost. */
    method Reset()
      requires Valid()
      modifies aStar
      ensures Valid() && aStar.Fresh() && aStar.latestOptimalSolutionCost == None
    {
      aStar.Reset();
    }

    /** `getOptimalSolutionCost` forwards to A*. */
    method GetOptimalSolutionCost() returns (c: Option<nat>)
      ensures c == aStar.latestOptimalSolutionCost
    {
      c := aStar.GetOptimalSolutionCost();
    }
  }
}
