/**
 * A* graph search: a min-priority frontier keyed by path cost plus a
 * heuristic estimate, an explored set, a goal test when a node is taken off
 * the frontier, and the cost of the last solution found.
 */
module AStarSearch {
  import opened Wrappers
  import opened Problems
  import opened SearchNodes
  import opened Frontiers
  import opened GraphSearch

  /**
   * The frontier priority A* builds from a heuristic: a node is keyed by its
   * path cost plus the heuristic's estimate for it, so the node taken next
   * is one whose cost-so-far plus estimated cost-to-go is least.
   */
  function CostPlusHeuristic<S, A>(heuristic: Node<S, A> -> nat): (f: Node<S, A> -> nat)
  {
    (n: Node<S, A>) => n.cost + heuristic(n)
  }

  /**
   * The frontier the loop of A* over the actions `acts` of `n` leaves
   * behind, starting from `f`: each child, in action order, is pushed when
   * its state is neither in `e` nor on the frontier, goes to pushIfBetter
   * when its state is on the frontier, and is dropped when its state is in
   * `e` only.
   */
  ghost function HandChildren<S, A>(p: Problem<S, A>, n: Node<S, A>, acts: seq<A>, e: set<S>, f: seq<Node<S, A>>,
                                    priority: Node<S, A> -> nat): seq<Node<S, A>>
    decreases |acts|
  {
    if acts == [] then f
    else
      var g := HandChildren(p, n, acts[..|acts| - 1], e, f, priority);
      var c := MakeNode(p, n, acts[|acts| - 1]);
      if c.state !in e && c.state !in States(g) then Push(g, c)
      else if c.state in States(g) then PushIfBetter(g, c, priority)
      else g
  }

  /** One more action of the loop: HandChildren over a prefix one longer. */
  lemma HandChildrenSnoc<S, A>(p: Problem<S, A>, n: Node<S, A>, acts: seq<A>, i: nat, e: set<S>, f: seq<Node<S, A>>,
                               priority: Node<S, A> -> nat)
    requires i < |acts|
    ensures var g := HandChildren(p, n, acts[..i], e, f, priority);
            var c := MakeNode(p, n, acts[i]);
            HandChildren(p, n, acts[..i + 1], e, f, priority)
            == if c.state !in e && c.state !in States(g) then Push(g, c)
               else if c.state in States(g) then PushIfBetter(g, c, priority)
               else g
  {
    assert acts[..i + 1][..i] == acts[..i];
  }

  /**
   * What the loop of A* does to a frontier with distinct states: the states
   * stay distinct, no state leaves and none of `e` joins, the only nodes
   * added are children of `n`, and afterwards every successor of `n` by
   * `acts` is in `e` or on the frontier.
   */
  lemma {:induction false} HandChildrenShape<S, A>(p: Problem<S, A>, n: Node<S, A>, acts: seq<A>, e: set<S>,
                                                   f: seq<Node<S, A>>, priority: Node<S, A> -> nat)
    requires DistinctStates(f)
    ensures var r := HandChildren(p, n, acts, e, f, priority);
            DistinctStates(r) && States(f) <= States(r) && (States(r) - States(f)) !! e
            && (forall m | m in r :: m in f || m.parent == Some(n))
            && (forall a | a in acts :: p.result(a, n.state) in e + States(r))
    decreases |acts|
  {
    if acts != [] {
      var init := acts[..|acts| - 1];
      var last := acts[|acts| - 1];
      var g := HandChildren(p, n, init, e, f, priority);
      var c := MakeNode(p, n, last);
      var r := HandChildren(p, n, acts, e, f, priority);
      HandChildrenShape(p, n, init, e, f, priority);
      if c.state !in e && c.state !in States(g) {
        assert r == Push(g, c);
      } else if c.state in States(g) {
        assert r == PushIfBetter(g, c, priority);
      } else {
        assert r == g;
      }
      assert States(r) == States(g) + {c.state} || States(r) == States(g);
      forall a | a in acts ensures p.result(a, n.state) in e + States(r) {
        if a != last {
          assert a in init;
        }
      }
    }
  }

  class AStar<S(==), A> {
    var frontier: seq<Node<S, A>>   // MinPQFrontier: `next` takes a node of least priority
    var explored: set<S>
    const heuristic: Node<S, A> -> nat
    /**
     * The priority the frontier orders its nodes by: the closure the
     * frontier is built with, the same one after every reset.
     */
    const priority: Node<S, A> -> nat
    var latestOptimalSolutionCost: Option<nat>

    /** The frontier is keyed by path cost plus the heuristic's estimate. */
    ghost predicate PriorityIsF()
    {
      priority == CostPlusHeuristic(heuristic)
    }

    /** The state of a new strategy, or of one just reset. */
    ghost predicate Fresh()
      reads this
    {
      frontier == [] && explored == {}
    }

    constructor (heuristic: Node<S, A> -> nat)
      ensures this.heuristic == heuristic && PriorityIsF()
      ensures Fresh() && latestOptimalSolutionCost == None
    {
      this.heuristic := heuristic;
      frontier := [];
      explored := {};
      priority := CostPlusHeuristic(heuristic);
      latestOptimalSolutionCost := None;
    }

    /**
     * `reset`: a new frontier keyed by the same priority, an empty explored
     * set, and no recorded cost.
     */
    method Reset()
      modifies this
      ensures Fresh() && latestOptimalSolutionCost == None
    {
      frontier := [];
      explored := {};
      latestOptimalSolutionCost := None;
    }

    /** `getOptimalSolutionCost`: the cost recorded by the last successful `solve`. */
    method GetOptimalSolutionCost() returns (c: Option<nat>)
      ensures c == latestOptimalSolutionCost
    {
      return latestOptimalSolutionCost;
    }

    /**
     * `solve` on a fresh strategy. Every node taken off the frontier, the
     * root included, is goal-tested first. A solution is legal and reaches
     * a goal, and the cost recorded with it is the sum of the step costs
     * along it. None is returned iff no legal path reaches a goal; the
     * recorded cost is then left as it was. Frontier and explored states
     * stay disjoint.
     */
    method Solve(p: Problem<S, A>, ghost universe: set<S>) returns (r: Option<seq<A>>)
      requires Fresh() && p.initial in universe && ClosedUnder(p, universe)
      modifies this
      ensures r.Some? ==> Legal(p, p.initial, r.value) && p.isGoal(Run(p, p.initial, r.value))
                          && latestOptimalSolutionCost == Some(PathCost(p, p.initial, r.value))
      ensures r.None? <==> forall path: seq<A> | Legal(p, p.initial, path) :: !p.isGoal(Run(p, p.initial, path))
      ensures r.None? ==> latestOptimalSolutionCost == old(latestOptimalSolutionCost) && frontier == []
      ensures p.isGoal(p.initial) ==> r == Some([]) && latestOptimalSolutionCost == Some(0)
      ensures FrontierInv(p, universe, frontier, explored)
    {
      var root := MakeRootNode(p.initial);
      RootIsTreeNode<S, A>(p);
      PushStep(p, universe, frontier, explored, root);
      frontier := Push(frontier, root);
      var goalNode := Search(p, universe, root);
      if goalNode.Some? {
        var solution := ReconstructPath(goalNode.value);
        TreeNodePath(p, goalNode.value);
        latestOptimalSolutionCost := Some(goalNode.value.cost);
        return Some(solution);
      }
      return None;
    }

    /**
     * What the loop of `solve` keeps: the frontier bookkeeping, the initial
     * state seen, the root alone on the frontier while the initial state is
     * a goal, and every explored state expanded and not a goal.
     */
    ghost predicate Searching(p: Problem<S, A>, universe: set<S>, root: Node<S, A>)
      reads this
    {
      FrontierInv(p, universe, frontier, explored)
      && p.initial in explored + States(frontier)
      && (p.isGoal(p.initial) ==> frontier == [root])
      && Expanded(p, explored, explored + States(frontier))
      && forall t | t in explored :: !p.isGoal(t)
    }

    /**
     * The loop of `solve`, run until a goal node is taken off the frontier or
     * the frontier is empty. The node returned is a node of the search tree
     * whose state is a goal, and the root itself when the initial state is a
     * goal; when none is returned, the frontier is exhausted and no legal
     * path from the initial state reaches a goal.
     */
    method Search(p: Problem<S, A>, ghost universe: set<S>, root: Node<S, A>) returns (goalNode: Option<Node<S, A>>)
      requires root == MakeRootNode(p.initial) && root.state == p.initial && frontier == [root] && explored == {}
      requires FrontierInv(p, universe, frontier, explored) && ClosedUnder(p, universe)
      modifies this`frontier, this`explored
      ensures goalNode.Some? ==> SearchTreeNode(p, goalNode.value) && p.isGoal(goalNode.value.state)
      ensures p.isGoal(p.initial) ==> goalNode == Some(root)
      ensures goalNode.None? ==> frontier == []
      ensures goalNode.None? ==> forall path: seq<A> | Legal(p, p.initial, path) :: !p.isGoal(Run(p, p.initial, path))
      ensures FrontierInv(p, universe, frontier, explored)
    {
      while frontier != []
        invariant Searching(p, universe, root)
        decreases |universe - explored|
      {
        ghost var k;
        goalNode, k := Step(p, universe, root);
        if goalNode.Some? {
          return;
        }
      }
      EmptyFrontier(frontier);
      ExhaustedNoGoal(p, explored, p.initial);
      return None;
    }

    /**
     * One turn of the loop of `solve`: a node of least priority, the one at
     * position `k`, is taken off the frontier and goal-tested; a goal node is
     * returned, any other node has its state explored and its children
     * handed to the frontier, which leaves one state fewer of the universe
     * unexplored.
     */
    method Step(p: Problem<S, A>, ghost universe: set<S>, root: Node<S, A>)
      returns (goalNode: Option<Node<S, A>>, ghost k: nat)
      requires Searching(p, universe, root) && frontier != []
      requires root.state == p.initial && ClosedUnder(p, universe)
      modifies this`frontier, this`explored
      ensures goalNode.Some? ==> SearchTreeNode(p, goalNode.value) && p.isGoal(goalNode.value.state)
      ensures goalNode.Some? ==> FrontierInv(p, universe, frontier, explored)
      ensures p.isGoal(p.initial) ==> goalNode == Some(root)
      ensures goalNode.None? ==> Searching(p, universe, root)
      ensures goalNode.None? ==> |universe - explored| < old(|universe - explored|)
      ensures k < |old(frontier)|
      ensures forall m | m in old(frontier) :: priority(old(frontier)[k]) <= priority(m)
      ensures var n := old(frontier)[k];
              var rest := RemoveAt(old(frontier), k);
              if p.isGoal(n.state) then goalNode == Some(n) && frontier == rest && explored == old(explored)
              else goalNode == None && explored == old(explored) + {n.state}
                   && frontier == HandChildren(p, n, p.actions(n.state), explored, rest, priority)
    {
      var nextNode;
      nextNode, k := PopMin(p, universe);
      assert p.isGoal(p.initial) ==> nextNode == root;
      if p.isGoal(nextNode.state) {
        goalNode := Some(nextNode);
        return;
      }
      SetDiffShrinks(universe, explored, nextNode.state);
      Expand(p, universe, nextNode);
      goalNode := None;
    }

    /**
     * MinPQFrontier.next: a node of least priority, at position `k`, leaves
     * the frontier. Its state is new and the states seen so far are
     * unchanged.
     */
    method PopMin(p: Problem<S, A>, ghost universe: set<S>) returns (nextNode: Node<S, A>, ghost k: nat)
      requires FrontierInv(p, universe, frontier, explored) && frontier != []
      modifies this`frontier
      ensures k < |old(frontier)| && nextNode == old(frontier)[k] && frontier == RemoveAt(old(frontier), k)
      ensures nextNode in old(frontier) && |frontier| == |old(frontier)| - 1
      ensures |old(frontier)| == 1 ==> nextNode == old(frontier[0])
      ensures forall m | m in old(frontier) :: priority(nextNode) <= priority(m)
      ensures forall m | m in frontier :: m in old(frontier)
      ensures SearchTreeNode(p, nextNode) && nextNode.state !in explored && nextNode.state in universe
      ensures FrontierInv(p, universe, frontier, explored + {nextNode.state})
      ensures FrontierInv(p, universe, frontier, explored)
      ensures explored + {nextNode.state} + States(frontier) == explored + old(States(frontier))
    {
      var m := MinPriorityIndex(frontier, priority);
      k := m;
      nextNode := frontier[m];
      PopStep(p, universe, frontier, explored, m);
      frontier := RemoveAt(frontier, m);
    }

    /**
     * The expansion of a node that is not a goal: its state joins the
     * explored set, then the loop of `solve` over its actions runs: a
     * child whose state is neither explored nor on the frontier is pushed;
     * one whose state is on the frontier goes to pushIfBetter; one whose
     * state is explored only is discarded. Afterwards every successor of
     * the node is known.
     */
    method Expand(p: Problem<S, A>, ghost universe: set<S>, nextNode: Node<S, A>)
      requires FrontierInv(p, universe, frontier, explored + {nextNode.state})
      requires SearchTreeNode(p, nextNode) && nextNode.state in universe && ClosedUnder(p, universe)
      requires Expanded(p, explored, explored + {nextNode.state} + States(frontier))
      modifies this`frontier, this`explored
      ensures explored == old(explored) + {nextNode.state}
      ensures FrontierInv(p, universe, frontier, explored)
      ensures frontier == HandChildren(p, nextNode, p.actions(nextNode.state), explored, old(frontier), priority)
      ensures old(States(frontier)) <= States(frontier)
      ensures Expanded(p, explored, explored + States(frontier))
    {
      ghost var explored0 := explored;
      var ins := InsertIfNotPresent(explored, nextNode.state);
      explored := ins.0;
      var allActions := p.actions(nextNode.state);
      for i := 0 to |allActions|
        modifies this`frontier
        invariant Handing(p, universe, nextNode, explored0, allActions, i, old(frontier))
      {
        HandOne(p, universe, nextNode, explored0, allActions, i, old(frontier));
      }
      assert allActions[..|allActions|] == allActions;
      assert SuccessorsIn(p, nextNode.state, explored + States(frontier));
    }

    /**
     * What the loop over the actions `acts` of `n` keeps after `i` of them:
     * the frontier bookkeeping, the frontier the fold over those actions
     * gives from `f0`, with all their children seen, no state of `f0` lost,
     * and the states explored before `n` still expanded.
     */
    ghost predicate Handing(p: Problem<S, A>, universe: set<S>, n: Node<S, A>, e0: set<S>, acts: seq<A>, i: nat,
                            f0: seq<Node<S, A>>)
      reads this
    {
      i <= |acts| && FrontierInv(p, universe, frontier, explored)
      && frontier == HandChildren(p, n, acts[..i], explored, f0, priority)
      && States(f0) <= States(frontier)
      && Expanded(p, e0, explored + States(frontier))
      && ResultsIn(p, n.state, acts[..i], explored + States(frontier))
    }

    /**
     * One turn of the loop over the actions of `nextNode`: the child of
     * action `i` is pushed when its state is neither explored nor on the
     * frontier, goes to pushIfBetter when its state is on the frontier, and
     * is dropped otherwise.
     */
    method HandOne(p: Problem<S, A>, ghost universe: set<S>, nextNode: Node<S, A>, ghost explored0: set<S>,
                   allActions: seq<A>, i: nat, ghost f0: seq<Node<S, A>>)
      requires allActions == p.actions(nextNode.state) && i < |allActions|
      requires explored == explored0 + {nextNode.state}
      requires SearchTreeNode(p, nextNode) && nextNode.state in universe && ClosedUnder(p, universe)
      requires Handing(p, universe, nextNode, explored0, allActions, i, f0)
      modifies this`frontier
      ensures Handing(p, universe, nextNode, explored0, allActions, i + 1, f0)
    {
      ghost var seen := explored + States(frontier);
      var thisChild := MakeNode(p, nextNode, allActions[i]);
      var thisChildState := thisChild.state;
      ExpandTreeNode(p, nextNode, allActions[i]);
      HandChildrenSnoc(p, nextNode, allActions, i, explored, f0, priority);
      assert SuccessorsIn(p, nextNode.state, universe);
      if thisChildState !in explored && !Includes(frontier, thisChildState) {
        PushStep(p, universe, frontier, explored, thisChild);
        frontier := Push(frontier, thisChild);
      } else if Includes(frontier, thisChildState) {
        ReplaceStep(p, universe, frontier, explored, thisChild, priority);
        frontier := PushIfBetter(frontier, thisChild, priority);
      }
      ExpandedGrows(p, explored0, seen, explored + States(frontier));
      PrefixSnoc(allActions, i);
      ResultsInSnoc(p, nextNode.state, allActions[..i], allActions[i], seen, explored + States(frontier));
    }
  }
}
