/**
 * Depth-first graph search: a LIFO frontier, an explored set, and a goal
 * test applied to each node as it is taken off the frontier.
 */
module DepthFirstSearch {
  import opened Wrappers
  import opened Problems
  import opened SearchNodes
  import opened Frontiers
  import opened GraphSearch

  class DFS<S(==), A> {
    var frontier: seq<Node<S, A>>   // LIFOFrontier: `next` takes the back
    var explored: set<S>
    /** The states pushed on the frontier during the current run, in order. */
    ghost var admitted: seq<S>

    /** The state of a new strategy, or of one just reset. */
    ghost predicate Fresh()
      reads this
    {
      frontier == [] && explored == {} && admitted == []
    }

    /**
     * What holds between steps of a run: the frontier bookkeeping, and the
     * states ever admitted, each once, are the explored ones and those on
     * the frontier.
     */
    ghost predicate Inv(p: Problem<S, A>, universe: set<S>)
      reads this
    {
      FrontierInv(p, universe, frontier, explored) && AdmittedLog(admitted, frontier, explored)
    }

    constructor ()
      ensures Fresh()
    {
      frontier := [];
      explored := {};
      admitted := [];
    }

    /** `reset`: a new empty frontier and explored set. */
    method Reset()
      modifies this
      ensures Fresh()
    {
      frontier := [];
      explored := {};
      admitted := [];
    }

    /**
     * `solve` on a fresh strategy. Every node taken off the frontier, the
     * root included, is goal-tested first, so a problem whose initial state
     * is a goal yields the empty solution. A solution is legal and reaches a
     * goal; none is returned iff no legal path reaches a goal, and then the
     * frontier is exhausted. Each state is admitted to the frontier at most
     * once, and frontier and explored states stay disjoint.
     */
    method Solve(p: Problem<S, A>, ghost universe: set<S>) returns (r: Option<seq<A>>)
      requires Fresh() && p.initial in universe && ClosedUnder(p, universe)
      modifies this
      ensures r.Some? ==> Legal(p, p.initial, r.value) && p.isGoal(Run(p, p.initial, r.value))
      ensures r.None? <==> forall path: seq<A> | Legal(p, p.initial, path) :: !p.isGoal(Run(p, p.initial, path))
      ensures p.isGoal(p.initial) ==> r == Some([])
      ensures FrontierInv(p, universe, frontier, explored) && NoDuplicates(admitted)
      ensures r.None? ==> frontier == [] && Inv(p, universe)
    {
      var root := MakeRootNode(p.initial);
      RootIsTreeNode<S, A>(p);
      AdmitStep(p, universe, frontier, explored, admitted, root);
      frontier := Push(frontier, root);
      admitted := admitted + [p.initial];
      var goalNode := Search(p, universe, root);
      if goalNode.Some? {
        var solution := ReconstructPath(goalNode.value);
        TreeNodePath(p, goalNode.value);
        return Some(solution);
      }
      return None;
    }

    /**
     * What the loop of `solve` keeps, besides Inv: the initial state seen,
     * the root alone on the frontier while the initial state is a goal, and
     * every explored state expanded and not a goal.
     */
    ghost predicate Searching(p: Problem<S, A>, universe: set<S>, root: Node<S, A>)
      reads this
    {
      Inv(p, universe)
      && p.initial in explored + States(frontier)
      && (p.isGoal(p.initial) ==> frontier == [root])
      && Expanded(p, explored, explored + States(frontier))
      && forall t | t in explored :: !p.isGoal(t)
    }

    /**
     * The loop of `solve`, run until a goal node is taken off the frontier or
     * the frontier is empty. The node returned is a node of the search tree
     * whose state is a goal, and the root itself when the initial state is a
     * goal; when none is returned, the frontier is exhausted and no legal
     * path from the initial state reaches a goal.
     */
    method Search(p: Problem<S, A>, ghost universe: set<S>, root: Node<S, A>) returns (goalNode: Option<Node<S, A>>)
      requires root == MakeRootNode(p.initial) && root.state == p.initial && frontier == [root] && explored == {}
      requires Inv(p, universe) && ClosedUnder(p, universe)
      modifies this`frontier, this`explored, this`admitted
      ensures goalNode.Some? ==> SearchTreeNode(p, goalNode.value) && p.isGoal(goalNode.value.state)
      ensures p.isGoal(p.initial) ==> goalNode == Some(root)
      ensures goalNode.None? ==> frontier == [] && Inv(p, universe)
      ensures goalNode.None? ==> forall path: seq<A> | Legal(p, p.initial, path) :: !p.isGoal(Run(p, p.initial, path))
      ensures FrontierInv(p, universe, frontier, explored) && NoDuplicates(admitted)
    {
      while frontier != []
        invariant Searching(p, universe, root)
        decreases |universe - explored|
      {
        goalNode := Step(p, universe, root);
        if goalNode.Some? {
          return;
        }
      }
      EmptyFrontier(frontier);
      ExhaustedNoGoal(p, explored, p.initial);
      return None;
    }

    /**
     * One turn of the loop of `solve`: the node at the back of the frontier
     * is taken off and goal-tested; a goal node is returned, any other node
     * has its state explored and its children pushed, which leaves one state
     * fewer of the universe unexplored.
     */
    method Step(p: Problem<S, A>, ghost universe: set<S>, root: Node<S, A>) returns (goalNode: Option<Node<S, A>>)
      requires Searching(p, universe, root) && frontier != []
      requires root.state == p.initial && ClosedUnder(p, universe)
      modifies this`frontier, this`explored, this`admitted
      ensures goalNode.Some? ==> SearchTreeNode(p, goalNode.value) && p.isGoal(goalNode.value.state)
      ensures goalNode.Some? ==> FrontierInv(p, universe, frontier, explored) && NoDuplicates(admitted)
      ensures p.isGoal(p.initial) ==> goalNode == Some(root)
      ensures goalNode.None? ==> Searching(p, universe, root)
      ensures goalNode.None? ==> |universe - explored| < old(|universe - explored|)
      ensures var n := old(frontier[|frontier| - 1]);
              var rest := RemoveAt(old(frontier), |old(frontier)| - 1);
              if p.isGoal(n.state) then goalNode == Some(n) && frontier == rest && explored == old(explored)
              else goalNode == None && explored == old(explored) + {n.state}
                   && frontier == PushNewChildren(p, n, p.actions(n.state), explored, rest)
    {
      var nextNode := PopLast(p, universe);
      assert p.isGoal(p.initial) ==> nextNode == root;
      if p.isGoal(nextNode.state) {
        return Some(nextNode);
      }
      SetDiffShrinks(universe, explored, nextNode.state);
      Expand(p, universe, nextNode);
      return None;
    }

    /**
     * LIFOFrontier.next: the node at the back of the frontier leaves it. Its
     * state is new and the states seen so far are unchanged.
     */
    method PopLast(p: Problem<S, A>, ghost universe: set<S>) returns (nextNode: Node<S, A>)
      requires Inv(p, universe) && frontier != []
      modifies this`frontier
      ensures nextNode == old(frontier[|frontier| - 1]) && frontier == RemoveAt(old(frontier), |old(frontier)| - 1)
      ensures SearchTreeNode(p, nextNode) && nextNode.state !in explored && nextNode.state in universe
      ensures FrontierInv(p, universe, frontier, explored + {nextNode.state})
      ensures FrontierInv(p, universe, frontier, explored)
      ensures AdmittedLog(admitted, frontier, explored + {nextNode.state})
      ensures explored + {nextNode.state} + States(frontier) == explored + old(States(frontier))
    {
      var last := |frontier| - 1;
      nextNode := frontier[last];
      PopStep(p, universe, frontier, explored, last);
      frontier := RemoveAt(frontier, last);
    }

    /**
     * The expansion of a node that is not a goal: its state joins the
     * explored set, then the loop of `solve` over its actions runs: a child
     * is pushed when its state is neither explored nor on the frontier, in
     * action order, so the child of the last action pushed is the next one
     * taken. Afterwards every successor of the node is known.
     */
    method Expand(p: Problem<S, A>, ghost universe: set<S>, nextNode: Node<S, A>)
      requires FrontierInv(p, universe, frontier, explored + {nextNode.state})
      requires AdmittedLog(admitted, frontier, explored + {nextNode.state})
      requires SearchTreeNode(p, nextNode) && nextNode.state in universe && ClosedUnder(p, universe)
      requires Expanded(p, explored, explored + {nextNode.state} + States(frontier))
      modifies this`frontier, this`explored, this`admitted
      ensures explored == old(explored) + {nextNode.state}
      ensures Inv(p, universe)
      ensures frontier == PushNewChildren(p, nextNode, p.actions(nextNode.state), explored, old(frontier))
      ensures old(States(frontier)) <= States(frontier)
      ensures Expanded(p, explored, explored + States(frontier))
    {
      ghost var explored0 := explored;
      var ins := InsertIfNotPresent(explored, nextNode.state);
      explored := ins.0;
      var allActions := p.actions(nextNode.state);
      for i := 0 to |allActions|
        modifies this`frontier, this`admitted
        invariant Pushing(p, universe, nextNode, explored0, allActions, i, old(frontier))
      {
        PushOne(p, universe, nextNode, explored0, allActions, i, old(frontier));
      }
      assert allActions[..|allActions|] == allActions;
      assert SuccessorsIn(p, nextNode.state, explored + States(frontier));
    }

    /**
     * What the loop over the actions `acts` of `n` keeps after `i` of them:
     * Inv, the frontier the fold over those actions gives from `f0`, with
     * all their children seen, no state of `f0` lost, and the states
     * explored before `n` still expanded.
     */
    ghost predicate Pushing(p: Problem<S, A>, universe: set<S>, n: Node<S, A>, e0: set<S>, acts: seq<A>, i: nat,
                            f0: seq<Node<S, A>>)
      reads this
    {
      i <= |acts| && Inv(p, universe)
      && frontier == PushNewChildren(p, n, acts[..i], explored, f0)
      && States(f0) <= States(frontier)
      && Expanded(p, e0, explored + States(frontier))
      && ResultsIn(p, n.state, acts[..i], explored + States(frontier))
    }

    /**
     * One turn of the loop over the actions of `nextNode`: the child of
     * action `i` is pushed when its state is neither explored nor on the
     * frontier.
     */
    method PushOne(p: Problem<S, A>, ghost universe: set<S>, nextNode: Node<S, A>, ghost explored0: set<S>,
                   allActions: seq<A>, i: nat, ghost f0: seq<Node<S, A>>)
      requires allActions == p.actions(nextNode.state) && i < |allActions|
      requires explored == explored0 + {nextNode.state}
      requires SearchTreeNode(p, nextNode) && nextNode.state in universe && ClosedUnder(p, universe)
      requires Pushing(p, universe, nextNode, explored0, allActions, i, f0)
      modifies this`frontier, this`admitted
      ensures Pushing(p, universe, nextNode, explored0, allActions, i + 1, f0)
    {
      ghost var seen := explored + States(frontier);
      var thisChild := MakeNode(p, nextNode, allActions[i]);
      var thisChildState := thisChild.state;
      ExpandTreeNode(p, nextNode, allActions[i]);
      PushNewChildrenSnoc(p, nextNode, allActions, i, explored, f0);
      assert SuccessorsIn(p, nextNode.state, universe);
      if thisChildState !in explored && !Includes(frontier, thisChildState) {
        AdmitStep(p, universe, frontier, explored, admitted, thisChild);
        ExpandedGrows(p, explored0, seen, explored + States(Push(frontier, thisChild)));
        frontier := Push(frontier, thisChild);
        admitted := admitted + [thisChildState];
      }
      PrefixSnoc(allActions, i);
      ResultsInSnoc(p, nextNode.state, allActions[..i], allActions[i], seen, explored + States(frontier));
    }
  }
}
