/**
 * Breadth-first graph search: a FIFO frontier, an explored set, and a goal
 * test applied to each child as it is generated.
 */
module BreadthFirstSearch {
  import opened Wrappers
  import opened Problems
  import opened SearchNodes
  import opened Frontiers
  import opened GraphSearch

  /**
   * What the loop of BFS over the actions `acts` of `n` yields, starting
   * from the frontier `f`: the children are generated in action order and
   * goal-tested one by one; the first goal child ends the loop with its
   * path as the solution, and until then a child whose state is neither in
   * `e` nor on the frontier is pushed.
   */
  ghost function ExpandFifo<S, A>(p: Problem<S, A>, n: Node<S, A>, acts: seq<A>, e: set<S>, f: seq<Node<S, A>>)
    : (Option<seq<A>>, seq<Node<S, A>>)
    decreases |acts|
  {
    if acts == [] then (None, f)
    else
      var prev := ExpandFifo(p, n, acts[..|acts| - 1], e, f);
      var c := MakeNode(p, n, acts[|acts| - 1]);
      if prev.0.Some? then prev
      else if p.isGoal(c.state) then (Some(PathOf(c)), prev.1)
      else if c.state !in e && c.state !in States(prev.1) then (None, Push(prev.1, c))
      else (None, prev.1)
  }

  /** One more action of the loop: ExpandFifo over a prefix one longer. */
  lemma ExpandFifoSnoc<S, A>(p: Problem<S, A>, n: Node<S, A>, acts: seq<A>, i: nat, e: set<S>, f: seq<Node<S, A>>)
    requires i < |acts|
    ensures var prev := ExpandFifo(p, n, acts[..i], e, f);
            var c := MakeNode(p, n, acts[i]);
            ExpandFifo(p, n, acts[..i + 1], e, f)
            == if prev.0.Some? then prev
               else if p.isGoal(c.state) then (Some(PathOf(c)), prev.1)
               else if c.state !in e && c.state !in States(prev.1) then (None, Push(prev.1, c))
               else (None, prev.1)
  {
    assert acts[..i + 1][..i] == acts[..i];
  }

  /** Once the loop has found a solution, the remaining actions change nothing. */
  lemma {:induction false} ExpandFifoStops<S, A>(p: Problem<S, A>, n: Node<S, A>, acts: seq<A>, i: nat, e: set<S>,
                                                 f: seq<Node<S, A>>)
    requires i <= |acts| && ExpandFifo(p, n, acts[..i], e, f).0.Some?
    ensures ExpandFifo(p, n, acts, e, f) == ExpandFifo(p, n, acts[..i], e, f)
    decreases |acts| - i
  {
    if i < |acts| {
      ExpandFifoSnoc(p, n, acts, i, e, f);
      ExpandFifoStops(p, n, acts, i + 1, e, f);
    } else {
      assert acts[..i] == acts;
    }
  }

  /**
   * With no goal among the children, the BFS loop finds no solution and
   * leaves the frontier DFS's loop would: the new children pushed in action
   * order.
   */
  lemma {:induction false} ExpandFifoNoGoal<S, A>(p: Problem<S, A>, n: Node<S, A>, acts: seq<A>, e: set<S>,
                                                  f: seq<Node<S, A>>)
    requires ResultsNonGoal(p, n.state, acts)
    ensures ExpandFifo(p, n, acts, e, f) == (None, PushNewChildren(p, n, acts, e, f))
    decreases |acts|
  {
    if acts != [] {
      ExpandFifoNoGoal(p, n, acts[..|acts| - 1], e, f);
    }
  }

  /**
   * When the child of action `i` is the first goal child, the BFS loop
   * returns that child's path, the node's path followed by the action, and
   * leaves the frontier as the children before it left it.
   */
  lemma ExpandFifoFirstGoal<S, A>(p: Problem<S, A>, n: Node<S, A>, acts: seq<A>, i: nat, e: set<S>, f: seq<Node<S, A>>)
    requires i < |acts| && ResultsNonGoal(p, n.state, acts[..i]) && p.isGoal(p.result(acts[i], n.state))
    ensures ExpandFifo(p, n, acts, e, f) == (Some(PathOf(n) + [acts[i]]), PushNewChildren(p, n, acts[..i], e, f))
  {
    ExpandFifoNoGoal(p, n, acts[..i], e, f);
    ExpandFifoSnoc(p, n, acts, i, e, f);
    ExpandFifoStops(p, n, acts, i + 1, e, f);
  }

  /** No legal path of fewer than `k` actions from the initial state reaches `s`. */
  ghost predicate NoShorterPath<S, A(!new)>(p: Problem<S, A>, s: S, k: nat)
  {
    forall q: seq<A> | Legal(p, p.initial, q) && |q| < k :: Run(p, p.initial, q) != s
  }

  /** Every legal path of fewer than `k` actions from the initial state ends in `x`. */
  ghost predicate ReachedWithin<S, A(!new)>(p: Problem<S, A>, k: nat, x: set<S>)
  {
    forall q: seq<A> | Legal(p, p.initial, q) && |q| < k :: Run(p, p.initial, q) in x
  }

  /**
   * The depths along the queue never decrease and differ by at most one,
   * and each node's depth is its state's distance from the initial state.
   */
  ghost predicate Layered<S, A(!new)>(p: Problem<S, A>, f: seq<Node<S, A>>)
  {
    (forall i, j | 0 <= i < j < |f| :: f[i].depth <= f[j].depth <= f[i].depth + 1)
    && forall i | 0 <= i < |f| :: NoShorterPath(p, f[i].state, f[i].depth)
  }

  /** Every node of the queue lies at depth `d` or `d + 1`. */
  ghost predicate DepthsFrom<S, A>(f: seq<Node<S, A>>, d: nat)
  {
    forall i | 0 <= i < |f| :: d <= f[i].depth <= d + 1
  }

  /**
   * The level order a FIFO queue keeps: the queue is layered, and every
   * state closer to the initial state than the node at its front is
   * explored.
   */
  ghost predicate LevelOrder<S, A(!new)>(p: Problem<S, A>, e: set<S>, f: seq<Node<S, A>>)
  {
    Layered(p, f) && (f != [] ==> ReachedWithin(p, f[0].depth, e))
  }

  /** Taking the front node off a level-ordered queue. */
  lemma LevelOrderPop<S, A(!new)>(p: Problem<S, A>, e: set<S>, f: seq<Node<S, A>>)
    requires LevelOrder(p, e, f) && f != []
    ensures ReachedWithin(p, f[0].depth, e)
    ensures Layered(p, RemoveAt(f, 0)) && DepthsFrom(RemoveAt(f, 0), f[0].depth)
  {
    var r := RemoveAt(f, 0);
    assert r == f[1..];
    assert forall i | 0 <= i < |r| :: r[i] == f[i + 1];
  }

  /**
   * When every state closer than `d` is explored and the explored ones have
   * their successors in `seen`, every state within `d` actions is in `seen`.
   */
  lemma SeenWithin<S, A(!new)>(p: Problem<S, A>, e: set<S>, seen: set<S>, d: nat)
    requires ReachedWithin(p, d, e) && Expanded(p, e, seen) && e <= seen && p.initial in seen
    ensures ReachedWithin(p, d + 1, seen)
  {
    forall q: seq<A> | Legal(p, p.initial, q) && |q| < d + 1 ensures Run(p, p.initial, q) in seen {
      if |q| == d && d > 0 {
        var q', a := q[..d - 1], q[d - 1];
        assert q == q' + [a];
        LegalSnoc(p, p.initial, q', a);
        RunSnoc(p, p.initial, q', a);
        assert SuccessorsIn(p, Run(p, p.initial, q'), seen);
      }
    }
  }

  /** Pushing a child of depth `d + 1` whose state is not yet seen keeps the queue layered. */
  lemma LayeredPush<S, A(!new)>(p: Problem<S, A>, f: seq<Node<S, A>>, c: Node<S, A>, d: nat, e: set<S>, seen: set<S>)
    requires Layered(p, f) && DepthsFrom(f, d) && c.depth == d + 1
    requires ReachedWithin(p, d, e) && Expanded(p, e, seen) && e <= seen && p.initial in seen && c.state !in seen
    ensures Layered(p, Push(f, c)) && DepthsFrom(Push(f, c), d)
  {
    SeenWithin(p, e, seen, d);
    var r := Push(f, c);
    assert forall i | 0 <= i < |f| :: r[i] == f[i];
  }

  /**
   * After the loop over the children of a node at depth `d` with no goal
   * child, the queue is level-ordered again: if its front has moved on to
   * depth `d + 1`, every state within `d` actions is explored, since it was
   * seen and cannot be on the queue at a greater depth.
   */
  lemma LevelOrderNext<S, A(!new)>(p: Problem<S, A>, e: set<S>, e': set<S>, f: seq<Node<S, A>>, d: nat)
    requires ReachedWithin(p, d, e) && e <= e' && Expanded(p, e, e' + States(f)) && p.initial in e' + States(f)
    requires Layered(p, f) && DepthsFrom(f, d)
    ensures LevelOrder(p, e', f)
  {
    if f != [] {
      SeenWithin(p, e, e' + States(f), d);
      forall q: seq<A> | Legal(p, p.initial, q) && |q| < f[0].depth ensures Run(p, p.initial, q) in e' {
        var s := Run(p, p.initial, q);
        forall i | 0 <= i < |f| ensures f[i].state != s {
          assert i == 0 || f[0].depth <= f[i].depth;
          assert NoShorterPath(p, f[i].state, f[i].depth);
        }
        StateHeld(f, s);
      }
    }
  }

  /**
   * When every state closer than `d` is explored and no explored state has
   * a goal successor, no legal path of one to `d` actions reaches a goal.
   */
  lemma NoGoalWithin<S, A(!new)>(p: Problem<S, A>, e: set<S>, d: nat)
    requires ReachedWithin(p, d, e) && forall t | t in e :: SuccessorsNonGoal(p, t)
    ensures forall q: seq<A> | 1 <= |q| <= d && Legal(p, p.initial, q) :: !p.isGoal(Run(p, p.initial, q))
  {
    forall q: seq<A> | 1 <= |q| <= d && Legal(p, p.initial, q) ensures !p.isGoal(Run(p, p.initial, q)) {
      var q', a := q[..|q| - 1], q[|q| - 1];
      assert q == q' + [a];
      LegalSnoc(p, p.initial, q', a);
      RunSnoc(p, p.initial, q', a);
      assert SuccessorsNonGoal(p, Run(p, p.initial, q'));
    }
  }

  class BFS<S(==), A(!new)> {
    var frontier: seq<Node<S, A>>   // FIFOFrontier: `next` takes the front
    var explored: set<S>
    /** The states pushed on the frontier during the current run, in order. */
    ghost var admitted: seq<S>

    /** The state of a new strategy, or of one just reset. */
    ghost predicate Fresh()
      reads this
    {
      frontier == [] && explored == {} && admitted == []
    }

    /**
     * What holds between steps of a run: the frontier bookkeeping, and the
     * states ever admitted, each once, are the explored ones and those on
     * the frontier.
     */
    ghost predicate Inv(p: Problem<S, A>, universe: set<S>)
      reads this
    {
      FrontierInv(p, universe, frontier, explored) && AdmittedLog(admitted, frontier, explored)
    }

    constructor ()
      ensures Fresh()
    {
      frontier := [];
      explored := {};
      admitted := [];
    }

    /** `reset`: a new empty frontier and explored set. */
    method Reset()
      modifies this
      ensures Fresh()
    {
      frontier := [];
      explored := {};
      admitted := [];
    }

    /**
     * `solve` on a fresh strategy. The root is never goal-tested, so a
     * solution has at least one action; it is legal and reaches a goal. No
     * solution is returned iff no legal path of one action or more reaches a
     * goal, and then the frontier is exhausted. A solution is a shortest
     * one: no legal path of one action or more that reaches a goal is
     * shorter. Each state is admitted to the frontier at most once.
     */
    method Solve(p: Problem<S, A>, ghost universe: set<S>) returns (r: Option<seq<A>>)
      requires Fresh() && p.initial in universe && ClosedUnder(p, universe)
      modifies this
      ensures r.Some? ==> |r.value| >= 1 && Legal(p, p.initial, r.value) && p.isGoal(Run(p, p.initial, r.value))
      ensures r.Some? ==> forall q: seq<A> | |q| >= 1 && Legal(p, p.initial, q) && p.isGoal(Run(p, p.initial, q)) ::
                            |r.value| <= |q|
      ensures r.None? <==> forall path: seq<A> | Legal(p, p.initial, path) && |path| >= 1 ::
                             !p.isGoal(Run(p, p.initial, path))
      ensures r.None? ==> frontier == []
      ensures Inv(p, universe)
    {
      var root := MakeRootNode(p.initial);
      RootIsTreeNode<S, A>(p);
      AdmitStep(p, universe, frontier, explored, admitted, root);
      frontier := Push(frontier, root);
      admitted := admitted + [p.initial];

      while frontier != []
        invariant Searching(p, universe)
        decreases |universe - explored|
      {
        r := Step(p, universe);
        if r.Some? {
          return;
        }
      }

      EmptyFrontier(frontier);
      ExhaustedNoGoalBeyond(p, explored, p.initial);
      return None;
    }

    /**
     * One turn of the loop of `solve`: the node at the front of the frontier
     * is taken off, its state explored and its children generated. A child
     * that is a goal is returned as a solution, and no shorter one exists;
     * otherwise one state fewer of the universe is left unexplored.
     */
    method Step(p: Problem<S, A>, ghost universe: set<S>) returns (r: Option<seq<A>>)
      requires Searching(p, universe) && frontier != [] && ClosedUnder(p, universe)
      modifies this`frontier, this`explored, this`admitted
      ensures r.Some? ==> |r.value| >= 1 && Legal(p, p.initial, r.value) && p.isGoal(Run(p, p.initial, r.value))
      ensures Inv(p, universe)
      ensures r.None? ==> Searching(p, universe)
      ensures r.None? ==> |universe - explored| < old(|universe - explored|)
      ensures r.Some? ==> forall q: seq<A> | |q| >= 1 && Legal(p, p.initial, q) && p.isGoal(Run(p, p.initial, q)) ::
                            |r.value| <= |q|
      ensures var n := old(frontier[0]);
              explored == old(explored) + {n.state}
              && (r, frontier) == ExpandFifo(p, n, p.actions(n.state), explored, RemoveAt(old(frontier), 0))
    {
      LevelOrderPop(p, explored, frontier);
      var nextNode := PopFront(p, universe);
      SetDiffShrinks(universe, explored, nextNode.state);
      r := GenerateChildren(p, universe, nextNode);
    }

    /**
     * FIFOFrontier.next: the node at the front of the frontier leaves it.
     * Its state is new and the states seen so far are unchanged.
     */
    method PopFront(p: Problem<S, A>, ghost universe: set<S>) returns (nextNode: Node<S, A>)
      requires Inv(p, universe) && frontier != []
      modifies this`frontier
      ensures nextNode == old(frontier[0]) && frontier == RemoveAt(old(frontier), 0)
      ensures SearchTreeNode(p, nextNode) && nextNode.state !in explored && nextNode.state in universe
      ensures FrontierInv(p, universe, frontier, explored + {nextNode.state})
      ensures AdmittedLog(admitted, frontier, explored + {nextNode.state})
      ensures explored + {nextNode.state} + States(frontier) == explored + old(States(frontier))
    {
      nextNode := frontier[0];
      PopStep(p, universe, frontier, explored, 0);
      frontier := RemoveAt(frontier, 0);
    }

    /**
     * What a run knows between iterations of its loop, besides Inv: the
     * initial state has been seen, every explored state has all its
     * successors seen and none of them is a goal, and the queue is in level
     * order.
     */
    ghost predicate Searching(p: Problem<S, A>, universe: set<S>)
      reads this
    {
      Inv(p, universe) && p.initial in explored + States(frontier)
      && Expanded(p, explored, explored + States(frontier))
      && (forall t | t in explored :: SuccessorsNonGoal(p, t))
      && LevelOrder(p, explored, frontier)
    }

    /**
     * The expansion of the node just taken off the frontier: its state
     * joins the explored set, then the loop of `solve` over its actions
     * runs: each child is goal-tested as it is generated, and returned
     * at once when it is a goal; a child whose state is neither explored
     * nor on the frontier is pushed. A goal child is at one more than the
     * node's depth, and every state closer than the node is explored without
     * a goal successor, so no shorter solution exists. When no child is a
     * goal, every successor of the node is known and is not a goal, and the
     * queue is back in level order.
     */
    method GenerateChildren(p: Problem<S, A>, ghost universe: set<S>, nextNode: Node<S, A>) returns (r: Option<seq<A>>)
      requires FrontierInv(p, universe, frontier, explored + {nextNode.state})
      requires AdmittedLog(admitted, frontier, explored + {nextNode.state})
      requires SearchTreeNode(p, nextNode) && nextNode.state in universe && ClosedUnder(p, universe)
      requires p.initial in explored + {nextNode.state} + States(frontier)
      requires Expanded(p, explored, explored + {nextNode.state} + States(frontier))
      requires forall t | t in explored :: SuccessorsNonGoal(p, t)
      requires ReachedWithin(p, nextNode.depth, explored)
      requires Layered(p, frontier) && DepthsFrom(frontier, nextNode.depth)
      modifies this`frontier, this`explored, this`admitted
      ensures explored == old(explored) + {nextNode.state}
      ensures (r, frontier) == ExpandFifo(p, nextNode, p.actions(nextNode.state), explored, old(frontier))
      ensures r.Some? ==> |r.value| >= 1 && Legal(p, p.initial, r.value) && p.isGoal(Run(p, p.initial, r.value))
      ensures r.Some? ==> forall q: seq<A> | |q| >= 1 && Legal(p, p.initial, q) && p.isGoal(Run(p, p.initial, q)) ::
                            |r.value| <= |q|
      ensures Inv(p, universe)
      ensures r.None? ==> Searching(p, universe)
    {
      ghost var explored0 := explored;
      var ins := InsertIfNotPresent(explored, nextNode.state);
      explored := ins.0;
      assert SuccessorsIn(p, nextNode.state, universe);
      r := GenerateEach(p, universe, nextNode, explored0);
      if r.Some? {
        NoGoalWithin(p, explored0, nextNode.depth);
      } else {
        LevelOrderNext(p, explored0, explored, frontier, nextNode.depth);
      }
    }

    /**
     * The loop of `solve` over the actions of `nextNode`, whose state has
     * just joined the explored set: children are generated in action order
     * and goal-tested; the first goal child's path, one action longer than
     * the node's, is returned, and until then a child whose state is neither
     * explored nor on the frontier is pushed at the back, one level below
     * the node.
     */
    method GenerateEach(p: Problem<S, A>, ghost universe: set<S>, nextNode: Node<S, A>, ghost explored0: set<S>)
      returns (r: Option<seq<A>>)
      requires Inv(p, universe) && explored == explored0 + {nextNode.state}
      requires SearchTreeNode(p, nextNode) && nextNode.state in universe && ClosedUnder(p, universe)
      requires p.initial in explored + States(frontier)
      requires Expanded(p, explored0, explored + States(frontier))
      requires ReachedWithin(p, nextNode.depth, explored0)
      requires Layered(p, frontier) && DepthsFrom(frontier, nextNode.depth)
      modifies this`frontier, this`admitted
      ensures (r, frontier) == ExpandFifo(p, nextNode, p.actions(nextNode.state), explored, old(frontier))
      ensures r.Some? ==> |r.value| == nextNode.depth + 1 && Legal(p, p.initial, r.value)
                          && p.isGoal(Run(p, p.initial, r.value))
      ensures Inv(p, universe)
      ensures r.None? ==> p.initial in explored + States(frontier) && Expanded(p, explored0, explored + States(frontier))
      ensures r.None? ==> SuccessorsIn(p, nextNode.state, explored + States(frontier)) && SuccessorsNonGoal(p, nextNode.state)
      ensures r.None? ==> Layered(p, frontier) && DepthsFrom(frontier, nextNode.depth)
    {
      var allActions := p.actions(nextNode.state);
      for i := 0 to |allActions|
        invariant Generating(p, universe, nextNode, explored0, allActions, i, old(frontier))
      {
        r := GenerateOne(p, universe, nextNode, explored0, allActions, i, old(frontier));
        if r.Some? {
          ExpandFifoStops(p, nextNode, allActions, i + 1, explored, old(frontier));
          return;
        }
      }
      assert allActions[..|allActions|] == allActions;
      assert SuccessorsIn(p, nextNode.state, explored + States(frontier));
      r := None;
    }

    /**
     * What the loop over the actions `acts` of `n` keeps after `i` of them:
     * Inv, the frontier the fold over those actions gives from `f0`, with
     * none of their children a goal and all of them seen, the queue in
     * level order below `n`, and the states explored before `n` still
     * expanded.
     */
    ghost predicate Generating(p: Problem<S, A>, universe: set<S>, n: Node<S, A>, e0: set<S>, acts: seq<A>, i: nat,
                               f0: seq<Node<S, A>>)
      reads this
    {
      i <= |acts| && Inv(p, universe)
      && ExpandFifo(p, n, acts[..i], explored, f0) == (None, frontier)
      && Layered(p, frontier) && DepthsFrom(frontier, n.depth)
      && p.initial in explored + States(frontier)
      && Expanded(p, e0, explored + States(frontier))
      && ResultsIn(p, n.state, acts[..i], explored + States(frontier))
      && ResultsNonGoal(p, n.state, acts[..i])
    }

    /**
     * One turn of the loop over the actions of `nextNode`: the child of
     * action `i` is generated and goal-tested; a goal child's path is
     * returned, and otherwise the child is pushed when its state is neither
     * explored nor on the frontier.
     */
    method GenerateOne(p: Problem<S, A>, ghost universe: set<S>, nextNode: Node<S, A>, ghost explored0: set<S>,
                       allActions: seq<A>, i: nat, ghost f0: seq<Node<S, A>>) returns (r: Option<seq<A>>)
      requires allActions == p.actions(nextNode.state) && i < |allActions|
      requires explored == explored0 + {nextNode.state}
      requires SearchTreeNode(p, nextNode) && nextNode.state in universe && ClosedUnder(p, universe)
      requires ReachedWithin(p, nextNode.depth, explored0)
      requires Generating(p, universe, nextNode, explored0, allActions, i, f0)
      modifies this`frontier, this`admitted
      ensures r.Some? ==> ExpandFifo(p, nextNode, allActions[..i + 1], explored, f0) == (r, frontier) && Inv(p, universe)
      ensures r.Some? ==> |r.value| == nextNode.depth + 1 && Legal(p, p.initial, r.value)
                          && p.isGoal(Run(p, p.initial, r.value))
      ensures r.None? ==> Generating(p, universe, nextNode, explored0, allActions, i + 1, f0)
    {
      ghost var seen := explored + States(frontier);
      var thisChild := MakeNode(p, nextNode, allActions[i]);
      var thisChildState := thisChild.state;
      ExpandTreeNode(p, nextNode, allActions[i]);
      ExpandFifoSnoc(p, nextNode, allActions, i, explored, f0);
      assert SuccessorsIn(p, nextNode.state, universe);
      if p.isGoal(thisChild.state) {
        var solution := ReconstructPath(thisChild);
        TreeNodePath(p, thisChild);
        return Some(solution);
      } else if thisChildState !in explored && !Includes(frontier, thisChildState) {
        LayeredPush(p, frontier, thisChild, nextNode.depth, explored0, seen);
        AdmitStep(p, universe, frontier, explored, admitted, thisChild);
        ExpandedGrows(p, explored0, seen, explored + States(Push(frontier, thisChild)));
        frontier := Push(frontier, thisChild);
        admitted := admitted + [thisChildState];
      }
      PrefixSnoc(allActions, i);
      ResultsInSnoc(p, nextNode.state, allActions[..i], allActions[i], seen, explored + States(frontier));
      ResultsNonGoalSnoc(p, nextNode.state, allActions[..i], allActions[i]);
      return None;
    }
  }
}
