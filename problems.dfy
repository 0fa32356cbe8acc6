/**
 * The `Problem` abstraction every strategy consumes: an initial state, the
 * actions available from a state, the transition function, the goal test and
 * the step cost. The Swift base class leaves every operation to subclasses
 * (its defaults only throw); here a problem is a record holding the five
 * operations, so a problem without one of them cannot be built at all.
 */
module Problems {

  datatype Problem<!S, !A> = Problem(
    initial: S,                 // getInitialState()
    actions: S -> seq<A>,       // getAvailableActions(node), read from node's state
    result: (A, S) -> S,        // getResult(action, node), read from node's state
    isGoal: S -> bool,          // isGoal(state)
    cost: (A, S) -> nat         // getCost(action, state)
  )

  /** The state reached by applying `path` from `s`, one action after another. */
  function Run<S, A>(p: Problem<S, A>, s: S, path: seq<A>): S
    decreases |path|
  {
    if path == [] then s else Run(p, p.result(path[0], s), path[1..])
  }

  /** Every action of `path` is available in the state it is applied to. */
  ghost predicate Legal<S, A>(p: Problem<S, A>, s: S, path: seq<A>)
    decreases |path|
  {
    path == [] || (path[0] in p.actions(s) && Legal(p, p.result(path[0], s), path[1..]))
  }

  /** The sum of the step costs along `path` from `s`. */
  function PathCost<S, A>(p: Problem<S, A>, s: S, path: seq<A>): nat
    decreases |path|
  {
    if path == [] then 0 else p.cost(path[0], s) + PathCost(p, p.result(path[0], s), path[1..])
  }

  /** A goal is reached by some legal path of at most `k` actions from `s`. */
  ghost predicate GoalWithin<S, A>(p: Problem<S, A>, s: S, k: nat)
    decreases k
  {
    p.isGoal(s) || (k > 0 && exists a | a in p.actions(s) :: GoalWithin(p, p.result(a, s), k - 1))
  }

  /** Some legal path of exactly `k` actions starts at `s`. */
  ghost predicate Reaches<S, A>(p: Problem<S, A>, s: S, k: nat)
    decreases k
  {
    k == 0 || exists a | a in p.actions(s) :: Reaches(p, p.result(a, s), k - 1)
  }

  lemma {:induction false} RunSnoc<S, A>(p: Problem<S, A>, s: S, path: seq<A>, a: A)
    ensures Run(p, s, path + [a]) == p.result(a, Run(p, s, path))
    decreases |path|
  {
    if path != [] {
      assert (path + [a])[1..] == path[1..] + [a];
      RunSnoc(p, p.result(path[0], s), path[1..], a);
    }
  }

  lemma {:induction false} LegalSnoc<S, A>(p: Problem<S, A>, s: S, path: seq<A>, a: A)
    ensures Legal(p, s, path + [a]) <==> Legal(p, s, path) && a in p.actions(Run(p, s, path))
    decreases |path|
  {
    if path == [] {
      assert (path + [a])[1..] == [];
    } else {
      assert (path + [a])[0] == path[0];
      assert (path + [a])[1..] == path[1..] + [a];
      LegalSnoc(p, p.result(path[0], s), path[1..], a);
    }
  }

  lemma {:induction false} PathCostSnoc<S, A>(p: Problem<S, A>, s: S, path: seq<A>, a: A)
    ensures PathCost(p, s, path + [a]) == PathCost(p, s, path) + p.cost(a, Run(p, s, path))
    decreases |path|
  {
    if path != [] {
      assert (path + [a])[1..] == path[1..] + [a];
      PathCostSnoc(p, p.result(path[0], s), path[1..], a);
    }
  }

  /** A legal path of `|path|` actions that ends in a goal witnesses GoalWithin. */
  lemma {:induction false} LegalGoalWithin<S, A>(p: Problem<S, A>, s: S, path: seq<A>)
    requires Legal(p, s, path) && p.isGoal(Run(p, s, path))
    ensures GoalWithin(p, s, |path|)
    decreases |path|
  {
    if path != [] {
      LegalGoalWithin(p, p.result(path[0], s), path[1..]);
    }
  }

  /** Conversely, GoalWithin is witnessed by a legal path to a goal. */
  lemma {:induction false} GoalWithinPath<S, A>(p: Problem<S, A>, s: S, k: nat)
    returns (path: seq<A>)
    requires GoalWithin(p, s, k)
    ensures |path| <= k && Legal(p, s, path) && p.isGoal(Run(p, s, path))
    decreases k
  {
    if p.isGoal(s) {
      path := [];
    } else {
      var a :| a in p.actions(s) && GoalWithin(p, p.result(a, s), k - 1);
      var rest := GoalWithinPath(p, p.result(a, s), k - 1);
      path := [a] + rest;
      assert path[0] == a && path[1..] == rest;
    }
  }

  /** A goal within `k` actions is also within any larger bound. */
  lemma {:induction false} GoalWithinMonotone<S, A>(p: Problem<S, A>, s: S, k: nat, k': nat)
    requires GoalWithin(p, s, k) && k <= k'
    ensures GoalWithin(p, s, k')
    decreases k
  {
    if !p.isGoal(s) {
      var a :| a in p.actions(s) && GoalWithin(p, p.result(a, s), k - 1);
      GoalWithinMonotone(p, p.result(a, s), k - 1, k' - 1);
    }
  }
}
