/**
 * Search nodes: immutable records of a state, the action that produced it,
 * the parent node, the cumulative path cost and the depth. A node's parent
 * chain, read back to the root, is the path that produced it.
 */
module SearchNodes {
  import opened Wrappers
  import opened Problems

  datatype Node<S, A> = Node(
    state: S,
    action: Option<A>,          // None only for a root
    parent: Option<Node<S, A>>, // None only for a root
    cost: nat,
    depth: nat
  )

  /** The action list read along the parent chain, root first. */
  function PathOf<S, A>(n: Node<S, A>): seq<A>
    decreases n
  {
    (if n.parent.Some? then PathOf(n.parent.value) else [])
    + (if n.action.Some? then [n.action.value] else [])
  }

  /** The state of the node at the end of the parent chain. */
  function RootState<S, A>(n: Node<S, A>): S
    decreases n
  {
    if n.parent.Some? then RootState(n.parent.value) else n.state
  }

  /** makeRootNode: a node for the initial state, with no action and no parent. */
  function MakeRootNode<S, A>(s: S): (r: Node<S, A>)
    ensures r.state == s && r.action == None && r.parent == None
    ensures r.cost == 0 && r.depth == 0
    ensures PathOf(r) == [] && RootState(r) == s
  {
    Node(s, None, None, 0, 0)
  }

  /**
   * makeNode: the child reached from `parent` by `action`. The Swift code
   * halts when getResult or getCost throws; the problem's operations are
   * total here, so that cannot happen.
   */
  function MakeNode<S, A>(p: Problem<S, A>, parent: Node<S, A>, action: A): (r: Node<S, A>)
    ensures r.state == p.result(action, parent.state)
    ensures r.action == Some(action) && r.parent == Some(parent)
    ensures r.cost == parent.cost + p.cost(action, parent.state)
    ensures r.depth == parent.depth + 1
    ensures PathOf(r) == PathOf(parent) + [action]
    ensures RootState(r) == RootState(parent)
  {
    Node(p.result(action, parent.state), Some(action), Some(parent),
         p.cost(action, parent.state) + parent.cost, parent.depth + 1)
  }

  /** `n` was built from a root by a chain of MakeNode calls. */
  ghost predicate Chain<S, A>(p: Problem<S, A>, n: Node<S, A>)
    decreases n
  {
    match n.parent
    case None => n.action.None? && n.cost == 0 && n.depth == 0
    case Some(q) => n.action.Some? && Chain(p, q) && n == MakeNode(p, q, n.action.value)
  }

  /**
   * Along a chain, only the root lacks an action, so the path has exactly
   * `depth` actions; replaying it from the root state gives the node's state
   * and summing its step costs gives the node's cost.
   */
  lemma {:induction false} ChainPath<S, A>(p: Problem<S, A>, n: Node<S, A>)
    requires Chain(p, n)
    ensures |PathOf(n)| == n.depth
    ensures Run(p, RootState(n), PathOf(n)) == n.state
    ensures PathCost(p, RootState(n), PathOf(n)) == n.cost
    decreases n
  {
    match n.parent
    case None =>
    case Some(q) =>
      var a := n.action.value;
      ChainPath(p, q);
      RunSnoc(p, RootState(q), PathOf(q), a);
      PathCostSnoc(p, RootState(q), PathOf(q), a);
  }

  /** The node reached from `n` by applying the actions of `path` in order. */
  function Extend<S, A>(p: Problem<S, A>, n: Node<S, A>, path: seq<A>): Node<S, A>
    decreases |path|
  {
    if path == [] then n else Extend(p, MakeNode(p, n, path[0]), path[1..])
  }

  /**
   * Round trip: building a chain from `n` with the actions of `path` and
   * reading the parent chain back yields `n`'s path followed by `path`, in
   * the original order; the chain property is kept.
   */
  lemma {:induction false} ExtendRoundTrip<S, A>(p: Problem<S, A>, n: Node<S, A>, path: seq<A>)
    ensures PathOf(Extend(p, n, path)) == PathOf(n) + path
    ensures Extend(p, n, path).depth == n.depth + |path|
    ensures Chain(p, n) ==> Chain(p, Extend(p, n, path))
    decreases |path|
  {
    if path != [] {
      var c := MakeNode(p, n, path[0]);
      ExtendRoundTrip(p, c, path[1..]);
      assert [path[0]] + path[1..] == path;
    }
  }

  /** Building from a root and reading back the path gives exactly the actions used. */
  lemma BuildFromRoot<S, A>(p: Problem<S, A>, s: S, path: seq<A>)
    ensures PathOf(Extend(p, MakeRootNode(s), path)) == path
    ensures Chain(p, Extend(p, MakeRootNode(s), path))
  {
    var root: Node<S, A> := MakeRootNode(s);
    ExtendRoundTrip(p, root, path);
  }

  /**
   * A node a search generated: built by MakeNode from the root of the
   * initial state, each action being available where it was taken.
   */
  ghost predicate SearchTreeNode<S, A>(p: Problem<S, A>, n: Node<S, A>)
  {
    Chain(p, n) && RootState(n) == p.initial && Legal(p, p.initial, PathOf(n))
  }

  /** The root of the initial state is a search-tree node. */
  lemma RootIsTreeNode<S, A>(p: Problem<S, A>)
    ensures SearchTreeNode(p, MakeRootNode<S, A>(p.initial))
  {
  }

  /** Expanding a search-tree node by an available action gives a search-tree node. */
  lemma ExpandTreeNode<S, A>(p: Problem<S, A>, n: Node<S, A>, a: A)
    requires SearchTreeNode(p, n) && a in p.actions(n.state)
    ensures SearchTreeNode(p, MakeNode(p, n, a))
  {
    ChainPath(p, n);
    LegalSnoc(p, p.initial, PathOf(n), a);
  }

  /**
   * The reconstructed path of a search-tree node is a legal action sequence
   * from the initial state to the node's state, of `depth` actions, whose
   * step costs sum to the node's cost.
   */
  lemma TreeNodePath<S, A>(p: Problem<S, A>, n: Node<S, A>)
    requires SearchTreeNode(p, n)
    ensures Legal(p, p.initial, PathOf(n))
    ensures Run(p, p.initial, PathOf(n)) == n.state
    ensures PathCost(p, p.initial, PathOf(n)) == n.cost
    ensures |PathOf(n)| == n.depth
  {
    ChainPath(p, n);
  }

  function Reversed<T>(s: seq<T>): (r: seq<T>)
    ensures |r| == |s|
    decreases |s|
  {
    if s == [] then [] else [s[|s| - 1]] + Reversed(s[..|s| - 1])
  }

  lemma ReversedSnoc<T>(s: seq<T>, x: T)
    ensures Reversed(s + [x]) == [x] + Reversed(s)
  {
    assert (s + [x])[..|s|] == s;
  }

  /**
   * One step of the reconstruction: moving from a node to its parent while
   * appending the node's action (if any) to the collected list keeps the
   * parent's path followed by the reversed list equal to the node's path
   * followed by the reversed list before.
   */
  lemma ReconstructStep<S, A>(current: Node<S, A>, solution: seq<A>)
    ensures PathOf(current) + Reversed(solution)
            == (if current.parent.Some? then PathOf(current.parent.value) else [])
               + Reversed(if current.action.Some? then solution + [current.action.value] else solution)
  {
    var prefix := if current.parent.Some? then PathOf(current.parent.value) else [];
    if current.action.Some? {
      var a := current.action.value;
      ReversedSnoc(solution, a);
      assert PathOf(current) == prefix + [a];
      assert (prefix + [a]) + Reversed(solution) == prefix + ([a] + Reversed(solution));
    }
  }

  /**
   * The path reconstruction every strategy performs: walk the parent links,
   * collect each node's action, and reverse the collected list.
   */
  method ReconstructPath<S, A>(n: Node<S, A>) returns (path: seq<A>)
    ensures path == PathOf(n)
  {
    var solution: seq<A> := [];
    var node: Option<Node<S, A>> := Some(n);
    while node.Some?
      invariant PathOf(n) == (if node.Some? then PathOf(node.value) else []) + Reversed(solution)
      decreases node
    {
      var current := node.value;
      ReconstructStep(current, solution);
      if current.action.Some? {
        solution := solution + [current.action.value];
      }
      node := current.parent;
    }
    path := Reversed(solution);
  }

  /**
   * Swift `==` on nodes: two non-roots are equal when their states and
   * their parents' states are equal, two roots when their states are equal,
   * and a root never equals a non-root.
   */
  predicate NodeEq<S(==), A>(l: Node<S, A>, r: Node<S, A>)
  {
    if l.parent.Some? && r.parent.Some? then
      l.parent.value.state == r.parent.value.state && l.state == r.state
    else if l.parent.None? && r.parent.None? then
      l.state == r.state
    else
      false
  }

  /** `==` is an equivalence relation, and equal nodes hold equal states. */
  lemma NodeEqEquivalence<S, A>(l: Node<S, A>, m: Node<S, A>, r: Node<S, A>)
    ensures NodeEq(l, l)
    ensures NodeEq(l, r) <==> NodeEq(r, l)
    ensures NodeEq(l, m) && NodeEq(m, r) ==> NodeEq(l, r)
    ensures NodeEq(l, r) ==> l.state == r.state && (l.parent.None? <==> r.parent.None?)
  {
  }

  /**
   * `==` looks no further than the parent: two nodes that share their state
   * and their parent's state are equal although their actions, costs and
   * grandparents differ.
   */
  lemma NodeEqIgnoresHistory()
    ensures var root1: Node<int, int> := Node(1, None, None, 0, 0);
            var root2: Node<int, int> := Node(2, None, None, 0, 0);
            var mid1 := Node(3, Some(10), Some(root1), 1, 1);
            var mid2 := Node(3, Some(20), Some(root2), 1, 1);
            var l := Node(4, Some(30), Some(mid1), 2, 2);
            var r := Node(4, Some(40), Some(mid2), 2, 2);
            NodeEq(l, r) && l != r && PathOf(l) != PathOf(r)
  {
    var root1: Node<int, int> := Node(1, None, None, 0, 0);
    var root2: Node<int, int> := Node(2, None, None, 0, 0);
    var mid1 := Node(3, Some(10), Some(root1), 1, 1);
    var mid2 := Node(3, Some(20), Some(root2), 1, 1);
    assert PathOf(mid1) == [10] && PathOf(mid2) == [20];
    var l := Node(4, Some(30), Some(mid1), 2, 2);
    var r := Node(4, Some(40), Some(mid2), 2, 2);
    assert PathOf(l)[0] == 10 && PathOf(r)[0] == 20;
  }

  /**
   * `hash(into:)` as written: its first step, `hasher.combine(self)`, runs
   * `hash(into:)` on the same node again before anything is fed. With
   * `fuel` standing for the stack depth available, the call never gets to
   * return what it fed.
   */
  function HashAsWritten<S, A>(n: Node<S, A>, fuel: nat): Option<seq<S>>
    decreases fuel
  {
    if fuel == 0 then None
    else match HashAsWritten(n, fuel - 1)
      case None => None
      case Some(fed) => Some(fed + if n.parent.Some? then [n.parent.value.state] else [])
  }

  /**
   * However deep the stack, `hash(into:)` as written never returns. The
   * claim rests on the encoding above, which makes the self-call come before
   * any feed; given that encoding the induction is routine.
   */
  lemma {:induction false} HashAsWrittenNeverReturns<S, A>(n: Node<S, A>, fuel: nat)
    ensures HashAsWritten(n, fuel) == None
  {
    if fuel > 0 {
      HashAsWrittenNeverReturns(n, fuel - 1);
    }
  }

  /**
   * What `hash(into:)` evidently means to feed the hasher: the node's state,
   * then its parent's state when it has a parent.
   */
  function HashFeed<S, A>(n: Node<S, A>): seq<S>
  {
    [n.state] + if n.parent.Some? then [n.parent.value.state] else []
  }

  /**
   * The corrected hash agrees with `==`: two nodes feed the hasher the same
   * values iff they are equal.
   */
  lemma HashFeedMatchesEq<S, A>(l: Node<S, A>, r: Node<S, A>)
    ensures HashFeed(l) == HashFeed(r) <==> NodeEq(l, r)
  {
    if HashFeed(l) == HashFeed(r) {
      assert |HashFeed(l)| == |HashFeed(r)|;
      assert HashFeed(l)[0] == HashFeed(r)[0];
      if l.parent.Some? {
        assert HashFeed(l)[1] == HashFeed(r)[1];
      }
    }
  }
}
