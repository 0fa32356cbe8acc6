# ZTronProblemSolver search engine, modelled in Dafny

ZTronProblemSolver is a generic state-space search engine written in Swift. A
problem gives an initial state, the actions available in a state, the state an
action leads to, a goal test and a step cost. A strategy searches for a sequence
of actions that leads from the initial state to a goal state.

This project models the engine and proves properties of the model:

- **Search nodes** (`search_node.dfy`). A node is an immutable record of a state,
  the action that produced it, its parent, its cumulative cost and its depth. A
  solution is rebuilt by walking the parent links, collecting the actions and
  reversing the list.
- **The frontiers and the explored set** (`frontiers.dfy`). They are modelled at
  the level of the calls the strategies make: FIFO and LIFO sequences of nodes, a
  min-priority frontier with `pushIfBetter`, and a set of explored states.
- **The six strategies**, each proved against what its source promises:
  - breadth-first search (`bfs.dfy`): goal test when a child is generated, and
    a shortest solution among those of one action or more;
  - depth-first search (`dfs.dfy`): goal test when a node is popped;
  - depth-limited search (`dls.dfy`): recursive, with a three-way solved, cut-off
    or failed outcome;
  - iterative deepening (`iterative_deepening.dfy`);
  - A* (`astar.dfy`): the frontier is keyed by `CostPlusHeuristic`, a node's
    path cost plus the heuristic's estimate for it;
  - uniform-cost search (`uniform_cost.dfy`): A* with a zero heuristic, so the
    key is the path cost alone.

  The reasoning BFS, DFS and A* share lives in `graph_search.dfy`. It covers the
  frontier and explored-set bookkeeping, the rule that admits each state at most
  once, and the argument that an exhausted frontier means no goal is reachable.
- **The Alpha-Omega switch puzzle** (`alpha_omega.dfy`), the concrete problem of
  the repository's tests. Six switches sit at six locations. Throwing a switch
  toggles it and flips the colours of three fixed buttons out of six. The forward
  problem wants every button green. The reverse problem starts from the all-green
  panel and wants a target colouring.
- **`combine`** (`combinations.dfy`): backtracking over the k-element combinations
  of 0 ..< n.
- **`generateBinaries`** (`binaries.dfy`): the n-digit binary forms of 0 ..< 2^n.
- **The test scenarios** (`scenarios.dfy`), each restated with a proof:
  - depth-limited search with limit 4 solves the forward puzzle;
  - breadth-first search solves the reverse puzzle;
  - `combine(6, 4)` has 15 entries;
  - `generateBinaries(6)` has 64 rows.

Modelling choices:

- **Problem.** It is a record of total functions (`problems.dfy`). Costs are
  natural numbers.
- **Strategies that mutate state.** BFS, DFS, A* and uniform-cost search are
  classes whose methods update their frontier and explored set in place.
- **Termination.** The search loops of BFS, DFS and A* take a ghost finite set of
  states that holds the initial state and is closed under the transitions. The
  number of its states not yet explored decreases at every turn.
- **Solutions.** A solution is stated through `Run` (the state a path leads to),
  `Legal` (every action is available where it is taken) and `PathCost` (the sum
  of the step costs).

## Model

| member | source | states |
|---|---|---|
| SearchNodes.MakeRootNode | Sources/ZTronProblemSolver/SearchNode.swift:52-54 | The root holds the initial state with no action, no parent, cost 0 and depth 0, and its path is empty |
| SearchNodes.MakeNode | Sources/ZTronProblemSolver/SearchNode.swift:19-50 | The child's state is the result of the action on the parent's state; its action and parent are the given ones; its cost is the parent's plus the step cost; its depth is the parent's plus one; its path is the parent's path followed by the action |
| SearchNodes.ChainPath | Sources/ZTronProblemSolver/SearchNode.swift:11-54 | Along a chain of makeNode calls from a root, only the root lacks an action. The path therefore has exactly depth actions; replaying it from the root's state gives the node's state; its step costs sum to the node's cost |
| SearchNodes.ExtendRoundTrip | Sources/ZTronProblemSolver/SearchNode.swift:42-48 | Building nodes with the actions of a path and reading the parent chain back gives the original path after the start node's own, in order; depth grows by the path's length |
| SearchNodes.BuildFromRoot | Sources/ZTronProblemSolver/SearchNode.swift:42-54 | From a root, the reconstructed path is exactly the list of actions the nodes were built with |
| SearchNodes.RootIsTreeNode | Sources/ZTronProblemSolver/SearchNode.swift:52-54 | The root of the initial state is a node of the search tree |
| SearchNodes.ExpandTreeNode | Sources/ZTronProblemSolver/SearchNode.swift:19-50 | Expanding a search-tree node by one of its available actions gives a search-tree node |
| SearchNodes.TreeNodePath | Sources/ZTronProblemSolver/SearchNode.swift:42-48 | A search-tree node's path is legal from the initial state, leads to the node's state, has depth actions, and its step costs sum to the node's cost |
| SearchNodes.ReconstructPath | Sources/ZTronProblemSolver/Strategies/DFS.swift:22-32 | Walking the parent links, collecting each action and reversing the list gives exactly the node's path from the root |
| SearchNodes.NodeEqEquivalence | Sources/ZTronProblemSolver/SearchNode.swift:56-70 | Node `==` is reflexive, symmetric and transitive; equal nodes hold equal states, and a root never equals a non-root |
| SearchNodes.NodeEqIgnoresHistory | Sources/ZTronProblemSolver/SearchNode.swift:56-70 | There are `==` nodes whose actions, paths and grandparents differ: one concrete pair that shares its state and its parent's state |
| SearchNodes.HashAsWrittenNeverReturns | Sources/ZTronProblemSolver/SearchNode.swift:72-77 | `hash(into:)` as written calls itself on the same node before feeding anything, so it never returns however deep the stack |
| SearchNodes.HashFeedMatchesEq | Sources/ZTronProblemSolver/SearchNode.swift:72-77 | The corrected hash feeds the state, then the parent's state when there is a parent; two nodes feed equal values iff they are `==` |
| Frontiers.Includes | Sources/ZTronProblemSolver/Strategies/BFS.swift:44-45 | `includes(state)` holds iff some node on the frontier holds the state |
| Frontiers.InsertIfNotPresent | Sources/ZTronProblemSolver/Strategies/BFS.swift:21 | The state is in the new set and nothing else is added; the flag is true iff the state was absent |
| Frontiers.Push | Sources/ZTronProblemSolver/Strategies/DFS.swift:44-46 | The node is appended after the old nodes, the frontier's states gain its state, and states stay distinct when it was new |
| Frontiers.RemoveAt | Sources/ZTronProblemSolver/Strategies/DFS.swift:18 | Taking a node leaves one node fewer, all from the old frontier; with distinct states, exactly the taken node's state leaves |
| Frontiers.LifoTakesLastPushed | Sources/ZTronProblemSolver/Strategies/DFS.swift:15-18 | On the LIFO frontier the node pushed last is the next taken, and taking it gives back the frontier from before the push |
| Frontiers.FifoKeepsFront | Sources/ZTronProblemSolver/Strategies/BFS.swift:15-18 | On the FIFO frontier a push leaves the front node in front, and taking it commutes with the push |
| Frontiers.IndexOfState | Sources/ZTronProblemSolver/Strategies/AStar.swift:54-55 | The position lookup finds no position iff the state is not on the frontier, and otherwise a position holding the state |
| Frontiers.PushIfBetter | Sources/ZTronProblemSolver/Strategies/AStar.swift:53-57 | For a state not on the frontier it is a push. Otherwise states stay distinct, the set of states is unchanged, and no node other than the new one appears |
| Frontiers.PushIfBetterReplaces | Sources/ZTronProblemSolver/Strategies/AStar.swift:53-57 | When the state is on the frontier, its node is replaced by the new one iff the new priority is strictly lower; otherwise the frontier is unchanged |
| Frontiers.MinPriorityIndex | Sources/ZTronProblemSolver/Strategies/AStar.swift:23 | `next` takes a node whose priority is no greater than any other's (the first such) |
| GraphSearch.ClosedReach | Sources/ZTronProblemSolver/Strategies/BFS.swift:17-51 | A legal path from a state of a transition-closed set stays in that set, which bounds every search loop |
| GraphSearch.AdmitStep | Sources/ZTronProblemSolver/Strategies/BFS.swift:44-46 | Pushing a child whose state is neither explored nor on the frontier keeps the frontier invariant, and the log of admitted states stays free of repeats |
| GraphSearch.ReplaceStep | Sources/ZTronProblemSolver/Strategies/AStar.swift:50-57 | Handing a child whose state is on the frontier to `pushIfBetter` keeps the frontier invariant and the set of seen states |
| GraphSearch.PopStep | Sources/ZTronProblemSolver/Strategies/DFS.swift:18-19 | The node taken off the frontier is a search-tree node whose state is not yet explored; marking it explored keeps the invariant |
| GraphSearch.ExhaustedNoGoal | Sources/ZTronProblemSolver/Strategies/DFS.swift:17-53 | Suppose every explored state was expanded into explored states and none is a goal. Then no legal path from an explored state reaches a goal |
| GraphSearch.ExhaustedNoGoalBeyond | Sources/ZTronProblemSolver/Strategies/BFS.swift:17-53 | Suppose no explored state has a goal successor and every explored state was expanded into explored states. Then no legal path of one action or more from an explored state reaches a goal |
| GraphSearch.PushNewChildrenShape | Sources/ZTronProblemSolver/Strategies/DFS.swift:38-49 | The loop of BFS and DFS over a node's actions keeps the old frontier in front, in order. Behind it come at most one node per action, each a child of the node whose state was neither explored nor on the old frontier, and states stay distinct. Afterwards every successor by those actions is explored or on the frontier |
| BreadthFirstSearch.BFS.constructor | Sources/ZTronProblemSolver/Strategies/BFS.swift:7-11 | A new strategy has an empty frontier and an empty explored set |
| BreadthFirstSearch.BFS.Reset | Sources/ZTronProblemSolver/Strategies/BFS.swift:56-59 | `reset` installs an empty frontier and an empty explored set |
| BreadthFirstSearch.BFS.Solve | Sources/ZTronProblemSolver/Strategies/BFS.swift:13-54 | The root is never goal-tested, so a solution has at least one action; it is legal and reaches a goal, and no legal goal-reaching path of one action or more is shorter. The result is nil iff no legal path of one action or more reaches a goal, and the frontier is then empty. Each state is admitted to the frontier at most once |
| BreadthFirstSearch.BFS.Step | Sources/ZTronProblemSolver/Strategies/BFS.swift:17-50 | The front node's state joins the explored set, and the result and new queue are those of the child loop over its actions from the rest of the queue. A solution is legal, reaches a goal and is a shortest one of at least one action; otherwise the level-order invariant is kept and one state more is explored |
| BreadthFirstSearch.BFS.PopFront | Sources/ZTronProblemSolver/Strategies/BFS.swift:18-21 | `next` takes the front node, whose state is not yet explored, and leaves the rest of the queue in order |
| BreadthFirstSearch.BFS.GenerateChildren | Sources/ZTronProblemSolver/Strategies/BFS.swift:21-50 | The popped state joins the explored set before its children are generated. The result and the new queue are what the child loop gives: the first goal child's path, or the new children pushed in action order. A solution has one action more than the node's depth, and no legal goal path of at least one action is shorter; with no goal child the queue is back in level order |
| BreadthFirstSearch.BFS.GenerateEach | Sources/ZTronProblemSolver/Strategies/BFS.swift:25-50 | The loop over the actions gives exactly the child-loop result and queue. A solution has one action more than the node's depth, is legal and reaches a goal. Otherwise every successor has been seen and none is a goal, and the queue stays layered |
| BreadthFirstSearch.BFS.GenerateOne | Sources/ZTronProblemSolver/Strategies/BFS.swift:27-48 | One child: a goal child ends the loop with its path, one action longer than the node's; any other child is pushed iff its state is neither explored nor on the frontier, which keeps the loop invariant one action further |
| BreadthFirstSearch.ExpandFifoNoGoal | Sources/ZTronProblemSolver/Strategies/BFS.swift:25-50 | With no goal child, the BFS child loop returns nothing and pushes the new children exactly as DFS's loop does |
| BreadthFirstSearch.ExpandFifoFirstGoal | Sources/ZTronProblemSolver/Strategies/BFS.swift:31-42 | When the child of action i is the first goal child, the loop returns the node's path followed by that action, and the queue is what the earlier children left |
| BreadthFirstSearch.LevelOrderPop | Sources/ZTronProblemSolver/Strategies/BFS.swift:18 | Taking the front of a level-ordered queue: every state closer than the front node is explored, and the rest of the queue lies at the front's depth or one more |
| BreadthFirstSearch.SeenWithin | Sources/ZTronProblemSolver/Strategies/BFS.swift:17-50 | If every state closer than d is explored and every explored state's successors are seen, every state within d actions is seen |
| BreadthFirstSearch.LayeredPush | Sources/ZTronProblemSolver/Strategies/BFS.swift:44-46 | Pushing an unseen child one level below the popped node keeps the queue's depths non-decreasing within two consecutive values. The child's depth is its state's distance from the initial state |
| BreadthFirstSearch.LevelOrderNext | Sources/ZTronProblemSolver/Strategies/BFS.swift:17-50 | After a node's children are generated with no goal, every state closer than the new front node is explored |
| BreadthFirstSearch.NoGoalWithin | Sources/ZTronProblemSolver/Strategies/BFS.swift:25-46 | If every state closer than d is explored and none has a goal successor, no legal path of 1 to d actions reaches a goal |
| DepthFirstSearch.DFS.constructor | Sources/ZTronProblemSolver/Strategies/DFS.swift:7-11 | A new strategy has an empty frontier and an empty explored set |
| DepthFirstSearch.DFS.Reset | Sources/ZTronProblemSolver/Strategies/DFS.swift:56-59 | `reset` installs an empty frontier and an empty explored set |
| DepthFirstSearch.DFS.Solve | Sources/ZTronProblemSolver/Strategies/DFS.swift:13-54 | A solution is legal and reaches a goal, and an initially-goal problem gives the empty solution. The result is nil iff no legal path reaches a goal, with the frontier exhausted. Frontier and explored states stay disjoint, and no state is admitted twice |
| DepthFirstSearch.DFS.Search | Sources/ZTronProblemSolver/Strategies/DFS.swift:17-53 | The loop ends with a search-tree node whose state is a goal (the root when the initial state is one), or with an empty frontier and no legal path to a goal |
| DepthFirstSearch.DFS.Step | Sources/ZTronProblemSolver/Strategies/DFS.swift:18-49 | The last node is taken. If it is a goal it is returned and the explored set is unchanged. Otherwise its state is explored, and the stack becomes the rest of it with the new children pushed in action order; the loop invariant is kept and one state more is explored |
| DepthFirstSearch.DFS.PopLast | Sources/ZTronProblemSolver/Strategies/DFS.swift:18-19 | `next` takes the most recently pushed node and leaves the rest of the stack as it was |
| DepthFirstSearch.DFS.Expand | Sources/ZTronProblemSolver/Strategies/DFS.swift:34-49 | A non-goal popped state joins the explored set. The new stack is the old one with each child pushed, in action order, iff its state is neither explored nor already on the stack; afterwards every successor is explored or on the frontier |
| DepthFirstSearch.DFS.PushOne | Sources/ZTronProblemSolver/Strategies/DFS.swift:40-47 | One child is pushed iff its state is neither explored nor on the stack, which keeps the loop invariant, the stack included, one action further |
| DepthLimitedSearch.Dls | Sources/ZTronProblemSolver/Strategies/DLS.swift:23-70 | No outcome carries both actions and a cutoff. A goal node gives its path with no cutoff, even at limit 0. A non-goal node at limit 0 gives (nil, cutoff) |
| DepthLimitedSearch.DlsChildren | Sources/ZTronProblemSolver/Strategies/DLS.swift:43-66 | The loop over the children never yields both actions and a cutoff |
| DepthLimitedSearch.DlsExact | Sources/ZTronProblemSolver/Strategies/DLS.swift:23-70 | Actions are found iff a goal lies within `limit` actions. A cutoff is reported iff none does and some legal path of exactly `limit` actions exists |
| DepthLimitedSearch.DlsChildrenExact | Sources/ZTronProblemSolver/Strategies/DLS.swift:43-66 | The children's loop finds actions iff some remaining child has a goal within `limit - 1`. It reports a cutoff iff none does and either an earlier child was cut off or some remaining child has a legal path of exactly `limit - 1` actions |
| DepthLimitedSearch.DlsSolutionSound | Sources/ZTronProblemSolver/Strategies/DLS.swift:27-38 | A solution extends the node's own path by at most `limit` legal actions that reach a goal |
| DepthLimitedSearch.DlsChildrenSound | Sources/ZTronProblemSolver/Strategies/DLS.swift:47-58 | A solution returned by the children's loop extends the node's path by at most `limit` legal actions that reach a goal |
| DepthLimitedSearch.FirstSolvedChildWins | Sources/ZTronProblemSolver/Strategies/DLS.swift:47-58 | The first child whose search returns actions decides the result; later children are not looked at |
| DepthLimitedSearch.NoSolvedChild | Sources/ZTronProblemSolver/Strategies/DLS.swift:62-66 | With no child solved, the result is nil with a cutoff iff some child reported one |
| DepthLimitedSearch.RecursiveDls | Sources/ZTronProblemSolver/Strategies/DLS.swift:23-70 | The recursive method with its loop over the actions computes exactly the outcome `Dls` specifies |
| DepthLimitedSearch.DlsSolutionSpec | Sources/ZTronProblemSolver/Strategies/DLS.swift:15-21 | From the initial state, a solution exists iff a goal lies within `limit` actions; it is legal, reaches a goal and has at most `limit` actions |
| DepthLimitedSearch.DepthLimited.constructor | Sources/ZTronProblemSolver/Strategies/DLS.swift:10-13 | The strategy keeps the given limit |
| DepthLimitedSearch.DepthLimited.Solve | Sources/ZTronProblemSolver/Strategies/DLS.swift:15-21 | The actions part of the outcome is returned. It is non-nil iff a goal lies within the limit, and is then a legal goal-reaching path of at most `limit` actions |
| IterativeDeepeningSearch.IterativeDeepening.constructor | Sources/ZTronProblemSolver/Strategies/IterativeDeepening.swift:6-9 | The strategy keeps the given limit |
| IterativeDeepeningSearch.IterativeDeepening.Unbounded | Sources/ZTronProblemSolver/Strategies/IterativeDeepening.swift:6 | The default limit is the largest 64-bit integer |
| IterativeDeepeningSearch.IterativeDeepening.Solve | Sources/ZTronProblemSolver/Strategies/IterativeDeepening.swift:11-25 | The result is the depth-limited result at some limit i below the bound, every smaller limit having failed. It is nil iff the bound is 0 or no goal lies within `limit - 1` actions. A solution is legal, reaches a goal and is no longer than any other solution |
| IterativeDeepeningSearch.ShortestAmongSolutions | Sources/ZTronProblemSolver/Strategies/IterativeDeepening.swift:14-21 | The first depth-limited solution found is no longer than any legal goal-reaching path |
| IterativeDeepeningSearch.FirstSolutionLength | Sources/ZTronProblemSolver/Strategies/IterativeDeepening.swift:14-21 | A solution first found at limit i has exactly i actions |
| IterativeDeepeningSearch.AllSmallerLimitsFail | Sources/ZTronProblemSolver/Strategies/IterativeDeepening.swift:14-24 | Every limit below i fails iff i is 0 or no goal lies within i - 1 actions |
| AStarSearch.AStar.constructor | Sources/ZTronProblemSolver/Strategies/AStar.swift:9-16 | The frontier is keyed by cost plus heuristic; frontier and explored set start empty; no cost is recorded |
| AStarSearch.AStar.Reset | Sources/ZTronProblemSolver/Strategies/AStar.swift:66-72 | `reset` empties the frontier and the explored set and clears the recorded cost; the priority stays cost plus heuristic |
| AStarSearch.AStar.GetOptimalSolutionCost | Sources/ZTronProblemSolver/Strategies/AStar.swift:74-76 | Returns the recorded cost |
| AStarSearch.AStar.Solve | Sources/ZTronProblemSolver/Strategies/AStar.swift:18-64 | A solution is legal and reaches a goal, and the recorded cost is the sum of its step costs. The result is nil iff no legal path reaches a goal; the recorded cost is then unchanged. An initially-goal problem gives the empty solution with cost 0 |
| AStarSearch.AStar.Search | Sources/ZTronProblemSolver/Strategies/AStar.swift:22-63 | The loop ends with a goal search-tree node (the root when the initial state is a goal), or with an empty frontier and no legal path to a goal |
| AStarSearch.AStar.Step | Sources/ZTronProblemSolver/Strategies/AStar.swift:23-59 | The node of least priority at some position k is taken. If it is a goal it is returned and the explored set is unchanged. Otherwise its state is explored and its children are handed, in action order, to the rest of the frontier; the loop invariant is kept and one state more is explored |
| AStarSearch.AStar.PopMin | Sources/ZTronProblemSolver/Strategies/AStar.swift:23 | `next` takes the node at some position k, whose priority is no greater than that of any node on the frontier, and leaves the frontier without it; its state is not yet explored |
| AStarSearch.AStar.Expand | Sources/ZTronProblemSolver/Strategies/AStar.swift:40-59 | The popped state joins the explored set. The new frontier is the old one after each child, in action order, is pushed when new, sent to `pushIfBetter` when its state is on the frontier, and dropped when its state is explored only. Afterwards every successor is explored or on the frontier |
| AStarSearch.AStar.HandOne | Sources/ZTronProblemSolver/Strategies/AStar.swift:46-57 | One child is pushed, sent to `pushIfBetter` or dropped as above, which keeps the loop invariant, the frontier included, one action further |
| AStarSearch.HandChildrenShape | Sources/ZTronProblemSolver/Strategies/AStar.swift:44-59 | The A* child loop keeps states distinct and loses no state. It adds no explored state, and adds no node that is not a child of the expanded node. Afterwards every successor is explored or on the frontier |
| UniformCostSearch.UniformCost.constructor | Sources/ZTronProblemSolver/Strategies/UniformCost.swift:6-11 | The wrapped A* uses the zero heuristic and starts fresh |
| UniformCostSearch.UniformCost.Solve | Sources/ZTronProblemSolver/Strategies/UniformCost.swift:13-16 | Gives A*'s guarantees: a legal goal-reaching solution whose cost is recorded, and nil iff no legal path reaches a goal |
| UniformCostSearch.UniformCost.Reset | Sources/ZTronProblemSolver/Strategies/UniformCost.swift:18-20 | Resets the wrapped A*, whose recorded cost becomes nil |
| UniformCostSearch.UniformCost.GetOptimalSolutionCost | Sources/ZTronProblemSolver/Strategies/UniformCost.swift:22-24 | Returns the wrapped A*'s recorded cost |
| AlphaOmega.ToggleSwitch | Tests/ZTronProblemSolverTests/ZTronProblemSolverTests.swift:159-161 | Toggling changes a switch's position |
| AlphaOmega.ToggleColor | Tests/ZTronProblemSolverTests/ZTronProblemSolverTests.swift:168-170 | Toggling changes a button's colour |
| AlphaOmega.ToggleInvolutions | Tests/ZTronProblemSolverTests/ZTronProblemSolverTests.swift:159-170 | Toggling twice gives back the switch position and the colour |
| AlphaOmega.ToggleGenerator | Tests/ZTronProblemSolverTests/ZTronProblemSolverTests.swift:217-225 | The toggled copy of a switch keeps its location and changes its position |
| AlphaOmega.Flipped | Tests/ZTronProblemSolverTests/ZTronProblemSolverTests.swift:566-683 | Every location flips exactly three of the six buttons |
| AlphaOmega.FirstIndex | Tests/ZTronProblemSolverTests/ZTronProblemSolverTests.swift:577-579 | `firstIndex` finds the first switch at the location, or the end when none is there |
| AlphaOmega.ReplaceFirst | Tests/ZTronProblemSolverTests/ZTronProblemSolverTests.swift:576-584 | Only the first switch at the action's location is replaced by the action; every other switch and every location stay |
| AlphaOmega.GetAvailableActions | Tests/ZTronProblemSolverTests/ZTronProblemSolverTests.swift:560-564 | One action per switch, at that switch's location with its position toggled |
| AlphaOmega.GetResult | Tests/ZTronProblemSolverTests/ZTronProblemSolverTests.swift:566-683 | A button changes colour iff the action's location flips it. The first switch at that location becomes the action, and the other switches stay |
| AlphaOmega.ResultColorsCommute | Tests/ZTronProblemSolverTests/ZTronProblemSolverTests.swift:566-683 | Two throws change the colours the same way in either order |
| AlphaOmega.ResultColorsTwice | Tests/ZTronProblemSolverTests/ZTronProblemSolverTests.swift:566-683 | Two throws at the same location give back the colours |
| AlphaOmega.AllGreenMeans | Tests/ZTronProblemSolverTests/ZTronProblemSolverTests.swift:686-688 | The `reduce` over the colours is true iff every colour is green |
| AlphaOmega.ForwardIsGoalMeans | Tests/ZTronProblemSolverTests/ZTronProblemSolverTests.swift:685-705 | The forward goal holds iff all six buttons are green |
| AlphaOmega.ZipEqualMeans | Tests/ZTronProblemSolverTests/ZTronProblemSolverTests.swift:908-910 | The `reduce` over the zipped colours is true iff the colours agree with the target over the shorter length |
| AlphaOmega.ReverseIsGoalMeans | Tests/ZTronProblemSolverTests/ZTronProblemSolverTests.swift:907-911 | The reverse goal holds iff the panel agrees with the target wherever both have a colour |
| AlphaOmega.ColorsStringShape | Tests/ZTronProblemSolverTests/ZTronProblemSolverTests.swift:407-411 | The colours string has one raw-value letter per button, in order |
| AlphaOmega.SameStateMeans | Tests/ZTronProblemSolverTests/ZTronProblemSolverTests.swift:421-431 | Panel `==` holds iff the colours are equal, whatever the switches |
| AlphaOmega.SameStateCongruence | Tests/ZTronProblemSolverTests/ZTronProblemSolverTests.swift:421-431 | Panels equal under `==` stay equal after the same throw and agree on both goal tests |
| AlphaOmega.RunKeepsLocations | Tests/ZTronProblemSolverTests/ZTronProblemSolverTests.swift:576-584 | Throws never change which location each switch slot belongs to |
| AlphaOmega.ForwardProblem | Tests/ZTronProblemSolverTests/ZTronProblemSolverTests.swift:548-709 | The forward problem starts from the given panel. Its actions and results are the puzzle's, its goal is all green, and every throw costs 1 |
| AlphaOmega.ReverseProblem | Tests/ZTronProblemSolverTests/ZTronProblemSolverTests.swift:761-915 | The reverse problem starts all green with beds, diner and generators up and the rest down. Its goal is agreement with the target, and every throw costs 1 |
| AlphaOmega.PanelsAtClosed | Tests/ZTronProblemSolverTests/ZTronProblemSolverTests.swift:566-683 | The panels with a given switch layout are closed under every throw |
| AlphaOmega.PanelsAtExact | Tests/ZTronProblemSolverTests/ZTronProblemSolverTests.swift:576-584 | A panel belongs to the panels of a layout iff its switches have exactly those locations |
| AlphaOmega.RunColors | Tests/ZTronProblemSolverTests/ZTronProblemSolverTests.swift:566-683 | After a run of throws, a button has been flipped once per throw whose location flips it, in any order and whatever the switch positions |
| AlphaOmega.UnitPathCost | Tests/ZTronProblemSolverTests/ZTronProblemSolverTests.swift:707-709 | With every step costing 1, a path costs its length |
| Combinations.Backtrack | Tests/ZTronProblemSolverTests/ZTronProblemSolverTests.swift:717-730 | `backtrack(start)` appends, in order, every completion of the current prefix drawn from start ..< n, and leaves the prefix as it found it |
| Combinations.Combine | Tests/ZTronProblemSolverTests/ZTronProblemSolverTests.swift:713-734 | The result holds exactly the strictly increasing length-k lists over 0 ..< n, in strictly increasing lexicographic order. It has n-choose-k entries, and none when k < 0 or k > n |
| Combinations.CombinationsSound | Tests/ZTronProblemSolverTests/ZTronProblemSolverTests.swift:713-734 | Every list produced is a k-combination of 0 ..< n |
| Combinations.CombinationsComplete | Tests/ZTronProblemSolverTests/ZTronProblemSolverTests.swift:713-734 | Every k-combination of 0 ..< n is produced |
| Combinations.CombinationsSorted | Tests/ZTronProblemSolverTests/ZTronProblemSolverTests.swift:725-729 | The lists come out in strictly increasing lexicographic order |
| Combinations.LexSortedDistinct | Tests/ZTronProblemSolverTests/ZTronProblemSolverTests.swift:713-734 | A strictly sorted result has no repeated list |
| Combinations.CombinationsCount | Tests/ZTronProblemSolverTests/ZTronProblemSolverTests.swift:713-734 | The number of lists is the binomial coefficient n over k |
| Combinations.CombineSixFour | Tests/ZTronProblemSolverTests/ZTronProblemSolverTests.swift:51 | `combine(6, 4)` has 15 entries |
| Binaries.ToBinary | Tests/ZTronProblemSolverTests/ZTronProblemSolverTests.swift:741-752 | The written-out form has w entries, each 0 or 1 |
| Binaries.GenerateBinaries | Tests/ZTronProblemSolverTests/ZTronProblemSolverTests.swift:737-758 | There are `1 << n` rows (none for a negative shift count or one of 64 or more), and row i is the n-digit binary form of i, most significant digit first |
| Binaries.FromToBinary | Tests/ZTronProblemSolverTests/ZTronProblemSolverTests.swift:741-752 | Reading back the n digits of a number below 2^n gives the number |
| Binaries.ToFromBinary | Tests/ZTronProblemSolverTests/ZTronProblemSolverTests.swift:741-752 | Writing out the number a digit list stands for gives the list back |
| Binaries.BinariesEnumerate | Tests/ZTronProblemSolverTests/ZTronProblemSolverTests.swift:737-758 | The rows are pairwise distinct binary lists of length n, and every such list is the row at the index it stands for |
| Binaries.GenerateSixRows | Tests/ZTronProblemSolverTests/ZTronProblemSolverTests.swift:75 | `generateBinaries(6)` has 64 rows |
| TestScenarios.ForwardPathLegal | Tests/ZTronProblemSolverTests/ZTronProblemSolverTests.swift:7-17 | Diner, generators, storage and solitary can be thrown in turn from the forward test's panel |
| TestScenarios.ForwardPathGoal | Tests/ZTronProblemSolverTests/ZTronProblemSolverTests.swift:7-17 | Those four throws turn every button of the forward test's panel green |
| TestScenarios.ForwardGreens | Tests/ZTronProblemSolverTests/ZTronProblemSolverTests.swift:8 | From the forward test's colours, throws that flip buttons 1 and 3 an odd number of times and the others an even number of times leave all green |
| TestScenarios.TestForwardSearch | Tests/ZTronProblemSolverTests/ZTronProblemSolverTests.swift:5-31 | Depth-limited search with limit 4 finds a legal solution of at most four throws that turns every button green |
| TestScenarios.ReversePathSolves | Tests/ZTronProblemSolverTests/ZTronProblemSolverTests.swift:34-46 | Throwing beds down and up again is a legal path back to the all-green target |
| TestScenarios.ReversePanelsClosed | Tests/ZTronProblemSolverTests/ZTronProblemSolverTests.swift:768-781 | The reverse problem's start belongs to the finite set of panels with its switch layout, which every throw keeps to |
| TestScenarios.SolveByBfs | Sources/ZTronProblemSolver/Strategies/BFS.swift:13-54 | On a problem that has a given solution of at least one action, breadth-first search returns a legal goal-reaching solution of at least one action and no longer than the given one |
| TestScenarios.TestReverseProblem | Tests/ZTronProblemSolverTests/ZTronProblemSolverTests.swift:34-46 | Breadth-first search finds a legal solution to the all-green target of one or two throws |
| TestScenarios.TestBacktracking | Tests/ZTronProblemSolverTests/ZTronProblemSolverTests.swift:49-51 | `combine(6, 4)` gives 15 draws, each a 4-combination of the six buttons |
| TestScenarios.TestBinaryGeneration | Tests/ZTronProblemSolverTests/ZTronProblemSolverTests.swift:74-76 | `generateBinaries(6)` has `1 << 6` rows |

## Left out

- Throwing problem operations: `throws` from the problem's operations, and the `fatalError` in `makeNode` when one throws, are not modelled. The problem's functions are total, as they are in both concrete problems.
- The default `Problem` and `Frontier` bodies, which throw `OperationNotImplementedException`, are not modelled.
- `os.Logger` debug logging in `makeNode` is not modelled.
- `Float` costs and heuristics are natural numbers, with no rounding.
- Node fields: `getAvailableActions` and `getResult` receive the node in Swift; here they receive its state, which is all either concrete problem reads.
- BreadthFirstSearch.BFS.Solve, DepthFirstSearch.DFS.Solve, AStarSearch.AStar.Solve: they require a fresh strategy (a new one, or one just reset). A second `solve` without `reset`, which starts from the previous run's frontier and explored set, is not modelled.
- BreadthFirstSearch.BFS.Solve, DepthFirstSearch.DFS.Solve, AStarSearch.AStar.Solve: they require a ghost finite set of states that holds the initial state and is closed under the transitions. On an infinite state space these searches need not terminate, and that case is not modelled.
- BreadthFirstSearch.BFS: its action type is restricted to values without heap references (`A(!new)`), because the shortest-solution invariant quantifies over action sequences. Both concrete problems use value types.
- DepthLimitedSearch.DepthLimited.Solve: requires `limit >= 0`. The goal test comes before the `limit == 0` check, so with a negative limit an initial goal still gives `[]`. Otherwise the limit never reaches 0 and the search is an unbounded depth-first tree search: it returns a goal found on the way down, gives nil with no cutoff when every branch runs out of actions, and does not terminate on an infinite descent. That case is not modelled.
- IterativeDeepeningSearch.IterativeDeepening.Solve: requires `limit >= 0`. Swift's `0..<limit` traps for a negative bound.
- `reset` of depth-limited search and iterative deepening does nothing, so it has no member.
- The global `DLSStrategy` variable is not modelled.
- `MinPQFrontier` internals are not modelled: the binary heap, its position table and its tie-breaking. `next` takes the first node of least priority. `pushIfBetter` replaces the entry for the state when the new node's priority is strictly lower.
- AStarSearch.AStar.Solve, UniformCostSearch.UniformCost.Solve: the shipped `MinPQFrontier` does not meet the frontier contract assumed above. `push` records `nodes.count - 1` as the position before appending (MinPQFrontier.swift:21). `next` on a one-node heap marks the popped state present again (28-31). `pushIfBetter` can then read position -1 or the wrong slot (127-136). The A* and uniform-cost guarantees hold only for a correct min-priority frontier.
- `FIFOFrontier` is not part of this model's sources: it is a sequence taken from the front.
- AStarSearch.AStar.Solve: the optimality of the returned cost for an admissible or consistent heuristic is not proved. The contract states that the solution is legal, reaches a goal and costs what is recorded.
- UniformCostSearch.UniformCost.Solve: minimal path cost is not proved, for the same reason as A*.
- `ProblemSolvingAgent` (published status, main-actor updates, errors turned into nil) is UI and concurrency plumbing and is not modelled.
- Engine state equality: the Swift searches compare and hash puzzle states by colours only, so their explored set and frontier treat a whole colouring as one state. The model's searches use Dafny's structural equality and run over whole panels, switches included. The two differ: `getAvailableActions` reads the switches, so colour-equal panels offer different actions, and the Swift dedup merges panels the model keeps apart. AlphaOmega.SameStateCongruence shows only that `==`-equal panels stay equal after the same throw and agree on both goal tests.
- `AlphaOmegaProblemState` hashing, `Generator` hashing (location only) and `generatorsString` are not modelled.
- Panel colours are exactly six. Swift arrays may have any length, but `getResult` indexes buttons up to 5.
- Forward `isGoal` sets an `isUnexpected` flag when the goal's switch positions differ from the `expected` table. The flag is a side effect that does not change the result, and it is not modelled.
- `makeGenerators`, the `WritableDraft` copy-on-write machinery (modelled by value), `print` output and the brute-force enumeration test body are not modelled.
- Binaries.GenerateBinaries: `ceil(log2(Double(i + 1)))` is replaced by the integer bit length. The digit written on each turn lands at `n - 1 - t` after t halvings whatever the bit count, so the value does not matter.
- Binaries.GenerateBinaries: requires `n != 63`, because `1 << 63` is negative and the range traps. 64-bit wrap-around is modelled only in the row count.
- Combinations.Combine: requires `n >= 0 || k == 0`. With a negative `n`, any `k != 0` traps: `combination.count == k` fails at once (never, for `k < 0`), so the range `0..<n` is formed and traps.

## Findings

| source | as written | input that shows it | evidently intended | confidence | as-written member | corrected member |
|---|---|---|---|---|---|---|
| Sources/ZTronProblemSolver/SearchNode.swift:72-77 | `hash(into:)` first calls `hasher.combine(self)`, which runs `hash(into:)` on the same node again | any node, e.g. the root of any problem, hashed into any hasher | feed the node's state, then its parent's state when it has one, matching `==` | not executed | SearchNodes.HashAsWrittenNeverReturns | SearchNodes.HashFeedMatchesEq |
