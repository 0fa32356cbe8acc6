/**
 * The repository's test scenarios, stated over the model: the forward
 * puzzle solved by depth-limited search with limit 4, the reverse puzzle
 * solved by breadth-first search, `combine(6, 4)` and `generateBinaries(6)`.
 */
module TestScenarios {
  import opened Wrappers
  import opened Problems
  import opened GraphSearch
  import opened DepthLimitedSearch
  import opened BreadthFirstSearch
  import opened AlphaOmega
  import opened Combinations
  import opened Binaries

  /** The first switch at a location is the one at `k` when no earlier switch is there. */
  lemma FirstIndexAt(gs: seq<Generator>, loc: Location, k: nat)
    requires k < |gs| && gs[k].location == loc
    requires forall j | 0 <= j < k :: gs[j].location != loc
    ensures FirstIndex(gs, loc) == k
  {
  }

  /** Any problem whose transitions are the puzzle's keeps to the panels of one switch layout. */
  lemma PanelsClosed(p: Problem<PanelState, Generator>, locs: seq<Location>)
    requires forall a, t :: p.result(a, t) == GetResult(a, t)
    ensures ClosedUnder(p, PanelsAt(locs))
  {
    forall t | t in PanelsAt(locs) ensures SuccessorsIn(p, t, PanelsAt(locs)) {
      forall a | a in p.actions(t) ensures p.result(a, t) in PanelsAt(locs) {
        PanelsAtClosed(locs, t, a);
      }
    }
  }

  /** The panel of `testForwardSearch`: buttons 1 and 3 red. */
  const ForwardColors: Colors := [Green, Red, Green, Red, Green, Green]

  const ForwardSwitches: seq<Generator> := [
    Generator(Storage, Down), Generator(Solitary, Down), Generator(Generators, Up),
    Generator(Beds, Up), Generator(Diner, Up), Generator(Lounge, Down)
  ]

  /** Throwing diner, generators, storage and solitary once each. */
  const ForwardPath: seq<Generator> := [
    Generator(Diner, Down), Generator(Generators, Down), Generator(Storage, Up), Generator(Solitary, Up)
  ]

  /** Four actions, each available in the state the previous ones lead to, form a legal path. */
  lemma LegalFour<S, A>(p: Problem<S, A>, s0: S, a0: A, a1: A, a2: A, a3: A)
    requires a0 in p.actions(s0)
    requires a1 in p.actions(p.result(a0, s0))
    requires a2 in p.actions(p.result(a1, p.result(a0, s0)))
    requires a3 in p.actions(p.result(a2, p.result(a1, p.result(a0, s0))))
    ensures Legal(p, s0, [a0, a1, a2, a3])
  {
    var s1 := p.result(a0, s0);
    var s2 := p.result(a1, s1);
    var s3 := p.result(a2, s2);
    assert Legal(p, s3, [a3]);
    assert [a0, a1, a2, a3][1..] == [a1, a2, a3];
    assert [a1, a2, a3][1..] == [a2, a3];
    assert [a2, a3][1..] == [a3];
  }

  /** A throw leaves every switch at another location as it was. */
  lemma ThrowElsewhere(a: Generator, s: PanelState, k: nat)
    requires k < |s.switches| && s.switches[k].location != a.location
    ensures |GetResult(a, s).switches| == |s.switches| && GetResult(a, s).switches[k] == s.switches[k]
  {
  }

  /**
   * The switch each throw of the forward test path toggles, in the panel it
   * is thrown in: diner, generators and storage are each still in their
   * starting position when thrown.
   */
  lemma ForwardSwitchesAfter(p: Problem<PanelState, Generator>)
    requires forall a, t :: p.result(a, t) == GetResult(a, t)
    requires p.initial.switches == ForwardSwitches
    ensures var s1 := p.result(Generator(Diner, Down), p.initial);
            var s2 := p.result(Generator(Generators, Down), s1);
            var s3 := p.result(Generator(Storage, Up), s2);
            |s1.switches| == 6 && s1.switches[2] == Generator(Generators, Up)
            && |s2.switches| == 6 && s2.switches[0] == Generator(Storage, Down)
            && |s3.switches| == 6 && s3.switches[1] == Generator(Solitary, Down)
  {
    var s0 := p.initial;
    var s1 := p.result(Generator(Diner, Down), s0);
    var s2 := p.result(Generator(Generators, Down), s1);
    assert s0.switches[0] == Generator(Storage, Down);
    assert s0.switches[1] == Generator(Solitary, Down);
    assert s0.switches[2] == Generator(Generators, Up);
    ThrowElsewhere(Generator(Diner, Down), s0, 0);
    ThrowElsewhere(Generator(Diner, Down), s0, 1);
    ThrowElsewhere(Generator(Diner, Down), s0, 2);
    ThrowElsewhere(Generator(Generators, Down), s1, 0);
    ThrowElsewhere(Generator(Generators, Down), s1, 1);
    ThrowElsewhere(Generator(Storage, Up), s2, 1);
  }

  /**
   * Any problem with the puzzle's actions and transitions that starts from
   * the forward test's switches can throw the four switches in turn.
   */
  lemma ForwardThrowsLegal(p: Problem<PanelState, Generator>)
    requires forall t :: p.actions(t) == GetAvailableActions(t)
    requires forall a, t :: p.result(a, t) == GetResult(a, t)
    requires p.initial.switches == ForwardSwitches
    ensures Legal(p, p.initial, ForwardPath)
  {
    ForwardSwitchesAfter(p);
    var a0, a1, a2, a3 := Generator(Diner, Down), Generator(Generators, Down), Generator(Storage, Up), Generator(Solitary, Up);
    var s0 := p.initial;
    var s1 := p.result(a0, s0);
    var s2 := p.result(a1, s1);
    var s3 := p.result(a2, s2);
    assert GetAvailableActions(s0)[4] == a0;
    assert GetAvailableActions(s1)[2] == a1;
    assert GetAvailableActions(s2)[0] == a2;
    assert GetAvailableActions(s3)[1] == a3;
    LegalFour(p, s0, a0, a1, a2, a3);
  }

  /** Four throws, one per location, are available in turn from the forward test panel. */
  lemma ForwardPathLegal()
    ensures var p := ForwardProblem(ForwardColors, ForwardSwitches);
            Legal(p, p.initial, ForwardPath)
  {
    ForwardThrowsLegal(ForwardProblem(ForwardColors, ForwardSwitches));
  }

  /**
   * How often the four throws flip each button: buttons 0, 2, 4 and 5 twice,
   * button 1 once and button 3 three times.
   */
  lemma ForwardFlipCounts()
    ensures FlipCount(ForwardPath, 0) == 2 && FlipCount(ForwardPath, 1) == 1
    ensures FlipCount(ForwardPath, 2) == 2 && FlipCount(ForwardPath, 3) == 3
    ensures FlipCount(ForwardPath, 4) == 2 && FlipCount(ForwardPath, 5) == 2
  {
  }

  /**
   * From the forward test's colours, any throws that flip buttons 1 and 3
   * an odd number of times and the others an even number of times turn
   * every button green.
   */
  lemma ForwardGreens(p: Problem<PanelState, Generator>, path: seq<Generator>)
    requires forall a, t :: p.result(a, t) == GetResult(a, t)
    requires p.initial.colors == ForwardColors
    requires FlipCount(path, 0) % 2 == 0 && FlipCount(path, 1) % 2 == 1
    requires FlipCount(path, 2) % 2 == 0 && FlipCount(path, 3) % 2 == 1
    requires FlipCount(path, 4) % 2 == 0 && FlipCount(path, 5) % 2 == 0
    ensures forall i | 0 <= i < 6 :: Run(p, p.initial, path).colors[i] == Green
  {
    forall i | 0 <= i < 6 ensures Run(p, p.initial, path).colors[i] == Green {
      RunColors(p, p.initial, path, i);
    }
  }

  /** The four throws solve the forward test panel. */
  lemma ForwardPathGoal()
    ensures var p := ForwardProblem(ForwardColors, ForwardSwitches);
            p.isGoal(Run(p, p.initial, ForwardPath))
  {
    var p := ForwardProblem(ForwardColors, ForwardSwitches);
    ForwardFlipCounts();
    ForwardGreens(p, ForwardPath);
    ForwardIsGoalMeans(Run(p, p.initial, ForwardPath));
  }

  /**
   * `testForwardSearch`: depth-limited search with limit 4 finds a legal
   * solution of at most four throws that leaves every button green.
   */
  method TestForwardSearch() returns (r: Option<seq<Generator>>)
    ensures r.Some?
    ensures var p := ForwardProblem(ForwardColors, ForwardSwitches);
            |r.value| <= 4 && Legal(p, p.initial, r.value) && p.isGoal(Run(p, p.initial, r.value))
  {
    var p := ForwardProblem(ForwardColors, ForwardSwitches);
    var dls := new DepthLimited<PanelState, Generator>(4);
    r := dls.Solve(p);
    ForwardPathLegal();
    ForwardPathGoal();
    LegalGoalWithin(p, p.initial, ForwardPath);
  }

  /** The reverse test's target: every button green. */
  const AllGreen6: seq<ButtonColor> := [Green, Green, Green, Green, Green, Green]

  /** Throwing the beds switch down and up again. */
  const ReversePath: seq<Generator> := [Generator(Beds, Down), Generator(Beds, Up)]

  /** The two throws return to the all-green panel, a goal of the reverse test. */
  lemma ReversePathSolves()
    ensures var p := ReverseProblem(AllGreen6);
            Legal(p, p.initial, ReversePath) && p.isGoal(Run(p, p.initial, ReversePath))
  {
    var p := ReverseProblem(AllGreen6);
    var path := ReversePath;
    var s0 := p.initial;
    assert GetAvailableActions(s0)[0] == path[0];
    FirstIndexAt(s0.switches, Beds, 0);
    var s1 := GetResult(path[0], s0);
    assert GetAvailableActions(s1)[0] == path[1];
    var s2 := GetResult(path[1], s1);
    ResultColorsTwice(path[0], path[1], s0);
    assert Run(p, s1, path[1..]) == s2;
    assert Run(p, s0, path) == s2;
    ReverseIsGoalMeans(s2, AllGreen6);
    assert Legal(p, s1, path[1..]);
  }

  /** The panels of the reverse test's switch layout. */
  ghost const ReversePanels: set<PanelState> := PanelsAt(Locations(ReverseStartSwitches))

  /** The reverse test's panels hold the start and are closed under every throw. */
  lemma ReversePanelsClosed()
    ensures var p := ReverseProblem(AllGreen6);
            p.initial in ReversePanels && ClosedUnder(p, ReversePanels)
  {
    var p := ReverseProblem(AllGreen6);
    PanelsAtExact(Locations(ReverseStartSwitches), p.initial);
    PanelsClosed(p, Locations(ReverseStartSwitches));
  }

  /**
   * A fresh breadth-first search on a problem with a solution of at least
   * one step finds a solution of at least one step, and none longer than
   * the given one.
   */
  method SolveByBfs<S(==), A(!new)>(p: Problem<S, A>, ghost universe: set<S>, ghost path: seq<A>) returns (r: Option<seq<A>>)
    requires p.initial in universe && ClosedUnder(p, universe)
    requires |path| >= 1 && Legal(p, p.initial, path) && p.isGoal(Run(p, p.initial, path))
    ensures r.Some? && |r.value| >= 1 && Legal(p, p.initial, r.value) && p.isGoal(Run(p, p.initial, r.value))
    ensures |r.value| <= |path|
  {
    var bfs := new BFS<S, A>();
    r := bfs.Solve(p, universe);
  }

  /**
   * `testReverseProblem`: breadth-first search from the all-green panel
   * towards the all-green target finds a solution. The root is not
   * goal-tested, so the solution has at least one throw; it is a shortest
   * one, so it has at most the two throws of beds down and up.
   */
  method TestReverseProblem() returns (r: Option<seq<Generator>>)
    ensures r.Some?
    ensures var p := ReverseProblem(AllGreen6);
            |r.value| >= 1 && Legal(p, p.initial, r.value) && p.isGoal(Run(p, p.initial, r.value))
    ensures |r.value| <= 2
  {
    var p := ReverseProblem(AllGreen6);
    ReversePanelsClosed();
    ReversePathSolves();
    r := SolveByBfs(p, ReversePanels, ReversePath);
  }

  /** `testBacktracking`: `combine(6, 4)` gives 15 draws of four of the six buttons. */
  method TestBacktracking() returns (draws: seq<seq<int>>)
    ensures |draws| == 15
    ensures forall c | c in draws :: IsCombination(c, 6, 4)
  {
    draws := Combine(6, 4);
    CombineSixFour();
  }

  /** `testBinaryGeneration`: `generateBinaries(6)` has 1 << 6 rows. */
  method TestBinaryGeneration() returns (rows: seq<seq<int>>)
    ensures |rows| == 64
  {
    rows := GenerateBinaries(6);
    GenerateSixRows();
  }
}
