/**
 * The six-button toggle puzzle the repository's tests search with: a panel of
 * six coloured buttons and six switches, one per location. Throwing a switch
 * flips the colours of three fixed buttons and records the switch's new
 * position. The forward problem looks for an all-green panel from a given
 * one; the reverse problem starts from the all-green panel and looks for a
 * target colouring.
 */
module AlphaOmega {
  import opened Problems

  datatype Location = Beds | Diner | Generators | Storage | Solitary | Lounge

  datatype GeneratorState = Up | Down

  datatype ButtonColor = Red | Green

  /** `GeneratorState.toggled`: the other switch position. */
  function ToggleSwitch(g: GeneratorState): (r: GeneratorState)
    ensures r != g
  {
    if g == Up then Down else Up
  }

  /** `ButtonColor.toggled`: the other colour. */
  function ToggleColor(c: ButtonColor): (r: ButtonColor)
    ensures r != c
  {
    if c == Red then Green else Red
  }

  /** Toggling twice gives back the switch position and the colour. */
  lemma ToggleInvolutions(g: GeneratorState, c: ButtonColor)
    ensures ToggleSwitch(ToggleSwitch(g)) == g
    ensures ToggleColor(ToggleColor(c)) == c
  {
  }

  /** A switch: where it is and which way it is thrown. Its `==` compares both. */
  datatype Generator = Generator(location: Location, state: GeneratorState)

  /**
   * `getMutableCopy().toggle().getImmutableCopy()`: the same switch thrown
   * the other way.
   */
  function ToggleGenerator(g: Generator): (r: Generator)
    ensures r.location == g.location && r.state != g.state
  {
    Generator(g.location, ToggleSwitch(g.state))
  }

  /** The six button colours of a panel. */
  type Colors = c: seq<ButtonColor> | |c| == 6 witness [Green, Green, Green, Green, Green, Green]

  /** AlphaOmegaProblemState: the panel's colours and its switches. */
  datatype PanelState = PanelState(colors: Colors, switches: seq<Generator>)

  /** The buttons a switch at each location flips. */
  function Flipped(loc: Location): (r: set<int>)
    ensures |r| == 3 && forall i | i in r :: 0 <= i < 6
  {
    match loc
    case Beds => {1, 2, 5}
    case Diner => {0, 2, 3}
    case Generators => {2, 3, 4}
    case Storage => {0, 4, 5}
    case Solitary => {1, 3, 5}
    case Lounge => {0, 1, 4}
  }

  /**
   * `generators.firstIndex { $0.getLocation() == loc }`: the position of the
   * first switch at `loc`, or the number of switches when there is none.
   */
  function FirstIndex(gs: seq<Generator>, loc: Location): (k: nat)
    ensures k <= |gs|
    ensures k < |gs| ==> gs[k].location == loc
    ensures forall j | 0 <= j < k :: gs[j].location != loc
    decreases |gs|
  {
    if gs == [] then 0
    else if gs[0].location == loc then 0
    else 1 + FirstIndex(gs[1..], loc)
  }

  /**
   * The switch update of `getResult`: the first switch at the action's
   * location is replaced by the action; with no such switch nothing changes.
   */
  function ReplaceFirst(gs: seq<Generator>, a: Generator): (r: seq<Generator>)
    ensures |r| == |gs|
    ensures forall i | 0 <= i < |gs| && i != FirstIndex(gs, a.location) :: r[i] == gs[i]
    ensures FirstIndex(gs, a.location) < |gs| ==> r[FirstIndex(gs, a.location)] == a
    ensures forall i | 0 <= i < |gs| :: r[i].location == gs[i].location
  {
    var k := FirstIndex(gs, a.location);
    if k < |gs| then gs[k := a] else gs
  }

  /**
   * `getAvailableActions`: every switch of the panel, thrown the other way,
   * in the panel's order.
   */
  function GetAvailableActions(s: PanelState): (r: seq<Generator>)
    ensures |r| == |s.switches|
    ensures forall i | 0 <= i < |r| :: r[i].location == s.switches[i].location && r[i].state != s.switches[i].state
  {
    seq(|s.switches|, i requires 0 <= i < |s.switches| => ToggleGenerator(s.switches[i]))
  }

  /**
   * `getResult`: the three buttons of the action's location change colour,
   * the other three keep theirs, and the action replaces the switch at its
   * location.
   */
  function GetResult(a: Generator, s: PanelState): (r: PanelState)
    ensures forall i | 0 <= i < 6 :: r.colors[i] == if i in Flipped(a.location) then ToggleColor(s.colors[i]) else s.colors[i]
    ensures |r.switches| == |s.switches|
    ensures forall i | 0 <= i < |s.switches| :: r.switches[i].location == s.switches[i].location
    ensures forall i | 0 <= i < |s.switches| && i != FirstIndex(s.switches, a.location) :: r.switches[i] == s.switches[i]
    ensures FirstIndex(s.switches, a.location) < |s.switches| ==> r.switches[FirstIndex(s.switches, a.location)] == a
  {
    var c := s.colors;
    var colors: Colors :=
      match a.location
      case Beds => c[1 := ToggleColor(c[1])][2 := ToggleColor(c[2])][5 := ToggleColor(c[5])]
      case Diner => c[0 := ToggleColor(c[0])][2 := ToggleColor(c[2])][3 := ToggleColor(c[3])]
      case Generators => c[2 := ToggleColor(c[2])][3 := ToggleColor(c[3])][4 := ToggleColor(c[4])]
      case Storage => c[0 := ToggleColor(c[0])][4 := ToggleColor(c[4])][5 := ToggleColor(c[5])]
      case Solitary => c[1 := ToggleColor(c[1])][3 := ToggleColor(c[3])][5 := ToggleColor(c[5])]
      case Lounge => c[0 := ToggleColor(c[0])][1 := ToggleColor(c[1])][4 := ToggleColor(c[4])];
    PanelState(colors, ReplaceFirst(s.switches, a))
  }

  /** Throwing two switches changes the colours the same way in either order. */
  lemma ResultColorsCommute(a: Generator, b: Generator, s: PanelState)
    ensures GetResult(b, GetResult(a, s)).colors == GetResult(a, GetResult(b, s)).colors
  {
    var x := GetResult(b, GetResult(a, s)).colors;
    var y := GetResult(a, GetResult(b, s)).colors;
    forall i | 0 <= i < 6 ensures x[i] == y[i] {
      ToggleInvolutions(Up, s.colors[i]);
    }
  }

  /** Throwing the switches of one location twice gives back the colours. */
  lemma ResultColorsTwice(a: Generator, b: Generator, s: PanelState)
    requires a.location == b.location
    ensures GetResult(b, GetResult(a, s)).colors == s.colors
  {
    var x := GetResult(b, GetResult(a, s)).colors;
    forall i | 0 <= i < 6 ensures x[i] == s.colors[i] {
      ToggleInvolutions(Up, s.colors[i]);
    }
  }

  /** `reduce(true) { $0 && $1 == .green }` over the colours. */
  function AllGreen(cs: seq<ButtonColor>, acc: bool): bool
    decreases |cs|
  {
    if cs == [] then acc else AllGreen(cs[1..], acc && cs[0] == Green)
  }

  /** The fold is true iff it starts true and every colour is green. */
  lemma {:induction false} AllGreenMeans(cs: seq<ButtonColor>, acc: bool)
    ensures AllGreen(cs, acc) <==> acc && forall i | 0 <= i < |cs| :: cs[i] == Green
    decreases |cs|
  {
    if cs != [] {
      AllGreenMeans(cs[1..], acc && cs[0] == Green);
      assert forall i | 1 <= i < |cs| :: cs[i] == cs[1..][i - 1];
    }
  }

  /** The forward problem's `isGoal`: every button is green. */
  predicate ForwardIsGoal(s: PanelState)
  {
    AllGreen(s.colors, true)
  }

  lemma ForwardIsGoalMeans(s: PanelState)
    ensures ForwardIsGoal(s) <==> forall i | 0 <= i < 6 :: s.colors[i] == Green
  {
    AllGreenMeans(s.colors, true);
  }

  /** `zip(colors, target).reduce(true) { $0 && $1.0 == $1.1 }`. */
  function ZipEqual(cs: seq<ButtonColor>, ts: seq<ButtonColor>, acc: bool): bool
    decreases |cs|
  {
    if cs == [] || ts == [] then acc else ZipEqual(cs[1..], ts[1..], acc && cs[0] == ts[0])
  }

  /**
   * The zipped fold is true iff it starts true and the two sequences agree on
   * every position both of them have.
   */
  lemma {:induction false} ZipEqualMeans(cs: seq<ButtonColor>, ts: seq<ButtonColor>, acc: bool)
    ensures ZipEqual(cs, ts, acc) <==> acc && forall i | 0 <= i < |cs| && i < |ts| :: cs[i] == ts[i]
    decreases |cs|
  {
    if cs != [] && ts != [] {
      ZipEqualMeans(cs[1..], ts[1..], acc && cs[0] == ts[0]);
      assert forall i | 1 <= i < |cs| && i < |ts| :: cs[i] == cs[1..][i - 1] && ts[i] == ts[1..][i - 1];
    }
  }

  /** The reverse problem's `isGoal`: the colours match the target where both are defined. */
  predicate ReverseIsGoal(s: PanelState, target: seq<ButtonColor>)
  {
    ZipEqual(s.colors, target, true)
  }

  lemma ReverseIsGoalMeans(s: PanelState, target: seq<ButtonColor>)
    ensures ReverseIsGoal(s, target) <==> forall i | 0 <= i < 6 && i < |target| :: s.colors[i] == target[i]
  {
    ZipEqualMeans(s.colors, target, true);
  }

  /** `getCost`: every throw costs one. */
  function StepCost(a: Generator, s: PanelState): nat
  {
    1
  }

  /** The raw value of a colour: "r" or "g". */
  function RawValue(c: ButtonColor): char
  {
    if c == Red then 'r' else 'g'
  }

  /** `colors.reduce("") { $0 + $1.rawValue }`. */
  function ColorsString(cs: seq<ButtonColor>, acc: string): string
    decreases |cs|
  {
    if cs == [] then acc else ColorsString(cs[1..], acc + [RawValue(cs[0])])
  }

  /** The colour string is the accumulator followed by one character per colour. */
  lemma {:induction false} ColorsStringShape(cs: seq<ButtonColor>, acc: string)
    ensures |ColorsString(cs, acc)| == |acc| + |cs|
    ensures ColorsString(cs, acc)[..|acc|] == acc
    ensures forall i | 0 <= i < |cs| :: ColorsString(cs, acc)[|acc| + i] == RawValue(cs[i])
    decreases |cs|
  {
    if cs != [] {
      var acc' := acc + [RawValue(cs[0])];
      ColorsStringShape(cs[1..], acc');
      var r := ColorsString(cs, acc);
      assert r == ColorsString(cs[1..], acc');
      assert r[..|acc|] == r[..|acc'|][..|acc|];
      forall i | 0 <= i < |cs| ensures r[|acc| + i] == RawValue(cs[i]) {
        if i > 0 {
          assert r[|acc'| + (i - 1)] == RawValue(cs[1..][i - 1]);
        } else {
          assert r[..|acc'|][|acc|] == acc'[|acc|];
        }
      }
    }
  }

  /**
   * `AlphaOmegaProblemState.==`: the two panels' colour strings are equal;
   * the switches are not compared.
   */
  predicate SameState(s: PanelState, t: PanelState)
  {
    ColorsString(s.colors, "") == ColorsString(t.colors, "")
  }

  /** Two panels are `==` iff their colours are equal, whatever their switches. */
  lemma SameStateMeans(s: PanelState, t: PanelState)
    ensures SameState(s, t) <==> s.colors == t.colors
  {
    ColorsStringShape(s.colors, "");
    ColorsStringShape(t.colors, "");
    if SameState(s, t) {
      forall i | 0 <= i < 6 ensures s.colors[i] == t.colors[i] {
        assert RawValue(s.colors[i]) == ColorsString(s.colors, "")[i];
      }
    }
  }

  /**
   * Panels with the same colours have the same goal status and stay `==`
   * after the same throw. They may still offer different throws, since the
   * available actions depend on the switches.
   */
  lemma SameStateCongruence(s: PanelState, t: PanelState, a: Generator, target: seq<ButtonColor>)
    requires SameState(s, t)
    ensures SameState(GetResult(a, s), GetResult(a, t))
    ensures ForwardIsGoal(s) == ForwardIsGoal(t)
    ensures ReverseIsGoal(s, target) == ReverseIsGoal(t, target)
  {
    SameStateMeans(s, t);
    SameStateMeans(GetResult(a, s), GetResult(a, t));
  }

  /** The locations of a panel's switches, in order. */
  function Locations(gs: seq<Generator>): (r: seq<Location>)
    ensures |r| == |gs|
  {
    seq(|gs|, i requires 0 <= i < |gs| => gs[i].location)
  }

  /**
   * A throw keeps the panel's switch locations, so every panel reached from
   * a start offers actions at the same locations as the start.
   */
  lemma {:induction false} RunKeepsLocations(p: Problem<PanelState, Generator>, s: PanelState, path: seq<Generator>)
    requires forall a, t :: p.result(a, t) == GetResult(a, t)
    ensures Locations(Run(p, s, path).switches) == Locations(s.switches)
    decreases |path|
  {
    if path != [] {
      var s' := GetResult(path[0], s);
      RunKeepsLocations(p, s', path[1..]);
      assert Locations(s'.switches) == Locations(s.switches);
    }
  }

  /** The forward problem of `testForwardSearch`: from a given panel to all green. */
  function ForwardProblem(colors: Colors, switches: seq<Generator>): (p: Problem<PanelState, Generator>)
    ensures p.initial == PanelState(colors, switches)
    ensures forall s :: p.isGoal(s) == ForwardIsGoal(s)
    ensures forall a, s :: p.result(a, s) == GetResult(a, s) && p.cost(a, s) == 1
    ensures forall s :: p.actions(s) == GetAvailableActions(s)
  {
    Problem(PanelState(colors, switches), GetAvailableActions, GetResult, ForwardIsGoal, StepCost)
  }

  /** The switches of the all-green panel the reverse problem starts from. */
  const ReverseStartSwitches: seq<Generator> := [
    Generator(Beds, Up), Generator(Diner, Up), Generator(Generators, Up),
    Generator(Storage, Down), Generator(Solitary, Down), Generator(Lounge, Down)
  ]

  /** The reverse problem: from the all-green panel to the target colours. */
  function ReverseProblem(target: seq<ButtonColor>): (p: Problem<PanelState, Generator>)
    ensures p.initial.colors == [Green, Green, Green, Green, Green, Green]
    ensures p.initial.switches == ReverseStartSwitches
    ensures forall s :: p.isGoal(s) == ReverseIsGoal(s, target)
    ensures forall a, s :: p.result(a, s) == GetResult(a, s) && p.cost(a, s) == 1
    ensures forall s :: p.actions(s) == GetAvailableActions(s)
  {
    Problem(PanelState([Green, Green, Green, Green, Green, Green], ReverseStartSwitches),
            GetAvailableActions, GetResult, (s: PanelState) => ReverseIsGoal(s, target), StepCost)
  }

  /** All colourings of `n` buttons. */
  ghost function AllColorings(n: nat): (r: set<seq<ButtonColor>>)
    ensures forall c | c in r :: |c| == n
  {
    if n == 0 then {[]}
    else set c, b | c in AllColorings(n - 1) && b in {Red, Green} :: c + [b]
  }

  /** Every colouring of `n` buttons is listed. */
  lemma {:induction false} AllColoringsComplete(c: seq<ButtonColor>)
    ensures c in AllColorings(|c|)
    decreases |c|
  {
    if c != [] {
      var front := c[..|c| - 1];
      var b := c[|c| - 1];
      AllColoringsComplete(front);
      assert b == Red || b == Green by {
        match b
        case Red =>
        case Green =>
      }
      assert c == front + [b];
    }
  }

  /** All ways of throwing switches at the locations `locs`, in that order. */
  ghost function AllSwitchings(locs: seq<Location>): (r: set<seq<Generator>>)
    ensures forall sw | sw in r :: |sw| == |locs|
    decreases |locs|
  {
    if locs == [] then {[]}
    else set g, rest | g in {Generator(locs[0], Up), Generator(locs[0], Down)} && rest in AllSwitchings(locs[1..])
                       :: [g] + rest
  }

  /** A switch sequence is listed for `locs` iff its locations are `locs`. */
  lemma {:induction false} AllSwitchingsExact(locs: seq<Location>, sw: seq<Generator>)
    ensures sw in AllSwitchings(locs) <==> Locations(sw) == locs
    decreases |locs|
  {
    if locs != [] && sw != [] {
      AllSwitchingsExact(locs[1..], sw[1..]);
      assert sw == [sw[0]] + sw[1..];
      assert Locations(sw) == [sw[0].location] + Locations(sw[1..]);
      assert locs == [locs[0]] + locs[1..];
      if sw in AllSwitchings(locs) {
        var g, rest :| g in {Generator(locs[0], Up), Generator(locs[0], Down)} && rest in AllSwitchings(locs[1..])
                       && sw == [g] + rest;
        assert sw[1..] == rest;
      }
      if Locations(sw) == locs {
        assert sw[0].location == Locations(sw)[0] == locs[0];
        assert sw[0].state == Up || sw[0].state == Down by {
          match sw[0].state
          case Up =>
          case Down =>
        }
        assert sw[0] == Generator(locs[0], Up) || sw[0] == Generator(locs[0], Down);
      }
    } else if locs == [] {
      assert sw in AllSwitchings(locs) <==> sw == [];
    } else {
      assert Locations(sw) == [];
    }
  }

  /**
   * The panels whose switches sit at `locs`: finitely many, and closed under
   * every throw, so a graph search over a problem built on them ends.
   */
  ghost function PanelsAt(locs: seq<Location>): set<PanelState>
  {
    set c: Colors, sw | c in AllColorings(6) && sw in AllSwitchings(locs) :: PanelState(c, sw)
  }

  lemma PanelsAtClosed(locs: seq<Location>, s: PanelState, a: Generator)
    requires s in PanelsAt(locs)
    ensures GetResult(a, s) in PanelsAt(locs)
  {
    var r := GetResult(a, s);
    AllColoringsComplete(r.colors);
    AllSwitchingsExact(locs, s.switches);
    AllSwitchingsExact(locs, r.switches);
    assert Locations(r.switches) == Locations(s.switches);
  }

  /** A panel belongs to PanelsAt(locs) iff its switches sit at `locs`. */
  lemma PanelsAtExact(locs: seq<Location>, s: PanelState)
    ensures s in PanelsAt(locs) <==> Locations(s.switches) == locs
  {
    AllColoringsComplete(s.colors);
    AllSwitchingsExact(locs, s.switches);
  }

  /** How many throws of `path` flip button `i`. */
  function FlipCount(path: seq<Generator>, i: int): nat
    decreases |path|
  {
    if path == [] then 0
    else (if i in Flipped(path[0].location) then 1 else 0) + FlipCount(path[1..], i)
  }

  /** A colour flipped `k` times. */
  function FlipTimes(c: ButtonColor, k: nat): ButtonColor
  {
    if k % 2 == 0 then c else ToggleColor(c)
  }

  /**
   * After a run of throws each button has been flipped as often as the
   * throws' locations name it: its colour depends on how many of them
   * flip it, not on their order nor on the switch positions.
   */
  lemma {:induction false} RunColors(p: Problem<PanelState, Generator>, s: PanelState, path: seq<Generator>, i: int)
    requires forall a, t :: p.result(a, t) == GetResult(a, t)
    requires 0 <= i < 6
    ensures Run(p, s, path).colors[i] == FlipTimes(s.colors[i], FlipCount(path, i))
    decreases |path|
  {
    if path != [] {
      var s' := GetResult(path[0], s);
      assert Run(p, s, path) == Run(p, s', path[1..]);
      RunColors(p, s', path[1..], i);
      var k := FlipCount(path[1..], i);
      assert FlipCount(path, i) == (if i in Flipped(path[0].location) then 1 else 0) + k;
      if i in Flipped(path[0].location) {
        assert s'.colors[i] == ToggleColor(s.colors[i]);
        FlipTimesToggle(s.colors[i], k);
      } else {
        assert s'.colors[i] == s.colors[i];
      }
    }
  }

  /** Flipping once more before `k` flips is `k + 1` flips. */
  lemma FlipTimesToggle(c: ButtonColor, k: nat)
    ensures FlipTimes(ToggleColor(c), k) == FlipTimes(c, k + 1)
  {
    ToggleInvolutions(Up, c);
  }

  /** Every throw costs one, so the cost of a path is its length. */
  lemma {:induction false} UnitPathCost(p: Problem<PanelState, Generator>, s: PanelState, path: seq<Generator>)
    requires forall a, t :: p.cost(a, t) == 1
    ensures PathCost(p, s, path) == |path|
    decreases |path|
  {
    if path != [] {
      UnitPathCost(p, p.result(path[0], s), path[1..]);
    }
  }
}
