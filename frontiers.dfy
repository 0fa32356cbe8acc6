/**
 * The containers the strategies drive, at the level of the calls they make:
 * a frontier is a sequence of nodes (a queue, a stack or a priority queue,
 * depending on which end `next` removes from), and the explored set is a set
 * of states.
 */
module Frontiers {
  import opened Wrappers
  import opened SearchNodes

  /** The states held by the nodes of a frontier. */
  ghost function States<S, A>(f: seq<Node<S, A>>): set<S>
    decreases |f|
  {
    if f == [] then {} else States(f[..|f| - 1]) + {f[|f| - 1].state}
  }

  /** A state is among the frontier's states iff some node holds it. */
  lemma {:induction false} StatesHeld<S, A>(f: seq<Node<S, A>>)
    ensures forall s :: s in States(f) <==> exists i | 0 <= i < |f| :: f[i].state == s
    decreases |f|
  {
    if f != [] {
      var g := f[..|f| - 1];
      StatesHeld(g);
      assert forall i | 0 <= i < |g| :: g[i] == f[i];
    }
  }

  /** StatesHeld for one state. */
  lemma StateHeld<S, A>(f: seq<Node<S, A>>, s: S)
    ensures s in States(f) <==> exists i | 0 <= i < |f| :: f[i].state == s
  {
    StatesHeld(f);
  }

  /**
   * No two nodes of the frontier hold the same state: each node's state is
   * new with respect to the nodes before it.
   */
  ghost predicate DistinctStates<S, A>(f: seq<Node<S, A>>)
    decreases |f|
  {
    f == [] || (DistinctStates(f[..|f| - 1]) && f[|f| - 1].state !in States(f[..|f| - 1]))
  }

  /** DistinctStates says exactly that the nodes' states differ pairwise. */
  lemma {:induction false} DistinctStatesPairwise<S, A>(f: seq<Node<S, A>>)
    ensures DistinctStates(f) <==> forall i, j | 0 <= i < j < |f| :: f[i].state != f[j].state
    decreases |f|
  {
    if f != [] {
      var g := f[..|f| - 1];
      DistinctStatesPairwise(g);
      StatesHeld(g);
      assert forall i | 0 <= i < |g| :: g[i] == f[i];
      if forall i, j | 0 <= i < j < |f| :: f[i].state != f[j].state {
        assert f[|f| - 1].state !in States(g);
      }
      if DistinctStates(f) {
        forall i, j | 0 <= i < j < |f| ensures f[i].state != f[j].state {
          if j == |f| - 1 {
            assert g[i].state in States(g);
          } else {
            assert g[i].state != g[j].state;
          }
        }
      }
    }
  }

  /** `includes(state)`: some node of the frontier holds `s`. */
  predicate Includes<S(==), A>(f: seq<Node<S, A>>, s: S): (b: bool)
    ensures b <==> s in States(f)
  {
    StateHeld(f, s);
    exists i | 0 <= i < |f| :: f[i].state == s
  }

  /**
   * ExploredSet.insertIfNotPresent: the new set holds `s`, and the flag says
   * whether `s` was absent before the call.
   */
  function InsertIfNotPresent<S>(explored: set<S>, s: S): (r: (set<S>, bool))
    ensures s in r.0 && explored <= r.0 && r.0 - explored <= {s}
    ensures r.1 <==> s !in explored
  {
    if s !in explored then (explored + {s}, true) else (explored, false)
  }

  /** The frontier without its node at position `k`. */
  function RemoveAt<S, A>(f: seq<Node<S, A>>, k: nat): (r: seq<Node<S, A>>)
    requires k < |f|
    ensures |r| == |f| - 1
    ensures forall m | m in r :: m in f
    ensures DistinctStates(f) ==> DistinctStates(r) && States(r) == States(f) - {f[k].state}
  {
    var r := f[..k] + f[k + 1..];
    assert forall i | 0 <= i < k :: r[i] == f[i];
    assert forall i | k <= i < |r| :: r[i] == f[i + 1];
    RemoveAtDistinct(f, k, r);
    r
  }

  /** Removing the node at `k` keeps the states distinct and drops exactly its state. */
  lemma RemoveAtDistinct<S, A>(f: seq<Node<S, A>>, k: nat, r: seq<Node<S, A>>)
    requires k < |f| && |r| == |f| - 1
    requires forall i | 0 <= i < k :: r[i] == f[i]
    requires forall i | k <= i < |r| :: r[i] == f[i + 1]
    ensures DistinctStates(f) ==> DistinctStates(r) && States(r) == States(f) - {f[k].state}
  {
    if DistinctStates(f) {
      DistinctStatesPairwise(f);
      DistinctStatesPairwise(r);
      forall i, j | 0 <= i < j < |r| ensures r[i].state != r[j].state {
        assert r[i] == f[if i < k then i else i + 1];
        assert r[j] == f[if j < k then j else j + 1];
      }
      forall s | s in States(f) - {f[k].state} ensures s in States(r) {
        StateHeld(f, s);
        StateHeld(r, s);
        var i :| 0 <= i < |f| && f[i].state == s;
        assert i != k;
        assert r[if i < k then i else i - 1].state == s;
      }
      forall s | s in States(r) ensures s in States(f) - {f[k].state} {
        StateHeld(f, s);
        StateHeld(r, s);
        var i :| 0 <= i < |r| && r[i].state == s;
        assert f[if i < k then i else i + 1].state == s;
      }
    }
  }

  /** `push(node)` on any of the three frontiers: the node joins the frontier. */
  function Push<S, A>(f: seq<Node<S, A>>, n: Node<S, A>): (r: seq<Node<S, A>>)
    ensures States(r) == States(f) + {n.state}
    ensures forall m | m in r :: m in f || m == n
    ensures n.state !in States(f) && DistinctStates(f) ==> DistinctStates(r)
    ensures |r| == |f| + 1 && r[|f|] == n && r[..|f|] == f
  {
    var r := f + [n];
    assert r[..|f|] == f;
    assert States(r) == States(f) + {n.state} by {
      assert r[|f|].state == n.state;
    }
    r
  }

  /**
   * LIFO order: the node pushed last is the one `next` takes from a stack,
   * and taking it gives back the frontier as it was before the push.
   */
  lemma LifoTakesLastPushed<S, A>(f: seq<Node<S, A>>, n: Node<S, A>)
    ensures var g := Push(f, n); g[|g| - 1] == n && RemoveAt(g, |g| - 1) == f
  {
    var g := Push(f, n);
    assert g[..|g| - 1] == f;
  }

  /**
   * FIFO order: pushing at the back of a non-empty queue leaves its front
   * node next, and taking the front commutes with the push.
   */
  lemma FifoKeepsFront<S, A>(f: seq<Node<S, A>>, n: Node<S, A>)
    requires f != []
    ensures var g := Push(f, n); g[0] == f[0] && RemoveAt(g, 0) == Push(RemoveAt(f, 0), n)
  {
    var g := Push(f, n);
    assert RemoveAt(g, 0) == g[1..];
    assert RemoveAt(f, 0) == f[1..];
    assert g[1..] == f[1..] + [n];
  }

  /** The position of the node holding `s` (the min-queue's position table). */
  function IndexOfState<S(==), A>(f: seq<Node<S, A>>, s: S): (r: Option<nat>)
    ensures r.None? <==> s !in States(f)
    ensures r.Some? ==> r.value < |f| && f[r.value].state == s
  {
    if |f| == 0 then None
    else if f[|f| - 1].state == s then Some(|f| - 1)
    else
      var r := IndexOfState(f[..|f| - 1], s);
      assert forall i | 0 <= i < |f| - 1 :: f[..|f| - 1][i] == f[i];
      assert States(f) == States(f[..|f| - 1]) + {f[|f| - 1].state};
      r
  }

  /**
   * `pushIfBetter(node)` of the min-priority frontier: with no entry for the
   * node's state it is a push; otherwise the existing entry is replaced by
   * the node when the node's priority is strictly lower, and kept otherwise.
   */
  function PushIfBetter<S(==), A>(f: seq<Node<S, A>>, n: Node<S, A>, priority: Node<S, A> -> nat)
    : (r: seq<Node<S, A>>)
    ensures n.state !in States(f) ==> r == Push(f, n)
    ensures DistinctStates(f) ==> DistinctStates(r) && States(r) == States(f) + {n.state}
    ensures forall m | m in r :: m in f || m == n
  {
    match IndexOfState(f, n.state)
    case None => Push(f, n)
    case Some(j) =>
      if priority(n) < priority(f[j]) then Push(RemoveAt(f, j), n) else f
  }

  /**
   * When the frontier already holds a node for the state, pushIfBetter
   * replaces exactly that node if the new one is strictly better, and
   * otherwise leaves the frontier as it was.
   */
  lemma PushIfBetterReplaces<S, A>(f: seq<Node<S, A>>, n: Node<S, A>, priority: Node<S, A> -> nat, j: nat)
    requires DistinctStates(f) && j < |f| && f[j].state == n.state
    ensures PushIfBetter(f, n, priority)
            == if priority(n) < priority(f[j]) then Push(RemoveAt(f, j), n) else f
  {
    StateHeld(f, n.state);
    var k := IndexOfState(f, n.state).value;
    DistinctStatesPairwise(f);
    assert f[k].state == f[j].state;
    assert k == j;
  }

  /**
   * `next()` of the min-priority frontier: the position of a node of least
   * priority (the first one, when several share it).
   */
  method MinPriorityIndex<S, A>(f: seq<Node<S, A>>, priority: Node<S, A> -> nat) returns (k: nat)
    requires |f| > 0
    ensures k < |f|
    ensures forall i | 0 <= i < |f| :: priority(f[k]) <= priority(f[i])
    ensures forall i | 0 <= i < k :: priority(f[k]) < priority(f[i])
  {
    k := 0;
    for i := 1 to |f|
      invariant k < i
      invariant forall j | 0 <= j < i :: priority(f[k]) <= priority(f[j])
      invariant forall j | 0 <= j < k :: priority(f[k]) < priority(f[j])
    {
      if priority(f[i]) < priority(f[k]) {
        k := i;
      }
    }
  }
}
