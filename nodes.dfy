/**
 * The search nodes of astar.c as values, and the specification of each
 * step of the search: the heuristic, the lookups by world-state values,
 * the choice of the lowest-ranked open node, swap-with-last removal and
 * the relaxation of one neighbour.
 */
module Nodes {
  import opened Bits
  import opened WorldStates
  import opened Repertoires

  /** `MAXOPEN` and `MAXCLOS`: the capacity of the opened and closed sets. */
  const MAXOPEN := 1024
  const MAXCLOS := 1024

  /** `INT_MAX`, the starting value of the lowest-rank scan. */
  const INT_MAX := 0x7FFF_FFFF

  /**
   * `astarnode_t`: a world state reached with cost `g`, its estimate `h`,
   * `f == g + h`, the action that led here (none for the start node) and
   * the state it was taken from.
   */
  datatype Node = Node(ws: WorldState, g: int, h: int, f: int, action: Option<string>, parentws: WorldState)

  // ---------------------------------------------------------------------
  // calc_h

  /** The atoms `to` cares about on which `fr` disagrees with it. */
  function Diff(fr: WorldState, to: WorldState): bv64
  {
    (fr.values & Care(to)) ^ (to.values & Care(to))
  }

  /** `calc_h`: the number of cared-about atoms still wrong. */
  function Heuristic(fr: WorldState, to: WorldState): nat
  {
    Ones(Diff(fr, to), 64)
  }

  /** The estimate never exceeds the number of atoms. */
  lemma HeuristicBound(fr: WorldState, to: WorldState)
    ensures Heuristic(fr, to) <= 64
  {
    OnesBound(Diff(fr, to), 64);
  }

  /** The estimate is zero exactly at states that meet `to`. */
  lemma HeuristicZero(fr: WorldState, to: WorldState)
    ensures Heuristic(fr, to) == 0 <==> Matches(fr, to)
  {
    var d := Diff(fr, to);
    XorZero(fr.values & Care(to), to.values & Care(to));
    if Heuristic(fr, to) == 0 {
      NoOnesIsZero(d);
    }
    if Matches(fr, to) {
      ZeroHasNoOnes(64);
    }
  }

  // ---------------------------------------------------------------------
  // idx_in_opened, idx_in_closed

  /** The first node whose state has the values of `ws` (don't-care bits are ignored), or -1. */
  function IndexOfValues(nodes: seq<Node>, ws: WorldState): (i: int)
    ensures -1 <= i < |nodes|
    ensures 0 <= i ==> nodes[i].ws.values == ws.values
    decreases |nodes|
  {
    if |nodes| == 0 then -1
    else if nodes[0].ws.values == ws.values then 0
    else
      var j := IndexOfValues(nodes[1..], ws);
      if j == -1 then -1 else j + 1
  }

  /** The lookup fails only when no node has those values, and otherwise finds the first. */
  lemma {:induction false} IndexOfValuesFirst(nodes: seq<Node>, ws: WorldState)
    decreases |nodes|
    ensures var i := IndexOfValues(nodes, ws);
            (i == -1 <==> forall j :: 0 <= j < |nodes| ==> nodes[j].ws.values != ws.values) &&
            forall j :: 0 <= j < i ==> nodes[j].ws.values != ws.values
  {
    if |nodes| > 0 && nodes[0].ws.values != ws.values {
      IndexOfValuesFirst(nodes[1..], ws);
      assert forall j :: 1 <= j < |nodes| ==> nodes[j] == nodes[1..][j - 1];
    }
  }

  // ---------------------------------------------------------------------
  // Well-formed nodes

  /**
   * Taking action `a` from `parent` is allowed and leads to `ws`: the
   * action is registered, its precondition holds, and `ws` is its effect.
   */
  predicate StepOK(r: Repertoire, parent: WorldState, a: string, ws: WorldState)
  {
    var k := IndexOf(r.actions, a);
    0 <= k < |r.pre| && k < |r.pst| && Matches(parent, r.pre[k]) && ws == DoAction(parent, r.pst[k])
  }

  /**
   * A node the search creates: its estimate is the heuristic towards the
   * goal, `f == g + h`, and it is the start state or one step from its parent.
   */
  predicate NodeOK(r: Repertoire, start: WorldState, goal: WorldState, n: Node)
  {
    n.h == Heuristic(n.ws, goal) && n.f == n.g + n.h &&
    match n.action
    case None => n.ws == start
    case Some(a) => StepOK(r, n.parentws, a, n.ws)
  }

  predicate AllOK(r: Repertoire, start: WorldState, goal: WorldState, nodes: seq<Node>)
  {
    forall k :: 0 <= k < |nodes| ==> NodeOK(r, start, goal, nodes[k])
  }

  /** A listed transition is a step the model allows. */
  lemma ApplicableStep(r: Repertoire, fr: WorldState, t: Transition)
    requires Wf(r) && Applicable(r, fr, t)
    ensures StepOK(r, fr, t.name, t.to)
  {
    var k := IndexOf(r.actions, t.name);
    assert r.actions[k] == r.actions[t.action];
  }

  /** A well-formed node that meets the goal has `f == g`. */
  lemma GoalNodeCost(r: Repertoire, start: WorldState, goal: WorldState, n: Node)
    requires Wf(r) && NodeOK(r, start, goal, n) && Matches(n.ws, goal)
    ensures n.h == 0 && n.f == n.g
  {
    HeuristicZero(n.ws, goal);
  }

  // ---------------------------------------------------------------------
  // The lowest-rank scan

  /** Index `i` holds the smallest `f`, and no earlier node has that `f`. */
  predicate LowestAt(nodes: seq<Node>, i: int)
  {
    0 <= i < |nodes| &&
    (forall j :: 0 <= j < |nodes| ==> nodes[i].f <= nodes[j].f) &&
    (forall j :: 0 <= j < i ==> nodes[j].f > nodes[i].f)
  }

  // ---------------------------------------------------------------------
  // Swap-with-last removal

  /** The node at `i` is replaced by the last node, and the sequence shrinks by one. */
  function SwapRemove(nodes: seq<Node>, i: int): (s: seq<Node>)
    requires 0 <= i < |nodes|
    ensures |s| == |nodes| - 1
  {
    nodes[i := nodes[|nodes| - 1]][..|nodes| - 1]
  }

  /** Removal takes out exactly the one node: the rest are kept, each as often as before. */
  lemma SwapRemoveMultiset(nodes: seq<Node>, i: int)
    requires 0 <= i < |nodes|
    ensures multiset(SwapRemove(nodes, i)) == multiset(nodes) - multiset{nodes[i]}
  {
    var last := |nodes| - 1;
    var u := nodes[i := nodes[last]];
    assert nodes == nodes[..last] + [nodes[last]];
    assert u == u[..last] + [u[last]];
    assert multiset(u) == multiset(nodes) - multiset{nodes[i]} + multiset{nodes[last]};
  }

  /** Every node left after a removal was there before, so a property of all nodes survives. */
  lemma SwapRemoveOK(r: Repertoire, start: WorldState, goal: WorldState, nodes: seq<Node>, i: int)
    requires Wf(r) && 0 <= i < |nodes| && AllOK(r, start, goal, nodes)
    ensures AllOK(r, start, goal, SwapRemove(nodes, i))
  {
    var s := SwapRemove(nodes, i);
    forall k | 0 <= k < |s|
      ensures NodeOK(r, start, goal, s[k])
    {
      if k == i {
        assert s[k] == nodes[|nodes| - 1];
      } else {
        assert s[k] == nodes[k];
      }
    }
  }

  // ---------------------------------------------------------------------
  // Relaxing one neighbour

  /**
   * The node for a neighbour reached from `cur` by action `name` at `cost`.
   * Its rank exceeds its cost by at most the number of atoms, and by
   * nothing exactly when the neighbour meets the goal.
   */
  function Neighbour(cur: Node, to: WorldState, name: string, cost: int, goal: WorldState): (nb: Node)
    ensures nb.g <= nb.f <= nb.g + 64
    ensures nb.f == nb.g <==> Matches(to, goal)
  {
    HeuristicBound(to, goal);
    HeuristicZero(to, goal);
    var g := cur.g + cost;
    var h := Heuristic(to, goal);
    Node(to, g, h, g + h, Some(name), cur.ws)
  }

  /** The neighbour, given its heuristic `h`. */
  lemma NeighbourIs(cur: Node, to: WorldState, name: string, cost: int, goal: WorldState, h: int)
    requires h == Heuristic(to, goal)
    ensures Neighbour(cur, to, name, cost, goal) == Node(to, cur.g + cost, h, cur.g + cost + h, Some(name), cur.ws)
  {
  }

  /**
   * One neighbour of the node just closed: an entry for the same values
   * is dropped from the opened or closed set when the new path is strictly
   * cheaper, and the neighbour is opened when no entry for it is left.
   */
  function Relax(openSet: seq<Node>, closedSet: seq<Node>, cur: Node, to: WorldState, name: string,
                 cost: int, goal: WorldState): (next: (seq<Node>, seq<Node>))
    ensures |next.0| <= |openSet| + 1 && |next.1| <= |closedSet|
  {
    var g := cur.g + cost;
    var o1 := DropBeaten(openSet, to, g);
    var c1 := DropBeaten(closedSet, to, g);
    if Beaten(openSet, to, g) && Beaten(closedSet, to, g) then (o1 + [Neighbour(cur, to, name, cost, goal)], c1)
    else (o1, c1)
  }

  /** A path of cost `g` beats the entry for `to`'s values in `nodes`: there is none, or it costs more. */
  predicate Beaten(nodes: seq<Node>, to: WorldState, g: int)
  {
    var i := IndexOfValues(nodes, to);
    i == -1 || g < nodes[i].g
  }

  /** `nodes` without the entry for `to`'s values when a path of cost `g` is strictly cheaper. */
  function DropBeaten(nodes: seq<Node>, to: WorldState, g: int): (d: seq<Node>)
    ensures |nodes| - 1 <= |d| <= |nodes|
    ensures !Beaten(nodes, to, g) ==> d == nodes
  {
    var i := IndexOfValues(nodes, to);
    if i >= 0 && g < nodes[i].g then SwapRemove(nodes, i) else nodes
  }

  /** Relaxation set by set: the neighbour is opened exactly when both entries are beaten. */
  lemma RelaxParts(openSet: seq<Node>, closedSet: seq<Node>, cur: Node, to: WorldState, name: string,
                   cost: int, goal: WorldState)
    ensures Relax(openSet, closedSet, cur, to, name, cost, goal).1 == DropBeaten(closedSet, to, cur.g + cost)
    ensures Relax(openSet, closedSet, cur, to, name, cost, goal).0 ==
            (if Beaten(openSet, to, cur.g + cost) && Beaten(closedSet, to, cur.g + cost)
             then DropBeaten(openSet, to, cur.g + cost) + [Neighbour(cur, to, name, cost, goal)]
             else DropBeaten(openSet, to, cur.g + cost))
  {
  }

  /** Dropping a beaten entry keeps every remaining node well formed. */
  lemma DropBeatenOK(r: Repertoire, start: WorldState, goal: WorldState, nodes: seq<Node>, to: WorldState, g: int)
    requires Wf(r) && AllOK(r, start, goal, nodes)
    ensures AllOK(r, start, goal, DropBeaten(nodes, to, g))
  {
    var i := IndexOfValues(nodes, to);
    if i >= 0 && g < nodes[i].g {
      SwapRemoveOK(r, start, goal, nodes, i);
    }
  }

  /** Appending a well-formed node keeps all nodes well formed. */
  lemma AppendOK(r: Repertoire, start: WorldState, goal: WorldState, nodes: seq<Node>, n: Node)
    requires Wf(r) && AllOK(r, start, goal, nodes) && NodeOK(r, start, goal, n)
    ensures AllOK(r, start, goal, nodes + [n])
  {
    var s := nodes + [n];
    forall k | 0 <= k < |s|
      ensures NodeOK(r, start, goal, s[k])
    {
      if k < |nodes| {
        assert s[k] == nodes[k];
      }
    }
  }

  /** The node for an allowed step is well formed. */
  lemma NeighbourOK(r: Repertoire, start: WorldState, goal: WorldState, cur: Node, to: WorldState,
                    name: string, cost: int)
    requires Wf(r) && StepOK(r, cur.ws, name, to)
    ensures NodeOK(r, start, goal, Neighbour(cur, to, name, cost, goal))
  {
  }

  /** Relaxation keeps every node of the opened set well formed. */
  lemma RelaxOpenOK(r: Repertoire, start: WorldState, goal: WorldState, openSet: seq<Node>, closedSet: seq<Node>,
                    cur: Node, to: WorldState, name: string, cost: int)
    requires Wf(r) && AllOK(r, start, goal, openSet) && StepOK(r, cur.ws, name, to)
    ensures AllOK(r, start, goal, Relax(openSet, closedSet, cur, to, name, cost, goal).0)
  {
    DropBeatenOK(r, start, goal, openSet, to, cur.g + cost);
    NeighbourOK(r, start, goal, cur, to, name, cost);
    AppendOK(r, start, goal, DropBeaten(openSet, to, cur.g + cost), Neighbour(cur, to, name, cost, goal));
  }

  /** Relaxation keeps every node of the closed set well formed. */
  lemma RelaxClosedOK(r: Repertoire, start: WorldState, goal: WorldState, openSet: seq<Node>, closedSet: seq<Node>,
                      cur: Node, to: WorldState, name: string, cost: int)
    requires Wf(r) && AllOK(r, start, goal, closedSet)
    ensures AllOK(r, start, goal, Relax(openSet, closedSet, cur, to, name, cost, goal).1)
  {
    DropBeatenOK(r, start, goal, closedSet, to, cur.g + cost);
  }

  /**
   * An entry is only ever dropped for a strictly cheaper path: when the
   * recorded cost is not beaten, that set is left as it was (the neighbour
   * is then not opened either).
   */
  lemma RelaxKeepsCheaper(openSet: seq<Node>, closedSet: seq<Node>, cur: Node, to: WorldState, name: string,
                          cost: int, goal: WorldState)
    ensures var io := IndexOfValues(openSet, to);
            io >= 0 && openSet[io].g <= cur.g + cost ==>
              Relax(openSet, closedSet, cur, to, name, cost, goal).0 == openSet
    ensures var ic := IndexOfValues(closedSet, to);
            ic >= 0 && closedSet[ic].g <= cur.g + cost ==>
              Relax(openSet, closedSet, cur, to, name, cost, goal).1 == closedSet &&
              |Relax(openSet, closedSet, cur, to, name, cost, goal).0| <= |openSet|
  {
  }

  /** A state in neither set is opened with its new cost, its parent and its action. */
  lemma RelaxOpensNew(openSet: seq<Node>, closedSet: seq<Node>, cur: Node, to: WorldState, name: string,
                      cost: int, goal: WorldState)
    requires IndexOfValues(openSet, to) == -1 && IndexOfValues(closedSet, to) == -1
    ensures Relax(openSet, closedSet, cur, to, name, cost, goal) ==
            (openSet + [Node(to, cur.g + cost, Heuristic(to, goal), cur.g + cost + Heuristic(to, goal), Some(name), cur.ws)],
             closedSet)
  {
  }

  /** A strictly cheaper path to a closed state reopens it: it leaves the closed set and is opened anew. */
  lemma RelaxReopens(openSet: seq<Node>, closedSet: seq<Node>, cur: Node, to: WorldState, name: string,
                     cost: int, goal: WorldState)
    requires IndexOfValues(openSet, to) == -1
    requires var ic := IndexOfValues(closedSet, to); ic >= 0 && cur.g + cost < closedSet[ic].g
    ensures var (o, c) := Relax(openSet, closedSet, cur, to, name, cost, goal);
            var ic := IndexOfValues(closedSet, to);
            c == SwapRemove(closedSet, ic) && o == openSet + [Neighbour(cur, to, name, cost, goal)]
  {
  }

  // ---------------------------------------------------------------------
  // reconstruct_plan

  /** The action name a node carries; the start node carries none. */
  function ActionName(n: Node): string
  {
    if n.action.Some? then n.action.value else ""
  }

  /**
   * The node the walk moves to from `n`: the first closed entry with the
   * values of `n`'s parent state, or `None` when there is none.
   */
  function Next(closed: seq<Node>, n: Node): (m: Option<Node>)
    ensures m.Some? ==> m.value in closed && m.value.ws.values == n.parentws.values
  {
    var i := IndexOfValues(closed, n.parentws);
    if i == -1 then None else Some(closed[i])
  }

  /** A walk: the nodes visited, goal end first, and the node it stopped at. */
  datatype Trail = Trail(steps: seq<Node>, end: Option<Node>)

  /** Room for `plansize` steps: a negative size leaves none. */
  function Room(plansize: int): nat
  {
    if plansize < 0 then 0 else plansize
  }

  /**
   * The walk from `cur` back through the parents recorded in `closed`, at
   * most `fuel` steps (the caller's buffer size).  It stops at a node
   * without an action (the start), at `None` when a parent is no longer
   * in `closed`, or at the next node when the buffer is full.
   */
  function Walk(closed: seq<Node>, cur: Option<Node>, fuel: nat): (t: Trail)
    ensures |t.steps| <= fuel
    ensures t.end.Some? && t.end.value.action.Some? ==> |t.steps| == fuel
    decreases fuel
  {
    if cur.None? || cur.value.action.None? || fuel == 0 then Trail([], cur)
    else
      var rest := Walk(closed, Next(closed, cur.value), fuel - 1);
      Trail([cur.value] + rest.steps, rest.end)
  }

  /**
   * `p` and `e` are a walk from `cur`: `p` starts at `cur` (or `e` is `cur`
   * when `p` is empty), every node of `p` has an action, each node's `Next`
   * is the node after it and the last one's is `e`, and the walk only
   * stops at a node with an action when `fuel` steps have been taken.
   */
  ghost predicate Chained(closed: seq<Node>, cur: Option<Node>, p: seq<Node>, e: Option<Node>, fuel: nat)
  {
    |p| <= fuel && (|p| > 0 ==> cur == Some(p[0])) && (|p| == 0 ==> e == cur) &&
    (forall k :: 0 <= k < |p| ==> p[k].action.Some?) &&
    (forall k :: 0 <= k < |p| ==> Next(closed, p[k]) == (if k + 1 < |p| then Some(p[k + 1]) else e)) &&
    (e.Some? && e.value.action.Some? ==> |p| == fuel)
  }

  /** The walk visits `cur` first, or stops at it. */
  lemma WalkStart(closed: seq<Node>, cur: Option<Node>, fuel: nat)
    ensures |Walk(closed, cur, fuel).steps| > 0 ==> cur == Some(Walk(closed, cur, fuel).steps[0])
    ensures |Walk(closed, cur, fuel).steps| == 0 ==> Walk(closed, cur, fuel).end == cur
  {
  }

  /** Node `k` of the walk has an action, and its `Next` is the node after it or the end. */
  lemma {:induction false} WalkLinks(closed: seq<Node>, cur: Option<Node>, fuel: nat, k: int)
    requires 0 <= k < |Walk(closed, cur, fuel).steps|
    decreases fuel
    ensures Walk(closed, cur, fuel).steps[k].action.Some?
    ensures Next(closed, Walk(closed, cur, fuel).steps[k]) ==
            (if k + 1 < |Walk(closed, cur, fuel).steps| then Some(Walk(closed, cur, fuel).steps[k + 1])
             else Walk(closed, cur, fuel).end)
  {
    var next := Next(closed, cur.value);
    WalkStart(closed, next, fuel - 1);
    if k > 0 {
      WalkLinks(closed, next, fuel - 1, k - 1);
    }
  }

  /** The walk is chained. */
  lemma WalkChained(closed: seq<Node>, cur: Option<Node>, fuel: nat)
    ensures Chained(closed, cur, Walk(closed, cur, fuel).steps, Walk(closed, cur, fuel).end, fuel)
  {
    var w := Walk(closed, cur, fuel);
    var p, e := w.steps, w.end;
    WalkStart(closed, cur, fuel);
    forall k | 0 <= k < |p|
      ensures p[k].action.Some? && Next(closed, p[k]) == (if k + 1 < |p| then Some(p[k + 1]) else e)
    {
      WalkLinks(closed, cur, fuel, k);
    }
    assert forall k :: 0 <= k < |p| ==> p[k].action.Some?;
    assert Chained(closed, cur, p, e, fuel);
  }

  /** One link of a chained walk. */
  lemma ChainedLink(closed: seq<Node>, cur: Option<Node>, p: seq<Node>, e: Option<Node>, fuel: nat, k: int)
    requires Chained(closed, cur, p, e, fuel)
    requires 0 <= k < |p|
    ensures p[k].action.Some?
    ensures Next(closed, p[k]) == (if k + 1 < |p| then Some(p[k + 1]) else e)
  {
  }

  /** Only the walk is chained: `Chained` pins down `Walk`'s result. */
  lemma {:induction false} ChainedIsWalk(closed: seq<Node>, cur: Option<Node>, p: seq<Node>, e: Option<Node>, fuel: nat)
    requires Chained(closed, cur, p, e, fuel)
    decreases fuel
    ensures Walk(closed, cur, fuel) == Trail(p, e)
  {
    if |p| > 0 {
      var next := Next(closed, p[0]);
      ChainedLink(closed, cur, p, e, fuel, 0);
      assert Chained(closed, next, p[1..], e, fuel - 1) by {
        forall k | 0 <= k < |p[1..]|
          ensures Next(closed, p[1..][k]) == (if k + 1 < |p[1..]| then Some(p[1..][k + 1]) else e)
        {
          assert p[1..][k] == p[k + 1];
          ChainedLink(closed, cur, p, e, fuel, k + 1);
        }
      }
      ChainedIsWalk(closed, next, p[1..], e, fuel - 1);
      assert p == [p[0]] + p[1..];
    }
  }

  /**
   * A walk steps through `closed`: every node after the first, and the
   * node it stops at after at least one step, is a closed node holding the
   * values of the previous node's parent state.
   */
  lemma ChainIn(closed: seq<Node>, cur: Option<Node>, p: seq<Node>, e: Option<Node>, fuel: nat)
    requires Chained(closed, cur, p, e, fuel)
    ensures forall k :: 1 <= k < |p| ==> p[k] in closed && p[k].ws.values == p[k - 1].parentws.values
    ensures e.Some? && |p| > 0 ==> e.value in closed && e.value.ws.values == p[|p| - 1].parentws.values
  {
    forall k | 1 <= k < |p|
      ensures p[k] in closed && p[k].ws.values == p[k - 1].parentws.values
    {
      ChainedLink(closed, cur, p, e, fuel, k - 1);
    }
    if e.Some? && |p| > 0 {
      ChainedLink(closed, cur, p, e, fuel, |p| - 1);
    }
  }

  /**
   * Every node of a walk from a well-formed node through well-formed
   * closed nodes is a recorded step, and so is the node it stops at; a
   * stopping node without an action is the start state.
   */
  lemma ChainOK(r: Repertoire, start: WorldState, goal: WorldState, closed: seq<Node>, cur: Node,
                p: seq<Node>, e: Option<Node>, fuel: nat)
    requires Wf(r) && AllOK(r, start, goal, closed) && NodeOK(r, start, goal, cur)
    requires Chained(closed, Some(cur), p, e, fuel)
    ensures forall k :: 0 <= k < |p| ==> NodeOK(r, start, goal, p[k])
    ensures e.Some? ==> NodeOK(r, start, goal, e.value)
    ensures e.Some? && e.value.action.None? ==> e.value.ws == start
  {
    ChainIn(closed, Some(cur), p, e, fuel);
    forall k | 1 <= k < |p|
      ensures NodeOK(r, start, goal, p[k])
    {
      var j :| 0 <= j < |closed| && closed[j] == p[k];
    }
    if e.Some? && |p| > 0 {
      var j :| 0 <= j < |closed| && closed[j] == e.value;
    }
  }

  /**
   * The loop of `reconstruct_plan` as written: the cursor node, `idx` and
   * `numsteps`.  Only while `idx >= 0` does it move to the parent.
   */
  datatype Cursor = Cursor(cur: Option<Node>, idx: int, numsteps: int)

  /** The loop condition `curnode && curnode->actionname`. */
  predicate Walking(c: Cursor)
  {
    c.cur.Some? && c.cur.value.action.Some?
  }

  /** One pass of the loop body as written. */
  function StepAsWritten(closed: seq<Node>, c: Cursor): Cursor
    requires Walking(c)
  {
    if c.idx >= 0 then Cursor(Next(closed, c.cur.value), c.idx - 1, c.numsteps + 1)
    else Cursor(c.cur, c.idx - 1, c.numsteps + 1)
  }

  /** `k` passes of the loop as written, or fewer if it exits. */
  function RunAsWritten(closed: seq<Node>, c: Cursor, k: nat): Cursor
    decreases k
  {
    if k == 0 || !Walking(c) then c else RunAsWritten(closed, StepAsWritten(closed, c), k - 1)
  }

  lemma {:induction false} RunAsWrittenSplit(closed: seq<Node>, c: Cursor, a: nat, b: nat)
    decreases a
    ensures RunAsWritten(closed, c, a + b) == RunAsWritten(closed, RunAsWritten(closed, c, a), b)
  {
    if a > 0 && Walking(c) {
      RunAsWrittenSplit(closed, StepAsWritten(closed, c), a - 1, b);
    }
  }

  /** While the buffer lasts, the loop as written follows the walk. */
  lemma {:induction false} AsWrittenFollowsWalk(closed: seq<Node>, cur: Option<Node>, fuel: nat, steps: int)
    decreases fuel
    ensures RunAsWritten(closed, Cursor(cur, fuel - 1, steps), |Walk(closed, cur, fuel).steps|) ==
            Cursor(Walk(closed, cur, fuel).end, fuel - 1 - |Walk(closed, cur, fuel).steps|, steps + |Walk(closed, cur, fuel).steps|)
  {
    if cur.Some? && cur.value.action.Some? && fuel > 0 {
      AsWrittenFollowsWalk(closed, Next(closed, cur.value), fuel - 1, steps + 1);
    }
  }

  /** Once `idx` is negative with an action left, the loop as written never moves again. */
  lemma {:induction false} AsWrittenStuck(closed: seq<Node>, c: Cursor, k: nat)
    requires Walking(c) && c.idx < 0
    decreases k
    ensures RunAsWritten(closed, c, k) == Cursor(c.cur, c.idx - k, c.numsteps + k)
  {
    if k > 0 {
      AsWrittenStuck(closed, StepAsWritten(closed, c), k - 1);
    }
  }

  /**
   * A path longer than the buffer: the loop as written is still running
   * after any number `k` of further passes, so `reconstruct_plan` hangs.
   */
  lemma AsWrittenHangs(closed: seq<Node>, goalnode: Node, plansize: nat, k: nat)
    requires Walk(closed, Some(goalnode), plansize).end.Some? && Walk(closed, Some(goalnode), plansize).end.value.action.Some?
    ensures Walking(RunAsWritten(closed, Cursor(Some(goalnode), plansize - 1, 0), plansize + k))
  {
    var c0 := Cursor(Some(goalnode), plansize - 1, 0);
    AsWrittenFollowsWalk(closed, Some(goalnode), plansize, 0);
    RunAsWrittenSplit(closed, c0, plansize, k);
    var c1 := RunAsWritten(closed, c0, plansize);
    AsWrittenStuck(closed, c1, k);
  }
}
