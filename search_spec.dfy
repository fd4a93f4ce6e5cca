/**
 * The search loop of `astar_plan` as functions on values.  One pass takes
 * the lowest-ranked node off the opened set and stops when it meets the
 * goal; otherwise it closes the node and relaxes its neighbours in the
 * order the planner lists them.  `Run` repeats passes until one stops.
 * The methods of `AStar.Search` are proved to move their arrays exactly
 * as these functions move the sets.  The lemmas here say what a run
 * delivers: well-formed nodes, a goal node whose cost is its `g`, and the
 * cause behind each failure.
 */
module SearchSpec {
  import opened WorldStates
  import opened Repertoires
  import opened Nodes

  /**
   * What `astar_plan` reports.  The C function returns the plan cost or -1;
   * the model tells the four ways of returning -1 apart.  `OutOfFuel`
   * stands for a search that has not ended within the passes allowed.
   */
  datatype Outcome = Found(cost: int) | NoPath | ClosedOverflow | OpenedOverflow | OutOfFuel

  /** The opened and closed sets between two passes of the search. */
  datatype Sets = Sets(openSet: seq<Node>, closedSet: seq<Node>)

  /** The node `astar_plan` opens first: no action, cost 0, and its estimate from `calc_h`. */
  function StartNode(start: WorldState, goal: WorldState): Node
  {
    Node(start, 0, Heuristic(start, goal), 0 + Heuristic(start, goal), None, start)
  }

  /** The start node is a well-formed node of the search. */
  lemma StartOK(r: Repertoire, start: WorldState, goal: WorldState)
    ensures AllOK(r, start, goal, [StartNode(start, goal)])
  {
    assert [StartNode(start, goal)][0] == StartNode(start, goal);
  }

  /** The lowest-rank scan: the index of the first node with the smallest `f`. */
  function Lowest(nodes: seq<Node>): (i: int)
    requires |nodes| > 0
    ensures LowestAt(nodes, i)
    decreases |nodes|
  {
    if |nodes| == 1 then 0
    else
      var j := Lowest(nodes[..|nodes| - 1]);
      if nodes[|nodes| - 1].f < nodes[j].f then |nodes| - 1 else j
  }

  /** Only one index is the lowest-ranked one: the scan has no choice to make. */
  lemma LowestUnique(nodes: seq<Node>, i: int)
    requires LowestAt(nodes, i)
    ensures i == Lowest(nodes)
  {
    var j := Lowest(nodes);
    assert nodes[i].f <= nodes[j].f && nodes[j].f <= nodes[i].f;
  }

  /**
   * The neighbour loop: relax the transitions `ts` from `cur` one after
   * the other, stopping once the opened set holds `MAXOPEN` nodes.  The
   * loop is entered with room in the opened set, so at least the first
   * transition is always relaxed.
   */
  function Expanded(s: Sets, cur: Node, ts: seq<Transition>, goal: WorldState): Sets
    decreases |ts|
  {
    if |ts| == 0 then s
    else
      var prev := Expanded(s, cur, ts[..|ts| - 1], goal);
      if |prev.openSet| == MAXOPEN then prev
      else
        var t := ts[|ts| - 1];
        var next := Relax(prev.openSet, prev.closedSet, cur, t.to, t.name, t.cost, goal);
        Sets(next.0, next.1)
  }

  /**
   * What happens to a node `cur` that misses the goal: it is closed, the
   * search stops with `ClosedOverflow` when the closed set is then full,
   * and otherwise its transitions are relaxed, stopping with
   * `OpenedOverflow` when the opened set fills up.
   */
  function Closing(r: Repertoire, s: Sets, cur: Node, goal: WorldState): (Option<Outcome>, Sets)
    requires Wf(r)
  {
    var c := s.closedSet + [cur];
    if |c| == MAXCLOS then (Some(ClosedOverflow), Sets(s.openSet, c))
    else
      var e := Expanded(Sets(s.openSet, c), cur, Transitions(r, cur.ws, |r.actions|), goal);
      (if |e.openSet| == MAXOPEN then Some(OpenedOverflow) else None, e)
  }

  /**
   * One pass of the search loop on a non-empty opened set: take the
   * lowest-ranked node off it by swap-with-last removal, stop with its `f`
   * when it meets the goal, and otherwise close and expand it.
   */
  function Pass(r: Repertoire, s: Sets, goal: WorldState): (Option<Outcome>, Node, Sets)
    requires Wf(r) && |s.openSet| > 0
  {
    var i := Lowest(s.openSet);
    var cur := s.openSet[i];
    var o := SwapRemove(s.openSet, i);
    if Matches(cur.ws, goal) then (Some(Found(cur.f)), cur, Sets(o, s.closedSet))
    else
      var next := Closing(r, Sets(o, s.closedSet), cur, goal);
      (next.0, cur, next.1)
  }

  /**
   * Up to `fuel` passes from `s`: the outcome, the node of the pass that
   * stopped (`dflt` when no pass stopped) and the final sets.
   */
  function Run(r: Repertoire, s: Sets, goal: WorldState, fuel: nat, dflt: Node): (Outcome, Node, Sets)
    requires Wf(r)
    decreases fuel, 0
  {
    if fuel == 0 then (OutOfFuel, dflt, s)
    else if |s.openSet| == 0 then (NoPath, dflt, s)
    else RunAfter(r, Pass(r, s, goal), goal, fuel - 1, dflt)
  }

  /** The run after a pass `p`: its stop, or the remaining `rest` passes from the sets it leaves. */
  function RunAfter(r: Repertoire, p: (Option<Outcome>, Node, Sets), goal: WorldState, rest: nat, dflt: Node)
    : (Outcome, Node, Sets)
    requires Wf(r)
    decreases rest, 1
  {
    if p.0.Some? then (p.0.value, p.1, p.2) else Run(r, p.2, goal, rest, dflt)
  }

  /** A run on a non-empty opened set is its first pass, then the rest of the run after it. */
  lemma RunUnfold(r: Repertoire, s: Sets, goal: WorldState, fuel: nat, rest: nat, dflt: Node)
    requires Wf(r) && fuel == rest + 1 && |s.openSet| > 0
    ensures Run(r, s, goal, fuel, dflt) == RunAfter(r, Pass(r, s, goal), goal, rest, dflt)
  {
  }

  /** The whole search: from the start node alone in the opened set and nothing closed. */
  function SearchFrom(r: Repertoire, start: WorldState, goal: WorldState, fuel: nat): (Outcome, Node, Sets)
    requires Wf(r)
  {
    Run(r, Sets([StartNode(start, goal)], []), goal, fuel, StartNode(start, goal))
  }

  // ---------------------------------------------------------------------
  // Steps of the neighbour loop

  /** While the opened set has room, one more transition is one more relaxation. */
  lemma ExpandedStep(s: Sets, cur: Node, ts: seq<Transition>, i: int, goal: WorldState)
    requires 0 <= i < |ts| && |Expanded(s, cur, ts[..i], goal).openSet| < MAXOPEN
    ensures var prev := Expanded(s, cur, ts[..i], goal);
            var next := Relax(prev.openSet, prev.closedSet, cur, ts[i].to, ts[i].name, ts[i].cost, goal);
            Expanded(s, cur, ts[..i + 1], goal) == Sets(next.0, next.1)
  {
    assert ts[..i + 1][..i] == ts[..i];
  }

  /** Once the opened set is full, the remaining transitions are not looked at. */
  lemma {:induction false} ExpandedFull(s: Sets, cur: Node, ts: seq<Transition>, k: int, goal: WorldState)
    requires 0 <= k <= |ts| && |Expanded(s, cur, ts[..k], goal).openSet| == MAXOPEN
    ensures Expanded(s, cur, ts, goal) == Expanded(s, cur, ts[..k], goal)
    decreases |ts|
  {
    if k < |ts| {
      var front := ts[..|ts| - 1];
      assert front[..k] == ts[..k];
      ExpandedFull(s, cur, front, k, goal);
    } else {
      assert ts[..k] == ts;
    }
  }

  /** Relaxing allowed steps keeps every node of both sets well formed. */
  lemma {:induction false} ExpandedOK(r: Repertoire, start: WorldState, goal: WorldState, s: Sets, cur: Node,
                                      ts: seq<Transition>)
    requires Wf(r) && AllOK(r, start, goal, s.openSet) && AllOK(r, start, goal, s.closedSet)
    requires forall k :: 0 <= k < |ts| ==> StepOK(r, cur.ws, ts[k].name, ts[k].to)
    ensures AllOK(r, start, goal, Expanded(s, cur, ts, goal).openSet)
    ensures AllOK(r, start, goal, Expanded(s, cur, ts, goal).closedSet)
    decreases |ts|
  {
    if |ts| > 0 {
      var front := ts[..|ts| - 1];
      assert forall k :: 0 <= k < |front| ==> front[k] == ts[k];
      ExpandedOK(r, start, goal, s, cur, front);
      var prev := Expanded(s, cur, front, goal);
      var t := ts[|ts| - 1];
      RelaxOpenOK(r, start, goal, prev.openSet, prev.closedSet, cur, t.to, t.name, t.cost);
      RelaxClosedOK(r, start, goal, prev.openSet, prev.closedSet, cur, t.to, t.name, t.cost);
    }
  }

  // ---------------------------------------------------------------------
  // What a pass and a run deliver

  /** Closing and expanding a well-formed node keeps both sets well formed. */
  lemma ClosingOK(r: Repertoire, start: WorldState, goal: WorldState, s: Sets, cur: Node)
    requires Wf(r) && AllOK(r, start, goal, s.openSet) && AllOK(r, start, goal, s.closedSet)
    requires NodeOK(r, start, goal, cur)
    ensures AllOK(r, start, goal, Closing(r, s, cur, goal).1.openSet)
    ensures AllOK(r, start, goal, Closing(r, s, cur, goal).1.closedSet)
  {
    var c := s.closedSet + [cur];
    AppendOK(r, start, goal, s.closedSet, cur);
    var ts := Transitions(r, cur.ws, |r.actions|);
    forall k | 0 <= k < |ts|
      ensures StepOK(r, cur.ws, ts[k].name, ts[k].to)
    {
      TransitionsSound(r, cur.ws, |r.actions|, k);
      ApplicableStep(r, cur.ws, ts[k]);
    }
    ExpandedOK(r, start, goal, Sets(s.openSet, c), cur, ts);
  }

  /** Closing stops only for a full set: `ClosedOverflow` for the closed one, `OpenedOverflow` for the opened one. */
  lemma ClosingCause(r: Repertoire, s: Sets, cur: Node, goal: WorldState)
    requires Wf(r)
    ensures Closing(r, s, cur, goal).0 == Some(ClosedOverflow) ==> |Closing(r, s, cur, goal).1.closedSet| == MAXCLOS
    ensures Closing(r, s, cur, goal).0 == Some(OpenedOverflow) ==> |Closing(r, s, cur, goal).1.openSet| == MAXOPEN
    ensures Closing(r, s, cur, goal).0 != Some(NoPath) && Closing(r, s, cur, goal).0 != Some(OutOfFuel)
    ensures Closing(r, s, cur, goal).0.Some? ==> !Closing(r, s, cur, goal).0.value.Found?
  {
  }

  /**
   * A pass keeps both sets well formed and takes off a well-formed node;
   * it stops with `Found` exactly when that node meets the goal, and the
   * cost reported is then the node's `g`.
   */
  lemma PassOK(r: Repertoire, start: WorldState, goal: WorldState, s: Sets)
    requires Wf(r) && |s.openSet| > 0 && AllOK(r, start, goal, s.openSet) && AllOK(r, start, goal, s.closedSet)
    ensures NodeOK(r, start, goal, Pass(r, s, goal).1)
    ensures AllOK(r, start, goal, Pass(r, s, goal).2.openSet) && AllOK(r, start, goal, Pass(r, s, goal).2.closedSet)
    ensures (Pass(r, s, goal).0.Some? && Pass(r, s, goal).0.value.Found?) <==> Matches(Pass(r, s, goal).1.ws, goal)
    ensures Pass(r, s, goal).0.Some? && Pass(r, s, goal).0.value.Found? ==>
              Pass(r, s, goal).0.value.cost == Pass(r, s, goal).1.f == Pass(r, s, goal).1.g
  {
    var i := Lowest(s.openSet);
    var cur := s.openSet[i];
    var o := SwapRemove(s.openSet, i);
    SwapRemoveOK(r, start, goal, s.openSet, i);
    if Matches(cur.ws, goal) {
      GoalNodeCost(r, start, goal, cur);
    } else {
      ClosingOK(r, start, goal, Sets(o, s.closedSet), cur);
      ClosingCause(r, Sets(o, s.closedSet), cur, goal);
    }
  }

  /**
   * The cause behind a failure, seen in the sets it leaves: an empty
   * opened set for `NoPath`, a full closed set for `ClosedOverflow` and a
   * full opened set for `OpenedOverflow`.
   */
  predicate Explains(res: Outcome, fin: Sets)
  {
    (res == NoPath ==> |fin.openSet| == 0) &&
    (res == ClosedOverflow ==> |fin.closedSet| == MAXCLOS) &&
    (res == OpenedOverflow ==> |fin.openSet| == MAXOPEN)
  }

  /** A pass stops only on a goal match or a full set, and a full set is there in the sets it leaves. */
  lemma PassCause(r: Repertoire, s: Sets, goal: WorldState)
    requires Wf(r) && |s.openSet| > 0
    ensures Pass(r, s, goal).0.Some? ==> Explains(Pass(r, s, goal).0.value, Pass(r, s, goal).2)
    ensures Pass(r, s, goal).0 != Some(NoPath) && Pass(r, s, goal).0 != Some(OutOfFuel)
  {
    var i := Lowest(s.openSet);
    var cur := s.openSet[i];
    ClosingCause(r, Sets(SwapRemove(s.openSet, i), s.closedSet), cur, goal);
  }

  /**
   * A run from well-formed sets that ends with `Found` ends at a
   * well-formed node meeting the goal, whose `f` and `g` are the cost
   * reported, with every node of both sets well formed.
   */
  lemma {:induction false} RunOK(r: Repertoire, start: WorldState, goal: WorldState, s: Sets, fuel: nat, dflt: Node)
    requires Wf(r) && AllOK(r, start, goal, s.openSet) && AllOK(r, start, goal, s.closedSet)
    decreases fuel
    ensures Run(r, s, goal, fuel, dflt).0.Found? ==>
              Matches(Run(r, s, goal, fuel, dflt).1.ws, goal) && NodeOK(r, start, goal, Run(r, s, goal, fuel, dflt).1)
    ensures Run(r, s, goal, fuel, dflt).0.Found? ==>
              Run(r, s, goal, fuel, dflt).0.cost == Run(r, s, goal, fuel, dflt).1.f == Run(r, s, goal, fuel, dflt).1.g
    ensures Run(r, s, goal, fuel, dflt).0.Found? ==>
              AllOK(r, start, goal, Run(r, s, goal, fuel, dflt).2.openSet) &&
              AllOK(r, start, goal, Run(r, s, goal, fuel, dflt).2.closedSet)
  {
    if fuel > 0 && |s.openSet| > 0 {
      PassOK(r, start, goal, s);
      var p := Pass(r, s, goal);
      if p.0.None? {
        RunOK(r, start, goal, p.2, fuel - 1, dflt);
      }
    }
  }

  /** Every failure of a run comes with its cause in the final sets. */
  lemma {:induction false} RunCause(r: Repertoire, s: Sets, goal: WorldState, fuel: nat, dflt: Node)
    requires Wf(r)
    decreases fuel
    ensures Explains(Run(r, s, goal, fuel, dflt).0, Run(r, s, goal, fuel, dflt).2)
  {
    if fuel > 0 && |s.openSet| > 0 {
      PassCause(r, s, goal);
      var p := Pass(r, s, goal);
      if p.0.None? {
        RunCause(r, p.2, goal, fuel - 1, dflt);
      }
    }
  }

  /** A start state that already meets the goal is the whole plan: found at cost 0, both sets left empty. */
  lemma SearchFromGoal(r: Repertoire, start: WorldState, goal: WorldState, fuel: nat)
    requires Wf(r) && Matches(start, goal) && fuel > 0
    ensures SearchFrom(r, start, goal, fuel) == (Found(0), StartNode(start, goal), Sets([], []))
  {
    var n0 := StartNode(start, goal);
    HeuristicZero(start, goal);
    assert Lowest([n0]) == 0;
    assert SwapRemove([n0], 0) == [];
    assert Pass(r, Sets([n0], []), goal) == (Some(Found(0)), n0, Sets([], []));
    RunUnfold(r, Sets([n0], []), goal, fuel, fuel - 1, n0);
  }

  /**
   * What the whole search delivers, for its outcome `res`, node `best` and
   * final sets `fin`: a plan found ends at a well-formed goal node whose
   * `g` is the cost reported, with a well-formed closed set to walk back
   * through; a start that meets the goal is found at once at cost 0; and
   * every failure comes with its cause.
   */
  lemma SearchOutcome(r: Repertoire, start: WorldState, goal: WorldState, fuel: nat,
                      res: Outcome, best: Node, fin: Sets)
    requires Wf(r) && (res, best, fin) == SearchFrom(r, start, goal, fuel)
    ensures res.Found? ==>
              Matches(best.ws, goal) && NodeOK(r, start, goal, best) && res.cost == best.f == best.g &&
              AllOK(r, start, goal, fin.closedSet)
    ensures Matches(start, goal) && fuel > 0 ==> res == Found(0) && best == StartNode(start, goal) && fin == Sets([], [])
    ensures Explains(res, fin)
  {
    var n0 := StartNode(start, goal);
    StartOK(r, start, goal);
    RunOK(r, start, goal, Sets([n0], []), fuel, n0);
    RunCause(r, Sets([n0], []), goal, fuel, n0);
    if Matches(start, goal) && fuel > 0 {
      SearchFromGoal(r, start, goal, fuel);
    }
  }
}
