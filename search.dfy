/**
 * astar.c: the A* search over world states.  The static `opened` and
 * `closed` arrays and their counters are the fields of a `Search`; each
 * operation on them is proved to move the used slots exactly as the
 * functions of the same step in `Nodes` and `SearchSpec` say.
 */
module AStar {
  import opened Bits
  import opened WorldStates
  import opened Repertoires
  import opened Nodes
  import opened Goap
  import opened SearchSpec

  /** `calc_h`: count, bit by bit, the cared-about atoms on which `fr` and `to` differ. */
  method CalcH(fr: WorldState, to: WorldState) returns (dist: int)
    ensures dist == Heuristic(fr, to)
  {
    var diff := Diff(fr, to);
    dist := 0;
    var i: bv64 := 0;
    while i < 64
      invariant i <= 64
      invariant dist == Ones(diff, i)
    {
      BitTest(diff, i);
      OnesStep(diff, i);
      if diff & Bit(i) != 0 {
        dist := dist + 1;
      }
      i := i + 1;
    }
  }

  class Search {
    const openNodes: array<Node>
    var numOpened: int
    const closedNodes: array<Node>
    var numClosed: int

    /** The two sets have their declared capacities and the counters stay within them. */
    predicate Shaped()
      reads this
    {
      openNodes.Length == MAXOPEN && closedNodes.Length == MAXCLOS && openNodes != closedNodes &&
      0 <= numOpened <= MAXOPEN && 0 <= numClosed <= MAXCLOS
    }

    /** The nodes in the opened set. */
    ghost function Opened(): seq<Node>
      requires Shaped()
      reads this, openNodes
    {
      openNodes[..numOpened]
    }

    /** The nodes in the closed set. */
    ghost function Closed(): seq<Node>
      requires Shaped()
      reads this, closedNodes
    {
      closedNodes[..numClosed]
    }

    constructor ()
      ensures Shaped() && Opened() == [] && Closed() == []
      ensures fresh(openNodes) && fresh(closedNodes)
    {
      var blank := Node(Cleared(), 0, 0, 0, None, Cleared());
      openNodes := new Node[MAXOPEN](_ => blank);
      closedNodes := new Node[MAXCLOS](_ => blank);
      numOpened := 0;
      numClosed := 0;
    }

    /** `idx_in_opened`: the first opened node with the values of `ws`, or -1. */
    method IdxInOpened(ws: WorldState) returns (idx: int)
      requires Shaped()
      ensures idx == IndexOfValues(Opened(), ws)
    {
      idx := Find(openNodes, numOpened, ws);
    }

    /** `idx_in_closed`: the first closed node with the values of `ws`, or -1. */
    method IdxInClosed(ws: WorldState) returns (idx: int)
      requires Shaped()
      ensures idx == IndexOfValues(Closed(), ws)
    {
      idx := Find(closedNodes, numClosed, ws);
    }

    /**
     * The lowest-rank scan as written: `lowestVal` starts at `INT_MAX` and
     * only a strictly smaller `f` is taken, so when every opened node has
     * `f >= INT_MAX` the index stays -1 and the caller reads `opened[-1]`.
     */
    method LowestRankAsWritten() returns (idx: int)
      requires Shaped()
      ensures idx == -1 <==> forall j :: 0 <= j < numOpened ==> Opened()[j].f >= INT_MAX
      ensures idx != -1 ==> LowestAt(Opened(), idx)
    {
      idx := -1;
      var lowest := INT_MAX;
      for i := 0 to numOpened
        invariant idx == -1 ==> lowest == INT_MAX && forall j :: 0 <= j < i ==> Opened()[j].f >= INT_MAX
        invariant idx != -1 ==> 0 <= idx < i && lowest == Opened()[idx].f < INT_MAX
        invariant forall j :: 0 <= j < i ==> lowest <= Opened()[j].f
        invariant forall j :: 0 <= j < idx ==> Opened()[j].f > lowest
      {
        if openNodes[i].f < lowest {
          lowest := openNodes[i].f;
          idx := i;
        }
      }
    }

    /**
     * The lowest-rank scan with the first node taken unconditionally: the
     * smallest `f`, the earliest index among equals.
     */
    method LowestRank() returns (idx: int)
      requires Shaped() && numOpened > 0
      ensures LowestAt(Opened(), idx)
    {
      idx := -1;
      var lowest := 0;
      for i := 0 to numOpened
        invariant idx == -1 <==> i == 0
        invariant idx != -1 ==> 0 <= idx < i && lowest == Opened()[idx].f
        invariant forall j :: 0 <= j < i ==> lowest <= Opened()[j].f
        invariant forall j :: 0 <= j < idx ==> Opened()[j].f > lowest
      {
        if idx == -1 || openNodes[i].f < lowest {
          lowest := openNodes[i].f;
          idx := i;
        }
      }
    }

    /** Remove opened node `i`: the last opened node takes its slot. */
    method RemoveOpened(i: int)
      requires Shaped() && 0 <= i < numOpened
      modifies this, openNodes
      ensures Shaped() && numClosed == old(numClosed) && Closed() == old(Closed())
      ensures Opened() == SwapRemove(old(Opened()), i)
    {
      openNodes[i] := openNodes[numOpened - 1];
      numOpened := numOpened - 1;
    }

    /** Remove closed node `i`: the last closed node takes its slot. */
    method RemoveClosed(i: int)
      requires Shaped() && 0 <= i < numClosed
      modifies this, closedNodes
      ensures Shaped() && numOpened == old(numOpened) && Opened() == old(Opened())
      ensures Closed() == SwapRemove(old(Closed()), i)
    {
      closedNodes[i] := closedNodes[numClosed - 1];
      numClosed := numClosed - 1;
    }

    /** `opened[ numOpened++ ] = n`. */
    method PushOpened(n: Node)
      requires Shaped() && numOpened < MAXOPEN
      modifies this, openNodes
      ensures Shaped() && numClosed == old(numClosed) && Closed() == old(Closed())
      ensures Opened() == old(Opened()) + [n] && numOpened == old(numOpened) + 1
    {
      openNodes[numOpened] := n;
      numOpened := numOpened + 1;
    }

    /** `closed[ numClosed++ ] = n`. */
    method PushClosed(n: Node)
      requires Shaped() && numClosed < MAXCLOS
      modifies this, closedNodes
      ensures Shaped() && numOpened == old(numOpened) && Opened() == old(Opened())
      ensures Closed() == old(Closed()) + [n]
    {
      closedNodes[numClosed] := n;
      numClosed := numClosed + 1;
    }

    /**
     * The body of the neighbour loop of `astar_plan` for one transition
     * from `cur`: drop an entry beaten by the new cost, then open the
     * neighbour if neither set still holds its values.
     */
    method RelaxNeighbour(cur: Node, to: WorldState, name: string, cost: int, goal: WorldState)
      requires Shaped() && numOpened < MAXOPEN
      modifies this, openNodes, closedNodes
      ensures Shaped() && numClosed <= old(numClosed) && numOpened <= old(numOpened) + 1
      ensures Opened() == Relax(old(Opened()), old(Closed()), cur, to, name, cost, goal).0
      ensures Closed() == Relax(old(Opened()), old(Closed()), cur, to, name, cost, goal).1
    {
      ghost var o0, c0 := Opened(), Closed();
      RelaxParts(o0, c0, cur, to, name, cost, goal);
      var g := cur.g + cost;
      var idxO := IdxInOpened(to);
      var idxC := IdxInClosed(to);
      var goneO := DropOpened(idxO, g);
      assert Opened() == DropBeaten(o0, to, g) && goneO == Beaten(o0, to, g);
      var goneC := DropClosed(idxC, g);
      assert Closed() == DropBeaten(c0, to, g) && goneC == Beaten(c0, to, g);
      if goneC && goneO {
        OpenNeighbour(cur, to, name, cost, goal);
      }
    }

    /** Open the neighbour reached from `cur` by action `name` at `cost`, its heuristic from `calc_h`. */
    method OpenNeighbour(cur: Node, to: WorldState, name: string, cost: int, goal: WorldState)
      requires Shaped() && numOpened < MAXOPEN
      modifies this, openNodes
      ensures Shaped() && Closed() == old(Closed()) && numOpened == old(numOpened) + 1
      ensures Opened() == old(Opened()) + [Neighbour(cur, to, name, cost, goal)]
    {
      var g := cur.g + cost;
      var h := CalcH(to, goal);
      NeighbourIs(cur, to, name, cost, goal, h);
      PushOpened(Node(to, g, h, g + h, Some(name), cur.ws));
    }

    /**
     * Drop opened entry `idx`, the entry for some values or -1 for none,
     * when a path of cost `g` is strictly cheaper; `gone` says no entry is left.
     */
    method DropOpened(idx: int, g: int) returns (gone: bool)
      requires Shaped() && -1 <= idx < numOpened
      modifies this, openNodes
      ensures Shaped() && Closed() == old(Closed()) && numOpened <= old(numOpened)
      ensures Opened() == (if idx >= 0 && g < old(Opened())[idx].g then SwapRemove(old(Opened()), idx) else old(Opened()))
      ensures gone == (idx == -1 || g < old(Opened())[idx].g)
    {
      gone := idx == -1;
      if idx >= 0 && g < openNodes[idx].g {
        assert openNodes[idx] == Opened()[idx];
        RemoveOpened(idx);
        gone := true;
      }
    }

    /**
     * Drop closed entry `idx`, the entry for some values or -1 for none,
     * when a path of cost `g` is strictly cheaper; `gone` says no entry is left.
     */
    method DropClosed(idx: int, g: int) returns (gone: bool)
      requires Shaped() && -1 <= idx < numClosed
      modifies this, closedNodes
      ensures Shaped() && Opened() == old(Opened()) && numClosed <= old(numClosed)
      ensures Closed() == (if idx >= 0 && g < old(Closed())[idx].g then SwapRemove(old(Closed()), idx) else old(Closed()))
      ensures gone == (idx == -1 || g < old(Closed())[idx].g)
    {
      gone := idx == -1;
      if idx >= 0 && g < closedNodes[idx].g {
        assert closedNodes[idx] == Closed()[idx];
        RemoveClosed(idx);
        gone := true;
      }
    }

    /**
     * `reconstruct_plan`, with the walk stopping once the buffer is full:
     * the actions and states of the walk back from `goalnode` are written
     * from the end of the buffer towards its front, then moved to the
     * front.  `n` is the number of steps written, and `full` says that the
     * buffer ran out before the start was reached.
     */
    method ReconstructPlan(goalnode: Node, plan: array<string>, worldstates: array<WorldState>, plansize: int)
      returns (n: int, full: bool, ghost p: seq<Node>, ghost e: Option<Node>)
      requires Shaped() && plansize <= plan.Length && plansize <= worldstates.Length
      modifies plan, worldstates
      ensures Chained(Closed(), Some(goalnode), p, e, Room(plansize))
      ensures n == |p| && full == (e.Some? && e.value.action.Some?)
      ensures n <= Room(plansize) && (full ==> n == Room(plansize))
      ensures Holds(plan, worldstates, p)
      ensures KeptOutside(plan, worldstates, 0, Room(plansize))
    {
      ghost var w := Walk(Closed(), Some(goalnode), Room(plansize));
      WalkChained(Closed(), Some(goalnode), Room(plansize));
      p, e := w.steps, w.end;
      var numsteps;
      numsteps, full := WalkBack(closedNodes, numClosed, goalnode, plan, worldstates, plansize, p, e);
      var idx := plansize - numsteps;
      if idx > 0 {
        MoveToFront(plan, worldstates, idx, numsteps);
      }
      n := numsteps;
    }

    /**
     * `astar_plan`: search from `start` for a state that meets `goal`,
     * taking at most `fuel` nodes off the opened set.  The outcome, the
     * goal node and the closed set are those of `SearchFrom`; on success
     * the plan is the walk back from the goal node through the closed set.
     */
    method Plan(ap: ActionPlanner, ghost r: Repertoire, start: WorldState, goal: WorldState, plan: array<string>,
                worldstates: array<WorldState>, plansize: int, fuel: nat)
      returns (res: Outcome, n: int, full: bool, ghost goalnode: Node, ghost closed: seq<Node>,
               ghost p: seq<Node>, ghost e: Option<Node>)
      requires Shaped() && ap.Valid() && ap.View() == r
      requires plansize <= plan.Length && plansize <= worldstates.Length
      requires plan != ap.atmNames && plan != ap.actNames && worldstates != ap.actPre && worldstates != ap.actPst
      modifies this, openNodes, closedNodes, plan, worldstates
      ensures Shaped()
      ensures res == SearchFrom(r, start, goal, fuel).0
      ensures goalnode == SearchFrom(r, start, goal, fuel).1
      ensures Opened() == SearchFrom(r, start, goal, fuel).2.openSet
      ensures closed == Closed() == SearchFrom(r, start, goal, fuel).2.closedSet
      ensures !res.Found? ==> n == plansize && !full
      ensures res.Found? ==> Matches(goalnode.ws, goal) && res.cost == goalnode.f == goalnode.g
      ensures res.Found? ==> NodeOK(r, start, goal, goalnode) && AllOK(r, start, goal, closed)
      ensures res.Found? ==> Chained(closed, Some(goalnode), p, e, Room(plansize))
      ensures res.Found? ==> n == |p| && full == (e.Some? && e.value.action.Some?)
      ensures res.Found? ==> n <= Room(plansize) && (full ==> n == Room(plansize))
      ensures res.Found? ==> Holds(plan, worldstates, p)
      ensures res.Found? ==> KeptOutside(plan, worldstates, 0, Room(plansize))
      ensures !res.Found? ==> unchanged(plan) && unchanged(worldstates)
      ensures Matches(start, goal) && fuel > 0 ==> res == Found(0) && n == 0 && !full
      ensures Explains(res, Sets(Opened(), Closed()))
    {
      var best;
      res, best := RunSearch(ap, r, start, goal, fuel);
      goalnode, closed := best, Closed();
      if !res.Found? {
        return res, plansize, false, goalnode, closed, [], None;
      }
      n, full, p, e := ReconstructPlan(best, plan, worldstates, plansize);
    }

    /**
     * The search loop of `astar_plan`, pass by pass as `Run` describes it
     * from the start node: the outcome, the node of the last pass and the
     * two sets are those of `SearchFrom`.
     */
    method RunSearch(ap: ActionPlanner, ghost r: Repertoire, start: WorldState, goal: WorldState, fuel: nat)
      returns (res: Outcome, best: Node)
      requires Shaped() && ap.Shaped() && ap.View() == r && Wf(r)
      modifies this, openNodes, closedNodes
      ensures Shaped()
      ensures res == SearchFrom(r, start, goal, fuel).0 && best == SearchFrom(r, start, goal, fuel).1
      ensures Opened() == SearchFrom(r, start, goal, fuel).2.openSet
      ensures Closed() == SearchFrom(r, start, goal, fuel).2.closedSet
      ensures res.Found? ==>
                Matches(best.ws, goal) && NodeOK(r, start, goal, best) && AllOK(r, start, goal, Closed()) &&
                res.cost == best.f == best.g
      ensures Matches(start, goal) && fuel > 0 ==> res == Found(0) && best.action.None?
      ensures Explains(res, Sets(Opened(), Closed()))
    {
      var n0 := Init(start, goal);
      assert Sets(Opened(), Closed()) == Sets([StartNode(start, goal)], []);
      res, best := Passes(ap, r, goal, fuel, n0);
      SearchOutcome(r, start, goal, fuel, res, best, Sets(Opened(), Closed()));
    }

    /**
     * The `while` loop of `astar_plan`, given at most `fuel` passes: the
     * outcome, the node of the last pass (`dflt` when no pass stopped) and
     * the final sets are those of `Run` from the sets it starts with.
     */
    method Passes(ap: ActionPlanner, ghost r: Repertoire, goal: WorldState, fuel: nat, dflt: Node)
      returns (res: Outcome, best: Node)
      requires Shaped() && ap.Shaped() && ap.View() == r && Wf(r)
      requires numOpened < MAXOPEN && numClosed < MAXCLOS
      modifies this, openNodes, closedNodes
      ensures Shaped()
      ensures (res, best, Sets(Opened(), Closed())) == Run(r, Sets(old(Opened()), old(Closed())), goal, fuel, dflt)
    {
      res, best := OutOfFuel, dflt;
      var f := fuel;
      ghost var out := Run(r, Sets(Opened(), Closed()), goal, fuel, dflt);
      while f > 0
        invariant Shaped() && ap.Shaped() && ap.View() == r
        invariant numOpened < MAXOPEN && numClosed < MAXCLOS
        invariant Run(r, Sets(Opened(), Closed()), goal, f, dflt) == out
        invariant res == OutOfFuel && best == dflt
        decreases f
      {
        if numOpened == 0 {
          res := NoPath;
          break;
        }
        var stop, cur, left := Advance(ap, r, goal, f, dflt);
        if stop.Some? {
          res, best := stop.value, cur;
          break;
        }
        f := left;
      }
    }

    /**
     * One iteration of the search loop with `f` passes left: a pass that
     * stops ends the run there, and one that does not leaves the rest of
     * the run to the remaining passes.
     */
    method Advance(ap: ActionPlanner, ghost r: Repertoire, goal: WorldState, f: nat, ghost dflt: Node)
      returns (stop: Option<Outcome>, cur: Node, left: nat)
      requires Shaped() && ap.Shaped() && ap.View() == r && Wf(r) && f > 0
      requires 0 < numOpened < MAXOPEN && numClosed < MAXCLOS
      modifies this, openNodes, closedNodes
      ensures Shaped() && ap.View() == r
      ensures stop.Some? ==> Run(r, Sets(old(Opened()), old(Closed())), goal, f, dflt) == (stop.value, cur, Sets(Opened(), Closed()))
      ensures left < f
      ensures stop.None? ==> Run(r, Sets(old(Opened()), old(Closed())), goal, f, dflt) == Run(r, Sets(Opened(), Closed()), goal, left, dflt)
      ensures stop.None? ==> numOpened < MAXOPEN && numClosed < MAXCLOS
    {
      left := f - 1;
      RunUnfold(r, Sets(Opened(), Closed()), goal, f, left, dflt);
      stop, cur := Step(ap, r, goal);
    }

    /** Empty both sets and open the start node, its heuristic from `calc_h`. */
    method Init(start: WorldState, goal: WorldState) returns (n0: Node)
      requires Shaped()
      modifies this, openNodes
      ensures Shaped() && Opened() == [n0] && Closed() == []
      ensures n0 == StartNode(start, goal)
    {
      numOpened := 0;
      numClosed := 0;
      var h := CalcH(start, goal);
      n0 := Node(start, 0, h, 0 + h, None, start);
      PushOpened(n0);
    }

    /**
     * One pass of the search loop, as `Pass` describes it: take the
     * lowest-rank node `cur` off the opened set; stop with `Found` when it
     * meets `goal`, otherwise close it and relax its neighbours, stopping
     * when either set fills up.
     */
    method Step(ap: ActionPlanner, ghost r: Repertoire, goal: WorldState)
      returns (stop: Option<Outcome>, cur: Node)
      requires Shaped() && ap.Shaped() && ap.View() == r && Wf(r)
      requires 0 < numOpened < MAXOPEN && numClosed < MAXCLOS
      modifies this, openNodes, closedNodes
      ensures Shaped()
      ensures stop == Pass(r, Sets(old(Opened()), old(Closed())), goal).0
      ensures cur == Pass(r, Sets(old(Opened()), old(Closed())), goal).1
      ensures Opened() == Pass(r, Sets(old(Opened()), old(Closed())), goal).2.openSet
      ensures Closed() == Pass(r, Sets(old(Opened()), old(Closed())), goal).2.closedSet
      ensures stop.None? ==> numOpened < MAXOPEN && numClosed < MAXCLOS
    {
      ghost var o := Opened();
      var i;
      cur, i := PopLowest();
      LowestUnique(o, i);
      if Matches(cur.ws, goal) {
        return Some(Found(cur.f)), cur;
      }
      stop := CloseAndExpand(ap, r, goal, cur);
    }

    /** Take the lowest-rank node off the opened set. */
    method PopLowest() returns (cur: Node, i: int)
      requires Shaped() && numOpened > 0
      modifies this, openNodes
      ensures Shaped() && Closed() == old(Closed())
      ensures LowestAt(old(Opened()), i) && cur == old(Opened())[i]
      ensures Opened() == SwapRemove(old(Opened()), i)
    {
      i := LowestRank();
      cur := openNodes[i];
      assert cur == Opened()[i];
      RemoveOpened(i);
    }

    /**
     * Close `cur` and relax its neighbours, as `Closing` describes it:
     * `ClosedOverflow` when the closed set is then full, `OpenedOverflow`
     * when the opened set fills up, and no outcome when the search goes on.
     */
    method CloseAndExpand(ap: ActionPlanner, ghost r: Repertoire, goal: WorldState, cur: Node)
      returns (stop: Option<Outcome>)
      requires Shaped() && ap.Shaped() && ap.View() == r && Wf(r)
      requires numOpened < MAXOPEN && numClosed < MAXCLOS
      modifies this, openNodes, closedNodes
      ensures Shaped()
      ensures stop == Closing(r, Sets(old(Opened()), old(Closed())), cur, goal).0
      ensures Opened() == Closing(r, Sets(old(Opened()), old(Closed())), cur, goal).1.openSet
      ensures Closed() == Closing(r, Sets(old(Opened()), old(Closed())), cur, goal).1.closedSet
      ensures stop.None? ==> numOpened < MAXOPEN && numClosed < MAXCLOS
    {
      PushClosed(cur);
      if numClosed == MAXCLOS {
        return Some(ClosedOverflow);
      }
      var overflow := Expand(ap, r, goal, cur);
      if overflow {
        return Some(OpenedOverflow);
      }
      stop := None;
    }

    /**
     * The neighbour loop of `astar_plan`: list the transitions from `cur`
     * and relax each in turn, stopping when the opened set is full; the
     * sets end as `Expanded` says.
     */
    method Expand(ap: ActionPlanner, ghost r: Repertoire, goal: WorldState, cur: Node)
      returns (overflow: bool)
      requires Shaped() && ap.Shaped() && ap.View() == r && Wf(r)
      requires numOpened < MAXOPEN
      modifies this, openNodes, closedNodes
      ensures Shaped() && numClosed <= old(numClosed)
      ensures Opened() == Expanded(Sets(old(Opened()), old(Closed())), cur, Transitions(r, cur.ws, |r.actions|), goal).openSet
      ensures Closed() == Expanded(Sets(old(Opened()), old(Closed())), cur, Transitions(r, cur.ws, |r.actions|), goal).closedSet
      ensures overflow <==> numOpened == MAXOPEN
    {
      var toS, namesS, costsS := Listed(ap, r, cur.ws);
      overflow := RelaxAll(cur, goal, toS, namesS, costsS, Transitions(r, cur.ws, |r.actions|));
    }

    /**
     * Relax the listed transitions `ts` (their successors, names and costs
     * given as `toS`, `namesS` and `costsS`) in turn, stopping as soon as
     * the opened set is full.
     */
    method RelaxAll(cur: Node, goal: WorldState, toS: seq<WorldState>, namesS: seq<string>, costsS: seq<int>,
                    ghost ts: seq<Transition>)
      returns (overflow: bool)
      requires Shaped() && numOpened < MAXOPEN
      requires |toS| == |ts| && |namesS| == |ts| && |costsS| == |ts|
      requires forall j :: 0 <= j < |ts| ==> toS[j] == ts[j].to && namesS[j] == ts[j].name && costsS[j] == ts[j].cost
      modifies this, openNodes, closedNodes
      ensures Shaped() && numClosed <= old(numClosed)
      ensures Opened() == Expanded(Sets(old(Opened()), old(Closed())), cur, ts, goal).openSet
      ensures Closed() == Expanded(Sets(old(Opened()), old(Closed())), cur, ts, goal).closedSet
      ensures overflow <==> numOpened == MAXOPEN
    {
      ghost var s0 := Sets(Opened(), Closed());
      for i := 0 to |toS|
        invariant Shaped() && numClosed <= old(numClosed) && numOpened < MAXOPEN
        invariant Sets(Opened(), Closed()) == Expanded(s0, cur, ts[..i], goal)
      {
        ExpandedStep(s0, cur, ts, i, goal);
        RelaxNeighbour(cur, toS[i], namesS[i], costsS[i], goal);
        if numOpened == MAXOPEN {
          ExpandedFull(s0, cur, ts, i + 1, goal);
          return true;
        }
      }
      assert ts[..|toS|] == ts;
      overflow := false;
    }
  }

  /**
   * The transitions from `fr`, as `goap_get_possible_state_transitions`
   * writes them into buffers of `MAXACTIONS` entries: all of them, since
   * there are never more transitions than actions.
   */
  method Listed(ap: ActionPlanner, ghost r: Repertoire, fr: WorldState)
    returns (toS: seq<WorldState>, namesS: seq<string>, costsS: seq<int>)
    requires ap.Shaped() && ap.View() == r && Wf(r)
    ensures |toS| == |Transitions(r, fr, |r.actions|)| && |namesS| == |toS| && |costsS| == |toS|
    ensures forall j :: 0 <= j < |toS| ==>
              toS[j] == Transitions(r, fr, |r.actions|)[j].to && namesS[j] == Transitions(r, fr, |r.actions|)[j].name &&
              costsS[j] == Transitions(r, fr, |r.actions|)[j].cost
  {
    var to := new WorldState[MAXACTIONS](_ => Cleared());
    var names := new string[MAXACTIONS](_ => "");
    var costs := new int[MAXACTIONS](_ => 0);
    var n := ap.GetPossibleStateTransitions(fr, to, names, costs, MAXACTIONS);
    TransitionsBounded(r, fr, |r.actions|);
    toS, namesS, costsS := to[..n], names[..n], costs[..n];
  }

  /** The compaction loop of `reconstruct_plan`: entries `off .. off + count` move to `0 .. count`. */
  method MoveToFront(plan: array<string>, worldstates: array<WorldState>, off: int, count: int)
    requires 0 < off && 0 <= count && off + count <= plan.Length && off + count <= worldstates.Length
    modifies plan, worldstates
    ensures forall j :: 0 <= j < count ==> plan[j] == old(plan[j + off]) && worldstates[j] == old(worldstates[j + off])
    ensures KeptOutside(plan, worldstates, 0, count)
  {
    for i := 0 to count
      invariant forall j :: 0 <= j < i ==> plan[j] == old(plan[j + off]) && worldstates[j] == old(worldstates[j + off])
      invariant forall j :: i <= j < plan.Length ==> plan[j] == old(plan[j])
      invariant forall j :: i <= j < worldstates.Length ==> worldstates[j] == old(worldstates[j])
    {
      plan[i] := plan[i + off];
      worldstates[i] := worldstates[i + off];
    }
  }

  /** The scan of `idx_in_opened` and `idx_in_closed` over the first `count` nodes of `nodes`. */
  method Find(nodes: array<Node>, count: int, ws: WorldState) returns (idx: int)
    requires 0 <= count <= nodes.Length
    ensures idx == IndexOfValues(nodes[..count], ws)
  {
    IndexOfValuesFirst(nodes[..count], ws);
    idx := 0;
    while idx < count
      invariant 0 <= idx <= count
      invariant forall j :: 0 <= j < idx ==> nodes[..count][j].ws.values != ws.values
    {
      if nodes[idx].ws.values == ws.values {
        assert nodes[..count][idx] == nodes[idx];
        return;
      }
      idx := idx + 1;
    }
    idx := -1;
  }

  /**
   * The walk loop of `reconstruct_plan`, stopping once the buffer is full:
   * the actions and states of the walk `p` back from `goalnode` through
   * the first `numClosed` closed nodes are written from `plansize - 1` down.
   */
  method WalkBack(closedNodes: array<Node>, numClosed: int, goalnode: Node, plan: array<string>,
                  worldstates: array<WorldState>, plansize: int, ghost p: seq<Node>, ghost e: Option<Node>)
    returns (numsteps: int, full: bool)
    requires 0 <= numClosed <= closedNodes.Length
    requires plansize <= plan.Length && plansize <= worldstates.Length
    requires Chained(closedNodes[..numClosed], Some(goalnode), p, e, Room(plansize))
    modifies plan, worldstates
    ensures numsteps == |p| && full == (e.Some? && e.value.action.Some?)
    ensures forall j :: plansize - numsteps <= j < plansize ==> plan[j] == ActionName(p[plansize - 1 - j])
    ensures forall j :: plansize - numsteps <= j < plansize ==> worldstates[j] == p[plansize - 1 - j].ws
    ensures KeptOutside(plan, worldstates, plansize - numsteps, plansize)
  {
    ghost var closed := closedNodes[..numClosed];
    var cur: Option<Node> := Some(goalnode);
    var idx := plansize - 1;
    numsteps := 0;
    while cur.Some? && cur.value.action.Some? && idx >= 0
      invariant 0 <= numsteps <= |p| && idx == plansize - 1 - numsteps
      invariant numsteps < |p| ==> cur == Some(p[numsteps])
      invariant numsteps == |p| ==> cur == e
      invariant Recorded(plan, worldstates, p, idx + 1, plansize)
      invariant KeptOutside(plan, worldstates, idx + 1, plansize)
      decreases idx
    {
      ChainedLink(closed, Some(goalnode), p, e, Room(plansize), numsteps);
      var node := cur.value;
      RecordStep(plan, worldstates, plansize, p, idx, node);
      var i := Find(closedNodes, numClosed, node.parentws);
      cur := if i == -1 then None else Some(closedNodes[i]);
      assert cur == Next(closed, node);
      idx := idx - 1;
      numsteps := numsteps + 1;
    }
    full := cur.Some? && cur.value.action.Some?;
  }

  /** Every entry of the two plan buffers outside `lo .. hi` is as it was. */
  twostate predicate KeptOutside(plan: array<string>, worldstates: array<WorldState>, lo: int, hi: int)
    reads plan, worldstates
  {
    (forall j :: 0 <= j < plan.Length && (j < lo || hi <= j) ==> plan[j] == old(plan[j])) &&
    (forall j :: 0 <= j < worldstates.Length && (j < lo || hi <= j) ==> worldstates[j] == old(worldstates[j]))
  }

  /**
   * The plan buffers start with the walk `p` in start-to-goal order: slot
   * `j` holds the action name and the state of step `|p| - 1 - j`.
   */
  ghost predicate Holds(plan: array<string>, worldstates: array<WorldState>, p: seq<Node>)
    reads plan, worldstates
  {
    |p| <= plan.Length && |p| <= worldstates.Length &&
    forall j :: 0 <= j < |p| ==> plan[j] == ActionName(p[|p| - 1 - j]) && worldstates[j] == p[|p| - 1 - j].ws
  }

  /** Slots `lo .. plansize` of the two plan buffers hold the walk `p`, its first node in the last slot. */
  ghost predicate Recorded(plan: array<string>, worldstates: array<WorldState>, p: seq<Node>, lo: int, plansize: int)
    reads plan, worldstates
  {
    forall j :: lo <= j < plansize ==>
      0 <= j < plan.Length && j < worldstates.Length && 0 <= plansize - 1 - j < |p| &&
      plan[j] == ActionName(p[plansize - 1 - j]) && worldstates[j] == p[plansize - 1 - j].ws
  }

  /**
   * Write step `plansize - 1 - idx` of the walk `p`, its action name and
   * its state, at slot `idx`, in front of the steps already written.
   */
  method RecordStep(plan: array<string>, worldstates: array<WorldState>, plansize: int, ghost p: seq<Node>,
                    idx: int, node: Node)
    requires 0 <= idx < plansize <= plan.Length && plansize <= worldstates.Length
    requires plansize - 1 - idx < |p| && node == p[plansize - 1 - idx] && node.action.Some?
    requires Recorded(plan, worldstates, p, idx + 1, plansize)
    modifies plan, worldstates
    ensures Recorded(plan, worldstates, p, idx, plansize)
    ensures KeptOutside(plan, worldstates, idx, idx + 1)
  {
    plan[idx] := node.action.value;
    worldstates[idx] := node.ws;
  }
}
