/**
 * `actionplanner_t` and the goap.c operations that update it in place.
 *
 * The planner's tables are fixed-size arrays of `MAXATOMS` and `MAXACTIONS`
 * slots with two counters; only the first `numAtoms` / `numActions` slots
 * are in use.  `View()` reads the used slots as a `Repertoire`, and every
 * method is proved to move that view exactly as the function of the same
 * name in `Repertoires` does.
 */
module Goap {
  import opened Bits
  import opened WorldStates
  import opened Repertoires

  class ActionPlanner {
    const atmNames: array<string>
    var numAtoms: int
    const actNames: array<string>
    const actPre: array<WorldState>
    const actPst: array<WorldState>
    const actCosts: array<int>
    var numActions: int

    /** The tables have their declared sizes and are separate arrays. */
    predicate Allocated()
      reads this
    {
      atmNames.Length == MAXATOMS && actNames.Length == MAXACTIONS &&
      actPre.Length == MAXACTIONS && actPst.Length == MAXACTIONS && actCosts.Length == MAXACTIONS &&
      atmNames != actNames && actPre != actPst
    }

    /** The counters stay within the tables. */
    predicate Shaped()
      reads this
    {
      Allocated() && 0 <= numAtoms <= MAXATOMS && 0 <= numActions <= MAXACTIONS
    }

    /** The used slots, as a repertoire. */
    ghost function View(): Repertoire
      requires Shaped()
      reads this, atmNames, actNames, actPre, actPst, actCosts
    {
      Repertoire(atmNames[..numAtoms], actNames[..numActions], actPre[..numActions],
                 actPst[..numActions], actCosts[..numActions])
    }

    /**
     * The used slots form a well-formed repertoire, and the unused action
     * slots still hold cleared conditions: a newly registered action relies
     * on that, since `idx_for_actionname` sets only its name and cost.
     */
    ghost predicate Valid()
      reads this, atmNames, actNames, actPre, actPst, actCosts
    {
      Shaped() && Wf(View()) &&
      forall k :: numActions <= k < MAXACTIONS ==> actPre[k] == Cleared() && actPst[k] == Cleared()
    }

    /** A planner with fresh tables, initialised by `goap_actionplanner_clear`. */
    constructor ()
      ensures Valid() && View() == Empty()
      ensures fresh(atmNames) && fresh(actNames) && fresh(actPre) && fresh(actPst) && fresh(actCosts)
    {
      atmNames := new string[MAXATOMS](_ => "");
      actNames := new string[MAXACTIONS](_ => "");
      actPre := new WorldState[MAXACTIONS](_ => Cleared());
      actPst := new WorldState[MAXACTIONS](_ => Cleared());
      actCosts := new int[MAXACTIONS](_ => 0);
      numAtoms := 0;
      numActions := 0;
      new;
      Clear();
    }

    /**
     * `goap_actionplanner_clear`: no atoms, no actions, and every slot reset
     * (the C null name is the empty string here).
     */
    method Clear()
      requires Allocated()
      modifies this, atmNames, actNames, actPre, actPst, actCosts
      ensures Valid() && View() == Empty()
      ensures forall k :: 0 <= k < MAXATOMS ==> atmNames[k] == ""
      ensures forall k :: 0 <= k < MAXACTIONS ==>
                actNames[k] == "" && actCosts[k] == 0 && actPre[k] == Cleared() && actPst[k] == Cleared()
    {
      numAtoms := 0;
      numActions := 0;
      for i := 0 to MAXATOMS
        modifies atmNames
        invariant forall k :: 0 <= k < i ==> atmNames[k] == ""
      {
        atmNames[i] := "";
      }
      for i := 0 to MAXACTIONS
        modifies actNames, actCosts, actPre, actPst
        invariant forall k :: 0 <= k < i ==>
                    actNames[k] == "" && actCosts[k] == 0 && actPre[k] == Cleared() && actPst[k] == Cleared()
      {
        actNames[i] := "";
        actCosts[i] := 0;
        actPre[i] := Cleared();
        actPst[i] := Cleared();
      }
    }

    /** `idx_for_atomname`: search the used slots, else append while there is room, else -1. */
    method IdxForAtomName(name: string) returns (idx: int)
      requires Valid()
      modifies this, atmNames
      ensures Valid() && (View(), idx) == RegisterAtom(old(View()), name)
    {
      ghost var r := View();
      idx := 0;
      while idx < numAtoms
        invariant 0 <= idx <= numAtoms
        invariant name !in atmNames[..idx]
      {
        if atmNames[idx] == name {
          IndexOfFirst(r.atoms, name, idx);
          return;
        }
        idx := idx + 1;
      }
      assert r.atoms == atmNames[..idx];
      if idx < MAXATOMS {
        atmNames[idx] := name;
        numAtoms := numAtoms + 1;
        assert atmNames[..numAtoms] == r.atoms + [name];
        return;
      }
      idx := -1;
    }

    /** `idx_for_actionname`: as for atoms, and a newly appended action gets cost 1. */
    method IdxForActionName(name: string) returns (idx: int)
      requires Valid()
      modifies this, actNames, actCosts
      ensures Valid() && (View(), idx) == RegisterAction(old(View()), name)
    {
      ghost var r := View();
      idx := 0;
      while idx < numActions
        invariant 0 <= idx <= numActions
        invariant name !in actNames[..idx]
      {
        if actNames[idx] == name {
          IndexOfFirst(r.actions, name, idx);
          return;
        }
        idx := idx + 1;
      }
      assert r.actions == actNames[..idx];
      if idx < MAXACTIONS {
        actNames[idx] := name;
        actCosts[idx] := 1;
        numActions := numActions + 1;
        assert actNames[..numActions] == r.actions + [name];
        assert actCosts[..numActions] == r.costs + [1];
        assert actPre[..numActions] == r.pre + [Cleared()];
        assert actPst[..numActions] == r.pst + [Cleared()];
        return;
      }
      idx := -1;
    }

    /** `goap_worldstate_set`: register the atom, then set its value bit and clear its don't-care bit. */
    method WorldStateSet(ws: WorldState, name: string, value: bool) returns (ok: bool, ws': WorldState)
      requires Valid()
      modifies this, atmNames
      ensures Valid() && (View(), ok, ws') == Repertoires.WorldStateSet(old(View()), ws, name, value)
    {
      var idx := IdxForAtomName(name);
      if idx == -1 {
        return false, ws;
      }
      ws' := SetAtom(ws, idx, value);
      ok := true;
    }

    /** The name search shared by both getters: the first matching slot, or `numAtoms`. */
    method FindAtom(name: string) returns (idx: int)
      requires Valid()
      ensures idx == (if name in View().atoms then IndexOf(View().atoms, name) else numAtoms)
    {
      idx := 0;
      while idx < numAtoms
        invariant 0 <= idx <= numAtoms
        invariant name !in atmNames[..idx]
      {
        if atmNames[idx] == name {
          IndexOfFirst(View().atoms, name, idx);
          return;
        }
        idx := idx + 1;
      }
      assert View().atoms == atmNames[..idx];
    }

    /**
     * `goap_worldstate_get` as written.  The search starts at index 0, so
     * the source's `idx == -1` test after it can never hold and is not
     * repeated here: an unknown name reads the bit at `numAtoms`.
     */
    method WorldStateGetAsWritten(ws: WorldState, name: string) returns (ok: bool, value: bool)
      requires Valid()
      ensures (if ok then Some(value) else None) == Repertoires.WorldStateGetAsWritten(View(), ws, name)
    {
      var idx := FindAtom(name);
      if idx < 64 {
        value := IsSet(ws.values, Pos(idx));
      } else {
        value := false;
      }
      ok := true;
    }

    /** `goap_worldstate_get` as evidently intended: an unknown name is reported as not found. */
    method WorldStateGet(ws: WorldState, name: string) returns (ok: bool, value: bool)
      requires Valid()
      ensures (if ok then Some(value) else None) == Repertoires.WorldStateGet(View(), ws, name)
    {
      var idx := FindAtom(name);
      if idx == numAtoms {
        return false, false;
      }
      value := IsSet(ws.values, Pos(idx));
      ok := true;
    }

    /** Overwrite the precondition of registered action `a`. */
    method StorePre(a: int, ws: WorldState)
      requires Valid() && 0 <= a < numActions
      modifies actPre
      ensures Valid() && View() == old(View()).(pre := old(View()).pre[a := ws])
    {
      actPre[a] := ws;
      assert actPre[..numActions] == old(actPre[..numActions])[a := ws];
    }

    /** Overwrite the effect of registered action `a`. */
    method StorePst(a: int, ws: WorldState)
      requires Valid() && 0 <= a < numActions
      modifies actPst
      ensures Valid() && View() == old(View()).(pst := old(View()).pst[a := ws])
    {
      actPst[a] := ws;
      assert actPst[..numActions] == old(actPst[..numActions])[a := ws];
    }

    /** `goap_set_pre`: register the action and the atom, then set the atom in the precondition. */
    method SetPre(action: string, atom: string, value: bool) returns (ok: bool)
      requires Valid()
      modifies this, atmNames, actNames, actCosts, actPre
      ensures Valid() && (View(), ok) == SetCondition(old(View()), action, atom, value, false)
    {
      SetConditionViaWorldStateSet(View(), action, atom, value, false);
      var actidx := IdxForActionName(action);
      var atmidx := IdxForAtomName(atom);
      if actidx == -1 || atmidx == -1 {
        return false;
      }
      var _, ws := WorldStateSet(actPre[actidx], atom, value);
      StorePre(actidx, ws);
      ok := true;
    }

    /** `goap_set_pst`: register the action and the atom, then set the atom in the effect. */
    method SetPst(action: string, atom: string, value: bool) returns (ok: bool)
      requires Valid()
      modifies this, atmNames, actNames, actCosts, actPst
      ensures Valid() && (View(), ok) == SetCondition(old(View()), action, atom, value, true)
    {
      SetConditionViaWorldStateSet(View(), action, atom, value, true);
      var actidx := IdxForActionName(action);
      var atmidx := IdxForAtomName(atom);
      if actidx == -1 || atmidx == -1 {
        return false;
      }
      var _, ws := WorldStateSet(actPst[actidx], atom, value);
      StorePst(actidx, ws);
      ok := true;
    }

    /** `goap_set_cost`: register the action and overwrite its cost. */
    method SetCost(action: string, cost: int) returns (ok: bool)
      requires Valid()
      modifies this, actNames, actCosts
      ensures Valid() && (View(), ok) == Repertoires.SetCost(old(View()), action, cost)
    {
      var actidx := IdxForActionName(action);
      if actidx == -1 {
        return false;
      }
      ghost var r1 := View();
      actCosts[actidx] := cost;
      assert actCosts[..numActions] == r1.costs[actidx := cost];
      ok := true;
    }

    /**
     * `goap_get_possible_state_transitions`: write, for each action in
     * registration order whose precondition `fr` meets, its name, cost and
     * successor state, until `cnt` entries are written.
     */
    method GetPossibleStateTransitions(fr: WorldState, to: array<WorldState>, names: array<string>,
                                       costs: array<int>, cnt: int) returns (n: int)
      requires Shaped() && Wf(View())
      requires cnt <= to.Length && cnt <= names.Length && cnt <= costs.Length
      requires to != actPre && to != actPst && names != atmNames && names != actNames && costs != actCosts
      modifies to, names, costs
      ensures var ts := Transitions(View(), fr, numActions);
              n == (if cnt <= 0 then 0 else if cnt < |ts| then cnt else |ts|) &&
              forall j :: 0 <= j < n ==> to[j] == ts[j].to && names[j] == ts[j].name && costs[j] == ts[j].cost
      ensures Untouched(to, names, costs, n)
    {
      n := ListTransitions(View(), actNames, actPre, actPst, actCosts, numActions, fr, to, names, costs, cnt);
    }
  }

  /**
   * The loop of `goap_get_possible_state_transitions` over the planner's
   * first `numActions` action slots, which hold the repertoire `r`.
   */
  method ListTransitions(ghost r: Repertoire, actNames: array<string>, actPre: array<WorldState>,
                         actPst: array<WorldState>, actCosts: array<int>, numActions: int,
                         fr: WorldState, to: array<WorldState>, names: array<string>,
                         costs: array<int>, cnt: int) returns (n: int)
    requires Wf(r) && numActions == |r.actions|
    requires numActions <= actNames.Length && numActions <= actPre.Length &&
             numActions <= actPst.Length && numActions <= actCosts.Length
    requires actNames[..numActions] == r.actions && actPre[..numActions] == r.pre &&
             actPst[..numActions] == r.pst && actCosts[..numActions] == r.costs
    requires cnt <= to.Length && cnt <= names.Length && cnt <= costs.Length
    requires to != actPre && to != actPst && names != actNames && costs != actCosts
    modifies to, names, costs
    ensures var ts := Transitions(r, fr, numActions);
            n == (if cnt <= 0 then 0 else if cnt < |ts| then cnt else |ts|) &&
            forall j :: 0 <= j < n ==> to[j] == ts[j].to && names[j] == ts[j].name && costs[j] == ts[j].cost
    ensures Untouched(to, names, costs, n)
  {
    ghost var written: seq<Transition> := [];
    var writer := 0;
    var i := 0;
    while i < numActions && writer < cnt
      invariant 0 <= i <= numActions
      invariant written == Transitions(r, fr, i) && writer == |written|
      invariant writer <= cnt || writer == 0
      invariant forall j :: 0 <= j < writer ==>
                  to[j] == written[j].to && names[j] == written[j].name && costs[j] == written[j].cost
      invariant Untouched(to, names, costs, writer)
    {
      var pre, pst, name, cost := actPre[i], actPst[i], actNames[i], actCosts[i];
      assert pre == r.pre[i] && pst == r.pst[i] && name == r.actions[i] && cost == r.costs[i];
      TransitionsStep(r, fr, i);
      if Matches(fr, pre) {
        var t := Transition(i, name, cost, DoAction(fr, pst));
        Put(to, names, costs, writer, t, written);
        written := written + [t];
        writer := writer + 1;
      }
      i := i + 1;
    }
    TransitionsPrefix(r, fr, i, numActions);
    n := writer;
  }

  /** The entries of the three output buffers from `n` on are as they were. */
  twostate predicate Untouched(to: array<WorldState>, names: array<string>, costs: array<int>, n: int)
    reads to, names, costs
  {
    (forall j :: 0 <= j && n <= j < to.Length ==> to[j] == old(to[j])) &&
    (forall j :: 0 <= j && n <= j < names.Length ==> names[j] == old(names[j])) &&
    (forall j :: 0 <= j && n <= j < costs.Length ==> costs[j] == old(costs[j]))
  }

  /** Write transition `t` as entry `k` of the three output buffers, after the `k` entries of `written`. */
  method Put(to: array<WorldState>, names: array<string>, costs: array<int>, k: int, t: Transition,
             ghost written: seq<Transition>)
    requires 0 <= k < to.Length && k < names.Length && k < costs.Length && k == |written|
    requires forall j :: 0 <= j < k ==> to[j] == written[j].to && names[j] == written[j].name && costs[j] == written[j].cost
    modifies to, names, costs
    ensures forall j :: 0 <= j <= k ==>
              to[j] == (written + [t])[j].to && names[j] == (written + [t])[j].name && costs[j] == (written + [t])[j].cost
    ensures forall j :: k < j < to.Length ==> to[j] == old(to[j])
    ensures forall j :: k < j < names.Length ==> names[j] == old(names[j])
    ensures forall j :: k < j < costs.Length ==> costs[j] == old(costs[j])
  {
    to[k] := t.to;
    names[k] := t.name;
    costs[k] := t.cost;
  }
}
