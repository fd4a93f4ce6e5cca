/**
 * The action planner's repertoire as a value: the registered atom names,
 * the registered action names with their preconditions, effects and costs,
 * all in registration order.  Each operation of goap.c that changes the
 * planner is specified here as a function from the old repertoire to the
 * new one; the `ActionPlanner` class is proved against these functions.
 */
module Repertoires {
  import opened Bits
  import opened WorldStates

  /** `MAXATOMS` and `MAXACTIONS`: the capacity of the name tables. */
  const MAXATOMS := 64
  const MAXACTIONS := 64

  datatype Repertoire = Repertoire(
    atoms: seq<string>,
    actions: seq<string>,
    pre: seq<WorldState>,
    pst: seq<WorldState>,
    costs: seq<int>)

  /** No name occurs twice. */
  predicate Distinct(names: seq<string>)
  {
    forall j, k :: 0 <= j < k < |names| ==> names[j] != names[k]
  }

  /** Within capacity, one precondition, effect and cost per action, names registered once. */
  predicate Wf(r: Repertoire)
  {
    |r.atoms| <= MAXATOMS && |r.actions| <= MAXACTIONS &&
    |r.pre| == |r.actions| && |r.pst| == |r.actions| && |r.costs| == |r.actions| &&
    Distinct(r.atoms) && Distinct(r.actions)
  }

  /** The repertoire after `goap_actionplanner_clear`. */
  function Empty(): Repertoire
  {
    Repertoire([], [], [], [], [])
  }

  /** The index of the first occurrence of `name`, or -1: the search loop of the lookups. */
  function IndexOf(names: seq<string>, name: string): (i: int)
    ensures -1 <= i < |names|
    ensures i == -1 <==> name !in names
    ensures 0 <= i ==> names[i] == name && name !in names[..i]
    decreases |names|
  {
    if |names| == 0 then -1
    else if names[0] == name then 0
    else
      var j := IndexOf(names[1..], name);
      if j == -1 then -1
      else
        assert names[..j + 1] == [names[0]] + names[1..][..j];
        j + 1
  }

  /** A match with no earlier match is the index `IndexOf` finds. */
  lemma IndexOfFirst(names: seq<string>, name: string, k: int)
    requires 0 <= k < |names| && names[k] == name && name !in names[..k]
    ensures IndexOf(names, name) == k
  {
  }

  // ---------------------------------------------------------------------
  // Registration: idx_for_atomname and idx_for_actionname

  /** `idx_for_atomname`: the atom's index, registering it when there is room; -1 when full. */
  function RegisterAtom(r: Repertoire, name: string): (res: (Repertoire, int))
    requires Wf(r)
    ensures Wf(res.0) && res.0 == r.(atoms := res.0.atoms)
    ensures res.0.atoms == r.atoms || res.0.atoms == r.atoms + [name]
    ensures -1 <= res.1 < |res.0.atoms| && (res.1 >= 0 ==> res.0.atoms[res.1] == name)
  {
    var i := IndexOf(r.atoms, name);
    if i != -1 then (r, i)
    else if |r.atoms| < MAXATOMS then (r.(atoms := r.atoms + [name]), |r.atoms|)
    else (r, -1)
  }

  /** `idx_for_actionname`: as for atoms; a new action costs 1 and has no conditions. */
  function RegisterAction(r: Repertoire, name: string): (res: (Repertoire, int))
    requires Wf(r)
    ensures Wf(res.0) && res.0.atoms == r.atoms
    ensures -1 <= res.1 < |res.0.actions| && (res.1 >= 0 ==> res.0.actions[res.1] == name)
  {
    var i := IndexOf(r.actions, name);
    if i != -1 then (r, i)
    else if |r.actions| < MAXACTIONS then
      (r.(actions := r.actions + [name], pre := r.pre + [Cleared()],
          pst := r.pst + [Cleared()], costs := r.costs + [1]),
       |r.actions|)
    else (r, -1)
  }

  /** A registered atom is found where it is, and nothing changes. */
  lemma RegisterAtomFinds(r: Repertoire, name: string, k: int)
    requires Wf(r) && 0 <= k < |r.atoms| && r.atoms[k] == name
    ensures RegisterAtom(r, name) == (r, k)
  {
    var i := IndexOf(r.atoms, name);
    assert r.atoms[i] == name;
  }

  /** An unknown atom is appended at index `numatoms` while there is room. */
  lemma RegisterAtomAppends(r: Repertoire, name: string)
    requires Wf(r) && name !in r.atoms && |r.atoms| < MAXATOMS
    ensures RegisterAtom(r, name).1 == |r.atoms|
    ensures RegisterAtom(r, name).0 == r.(atoms := r.atoms + [name])
    ensures Wf(RegisterAtom(r, name).0)
  {
  }

  /** An unknown atom with the table full gives -1 and changes nothing. */
  lemma RegisterAtomFull(r: Repertoire, name: string)
    requires Wf(r) && name !in r.atoms && |r.atoms| == MAXATOMS
    ensures RegisterAtom(r, name) == (r, -1)
  {
  }

  /** A registered action is found where it is, and nothing changes. */
  lemma RegisterActionFinds(r: Repertoire, name: string, k: int)
    requires Wf(r) && 0 <= k < |r.actions| && r.actions[k] == name
    ensures RegisterAction(r, name) == (r, k)
  {
    var i := IndexOf(r.actions, name);
    assert r.actions[i] == name;
  }

  /** An unknown action is appended with cost 1 and cleared conditions while there is room. */
  lemma RegisterActionAppends(r: Repertoire, name: string)
    requires Wf(r) && name !in r.actions && |r.actions| < MAXACTIONS
    ensures var (r', i) := RegisterAction(r, name);
            i == |r.actions| && r'.actions == r.actions + [name] && r'.atoms == r.atoms &&
            r'.costs[i] == 1 && r'.pre[i] == Cleared() && r'.pst[i] == Cleared() &&
            r'.pre[..i] == r.pre && r'.pst[..i] == r.pst && r'.costs[..i] == r.costs
  {
  }

  /** An unknown action with the table full gives -1 and changes nothing. */
  lemma RegisterActionFull(r: Repertoire, name: string)
    requires Wf(r) && name !in r.actions && |r.actions| == MAXACTIONS
    ensures RegisterAction(r, name) == (r, -1)
  {
  }

  // ---------------------------------------------------------------------
  // goap_worldstate_set, goap_worldstate_get

  /** `goap_worldstate_set`: register the atom, then set its bit; false when the atom table is full. */
  function WorldStateSet(r: Repertoire, ws: WorldState, name: string, value: bool): (res: (Repertoire, bool, WorldState))
    requires Wf(r)
    ensures Wf(res.0) && res.0 == r.(atoms := res.0.atoms)
  {
    var (r', i) := RegisterAtom(r, name);
    if i == -1 then (r', false, ws) else (r', true, SetAtom(ws, i, value))
  }

  /**
   * A set succeeds whenever the atom is known or there is room for it; the
   * atom is then registered and the state is updated at the atom's index.
   */
  lemma WorldStateSetSucceeds(r: Repertoire, ws: WorldState, name: string, value: bool)
    requires Wf(r)
    requires name in r.atoms || |r.atoms| < MAXATOMS
    ensures var (r', ok, ws') := WorldStateSet(r, ws, name, value);
            var i := IndexOf(r'.atoms, name);
            ok && 0 <= i < MAXATOMS && ws' == SetAtom(ws, i, value)
  {
    var (r', i) := RegisterAtom(r, name);
    RegisterAtomFinds(r', name, i);
  }

  /** A set fails exactly for an unknown atom with the atom table full, and then changes nothing. */
  lemma WorldStateSetFails(r: Repertoire, ws: WorldState, name: string, value: bool)
    requires Wf(r)
    ensures !WorldStateSet(r, ws, name, value).1 <==> name !in r.atoms && |r.atoms| == MAXATOMS
    ensures !WorldStateSet(r, ws, name, value).1 ==> WorldStateSet(r, ws, name, value) == (r, false, ws)
  {
  }

  datatype Option<T> = None | Some(value: T)

  /**
   * `goap_worldstate_get` as written: the search leaves the index at
   * `numatoms` when the name is unknown, so the `-1` test never fires and
   * the bit at `numatoms` is reported.  (With 64 atoms the C shift by 64 is
   * undefined; the model reports false there.)
   */
  function WorldStateGetAsWritten(r: Repertoire, ws: WorldState, name: string): Option<bool>
  {
    var i := IndexOf(r.atoms, name);
    var idx := if i == -1 then |r.atoms| else i;
    if idx < 64 then Some(IsSet(ws.values, Pos(idx))) else Some(false)
  }

  /** The getter as evidently intended: unknown atoms are reported missing. */
  function WorldStateGet(r: Repertoire, ws: WorldState, name: string): Option<bool>
  {
    var i := IndexOf(r.atoms, name);
    if 0 <= i < 64 then Some(IsSet(ws.values, Pos(i))) else None
  }

  /** As written, the getter never fails, and for an unknown atom reports another slot's bit. */
  lemma WorldStateGetAsWrittenNeverFails(r: Repertoire, ws: WorldState, name: string)
    requires Wf(r) && name !in r.atoms && |r.atoms| < MAXATOMS
    ensures WorldStateGetAsWritten(r, ws, name) == Some(IsSet(ws.values, Pos(|r.atoms|)))
    ensures WorldStateGet(r, ws, name) == None
  {
  }

  /** A concrete instance: with no atoms registered, an unknown atom reads as bit 0 of the state. */
  lemma WorldStateGetAsWrittenExample()
    ensures WorldStateGetAsWritten(Empty(), WorldState(1, 0), "ghost") == Some(true)
  {
    assert IsSet(1, 0);
  }

  /** The intended getter reads back what a successful set wrote. */
  lemma WorldStateGetAfterSet(r: Repertoire, ws: WorldState, name: string, value: bool)
    requires Wf(r)
    requires name in r.atoms || |r.atoms| < MAXATOMS
    ensures var (r', _, ws') := WorldStateSet(r, ws, name, value);
            WorldStateGet(r', ws', name) == Some(value)
  {
    WorldStateSetSucceeds(r, ws, name, value);
    var (r', _, ws') := WorldStateSet(r, ws, name, value);
    SetAtomValue(ws, IndexOf(r'.atoms, name), value);
  }

  /** The intended getter fails exactly for unregistered atoms. */
  lemma WorldStateGetMissing(r: Repertoire, ws: WorldState, name: string)
    requires Wf(r)
    ensures WorldStateGet(r, ws, name).None? <==> name !in r.atoms
  {
  }

  // ---------------------------------------------------------------------
  // goap_set_pre, goap_set_pst, goap_set_cost

  /**
   * `goap_set_pre` (`post` false) and `goap_set_pst` (`post` true): register
   * the action, then the atom, and fail if either table is full; otherwise
   * set the atom in the action's precondition or effect.
   */
  function SetCondition(r: Repertoire, action: string, atom: string, value: bool, post: bool): (res: (Repertoire, bool))
    requires Wf(r)
    ensures Wf(res.0)
  {
    var (r1, a) := RegisterAction(r, action);
    var (r2, t) := RegisterAtom(r1, atom);
    if a == -1 || t == -1 then (r2, false)
    else if post then (r2.(pst := r2.pst[a := SetAtom(r2.pst[a], t, value)]), true)
    else (r2.(pre := r2.pre[a := SetAtom(r2.pre[a], t, value)]), true)
  }

  /** `goap_set_cost`: register the action (an unknown name is added, not refused) and set its cost. */
  function SetCost(r: Repertoire, action: string, cost: int): (res: (Repertoire, bool))
    requires Wf(r)
    ensures Wf(res.0)
  {
    var (r1, a) := RegisterAction(r, action);
    if a == -1 then (r1, false) else (r1.(costs := r1.costs[a := cost]), true)
  }

  /** The call fails exactly when the action or the atom is new and its table is full. */
  lemma SetConditionFails(r: Repertoire, action: string, atom: string, value: bool, post: bool)
    requires Wf(r)
    ensures !SetCondition(r, action, atom, value, post).1 <==>
            (action !in r.actions && |r.actions| == MAXACTIONS) ||
            (atom !in r.atoms && |r.atoms| == MAXATOMS)
  {
  }

  /**
   * On success both names are registered, and the condition of the named
   * action (and only it) is updated at the named atom; costs and the other
   * table are those left by registering the action.
   */
  lemma SetConditionSucceeds(r: Repertoire, action: string, atom: string, value: bool, post: bool)
    requires Wf(r)
    requires action in r.actions || |r.actions| < MAXACTIONS
    requires atom in r.atoms || |r.atoms| < MAXATOMS
    ensures var (r', ok) := SetCondition(r, action, atom, value, post);
            var r1 := RegisterAction(r, action).0;
            var a := IndexOf(r'.actions, action);
            var t := IndexOf(r'.atoms, atom);
            ok && 0 <= a < |r1.actions| && 0 <= t < MAXATOMS &&
            r'.actions == r1.actions && r'.costs == r1.costs &&
            (if post then r'.pst == r1.pst[a := SetAtom(r1.pst[a], t, value)] && r'.pre == r1.pre
             else r'.pre == r1.pre[a := SetAtom(r1.pre[a], t, value)] && r'.pst == r1.pst)
  {
    var (r1, a) := RegisterAction(r, action);
    var (r2, t) := RegisterAtom(r1, atom);
    RegisterActionFinds(r2, action, a);
    RegisterAtomFinds(r2, atom, t);
  }

  /**
   * The route the source takes: once both names are registered,
   * `goap_set_pre` / `goap_set_pst` call `goap_worldstate_set` on the
   * action's condition, which finds the atom again and registers nothing.
   */
  lemma SetConditionViaWorldStateSet(r: Repertoire, action: string, atom: string, value: bool, post: bool)
    requires Wf(r)
    ensures var (r1, a) := RegisterAction(r, action);
            var (r2, t) := RegisterAtom(r1, atom);
            a != -1 && t != -1 ==>
              var ws := if post then r2.pst[a] else r2.pre[a];
              var (r3, ok, ws') := WorldStateSet(r2, ws, atom, value);
              r3 == r2 && ok &&
              SetCondition(r, action, atom, value, post) ==
                (if post then r2.(pst := r2.pst[a := ws']) else r2.(pre := r2.pre[a := ws']), true)
  {
    var (r1, a) := RegisterAction(r, action);
    var (r2, t) := RegisterAtom(r1, atom);
    if a != -1 && t != -1 {
      RegisterAtomFinds(r2, atom, t);
    }
  }

  /**
   * The action is registered before the atom is checked: a call that fails
   * because the atom table is full still leaves a new action behind.
   */
  lemma SetConditionPartialRegistration(r: Repertoire, action: string, atom: string, value: bool, post: bool)
    requires Wf(r)
    requires action !in r.actions && |r.actions| < MAXACTIONS
    requires atom !in r.atoms && |r.atoms| == MAXATOMS
    ensures !SetCondition(r, action, atom, value, post).1
    ensures SetCondition(r, action, atom, value, post).0.actions == r.actions + [action]
  {
  }

  /** An unknown action given a cost is registered with that cost. */
  lemma SetCostRegisters(r: Repertoire, action: string, cost: int)
    requires Wf(r) && action !in r.actions && |r.actions| < MAXACTIONS
    ensures var (r', ok) := SetCost(r, action, cost);
            ok && r'.actions == r.actions + [action] && r'.costs == r.costs + [cost] &&
            r'.pre == r.pre + [Cleared()] && r'.pst == r.pst + [Cleared()]
  {
  }

  /** Setting the cost of a registered action changes that cost only. */
  lemma SetCostKnown(r: Repertoire, action: string, cost: int, k: int)
    requires Wf(r) && 0 <= k < |r.actions| && r.actions[k] == action
    ensures SetCost(r, action, cost) == (r.(costs := r.costs[k := cost]), true)
  {
    RegisterActionFinds(r, action, k);
  }

  // ---------------------------------------------------------------------
  // goap_get_possible_state_transitions

  /** One possible step: the action's index and name, its cost and the state it leads to. */
  datatype Transition = Transition(action: int, name: string, cost: int, to: WorldState)

  /** The transitions from `fr` by the first `k` actions, in registration order. */
  function Transitions(r: Repertoire, fr: WorldState, k: int): seq<Transition>
    requires Wf(r) && 0 <= k <= |r.actions|
    decreases k
  {
    if k == 0 then []
    else
      Transitions(r, fr, k - 1) +
      (if Matches(fr, r.pre[k - 1])
       then [Transition(k - 1, r.actions[k - 1], r.costs[k - 1], DoAction(fr, r.pst[k - 1]))]
       else [])
  }

  /** The list grows by the next action's transition exactly when its precondition is met. */
  lemma TransitionsStep(r: Repertoire, fr: WorldState, i: int)
    requires Wf(r) && 0 <= i < |r.actions|
    ensures Matches(fr, r.pre[i]) ==>
              Transitions(r, fr, i + 1) ==
              Transitions(r, fr, i) + [Transition(i, r.actions[i], r.costs[i], DoAction(fr, r.pst[i]))]
    ensures !Matches(fr, r.pre[i]) ==> Transitions(r, fr, i + 1) == Transitions(r, fr, i)
  {
  }

  /** Each listed transition is an applicable action, with its name, cost and successor. */
  predicate Applicable(r: Repertoire, fr: WorldState, t: Transition)
    requires Wf(r)
  {
    0 <= t.action < |r.actions| && Matches(fr, r.pre[t.action]) &&
    t.name == r.actions[t.action] && t.cost == r.costs[t.action] &&
    t.to == DoAction(fr, r.pst[t.action])
  }

  lemma {:induction false} TransitionsSound(r: Repertoire, fr: WorldState, k: int, j: int)
    requires Wf(r) && 0 <= k <= |r.actions|
    requires 0 <= j < |Transitions(r, fr, k)|
    decreases k
    ensures Applicable(r, fr, Transitions(r, fr, k)[j])
    ensures Transitions(r, fr, k)[j].action < k
  {
    if j < |Transitions(r, fr, k - 1)| {
      TransitionsSound(r, fr, k - 1, j);
    }
  }

  /** Every applicable action among the first `k` is listed. */
  lemma {:induction false} TransitionsComplete(r: Repertoire, fr: WorldState, k: int, a: int)
    requires Wf(r) && 0 <= a < k <= |r.actions|
    requires Matches(fr, r.pre[a])
    decreases k
    ensures exists j :: 0 <= j < |Transitions(r, fr, k)| && Transitions(r, fr, k)[j].action == a
  {
    var ts := Transitions(r, fr, k);
    if a == k - 1 {
      assert ts[|ts| - 1].action == a;
    } else {
      TransitionsComplete(r, fr, k - 1, a);
      var j :| 0 <= j < |Transitions(r, fr, k - 1)| && Transitions(r, fr, k - 1)[j].action == a;
      assert ts[j] == Transitions(r, fr, k - 1)[j];
    }
  }

  /** Transitions are listed in increasing action order, so each action at most once. */
  lemma {:induction false} TransitionsOrdered(r: Repertoire, fr: WorldState, k: int, i: int, j: int)
    requires Wf(r) && 0 <= k <= |r.actions|
    requires 0 <= i < j < |Transitions(r, fr, k)|
    decreases k
    ensures Transitions(r, fr, k)[i].action < Transitions(r, fr, k)[j].action
  {
    var prev := Transitions(r, fr, k - 1);
    if j < |prev| {
      TransitionsOrdered(r, fr, k - 1, i, j);
    } else {
      TransitionsSound(r, fr, k - 1, i);
    }
  }

  /** At most one transition per action considered. */
  lemma {:induction false} TransitionsBounded(r: Repertoire, fr: WorldState, k: int)
    requires Wf(r) && 0 <= k <= |r.actions|
    decreases k
    ensures |Transitions(r, fr, k)| <= k
  {
    if k > 0 {
      TransitionsBounded(r, fr, k - 1);
    }
  }

  /** Considering more actions only extends the list. */
  lemma {:induction false} TransitionsPrefix(r: Repertoire, fr: WorldState, i: int, k: int)
    requires Wf(r) && 0 <= i <= k <= |r.actions|
    decreases k - i
    ensures Transitions(r, fr, i) <= Transitions(r, fr, k)
  {
    if i < k {
      TransitionsPrefix(r, fr, i, k - 1);
    }
  }
}
