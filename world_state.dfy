/**
 * World states of the planner: one value bit and one don't-care bit per
 * atom, and the bit operations goap.c performs on them.
 */
module WorldStates {
  import opened Bits

  /** `worldstate_t`: values for the atoms, and a mask of atoms that do not matter. */
  datatype WorldState = WorldState(values: bv64, dontcare: bv64)

  /** `goap_worldstate_clear`: no value set and every atom don't-care. */
  function Cleared(): (w: WorldState)
    ensures forall s :: Matches(s, w)
  {
    WorldState(0, ALL)
  }

  /** The atoms that matter in `m`: `dontcare ^ -1LL`. */
  function Care(m: WorldState): bv64
  {
    m.dontcare ^ ALL
  }

  /** `s` agrees with `m` on every atom `m` cares about (the precondition and goal test). */
  predicate Matches(s: WorldState, m: WorldState)
  {
    (m.values & Care(m)) == (s.values & Care(m))
  }

  /** Atom index `i` as a bit position: the shift amount of `1LL << i`. */
  function Pos(i: int): (b: bv64)
    requires 0 <= i < 64
    ensures b < 64
  {
    i as bv64
  }

  /** The world-state update of `goap_worldstate_set`, once the atom has index `i`. */
  function SetAtom(ws: WorldState, i: int, value: bool): WorldState
    requires 0 <= i < 64
  {
    if value then WorldState(SetBit(ws.values, Pos(i)), ClearBit(ws.dontcare, Pos(i)))
    else WorldState(ClearBit(ws.values, Pos(i)), ClearBit(ws.dontcare, Pos(i)))
  }

  /** The values after applying effect `pst`: bits `pst` does not care about pass through. */
  function Apply(values: bv64, pst: WorldState): bv64
  {
    Select(values, pst.dontcare, pst.values)
  }

  /** `goap_do_action` for an action whose effect is `pst`. */
  function DoAction(fr: WorldState, pst: WorldState): WorldState
  {
    WorldState(Apply(fr.values, pst), fr.dontcare & pst.dontcare)
  }

  // ---------------------------------------------------------------------
  // Clearing

  /** A cleared state has every atom unset and don't-care. */
  lemma ClearedBit(i: bv64)
    requires i < 64
    ensures !IsSet(Cleared().values, i) && IsSet(Cleared().dontcare, i)
  {
  }

  /** A cleared state cares about nothing, so every state matches it. */
  lemma ClearedMatchesAll(s: WorldState)
    ensures Care(Cleared()) == 0
    ensures Matches(s, Cleared())
  {
  }

  // ---------------------------------------------------------------------
  // Setting one atom

  /** After setting atom `i` it holds `value` ... */
  lemma SetAtomValue(ws: WorldState, i: int, value: bool)
    requires 0 <= i < 64
    ensures IsSet(SetAtom(ws, i, value).values, Pos(i)) == value
  {
    if value {
      SetBitHit(ws.values, Pos(i));
    } else {
      ClearBitHit(ws.values, Pos(i));
    }
  }

  /** ... and matters. */
  lemma SetAtomCared(ws: WorldState, i: int, value: bool)
    requires 0 <= i < 64
    ensures !IsSet(SetAtom(ws, i, value).dontcare, Pos(i))
  {
    ClearBitHit(ws.dontcare, Pos(i));
  }

  /** Outside bit `i` the values are unchanged, whatever was set ... */
  lemma SetAtomFrame(ws: WorldState, i: int, value: bool)
    requires 0 <= i < 64
    ensures ClearBit(SetAtom(ws, i, value).values, Pos(i)) == ClearBit(ws.values, Pos(i))
  {
    if value {
      ClearAfterSet(ws.values, Pos(i));
    } else {
      ClearTwice(ws.values, Pos(i));
    }
  }

  /** ... and so is the don't-care mask. */
  lemma SetAtomCareFrame(ws: WorldState, i: int, value: bool)
    requires 0 <= i < 64
    ensures ClearBit(SetAtom(ws, i, value).dontcare, Pos(i)) == ClearBit(ws.dontcare, Pos(i))
  {
    ClearTwice(ws.dontcare, Pos(i));
  }

  // ---------------------------------------------------------------------
  // Applying an effect

  /** Atoms the effect does not mention keep their value. */
  lemma DoActionFrame(fr: WorldState, pst: WorldState)
    ensures DoAction(fr, pst).values & pst.dontcare == fr.values & pst.dontcare
  {
    SelectKeeps(fr.values, pst.dontcare, pst.values);
  }

  /** An atom the effect leaves alone keeps its don't-care flag ... */
  lemma DoActionCareFrame(fr: WorldState, pst: WorldState)
    ensures DoAction(fr, pst).dontcare & pst.dontcare == fr.dontcare & pst.dontcare
  {
    AndTwice(fr.dontcare, pst.dontcare);
  }

  /** ... and an atom the effect sets becomes cared about. */
  lemma DoActionCared(fr: WorldState, pst: WorldState)
    ensures DoAction(fr, pst).dontcare & Care(pst) == 0
  {
    AndClears(fr.dontcare, pst.dontcare);
  }

  /** Taking the same action again changes nothing more. */
  lemma DoActionTwice(fr: WorldState, pst: WorldState)
    ensures DoAction(DoAction(fr, pst), pst) == DoAction(fr, pst)
  {
    SelectTwice(fr.values, pst.dontcare, pst.values);
    AndTwice(fr.dontcare, pst.dontcare);
  }

  /** The successor state satisfies the effect. */
  lemma DoActionEstablishes(fr: WorldState, pst: WorldState)
    ensures Matches(DoAction(fr, pst), pst)
  {
    SelectTakes(fr.values, pst.dontcare, pst.values);
  }
}
