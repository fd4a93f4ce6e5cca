# GPGOAP planner core in Dafny

This project models the two C files that hold the planning logic of GPGOAP, a
goal-oriented action planner:

- **goap.c** holds the world model and the action registry.
  - A world state is a pair of 64-bit fields, `values` and `dontcare`: one bit per atom.
  - An action planner keeps bounded tables of atom names, action names, per-action preconditions, effects and costs.
  - It lists the transitions available from a state.
- **astar.c** holds an A* search over world states.
  - `opened` and `closed` are fixed arrays with counters.
  - A node is picked by lowest `f`, removed by swapping in the last entry, and relaxed when a strictly cheaper path turns up.
  - The plan is rebuilt by walking parent states back through the closed set.

Module layout, following the program's structure:

| file | module | contents |
|---|---|---|
| `bits.dfy` | `Bits` | single-bit facts about `bv64`, and the count of set bits |
| `world_state.dfy` | `WorldStates` | `worldstate_t` as a datatype; clearing, setting one atom, matching, applying an effect |
| `repertoire.dfy` | `Repertoires` | the planner's contents as a value (`Repertoire`) |
| `planner.dfy` | `Goap` | `actionplanner_t` as a class over fixed arrays |
| `nodes.dfy` | `Nodes` | `astarnode_t`, the heuristic, relaxing one neighbour and the walk back of `reconstruct_plan`, as functions |
| `search_spec.dfy` | `SearchSpec` | the search loop of `astar_plan` as functions on values: one pass, a run of passes, the whole search |
| `search.dfy` | `AStar` | the `opened`/`closed` arrays and counters as the fields of a `Search` object, and `astar_plan` as its method `Plan` |

How the layers fit together:

- `Repertoires` gives each planner operation as a function from the old repertoire to the new one, with lemmas about it.
- In `Goap`, every method of the class is proved to move its `View()` exactly as that function does.
- The methods of `AStar.Search` that make up the search loop are proved to leave the two sets exactly as the function for that step in `Nodes` or `SearchSpec` does. This holds for `RelaxNeighbour`, `RelaxAll`, `Expand`, `CloseAndExpand`, `Step`, `Passes` and `RunSearch`.
- For `Plan`, the outcome, the goal node and both final sets are those of `SearchSpec.SearchFrom`. The lemmas in `SearchSpec` say what such a search delivers.
- The search keeps one invariant throughout: every node in either set is well formed. Its `h` is the heuristic, `f == g + h`, and it is either the start state or one allowed step from its recorded parent state.

`Plan` takes a planner built through the API, which is what the class invariant `Valid()` means. Its ghost parameter `r` names that planner's contents, and the contract is stated over `r`. It also requires that the output buffers are not the planner's own tables. The C code is never called with them aliased.

## Model

| member | source | states |
|---|---|---|
| Bits.BitTest | astar.c:35 | the C test `(x & (1LL << i)) != 0` reads exactly bit `i` |
| Bits.OnesBound | astar.c:33-36 | counting set bits below position `n` gives at most `n` |
| Bits.NoOnesIsZero | astar.c:33-36 | a word with no set bit among its 64 positions is zero |
| Bits.ZeroHasNoOnes | astar.c:33-36 | zero has no set bit |
| WorldStates.Cleared | goap.c:78-82 | every state meets a cleared state used as a condition |
| WorldStates.Matches | astar.c:156-157 | no contract of its own: `Nodes.HeuristicZero`, `ClearedMatchesAll` and `DoActionEstablishes` state what meeting a condition means |
| WorldStates.SetAtom | goap.c:89-90 | no contract of its own: `SetAtomValue`, `SetAtomCared`, `SetAtomFrame` and `SetAtomCareFrame` state its effect bit by bit |
| WorldStates.DoAction | goap.c:187-196 | no contract of its own: `DoActionFrame`, `DoActionEstablishes`, `DoActionCareFrame`, `DoActionCared` and `DoActionTwice` state its effect |
| WorldStates.ClearedBit | goap.c:78-82 | a cleared state has every atom's value bit clear and its don't-care bit set |
| WorldStates.ClearedMatchesAll | goap.c:78-82 | a cleared state cares about no atom, so every state meets it as a condition |
| WorldStates.SetAtomValue | goap.c:89 | after setting atom `i` to `value`, bit `i` of `values` is `value` |
| WorldStates.SetAtomCared | goap.c:90 | after setting atom `i`, its don't-care bit is clear |
| WorldStates.SetAtomFrame | goap.c:89 | every other bit of `values` is unchanged |
| WorldStates.SetAtomCareFrame | goap.c:90 | every other bit of `dontcare` is unchanged |
| WorldStates.DoActionFrame | goap.c:187-196 | atoms the effect does not care about keep their prior values |
| WorldStates.DoActionEstablishes | goap.c:187-196 | the successor state meets the effect on every atom the effect cares about |
| WorldStates.DoActionCareFrame | goap.c:194 | atoms the effect leaves alone keep their don't-care flag |
| WorldStates.DoActionCared | goap.c:194 | atoms the effect sets become cared about |
| WorldStates.DoActionTwice | goap.c:187-196 | applying the same effect twice gives the same state as once |
| Repertoires.IndexOf | goap.c:28-29 | -1 exactly when the name is absent; otherwise the index of its first occurrence |
| Repertoires.IndexOfFirst | goap.c:28-29 | a match with no earlier match is the index the search returns |
| Repertoires.RegisterAtom | goap.c:25-39 | only the atom table changes, by at most appending `name`; the result is -1 or the index holding `name`; the repertoire stays well formed |
| Repertoires.RegisterAction | goap.c:42-57 | atoms are untouched; the result is -1 or the index holding `name`; the table stays well formed, so never above `MAXACTIONS` |
| Repertoires.RegisterAtomFinds | goap.c:28-29 | a registered atom is found at its own index and nothing changes |
| Repertoires.RegisterAtomAppends | goap.c:31-36 | an unknown atom is appended at index `numatoms` while there is room |
| Repertoires.RegisterAtomFull | goap.c:38 | an unknown atom with the table full gives -1 and leaves the planner unchanged |
| Repertoires.RegisterActionFinds | goap.c:45-46 | a registered action is found at its own index and nothing changes |
| Repertoires.RegisterActionAppends | goap.c:48-54 | an unknown action is appended with cost 1 and cleared conditions; earlier entries are kept |
| Repertoires.RegisterActionFull | goap.c:56 | an unknown action with the table full gives -1 and leaves the planner unchanged |
| Repertoires.WorldStateSet | goap.c:85-92 | only the atom table can change, and the repertoire stays well formed |
| Repertoires.WorldStateSetSucceeds | goap.c:85-92 | with the atom known or room left, the call succeeds and updates the state at the atom's index |
| Repertoires.WorldStateSetFails | goap.c:87-88 | the call fails exactly for an unknown atom with the table full, and then changes nothing |
| Repertoires.WorldStateGetAsWritten | goap.c:95-105 | no contract of its own: `WorldStateGetAsWrittenNeverFails` and `WorldStateGetAsWrittenExample` state how it behaves |
| Repertoires.WorldStateGet | goap.c:95-105 | no contract of its own: `WorldStateGetAfterSet` and `WorldStateGetMissing` state how it behaves |
| Repertoires.WorldStateGetAsWrittenNeverFails | goap.c:95-105 | as written, an unknown atom is not reported missing: the bit at `numatoms` is returned |
| Repertoires.WorldStateGetAsWrittenExample | goap.c:95-105 | with no atoms registered, an unknown name reads as bit 0 of the state, so `true` for `values == 1` |
| Repertoires.WorldStateGetAfterSet | goap.c:85-105 | the getter reads back the value a successful set wrote |
| Repertoires.WorldStateGetMissing | goap.c:101 | the getter fails exactly for unregistered atoms |
| Repertoires.SetCondition | goap.c:109-126 | the repertoire stays well formed |
| Repertoires.SetCost | goap.c:129-135 | the repertoire stays well formed |
| Repertoires.SetConditionFails | goap.c:111-113 | `goap_set_pre`/`goap_set_pst` fail exactly when the action or the atom is new and its table is full |
| Repertoires.SetConditionSucceeds | goap.c:109-126 | on success both names are registered and only the named action's precondition (or effect) changes, at the named atom |
| Repertoires.SetConditionViaWorldStateSet | goap.c:109-126 | the inner `goap_worldstate_set` call registers nothing new and gives the same result |
| Repertoires.SetConditionPartialRegistration | goap.c:111-113 | a call that fails on a full atom table still leaves the new action registered |
| Repertoires.SetCostRegisters | goap.c:131-133 | an unknown action given a cost is registered with that cost |
| Repertoires.SetCostKnown | goap.c:131-134 | setting a known action's cost changes that cost only |
| Repertoires.Transitions | goap.c:199-217 | no contract of its own: the `Transitions…` lemmas below state that it lists every applicable action once, in order, and nothing else |
| Repertoires.TransitionsStep | goap.c:202-214 | the list grows by the next action's transition exactly when its precondition holds |
| Repertoires.TransitionsSound | goap.c:205-213 | every listed entry is an action whose precondition holds, with its name, cost and successor state |
| Repertoires.TransitionsComplete | goap.c:202-214 | every action whose precondition holds is listed |
| Repertoires.TransitionsOrdered | goap.c:202 | entries appear in registration order, each action at most once |
| Repertoires.TransitionsBounded | goap.c:202 | at most one entry per action |
| Repertoires.TransitionsPrefix | goap.c:202 | considering more actions only extends the list |
| Goap.ActionPlanner.constructor | goap.c:60-75 | a fresh planner is valid and empty |
| Goap.ActionPlanner.Clear | goap.c:60-75 | no atoms or actions, every name slot null, every cost 0, every condition cleared |
| Goap.ActionPlanner.IdxForAtomName | goap.c:25-39 | the new view and the index are those of `RegisterAtom` |
| Goap.ActionPlanner.IdxForActionName | goap.c:42-57 | the new view and the index are those of `RegisterAction` |
| Goap.ActionPlanner.WorldStateSet | goap.c:85-92 | the new view, the result and the state are those of `Repertoires.WorldStateSet` |
| Goap.ActionPlanner.FindAtom | goap.c:97-99 | the search loop stops at the first match, or at `numatoms` |
| Goap.ActionPlanner.WorldStateGetAsWritten | goap.c:95-105 | the result is that of `Repertoires.WorldStateGetAsWritten` |
| Goap.ActionPlanner.WorldStateGet | goap.c:95-105 | the result is that of the corrected `Repertoires.WorldStateGet` |
| Goap.ActionPlanner.StorePre | goap.c:114 | only the named action's precondition changes |
| Goap.ActionPlanner.StorePst | goap.c:124 | only the named action's effect changes |
| Goap.ActionPlanner.SetPre | goap.c:109-116 | the new view and the result are those of `SetCondition` for a precondition |
| Goap.ActionPlanner.SetPst | goap.c:119-126 | the new view and the result are those of `SetCondition` for an effect |
| Goap.ActionPlanner.SetCost | goap.c:129-135 | the new view and the result are those of `Repertoires.SetCost` |
| Goap.ActionPlanner.GetPossibleStateTransitions | goap.c:199-217 | it writes `min(cnt, number of applicable actions)` entries (0 for `cnt <= 0`): entry `j` is the `j`-th transition of `Transitions`, with its name, cost and successor; the entries from `n` on are untouched |
| Goap.ListTransitions | goap.c:201-216 | the loop over the action slots writes exactly that prefix of `Transitions` and leaves the entries from `n` on untouched |
| Goap.Put | goap.c:210-212 | one entry is written; the entries before it are kept and those after it are untouched |
| Nodes.Heuristic | astar.c:29-37 | no contract of its own: `HeuristicBound` and `HeuristicZero` state its range and its zeros, and `AStar.CalcH` is proved to compute it |
| Nodes.HeuristicBound | astar.c:29-37 | the heuristic is at most 64 |
| Nodes.HeuristicZero | astar.c:29-37 | the heuristic is 0 exactly when the state meets the goal |
| Nodes.IndexOfValues | astar.c:41-55 | -1 or an index in range whose node has the searched `values` |
| Nodes.IndexOfValuesFirst | astar.c:41-55 | -1 exactly when no node has those values, and otherwise no earlier node has them; `dontcare` is ignored |
| Nodes.ApplicableStep | goap.c:205-212 | a listed transition is a step the model allows from that state |
| Nodes.GoalNodeCost | astar.c:156-162 | a well-formed node that meets the goal has `h == 0` and `f == g` |
| Nodes.SwapRemove | astar.c:150-151 | removal shrinks the set by one |
| Nodes.SwapRemoveMultiset | astar.c:150-151 | removal takes out exactly the one node and keeps the others |
| Nodes.SwapRemoveOK | astar.c:150-151 | removal keeps every remaining node well formed |
| Nodes.Neighbour | astar.c:197-202 | the new node's rank `f` exceeds its cost `g` by at most 64, and equals it exactly when the neighbour meets the goal |
| Nodes.Beaten | astar.c:179-187 | no contract of its own: `RelaxKeepsCheaper`, `RelaxOpensNew` and `RelaxReopens` state when an entry is beaten |
| Nodes.DropBeaten | astar.c:179-193 | at most one entry is dropped, and none unless the new path beats the recorded one |
| Nodes.Relax | astar.c:174-204 | the closed set never grows and the opened set grows by at most one node |
| Nodes.DropBeatenOK | astar.c:179-193 | dropping a beaten entry keeps both sets well formed |
| Nodes.AppendOK | astar.c:164 | appending a well-formed node keeps a set well formed |
| Nodes.NeighbourOK | astar.c:197-202 | the neighbour reached by an allowed step is well formed |
| Nodes.RelaxOpenOK | astar.c:172-204 | relaxation keeps the opened set well formed |
| Nodes.RelaxClosedOK | astar.c:187-193 | relaxation keeps the closed set well formed |
| Nodes.RelaxKeepsCheaper | astar.c:179-193 | an entry whose recorded `g` is not beaten is kept, and the set is left as it was |
| Nodes.RelaxOpensNew | astar.c:195-204 | a state in neither set is opened with the new cost, its heuristic, its action and its parent |
| Nodes.RelaxReopens | astar.c:187-204 | a strictly cheaper path to a closed state takes it out of `closed` and opens it anew |
| Nodes.Next | astar.c:70-71 | the walk moves to a closed node holding the parent state's values |
| Nodes.Walk | astar.c:64-75 | the walk back takes at most `plansize` steps, and stops at a node with an action only when it has taken all of them |
| Nodes.WalkStart | astar.c:61 | the walk starts at the goal node |
| Nodes.WalkLinks | astar.c:64-71 | each visited node has an action, and the next node is the closed entry for its parent |
| Nodes.WalkChained | astar.c:64-75 | the walk is a chain of parent links |
| Nodes.ChainedIsWalk | astar.c:64-75 | such a chain is exactly the walk, so the chain `ReconstructPlan` reports is the walk itself |
| Nodes.ChainIn | astar.c:70-71 | after the first node, every node visited is a closed node holding the previous node's parent values |
| Nodes.ChainOK | astar.c:64-75 | every step of the walk is a well-formed node; a stopping node with no action is the start state |
| Nodes.StepAsWritten | astar.c:66-75 | no contract of its own: `AsWrittenFollowsWalk` and `AsWrittenStuck` state how passes of it behave |
| Nodes.RunAsWritten | astar.c:64-75 | no contract of its own: `AsWrittenFollowsWalk`, `AsWrittenStuck` and `AsWrittenHangs` state how the loop as written runs |
| Nodes.RunAsWrittenSplit | astar.c:64-75 | `a + b` passes of the loop as written are `a` passes followed by `b` more |
| Nodes.AsWrittenFollowsWalk | astar.c:64-75 | while `idx >= 0`, the loop as written follows the walk |
| Nodes.AsWrittenStuck | astar.c:66-75 | once `idx < 0` with an action left, the loop as written never moves again |
| Nodes.AsWrittenHangs | astar.c:64-75 | for a path longer than the buffer, the loop as written is still running after any number of further passes |
| SearchSpec.StartOK | astar.c:121-130 | the start node is well formed |
| SearchSpec.Lowest | astar.c:138-147 | an index of the non-empty opened set whose node has the lowest `f`, the earliest among equals |
| SearchSpec.LowestUnique | astar.c:138-147 | that index is the only one with that property, so the scan has no choice to make |
| SearchSpec.Expanded | astar.c:172-206 | no contract of its own: `ExpandedStep`, `ExpandedFull` and `ExpandedOK` state how the neighbour loop moves the sets |
| SearchSpec.ExpandedStep | astar.c:172-204 | while the opened set has room, the next transition is relaxed as `Relax` says |
| SearchSpec.ExpandedFull | astar.c:205 | once the opened set is full, the remaining transitions change nothing |
| SearchSpec.ExpandedOK | astar.c:172-206 | relaxing allowed steps keeps every node of both sets well formed |
| SearchSpec.Closing | astar.c:163-206 | no contract of its own: `ClosingOK` and `ClosingCause` state what closing and expanding a node does |
| SearchSpec.ClosingOK | astar.c:163-206 | closing a well-formed node and relaxing its transitions keeps both sets well formed |
| SearchSpec.ClosingCause | astar.c:163-206 | closing stops only with `ClosedOverflow` on a full closed set or `OpenedOverflow` on a full opened set, never with a goal or `NoPath` |
| SearchSpec.Pass | astar.c:136-206 | no contract of its own: `PassOK` and `PassCause` state what one pass delivers |
| SearchSpec.PassOK | astar.c:136-206 | the node taken is well formed, both sets stay well formed, the pass stops with `Found` exactly when that node meets the goal, and the cost is its `f == g` |
| SearchSpec.Explains | astar.c:136-205 | no contract of its own: it names the cause behind each `-1` return (empty opened set, full closed set, full opened set) |
| SearchSpec.PassCause | astar.c:136-206 | a pass stops only on a goal match or a full set, and the full set is there in the sets it leaves |
| SearchSpec.Run | astar.c:134-207 | no contract of its own: `RunOK`, `RunCause` and `RunUnfold` state what a run of passes delivers |
| SearchSpec.RunUnfold | astar.c:134-207 | a run on a non-empty opened set is one pass, then the rest of the run after it |
| SearchSpec.RunOK | astar.c:134-207 | a run from well-formed sets that finds the goal ends at a well-formed node meeting it with cost `f == g`, and both sets stay well formed |
| SearchSpec.RunCause | astar.c:134-207 | every failure of a run comes with its cause in the final sets |
| SearchSpec.SearchFrom | astar.c:121-207 | no contract of its own: `SearchFromGoal` and `SearchOutcome` state what the whole search delivers |
| SearchSpec.SearchFromGoal | astar.c:121-162 | a start that meets the goal is found at once at cost 0, with both sets left empty |
| SearchSpec.SearchOutcome | astar.c:111-207 | a found plan ends at a well-formed goal node whose `g` is the cost, with a well-formed closed set; a start meeting the goal gives `Found(0)`; every failure comes with its cause |
| AStar.CalcH | astar.c:29-37 | the counting loop returns the number of cared-about atoms on which the state and the goal differ |
| AStar.Search.constructor | astar.c:21-25 | both sets start empty at their capacities |
| AStar.Search.IdxInOpened | astar.c:41-46 | the first opened node with the searched values, or -1 |
| AStar.Search.IdxInClosed | astar.c:50-55 | the first closed node with the searched values, or -1 |
| AStar.Search.LowestRankAsWritten | astar.c:138-147 | the scan gives -1 exactly when every opened node has `f >= INT_MAX`; otherwise the lowest `f`, earliest index first |
| AStar.Search.LowestRank | astar.c:138-147 | for a non-empty opened set: the lowest `f`, earliest index among equals |
| AStar.Search.RemoveOpened | astar.c:149-151 | the opened set becomes its swap-with-last removal; `closed` is untouched |
| AStar.Search.RemoveClosed | astar.c:190-191 | the closed set becomes its swap-with-last removal; `opened` is untouched |
| AStar.Search.PushOpened | astar.c:203 | the node is appended to `opened` |
| AStar.Search.PushClosed | astar.c:164 | the node is appended to `closed` |
| AStar.Search.PopLowest | astar.c:138-151 | the node taken has the lowest `f` (earliest among equals) and `opened` loses exactly it |
| AStar.Search.DropOpened | astar.c:179-185 | the opened entry is removed only for a strictly cheaper path; the flag says whether none is left |
| AStar.Search.DropClosed | astar.c:187-193 | the closed entry is removed only for a strictly cheaper path; the flag says whether none is left |
| AStar.Search.OpenNeighbour | astar.c:195-204 | the neighbour node is appended to `opened` |
| AStar.Search.RelaxNeighbour | astar.c:174-204 | both sets become what `Relax` gives; `closed` never grows and `opened` grows by at most one |
| AStar.Search.RelaxAll | astar.c:172-206 | relaxing the listed transitions in turn leaves the sets as `Expanded` says; the flag is set exactly when `opened` is full |
| AStar.Listed | astar.c:167-170 | the buffers of `MAXACTIONS` entries receive every transition of `Transitions`, in order |
| AStar.Search.Expand | astar.c:167-206 | the sets become what `Expanded` gives for the transitions from `cur`; `closed` never grows; the flag is set exactly when `opened` reaches `MAXOPEN` |
| AStar.Search.CloseAndExpand | astar.c:163-206 | the outcome and both sets are those of `Closing`; when the search goes on, both counters are below their capacities |
| AStar.Search.Step | astar.c:136-206 | the outcome, the node taken (the lowest-`f` one) and both sets are those of `Pass` |
| AStar.Search.Advance | astar.c:134-207 | a pass that stops is where the run ends; otherwise the run from the new sets with one pass fewer is the same run |
| AStar.Search.Passes | astar.c:134-207 | the outcome, the node of the last pass and both final sets are those of `Run` from the sets it starts with |
| AStar.Search.Init | astar.c:121-132 | `opened` holds only the start node, with `g = 0`, no action and the heuristic as `h`; `closed` is empty |
| AStar.Search.RunSearch | astar.c:134-207 | outcome, node and sets are those of `SearchFrom`; `Found` carries a well-formed node that meets the goal with cost `f == g` and a well-formed closed set; each other outcome comes with its cause |
| AStar.Search.Plan | astar.c:111-210 | the outcome, goal node and both final sets are those of `SearchFrom`; `Found` carries a well-formed goal node with cost `f == g` and a plan that is the parent chain back from it, in start-to-goal order; a start meeting the goal gives `Found(0)` and 0 steps; each `-1` outcome comes with its cause and leaves both buffers untouched; on success the entries from `plansize` on are kept (listed in full below) |
| AStar.Search.ReconstructPlan | astar.c:59-88 | `n` is the length of the walk back from the goal node, at most `plansize`; `plan[0..n)` and `worldstates[0..n)` hold it in start-to-goal order; `full` says the buffer ran out first, and then `n == plansize`; entries from `plansize` on are kept |
| AStar.WalkBack | astar.c:61-76 | the walk is written from `plansize - 1` down, one action and state per step; every slot outside those written is kept |
| AStar.RecordStep | astar.c:66-70 | one step's action name and state go into slot `idx`, in front of the steps already written; every other slot is kept |
| AStar.MoveToFront | astar.c:78-83 | entries `off .. off + count` move to `0 .. count`; the entries from `count` on are kept |
| AStar.Find | astar.c:43-45 | the linear scan returns what `IndexOfValues` specifies |

The `AStar.Search.Plan` row in full. It states the following:

- The outcome, the goal node and both final sets are those of `SearchSpec.SearchFrom`, the search loop as functions.
- `Found(cost)` carries a goal node that meets the goal, with `cost == f == g`.
- The goal node and every closed node are well formed.
- The plan written is the chain of parent links back from the goal node, in start-to-goal order.
- At most `plansize` steps are written, and exactly `plansize` when the buffer runs out before the start is reached.
- A start state that already meets the goal gives `Found(0)` and a plan of 0 steps.
- `NoPath` comes only with an empty `opened` set.
- `ClosedOverflow` comes with `numClosed == MAXCLOS`, and `OpenedOverflow` with `numOpened == MAXOPEN`.
- Whatever the outcome, both counters stay within their arrays.
- On a `-1` outcome, `plan` and `worldstates` are untouched. On success, their entries from `plansize` on are kept.
- The start node, each node taken off `opened` and each step of the neighbour loop are those of `StartNode`, `Pass` and `Expanded`, through `RunSearch`, `Step` and `Expand`.

## Left out

- AStar.Search.Plan: the C loop `do … while (true)` has no termination argument. The model takes a `fuel` bound on the number of nodes taken off `opened`, and returns `OutOfFuel` when it runs out.
- AStar.Search.Plan: it reports which of the four `-1` returns happened, as an `Outcome` value. The C function returns only the integer.
- AStar.Search.Plan: the lowest-rank scan is the corrected `LowestRank`, which takes the first opened node unconditionally. The C scan at astar.c:138-147 starts from `INT_MAX` and can leave the index at -1 (see Findings, and `LowestRankAsWritten` for the scan as written).
- AStar.Search.ReconstructPlan: for a buffer shorter than the path, the C loop never ends (see Findings). The model stops once the buffer is full and reports that through `full`.
- Goap.ActionPlanner.GetPossibleStateTransitions: it requires well-formed tables in place of the full `Valid()` invariant. The unused slots do not matter to it.
- Costs, `g`, `h` and `f` are unbounded integers. The 32-bit `int` overflow of `cur.g + cost` and `g + h` is not modelled.
- The `bfield_t` fields are 64-bit words (`bv64`). With 64 registered atoms, `goap_worldstate_get` on an unknown name shifts by 64, which is undefined in C. The model reports `false` there.
- C strings are compared by value. A null name pointer is the empty string in the planner's tables and `None` for a node's action.
- `reconstruct_plan` writes a node's action name and state through pointers into `closed`. The model writes the same values.
- The static `opened` and `closed` arrays are the fields of one `Search` object, passed explicitly. A second concurrent planner sharing them is not modelled.
- `goap_worldstate_description` and `goap_description` (goap.c:138-184) build debug text with `snprintf`. They are not modelled.
- The `LOGI`/`LOGE` output (astar.h:4-9) is I/O only and is not modelled.
- The `goap_set_costs` declaration (goap.h:50) has no definition, so there is nothing to model.
- main.c is not part of this model. The end-to-end run over its sample repertoire (plan cost 4) would mean executing the search symbolically over dozens of nodes. No lemma states it.
- No lemma states that a plan found is a cheapest one. The source does not promise it: action costs are arbitrary integers, so the atom-count heuristic can overestimate. What is stated is which node each pass takes: the first node of least `f` (`SearchSpec.Lowest`).

## Findings

| source | as written | input that shows it | evidently intended | confidence | as-written member | corrected member |
|---|---|---|---|---|---|---|
| astar.c:64-75 | once `idx < 0`, `curnode` is never advanced, so the loop does not end while the current node has an action | a goal node two steps from the start and `*plansize == 1` | stop, or keep walking without writing, once the buffer is full; the corrected member then reports `full` with `n == plansize` | high, not executed | Nodes.AsWrittenHangs | AStar.Search.ReconstructPlan |
| goap.c:95-105 | the loop leaves `idx == numatoms` when the name is unknown, so the `idx == -1` test never holds and another atom's bit is returned as found | no atoms registered, `ws.values == 1`, any name: the call returns true with value true | return false for an unregistered atom | high, not executed | Repertoires.WorldStateGetAsWrittenExample | Repertoires.WorldStateGetMissing |
| astar.c:138-149 | `lowestVal` starts at `INT_MAX` and needs a strictly smaller `f`, so when every opened node has `f == INT_MAX` the index stays -1 and `opened[-1]` is read | one action with cost `INT_MAX - 1` whose effect sets an atom the goal ignores, from a start one atom away from the goal: the only opened node then has `g = INT_MAX - 1`, `h = 1` | take the first opened node unconditionally | medium, not executed | AStar.Search.LowestRankAsWritten | AStar.Search.LowestRank |
