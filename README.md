# Maze escape: a verified model of the game's decision logic

This project is a Dafny model of the core of a turn-based maze-escape game. It proves the game's properties with the Dafny verifier.

- **The map** is a set of rooms joined by doors, some of them locked. Keys, traps and puzzles lie in the rooms.
- **The player agent** walks from room 0 to the exit. It collects every key on the way and loses health to traps.
- **A Bayesian belief model** tracks how likely each room is to hold a trap.
- **A guard** chases the player with depth-limited minimax.
- **Locked doors** carry small constraint puzzles, solved by a backtracking solver.
- **An automatic player** picks its next target: keys first, then the exit, then unexplored safe rooms.

The model follows the program's own structure, one module per source file:

| module | file | what it holds |
|---|---|---|
| `RoomGraph` | (shared) | The adjacency value `seq<seq<Edge>>` and everything stated over it: unlocked neighbours, two-sided unlocking, walks, breadth-first levels and distance, and the map construction (the unlocked chain, then the extra doors). |
| `Env` | environment.py | `Room` and `Environment` as classes whose fields the methods update in place. A ghost `graph` field mirrors the rooms' neighbour lists. |
| `Bayes` | bayesian_reasoning.py | The class `BeliefSystem`: the Bayes update, propagation to nearby rooms, the sorted room queries and path risk. |
| `Agents` | agent.py | The class `Agent`: the guarded move, breadth-first search, best-first search over a heap modelled as a sequence, and the nearest-key choice. |
| `Guards` | guard.py | The class `Guard`: its breadth-first distance, the utility function, minimax as a recursive function (and the methods that compute it), the move rule, and alpha-beta pruning. |
| `Csp` | csp_solver.py | Puzzles as values, with constraints as a tagged datatype. The class `Solver` runs the backtracking search over one assignment map, mutated in place. |
| `Autopilot` | ai_solver.py | The class `AISolver`: the safe-neighbour filter, key lookup, target choice and the end-of-game test. |

Conventions:

- **Random choices become parameters.** This covers the extra doors, the key and trap shuffles, the puzzle targets and the guard's start room.
- **Configuration constants become constructor arguments.**
- **`float('inf')` becomes a sentinel.** The minimax code uses `NegInf = -1000` and `PosInf = 1000`, well outside the utility range [-50, 100].
- **Beliefs and utilities are exact `real`s.**
- **A key is one field.** A room's `has_key` and `key_id` together are the field `keyId: Option<int>`.

Most loops in the source are methods proved against a specification function or predicate. The properties are then proved about that specification. The exception is the alpha-beta search (guard.py:191-244): its two loops are the recursive functions `Guards.PruneMax` and `Guards.PruneMin`. Examples:

- `Csp.Solver.Backtrack` against `Csp.Search`;
- `Autopilot.AISolver.FindPriorityTarget` against `Autopilot.PriorityAsWritten`;
- `Guards.Guard.Minimax` against `Guards.GameValue`;
- `Agents.Agent.ScanKeyRooms` against `Agents.EarliestShortest`.

## Model

| member | source | states |
|---|---|---|
| `RoomGraph.NeighborIsRoom` | environment.py:144-147 | Every unlocked neighbour in a well-formed map is a room. |
| `RoomGraph.UnlockMembership` | environment.py:32-36 | Clearing the lock flags for `id` keeps every entry for other ids and never adds one. `id` stays present exactly when it was, and it is now unlocked. |
| `RoomGraph.UnlockTwice` | environment.py:32-36 | Unlocking a neighbour twice equals unlocking it once. |
| `RoomGraph.UnlockBetweenAt` | environment.py:153-156 | Room by room, two-sided unlocking changes only `a`'s entries for `b` and `b`'s entries for `a`. This holds also when `a == b`. |
| `RoomGraph.UnlockBetweenEffect` | environment.py:153-156 | Afterwards no entry between `a` and `b` is locked and a listed door is open on both sides. Every other room is unchanged, and a second call changes nothing. |
| `RoomGraph.UnlockBetweenWellFormed` | environment.py:153-156 | Unlocking keeps every entry naming a room. |
| `RoomGraph.UnlockBetweenSymmetric` | environment.py:153-156 | Two-sided unlocking keeps the adjacency mirrored in presence and in lock state. |
| `RoomGraph.UnlockBetweenBackbone` | environment.py:153-156 | Unlocking never removes or locks the backbone chain `i <-> i+1`. |
| `RoomGraph.UnlockBetweenSimple` | environment.py:153-156 | Unlocking introduces no self-door and no duplicate entry. |
| `RoomGraph.ChainStep` | environment.py:88-91 | Round `i` of the chain loop appends `i+1` to room `i` and `i` to room `i+1`, both unlocked. |
| `RoomGraph.ChainEntry` | environment.py:88-91 | In the chain, room `a` lists exactly `a-1` and `a+1` (where they exist), unlocked. |
| `RoomGraph.ChainShape` | environment.py:88-91 | The chain is well formed, mirrored, simple and holds the unlocked backbone. |
| `RoomGraph.AddDoorAt` | environment.py:94-103 | A new extra door appends one entry with the drawn lock flag to each end's list. No other list changes. |
| `RoomGraph.AddDoorsShape` | environment.py:93-103 | Extra doors (skipped for equal rooms and already-adjacent pairs) keep the graph well formed, mirrored, simple and the backbone unlocked. |
| `RoomGraph.SymmetricHasEntry` | environment.py:105-107 | On a mirrored graph, `a` lists `b` exactly when `b` lists `a`. |
| `RoomGraph.BackboneReachable` | environment.py:88-91 | Every room can be reached from room 0 by a walk over unlocked doors that repeats no room. |
| `RoomGraph.BackboneHasExits` | environment.py:88-91 | With two or more rooms, every room has an unlocked neighbour. |
| `RoomGraph.Distance` | guard.py:35-53 | The distance is 0 exactly from a room to itself and is never negative. |
| `RoomGraph.DistanceIsShortestWalk` | guard.py:30-53 | When some unlocked walk exists, the distance is the step count of a shortest one. Otherwise it is the sentinel 999. |
| `RoomGraph.ShortestWalk` | agent.py:72-95 | A walk ending at the breadth-first level of its own length repeats no room, has the distance as its step count, and is no longer than any other walk between the same rooms. |
| `RoomGraph.NoWalkOut` | agent.py:79-95 | A door-closed set holding the start but not the target rules out every walk to the target, and the distance is 999. |
| `RoomGraph.WithinHasWalk` | agent.py:79-95 | Every room within `m` breadth-first rounds is the end of a walk of at most `m` steps. |
| `Env.Room.constructor` | environment.py:14-26 | A new room has no doors, no key, no trap, no puzzle, is unvisited and is not the exit. |
| `Env.Room.AddNeighbor` | environment.py:28-30 | Appends one `(id, locked)` entry and keeps earlier entries in order. |
| `Env.Room.UnlockDoor` | environment.py:32-36 | Clears, in place, the lock flag of every entry naming the neighbour. |
| `Env.Placed` | environment.py:109-127 | The number of rooms receiving an item is `min(count, len)` of the shuffled list. |
| `Env.Environment.constructor` | environment.py:45-59 | Builds the map: the chain, then the drawn extra doors, then keys, traps and puzzle flags. The result is valid (rooms at their ids, items in middle rooms, each key in one room) and the graph is mirrored, simple and backboned. Key `k` lies in room `keyOrder[k]` for the first `min(NUM_KEYS, len)` entries and no other room has a key. A room has a trap exactly when it is among the first `min(NUM_TRAPS, len)` rooms of `trapOrder` and holds no key. A room has a puzzle flag exactly when it has a locked door. `keyHome` records the key order. |
| `Env.Environment.GenerateRooms` | environment.py:61-84 | Creates `room_count` fresh rooms at positions equal to their ids, empty, with the last one as the exit. |
| `Env.Environment.ConnectRooms` | environment.py:86-103 | The graph becomes the chain followed by the extra doors in draw order. |
| `Env.Environment.ConnectChain` | environment.py:88-91 | The first connection loop builds exactly the unlocked chain. |
| `Env.Environment.Join` | environment.py:101-103 | A door is appended to both ends' lists with the same lock flag. |
| `Env.Environment.AddExtraDoors` | environment.py:93-103 | The second connection loop adds each drawn door unless its ends are equal or already neighbours. |
| `Env.Environment.PlaceKeys` | environment.py:109-117 | Key `k` lies in room `order[k]` for the first `min(NUM_KEYS, len)` entries. No other room has a key, and keys only lie in rooms `1 .. n-2`. |
| `Env.Environment.PlaceTraps` | environment.py:119-127 | A room has a trap exactly when it is among the first `min(NUM_TRAPS, len)` shuffled rooms and holds no key. |
| `Env.Environment.PlacePuzzles` | environment.py:129-138 | A room gets a puzzle flag exactly when it has at least one locked door. |
| `Env.Environment.MarkPuzzle` | environment.py:133-138 | The inner puzzle loop sets the flag exactly when a locked entry exists, stopping at the first. |
| `Env.Environment.PlaceItems` | environment.py:57-59 | After placing keys, traps and puzzles, only the last room is the exit, and keys (ids below `total_keys`) and traps lie only in rooms `1 .. n-2`. No trap shares a room with a key, and each key's room is the one its shuffle slot names. Keys, traps and puzzle flags are placed exactly as `Env.Environment.PlaceKeys`, `Env.Environment.PlaceTraps` and `Env.Environment.PlacePuzzles` promise. |
| `Env.Environment.MarkVisited` | agent.py:46 | The room is marked visited. |
| `Env.Environment.GetRoom` | environment.py:140-142 | A room is returned exactly for ids `0 .. room_count-1`, and it is the room with that id. |
| `Env.Environment.GetUnlockedNeighbors` | environment.py:144-147 | Exactly the ids of the room's unlocked entries, in list order. |
| `RoomGraph.Unlocked` | environment.py:144-147 | An id is in the result exactly when an unlocked entry names it; the result is no longer than the list. |
| `Env.Environment.UnlockedNeighborsMutual` | environment.py:144-147 | Each unlocked neighbour is another room whose own list holds the door back, also unlocked. |
| `Env.Environment.GetAllNeighbors` | environment.py:149-151 | The room's entries with their flags; each names a room. |
| `Env.Environment.AllNeighborsMutual` | environment.py:149-151 | Every entry is mirrored with the same flag, and no neighbour is listed twice. |
| `Env.Environment.AreNeighborsSymmetric` | environment.py:105-107 | `_are_neighbors(a, b)` equals `_are_neighbors(b, a)`. |
| `Env.Environment.UnlockDoorBetween` | environment.py:153-156 | The graph becomes the two-sided unlock of the old graph, and validity and shape are preserved. |
| `Env.Environment.CollectKey` | environment.py:158-164 | Returns true exactly when the room has a key not yet collected, and then adds exactly that id. A second call returns false. |
| `Env.Environment.TriggerTrap` | environment.py:166-172 | Returns true exactly when the room has a trap that has not fired, and then marks it fired. A trap fires at most once. |
| `Bayes.PosteriorTrap` | bayesian_reasoning.py:45-65 | After a "trap" observation the belief is 1 when the prior is positive and 0 when it is zero. |
| `Bayes.PosteriorBounds` | bayesian_reasoning.py:60-67 | The posterior stays within [0, 1]. |
| `Bayes.PosteriorSafeLowers` | bayesian_reasoning.py:53-67 | For `0 < p < 1`, a "safe" observation lowers the belief exactly when the reliability exceeds 0.5. |
| `Bayes.BayesRuleBounds` | bayesian_reasoning.py:60-67 | Bayes' rule with non-negative likelihoods and a prior in [0, 1] gives a value in [0, 1]. |
| `Bayes.BayesRuleBelow` | bayesian_reasoning.py:60-67 | For a prior strictly between 0 and 1, the posterior falls below the prior exactly when the trap likelihood is below the no-trap likelihood. |
| `Bayes.NudgeBounds` | bayesian_reasoning.py:84-96 | A propagation step `min(0.95, p + 0.1/d)` or `max(0.05, p - 0.05/d)` keeps a belief in [0.05, 0.95]. |
| `Bayes.SpreadFrame` | bayesian_reasoning.py:77-96 | For any beliefs, propagation keeps the room set and leaves every room outside the neighbourhood unchanged: the observed room, rooms already observed, and rooms more than 2 ids away. |
| `Bayes.SpreadEffect` | bayesian_reasoning.py:77-96 | Propagation keeps the room set. It changes only unobserved rooms other than the observed one within id-distance 2, and keeps unobserved beliefs in [0.05, 0.95]. |
| `Bayes.ObservePreserves` | bayesian_reasoning.py:36-70 | A full update sets the observed room to its posterior, keeps every belief in [0, 1], and keeps the other unobserved rooms in [0.05, 0.95]. |
| `Bayes.SortByCorrect` | bayesian_reasoning.py:104-110 | The sort orders by key, is a permutation, and is stable: equal keys keep their input order. |
| `Bayes.PrefixSmallest` | bayesian_reasoning.py:104-105 | The first `top_n` of the sorted list are drawn from the input, and none is worse than a room left out. |
| `Bayes.PathRiskBounds` | bayesian_reasoning.py:113-123 | With beliefs in [0, 1], the path risk lies between 0 and the path length. |
| `Bayes.BeliefSystem.constructor` | bayesian_reasoning.py:12-24 | Every room `0 .. n-1` starts at the prior, and there are no observations. |
| `Bayes.BeliefSystem.UpdateBelief` | bayesian_reasoning.py:26-70 | An unknown room changes nothing. Otherwise the observation is recorded, the room gets its posterior, the change is propagated, and validity is preserved. |
| `Bayes.BeliefSystem.PropagateBeliefs` | bayesian_reasoning.py:72-96 | The beliefs become the propagation of the old ones, room by room. |
| `Bayes.BeliefSystem.GetTrapProbability` | bayesian_reasoning.py:98-100 | Unknown rooms read 0. A valid belief lies in [0, 1], and in [0.05, 0.95] while the room is unobserved. |
| `Bayes.BeliefSystem.GetSafestRooms` | bayesian_reasoning.py:102-105 | The result has `min(top_n, len)` rooms taken from the input, in ascending belief order (unknown = 1.0). No room left out has a lower belief than one returned. |
| `Bayes.BeliefSystem.GetRiskiestRooms` | bayesian_reasoning.py:107-111 | The same, in descending belief order (unknown = 0.0). |
| `Bayes.BeliefSystem.EstimatePathRisk` | bayesian_reasoning.py:113-123 | The result is the sum of the beliefs of unobserved path entries (unknown = 0). It is never negative and at most the path length. |
| `Agents.Agent.constructor` | agent.py:16-30 | The agent starts in the start room with full health, no keys, one visited room, and beliefs at the prior for every room. |
| `Agents.Agent.MoveTo` | agent.py:33-65 | A room that is not an unlocked neighbour is refused and nothing changes. A move sets the room, counts the move, and visits the room. It fires a trap at most once for the damage, tells the belief model "trap" or "safe", and adds a newly collected key. |
| `Agents.Agent.CheckTrap` | agent.py:50-57 | The trap fires exactly when armed. Health drops by the damage, the trap counter increases by one, and the belief model hears "trap"; otherwise it hears "safe". |
| `Agents.Agent.CheckKey` | agent.py:60-62 | The room's key is added to both key sets exactly when it is new. |
| `Agents.Agent.FindPathBfs` | agent.py:67-95 | `[s]` from a room to itself. Otherwise the result is a shortest unlocked walk that repeats no room, and there is none exactly when no walk exists. |
| `Agents.Agent.Heuristic` | agent.py:105-109 | The best-first estimate is `|id - goal|` plus at most 10. |
| `Agents.SearchFound` | agent.py:79-95 | When the breadth-first loop meets the goal as a neighbour, the queued walk plus the goal is a shortest walk that repeats no room. |
| `Agents.SearchExhausted` | agent.py:79-95 | When the queue runs empty without the goal, no walk reaches it. |
| `Agents.BeforeStrictOrder` | agent.py:117-136 | Heap order on `(f, g, room, path)` tuples is a strict order. |
| `Agents.PopMin` | agent.py:117 | Popping removes one minimal entry and keeps the others. |
| `Agents.Agent.FindPathAstar` | agent.py:97-138 | `[s]` from a room to itself. Otherwise the result is an unlocked walk that repeats no room, and there is none exactly when no walk exists. |
| `Agents.Agent.FindPath` | agent.py:140-147 | Dispatches on the algorithm name: the path is shortest unless the name is "astar". |
| `Agents.Agent.UncollectedKeyRooms` | agent.py:154-157 | Exactly the rooms holding a key the agent lacks, in room order. |
| `Agents.NearestByDistance` | agent.py:163-170 | When every path found is a shortest walk, the earliest strictly shortest candidate is a nearest reachable one. Among the nearest, it is the lowest numbered when candidates come in room order. |
| `Agents.Agent.ScanKeyRooms` | agent.py:163-170 | For any search, the loop's choice over the key rooms is the earliest strictly shortest path found. Each found path is what `find_path` promises. |
| `Agents.Agent.ChoiceFound` | agent.py:163-172 | The scan's choice is a room holding an uncollected key with a distinct walk to it. There is none exactly when no such room is reachable. |
| `Agents.Agent.ChoiceNearest` | agent.py:163-172 | Under breadth-first search the scan's choice is a nearest uncollected key room, the lowest id winning ties. |
| `Agents.Agent.FindNearestKey` | agent.py:149-174 | For every search algorithm, the choice is the earliest room, in room order, whose found path is strictly shortest among the uncollected key rooms. It is None exactly when no such room can be reached; otherwise it is a key room with a valid walk to it. Under breadth-first search that walk is shortest, and the room is the nearest one, the lowest id winning ties. |
| `Agents.Agent.IsAlive` | agent.py:210-212 | The agent is alive exactly while the fired traps have cost less than the starting health. |
| `Agents.Agent.HasWon` | agent.py:214-216 | The agent has won exactly when it stands in the last room, the exit. |
| `Guards.Evaluate` | guard.py:150-169 | 100 exactly on the player's room, -50 when unreachable, otherwise in (0, 25]. The utility always lies in [-50, 100]. |
| `Guards.EvaluateCloser` | guard.py:160-169 | A strictly closer reachable room has a strictly higher utility. |
| `Guards.GameValueRange` | guard.py:106-148 | Every minimax value lies in [-50, 100]. |
| `Guards.MaxOverBounds` | guard.py:131-135 | The guard's fold is at least every child value and equals one of them (or the start). |
| `Guards.MinOverBounds` | guard.py:144-148 | The player's fold is at most every child value and equals one of them (or the start). |
| `Guards.FirstBestIsGameValue` | guard.py:93-104 | The first child attaining the maximum carries the game value of the guard's ply. |
| `Guards.AlphaBetaSound` | guard.py:191-244 | Alpha-beta with the stuck-side evaluation is fail-soft: inside the window it returns the minimax value, and outside it returns a bound on the same side. |
| `Guards.AlphaBetaCorrectedIsMinimax` | guard.py:191-244 | With the full window, alpha-beta with the stuck-side evaluation equals minimax. |
| `Guards.AlphaBetaAgreesWhenNeverStuck` | guard.py:191-244 | Alpha-beta as written equals minimax whenever every side to move has an unlocked neighbour. |
| `Guards.BackboneNeverStuck` | guard.py:191-244 | On a map with an unlocked backbone chain and at least two rooms, no side to move in the search tree is ever stuck. |
| `Guards.AlphaBetaAgreesOnBackbone` | guard.py:191-244 | So on every map the environment builds, alpha-beta as written equals minimax. |
| `Guards.AlphaBetaStuckGuard` | guard.py:213-228 | A concrete stuck guard where alpha-beta as written returns minus infinity while minimax gives -50. |
| `Guards.ScanFound` | guard.py:35-53 | When the breadth-first distance loop meets the target as a neighbour, the queued distance plus one is the distance. |
| `Guards.ScanExhausted` | guard.py:35-53 | When the queue runs empty, the distance is the sentinel 999. |
| `Guards.Guard.constructor` | guard.py:14-23 | The guard starts in the drawn room `2 .. n-3`, or in room 1 when that range is empty. It has made no moves and has not caught the player. |
| `Guards.Guard.CanSeePlayer` | guard.py:25-28 | Sees the player exactly when the distance is within the vision range. |
| `Guards.Guard.DistanceToRoom` | guard.py:30-53 | Returns the breadth-first distance: 0 to itself, the edge count when reachable, 999 otherwise. |
| `Guards.Guard.EvaluatePosition` | guard.py:150-169 | Returns the utility of the position. |
| `Guards.Guard.Minimax` | guard.py:106-148 | Returns the game value: an evaluation at depth 0, on capture or when the side to move is stuck; otherwise the max or min over that side's moves. |
| `Guards.Guard.GuardPly` | guard.py:123-135 | The guard's loop returns the maximum over its moves from minus infinity. |
| `Guards.Guard.PlayerPly` | guard.py:136-148 | The player's loop returns the minimum over its moves from plus infinity. |
| `Guards.Guard.MinimaxDecision` | guard.py:81-104 | None exactly when the guard has no unlocked neighbour. Otherwise the result is the first neighbour in list order attaining the maximum value. |
| `Guards.Guard.MakeMove` | guard.py:55-79 | Disabled or stuck, nothing changes. Otherwise the guard moves to the minimax choice, counts the move, and records a catch when it lands on the player. |
| `Csp.HoldsMonotone` | csp_solver.py:45-123 | A constraint that holds for an assignment holds for every sub-assignment: sum, order and product hold while a variable is unassigned, and all-different compares only assigned values. |
| `Csp.ConsistentMonotone` | csp_solver.py:180-185 | A consistent assignment stays consistent when variables are removed. |
| `Csp.SelectUnassigned` | csp_solver.py:172-178 | None exactly when every variable is assigned. Otherwise the first variable in declaration order that is unassigned. |
| `Csp.SelectNext` | csp_solver.py:172-178 | Once the first `k` variables are assigned, the next variable chosen is variable `k`. |
| `Csp.EasyWitness` | csp_solver.py:33-55 | Any distinct `x, y` in 1..4 with `x + y == target` solves the easy puzzle. |
| `Csp.EasySolvable` | csp_solver.py:42-55 | Every easy puzzle with target 4..7 has a solution. |
| `Csp.MediumWitness` | csp_solver.py:58-83 | Distinct `a < b`, `c` in 1..5 with sum `target` solve the medium puzzle. |
| `Csp.MediumSolvable` | csp_solver.py:67-83 | Every medium puzzle with target 8..12 has a solution. |
| `Csp.HardWitness` | csp_solver.py:86-123 | Distinct values in 1..6 with `w <= x`, the drawn product and the drawn sum solve the hard puzzle. |
| `Csp.HardSolvable` | csp_solver.py:98-106 | Every listed combination gives a solvable hard puzzle. |
| `Csp.GeneratedWellFormed` | csp_solver.py:22-31 | Every generated puzzle (an unknown difficulty gives the easy one) has distinct variables, each with a domain. |
| `Csp.GeneratedSolvable` | csp_solver.py:22-31 | Every generated puzzle has a solution. |
| `Csp.FirstSatIsFirst` | csp_solver.py:154-164 | The search result is the first candidate in enumeration order that is consistent; none before it is. |
| `Csp.TupleInDomains` | csp_solver.py:157 | Every enumerated candidate takes each variable's value from its domain. |
| `Csp.TupleEnumerated` | csp_solver.py:157 | Every choice of domain values is enumerated. |
| `Csp.Pruned` | csp_solver.py:161-162 | An inconsistent partial assignment has no consistent completion, so the search may skip it. |
| `Csp.SearchMeaning` | csp_solver.py:135-170 | The search finds a verified solution. It finds none exactly when no assignment is verified, and its result is the first verified one in lexicographic order. |
| `Csp.SolutionTuple` | csp_solver.py:187-198 | Every verified solution is one of the enumerated candidates. |
| `Csp.AssignNext` | csp_solver.py:158-168 | Assigning the next variable and then deleting it restores the assignment. |
| `Csp.Solver.constructor` | csp_solver.py:130-133 | The solver holds the puzzle with both counters at 0. |
| `Csp.Solver.Solve` | csp_solver.py:135-141 | The result is the search's first solution and is verified. It is None exactly when the puzzle has no solution. |
| `Csp.Solver.Backtrack` | csp_solver.py:143-170 | Returns the search's first completion of the current assignment. On failure the assignment is back to its state on entry. |
| `Csp.Solver.TryValues` | csp_solver.py:156-170 | The loop over the next variable's domain returns the same completion as the search. When none exists, the assignment is back to its state on entry. |
| `Csp.Solver.IsConsistent` | csp_solver.py:180-185 | True exactly when every constraint holds. |
| `Csp.Solver.VerifySolution` | csp_solver.py:187-198 | True exactly when the keys are the variables, every value lies in its domain, and every constraint holds. |
| `Autopilot.AISolver.constructor` | ai_solver.py:20-37 | A fresh game: risk tolerance 0.3, best-first search on, turn 0, not over, not won. |
| `Autopilot.SafeAmongMembers` | ai_solver.py:44-54 | A room is kept exactly when it is in the list and its belief is below the tolerance. |
| `Autopilot.SafeAmongAll` | ai_solver.py:44-54 | When every room is below the tolerance, the filter keeps the whole list. |
| `Autopilot.AISolver.GetSafeNeighbors` | ai_solver.py:44-54 | Exactly the unlocked neighbours whose belief is below the tolerance, in door order. |
| `Autopilot.RoomWithKeyFrom` | ai_solver.py:56-61 | The first room in room order holding key `k`, and none when no room holds it. |
| `Autopilot.AISolver.FindRoomWithKey` | ai_solver.py:56-61 | Returns the first room holding the key. On a valid map that is the room the key was placed in. |
| `Autopilot.OnMapFound` | ai_solver.py:56-61 | The lookup succeeds exactly when some room holds the key. |
| `Autopilot.KeyTargetLeast` | ai_solver.py:68-73 | The key step finds a room exactly when a key of the range is unheld and on the map, and then it is the room of the smallest such key. |
| `Autopilot.ExploreTarget` | ai_solver.py:80-86 | The lowest unvisited room whose belief is below the tolerance, or none. |
| `Autopilot.AISolver.FindKeyTarget` | ai_solver.py:68-73 | The key loop returns the key step's room. |
| `Autopilot.AISolver.FindExploreTarget` | ai_solver.py:80-86 | The exploration loop returns the exploration choice. |
| `Autopilot.AISolver.FindPriorityTarget` | ai_solver.py:63-86 | The choice as written: keys `1 .. total_keys`, then the exit once `total_keys` keys are held, then exploration. |
| `Autopilot.AsWrittenSkipsKeyZero` | ai_solver.py:68-73 | A concrete state where the choice as written skips the unheld key 0 and heads elsewhere. |
| `Autopilot.AISolver.FindPriorityTargetCorrected` | ai_solver.py:63-86 | The same choice over the key ids the map hands out, `0 .. total_keys-1`. |
| `Autopilot.PriorityChasesKeys` | ai_solver.py:68-73 | With that range, whenever an unheld key lies on the map the choice is a room holding the smallest unheld key. |
| `Autopilot.AllKeysHeld` | ai_solver.py:195 | With key ids `0 .. total-1`, holding `total` of them means holding every one. |
| `Autopilot.AISolver.CheckVictory` | ai_solver.py:192-207 | Victory (enough keys and on the exit) sets both flags and returns true. Otherwise health at or below 0 sets only `game_over` and returns true. Otherwise nothing changes and it returns false. |

## Left out

- **Output and presentation.** Printing, logging, names and messages are not modelled. This covers `get_map_summary`, `get_status`, `get_belief_summary`, `Room.__repr__`, the VERBOSE prints and the `(success, message)` strings; only the flag of each pair is returned.
- **Orchestration of the automatic player.** `solve_escape_room`, `navigate_to_target`, `display_game_state` and `run_ai_solver` are left out: they are loops of logging, sleeping and timing around the modelled calls.
- **The automatic player's puzzle branch.** `solve_puzzle` is dead code. It builds the solver without a puzzle and passes an argument `solve` does not take, and no room ever holds a puzzle object.
- **Agent route planning.** `plan_escape_route` is a one-line call of `find_path` to the exit; `FindPath` covers it.
- **Counters.** The solver's `nodes_expanded` and `backtracks` are updated as in the source, but their values are not specified. The path searches' local `nodes_expanded` counters feed only the verbose prints and are dropped.
- **The alpha-beta search as functions.** `minimax_alpha_beta`'s loops update only local variables (the running value and the window), so the model states them as the recursive functions `Guards.PruneMax` and `Guards.PruneMin`. Nothing is updated in place and nothing is aliased, so only the loop form is not captured.
- **Randomness.** `random.randint`, `random.random`, `random.choice` and `random.shuffle` are parameters: the door draws, the shuffled room lists, the puzzle target or combination index, and the guard's start pick. No distribution is modelled.
- **Floating point.** Beliefs and utilities are exact reals; IEEE rounding is not modelled.
- **Puzzle closures.** The constraint closures are a tagged datatype evaluated over a partial map. All-different is stated as "no two assigned variables share a value", which is what comparing the list of values with its set computes.
- **Puzzle extras.** The puzzle's `description` text and the unused `solution` field are left out.
- **Search state as values.** The breadth-first `deque` and the `heapq` list are sequences. The heap is modelled by its order (a minimal entry is popped), not by its array layout. That yields the same pops up to ties between equal tuples, which Python's tuple order rules out here.
- **No optimality claim for best-first search.** Its heuristic `|id - goal| + 10p` is not admissible, so the best-first path is not claimed shortest.
- **Which members read the ghost graph.** Methods that read the map read the rooms' own lists; `env.graph` is their ghost mirror.
- **Room fields the core never reads.** `puzzle` and `puzzle_solved`, and the agent's `puzzles_solved`, are not modelled.
- `Autopilot.AISolver.CheckVictory` compares the number of held keys with `total_keys`, as the source does. That this means "every key" is proved separately, in `Autopilot.AllKeysHeld`, for key ids in `0 .. total-1`. The agent's class invariant does not carry that range.
- `Guards.Guard.MinimaxDecision` and `Guards.Guard.Minimax` require the player's room to be a room wherever the recursion reads its neighbours. The source would raise a `KeyError` there.

## Findings

| source | as written | input that shows it | evidently intended | confidence | as-written member | corrected member |
|---|---|---|---|---|---|---|
| guard.py:213-244 | `minimax_alpha_beta` has no case for a side to move without unlocked neighbours, so it returns its starting `-inf`/`+inf` | two rooms with no doors, guard in room 0 to move, player in room 1, depth 1: it returns minus infinity where `_minimax` returns -50 | evaluate the position when the side to move is stuck, as `_minimax` does (guard.py:128-129, 141-142). No map the environment builds shows it (`Guards.AlphaBetaAgreesOnBackbone`), and nothing in the game calls this function | high, not executed | `Guards.AlphaBetaStuckGuard` | `Guards.AlphaBetaCorrectedIsMinimax` |
| ai_solver.py:68 | the key step scans key ids `1 .. total_keys`, but keys are numbered `0 .. NUM_KEYS-1` (environment.py:117) | three rooms, key 0 in room 1 with belief 0.5, nothing held, one key in total, room 0 visited: the choice is room 2 instead of the key's room 1 | scan `0 .. total_keys-1`, so every unheld key on the map is chased | high, not executed | `Autopilot.AsWrittenSkipsKeyZero` | `Autopilot.PriorityChasesKeys` |
