# Multi-snake arena, modelled in Dafny

The program is a grid simulation of many snakes competing for apples. The grid is 30 x 30
cells. Every live snake steers with a greedy one-step heuristic. Each tick of the main loop
works in a fixed order:

1. Every live snake picks a move.
2. The tick works out which snakes eat, and the tentative body of each snake.
3. It runs the collisions in creation order.
4. It commits the surviving bodies.
5. It removes the claimed apples and refills the board up to five apples.

The project models that core:

- `grid.dfy` (module `Grid`): cells, the four headings in the order up, down, left, right, bounds and Manhattan distance.
- `snakes.dfy` (module `Snakes`): the `Snake` class with its in-place `Move`, the grow/shrink rule `Moved`, and the starting body `InitialBody`.
- `heuristic.dfy` (module `Heuristic`): `choose_direction`.
  - `Choice` is the reference definition: the first cheapest viable heading.
  - `ChooseDirection` runs the source's loops and is proved equal to `Choice`.
- `apples.dfy` (module `Apples`): `spawn_apple` (`Spawn` as the reference, `SpawnApple` as the loops), the initial fill, the removal of claimed apples and the refill.
- `simulation.dfy` (module `Simulation`): one tick stated on values.
  - A `World` holds a snapshot of all snakes in creation order, plus the apple list.
  - `TickWorld` maps one world to the next.
  - The lemmas prove the tick's laws.
- `arena.dfy` (module `Arena`):
  - The `Arena` class holds the `Snake` objects and the apple list.
  - Its constructor performs the set-up.
  - `Tick` mutates the objects phase by phase and is proved to reach `TickWorld(old(State()), rng)` while keeping `Valid()`.
  - The module also holds the starting-placement finding.

The random choice of a free cell is an oracle: `Spawn(bodies, apples, pick)` returns free
cell number `pick % |free|`. `SpawnCovers` shows that every free cell is reachable this way.
The refill draws the pick for a new apple as `rng(|apples|)`. The Python dicts keyed by snake
(`moves`, `ate`, `new_bodies`) become sequences indexed by creation order. A snake that is dead
at the start of a tick gets placeholder entries: its heading, `false`, and its current body.
The code never reads those entries.

## Model

| member | source | states |
|---|---|---|
| Grid.Opposite | test.py:136 | the opposite heading negates both components of the unit vector |
| Snakes.Moved | test.py:104-115 | a move puts the stepped head in front of the old body; the length grows by one exactly when the snake ate; the rest is a prefix of the old body |
| Snakes.Snake.Move | test.py:104-115 | in place: the body becomes the moved body, the length grows by one exactly when the snake ate, and the heading becomes the new one |
| Snakes.Snake.constructor | test.py:22-26 | a new snake has the given body and heading and is alive |
| Snakes.InitialBody | test.py:134-142 | the starting body has 1 to 3 cells, starts at the head, and runs opposite the heading on grid cells; it stops early only where the next cell would leave the grid; it has no repeated cell |
| Heuristic.NearestIndex | test.py:45-47 | the index of an apple nearest the head, with every earlier apple strictly farther (the first minimum, as `min` picks it) |
| Heuristic.Target | test.py:45-49 | the target is the grid centre when there are no apples, and otherwise an apple at least as near as every other, with every earlier apple in the list strictly farther (the first nearest, as `min` picks it) |
| Heuristic.HazardsCount | test.py:87-91 | the inner penalty count equals the number of other live snakes whose body holds the cell; each step adds one fresh snake to the counted set (helper `Heuristic.OneMore`) |
| Heuristic.HazardsZero | test.py:87-91 | the inner count is zero exactly when no other live snake holds the cell |
| Heuristic.NeighbourHazardsZero | test.py:83-91 | the penalty sum over the first neighbours is zero exactly when no other live snake holds any of them |
| Heuristic.PenaltyZero | test.py:83-92 | the penalty (`Heuristic.Penalty`, two points per neighbour and other live snake holding it) is zero exactly when no neighbour of the cell lies in another live snake's body |
| Heuristic.CandidatesSound | test.py:52-94 | every element of `Heuristic.CandidatesUpTo`, the `candidates` list built so far, is a heading already tried, it is not rejected (`Heuristic.Rejected`: off the grid, on its own body other than a tail about to move, or on another live snake other than its tail), and it carries `Heuristic.MoveCost`, the distance to the target plus the penalty |
| Heuristic.CandidatesOrdered | test.py:52-94 | the candidates come in the order up, down, left, right |
| Heuristic.CandidatesComplete | test.py:52-94 | every heading already tried that is not rejected is among the candidates |
| Heuristic.FirstMin | test.py:96-99 | the position of a cheapest candidate, with every earlier candidate strictly dearer (what a stable sort puts first) |
| Heuristic.NoCandidates | test.py:100-102 | with no candidate, every heading is rejected |
| Heuristic.BestCandidate | test.py:96-99 | the first cheapest candidate is a viable heading, costs no more than any viable heading, and costs strictly less than every viable heading tried before it |
| Heuristic.ChoiceFacts | test.py:96-102 | there is no candidate exactly when no heading is viable; otherwise the first cheapest candidate is a cheapest viable heading, and it is the first such in the order up, down, left, right |
| Heuristic.Choice | test.py:31-102 | when some heading is viable (`Heuristic.Viable`: its next cell is not rejected), the choice is viable, of least cost, and strictly cheaper than every viable heading tried before it; when none is, the choice is the snake's own heading |
| Heuristic.PeerBlocked | test.py:66-79 | the scan reports unsafe exactly when some other live snake holds the cell, except as the tail of a snake longer than one cell |
| Heuristic.PenaltyOf | test.py:83-91 | the loops compute exactly `Heuristic.Penalty`: two points per (neighbour, other live snake holding it) pair |
| Heuristic.ChooseDirection | test.py:31-102 | the source's loops return exactly the reference choice `Heuristic.Choice`, whose meaning ChoiceFacts proves |
| Apples.FreeColumnFacts | test.py:160-161 | one column's free cells are exactly its unoccupied cells, without repeats |
| Apples.FreeColumnsFacts | test.py:160-161 | the free cells of the first columns are exactly their unoccupied cells, without repeats |
| Apples.FreeCells | test.py:160-161 | the free list holds exactly the grid cells that no body (alive or dead) and no apple holds, each once |
| Apples.Spawn | test.py:150-162 | there is no new apple exactly when every grid cell is occupied; otherwise the new apple is a grid cell in no body and not yet an apple |
| Apples.SpawnCovers | test.py:162 | every free cell is the outcome of some pick |
| Apples.SpawnApple | test.py:150-162 | the occupied-set and free-list loops return exactly `Spawn` |
| Apples.RefillFacts | test.py:242-246 | `Apples.Refill`, the repeated spawn until the quota, keeps the old apples in front and adds only free grid cells not yet on the board; it keeps the list duplicate-free and within the quota; it stops short of the quota only when the grid is full |
| Apples.RefillExtends | test.py:242-246 | the old apples stay in front, the quota is kept, and a short board means a full grid |
| Apples.RefillFresh | test.py:242-246 | each added apple is a free grid cell not already on the board, so a duplicate-free list stays duplicate-free |
| Apples.FillApples | test.py:164-169 | the initial fill loop returns exactly the refill of an empty board |
| Apples.TopUp | test.py:242-246 | the end-of-tick refill loop returns exactly the refill of the kept apples |
| Apples.Without | test.py:239-241 | the unclaimed apples are exactly the apples not claimed; the list never gets longer and stays duplicate-free |
| Apples.WithoutNothing | test.py:239-241 | removing no claimed apple leaves the list as it was |
| Apples.RemoveFirst | test.py:241 | `list.remove` drops exactly one occurrence of the apple: the length falls by one and the multiset loses that one element |
| Apples.RemoveFirstOrder | test.py:241 | `list.remove` cuts out the first occurrence of the apple and keeps the rest in order: the result is the list before that position followed by the list after it (via `Apples.FirstOccurrence` and `Apples.RemoveAt`) |
| Apples.RemoveClaimed | test.py:239-241 | on a duplicate-free list, one more removed claimed apple equals the unclaimed list of the larger claim set |
| Apples.RemoveEaten | test.py:239-241 | removing the claimed apples one by one, in any order and each only while still present, leaves exactly the unclaimed apples in their order |
| Simulation.ResolveUntouched | test.py:210-231 | the pass has not yet changed the flag of any snake it has not reached |
| Simulation.ResolveSettled | test.py:210-231 | once the pass has visited a snake, its flag no longer changes |
| Simulation.ResolveMidway | test.py:210-231 | midway through the pass, visited snakes hold their final flags and the others their flags from the start of the tick |
| Simulation.Survival | test.py:210-231 | `Simulation.Resolve`, the creation-order pass, lets a snake survive exactly when it was alive and its head crashes neither into the wall nor into itself, nor into another snake alive when the pass reaches it |
| Simulation.StaysDead | test.py:210-213 | a snake dead at the start of a tick stays dead |
| Simulation.EarlierDies | test.py:224-231 | when a snake's new head lies in the tentative body of a later live snake, the earlier snake dies, whatever happens to the later one |
| Simulation.HeadOnMeeting | test.py:224-231 | when the new heads of two live snakes meet, the earlier one in creation order dies, the pass no longer counts it when it reaches the later one, and the later one survives exactly when it crashes against nothing else |
| Simulation.TickSnake | test.py:178-236 | in a tick (`Simulation.TickWorld`, whose snakes are `Simulation.Commit` of the pass over `Simulation.Tentative`), the heading never changes and a dead snake is untouched; a survivor was alive, and its body is its old body moved along its intent (`Simulation.Moves`), growing exactly when it ate (`Simulation.AteFlags`); a snake killed in the tick keeps its old body |
| Simulation.TickDeath | test.py:210-231 | a live snake dies exactly when its new head is off the grid, on the rest of its own tentative body, or on the tentative body of another snake still alive when the pass reaches it |
| Simulation.TickApples | test.py:238-246 | the unclaimed apples (`Simulation.Kept`, the apples outside `Simulation.Claimed`) come first, in order, and every claimed apple is gone from them, even when its claimant died; the board stays within the quota and is short of it only when the grid is full |
| Simulation.SurvivorBodyOk | test.py:233-236 | a survivor's tentative body is sound when its old body was, its new head is on the grid, and the head is not on the rest of the body |
| Simulation.AdvancedBodiesOk | test.py:210-236 | after the snake phases every body is sound: non-empty, on the grid, no repeated cell |
| Simulation.KeptOffBodies | test.py:238-241 | the kept apples are duplicate-free, within the quota, on the grid, and off every committed body |
| Simulation.TickWellFormed | test.py:178-246 | `Simulation.TickWorld` keeps the arena invariant: sound bodies, and duplicate-free apples within the quota, on the grid and off every body |
| Simulation.InitialWellFormed | test.py:164-169 | sound starting bodies and the initial fill meet the arena invariant |
| Simulation.TickLiveDisjoint | test.py:210-236 | when no two live snakes share a cell before a tick, none do after it |
| Arena.Intents | test.py:178-182 | the loop collects exactly `Simulation.Moves`: a live snake's entry is `Heuristic.Choice` on the same snapshot, the earliest cheapest viable heading (ChoiceFacts); a dead snake's entry is a placeholder |
| Arena.Feeding | test.py:185-196 | the loop computes exactly `Simulation.AteFlags` and `Simulation.Claimed`: a snake grows exactly when it is alive and its new head is an apple, and the claimed apples are exactly the apples some live snake moves its head onto |
| Arena.NewBodies | test.py:198-208 | the loop builds exactly `Simulation.Tentative`: each live snake's body moved along its intent by the grow/shrink rule of `Moved`, and each dead snake's body as it is |
| Arena.PlanMoves | test.py:178-208 | the first three phases yield the reference plan's claimed apples and tentative bodies |
| Arena.Taken | test.py:125-143 | the recorded cells are exactly the cells of the starting bodies placed so far |
| Arena.HeadCheckOverlap | test.py:128-143 | two starts that pass the head-only check `Arena.PlacedAsWritten` can still overlap |
| Arena.PlacedApartDisjoint | test.py:125-143 | with the whole-body check `Arena.PlacedApart`, no two starting snakes (`Arena.Initial`) share a cell |
| Arena.CreateSnakes | test.py:123-145 | one new, distinct, live snake object per start, in order, with the start's initial body and heading (entry by entry the starting snakes `Arena.Initial`); every body is sound |
| Arena.Arena.constructor | test.py:123-169 | the set-up: one new live snake per start with its initial body, then the initial apple fill; the arena is valid, and with the whole-body placement check no two snakes overlap |
| Arena.Arena.PeerHit | test.py:224-231 | the inner scan reports a hit exactly when another snake alive now holds the new head in its tentative body |
| Arena.Arena.Judge | test.py:211-231 | a snake's flag becomes false exactly when it was alive and crashes against the current flags; nothing else changes |
| Arena.Arena.Collide | test.py:210-231 | the pass changes only liveness, and leaves the flags of the reference creation-order pass |
| Arena.Arena.CommitBodies | test.py:233-236 | survivors that had a tentative body take it; every other field stays |
| Arena.Arena.AdvanceSnakes | test.py:178-236 | the snake phases bring the objects to the reference tick's snakes and return its claimed apples |
| Arena.Arena.Tick | test.py:178-246 | one tick in place keeps the arena valid and the same snake objects, and reaches exactly `TickWorld` of the old state |

## Left out

- pygame is not modelled: window and font setup, event polling, drawing, text, `clock.tick` and the frame loop. They are display and timing only.
- The colour of a snake is not modelled. It is a display attribute.
- `random.randint` and `random.choice` are inputs here. Starting heads and headings are given as `Start` values, and the apple choice is an oracle pick.
- The start-position retry loop (`while True`, test.py:128-132) is not modelled. Starts are inputs that only need their heads on the grid.
  - It draws random cells until a head misses the taken cells. It need not terminate, and it checks only the head.
  - The finding below models its check.
- The number of snakes (100 in the source) is not fixed. The model takes any list of starts.
- processor.py is not part of this model. It converts MIDI files and is unrelated to the simulation.
- `choose_direction` reads a value snapshot of all snakes, not the live objects. `other is self` becomes an index comparison. The two agree because the snapshot is taken before any phase writes, and the arena keeps its snake objects distinct.
- Heuristic.Choice: the stable `sort` is modelled by its first element only, the first cheapest candidate. The rest of the sorted list is never used.
- Apples.RemoveEaten: stated for duplicate-free apple lists, which the arena invariant guarantees. On a list with repeats, `list.remove` would leave later copies.
- Simulation.TickLiveDisjoint: stated under the hypothesis that no two live snakes overlap. The set-up as written does not guarantee that; see Findings.
- The code differs from the natural reading of its own comments in three places. The model follows the code:
  - Two snakes whose new heads meet do not both die. The earlier one in creation order dies first, and the later one then skips it.
  - Apples are removed even when the snake that claimed them died in the same tick.
  - The heading field is never updated by the main loop, so the heuristic's fallback is always the starting heading.

## Findings

| source | as written | input that shows it | evidently intended | confidence | as-written member | corrected member |
|---|---|---|---|---|---|---|
| test.py:128-143 | a start is accepted when its head is on no recorded cell; every cell of the new body is then recorded, but only the head was checked | head (5, 5) heading up takes (5, 6) and (5, 7); head (4, 6) heading left passes, with body (4, 6), (5, 6), (6, 6) overlapping at (5, 6) | no starting body shares a cell with an earlier one ("to avoid overlapping starting positions") | medium, not executed | Arena.PlacedAsWritten, Arena.HeadCheckOverlap | Arena.PlacedApart, Arena.PlacedApartDisjoint |
