# Idle crawler: economy, registries and helpers, in Dafny

This project models the deterministic core of an idle crawler game, whose
server and core library are written in Rust and whose tile event log is
written in Python. It covers the following:

- **The player economy of the core library** (`src/core/src/player.rs`):
  - building and demolishing buildings on tiles;
  - hiring and firing workers;
  - depositing and withdrawing resources;
  - opening, cancelling and accepting trade offers;
  - the per-tick generation step, with its cached delta map, its dirty flag and its efficiency ratios.
- **The dependency index** built from the building catalog (`src/core/src/buildings.rs`).
- **The player registry, tick and event dispatcher** of the core `Game` (`src/core/src/lib.rs`).
- **The older server game**, which keeps its players and their generators in step (`src/server/src/lib.rs`).
- **The server's integer generation map** (`src/server/src/player.rs`).
- **The tick clock** (`src/server/src/clock.rs`).
- **The position generator** (`src/server/src/pos.rs`).
- **The per-tile event log** (`src/server/tile.py`).
- **The client menu's shortcut assignment and selection** (`src/client/src/ui.rs`).

Code that updates state in place is modelled as Dafny classes whose
methods carry `modifies` clauses. Each such method is proved against pure
specification functions. Properties that relate several calls are lemmas
about those functions.

The project's modules are these:

- **Ints, Results, Sums and Seqs** (`ints.dfy`). They hold the fixed-width integers, `Option`/`Result`, sums over finite sets, and sequence helpers (`Vec::remove`, `list.index`).
- **Buildings** (`buildings.dfy`). It holds the catalog and `DependencyTree::new`.
- **Tiles and Trade** (`tiles.dfy`). They hold positions, tile slots, and the trade records.
- **EconomySpec** (`economy_spec.dfy`). It holds the player's value types and the specification functions of every economy operation.
- **Economy** (`economy.dfy`). It holds the `Player` class, whose methods update its maps in place.
- **CoreGame** (`core_game.dfy`). It holds the core `Game`, and the events and exceptions of `src/core/src/response.rs`.
- **ServerEconomy** (`gen_map.dfy`). It holds the server player records and `build_gen_map`.
- **ServerWorld** (`server_game.dfy`). It holds the server `Game`.
- **Positions** (`pos.dfy`). It holds the `PosGenerator` class.
- **Timing** (`clock.dfy`). It holds the `Clock` class.
- **TileEvents** (`tile_log.dfy`). It holds the `TileLog` class.
- **Menus** (`ui.dfy`). It holds the `Menu` class and the shortcut logic.

### Conventions

- Rust integers are subset types: `u8`, `u32` and `i32` in `Ints`, and `u128` in `Timing`.
- Arithmetic that panics in a debug build becomes a precondition. This covers:
  - unsigned underflow;
  - overflow of `+=`;
  - `unwrap` on a missing entry;
  - division by zero;
  - `Vec::remove` on an empty vector;
  - `assert!`;
  - a Python `assert` or `ValueError`.
- Errors the source returns as `Err` are modelled as `Result` values.
- The `as` casts are written out as the wrap-around or truncation they perform (`U32AsI32`, `RealAsU32`, `Or32`).
- Iterating over a `HashMap` visits keys in an unspecified order:
  - Where the result does not depend on that order, the loops pick an arbitrary remaining key.
  - `calc_ratios` does depend on it. There, the order is a parameter: a duplicate-free enumeration of the tree's keys.

Where the source and its own comments disagree, the model follows the code.
When the code falls short of what a comment promises, the gap is listed under
"Findings", where the intended behaviour is defined and proved beside the
model of the code as written. A comment that the code overrides harmlessly is
not listed there: the note above `process` (src/core/src/lib.rs:162) says an
unknown username panics, while the code returns `Unregistered`, which
`CoreGame.Game.Process` states.

## Model

| member | source | states |
|---|---|---|
| Ints.Min | src/core/src/player.rs:161 | the result is at most both arguments and equal to one of them |
| Ints.U32AsI32 | src/server/src/player.rs:48 | `as i32` keeps the value modulo 2^32 and leaves values up to `i32::MAX` unchanged |
| Ints.RealAsU32 | src/core/src/player.rs:464 | `needed as u32` truncates toward zero and saturates at `u32::MAX` |
| Seqs.RemoveAt | src/core/src/player.rs:383 | `Vec::remove(k)` shifts the later elements down by one and drops exactly one occurrence of the removed element |
| Seqs.FirstIndexOf | src/core/src/player.rs:381-382 | the index returned holds the element and no earlier index does; None means the element is absent |
| Buildings.PushConsumer | src/core/src/buildings.rs:52-54 | the building is pushed once onto the list of every resource it consumes and nowhere else; the keys grow by the consumed resources |
| Buildings.IndexBuilding | src/core/src/buildings.rs:51-57 | indexing one more building keeps the index exact for the buildings visited so far |
| Buildings.NewDependencyTree | src/core/src/buildings.rs:45-61 | the result indexes the whole catalog, in any visiting order: each building occurs under each resource it consumes exactly once, the keys are the consumed resources, and non-consumers are in the free list once |
| Buildings.ConsumerListedOnce | src/core/src/buildings.rs:51-54 | a consumer is listed under every resource it consumes, exactly once |
| Buildings.FreeIffNoConsumption | src/core/src/buildings.rs:51-57 | a building is in the free list if and only if it consumes nothing; then it is there once and in no consumer list |
| Buildings.EveryBuildingIndexed | src/core/src/buildings.rs:50-59 | every catalog building is in the free list or in some consumer list, never both |
| Buildings.OnlyCatalogBuildings | src/core/src/buildings.rs:50-59 | a building outside the catalog appears nowhere in the index |
| Buildings.OccurrencesMatchConsumption | src/core/src/buildings.rs:52-53 | a building occurs in the consumer lists exactly `consumed.len()` times |
| Buildings.TreeKeysConsumed | src/core/src/buildings.rs:53 | every key of the tree is consumed by some catalog building listed under it |
| Tiles.Tile.constructor | src/server/src/tile.rs:43-54 | a new tile has no slots |
| EconomySpec.BuildDemolishConservation | src/core/src/player.rs:196-248 | add_building then rm_building of the same amount at the same position restores the total, the worker pair and every per-position count |
| EconomySpec.DemolishCopyUnderflows | src/core/src/player.rs:228-232 | demolishing one of one building with five jobs and nobody hired makes the copy arithmetic underflow |
| EconomySpec.DemolishKeepsHiredAboveCapacity | src/core/src/player.rs:244-246 | with five hired in the only building, rm_building leaves five hired against zero jobs, which the copy cannot repair |
| EconomySpec.Reconciled | src/core/src/player.rs:230-232 | the intended adjustment: capacity drops by the jobs removed, and hired is at most the new capacity and at most what it was, changing only when it must |
| EconomySpec.ReconciledKeepsHiredWithinCapacity | src/core/src/player.rs:228-232 | after the intended adjustment, hired never exceeds capacity, the capacity agrees with rm_building, and a hired count that still fits is kept |
| EconomySpec.Deposited | src/core/src/player.rs:251-263 | deposit fails exactly when `maximum - current < amount`; otherwise current grows by `amount` and stays within the maximum |
| EconomySpec.Withdrawn | src/core/src/player.rs:266-278 | withdraw fails exactly when `current < amount`; otherwise current drops by `amount` |
| EconomySpec.DepositWithdrawRoundTrip | src/core/src/player.rs:251-278 | withdrawing what was deposited, or depositing what was withdrawn, restores the stockpile |
| EconomySpec.Hired | src/core/src/player.rs:280-299 | hire fails exactly when fewer than `amount` jobs are free; otherwise hired grows by `amount` and stays within capacity |
| EconomySpec.Fired | src/core/src/player.rs:309-328 | fire fails exactly when fewer than `amount` are hired; otherwise hired drops by `amount` and capacity is kept |
| EconomySpec.HireFireRoundTrip | src/core/src/player.rs:280-328 | firing the workers just hired, or hiring back those just fired, restores the pair |
| EconomySpec.FreeSlots | src/core/src/player.rs:153-157 | the free extractor slots summed over the tiles are non-negative |
| EconomySpec.CostCap | src/core/src/player.rs:161 | the number of buildings one cost resource pays for is at most its stock |
| EconomySpec.MinCap | src/core/src/player.rs:159-165 | the cap is at most the base and every cost cap, and equal to one of them |
| EconomySpec.MinCapUnique | src/core/src/player.rs:159-165 | the cap does not depend on the order the costs are visited in |
| EconomySpec.MaxBuildableUnbounded | src/core/src/player.rs:147-166 | a non-extractor that costs nothing gives `u32::MAX` |
| EconomySpec.MaxBuildableBounds | src/core/src/player.rs:146-167 | max_buildable is 0 when a cost resource has no stockpile; otherwise it is at most the free slots of an extractor and at most `current / qt` for each cost, and equal to one of these caps |
| EconomySpec.ReserveTakesDemand | src/core/src/player.rs:363-366 | subtracting the offered entries one by one succeeds exactly when each stockpile covers the total asked of it, and then takes exactly that total |
| EconomySpec.DuplicateEntriesPassCheck | src/core/src/player.rs:330-366 | two entries of 60 against a stock of 100 pass has_enough_for, and the subtraction then underflows |
| EconomySpec.TotalCheckGuardsReserve | src/core/src/player.rs:360-366 | the per-resource total check admits exactly the offers whose reservation cannot underflow, and implies the per-entry check |
| EconomySpec.Refunded | src/core/src/player.rs:391-394 | giving back an offer keeps every stockpile key |
| EconomySpec.RefundAddsDemand | src/core/src/player.rs:393-394 | when the totals fit under the maxima, a refund adds each resource's total back |
| EconomySpec.ReserveThenRefund | src/core/src/player.rs:393-394 | reserving an offer and then refunding it restores every stockpile that was within its maximum |
| EconomySpec.CancelKeepsReservation | src/core/src/player.rs:397-401 | an offer of 40 from a full stockpile of 100 leaves 60 after cancelling, where a refund would give back 100 |
| EconomySpec.Needed | src/core/src/player.rs:446-461 | the total need of a resource, weighted by the ratios so far, is non-negative |
| EconomySpec.ResourceRatio | src/core/src/player.rs:463-464 | the ratio derived for one resource lies in [0, 1] |
| EconomySpec.Clamp | src/core/src/player.rs:466-471 | each consumer of the resource is lowered to the smaller of its ratio and the new one, or inserted at the new one; no other ratio changes |
| EconomySpec.FreeRatios | src/core/src/player.rs:439-441 | exactly the free buildings are set, each at 1 |
| EconomySpec.Ratios | src/core/src/player.rs:431-474 | every ratio calc_ratios returns lies in [0, 1] |
| EconomySpec.StepRatio | src/core/src/player.rs:444-464 | the ratio of each pass lies in [0, 1] |
| EconomySpec.FreeBuildingsAtFullRatio | src/core/src/player.rs:439-441 | with an exact index, every free building ends at ratio 1 |
| EconomySpec.RatiosDecrease | src/core/src/player.rs:466-471 | later passes only lower a ratio, never raise or remove it |
| EconomySpec.ConsumerBelowStepRatio | src/core/src/player.rs:444-471 | a consumer ends at most at the ratio computed for every resource it is listed under |
| EconomySpec.RatiosKeys | src/core/src/player.rs:436-473 | the ratios cover exactly the free buildings and the consumers of the visited resources |
| EconomySpec.ScarcityRatio | src/core/src/player.rs:462 | the intended ratio: in [0, 1], never asks more than the stock, and 1 when the stock covers the need |
| EconomySpec.RatioInverted | src/core/src/player.rs:462-464 | need 10 against stock 6 gives ratio 1 instead of 0.6; need 5 against stock 6 gives 0 instead of 1 |
| EconomySpec.Claimed | src/core/src/player.rs:110 | the lands after building at `pos`: `pos` is among them, nothing else is added, the earlier lands keep their order, and no tile is recorded twice |
| EconomySpec.MissingEntryPanics | src/core/src/player.rs:444-464 | a resource of the dependency tree without a stockpile, or a consumer the player owns none of, makes calc_ratios panic |
| Economy.NewPlayerCannotGenerate | src/core/src/player.rs:119-143 | a player as Player::new leaves it cannot run generate once the catalog has a consumer |
| EconomySpec.OwnedNeed | src/core/src/player.rs:446-461 | the intended need, with unowned consumers needing nothing, is non-negative |
| EconomySpec.OwnedNeedAgrees | src/core/src/player.rs:446-461 | wherever calc_ratios does not panic, the intended need equals the need it computes |
| EconomySpec.OwnedRatios | src/core/src/player.rs:431-474 | the intended ratios are defined for every player, and every ratio lies in [0, 1] |
| EconomySpec.OwnedStepNeed | src/core/src/player.rs:446-461 | the intended need of one pass is non-negative |
| EconomySpec.OwnedStepRatio | src/core/src/player.rs:462-464 | the intended ratio of one pass lies in [0, 1] and never lets the consumers draw more than the stockpile holds |
| EconomySpec.MissingStockStopsConsumers | src/core/src/player.rs:462-464 | with the intended ratios, a resource the player holds none of stops the consumers that need it |
| EconomySpec.OwnedFreeAtFullRatio | src/core/src/player.rs:439-441 | with the intended ratios too, every free building ends at ratio 1 |
| EconomySpec.ApplyDelta | src/core/src/player.rs:488-489 | one tick keeps the maximum and never leaves current above it |
| EconomySpec.Applied | src/core/src/player.rs:487-490 | the stockpiles after a tick cover the old ones plus every resource of the delta map |
| EconomySpec.AppliedWithinMaximum | src/core/src/player.rs:487-489 | after a tick every touched stockpile is within its maximum, and all are if all were before |
| EconomySpec.UnderflowFillsToMaximum | src/core/src/player.rs:489 | a delta that takes a stockpile below zero wraps, so the stockpile ends full |
| EconomySpec.ClampDelta | src/core/src/player.rs:489 | the intended tick: current + delta clamped to [0, maximum] |
| EconomySpec.ClampAgreesWithoutUnderflow | src/core/src/player.rs:489 | as written and as intended agree whenever the sum neither underflows nor wraps |
| Economy.Player.constructor | src/core/src/player.rs:119-143 | a new player has empty holdings, the starting population, a dirty generator, and one building each of types 0 and 1 at the origin |
| Economy.Player.MaxBuildable | src/core/src/player.rs:146-167 | returns max_buildable's value, whose properties MaxBuildableBounds states |
| Economy.Player.CapByCosts | src/core/src/player.rs:159-166 | the cost loop, with its early return of 0, reaches max_buildable's value in any visiting order |
| Economy.Player.Build | src/core/src/player.rs:174-193 | fails with the maximum and changes nothing when `amount` exceeds max_buildable; otherwise adds the buildings, takes `amount` slots on the tile, sets the dirty flag and changes nothing else |
| Economy.Player.BuildClaiming | src/core/src/player.rs:110 | build as the comment on `lands` intends it: the same outcome and effect as build, and on success the tile is recorded once among the player's lands, so a later tile request there is not refused |
| Economy.Player.AddBuilding | src/core/src/player.rs:196-207 | total, job capacity and the count at `pos` grow by `amount`, `amount * max_workers` and `amount`; nothing else changes |
| Economy.Player.Demolish | src/core/src/player.rs:214-234 | sets the dirty flag even on failure; fails when fewer are owned; otherwise removes the buildings and frees their slots, and the stored hired count stays as it was |
| Economy.Player.RmBuilding | src/core/src/player.rs:237-248 | total, job capacity and the count at `pos` drop by `amount`, `amount * max_workers` and `amount`; hired is untouched |
| Economy.Player.Deposit | src/core/src/player.rs:251-263 | inserts the default stockpile even on failure; fails exactly when there is no room; on success adds `amount` and sets the dirty flag |
| Economy.Player.Withdraw | src/core/src/player.rs:266-278 | fails exactly when the stockpile holds less, changing nothing; otherwise takes `amount` and sets the dirty flag |
| Economy.Player.Hire | src/core/src/player.rs:280-299 | fails for an unowned type or too few free jobs, changing nothing; otherwise adds hired workers and sets the dirty flag |
| Economy.Player.Fire | src/core/src/player.rs:309-328 | fails for an unowned type or too few hired, changing nothing; otherwise releases workers and sets the dirty flag |
| Economy.Player.HasEnoughFor | src/core/src/player.rs:330-340 | true exactly when every entry, taken on its own, has a stockpile covering it |
| Economy.Player.OpenTrade | src/core/src/player.rs:359-369 | fails and changes nothing unless has_enough_for holds; otherwise reserves the offered amounts and appends the offer to the outbound ledger under `with` |
| Economy.Player.ReserveAll | src/core/src/player.rs:363-366 | the loop subtracts every offered entry in order |
| Economy.RemovedOffer | src/core/src/player.rs:375-389 | fails exactly when no equal offer is filed under `with`, leaving the offers; otherwise removes the first equal offer under `with`, keeping the order of the others, and leaves the other peers alone |
| Economy.RemoveOffer | src/core/src/player.rs:375-389 | the search loop removes the first equal offer, as RemovedOffer states |
| Economy.Player.CancelTrade | src/core/src/player.rs:397-401 | removes the offer from the outbound ledger or reports none; the stockpiles are unchanged |
| Economy.Player.AcceptTrade | src/core/src/player.rs:411-419 | fails and changes nothing unless the requested amounts are covered; otherwise removes the offer from the inbound ledger; no resources move |
| Economy.Player.CalcRatios | src/core/src/player.rs:431-474 | returns the ratios of the specification, whose properties the ratio lemmas state |
| Economy.Player.AllFree | src/core/src/player.rs:439-441 | the first loop sets every free building to 1 |
| Economy.Player.RatioPass | src/core/src/player.rs:444-472 | one pass extends the ratios of the earlier resources by the next resource's pass |
| Economy.Player.NeededBy | src/core/src/player.rs:446-461 | the inner loop sums the weighted need of the resource's consumers |
| Economy.Player.Lower | src/core/src/player.rs:466-471 | the last loop lowers each consumer to the pass's ratio |
| Economy.Player.Generate | src/core/src/player.rs:481-499 | when dirty, recomputes the ratios and installs the fresh delta map; applies the deltas in use; sets the dirty flag exactly when a drawn resource cannot cover its next draw; nothing else changes |
| Economy.Player.ApplyGenMap | src/core/src/player.rs:487-498 | the loop applies every delta, in any order, and reports whether some drawn resource falls short |
| ServerEconomy.AddEach | src/server/src/player.rs:46-54 | one inner loop leaves exactly the old keys plus the amounts' keys |
| ServerEconomy.Accumulate | src/server/src/player.rs:46-49 | the inner loop adds (or subtracts) each weighted amount to its resource's entry, creating it at 0 |
| ServerEconomy.BuildGenMap | src/server/src/player.rs:39-57 | the keys are exactly the resources the owned buildings produce or consume, and each entry is the sum over owned buildings of weighted production minus weighted consumption |
| ServerEconomy.GenOver | src/server/src/player.rs:44-55 | the map's keys are the resources touched by the buildings so far |
| ServerEconomy.GetGenOver | src/server/src/player.rs:47-53 | reading any resource gives the sum of the contributions, 0 for a resource nobody touches |
| ServerEconomy.InnerLoopsAddContribution | src/server/src/player.rs:46-54 | a building's two inner loops add its contribution to every entry |
| ServerEconomy.GenOverAddAt | src/server/src/player.rs:44-55 | one entry after one more building is the sum over one more building |
| ServerEconomy.GenOverAdd | src/server/src/player.rs:44-55 | one more building turns the map of the buildings so far into the map of one more |
| ServerEconomy.IdleBuildingAddsNothing | src/server/src/player.rs:47-53 | a building with no hired workers changes no entry; it only adds zero entries for the resources only it touches |
| ServerEconomy.GenDependsOnlyOnHired | src/server/src/player.rs:39-57 | two owned maps with the same buildings and hired counts give the same map: nothing else scales it |
| CoreGame.ActionsNeverClaimLand | src/core/src/lib.rs:242-246 | as written, a player without lands still has none after any action it dispatches, so every tile request it sends is answered with PlaceHolder |
| CoreGame.Game.constructor | src/core/src/lib.rs:106-124 | a new game has no tiles and no players over the loaded catalog and its index; the game keeps its invariant that no two players share an object and no two positions share a tile |
| CoreGame.Game.RemovePlayer | src/core/src/lib.rs:138-140 | removes only that name, a no-op when absent; the world is unchanged; the game keeps its invariant that no two players share an object and no two positions share a tile |
| CoreGame.Game.AddPlayer | src/core/src/lib.rs:143-152 | an existing name gives an error and no change; otherwise a fresh player with the starting holdings is inserted and returned, the other entries kept; the game keeps its invariant that no two players share an object and no two positions share a tile |
| CoreGame.Game.Generate | src/core/src/lib.rs:131-136 | every registered player, and no one else, has run generate once; the game keeps its invariant that no two players share an object and no two positions share a tile |
| CoreGame.Game.Dispatch | src/core/src/lib.rs:176-239 | the action fails exactly when the player operation it names fails, and the player and the tile change exactly as that operation promises (`Dispatched`) |
| CoreGame.Game.Process | src/core/src/lib.rs:164-252 | an unknown name gives Unregistered and changes nothing; a tile request outside the player's lands gives PlaceHolder and changes nothing; an action changes only that player and the tile it names, exactly as the operation it dispatches to promises (`Dispatched`: the buildings and slots of build and demolish, the stockpile of deposit and withdraw, the workers of hire and fire, the dirty flag), and its failure gives PlaceHolder and its success `Ok(None)` |
| ServerWorld.ServerGame.constructor | src/server/src/lib.rs:73-90 | the players and generators start empty and in step, with a position generator of step 0 |
| ServerWorld.ServerGame.RemovePlayer | src/server/src/lib.rs:102-105 | removes the name from both maps and keeps them in step |
| ServerWorld.ServerGame.AddPlayer | src/server/src/lib.rs:108-116 | an existing name gives an error and changes neither map; otherwise both maps gain the name and stay in step |
| ServerWorld.ServerGame.Generate | src/server/src/lib.rs:97-100 | the loop over the generators does nothing, so generate changes no state and always returns `Ok(())` |
| Positions.VertexRing | src/server/src/pos.rs:31-42 | four vertices on the axes, at distance `step`, in the order east, south, west, north |
| Positions.Refill | src/server/src/pos.rs:45-47 | the queue is refilled only when empty, and is never empty afterwards |
| Positions.TileRun | src/server/src/pos.rs:49-54 | a vertex yields `max(0, x or y)` tiles |
| Positions.RingRunLengths | src/server/src/pos.rs:31-54 | the east and north vertices yield `step` tiles, the south and west ones none |
| Positions.OriginRunDiagonal | src/server/src/pos.rs:49-54 | from the origin, a run is the diagonal (0,0) to (n-1,n-1) |
| Positions.StepZeroCannotYield | src/server/src/pos.rs:60-65 | a generator of step 0 with empty queues cannot yield: `next` panics |
| Positions.FirstRunIsDiagonal | src/server/src/pos.rs:44-65 | a fresh generator of step s > 0 first hands out the diagonal of length s |
| Positions.PosGenerator.constructor | src/server/src/pos.rs:15-22 | empty queues at the origin with the given step |
| Positions.PosGenerator.TotalPos | src/server/src/pos.rs:23-29 | returns `1 + step * (step - 1)` |
| Positions.TotalPosClosedForm | src/server/src/pos.rs:23-29 | the loop's sum has the closed form `1 + step * (step - 1)` |
| Positions.PosGenerator.NextVertices | src/server/src/pos.rs:31-42 | appends exactly the four ring vertices; step, last position and tiles unchanged |
| Positions.PosGenerator.NextTiles | src/server/src/pos.rs:44-55 | refills only when empty, consumes the first vertex, and appends its run; step and last position unchanged |
| Positions.PosGenerator.PushRun | src/server/src/pos.rs:49-54 | the loop produces the vertex's run in order |
| Positions.PosGenerator.Next | src/server/src/pos.rs:60-66 | refills the tiles only when empty and returns the front (first in, first out); step and last position unchanged |
| Timing.NextAverageBetween | src/server/src/clock.rs:34-36 | the new mean lies between the old mean and the new measurement |
| Timing.SteadyAverage | src/server/src/clock.rs:34-36 | a measurement equal to the mean keeps it |
| Timing.Clock.constructor | src/server/src/clock.rs:52-61 | a new clock has the target and no measurements |
| Timing.Clock.SetUps | src/server/src/clock.rs:16-19 | resets the measurements, then sets the target |
| Timing.Clock.Reset | src/server/src/clock.rs:25-29 | forgets the measurements and keeps the target |
| Timing.Clock.Pause | src/server/src/clock.rs:48-50 | clears only the last time |
| Timing.Clock.Tick | src/server/src/clock.rs:31-46 | counts one more update; the mean becomes the target after a reset or pause, and otherwise the running mean, between the old mean and the measurement; returns `2 * aim - average` |
| TileEvents.PySlice | src/server/tile.py:29 | Python's `s[k:]`: clamped past either end, negative indices counting from the end |
| TileEvents.Shift | src/server/tile.py:39-40 | every index drops by `offset`, the same players kept |
| TileEvents.MoveToBack | src/server/tile.py:34-35 | the name moves to the end, the others keep their relative order, and the list stays a permutation |
| TileEvents.TileLog.constructor | src/server/tile.py:3-9 | no events, no players, no order |
| TileEvents.TileLog.Register | src/server/tile.py:11-12 | appends the event and changes nothing else |
| TileEvents.TileLog.AddPlayer | src/server/tile.py:14-16 | sets the player's index to the last event and appends it to the order |
| TileEvents.TileLog.GetPlayerEvent | src/server/tile.py:18-29 | marks the last event read, runs `retrieved`, and slices the possibly compacted log after the old index |
| TileEvents.TileLog.Retrieved | src/server/tile.py:31-42 | moves the name to the back; when it was at the front, lowers every index by its index and drops that many events |
| TileEvents.TileLog.ShiftAll | src/server/tile.py:39-40 | the loop lowers every index by `offset` |
| TileEvents.CompactionKeepsIndices | src/server/tile.py:37-42 | compaction drops exactly `offset` events, and every index at or above the offset still points at the same event |
| TileEvents.FetchMarksLastRead | src/server/tile.py:18-29 | afterwards the reader points at the last event and is last in the order; a front reader leaves only that event |
| TileEvents.FrontReaderGetsAtMostLast | src/server/tile.py:24-29 | the least recent reader gets at most one event, and none once it has read any |
| TileEvents.SliceAfterCompaction | src/server/tile.py:24-29 | a reader that has read the first of three events is handed nothing; the intended fetch hands it the other two |
| TileEvents.CompactionLosesUnread | src/server/tile.py:37-42 | after one reader fetches, another reader's unread events shrink from [2, 3, 4] to [4] and its index leaves the log |
| TileEvents.MinOver | src/server/tile.py:37-42 | the smallest index of the given players, reached by one of them |
| TileEvents.Compact | src/server/tile.py:37-42 | compacting by `offset` leaves `offset` fewer events and the same players |
| TileEvents.Marked | src/server/tile.py:21-24 | marking keeps the events and sets the reader's index to the last event |
| TileEvents.FetchedCorrectedKeepsUnread | src/server/tile.py:18-42 | the intended fetch returns exactly the unread events, leaves the reader nothing unread, keeps every other player's unread events, and keeps every index in the log |
| TileEvents.CompactKeepsUnread | src/server/tile.py:37-42 | dropping only events a player has read keeps its index in the log and its unread events |
| TileEvents.IndexedKept | src/server/tile.py:11-16 | register and add_player keep every index in the log |
| Menus.Lower | src/client/src/ui.rs:45 | lower-casing keeps the length and maps each character |
| Menus.SetShort | src/client/src/ui.rs:44-51 | the first occurrence of the letter in the name as written becomes "(L)" with the rest kept; a letter found only in upper case leaves the name unchanged |
| Menus.CapitalOnlyLabelUnchanged | src/client/src/ui.rs:44-51 | "Load" with 'l' passes the check and keeps its label |
| Menus.Pick | src/client/src/ui.rs:105-115 | the letter picked is the lower-cased letter at the first position of the name whose letter is not used; there is none exactly when every letter is used |
| Menus.ShortOf | src/client/src/ui.rs:93-120 | an item's shortcut is new, occurs in its name, and is the requested letter when one is given |
| Menus.Shorts | src/client/src/ui.rs:87-126 | one shortcut per item |
| Menus.Labelled | src/client/src/ui.rs:87-126 | one labelled choice per item |
| Menus.ExtrapolateShorts | src/client/src/ui.rs:87-126 | two vectors of the input's length and order; requested shortcuts kept; each choice labelled with its shortcut |
| Menus.FirstFree | src/client/src/ui.rs:105-119 | the inner loop finds the first free lower-cased letter, or `char::default()` |
| Menus.RequestedTwicePanics | src/client/src/ui.rs:95-97 | requesting a letter an earlier item requested panics |
| Menus.MainMenuPicks | src/client/src/ui.rs:12-18 | with nothing recorded, each main menu item picks its first letter |
| Menus.MainMenuRequestsNothing | src/client/src/ui.rs:12-18 | no main menu item requests a letter, so none is recorded |
| Menus.MainMenuShortsDefined | src/client/src/ui.rs:12-18 | the main menu does not panic |
| Menus.MainMenuDuplicateShortcut | src/client/src/ui.rs:105-120 | the main menu's shortcuts are l, l, j, h, q: "load" and "lew" share 'l' |
| Menus.ShortsRecorded | src/client/src/ui.rs:99 | with every assigned letter recorded, one shortcut per item |
| Menus.RecordedShortsDistinct | src/client/src/ui.rs:92-124 | with every assigned letter recorded, no two shortcuts are equal |
| Menus.RecordedPick | src/client/src/ui.rs:105-120 | an item that requests nothing extends the recorded shortcuts by its picked letter |
| Menus.MainMenuRecorded | src/client/src/ui.rs:12-18 | with every letter recorded, "load" gets 'l' and "lew" gets 'e' |
| Menus.NextPreviousRoundTrip | src/client/src/ui.rs:128-154 | on a non-empty menu, previous undoes next and next undoes previous |
| Menus.SelectionInRange | src/client/src/ui.rs:128-154 | on a non-empty menu, next always selects a choice in range, and so does previous from a valid selection |
| Menus.Menu.constructor | src/client/src/ui.rs:63-72 | the labelled choices and their shortcuts, nothing selected |
| Menus.Menu.Next | src/client/src/ui.rs:128-140 | None and the last index go to 0, any other index to the next |
| Menus.Menu.Previous | src/client/src/ui.rs:142-154 | None goes to 0, 0 to the last index, any other index to the previous |
| Menus.Menu.Unselect | src/client/src/ui.rs:156-158 | the selection becomes None and nothing else changes |

## Left out

- `make_gen_map` (src/core/src/player.rs:521-543) is not modelled. It computes with `f32` ratios and truncating `as i32` casts. Its output is a parameter of `Economy.Player.Generate` and `CoreGame.Game.Generate`.
- Ratios are `real`, not `f32`. Rounding, NaN and infinities are not modelled.
- The division by zero in calc_ratios (a stock of 0) is a precondition (`StepDefined`).
- `Economy.Player.Generate` and `CoreGame.Game.Generate` require every ratio pass to be defined (`RatiosDefined`). calc_ratios unwraps a stockpile for every resource of the dependency tree and an owned entry for every consumer in the catalog, so it panics for most players, including a new one. This is listed under "Findings"; the model of the code as written keeps the panic as a precondition.
- The `println!` in calc_ratios is left out, since it is output only.
- `Economy.Player.MaxBuildable` takes the slot tables of the tiles, not the tiles. The tile's resource amounts and player list are never read by the economy.
- The core library's tile module is not part of this model. `Tiles.Tile` follows the server's tile and keeps only its slot table.
- `Trade.Ledger` is modelled as two maps of offers, inbound and outbound. Its definition is not part of this model; the player's use of it fixes this shape.
- `CoreGame.Game.constructor` takes no tile count.
  - `Game::new` fills the world from a position generator of step 0. That generator cannot yield a position (`Positions.StepZeroCannotYield`), so only a count of 0 returns.
  - `ServerWorld.ServerGame.constructor` requires that count to be 0 for the same reason.
- Loading the catalog and resources, saving and loading a game, and serde are I/O and are not modelled. The server's `load` starts with an empty generator map, which breaks the players/generators invariant.
- `Game::run`, the socket servers, threads, sleeping and terminal drawing are left out.
- `Game::update` only calls generate, and `generate` is modelled.
- The paths that end in `todo!` or `unimplemented!` are left out, since they have no behaviour: `Game::get_tile`, `Action::Trade`, `World::Tile`, and the server's `update`. The server's `generate` is not one of them: it loops over the generators with an empty body and returns `Ok(())`, which `ServerWorld.ServerGame.Generate` models as a method that changes nothing.
  - `process` matches `Event::Player`, while the event type in src/core/src/response.rs names that variant `Action`. The model uses `Action`.
  - `CoreGame.Game.Process` requires the event not to reach these paths.
- `CoreGame.Game.Dispatch` calls build as written. The corrected `Economy.Player.BuildClaiming` is listed under "Findings" and not dispatched, so, as in the source, a tile request never reaches get_tile.
- `CoreGame.Game.Generate`: the delta map each player's generate builds is supplied per player, since make_gen_map is not modelled.
- The server `Player::new` and `Generator::new` are not part of this model. `ServerWorld.ServerGame.AddPlayer` takes their values as parameters.
- `ServerEconomy.BuildGenMap` does not model the `i32` overflow of `+=` and `-=` on an entry. Entries are unbounded integers. Each weighted amount is still cast with its `as i32` wrap-around.
- The server keys its player's buildings and resources by `String`, but indexes the catalog by `u8`. The model keys all of them by the `u8` identifiers.
- `Timing.Clock.SetUps` takes the target duration in nanoseconds. The `f64` conversion from updates per second is left out, and so is `get_ups`. The elapsed time and the current instant of `tick` are parameters.
- `Timing.Clock.Tick` requires the `u64` conversion of the delay to succeed, as the `expect` demands.
- `TileEvents.TileLog`: the tile's `data` dictionary is never read or written by the log and is left out. The Python methods are `async` but never await, so they are modelled as sequential methods.
- `TileEvents.TileLog.GetPlayerEvent` requires the name to be in the retrieval order as well, since `list.index` raises otherwise.
- `Menus.SetShort` is modelled on values: it returns the relabelled choice, where the source rewrites the name in place.
- `Menus.Menu`: rendering (`draw_main_menu`, `new_list`) is left out. The list state is modelled by its selection only.
- `Positions.PosGenerator.PushRun` builds the run and then appends it. The source pushes each tile onto the queue directly; the queue ends the same.
- `Menus.MainMenuRecorded` states the recorded shortcuts of the first two main menu items only, the two that collide as written. `Menus.RecordedShortsDistinct` covers any menu.
- `Economy.Player.Generate` and `CoreGame.Game.Generate` state their effect through the two-state predicate `Economy.Generated`. The properties of the applied stockpiles are lemmas about `EconomySpec.Applied`.

## Findings

| source | as written | input that shows it | evidently intended | confidence | as-written member | corrected member |
|---|---|---|---|---|---|---|
| src/core/src/player.rs:228-232 | the worker adjustment is done on a copy that is dropped, and its arithmetic underflows for ordinary inputs | one building with five jobs and nobody hired, demolish one: `0 - (5 - 0)` | hired reduced to at most the new capacity in the stored entry | not executed | EconomySpec.DemolishCopyUnderflows | EconomySpec.ReconciledKeepsHiredWithinCapacity |
| src/core/src/player.rs:397-401 | cancel_trade only removes the ledger entry, although its comment promises the reserved resources come back | stockpile 100 of 100, offer 40, open then cancel: 60 left | the reserved amounts are refunded | not executed | EconomySpec.CancelKeepsReservation | EconomySpec.ReserveThenRefund |
| src/core/src/player.rs:360-366 | has_enough_for checks each entry on its own, so repeated resources pass and the subtraction underflows | stock 100, offering two entries of 60 for the same resource | check the total asked of each resource | not executed | EconomySpec.DuplicateEntriesPassCheck | EconomySpec.TotalCheckGuardsReserve |
| src/core/src/player.rs:110 | `lands` is documented as every tile the player has built on, but nothing writes it: new sets it empty and build/add_building never record the tile, so get_tile is unreachable | a new player builds at (0, 0), then requests the tile at (0, 0): PlaceHolder | build records its tile in `lands` | not executed | CoreGame.ActionsNeverClaimLand | Economy.Player.BuildClaiming |
| src/core/src/player.rs:462-464 | the ratio is `needed / current`, truncated, the inverse of the comment | need 10, stock 6: ratio 1; need 5, stock 6: ratio 0 | `current / needed`, at most 1 | not executed | EconomySpec.RatioInverted | EconomySpec.ScarcityRatio |
| src/core/src/player.rs:489 | an underflowing stockpile wraps and `min(maximum)` then fills it | stock 3 of 100, delta -5: ends at 100 | clamp at 0 | not executed | EconomySpec.UnderflowFillsToMaximum | EconomySpec.ClampDelta |
| src/server/tile.py:24-29 | get_player_event slices the log after `retrieved` has compacted it | one reader at index 0 of three events: gets nothing | the events after the old index, sliced before compaction | not executed | TileEvents.SliceAfterCompaction | TileEvents.FetchedCorrectedKeepsUnread |
| src/server/tile.py:37-42 | compaction drops events up to the reader's new index, including events others have not read | readers at 0 and 1 of five events; the first fetches: the second loses two unread events | drop only events every player has read | not executed | TileEvents.CompactionLosesUnread | TileEvents.FetchedCorrectedKeepsUnread |
| src/client/src/ui.rs:105-120 | picked letters are not recorded in `used_chars`, so later items can pick them again | the main menu: "load" and "lew" both get 'l' | record every assigned letter | not executed | Menus.MainMenuDuplicateShortcut | Menus.RecordedShortsDistinct |
| src/core/src/player.rs:444-464 | calc_ratios unwraps the player's stockpile of every consumed resource and the player's entry for every consumer type in the catalog | a new player (no stockpiles, only types 0 and 1) with a catalog that has any consumer: the first generate panics | unowned consumers need nothing and a missing stockpile holds nothing | not executed | Economy.NewPlayerCannotGenerate | EconomySpec.OwnedRatios |
