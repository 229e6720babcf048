/** Values and specification functions of a player's economy
    (src/core/src/player.rs): stockpiles, owned buildings, the generation
    cache, and the pure functions the operations of `Economy.Player` are
    proved against. */
module EconomySpec {
  import opened Ints
  import opened Results
  import opened Buildings
  import opened Tiles
  import opened Trade
  import opened Seqs

  /** A player's holding of one resource. */
  datatype Stockpile = Stockpile(current: u32, maximum: u32)

  /** Stockpile::new, also used by `entry(..).or_default()`. */
  const DefaultStockpile := Stockpile(0, 100)

  /** What a player owns of one building type: how many, the workers as
      (hired, capacity), and how many stand on each position. */
  datatype OwnedBuilding = OwnedBuilding(total: u32, workers: (u32, u32), tiles: map<Position, u32>)

  const DefaultOwned := OwnedBuilding(0, (0, 0), map[])

  datatype Population = Population(idle: u32, total: u32, maximum: u32)

  /** Population::new. */
  const StartingPopulation := Population(5, 5, 10)

  /** Net change per tick of each resource. */
  type GenMap = map<ResourceId, i32>

  /** The generation cache: a dirty flag, the cached deltas and the cached
      efficiency ratios (f32 in the source, `real` here). */
  datatype Generator = Generator(needsUpdate: bool, genMap: GenMap, ratios: map<BuildingId, real>)

  /** Generator::new: empty and dirty. */
  const NewGenerator := Generator(true, map[], map[])

  datatype EconomyError =
    | TooManyToBuild(maximum: u32)
    | NotEnoughOwned
    | StockpileFull
    | NotEnoughStock
    | NotEnoughJobs
    | NotEnoughEmployees
    | BuildingNotOwned
    | CannotAffordOffer
    | NoSuchTrade
    | CannotFulfilOffer

  type Outcome = Result<(), EconomyError>

  function StockOf(resources: map<ResourceId, Stockpile>, id: ResourceId): Stockpile
  {
    if id in resources then resources[id] else DefaultStockpile
  }

  function OwnedOf(buildings: map<BuildingId, OwnedBuilding>, id: BuildingId): OwnedBuilding
  {
    if id in buildings then buildings[id] else DefaultOwned
  }

  function PlacedAt(tiles: map<Position, u32>, pos: Position): u32
  {
    if pos in tiles then tiles[pos] else 0
  }

  // ---------------------------------------------------------------------
  // add_building / rm_building

  /** The jobs `amount` buildings with `maxWorkers` jobs each provide. */
  function Jobs(amount: u32, maxWorkers: u32): (j: nat)
    ensures amount == 0 || maxWorkers == 0 ==> j == 0
  {
    amount * maxWorkers
  }

  /** add_building does not overflow a u32 counter. */
  predicate CanAdd(ob: OwnedBuilding, pos: Position, amount: u32, maxWorkers: u32)
  {
    && ob.total + amount <= U32_MAX
    && Jobs(amount, maxWorkers) <= U32_MAX
    && ob.workers.1 + Jobs(amount, maxWorkers) <= U32_MAX
    && PlacedAt(ob.tiles, pos) + amount <= U32_MAX
  }

  /** The entry after add_building: `amount` more, `amount * max_workers`
      more jobs, `amount` more at `pos`. */
  function Added(ob: OwnedBuilding, pos: Position, amount: u32, maxWorkers: u32): OwnedBuilding
    requires CanAdd(ob, pos, amount, maxWorkers)
  {
    OwnedBuilding(ob.total + amount, (ob.workers.0, ob.workers.1 + Jobs(amount, maxWorkers)),
                  ob.tiles[pos := PlacedAt(ob.tiles, pos) + amount])
  }

  /** rm_building does not underflow a u32 counter nor unwrap a missing position. */
  predicate CanRemove(ob: OwnedBuilding, pos: Position, amount: u32, maxWorkers: u32)
  {
    && ob.total >= amount
    && Jobs(amount, maxWorkers) <= U32_MAX
    && ob.workers.1 >= Jobs(amount, maxWorkers)
    && pos in ob.tiles && ob.tiles[pos] >= amount
  }

  /** The entry after rm_building. The hired count is left alone. */
  function Removed(ob: OwnedBuilding, pos: Position, amount: u32, maxWorkers: u32): OwnedBuilding
    requires CanRemove(ob, pos, amount, maxWorkers)
  {
    OwnedBuilding(ob.total - amount, (ob.workers.0, ob.workers.1 - Jobs(amount, maxWorkers)),
                  ob.tiles[pos := ob.tiles[pos] - amount])
  }

  /** Building then demolishing the same amount at the same position gives
      back the count, the workers and the count at that position. */
  lemma BuildDemolishConservation(ob: OwnedBuilding, pos: Position, amount: u32, maxWorkers: u32)
    requires CanAdd(ob, pos, amount, maxWorkers)
    ensures CanRemove(Added(ob, pos, amount, maxWorkers), pos, amount, maxWorkers)
    ensures var back := Removed(Added(ob, pos, amount, maxWorkers), pos, amount, maxWorkers);
            back.total == ob.total && back.workers == ob.workers
            && PlacedAt(back.tiles, pos) == PlacedAt(ob.tiles, pos)
            && forall p :: p != pos ==> PlacedAt(back.tiles, p) == PlacedAt(ob.tiles, p)
  {
  }

  /** The worker arithmetic demolish performs on its copy of the
      (hired, capacity) pair, already reduced by rm_building, stays within
      u32: `hired -= k - (capacity - hired)` then `capacity -= k`. */
  predicate CopyAdjustDefined(workers: (u32, u32), k: int)
  {
    && workers.1 >= workers.0
    && k >= workers.1 - workers.0
    && workers.0 >= k - (workers.1 - workers.0)
    && workers.1 >= k
  }

  /** The pair demolish computes on its copy, which is then dropped. */
  function CopyAdjusted(workers: (u32, u32), k: int): (u32, u32)
    requires CopyAdjustDefined(workers, k)
  {
    (workers.0 - (k - (workers.1 - workers.0)), workers.1 - k)
  }

  /** Demolishing one building of a type with five jobs and nobody hired
      already takes the copy arithmetic below zero: after rm_building the
      pair is (0, 0) and `0 - (5 - 0)` underflows. */
  lemma DemolishCopyUnderflows()
    ensures var ob := OwnedBuilding(1, (0, 5), map[Origin := 1]);
            && CanRemove(ob, Origin, 1, 5)
            && !CopyAdjustDefined(Removed(ob, Origin, 1, 5).workers, 5)
  {
  }

  /** What the workers of a building type should be after demolishing
      `amount` buildings with `maxWorkers` jobs each: capacity drops by
      the jobs removed, and hired workers are released only down to the
      new capacity. */
  function Reconciled(workers: (u32, u32), amount: u32, maxWorkers: u32): (w: (u32, u32))
    requires Jobs(amount, maxWorkers) <= workers.1
    ensures w.1 == workers.1 - Jobs(amount, maxWorkers)
    ensures w.0 <= w.1 && w.0 <= workers.0
    ensures w.0 == workers.0 || w.0 == w.1
  {
    var capacity := workers.1 - Jobs(amount, maxWorkers);
    (Min(workers.0, capacity), capacity)
  }

  /** With the reconciliation, hired workers never exceed capacity after a
      demolish, whatever was hired before. */
  lemma ReconciledKeepsHiredWithinCapacity(ob: OwnedBuilding, pos: Position, amount: u32, maxWorkers: u32)
    requires CanRemove(ob, pos, amount, maxWorkers)
    ensures var w := Reconciled(ob.workers, amount, maxWorkers);
            w.0 <= w.1 && w.1 == Removed(ob, pos, amount, maxWorkers).workers.1
            && (ob.workers.0 <= w.1 ==> w.0 == ob.workers.0)
  {
  }

  /** The entry that demolishing leaves when the hired count exceeds the
      remaining capacity: with five hired in one building of five jobs,
      rm_building leaves five hired and no jobs, and the copy arithmetic
      `5 - 0` then `0 - 5` cannot bring them back in line. */
  lemma DemolishKeepsHiredAboveCapacity()
    ensures var ob := OwnedBuilding(1, (5, 5), map[Origin := 1]);
            && CanRemove(ob, Origin, 1, 5)
            && Removed(ob, Origin, 1, 5).workers == (5, 0)
            && !CopyAdjustDefined(Removed(ob, Origin, 1, 5).workers, 5)
            && Reconciled(ob.workers, 1, 5) == (0, 0)
  {
  }

  // ---------------------------------------------------------------------
  // deposit / withdraw / hire / fire

  /** A stockpile after depositing `amount`, None when it has no room. */
  function Deposited(s: Stockpile, amount: u32): (r: Option<Stockpile>)
    requires s.current <= s.maximum
    ensures r.None? <==> s.maximum - s.current < amount
    ensures r.Some? ==> r.value.maximum == s.maximum && r.value.current <= r.value.maximum
                        && r.value.current - amount == s.current
  {
    if s.maximum - s.current < amount then None else Some(s.(current := s.current + amount))
  }

  /** A stockpile after withdrawing `amount`, None when it holds less. */
  function Withdrawn(s: Stockpile, amount: u32): (r: Option<Stockpile>)
    ensures r.None? <==> s.current < amount
    ensures r.Some? ==> r.value.maximum == s.maximum && r.value.current + amount == s.current
  {
    if s.current < amount then None else Some(s.(current := s.current - amount))
  }

  /** Withdrawing what was just deposited gives the stockpile back, and so
      does depositing what was just withdrawn from a stockpile within its
      maximum. */
  lemma DepositWithdrawRoundTrip(s: Stockpile, amount: u32)
    requires s.current <= s.maximum
    ensures Deposited(s, amount).Some? ==> Withdrawn(Deposited(s, amount).value, amount) == Some(s)
    ensures Withdrawn(s, amount).Some? ==> Deposited(Withdrawn(s, amount).value, amount) == Some(s)
  {
  }

  /** The (hired, capacity) pair after hiring `amount`, None when there are
      not enough free jobs. */
  function Hired(workers: (u32, u32), amount: u32): (r: Option<(u32, u32)>)
    requires workers.0 <= workers.1
    ensures r.None? <==> workers.1 - workers.0 < amount
    ensures r.Some? ==> r.value.1 == workers.1 && r.value.0 - amount == workers.0 && r.value.0 <= r.value.1
  {
    if workers.1 - workers.0 < amount then None else Some((workers.0 + amount, workers.1))
  }

  /** The pair after firing `amount`, None when fewer are hired. */
  function Fired(workers: (u32, u32), amount: u32): (r: Option<(u32, u32)>)
    ensures r.None? <==> workers.0 < amount
    ensures r.Some? ==> r.value.1 == workers.1 && r.value.0 + amount == workers.0
    ensures r.Some? && workers.0 <= workers.1 ==> r.value.0 <= r.value.1
  {
    if workers.0 < amount then None else Some((workers.0 - amount, workers.1))
  }

  /** Firing the workers just hired restores the pair, and hiring back the
      workers just fired restores it too. */
  lemma HireFireRoundTrip(workers: (u32, u32), amount: u32)
    requires workers.0 <= workers.1
    ensures Hired(workers, amount).Some? ==> Fired(Hired(workers, amount).value, amount) == Some(workers)
    ensures Fired(workers, amount).Some? ==> Hired(Fired(workers, amount).value, amount) == Some(workers)
  {
  }

  // ---------------------------------------------------------------------
  // max_buildable

  /** Every tile that has a slot entry for `id` has no more used than total
      (otherwise `total - used` underflows). */
  predicate SlotsSane(slots: seq<map<BuildingId, Slots>>, id: BuildingId)
  {
    forall i :: 0 <= i < |slots| && id in slots[i] ==> slots[i][id].used <= slots[i][id].total
  }

  /** The free slots for `id`, summed over the given tiles. */
  function FreeSlots(slots: seq<map<BuildingId, Slots>>, id: BuildingId): (n: int)
    requires SlotsSane(slots, id)
    ensures n >= 0
  {
    if slots == [] then 0
    else
      var last := slots[|slots| - 1];
      FreeSlots(slots[..|slots| - 1], id) + (if id in last then last[id].total - last[id].used else 0)
  }

  /** The cap before construction costs: the free slots of an extractor, or
      `u32::MAX`. */
  function BaseCap(slots: seq<map<BuildingId, Slots>>, id: BuildingId, building: Building): int
    requires building.extractor ==> SlotsSane(slots, id)
  {
    if building.extractor then FreeSlots(slots, id) else U32_MAX
  }

  /** Every construction cost is positive (a zero cost divides by zero). */
  predicate CostsPositive(building: Building)
  {
    forall c :: c in building.constructionCost ==> building.constructionCost[c] > 0
  }

  /** How many buildings the stockpile of cost resource `c` pays for. */
  function CostCap(resources: map<ResourceId, Stockpile>, building: Building, c: ResourceId): (cap: u32)
    requires CostsPositive(building)
    requires c in resources && c in building.constructionCost
    ensures cap <= resources[c].current
  {
    DivAtMost(resources[c].current, building.constructionCost[c]);
    resources[c].current / building.constructionCost[c]
  }

  /** The smallest of `base` and the caps of the cost resources in `keys`. */
  ghost function MinCap(base: int, keys: set<ResourceId>, resources: map<ResourceId, Stockpile>, building: Building): (m: int)
    requires CostsPositive(building)
    requires keys <= resources.Keys && keys <= building.constructionCost.Keys
    ensures m <= base && forall c :: c in keys ==> m <= CostCap(resources, building, c)
    ensures m == base || exists c :: c in keys && m == CostCap(resources, building, c)
    decreases keys
  {
    if keys == {} then base
    else
      var c :| c in keys;
      var rest := MinCap(base, keys - {c}, resources, building);
      assert forall x :: x in keys ==> x == c || x in keys - {c};
      Min(CostCap(resources, building, c), rest)
  }

  /** A cost resource the player has no stockpile for. */
  predicate MissingCost(resources: map<ResourceId, Stockpile>, building: Building)
  {
    exists c :: c in building.constructionCost && c !in resources
  }

  /** The value max_buildable returns. */
  ghost function MaxBuildableOf(resources: map<ResourceId, Stockpile>, slots: seq<map<BuildingId, Slots>>,
                                id: BuildingId, building: Building): int
    requires (building.extractor ==> SlotsSane(slots, id)) && CostsPositive(building)
  {
    if MissingCost(resources, building) then 0
    else MinCap(BaseCap(slots, id, building), building.constructionCost.Keys, resources, building)
  }

  /** max_buildable returns `u32::MAX` for a non-extractor that costs nothing. */
  lemma MaxBuildableUnbounded(resources: map<ResourceId, Stockpile>, slots: seq<map<BuildingId, Slots>>,
                              id: BuildingId, building: Building)
    requires (building.extractor ==> SlotsSane(slots, id)) && CostsPositive(building)
    requires !building.extractor && building.constructionCost == map[]
    ensures MaxBuildableOf(resources, slots, id, building) == U32_MAX
  {
    assert building.constructionCost.Keys == {};
  }

  /** max_buildable is 0 when a cost resource has no stockpile, and otherwise
      never more than the free slots of an extractor nor `current / qt` for
      any cost entry, and equal to one of these caps. */
  lemma MaxBuildableBounds(resources: map<ResourceId, Stockpile>, slots: seq<map<BuildingId, Slots>>,
                           id: BuildingId, building: Building)
    requires (building.extractor ==> SlotsSane(slots, id)) && CostsPositive(building)
    ensures var m := MaxBuildableOf(resources, slots, id, building);
            && (MissingCost(resources, building) ==> m == 0)
            && (building.extractor ==> m <= FreeSlots(slots, id))
            && (forall c :: c in building.constructionCost && c in resources
                  ==> m <= resources[c].current / building.constructionCost[c])
            && (!MissingCost(resources, building) ==>
                  m == BaseCap(slots, id, building)
                  || exists c :: c in building.constructionCost && m == resources[c].current / building.constructionCost[c])
  {
    if !MissingCost(resources, building) {
      var m := MaxBuildableOf(resources, slots, id, building);
      forall c | c in building.constructionCost && c in resources
        ensures m <= resources[c].current / building.constructionCost[c]
      {
        assert m <= CostCap(resources, building, c);
      }
    }
  }

  /** The minimum is the one value that is at most every cap and equal to
      one of them, whatever order the caps are visited in. */
  lemma MinCapUnique(x: int, base: int, keys: set<ResourceId>, resources: map<ResourceId, Stockpile>, building: Building)
    requires CostsPositive(building)
    requires keys <= resources.Keys && keys <= building.constructionCost.Keys
    requires x <= base && forall c :: c in keys ==> x <= CostCap(resources, building, c)
    requires x == base || exists c :: c in keys && x == CostCap(resources, building, c)
    ensures x == MinCap(base, keys, resources, building)
  {
    var m := MinCap(base, keys, resources, building);
    if m != base {
      var c :| c in keys && m == CostCap(resources, building, c);
      assert x <= m;
    }
    if x != base {
      var c :| c in keys && x == CostCap(resources, building, c);
      assert m <= x;
    }
  }

  /** The free slots of a prefix of the tiles are at most those of all tiles. */
  lemma {:induction false} FreeSlotsPrefix(slots: seq<map<BuildingId, Slots>>, id: BuildingId, i: nat)
    requires SlotsSane(slots, id) && i <= |slots|
    ensures SlotsSane(slots[..i], id) && FreeSlots(slots[..i], id) <= FreeSlots(slots, id)
    decreases |slots| - i
  {
    if i < |slots| {
      var init := slots[..|slots| - 1];
      assert forall j :: 0 <= j < |init| ==> init[j] == slots[j];
      assert init[..i] == slots[..i];
      FreeSlotsPrefix(init, id, i);
    } else {
      assert slots[..i] == slots;
    }
  }

  // ---------------------------------------------------------------------
  // trades

  /** has_enough_for: every entry, taken on its own, is covered by a stockpile. */
  predicate HasEnoughFor(resources: map<ResourceId, Stockpile>, entries: seq<ResourceEntry>)
  {
    forall i :: 0 <= i < |entries| ==>
      entries[i].id in resources && resources[entries[i].id].current >= entries[i].amount
  }

  /** The stockpiles after subtracting each entry in turn, as open_trade
      does; None when a subtraction would go below zero (a panic). */
  function Reserve(resources: map<ResourceId, Stockpile>, entries: seq<ResourceEntry>): Option<map<ResourceId, Stockpile>>
  {
    if entries == [] then Some(resources)
    else
      match Reserve(resources, entries[..|entries| - 1])
      case None => None
      case Some(prev) =>
        var e := entries[|entries| - 1];
        if e.id in prev && prev[e.id].current >= e.amount
        then Some(prev[e.id := prev[e.id].(current := prev[e.id].current - e.amount)])
        else None
  }

  /** The total amount the entries ask of resource `id`. */
  function Demand(entries: seq<ResourceEntry>, id: ResourceId): nat
  {
    if entries == [] then 0
    else Demand(entries[..|entries| - 1], id) + (if entries[|entries| - 1].id == id then entries[|entries| - 1].amount else 0)
  }

  /** The check open_trade evidently intends: every stockpile covers the
      total the entries ask of it. */
  predicate HasEnoughForTotal(resources: map<ResourceId, Stockpile>, entries: seq<ResourceEntry>)
  {
    forall i :: 0 <= i < |entries| ==>
      entries[i].id in resources && Demand(entries, entries[i].id) <= resources[entries[i].id].current
  }

  /** Subtracting the entries one by one succeeds exactly when every
      stockpile covers the total asked of it, and then takes that total
      from each stockpile and nothing else. */
  lemma {:induction false} ReserveTakesDemand(resources: map<ResourceId, Stockpile>, entries: seq<ResourceEntry>)
    ensures Reserve(resources, entries).Some? <==> HasEnoughForTotal(resources, entries)
    ensures Reserve(resources, entries).Some? ==>
            var after := Reserve(resources, entries).value;
            after.Keys == resources.Keys
            && forall id :: id in resources ==>
                 after[id].current + Demand(entries, id) == resources[id].current
                 && after[id].maximum == resources[id].maximum
  {
    if entries != [] {
      var init := entries[..|entries| - 1];
      var e := entries[|entries| - 1];
      ReserveTakesDemand(resources, init);
      assert forall i :: 0 <= i < |init| ==> init[i] == entries[i];
      if HasEnoughForTotal(resources, entries) {
        forall i | 0 <= i < |init|
          ensures init[i].id in resources && Demand(init, init[i].id) <= resources[init[i].id].current
        {
          assert entries[i] == init[i];
        }
        assert entries[|entries| - 1] == e;
      }
      if HasEnoughForTotal(resources, init) && e.id in resources && Demand(entries, e.id) <= resources[e.id].current {
        forall i | 0 <= i < |entries|
          ensures entries[i].id in resources && Demand(entries, entries[i].id) <= resources[entries[i].id].current
        {
          if i < |init| {
            assert entries[i] == init[i];
          }
        }
      }
    }
  }

  /** The check open_trade makes does not guard the subtraction it then
      does: two entries for one resource, each covered on its own, ask for
      more than the stockpile holds. */
  lemma DuplicateEntriesPassCheck()
    ensures var resources := map[0 := Stockpile(100, 100)];
            var offering := [ResourceEntry(0, 60), ResourceEntry(0, 60)];
            HasEnoughFor(resources, offering) && Reserve(resources, offering).None?
  {
    var resources := map[0 := Stockpile(100, 100)];
    var offering := [ResourceEntry(0, 60), ResourceEntry(0, 60)];
    assert offering[..1] == [ResourceEntry(0, 60)];
    assert offering[..1][..0] == [];
  }

  /** The total check admits exactly the offers whose reservation cannot
      underflow, and implies the per-entry check. */
  lemma TotalCheckGuardsReserve(resources: map<ResourceId, Stockpile>, entries: seq<ResourceEntry>)
    ensures HasEnoughForTotal(resources, entries) <==> Reserve(resources, entries).Some?
    ensures HasEnoughForTotal(resources, entries) ==> HasEnoughFor(resources, entries)
  {
    ReserveTakesDemand(resources, entries);
    if HasEnoughForTotal(resources, entries) {
      forall i | 0 <= i < |entries|
        ensures resources[entries[i].id].current >= entries[i].amount
      {
        DemandCoversEntry(entries, i);
      }
    }
  }

  /** Helper: an entry's amount is part of its resource's demand. */
  lemma {:induction false} DemandCoversEntry(entries: seq<ResourceEntry>, i: nat)
    requires i < |entries|
    ensures Demand(entries, entries[i].id) >= entries[i].amount
  {
    if i < |entries| - 1 {
      DemandCoversEntry(entries[..|entries| - 1], i);
    }
  }

  /** Every prefix of a reservation that succeeds succeeds as well. */
  lemma {:induction false} ReservePrefix(resources: map<ResourceId, Stockpile>, entries: seq<ResourceEntry>, i: nat)
    requires i <= |entries| && Reserve(resources, entries).Some?
    ensures Reserve(resources, entries[..i]).Some?
    decreases |entries| - i
  {
    if i < |entries| {
      var init := entries[..|entries| - 1];
      assert init[..i] == entries[..i];
      ReservePrefix(resources, init, i);
    } else {
      assert entries[..i] == entries;
    }
  }

  /** The stockpiles after giving each entry back, as cancel_trade's
      documentation describes: the amounts return to their stockpiles and
      whatever exceeds the maximum is disposed of. */
  function Refunded(resources: map<ResourceId, Stockpile>, entries: seq<ResourceEntry>): (after: map<ResourceId, Stockpile>)
    ensures after.Keys == resources.Keys
  {
    if entries == [] then resources
    else
      var prev := Refunded(resources, entries[..|entries| - 1]);
      var e := entries[|entries| - 1];
      if e.id in prev
      then prev[e.id := prev[e.id].(current := Min(prev[e.id].current + e.amount, prev[e.id].maximum))]
      else prev
  }

  /** Giving back entries whose totals fit under the maxima adds each total
      to its stockpile. */
  lemma {:induction false} RefundAddsDemand(resources: map<ResourceId, Stockpile>, entries: seq<ResourceEntry>)
    requires forall id :: id in resources ==> resources[id].current + Demand(entries, id) <= resources[id].maximum
    ensures forall id :: id in resources ==>
              Refunded(resources, entries)[id] == resources[id].(current := resources[id].current + Demand(entries, id))
  {
    if entries != [] {
      var init := entries[..|entries| - 1];
      RefundAddsDemand(resources, init);
    }
  }

  /** Opening a trade and then refunding its offering restores every
      stockpile that was within its maximum. */
  lemma ReserveThenRefund(resources: map<ResourceId, Stockpile>, entries: seq<ResourceEntry>)
    requires forall id :: id in resources ==> resources[id].current <= resources[id].maximum
    requires Reserve(resources, entries).Some?
    ensures Refunded(Reserve(resources, entries).value, entries) == resources
  {
    ReserveTakesDemand(resources, entries);
    var after := Reserve(resources, entries).value;
    RefundAddsDemand(after, entries);
  }

  /** Cancelling as written keeps the reservation: an offer of 40 from a
      full stockpile of 100 leaves 60 after cancelling, where a refund
      gives back 100. */
  lemma CancelKeepsReservation()
    ensures var resources := map[0 := Stockpile(100, 100)];
            var offering := [ResourceEntry(0, 40)];
            && Reserve(resources, offering) == Some(map[0 := Stockpile(60, 100)])
            && Refunded(map[0 := Stockpile(60, 100)], offering) == resources
  {
    var resources := map[0 := Stockpile(100, 100)];
    var reserved := map[0 := Stockpile(60, 100)];
    var offering := [ResourceEntry(0, 40)];
    assert offering[..0] == [];
    assert resources[0 := Stockpile(60, 100)] == reserved;
    assert reserved[0 := Stockpile(100, 100)] == resources;
  }

  // ---------------------------------------------------------------------
  // calc_ratios

  /** The ratio already assigned to `b`, 1 when none is. */
  function RatioOr(ratios: map<BuildingId, real>, b: BuildingId): real
  {
    if b in ratios then ratios[b] else 1.0
  }

  predicate InUnitInterval(ratios: map<BuildingId, real>)
  {
    forall b :: b in ratios ==> 0.0 <= ratios[b] <= 1.0
  }

  /** The lookups of one resource's pass that unwrap (the catalog entry, its
      consumption of `r`, the player's entry) succeed, the u32 product does
      not overflow, and the stockpile divides without a zero divisor. */
  predicate StepDefined(r: ResourceId, deps: seq<BuildingId>, catalog: AllBuildings,
                        buildings: map<BuildingId, OwnedBuilding>, resources: map<ResourceId, Stockpile>)
  {
    && r in resources && resources[r].current > 0
    && forall j :: 0 <= j < |deps| ==>
         && deps[j] in catalog && r in catalog[deps[j]].consumed && deps[j] in buildings
         && catalog[deps[j]].consumed[r] * buildings[deps[j]].workers.0 <= U32_MAX
  }

  /** The amount of `r` the consumers `deps` need at the ratios so far. */
  function Needed(r: ResourceId, deps: seq<BuildingId>, ratios: map<BuildingId, real>, catalog: AllBuildings,
                  buildings: map<BuildingId, OwnedBuilding>, resources: map<ResourceId, Stockpile>): (n: real)
    requires StepDefined(r, deps, catalog, buildings, resources) && InUnitInterval(ratios)
    ensures n >= 0.0
  {
    if deps == [] then 0.0
    else
      var b := deps[|deps| - 1];
      var demand := (catalog[b].consumed[r] * buildings[b].workers.0) as real;
      assert 0.0 <= RatioOr(ratios, b);
      DemandNonNegative(catalog[b].consumed[r], buildings[b].workers.0, RatioOr(ratios, b));
      Needed(r, deps[..|deps| - 1], ratios, catalog, buildings, resources) + demand * RatioOr(ratios, b)
  }

  /** A weighted demand at a non-negative ratio is non-negative. */
  lemma DemandNonNegative(amount: nat, hired: nat, ratio: real)
    requires 0.0 <= ratio
    ensures (amount * hired) as real * ratio >= 0.0
  {
    assert amount * hired >= 0;
  }

  /** The ratio calc_ratios derives for one resource:
      `1.0.min((needed as u32 / current) as f32)`. */
  function ResourceRatio(needed: real, current: u32): (q: real)
    requires needed >= 0.0 && current > 0
    ensures 0.0 <= q <= 1.0
  {
    MinReal(1.0, (RealAsU32(needed) / current) as real)
  }

  /** The ratio of `b` once lowered to `ratio`: the smaller of the two, or
      `ratio` when `b` has none yet. */
  function Lowered(ratios: map<BuildingId, real>, b: BuildingId, ratio: real): real
  {
    if b in ratios then MinReal(ratios[b], ratio) else ratio
  }

  /** Lower the ratio of every building in `deps` to `ratio`, inserting it
      where none is set yet. */
  function Clamp(ratios: map<BuildingId, real>, deps: seq<BuildingId>, ratio: real): (c: map<BuildingId, real>)
    ensures forall b :: b in c <==> b in ratios || b in deps
    ensures forall b :: b in c ==> c[b] == if b in deps then Lowered(ratios, b, ratio) else ratios[b]
  {
    if deps == [] then ratios
    else
      var init := deps[..|deps| - 1];
      var b := deps[|deps| - 1];
      assert deps == init + [b];
      var prev := Clamp(ratios, init, ratio);
      prev[b := Lowered(prev, b, ratio)]
  }

  /** Every building in `free` at ratio 1. */
  function FreeRatios(free: seq<BuildingId>): (f: map<BuildingId, real>)
    ensures forall b :: b in f <==> b in free
    ensures forall b :: b in f ==> f[b] == 1.0
  {
    if free == [] then map[]
    else
      assert free == free[..|free| - 1] + [free[|free| - 1]];
      FreeRatios(free[..|free| - 1])[free[|free| - 1] := 1.0]
  }

  /** `order` visits every key of `keys` exactly once, as iterating the
      hash map does. */
  predicate Enumerates(order: seq<ResourceId>, keys: set<ResourceId>)
  {
    && (forall k :: 0 <= k < |order| ==> order[k] in keys)
    && (forall r :: r in keys ==> r in order)
    && (forall i, j :: 0 <= i < j < |order| ==> order[i] != order[j])
  }

  /** Every pass over the resources of `order` is defined. */
  predicate RatiosDefined(tree: DependencyTree, order: seq<ResourceId>, catalog: AllBuildings,
                          buildings: map<BuildingId, OwnedBuilding>, resources: map<ResourceId, Stockpile>)
  {
    forall k :: 0 <= k < |order| ==>
      order[k] in tree.tree && StepDefined(order[k], tree.tree[order[k]], catalog, buildings, resources)
  }

  /** The ratios calc_ratios returns after visiting the resources of the
      dependency tree in the order `order`: free buildings first at 1, then
      one pass per resource. */
  function Ratios(tree: DependencyTree, order: seq<ResourceId>, catalog: AllBuildings,
                  buildings: map<BuildingId, OwnedBuilding>, resources: map<ResourceId, Stockpile>): (q: map<BuildingId, real>)
    requires RatiosDefined(tree, order, catalog, buildings, resources)
    ensures InUnitInterval(q)
    decreases |order|, 1
  {
    if order == [] then FreeRatios(tree.free)
    else
      var init := order[..|order| - 1];
      assert forall k :: 0 <= k < |init| ==> init[k] == order[k];
      var prev := Ratios(tree, init, catalog, buildings, resources);
      Clamp(prev, tree.tree[order[|order| - 1]], StepRatio(tree, order, catalog, buildings, resources))
  }

  /** The ratio computed in the pass for the last resource of `order`. */
  function StepRatio(tree: DependencyTree, order: seq<ResourceId>, catalog: AllBuildings,
                     buildings: map<BuildingId, OwnedBuilding>, resources: map<ResourceId, Stockpile>): (q: real)
    requires order != [] && RatiosDefined(tree, order, catalog, buildings, resources)
    ensures 0.0 <= q <= 1.0
    decreases |order|, 0
  {
    var init := order[..|order| - 1];
    assert forall k :: 0 <= k < |init| ==> init[k] == order[k];
    var r := order[|order| - 1];
    var prev := Ratios(tree, init, catalog, buildings, resources);
    ResourceRatio(Needed(r, tree.tree[r], prev, catalog, buildings, resources), resources[r].current)
  }

  /** Every building of the free list ends at ratio 1: no pass lowers it,
      since a free building is in no consumer list. */
  lemma {:induction false} FreeBuildingsAtFullRatio(tree: DependencyTree, order: seq<ResourceId>, catalog: AllBuildings,
                                                    buildings: map<BuildingId, OwnedBuilding>, resources: map<ResourceId, Stockpile>,
                                                    b: BuildingId)
    requires RatiosDefined(tree, order, catalog, buildings, resources)
    requires IsIndex(catalog, tree)
    requires b in tree.free
    ensures var q := Ratios(tree, order, catalog, buildings, resources); b in q && q[b] == 1.0
  {
    if order != [] {
      var init := order[..|order| - 1];
      assert forall k :: 0 <= k < |init| ==> init[k] == order[k];
      FreeBuildingsAtFullRatio(tree, init, catalog, buildings, resources, b);
      var r := order[|order| - 1];
      if b in catalog {
        FreeIffNoConsumption(catalog, tree, b);
      } else {
        OnlyCatalogBuildings(catalog, tree, b);
      }
      assert b !in tree.tree[r];
    }
  }

  /** Ratios only decrease from one pass to the next. */
  lemma {:induction false} RatiosDecrease(tree: DependencyTree, order: seq<ResourceId>, k: nat, catalog: AllBuildings,
                                          buildings: map<BuildingId, OwnedBuilding>, resources: map<ResourceId, Stockpile>,
                                          b: BuildingId)
    requires RatiosDefined(tree, order, catalog, buildings, resources)
    requires k <= |order|
    requires b in Ratios(tree, order[..k], catalog, buildings, resources)
    ensures b in Ratios(tree, order, catalog, buildings, resources)
    ensures Ratios(tree, order, catalog, buildings, resources)[b] <= Ratios(tree, order[..k], catalog, buildings, resources)[b]
    decreases |order| - k
  {
    if k < |order| {
      var init := order[..|order| - 1];
      assert forall i :: 0 <= i < |init| ==> init[i] == order[i];
      assert init[..k] == order[..k];
      RatiosDecrease(tree, init, k, catalog, buildings, resources, b);
    } else {
      assert order[..k] == order;
    }
  }

  /** A consumer ends no higher than the ratio computed for any resource it
      is listed under. */
  lemma ConsumerBelowStepRatio(tree: DependencyTree, order: seq<ResourceId>, k: nat, catalog: AllBuildings,
                               buildings: map<BuildingId, OwnedBuilding>, resources: map<ResourceId, Stockpile>,
                               b: BuildingId)
    requires RatiosDefined(tree, order, catalog, buildings, resources)
    requires k < |order| && b in tree.tree[order[k]]
    ensures var q := Ratios(tree, order, catalog, buildings, resources);
            b in q && q[b] <= StepRatio(tree, order[..k + 1], catalog, buildings, resources)
  {
    var pre := order[..k + 1];
    assert forall i :: 0 <= i < |pre| ==> pre[i] == order[i];
    assert pre[..|pre| - 1] == order[..k];
    RatiosDecrease(tree, order, k + 1, catalog, buildings, resources, b);
  }

  /** The ratios cover exactly the free buildings and the consumers of the
      visited resources. */
  lemma {:induction false} RatiosKeys(tree: DependencyTree, order: seq<ResourceId>, catalog: AllBuildings,
                                      buildings: map<BuildingId, OwnedBuilding>, resources: map<ResourceId, Stockpile>)
    requires RatiosDefined(tree, order, catalog, buildings, resources)
    ensures forall b :: b in Ratios(tree, order, catalog, buildings, resources) <==>
              b in tree.free || exists k :: 0 <= k < |order| && b in tree.tree[order[k]]
  {
    if order != [] {
      var init := order[..|order| - 1];
      assert forall k :: 0 <= k < |init| ==> init[k] == order[k];
      RatiosKeys(tree, init, catalog, buildings, resources);
      forall b | exists k :: 0 <= k < |order| && b in tree.tree[order[k]]
        ensures b in Ratios(tree, order, catalog, buildings, resources)
      {
        var k :| 0 <= k < |order| && b in tree.tree[order[k]];
        if k < |init| {
          assert b in tree.tree[init[k]];
        }
      }
    }
  }

  /** The ratio calc_ratios' comment describes: the share of the need that
      the stockpile can cover, at most 1 (1 when nothing is needed). */
  function ScarcityRatio(needed: real, current: u32): (q: real)
    requires needed >= 0.0
    ensures 0.0 <= q <= 1.0
    ensures q * needed <= current as real
    ensures current as real >= needed ==> q == 1.0
  {
    if needed <= current as real then 1.0 else current as real / needed
  }

  /** The ratio as written inverts the quotient and rounds it to an
      integer: a need of 10 against a stock of 6 runs at full efficiency
      (the intended ratio is 0.6), and a need of 5 against a stock of 6
      stops the consumers (the intended ratio is 1). */
  lemma RatioInverted()
    ensures ResourceRatio(10.0, 6) == 1.0 && ScarcityRatio(10.0, 6) == 0.6
    ensures ResourceRatio(5.0, 6) == 0.0 && ScarcityRatio(5.0, 6) == 1.0
  {
  }

  /** The lands after a build at `pos`, as the comment on the player's
      `lands` field describes them: every tile the player has built on,
      each recorded once, in the order first built on. */
  function Claimed(lands: seq<Position>, pos: Position): (l: seq<Position>)
    ensures pos in l
    ensures forall q :: q in l <==> q in lands || q == pos
    ensures |lands| <= |l| && l[..|lands|] == lands
    ensures (forall i, j :: 0 <= i < j < |lands| ==> lands[i] != lands[j]) ==>
              forall i, j :: 0 <= i < j < |l| ==> l[i] != l[j]
  {
    if pos in lands then lands else lands + [pos]
  }

  /** calc_ratios walks the dependency tree of the whole catalog and
      unwraps the player's stockpile of every resource in it and the
      player's entry for every consumer: one missing entry anywhere and
      the computation panics. */
  lemma MissingEntryPanics(tree: DependencyTree, order: seq<ResourceId>, catalog: AllBuildings,
                           buildings: map<BuildingId, OwnedBuilding>, resources: map<ResourceId, Stockpile>, k: nat)
    requires k < |order| && order[k] in tree.tree
    requires order[k] !in resources || exists j :: 0 <= j < |tree.tree[order[k]]| && tree.tree[order[k]][j] !in buildings
    ensures !RatiosDefined(tree, order, catalog, buildings, resources)
  {
  }

  /** The need of `r` as calc_ratios evidently means it: a consumer type
      the player does not own has nobody hired and needs nothing, and the
      product is exact. */
  function OwnedNeed(r: ResourceId, deps: seq<BuildingId>, ratios: map<BuildingId, real>, catalog: AllBuildings,
                     buildings: map<BuildingId, OwnedBuilding>): (n: real)
    requires InUnitInterval(ratios)
    ensures n >= 0.0
  {
    if deps == [] then 0.0
    else
      var b := deps[|deps| - 1];
      var per := if b in catalog && r in catalog[b].consumed then catalog[b].consumed[r] else 0;
      DemandNonNegative(per, OwnedOf(buildings, b).workers.0, RatioOr(ratios, b));
      OwnedNeed(r, deps[..|deps| - 1], ratios, catalog, buildings)
        + (per * OwnedOf(buildings, b).workers.0) as real * RatioOr(ratios, b)
  }

  /** Where calc_ratios does not panic, the intended need is the need it
      computes. */
  lemma {:induction false} OwnedNeedAgrees(r: ResourceId, deps: seq<BuildingId>, ratios: map<BuildingId, real>,
                                           catalog: AllBuildings, buildings: map<BuildingId, OwnedBuilding>,
                                           resources: map<ResourceId, Stockpile>)
    requires StepDefined(r, deps, catalog, buildings, resources) && InUnitInterval(ratios)
    ensures OwnedNeed(r, deps, ratios, catalog, buildings) == Needed(r, deps, ratios, catalog, buildings, resources)
  {
    if deps != [] {
      var init := deps[..|deps| - 1];
      assert forall j :: 0 <= j < |init| ==> init[j] == deps[j];
      OwnedNeedAgrees(r, init, ratios, catalog, buildings, resources);
    }
  }

  /** The ratios calc_ratios evidently intends, defined for every player:
      unowned consumers need nothing, a missing stockpile holds nothing,
      and each pass uses the scarcity ratio. */
  function OwnedRatios(tree: DependencyTree, order: seq<ResourceId>, catalog: AllBuildings,
                       buildings: map<BuildingId, OwnedBuilding>, resources: map<ResourceId, Stockpile>): (q: map<BuildingId, real>)
    ensures InUnitInterval(q)
    decreases |order|, 2
  {
    if order == [] then FreeRatios(tree.free)
    else
      var r := order[|order| - 1];
      var prev := OwnedRatios(tree, order[..|order| - 1], catalog, buildings, resources);
      if r in tree.tree then Clamp(prev, tree.tree[r], OwnedStepRatio(tree, order, catalog, buildings, resources))
      else prev
  }

  /** The intended need of the last resource of `order`, weighted by the
      ratios of the passes before it. */
  function OwnedStepNeed(tree: DependencyTree, order: seq<ResourceId>, catalog: AllBuildings,
                         buildings: map<BuildingId, OwnedBuilding>, resources: map<ResourceId, Stockpile>): (n: real)
    requires order != []
    ensures n >= 0.0
    decreases |order|, 0
  {
    var r := order[|order| - 1];
    var prev := OwnedRatios(tree, order[..|order| - 1], catalog, buildings, resources);
    OwnedNeed(r, if r in tree.tree then tree.tree[r] else [], prev, catalog, buildings)
  }

  /** The intended ratio of the pass for the last resource of `order`: it
      never lets the consumers draw more than the stockpile holds. */
  function OwnedStepRatio(tree: DependencyTree, order: seq<ResourceId>, catalog: AllBuildings,
                          buildings: map<BuildingId, OwnedBuilding>, resources: map<ResourceId, Stockpile>): (q: real)
    requires order != []
    ensures 0.0 <= q <= 1.0
    ensures q * OwnedStepNeed(tree, order, catalog, buildings, resources)
              <= StockOf(resources, order[|order| - 1]).current as real
    decreases |order|, 1
  {
    ScarcityRatio(OwnedStepNeed(tree, order, catalog, buildings, resources), StockOf(resources, order[|order| - 1]).current)
  }

  /** With the intended ratios, a resource the player holds none of stops
      the consumers that need it. */
  lemma MissingStockStopsConsumers(tree: DependencyTree, order: seq<ResourceId>, catalog: AllBuildings,
                                   buildings: map<BuildingId, OwnedBuilding>, resources: map<ResourceId, Stockpile>)
    requires order != [] && order[|order| - 1] !in resources
    requires OwnedStepNeed(tree, order, catalog, buildings, resources) > 0.0
    ensures OwnedStepRatio(tree, order, catalog, buildings, resources) == 0.0
  {
  }

  /** With the intended ratios too, every free building ends at ratio 1. */
  lemma {:induction false} OwnedFreeAtFullRatio(tree: DependencyTree, order: seq<ResourceId>, catalog: AllBuildings,
                                                buildings: map<BuildingId, OwnedBuilding>, resources: map<ResourceId, Stockpile>,
                                                b: BuildingId)
    requires IsIndex(catalog, tree)
    requires b in tree.free
    ensures var q := OwnedRatios(tree, order, catalog, buildings, resources); b in q && q[b] == 1.0
  {
    if order != [] {
      OwnedFreeAtFullRatio(tree, order[..|order| - 1], catalog, buildings, resources, b);
      var r := order[|order| - 1];
      if r in tree.tree {
        if b in catalog {
          FreeIffNoConsumption(catalog, tree, b);
        } else {
          OnlyCatalogBuildings(catalog, tree, b);
        }
        assert b !in tree.tree[r];
      }
    }
  }

  // ---------------------------------------------------------------------
  // generate

  /** One entry of the tick as written:
      `current.wrapping_add(delta as u32).min(maximum)`. */
  function ApplyDelta(s: Stockpile, delta: i32): (t: Stockpile)
    ensures t.maximum == s.maximum && t.current <= s.maximum
  {
    s.(current := Min((s.current + delta) % U32_LIMIT, s.maximum))
  }

  /** The stockpiles after applying every delta of `genMap`; a resource
      without a stockpile gets the default one first. */
  function Applied(resources: map<ResourceId, Stockpile>, genMap: GenMap): (after: map<ResourceId, Stockpile>)
    ensures after.Keys == resources.Keys + genMap.Keys
  {
    map r | r in resources.Keys + genMap.Keys ::
      if r in genMap then ApplyDelta(StockOf(resources, r), genMap[r]) else resources[r]
  }

  /** Some resource drawn down by the cache cannot cover the next tick's draw. */
  predicate Starving(resources: map<ResourceId, Stockpile>, genMap: GenMap)
  {
    exists r :: r in genMap && genMap[r] < 0 && StockOf(resources, r).current + genMap[r] < 0
  }

  /** After a tick every stockpile the cache touched is at most its
      maximum, and a stockpile within its maximum before stays within it. */
  lemma AppliedWithinMaximum(resources: map<ResourceId, Stockpile>, genMap: GenMap)
    ensures forall r :: r in genMap ==> Applied(resources, genMap)[r].current <= Applied(resources, genMap)[r].maximum
    ensures (forall r :: r in resources ==> resources[r].current <= resources[r].maximum) ==>
            forall r :: r in Applied(resources, genMap) ==>
              Applied(resources, genMap)[r].current <= Applied(resources, genMap)[r].maximum
  {
  }

  /** A delta that takes a stockpile below zero wraps around, and the
      `min(maximum)` then fills it to the maximum instead of emptying it. */
  lemma UnderflowFillsToMaximum(s: Stockpile, delta: i32)
    requires s.current + delta < 0 && s.maximum <= I32_MAX
    ensures ApplyDelta(s, delta).current == s.maximum
  {
    assert (s.current + delta) % U32_LIMIT == s.current + delta + U32_LIMIT;
  }

  /** One entry of the tick as intended: `current + delta` clamped to
      `[0, maximum]`. */
  function ClampDelta(s: Stockpile, delta: i32): (t: Stockpile)
    requires s.current <= s.maximum
    ensures t.maximum == s.maximum && 0 <= t.current <= t.maximum
    ensures 0 <= s.current + delta <= s.maximum ==> t.current == s.current + delta
    ensures s.current + delta < 0 ==> t.current == 0
    ensures s.current + delta > s.maximum ==> t.current == s.maximum
  {
    if s.current + delta < 0 then s.(current := 0)
    else s.(current := Min(s.current + delta, s.maximum))
  }

  /** The two agree on every delta that neither underflows nor wraps. */
  lemma ClampAgreesWithoutUnderflow(s: Stockpile, delta: i32)
    requires s.current <= s.maximum && 0 <= s.current + delta <= U32_MAX
    ensures ApplyDelta(s, delta) == ClampDelta(s, delta)
  {
  }
}
