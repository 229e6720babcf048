/** The player of src/core/src/player.rs: its buildings, stockpiles and
    trades, updated in place by the game's actions. */
module Economy {
  import opened Ints
  import opened Results
  import opened Buildings
  import opened Tiles
  import opened Trade
  import opened EconomySpec
  import opened Seqs

  class Player {
    var buildings: map<BuildingId, OwnedBuilding>
    var people: Population
    var resources: map<ResourceId, Stockpile>
    /** Every peer the player can talk to, with the number of shared tiles. */
    var contacts: map<Username, u32>
    var lands: seq<Position>
    var trades: Ledger
    var gen: Generator

    /** Player::new: empty holdings, the starting population, and one
        building each of types 0 and 1 at the origin. */
    constructor (catalog: AllBuildings)
      requires 0 in catalog && 1 in catalog
      ensures buildings == map[0 := OwnedBuilding(1, (0, catalog[0].maxWorkers), map[Origin := 1]),
                               1 := OwnedBuilding(1, (0, catalog[1].maxWorkers), map[Origin := 1])]
      ensures people == StartingPopulation && resources == map[] && contacts == map[]
      ensures lands == [] && trades == EmptyLedger && gen == NewGenerator
    {
      buildings := map[];
      people := StartingPopulation;
      resources := map[];
      contacts := map[];
      lands := [];
      trades := EmptyLedger;
      gen := NewGenerator;
      new;
      AddBuilding(Origin, 0, catalog[0], 1);
      AddBuilding(Origin, 1, catalog[1], 1);
    }

    /** max_buildable over the slot tables of the given tiles. */
    method MaxBuildable(slots: seq<map<BuildingId, Slots>>, id: BuildingId, building: Building) returns (max: u32)
      requires CostsPositive(building)
      requires building.extractor ==> SlotsSane(slots, id) && FreeSlots(slots, id) <= U32_MAX
      ensures max == MaxBuildableOf(resources, slots, id, building)
    {
      max := U32_MAX;
      if building.extractor {
        max := 0;
        for i := 0 to |slots|
          invariant SlotsSane(slots[..i], id) && max == FreeSlots(slots[..i], id)
        {
          FreeSlotsPrefix(slots, id, i + 1);
          assert slots[..i + 1][..i] == slots[..i];
          if id in slots[i] {
            max := max + (slots[i][id].total - slots[i][id].used);
          }
        }
        assert slots[..|slots|] == slots;
      }
      max := CapByCosts(max, slots, id, building);
    }

    /** The loop of max_buildable over the construction costs, from the
        slot cap `base`. */
    method CapByCosts(base: u32, ghost slots: seq<map<BuildingId, Slots>>, id: BuildingId, building: Building)
      returns (max: u32)
      requires CostsPositive(building)
      requires building.extractor ==> SlotsSane(slots, id)
      requires base == BaseCap(slots, id, building)
      ensures max == MaxBuildableOf(resources, slots, id, building)
    {
      max := base;
      var todo := building.constructionCost.Keys;
      ghost var done: set<ResourceId> := {};
      while todo != {}
        invariant todo + done == building.constructionCost.Keys && todo !! done
        invariant done <= resources.Keys
        invariant max == MinCap(base, done, resources, building)
        decreases todo
      {
        var c :| c in todo;
        if c !in resources {
          return 0;
        }
        var cap := CostCap(resources, building, c);
        MinCapUnique(Min(max, cap), base, done + {c}, resources, building);
        max := Min(max, cap);
        todo := todo - {c};
        done := done + {c};
      }
    }

    /** build: fails when `amount` exceeds max_buildable on the tile;
        otherwise records the buildings at `pos`, takes their slots on the
        tile and marks the generator for an update. No construction cost is
        taken from the stockpiles. */
    method Build(tile: Tile, pos: Position, id: BuildingId, building: Building, amount: u32) returns (r: Outcome)
      modifies this, tile
      requires CostsPositive(building)
      requires building.extractor ==> SlotsSane([tile.slots], id)
      requires amount <= MaxBuildableOf(resources, [tile.slots], id, building) ==>
                 && CanAdd(OwnedOf(buildings, id), pos, amount, building.maxWorkers)
                 && id in tile.slots && tile.slots[id].used + amount <= U32_MAX
      ensures amount > MaxBuildableOf(old(resources), [old(tile.slots)], id, building) ==>
                && r == Err(TooManyToBuild(MaxBuildableOf(old(resources), [old(tile.slots)], id, building)))
                && unchanged(this) && unchanged(tile)
      ensures amount <= MaxBuildableOf(old(resources), [old(tile.slots)], id, building) ==>
                && r == Ok(())
                && buildings == old(buildings)[id := Added(OwnedOf(old(buildings), id), pos, amount, building.maxWorkers)]
                && tile.slots == old(tile.slots)[id := old(tile.slots)[id].(used := old(tile.slots)[id].used + amount)]
                && gen == old(gen).(needsUpdate := true)
                && resources == old(resources) && people == old(people) && contacts == old(contacts)
                && lands == old(lands) && trades == old(trades)
    {
      if building.extractor {
        assert FreeSlots([tile.slots], id) <= U32_MAX by {
          assert [tile.slots][..0] == [];
        }
      }
      var max := MaxBuildable([tile.slots], id, building);
      if amount > max {
        return Err(TooManyToBuild(max));
      }
      gen := gen.(needsUpdate := true);
      AddBuilding(pos, id, building, amount);
      tile.slots := tile.slots[id := tile.slots[id].(used := tile.slots[id].used + amount)];
      r := Ok(());
    }

    /** build as the comment on `lands` intends it: the same effect, and on
        success the tile is recorded among the player's lands, so that a
        later tile request at `pos` is answered from the tile. */
    method BuildClaiming(tile: Tile, pos: Position, id: BuildingId, building: Building, amount: u32) returns (r: Outcome)
      modifies this, tile
      requires CostsPositive(building)
      requires building.extractor ==> SlotsSane([tile.slots], id)
      requires amount <= MaxBuildableOf(resources, [tile.slots], id, building) ==>
                 && CanAdd(OwnedOf(buildings, id), pos, amount, building.maxWorkers)
                 && id in tile.slots && tile.slots[id].used + amount <= U32_MAX
      ensures amount > MaxBuildableOf(old(resources), [old(tile.slots)], id, building) ==>
                && r == Err(TooManyToBuild(MaxBuildableOf(old(resources), [old(tile.slots)], id, building)))
                && unchanged(this) && unchanged(tile)
      ensures amount <= MaxBuildableOf(old(resources), [old(tile.slots)], id, building) ==>
                && r == Ok(())
                && buildings == old(buildings)[id := Added(OwnedOf(old(buildings), id), pos, amount, building.maxWorkers)]
                && tile.slots == old(tile.slots)[id := old(tile.slots)[id].(used := old(tile.slots)[id].used + amount)]
                && gen == old(gen).(needsUpdate := true)
                && resources == old(resources) && people == old(people) && contacts == old(contacts)
                && lands == Claimed(old(lands), pos) && pos in lands && trades == old(trades)
    {
      r := Build(tile, pos, id, building, amount);
      if r.Ok? {
        lands := Claimed(lands, pos);
      }
    }

    /** add_building: `amount` more buildings of type `id` at `pos`. */
    method AddBuilding(pos: Position, id: BuildingId, building: Building, amount: u32)
      modifies this
      requires CanAdd(OwnedOf(buildings, id), pos, amount, building.maxWorkers)
      ensures buildings == old(buildings)[id := Added(OwnedOf(old(buildings), id), pos, amount, building.maxWorkers)]
      ensures people == old(people) && resources == old(resources) && contacts == old(contacts)
      ensures lands == old(lands) && trades == old(trades) && gen == old(gen)
    {
      var ob := OwnedOf(buildings, id);
      var placed := PlacedAt(ob.tiles, pos);
      ob := OwnedBuilding(ob.total + amount, (ob.workers.0, ob.workers.1 + amount * building.maxWorkers),
                          ob.tiles[pos := placed + amount]);
      buildings := buildings[id := ob];
    }

    /** demolish: marks the generator for an update even when it fails;
        fails when fewer than `amount` are owned; otherwise removes the
        buildings at `pos` and frees their slots on the tile. The worker
        adjustment is computed on a copy and dropped, so the stored hired
        count is unchanged; the adjustment's arithmetic must stay in range. */
    method Demolish(tile: Tile, pos: Position, id: BuildingId, building: Building, amount: u32) returns (r: Outcome)
      modifies this, tile
      requires id in buildings
      requires buildings[id].total >= amount ==>
                 && CanRemove(buildings[id], pos, amount, building.maxWorkers)
                 && id in tile.slots && tile.slots[id].used >= amount
                 && CopyAdjustDefined(Removed(buildings[id], pos, amount, building.maxWorkers).workers,
                                      Jobs(amount, building.maxWorkers))
      ensures gen == old(gen).(needsUpdate := true)
      ensures resources == old(resources) && people == old(people) && contacts == old(contacts)
      ensures lands == old(lands) && trades == old(trades)
      ensures old(buildings)[id].total < amount ==>
                r == Err(NotEnoughOwned) && buildings == old(buildings) && unchanged(tile)
      ensures old(buildings)[id].total >= amount ==>
                && r == Ok(())
                && buildings == old(buildings)[id := Removed(old(buildings)[id], pos, amount, building.maxWorkers)]
                && tile.slots == old(tile.slots)[id := old(tile.slots)[id].(used := old(tile.slots)[id].used - amount)]
    {
      gen := gen.(needsUpdate := true);
      if buildings[id].total < amount {
        return Err(NotEnoughOwned);
      }
      RmBuilding(pos, id, building, amount);
      tile.slots := tile.slots[id := tile.slots[id].(used := tile.slots[id].used - amount)];
      var workers := buildings[id].workers;
      var jobs := amount * building.maxWorkers;
      workers := (workers.0 - (jobs - (workers.1 - workers.0)), workers.1);
      workers := (workers.0, workers.1 - jobs);
      r := Ok(());
    }

    /** rm_building: `amount` fewer buildings of type `id` at `pos`. */
    method RmBuilding(pos: Position, id: BuildingId, building: Building, amount: u32)
      modifies this
      requires id in buildings && CanRemove(buildings[id], pos, amount, building.maxWorkers)
      ensures buildings == old(buildings)[id := Removed(old(buildings)[id], pos, amount, building.maxWorkers)]
      ensures people == old(people) && resources == old(resources) && contacts == old(contacts)
      ensures lands == old(lands) && trades == old(trades) && gen == old(gen)
    {
      var ob := buildings[id];
      ob := OwnedBuilding(ob.total - amount, (ob.workers.0, ob.workers.1 - amount * building.maxWorkers),
                          ob.tiles[pos := ob.tiles[pos] - amount]);
      buildings := buildings[id := ob];
    }

    /** deposit: creates the default stockpile if missing, then fails when
        it has no room for `amount`, or adds it and marks the generator. */
    method Deposit(id: ResourceId, amount: u32) returns (r: Outcome)
      modifies this
      requires StockOf(resources, id).current <= StockOf(resources, id).maximum
      ensures var d := Deposited(StockOf(old(resources), id), amount);
              && (d.None? ==> r == Err(StockpileFull) && resources == old(resources)[id := StockOf(old(resources), id)]
                                && gen == old(gen))
              && (d.Some? ==> r == Ok(()) && resources == old(resources)[id := d.value]
                                && gen == old(gen).(needsUpdate := true))
      ensures buildings == old(buildings) && people == old(people) && contacts == old(contacts)
      ensures lands == old(lands) && trades == old(trades)
    {
      var stock := StockOf(resources, id);
      resources := resources[id := stock];
      if stock.maximum - stock.current < amount {
        r := Err(StockpileFull);
      } else {
        resources := resources[id := stock.(current := stock.current + amount)];
        gen := gen.(needsUpdate := true);
        r := Ok(());
      }
    }

    /** withdraw: fails when the stockpile holds less than `amount`, or
        takes it and marks the generator. */
    method Withdraw(id: ResourceId, amount: u32) returns (r: Outcome)
      modifies this
      requires id in resources
      ensures var w := Withdrawn(old(resources)[id], amount);
              && (w.None? ==> r == Err(NotEnoughStock) && unchanged(this))
              && (w.Some? ==> r == Ok(()) && resources == old(resources)[id := w.value]
                                && gen == old(gen).(needsUpdate := true))
      ensures buildings == old(buildings) && people == old(people) && contacts == old(contacts)
      ensures lands == old(lands) && trades == old(trades)
    {
      var stock := resources[id];
      if stock.current < amount {
        r := Err(NotEnoughStock);
      } else {
        resources := resources[id := stock.(current := stock.current - amount)];
        gen := gen.(needsUpdate := true);
        r := Ok(());
      }
    }

    /** hire: fails for a building type not owned or without enough free
        jobs; otherwise adds hired workers and marks the generator. */
    method Hire(id: BuildingId, amount: u32) returns (r: Outcome)
      modifies this
      requires id in buildings ==> buildings[id].workers.0 <= buildings[id].workers.1
      ensures id !in old(buildings) ==> r == Err(BuildingNotOwned) && unchanged(this)
      ensures id in old(buildings) ==>
                var h := Hired(old(buildings)[id].workers, amount);
                && (h.None? ==> r == Err(NotEnoughJobs) && unchanged(this))
                && (h.Some? ==> r == Ok(()) && buildings == old(buildings)[id := old(buildings)[id].(workers := h.value)]
                                  && gen == old(gen).(needsUpdate := true))
      ensures resources == old(resources) && people == old(people) && contacts == old(contacts)
      ensures lands == old(lands) && trades == old(trades)
    {
      if id !in buildings {
        return Err(BuildingNotOwned);
      }
      var ob := buildings[id];
      if ob.workers.1 - ob.workers.0 < amount {
        r := Err(NotEnoughJobs);
      } else {
        buildings := buildings[id := ob.(workers := (ob.workers.0 + amount, ob.workers.1))];
        gen := gen.(needsUpdate := true);
        r := Ok(());
      }
    }

    /** fire: fails for a building type not owned or with fewer hired
        workers than `amount`; otherwise releases them and marks the
        generator. */
    method Fire(id: BuildingId, amount: u32) returns (r: Outcome)
      modifies this
      ensures id !in old(buildings) ==> r == Err(BuildingNotOwned) && unchanged(this)
      ensures id in old(buildings) ==>
                var f := Fired(old(buildings)[id].workers, amount);
                && (f.None? ==> r == Err(NotEnoughEmployees) && unchanged(this))
                && (f.Some? ==> r == Ok(()) && buildings == old(buildings)[id := old(buildings)[id].(workers := f.value)]
                                  && gen == old(gen).(needsUpdate := true))
      ensures resources == old(resources) && people == old(people) && contacts == old(contacts)
      ensures lands == old(lands) && trades == old(trades)
    {
      if id !in buildings {
        return Err(BuildingNotOwned);
      }
      var ob := buildings[id];
      if ob.workers.0 < amount {
        r := Err(NotEnoughEmployees);
      } else {
        buildings := buildings[id := ob.(workers := (ob.workers.0 - amount, ob.workers.1))];
        gen := gen.(needsUpdate := true);
        r := Ok(());
      }
    }

    /** has_enough_for: every entry on its own is covered by a stockpile. */
    method HasEnoughFor(entries: seq<ResourceEntry>) returns (b: bool)
      ensures b == EconomySpec.HasEnoughFor(resources, entries)
    {
      for i := 0 to |entries|
        invariant EconomySpec.HasEnoughFor(resources, entries[..i])
      {
        var e := entries[i];
        if !(e.id in resources && resources[e.id].current >= e.amount) {
          return false;
        }
        assert entries[..i + 1] == entries[..i] + [e];
      }
      assert entries[..|entries|] == entries;
      return true;
    }

    /** open_trade: fails when the offering is not covered entry by entry;
        otherwise reserves the offered amounts and files the offer under
        `with` in the outbound ledger. */
    method OpenTrade(with: Username, offer: Offer) returns (r: Outcome)
      modifies this
      requires EconomySpec.HasEnoughFor(resources, offer.offering) ==> Reserve(resources, offer.offering).Some?
      ensures !EconomySpec.HasEnoughFor(old(resources), offer.offering) ==> r == Err(CannotAffordOffer) && unchanged(this)
      ensures EconomySpec.HasEnoughFor(old(resources), offer.offering) ==>
                && r == Ok(())
                && resources == Reserve(old(resources), offer.offering).value
                && trades == old(trades).(outbound := old(trades.outbound)[with := OffersWith(old(trades.outbound), with) + [offer]])
                && gen == old(gen)
      ensures buildings == old(buildings) && people == old(people) && contacts == old(contacts) && lands == old(lands)
    {
      var enough := HasEnoughFor(offer.offering);
      if !enough {
        return Err(CannotAffordOffer);
      }
      resources := ReserveAll(resources, offer.offering);
      trades := trades.(outbound := trades.outbound[with := OffersWith(trades.outbound, with) + [offer]]);
      r := Ok(());
    }

    /** The loop of open_trade taking each offered amount from `stocks`. */
    static method ReserveAll(stocks: map<ResourceId, Stockpile>, entries: seq<ResourceEntry>)
      returns (reserved: map<ResourceId, Stockpile>)
      requires Reserve(stocks, entries).Some?
      ensures Reserve(stocks, entries) == Some(reserved)
    {
      reserved := stocks;
      for i := 0 to |entries|
        invariant Reserve(stocks, entries[..i]) == Some(reserved)
      {
        ReservePrefix(stocks, entries, i + 1);
        assert entries[..i + 1][..i] == entries[..i];
        var e := entries[i];
        reserved := reserved[e.id := reserved[e.id].(current := reserved[e.id].current - e.amount)];
      }
      assert entries[..|entries|] == entries;
    }

    /** cancel_trade: removes the offer from the outbound ledger. The
        reserved resources are not given back. */
    method CancelTrade(with: Username, offer: Offer) returns (r: Outcome)
      modifies this
      ensures var (res, offers) := RemovedOffer(with, offer, old(trades.outbound));
              r == res && trades == old(trades).(outbound := offers)
      ensures resources == old(resources)
      ensures buildings == old(buildings) && people == old(people) && contacts == old(contacts)
      ensures lands == old(lands) && gen == old(gen)
    {
      var res, offers := RemoveOffer(with, offer, trades.outbound);
      if res.Err? {
        return res;
      }
      trades := trades.(outbound := offers);
      r := Ok(());
    }

    /** accept_trade: fails when the requested amounts are not covered
        entry by entry, or when no such offer is inbound; otherwise removes
        the offer from the inbound ledger. No resources move. */
    method AcceptTrade(with: Username, offer: Offer) returns (r: Outcome)
      modifies this
      ensures !EconomySpec.HasEnoughFor(old(resources), offer.requesting) ==> r == Err(CannotFulfilOffer) && unchanged(this)
      ensures EconomySpec.HasEnoughFor(old(resources), offer.requesting) ==>
                var (res, offers) := RemovedOffer(with, offer, old(trades.inbound));
                r == res && trades == old(trades).(inbound := offers)
      ensures resources == old(resources)
      ensures buildings == old(buildings) && people == old(people) && contacts == old(contacts)
      ensures lands == old(lands) && gen == old(gen)
    {
      var enough := HasEnoughFor(offer.requesting);
      if !enough {
        return Err(CannotFulfilOffer);
      }
      var res, offers := RemoveOffer(with, offer, trades.inbound);
      if res.Err? {
        return res;
      }
      trades := trades.(inbound := offers);
      r := Ok(());
    }

    /** calc_ratios, visiting the dependency tree's resources in `order`. */
    method CalcRatios(tree: DependencyTree, catalog: AllBuildings, order: seq<ResourceId>)
      returns (ratios: map<BuildingId, real>)
      requires Enumerates(order, tree.tree.Keys)
      requires RatiosDefined(tree, order, catalog, buildings, resources)
      ensures ratios == Ratios(tree, order, catalog, buildings, resources)
    {
      ratios := AllFree(tree.free);
      assert order[..0] == [];
      for k := 0 to |order|
        invariant RatiosDefined(tree, order[..k], catalog, buildings, resources)
        invariant ratios == Ratios(tree, order[..k], catalog, buildings, resources)
      {
        var pre := order[..k + 1];
        assert pre[..k] == order[..k];
        assert forall j :: 0 <= j < |pre| ==> pre[j] == order[j];
        ratios := RatioPass(tree, catalog, pre, ratios);
      }
      assert order[..|order|] == order;
    }

    /** The first loop of calc_ratios: every free building at ratio 1. */
    static method AllFree(free: seq<BuildingId>) returns (ratios: map<BuildingId, real>)
      ensures ratios == FreeRatios(free)
    {
      ratios := map[];
      for i := 0 to |free|
        invariant ratios == FreeRatios(free[..i])
      {
        assert free[..i + 1][..i] == free[..i];
        ratios := ratios[free[i] := 1.0];
      }
      assert free[..|free|] == free;
    }

    /** One pass of calc_ratios, for the last resource of `pre`, from the
        ratios left by the passes before it. */
    method RatioPass(tree: DependencyTree, catalog: AllBuildings, pre: seq<ResourceId>, prev: map<BuildingId, real>)
      returns (ratios: map<BuildingId, real>)
      requires pre != [] && RatiosDefined(tree, pre, catalog, buildings, resources)
      requires RatiosDefined(tree, pre[..|pre| - 1], catalog, buildings, resources)
      requires prev == Ratios(tree, pre[..|pre| - 1], catalog, buildings, resources)
      ensures ratios == Ratios(tree, pre, catalog, buildings, resources)
    {
      var resource := pre[|pre| - 1];
      var depends := tree.tree[resource];
      var needed := NeededBy(resource, depends, prev, catalog);
      var ratio := ResourceRatio(needed, resources[resource].current);
      ratios := Lower(prev, depends, ratio);
    }

    /** The inner loop of calc_ratios summing what the consumers of
        `resource` need at the ratios so far. */
    method NeededBy(resource: ResourceId, depends: seq<BuildingId>, ratios: map<BuildingId, real>, catalog: AllBuildings)
      returns (needed: real)
      requires StepDefined(resource, depends, catalog, buildings, resources) && InUnitInterval(ratios)
      ensures needed == Needed(resource, depends, ratios, catalog, buildings, resources)
    {
      needed := 0.0;
      for j := 0 to |depends|
        invariant StepDefined(resource, depends[..j], catalog, buildings, resources)
        invariant needed == Needed(resource, depends[..j], ratios, catalog, buildings, resources)
      {
        assert depends[..j + 1][..j] == depends[..j];
        var b := depends[j];
        needed := needed + (catalog[b].consumed[resource] * buildings[b].workers.0) as real
                           * (if b in ratios then ratios[b] else 1.0);
      }
      assert depends[..|depends|] == depends;
    }

    /** The last loop of one calc_ratios pass: lower each consumer to `ratio`. */
    static method Lower(ratios: map<BuildingId, real>, depends: seq<BuildingId>, ratio: real)
      returns (lowered: map<BuildingId, real>)
      ensures lowered == Clamp(ratios, depends, ratio)
    {
      lowered := ratios;
      for j := 0 to |depends|
        invariant lowered == Clamp(ratios, depends[..j], ratio)
      {
        var b := depends[j];
        assert depends[..j + 1] == depends[..j] + [b];
        assert Clamp(ratios, depends[..j + 1], ratio) == lowered[b := Lowered(lowered, b, ratio)];
        lowered := lowered[b := Lowered(lowered, b, ratio)];
      }
      assert depends[..|depends|] == depends;
    }

    /** generate: when the generator is marked, recompute the ratios and
        install `freshMap` (what make_gen_map builds) as the cached deltas;
        then apply every delta, and mark the generator again when a drawn
        resource cannot cover the next tick. */
    method Generate(catalog: AllBuildings, tree: DependencyTree, order: seq<ResourceId>, freshMap: GenMap)
      modifies this
      requires ReadyToGenerate(this, catalog, tree, order, freshMap)
      ensures Generated(this, catalog, tree, order, freshMap)
    {
      if gen.needsUpdate {
        var ratios := CalcRatios(tree, catalog, order);
        gen := Generator(false, freshMap, ratios);
      }
      var after, starving := ApplyGenMap(resources, gen.genMap);
      resources := after;
      gen := gen.(needsUpdate := starving);
    }

    /** The loop of generate over the cached deltas, on the stockpiles
        `stocks`: the new stockpiles and whether some drawn resource can no
        longer cover its draw. */
    static method ApplyGenMap(stocks: map<ResourceId, Stockpile>, gm: GenMap)
      returns (after: map<ResourceId, Stockpile>, starving: bool)
      requires forall r :: r in gm ==> gm[r] != I32_MIN
      ensures after == Applied(stocks, gm)
      ensures starving == Starving(after, gm)
    {
      after := stocks;
      starving := false;
      var todo := gm.Keys;
      ghost var done: set<ResourceId> := {};
      while todo != {}
        invariant todo + done == gm.Keys && todo !! done
        invariant after.Keys == stocks.Keys + done
        invariant forall r :: r in after ==>
                    after[r] == if r in done then ApplyDelta(StockOf(stocks, r), gm[r]) else stocks[r]
        invariant starving == exists r :: r in done && gm[r] < 0 && after[r].current + gm[r] < 0
        decreases todo
      {
        var r :| r in todo;
        var amount := gm[r];
        var crt := StockOf(after, r);
        assert crt == StockOf(stocks, r);
        crt := crt.(current := Min((crt.current + amount) % U32_LIMIT, crt.maximum));
        assert crt == ApplyDelta(StockOf(stocks, r), amount);
        after := after[r := crt];
        if amount < 0 && crt.current < -amount {
          starving := true;
        }
        todo := todo - {r};
        done := done + {r};
      }
      assert after == Applied(stocks, gm);
    }
  }

  /** What generate demands of a player: a defined ratio computation when
      the generator is marked, and no cached delta equal to `i32::MIN`
      (whose `abs` overflows). */
  predicate ReadyToGenerate(p: Player, catalog: AllBuildings, tree: DependencyTree, order: seq<ResourceId>, freshMap: GenMap)
    reads p
  {
    && (p.gen.needsUpdate ==> Enumerates(order, tree.tree.Keys) && RatiosDefined(tree, order, catalog, p.buildings, p.resources))
    && var gm := if p.gen.needsUpdate then freshMap else p.gen.genMap;
       forall r :: r in gm ==> gm[r] != I32_MIN
  }

  /** A player as Player::new leaves it, with no stockpile and its
      generator marked, cannot run generate once some building of the
      catalog consumes a resource: calc_ratios unwraps a stockpile the
      player does not have. */
  lemma NewPlayerCannotGenerate(p: Player, catalog: AllBuildings, tree: DependencyTree, order: seq<ResourceId>, freshMap: GenMap)
    requires p.resources == map[] && p.gen == NewGenerator
    requires tree.tree != map[]
    ensures !ReadyToGenerate(p, catalog, tree, order, freshMap)
  {
    if Enumerates(order, tree.tree.Keys) {
      var r :| r in tree.tree;
      assert r in order;
      MissingEntryPanics(tree, order, catalog, p.buildings, p.resources, 0);
    }
  }

  /** The player after generate, against the player before: the deltas in
      use (fresh when the generator was marked, cached otherwise) applied to
      the stockpiles, the ratios recomputed when marked, the mark set again
      exactly when some drawn resource cannot cover its next draw, and
      nothing else changed. */
  twostate predicate Generated(p: Player, catalog: AllBuildings, tree: DependencyTree, order: seq<ResourceId>, freshMap: GenMap)
    reads p
  {
    var gm := if old(p.gen.needsUpdate) then freshMap else old(p.gen.genMap);
    && p.resources == Applied(old(p.resources), gm)
    && p.gen.genMap == gm
    && p.gen.needsUpdate == Starving(p.resources, gm)
    && (old(p.gen.needsUpdate) ==>
          RatiosDefined(tree, order, catalog, old(p.buildings), old(p.resources))
          && p.gen.ratios == Ratios(tree, order, catalog, old(p.buildings), old(p.resources)))
    && (!old(p.gen.needsUpdate) ==> p.gen.ratios == old(p.gen.ratios))
    && p.buildings == old(p.buildings) && p.people == old(p.people) && p.contacts == old(p.contacts)
    && p.lands == old(p.lands) && p.trades == old(p.trades)
  }

  /** The offers on file with `with`, none when there is no entry. */
  function OffersWith(offers: map<Username, seq<Offer>>, with: Username): seq<Offer>
  {
    if with in offers then offers[with] else []
  }

  /** The outcome and the offers remove_offer leaves: the first offer equal
      to `offer` filed under `with` is removed, or NoSuchTrade when there is
      none. */
  function RemovedOffer(with: Username, offer: Offer, offers: map<Username, seq<Offer>>): (result: (Outcome, map<Username, seq<Offer>>))
    ensures result.0.Err? <==> offer !in OffersWith(offers, with)
    ensures result.0.Err? ==> result.0 == Err(NoSuchTrade) && result.1 == offers
    ensures result.0.Ok? ==> with in offers && result.1.Keys == offers.Keys
                             && multiset(result.1[with]) + multiset{offer} == multiset(offers[with])
                             && forall u :: u in offers && u != with ==> result.1[u] == offers[u]
    ensures result.0.Ok? ==> with in offers
                             && exists k :: 0 <= k < |offers[with]| && offers[with][k] == offer
                                            && offer !in offers[with][..k]
                                            && result.1[with] == offers[with][..k] + offers[with][k + 1..]
  {
    match FirstIndexOf(OffersWith(offers, with), offer)
    case None => (Err(NoSuchTrade), offers)
    case Some(k) =>
      assert OffersWith(offers, with) != [];
      assert offer !in offers[with][..k] by {
        forall j | 0 <= j < k ensures offers[with][..k][j] != offer {
          assert offers[with][..k][j] == offers[with][j];
        }
      }
      (Ok(()), offers[with := RemoveAt(offers[with], k)])
  }

  /** remove_offer: search the offers filed under `with` for the first one
      equal to `offer` and remove it. */
  method RemoveOffer(with: Username, offer: Offer, offers: map<Username, seq<Offer>>)
    returns (r: Outcome, offers': map<Username, seq<Offer>>)
    ensures (r, offers') == RemovedOffer(with, offer, offers)
  {
    if with in offers {
      var contracts := offers[with];
      for idx := 0 to |contracts|
        invariant forall j :: 0 <= j < idx ==> contracts[j] != offer
      {
        if contracts[idx] == offer {
          assert FirstIndexOf(contracts, offer) == Some(idx) by {
            FirstIndexUnique(contracts, offer, idx);
          }
          return Ok(()), offers[with := RemoveAt(contracts, idx)];
        }
      }
      assert offer !in contracts;
    }
    return Err(NoSuchTrade), offers;
  }

  /** The first index of an offer is the one before which it does not occur. */
  lemma FirstIndexUnique(offers: seq<Offer>, offer: Offer, idx: nat)
    requires idx < |offers| && offers[idx] == offer
    requires forall j :: 0 <= j < idx ==> offers[j] != offer
    ensures FirstIndexOf(offers, offer) == Some(idx)
  {
    var f := FirstIndexOf(offers, offer);
    assert f.Some?;
  }
}
