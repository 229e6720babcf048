/** The game of src/core/src/lib.rs: the registry of players, the tick over
    all of them, and the dispatcher of player events; with the event and
    exception types of src/core/src/response.rs. */
module CoreGame {
  import opened Ints
  import opened Results
  import opened Buildings
  import opened Tiles
  import opened Trade
  import opened EconomySpec
  import opened Seqs
  import opened Economy

  /** Requests that only affect the requesting player. */
  datatype PlayerAction =
    | Build(pos: Position, building: BuildingId, amount: u32)
    | Demolish(pos: Position, building: BuildingId, amount: u32)
    | Hire(building: BuildingId, amount: u32)
    | Fire(building: BuildingId, amount: u32)
    | Deposit(resource: ResourceId, amount: u32)
    | Withdraw(resource: ResourceId, amount: u32)

  /** Requests about the world. */
  datatype WorldRequest = GetTile(pos: Position) | TileData(tile: Tile)

  datatype Event = Action(action: PlayerAction) | World(request: WorldRequest)

  datatype Exception =
    | PlaceHolder
    | InsufficientResource(resource: ResourceId)
    | InsufficientSlot(building: BuildingId)
    | InsufficientStockpile(resource: ResourceId)
    | NotFound
    | TileNotOwned(pos: Position)
    | InvalidToken
    | Unregistered
    | AlreadyRegistered

  /** Why add_player refuses a name. */
  datatype RegistryError = AlreadyExists(name: Username)

  /** The tiles an action touches: the tile at its position for Build and
      Demolish, none otherwise. */
  function TilesOf(world: map<Position, Tile>, a: PlayerAction): set<Tile>
  {
    if (a.Build? || a.Demolish?) && a.pos in world then {world[a.pos]} else {}
  }

  /** The player operation an action dispatches to does not panic: the
      lookups the dispatcher unwraps succeed and the operation's own
      demands hold. */
  ghost predicate ActionDefined(p: Player, world: map<Position, Tile>, catalog: AllBuildings, a: PlayerAction)
    reads p, TilesOf(world, a)
  {
    match a
    case Build(pos, b, amount) =>
      && pos in world && b in catalog
      && var tile := world[pos];
      && CostsPositive(catalog[b])
      && (catalog[b].extractor ==> SlotsSane([tile.slots], b))
      && (amount <= MaxBuildableOf(p.resources, [tile.slots], b, catalog[b]) ==>
            && CanAdd(OwnedOf(p.buildings, b), pos, amount, catalog[b].maxWorkers)
            && b in tile.slots && tile.slots[b].used + amount <= U32_MAX)
    case Demolish(pos, b, amount) =>
      && pos in world && b in catalog && b in p.buildings
      && var tile := world[pos];
      && (p.buildings[b].total >= amount ==>
            && CanRemove(p.buildings[b], pos, amount, catalog[b].maxWorkers)
            && b in tile.slots && tile.slots[b].used >= amount
            && CopyAdjustDefined(Removed(p.buildings[b], pos, amount, catalog[b].maxWorkers).workers,
                                 Jobs(amount, catalog[b].maxWorkers)))
    case Hire(b, _) => b in p.buildings ==> p.buildings[b].workers.0 <= p.buildings[b].workers.1
    case Fire(_, _) => true
    case Deposit(r, _) => StockOf(p.resources, r).current <= StockOf(p.resources, r).maximum
    case Withdraw(r, _) => r in p.resources
  }

  /** The player operation an action dispatches to returns an error. */
  ghost predicate ActionFails(p: Player, world: map<Position, Tile>, catalog: AllBuildings, a: PlayerAction)
    reads p, TilesOf(world, a)
    requires ActionDefined(p, world, catalog, a)
  {
    match a
    case Build(pos, b, amount) => amount > MaxBuildableOf(p.resources, [world[pos].slots], b, catalog[b])
    case Demolish(_, b, amount) => p.buildings[b].total < amount
    case Hire(b, amount) => b !in p.buildings || Hired(p.buildings[b].workers, amount).None?
    case Fire(b, amount) => b !in p.buildings || Fired(p.buildings[b].workers, amount).None?
    case Deposit(r, amount) => Deposited(StockOf(p.resources, r), amount).None?
    case Withdraw(r, amount) => Withdrawn(p.resources[r], amount).None?
  }

  /** The player and the tile after the operation an action dispatches to,
      against before: the effect that operation promises, and nothing else
      of the player changed. */
  twostate predicate Dispatched(p: Player, world: map<Position, Tile>, catalog: AllBuildings, a: PlayerAction)
    requires old(ActionDefined(p, world, catalog, a))
    reads p, TilesOf(world, a)
  {
    && p.people == old(p.people) && p.contacts == old(p.contacts)
    && p.lands == old(p.lands) && p.trades == old(p.trades)
    && match a
       case Build(pos, b, amount) =>
         var tile := world[pos];
         if amount > MaxBuildableOf(old(p.resources), [old(tile.slots)], b, catalog[b]) then
           unchanged(p) && unchanged(tile)
         else
           && p.buildings == old(p.buildings)[b := Added(OwnedOf(old(p.buildings), b), pos, amount, catalog[b].maxWorkers)]
           && tile.slots == old(tile.slots)[b := old(tile.slots)[b].(used := old(tile.slots)[b].used + amount)]
           && p.resources == old(p.resources) && p.gen == old(p.gen).(needsUpdate := true)
       case Demolish(pos, b, amount) =>
         var tile := world[pos];
         && p.resources == old(p.resources) && p.gen == old(p.gen).(needsUpdate := true)
         && if old(p.buildings)[b].total < amount then
              p.buildings == old(p.buildings) && unchanged(tile)
            else
              && p.buildings == old(p.buildings)[b := Removed(old(p.buildings)[b], pos, amount, catalog[b].maxWorkers)]
              && tile.slots == old(tile.slots)[b := old(tile.slots)[b].(used := old(tile.slots)[b].used - amount)]
       case Hire(b, amount) =>
         if b !in old(p.buildings) || Hired(old(p.buildings)[b].workers, amount).None? then unchanged(p)
         else
           && p.buildings == old(p.buildings)[b := old(p.buildings)[b].(workers := Hired(old(p.buildings)[b].workers, amount).value)]
           && p.resources == old(p.resources) && p.gen == old(p.gen).(needsUpdate := true)
       case Fire(b, amount) =>
         if b !in old(p.buildings) || Fired(old(p.buildings)[b].workers, amount).None? then unchanged(p)
         else
           && p.buildings == old(p.buildings)[b := old(p.buildings)[b].(workers := Fired(old(p.buildings)[b].workers, amount).value)]
           && p.resources == old(p.resources) && p.gen == old(p.gen).(needsUpdate := true)
       case Deposit(r, amount) =>
         var d := Deposited(StockOf(old(p.resources), r), amount);
         && p.buildings == old(p.buildings)
         && if d.None? then
              p.resources == old(p.resources)[r := StockOf(old(p.resources), r)] && p.gen == old(p.gen)
            else
              p.resources == old(p.resources)[r := d.value] && p.gen == old(p.gen).(needsUpdate := true)
       case Withdraw(r, amount) =>
         var w := Withdrawn(old(p.resources)[r], amount);
         if w.None? then unchanged(p)
         else
           && p.buildings == old(p.buildings) && p.resources == old(p.resources)[r := w.value]
           && p.gen == old(p.gen).(needsUpdate := true)
  }

  /** The event `process` can handle without reaching an unfinished path:
      a player action it can dispatch, or a tile request outside the
      player's lands. */
  ghost predicate EventDefined(p: Player, world: map<Position, Tile>, catalog: AllBuildings, e: Event)
    reads p, if e.Action? then TilesOf(world, e.action) else {}
  {
    match e
    case Action(a) => ActionDefined(p, world, catalog, a)
    case World(GetTile(pos)) => pos !in p.lands
    case World(TileData(_)) => false
  }

  /** As written, no action records a tile in `lands`: build and
      add_building leave it alone, and a new player starts with none. So a
      player whose lands are empty still has none after any action, and
      every tile request it sends stays outside them, which `process`
      answers with PlaceHolder. */
  twostate lemma ActionsNeverClaimLand(p: Player, world: map<Position, Tile>, catalog: AllBuildings,
                                       a: PlayerAction, pos: Position)
    requires old(p.lands) == []
    requires old(ActionDefined(p, world, catalog, a))
    requires Dispatched(p, world, catalog, a)
    ensures p.lands == []
    ensures EventDefined(p, world, catalog, World(GetTile(pos)))
  {
  }

  class Game {
    var world: map<Position, Tile>
    var players: map<Username, Player>
    const buildings: AllBuildings
    const depTree: DependencyTree
    /** The order in which iterating the dependency tree visits its
        resources. */
    const treeOrder: seq<ResourceId>

    /** No two players share one object, and no two positions share one
        tile: the source's hash maps own their values. */
    ghost predicate Valid()
      reads this
    {
      && (forall a, b :: a in players && b in players && a != b ==> players[a] != players[b])
      && (forall p, q :: p in world && q in world && p != q ==> world[p] != world[q])
    }

    /** Game::new with no tiles requested: an empty world and no players,
        over a loaded catalog and its dependency index. */
    constructor (catalog: AllBuildings, tree: DependencyTree, order: seq<ResourceId>)
      requires IsIndex(catalog, tree) && Enumerates(order, tree.tree.Keys)
      ensures Valid()
      ensures world == map[] && players == map[]
      ensures buildings == catalog && depTree == tree && treeOrder == order
    {
      world := map[];
      players := map[];
      buildings := catalog;
      depTree := tree;
      treeOrder := order;
    }

    /** remove_player: forgets `name`; nothing happens when it is unknown. */
    method RemovePlayer(name: Username)
      modifies this
      requires Valid()
      ensures Valid()
      ensures players == old(players) - {name}
      ensures world == old(world)
    {
      players := players - {name};
    }

    /** add_player: refuses a name already registered; otherwise registers
        a new player under it and returns that player. */
    method AddPlayer(name: Username) returns (r: Result<Player, RegistryError>)
      modifies this
      requires Valid() && 0 in buildings && 1 in buildings
      ensures Valid()
      ensures world == old(world)
      ensures name in old(players) ==> r == Err(AlreadyExists(name)) && players == old(players)
      ensures name !in old(players) ==>
                && r.Ok? && fresh(r.value)
                && players == old(players)[name := r.value]
                && r.value.buildings == map[0 := OwnedBuilding(1, (0, buildings[0].maxWorkers), map[Origin := 1]),
                                            1 := OwnedBuilding(1, (0, buildings[1].maxWorkers), map[Origin := 1])]
                && r.value.resources == map[] && r.value.people == StartingPopulation
                && r.value.lands == [] && r.value.trades == EmptyLedger && r.value.gen == NewGenerator
    {
      if name in players {
        return Err(AlreadyExists(name));
      }
      var p := new Player(buildings);
      players := players[name := p];
      r := Ok(p);
    }

    /** generate: runs each player's generate once, with `freshMaps[name]`
        as what make_gen_map builds for that player. */
    method Generate(freshMaps: map<Username, GenMap>)
      modifies set name | name in players :: players[name]
      requires Valid()
      requires forall name :: name in players ==>
                 name in freshMaps && ReadyToGenerate(players[name], buildings, depTree, treeOrder, freshMaps[name])
      ensures Valid()
      ensures forall name :: name in players ==>
                Generated(players[name], buildings, depTree, treeOrder, freshMaps[name])
    {
      var ps := players;
      var todo := ps.Keys;
      ghost var done: set<Username> := {};
      while todo != {}
        invariant todo + done == ps.Keys && todo !! done
        invariant forall name {:trigger name in todo} :: name in todo ==> unchanged(ps[name])
        invariant forall name {:trigger name in done} :: name in done ==>
                    Generated(ps[name], buildings, depTree, treeOrder, freshMaps[name])
        decreases todo
      {
        var name :| name in todo;
        var p := ps[name];
        assert ReadyToGenerate(p, buildings, depTree, treeOrder, freshMaps[name]);
        p.Generate(buildings, depTree, treeOrder, freshMaps[name]);
        forall other | other in done
          ensures Generated(ps[other], buildings, depTree, treeOrder, freshMaps[other])
        {
          assert ps[other] != p;
        }
        todo := todo - {name};
        done := done + {name};
      }
    }

    /** The player operation an action names, called on the player and,
        for build and demolish, on the tile at the action's position. */
    static method Dispatch(player: Player, world: map<Position, Tile>, catalog: AllBuildings, a: PlayerAction)
      returns (outcome: Outcome)
      modifies {player} + TilesOf(world, a)
      requires ActionDefined(player, world, catalog, a)
      ensures outcome.Err? == old(ActionFails(player, world, catalog, a))
      ensures Dispatched(player, world, catalog, a)
    {
      match a {
        case Build(pos, b, amount) =>
          outcome := player.Build(world[pos], pos, b, catalog[b], amount);
        case Demolish(pos, b, amount) =>
          outcome := player.Demolish(world[pos], pos, b, catalog[b], amount);
        case Hire(b, amount) =>
          outcome := player.Hire(b, amount);
        case Fire(b, amount) =>
          outcome := player.Fire(b, amount);
        case Deposit(res, amount) =>
          outcome := player.Deposit(res, amount);
        case Withdraw(res, amount) =>
          outcome := player.Withdraw(res, amount);
      }
    }

    /** process: Unregistered for an unknown name, changing nothing;
        otherwise the player's action is dispatched, changing only that
        player and the tile the action names, and any error it returns
        becomes PlaceHolder; a tile request outside the player's lands is
        refused with PlaceHolder, changing nothing. */
    method Process(username: Username, event: Event) returns (r: Result<Option<Event>, Exception>)
      modifies if username in players && event.Action? then {players[username]} + TilesOf(world, event.action) else {}
      requires Valid()
      requires username in players ==> EventDefined(players[username], world, buildings, event)
      ensures Valid() && players == old(players) && world == old(world)
      ensures username !in players ==> r == Err(Unregistered)
      ensures username in players && event.Action? ==>
                r == if old(ActionFails(players[username], world, buildings, event.action))
                     then Err(PlaceHolder) else Ok(None)
      ensures username in players && event.Action? ==>
                Dispatched(players[username], world, buildings, event.action)
      ensures username in players && event.World? ==> r == Err(PlaceHolder) && unchanged(players[username])
    {
      if username !in players {
        return Err(Unregistered);
      }
      match event {
        case Action(a) =>
          var outcome := Dispatch(players[username], world, buildings, a);
          r := if outcome.Err? then Err(PlaceHolder) else Ok(None);
        case World(GetTile(pos)) =>
          r := Err(PlaceHolder);
      }
    }
  }
}
