/** The server's game state (src/server/src/lib.rs): the world, the
    players and one generator per player, which adding and removing
    players keep in step. */
module ServerWorld {
  import opened Ints
  import opened Results
  import opened Buildings
  import opened Tiles
  import opened Trade
  import opened Positions
  import opened ServerEconomy

  /** A tile of the server's world (src/server/src/tile.rs). */
  datatype ServerTile = ServerTile(slots: map<BuildingId, Slots>, amounts: map<ResourceId, u32>, players: seq<Username>)

  /** Tile::new: no slots, no amounts, no players. */
  const NewServerTile := ServerTile(map[], map[], [])

  /** Why add_player refuses a name. */
  datatype AddError = PlayerExists(name: Username)

  class ServerGame<Gen> {
    var world: map<Position, ServerTile>
    var players: map<Username, ServerPlayer>
    var generators: map<Username, Gen>
    var posGen: PosGenerator

    /** Every player has a generator and every generator a player. */
    predicate InStep()
      reads this
    {
      players.Keys == generators.Keys
    }

    /** Game::new: asks the position generator, created with step 0, for
        `nbr` positions; since a generator of step 0 has none to give
        (StepZeroCannotYield), only `nbr == 0` returns, with an empty world
        and no players. */
    constructor (nbr: u32)
      requires nbr == 0
      ensures world == map[] && players == map[] && generators == map[]
      ensures fresh(posGen) && posGen.step == 0 && posGen.tiles == [] && posGen.vertices == []
      ensures InStep()
    {
      world := map[];
      players := map[];
      generators := map[];
      posGen := new PosGenerator(0);
    }

    /** remove_player: forgets the player and its generator. */
    method RemovePlayer(name: Username)
      modifies this
      ensures players == old(players) - {name} && generators == old(generators) - {name}
      ensures world == old(world) && posGen == old(posGen)
      ensures old(InStep()) ==> InStep()
    {
      players := players - {name};
      generators := generators - {name};
    }

    /** add_player: refuses a name already registered and changes nothing;
        otherwise registers `player` and `gen`, the values of Player::new and
        Generator::new, under it. */
    method AddPlayer(name: Username, player: ServerPlayer, gen: Gen) returns (r: Result<(), AddError>)
      modifies this
      ensures name in old(players) ==>
                r == Err(PlayerExists(name)) && players == old(players) && generators == old(generators)
      ensures name !in old(players) ==>
                r == Ok(()) && players == old(players)[name := player] && generators == old(generators)[name := gen]
      ensures world == old(world) && posGen == old(posGen)
      ensures old(InStep()) ==> InStep()
    {
      if name in players {
        return Err(PlayerExists(name));
      }
      players := players[name := player];
      generators := generators[name := gen];
      r := Ok(());
    }

    /** generate: the loop over the generators has an empty body, so the
        server's generate changes nothing and always succeeds. */
    method Generate() returns (r: Result<(), string>)
      ensures r == Ok(())
    {
      r := Ok(());
    }
  }
}
