/** Map positions and the extraction slots of a tile (src/server/src/tile.rs). */
module Tiles {
  import opened Ints
  import opened Buildings

  /** A point of the world grid. */
  datatype Position = Position(x: i32, y: i32)

  const Origin := Position(0, 0)

  /** The spots of one tile on which extractors of one building type can
      stand, and how many of them are taken. */
  datatype Slots = Slots(used: u32, total: u32)

  /** A tile. Only its slot table is read or written by the economy; the
      resource amounts and the player list of the source are left out. */
  class Tile {
    var slots: map<BuildingId, Slots>

    /** Tile::new: a tile with no slots. */
    constructor ()
      ensures slots == map[]
    {
      slots := map[];
    }
  }
}

/** Trade offers and the per-player ledger (src/core/src/trade.rs). */
module Trade {
  import opened Ints
  import opened Buildings

  type Username = string

  datatype ResourceEntry = ResourceEntry(id: ResourceId, amount: u32)

  datatype Offer = Offer(offering: seq<ResourceEntry>, requesting: seq<ResourceEntry>)

  /** Offers received from (`inbound`) and made to (`outbound`) each peer. */
  datatype Ledger = Ledger(inbound: map<Username, seq<Offer>>, outbound: map<Username, seq<Offer>>)

  const EmptyLedger := Ledger(map[], map[])
}
