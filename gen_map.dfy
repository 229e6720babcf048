/** The server's player records (src/server/src/player.rs) and its
    generation map: per resource, what the owned buildings produce minus
    what they consume in one tick, each weighted by its hired workers. */
module ServerEconomy {
  import opened Ints
  import opened Sums
  import opened Buildings
  import opened Tiles

  /** A building of the server's catalog (src/server/src/buildings.rs). */
  datatype ServerBuilding = ServerBuilding(
    name: string,
    prerequisites: seq<BuildingId>,
    produced: map<ResourceId, u32>,
    consumed: map<ResourceId, u32>,
    maxWorkers: u32,
    constructionCost: map<ResourceId, u32>)

  type ServerCatalog = map<BuildingId, ServerBuilding>

  datatype ServerStockpile = ServerStockpile(current: u32, maximum: u32)

  /** An owned building: `workers` is (hired, capacity). */
  datatype ServerOwned = ServerOwned(total: u32, workers: (u32, u32), tiles: map<Position, u32>)

  datatype ServerPopulation = ServerPopulation(idle: u32, total: u32, maximum: u32)

  datatype ServerPlayer = ServerPlayer(
    buildings: map<BuildingId, ServerOwned>,
    people: ServerPopulation,
    resources: map<ResourceId, ServerStockpile>)

  /** A per-tick amount times the hired workers. */
  function Product(amount: u32, hired: u32): (p: nat)
    ensures hired == 0 ==> p == 0
  {
    amount * hired
  }

  /** A per-tick amount weighted by the hired workers, fits in a `u32`. */
  predicate Fits(b: ServerBuilding, hired: u32)
  {
    && (forall r :: r in b.produced ==> Product(b.produced[r], hired) <= U32_MAX)
    && (forall r :: r in b.consumed ==> Product(b.consumed[r], hired) <= U32_MAX)
  }

  /** build_gen_map does not panic: every owned building is in the catalog
      and no weighted amount overflows a `u32`. */
  predicate GenMapDefined(owned: map<BuildingId, ServerOwned>, catalog: ServerCatalog)
  {
    forall b :: b in owned ==> b in catalog && Fits(catalog[b], owned[b].workers.0)
  }

  /** `(amount * hired) as i32`: the `u32` product cast to `i32`, which
      wraps above `i32::MAX`. */
  function Weighted(amount: u32, hired: u32): i32
    requires Product(amount, hired) <= U32_MAX
  {
    U32AsI32(Product(amount, hired))
  }

  /** The resources a building produces or consumes. */
  function Touched(b: ServerBuilding): set<ResourceId>
  {
    b.produced.Keys + b.consumed.Keys
  }

  /** What building `b` adds to the entry of `r`: its weighted production
      minus its weighted consumption; 0 for a building the map does not
      cover. */
  function Contribution(owned: map<BuildingId, ServerOwned>, catalog: ServerCatalog, b: BuildingId, r: ResourceId): int
  {
    if b in owned && b in catalog && Fits(catalog[b], owned[b].workers.0) then
      var bld := catalog[b];
      var hired := owned[b].workers.0;
      (if r in bld.produced then Weighted(bld.produced[r], hired) else 0)
      - (if r in bld.consumed then Weighted(bld.consumed[r], hired) else 0)
    else 0
  }

  /** The contributions to the entry of `r`, as a function of the
      building. */
  function ContributionsTo(owned: map<BuildingId, ServerOwned>, catalog: ServerCatalog, r: ResourceId): BuildingId -> int
  {
    (b: BuildingId) => Contribution(owned, catalog, b, r)
  }

  /** The resources some building of `done` produces or consumes. */
  function TouchedBy(done: set<BuildingId>, catalog: ServerCatalog): set<ResourceId>
  {
    set b, r | b in done && b in catalog && r in Touched(catalog[b]) :: r
  }

  /** The generation map of the buildings in `done`: one entry per touched
      resource, holding the sum of the buildings' contributions. */
  ghost function GenOver(done: set<BuildingId>, owned: map<BuildingId, ServerOwned>, catalog: ServerCatalog): (g: map<ResourceId, int>)
    ensures g.Keys == TouchedBy(done, catalog)
  {
    map r | r in TouchedBy(done, catalog) :: SumOver(done, ContributionsTo(owned, catalog, r))
  }

  /** The entry of `r`, 0 when absent (`entry(r).or_insert(0)`). */
  function Get(gen: map<ResourceId, int>, r: ResourceId): int
  {
    if r in gen then gen[r] else 0
  }

  /** `gen` after adding (or subtracting) the weighted amounts of the
      resources in `keys`. */
  function AddEach(gen: map<ResourceId, int>, amounts: map<ResourceId, u32>, keys: set<ResourceId>,
                   hired: u32, subtract: bool): (r: map<ResourceId, int>)
    requires keys <= amounts.Keys
    requires forall k :: k in amounts ==> Product(amounts[k], hired) <= U32_MAX
    ensures r.Keys == gen.Keys + keys
  {
    map k | k in gen.Keys + keys ::
      if k !in keys then Get(gen, k)
      else if subtract then Get(gen, k) - Weighted(amounts[k], hired)
      else Get(gen, k) + Weighted(amounts[k], hired)
  }

  /** build_gen_map: the generation map of every owned building; its keys
      are exactly the resources they produce or consume, and each entry is
      the sum of the buildings' weighted production minus consumption. */
  method BuildGenMap(owned: map<BuildingId, ServerOwned>, catalog: ServerCatalog) returns (gen: map<ResourceId, int>)
    requires GenMapDefined(owned, catalog)
    ensures gen.Keys == TouchedBy(owned.Keys, catalog)
    ensures forall r :: r in gen ==> gen[r] == SumOver(owned.Keys, ContributionsTo(owned, catalog, r))
  {
    gen := map[];
    var todo := owned.Keys;
    ghost var done: set<BuildingId> := {};
    assert GenOver(done, owned, catalog) == map[];
    while todo != {}
      invariant todo + done == owned.Keys && todo !! done
      invariant gen == GenOver(done, owned, catalog)
      decreases todo
    {
      var b :| b in todo;
      var bld := catalog[b];
      var hired := owned[b].workers.0;
      ghost var before := gen;
      gen := Accumulate(gen, bld.produced, hired, false);
      gen := Accumulate(gen, bld.consumed, hired, true);
      GenOverAdd(done, b, owned, catalog, before, gen);
      todo := todo - {b};
      done := done + {b};
    }
  }

  /** One inner loop of build_gen_map: adds (or subtracts) each weighted
      amount to its resource's entry, creating it at 0 when absent. */
  method Accumulate(gen: map<ResourceId, int>, amounts: map<ResourceId, u32>, hired: u32, subtract: bool)
    returns (g: map<ResourceId, int>)
    requires forall k :: k in amounts ==> Product(amounts[k], hired) <= U32_MAX
    ensures g == AddEach(gen, amounts, amounts.Keys, hired, subtract)
  {
    g := gen;
    var todo := amounts.Keys;
    ghost var done: set<ResourceId> := {};
    assert g == AddEach(gen, amounts, done, hired, subtract);
    while todo != {}
      invariant todo + done == amounts.Keys && todo !! done
      invariant g == AddEach(gen, amounts, done, hired, subtract)
      decreases todo
    {
      var r :| r in todo;
      var w := Weighted(amounts[r], hired);
      g := g[r := if subtract then Get(g, r) - w else Get(g, r) + w];
      todo := todo - {r};
      done := done + {r};
    }
  }

  /** Reading an entry of the map gives the sum of the contributions,
      also for a resource no building touches. */
  lemma {:induction false} GetGenOver(done: set<BuildingId>, owned: map<BuildingId, ServerOwned>, catalog: ServerCatalog, r: ResourceId)
    ensures Get(GenOver(done, owned, catalog), r) == SumOver(done, ContributionsTo(owned, catalog, r))
  {
    if r !in TouchedBy(done, catalog) {
      forall b | b in done
        ensures ContributionsTo(owned, catalog, r)(b) == 0
      {
        if b in catalog {
          assert r !in Touched(catalog[b]);
        }
      }
      SumOverZero(done, ContributionsTo(owned, catalog, r));
    }
  }

  /** The two inner loops for building `b` add its contribution to every
      entry. */
  lemma {:induction false} InnerLoopsAddContribution(gen: map<ResourceId, int>, b: BuildingId,
                                                     owned: map<BuildingId, ServerOwned>, catalog: ServerCatalog, r: ResourceId)
    requires GenMapDefined(owned, catalog) && b in owned
    ensures var bld := catalog[b]; var hired := owned[b].workers.0;
            var after := AddEach(AddEach(gen, bld.produced, bld.produced.Keys, hired, false),
                                 bld.consumed, bld.consumed.Keys, hired, true);
            Get(after, r) == Get(gen, r) + Contribution(owned, catalog, b, r)
  {
  }

  /** The resources touched by one more building. */
  lemma TouchedByAdd(done: set<BuildingId>, b: BuildingId, catalog: ServerCatalog)
    requires b in catalog
    ensures TouchedBy(done + {b}, catalog) == TouchedBy(done, catalog) + Touched(catalog[b])
  {
  }

  /** One entry after building `b`'s inner loops: its previous value plus
      the building's contribution, which is the sum over one more
      building. */
  lemma {:induction false} GenOverAddAt(done: set<BuildingId>, b: BuildingId, owned: map<BuildingId, ServerOwned>,
                                        catalog: ServerCatalog, after: map<ResourceId, int>, r: ResourceId)
    requires GenMapDefined(owned, catalog) && b in owned && b !in done
    requires var bld := catalog[b]; var hired := owned[b].workers.0;
             after == AddEach(AddEach(GenOver(done, owned, catalog), bld.produced, bld.produced.Keys, hired, false),
                              bld.consumed, bld.consumed.Keys, hired, true)
    ensures Get(after, r) == SumOver(done + {b}, ContributionsTo(owned, catalog, r))
  {
    var f := ContributionsTo(owned, catalog, r);
    InnerLoopsAddContribution(GenOver(done, owned, catalog), b, owned, catalog, r);
    GetGenOver(done, owned, catalog, r);
    SumOverAdd(done, f, b);
    assert f(b) == Contribution(owned, catalog, b, r);
  }

  /** One more building adds its two inner loops' worth to the map. */
  lemma {:induction false} GenOverAdd(done: set<BuildingId>, b: BuildingId, owned: map<BuildingId, ServerOwned>,
                                      catalog: ServerCatalog, before: map<ResourceId, int>, after: map<ResourceId, int>)
    requires GenMapDefined(owned, catalog) && b in owned && b !in done
    requires before == GenOver(done, owned, catalog)
    requires var bld := catalog[b]; var hired := owned[b].workers.0;
             after == AddEach(AddEach(before, bld.produced, bld.produced.Keys, hired, false),
                              bld.consumed, bld.consumed.Keys, hired, true)
    ensures after == GenOver(done + {b}, owned, catalog)
  {
    var target := GenOver(done + {b}, owned, catalog);
    assert after.Keys == target.Keys by {
      var bld := catalog[b];
      TouchedByAdd(done, b, catalog);
      assert after.Keys == before.Keys + bld.produced.Keys + bld.consumed.Keys;
      assert target.Keys == before.Keys + Touched(bld);
      UnionAssociative(before.Keys, bld.produced.Keys, bld.consumed.Keys);
    }
    assert forall r :: r in target ==> after[r] == target[r] by {
      forall r | r in target
        ensures after[r] == target[r]
      {
        GenOverAddAt(done, b, owned, catalog, after, r);
      }
    }
    MapsEqual(after, target);
  }

  lemma UnionAssociative(a: set<ResourceId>, b: set<ResourceId>, c: set<ResourceId>)
    ensures a + b + c == a + (b + c)
  {
  }

  /** Maps with the same keys and the same values are equal. */
  lemma MapsEqual(m: map<ResourceId, int>, n: map<ResourceId, int>)
    requires m.Keys == n.Keys && forall k :: k in m ==> m[k] == n[k]
    ensures m == n
  {
  }

  /** One entry of the map with an idle building: the same as without it. */
  lemma {:induction false} IdleBuildingAddsNothingAt(owned: map<BuildingId, ServerOwned>, catalog: ServerCatalog,
                                                     b: BuildingId, r: ResourceId)
    requires GenMapDefined(owned, catalog) && b in owned && owned[b].workers.0 == 0
    ensures SumOver(owned.Keys, ContributionsTo(owned, catalog, r))
         == Get(GenOver(owned.Keys - {b}, owned, catalog), r)
  {
    var f := ContributionsTo(owned, catalog, r);
    assert owned.Keys - {b} + {b} == owned.Keys;
    assert f(b) == Contribution(owned, catalog, b, r) == 0;
    SumOverAdd(owned.Keys - {b}, f, b);
    GetGenOver(owned.Keys - {b}, owned, catalog, r);
  }

  /** The map with one more building covers the resources it touches. */
  lemma {:induction false} GenOverKeysAdd(owned: map<BuildingId, ServerOwned>, catalog: ServerCatalog, b: BuildingId)
    requires b in owned && b in catalog
    ensures GenOver(owned.Keys, owned, catalog).Keys
         == GenOver(owned.Keys - {b}, owned, catalog).Keys + Touched(catalog[b])
  {
    var others := owned.Keys - {b};
    assert others + {b} == owned.Keys;
    TouchedByAdd(others, b, catalog);
  }

  /** A building with no hired workers changes no entry: the map is the map
      without it, plus zero entries for the resources only it touches. */
  lemma {:induction false} IdleBuildingAddsNothing(owned: map<BuildingId, ServerOwned>, catalog: ServerCatalog, b: BuildingId)
    requires GenMapDefined(owned, catalog) && b in owned && owned[b].workers.0 == 0
    ensures var all := GenOver(owned.Keys, owned, catalog);
            var rest := GenOver(owned.Keys - {b}, owned, catalog);
            && all.Keys == rest.Keys + Touched(catalog[b])
            && forall r :: r in all ==> all[r] == Get(rest, r)
  {
    GenOverKeysAdd(owned, catalog, b);
    forall r | r in GenOver(owned.Keys, owned, catalog)
      ensures GenOver(owned.Keys, owned, catalog)[r] == Get(GenOver(owned.Keys - {b}, owned, catalog), r)
    {
      IdleBuildingAddsNothingAt(owned, catalog, b, r);
    }
  }

  /** The map depends on the owned buildings only through which buildings
      are owned and how many workers each has hired; no other state scales
      it. */
  lemma {:induction false} GenDependsOnlyOnHired(owned: map<BuildingId, ServerOwned>, other: map<BuildingId, ServerOwned>,
                                                 catalog: ServerCatalog)
    requires owned.Keys == other.Keys
    requires forall b :: b in owned ==> owned[b].workers.0 == other[b].workers.0
    ensures GenOver(owned.Keys, owned, catalog) == GenOver(other.Keys, other, catalog)
  {
    var a := GenOver(owned.Keys, owned, catalog);
    var c := GenOver(other.Keys, other, catalog);
    assert a.Keys == c.Keys;
    assert forall r :: r in a ==> a[r] == c[r] by {
      forall r | r in a
        ensures a[r] == c[r]
      {
        SameHiredSameSum(owned, other, catalog, r);
      }
    }
    MapsEqual(a, c);
  }

  /** Each entry depends only on the hired workers. */
  lemma {:induction false} SameHiredSameSum(owned: map<BuildingId, ServerOwned>, other: map<BuildingId, ServerOwned>,
                                            catalog: ServerCatalog, r: ResourceId)
    requires owned.Keys == other.Keys
    requires forall b :: b in owned ==> owned[b].workers.0 == other[b].workers.0
    ensures SumOver(owned.Keys, ContributionsTo(owned, catalog, r)) == SumOver(other.Keys, ContributionsTo(other, catalog, r))
  {
    var f := ContributionsTo(owned, catalog, r);
    var g := ContributionsTo(other, catalog, r);
    forall b | b in owned.Keys
      ensures f(b) == g(b)
    {
      SameHiredSameContribution(owned, other, catalog, b, r);
    }
    SumOverCongruent(owned.Keys, f, g);
  }

  /** A building's contribution depends only on its hired workers. */
  lemma SameHiredSameContribution(owned: map<BuildingId, ServerOwned>, other: map<BuildingId, ServerOwned>,
                                  catalog: ServerCatalog, b: BuildingId, r: ResourceId)
    requires b in owned && b in other && owned[b].workers.0 == other[b].workers.0
    ensures Contribution(owned, catalog, b, r) == Contribution(other, catalog, b, r)
  {
  }
}
