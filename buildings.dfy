/** The building catalog and its dependency index (src/core/src/buildings.rs). */
module Buildings {
  import opened Ints
  import opened Sums

  type BuildingId = u8
  type ResourceId = u8

  /** A building type of the catalog; immutable once loaded. */
  datatype Building = Building(
    name: string,
    extractor: bool,
    prerequisites: seq<BuildingId>,
    produced: map<ResourceId, u32>,
    consumed: map<ResourceId, u32>,
    maxWorkers: u32,
    constructionCost: map<ResourceId, u32>)

  type AllBuildings = map<BuildingId, Building>

  /** `tree` maps a resource to the buildings that consume it; `free` lists
      the buildings that consume nothing. */
  datatype DependencyTree = DependencyTree(tree: map<ResourceId, seq<BuildingId>>, free: seq<BuildingId>)

  /** How often building `b` must occur in `tree[r]` once the buildings of
      `done` have been indexed. */
  function ExpectedInTree(buildings: AllBuildings, done: set<BuildingId>, b: BuildingId, r: ResourceId): nat
  {
    if b in done && b in buildings && r in buildings[b].consumed then 1 else 0
  }

  /** How often building `b` must occur in `free` once the buildings of
      `done` have been indexed. */
  function ExpectedInFree(buildings: AllBuildings, done: set<BuildingId>, b: BuildingId): nat
  {
    if b in done && b in buildings && |buildings[b].consumed| == 0 then 1 else 0
  }

  /** The number of occurrences of `b` in `s`. */
  function Count(s: seq<BuildingId>, b: BuildingId): nat
  {
    if s == [] then 0 else Count(s[..|s| - 1], b) + (if s[|s| - 1] == b then 1 else 0)
  }

  /** `b` occurs in `s` exactly when its count is positive. */
  lemma {:induction false} CountPositive(s: seq<BuildingId>, b: BuildingId)
    ensures Count(s, b) > 0 <==> b in s
  {
    if s != [] {
      CountPositive(s[..|s| - 1], b);
      assert s == s[..|s| - 1] + [s[|s| - 1]];
    }
  }

  /** The list `tree` holds for `r`; a missing entry reads as empty, as
      `entry(r).or_default()` does. */
  function ListOf(tree: map<ResourceId, seq<BuildingId>>, r: ResourceId): seq<BuildingId>
  {
    if r in tree then tree[r] else []
  }

  /** The resources consumed by the buildings of `done`. */
  ghost function ConsumedBy(buildings: AllBuildings, done: set<BuildingId>): set<ResourceId>
  {
    set b, r | b in done && b in buildings && r in buildings[b].consumed :: r
  }

  /** `t` indexes exactly the buildings of `done`. */
  ghost predicate IndexOf(buildings: AllBuildings, done: set<BuildingId>, t: DependencyTree)
  {
    && (forall r, b :: Count(ListOf(t.tree, r), b) == ExpectedInTree(buildings, done, b, r))
    && t.tree.Keys == ConsumedBy(buildings, done)
    && (forall b :: Count(t.free, b) == ExpectedInFree(buildings, done, b))
  }

  /** `t` is the dependency index of the whole catalog. */
  ghost predicate IsIndex(buildings: AllBuildings, t: DependencyTree)
  {
    IndexOf(buildings, buildings.Keys, t)
  }

  /** The inner loop of DependencyTree::new: push `name` onto the list of
      every resource in `consumed`. */
  method PushConsumer(tree: map<ResourceId, seq<BuildingId>>, name: BuildingId, consumed: map<ResourceId, u32>)
    returns (tree': map<ResourceId, seq<BuildingId>>)
    ensures tree'.Keys == tree.Keys + consumed.Keys
    ensures forall r, b :: Count(ListOf(tree', r), b)
                           == Count(ListOf(tree, r), b) + (if b == name && r in consumed then 1 else 0)
  {
    tree' := tree;
    var pending := consumed.Keys;
    while pending != {}
      invariant pending <= consumed.Keys
      invariant tree'.Keys == tree.Keys + (consumed.Keys - pending)
      invariant forall r, b :: Count(ListOf(tree', r), b)
                               == Count(ListOf(tree, r), b) + (if b == name && r in consumed && r !in pending then 1 else 0)
      decreases pending
    {
      var r :| r in pending;
      var list := ListOf(tree', r) + [name];
      assert list[..|list| - 1] == ListOf(tree', r);
      tree' := tree'[r := list];
      pending := pending - {r};
    }
  }

  /** Indexing one more building keeps the index exact. */
  lemma IndexOfStep(buildings: AllBuildings, done: set<BuildingId>, name: BuildingId,
                    t: DependencyTree, t': DependencyTree)
    requires name in buildings && name !in done
    requires IndexOf(buildings, done, t)
    requires t'.tree.Keys == t.tree.Keys + buildings[name].consumed.Keys
    requires forall r, b :: Count(ListOf(t'.tree, r), b)
                            == Count(ListOf(t.tree, r), b) + (if b == name && r in buildings[name].consumed then 1 else 0)
    requires forall b :: Count(t'.free, b)
                         == Count(t.free, b) + (if b == name && |buildings[name].consumed| == 0 then 1 else 0)
    ensures IndexOf(buildings, done + {name}, t')
  {
    TreeCountsStep(buildings, done, name, t.tree, t'.tree);
    FreeCountsStep(buildings, done, name, t.free, t'.free);
    ConsumedByStep(buildings, done, name);
  }

  lemma TreeCountsStep(buildings: AllBuildings, done: set<BuildingId>, name: BuildingId,
                       tree: map<ResourceId, seq<BuildingId>>, tree': map<ResourceId, seq<BuildingId>>)
    requires name in buildings && name !in done
    requires forall r, b :: Count(ListOf(tree, r), b) == ExpectedInTree(buildings, done, b, r)
    requires forall r, b :: Count(ListOf(tree', r), b)
                            == Count(ListOf(tree, r), b) + (if b == name && r in buildings[name].consumed then 1 else 0)
    ensures forall r, b :: Count(ListOf(tree', r), b) == ExpectedInTree(buildings, done + {name}, b, r)
  {
  }

  lemma FreeCountsStep(buildings: AllBuildings, done: set<BuildingId>, name: BuildingId,
                       free: seq<BuildingId>, free': seq<BuildingId>)
    requires name in buildings && name !in done
    requires forall b :: Count(free, b) == ExpectedInFree(buildings, done, b)
    requires forall b :: Count(free', b)
                         == Count(free, b) + (if b == name && |buildings[name].consumed| == 0 then 1 else 0)
    ensures forall b :: Count(free', b) == ExpectedInFree(buildings, done + {name}, b)
  {
  }

  /** The resources consumed after indexing one more building. */
  lemma ConsumedByStep(buildings: AllBuildings, done: set<BuildingId>, name: BuildingId)
    requires name in buildings
    ensures ConsumedBy(buildings, done + {name}) == ConsumedBy(buildings, done) + buildings[name].consumed.Keys
  {
    var d' := done + {name};
    forall r | r in ConsumedBy(buildings, d')
      ensures r in ConsumedBy(buildings, done) + buildings[name].consumed.Keys
    {
      var b :| b in d' && b in buildings && r in buildings[b].consumed;
      if b != name {
        assert r in ConsumedBy(buildings, done);
      }
    }
    forall r | r in buildings[name].consumed.Keys
      ensures r in ConsumedBy(buildings, d')
    {
      assert name in d' && name in buildings && r in buildings[name].consumed;
    }
  }

  /** One iteration of DependencyTree::new: index building `name`. */
  method IndexBuilding(buildings: AllBuildings, ghost done: set<BuildingId>, name: BuildingId, t: DependencyTree)
    returns (t': DependencyTree)
    requires name in buildings && name !in done
    requires IndexOf(buildings, done, t)
    ensures IndexOf(buildings, done + {name}, t')
  {
    var building := buildings[name];
    if |building.consumed| > 0 {
      var tree := PushConsumer(t.tree, name, building.consumed);
      t' := DependencyTree(tree, t.free);
    } else {
      var free := t.free + [name];
      assert free[..|free| - 1] == t.free;
      t' := DependencyTree(t.tree, free);
    }
    IndexOfStep(buildings, done, name, t, t');
  }

  /** DependencyTree::new: one pass over the catalog, pushing every consumer
      into the list of each resource it consumes and every other building
      into `free`. The catalog is a hash map, so the visiting order is left
      open. */
  method NewDependencyTree(buildings: AllBuildings) returns (t: DependencyTree)
    ensures IsIndex(buildings, t)
  {
    t := DependencyTree(map[], []);
    var todo := buildings.Keys;
    assert ConsumedBy(buildings, {}) == {};
    while todo != {}
      invariant todo <= buildings.Keys
      invariant IndexOf(buildings, buildings.Keys - todo, t)
      decreases todo
    {
      var name :| name in todo;
      ghost var done := buildings.Keys - todo;
      t := IndexBuilding(buildings, done, name, t);
      todo := todo - {name};
      assert buildings.Keys - todo == done + {name};
    }
  }

  /** A building that consumes something is listed under every resource it
      consumes, once. */
  lemma ConsumerListedOnce(buildings: AllBuildings, t: DependencyTree, b: BuildingId, r: ResourceId)
    requires IsIndex(buildings, t)
    requires b in buildings && r in buildings[b].consumed
    ensures r in t.tree && Count(t.tree[r], b) == 1 && b in t.tree[r]
  {
    assert Count(ListOf(t.tree, r), b) == ExpectedInTree(buildings, buildings.Keys, b, r);
    assert r in ConsumedBy(buildings, buildings.Keys);
    CountPositive(t.tree[r], b);
  }

  /** A building that consumes nothing is in `free` exactly once and in no
      `tree` list; a consumer is not in `free`. */
  lemma FreeIffNoConsumption(buildings: AllBuildings, t: DependencyTree, b: BuildingId)
    requires IsIndex(buildings, t)
    requires b in buildings
    ensures (b in t.free) <==> |buildings[b].consumed| == 0
    ensures b in t.free ==> Count(t.free, b) == 1 && forall r :: r in t.tree ==> b !in t.tree[r]
  {
    assert Count(t.free, b) == ExpectedInFree(buildings, buildings.Keys, b);
    CountPositive(t.free, b);
    if b in t.free {
      forall r | r in t.tree
        ensures b !in t.tree[r]
      {
        assert Count(ListOf(t.tree, r), b) == ExpectedInTree(buildings, buildings.Keys, b, r);
        CountPositive(t.tree[r], b);
      }
    }
  }

  /** Every catalog building is in `free` or in some `tree` list, never in both. */
  lemma EveryBuildingIndexed(buildings: AllBuildings, t: DependencyTree, b: BuildingId)
    requires IsIndex(buildings, t)
    requires b in buildings
    ensures (b in t.free) != (exists r :: r in t.tree && b in t.tree[r])
  {
    FreeIffNoConsumption(buildings, t, b);
    if b !in t.free {
      assert buildings[b].consumed.Keys != {};
      var r :| r in buildings[b].consumed;
      ConsumerListedOnce(buildings, t, b, r);
    }
  }

  /** Only catalog buildings are indexed. */
  lemma OnlyCatalogBuildings(buildings: AllBuildings, t: DependencyTree, b: BuildingId)
    requires IsIndex(buildings, t)
    requires b !in buildings
    ensures b !in t.free && forall r :: r in t.tree ==> b !in t.tree[r]
  {
    assert Count(t.free, b) == 0;
    CountPositive(t.free, b);
    forall r | r in t.tree
      ensures b !in t.tree[r]
    {
      assert Count(ListOf(t.tree, r), b) == ExpectedInTree(buildings, buildings.Keys, b, r);
      CountPositive(t.tree[r], b);
    }
  }

  /** The number of `tree` lists holding `b`, counted with multiplicity. */
  ghost function Occurrences(t: DependencyTree, b: BuildingId): int
  {
    SumOver(t.tree.Keys, (r: ResourceId) => if r in t.tree then Count(t.tree[r], b) else 0)
  }

  /** A building occurs in the `tree` lists exactly `consumed.len()` times. */
  lemma OccurrencesMatchConsumption(buildings: AllBuildings, t: DependencyTree, b: BuildingId)
    requires IsIndex(buildings, t)
    requires b in buildings
    ensures Occurrences(t, b) == |buildings[b].consumed|
  {
    var f := (r: ResourceId) => if r in t.tree then Count(t.tree[r], b) else 0;
    var k := buildings[b].consumed.Keys;
    forall r | r in t.tree.Keys
      ensures f(r) == if r in k then 1 else 0
    {
      assert Count(ListOf(t.tree, r), b) == ExpectedInTree(buildings, buildings.Keys, b, r);
    }
    SumOverIndicator(t.tree.Keys, k, f);
    assert t.tree.Keys * k == k;
  }

  /** Every key of `tree` is consumed by some catalog building. */
  lemma TreeKeysConsumed(buildings: AllBuildings, t: DependencyTree, r: ResourceId)
    requires IsIndex(buildings, t)
    requires r in t.tree
    ensures exists b :: b in buildings && r in buildings[b].consumed && b in t.tree[r]
  {
    assert r in ConsumedBy(buildings, buildings.Keys);
    var b :| b in buildings.Keys && b in buildings && r in buildings[b].consumed;
    ConsumerListedOnce(buildings, t, b, r);
  }
}
