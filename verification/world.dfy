/** The game world the mod works on: the definition database (which never
    changes while the game runs) and the mutable per-biome and per-plant
    fields the mod reads and overwrites. How the game turns those fields
    into a commonality is stated here once, as `Commonality`. */
module World {
  import opened Wrappers
  import opened LabelOrder

  /** The `plant` properties of a thing definition; only the cave flag matters. */
  datatype PlantProperties = PlantProperties(cavePlant: bool)

  /** A thing definition; plants are the things that have plant properties. */
  datatype ThingDef = ThingDef(defName: string, labelText: string, plant: Option<PlantProperties>)

  datatype BiomeDef = BiomeDef(defName: string, labelText: string)

  /** The definition database, in database order. */
  datatype Registry = Registry(things: seq<ThingDef>, biomes: seq<BiomeDef>)

  /** One entry of a biome's `wildPlants` list. */
  datatype PlantRecord = PlantRecord(plant: string, commonality: real)

  /** One entry of a plant's `wildBiomes` list. */
  datatype BiomeRecord = BiomeRecord(biome: string, commonality: real)

  /** The five derived caches a biome keeps next to its `wildPlants` list. */
  datatype CacheField =
    | CachedWildPlants
    | CachedPlantCommonalities
    | CachedPlantCommonalitiesSum
    | CachedLowestWildPlantOrder
    | CachedMaxWildPlantsClusterRadius

  /** The mutable fields of a biome; `filledCaches` lists the caches that
      currently hold a value (a cache not in the set is null). */
  datatype BiomeState = BiomeState(plantDensity: real, wildPlants: seq<PlantRecord>, filledCaches: set<CacheField>)

  /** The mutable fields of a plant; `wildBiomes` is null when `None`. */
  datatype PlantState = PlantState(cavePlantWeight: real, wildBiomes: Option<seq<BiomeRecord>>)

  /** The mutable fields of every biome and plant, by defName. */
  datatype Live = Live(biomes: map<string, BiomeState>, plants: map<string, PlantState>)

  /** Definition names are unique in the database, as the game guarantees. */
  predicate WellFormed(reg: Registry) {
    && NamesDistinct(reg.things, ThingName)
    && NamesDistinct(reg.biomes, BiomeName)
  }

  function ThingName(t: ThingDef): string { t.defName }
  function ThingLabel(t: ThingDef): string { t.labelText }
  function BiomeName(b: BiomeDef): string { b.defName }
  function BiomeLabel(b: BiomeDef): string { b.labelText }
  predicate IsPlantDef(t: ThingDef) { t.plant.Some? }
  predicate IsCavePlantDef(t: ThingDef) { t.plant.Some? && t.plant.value.cavePlant }

  /** The elements of `s` that satisfy `keep`, in order. */
  function Filter<T(!new)>(s: seq<T>, keep: T -> bool): (r: seq<T>)
    ensures forall x :: x in r <==> x in s && keep(x)
    ensures multiset(r) <= multiset(s)
  {
    if |s| == 0 then []
    else
      assert s == [s[0]] + s[1..];
      if keep(s[0]) then [s[0]] + Filter(s[1..], keep) else Filter(s[1..], keep)
  }

  lemma {:induction false} FilterKeepsNamesDistinct<T(!new)>(s: seq<T>, keep: T -> bool, name: T -> string)
    requires NamesDistinct(s, name)
    ensures NamesDistinct(Filter(s, keep), name)
    decreases |s|
  {
    if |s| > 0 {
      var tail := s[1..];
      assert NamesDistinct(tail, name) by {
        forall i, j | 0 <= i < j < |tail|
          ensures name(tail[i]) != name(tail[j])
        {
          assert tail[i] == s[i + 1] && tail[j] == s[j + 1];
        }
      }
      FilterKeepsNamesDistinct(tail, keep, name);
      if keep(s[0]) {
        forall y | y in Filter(tail, keep)
          ensures name(y) != name(s[0])
        {
          var k :| 0 <= k < |tail| && tail[k] == y;
          assert s[k + 1] == y;
        }
        NamesDistinctCons(s[0], Filter(tail, keep), name);
      }
    }
  }

  /** The names of `ds`, in order. */
  function Names<T>(ds: seq<T>, name: T -> string): (ns: seq<string>)
    ensures |ns| == |ds|
    ensures forall i | 0 <= i < |ds| :: ns[i] == name(ds[i])
  {
    seq(|ds|, i requires 0 <= i < |ds| => name(ds[i]))
  }

  /** The plant definitions, ordered by label (`Main.AllPlants`). */
  function PlantDefs(reg: Registry): (ds: seq<ThingDef>)
    ensures SortedBy(ds, ThingLabel)
    ensures forall t :: t in ds <==> t in reg.things && IsPlantDef(t)
  {
    var f := Filter(reg.things, IsPlantDef);
    var ds := SortByLabel(f, ThingLabel);
    assert forall t :: t in ds <==> t in f by {
      forall t ensures t in ds <==> t in f { SortKeepsMembers(f, ThingLabel, t); }
    }
    ds
  }

  /** The cave plant definitions, ordered by label (`Main.AllCavePlants`). */
  function CavePlantDefs(reg: Registry): (ds: seq<ThingDef>)
    ensures SortedBy(ds, ThingLabel)
    ensures forall t :: t in ds <==> t in reg.things && IsCavePlantDef(t)
  {
    var f := Filter(reg.things, IsCavePlantDef);
    var ds := SortByLabel(f, ThingLabel);
    assert forall t :: t in ds <==> t in f by {
      forall t ensures t in ds <==> t in f { SortKeepsMembers(f, ThingLabel, t); }
    }
    ds
  }

  /** The biome definitions, ordered by label (`Main.AllBiomes`). */
  function BiomeDefs(reg: Registry): (ds: seq<BiomeDef>)
    ensures SortedBy(ds, BiomeLabel)
    ensures forall b :: b in ds <==> b in reg.biomes
  {
    var ds := SortByLabel(reg.biomes, BiomeLabel);
    assert forall b :: b in ds <==> b in reg.biomes by {
      forall b ensures b in ds <==> b in reg.biomes { SortKeepsMembers(reg.biomes, BiomeLabel, b); }
    }
    ds
  }

  /** `name` is the defName of a plant definition. */
  predicate IsPlant(reg: Registry, name: string) {
    exists t | t in reg.things :: IsPlantDef(t) && t.defName == name
  }

  predicate IsCavePlant(reg: Registry, name: string) {
    exists t | t in reg.things :: IsCavePlantDef(t) && t.defName == name
  }

  predicate IsBiome(reg: Registry, name: string) {
    exists b | b in reg.biomes :: b.defName == name
  }

  /** The plants' defNames, in the label order of `PlantDefs`. */
  function AllPlants(reg: Registry): (ps: seq<string>)
    ensures |ps| == |PlantDefs(reg)|
    ensures forall i | 0 <= i < |ps| :: ps[i] == PlantDefs(reg)[i].defName
    ensures forall p :: p in ps <==> IsPlant(reg, p)
  {
    var ds := PlantDefs(reg);
    var ps := Names(ds, ThingName);
    assert forall p :: p in ps <==> IsPlant(reg, p) by {
      forall p ensures p in ps <==> IsPlant(reg, p) {
        NameIn(ds, ThingName, p);
      }
    }
    ps
  }

  /** The cave plants' defNames, in the label order of `CavePlantDefs`. */
  function AllCavePlants(reg: Registry): (ps: seq<string>)
    ensures |ps| == |CavePlantDefs(reg)|
    ensures forall i | 0 <= i < |ps| :: ps[i] == CavePlantDefs(reg)[i].defName
    ensures forall p :: p in ps <==> IsCavePlant(reg, p)
    ensures forall p | p in ps :: p in AllPlants(reg)
  {
    var ds := CavePlantDefs(reg);
    var ps := Names(ds, ThingName);
    assert forall p :: p in ps <==> IsCavePlant(reg, p) by {
      forall p ensures p in ps <==> IsCavePlant(reg, p) {
        NameIn(ds, ThingName, p);
      }
    }
    assert forall p | p in ps :: p in AllPlants(reg) by {
      forall p | p in ps ensures p in AllPlants(reg) {
        var t :| t in reg.things && IsCavePlantDef(t) && t.defName == p;
        assert IsPlantDef(t);
      }
    }
    ps
  }

  /** The biomes' defNames, in the label order of `BiomeDefs`. */
  function AllBiomes(reg: Registry): (bs: seq<string>)
    ensures |bs| == |BiomeDefs(reg)|
    ensures forall i | 0 <= i < |bs| :: bs[i] == BiomeDefs(reg)[i].defName
    ensures forall b :: b in bs <==> IsBiome(reg, b)
  {
    var ds := BiomeDefs(reg);
    var bs := Names(ds, BiomeName);
    assert forall b :: b in bs <==> IsBiome(reg, b) by {
      forall b ensures b in bs <==> IsBiome(reg, b) {
        NameIn(ds, BiomeName, b);
      }
    }
    bs
  }

  /** A name is among the names of `ds` exactly when some element has it. */
  lemma NameIn<T>(ds: seq<T>, name: T -> string, p: string)
    ensures p in Names(ds, name) <==> exists t | t in ds :: name(t) == p
  {
    var ns := Names(ds, name);
    if p in ns {
      var i :| 0 <= i < |ns| && ns[i] == p;
      assert ds[i] in ds;
    }
    if exists t | t in ds :: name(t) == p {
      var t :| t in ds && name(t) == p;
      var i :| 0 <= i < |ds| && ds[i] == t;
      assert ns[i] == p;
    }
  }

  /** Every cave plant is a plant. */
  lemma CavePlantsArePlants(reg: Registry, p: string)
    requires p in AllCavePlants(reg)
    ensures p in AllPlants(reg)
  {
    var t :| t in reg.things && IsCavePlantDef(t) && t.defName == p;
    assert IsPlantDef(t);
  }

  /** In a well-formed database each list names every definition once. */
  lemma AllPlantsDistinct(reg: Registry)
    requires WellFormed(reg)
    ensures forall i, j | 0 <= i < j < |AllPlants(reg)| :: AllPlants(reg)[i] != AllPlants(reg)[j]
  {
    FilterKeepsNamesDistinct(reg.things, IsPlantDef, ThingName);
    SortKeepsNamesDistinct(Filter(reg.things, IsPlantDef), ThingLabel, ThingName);
  }

  lemma AllBiomesDistinct(reg: Registry)
    requires WellFormed(reg)
    ensures forall i, j | 0 <= i < j < |AllBiomes(reg)| :: AllBiomes(reg)[i] != AllBiomes(reg)[j]
  {
    SortKeepsNamesDistinct(reg.biomes, BiomeLabel, BiomeName);
  }

  /** The live state has fields for exactly the biomes and plants of the database. */
  predicate Matches(reg: Registry, live: Live) {
    && (forall b | b in live.biomes :: IsBiome(reg, b))
    && (forall b | b in AllBiomes(reg) :: b in live.biomes)
    && (forall p | p in live.plants :: IsPlant(reg, p))
    && (forall p | p in AllPlants(reg) :: p in live.plants)
  }

  /** The first record for plant `p`, the one `FirstOrFallback` finds. */
  function FirstRecord(records: seq<PlantRecord>, p: string): (r: Option<PlantRecord>)
    ensures r.Some? ==> r.value in records && r.value.plant == p
    ensures r.Some? ==> exists i | 0 <= i < |records| ::
      records[i] == r.value && forall j | 0 <= j < i :: records[j].plant != p
    ensures r.None? <==> forall i | 0 <= i < |records| :: records[i].plant != p
  {
    if |records| == 0 then None
    else if records[0].plant == p then Some(records[0])
    else
      var r := FirstRecord(records[1..], p);
      assert forall i | 1 <= i < |records| :: records[i] == records[1..][i - 1];
      r
  }

  function FirstBiomeRecord(records: seq<BiomeRecord>, b: string): (r: Option<BiomeRecord>)
    ensures r.Some? ==> r.value in records && r.value.biome == b
    ensures r.Some? ==> exists i | 0 <= i < |records| ::
      records[i] == r.value && forall j | 0 <= j < i :: records[j].biome != b
    ensures r.None? <==> forall i | 0 <= i < |records| :: records[i].biome != b
  {
    if |records| == 0 then None
    else if records[0].biome == b then Some(records[0])
    else
      var r := FirstBiomeRecord(records[1..], b);
      assert forall i | 1 <= i < |records| :: records[i] == records[1..][i - 1];
      r
  }

  /** How common plant `p` is in the biome whose fields are `st`: the biome's
      own record for `p` if it has one, else the entry for this biome in the
      plant's `wildBiomes` list, else 0. */
  function CommonalityIn(st: BiomeState, plants: map<string, PlantState>, b: string, p: string): real {
    match FirstRecord(st.wildPlants, p)
    case Some(r) => r.commonality
    case None =>
      if p in plants && plants[p].wildBiomes.Some? then
        match FirstBiomeRecord(plants[p].wildBiomes.value, b)
        case Some(r) => r.commonality
        case None => 0.0
      else 0.0
  }

  /** `BiomeDef.CommonalityOfPlant` over the live state. */
  function Commonality(live: Live, b: string, p: string): real
    requires b in live.biomes
  {
    CommonalityIn(live.biomes[b], live.plants, b, p)
  }

  /** The plants of the database, in database order, with a positive
      commonality in biome `b` (`BiomeDef.AllWildPlants`). */
  function WildPlantsIn(things: seq<ThingDef>, st: BiomeState, plants: map<string, PlantState>, b: string): (ws: seq<string>)
    ensures forall p :: p in ws <==>
      exists t | t in things :: IsPlantDef(t) && t.defName == p && CommonalityIn(st, plants, b, p) > 0.0
  {
    if |things| == 0 then []
    else
      var t := things[0];
      var rest := WildPlantsIn(things[1..], st, plants, b);
      assert forall u :: u in things <==> u == t || u in things[1..] by {
        assert things == [t] + things[1..];
      }
      if IsPlantDef(t) && CommonalityIn(st, plants, b, t.defName) > 0.0 then [t.defName] + rest else rest
  }

  function AllWildPlants(reg: Registry, live: Live, b: string): (ws: seq<string>)
    requires b in live.biomes
    ensures forall p :: p in ws <==> IsPlant(reg, p) && Commonality(live, b, p) > 0.0
  {
    WildPlantsIn(reg.things, live.biomes[b], live.plants, b)
  }
}
