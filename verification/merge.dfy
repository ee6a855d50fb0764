/** The static `Main` class: the vanilla snapshot taken once at startup, the
    merge that writes overrides over that snapshot into the live biomes
    (`ApplyBiomeSettings`), the reset to vanilla rates and the log gate. */
module Merge {
  import opened Wrappers
  import opened World
  import opened Overrides

  /** The values the game had before the mod touched anything. */
  datatype Vanilla = Vanilla(
    spawnRates: map<string, seq<PlantRecord>>,
    densities: map<string, real>,
    caveWeights: map<string, real>)

  /** Everything the mod's logic reads and writes. */
  datatype Game = Game(reg: Registry, live: Live, vanilla: Vanilla, store: Store)

  /** The snapshot covers every biome's density and every cave plant's weight. */
  predicate CaptureComplete(reg: Registry, vanilla: Vanilla) {
    && (forall b | b in AllBiomes(reg) :: b in vanilla.densities)
    && (forall p | p in AllCavePlants(reg) :: p in vanilla.caveWeights)
  }

  predicate Valid(g: Game) {
    WellFormed(g.reg) && Matches(g.reg, g.live) && CaptureComplete(g.reg, g.vanilla)
  }

  /** No plant carries a `wildBiomes` list any more (after `clearPlantDefs`). */
  predicate Cleared(live: Live) {
    forall p | p in live.plants :: live.plants[p].wildBiomes.None?
  }

  // ---------------------------------------------------------------------
  // Vanilla capture (`saveVanillaValues`)
  // ---------------------------------------------------------------------

  /** The records captured for biome `b`: one per wild plant, in database
      order, each with the plant's commonality at capture time. */
  function CapturedRecords(reg: Registry, live: Live, b: string): (rs: seq<PlantRecord>)
    requires b in live.biomes
    ensures |rs| == |AllWildPlants(reg, live, b)|
    ensures forall i | 0 <= i < |rs| ::
      rs[i].plant == AllWildPlants(reg, live, b)[i] && rs[i].commonality == Commonality(live, b, rs[i].plant)
  {
    var ws := AllWildPlants(reg, live, b);
    seq(|ws|, i requires 0 <= i < |ws| => PlantRecord(ws[i], Commonality(live, b, ws[i])))
  }

  /** The biome loop of `saveVanillaValues`: every biome's density, and the
      spawn list of every biome that has at least one wild plant. */
  function CaptureBiomes(reg: Registry, live: Live, bs: seq<string>, v: Vanilla): (r: Vanilla)
    requires forall b | b in bs :: b in live.biomes
    ensures r.caveWeights == v.caveWeights
    ensures forall b :: b in r.densities <==> b in v.densities || b in bs
    ensures forall b | b in bs :: r.densities[b] == live.biomes[b].plantDensity
    ensures forall b | b in v.densities && b !in bs :: r.densities[b] == v.densities[b]
    ensures forall b :: b in r.spawnRates <==>
      b in v.spawnRates || (b in bs && |AllWildPlants(reg, live, b)| > 0)
    ensures forall b | b in bs && |AllWildPlants(reg, live, b)| > 0 ::
      r.spawnRates[b] == CapturedRecords(reg, live, b)
    ensures forall b | b in v.spawnRates && (b !in bs || |AllWildPlants(reg, live, b)| == 0) ::
      r.spawnRates[b] == v.spawnRates[b]
    decreases |bs|
  {
    if |bs| == 0 then v
    else
      var b := bs[0];
      assert forall c :: c in bs <==> c == b || c in bs[1..] by {
        assert bs == [b] + bs[1..];
      }
      var densities := v.densities[b := live.biomes[b].plantDensity];
      var spawnRates :=
        if |AllWildPlants(reg, live, b)| == 0 then v.spawnRates
        else v.spawnRates[b := CapturedRecords(reg, live, b)];
      CaptureBiomes(reg, live, bs[1..], Vanilla(spawnRates, densities, v.caveWeights))
  }

  /** The cave plant loop of `saveVanillaValues`. */
  function CaptureCaveWeights(live: Live, ps: seq<string>, v: Vanilla): (r: Vanilla)
    requires forall p | p in ps :: p in live.plants
    ensures r.spawnRates == v.spawnRates && r.densities == v.densities
    ensures forall p :: p in r.caveWeights <==> p in v.caveWeights || p in ps
    ensures forall p | p in ps :: r.caveWeights[p] == live.plants[p].cavePlantWeight
    ensures forall p | p in v.caveWeights && p !in ps :: r.caveWeights[p] == v.caveWeights[p]
    decreases |ps|
  {
    if |ps| == 0 then v
    else
      var p := ps[0];
      assert forall q :: q in ps <==> q == p || q in ps[1..] by {
        assert ps == [p] + ps[1..];
      }
      CaptureCaveWeights(live, ps[1..], v.(caveWeights := v.caveWeights[p := live.plants[p].cavePlantWeight]))
  }

  /** `saveVanillaValues`, starting from the empty dictionaries. */
  function SaveVanillaValues(reg: Registry, live: Live): (v: Vanilla)
    requires Matches(reg, live)
    ensures CaptureComplete(reg, v)
    ensures forall b :: b in v.densities <==> IsBiome(reg, b)
    ensures forall b | b in v.densities :: b in live.biomes && v.densities[b] == live.biomes[b].plantDensity
    ensures forall b :: b in v.spawnRates <==> IsBiome(reg, b) && b in live.biomes && |AllWildPlants(reg, live, b)| > 0
    ensures forall b | b in v.spawnRates :: b in live.biomes && v.spawnRates[b] == CapturedRecords(reg, live, b)
    ensures forall p :: p in v.caveWeights <==> IsCavePlant(reg, p)
    ensures forall p | p in v.caveWeights :: p in live.plants && v.caveWeights[p] == live.plants[p].cavePlantWeight
  {
    var bs := AllBiomes(reg);
    var ps := AllCavePlants(reg);
    assert forall p | p in ps :: p in live.plants by {
      forall p | p in ps ensures p in live.plants { CavePlantsArePlants(reg, p); }
    }
    CaptureCaveWeights(live, ps, CaptureBiomes(reg, live, bs, Vanilla(map[], map[], map[])))
  }

  /** The first vanilla record for `p` in `b`, if the snapshot has one. */
  function VanillaRecord(vanilla: Vanilla, b: string, p: string): (r: Option<PlantRecord>)
    ensures r.Some? ==> r.value.plant == p
  {
    if b in vanilla.spawnRates then FirstRecord(vanilla.spawnRates[b], p) else None
  }

  /** The commonality the snapshot gives `p` in `b`; 0 when it has no record. */
  function VanillaCommonality(vanilla: Vanilla, b: string, p: string): real {
    match VanillaRecord(vanilla, b, p)
    case Some(r) => r.commonality
    case None => 0.0
  }

  /** The snapshot holds, for every biome and plant, the commonality the game
      had at capture time, as long as that was not negative. */
  lemma CapturedCommonality(reg: Registry, live: Live, b: string, p: string)
    requires Matches(reg, live) && IsBiome(reg, b) && IsPlant(reg, p)
    requires Commonality(live, b, p) >= 0.0
    ensures VanillaCommonality(SaveVanillaValues(reg, live), b, p) == Commonality(live, b, p)
  {
    var v := SaveVanillaValues(reg, live);
    var ws := AllWildPlants(reg, live, b);
    if Commonality(live, b, p) > 0.0 {
      assert p in ws;
      var rs := v.spawnRates[b];
      var i :| 0 <= i < |ws| && ws[i] == p;
      assert rs[i].plant == p;
      var r := FirstRecord(rs, p).value;
      var j :| 0 <= j < |rs| && rs[j] == r;
    } else if b in v.spawnRates {
      var rs := v.spawnRates[b];
      assert forall i | 0 <= i < |rs| :: rs[i].plant != p by {
        forall i | 0 <= i < |rs| ensures rs[i].plant != p {
          assert rs[i].plant == ws[i];
        }
      }
    }
  }

  // ---------------------------------------------------------------------
  // The merge (`ApplyBiomeSettings`)
  // ---------------------------------------------------------------------

  /** What the merge gives `p` in `b`: the override if there is one, else the
      vanilla commonality, else 0. */
  function EffectiveCommonality(store: Store, vanilla: Vanilla, b: string, p: string): real {
    match Lookup(store.spawnRates, b, p)
    case Some(v) => v
    case None => VanillaCommonality(vanilla, b, p)
  }

  function EffectiveDensity(store: Store, vanilla: Vanilla, b: string): real
    requires b in vanilla.densities
  {
    if b in store.densities then store.densities[b] else vanilla.densities[b]
  }

  /** The new `wildPlants` list for `b`: for each plant of `ps`, the override
      as a new record, else the vanilla record itself, else a new record
      with commonality 0. */
  function BuildRecords(ps: seq<string>, store: Store, vanilla: Vanilla, b: string): (rs: seq<PlantRecord>)
    ensures |rs| == |ps|
    ensures forall i | 0 <= i < |ps| ::
      rs[i].plant == ps[i] && rs[i].commonality == EffectiveCommonality(store, vanilla, b, ps[i])
  {
    if |ps| == 0 then []
    else
      var p := ps[0];
      var record :=
        if b in store.spawnRates && p in store.spawnRates[b] then PlantRecord(p, store.spawnRates[b][p])
        else match VanillaRecord(vanilla, b, p)
          case Some(r) => r
          case None => PlantRecord(p, 0.0);
      [record] + BuildRecords(ps[1..], store, vanilla, b)
  }

  /** The new fields of biome `b`; all five caches end up null. */
  function ApplyBiome(reg: Registry, vanilla: Vanilla, store: Store, b: string): BiomeState
    requires b in vanilla.densities
  {
    BiomeState(EffectiveDensity(store, vanilla, b), BuildRecords(AllPlants(reg), store, vanilla, b), {})
  }

  /** The biome loop of `ApplyBiomeSettings`. */
  function ApplyAll(reg: Registry, vanilla: Vanilla, store: Store, bs: seq<string>, live: Live): (r: Live)
    requires forall b | b in bs :: b in vanilla.densities
    ensures r.plants == live.plants
    ensures forall b :: b in r.biomes <==> b in live.biomes || b in bs
    ensures forall b | b in bs :: r.biomes[b] == ApplyBiome(reg, vanilla, store, b)
    ensures forall b | b in live.biomes && b !in bs :: r.biomes[b] == live.biomes[b]
    decreases |bs|
  {
    if |bs| == 0 then live
    else
      var b := bs[0];
      assert forall c :: c in bs <==> c == b || c in bs[1..] by {
        assert bs == [b] + bs[1..];
      }
      ApplyAll(reg, vanilla, store, bs[1..], live.(biomes := live.biomes[b := ApplyBiome(reg, vanilla, store, b)]))
  }

  /** Reading the records back: the first record for `p` in a list built for
      a sequence of plants that contains `p` has the effective commonality. */
  lemma BuiltRecordsReadBack(ps: seq<string>, store: Store, vanilla: Vanilla, b: string, p: string)
    requires p in ps
    ensures FirstRecord(BuildRecords(ps, store, vanilla, b), p).Some?
    ensures FirstRecord(BuildRecords(ps, store, vanilla, b), p).value.commonality == EffectiveCommonality(store, vanilla, b, p)
  {
    var rs := BuildRecords(ps, store, vanilla, b);
    var i :| 0 <= i < |ps| && ps[i] == p;
    assert rs[i].plant == p;
    var r := FirstRecord(rs, p).value;
    var j :| 0 <= j < |rs| && rs[j] == r;
  }

  /** The live biomes agree with the merge of the overrides over the snapshot. */
  predicate InSync(g: Game)
    requires CaptureComplete(g.reg, g.vanilla)
  {
    forall b | b in AllBiomes(g.reg) ::
      && b in g.live.biomes
      && g.live.biomes[b].plantDensity == EffectiveDensity(g.store, g.vanilla, b)
      && (forall p | p in AllPlants(g.reg) ::
            Commonality(g.live, b, p) == EffectiveCommonality(g.store, g.vanilla, b, p))
  }

  /** `ApplyBiomeSettings`: every biome gets the overridden-else-vanilla
      density, one record per plant in `AllPlants` order, and null caches;
      reading the commonalities back gives the overridden-else-vanilla
      values. Nothing else changes. */
  function ApplyBiomeSettings(g: Game): (r: Game)
    requires CaptureComplete(g.reg, g.vanilla)
    ensures r.reg == g.reg && r.vanilla == g.vanilla && r.store == g.store
    ensures r.live.plants == g.live.plants
    ensures forall b :: b in r.live.biomes <==> b in g.live.biomes || b in AllBiomes(g.reg)
    ensures forall b | b in g.live.biomes && b !in AllBiomes(g.reg) :: r.live.biomes[b] == g.live.biomes[b]
    ensures forall b | b in AllBiomes(g.reg) ::
      && r.live.biomes[b].filledCaches == {}
      && |r.live.biomes[b].wildPlants| == |AllPlants(g.reg)|
      && (forall i | 0 <= i < |AllPlants(g.reg)| :: r.live.biomes[b].wildPlants[i].plant == AllPlants(g.reg)[i])
    ensures InSync(r)
    ensures Matches(g.reg, g.live) ==> Matches(r.reg, r.live)
  {
    var live := ApplyAll(g.reg, g.vanilla, g.store, AllBiomes(g.reg), g.live);
    var r := g.(live := live);
    assert InSync(r) by {
      forall b, p | b in AllBiomes(g.reg) && p in AllPlants(g.reg)
        ensures Commonality(live, b, p) == EffectiveCommonality(g.store, g.vanilla, b, p)
      {
        BuiltRecordsReadBack(AllPlants(g.reg), g.store, g.vanilla, b, p);
      }
    }
    r
  }

  /** Applying twice is applying once: the result depends only on the
      overrides, the snapshot and the definition lists. */
  lemma ApplyIdempotent(g: Game)
    requires CaptureComplete(g.reg, g.vanilla)
    ensures ApplyBiomeSettings(ApplyBiomeSettings(g)) == ApplyBiomeSettings(g)
  {
    var bs := AllBiomes(g.reg);
    var l1 := ApplyAll(g.reg, g.vanilla, g.store, bs, g.live);
    ApplyAllTwice(g.reg, g.vanilla, g.store, bs, g.live);
    assert ApplyBiomeSettings(g) == g.(live := l1);
  }

  lemma ApplyAllTwice(reg: Registry, vanilla: Vanilla, store: Store, bs: seq<string>, live: Live)
    requires forall b | b in bs :: b in vanilla.densities
    ensures ApplyAll(reg, vanilla, store, bs, ApplyAll(reg, vanilla, store, bs, live))
         == ApplyAll(reg, vanilla, store, bs, live)
  {
    var l1 := ApplyAll(reg, vanilla, store, bs, live);
    var l2 := ApplyAll(reg, vanilla, store, bs, l1);
    assert l2.biomes == l1.biomes by {
      forall b | b in l1.biomes
        ensures l2.biomes[b] == l1.biomes[b]
      {
      }
    }
  }

  // ---------------------------------------------------------------------
  // Startup (the static constructor)
  // ---------------------------------------------------------------------

  /** The plant loop of `clearPlantDefs`: each plant's `wildBiomes` becomes null. */
  function ClearPlantDefs(ps: seq<string>, live: Live): (r: Live)
    requires forall p | p in ps :: p in live.plants
    ensures r.biomes == live.biomes
    ensures r.plants.Keys == live.plants.Keys
    ensures forall p | p in ps :: r.plants[p] == live.plants[p].(wildBiomes := None)
    ensures forall p | p in live.plants && p !in ps :: r.plants[p] == live.plants[p]
    decreases |ps|
  {
    if |ps| == 0 then live
    else
      var p := ps[0];
      assert forall q :: q in ps <==> q == p || q in ps[1..] by {
        assert ps == [p] + ps[1..];
      }
      if live.plants[p].wildBiomes.None? then ClearPlantDefs(ps[1..], live)
      else ClearPlantDefs(ps[1..], live.(plants := live.plants[p := live.plants[p].(wildBiomes := None)]))
  }

  /** Sets the cave weight of every plant of `ps` that has an entry in
      `weights`; the others keep theirs. */
  function SetCaveWeights(ps: seq<string>, live: Live, weights: map<string, real>): (r: Live)
    requires forall p | p in ps :: p in live.plants
    ensures r.biomes == live.biomes
    ensures r.plants.Keys == live.plants.Keys
    ensures forall p | p in ps && p in weights :: r.plants[p] == live.plants[p].(cavePlantWeight := weights[p])
    ensures forall p | p in live.plants && (p !in ps || p !in weights) :: r.plants[p] == live.plants[p]
    ensures forall p | p in live.plants :: r.plants[p].wildBiomes == live.plants[p].wildBiomes
    decreases |ps|
  {
    if |ps| == 0 then live
    else
      var p := ps[0];
      assert forall q :: q in ps <==> q == p || q in ps[1..] by {
        assert ps == [p] + ps[1..];
      }
      if p in weights then
        SetCaveWeights(ps[1..], live.(plants := live.plants[p := live.plants[p].(cavePlantWeight := weights[p])]), weights)
      else SetCaveWeights(ps[1..], live, weights)
  }

  /** The first three steps of the static constructor: capture, clear
      `wildBiomes`, merge. */
  function CaptureClearApply(reg: Registry, live: Live, store: Store): (g: Game)
    requires WellFormed(reg) && Matches(reg, live)
    ensures Valid(g) && Cleared(g.live) && InSync(g)
    ensures g.reg == reg && g.store == store
    ensures forall p | p in AllCavePlants(reg) :: g.vanilla.caveWeights[p] == live.plants[p].cavePlantWeight
    ensures g.live.plants.Keys == live.plants.Keys
    ensures forall p | p in live.plants :: g.live.plants[p].cavePlantWeight == live.plants[p].cavePlantWeight
  {
    var vanilla := SaveVanillaValues(reg, live);
    var cleared := ClearPlantDefs(AllPlants(reg), live);
    ClearPlantDefsClears(reg, live);
    assert Matches(reg, cleared) by {
      assert cleared.biomes == live.biomes && cleared.plants.Keys == live.plants.Keys;
    }
    var g := ApplyBiomeSettings(Game(reg, cleared, vanilla, store));
    assert Cleared(g.live) by {
      assert g.live.plants == cleared.plants;
    }
    g
  }

  /** The static constructor: capture, clear `wildBiomes`, merge, then apply
      the saved cave weights. */
  function Startup(reg: Registry, live: Live, store: Store): (g: Game)
    requires WellFormed(reg) && Matches(reg, live)
    ensures Valid(g) && Cleared(g.live) && InSync(g)
    ensures g.reg == reg && g.store == store
    ensures forall p | p in AllCavePlants(reg) ::
      && p in live.plants && p in g.vanilla.caveWeights && p in g.live.plants
      && g.vanilla.caveWeights[p] == live.plants[p].cavePlantWeight
      && g.live.plants[p].cavePlantWeight ==
         (if p in store.caveWeights then store.caveWeights[p] else g.vanilla.caveWeights[p])
  {
    var applied := CaptureClearApply(reg, live, store);
    var cave := AllCavePlants(reg);
    CavePlantsHaveState(reg, applied.live);
    var g := applied.(live := SetCaveWeights(cave, applied.live, store.caveWeights));
    CaveWeightsKeepValid(applied, g.live);
    InSyncIgnoresCaveWeights(applied, g.live);
    CaveWeightsAfterStartup(reg, live, store, applied, g);
    g
  }

  lemma CavePlantsHaveState(reg: Registry, live: Live)
    requires Matches(reg, live)
    ensures forall p | p in AllCavePlants(reg) :: p in live.plants
  {
    forall p | p in AllCavePlants(reg) ensures p in live.plants {
      CavePlantsArePlants(reg, p);
    }
  }

  /** Setting cave weights keeps a game valid and cleared. */
  lemma CaveWeightsKeepValid(g: Game, live: Live)
    requires Valid(g) && Cleared(g.live)
    requires live.biomes == g.live.biomes && live.plants.Keys == g.live.plants.Keys
    requires forall p | p in live.plants :: live.plants[p].wildBiomes == g.live.plants[p].wildBiomes
    ensures Valid(g.(live := live)) && Cleared(live)
  {
    assert forall p :: p in live.plants <==> p in g.live.plants;
    assert Matches(g.reg, live);
  }

  lemma CaveWeightsAfterStartup(reg: Registry, live: Live, store: Store, applied: Game, g: Game)
    requires Matches(reg, live) && CaptureComplete(reg, applied.vanilla)
    requires forall p | p in AllCavePlants(reg) :: applied.vanilla.caveWeights[p] == live.plants[p].cavePlantWeight
    requires applied.live.plants.Keys == live.plants.Keys
    requires forall p | p in live.plants :: applied.live.plants[p].cavePlantWeight == live.plants[p].cavePlantWeight
    requires g == applied.(live := SetCaveWeights(AllCavePlants(reg), applied.live, store.caveWeights))
    ensures forall p | p in AllCavePlants(reg) ::
      && p in live.plants && p in g.vanilla.caveWeights && p in g.live.plants
      && g.vanilla.caveWeights[p] == live.plants[p].cavePlantWeight
      && g.live.plants[p].cavePlantWeight ==
         (if p in store.caveWeights then store.caveWeights[p] else g.vanilla.caveWeights[p])
  {
  }

  lemma ClearPlantDefsClears(reg: Registry, live: Live)
    requires Matches(reg, live)
    ensures Cleared(ClearPlantDefs(AllPlants(reg), live))
  {
  }

  /** Cave weights play no part in commonalities. */
  lemma InSyncIgnoresCaveWeights(g: Game, live: Live)
    requires CaptureComplete(g.reg, g.vanilla) && InSync(g)
    requires live.biomes == g.live.biomes && live.plants.Keys == g.live.plants.Keys
    requires forall p | p in live.plants :: live.plants[p].wildBiomes == g.live.plants[p].wildBiomes
    ensures InSync(g.(live := live))
  {
    forall b, p | b in AllBiomes(g.reg) && p in AllPlants(g.reg)
      ensures Commonality(live, b, p) == Commonality(g.live, b, p)
    {
      CommonalityReadsOnlyWildBiomes(live.biomes[b], live.plants, g.live.plants, b, p);
    }
  }

  lemma CommonalityReadsOnlyWildBiomes(st: BiomeState, plants: map<string, PlantState>, other: map<string, PlantState>,
                                       b: string, p: string)
    requires (p in plants <==> p in other)
    requires p in plants ==> plants[p].wildBiomes == other[p].wildBiomes
    ensures CommonalityIn(st, plants, b, p) == CommonalityIn(st, other, b, p)
  {
  }

  /** A plant without an override keeps, through startup, the commonality it
      had before the mod ran in every biome, even when that commonality came
      from the plant's own `wildBiomes` list, which startup clears: the
      snapshot is taken before the clearing. */
  lemma StartupKeepsCommonalities(reg: Registry, live: Live, store: Store, b: string, p: string)
    requires WellFormed(reg) && Matches(reg, live)
    requires IsBiome(reg, b) && IsPlant(reg, p)
    requires Lookup(store.spawnRates, b, p) == None
    requires Commonality(live, b, p) >= 0.0
    ensures Commonality(Startup(reg, live, store).live, b, p) == Commonality(live, b, p)
  {
    CapturedCommonality(reg, live, b, p);
  }

  // ---------------------------------------------------------------------
  // `ResetToVanillaRates`
  // ---------------------------------------------------------------------

  /** One biome of `ResetToVanillaRates`: density back to vanilla; unless the
      biome has neither wild plants nor a vanilla list, its list becomes the
      vanilla list (or empty) and only the commonality cache is nulled. */
  function ResetBiome(reg: Registry, st: BiomeState, plants: map<string, PlantState>, vanilla: Vanilla, b: string): (r: BiomeState)
    requires b in vanilla.densities
    ensures r.plantDensity == vanilla.densities[b]
    ensures b in vanilla.spawnRates ==>
      r.wildPlants == vanilla.spawnRates[b] && r.filledCaches == st.filledCaches - {CachedPlantCommonalities}
    ensures b !in vanilla.spawnRates && NoWildPlants(reg, st, plants, b) ==>
      r.wildPlants == st.wildPlants && r.filledCaches == st.filledCaches
    ensures b !in vanilla.spawnRates && !NoWildPlants(reg, st, plants, b) ==>
      r.wildPlants == [] && r.filledCaches == st.filledCaches - {CachedPlantCommonalities}
  {
    var s := st.(plantDensity := vanilla.densities[b]);
    WildPlantsInEmpty(reg.things, s, plants, b);
    if |WildPlantsIn(reg.things, s, plants, b)| == 0 && b !in vanilla.spawnRates then s
    else s.(
      wildPlants := if b in vanilla.spawnRates then vanilla.spawnRates[b] else [],
      filledCaches := s.filledCaches - {CachedPlantCommonalities})
  }

  /** No plant of the database has a positive commonality in the biome
      whose fields are `st` (`!biome.AllWildPlants.Any()`). */
  predicate NoWildPlants(reg: Registry, st: BiomeState, plants: map<string, PlantState>, b: string) {
    forall t | t in reg.things && IsPlantDef(t) :: CommonalityIn(st, plants, b, t.defName) <= 0.0
  }

  lemma WildPlantsInEmpty(things: seq<ThingDef>, st: BiomeState, plants: map<string, PlantState>, b: string)
    ensures |WildPlantsIn(things, st, plants, b)| == 0 <==>
      forall t | t in things && IsPlantDef(t) :: CommonalityIn(st, plants, b, t.defName) <= 0.0
  {
    var ws := WildPlantsIn(things, st, plants, b);
    if |ws| > 0 {
      assert ws[0] in ws;
    }
  }

  function ResetAll(reg: Registry, vanilla: Vanilla, bs: seq<string>, live: Live): (r: Live)
    requires forall b | b in bs :: b in vanilla.densities && b in live.biomes
    requires forall i, j | 0 <= i < j < |bs| :: bs[i] != bs[j]
    ensures r.plants == live.plants
    ensures r.biomes.Keys == live.biomes.Keys
    ensures forall b | b in bs :: r.biomes[b] == ResetBiome(reg, live.biomes[b], live.plants, vanilla, b)
    ensures forall b | b in live.biomes && b !in bs :: r.biomes[b] == live.biomes[b]
    decreases |bs|
  {
    if |bs| == 0 then live
    else
      var b := bs[0];
      assert forall c :: c in bs <==> c == b || c in bs[1..] by {
        assert bs == [b] + bs[1..];
      }
      assert b !in bs[1..] by {
        forall k | 0 <= k < |bs[1..]| ensures bs[1..][k] != b { assert bs[1..][k] == bs[k + 1]; }
      }
      var next := live.(biomes := live.biomes[b := ResetBiome(reg, live.biomes[b], live.plants, vanilla, b)]);
      ResetAll(reg, vanilla, bs[1..], next)
  }

  /** `ResetToVanillaRates`: every biome's density is vanilla again; a biome
      with a vanilla list gets that list back. Only the commonality cache is
      nulled, so a filled wild-plant cache stays filled. */
  function ResetToVanillaRates(g: Game): (r: Game)
    requires Valid(g)
    ensures r.reg == g.reg && r.vanilla == g.vanilla && r.store == g.store
    ensures r.live.plants == g.live.plants && r.live.biomes.Keys == g.live.biomes.Keys
    ensures forall b | b in AllBiomes(g.reg) :: r.live.biomes[b].plantDensity == g.vanilla.densities[b]
    ensures forall b | b in AllBiomes(g.reg) && b in g.vanilla.spawnRates ::
      && r.live.biomes[b].wildPlants == g.vanilla.spawnRates[b]
      && r.live.biomes[b].filledCaches == g.live.biomes[b].filledCaches - {CachedPlantCommonalities}
    ensures forall b | b in AllBiomes(g.reg) && b !in g.vanilla.spawnRates ::
      if NoWildPlants(g.reg, g.live.biomes[b], g.live.plants, b)
      then r.live.biomes[b] == g.live.biomes[b].(plantDensity := g.vanilla.densities[b])
      else
        && r.live.biomes[b].wildPlants == []
        && r.live.biomes[b].filledCaches == g.live.biomes[b].filledCaches - {CachedPlantCommonalities}
    ensures forall b | b in g.live.biomes ::
      CachedWildPlants in g.live.biomes[b].filledCaches ==> CachedWildPlants in r.live.biomes[b].filledCaches
  {
    AllBiomesDistinct(g.reg);
    g.(live := ResetAll(g.reg, g.vanilla, AllBiomes(g.reg), g.live))
  }

  /** After startup (no `wildBiomes` left), resetting to vanilla rates gives
      every biome the same commonalities as merging with no overrides at
      all. A biome without a vanilla list that the reset skips keeps its
      records, so for it this needs them to be non-negative. */
  lemma ResetMatchesMergeWithoutOverrides(g: Game, b: string, p: string)
    requires Valid(g) && Cleared(g.live)
    requires b in AllBiomes(g.reg) && p in AllPlants(g.reg)
    requires b !in g.vanilla.spawnRates ==>
      forall rec | rec in g.live.biomes[b].wildPlants :: rec.commonality >= 0.0
    ensures Commonality(ResetToVanillaRates(g).live, b, p)
         == Commonality(ApplyBiomeSettings(g.(store := g.store.(spawnRates := map[]))).live, b, p)
  {
    if b in g.vanilla.spawnRates {
      ResetReadsVanilla(g, b, p);
    } else {
      ResetWithoutVanillaListReadsZero(g, b, p);
    }
    MergeWithoutOverridesReadsVanilla(g, b, p);
  }

  lemma ResetReadsVanilla(g: Game, b: string, p: string)
    requires Valid(g) && Cleared(g.live)
    requires b in AllBiomes(g.reg) && b in g.vanilla.spawnRates && p in AllPlants(g.reg)
    ensures Commonality(ResetToVanillaRates(g).live, b, p) == VanillaCommonality(g.vanilla, b, p)
  {
    var r := ResetToVanillaRates(g);
    assert r.live.biomes[b].wildPlants == g.vanilla.spawnRates[b];
    assert p in r.live.plants && r.live.plants[p].wildBiomes.None?;
  }

  /** A biome without a vanilla list reads 0 for every plant after the
      reset: either its list was emptied, or it was skipped because no plant
      had a positive commonality, and none had a negative one. */
  lemma ResetWithoutVanillaListReadsZero(g: Game, b: string, p: string)
    requires Valid(g) && Cleared(g.live)
    requires b in AllBiomes(g.reg) && b !in g.vanilla.spawnRates && p in AllPlants(g.reg)
    requires forall rec | rec in g.live.biomes[b].wildPlants :: rec.commonality >= 0.0
    ensures Commonality(ResetToVanillaRates(g).live, b, p) == 0.0 == VanillaCommonality(g.vanilla, b, p)
  {
    var r := ResetToVanillaRates(g);
    var st := g.live.biomes[b];
    assert p in r.live.plants && r.live.plants[p].wildBiomes.None?;
    if NoWildPlants(g.reg, st, g.live.plants, b) {
      assert r.live.biomes[b].wildPlants == st.wildPlants;
      var t :| t in g.reg.things && IsPlantDef(t) && t.defName == p;
      assert CommonalityIn(st, g.live.plants, b, p) <= 0.0;
      match FirstRecord(st.wildPlants, p)
      case Some(rec) =>
        assert rec in st.wildPlants;
      case None =>
    } else {
      assert r.live.biomes[b].wildPlants == [];
    }
  }

  lemma MergeWithoutOverridesReadsVanilla(g: Game, b: string, p: string)
    requires Valid(g)
    requires b in AllBiomes(g.reg) && p in AllPlants(g.reg)
    ensures Commonality(ApplyBiomeSettings(g.(store := g.store.(spawnRates := map[]))).live, b, p)
         == VanillaCommonality(g.vanilla, b, p)
  {
    var empty := g.store.(spawnRates := map[]);
    assert Lookup(empty.spawnRates, b, p) == None;
  }

  // ---------------------------------------------------------------------
  // `LogMessage`
  // ---------------------------------------------------------------------

  const LogPrefix: string := "[ChooseWildPlantSpawns]: "

  datatype LogLine = Warning(text: string) | Message(text: string)

  /** Whether and how `LogMessage` logs: warnings always, other messages only
      when forced or when verbose logging is on. */
  function LogMessage(message: string, forced: bool, warning: bool, verboseLogging: bool): (r: Option<LogLine>)
    ensures warning ==> r == Some(Warning(LogPrefix + message))
    ensures !warning ==> (r.Some? <==> forced || verboseLogging)
    ensures !warning && r.Some? ==> r.value == Message(LogPrefix + message)
  {
    if warning then Some(Warning(LogPrefix + message))
    else if !forced && !verboseLogging then None
    else Some(Message(LogPrefix + message))
  }
}
