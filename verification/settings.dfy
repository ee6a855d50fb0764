/** The reset operations of `ChooseWildPlantSpawns_Settings`: reset all,
    reset one biome (or the cave weights) and reset one plant. */
module Settings {
  import opened Wrappers
  import opened World
  import opened Overrides
  import opened Merge

  /** The name of the cave-weight page, which is not a biome. */
  const Caves: string := "Caves"

  /** Every cave plant's live weight back to its vanilla weight; nothing else changes. */
  function RestoreCaveWeights(g: Game): (r: Game)
    requires Valid(g)
    ensures r.reg == g.reg && r.vanilla == g.vanilla && r.store == g.store
    ensures r.live.biomes == g.live.biomes && r.live.plants.Keys == g.live.plants.Keys
    ensures forall p | p in AllCavePlants(g.reg) ::
      p in r.live.plants && r.live.plants[p].cavePlantWeight == g.vanilla.caveWeights[p]
    ensures forall p | p in g.live.plants && p !in AllCavePlants(g.reg) :: r.live.plants[p] == g.live.plants[p]
    ensures forall p | p in g.live.plants :: r.live.plants[p].wildBiomes == g.live.plants[p].wildBiomes
  {
    CavePlantsHaveState(g.reg, g.live);
    g.(live := SetCaveWeights(AllCavePlants(g.reg), g.live, g.vanilla.caveWeights))
  }

  lemma RestoreKeepsMerge(g: Game)
    requires Valid(g) && InSync(g)
    ensures Valid(RestoreCaveWeights(g)) && InSync(RestoreCaveWeights(g))
  {
    var r := RestoreCaveWeights(g);
    InSyncIgnoresCaveWeights(g, r.live);
  }

  /** What a merged game reads back for one biome and plant. */
  lemma ReadInSync(g: Game, b: string, p: string)
    requires Valid(g) && InSync(g)
    requires b in AllBiomes(g.reg) && p in AllPlants(g.reg)
    ensures b in g.live.biomes
    ensures Commonality(g.live, b, p) == EffectiveCommonality(g.store, g.vanilla, b, p)
    ensures g.live.biomes[b].plantDensity == EffectiveDensity(g.store, g.vanilla, b)
  {
  }

  /** Merging a game with any store reads that store's values back. */
  lemma MergeReadsStore(g: Game, store: Store, b: string, p: string)
    requires Valid(g)
    requires b in AllBiomes(g.reg) && p in AllPlants(g.reg)
    ensures var r := ApplyBiomeSettings(g.(store := store));
      && b in r.live.biomes
      && Commonality(r.live, b, p) == EffectiveCommonality(store, g.vanilla, b, p)
      && r.live.biomes[b].plantDensity == EffectiveDensity(store, g.vanilla, b)
  {
    ReadInSync(ApplyBiomeSettings(g.(store := store)), b, p);
  }

  /** Dropping a biome's overrides gives it its vanilla values and leaves
      the others' effective values alone. */
  lemma WithoutBiomeReads(store: Store, vanilla: Vanilla, name: string, b: string, p: string)
    ensures var s := store.(spawnRates := store.spawnRates - {name}, densities := store.densities - {name});
      EffectiveCommonality(s, vanilla, b, p) ==
        (if b == name then VanillaCommonality(vanilla, b, p) else EffectiveCommonality(store, vanilla, b, p))
    ensures b in vanilla.densities ==>
      var s := store.(spawnRates := store.spawnRates - {name}, densities := store.densities - {name});
      EffectiveDensity(s, vanilla, b) ==
        (if b == name then vanilla.densities[b] else EffectiveDensity(store, vanilla, b))
  {
  }

  /** `ResetManualValues`: all three override maps emptied, then merged and
      the cave weights restored. */
  function ResetManualValues(g: Game): (r: Game)
    requires Valid(g)
    ensures r.reg == g.reg && r.vanilla == g.vanilla
    ensures r.store == g.store.(spawnRates := map[], densities := map[], caveWeights := map[])
    ensures Valid(r) && InSync(r)
    ensures forall p | p in AllCavePlants(g.reg) ::
      p in r.live.plants && r.live.plants[p].cavePlantWeight == g.vanilla.caveWeights[p]
  {
    var cleared := g.store.(spawnRates := map[], densities := map[], caveWeights := map[]);
    var applied := ApplyBiomeSettings(g.(store := cleared));
    RestoreKeepsMerge(applied);
    RestoreCaveWeights(applied)
  }

  /** After resetting everything the game runs on its vanilla values. */
  lemma ResetManualValuesRestoresVanilla(g: Game, b: string, p: string)
    requires Valid(g)
    requires b in AllBiomes(g.reg) && p in AllPlants(g.reg)
    ensures Commonality(ResetManualValues(g).live, b, p) == VanillaCommonality(g.vanilla, b, p)
    ensures ResetManualValues(g).live.biomes[b].plantDensity == g.vanilla.densities[b]
  {
    var r := ResetManualValues(g);
    assert Lookup(r.store.spawnRates, b, p) == None;
  }

  /** `ResetOneBiome`: for the cave page only the live cave weights go back
      to vanilla (the saved cave overrides and the biomes stay as they are);
      for a biome, its plant and density overrides are dropped and the
      merge runs again. */
  function ResetOneBiome(g: Game, name: string): (r: Game)
    requires Valid(g)
    ensures r.reg == g.reg && r.vanilla == g.vanilla && Valid(r)
    ensures name == Caves ==> r.store == g.store && r.live.biomes == g.live.biomes
    ensures name == Caves ==> forall p | p in AllCavePlants(g.reg) ::
      p in r.live.plants && r.live.plants[p].cavePlantWeight == g.vanilla.caveWeights[p]
    ensures name != Caves ==>
      && r.store == g.store.(spawnRates := g.store.spawnRates - {name}, densities := g.store.densities - {name})
      && InSync(r)
    ensures NoEmptyOverrides(g.store.spawnRates) ==> NoEmptyOverrides(r.store.spawnRates)
  {
    if name == Caves then RestoreCaveWeights(g)
    else
      var store := g.store.(spawnRates := g.store.spawnRates - {name}, densities := g.store.densities - {name});
      ApplyBiomeSettings(g.(store := store))
  }

  /** Resetting a biome gives it its vanilla values and leaves every other
      biome's effective values as they were. */
  lemma ResetOneBiomeRestoresVanilla(g: Game, name: string, b: string, p: string)
    requires Valid(g) && name != Caves
    requires b in AllBiomes(g.reg) && p in AllPlants(g.reg)
    ensures var r := ResetOneBiome(g, name);
      && b in r.live.biomes
      && Commonality(r.live, b, p) ==
           (if b == name then VanillaCommonality(g.vanilla, b, p) else EffectiveCommonality(g.store, g.vanilla, b, p))
      && r.live.biomes[b].plantDensity ==
           (if b == name then g.vanilla.densities[b] else EffectiveDensity(g.store, g.vanilla, b))
  {
    var store := g.store.(spawnRates := g.store.spawnRates - {name}, densities := g.store.densities - {name});
    assert ResetOneBiome(g, name) == ApplyBiomeSettings(g.(store := store));
    MergeReadsStore(g, store, b, p);
    WithoutBiomeReads(g.store, g.vanilla, name, b, p);
  }

  /** `ResetOnePlant`: the plant's overrides leave every biome, empty inner
      maps are pruned, then the merge runs again. */
  function ResetOnePlant(g: Game, plant: string): (r: Game)
    requires Valid(g)
    ensures r.reg == g.reg && r.vanilla == g.vanilla && Valid(r) && InSync(r)
    ensures r.store == g.store.(spawnRates := WithoutPlant(g.store.spawnRates, plant))
    ensures NoEmptyOverrides(r.store.spawnRates)
  {
    ApplyBiomeSettings(g.(store := g.store.(spawnRates := WithoutPlant(g.store.spawnRates, plant))))
  }

  /** Resetting a plant gives it its vanilla commonality in every biome and
      leaves every other plant's effective commonalities as they were. */
  lemma ResetOnePlantRestoresVanilla(g: Game, plant: string, b: string, p: string)
    requires Valid(g)
    requires b in AllBiomes(g.reg) && p in AllPlants(g.reg)
    ensures Commonality(ResetOnePlant(g, plant).live, b, p) ==
      (if p == plant then VanillaCommonality(g.vanilla, b, p) else EffectiveCommonality(g.store, g.vanilla, b, p))
  {
    var r := ResetOnePlant(g, plant);
    assert Lookup(r.store.spawnRates, b, p) == (if p == plant then None else Lookup(g.store.spawnRates, b, p));
  }
}
