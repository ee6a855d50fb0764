# ChooseWildPlantSpawns override engine, in Dafny

ChooseWildPlantSpawns is a RimWorld mod. It lets a player override three
kinds of value:

- how common each wild plant is in each biome (its commonality);
- the plant density of each biome;
- the spawn weight of each cave plant.

The game's own ("vanilla") values are kept. This project models the logic
behind those overrides and proves what it promises.

- `SaveableDictionary`: the text codec the settings file uses for one
  biome's overrides, `#key:value#key:value…`.
- `LabelOrder`, `World`: the definition database, the label-sorted plant,
  cave-plant and biome lists, and the live per-biome and per-plant fields.
  `World.Commonality` is how the game reads a plant's commonality.
- `Overrides`: the saved settings. They hold per-biome plant overrides,
  per-biome density overrides, cave-weight overrides and two switches.
  This module also holds the map edits the rest is built from.
- `Merge` (the static `Main` class):
  - the vanilla snapshot;
  - the merge `ApplyBiomeSettings`, which writes override-else-vanilla
    values into every biome;
  - startup;
  - `ResetToVanillaRates`;
  - the log gate.
- `Settings`: reset everything, reset one biome (or the cave page), reset
  one plant.
- `Mod`, the non-drawing logic of the settings window:
  - the edit buffers;
  - the biome-mode and plant-mode commits, which decide per edited value
    whether an override is stored or dropped;
  - the commit-on-leave selection;
  - `WriteSettings`;
  - the two copy actions;
  - the reset buttons' refills;
  - the cave-weight sync.

## Modelling choices

- **Floats** are `real`. Two values compare equal by their printed text in
  the source (`ToString() == ToString()`); the model compares them with `==`.
- **The codec's value printer and parser** are parameters (`fmt`, `parse`),
  so the format is modelled exactly and the float syntax is not.
- **`Commonality`** stands for `BiomeDef.CommonalityOfPlant` and the
  `cachedPlantCommonalities` reads. It is the biome's first `wildPlants`
  record for the plant, else the plant's `wildBiomes` entry for the biome,
  else 0.
- **Caches.** A biome's five caches are a set of filled cache fields; null
  means absent from the set.
- **Enumeration order.** A dictionary's enumeration order is a parameter of
  `Encode`, since the code does not control it.
- **The printed length of a value's fraction** (the precision hint) is a
  parameter `printed`.
- **The plant-mode commit rule** is a parameter `rule: Mod.CommitRule` of
  every operation that commits: `AsWritten` is the source, `Corrected` the
  fix of the finding below. Biome mode does not use it.
- **The selection** is an `Option<string>`. `Mod.CanEnter` states which
  names the tab list offers.
- **The world.** `Merge.Valid` states what the game guarantees:
  - definition names are unique;
  - the live state has a field for every definition;
  - the snapshot covers every biome and cave plant.

Several functions require it.

### Behaviour worth knowing

- Decoding the empty text fails: `""` splits into one segment without `:`.
  So the empty dictionary does not survive a round trip.
- Decoding strips every leading `#`.
- The merge writes an explicit 0 record for a plant that has neither an
  override nor a vanilla record.
- The merge nulls all five caches, `cachedWildPlants` and the cluster
  radius included.
- `ResetOneBiome("Caves")` restores the live cave weights only. The saved
  cave overrides stay until the cave page's next sync removes them
  (`Mod.CavesResetThenSyncClears`).
- `ResetToVanillaRates` nulls only the commonality cache.

## Model

| member | source | states |
|---|---|---|
| SaveableDictionary.NewSaveableDictionary | Source/ChooseWildPlantSpawns/SaveableDictionary.cs:8-11 | the parameterless constructor holds no entry |
| SaveableDictionary.Encode | Source/ChooseWildPlantSpawns/SaveableDictionary.cs:20-30 | the text is one `#` followed by one `key:value` segment per entry, in enumeration order, joined by `#`; an empty dictionary gives the empty text |
| SaveableDictionary.Decode | Source/ChooseWildPlantSpawns/SaveableDictionary.cs:32-43 | a successful decode yields a non-empty map whose keys hold neither `#` nor `:` |
| SaveableDictionary.RoundTrip | Source/ChooseWildPlantSpawns/SaveableDictionary.cs:20-43 | a non-empty map with separator-free keys and values the parser reads back decodes from its encoding to itself, whatever the enumeration order |
| SaveableDictionary.EmptyDictionaryEncodesToNothing | Source/ChooseWildPlantSpawns/SaveableDictionary.cs:8-30 | the new dictionary encodes to the empty text |
| SaveableDictionary.EmptyTextFailsToDecode | Source/ChooseWildPlantSpawns/SaveableDictionary.cs:34-39 | the empty text fails with a missing value, so the empty map does not round-trip |
| SaveableDictionary.LeadingHashesIgnored | Source/ChooseWildPlantSpawns/SaveableDictionary.cs:34-35 | any number of leading `#` decodes like none |
| SaveableDictionary.DecodeSucceedsIff | Source/ChooseWildPlantSpawns/SaveableDictionary.cs:32-43 | decoding succeeds exactly when no segment lacks a `:` or holds a value the parser rejects, and then yields exactly the segments' keys |
| SaveableDictionary.SegmentWithoutColonFails | Source/ChooseWildPlantSpawns/SaveableDictionary.cs:36-40 | a segment without `:` anywhere in the text makes decoding fail, with that segment as the error when every segment before it decodes |
| SaveableDictionary.UnparsableValueFails | Source/ChooseWildPlantSpawns/SaveableDictionary.cs:36-40 | a value the parser rejects anywhere in the text makes decoding fail, with that value's text as the error when every segment before it decodes |
| SaveableDictionary.ExtraColonPartsIgnored | Source/ChooseWildPlantSpawns/SaveableDictionary.cs:39 | in `k:v:rest` the key is `k`, the value `v`, and `rest` is ignored |
| SaveableDictionary.LaterSegmentOverwrites | Source/ChooseWildPlantSpawns/SaveableDictionary.cs:36-40 | in a text that decodes, each key holds the value of the last segment that names it |
| LabelOrder.SortByLabel | Source/ChooseWildPlantSpawns/Main.cs:46-49 | the result is ordered by label and is a permutation of the input |
| LabelOrder.SortKeepsNamesDistinct | Source/ChooseWildPlantSpawns/Main.cs:46-49 | sorting keeps definition names pairwise different |
| World.AllPlants | Source/ChooseWildPlantSpawns/Main.cs:40-55 | the list names exactly the things that have plant properties, in the label order of the sorted definitions (`World.PlantDefs`) |
| World.AllCavePlants | Source/ChooseWildPlantSpawns/Main.cs:57-72 | the list names exactly the cave plants, each of which is a plant, in the label order of the sorted cave-plant definitions |
| World.AllBiomes | Source/ChooseWildPlantSpawns/Main.cs:74-88 | the list names exactly the biome definitions, in the label order of the sorted biome definitions |
| World.AllPlantsDistinct | Source/ChooseWildPlantSpawns/Main.cs:40-55 | in a database with unique names the plant list names every plant once, so the commit's `Add` never meets a duplicate key |
| World.FirstRecord | Source/ChooseWildPlantSpawns/ChooseWildPlantSpawns_Mod.cs:233-234 | the record `FirstOrFallback` finds is the first record in the list that is for the plant; there is none exactly when no record is for the plant |
| World.AllWildPlants | Source/ChooseWildPlantSpawns/Main.cs:164 | a biome's wild plants are exactly the plants it gives a positive commonality |
| Overrides.SetOverride | Source/ChooseWildPlantSpawns/ChooseWildPlantSpawns_Mod.cs:259-265 | the (biome, plant) override becomes the value, the biome key is created if missing, and every other lookup is unchanged |
| Overrides.ClearOverride | Source/ChooseWildPlantSpawns/ChooseWildPlantSpawns_Mod.cs:238-246 | the (biome, plant) override is gone, an emptied biome key is pruned, every other lookup is unchanged, and a missing entry changes nothing |
| Overrides.WithoutPlant | Source/ChooseWildPlantSpawns/ChooseWildPlantSpawns_Settings.cs:81-92 | the plant has no override anywhere, every other plant's lookups are unchanged, and no biome keeps an empty map, also one that was empty before |
| Overrides.LookupsDetermineOverrides | Source/ChooseWildPlantSpawns/ChooseWildPlantSpawns_Settings.cs:87-92 | two stores with no empty inner map that agree on every lookup are equal |
| Overrides.PersistedOverridesRoundTrip | Source/ChooseWildPlantSpawns/ChooseWildPlantSpawns_Settings.cs:30-32 | with no empty inner maps, every biome's overrides survive saving and loading through the codec |
| Merge.SaveVanillaValues | Source/ChooseWildPlantSpawns/Main.cs:159-184 | every biome's density and every cave plant's weight are captured, and a spawn list is captured exactly for the biomes with a wild plant, holding each wild plant's commonality at capture time |
| Merge.CapturedCommonality | Source/ChooseWildPlantSpawns/Main.cs:170-177 | the snapshot gives every biome and plant the commonality the game had at capture time, when that was not negative |
| Merge.BuildRecords | Source/ChooseWildPlantSpawns/Main.cs:127-143 | one record per plant, in plant-list order, with the override, else the vanilla value, else 0 |
| Merge.ApplyBiomeSettings | Source/ChooseWildPlantSpawns/Main.cs:103-157 | every biome then reads the override-else-vanilla density and commonalities, has one record per plant in list order and all caches null; plants, store and snapshot are unchanged |
| Merge.ApplyIdempotent | Source/ChooseWildPlantSpawns/Main.cs:103-157 | merging twice is merging once |
| Merge.ClearPlantDefs | Source/ChooseWildPlantSpawns/Main.cs:90-101 | every listed plant's `wildBiomes` becomes null and nothing else changes |
| Merge.Startup | Source/ChooseWildPlantSpawns/Main.cs:24-38 | after startup the game is consistent and merged, with no `wildBiomes` left; the snapshot holds the weights from before startup, and a cave plant's weight is its saved override if there is one, else vanilla |
| Merge.StartupKeepsCommonalities | Source/ChooseWildPlantSpawns/Main.cs:26-28 | a plant without an override keeps its pre-startup commonality in every biome, because the snapshot is taken before `wildBiomes` is cleared |
| Merge.ResetBiome | Source/ChooseWildPlantSpawns/Main.cs:188-201 | one biome's density returns to vanilla. With a vanilla list the biome gets that list back and only its commonality cache is nulled. Without one, a biome where no plant has a positive commonality is skipped; any other biome gets an empty list and only its commonality cache is nulled |
| Merge.ResetToVanillaRates | Source/ChooseWildPlantSpawns/Main.cs:186-202 | every density returns to vanilla. A biome with a vanilla list gets that list back with only the commonality cache nulled. A biome without one is skipped when it has no wild plant, and otherwise gets an empty list with only the commonality cache nulled; plants are unchanged |
| Merge.ResetMatchesMergeWithoutOverrides | Source/ChooseWildPlantSpawns/Main.cs:186-202 | after startup, resetting to vanilla rates reads, in every biome, the same commonalities as merging with no plant overrides; for a skipped biome without a vanilla list this needs its records to be non-negative |
| Merge.ResetWithoutVanillaListReadsZero | Source/ChooseWildPlantSpawns/Main.cs:190-199 | after startup, a biome without a vanilla list reads 0 for every plant once reset, whether the reset emptied its list or skipped it, provided its records are non-negative |
| Merge.LogMessage | Source/ChooseWildPlantSpawns/Main.cs:204-218 | a warning is always logged; any other message is logged exactly when forced or verbose, with the mod's prefix |
| Settings.RestoreCaveWeights | Source/ChooseWildPlantSpawns/ChooseWildPlantSpawns_Settings.cs:64-67 | every cave plant's live weight becomes its vanilla weight and nothing else changes |
| Settings.ResetManualValues | Source/ChooseWildPlantSpawns/ChooseWildPlantSpawns_Settings.cs:41-57 | all three override maps become empty, the game is merged again, and every cave weight is vanilla |
| Settings.ResetManualValuesRestoresVanilla | Source/ChooseWildPlantSpawns/ChooseWildPlantSpawns_Settings.cs:41-57 | after resetting everything, every biome reads its vanilla commonalities and density |
| Settings.ResetOneBiome | Source/ChooseWildPlantSpawns/ChooseWildPlantSpawns_Settings.cs:60-77 | for the cave page only the live cave weights return to vanilla; for a biome its plant and density overrides are removed, nothing else in the store changes, and the game is merged again |
| Settings.ResetOneBiomeRestoresVanilla | Source/ChooseWildPlantSpawns/ChooseWildPlantSpawns_Settings.cs:72-76 | the reset biome reads its vanilla values; every other biome keeps its effective values |
| Settings.ResetOnePlant | Source/ChooseWildPlantSpawns/ChooseWildPlantSpawns_Settings.cs:79-95 | the plant loses every override, no empty biome map remains, densities and cave weights are unchanged, and the game is merged again |
| Settings.ResetOnePlantRestoresVanilla | Source/ChooseWildPlantSpawns/ChooseWildPlantSpawns_Settings.cs:79-95 | the reset plant reads its vanilla commonality in every biome; every other plant keeps its effective values |
| Mod.KeptIffDiffersFromVanilla | Source/ChooseWildPlantSpawns/ChooseWildPlantSpawns_Mod.cs:317-326 | the two exemptions together drop an edit exactly when it equals what the game reads without an override |
| Mod.KeptReadsBack | Source/ChooseWildPlantSpawns/ChooseWildPlantSpawns_Mod.cs:317-326 | storing exactly the kept edits makes the merge read every edit back |
| Mod.BiomeDiff | Source/ChooseWildPlantSpawns/ChooseWildPlantSpawns_Mod.cs:312-331 | the new map exists exactly when every plant has an edit, and holds exactly the plants whose edit is not exempt, with their edits |
| Mod.CommitDensity | Source/ChooseWildPlantSpawns/ChooseWildPlantSpawns_Mod.cs:281-288 | the biome keeps a density override exactly when the edit differs from vanilla, holding the edit; other biomes are unchanged |
| Mod.ReplaceBiome | Source/ChooseWildPlantSpawns/ChooseWildPlantSpawns_Mod.cs:333-345 | the biome's lookups become exactly the new map, so no stale entry survives; other biomes are unchanged; an empty map removes the key |
| Mod.SaveABiomeSetting | Source/ChooseWildPlantSpawns/ChooseWildPlantSpawns_Mod.cs:277-351 | the density is decided before the early exits; a completed commit leaves the biome exactly the kept edits and empties the plant buffers; other biomes and the cave weights are unchanged |
| Mod.PlantStep | Source/ChooseWildPlantSpawns/ChooseWildPlantSpawns_Mod.cs:233-265 | a kept edit is stored; an edit equal to vanilla is removed; as written, an edit of 0 with no vanilla record leaves the old entry; every other lookup is unchanged |
| Mod.SavePlantLoop | Source/ChooseWildPlantSpawns/ChooseWildPlantSpawns_Mod.cs:223-266 | the loop completes exactly when every biome with a vanilla list has an edit; biomes without a vanilla list and other plants are untouched; a completed loop leaves each biome's entry as the rule decides |
| Mod.SavePlantSetting | Source/ChooseWildPlantSpawns/ChooseWildPlantSpawns_Mod.cs:204-275 | an empty buffer changes nothing; only the plant's entries in biomes with a vanilla list change; a complete buffer is committed biome by biome and then emptied |
| Mod.SaveBiomeSettings | Source/ChooseWildPlantSpawns/ChooseWildPlantSpawns_Mod.cs:188-202 | the fixed pages and no selection commit nothing; a category gets the plant-mode commit under the given rule in plant mode and the biome-mode commit otherwise; switches and cave weights never change |
| Mod.PrecisionHint | Source/ChooseWildPlantSpawns/ChooseWildPlantSpawns_Mod.cs:134-144 | the hint is the printed length, but never below 4 |
| Mod.Hints | Source/ChooseWildPlantSpawns/ChooseWildPlantSpawns_Mod.cs:165-174 | one hint per buffered value, each at least 4 |
| Mod.PlantColumn | Source/ChooseWildPlantSpawns/ChooseWildPlantSpawns_Mod.cs:117-145 | one value per biome: the plant's commonality there as the game reads it |
| Mod.BiomeRow | Source/ChooseWildPlantSpawns/ChooseWildPlantSpawns_Mod.cs:150-175 | one value per plant: its commonality in the biome as the game reads it |
| Mod.Leave | Source/ChooseWildPlantSpawns/ChooseWildPlantSpawns_Mod.cs:97-101 | leaving a category stores the commit of the mode in force under the given rule (the source's is `AsWritten`) and merges; leaving a page or nothing changes nothing |
| Mod.Select | Source/ChooseWildPlantSpawns/ChooseWildPlantSpawns_Mod.cs:92-177 | after commit-on-leave under the given rule, a page gets empty buffers and density 0; a plant gets its per-biome commonalities; a biome gets its per-plant commonalities and its density; every hint is at least 4 |
| Mod.WriteSettings | Source/ChooseWildPlantSpawns/ChooseWildPlantSpawns_Mod.cs:179-185 | the game ends merged, on the settings page with empty buffers |
| Mod.CommitTwice | Source/ChooseWildPlantSpawns/ChooseWildPlantSpawns_Mod.cs:188-202 | under either rule, committing what a commit left behind stores nothing new |
| Mod.WriteSettingsCommitsOnce | Source/ChooseWildPlantSpawns/ChooseWildPlantSpawns_Mod.cs:179-185 | under either rule, `WriteSettings` stores exactly one commit, since the second commit on leaving finds nothing left |
| Mod.BiomeCommitReadsBack | Source/ChooseWildPlantSpawns/ChooseWildPlantSpawns_Mod.cs:277-351 | leaving a biome with an edit for every plant makes it read the edited density, and the edited commonalities when it has a vanilla list (without one the commit drops them and it reads the old store's effective values); other biomes keep their effective values |
| Mod.PlantCommitReadsBack | Source/ChooseWildPlantSpawns/ChooseWildPlantSpawns_Mod.cs:204-275 | under either rule, leaving a plant with an edit for every biome makes it read the edit in every biome with a vanilla list, except exactly where `Mod.LosesEdit` holds (as written: an edit of 0, no vanilla record, an earlier override other than 0; never under the corrected rule); there, elsewhere, and for other plants the effective values stay |
| Mod.BiomeEditsSurviveReselect | Source/ChooseWildPlantSpawns/ChooseWildPlantSpawns_Mod.cs:92-177 | re-selecting a biome shows its edited density again, and its edits when it has a vanilla list; without one it shows the old store's effective values |
| Mod.PlantEditsSurviveReselect | Source/ChooseWildPlantSpawns/ChooseWildPlantSpawns_Mod.cs:92-177 | under either rule, re-selecting a plant shows its edits again in every biome with a vanilla list except where `Mod.LosesEdit` holds, so under the corrected rule in every such biome; elsewhere it shows the old store's effective values |
| Mod.AsWrittenKeepsStaleOverride | Source/ChooseWildPlantSpawns/ChooseWildPlantSpawns_Mod.cs:251-254 | as written, an edit of 0 for a plant with no vanilla record keeps the earlier override, so the game does not read the edit; the corrected rule does read it |
| Mod.CopySources | Source/ChooseWildPlantSpawns/ChooseWildPlantSpawns_Mod.cs:977 | the copy menu offers every other category and never the destination itself |
| Mod.CopySpawnValues | Source/ChooseWildPlantSpawns/ChooseWildPlantSpawns_Mod.cs:982-1009 | the copy keeps the selection and leaves the game merged |
| Mod.CopiedBiome | Source/ChooseWildPlantSpawns/ChooseWildPlantSpawns_Mod.cs:984-1006 | the buffers the biome copy fills hold the source biome's saved-else-vanilla density and its live commonality for every plant, with the selection unchanged |
| Mod.CopySpawnValuesCopiesSource | Source/ChooseWildPlantSpawns/ChooseWildPlantSpawns_Mod.cs:982-1009 | the destination biome then reads the source's saved-else-vanilla density, and the source's commonalities when it has a vanilla list (otherwise the old store's effective values); other biomes keep their effective values |
| Mod.CopyOtherPlantValues | Source/ChooseWildPlantSpawns/ChooseWildPlantSpawns_Mod.cs:1024-1057 | the copy keeps the selection and leaves the game merged |
| Mod.CopiedPlant | Source/ChooseWildPlantSpawns/ChooseWildPlantSpawns_Mod.cs:1026-1054 | the buffers the plant copy fills hold the source plant's live commonality for every biome, with the selection unchanged |
| Mod.CopyOtherPlantValuesCopiesSource | Source/ChooseWildPlantSpawns/ChooseWildPlantSpawns_Mod.cs:1024-1057 | under either rule, the destination plant then reads the source plant's commonality in every biome with a vanilla list, except where `Mod.LosesEdit` holds for the copied value (as written: a copied 0 over an override with no vanilla record, which stays); there, elsewhere, and for other plants the effective values stay |
| Mod.ResetSelectedPlant | Source/ChooseWildPlantSpawns/ChooseWildPlantSpawns_Mod.cs:689-721 | the game is the one-plant reset, and the refilled buffer holds the plant's vanilla commonality for every biome |
| Mod.ResetSelectedBiome | Source/ChooseWildPlantSpawns/ChooseWildPlantSpawns_Mod.cs:824-857 | the game is the one-biome reset; the buffers hold the vanilla density and every plant's vanilla commonality |
| Mod.VanillaEditsStoreNothing | Source/ChooseWildPlantSpawns/ChooseWildPlantSpawns_Mod.cs:281-345 | committing a biome's vanilla values leaves it no density override and no override for the plant; an override already stored is removed when the biome has a vanilla list and the buffers are filled |
| Mod.ResetBiomeThenLeaveStoresNothing | Source/ChooseWildPlantSpawns/ChooseWildPlantSpawns_Mod.cs:824-857 | under either rule, leaving a biome right after its reset stores no plant or density override for it |
| Mod.SyncCaveWeights | Source/ChooseWildPlantSpawns/ChooseWildPlantSpawns_Mod.cs:583-593 | a cave plant keeps an override exactly when its live weight differs from vanilla, holding the live weight; other entries are unchanged |
| Mod.SyncCaves | Source/ChooseWildPlantSpawns/ChooseWildPlantSpawns_Mod.cs:583-593 | the sync changes only the cave overrides, which then follow the live weights |
| Mod.SyncedCaveWeightsSurviveRestart | Source/ChooseWildPlantSpawns/Main.cs:30-37 | a startup from vanilla weights with the synced overrides brings back every cave plant's weight |
| Mod.CavesResetThenSyncClears | Source/ChooseWildPlantSpawns/ChooseWildPlantSpawns_Settings.cs:62-70 | resetting the cave page keeps the cave overrides, but the next sync removes them all |

## Left out

- Drawing the settings window is not modelled. This covers sliders, the
  global slider, search, label truncation, float menus, confirmation
  dialogs and the tab list. Only the actions they invoke are modelled. A
  click in the tab list is `Mod.Select`, with nothing selected when the
  clicked entry was already selected. The general page's two checkboxes
  are left out; they only flip the two switches of the store.
- `ExposeData` and Scribe persistence are not modelled; they are runtime
  plumbing. `Overrides.PersistedOverridesRoundTrip` states what the codec
  guarantees for the stored values.
- Float formatting, `Math.Round((decimal)…)` and the printed-length
  computation are not modelled. Equality by printed text is `==`. The
  printed length is the parameter `printed`.
- LabelOrder.SortByLabel: it sorts by ordinal string order, not RimWorld's
  culture-aware comparison, and its stability is not proved.
- The `allPlants`/`allBiomes` caches are not modelled: the lists are a
  function of the database, which does not change while the game runs.
  `Traverse` reflection and the internals of `CommonalityOfPlant` are
  abstracted as `World.Commonality`.
- The `null`-buffer branches of both commits are not modelled, because the
  setter always assigns fresh buffers. A missing selection with buffers
  left over cannot arise either.
- `Main.AllPlants.First()` on an empty plant list is not modelled: the game
  has plants.
- Log side effects are not modelled. This covers `Log.Message`,
  `Log.Warning` and the text written in the catch blocks. Only the gate
  (`Merge.LogMessage`) is modelled.
- A caught exception is modelled as "the commit stops with what it wrote so
  far". Which exception occurred is not modelled.
- Mod.Select: it requires that a category be a biome in biome mode and a
  plant in plant mode (`Mod.CanEnter`). Any other name makes the source's
  refill dereference a missing definition.

## Findings

| source | as written | input that shows it | evidently intended | confidence | as-written member | corrected member |
|---|---|---|---|---|---|---|
| Source/ChooseWildPlantSpawns/ChooseWildPlantSpawns_Mod.cs:251-254 | in plant mode, an edit of 0 for a plant with no vanilla record in a biome leaves that biome's existing override in place | plant mode; biome B has a vanilla list without plant P; the store holds B ↦ {P: 0.5}; the user sets P's value in B to 0 and leaves the page; the game still reads 0.5 | remove the override, as the biome-mode commit does, so the game reads the edited 0 | not executed; high, because the biome-mode commit at lines 323-343 drops the same entry | Mod.AsWrittenKeepsStaleOverride | Mod.PlantEditsSurviveReselect |
