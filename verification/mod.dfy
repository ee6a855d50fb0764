/** The non-drawing logic of `ChooseWildPlantSpawns_Mod`: the edit buffers,
    the commit of a biome's or a plant's edits into the override store, the
    commit-on-leave selection, `WriteSettings`, the two copy actions and the
    cave-weight sync. */
module Mod {
  import opened Wrappers
  import opened World
  import opened Overrides
  import opened Merge
  import Settings

  /** The name of the general settings page, which is not a category. */
  const SettingsPage: string := "Settings"

  /** A selection that owns edit buffers: a name that is neither of the two
      fixed pages. */
  predicate IsCategory(selected: Option<string>) {
    selected.Some? && selected.value != SettingsPage && selected.value != Settings.Caves
  }

  /** The editor's static state: the selected page and its edit buffers.
      In plant mode the buffers hold, per biome, the selected plant's
      commonality; in biome mode, per plant, the selected biome's commonality,
      plus the biome's density. The hints are the display precisions. */
  datatype Session = Session(
    selected: Option<string>,
    plantBiomeValues: map<string, real>,
    plantBiomeHints: map<string, nat>,
    biomePlantValues: map<string, real>,
    biomePlantHints: map<string, nat>,
    density: real)

  /** Buffers as the selection setter leaves them before any refill. */
  function EmptyBuffers(selected: Option<string>): Session {
    Session(selected, map[], map[], map[], map[], 0.0)
  }

  datatype ModState = ModState(game: Game, session: Session)

  // ---------------------------------------------------------------------
  // Which edited values become overrides
  // ---------------------------------------------------------------------

  /** Whether an edited value is stored as an override: not when a vanilla
      record exists and its value equals the edit, and not when no vanilla
      record exists and the edit is 0. */
  predicate Kept(edit: real, vanillaRecord: Option<PlantRecord>) {
    && !(vanillaRecord.Some? && vanillaRecord.value.commonality == edit)
    && !(vanillaRecord.None? && edit == 0.0)
  }

  /** Both exemptions together say exactly "the edit equals what the game
      reads without an override". */
  lemma KeptIffDiffersFromVanilla(vanilla: Vanilla, b: string, p: string, edit: real)
    ensures Kept(edit, VanillaRecord(vanilla, b, p)) <==> edit != VanillaCommonality(vanilla, b, p)
  {
  }

  /** Whatever the exemption decides, merging reads the edit back. */
  lemma KeptReadsBack(store: Store, vanilla: Vanilla, b: string, p: string, edit: real)
    requires Lookup(store.spawnRates, b, p) ==
      (if Kept(edit, VanillaRecord(vanilla, b, p)) then Some(edit) else None)
    ensures EffectiveCommonality(store, vanilla, b, p) == edit
  {
    KeptIffDiffersFromVanilla(vanilla, b, p, edit);
  }

  // ---------------------------------------------------------------------
  // Biome mode: `saveABiomeSetting`
  // ---------------------------------------------------------------------

  /** The inner map `saveABiomeSetting` builds for biome `b` from the edits
      of the plants `ps`: every kept edit. None when some plant has no edit,
      where the source's buffer lookup throws. */
  function BiomeDiff(ps: seq<string>, edits: map<string, real>, vanilla: Vanilla, b: string): (r: Option<map<string, real>>)
    ensures r.Some? <==> forall p | p in ps :: p in edits
    ensures r.Some? ==> forall p :: p in r.value <==>
      p in ps && p in edits && Kept(edits[p], VanillaRecord(vanilla, b, p))
    ensures r.Some? ==> forall p | p in r.value :: p in edits && r.value[p] == edits[p]
  {
    if |ps| == 0 then Some(map[])
    else if ps[0] !in edits then None
    else
      assert forall p :: p in ps <==> p == ps[0] || p in ps[1..] by {
        assert ps == [ps[0]] + ps[1..];
      }
      match BiomeDiff(ps[1..], edits, vanilla, b)
      case None => None
      case Some(m) =>
        if Kept(edits[ps[0]], VanillaRecord(vanilla, b, ps[0])) then Some(m[ps[0] := edits[ps[0]]]) else Some(m)
  }

  /** The biome-mode buffers after a completed commit: plant values and
      hints emptied, the density kept. */
  function ClearBiomeBuffers(s: Session): Session {
    s.(biomePlantValues := map[], biomePlantHints := map[])
  }

  /** The density step of `saveABiomeSetting`: an edit equal to the
      vanilla density removes the override, any other edit sets it. */
  function CommitDensity(densities: map<string, real>, vanillaDensity: real, b: string, edit: real): (r: map<string, real>)
    ensures b in r <==> edit != vanillaDensity
    ensures b in r ==> r[b] == edit
    ensures forall c | c != b :: (c in r <==> c in densities)
    ensures forall c | c != b && c in densities :: r[c] == densities[c]
  {
    if edit == vanillaDensity then densities - {b} else densities[b := edit]
  }

  /** Replaces biome `b`'s inner map by `m`, or removes the biome when `m`
      is empty. */
  function ReplaceBiome(sr: SpawnRates, b: string, m: map<string, real>): (r: SpawnRates)
    ensures forall p :: Lookup(r, b, p) == (if p in m then Some(m[p]) else None)
    ensures forall c, p | c != b :: Lookup(r, c, p) == Lookup(sr, c, p)
    ensures NoEmptyOverrides(sr) ==> NoEmptyOverrides(r)
  {
    if |m| == 0 then sr - {b} else sr[b := m]
  }

  /** `saveABiomeSetting` for biome `b`. The density is decided first; then
      an empty buffer stops the commit, a biome without a vanilla plant list
      drops the plant edits, a plant without an edit stops it (the source
      catches the exception), and otherwise the biome's inner map is replaced
      by the kept edits or removed when none is kept. A biome without a
      vanilla density changes nothing (the lookup throws first). */
  function SaveABiomeSetting(g: Game, s: Session, b: string): (r: (Store, Session))
    ensures r.0.caveWeights == g.store.caveWeights
    ensures r.0.reverseSettingsMode == g.store.reverseSettingsMode && r.0.verboseLogging == g.store.verboseLogging
    ensures b !in g.vanilla.densities ==> r == (g.store, s)
    ensures b in g.vanilla.densities ==>
      && (b in r.0.densities <==> s.density != g.vanilla.densities[b])
      && (b in r.0.densities ==> r.0.densities[b] == s.density)
    ensures forall c | c != b :: (c in r.0.densities <==> c in g.store.densities)
    ensures forall c | c != b && c in g.store.densities :: r.0.densities[c] == g.store.densities[c]
    ensures forall c, p | c != b :: Lookup(r.0.spawnRates, c, p) == Lookup(g.store.spawnRates, c, p)
    ensures b !in g.vanilla.spawnRates ==> r.0.spawnRates == g.store.spawnRates
    ensures r.1 == s ==> r.0.spawnRates == g.store.spawnRates
    ensures && (forall p | p in AllPlants(g.reg) :: p in s.biomePlantValues)
            && b in g.vanilla.densities && b in g.vanilla.spawnRates && |s.biomePlantValues| > 0 ==>
      && r.1 == ClearBiomeBuffers(s)
      && forall p :: Lookup(r.0.spawnRates, b, p) ==
           (if p in AllPlants(g.reg) && p in s.biomePlantValues
               && Kept(s.biomePlantValues[p], VanillaRecord(g.vanilla, b, p))
            then Some(s.biomePlantValues[p]) else None)
    ensures r.1 == s || r.1 == ClearBiomeBuffers(s)
    ensures NoEmptyOverrides(g.store.spawnRates) ==> NoEmptyOverrides(r.0.spawnRates)
  {
    CommitBiomeDensity(g.store, g.vanilla, AllPlants(g.reg), s, b);
    CommitBiomeOverrides(g.store, g.vanilla, AllPlants(g.reg), s, b);
    CommitBiomeCompleted(g.store, g.vanilla, AllPlants(g.reg), s, b);
    CommitBiome(g.store, g.vanilla, AllPlants(g.reg), s, b)
  }

  lemma CommitBiomeDensity(store: Store, vanilla: Vanilla, plants: seq<string>, s: Session, b: string)
    ensures var r := CommitBiome(store, vanilla, plants, s, b);
      && r.0 == store.(densities := r.0.densities, spawnRates := r.0.spawnRates)
      && (b !in vanilla.densities ==> r == (store, s))
      && (b in vanilla.densities ==> r.0.densities == CommitDensity(store.densities, vanilla.densities[b], b, s.density))
      && (r.1 == s || r.1 == ClearBiomeBuffers(s))
  {
  }

  lemma CommitBiomeOverrides(store: Store, vanilla: Vanilla, plants: seq<string>, s: Session, b: string)
    ensures var r := CommitBiome(store, vanilla, plants, s, b);
      && (forall c, p | c != b :: Lookup(r.0.spawnRates, c, p) == Lookup(store.spawnRates, c, p))
      && (b !in vanilla.spawnRates ==> r.0.spawnRates == store.spawnRates)
      && (r.1 == s ==> r.0.spawnRates == store.spawnRates)
      && (NoEmptyOverrides(store.spawnRates) ==> NoEmptyOverrides(r.0.spawnRates))
  {
  }

  lemma CommitBiomeCompleted(store: Store, vanilla: Vanilla, plants: seq<string>, s: Session, b: string)
    ensures var r := CommitBiome(store, vanilla, plants, s, b);
      && (forall p | p in plants :: p in s.biomePlantValues)
      && b in vanilla.densities && b in vanilla.spawnRates && |s.biomePlantValues| > 0 ==>
      && r.1 == ClearBiomeBuffers(s)
      && forall p :: Lookup(r.0.spawnRates, b, p) ==
           (if p in plants && p in s.biomePlantValues && Kept(s.biomePlantValues[p], VanillaRecord(vanilla, b, p))
            then Some(s.biomePlantValues[p]) else None)
  {
  }

  /** The steps of `saveABiomeSetting` over the store, the snapshot and the
      plant list alone. */
  function CommitBiome(store: Store, vanilla: Vanilla, plants: seq<string>, s: Session, b: string): (Store, Session) {
    if b !in vanilla.densities then (store, s)
    else
      var withDensity := store.(densities := CommitDensity(store.densities, vanilla.densities[b], b, s.density));
      if |s.biomePlantValues| == 0 then (withDensity, s)
      else if b !in vanilla.spawnRates then (withDensity, ClearBiomeBuffers(s))
      else
        match BiomeDiff(plants, s.biomePlantValues, vanilla, b)
        case None => (withDensity, s)
        case Some(m) => (withDensity.(spawnRates := ReplaceBiome(store.spawnRates, b, m)), ClearBiomeBuffers(s))
  }

  // ---------------------------------------------------------------------
  // Plant mode: `savePlantSetting`
  // ---------------------------------------------------------------------

  /** Which per-biome rule a plant-mode commit follows: the source's, or the
      corrected one that drops an override whenever the edit is not kept. */
  datatype CommitRule = AsWritten | Corrected

  /** One biome's step of a plant-mode commit. As written, an edit of 0
      with no vanilla record leaves the (biome, plant) entry alone. */
  function PlantStep(rule: CommitRule, sr: SpawnRates, vr: Option<PlantRecord>, b: string, p: string, edit: real): (r: SpawnRates)
    ensures Lookup(r, b, p) ==
      (if Kept(edit, vr) then Some(edit)
       else if rule == AsWritten && vr.None? then Lookup(sr, b, p)
       else None)
    ensures forall c, q | c != b || q != p :: Lookup(r, c, q) == Lookup(sr, c, q)
    ensures NoEmptyOverrides(sr) ==> NoEmptyOverrides(r)
  {
    match rule
    case AsWritten =>
      if vr.Some? && vr.value.commonality == edit then ClearOverride(sr, b, p)
      else if vr.None? && edit == 0.0 then sr
      else SetOverride(sr, b, p, edit)
    case Corrected =>
      if Kept(edit, vr) then SetOverride(sr, b, p, edit) else ClearOverride(sr, b, p)
  }

  /** What a plant-mode commit leaves for (biome, plant) given the entry
      before it: the rule's per-biome decision. */
  function Decided(rule: CommitRule, before: Option<real>, vr: Option<PlantRecord>, edit: real): Option<real> {
    if Kept(edit, vr) then Some(edit)
    else if rule == AsWritten && vr.None? then before
    else None
  }

  /** Where the source's rule loses an edit: the plant has no vanilla
      record in the biome, the edit is 0 and an earlier override other than
      0 exists; the commit leaves that override in place. */
  predicate LosesEdit(rule: CommitRule, sr: SpawnRates, vanilla: Vanilla, b: string, p: string, edit: real) {
    && rule == AsWritten && VanillaRecord(vanilla, b, p).None? && edit == 0.0
    && Lookup(sr, b, p).Some? && Lookup(sr, b, p).value != 0.0
  }

  /** The loop of `savePlantSetting` over the biomes `bs` for plant `p`:
      biomes without a vanilla plant list are skipped; a biome without an
      edit stops the loop, keeping what was written so far (the source
      catches the exception). The flag says whether the loop completed. */
  function SavePlantLoop(rule: CommitRule, bs: seq<string>, sr: SpawnRates, vanilla: Vanilla,
                         p: string, edits: map<string, real>): (r: (SpawnRates, bool))
    requires forall i, j | 0 <= i < j < |bs| :: bs[i] != bs[j]
    ensures r.1 <==> forall c | c in bs && c in vanilla.spawnRates :: c in edits
    ensures forall c, q | q != p || c !in bs || c !in vanilla.spawnRates ::
      Lookup(r.0, c, q) == Lookup(sr, c, q)
    ensures r.1 ==> forall c | c in bs && c in vanilla.spawnRates && c in edits ::
      Lookup(r.0, c, p) == Decided(rule, Lookup(sr, c, p), VanillaRecord(vanilla, c, p), edits[c])
    ensures NoEmptyOverrides(sr) ==> NoEmptyOverrides(r.0)
    decreases |bs|
  {
    if |bs| == 0 then (sr, true)
    else
      var b := bs[0];
      assert forall c :: c in bs <==> c == b || c in bs[1..] by {
        assert bs == [b] + bs[1..];
      }
      assert b !in bs[1..] by {
        forall k | 0 <= k < |bs[1..]|
          ensures bs[1..][k] != b
        {
          assert bs[1..][k] == bs[k + 1];
        }
      }
      if b !in vanilla.spawnRates then SavePlantLoop(rule, bs[1..], sr, vanilla, p, edits)
      else if b !in edits then (sr, false)
      else
        var next := PlantStep(rule, sr, VanillaRecord(vanilla, b, p), b, p, edits[b]);
        SavePlantLoop(rule, bs[1..], next, vanilla, p, edits)
  }

  /** The plant-mode buffers after a completed commit. */
  function ClearPlantBuffers(s: Session): Session {
    s.(plantBiomeValues := map[], plantBiomeHints := map[])
  }

  /** `savePlantSetting` for plant `p`: nothing happens for an empty buffer;
      otherwise the loop runs over every biome, and the buffers are emptied
      when it completes. */
  function SavePlantSetting(rule: CommitRule, g: Game, s: Session, p: string): (r: (Store, Session))
    requires WellFormed(g.reg)
    ensures r.0 == g.store.(spawnRates := r.0.spawnRates)
    ensures |s.plantBiomeValues| == 0 ==> r == (g.store, s)
    ensures forall c, q | q != p || c !in AllBiomes(g.reg) || c !in g.vanilla.spawnRates ::
      Lookup(r.0.spawnRates, c, q) == Lookup(g.store.spawnRates, c, q)
    ensures |s.plantBiomeValues| > 0 && (forall c | c in AllBiomes(g.reg) :: c in s.plantBiomeValues) ==>
      && r.1 == ClearPlantBuffers(s)
      && forall c | c in AllBiomes(g.reg) && c in g.vanilla.spawnRates && c in s.plantBiomeValues ::
           Lookup(r.0.spawnRates, c, p) ==
             Decided(rule, Lookup(g.store.spawnRates, c, p), VanillaRecord(g.vanilla, c, p), s.plantBiomeValues[c])
    ensures r.1 == s || r.1 == ClearPlantBuffers(s)
    ensures NoEmptyOverrides(g.store.spawnRates) ==> NoEmptyOverrides(r.0.spawnRates)
  {
    if |s.plantBiomeValues| == 0 then (g.store, s)
    else
      AllBiomesDistinct(g.reg);
      var (sr, completed) := SavePlantLoop(rule, AllBiomes(g.reg), g.store.spawnRates, g.vanilla, p, s.plantBiomeValues);
      (g.store.(spawnRates := sr), if completed then ClearPlantBuffers(s) else s)
  }

  /** `saveBiomeSettings`: nothing for a selection that is not a category
      (with no selection the source's lookups fail and are caught), else
      the commit of the mode in force; plant mode follows `rule`, which is
      `AsWritten` for the source. */
  function SaveBiomeSettings(rule: CommitRule, g: Game, s: Session): (r: (Store, Session))
    requires WellFormed(g.reg)
    ensures r.0.reverseSettingsMode == g.store.reverseSettingsMode
    ensures r.0.verboseLogging == g.store.verboseLogging
    ensures r.0.caveWeights == g.store.caveWeights
    ensures !IsCategory(s.selected) ==> r == (g.store, s)
    ensures IsCategory(s.selected) && g.store.reverseSettingsMode ==> r == SavePlantSetting(rule, g, s, s.selected.value)
    ensures IsCategory(s.selected) && !g.store.reverseSettingsMode ==> r == SaveABiomeSetting(g, s, s.selected.value)
    ensures r.1.selected == s.selected
    ensures NoEmptyOverrides(g.store.spawnRates) ==> NoEmptyOverrides(r.0.spawnRates)
  {
    if !IsCategory(s.selected) then (g.store, s)
    else if g.store.reverseSettingsMode then SavePlantSetting(rule, g, s, s.selected.value)
    else SaveABiomeSetting(g, s, s.selected.value)
  }

  // ---------------------------------------------------------------------
  // Filling the buffers
  // ---------------------------------------------------------------------

  /** The display precision of a value whose fraction prints with
      `printedLength` characters: that length, but never below 4. */
  function PrecisionHint(printedLength: nat): (d: nat)
    ensures d >= 4 && d >= printedLength
    ensures d == 4 || d == printedLength
  {
    if printedLength < 4 then 4 else printedLength
  }

  /** One hint per buffered value; `printed` stands for the printed length
      of a value's fractional part. */
  function Hints(values: map<string, real>, printed: real -> nat): (h: map<string, nat>)
    ensures h.Keys == values.Keys
    ensures forall k | k in h :: h[k] >= 4
  {
    map k | k in values :: PrecisionHint(printed(values[k]))
  }

  /** Plant `p`'s commonality in every biome, as the game reads it. */
  function PlantColumn(g: Game, p: string): (vs: map<string, real>)
    requires Valid(g)
    ensures forall b :: b in vs <==> b in AllBiomes(g.reg)
    ensures forall b | b in vs :: b in g.live.biomes && vs[b] == Commonality(g.live, b, p)
  {
    map b | b in AllBiomes(g.reg) :: Commonality(g.live, b, p)
  }

  /** Every plant's commonality in biome `b`, as the game reads it. */
  function BiomeRow(g: Game, b: string): (vs: map<string, real>)
    requires b in g.live.biomes
    ensures forall p :: p in vs <==> p in AllPlants(g.reg)
    ensures forall p | p in vs :: vs[p] == Commonality(g.live, b, p)
  {
    map p | p in AllPlants(g.reg) :: Commonality(g.live, b, p)
  }

  lemma NonEmptyMap<K, V>(m: map<K, V>, k: K)
    requires k in m
    ensures |m| > 0
  {
    assert k in m.Keys;
  }

  // ---------------------------------------------------------------------
  // The selection (`SelectedDef`) and `WriteSettings`
  // ---------------------------------------------------------------------

  /** What the tab list lets the user open: a fixed page, a biome in biome
      mode, a plant in plant mode. Any other name makes the source's refill
      dereference a missing definition. */
  predicate CanEnter(g: Game, value: Option<string>) {
    IsCategory(value) ==>
      if g.store.reverseSettingsMode then value.value in AllPlants(g.reg) else value.value in AllBiomes(g.reg)
  }

  /** Leaving the current selection: a category's edits are committed and
      the merge runs; leaving a page or nothing changes nothing. */
  function Leave(rule: CommitRule, st: ModState): (g: Game)
    requires Valid(st.game)
    ensures g.reg == st.game.reg && g.vanilla == st.game.vanilla && Valid(g)
    ensures g.store.reverseSettingsMode == st.game.store.reverseSettingsMode
    ensures g.store.caveWeights == st.game.store.caveWeights
    ensures IsCategory(st.session.selected) ==> InSync(g) && g.store == SaveBiomeSettings(rule, st.game, st.session).0
    ensures !IsCategory(st.session.selected) ==> g == st.game
  {
    if IsCategory(st.session.selected) then
      ApplyBiomeSettings(st.game.(store := SaveBiomeSettings(rule, st.game, st.session).0))
    else st.game
  }

  /** The `SelectedDef` setter: commit-on-leave, buffers emptied and the
      density zeroed, then for a category the buffers refilled from what the
      game now reads (per biome for a plant, per plant plus the density for
      a biome). */
  function Select(rule: CommitRule, st: ModState, value: Option<string>, printed: real -> nat): (r: ModState)
    requires Valid(st.game) && CanEnter(st.game, value)
    ensures r.game == Leave(rule, st)
    ensures r.session.selected == value
    ensures !IsCategory(value) ==> r.session == EmptyBuffers(value)
    ensures IsCategory(value) && r.game.store.reverseSettingsMode ==>
      && r.session.biomePlantValues == map[] && r.session.biomePlantHints == map[] && r.session.density == 0.0
      && (forall b :: b in r.session.plantBiomeValues <==> b in AllBiomes(r.game.reg))
      && (forall b | b in r.session.plantBiomeValues ::
            b in r.game.live.biomes && r.session.plantBiomeValues[b] == Commonality(r.game.live, b, value.value))
      && r.session.plantBiomeHints.Keys == r.session.plantBiomeValues.Keys
      && (forall b | b in r.session.plantBiomeHints :: r.session.plantBiomeHints[b] >= 4)
    ensures IsCategory(value) && !r.game.store.reverseSettingsMode ==>
      && r.session.plantBiomeValues == map[] && r.session.plantBiomeHints == map[]
      && value.value in r.game.live.biomes
      && r.session.density == r.game.live.biomes[value.value].plantDensity
      && (forall p :: p in r.session.biomePlantValues <==> p in AllPlants(r.game.reg))
      && (forall p | p in r.session.biomePlantValues ::
            r.session.biomePlantValues[p] == Commonality(r.game.live, value.value, p))
      && r.session.biomePlantHints.Keys == r.session.biomePlantValues.Keys
      && (forall p | p in r.session.biomePlantHints :: r.session.biomePlantHints[p] >= 4)
  {
    var g := Leave(rule, st);
    if !IsCategory(value) then ModState(g, EmptyBuffers(value))
    else if g.store.reverseSettingsMode then
      var column := PlantColumn(g, value.value);
      ModState(g, EmptyBuffers(value).(plantBiomeValues := column, plantBiomeHints := Hints(column, printed)))
    else
      var row := BiomeRow(g, value.value);
      ModState(g, EmptyBuffers(value).(density := g.live.biomes[value.value].plantDensity,
                                       biomePlantValues := row, biomePlantHints := Hints(row, printed)))
  }

  /** `WriteSettings`: commit, merge, then select the settings page (which
      commits the left-over buffers once more and merges again). */
  function WriteSettings(rule: CommitRule, st: ModState, printed: real -> nat): (r: ModState)
    requires Valid(st.game)
    ensures r.session == EmptyBuffers(Some(SettingsPage))
    ensures r.game.reg == st.game.reg && r.game.vanilla == st.game.vanilla
    ensures Valid(r.game) && InSync(r.game)
  {
    var (store, s) := SaveBiomeSettings(rule, st.game, st.session);
    var g := ApplyBiomeSettings(st.game.(store := store));
    Select(rule, ModState(g, s), Some(SettingsPage), printed)
  }

  /** A plant-mode buffer has an edit for every biome, as the refill leaves it. */
  predicate PlantBufferComplete(g: Game, s: Session) {
    g.store.reverseSettingsMode && IsCategory(s.selected) ==>
      forall b | b in AllBiomes(g.reg) :: b in s.plantBiomeValues
  }

  /** A biome-mode commit of what a biome-mode commit left behind changes
      nothing more. */
  lemma BiomeCommitTwice(store: Store, vanilla: Vanilla, plants: seq<string>, s: Session, b: string)
    ensures var (store1, s1) := CommitBiome(store, vanilla, plants, s, b);
      CommitBiome(store1, vanilla, plants, s1, b).0 == store1
  {
    if b in vanilla.densities {
      var d := CommitDensity(store.densities, vanilla.densities[b], b, s.density);
      CommitDensityTwice(store.densities, vanilla.densities[b], b, s.density);
      var withDensity := store.(densities := d);
      if |s.biomePlantValues| == 0 || b !in vanilla.spawnRates {
        assert CommitBiome(store, vanilla, plants, s, b).0 == withDensity;
      } else {
        match BiomeDiff(plants, s.biomePlantValues, vanilla, b)
        case None =>
          assert CommitBiome(store, vanilla, plants, s, b) == (withDensity, s);
        case Some(m) =>
          var store1 := withDensity.(spawnRates := ReplaceBiome(store.spawnRates, b, m));
          assert CommitBiome(store, vanilla, plants, s, b) == (store1, ClearBiomeBuffers(s));
          assert CommitBiome(store1, vanilla, plants, ClearBiomeBuffers(s), b).0 == store1;
      }
    }
  }

  lemma CommitDensityTwice(densities: map<string, real>, vanillaDensity: real, b: string, edit: real)
    ensures var d := CommitDensity(densities, vanillaDensity, b, edit);
      CommitDensity(d, vanillaDensity, b, edit) == d
  {
  }

  lemma ReplaceBiomeTwice(sr: SpawnRates, b: string, m: map<string, real>)
    ensures ReplaceBiome(ReplaceBiome(sr, b, m), b, m) == ReplaceBiome(sr, b, m)
  {
  }

  /** Committing what a commit left behind changes nothing more. */
  lemma CommitTwice(rule: CommitRule, g: Game, s: Session, live: Live)
    requires WellFormed(g.reg) && PlantBufferComplete(g, s)
    ensures var (store, s1) := SaveBiomeSettings(rule, g, s);
      SaveBiomeSettings(rule, Game(g.reg, live, g.vanilla, store), s1).0 == store
  {
    var (store, s1) := SaveBiomeSettings(rule, g, s);
    if IsCategory(s.selected) && !g.store.reverseSettingsMode {
      BiomeCommitTwice(g.store, g.vanilla, AllPlants(g.reg), s, s.selected.value);
    }
  }

  /** `WriteSettings` stores exactly what one commit stores: selecting the
      settings page afterwards finds nothing left to commit. */
  lemma WriteSettingsCommitsOnce(rule: CommitRule, st: ModState, printed: real -> nat)
    requires Valid(st.game) && PlantBufferComplete(st.game, st.session)
    ensures WriteSettings(rule, st, printed).game.store == SaveBiomeSettings(rule, st.game, st.session).0
  {
    var (store, s) := SaveBiomeSettings(rule, st.game, st.session);
    var g := ApplyBiomeSettings(st.game.(store := store));
    CommitTwice(rule, st.game, st.session, g.live);
  }

  // ---------------------------------------------------------------------
  // Round trips through commit, merge and refill
  // ---------------------------------------------------------------------

  /** Biome mode: leaving biome `b` with an edit for every plant makes the
      game read the edited density in `b`, and the edits too when `b` has
      a vanilla plant list (the commit drops them otherwise); other biomes
      keep their effective values. */
  lemma BiomeCommitReadsBack(rule: CommitRule, g: Game, s: Session, c: string, p: string)
    requires Valid(g) && !g.store.reverseSettingsMode
    requires IsCategory(s.selected) && s.selected.value in AllBiomes(g.reg)
    requires forall q | q in AllPlants(g.reg) :: q in s.biomePlantValues
    requires |s.biomePlantValues| > 0
    requires c in AllBiomes(g.reg) && p in AllPlants(g.reg)
    ensures var r := Leave(rule, ModState(g, s));
      var b := s.selected.value;
      && c in r.live.biomes
      && Commonality(r.live, c, p) ==
           (if c == b && b in g.vanilla.spawnRates then s.biomePlantValues[p]
            else EffectiveCommonality(g.store, g.vanilla, c, p))
      && r.live.biomes[c].plantDensity ==
           (if c == b then s.density else EffectiveDensity(g.store, g.vanilla, c))
  {
    var b := s.selected.value;
    var store := SaveABiomeSetting(g, s, b).0;
    assert Leave(rule, ModState(g, s)) == ApplyBiomeSettings(g.(store := store));
    Settings.MergeReadsStore(g, store, c, p);
    BiomeCommitEffective(g, s, b, c, p);
  }

  lemma BiomeCommitEffective(g: Game, s: Session, b: string, c: string, p: string)
    requires b in g.vanilla.densities && c in g.vanilla.densities
    requires forall q | q in AllPlants(g.reg) :: q in s.biomePlantValues
    requires |s.biomePlantValues| > 0
    requires p in AllPlants(g.reg)
    ensures var store := SaveABiomeSetting(g, s, b).0;
      && EffectiveCommonality(store, g.vanilla, c, p) ==
           (if c == b && b in g.vanilla.spawnRates then s.biomePlantValues[p]
            else EffectiveCommonality(g.store, g.vanilla, c, p))
      && EffectiveDensity(store, g.vanilla, c) ==
           (if c == b then s.density else EffectiveDensity(g.store, g.vanilla, c))
  {
    var store := SaveABiomeSetting(g, s, b).0;
    if c == b && b in g.vanilla.spawnRates {
      KeptReadsBack(store, g.vanilla, b, p, s.biomePlantValues[p]);
    } else {
      assert Lookup(store.spawnRates, c, p) == Lookup(g.store.spawnRates, c, p);
    }
  }

  /** Plant mode: leaving plant `q` with an edit for every biome makes the
      game read the edit in every biome that has a vanilla plant list,
      except where the rule loses it (`LosesEdit`, never under the
      corrected rule); everywhere else, and for every other plant, the
      effective values stay. */
  lemma PlantCommitReadsBack(rule: CommitRule, g: Game, s: Session, b: string, p: string)
    requires Valid(g) && g.store.reverseSettingsMode
    requires IsCategory(s.selected) && s.selected.value in AllPlants(g.reg)
    requires forall c | c in AllBiomes(g.reg) :: c in s.plantBiomeValues
    requires |s.plantBiomeValues| > 0
    requires b in AllBiomes(g.reg) && p in AllPlants(g.reg)
    ensures var r := Leave(rule, ModState(g, s));
      && b in r.live.biomes
      && Commonality(r.live, b, p) ==
           (if p == s.selected.value && b in g.vanilla.spawnRates
               && !LosesEdit(rule, g.store.spawnRates, g.vanilla, b, p, s.plantBiomeValues[b])
            then s.plantBiomeValues[b] else EffectiveCommonality(g.store, g.vanilla, b, p))
  {
    var q := s.selected.value;
    var store := SavePlantSetting(rule, g, s, q).0;
    assert Leave(rule, ModState(g, s)) == ApplyBiomeSettings(g.(store := store));
    Settings.MergeReadsStore(g, store, b, p);
    PlantCommitEffective(rule, g, s, q, b, p);
  }

  lemma PlantCommitEffective(rule: CommitRule, g: Game, s: Session, q: string, b: string, p: string)
    requires WellFormed(g.reg)
    requires forall c | c in AllBiomes(g.reg) :: c in s.plantBiomeValues
    requires |s.plantBiomeValues| > 0
    requires b in AllBiomes(g.reg)
    ensures EffectiveCommonality(SavePlantSetting(rule, g, s, q).0, g.vanilla, b, p) ==
      (if p == q && b in g.vanilla.spawnRates
          && !LosesEdit(rule, g.store.spawnRates, g.vanilla, b, p, s.plantBiomeValues[b])
       then s.plantBiomeValues[b] else EffectiveCommonality(g.store, g.vanilla, b, p))
  {
    var store := SavePlantSetting(rule, g, s, q).0;
    var edit := s.plantBiomeValues[b];
    var before := Lookup(g.store.spawnRates, b, p);
    if p == q && b in g.vanilla.spawnRates {
      var vr := VanillaRecord(g.vanilla, b, p);
      assert Lookup(store.spawnRates, b, p) == Decided(rule, before, vr, edit);
      KeptIffDiffersFromVanilla(g.vanilla, b, p, edit);
    } else {
      assert Lookup(store.spawnRates, b, p) == before;
    }
  }

  /** Biome mode: re-selecting a biome after editing every plant shows the
      edited density again, and the edits too when the biome has a vanilla
      plant list; without one it shows the old store's effective values. */
  lemma BiomeEditsSurviveReselect(rule: CommitRule, st: ModState, printed: real -> nat)
    requires Valid(st.game) && !st.game.store.reverseSettingsMode
    requires IsCategory(st.session.selected) && st.session.selected.value in AllBiomes(st.game.reg)
    requires forall p | p in AllPlants(st.game.reg) :: p in st.session.biomePlantValues
    requires |st.session.biomePlantValues| > 0
    ensures var r := Select(rule, st, st.session.selected, printed);
      var b := st.session.selected.value;
      && r.session.density == st.session.density
      && forall p | p in AllPlants(st.game.reg) ::
           && p in r.session.biomePlantValues
           && r.session.biomePlantValues[p] ==
                (if b in st.game.vanilla.spawnRates then st.session.biomePlantValues[p]
                 else EffectiveCommonality(st.game.store, st.game.vanilla, b, p))
  {
    var b := st.session.selected.value;
    var r := Select(rule, st, st.session.selected, printed);
    forall p | p in AllPlants(st.game.reg)
      ensures && p in r.session.biomePlantValues
              && r.session.biomePlantValues[p] ==
                   (if b in st.game.vanilla.spawnRates then st.session.biomePlantValues[p]
                    else EffectiveCommonality(st.game.store, st.game.vanilla, b, p))
    {
      BiomeCommitReadsBack(rule, st.game, st.session, b, p);
    }
    BiomeDensityReadsBack(rule, st);
  }

  lemma BiomeDensityReadsBack(rule: CommitRule, st: ModState)
    requires Valid(st.game) && !st.game.store.reverseSettingsMode
    requires IsCategory(st.session.selected) && st.session.selected.value in AllBiomes(st.game.reg)
    requires forall p | p in AllPlants(st.game.reg) :: p in st.session.biomePlantValues
    ensures var g := Leave(rule, st);
      var b := st.session.selected.value;
      b in g.live.biomes && g.live.biomes[b].plantDensity == st.session.density
  {
    var b := st.session.selected.value;
    var store := SaveABiomeSetting(st.game, st.session, b).0;
    assert Leave(rule, st) == ApplyBiomeSettings(st.game.(store := store));
    assert EffectiveDensity(store, st.game.vanilla, b) == st.session.density;
  }

  /** Plant mode: re-selecting a plant after editing every biome shows the
      edits again for every biome that has a vanilla plant list, except
      where the rule loses one (`LosesEdit`); there, and in the biomes
      without a list, it shows the old store's effective values. */
  lemma PlantEditsSurviveReselect(rule: CommitRule, st: ModState, printed: real -> nat)
    requires Valid(st.game) && st.game.store.reverseSettingsMode
    requires IsCategory(st.session.selected) && st.session.selected.value in AllPlants(st.game.reg)
    requires forall b | b in AllBiomes(st.game.reg) :: b in st.session.plantBiomeValues
    requires |st.session.plantBiomeValues| > 0
    ensures var r := Select(rule, st, st.session.selected, printed);
      var p := st.session.selected.value;
      forall b | b in AllBiomes(st.game.reg) ::
        && b in r.session.plantBiomeValues
        && r.session.plantBiomeValues[b] ==
             (if b in st.game.vanilla.spawnRates
                 && !LosesEdit(rule, st.game.store.spawnRates, st.game.vanilla, b, p, st.session.plantBiomeValues[b])
              then st.session.plantBiomeValues[b] else EffectiveCommonality(st.game.store, st.game.vanilla, b, p))
  {
    var p := st.session.selected.value;
    var r := Select(rule, st, st.session.selected, printed);
    forall b | b in AllBiomes(st.game.reg)
      ensures && b in r.session.plantBiomeValues
              && r.session.plantBiomeValues[b] ==
                   (if b in st.game.vanilla.spawnRates
                       && !LosesEdit(rule, st.game.store.spawnRates, st.game.vanilla, b, p, st.session.plantBiomeValues[b])
                    then st.session.plantBiomeValues[b] else EffectiveCommonality(st.game.store, st.game.vanilla, b, p))
    {
      PlantCommitReadsBack(rule, st.game, st.session, b, p);
    }
  }

  /** The source's plant-mode rule loses an edit back to 0: for a biome
      where the plant has no vanilla record but an override `x`, an edit of
      0 leaves the override, so the game keeps reading `x`. */
  lemma AsWrittenKeepsStaleOverride(g: Game, s: Session, p: string, b: string, x: real)
    requires WellFormed(g.reg)
    requires b in AllBiomes(g.reg) && b in g.vanilla.spawnRates && VanillaRecord(g.vanilla, b, p).None?
    requires Lookup(g.store.spawnRates, b, p) == Some(x) && x != 0.0
    requires forall c | c in AllBiomes(g.reg) :: c in s.plantBiomeValues
    requires s.plantBiomeValues[b] == 0.0
    ensures var store := SavePlantSetting(AsWritten, g, s, p).0;
      && Lookup(store.spawnRates, b, p) == Some(x)
      && EffectiveCommonality(store, g.vanilla, b, p) != s.plantBiomeValues[b]
    ensures EffectiveCommonality(SavePlantSetting(Corrected, g, s, p).0, g.vanilla, b, p) == s.plantBiomeValues[b]
  {
    NonEmptyMap(s.plantBiomeValues, b);
  }

  // ---------------------------------------------------------------------
  // Copy actions
  // ---------------------------------------------------------------------

  /** The entries a copy menu offers on `dest`'s page: every other name,
      in the given order. */
  function CopySources(names: seq<string>, dest: string): (r: seq<string>)
    ensures forall c :: c in r <==> c in names && c != dest
  {
    Filter(names, c => c != dest)
  }

  /** The action of `copySpawnValues`, copying biome `src` onto the selected
      biome: the source's saved-else-vanilla density and its live
      commonalities go into the buffers, then the selection is re-assigned,
      which commits them (`rule` is passed on to the setter and plays no
      part in biome mode). */
  function CopySpawnValues(rule: CommitRule, st: ModState, src: string, printed: real -> nat): (r: ModState)
    requires Valid(st.game) && !st.game.store.reverseSettingsMode
    requires IsCategory(st.session.selected) && st.session.selected.value in AllBiomes(st.game.reg)
    requires src in AllBiomes(st.game.reg)
    ensures r.session.selected == st.session.selected
    ensures r.game.reg == st.game.reg && r.game.vanilla == st.game.vanilla && Valid(r.game) && InSync(r.game)
  {
    Select(rule, ModState(st.game, CopiedBiome(st, src, printed)), st.session.selected, printed)
  }

  /** The biome-mode buffers the copy action fills before re-selecting: the
      source's saved-else-vanilla density and its live commonality for
      every plant. */
  function CopiedBiome(st: ModState, src: string, printed: real -> nat): (s: Session)
    requires Valid(st.game) && src in AllBiomes(st.game.reg)
    ensures s.selected == st.session.selected
    ensures src in st.game.live.biomes
    ensures s.density == EffectiveDensity(st.game.store, st.game.vanilla, src)
    ensures forall p | p in AllPlants(st.game.reg) ::
      p in s.biomePlantValues && s.biomePlantValues[p] == Commonality(st.game.live, src, p)
  {
    var density := if src in st.game.store.densities then st.game.store.densities[src] else st.game.vanilla.densities[src];
    var row := BiomeRow(st.game, src);
    st.session.(density := density,
                biomePlantValues := st.session.biomePlantValues + row,
                biomePlantHints := st.session.biomePlantHints + Hints(row, printed))
  }

  /** After copying, the destination biome reads the source's
      saved-else-vanilla density, and the source's commonalities when the
      destination has a vanilla plant list (the commit drops them
      otherwise); every other biome keeps its effective values. */
  lemma CopySpawnValuesCopiesSource(rule: CommitRule, st: ModState, src: string, printed: real -> nat, c: string, p: string)
    requires Valid(st.game) && !st.game.store.reverseSettingsMode
    requires IsCategory(st.session.selected) && st.session.selected.value in AllBiomes(st.game.reg)
    requires src in AllBiomes(st.game.reg)
    requires c in AllBiomes(st.game.reg) && p in AllPlants(st.game.reg)
    ensures var r := CopySpawnValues(rule, st, src, printed);
      var dest := st.session.selected.value;
      && c in r.game.live.biomes && src in st.game.live.biomes
      && Commonality(r.game.live, c, p) ==
           (if c == dest && dest in st.game.vanilla.spawnRates then Commonality(st.game.live, src, p)
            else EffectiveCommonality(st.game.store, st.game.vanilla, c, p))
      && r.game.live.biomes[c].plantDensity ==
           (if c == dest then EffectiveDensity(st.game.store, st.game.vanilla, src)
            else EffectiveDensity(st.game.store, st.game.vanilla, c))
  {
    CopySpawnValuesLeaves(rule, st, src, printed);
    CopiedBiomeReadsBack(rule, st, src, printed, c, p);
  }

  lemma CopiedBiomeReadsBack(rule: CommitRule, st: ModState, src: string, printed: real -> nat, c: string, p: string)
    requires Valid(st.game) && !st.game.store.reverseSettingsMode
    requires IsCategory(st.session.selected) && st.session.selected.value in AllBiomes(st.game.reg)
    requires src in AllBiomes(st.game.reg)
    requires c in AllBiomes(st.game.reg) && p in AllPlants(st.game.reg)
    ensures var g := Leave(rule, ModState(st.game, CopiedBiome(st, src, printed)));
      var dest := st.session.selected.value;
      && c in g.live.biomes && src in st.game.live.biomes
      && Commonality(g.live, c, p) ==
           (if c == dest && dest in st.game.vanilla.spawnRates then Commonality(st.game.live, src, p)
            else EffectiveCommonality(st.game.store, st.game.vanilla, c, p))
      && g.live.biomes[c].plantDensity ==
           (if c == dest then EffectiveDensity(st.game.store, st.game.vanilla, src)
            else EffectiveDensity(st.game.store, st.game.vanilla, c))
  {
    var s := CopiedBiome(st, src, printed);
    NonEmptyMap(s.biomePlantValues, p);
    BiomeCommitReadsBack(rule, st.game, s, c, p);
  }

  lemma CopySpawnValuesLeaves(rule: CommitRule, st: ModState, src: string, printed: real -> nat)
    requires Valid(st.game) && !st.game.store.reverseSettingsMode
    requires IsCategory(st.session.selected) && st.session.selected.value in AllBiomes(st.game.reg)
    requires src in AllBiomes(st.game.reg)
    ensures CopySpawnValues(rule, st, src, printed).game == Leave(rule, ModState(st.game, CopiedBiome(st, src, printed)))
  {
  }

  /** The action of `copyOtherPlantValues`, copying plant `src` onto the
      selected plant: the source's live commonality in every biome goes into
      the buffers, then the selection is re-assigned, which commits them
      under `rule`. */
  function CopyOtherPlantValues(rule: CommitRule, st: ModState, src: string, printed: real -> nat): (r: ModState)
    requires Valid(st.game) && st.game.store.reverseSettingsMode
    requires IsCategory(st.session.selected) && st.session.selected.value in AllPlants(st.game.reg)
    requires src in AllPlants(st.game.reg)
    ensures r.session.selected == st.session.selected
    ensures r.game.reg == st.game.reg && r.game.vanilla == st.game.vanilla && Valid(r.game) && InSync(r.game)
  {
    Select(rule, ModState(st.game, CopiedPlant(st, src, printed)), st.session.selected, printed)
  }

  /** The plant-mode buffers the copy action fills before re-selecting: the
      source plant's live commonality in every biome. */
  function CopiedPlant(st: ModState, src: string, printed: real -> nat): (s: Session)
    requires Valid(st.game)
    ensures s.selected == st.session.selected
    ensures forall b | b in AllBiomes(st.game.reg) ::
      b in st.game.live.biomes && b in s.plantBiomeValues && s.plantBiomeValues[b] == Commonality(st.game.live, b, src)
  {
    var column := PlantColumn(st.game, src);
    st.session.(plantBiomeValues := st.session.plantBiomeValues + column,
                plantBiomeHints := st.session.plantBiomeHints + Hints(column, printed))
  }

  /** After copying, the destination plant reads the source's commonality
      in every biome with a vanilla plant list, except where the rule loses
      the copied value (`LosesEdit`: as written, a copied 0 over an
      override with no vanilla record); there, in the biomes without a list
      and for every other plant, the effective values stay. */
  lemma CopyOtherPlantValuesCopiesSource(rule: CommitRule, st: ModState, src: string, printed: real -> nat, b: string, q: string)
    requires Valid(st.game) && st.game.store.reverseSettingsMode
    requires IsCategory(st.session.selected) && st.session.selected.value in AllPlants(st.game.reg)
    requires src in AllPlants(st.game.reg)
    requires b in AllBiomes(st.game.reg) && q in AllPlants(st.game.reg)
    ensures var r := CopyOtherPlantValues(rule, st, src, printed);
      && b in r.game.live.biomes && b in st.game.live.biomes
      && Commonality(r.game.live, b, q) ==
           (if q == st.session.selected.value && b in st.game.vanilla.spawnRates
               && !LosesEdit(rule, st.game.store.spawnRates, st.game.vanilla, b, q, Commonality(st.game.live, b, src))
            then Commonality(st.game.live, b, src)
            else EffectiveCommonality(st.game.store, st.game.vanilla, b, q))
  {
    CopyOtherPlantValuesLeaves(rule, st, src, printed);
    CopiedPlantReadsBack(rule, st, src, printed, b, q);
  }

  lemma CopiedPlantReadsBack(rule: CommitRule, st: ModState, src: string, printed: real -> nat, b: string, q: string)
    requires Valid(st.game) && st.game.store.reverseSettingsMode
    requires IsCategory(st.session.selected) && st.session.selected.value in AllPlants(st.game.reg)
    requires src in AllPlants(st.game.reg)
    requires b in AllBiomes(st.game.reg) && q in AllPlants(st.game.reg)
    ensures var g := Leave(rule, ModState(st.game, CopiedPlant(st, src, printed)));
      && b in g.live.biomes && b in st.game.live.biomes
      && Commonality(g.live, b, q) ==
           (if q == st.session.selected.value && b in st.game.vanilla.spawnRates
               && !LosesEdit(rule, st.game.store.spawnRates, st.game.vanilla, b, q, Commonality(st.game.live, b, src))
            then Commonality(st.game.live, b, src)
            else EffectiveCommonality(st.game.store, st.game.vanilla, b, q))
  {
    var s := CopiedPlant(st, src, printed);
    NonEmptyMap(s.plantBiomeValues, b);
    PlantCommitReadsBack(rule, st.game, s, b, q);
  }

  lemma CopyOtherPlantValuesLeaves(rule: CommitRule, st: ModState, src: string, printed: real -> nat)
    requires Valid(st.game) && st.game.store.reverseSettingsMode
    requires IsCategory(st.session.selected) && st.session.selected.value in AllPlants(st.game.reg)
    requires src in AllPlants(st.game.reg)
    ensures CopyOtherPlantValues(rule, st, src, printed).game == Leave(rule, ModState(st.game, CopiedPlant(st, src, printed)))
  {
  }

  // ---------------------------------------------------------------------
  // The reset buttons of a category page
  // ---------------------------------------------------------------------

  /** The plant page's reset: `ResetOnePlant`, then the buffers refilled
      from what the game now reads. The selection stays. */
  function ResetSelectedPlant(st: ModState, printed: real -> nat): (r: ModState)
    requires Valid(st.game)
    requires IsCategory(st.session.selected) && st.session.selected.value in AllPlants(st.game.reg)
    ensures r.game == Settings.ResetOnePlant(st.game, st.session.selected.value)
    ensures r.session.selected == st.session.selected
    ensures forall b | b in AllBiomes(st.game.reg) ::
      b in r.session.plantBiomeValues &&
      r.session.plantBiomeValues[b] == VanillaCommonality(st.game.vanilla, b, st.session.selected.value)
  {
    var p := st.session.selected.value;
    var g := Settings.ResetOnePlant(st.game, p);
    var column := PlantColumn(g, p);
    assert forall b | b in AllBiomes(st.game.reg) :: column[b] == VanillaCommonality(st.game.vanilla, b, p) by {
      forall b | b in AllBiomes(st.game.reg) ensures column[b] == VanillaCommonality(st.game.vanilla, b, p) {
        Settings.ResetOnePlantRestoresVanilla(st.game, p, b, p);
      }
    }
    ModState(g, st.session.(plantBiomeValues := st.session.plantBiomeValues + column,
                            plantBiomeHints := st.session.plantBiomeHints + Hints(column, printed)))
  }

  /** The biome page's reset: `ResetOneBiome`, the density buffer set to
      the vanilla density, the plant buffers refilled from what the game
      now reads. The selection stays. */
  function ResetSelectedBiome(st: ModState, printed: real -> nat): (r: ModState)
    requires Valid(st.game)
    requires IsCategory(st.session.selected) && st.session.selected.value in AllBiomes(st.game.reg)
    ensures r.game == Settings.ResetOneBiome(st.game, st.session.selected.value)
    ensures r.session.selected == st.session.selected
    ensures r.session.density == st.game.vanilla.densities[st.session.selected.value]
    ensures forall p | p in AllPlants(st.game.reg) ::
      p in r.session.biomePlantValues &&
      r.session.biomePlantValues[p] == VanillaCommonality(st.game.vanilla, st.session.selected.value, p)
  {
    var b := st.session.selected.value;
    var g := Settings.ResetOneBiome(st.game, b);
    assert b in g.live.biomes;
    var row := BiomeRow(g, b);
    assert forall p | p in AllPlants(st.game.reg) :: row[p] == VanillaCommonality(st.game.vanilla, b, p) by {
      forall p | p in AllPlants(st.game.reg) ensures row[p] == VanillaCommonality(st.game.vanilla, b, p) {
        Settings.ResetOneBiomeRestoresVanilla(st.game, b, b, p);
      }
    }
    ModState(g, st.session.(density := st.game.vanilla.densities[b],
                            biomePlantValues := st.session.biomePlantValues + row,
                            biomePlantHints := st.session.biomePlantHints + Hints(row, printed)))
  }

  /** A biome-mode commit of the vanilla values stores no override for the
      biome: every edit is exempt, so a biome with a vanilla list loses any
      override it had, and the density equals vanilla. Without a vanilla
      list, or with empty buffers, the plant overrides are not touched. */
  lemma VanillaEditsStoreNothing(g: Game, s: Session, b: string, p: string)
    requires b in g.vanilla.densities && s.density == g.vanilla.densities[b]
    requires (b in g.vanilla.spawnRates && |s.biomePlantValues| > 0) || Lookup(g.store.spawnRates, b, p) == None
    requires forall q | q in AllPlants(g.reg) ::
      q in s.biomePlantValues && s.biomePlantValues[q] == VanillaCommonality(g.vanilla, b, q)
    ensures Lookup(SaveABiomeSetting(g, s, b).0.spawnRates, b, p) == None
    ensures b !in SaveABiomeSetting(g, s, b).0.densities
  {
    var r := SaveABiomeSetting(g, s, b);
    if b in g.vanilla.spawnRates && |s.biomePlantValues| > 0 {
      if p in AllPlants(g.reg) {
        KeptIffDiffersFromVanilla(g.vanilla, b, p, s.biomePlantValues[p]);
      }
    }
  }

  /** Leaving a biome page right after its reset stores no override for it. */
  lemma ResetBiomeThenLeaveStoresNothing(rule: CommitRule, st: ModState, printed: real -> nat, p: string)
    requires Valid(st.game) && !st.game.store.reverseSettingsMode
    requires IsCategory(st.session.selected) && st.session.selected.value in AllBiomes(st.game.reg)
    ensures var r := ResetSelectedBiome(st, printed);
      var b := st.session.selected.value;
      && Lookup(Leave(rule, r).store.spawnRates, b, p) == None
      && b !in Leave(rule, r).store.densities
  {
    var r := ResetSelectedBiome(st, printed);
    var b := st.session.selected.value;
    assert Leave(rule, r).store == SaveABiomeSetting(r.game, r.session, b).0;
    assert Lookup(r.game.store.spawnRates, b, p) == None;
    VanillaEditsStoreNothing(r.game, r.session, b, p);
  }

  // ---------------------------------------------------------------------
  // The cave page
  // ---------------------------------------------------------------------

  /** The sync the cave page runs for each cave plant of `ps` before its
      slider: a weight that differs from vanilla is saved, one that equals
      it is removed. */
  function SyncCaveWeights(ps: seq<string>, live: Live, vanilla: Vanilla, weights: map<string, real>): (r: map<string, real>)
    requires forall p | p in ps :: p in live.plants && p in vanilla.caveWeights
    ensures forall p | p in ps :: (p in r <==> live.plants[p].cavePlantWeight != vanilla.caveWeights[p])
    ensures forall p | p in ps && p in r :: r[p] == live.plants[p].cavePlantWeight
    ensures forall p | p !in ps :: (p in r <==> p in weights)
    ensures forall p | p !in ps && p in weights :: r[p] == weights[p]
    decreases |ps|
  {
    if |ps| == 0 then weights
    else
      var p := ps[0];
      assert forall q :: q in ps <==> q == p || q in ps[1..] by {
        assert ps == [p] + ps[1..];
      }
      var w := live.plants[p].cavePlantWeight;
      var next := if w != vanilla.caveWeights[p] then weights[p := w] else weights - {p};
      SyncCaveWeights(ps[1..], live, vanilla, next)
  }

  /** Drawing the cave page: every cave plant's override follows its live weight. */
  function SyncCaves(g: Game): (r: Game)
    requires Valid(g)
    ensures r == g.(store := r.store) && r.store == g.store.(caveWeights := r.store.caveWeights)
    ensures Valid(r)
    ensures forall p | p in AllCavePlants(g.reg) ::
      && p in g.live.plants && p in g.vanilla.caveWeights
      && (p in r.store.caveWeights <==> g.live.plants[p].cavePlantWeight != g.vanilla.caveWeights[p])
      && (p in r.store.caveWeights ==> r.store.caveWeights[p] == g.live.plants[p].cavePlantWeight)
  {
    CavePlantsHaveState(g.reg, g.live);
    g.(store := g.store.(caveWeights := SyncCaveWeights(AllCavePlants(g.reg), g.live, g.vanilla, g.store.caveWeights)))
  }

  /** The synced overrides bring the weights back after a restart: starting
      the game again from the vanilla weights with the synced store gives
      every cave plant the weight it had. */
  lemma SyncedCaveWeightsSurviveRestart(g: Game, restarted: Live)
    requires Valid(g) && Matches(g.reg, restarted)
    requires forall p | p in AllCavePlants(g.reg) ::
      p in restarted.plants && p in g.vanilla.caveWeights && restarted.plants[p].cavePlantWeight == g.vanilla.caveWeights[p]
    ensures var r := Startup(g.reg, restarted, SyncCaves(g).store);
      forall p | p in AllCavePlants(g.reg) ::
        p in r.live.plants && p in g.live.plants && r.live.plants[p].cavePlantWeight == g.live.plants[p].cavePlantWeight
  {
  }

  /** Resetting the cave page keeps the saved cave overrides, but the next
      sync removes every one of them. */
  lemma CavesResetThenSyncClears(g: Game, p: string)
    requires Valid(g) && p in AllCavePlants(g.reg)
    ensures p !in SyncCaves(Settings.ResetOneBiome(g, Settings.Caves)).store.caveWeights
  {
  }
}
