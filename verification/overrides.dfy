/** The mod's saved settings (`ChooseWildPlantSpawns_Settings`): per-biome
    plant commonality overrides, per-biome density overrides and per-plant
    cave weight overrides, plus two switches. The operations here are the
    map edits the rest of the mod builds on. */
module Overrides {
  import opened Wrappers
  import SaveableDictionary

  /** Biome defName to (plant defName to commonality). */
  type SpawnRates = map<string, map<string, real>>

  datatype Store = Store(
    spawnRates: SpawnRates,
    densities: map<string, real>,
    caveWeights: map<string, real>,
    reverseSettingsMode: bool,
    verboseLogging: bool)

  /** The override for plant `p` in biome `b`, if there is one. */
  function Lookup(sr: SpawnRates, b: string, p: string): Option<real> {
    if b in sr && p in sr[b] then Some(sr[b][p]) else None
  }

  /** No biome keeps an empty inner map. */
  predicate NoEmptyOverrides(sr: SpawnRates) {
    forall b | b in sr :: |sr[b]| > 0
  }

  /** Two stores without empty inner maps that agree on every lookup are equal. */
  lemma LookupsDetermineOverrides(x: SpawnRates, y: SpawnRates)
    requires NoEmptyOverrides(x) && NoEmptyOverrides(y)
    requires forall b, p :: Lookup(x, b, p) == Lookup(y, b, p)
    ensures x == y
  {
    forall b | b in x
      ensures b in y && x[b] == y[b]
    {
      var p :| p in x[b];
      assert Lookup(x, b, p).Some?;
      forall q ensures (q in x[b] <==> q in y[b]) && (q in x[b] ==> x[b][q] == y[b][q]) {
        assert Lookup(x, b, q) == Lookup(y, b, q);
      }
    }
    forall b | b in y
      ensures b in x
    {
      var p :| p in y[b];
      assert Lookup(y, b, p).Some?;
    }
  }

  /** `CustomSpawnRates[b].dictionary[p] = v`, creating the inner map first
      when the biome has none. */
  function SetOverride(sr: SpawnRates, b: string, p: string, v: real): (r: SpawnRates)
    ensures Lookup(r, b, p) == Some(v)
    ensures forall c, q | c != b || q != p :: Lookup(r, c, q) == Lookup(sr, c, q)
    ensures r.Keys == sr.Keys + {b}
    ensures NoEmptyOverrides(sr) ==> NoEmptyOverrides(r)
  {
    SetKeepsOtherLookups(sr, b, p, v);
    sr[b := (if b in sr then sr[b] else map[])[p := v]]
  }

  lemma SetKeepsOtherLookups(sr: SpawnRates, b: string, p: string, v: real)
    ensures var r := sr[b := (if b in sr then sr[b] else map[])[p := v]];
      forall c, q | c != b || q != p :: Lookup(r, c, q) == Lookup(sr, c, q)
  {
    var inner := if b in sr then sr[b] else map[];
    var r := sr[b := inner[p := v]];
    forall c, q | c != b || q != p
      ensures Lookup(r, c, q) == Lookup(sr, c, q)
    {
      if c == b {
        assert r[b] == inner[p := v];
      } else {
        assert c in r <==> c in sr;
      }
    }
  }

  /** Removes the override for `p` in `b`; when that leaves the biome's map
      empty the biome key goes too. A biome without `p` is left as it is. */
  function ClearOverride(sr: SpawnRates, b: string, p: string): (r: SpawnRates)
    ensures Lookup(r, b, p) == None
    ensures forall c, q | c != b || q != p :: Lookup(r, c, q) == Lookup(sr, c, q)
    ensures r.Keys <= sr.Keys
    ensures Lookup(sr, b, p).None? ==> r == sr
    ensures NoEmptyOverrides(sr) ==> NoEmptyOverrides(r)
  {
    if b in sr && p in sr[b] then
      var inner := sr[b] - {p};
      if |inner| == 0 then sr - {b} else sr[b := inner]
    else sr
  }

  /** `ResetOnePlant`'s edit: `p` leaves every inner map, then every empty
      inner map is dropped, also those that were empty before. */
  function WithoutPlant(sr: SpawnRates, p: string): (r: SpawnRates)
    ensures forall b, q :: Lookup(r, b, q) == (if q == p then None else Lookup(sr, b, q))
    ensures NoEmptyOverrides(r)
    ensures r.Keys <= sr.Keys
  {
    map b | b in sr && |sr[b] - {p}| > 0 :: sr[b] - {p}
  }

  /** Overrides only ever hold what the settings codec can save: a biome's
      inner map that is not empty comes back unchanged from its text form.
      An empty inner map would not (its text is "", which does not decode),
      which is what keeping `NoEmptyOverrides` avoids. */
  lemma PersistedOverridesRoundTrip(sr: SpawnRates, b: string, order: seq<string>,
                                    fmt: real -> string, parse: string -> Option<real>)
    requires NoEmptyOverrides(sr) && b in sr
    requires SaveableDictionary.Enumerates(order, sr[b])
    requires forall p | p in sr[b] :: SaveableDictionary.ValidKey(p)
    requires forall p | p in sr[b] :: '#' !in fmt(sr[b][p]) && ':' !in fmt(sr[b][p]) && parse(fmt(sr[b][p])) == Some(sr[b][p])
    ensures SaveableDictionary.Decode(SaveableDictionary.Encode(sr[b], order, fmt), parse) == Ok(sr[b])
  {
    SaveableDictionary.RoundTrip(sr[b], order, fmt, parse);
  }
}
