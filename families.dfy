/**
 * Starter families (docs/js/ui/sections.js, `getStarterFamilies` and
 * `isFamilyCaught`): the species of one section grouped by the key of
 * their evolution family, in the order the keys first appear.
 *
 * The source keys a family by `family.join('|')`; for arrays of integer dex
 * numbers that string determines the array and is determined by it, so the
 * model uses the array itself as the key.
 */
module Families {
  import opened Wrappers
  import opened Seqs
  import opened Caught
  import opened Catalog

  type FamilyKey = seq<int>

  /** A species `getStarterFamilies` keeps: it lists the section for the game and has an array `family`. */
  predicate Kept(p: Species, gameId: GameId, sectionId: SectionId) {
    ListsSection(p, gameId, sectionId) && p.family.Some?
  }

  /** The family keys of the kept species, in roster order, repeats included. */
  function KeptKeys(pokemon: seq<Species>, gameId: GameId, sectionId: SectionId): seq<FamilyKey> {
    if pokemon == [] then []
    else
      var p := pokemon[|pokemon| - 1];
      KeptKeys(pokemon[..|pokemon| - 1], gameId, sectionId) + (if Kept(p, gameId, sectionId) then [p.family.value] else [])
  }

  /** A key occurs among the kept keys exactly when some kept species of the roster carries it. */
  lemma {:induction false} KeptKeysMembers(pokemon: seq<Species>, gameId: GameId, sectionId: SectionId, key: FamilyKey)
    ensures key in KeptKeys(pokemon, gameId, sectionId) <==>
      exists i :: 0 <= i < |pokemon| && Kept(pokemon[i], gameId, sectionId) && pokemon[i].family.value == key
  {
    if pokemon != [] {
      var init := pokemon[..|pokemon| - 1];
      assert pokemon == init + [pokemon[|pokemon| - 1]];
      KeptKeysMembers(init, gameId, sectionId, key);
      if exists i :: 0 <= i < |pokemon| && Kept(pokemon[i], gameId, sectionId) && pokemon[i].family.value == key {
        var i :| 0 <= i < |pokemon| && Kept(pokemon[i], gameId, sectionId) && pokemon[i].family.value == key;
        if i < |init| {
          assert init[i] == pokemon[i];
        }
      }
    }
  }

  /** The members of the family with key `key`: the kept species carrying that key, in roster order. */
  function FamilyOf(pokemon: seq<Species>, gameId: GameId, sectionId: SectionId, key: FamilyKey): seq<Species> {
    if pokemon == [] then []
    else
      var p := pokemon[|pokemon| - 1];
      FamilyOf(pokemon[..|pokemon| - 1], gameId, sectionId, key) +
        (if Kept(p, gameId, sectionId) && p.family.value == key then [p] else [])
  }

  /** A species is in the family of `key` exactly when it is a kept species of the roster carrying `key`. */
  lemma {:induction false} FamilyOfMembers(pokemon: seq<Species>, gameId: GameId, sectionId: SectionId, key: FamilyKey, p: Species)
    ensures p in FamilyOf(pokemon, gameId, sectionId, key) <==>
      p in pokemon && Kept(p, gameId, sectionId) && p.family.value == key
  {
    if pokemon != [] {
      var init := pokemon[..|pokemon| - 1];
      assert pokemon == init + [pokemon[|pokemon| - 1]];
      FamilyOfMembers(init, gameId, sectionId, key, p);
    }
  }

  /** The keys of the families, each once, in first-appearance order. */
  function FamilyKeys(pokemon: seq<Species>, gameId: GameId, sectionId: SectionId): seq<FamilyKey> {
    Distinct(KeptKeys(pokemon, gameId, sectionId))
  }

  /** What `getStarterFamilies` returns: one member list per key, in key order. */
  function StarterFamilies(pokemon: seq<Species>, gameId: GameId, sectionId: SectionId): (r: seq<seq<Species>>)
    ensures |r| == |FamilyKeys(pokemon, gameId, sectionId)|
  {
    var keys := FamilyKeys(pokemon, gameId, sectionId);
    seq(|keys|, i requires 0 <= i < |keys| => FamilyOf(pokemon, gameId, sectionId, keys[i]))
  }

  /**
   * `getStarterFamilies(pokemon, gameId, sectionId)`: fills an insertion-ordered
   * map from key to member list in one pass and returns its values.
   */
  method GetStarterFamilies(pokemon: seq<Species>, gameId: GameId, sectionId: SectionId)
    returns (families: seq<seq<Species>>)
    ensures families == StarterFamilies(pokemon, gameId, sectionId)
  {
    var keys: seq<FamilyKey> := [];
    var groups: map<FamilyKey, seq<Species>> := map[];
    for i := 0 to |pokemon|
      invariant GroupsOf(pokemon[..i], gameId, sectionId, keys, groups)
      invariant forall k :: k in keys ==> k in groups
    {
      var p := pokemon[i];
      ghost var keys0, groups0 := keys, groups;
      if gameId in p.games && sectionId in p.games[gameId] && p.family.Some? {
        var key := p.family.value;
        if key !in groups {
          groups := groups[key := []];
          keys := keys + [key];
        }
        groups := groups[key := groups[key] + [p]];
      }
      GroupsStep(pokemon, i, gameId, sectionId, keys0, groups0, keys, groups);
    }
    assert pokemon[..|pokemon|] == pokemon;
    families := seq(|keys|, j requires 0 <= j < |keys| && keys[j] in groups => groups[keys[j]]);
    GroupsValues(pokemon, gameId, sectionId, keys, groups, families);
  }

  /** The values of the finished map, in key order, are the families. */
  lemma GroupsValues(pokemon: seq<Species>, gameId: GameId, sectionId: SectionId,
                     keys: seq<FamilyKey>, groups: map<FamilyKey, seq<Species>>, families: seq<seq<Species>>)
    requires GroupsOf(pokemon, gameId, sectionId, keys, groups)
    requires |families| == |keys| && forall j :: 0 <= j < |keys| ==> keys[j] in groups && families[j] == groups[keys[j]]
    ensures families == StarterFamilies(pokemon, gameId, sectionId)
  {
  }

  /** The state of the `families` map after a prefix of the roster: its keys in order and its lists. */
  ghost predicate GroupsOf(done: seq<Species>, gameId: GameId, sectionId: SectionId,
                           keys: seq<FamilyKey>, groups: map<FamilyKey, seq<Species>>) {
    && keys == FamilyKeys(done, gameId, sectionId)
    && (forall k :: k in groups <==> k in keys)
    && (forall k :: k in groups ==> groups[k] == FamilyOf(done, gameId, sectionId, k))
  }

  /** One iteration of the loop of `GetStarterFamilies` keeps `GroupsOf`. */
  lemma GroupsStep(pokemon: seq<Species>, i: nat, gameId: GameId, sectionId: SectionId,
                   keys: seq<FamilyKey>, groups: map<FamilyKey, seq<Species>>,
                   keys': seq<FamilyKey>, groups': map<FamilyKey, seq<Species>>)
    requires i < |pokemon| && GroupsOf(pokemon[..i], gameId, sectionId, keys, groups)
    requires !Kept(pokemon[i], gameId, sectionId) ==> keys' == keys && groups' == groups
    requires Kept(pokemon[i], gameId, sectionId) ==>
      var key := pokemon[i].family.value;
      && keys' == (if key in groups then keys else keys + [key])
      && key in groups'
      && groups'[key] == (if key in groups then groups[key] else []) + [pokemon[i]]
      && (forall k :: k in groups' <==> k in groups || k == key)
      && (forall k :: k in groups && k != key ==> groups'[k] == groups[k])
    ensures GroupsOf(pokemon[..i + 1], gameId, sectionId, keys', groups')
  {
    var p := pokemon[i];
    assert pokemon[..i + 1] == pokemon[..i] + [p];
    if Kept(p, gameId, sectionId) {
      var key := p.family.value;
      assert groups' == groups[key := (if key in groups then groups[key] else []) + [p]];
      GroupsStepKept(pokemon[..i], p, gameId, sectionId, keys, groups, keys', groups');
    } else {
      GroupsStepSkipped(pokemon[..i], p, gameId, sectionId, keys, groups);
    }
  }

  lemma GroupsStepKept(done: seq<Species>, p: Species, gameId: GameId, sectionId: SectionId,
                       keys: seq<FamilyKey>, groups: map<FamilyKey, seq<Species>>,
                       keys': seq<FamilyKey>, groups': map<FamilyKey, seq<Species>>)
    requires GroupsOf(done, gameId, sectionId, keys, groups) && Kept(p, gameId, sectionId)
    requires keys' == if p.family.value in groups then keys else keys + [p.family.value]
    requires groups' == groups[p.family.value := (if p.family.value in groups then groups[p.family.value] else []) + [p]]
    ensures GroupsOf(done + [p], gameId, sectionId, keys', groups')
  {
    var key := p.family.value;
    var kept := KeptKeys(done, gameId, sectionId);
    DistinctMembership(kept, key);
    assert key in groups <==> key in kept;
    FamilyKeysSnoc(done, p, gameId, sectionId);
    assert keys' == FamilyKeys(done + [p], gameId, sectionId);
    assert forall k :: k in groups' <==> k in keys';
    if key !in groups {
      FamilyOfAbsent(done, gameId, sectionId, key);
    }
    ListsStepKept(done, p, gameId, sectionId, groups, groups');
    assert GroupsOf(done + [p], gameId, sectionId, keys', groups');
  }

  lemma ListsStepKept(done: seq<Species>, p: Species, gameId: GameId, sectionId: SectionId,
                      groups: map<FamilyKey, seq<Species>>, groups': map<FamilyKey, seq<Species>>)
    requires Kept(p, gameId, sectionId)
    requires forall k :: k in groups ==> groups[k] == FamilyOf(done, gameId, sectionId, k)
    requires p.family.value !in groups ==> FamilyOf(done, gameId, sectionId, p.family.value) == []
    requires groups' == groups[p.family.value := (if p.family.value in groups then groups[p.family.value] else []) + [p]]
    ensures forall k :: k in groups' ==> groups'[k] == FamilyOf(done + [p], gameId, sectionId, k)
  {
    forall k | k in groups' ensures groups'[k] == FamilyOf(done + [p], gameId, sectionId, k) {
      FamilyOfSnoc(done, p, gameId, sectionId, k);
    }
  }

  lemma GroupsStepSkipped(done: seq<Species>, p: Species, gameId: GameId, sectionId: SectionId,
                          keys: seq<FamilyKey>, groups: map<FamilyKey, seq<Species>>)
    requires GroupsOf(done, gameId, sectionId, keys, groups) && !Kept(p, gameId, sectionId)
    ensures GroupsOf(done + [p], gameId, sectionId, keys, groups)
  {
    FamilyKeysSnoc(done, p, gameId, sectionId);
    ListsStepSkipped(done, p, gameId, sectionId, groups);
  }

  lemma ListsStepSkipped(done: seq<Species>, p: Species, gameId: GameId, sectionId: SectionId,
                         groups: map<FamilyKey, seq<Species>>)
    requires !Kept(p, gameId, sectionId)
    requires forall k :: k in groups ==> groups[k] == FamilyOf(done, gameId, sectionId, k)
    ensures forall k :: k in groups ==> groups[k] == FamilyOf(done + [p], gameId, sectionId, k)
  {
    forall k | k in groups ensures groups[k] == FamilyOf(done + [p], gameId, sectionId, k) {
      FamilyOfSnoc(done, p, gameId, sectionId, k);
    }
  }

  lemma FamilyKeysSnoc(done: seq<Species>, p: Species, gameId: GameId, sectionId: SectionId)
    ensures FamilyKeys(done + [p], gameId, sectionId) ==
      if Kept(p, gameId, sectionId) && p.family.value !in KeptKeys(done, gameId, sectionId)
      then FamilyKeys(done, gameId, sectionId) + [p.family.value]
      else FamilyKeys(done, gameId, sectionId)
  {
    var kept := KeptKeys(done, gameId, sectionId);
    KeptKeysSnoc(done, p, gameId, sectionId);
    if Kept(p, gameId, sectionId) {
      var key := p.family.value;
      assert KeptKeys(done + [p], gameId, sectionId) == kept + [key];
      DistinctSnoc(kept, key);
    } else {
      assert KeptKeys(done + [p], gameId, sectionId) == kept;
    }
  }

  lemma KeptKeysSnoc(pokemon: seq<Species>, p: Species, gameId: GameId, sectionId: SectionId)
    ensures KeptKeys(pokemon + [p], gameId, sectionId) ==
      KeptKeys(pokemon, gameId, sectionId) + (if Kept(p, gameId, sectionId) then [p.family.value] else [])
  {
    assert (pokemon + [p])[..|pokemon|] == pokemon;
  }

  lemma FamilyOfSnoc(pokemon: seq<Species>, p: Species, gameId: GameId, sectionId: SectionId, key: FamilyKey)
    ensures FamilyOf(pokemon + [p], gameId, sectionId, key) ==
      FamilyOf(pokemon, gameId, sectionId, key) + (if Kept(p, gameId, sectionId) && p.family.value == key then [p] else [])
  {
    assert (pokemon + [p])[..|pokemon|] == pokemon;
  }

  lemma FamilyOfAbsent(pokemon: seq<Species>, gameId: GameId, sectionId: SectionId, key: FamilyKey)
    requires key !in KeptKeys(pokemon, gameId, sectionId)
    ensures FamilyOf(pokemon, gameId, sectionId, key) == []
  {
    var r := FamilyOf(pokemon, gameId, sectionId, key);
    if r != [] {
      FamilyOfMembers(pokemon, gameId, sectionId, key, r[0]);
      var n :| 0 <= n < |pokemon| && pokemon[n] == r[0];
      KeptKeysMembers(pokemon, gameId, sectionId, key);
    }
  }

  /** Every family has at least one member. */
  lemma FamiliesNonEmpty(pokemon: seq<Species>, gameId: GameId, sectionId: SectionId, i: nat)
    requires i < |StarterFamilies(pokemon, gameId, sectionId)|
    ensures |StarterFamilies(pokemon, gameId, sectionId)[i]| > 0
  {
    var keys := FamilyKeys(pokemon, gameId, sectionId);
    var kept := KeptKeys(pokemon, gameId, sectionId);
    DistinctMembership(kept, keys[i]);
    KeptKeysMembers(pokemon, gameId, sectionId, keys[i]);
    var n :| 0 <= n < |pokemon| && Kept(pokemon[n], gameId, sectionId) && pokemon[n].family.value == keys[i];
    FamilyOfMembers(pokemon, gameId, sectionId, keys[i], pokemon[n]);
  }

  /**
   * The families partition the kept species: a species is in family i exactly
   * when it is kept and carries the i-th key, so a kept species of the roster
   * is in exactly one family and any other species is in none.
   */
  lemma FamiliesPartition(pokemon: seq<Species>, gameId: GameId, sectionId: SectionId, p: Species)
    ensures forall i :: 0 <= i < |StarterFamilies(pokemon, gameId, sectionId)| ==>
      (p in StarterFamilies(pokemon, gameId, sectionId)[i] <==>
        p in pokemon && Kept(p, gameId, sectionId) && p.family.value == FamilyKeys(pokemon, gameId, sectionId)[i])
    ensures p in pokemon && Kept(p, gameId, sectionId) ==>
      exists i :: 0 <= i < |StarterFamilies(pokemon, gameId, sectionId)| && p in StarterFamilies(pokemon, gameId, sectionId)[i]
    ensures forall i, j :: 0 <= i < j < |StarterFamilies(pokemon, gameId, sectionId)| ==>
      !(p in StarterFamilies(pokemon, gameId, sectionId)[i] && p in StarterFamilies(pokemon, gameId, sectionId)[j])
  {
    var fams := StarterFamilies(pokemon, gameId, sectionId);
    var keys := FamilyKeys(pokemon, gameId, sectionId);
    forall i | 0 <= i < |fams|
      ensures p in fams[i] <==> p in pokemon && Kept(p, gameId, sectionId) && p.family.value == keys[i]
    {
      FamilyOfMembers(pokemon, gameId, sectionId, keys[i], p);
    }
    if p in pokemon && Kept(p, gameId, sectionId) {
      var n :| 0 <= n < |pokemon| && pokemon[n] == p;
      var kept := KeptKeys(pokemon, gameId, sectionId);
      KeptKeysMembers(pokemon, gameId, sectionId, p.family.value);
      DistinctMembership(kept, p.family.value);
      var i :| 0 <= i < |keys| && keys[i] == p.family.value;
      assert p in fams[i];
    }
  }

  /** Families come out in the order their keys first appear among the kept species. */
  lemma FamiliesInFirstAppearanceOrder(pokemon: seq<Species>, gameId: GameId, sectionId: SectionId, i: nat, j: nat)
    requires i < j < |FamilyKeys(pokemon, gameId, sectionId)|
    ensures var keys, kept := FamilyKeys(pokemon, gameId, sectionId), KeptKeys(pokemon, gameId, sectionId);
      keys[i] in kept && keys[j] in kept && FirstIndex(kept, keys[i]) < FirstIndex(kept, keys[j])
  {
    DistinctFirstAppearance(KeptKeys(pokemon, gameId, sectionId), i, j);
  }

  /** `isFamilyCaught(gameId, family)`: some member's dex is flagged caught. */
  predicate IsFamilyCaught(s: Storage, gameId: GameId, family: seq<Species>) {
    exists i :: 0 <= i < |family| && Lookup(s, gameId, family[i].dex)
  }

  /** `families.find(f => isFamilyCaught(gameId, f))`: the first family with a caught member. */
  function FindCaughtFamily(families: seq<seq<Species>>, gameId: GameId, s: Storage): (r: Option<seq<Species>>)
    ensures r.None? <==> forall i :: 0 <= i < |families| ==> !IsFamilyCaught(s, gameId, families[i])
    ensures r.Some? ==>
      exists i :: 0 <= i < |families| && families[i] == r.value && IsFamilyCaught(s, gameId, families[i]) &&
        forall j :: 0 <= j < i ==> !IsFamilyCaught(s, gameId, families[j])
  {
    if families == [] then None
    else if IsFamilyCaught(s, gameId, families[0]) then Some(families[0])
    else
      var r := FindCaughtFamily(families[1..], gameId, s);
      assert forall i :: 0 < i < |families| ==> families[i] == families[1..][i - 1];
      r
  }
}
