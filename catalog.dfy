/**
 * The static catalog the tracker runs on: species records and the game
 * record with its ordered sections, as the loaded JSON files describe them.
 */
module Catalog {
  import opened Wrappers

  type GameId = string
  type SectionId = string

  /**
   * A species record. `games` maps a game id to the section ids the species
   * belongs to in that game (a missing `games`, game entry or `sections` list
   * is the same as an empty list for every use below). `family` is the
   * `evolution.family` array of dex numbers, None when it is missing.
   * `name` is the English display name.
   */
  datatype Species = Species(
    slug: string,
    dex: nat,
    name: string,
    games: map<GameId, seq<SectionId>>,
    family: Option<seq<int>>)

  /** A section of a game; `requiredCount` is None when the catalog leaves it out. */
  datatype Section = Section(id: SectionId, title: string, requiredCount: Option<int>)

  /** A game: its id, the global target `total` and its sections in order. */
  datatype Game = Game(id: GameId, total: int, sections: seq<Section>)

  /** `section.requiredCount` is truthy: present and not 0. */
  predicate Gated(section: Section) {
    section.requiredCount.Some? && section.requiredCount.value != 0
  }

  /** `p.games?.[gameId]?.sections?.includes(sectionId)`. */
  predicate ListsSection(p: Species, gameId: GameId, sectionId: SectionId) {
    gameId in p.games && sectionId in p.games[gameId]
  }

  /** The roster filtered to the species that list the section, in roster order. */
  function SectionMembers(pokemon: seq<Species>, gameId: GameId, sectionId: SectionId): (r: seq<Species>)
    ensures |r| <= |pokemon|
    ensures forall i :: 0 <= i < |r| ==> r[i] in pokemon && ListsSection(r[i], gameId, sectionId)
    ensures forall i :: 0 <= i < |pokemon| && ListsSection(pokemon[i], gameId, sectionId) ==> pokemon[i] in r
  {
    if pokemon == [] then []
    else
      var init := pokemon[..|pokemon| - 1];
      var p := pokemon[|pokemon| - 1];
      assert pokemon == init + [p];
      SectionMembers(init, gameId, sectionId) + (if ListsSection(p, gameId, sectionId) then [p] else [])
  }
}
