/**
 * The current objective (docs/js/app.js, `getCurrentObjective`): the title of
 * the first gated section whose required count is not met yet, or the
 * challenge-complete message when there is none.
 */
module Objective {
  import opened Caught
  import opened Catalog
  import opened Progress
  import opened Sections

  /** What the objective label shows; `ChallengeComplete` stands for the translated message. */
  datatype Objective = Current(title: string) | ChallengeComplete

  /** How many species listing the section are caught. */
  function SectionCaughtCount(pokemon: seq<Species>, gameId: GameId, sectionId: SectionId, s: Storage): nat {
    CountCaught(SectionMembers(pokemon, gameId, sectionId), gameId, s)
  }

  /** A gated section whose caught count is still below its required count. */
  predicate Unmet(pokemon: seq<Species>, gameId: GameId, s: Storage, section: Section) {
    Gated(section) && SectionCaughtCount(pokemon, gameId, section.id, s) < section.requiredCount.value
  }

  /** The position of the first unmet section, `|sections|` when every section is met. */
  function FirstUnmet(sections: seq<Section>, pokemon: seq<Species>, gameId: GameId, s: Storage): (k: nat)
    ensures k <= |sections|
    ensures forall j :: 0 <= j < k ==> !Unmet(pokemon, gameId, s, sections[j])
    ensures k < |sections| ==> Unmet(pokemon, gameId, s, sections[k])
  {
    if sections == [] then 0
    else if Unmet(pokemon, gameId, s, sections[0]) then 0
    else
      var k := FirstUnmet(sections[1..], pokemon, gameId, s);
      assert forall j :: 1 <= j < k + 1 ==> sections[j] == sections[1..][j - 1];
      k + 1
  }

  /** The objective the label should show. */
  function CurrentObjective(game: Game, pokemon: seq<Species>, s: Storage): (r: Objective)
    ensures r == ChallengeComplete <==> forall j :: 0 <= j < |game.sections| ==> !Unmet(pokemon, game.id, s, game.sections[j])
    ensures r.Current? ==>
      exists k :: 0 <= k < |game.sections| && Unmet(pokemon, game.id, s, game.sections[k]) &&
        r.title == game.sections[k].title &&
        forall j :: 0 <= j < k ==> !Unmet(pokemon, game.id, s, game.sections[j])
  {
    var k := FirstUnmet(game.sections, pokemon, game.id, s);
    if k == |game.sections| then ChallengeComplete else Current(game.sections[k].title)
  }

  /**
   * `getCurrentObjective`: walks the sections in order, skipping those
   * without a required count, and stops at the first one not met.
   */
  method GetCurrentObjective(game: Game, pokemon: seq<Species>, s: Storage) returns (r: Objective)
    ensures r == CurrentObjective(game, pokemon, s)
  {
    ghost var first := FirstUnmet(game.sections, pokemon, game.id, s);
    for i := 0 to |game.sections|
      invariant i <= first
    {
      var section := game.sections[i];
      if Gated(section) {
        var caughtCount := CountSectionCaught(pokemon, game.id, section.id, s);
        if caughtCount < section.requiredCount.value {
          return Current(section.title);
        }
      }
    }
    return ChallengeComplete;
  }

  /** `matches.filter(p => isCaught(...)).length` for one section, as one pass over the roster. */
  method CountSectionCaught(pokemon: seq<Species>, gameId: GameId, sectionId: SectionId, s: Storage) returns (n: nat)
    ensures n == SectionCaughtCount(pokemon, gameId, sectionId, s)
  {
    n := 0;
    for i := 0 to |pokemon|
      invariant n == SectionCaughtCount(pokemon[..i], gameId, sectionId, s)
    {
      SectionCaughtCountSnoc(pokemon[..i], pokemon[i], gameId, sectionId, s);
      assert pokemon[..i + 1] == pokemon[..i] + [pokemon[i]];
      if ListsSection(pokemon[i], gameId, sectionId) && Lookup(s, gameId, pokemon[i].dex) {
        n := n + 1;
      }
    }
    assert pokemon[..|pokemon|] == pokemon;
  }

  lemma SectionCaughtCountSnoc(pokemon: seq<Species>, p: Species, gameId: GameId, sectionId: SectionId, s: Storage)
    ensures SectionCaughtCount(pokemon + [p], gameId, sectionId, s) ==
      SectionCaughtCount(pokemon, gameId, sectionId, s) + (if ListsSection(p, gameId, sectionId) && Lookup(s, gameId, p.dex) then 1 else 0)
  {
    var members := SectionMembers(pokemon, gameId, sectionId);
    SectionMembersSnoc(pokemon, p, gameId, sectionId);
    if ListsSection(p, gameId, sectionId) {
      CountCaughtSnoc(members, p, gameId, s);
    }
  }

  lemma SectionMembersSnoc(pokemon: seq<Species>, p: Species, gameId: GameId, sectionId: SectionId)
    ensures SectionMembers(pokemon + [p], gameId, sectionId) ==
      if ListsSection(p, gameId, sectionId) then SectionMembers(pokemon, gameId, sectionId) + [p]
      else SectionMembers(pokemon, gameId, sectionId)
  {
    var xs := pokemon + [p];
    assert xs[..|xs| - 1] == pokemon;
  }

  lemma CountCaughtSnoc(members: seq<Species>, p: Species, gameId: GameId, s: Storage)
    ensures CountCaught(members + [p], gameId, s) == CountCaught(members, gameId, s) + (if Lookup(s, gameId, p.dex) then 1 else 0)
  {
    var xs := members + [p];
    assert xs[..|xs| - 1] == members;
  }

  /** Catching a species never makes a met section unmet again. */
  lemma UnmetAfterCatch(pokemon: seq<Species>, gameId: GameId, s: Storage, dex: int, section: Section)
    requires Unmet(pokemon, gameId, Store(s, gameId, dex, true), section)
    ensures Unmet(pokemon, gameId, s, section)
  {
    CountCaughtMarkCaught(SectionMembers(pokemon, gameId, section.id), gameId, s, dex);
  }

  /** Catching a species never moves the objective back to an earlier section. */
  lemma ObjectiveAdvancesOnCatch(game: Game, pokemon: seq<Species>, s: Storage, dex: int)
    ensures FirstUnmet(game.sections, pokemon, game.id, s) <= FirstUnmet(game.sections, pokemon, game.id, Store(s, game.id, dex, true))
  {
    var k := FirstUnmet(game.sections, pokemon, game.id, s);
    var k' := FirstUnmet(game.sections, pokemon, game.id, Store(s, game.id, dex, true));
    if k' < k {
      UnmetAfterCatch(pokemon, game.id, s, dex, game.sections[k']);
    }
  }

  /**
   * Outside STARTER the section list and the objective agree: a block
   * reaches its collapse threshold exactly when its section is met.
   */
  lemma CollapseAgreesWithObjective(gameId: GameId, section: Section, pokemon: seq<Species>, s0: Storage, s: Storage)
    requires Gated(section) && section.id != STARTER
    ensures var block := RenderBlock(gameId, section, pokemon, s0);
      CollapseCount(block, s) >= block.required <==> !Unmet(pokemon, gameId, s, section)
  {
    NonStarterCollapseCount(gameId, section, pokemon, s0, s);
  }

  /**
   * In STARTER they can disagree: the objective counts caught members, the
   * block counts claimed families, and a block rendered with a claimed family
   * never counts more than 1, so a required count above 1 never collapses it.
   */
  lemma StarterClaimedNeverCollapsesAboveOne(gameId: GameId, section: Section, pokemon: seq<Species>, s0: Storage, s: Storage,
                                             userExpanded: set<SectionId>)
    requires Gated(section) && section.id == STARTER && section.requiredCount.value > 1
    requires Families.FindCaughtFamily(Families.StarterFamilies(pokemon, gameId, STARTER), gameId, s0).Some?
    ensures !ShouldCollapse(RenderBlock(gameId, section, pokemon, s0), s, userExpanded)
  {
    StarterClaimedCollapseCount(gameId, section, pokemon, s0, s);
  }
}
