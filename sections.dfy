/**
 * What the section list shows (docs/js/ui/sections.js): which species a
 * section lists, the rows and blocks `renderSections` builds from them, and
 * the count the collapse handler compares with a block's required count.
 */
module Sections {
  import opened Wrappers
  import opened Seqs
  import opened Text
  import opened Caught
  import opened Catalog
  import opened Families
  import opened Progress
  import opened Dex

  /** The one section id with the exclusivity rule. */
  const STARTER: SectionId := "STARTER"

  /**
   * The species listed under a section when it is rendered with storage `s`:
   * the section's members, except that in STARTER the first family with a
   * caught member replaces them.
   */
  function DisplayedSpecies(pokemon: seq<Species>, gameId: GameId, sectionId: SectionId, s: Storage): seq<Species> {
    var members := SectionMembers(pokemon, gameId, sectionId);
    if sectionId == STARTER then FindCaughtFamily(StarterFamilies(pokemon, gameId, sectionId), gameId, s).GetOr(members)
    else members
  }

  /** Outside STARTER, and in STARTER while no family is claimed, every member is shown. */
  lemma DisplayedAllMembers(pokemon: seq<Species>, gameId: GameId, sectionId: SectionId, s: Storage)
    requires sectionId != STARTER ||
      forall i :: 0 <= i < |StarterFamilies(pokemon, gameId, sectionId)| ==>
        !IsFamilyCaught(s, gameId, StarterFamilies(pokemon, gameId, sectionId)[i])
    ensures DisplayedSpecies(pokemon, gameId, sectionId, s) == SectionMembers(pokemon, gameId, sectionId)
  {
  }

  /**
   * Starter exclusivity: once a family has a caught member, STARTER shows the
   * first such family and nothing else; a species of any other family, or
   * with no family, is not shown.
   */
  lemma {:induction false} StarterShowsClaimedFamily(pokemon: seq<Species>, gameId: GameId, s: Storage, i: nat, p: Species)
    requires i < |StarterFamilies(pokemon, gameId, STARTER)|
    requires IsFamilyCaught(s, gameId, StarterFamilies(pokemon, gameId, STARTER)[i])
    requires forall j :: 0 <= j < i ==> !IsFamilyCaught(s, gameId, StarterFamilies(pokemon, gameId, STARTER)[j])
    ensures DisplayedSpecies(pokemon, gameId, STARTER, s) == StarterFamilies(pokemon, gameId, STARTER)[i]
    ensures p in DisplayedSpecies(pokemon, gameId, STARTER, s) <==>
      p in pokemon && Kept(p, gameId, STARTER) && p.family.value == FamilyKeys(pokemon, gameId, STARTER)[i]
  {
    var fams := StarterFamilies(pokemon, gameId, STARTER);
    var r := FindCaughtFamily(fams, gameId, s);
    var k :| 0 <= k < |fams| && fams[k] == r.value && IsFamilyCaught(s, gameId, fams[k]) &&
      forall j :: 0 <= j < k ==> !IsFamilyCaught(s, gameId, fams[j]);
    FamiliesPartition(pokemon, gameId, STARTER, p);
  }

  /** Whatever a section shows is among the species that list it. */
  lemma DisplayedAreMembers(pokemon: seq<Species>, gameId: GameId, sectionId: SectionId, s: Storage, p: Species)
    requires p in DisplayedSpecies(pokemon, gameId, sectionId, s)
    ensures p in pokemon && ListsSection(p, gameId, sectionId)
  {
    var members := SectionMembers(pokemon, gameId, sectionId);
    if sectionId == STARTER {
      var fams := StarterFamilies(pokemon, gameId, sectionId);
      var r := FindCaughtFamily(fams, gameId, s);
      if r.Some? {
        var k :| 0 <= k < |fams| && fams[k] == r.value;
        FamiliesPartition(pokemon, gameId, sectionId, p);
        assert p in fams[k];
      }
    }
  }

  /**
   * A rendered row: `data-dex` (the padded label), `data-family` (the family
   * joined, '' without one), whether `data-name` is set (never), the English
   * name it shows, and whether it was marked `is-caught`.
   */
  datatype Row = Row(dex: string, family: FamilyKey, dataName: Option<string>, name: string, caughtMark: bool)

  /** A rendered `.section-block` with its data attributes, title and rows. */
  datatype Block = Block(sectionId: SectionId, gameId: GameId, required: int, title: string, rows: seq<Row>)

  /** The row key: the family's dex numbers, the empty key when there is no family. */
  function RowFamilyKey(p: Species): FamilyKey {
    if p.family.Some? then p.family.value else []
  }

  function RenderRow(gameId: GameId, p: Species, s: Storage): Row {
    Row(PadDex(p.dex), RowFamilyKey(p), None, p.name, Lookup(s, gameId, p.dex))
  }

  function RenderRows(gameId: GameId, species: seq<Species>, s: Storage): seq<Row> {
    seq(|species|, i requires 0 <= i < |species| => RenderRow(gameId, species[i], s))
  }

  function RenderBlock(gameId: GameId, section: Section, pokemon: seq<Species>, s: Storage): Block
    requires Gated(section)
  {
    Block(section.id, gameId, section.requiredCount.value, section.title,
      RenderRows(gameId, DisplayedSpecies(pokemon, gameId, section.id, s), s))
  }

  /** The blocks of the gated sections among `sections`, in order; the others render nothing. */
  function RenderBlocks(gameId: GameId, sections: seq<Section>, pokemon: seq<Species>, s: Storage): seq<Block> {
    if sections == [] then []
    else
      var init := RenderBlocks(gameId, sections[..|sections| - 1], pokemon, s);
      var last := sections[|sections| - 1];
      if Gated(last) then init + [RenderBlock(gameId, last, pokemon, s)] else init
  }

  /** A block per gated section, carrying its id and non-zero required count, and no other block. */
  lemma {:induction false} RenderBlocksOfGated(gameId: GameId, sections: seq<Section>, pokemon: seq<Species>, s: Storage)
    ensures var blocks := RenderBlocks(gameId, sections, pokemon, s);
      (forall i :: 0 <= i < |blocks| ==>
        blocks[i].required != 0 && blocks[i].gameId == gameId &&
        exists j :: 0 <= j < |sections| && Gated(sections[j]) && blocks[i].sectionId == sections[j].id &&
          blocks[i].required == sections[j].requiredCount.value) &&
      (forall j :: 0 <= j < |sections| && Gated(sections[j]) ==>
        RenderBlock(gameId, sections[j], pokemon, s) in blocks)
  {
    if sections != [] {
      var init := sections[..|sections| - 1];
      var last := sections[|sections| - 1];
      var blocks := RenderBlocks(gameId, sections, pokemon, s);
      var blocks0 := RenderBlocks(gameId, init, pokemon, s);
      RenderBlocksOfGated(gameId, init, pokemon, s);
      assert forall j :: 0 <= j < |init| ==> sections[j] == init[j];
      forall i | 0 <= i < |blocks|
        ensures exists j ::
          0 <= j < |sections| && Gated(sections[j]) && blocks[i].sectionId == sections[j].id &&
          blocks[i].required == sections[j].requiredCount.value
      {
        if i < |blocks0| {
          assert blocks[i] == blocks0[i];
          var j :| 0 <= j < |init| && Gated(init[j]) && blocks0[i].sectionId == init[j].id &&
            blocks0[i].required == init[j].requiredCount.value;
          assert sections[j] == init[j];
        } else {
          assert blocks[i] == RenderBlock(gameId, last, pokemon, s);
        }
      }
    }
  }

  /** `isCaught(gameId, Number(row.dataset.dex))`; a label that is no number is never caught. */
  predicate RowCaught(s: Storage, gameId: GameId, row: Row) {
    var d := ParseNumber(row.dex);
    d.Some? && Lookup(s, gameId, d.value)
  }

  /** Reading a rendered row's label back finds its species' flag. */
  lemma RenderedRowCaught(gameId: GameId, p: Species, s0: Storage, s: Storage)
    ensures RowCaught(s, gameId, RenderRow(gameId, p, s0)) == Lookup(s, gameId, p.dex)
  {
    PadDexRoundTrip(p.dex);
  }

  /** How many rows read as caught. */
  function CaughtRowCount(s: Storage, gameId: GameId, rows: seq<Row>): (n: nat)
    ensures n <= |rows|
  {
    if rows == [] then 0
    else CaughtRowCount(s, gameId, rows[..|rows| - 1]) + (if RowCaught(s, gameId, rows[|rows| - 1]) then 1 else 0)
  }

  predicate KeyHasCaughtRow(s: Storage, gameId: GameId, rows: seq<Row>, key: FamilyKey) {
    exists i :: 0 <= i < |rows| && rows[i].family == key && RowCaught(s, gameId, rows[i])
  }

  /** How many of `keys` have a caught row. */
  function CaughtKeyCount(s: Storage, gameId: GameId, rows: seq<Row>, keys: seq<FamilyKey>): (n: nat)
    ensures n <= |keys|
  {
    if keys == [] then 0
    else CaughtKeyCount(s, gameId, rows, keys[..|keys| - 1]) + (if KeyHasCaughtRow(s, gameId, rows, keys[|keys| - 1]) then 1 else 0)
  }

  function RowKeys(rows: seq<Row>): (r: seq<FamilyKey>)
    ensures |r| == |rows|
  {
    seq(|rows|, i requires 0 <= i < |rows| => rows[i].family)
  }

  /**
   * The count the collapse handler compares with the required count: in
   * STARTER the distinct row keys with a caught row, elsewhere the caught rows.
   */
  function CollapseCount(block: Block, s: Storage): (n: nat)
    ensures n <= |block.rows|
  {
    if block.sectionId == STARTER then CaughtKeyCount(s, block.gameId, block.rows, Distinct(RowKeys(block.rows)))
    else CaughtRowCount(s, block.gameId, block.rows)
  }

  /** The handler collapses a block when its required count is non-zero and met, unless the user expanded it. */
  predicate ShouldCollapse(block: Block, s: Storage, userExpanded: set<SectionId>) {
    block.required != 0 && CollapseCount(block, s) >= block.required && block.sectionId !in userExpanded
  }

  /** Marking a dex caught never lowers the caught-row count. */
  lemma {:induction false} CaughtRowCountMonotone(s: Storage, gameId: GameId, rows: seq<Row>, dex: int)
    ensures CaughtRowCount(Store(s, gameId, dex, true), gameId, rows) >= CaughtRowCount(s, gameId, rows)
  {
    if rows != [] {
      CaughtRowCountMonotone(s, gameId, rows[..|rows| - 1], dex);
    }
  }

  /** Marking a dex caught never lowers the number of keys with a caught row. */
  lemma {:induction false} CaughtKeyCountMonotone(s: Storage, gameId: GameId, rows: seq<Row>, keys: seq<FamilyKey>, dex: int)
    ensures CaughtKeyCount(Store(s, gameId, dex, true), gameId, rows, keys) >= CaughtKeyCount(s, gameId, rows, keys)
  {
    if keys != [] {
      var s' := Store(s, gameId, dex, true);
      var k := keys[|keys| - 1];
      CaughtKeyCountMonotone(s, gameId, rows, keys[..|keys| - 1], dex);
      if KeyHasCaughtRow(s, gameId, rows, k) {
        var i :| 0 <= i < |rows| && rows[i].family == k && RowCaught(s, gameId, rows[i]);
        assert RowCaught(s', gameId, rows[i]);
      }
    }
  }

  /**
   * Marking a dex caught never lowers a block's collapse count, in STARTER
   * (keys with a caught row) as elsewhere (caught rows).
   */
  lemma CollapseCountMonotone(block: Block, s: Storage, dex: int)
    ensures CollapseCount(block, Store(s, block.gameId, dex, true)) >= CollapseCount(block, s)
  {
    if block.sectionId == STARTER {
      CaughtKeyCountMonotone(s, block.gameId, block.rows, Distinct(RowKeys(block.rows)), dex);
    } else {
      CaughtRowCountMonotone(s, block.gameId, block.rows, dex);
    }
  }

  /** A block the collapse rule hides is still hidden by it after one more catch. */
  lemma ShouldCollapseAfterCatch(block: Block, s: Storage, dex: int, userExpanded: set<SectionId>)
    requires ShouldCollapse(block, s, userExpanded)
    ensures ShouldCollapse(block, Store(s, block.gameId, dex, true), userExpanded)
  {
    CollapseCountMonotone(block, s, dex);
  }

  /** Counting the rendered rows counts the displayed species. */
  lemma {:induction false} CaughtRowsOfRendered(gameId: GameId, species: seq<Species>, s0: Storage, s: Storage)
    ensures CaughtRowCount(s, gameId, RenderRows(gameId, species, s0)) == CountCaught(species, gameId, s)
  {
    var rows := RenderRows(gameId, species, s0);
    if species != [] {
      var init := species[..|species| - 1];
      CaughtRowsOfRendered(gameId, init, s0, s);
      assert rows[..|rows| - 1] == RenderRows(gameId, init, s0);
      RenderedRowCaught(gameId, species[|species| - 1], s0, s);
    }
  }

  /**
   * Outside STARTER a block collapses on exactly the count the current
   * objective uses: the section's members caught now, whatever was caught
   * when the block was rendered.
   */
  lemma NonStarterCollapseCount(gameId: GameId, section: Section, pokemon: seq<Species>, s0: Storage, s: Storage)
    requires Gated(section) && section.id != STARTER
    ensures CollapseCount(RenderBlock(gameId, section, pokemon, s0), s) ==
      CountCaught(SectionMembers(pokemon, gameId, section.id), gameId, s)
  {
    CaughtRowsOfRendered(gameId, SectionMembers(pokemon, gameId, section.id), s0, s);
  }

  /** Over distinct keys of which only `k` can have a caught row, the count is 1 or 0 as `k` has one. */
  lemma {:induction false} CaughtKeyCountSingle(s: Storage, gameId: GameId, rows: seq<Row>, keys: seq<FamilyKey>, k: FamilyKey)
    requires NoDuplicates(keys)
    requires forall j :: 0 <= j < |keys| && keys[j] != k ==> !KeyHasCaughtRow(s, gameId, rows, keys[j])
    ensures CaughtKeyCount(s, gameId, rows, keys) == if k in keys && KeyHasCaughtRow(s, gameId, rows, k) then 1 else 0
  {
    if keys != [] {
      var init := keys[..|keys| - 1];
      CaughtKeyCountSingle(s, gameId, rows, init, k);
      assert keys == init + [keys[|keys| - 1]];
    }
  }

  /** When every row carries key `k`, the STARTER count is 1 if some row is caught and 0 otherwise. */
  lemma StarterCountOneKey(block: Block, s: Storage, k: FamilyKey)
    requires block.sectionId == STARTER && |block.rows| > 0
    requires forall j :: 0 <= j < |block.rows| ==> block.rows[j].family == k
    ensures CollapseCount(block, s) == if CaughtRowCount(s, block.gameId, block.rows) > 0 then 1 else 0
  {
    var keys := RowKeys(block.rows);
    DistinctOfConstant(keys, k);
    CaughtKeyCountSingle(s, block.gameId, block.rows, [k], k);
    CaughtRowsPositive(s, block.gameId, block.rows);
  }

  /** Some row is caught exactly when the caught-row count is positive. */
  lemma {:induction false} CaughtRowsPositive(s: Storage, gameId: GameId, rows: seq<Row>)
    ensures CaughtRowCount(s, gameId, rows) > 0 <==> exists i :: 0 <= i < |rows| && RowCaught(s, gameId, rows[i])
  {
    if rows != [] {
      var init := rows[..|rows| - 1];
      CaughtRowsPositive(s, gameId, init);
      assert forall i :: 0 <= i < |init| ==> rows[i] == init[i];
    }
  }

  /**
   * A STARTER block rendered with a claimed family counts 1 while that family
   * still has a caught member and 0 once none is left, so a required count of
   * 1 is met by the family alone.
   */
  lemma StarterClaimedCollapseCount(gameId: GameId, section: Section, pokemon: seq<Species>, s0: Storage, s: Storage)
    requires Gated(section) && section.id == STARTER
    requires FindCaughtFamily(StarterFamilies(pokemon, gameId, STARTER), gameId, s0).Some?
    ensures var family := FindCaughtFamily(StarterFamilies(pokemon, gameId, STARTER), gameId, s0).value;
      CollapseCount(RenderBlock(gameId, section, pokemon, s0), s) == if IsFamilyCaught(s, gameId, family) then 1 else 0
  {
    var fams := StarterFamilies(pokemon, gameId, STARTER);
    var keys := FamilyKeys(pokemon, gameId, STARTER);
    var family := FindCaughtFamily(fams, gameId, s0).value;
    var i :| 0 <= i < |fams| && fams[i] == family;
    FamiliesNonEmpty(pokemon, gameId, STARTER, i);
    FamilyRowsShareKey(gameId, pokemon, i, s0);
    StarterCountOneKey(RenderBlock(gameId, section, pokemon, s0), s, keys[i]);
    CaughtRowsOfRendered(gameId, family, s0, s);
  }

  /** The rows of the i-th starter family all carry its key. */
  lemma FamilyRowsShareKey(gameId: GameId, pokemon: seq<Species>, i: nat, s0: Storage)
    requires i < |StarterFamilies(pokemon, gameId, STARTER)|
    ensures var rows := RenderRows(gameId, StarterFamilies(pokemon, gameId, STARTER)[i], s0);
      forall j :: 0 <= j < |rows| ==> rows[j].family == FamilyKeys(pokemon, gameId, STARTER)[i]
  {
    var family := StarterFamilies(pokemon, gameId, STARTER)[i];
    forall j | 0 <= j < |family|
      ensures RowFamilyKey(family[j]) == FamilyKeys(pokemon, gameId, STARTER)[i]
    {
      FamiliesPartition(pokemon, gameId, STARTER, family[j]);
    }
  }

  /**
   * While no family is claimed, a caught member of STARTER has no family:
   * one with a family would claim it.
   */
  lemma UnclaimedCaughtHasNoFamily(gameId: GameId, pokemon: seq<Species>, s: Storage, p: Species)
    requires FindCaughtFamily(StarterFamilies(pokemon, gameId, STARTER), gameId, s).None?
    requires p in pokemon && ListsSection(p, gameId, STARTER) && Lookup(s, gameId, p.dex)
    ensures p.family.None?
  {
    var fams := StarterFamilies(pokemon, gameId, STARTER);
    if p.family.Some? {
      FamiliesPartition(pokemon, gameId, STARTER, p);
    }
  }

  /**
   * A STARTER block rendered while no family is claimed lists every member,
   * and at that storage its count is 1 if some member is caught (only a
   * species without a family can be) and 0 otherwise.
   */
  lemma StarterUnclaimedCollapseCount(gameId: GameId, section: Section, pokemon: seq<Species>, s: Storage)
    requires Gated(section) && section.id == STARTER
    requires FindCaughtFamily(StarterFamilies(pokemon, gameId, STARTER), gameId, s).None?
    ensures CollapseCount(RenderBlock(gameId, section, pokemon, s), s) ==
      if CountCaught(SectionMembers(pokemon, gameId, STARTER), gameId, s) > 0 then 1 else 0
  {
    var members := SectionMembers(pokemon, gameId, STARTER);
    var rows := RenderRows(gameId, members, s);
    forall j | 0 <= j < |rows| && RowCaught(s, gameId, rows[j])
      ensures rows[j].family == []
    {
      RenderedRowCaught(gameId, members[j], s, s);
      UnclaimedCaughtHasNoFamily(gameId, pokemon, s, members[j]);
    }
    UnclaimedCount(s, gameId, rows);
    CaughtRowsOfRendered(gameId, members, s, s);
  }

  /** Rows whose caught ones all carry the empty key count 1 in STARTER if any is caught. */
  lemma UnclaimedCount(s: Storage, gameId: GameId, rows: seq<Row>)
    requires forall j :: 0 <= j < |rows| && RowCaught(s, gameId, rows[j]) ==> rows[j].family == []
    ensures CaughtKeyCount(s, gameId, rows, Distinct(RowKeys(rows))) == if CaughtRowCount(s, gameId, rows) > 0 then 1 else 0
  {
    var keys := Distinct(RowKeys(rows));
    CaughtKeyCountSingle(s, gameId, rows, keys, []);
    CaughtRowsPositive(s, gameId, rows);
    if CaughtRowCount(s, gameId, rows) > 0 {
      var j :| 0 <= j < |rows| && RowCaught(s, gameId, rows[j]);
      DistinctMembership(RowKeys(rows), []);
      assert RowKeys(rows)[j] == [];
    }
  }
}
