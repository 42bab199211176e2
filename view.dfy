/**
 * The section list as page state: the blocks `renderSections` builds
 * (docs/js/ui/sections.js), which `.section-rows` containers and rows are
 * hidden, which headers carry the `collapsed` class, and the set of sections
 * the user expanded by hand. The collapse handler, the header click, the ball
 * click and the search filter (docs/js/app.js, `applySearchFilter`) update it.
 */
module View {
  import opened Wrappers
  import opened Text
  import opened Caught
  import opened Catalog
  import opened Families
  import opened Progress
  import opened Sections
  import opened Search

  /** The collapse rule applied to every block: a hidden flag is only ever set, never cleared. */
  function Collapse(hidden: seq<bool>, blocks: seq<Block>, s: Storage, userExpanded: set<SectionId>): (r: seq<bool>)
    requires |hidden| == |blocks|
  {
    seq(|hidden|, i requires 0 <= i < |hidden| => hidden[i] || ShouldCollapse(blocks[i], s, userExpanded))
  }

  /**
   * The rows the fixed search shows for the normalized query `q`: it matches
   * the row's name lower-cased.
   */
  predicate RowShown(q: string, row: Row) {
    MatchesNormalized(q, Lower(row.name), row.dex)
  }

  /** The hidden flag of every row, in row order. */
  function HiddenFlags(q: string, rows: seq<Row>): (r: seq<bool>)
    ensures |r| == |rows|
  {
    if rows == [] then []
    else HiddenFlags(q, rows[..|rows| - 1]) + [!RowShown(q, rows[|rows| - 1])]
  }

  /** Whether some row matches, which keeps the block's rows visible. */
  predicate AnyShown(q: string, rows: seq<Row>) {
    rows != [] && (AnyShown(q, rows[..|rows| - 1]) || RowShown(q, rows[|rows| - 1]))
  }

  /** Row j is hidden exactly when it does not match. */
  lemma {:induction false} HiddenFlagsMeaning(q: string, rows: seq<Row>, j: nat)
    requires j < |rows|
    ensures HiddenFlags(q, rows)[j] == !RowShown(q, rows[j])
  {
    var init := rows[..|rows| - 1];
    if j < |init| {
      HiddenFlagsMeaning(q, init, j);
      assert rows[j] == init[j];
    }
  }

  /** A block keeps its rows visible exactly when one of them matches. */
  lemma {:induction false} AnyShownMeaning(q: string, rows: seq<Row>)
    ensures AnyShown(q, rows) <==> exists j :: 0 <= j < |rows| && RowShown(q, rows[j])
  {
    if rows != [] {
      var init := rows[..|rows| - 1];
      AnyShownMeaning(q, init);
      assert forall j :: 0 <= j < |init| ==> rows[j] == init[j];
    }
  }

  /** Block with row j's caught mark set to `caught`. */
  function MarkBlockRow(block: Block, j: nat, caught: bool): Block
    requires j < |block.rows|
  {
    block.(rows := block.rows[j := block.rows[j].(caughtMark := caught)])
  }

  /** Running the handler again with the same storage changes nothing. */
  lemma CollapseIdempotent(hidden: seq<bool>, blocks: seq<Block>, s: Storage, userExpanded: set<SectionId>)
    requires |hidden| == |blocks|
    ensures Collapse(Collapse(hidden, blocks, s, userExpanded), blocks, s, userExpanded) == Collapse(hidden, blocks, s, userExpanded)
  {
  }

  /**
   * Outside STARTER, catching one more species never takes back a met
   * threshold: a block the handler collapses still qualifies afterwards.
   */
  lemma NonStarterCollapseStaysMet(gameId: GameId, section: Section, pokemon: seq<Species>, s0: Storage, s: Storage,
                                   dex: int, userExpanded: set<SectionId>)
    requires Gated(section) && section.id != STARTER
    requires ShouldCollapse(RenderBlock(gameId, section, pokemon, s0), s, userExpanded)
    ensures ShouldCollapse(RenderBlock(gameId, section, pokemon, s0), Store(s, gameId, dex, true), userExpanded)
  {
    var members := SectionMembers(pokemon, gameId, section.id);
    NonStarterCollapseCount(gameId, section, pokemon, s0, s);
    NonStarterCollapseCount(gameId, section, pokemon, s0, Store(s, gameId, dex, true));
    CountCaughtMarkCaught(members, gameId, s, dex);
  }

  /** A query of white space shows every row, and with it every block that has a row. */
  lemma BlankQueryShowsRows(query: string, rows: seq<Row>)
    requires forall i :: 0 <= i < |query| ==> IsSpace(query[i])
    ensures forall j :: 0 <= j < |rows| ==> RowShown(NormalizedQuery(query), rows[j])
    ensures AnyShown(NormalizedQuery(query), rows) <==> |rows| > 0
  {
    forall j | 0 <= j < |rows|
      ensures RowShown(NormalizedQuery(query), rows[j])
    {
      BlankQueryMatchesEveryRow(query, Lower(rows[j].name), rows[j].dex);
    }
    AnyShownMeaning(NormalizedQuery(query), rows);
    if |rows| > 0 {
      assert RowShown(NormalizedQuery(query), rows[0]);
    }
  }

  /**
   * The filter as written reads `data-name`, which no rendered row has: any
   * query that is not blank throws on the first row it reaches.
   */
  lemma RenderedRowsBreakSearch(query: string, gameId: GameId, p: Species, s: Storage)
    requires exists i :: 0 <= i < |query| && !IsSpace(query[i])
    ensures MatchAsWritten(query, RenderRow(gameId, p, s).dataName, RenderRow(gameId, p, s).dex).None?
  {
    NonBlankQueryIsSelective(query);
  }

  class SectionsView {
    var blocks: seq<Block>
    /** `.section-rows` of block i has display 'none'. */
    var hidden: seq<bool>
    /** The header of block i has the `collapsed` class. */
    var headerCollapsed: seq<bool>
    /** Row j of block i has display 'none'. */
    var rowHidden: seq<seq<bool>>
    /** `userExpandedSections`. */
    var userExpanded: set<SectionId>

    ghost predicate Valid()
      reads this
    {
      |hidden| == |blocks| && |headerCollapsed| == |blocks| && |rowHidden| == |blocks| &&
      forall i :: 0 <= i < |blocks| ==> |rowHidden[i]| == |blocks[i].rows|
    }

    /** An empty section list, as the page starts. */
    constructor ()
      ensures Valid() && blocks == [] && userExpanded == {}
    {
      blocks := [];
      hidden := [];
      headerCollapsed := [];
      rowHidden := [];
      userExpanded := {};
    }

    /**
     * `renderSections`: replaces the list with a block per gated section,
     * every container, header and row shown; the set of expanded sections is
     * module state and survives.
     */
    method Render(game: Game, pokemon: seq<Species>, s: Storage)
      modifies this
      ensures Valid()
      ensures blocks == RenderBlocks(game.id, game.sections, pokemon, s)
      ensures forall i :: 0 <= i < |blocks| ==>
        !hidden[i] && !headerCollapsed[i] && forall j :: 0 <= j < |rowHidden[i]| ==> !rowHidden[i][j]
      ensures userExpanded == old(userExpanded)
    {
      var bs: seq<Block> := [];
      for k := 0 to |game.sections|
        invariant bs == RenderBlocks(game.id, game.sections[..k], pokemon, s)
        invariant userExpanded == old(userExpanded)
      {
        var section := game.sections[k];
        assert game.sections[..k + 1][..k] == game.sections[..k];
        if Gated(section) {
          var rows := RenderSectionRows(game.id, section.id, pokemon, s);
          bs := bs + [Block(section.id, game.id, section.requiredCount.value, section.title, rows)];
        }
      }
      assert game.sections[..|game.sections|] == game.sections;
      blocks := bs;
      hidden := seq(|bs|, _ => false);
      headerCollapsed := seq(|bs|, _ => false);
      rowHidden := seq(|bs|, i requires 0 <= i < |bs| => seq(|bs[i].rows|, _ => false));
    }

    /**
     * The `caught-changed` handler: every block whose required count is
     * non-zero and met, and which the user did not expand, gets its rows
     * hidden and its header marked; nothing is ever shown again.
     */
    method OnCaughtChanged(s: Storage)
      requires Valid()
      modifies this
      ensures Valid()
      ensures blocks == old(blocks) && rowHidden == old(rowHidden) && userExpanded == old(userExpanded)
      ensures hidden == Collapse(old(hidden), blocks, s, userExpanded)
      ensures headerCollapsed == Collapse(old(headerCollapsed), blocks, s, userExpanded)
    {
      hidden := CollapseBlocks(hidden, blocks, s, userExpanded);
      headerCollapsed := CollapseBlocks(headerCollapsed, blocks, s, userExpanded);
    }

    /**
     * A click on block i's header: shows hidden rows (and remembers the
     * section as expanded) or hides shown ones (and forgets it).
     */
    method OnHeaderClick(i: nat)
      requires Valid() && i < |blocks|
      modifies this
      ensures Valid()
      ensures blocks == old(blocks) && rowHidden == old(rowHidden)
      ensures hidden == old(hidden)[i := !old(hidden)[i]]
      ensures headerCollapsed == old(headerCollapsed)[i := !old(hidden)[i]]
      ensures userExpanded ==
        if old(hidden)[i] then old(userExpanded) + {blocks[i].sectionId} else old(userExpanded) - {blocks[i].sectionId}
    {
      var collapsed := hidden[i];
      hidden := hidden[i := !collapsed];
      headerCollapsed := headerCollapsed[i := !collapsed];
      if collapsed {
        userExpanded := userExpanded + {blocks[i].sectionId};
      } else {
        userExpanded := userExpanded - {blocks[i].sectionId};
      }
    }

    /** The ball click marks row j of block i with the new state; nothing else in the list changes. */
    method MarkRow(i: nat, j: nat, caught: bool)
      requires Valid() && i < |blocks| && j < |blocks[i].rows|
      modifies this
      ensures Valid()
      ensures blocks == old(blocks)[i := MarkBlockRow(old(blocks)[i], j, caught)]
      ensures hidden == old(hidden) && headerCollapsed == old(headerCollapsed)
      ensures rowHidden == old(rowHidden) && userExpanded == old(userExpanded)
    {
      blocks := blocks[i := MarkBlockRow(blocks[i], j, caught)];
    }

    /**
     * `applySearchFilter` as evidently intended, matching each row's name:
     * a row is hidden when the query does not match it, a block's rows when
     * none of them matches. Collapsed blocks with a match are shown again.
     */
    method ApplySearchFilter(query: string)
      requires Valid()
      modifies this
      ensures Valid()
      ensures blocks == old(blocks) && headerCollapsed == old(headerCollapsed) && userExpanded == old(userExpanded)
      ensures var q := NormalizedQuery(query);
        forall i :: 0 <= i < |blocks| ==> rowHidden[i] == HiddenFlags(q, blocks[i].rows)
      ensures var q := NormalizedQuery(query);
        forall i :: 0 <= i < |blocks| ==> hidden[i] == !AnyShown(q, blocks[i].rows)
    {
      var q := NormalizedQuery(query);
      hidden, rowHidden := FilterBlocks(q, blocks);
    }
  }

  /**
   * The loop of the `caught-changed` handler over the blocks: sets the flag
   * of every block the rule collapses and keeps the others.
   */
  method CollapseBlocks(flags: seq<bool>, blocks: seq<Block>, s: Storage, userExpanded: set<SectionId>)
    returns (r: seq<bool>)
    requires |flags| == |blocks|
    ensures r == Collapse(flags, blocks, s, userExpanded)
  {
    r := flags;
    for i := 0 to |blocks|
      invariant |r| == |blocks|
      invariant forall k :: 0 <= k < i ==> r[k] == (flags[k] || ShouldCollapse(blocks[k], s, userExpanded))
      invariant forall k :: i <= k < |blocks| ==> r[k] == flags[k]
    {
      var block := blocks[i];
      if block.required != 0 {
        var caughtCount := CollapseCount(block, s);
        if caughtCount >= block.required && block.sectionId !in userExpanded {
          r := r[i := true];
        }
      }
    }
  }

  /**
   * The loop of `applySearchFilter` over the blocks, for the normalized
   * query: the hidden flag of every block and of every row.
   */
  method FilterBlocks(q: string, blocks: seq<Block>) returns (hidden: seq<bool>, rowHidden: seq<seq<bool>>)
    ensures |hidden| == |blocks| && |rowHidden| == |blocks|
    ensures forall i :: 0 <= i < |blocks| ==> |rowHidden[i]| == |blocks[i].rows|
    ensures forall i :: 0 <= i < |blocks| ==> rowHidden[i] == HiddenFlags(q, blocks[i].rows)
    ensures forall i :: 0 <= i < |blocks| ==> hidden[i] == !AnyShown(q, blocks[i].rows)
  {
    hidden, rowHidden := [], [];
    for i := 0 to |blocks|
      invariant |hidden| == i && |rowHidden| == i
      invariant forall k :: 0 <= k < i ==> |rowHidden[k]| == |blocks[k].rows|
      invariant forall k :: 0 <= k < i ==> rowHidden[k] == HiddenFlags(q, blocks[k].rows)
      invariant forall k :: 0 <= k < i ==> hidden[k] == !AnyShown(q, blocks[k].rows)
    {
      var rowFlags, anyVisible := FilterRows(q, blocks[i].rows);
      rowHidden := rowHidden + [rowFlags];
      hidden := hidden + [!anyVisible];
    }
  }

  /**
   * The inner loop of `applySearchFilter` over one block's rows, for the
   * normalized query: which rows to hide, and whether any row stays visible.
   */
  method FilterRows(q: string, rows: seq<Row>) returns (rowFlags: seq<bool>, anyVisible: bool)
    ensures rowFlags == HiddenFlags(q, rows)
    ensures anyVisible == AnyShown(q, rows)
  {
    anyVisible := false;
    rowFlags := [];
    for j := 0 to |rows|
      invariant rowFlags == HiddenFlags(q, rows[..j])
      invariant anyVisible == AnyShown(q, rows[..j])
    {
      assert rows[..j + 1][..j] == rows[..j];
      var matched := RowShown(q, rows[j]);
      rowFlags := rowFlags + [!matched];
      if matched {
        anyVisible := true;
      }
    }
    assert rows[..|rows|] == rows;
  }

  /**
   * `matches.forEach` in `renderSections`: the rows of one section, each with
   * its padded dex label, family key and caught mark; STARTER keeps only the
   * first family with a caught member once there is one.
   */
  method RenderSectionRows(gameId: GameId, sectionId: SectionId, pokemon: seq<Species>, s: Storage)
    returns (rows: seq<Row>)
    ensures rows == RenderRows(gameId, DisplayedSpecies(pokemon, gameId, sectionId, s), s)
  {
    var matches := SectionMatches(gameId, sectionId, pokemon, s);
    rows := [];
    for j := 0 to |matches|
      invariant |rows| == j
      invariant forall m :: 0 <= m < j ==> rows[m] == RenderRow(gameId, matches[m], s)
    {
      rows := rows + [RenderRow(gameId, matches[j], s)];
    }
  }

  /** `matches` in `renderSections`, after the STARTER exclusivity step. */
  method SectionMatches(gameId: GameId, sectionId: SectionId, pokemon: seq<Species>, s: Storage)
    returns (matches: seq<Species>)
    ensures matches == DisplayedSpecies(pokemon, gameId, sectionId, s)
  {
    matches := SectionMembers(pokemon, gameId, sectionId);
    if sectionId == STARTER {
      var families := GetStarterFamilies(pokemon, gameId, sectionId);
      var chosen := FindCaughtFamily(families, gameId, s);
      if chosen.Some? {
        matches := chosen.value;
      }
    }
  }

  /**
   * A click on the ball of row j of block i, whose species has dex number
   * `dex` (the row's label reads back as it): flips the species' flag in
   * storage, marks the row with the new state and runs the collapse handler
   * on the new storage.
   */
  method ClickBall(store: CaughtStore, view: SectionsView, i: nat, j: nat, dex: nat) returns (newState: bool)
    requires view.Valid() && i < |view.blocks| && j < |view.blocks[i].rows|
    requires ParseNumber(view.blocks[i].rows[j].dex) == Some(dex)
    modifies store, view
    ensures newState == !Lookup(old(store.storage), old(view.blocks)[i].gameId, dex)
    ensures store.storage == Store(old(store.storage), old(view.blocks)[i].gameId, dex, newState)
    ensures view.Valid()
    ensures view.blocks == old(view.blocks)[i := MarkBlockRow(old(view.blocks)[i], j, newState)]
    ensures view.hidden == Collapse(old(view.hidden), view.blocks, store.storage, view.userExpanded)
    ensures view.headerCollapsed == Collapse(old(view.headerCollapsed), view.blocks, store.storage, view.userExpanded)
    ensures RowCaught(store.storage, view.blocks[i].gameId, view.blocks[i].rows[j]) == newState
    ensures view.userExpanded == old(view.userExpanded) && view.rowHidden == old(view.rowHidden)
  {
    var gameId := view.blocks[i].gameId;
    newState := store.ToggleCaught(gameId, dex);
    view.MarkRow(i, j, newState);
    view.OnCaughtChanged(store.storage);
  }
}
