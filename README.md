# Professor Oak Challenge Pokédex — challenge-tracking engine in Dafny

This project models the logic behind the tracker page (`docs/js`) and proves
properties about it. The page tracks a "Professor Oak challenge": a game's
sections are completed in order, and each section asks for a required number
of caught species. It covers these parts:

- **Caught-flag store** (`state/caught.js`): one object of flags per game, keyed by dex number and stored under `oak:<game>:caught`. `Caught.Store` is the storage after one write. `Caught.CaughtStore` is the store as a class with a map field.
- **Global progress** (`state/progress.js`): the caught count over the roster, the game's target and the integer percent.
- **Starter families** (`ui/sections.js`, `getStarterFamilies` and `isFamilyCaught`): a section's species grouped by evolution-family key in first-appearance order. Also the STARTER exclusivity rule: once a family has a caught member, only the first such family is listed.
- **Section list as page state** (`View.SectionsView`): the blocks `renderSections` builds and their hidden/collapsed flags. Also the set of sections the user expanded by hand. Its operations:
  - the `caught-changed` collapse handler, which only ever hides;
  - the header click;
  - the ball click, which flips the flag, marks the row and re-runs the handler;
  - the search filter.
- **Collapse count** (`Sections.CollapseCount`): the number of caught rows. In STARTER it is instead the number of distinct row family keys with a caught row. The dex label is read back with `Number`, and `Dex.PadDexRoundTrip` proves that this recovers the dex.
- **Current objective** (`app.js`, `getCurrentObjective`): the first gated section whose plain caught count is below its required count, or the completion sentinel.
- **Search predicate** (`app.js`, `applySearchFilter`): trim and lower-case the query, then match the name or the `#`-stripped dex prefix. A block's rows are hidden when none of them matches.
- **Species registry** (`data/registry.js`): an insertion-ordered slug map. `getAllPokemon` lists, in first-registration order, the last species registered under each slug.
- **Time of day** (`time.js`): morning, day or night.

Some behaviour that the proofs bring out:

- **A STARTER block rendered while a family is claimed counts at most 1.** Such a block lists only that family, so its collapse count is never above 1. With a required count above 1 it therefore never collapses (`Objective.StarterClaimedNeverCollapsesAboveOne`), even though the objective counts its members without exclusivity. A STARTER block rendered before any family was claimed lists every family, and catches made since then (the page does not re-render on a catch) can bring its count above 1.
- **Outside STARTER the block and the objective agree.** A block reaches its threshold exactly when its section is met (`Objective.CollapseAgreesWithObjective`).
- **An unpadded dex query misses.** The search strips the first `#` and compares with the padded label. So for a dex from 1 to 99 the query `#` plus its plain digits misses its row: `#25` does not find dex 25, whose label is `025` (`Search.UnpaddedDexQueryMisses`).
- **Search reshows collapsed blocks.** A block with a matching row has its rows shown again even if the collapse handler had hidden them. A block with no rows is hidden by every search, a blank one included.
- **The page is not re-rendered on `caught-changed`.** Only progress, the objective and the collapse flags are recomputed. The STARTER block keeps the rows it was rendered with.

The page reads the current game and roster from `window` globals. Here they are explicit parameters. The browser's `localStorage` is the map `Caught.Storage`, from storage key to decoded flag object.

## Model

| member | source | states |
|---|---|---|
| Seqs.Distinct | docs/js/ui/sections.js:56-58 | `[...new Set(xs)]`, also the key order of a `Map`: no repetitions, exactly the elements of xs, no longer than xs; `Seqs.DistinctFirstAppearance` states the order |
| Caught.KeyForGame | docs/js/state/caught.js:1 | definition: the storage key `oak:<game>:caught`; it is injective (`Caught.KeyForGameInjective`) |
| Caught.FlagsOf | docs/js/state/caught.js:3-5 | definition: the stored object of the game, or the empty object when the key is missing |
| Caught.Lookup | docs/js/state/caught.js:7-10 | definition: the flag is present and true; its read-back and default are proved in `Caught.Store` and `Caught.NeverWrittenIsNotCaught` |
| Caught.KeyForGameInjective | docs/js/state/caught.js:1 | different games get different storage keys |
| Caught.KeysOfGamesDistinct | docs/js/state/caught.js:1 | for all pairs of distinct game ids the keys differ, so games never share flags |
| Caught.Store | docs/js/state/caught.js:12-16 | after a write the flag reads back as written; every other dex of the game and every dex of every other game reads as before; no other storage key appears or disappears |
| Caught.StoreIdempotent | docs/js/state/caught.js:13-15 | the same write applied twice leaves the same storage as applying it once |
| Caught.ReplayUntouched | docs/js/state/caught.js:12-16 | a (game, dex) pair that no write in a series touches reads as it did before the series |
| Caught.NeverWrittenIsNotCaught | docs/js/state/caught.js:7-10 | from empty storage, a pair that was never written reads as not caught |
| Caught.CaughtStore.constructor | docs/js/state/caught.js:3-5 | the store starts on the persisted storage |
| Caught.CaughtStore.GetCaught | docs/js/state/caught.js:3-5 | returns the game's stored object, or the empty object when its key is missing; the storage is not changed |
| Caught.CaughtStore.IsCaught | docs/js/state/caught.js:7-10 | true exactly when the flag is present and true; the storage is not changed |
| Caught.CaughtStore.SetCaught | docs/js/state/caught.js:12-16 | the new storage is the old one with the single flag written; an omitted value writes true |
| Caught.CaughtStore.ToggleCaught | docs/js/ui/sections.js:144 | inferred from the call site: the result is the negation of the current flag, and the storage is the old one with that value written |
| Catalog.Gated | docs/js/ui/sections.js:88 | definition: `requiredCount` is present and not 0, the test both `renderSections` and `getCurrentObjective` (docs/js/app.js:218) apply |
| Catalog.ListsSection | docs/js/ui/sections.js:115 | definition: the species' section list for the game contains the section; the same test is at docs/js/app.js:221 |
| Catalog.SectionMembers | docs/js/ui/sections.js:114-116 | the members listing the section are exactly the roster species that list it for the game, and no more than the roster |
| Progress.CountCaught | docs/js/state/progress.js:7-9 | the count is at most the roster length and is 0 exactly when no roster entry is caught |
| Progress.FloorDiv | docs/js/state/progress.js:14 | the result is the floor of the quotient for either sign of the divisor |
| Progress.Percent | docs/js/state/progress.js:14 | 0 when the total is 0; for a positive total, the largest r with r·total ≤ caught·100; for a negative total the result is `Progress.FloorDiv`'s floor of the quotient |
| Progress.GetGlobalProgress | docs/js/state/progress.js:3-16 | caught is the count of caught roster entries with no section filtering; total is the game's total unchanged; percent is `Percent` of the two |
| Progress.PercentOfRedTarget | docs/js/state/progress.js:14 | 10 caught of 124 gives 8 percent |
| Progress.PercentNotClamped | docs/js/state/progress.js:7-14 | the count is not clamped to the total: 3 of 2 gives 150 percent |
| Progress.PercentMonotone | docs/js/state/progress.js:14 | for a non-negative total a larger count never gives a smaller percent |
| Progress.CountCaughtMarkCaught | docs/js/state/progress.js:7-9 | marking a dex caught never lowers the count, and raises it when the dex was uncaught and is on the roster |
| Progress.CountCaughtOtherGame | docs/js/state/progress.js:7-9 | a write to another game leaves the count unchanged |
| Progress.ProgressMonotone | docs/js/state/progress.js:7-14 | marking one more species caught never lowers the caught count or the percent |
| Families.Kept | docs/js/ui/sections.js:18-24 | definition: the species lists the section for the game and has a `family` array; stated by `Families.KeptKeysMembers` and `Families.FamiliesPartition` |
| Families.FamilyOf | docs/js/ui/sections.js:26-28 | definition: the kept species carrying the key, in roster order; stated by `Families.FamilyOfMembers` |
| Families.KeptKeysMembers | docs/js/ui/sections.js:17-24 | a key is among the kept keys exactly when some roster species that lists the section and has a family array carries it |
| Families.FamilyOfMembers | docs/js/ui/sections.js:26-28 | a species is in a key's family exactly when it is kept and carries that key |
| Families.StarterFamilies | docs/js/ui/sections.js:26-31 | there is one family per distinct key |
| Families.GetStarterFamilies | docs/js/ui/sections.js:14-32 | the one-pass map build returns exactly `StarterFamilies`: the member lists in key first-appearance order |
| Families.FamiliesNonEmpty | docs/js/ui/sections.js:26-28 | every family has a member |
| Families.FamiliesPartition | docs/js/ui/sections.js:17-28 | a species is in family i exactly when it is kept and carries key i; every kept species is in some family and in no two |
| Families.FamiliesInFirstAppearanceOrder | docs/js/ui/sections.js:26-31 | families come out in the order in which their keys first appear among the kept species |
| Families.IsFamilyCaught | docs/js/ui/sections.js:34-36 | definition: some member's dex is flagged caught for the game |
| Families.FindCaughtFamily | docs/js/ui/sections.js:121-123 | None exactly when no family has a caught member; otherwise the first family that has one |
| Dex.PadDex | docs/js/ui/sections.js:128 | the label has at least three characters, all digits |
| Dex.PadDexRoundTrip | docs/js/ui/sections.js:128 | `Number` of the padded label gives the dex number back |
| Dex.PadDexInjective | docs/js/ui/sections.js:128 | distinct dex numbers get distinct labels |
| Text.DecimalString | docs/js/ui/sections.js:128 | `String(dex)`: at least one digit, all digits, no leading zero unless it is the single digit 0; `Text.DecimalStringRoundTrip` reads the value back |
| Text.ParseNumber | docs/js/ui/sections.js:63 | definition: `Number` on a digit string gives its value; every other string is treated as NaN (None), which is exact only for the all-digit labels rows carry (JavaScript also parses strings such as " 7", "-3", "1e2" or "0x1A"); `Dex.PadDexRoundTrip` is its round trip |
| Text.DecimalStringRoundTrip | docs/js/ui/sections.js:128 | the digits of `String(n)` read back (as at docs/js/ui/sections.js:63) give n |
| Text.Contains | docs/js/app.js:255 | definition: `includes`, the needle occurs at some position; its role in the match is stated by `Search.UnpaddedDexQueryMisses` |
| Text.StartsWith | docs/js/app.js:256 | definition: `startsWith`, the prefix equals the string's first characters; used by `Search.DexPrefixQueryFindsRow` |
| Text.PadStart | docs/js/ui/sections.js:128 | the result is the string itself, with fill characters in front up to the width |
| Text.Trim | docs/js/app.js:244 | the result is the slice of the query between a prefix and a suffix of white space; it is empty exactly when the query is all white space, and otherwise has no white space at either end |
| Text.Lower | docs/js/app.js:244 | definition: letters A to Z are lower-cased, every other character is kept |
| Text.RemoveFirst | docs/js/app.js:256 | definition: `replace('#', '')`; its meaning is stated by `Text.RemoveFirstSpec` |
| Text.RemoveFirstSpec | docs/js/app.js:256 | `replace('#', '')` removes only the first `#`, and leaves a string without one unchanged |
| Search.NormalizedQuery | docs/js/app.js:244 | definition: the query trimmed, then lower-cased |
| Search.MatchesNormalized | docs/js/app.js:253-256 | definition: the normalized query is empty, or the name contains it, or the label starts with it after its first `#` is removed |
| Search.RowMatches | docs/js/app.js:253-256 | definition: `MatchesNormalized` of the normalized query; its cases are the lemmas below |
| Search.BlankQueryMatchesEveryRow | docs/js/app.js:244-254 | a query that is empty after trimming matches every row |
| Search.NonBlankQueryIsSelective | docs/js/app.js:253-256 | any other query is non-empty after trimming and matches a row with empty name and label only when it is a lone `#` |
| Search.DexPrefixQueryFindsRow | docs/js/app.js:253-256 | `#` followed by any non-empty prefix of a row's padded label matches that row |
| Search.UnpaddedDexQueryMisses | docs/js/app.js:256 | for every dex from 1 to 99, `#` plus its plain digits does not match its padded row unless the name contains that query |
| Search.MatchAsWritten | docs/js/app.js:249-256 | the as-written match throws (None) exactly when the trimmed query is non-empty and the row has no `data-name`; otherwise it is the intended predicate |
| Sections.DisplayedSpecies | docs/js/ui/sections.js:114-125 | definition: the section's members, replaced in STARTER by the first family with a caught member when there is one; stated by the three lemmas below |
| Sections.DisplayedAllMembers | docs/js/ui/sections.js:114-125 | outside STARTER, and in STARTER while no family has a caught member, the section lists every member |
| Sections.StarterShowsClaimedFamily | docs/js/ui/sections.js:114-125 | once a family has a caught member, STARTER lists exactly the first such family; a species is listed exactly when it is kept and carries that family's key |
| Sections.DisplayedAreMembers | docs/js/ui/sections.js:114-125 | whatever a section lists is a roster species that lists the section |
| Sections.RenderRow | docs/js/ui/sections.js:127-134 | definition: the padded dex label, the family key and the caught mark at render time; `Sections.RenderedRowCaught` reads the label back |
| Sections.RenderRows | docs/js/ui/sections.js:127-134 | definition: one `RenderRow` per listed species, in order; stated by `View.RenderSectionRows` and `Sections.CaughtRowsOfRendered` |
| Sections.RenderBlock | docs/js/ui/sections.js:88-96 | definition: a gated section's block with its id, game, required count, title and rendered rows; stated by `Sections.RenderBlocksOfGated` |
| Sections.RenderBlocks | docs/js/ui/sections.js:87-96 | definition: a block per gated section in order; stated by `Sections.RenderBlocksOfGated` |
| Sections.RenderBlocksOfGated | docs/js/ui/sections.js:87-96 | there is a block for every gated section, carrying its id, game and non-zero required count, and no block for any other section |
| Sections.RowFamilyKey | docs/js/ui/sections.js:134 | definition: the row's family key, the empty key when the species has no family |
| Sections.RowCaught | docs/js/ui/sections.js:63 | definition: the row's label read back with `Number` is a dex flagged caught (also docs/js/ui/sections.js:68) |
| Sections.RenderedRowCaught | docs/js/ui/sections.js:63-68 | reading a rendered row's label back with `Number` finds its species' flag |
| Sections.CaughtRowCount | docs/js/ui/sections.js:67-69 | the caught-row count is at most the number of rows |
| Sections.CaughtKeyCount | docs/js/ui/sections.js:56-65 | the count of keys with a caught row is at most the number of keys |
| Sections.CollapseCount | docs/js/ui/sections.js:55-70 | the collapse count is at most the number of rows, in STARTER and elsewhere |
| Sections.ShouldCollapse | docs/js/ui/sections.js:46-75 | definition: required count non-zero, collapse count at least the required count, and the section not expanded by hand |
| Sections.CaughtRowCountMonotone | docs/js/ui/sections.js:67-69 | marking a dex caught never lowers the caught-row count |
| Sections.CaughtKeyCountMonotone | docs/js/ui/sections.js:56-65 | marking a dex caught never lowers the number of keys with a caught row |
| Sections.CollapseCountMonotone | docs/js/ui/sections.js:55-70 | for every block, STARTER included, marking a dex caught never lowers the collapse count |
| Sections.ShouldCollapseAfterCatch | docs/js/ui/sections.js:72-75 | a block the rule collapses still qualifies after one more catch in its game |
| Sections.CaughtRowsOfRendered | docs/js/ui/sections.js:67-69 | the caught rows of a rendered list are counted exactly as the caught species behind them, at the current storage |
| Sections.NonStarterCollapseCount | docs/js/ui/sections.js:66-70 | outside STARTER the collapse count is the number of caught section members at the current storage |
| Sections.CaughtKeyCountSingle | docs/js/ui/sections.js:56-65 | over distinct keys of which only one can have a caught row, the count is 1 or 0 as that key has one |
| Sections.StarterCountOneKey | docs/js/ui/sections.js:55-65 | when every row carries one key, the STARTER count is 1 if some row is caught and 0 otherwise |
| Sections.CaughtRowsPositive | docs/js/ui/sections.js:67-69 | the caught-row count is positive exactly when some row is caught |
| Sections.StarterClaimedCollapseCount | docs/js/ui/sections.js:55-65 | a STARTER block rendered with a claimed family counts 1 while that family has a caught member and 0 otherwise |
| Sections.FamilyRowsShareKey | docs/js/ui/sections.js:134 | the rows of a starter family all carry that family's key |
| Sections.UnclaimedCaughtHasNoFamily | docs/js/ui/sections.js:17-24 | while no family is claimed, a caught STARTER member has no family array |
| Sections.StarterUnclaimedCollapseCount | docs/js/ui/sections.js:55-65 | a STARTER block rendered while no family is claimed counts 1 at that storage if any member is caught, and 0 otherwise |
| Sections.UnclaimedCount | docs/js/ui/sections.js:56-65 | when every caught row carries the empty key, the STARTER count is 1 if any row is caught and 0 otherwise |
| View.Collapse | docs/js/ui/sections.js:72-75 | definition: a block's flag is set when it was set or the block should collapse, so it is never cleared; `View.CollapseIdempotent` |
| View.RowShown | docs/js/app.js:253-256 | definition: the corrected match, on the row's name lower-cased; `View.HiddenFlagsMeaning` states its use |
| View.MarkBlockRow | docs/js/ui/sections.js:148 | definition: the block with only row j's caught mark replaced; `View.SectionsView.MarkRow` states its use |
| View.HiddenFlagsMeaning | docs/js/app.js:253-258 | row j is hidden exactly when the query does not match it |
| View.AnyShownMeaning | docs/js/app.js:259-266 | a block's rows stay visible exactly when one of its rows matches |
| View.CollapseIdempotent | docs/js/ui/sections.js:72-75 | running the handler again on the same storage changes nothing |
| View.NonStarterCollapseStaysMet | docs/js/ui/sections.js:66-75 | outside STARTER, a block the handler collapses still qualifies after one more species is caught |
| View.BlankQueryShowsRows | docs/js/app.js:253-266 | a blank query shows every row, and a block's rows exactly when the block has a row |
| View.RenderedRowsBreakSearch | docs/js/app.js:250-255 | on a rendered row, the as-written filter throws for every query with a non-space character |
| View.SectionsView.constructor | docs/js/ui/sections.js:8 | the list starts empty with no manually expanded section |
| View.SectionsView.Render | docs/js/ui/sections.js:83-166 | the blocks are exactly those of the gated sections, with rows as `RenderSectionRows` builds them; nothing is hidden; the set of expanded sections survives |
| View.SectionsView.OnCaughtChanged | docs/js/ui/sections.js:42-77 | the rows and header flags of every block the rule collapses are set and all others are kept; nothing else changes |
| View.SectionsView.OnHeaderClick | docs/js/ui/sections.js:104-112 | flips block i's hidden and header flags; its id joins the expanded set when the click shows the rows and leaves it when it hides them |
| View.SectionsView.MarkRow | docs/js/ui/sections.js:148 | only row j of block i changes, to the new caught mark |
| View.SectionsView.ApplySearchFilter | docs/js/app.js:243-268 | each row is hidden exactly when the normalized query does not match it; a block's rows are hidden exactly when no row matches; nothing else changes |
| View.CollapseBlocks | docs/js/ui/sections.js:43-76 | the loop's result is `Collapse`: a flag is set exactly where it was set or the rule holds |
| View.FilterBlocks | docs/js/app.js:246-267 | per block, the row flags and the block flag are those of `HiddenFlags` and `AnyShown` |
| View.FilterRows | docs/js/app.js:249-260 | the row flags are the non-matching rows, and the visible flag is set exactly when some row matches |
| View.RenderSectionRows | docs/js/ui/sections.js:127-161 | one row per listed species, with its padded label, family key and caught mark |
| View.SectionMatches | docs/js/ui/sections.js:114-125 | the listed species are the members, or in STARTER the first family with a caught member when there is one |
| View.ClickBall | docs/js/ui/sections.js:142-153 | for the row whose label reads back as the clicked dex: the storage flips that flag; the row is marked with the new state, which its label now reads back as; the rows and header flags become `Collapse` at the new storage; the expanded set and the row flags are unchanged |
| Objective.SectionCaughtCount | docs/js/app.js:220-226 | definition: the caught count of the species listing the section; `Objective.CountSectionCaught` computes it and `Objective.SectionCaughtCountSnoc` states its step |
| Objective.Unmet | docs/js/app.js:228 | definition: a gated section (docs/js/app.js:218) whose caught count is below its required count; `Objective.FirstUnmet` and `Objective.UnmetAfterCatch` state its use |
| Objective.FirstUnmet | docs/js/app.js:217-231 | every section before the result is met, and the section at the result is unmet when one exists |
| Objective.CurrentObjective | docs/js/app.js:216-234 | the sentinel is returned exactly when every gated section is met; otherwise the title of the first unmet section, never a later one |
| Objective.GetCurrentObjective | docs/js/app.js:216-234 | the loop with early return computes `CurrentObjective` |
| Objective.CountSectionCaught | docs/js/app.js:220-226 | the count is the number of caught species whose section list contains the section, without starter exclusivity |
| Objective.SectionCaughtCountSnoc | docs/js/app.js:220-226 | one more roster species adds 1 exactly when it lists the section and is caught |
| Objective.UnmetAfterCatch | docs/js/app.js:220-229 | catching a species never makes a met section unmet |
| Objective.ObjectiveAdvancesOnCatch | docs/js/app.js:217-230 | catching a species never moves the objective to an earlier section |
| Objective.CollapseAgreesWithObjective | docs/js/app.js:220-229 | outside STARTER, a block reaches its collapse threshold exactly when its section is met for the objective |
| Objective.StarterClaimedNeverCollapsesAboveOne | docs/js/ui/sections.js:55-75 | a STARTER block rendered with a claimed family never collapses when its required count is above 1 |
| Registry.LastWins | docs/js/data/registry.js:4 | definition: the map after the registrations in order; stated by the lemmas below |
| Registry.Values | docs/js/data/registry.js:8 | definition: the entries read in key order; `Registry.SpeciesRegistry.GetAll` and `Registry.AllPokemonOfRegistered` state what they are |
| Registry.LastWinsKeys | docs/js/data/registry.js:3-5 | a slug has an entry exactly when some registered species carries it |
| Registry.LastWinsValue | docs/js/data/registry.js:4 | a slug's entry is a species registered under it, and no later registration carries the slug |
| Registry.LastWinsSnoc | docs/js/data/registry.js:4 | registering one more species replaces its slug's entry and leaves every other entry as it was |
| Registry.OrderSnoc | docs/js/data/registry.js:4 | a new slug goes to the end of the key order, and a known slug keeps its place |
| Registry.AllPokemonOfRegistered | docs/js/data/registry.js:7-9 | every listed slug was registered and maps to a species carrying it; the listed slugs are distinct and come in first-registration order |
| Registry.SpeciesRegistry.constructor | docs/js/data/registry.js:1 | the registry starts empty |
| Registry.SpeciesRegistry.Register | docs/js/data/registry.js:3-5 | the entries become the old ones with the slug mapped to the species; the order grows only for a new slug, so the entry count is unchanged on re-registration |
| Registry.SpeciesRegistry.GetAll | docs/js/data/registry.js:7-9 | returns, for each distinct slug in first-registration order, the species last registered under it; changes nothing |
| Time.TimePeriod | docs/js/time.js:1-5 | morning exactly for hours in [4, 10), day exactly for [10, 18), night exactly for every other hour |
| Time.TimePeriodOrder | docs/js/time.js:1-5 | from 4 o'clock on, later hours never return to an earlier bucket |

## Left out

- Persistence encoding. The store is a map from `localStorage` key to the decoded flag object. `JSON.parse`/`JSON.stringify` are not modelled, nor a stored value that fails to parse. JavaScript object keys are strings; the model keys flags by the integer dex.
- Browser and network I/O. Game and roster loading (`data/loader.js`) and the language files and `t` lookup (`data/i18n.js`) are not modelled. The completion message is the constructor `Objective.ChallengeComplete`.
- Audio (`ui/cry.js`), the detail panel (`ui/detail.js`), ball images, row text and every other DOM construction. Display state is kept as abstract hidden/collapsed flags on blocks and rows.
- Events. The `caught-changed` broadcast becomes a direct call: `View.ClickBall` runs the collapse handler. The `app.js` listener (docs/js/app.js:16-28) only recomputes `Progress.GetGlobalProgress` and `Objective.GetCurrentObjective`, and it is not a member of its own.
- Progress.Percent: the browser divides in double precision before the floor, and the model floors the exact quotient. The two can differ by one; for example 29 of 100 gives 28 in the browser and 29 here.
- Text.Trim: only the ASCII white space characters are removed; the browser also removes other Unicode spaces and line terminators.
- Text.Lower: only the letters A to Z are lower-cased, not the rest of Unicode.
- Time.TimePeriod: the hour is a real number. A non-numeric hour (NaN, `undefined`) fails both range tests in the browser and gives night; the model has no such value.
- Catalog.Species: a dex is a natural number, a family is an array of integers or missing, and `requiredCount` is an optional integer. Other JSON values (strings, fractions) are not modelled. Neither is a `family` that is present but not an array: `getStarterFamilies` would skip such a species, but the row builder would throw on `join` (docs/js/ui/sections.js:134).
- Families.FamilyOf: the family key is the array itself, standing in for `family.join('|')`. The two agree for integer arrays. The model does not state as a separate lemma that a family keeps roster order: `FamilyOf` is defined as a filter of the roster.
- Registry.SpeciesRegistry: the JavaScript `Map` holds references to species objects, and the model holds values; aliasing of species objects is not modelled.
- Caught.CaughtStore.ToggleCaught: `state/caught.js` exports no `toggleCaught`, so the module import in `ui/sections.js:5` would fail to load. The model takes the behaviour from how the result is used at `ui/sections.js:144-148`.

## Findings

| source | as written | input that shows it | evidently intended | confidence | as-written member | corrected member |
|---|---|---|---|---|---|---|
| docs/js/app.js:250 | the filter reads `row.dataset.name`, which the rendered rows never set (docs/js/ui/sections.js:131-134), so `name.includes(q)` is called on `undefined` and throws for every non-blank query | any query with a non-space character, such as `pika`, on a page with at least one rendered row | the row's displayed name, lower-cased, is matched against the lower-cased query | high, not executed | Search.MatchAsWritten | View.SectionsView.ApplySearchFilter |
