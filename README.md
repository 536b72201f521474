# Compact searchable shop menu: a verified model of the catalog view controller

This project models, in Dafny, the part of the Stardew Valley mod "Compact Searchable Shop Menu" that
decides what the shop shows and how the player moves through it. It also models the earlier
"Shop Menu Overhaul" grid it grew out of. Four pieces are modelled:

- **Row and scroll arithmetic** (module `Grid`). The menu lays its stock out `perRow` entries to a
  row. The row remainder `perRowR` replaces the host's hard-coded `forSale.Count - 4` last-row
  bound. The thumb-drag index mapping and the arrow-key pre-adjustments depend on both.
- **The grid slot builder and its focus graph** (`Grid`, and `OverhaulGrid` for the earlier
  variant). Each full-width button row is cut into `perRow` slots, numbered from 3546. The slots
  are linked to their up/right/down/left neighbours, with the host's snap sentinels at the edges.
- **The batch-buy quantity** (`StackCount`): Shift-click sizes, capped by stock, money and held
  trade items.
- **The search context** (`Registry`, `Filters`, `Search`), a per-menu object that has:
  - a registry of filter tabs, built from the stock;
  - a cached full stock list;
  - a search box;
  - the handlers for clicks, key presses and shoulder buttons that filter the shown list and
    move between tabs.

The host game is represented as follows (module `Host`):
- `ShopMenu` is a class with the fields the core reads and writes: `forSale`, `currentItemIndex`,
  `forSaleButtons`, `itemPriceAndStock`, the menu position and the tab-button count.
- The menu's weak reference is a `ShopMenu?` argument to every handler, so every `Shop == null`
  early return is kept.
- The host constants `ShopMenu.itemsPerPage`, `region_upArrow`, `CUSTOM_SNAP_BEHAVIOR` and
  `SNAP_AUTOMATIC` are abstract constants. `itemsPerPage` is at least 1. Lemmas that need the
  sentinels to be distinct from slot ids say so via `SentinelsOutside`.
- The mod's settings are one `ModConfig` record passed to the operations that read them.
- The per-screen `perRow`/`perRowR` pair is one `Grid.ScreenGrid` object.
- `setScrollBarToCurrentIndex` is modelled only by the mod's prefix on it, which recomputes the
  remainder (`Grid.ScreenGrid.SyncScrollBar`).

Behaviour of the code that the contracts state as written:
- `Reposition` makes `NO_FILTER` current without filtering the list again. The previously
  current tab is still drawn lowered, and the shown list stays filtered by it
  (`Scenarios.RepositionKeepsFilter`, `Scenarios.RepositionThenToggle`).
- Shoulder buttons do not reset `currentItemIndex`; clicking a different tab does.
- `SearchDeactivate` synchronises the scroll bar before it restores the full list under
  `NO_FILTER`. The remainder it leaves is therefore the searched list's, not the restored list's
  (`Scenarios.SearchThenDeactivate`, `Scenarios.StaleRemainder`). The host recomputes it at its
  next scroll-bar update.
- `Dispose` does not put the full list back into the shop.
- The up-arrow guard turns only an exact 0 into 1; negative indices pass through.

## Model

| member | source | states |
|---|---|---|
| Grid.ScreenGrid.SetPerRow | CompactSearchableShopMenu/Patches.cs:24-33 | stores the column count and the row remainder of the given count |
| Grid.RowRemainder | CompactSearchableShopMenu/Patches.cs:27-32 | definition of `perRowR`: `perRow * itemsPerPage` when the count divides evenly, else the count's remainder plus `itemsPerPage - 1` rows; what it guarantees is stated by `Grid.RemainderShape` and `Grid.RemainderUnique` |
| Grid.RemainderShape | CompactSearchableShopMenu/Patches.cs:24-33 | the remainder lies in `(perRow*(itemsPerPage-1), perRow*itemsPerPage]`, is at least 1, and `count - perRowR` is a multiple of `perRow` |
| Grid.RemainderUnique | CompactSearchableShopMenu/Patches.cs:24-33 | the remainder is the only value in that window with `count - r` a multiple of `perRow` |
| Grid.RemainderExample | CompactSearchableShopMenu/Patches.cs:24-33 | ten entries in three columns give a remainder of ten |
| Grid.ScreenGrid.SyncScrollBar | CompactSearchableShopMenu/Patches.cs:252-255 | keeps `perRow` and recomputes `perRowR` for the shop's current list |
| Grid.ScreenGrid.constructor | CompactSearchableShopMenu/Patches.cs:60-61 | starts at three columns with remainder four |
| Grid.Truncate | CompactSearchableShopMenu/Patches.cs:325 | the `(int)` cast truncates toward zero for both signs |
| Grid.CeilDiv | CompactSearchableShopMenu/Patches.cs:325 | `MathF.Ceiling(a / b)` is the least `c` with `a <= c*b` |
| Grid.LeftClickHeldIndex | CompactSearchableShopMenu/Patches.cs:315-327 | one column returns the original value; otherwise the index lies in `[0, max(0, count - perRowR)]` for any thumb position, including outside the runner |
| Grid.HeldIndexOnRowBoundary | CompactSearchableShopMenu/Patches.cs:24-33 | with the remainder computed for the same count, the dragged index is a multiple of `perRow` |
| Grid.HeldIndexEnds | CompactSearchableShopMenu/Patches.cs:315-327 | the top of the runner maps to index 0, and its bottom to `max(0, count - perRowR)` |
| Grid.LastRowIndex | CompactSearchableShopMenu/Patches.cs:380-411 | definition of the host's last-row bound once the transpiler has replaced the constant 4 by `PerRowR`: `count - perRowR`; its properties are stated by `Grid.LastPageIsFull` |
| Grid.LastPageIsFull | CompactSearchableShopMenu/Patches.cs:380-411 | the last-row bound `count - perRowR` is a row boundary, and the last page shows between `perRow*(itemsPerPage-1)` and `perRow*itemsPerPage` entries |
| Grid.DownArrowIndex | CompactSearchableShopMenu/Patches.cs:366-371 | the new index is the smaller of `index + perRow - 1` and the last entry |
| Grid.UpArrowIndex | CompactSearchableShopMenu/Patches.cs:373-378 | the new index is `index - (perRow - 1)`, except that exactly 0 becomes 1; it is never 0, and negatives stay negative |
| Grid.DownArrowPressedPrefix | CompactSearchableShopMenu/Patches.cs:366-371 | sets `currentItemIndex` to the down-arrow index |
| Grid.UpArrowPressedPrefix | CompactSearchableShopMenu/Patches.cs:373-378 | sets `currentItemIndex` to the up-arrow index |
| Grid.ShowsPrice | CompactSearchableShopMenu/Patches.cs:428-430 | definition: the entry has a positive price or a positive trade cost |
| Grid.AnyPriced | CompactSearchableShopMenu/Patches.cs:428-430 | definition: `Values.Any` over the stock of `Grid.ShowsPrice`; it selects the setting in `Grid.ColumnCount` |
| Grid.Clamp | CompactSearchableShopMenu/Patches.cs:433 | `Math.Clamp`: the bound when outside, the value when inside |
| Grid.ColumnCount | CompactSearchableShopMenu/Patches.cs:428-433 | the shop setting when an entry has a positive price or trade cost, else the dresser setting; within 1..9 the setting itself, below 1 one column, above 9 nine |
| Grid.UpLink | CompactSearchableShopMenu/Patches.cs:450 | definition: the custom snap in the first row, else the slot `perRow` ids back; stated by `Grid.EdgeLinks` and `Grid.DownUpMutual` |
| Grid.RightLink | CompactSearchableShopMenu/Patches.cs:451 | definition: the up-arrow region in the last column, else the next id; stated by `Grid.EdgeLinks` and `Grid.LeftRightMutual` |
| Grid.DownLink | CompactSearchableShopMenu/Patches.cs:452-455 | definition: the slot `perRow` ids on below `perRow*(itemsPerPage-1)`, else the custom snap; stated by `Grid.EdgeLinks` and `Grid.UpDownMutual` |
| Grid.LeftLink | CompactSearchableShopMenu/Patches.cs:456 | definition: automatic snapping in the first column, else the previous id; stated by `Grid.EdgeLinks` and `Grid.LeftRightMutual` |
| Grid.MakeSlot | CompactSearchableShopMenu/Patches.cs:441-458 | definition of one slot: column `i` of the row cut with C# division, id `3546 + idx`, and the four links; its geometry is stated by `Grid.ColumnInRow` and `Grid.RowTiles` |
| Grid.MakeGridLikeSaleButtons | CompactSearchableShopMenu/Patches.cs:426-465 | stores the column count with its remainder and replaces the buttons wholly by the grid over the old buttons' rectangles, in order |
| Grid.BuildSaleSlots | CompactSearchableShopMenu/Patches.cs:436-462 | the nested loop yields exactly slot `k` of the grid for every `k < rows*perRow` |
| Grid.SlotForAt | CompactSearchableShopMenu/Patches.cs:437-461 | the slot made in row `r`, column `i` is sequential slot `r*perRow + i` |
| Grid.GridIds | CompactSearchableShopMenu/Patches.cs:445 | slot `k` has id `3546 + k` |
| Grid.SingleColumnKeepsRows | CompactSearchableShopMenu/Patches.cs:441-444 | with one column each slot keeps its row's rectangle |
| Grid.ColumnInRow | CompactSearchableShopMenu/Patches.cs:441-444 | a column cut from a row lies inside the row |
| Grid.RowTiles | CompactSearchableShopMenu/Patches.cs:441-444 | a row's slots share its y and height, lie inside it, and start where the previous one ends |
| Grid.SlotPosition | CompactSearchableShopMenu/Patches.cs:437-461 | slot `k` is built from row `k / perRow`, column `k % perRow` |
| Grid.LeftRightMutual | CompactSearchableShopMenu/Patches.cs:451-456 | inside a row, right and left links answer each other |
| Grid.DownUpMutual | CompactSearchableShopMenu/Patches.cs:450-455 | every real down link is answered by the up link of its target |
| Grid.UpDownMutual | CompactSearchableShopMenu/Patches.cs:450-455 | on a grid of at most one page, every real up link is answered by the down link of its target |
| Grid.EdgeLinks | CompactSearchableShopMenu/Patches.cs:450-456 | a link is a sentinel exactly at its edge: first row up, last column right, first column left, past `perRow*(itemsPerPage-1)` down |
| OverhaulGrid.OverhaulScreen.constructor | ShopMenuOverhaul/Patches.cs:20 | starts at three columns |
| OverhaulGrid.UpLink | ShopMenuOverhaul/Patches.cs:143 | definition: the slot `perRow` ids back only when `idx > perRow`, else the custom snap; see the finding below |
| OverhaulGrid.DownLink | ShopMenuOverhaul/Patches.cs:145-146 | definition: the slot `perRow` ids on below `perRow*(ROW-1)`, else the custom snap |
| OverhaulGrid.MakeSlot | ShopMenuOverhaul/Patches.cs:134-149 | definition of one slot of this variant; compared with the later one by `OverhaulGrid.VariantsAgree` |
| OverhaulGrid.MakeGridLikeSaleButtons | ShopMenuOverhaul/Patches.cs:120-156 | stores the clamped column count and replaces the buttons by this variant's grid |
| OverhaulGrid.BuildSaleSlots | ShopMenuOverhaul/Patches.cs:129-153 | the nested loop yields this variant's slot `k` for every `k` |
| OverhaulGrid.SlotForAt | ShopMenuOverhaul/Patches.cs:130-152 | the slot made in row `r`, column `i` is sequential slot `r*perRow + i` |
| OverhaulGrid.DownArrowPressedPrefix | ShopMenuOverhaul/Patches.cs:66-69 | adds `perRow - 1`, with no cap |
| OverhaulGrid.UpArrowPressedPrefix | ShopMenuOverhaul/Patches.cs:71-74 | subtracts `perRow - 1`, with no correction |
| OverhaulGrid.DownArrowCapped | ShopMenuOverhaul/Patches.cs:66-69 | the later down step is this one capped at the last entry |
| OverhaulGrid.UpArrowCorrected | ShopMenuOverhaul/Patches.cs:71-74 | the later up step is this one except that landing on 0 gives 1 |
| OverhaulGrid.LastRowIndexAgainstRemainder | ShopMenuOverhaul/Patches.cs:76-118 | this variant's bound `count - 4*perRow` keeps the count's column; with four-row pages and whole rows it equals the later bound |
| OverhaulGrid.VariantsAgree | ShopMenuOverhaul/Patches.cs:143-147 | with four-row pages both variants build the same slot everywhere except the up link of slot `perRow` |
| OverhaulGrid.FirstColumnUpLinkIsNotAnswered | ShopMenuOverhaul/Patches.cs:143 | slot 0 links down to slot `perRow`, whose up link is the custom snap instead of slot 0 |
| StackCount.ApplyTradeItemStackCountCap | CompactSearchableShopMenu/Patches.cs:579-599 | never increases the count; identity without a positive trade cost; otherwise at most held / cost, where Qi gems and golden walnuts are counted by their counters and any other trade item in the inventory |
| StackCount.GetBuyStackCount | CompactSearchableShopMenu/Patches.cs:601-634 | 1 without Shift or for a request below 1; otherwise at most the request (5, 25 with Ctrl, 999 with Ctrl+1, or the configured values once the stack-count patch applied), the stock, the money cap and the trade cap, and equal to one of them |
| StackCount.BatchIsAffordable | CompactSearchableShopMenu/Patches.cs:623-631 | with non-negative money and trade items the batch price and trade cost are covered |
| StackCount.BatchIsLargest | CompactSearchableShopMenu/Patches.cs:623-631 | no larger count within request, stock, money and trade items exists |
| StackCount.AffordableBelowQuotient | CompactSearchableShopMenu/Patches.cs:626-628 | a count that money pays for is at most the quotient |
| StackCount.QuotientIsAffordable | CompactSearchableShopMenu/Patches.cs:626-628 | a count at most the quotient is paid for |
| StackCount.BatchCanBeZero | CompactSearchableShopMenu/Patches.cs:623-631 | an unaffordable entry yields a batch of 0 |
| StackCount.GetMaxBuyStack | CompactSearchableShopMenu/Patches.cs:1073-1076 | defined exactly when the index and the stock lookup are; then the trade-capped stack |
| Filters.ShouldIncludeRecipe | CompactSearchableShopMenu/SearchContext.cs:75-80 | definition: with the recipes tab on, only non-recipes pass |
| Filters.CheckPlantableThisSeason | CompactSearchableShopMenu/SearchContext.cs:82-87 | definition: an object whose crop grows this season |
| Filters.ShouldIncludePlantable | CompactSearchableShopMenu/SearchContext.cs:89-96 | definition: with the plantable tab on, only entries not plantable this season pass |
| Filters.FilterRecipe | CompactSearchableShopMenu/SearchContext.cs:60 | definition: the entry is a recipe |
| Filters.FilterCategory | CompactSearchableShopMenu/SearchContext.cs:62-63 | definition: a recipe-admitted Item of the category |
| Filters.FilterSeedCropShared | CompactSearchableShopMenu/SearchContext.cs:98-104 | definition: a recipe-admitted object in the seeds category that is no tea, wild-tree or fruit-tree sapling |
| Filters.FilterSeedCrop | CompactSearchableShopMenu/SearchContext.cs:106-109 | definition: the shared seed test and the plantable exclusion |
| Filters.FilterSeedCropPlantable | CompactSearchableShopMenu/SearchContext.cs:111-114 | definition: the shared seed test and plantable this season |
| Filters.FilterSeedTree | CompactSearchableShopMenu/SearchContext.cs:116-117 | definition: a recipe-admitted wild-tree or fruit-tree sapling |
| Filters.FilterSeedBush | CompactSearchableShopMenu/SearchContext.cs:119-120 | definition: a recipe-admitted tea sapling |
| Filters.Accepts | CompactSearchableShopMenu/SearchContext.cs:174-254 | definition: the filter registered with each tab key; how the filters relate is stated by the three lemmas below |
| Filters.CropExcludesSaplings | CompactSearchableShopMenu/SearchContext.cs:98-120 | no entry is in a crop tab and also in the tree or bush tab |
| Filters.CropSplitsByPlantable | CompactSearchableShopMenu/SearchContext.cs:89-114 | with the plantable tab on, a non-sapling seed is in exactly one of the crop and plantable tabs |
| Filters.RecipesOnlyInRecipeTab | CompactSearchableShopMenu/SearchContext.cs:60-80 | with the recipes tab on, no other tab accepts a recipe |
| Filters.LowerChar | CompactSearchableShopMenu/SearchContext.cs:68 | each ASCII upper-case letter becomes the lower-case letter at the same offset from `a`; other characters are kept |
| Filters.Lower | CompactSearchableShopMenu/SearchContext.cs:68 | folds each character and keeps the length |
| Filters.ContainsIgnoreCase | CompactSearchableShopMenu/SearchContext.cs:68-70 | definition: the folded needle occurs in the folded text; characterised by `Filters.IsInfixAt` and `Filters.NeedleCaseIgnored` |
| Filters.IsInfixAt | CompactSearchableShopMenu/SearchContext.cs:68 | a text contains a needle exactly when the needle is its slice at some position |
| Filters.LowerIdempotent | CompactSearchableShopMenu/SearchContext.cs:68 | folding twice is folding once |
| Filters.NeedleCaseIgnored | CompactSearchableShopMenu/SearchContext.cs:68 | the search text's case does not matter, and the empty text matches |
| Filters.PieceMatches | CompactSearchableShopMenu/SearchContext.cs:68 | a name matches every piece of itself |
| Filters.SearchSalables | CompactSearchableShopMenu/SearchContext.cs:66-73 | definition: the display name matches, or the description does when description search is on |
| Filters.SearchExample | CompactSearchableShopMenu/SearchContext.cs:66-73 | with description search off, "see" matches "Seeds" and not "Axe" |
| Filters.TabView | CompactSearchableShopMenu/SearchContext.cs:417-422 | definition: the cache filtered by the current tab, unfiltered under `NO_FILTER` or an unknown id |
| Filters.Visible | CompactSearchableShopMenu/SearchContext.cs:417-428 | definition of `DoSearch`'s list: the tab view, then the text filter while the box is selected with non-empty text; characterised by the three lemmas below |
| Filters.VisibleIsSubsequence | CompactSearchableShopMenu/SearchContext.cs:412-431 | the shown list keeps the cache's order and only drops entries |
| Filters.VisibleMembership | CompactSearchableShopMenu/SearchContext.cs:417-428 | an entry is shown exactly when it is cached, the current tab (not `NO_FILTER`) accepts it, and it matches non-empty text while searching |
| Filters.VisibleIdempotent | CompactSearchableShopMenu/SearchContext.cs:412-431 | filtering the shown list again changes nothing |
| Registry.FirstAccepted | CompactSearchableShopMenu/SearchContext.cs:191-245 | definition of `FirstOrDefault` under a tab's filter; characterised by `Registry.FirstAcceptedSpec` |
| Registry.FirstAcceptedSpec | CompactSearchableShopMenu/SearchContext.cs:191-245 | `FirstOrDefault` finds nothing exactly when no entry passes, else the earliest one that passes |
| Registry.SourceIsFirstMatch | CompactSearchableShopMenu/SearchContext.cs:191-240 | a seed tab has its source exactly when some entry passes its filter |
| Registry.CategoryTabs | CompactSearchableShopMenu/SearchContext.cs:152-181 | the loop's keys are the entries' categories in first-seen order, one tab per key |
| Registry.CategoryOrder | CompactSearchableShopMenu/SearchContext.cs:154-180 | definition of the dictionary's key order after the category loop; characterised by `Registry.CategoryOrderMembership` and `Registry.CategoryOrderNoDuplicates` |
| Registry.CategoryOrderMembership | CompactSearchableShopMenu/SearchContext.cs:154-179 | a category key is listed exactly when some non-recipe Item has that category |
| Registry.CategoryOrderNoDuplicates | CompactSearchableShopMenu/SearchContext.cs:160 | each category is listed once |
| Registry.RemoveFirst | CompactSearchableShopMenu/SearchContext.cs:185-189 | `List.Remove` leaves a subsequence of the list, one shorter when the key is present and equal when absent, keeping every other key |
| Registry.RemoveFirstNoDuplicates | CompactSearchableShopMenu/SearchContext.cs:185-189 | after removal the key is gone and the list stays duplicate-free |
| Registry.SplitSeedTabs | CompactSearchableShopMenu/SearchContext.cs:183-226 | drops the seeds category and prepends bush, tree and crop, giving crop, tree, bush, categories |
| Registry.AddFixedTabs | CompactSearchableShopMenu/SearchContext.cs:228-256 | the plantable tab goes first and the recipes tab last, each exactly when its option is on and its scan found an Item; every tab keeps empty bounds |
| Registry.BuildTabRegistry | CompactSearchableShopMenu/SearchContext.cs:141-272 | the order is the registry order; the dictionary's keys are its ids, every one with empty bounds |
| Registry.RegistryOrder | CompactSearchableShopMenu/SearchContext.cs:141-272 | definition of the order the constructor leaves; characterised by `Registry.RegistryShape`, `Registry.RegistryTabs` and the lemmas after it |
| Registry.RegistryShape | CompactSearchableShopMenu/SearchContext.cs:258-271 | empty with host tab buttons or fewer than two real tabs, else `NO_FILTER` first with at least three ids; no duplicates; sorted plantable, crop, tree, bush, categories, recipes |
| Registry.RealTabsSorted | CompactSearchableShopMenu/SearchContext.cs:152-256 | the real tabs are duplicate-free and come in that rank order, without `NO_FILTER` |
| Registry.RegistrySourcedTabs | CompactSearchableShopMenu/SearchContext.cs:191-256 | each fixed tab is in a non-empty registry exactly when its option is on and its `FirstOrDefault` scan found an Item |
| Registry.RegistryTabs | CompactSearchableShopMenu/SearchContext.cs:183-256 | each seed tab exists exactly when its option is on and some entry passes its filter; the recipes tab exactly when its option is on and the first recipe is an Item |
| Registry.RegistryCategoryTabs | CompactSearchableShopMenu/SearchContext.cs:152-189 | a category tab exists exactly when category tabs are on and some non-recipe Item has it, except the seeds category under detailed seeds |
| Registry.RecipesTabLast | CompactSearchableShopMenu/SearchContext.cs:243-256 | the recipes tab, when present, is last |
| Registry.CategoryTabsInFirstSeenOrder | CompactSearchableShopMenu/SearchContext.cs:152-189 | the category tabs appear in first-seen order, without the seeds category under detailed seeds |
| Search.Shift | CompactSearchableShopMenu/SearchContext.cs:368-389 | moves only the named tab, only when it exists, and only vertically |
| Search.ShiftCancels | CompactSearchableShopMenu/SearchContext.cs:484-497 | lowering and raising the same tab restores every tab |
| Search.ShiftKeepsLaid | CompactSearchableShopMenu/SearchContext.cs:484-497 | moving a tab vertically keeps the tabs side by side |
| Search.HitIsUnique | CompactSearchableShopMenu/SearchContext.cs:318-324 | tabs of equal width laid side by side do not overlap |
| Search.SearchBoxRect | CompactSearchableShopMenu/SearchContext.cs:282-296 | definition: below the inventory at the menu's left edge, 64 pixels lower with Bigger Backpack, 240 by 56 |
| Search.TabRect | CompactSearchableShopMenu/SearchContext.cs:318-326 | definition of tab `n`'s rectangle in Reposition; `Search.LayTabs` states that the tabs laid this way stand side by side |
| Search.IndexOf | CompactSearchableShopMenu/SearchContext.cs:372 | `List.IndexOf`: the first position of the id, or -1 |
| Search.NextIndex | CompactSearchableShopMenu/SearchContext.cs:373-384 | right is `+1` and left `-1`, modulo the number of tabs |
| Search.ShouldersUndo | CompactSearchableShopMenu/SearchContext.cs:373-384 | right then left, or left then right, is the identity |
| Search.RightPresses | CompactSearchableShopMenu/SearchContext.cs:373-378 | `k` right presses move `k` tabs on, wrapping around |
| Search.RightPressesCycle | CompactSearchableShopMenu/SearchContext.cs:373-378 | as many right presses as tabs return to the starting tab |
| Search.Prune | CompactSearchableShopMenu/SearchContext.cs:518 | keeps exactly the cached entries still in stock, in their order |
| Search.SearchContext.constructor | CompactSearchableShopMenu/SearchContext.cs:122-280 | a box with its placeholder when search is on, the tab sprite only without host tabs, the registry laid out with `NO_FILTER` current and lowered, nothing cached, box unselected |
| Search.LayTabs | CompactSearchableShopMenu/SearchContext.cs:313-327 | every tab keeps its key; the tab at position `n` gets `x + n*4W + 20`, the sprite's size times four, and is lowered exactly when it is the current one, so the tabs stand side by side |
| Search.SearchContext.Reposition | CompactSearchableShopMenu/SearchContext.cs:298-330 | box below the inventory, tab `n` at `x + n*4W + 20` and lowered when it was current, then `NO_FILTER` current; the list is untouched |
| Search.SearchContext.Dispose | CompactSearchableShopMenu/SearchContext.cs:332-343 | drops the cache and every tab and unselects the box; the shop list is not restored |
| Search.SearchContext.DoSearch | CompactSearchableShopMenu/SearchContext.cs:412-431 | caches the full list on first use and shows it filtered by the tab and, while searching, the text; resynchronises the remainder |
| Search.SearchContext.OnKeyPress | CompactSearchableShopMenu/SearchContext.cs:347-355 | passes the key on exactly when the box is not selected, changing nothing; otherwise searches again, with the cache filled, the text-filtered tab view shown and the remainder recomputed for it, and without a shop changes nothing |
| Search.SearchContext.SearchActivate | CompactSearchableShopMenu/SearchContext.cs:433-445 | an unselected box: index 0, remainder resynchronised, text cleared, selected; otherwise no change |
| Search.SearchContext.RestoreStock | CompactSearchableShopMenu/SearchContext.cs:459-464 | under `NO_FILTER` the cache becomes the list again and is dropped, and the stored remainder is the one of the list shown before |
| Search.SearchContext.SearchDeactivate | CompactSearchableShopMenu/SearchContext.cs:447-470 | placeholder back and unselected; the cache restored and dropped under `NO_FILTER`, with the remainder of the replaced list; under a tab, the tab's view of the cache |
| Search.SearchContext.GamepadToggleSearch | CompactSearchableShopMenu/SearchContext.cs:395-410 | without a shop or box changes nothing; otherwise toggles the selection: activating clears the text, returns to index 0 and recomputes the remainder for the unchanged list; deactivating restores the placeholder and has `SearchDeactivate`'s effect on list, cache and remainder, keeping the index |
| Search.SearchContext.MoveHighlight | CompactSearchableShopMenu/SearchContext.cs:368-389 | the tab one to the right or left of the current one, wrapping around, becomes current; the old tab goes up and the new one down by the offset |
| Search.SearchContext.OnGamePadButton | CompactSearchableShopMenu/SearchContext.cs:357-393 | passes on exactly without shop, tabs or a shoulder button; otherwise makes the next or previous tab current, moves the highlight and searches again, recomputing the remainder, without resetting the index |
| Search.SearchContext.FindClickedTab | CompactSearchableShopMenu/SearchContext.cs:480-489 | finds no tab exactly when none contains the point, otherwise the only one that does |
| Search.SearchContext.ClickTabs | CompactSearchableShopMenu/SearchContext.cs:480-507 | a click outside every tab or inside the current tab changes nothing, the remainder included; a click inside another tab `t` makes `t` current with the highlight moved, resets the index, shows the cache as `t` filters it and recomputes the remainder |
| Search.SearchContext.OnLeftClickPrefix | CompactSearchableShopMenu/SearchContext.cs:472-509 | a box hit on an unselected box clears the text, returns to index 0 and recomputes the remainder, and on a selected box changes nothing; the tabs, cache and list stay either way; a tab hit makes that tab current with the highlight moved; a new tab resets the index, searches again and recomputes the remainder; the current tab or a miss changes nothing |
| Search.SearchContext.Highlight | CompactSearchableShopMenu/SearchContext.cs:488-500 | the clicked tab goes down and the current one up by the offset, and the clicked tab becomes current; clicking the current tab leaves every tab where it was |
| Search.SearchContext.SelectTab | CompactSearchableShopMenu/SearchContext.cs:484-507 | the tab part of the click, as above |
| Search.SearchContext.Missed | CompactSearchableShopMenu/SearchContext.cs:520-524 | definition: the point is outside the box, every sale slot and every tab; `Search.SearchContext.OnLeftClickPostfix` deactivates exactly then |
| Search.SearchContext.OnLeftClickPostfix | CompactSearchableShopMenu/SearchContext.cs:511-527 | no shop drops the cache; otherwise prunes it, and deactivates exactly when box, slots and tabs all miss: with no cache left the list and remainder stay, under `NO_FILTER` the pruned cache comes back with the remainder of the list it replaces, under a tab the tab's view of it is shown with its own remainder |
| Scenarios.SearchThenDeactivate | CompactSearchableShopMenu/SearchContext.cs:395-470 | toggle on, type, key, toggle off: the searched list is the matching entries in order; then the full stock returns, with the searched list's remainder |
| Scenarios.StaleRemainder | CompactSearchableShopMenu/SearchContext.cs:461-462 | the left-behind remainder can differ from the restored list's |
| Scenarios.ShoulderCycle | CompactSearchableShopMenu/SearchContext.cs:357-393 | right shows the first real tab's entries, left brings back the whole list |
| Scenarios.RepositionKeepsFilter | CompactSearchableShopMenu/SearchContext.cs:298-330 | after Reposition `NO_FILTER` is current while the list stays filtered and the old tab stays lowered |
| Scenarios.ToggleTwice | CompactSearchableShopMenu/SearchContext.cs:433-470 | activate then deactivate keeps a list consistent with cache and tab |
| Scenarios.RepositionThenToggle | CompactSearchableShopMenu/SearchContext.cs:447-470 | after Reposition, activate then deactivate replaces the tab's list by the whole stock |
| Scenarios.SearchTwice | CompactSearchableShopMenu/SearchContext.cs:412-431 | searching twice with nothing changed shows the same list |
| Scenarios.DisposeTwice | CompactSearchableShopMenu/SearchContext.cs:332-343 | a second Dispose changes nothing further |
| Scenarios.ClickSecondTab | CompactSearchableShopMenu/SearchContext.cs:472-509 | a click inside the second tab selects it, returns to index 0 and shows its entries |

## Left out

- Harmony patch registration and the IL transpilers are not modelled as mechanisms. Only their
  effect is: the host's last-row bound uses `perRowR` (or `4 * perRow` in the earlier variant);
  see `Grid.LastPageIsFull` and `OverhaulGrid.LastRowIndexAgainstRemainder`.
- All drawing is left out: prices, trade icons, names, buy counts and `SearchContext.Draw`. It
  consists of sprite calls at float positions.
- The scroll bar's own update inside `setScrollBarToCurrentIndex` is left out. It positions the
  thumb, and only the mod's prefix on it affects the core.
- Grid.LeftClickHeldIndex: the thumb fraction is an exact rational, not a 32-bit float.
  `MathF.Ceiling` of the float quotient is exact integer ceiling division. Rounding of very large
  counts therefore is not modelled. The model also requires a runner of positive height: the
  source's float division by a zero height (CompactSearchableShopMenu/Patches.cs:320) gives an
  infinite or NaN fraction, which is not modelled.
- 32-bit overflow is not modelled: ids `3546 + idx`, tab positions and money quotients are
  unbounded integers. The game's values are far from the limit.
- Game state becomes plain values: the keyboard state, Qi gems, golden walnuts, inventory counts
  and the currency (`StackCount.Game`). The crop-season lookup and the sapling checks are fields
  of each stock entry. The stack-count patch's success is a parameter.
- Textures and translations become parameters. The custom tab texture's bounds are an optional
  argument of the constructor, and the search placeholder string is another.
- The keyboard dispatcher's subscription (constructor and `Dispose`) is left out.
- Search text typed into the box arrives as a write to the `searchText` field, as the host's text
  box does it.
- Filters.ContainsIgnoreCase: folds ASCII letters only; the culture-aware comparison of other
  scripts is not modelled.
- `OnEnter` only forwards to `DoSearch`, which models it.
- `OnKeyPress` ignores its key argument, so the model has none.
- `GamepadToggleSearch`'s cursor snapping and the `Update` method are host UI and are left out.
- The slots' component name `idx.ToString()` and their `fullyImmutable = true` flag
  (CompactSearchableShopMenu/Patches.cs:447, 457; ShopMenuOverhaul/Patches.cs:140, 148) are not
  fields of `Host.Slot`. The flag stops the host from recomputing the neighbour links, so the model
  takes the links it sets as final.
- Tab component names and icons are display only and are left out. This includes the bush tab
  being named after the tree tab.
- Search.SearchContext.constructor: takes a present shop. The source's exception for a vanished
  shop at construction is not modelled.
- Search.NextIndex: requires the current tab to be in the order, which the class invariant
  guarantees. The source's unreachable `IndexOf == -1` case is therefore not modelled.
- `Dictionary.Keys` is taken to iterate in insertion order when the category keys are copied into
  the order list.
- The click scan over the dictionary is modelled as a scan over the order list. This is
  justified because tabs never overlap (`Search.HitIsUnique`), so at most one tab contains the
  point.
- The cached list and the shop's list are values. The source shares one list object between the
  cache and the shop only inside `DoSearch` and right after `SearchDeactivate` drops the cache.
  Neither sharing is observable.
- The settings menu registration, the reflection into other mods and the logging and asset code
  are not part of this model.

## Findings

| source | as written | input that shows it | evidently intended | confidence | as-written member | corrected member |
|---|---|---|---|---|---|---|
| ShopMenuOverhaul/Patches.cs:143 | the up link is real only when `idx > perRow`, so slot `perRow` (first column, second row) gets the custom snap | `perRow = 3`, two rows: slot 0 links down to id 3549, but slot 3 (id 3549) does not link up to 3546 | `idx >= perRow`, as the later variant writes it (CompactSearchableShopMenu/Patches.cs:450), so every down link is answered | not executed | OverhaulGrid.FirstColumnUpLinkIsNotAnswered | Grid.DownUpMutual |
