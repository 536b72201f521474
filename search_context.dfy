/** The search box and filter tabs of the compact shop menu (CompactSearchableShopMenu/SearchContext.cs):
    a per-menu object that caches the full stock, shows a filtered and searched view of it, and
    routes clicks, key presses and shoulder buttons to the box and the tabs. */
module Search {
  import opened Host
  import opened Config
  import opened Seqs
  import opened Filters
  import opened Registry
  import opened Arith
  import Grid

  /** SearchContext.TAB_OFFSET: how much lower the current tab is drawn. */
  const TabOffset := 8

  /** SearchContext.cursorsTabsSourceRect: the tab sprite on the cursors sheet. */
  const CursorsTabsSource := Rect(16, 368, 16, 16)

  /** The gamepad buttons the tab cycling distinguishes. */
  datatype Button = RightShoulder | LeftShoulder | OtherButton

  // ---------------------------------------------------------------- layout

  /** SearchBoxRect: below the inventory, lower still with the Bigger Backpack mod. */
  function SearchBoxRect(shop: ShopMenu, biggerBackpack: bool): Rect
    reads shop
  {
    Rect(shop.xPositionOnScreen,
         shop.yPositionOnScreen + shop.height - shop.inventoryHeight - 12 + 17 * 4 + 4 + (if biggerBackpack then 64 else 0),
         240, 56)
  }

  /** Where Reposition puts the tab at position `n`: side by side from 20 pixels into the menu, four
      times the sprite's size, above the menu, and TAB_OFFSET lower when it is the current tab. */
  function TabRect(shopX: int, shopY: int, source: Rect, n: int, raised: bool): Rect {
    Rect(shopX + n * (source.width * 4) + 20,
         shopY - source.height * 4 + 8 + (if raised then TabOffset else 0),
         source.width * 4, source.height * 4)
  }

  /** Move the tab `id`, if it exists, down by `dy`. */
  function Shift(tabs: map<TabId, Rect>, id: TabId, dy: int): (r: map<TabId, Rect>)
    ensures r.Keys == tabs.Keys
    ensures forall t :: t in tabs && t != id ==> r[t] == tabs[t]
    ensures id in tabs ==> r[id] == tabs[id].(y := tabs[id].y + dy)
  {
    if id in tabs then tabs[id := tabs[id].(y := tabs[id].y + dy)] else tabs
  }

  /** Moving a tab down and back up again leaves every tab where it was. */
  lemma ShiftCancels(tabs: map<TabId, Rect>, id: TabId, dy: int)
    ensures Shift(Shift(tabs, id, dy), id, -dy) == tabs
  {
  }

  /** Tabs of equal width laid side by side from `left`: a point is inside at most one of them. */
  lemma HitIsUnique(left: int, w: int, n: int, m: int, px: int)
    requires left + n * w <= px < left + n * w + w
    requires left + m * w <= px < left + m * w + w
    ensures n == m
  {
    assert (n - m) * w == n * w - m * w;
    SmallMultipleIsZero(n - m, w);
  }

  // ---------------------------------------------------------------- tab cycling

  /** List.IndexOf: the first position of `x`, or -1. */
  function IndexOf(s: seq<TabId>, x: TabId): (i: int)
    ensures x in s ==> 0 <= i < |s| && s[i] == x && forall j :: 0 <= j < i ==> s[j] != x
    ensures x !in s ==> i == -1
  {
    if s == [] then -1
    else if s[0] == x then 0
    else
      var k := IndexOf(s[1..], x);
      if k == -1 then -1 else k + 1
  }

  /** The next tab position for a shoulder button: one to the right or left, wrapping around. */
  function NextIndex(i: int, count: int, button: Button): (j: int)
    requires 0 <= i < count
    ensures 0 <= j < count
    ensures button == RightShoulder ==> j == (i + 1) % count
    ensures button == LeftShoulder ==> j == (i + count - 1) % count
    ensures button == OtherButton ==> j == i
  {
    if button == RightShoulder then
      (if i + 1 == count then DivModUnique(i + 1, count, 1, 0); 0
       else DivModUnique(i + 1, count, 0, i + 1); i + 1)
    else if button == LeftShoulder then
      (if i - 1 == -1 then DivModUnique(i + count - 1, count, 0, count - 1); count - 1
       else DivModUnique(i + count - 1, count, 1, i - 1); i - 1)
    else i
  }

  /** Right then left, or left then right, comes back to the same tab. */
  lemma ShouldersUndo(i: int, count: int)
    requires 0 <= i < count
    ensures NextIndex(NextIndex(i, count, RightShoulder), count, LeftShoulder) == i
    ensures NextIndex(NextIndex(i, count, LeftShoulder), count, RightShoulder) == i
  {
  }

  /** The position after pressing `button` `k` times. */
  function Presses(i: int, count: int, button: Button, k: nat): (j: int)
    requires 0 <= i < count
    ensures 0 <= j < count
  {
    if k == 0 then i else NextIndex(Presses(i, count, button, k - 1), count, button)
  }

  /** Pressing right shoulder `k` times moves `k` tabs to the right, wrapping around. */
  lemma {:induction false} RightPresses(i: int, count: int, k: nat)
    requires 0 <= i < count
    ensures Presses(i, count, RightShoulder, k) == (i + k) % count
  {
    if k > 0 {
      RightPresses(i, count, k - 1);
      var p := (i + k - 1) % count;
      ModStep(i + k - 1, count);
    }
  }

  lemma ModStep(a: int, count: int)
    requires a >= 0 && count >= 1
    ensures (a % count + 1) % count == (a + 1) % count
  {
    var q, m := a / count, a % count;
    assert a == q * count + m;
    if m + 1 == count {
      assert (q + 1) * count == q * count + count;
      DivModUnique(m + 1, count, 1, 0);
      DivModUnique(a + 1, count, q + 1, 0);
    } else {
      DivModUnique(m + 1, count, 0, m + 1);
      DivModUnique(a + 1, count, q, m + 1);
    }
  }

  /** As many right-shoulder presses as there are tabs come back to the same tab. */
  lemma RightPressesCycle(i: int, count: int)
    requires 0 <= i < count
    ensures Presses(i, count, RightShoulder, count) == i
  {
    RightPresses(i, count, count);
    DivModUnique(i + count, count, 1, i);
  }

  // ---------------------------------------------------------------- the controller

  /** The shop a handler may change: none when the weak reference is gone. */
  function ShopFrame(shop: ShopMenu?): set<ShopMenu> {
    if shop == null then {} else {shop}
  }

  /** RemoveWhere on the cache: drop every cached entry the shop no longer stocks. */
  function Prune(cache: Option<seq<Salable>>, stock: map<Salable, StockInfo>): (r: Option<seq<Salable>>)
    ensures r.None? <==> cache.None?
    ensures r.Some? ==> IsSubsequence(r.value, cache.value)
    ensures r.Some? ==> forall s :: s in r.value <==> s in cache.value && s in stock
  {
    if cache.None? then None
    else
      var kept := Filter(cache.value, s => s in stock);
      FilterIsSubsequence(cache.value, s => s in stock);
      assert forall s :: s in kept <==> s in cache.value && s in stock by {
        forall s ensures s in kept <==> s in cache.value && s in stock {
          FilterMembership(cache.value, x => x in stock, s);
        }
      }
      Some(kept)
  }

  /** The tabs of `order` stand side by side, each `w` wide, from `left`. */
  ghost predicate Laid(tabs: map<TabId, Rect>, order: seq<TabId>, left: int, w: int) {
    forall n :: 0 <= n < |order| ==>
      && order[n] in tabs
      && tabs[order[n]].x == left + n * w
      && tabs[order[n]].width == w
  }

  /** Moving a tab up or down keeps the tabs side by side. */
  lemma ShiftKeepsLaid(tabs: map<TabId, Rect>, order: seq<TabId>, left: int, w: int, id: TabId, dy: int)
    requires Laid(tabs, order, left, w)
    ensures Laid(Shift(tabs, id, dy), order, left, w)
  {
  }

  /** The loop of Reposition over the tab order: the tab at position `n` gets TabRect for `n`,
      lowered when it is `current`; no tab is added or removed. */
  method LayTabs(tabs: map<TabId, Rect>, order: seq<TabId>, current: TabId, shopX: int, shopY: int, source: Rect)
    returns (laid: map<TabId, Rect>)
    requires forall id :: id in tabs <==> id in order
    requires NoDuplicates(order)
    ensures laid.Keys == tabs.Keys
    ensures forall n :: 0 <= n < |order| ==> laid[order[n]] == TabRect(shopX, shopY, source, n, order[n] == current)
    ensures Laid(laid, order, shopX + 20, source.width * 4)
  {
    laid := tabs;
    var n := 0;
    while n < |order|
      invariant 0 <= n <= |order|
      invariant laid.Keys == tabs.Keys
      invariant forall m :: 0 <= m < n ==> laid[order[m]] == TabRect(shopX, shopY, source, m, order[m] == current)
    {
      laid := laid[order[n] := TabRect(shopX, shopY, source, n, order[n] == current)];
      n := n + 1;
    }
  }

  class SearchContext {
    /** `searchBox != null`: the box exists when search was enabled at construction. */
    const hasSearchBox: bool
    /** I18n.Placeholder_Search(): the text the box shows while it is not selected. */
    const placeholder: string
    /** tabSourceRect: the tab sprite, whose size sets the tab size. */
    const tabSource: Rect
    /** searchBox.Selected. */
    var selected: bool
    /** searchBox.Text; the host's text box also writes it while the player types. */
    var searchText: string
    /** searchBoxCC.bounds: where a click activates the box. */
    var searchBoxBounds: Rect
    /** The tab buttons' bounds by tab key. */
    var filterTabs: map<TabId, Rect>
    var filterTabsOrder: seq<TabId>
    var filterCurrent: TabId
    /** The full stock while a filtered view is shown. */
    var forSaleAll: Option<seq<Salable>>
    /** Where the last Reposition put the first tab. */
    ghost var tabLeft: int

    /** The registry: one tab per key of the order list, each once, NO_FILTER first, the current
        tab among them, and no selection without a box. */
    ghost predicate Registered()
      reads this
    {
      && (forall id :: id in filterTabs <==> id in filterTabsOrder)
      && NoDuplicates(filterTabsOrder)
      && (filterTabsOrder != [] ==> filterTabsOrder[0] == NoFilter && filterCurrent in filterTabsOrder)
      && (!hasSearchBox ==> !selected)
    }

    /** The registry, with the tabs side by side in order from `tabLeft`. */
    ghost predicate Valid()
      reads this
    {
      && Registered()
      && Laid(filterTabs, filterTabsOrder, tabLeft, tabSource.width * 4)
    }

    /** The constructor: the search box (when enabled) with its placeholder, the tab sprite (the
        shop's custom texture or the cursors sheet, only when the host has no tab buttons), the tab
        registry, then Reposition; the box starts unselected. */
    constructor (shop: ShopMenu, cfg: ModConfig, placeholderText: string, customTabSource: Option<Rect>)
      ensures Valid()
      ensures hasSearchBox == cfg.enableSearch && placeholder == placeholderText && !selected
      ensures searchText == (if cfg.enableSearch then placeholderText else "")
      ensures tabSource == (if shop.tabButtonCount > 0 then EmptyRect
                            else if customTabSource.Some? then customTabSource.value else CursorsTabsSource)
      ensures filterTabsOrder == RegistryOrder(cfg, shop.forSale, shop.tabButtonCount)
      ensures forall id :: id in filterTabs <==> id in filterTabsOrder
      ensures forall n :: 0 <= n < |filterTabsOrder| ==>
                filterTabs[filterTabsOrder[n]] ==
                  TabRect(shop.xPositionOnScreen, shop.yPositionOnScreen, tabSource, n, filterTabsOrder[n] == NoFilter)
      ensures filterCurrent == NoFilter && forSaleAll.None?
      ensures searchBoxBounds == (if cfg.enableSearch then SearchBoxRect(shop, cfg.hasModBiggerBackpack) else EmptyRect)
    {
      hasSearchBox := cfg.enableSearch;
      placeholder := placeholderText;
      searchText := if cfg.enableSearch then placeholderText else "";
      selected := false;
      searchBoxBounds := EmptyRect;
      tabSource := if shop.tabButtonCount > 0 then EmptyRect
                   else if customTabSource.Some? then customTabSource.value else CursorsTabsSource;
      var tabs, order := BuildTabRegistry(cfg, shop.forSale, shop.tabButtonCount);
      RegistryShape(cfg, shop.forSale, shop.tabButtonCount);
      filterTabs, filterTabsOrder := tabs, order;
      filterCurrent := NoFilter;
      forSaleAll := None;
      tabLeft := 0;
      new;
      Reposition(shop, cfg);
      selected := false;
    }

    /** Reposition: the box below the inventory, the tabs side by side above the menu with the
        current tab lower, and then NO_FILTER as the current tab. Tabs keep their keys and order;
        the shown list is not refreshed. */
    method Reposition(shop: ShopMenu?, cfg: ModConfig)
      requires Registered()
      modifies this
      ensures Registered() && (old(Valid()) ==> Valid())
      ensures shop == null ==> unchanged(this)
      ensures shop != null ==>
                && Valid()
                && searchBoxBounds == (if hasSearchBox then SearchBoxRect(shop, cfg.hasModBiggerBackpack) else old(searchBoxBounds))
                && filterTabsOrder == old(filterTabsOrder)
                && filterTabs.Keys == old(filterTabs.Keys)
                && (forall n :: 0 <= n < |filterTabsOrder| ==>
                      filterTabs[filterTabsOrder[n]] ==
                        TabRect(shop.xPositionOnScreen, shop.yPositionOnScreen, tabSource, n,
                                filterTabsOrder[n] == old(filterCurrent)))
                && filterCurrent == NoFilter
                && selected == old(selected) && searchText == old(searchText) && forSaleAll == old(forSaleAll)
    {
      if shop == null {
        return;
      }
      if hasSearchBox {
        searchBoxBounds := SearchBoxRect(shop, cfg.hasModBiggerBackpack);
      }
      filterTabs := LayTabs(filterTabs, filterTabsOrder, filterCurrent,
                            shop.xPositionOnScreen, shop.yPositionOnScreen, tabSource);
      filterCurrent := NoFilter;
      tabLeft := shop.xPositionOnScreen + 20;
    }

    /** Dispose: drop the cache and every tab, and unselect the box. */
    method Dispose()
      requires Valid()
      modifies this
      ensures Valid()
      ensures forSaleAll.None? && filterTabsOrder == [] && filterTabs == map[]
      ensures selected == (old(selected) && !hasSearchBox)
      ensures searchText == old(searchText) && filterCurrent == old(filterCurrent)
      ensures searchBoxBounds == old(searchBoxBounds)
    {
      forSaleAll := None;
      filterTabsOrder := [];
      filterTabs := map[];
      if hasSearchBox {
        selected := false;
      }
    }

    /** DoSearch: cache the full list on the first search, then show the cached list filtered by the
        current tab and, while the box is selected with text in it, by the text; the scroll bar is
        then resynchronised to the new list. */
    method DoSearch(shop: ShopMenu?, grid: Grid.ScreenGrid, cfg: ModConfig)
      requires Valid() && grid.Valid()
      modifies this`forSaleAll, ShopFrame(shop)`forSale, grid
      ensures Valid() && grid.Valid() && grid.perRow == old(grid.perRow)
      ensures shop == null ==> forSaleAll == old(forSaleAll) && grid.perRowR == old(grid.perRowR)
      ensures shop != null ==>
                && forSaleAll == Some(if old(forSaleAll).Some? then old(forSaleAll).value else old(shop.forSale))
                && shop.forSale == Visible(cfg, forSaleAll.value, filterCurrent, filterTabs.Keys, selected, searchText)
                && grid.perRowR == Grid.RowRemainder(grid.perRow, |shop.forSale|)
    {
      if shop == null {
        return;
      }
      if forSaleAll.None? {
        forSaleAll := Some(shop.forSale);
      }
      shop.forSale := Visible(cfg, forSaleAll.value, filterCurrent, filterTabs.Keys, hasSearchBox && selected, searchText);
      grid.SyncScrollBar(shop);
    }

    /** OnKeyPress: while the box is selected every key refreshes the search and is kept from the
        host; otherwise the key passes on. */
    method OnKeyPress(shop: ShopMenu?, grid: Grid.ScreenGrid, cfg: ModConfig) returns (passOn: bool)
      requires Valid() && grid.Valid()
      modifies this`forSaleAll, ShopFrame(shop)`forSale, grid
      ensures Valid() && grid.Valid() && grid.perRow == old(grid.perRow)
      ensures passOn <==> !selected
      ensures passOn ==> forSaleAll == old(forSaleAll) && grid.perRowR == old(grid.perRowR)
      ensures passOn && shop != null ==> shop.forSale == old(shop.forSale)
      ensures !passOn && shop == null ==> forSaleAll == old(forSaleAll) && grid.perRowR == old(grid.perRowR)
      ensures !passOn && shop != null ==>
                && forSaleAll == Some(if old(forSaleAll).Some? then old(forSaleAll).value else old(shop.forSale))
                && shop.forSale == Visible(cfg, forSaleAll.value, filterCurrent, filterTabs.Keys, true, searchText)
                && grid.perRowR == Grid.RowRemainder(grid.perRow, |shop.forSale|)
    {
      if hasSearchBox && selected {
        DoSearch(shop, grid, cfg);
        return false;
      }
      return true;
    }

    /** SearchActivate: the first click on the box starts at the top of the list, clears the text
        and selects the box; when it is already selected nothing changes. */
    method SearchActivate(shop: ShopMenu?, grid: Grid.ScreenGrid)
      requires Valid() && grid.Valid()
      modifies this`searchText, this`selected, ShopFrame(shop)`currentItemIndex, grid
      ensures Valid() && grid.Valid() && grid.perRow == old(grid.perRow)
      ensures shop != null && hasSearchBox && !old(selected) ==>
                && selected && searchText == ""
                && shop.currentItemIndex == 0
                && grid.perRowR == Grid.RowRemainder(grid.perRow, |shop.forSale|)
      ensures !(shop != null && hasSearchBox && !old(selected)) ==>
                && selected == old(selected) && searchText == old(searchText) && grid.perRowR == old(grid.perRowR)
                && (shop != null ==> shop.currentItemIndex == old(shop.currentItemIndex))
    {
      if shop == null || !hasSearchBox {
        return;
      }
      if !selected {
        shop.currentItemIndex := 0;
        grid.SyncScrollBar(shop);
        searchText := "";
        selected := true;
      }
    }

    /** The NO_FILTER part of SearchDeactivate: the scroll bar is synchronised with the list still
        shown, then the cache becomes the list again and is dropped. */
    method RestoreStock(shop: ShopMenu, grid: Grid.ScreenGrid)
      requires Valid() && grid.Valid() && forSaleAll.Some?
      modifies this`forSaleAll, shop`forSale, grid
      ensures Valid() && grid.Valid() && grid.perRow == old(grid.perRow)
      ensures forSaleAll.None? && shop.forSale == old(forSaleAll).value
      ensures grid.perRowR == Grid.RowRemainder(grid.perRow, |old(shop.forSale)|)
    {
      grid.SyncScrollBar(shop);
      shop.forSale := forSaleAll.value;
      forSaleAll := None;
    }

    /** SearchDeactivate: a selected box gets its placeholder back and is unselected; a cached list
        is put back whole under NO_FILTER (after the scroll bar is synchronised to the list it
        replaces) and is otherwise searched again under the current tab without the text. */
    method SearchDeactivate(shop: ShopMenu?, grid: Grid.ScreenGrid, cfg: ModConfig)
      requires Valid() && grid.Valid()
      modifies this`searchText, this`selected, this`forSaleAll, ShopFrame(shop)`forSale, grid
      ensures Valid() && grid.Valid() && grid.perRow == old(grid.perRow)
      ensures shop == null ==>
                && selected == old(selected) && searchText == old(searchText)
                && forSaleAll == old(forSaleAll) && grid.perRowR == old(grid.perRowR)
      ensures shop != null ==>
                && !selected
                && searchText == (if old(selected) then placeholder else old(searchText))
                && (old(forSaleAll).None? ==>
                      forSaleAll.None? && shop.forSale == old(shop.forSale) && grid.perRowR == old(grid.perRowR))
                && (old(forSaleAll).Some? && filterCurrent == NoFilter ==>
                      && forSaleAll.None? && shop.forSale == old(forSaleAll).value
                      && grid.perRowR == Grid.RowRemainder(grid.perRow, |old(shop.forSale)|))
                && (old(forSaleAll).Some? && filterCurrent != NoFilter ==>
                      && forSaleAll == old(forSaleAll)
                      && shop.forSale == TabView(cfg, forSaleAll.value, filterCurrent, filterTabs.Keys)
                      && grid.perRowR == Grid.RowRemainder(grid.perRow, |shop.forSale|))
    {
      if shop == null {
        return;
      }
      if hasSearchBox && selected {
        searchText := placeholder;
        selected := false;
      }
      if forSaleAll.Some? {
        if filterCurrent == NoFilter {
          RestoreStock(shop, grid);
        } else {
          DoSearch(shop, grid, cfg);
        }
      }
    }

    /** GamepadToggleSearch: with a box, select it when it is not selected and unselect it when it
        is (the cursor moves are the host's). */
    method GamepadToggleSearch(shop: ShopMenu?, grid: Grid.ScreenGrid, cfg: ModConfig)
      requires Valid() && grid.Valid()
      modifies this`searchText, this`selected, this`forSaleAll, ShopFrame(shop)`forSale, ShopFrame(shop)`currentItemIndex, grid
      ensures Valid() && grid.Valid() && grid.perRow == old(grid.perRow)
      ensures shop == null || !hasSearchBox ==>
                && selected == old(selected) && searchText == old(searchText)
                && forSaleAll == old(forSaleAll) && grid.perRowR == old(grid.perRowR)
                && (shop != null ==> shop.forSale == old(shop.forSale) && shop.currentItemIndex == old(shop.currentItemIndex))
      ensures shop != null && hasSearchBox ==> selected == !old(selected)
      ensures shop != null && hasSearchBox && !old(selected) ==>
                && searchText == "" && shop.currentItemIndex == 0
                && forSaleAll == old(forSaleAll) && shop.forSale == old(shop.forSale)
                && grid.perRowR == Grid.RowRemainder(grid.perRow, |shop.forSale|)
      ensures shop != null && hasSearchBox && old(selected) ==>
                && searchText == placeholder
                && shop.currentItemIndex == old(shop.currentItemIndex)
                && (old(forSaleAll).None? ==>
                      forSaleAll.None? && shop.forSale == old(shop.forSale) && grid.perRowR == old(grid.perRowR))
                && (old(forSaleAll).Some? && filterCurrent == NoFilter ==>
                      && forSaleAll.None? && shop.forSale == old(forSaleAll).value
                      && grid.perRowR == Grid.RowRemainder(grid.perRow, |old(shop.forSale)|))
                && (old(forSaleAll).Some? && filterCurrent != NoFilter ==>
                      && forSaleAll == old(forSaleAll)
                      && shop.forSale == TabView(cfg, forSaleAll.value, filterCurrent, filterTabs.Keys)
                      && grid.perRowR == Grid.RowRemainder(grid.perRow, |shop.forSale|))
    {
      if shop == null || !hasSearchBox {
        return;
      }
      if selected {
        SearchDeactivate(shop, grid, cfg);
      } else {
        SearchActivate(shop, grid);
      }
    }

    /** The tab cycling of OnGamePadButton: the current tab goes back up, and the tab `button`
        moves to becomes current and is drawn lower. */
    method MoveHighlight(button: Button)
      requires Valid() && filterTabsOrder != []
      modifies this`filterTabs, this`filterCurrent
      ensures Valid()
      ensures var i := IndexOf(filterTabsOrder, old(filterCurrent));
              && 0 <= i < |filterTabsOrder|
              && filterCurrent == filterTabsOrder[NextIndex(i, |filterTabsOrder|, button)]
      ensures filterTabs == Shift(Shift(old(filterTabs), old(filterCurrent), -TabOffset), filterCurrent, TabOffset)
    {
      ShiftKeepsLaid(filterTabs, filterTabsOrder, tabLeft, tabSource.width * 4, filterCurrent, -TabOffset);
      filterTabs := Shift(filterTabs, filterCurrent, -TabOffset);
      var nextIdx := IndexOf(filterTabsOrder, filterCurrent);
      nextIdx := NextIndex(nextIdx, |filterTabsOrder|, button);
      filterCurrent := filterTabsOrder[nextIdx];
      ShiftKeepsLaid(filterTabs, filterTabsOrder, tabLeft, tabSource.width * 4, filterCurrent, TabOffset);
      filterTabs := Shift(filterTabs, filterCurrent, TabOffset);
    }

    /** OnGamePadButton: with tabs, a shoulder button makes the next tab (right) or the previous
        tab (left) current, wrapping around, moves the highlight and searches again; it is kept
        from the host. Anything else passes on unchanged. */
    method OnGamePadButton(shop: ShopMenu?, grid: Grid.ScreenGrid, cfg: ModConfig, button: Button)
      returns (passOn: bool)
      requires Valid() && grid.Valid()
      modifies this`filterTabs, this`filterCurrent, this`forSaleAll, ShopFrame(shop)`forSale, grid
      ensures Valid() && grid.Valid() && grid.perRow == old(grid.perRow)
      ensures passOn <==> shop == null || filterTabsOrder == [] || button == OtherButton
      ensures passOn ==>
                && filterTabs == old(filterTabs) && filterCurrent == old(filterCurrent)
                && forSaleAll == old(forSaleAll) && grid.perRowR == old(grid.perRowR)
                && (shop != null ==> shop.forSale == old(shop.forSale))
      ensures !passOn ==>
                && var i := IndexOf(filterTabsOrder, old(filterCurrent));
                && 0 <= i < |filterTabsOrder|
                && filterCurrent == filterTabsOrder[NextIndex(i, |filterTabsOrder|, button)]
                && filterTabs == Shift(Shift(old(filterTabs), old(filterCurrent), -TabOffset), filterCurrent, TabOffset)
                && forSaleAll == Some(if old(forSaleAll).Some? then old(forSaleAll).value else old(shop.forSale))
                && shop.forSale == Visible(cfg, forSaleAll.value, filterCurrent, filterTabs.Keys, selected, searchText)
                && grid.perRowR == Grid.RowRemainder(grid.perRow, |shop.forSale|)
    {
      if shop == null || |filterTabsOrder| == 0 || button == OtherButton {
        return true;
      }
      MoveHighlight(button);
      DoSearch(shop, grid, cfg);
      return false;
    }

    /** The tab under a point: the loop over the order list finds the one tab containing it, since
        side-by-side tabs do not overlap; the dictionary's iteration order does not matter. */
    method FindClickedTab(x: int, y: int) returns (clicked: Option<TabId>)
      requires Valid()
      ensures clicked.None? <==> forall t :: t in filterTabs ==> !filterTabs[t].Contains(x, y)
      ensures clicked.Some? ==>
                && clicked.value in filterTabs && filterTabs[clicked.value].Contains(x, y)
                && forall t :: t in filterTabs && filterTabs[t].Contains(x, y) ==> t == clicked.value
    {
      var n := 0;
      while n < |filterTabsOrder|
        invariant 0 <= n <= |filterTabsOrder|
        invariant forall m :: 0 <= m < n ==> !filterTabs[filterTabsOrder[m]].Contains(x, y)
      {
        var t := filterTabsOrder[n];
        if filterTabs[t].Contains(x, y) {
          forall u | u in filterTabs && filterTabs[u].Contains(x, y) ensures u == t {
            var k :| 0 <= k < |filterTabsOrder| && filterTabsOrder[k] == u;
            HitIsUnique(tabLeft, tabSource.width * 4, n, k, x);
          }
          return Some(t);
        }
        n := n + 1;
      }
      forall u | u in filterTabs ensures !filterTabs[u].Contains(x, y) {
        var k :| 0 <= k < |filterTabsOrder| && filterTabsOrder[k] == u;
      }
      return None;
    }

    /** OnLeftClickPrefix: a click on the box activates it; a click on a tab moves that tab down,
        moves the current one back up and makes the clicked tab current, and a new tab starts at the top
        of the list and searches again. */
    method OnLeftClickPrefix(shop: ShopMenu?, grid: Grid.ScreenGrid, cfg: ModConfig, x: int, y: int)
      requires Valid() && grid.Valid()
      modifies this`searchText, this`selected, this`filterTabs, this`filterCurrent, this`forSaleAll
      modifies ShopFrame(shop)`forSale, ShopFrame(shop)`currentItemIndex, grid
      ensures Valid() && grid.Valid() && grid.perRow == old(grid.perRow)
      ensures shop == null ==>
                && selected == old(selected) && searchText == old(searchText) && filterTabs == old(filterTabs)
                && filterCurrent == old(filterCurrent) && forSaleAll == old(forSaleAll) && grid.perRowR == old(grid.perRowR)
      ensures shop != null && hasSearchBox && searchBoxBounds.Contains(x, y) ==>
                && selected && filterTabs == old(filterTabs) && filterCurrent == old(filterCurrent)
                && forSaleAll == old(forSaleAll) && shop.forSale == old(shop.forSale)
                && (!old(selected) ==>
                      searchText == "" && shop.currentItemIndex == 0
                      && grid.perRowR == Grid.RowRemainder(grid.perRow, |shop.forSale|))
                && (old(selected) ==>
                      searchText == old(searchText) && shop.currentItemIndex == old(shop.currentItemIndex)
                      && grid.perRowR == old(grid.perRowR))
      ensures shop != null && !(hasSearchBox && searchBoxBounds.Contains(x, y)) ==>
                selected == old(selected) && searchText == old(searchText)
      ensures shop != null && !(hasSearchBox && searchBoxBounds.Contains(x, y)) &&
              (forall t :: t in old(filterTabs) ==> !old(filterTabs)[t].Contains(x, y)) ==>
                && filterTabs == old(filterTabs) && filterCurrent == old(filterCurrent)
                && forSaleAll == old(forSaleAll) && shop.forSale == old(shop.forSale)
                && shop.currentItemIndex == old(shop.currentItemIndex) && grid.perRowR == old(grid.perRowR)
      ensures shop != null && !(hasSearchBox && searchBoxBounds.Contains(x, y)) ==>
              forall t :: t in old(filterTabs) && old(filterTabs)[t].Contains(x, y) ==>
                && filterCurrent == t
                && filterTabs == Shift(Shift(old(filterTabs), t, TabOffset), old(filterCurrent), -TabOffset)
                && (t == old(filterCurrent) ==>
                      && filterTabs == old(filterTabs) && forSaleAll == old(forSaleAll)
                      && shop.forSale == old(shop.forSale) && shop.currentItemIndex == old(shop.currentItemIndex)
                      && grid.perRowR == old(grid.perRowR))
                && (t != old(filterCurrent) ==>
                      && shop.currentItemIndex == 0
                      && forSaleAll == Some(if old(forSaleAll).Some? then old(forSaleAll).value else old(shop.forSale))
                      && shop.forSale == Visible(cfg, forSaleAll.value, t, filterTabs.Keys, selected, searchText)
                      && grid.perRowR == Grid.RowRemainder(grid.perRow, |shop.forSale|))
    {
      if shop == null {
        return;
      }
      if hasSearchBox && searchBoxBounds.Contains(x, y) {
        SearchActivate(shop, grid);
      } else {
        ClickTabs(shop, grid, cfg, x, y);
      }
    }

    /** The tab loop of OnLeftClickPrefix: the tab under the point, if any, is selected. */
    method ClickTabs(shop: ShopMenu, grid: Grid.ScreenGrid, cfg: ModConfig, x: int, y: int)
      requires Valid() && grid.Valid()
      modifies this`filterTabs, this`filterCurrent, this`forSaleAll, shop`forSale, shop`currentItemIndex, grid
      ensures Valid() && grid.Valid() && grid.perRow == old(grid.perRow)
      ensures (forall t :: t in old(filterTabs) ==> !old(filterTabs)[t].Contains(x, y)) ==>
                && filterTabs == old(filterTabs) && filterCurrent == old(filterCurrent)
                && forSaleAll == old(forSaleAll) && shop.forSale == old(shop.forSale)
                && shop.currentItemIndex == old(shop.currentItemIndex) && grid.perRowR == old(grid.perRowR)
      ensures forall t :: t in old(filterTabs) && old(filterTabs)[t].Contains(x, y) ==>
                && filterCurrent == t
                && filterTabs == Shift(Shift(old(filterTabs), t, TabOffset), old(filterCurrent), -TabOffset)
                && (t == old(filterCurrent) ==>
                      && filterTabs == old(filterTabs) && forSaleAll == old(forSaleAll)
                      && shop.forSale == old(shop.forSale) && shop.currentItemIndex == old(shop.currentItemIndex)
                      && grid.perRowR == old(grid.perRowR))
                && (t != old(filterCurrent) ==>
                      && shop.currentItemIndex == 0
                      && forSaleAll == Some(if old(forSaleAll).Some? then old(forSaleAll).value else old(shop.forSale))
                      && shop.forSale == Visible(cfg, forSaleAll.value, t, filterTabs.Keys, selected, searchText)
                      && grid.perRowR == Grid.RowRemainder(grid.perRow, |shop.forSale|))
    {
      var clickedFilter := FindClickedTab(x, y);
      if clickedFilter.Some? {
        SelectTab(shop, grid, cfg, clickedFilter.value);
      }
    }

    /** The tab part of a click on a tab: the clicked tab goes down, the current one back up, and
        the clicked tab becomes current; clicking the current tab leaves the tabs as they were. */
    method Highlight(clicked: TabId)
      requires Valid() && clicked in filterTabs
      modifies this`filterTabs, this`filterCurrent
      ensures Valid() && filterCurrent == clicked
      ensures filterTabs == Shift(Shift(old(filterTabs), clicked, TabOffset), old(filterCurrent), -TabOffset)
      ensures clicked == old(filterCurrent) ==> filterTabs == old(filterTabs)
    {
      ShiftKeepsLaid(filterTabs, filterTabsOrder, tabLeft, tabSource.width * 4, clicked, TabOffset);
      filterTabs := Shift(filterTabs, clicked, TabOffset);
      ShiftKeepsLaid(filterTabs, filterTabsOrder, tabLeft, tabSource.width * 4, filterCurrent, -TabOffset);
      filterTabs := Shift(filterTabs, filterCurrent, -TabOffset);
      if clicked == filterCurrent {
        ShiftCancels(old(filterTabs), clicked, TabOffset);
      }
      filterCurrent := clicked;
    }

    /** The tab part of OnLeftClickPrefix: move the clicked tab down, the current one back up and
        make the clicked tab current; a new tab starts at the top of the list and searches again. */
    method SelectTab(shop: ShopMenu, grid: Grid.ScreenGrid, cfg: ModConfig, clicked: TabId)
      requires Valid() && grid.Valid() && clicked in filterTabs
      modifies this`filterTabs, this`filterCurrent, this`forSaleAll, shop`forSale, shop`currentItemIndex, grid
      ensures Valid() && grid.Valid() && grid.perRow == old(grid.perRow)
      ensures filterCurrent == clicked
      ensures filterTabs == Shift(Shift(old(filterTabs), clicked, TabOffset), old(filterCurrent), -TabOffset)
      ensures clicked == old(filterCurrent) ==>
                && filterTabs == old(filterTabs) && forSaleAll == old(forSaleAll)
                && shop.forSale == old(shop.forSale) && shop.currentItemIndex == old(shop.currentItemIndex)
                && grid.perRowR == old(grid.perRowR)
      ensures clicked != old(filterCurrent) ==>
                && shop.currentItemIndex == 0
                && forSaleAll == Some(if old(forSaleAll).Some? then old(forSaleAll).value else old(shop.forSale))
                && shop.forSale == Visible(cfg, forSaleAll.value, clicked, filterTabs.Keys, selected, searchText)
                && grid.perRowR == Grid.RowRemainder(grid.perRow, |shop.forSale|)
    {
      var prevFilter := filterCurrent;
      Highlight(clicked);
      if clicked != prevFilter {
        shop.currentItemIndex := 0;
        grid.SyncScrollBar(shop);
        DoSearch(shop, grid, cfg);
      }
    }

    /** The point hits neither the box, nor a sale slot, nor a tab. */
    predicate Missed(shop: ShopMenu, x: int, y: int)
      reads this, shop
    {
      && !(hasSearchBox && searchBoxBounds.Contains(x, y))
      && !(exists i :: 0 <= i < |shop.forSaleButtons| && shop.forSaleButtons[i].bounds.Contains(x, y))
      && !(exists t :: t in filterTabs && filterTabs[t].Contains(x, y))
    }

    /** OnLeftClickPostfix: without a shop the cache is dropped; otherwise the cache loses the entries
        the click sold out of the stock, and a click beside the box, the slots and the tabs
        deactivates the search. */
    method OnLeftClickPostfix(shop: ShopMenu?, grid: Grid.ScreenGrid, cfg: ModConfig, x: int, y: int)
      requires Valid() && grid.Valid()
      modifies this`searchText, this`selected, this`forSaleAll, ShopFrame(shop)`forSale, grid
      ensures Valid() && grid.Valid() && grid.perRow == old(grid.perRow)
      ensures shop == null ==>
                forSaleAll.None? && selected == old(selected) && searchText == old(searchText) && grid.perRowR == old(grid.perRowR)
      ensures shop != null && !Missed(shop, x, y) ==>
                && forSaleAll == Prune(old(forSaleAll), shop.itemPriceAndStock)
                && selected == old(selected) && searchText == old(searchText)
                && shop.forSale == old(shop.forSale) && grid.perRowR == old(grid.perRowR)
      ensures shop != null && Missed(shop, x, y) ==>
                && var pruned := Prune(old(forSaleAll), shop.itemPriceAndStock);
                && !selected
                && searchText == (if old(selected) then placeholder else old(searchText))
                && (pruned.None? ==>
                      forSaleAll.None? && shop.forSale == old(shop.forSale) && grid.perRowR == old(grid.perRowR))
                && (pruned.Some? && filterCurrent == NoFilter ==>
                      && forSaleAll.None? && shop.forSale == pruned.value
                      && grid.perRowR == Grid.RowRemainder(grid.perRow, |old(shop.forSale)|))
                && (pruned.Some? && filterCurrent != NoFilter ==>
                      && forSaleAll == pruned && shop.forSale == TabView(cfg, pruned.value, filterCurrent, filterTabs.Keys)
                      && grid.perRowR == Grid.RowRemainder(grid.perRow, |shop.forSale|))
    {
      if shop == null {
        forSaleAll := None;
        return;
      }
      forSaleAll := Prune(forSaleAll, shop.itemPriceAndStock);
      if Missed(shop, x, y) {
        SearchDeactivate(shop, grid, cfg);
      }
    }
  }
}
