/** Whole interactions with the compact shop menu's search box and tabs, each on a fresh menu whose
    stock is given, composed from the handlers' contracts. */
module Scenarios {
  import opened Host
  import opened Config
  import opened Seqs
  import opened Filters
  import opened Registry
  import opened Search
  import Grid

  /** A menu at the origin with the given stock and no slots, its grid, and its search context. */
  method FreshMenu(cfg: ModConfig, stock: seq<Salable>, prices: map<Salable, StockInfo>)
    returns (shop: ShopMenu, grid: Grid.ScreenGrid, ctx: SearchContext)
    ensures fresh(shop) && fresh(grid) && fresh(ctx)
    ensures ctx.Valid() && grid.Valid() && grid.perRow == 3
    ensures shop.forSale == stock && shop.xPositionOnScreen == 0 && shop.yPositionOnScreen == 0
    ensures shop.height == 0 && shop.inventoryHeight == 0
    ensures ctx.hasSearchBox == cfg.enableSearch && !ctx.selected && ctx.placeholder == "Search"
    ensures ctx.filterCurrent == NoFilter && ctx.forSaleAll.None?
    ensures ctx.filterTabsOrder == RegistryOrder(cfg, stock, 0)
    ensures ctx.tabSource == CursorsTabsSource
    ensures forall n :: 0 <= n < |ctx.filterTabsOrder| ==>
              ctx.filterTabs[ctx.filterTabsOrder[n]] == TabRect(0, 0, CursorsTabsSource, n, ctx.filterTabsOrder[n] == NoFilter)
    ensures ctx.searchBoxBounds == (if cfg.enableSearch then SearchBoxRect(shop, cfg.hasModBiggerBackpack) else EmptyRect)
  {
    shop := new ShopMenu(stock, prices, []);
    grid := new Grid.ScreenGrid();
    ctx := new SearchContext(shop, cfg, "Search", None);
  }

  /** Toggle the box on, type `text`, press a key, toggle the box off: while searching the list is
      the stock entries matching the text, in stock order; afterwards it is the whole stock again,
      with the scroll bar's remainder still that of the searched list. */
  method SearchThenDeactivate(cfg: ModConfig, stock: seq<Salable>, prices: map<Salable, StockInfo>, text: string)
    returns (shown: seq<Salable>, restored: seq<Salable>, remainder: int)
    requires cfg.enableSearch
    ensures forall s :: s in shown <==> s in stock && (text != [] ==> SearchSalables(cfg, text, s))
    ensures IsSubsequence(shown, stock)
    ensures restored == stock
    ensures remainder == Grid.RowRemainder(3, |shown|)
  {
    var shop, grid, ctx := FreshMenu(cfg, stock, prices);
    ctx.GamepadToggleSearch(shop, grid, cfg);
    ctx.searchText := text;
    var passOn := ctx.OnKeyPress(shop, grid, cfg);
    shown := shop.forSale;
    SearchedList(cfg, stock, ctx.filterTabs.Keys, text, shown);
    ctx.GamepadToggleSearch(shop, grid, cfg);
    restored := shop.forSale;
    remainder := grid.perRowR;
  }

  /** Under NO_FILTER with the box selected, the shown list is the stock's matching entries in order. */
  lemma SearchedList(cfg: ModConfig, stock: seq<Salable>, keys: set<TabId>, text: string, shown: seq<Salable>)
    requires shown == Visible(cfg, stock, NoFilter, keys, true, text)
    ensures forall s :: s in shown <==> s in stock && (text != [] ==> SearchSalables(cfg, text, s))
    ensures IsSubsequence(shown, stock)
  {
    forall s ensures s in shown <==> s in stock && (text != [] ==> SearchSalables(cfg, text, s)) {
      VisibleMembership(cfg, stock, NoFilter, keys, true, text, s);
    }
    VisibleIsSubsequence(cfg, stock, NoFilter, keys, true, text);
  }

  /** The remainder left behind differs from the restored list's: with three columns, six searched
      entries and seven in stock. */
  lemma StaleRemainder()
    ensures Grid.RowRemainder(3, 6) != Grid.RowRemainder(3, 7)
  {
  }

  /** From NO_FILTER with nothing cached and the box unselected, right shoulder selects the first
      real tab and shows the entries it accepts; left shoulder then goes back to NO_FILTER and the
      whole list. */
  method ShoulderCycle(shop: ShopMenu, grid: Grid.ScreenGrid, ctx: SearchContext, cfg: ModConfig)
    returns (tab: TabId, shown: seq<Salable>, back: seq<Salable>)
    requires ctx.Valid() && grid.Valid() && |ctx.filterTabsOrder| >= 2
    requires ctx.filterCurrent == NoFilter && ctx.forSaleAll.None? && !ctx.selected
    modifies ctx, shop, grid
    ensures ctx.Valid() && ctx.filterTabsOrder == old(ctx.filterTabsOrder)
    ensures tab == ctx.filterTabsOrder[1] && tab != NoFilter
    ensures IsSubsequence(shown, old(shop.forSale))
    ensures forall s :: s in shown <==> s in old(shop.forSale) && Accepts(cfg, tab, s)
    ensures back == old(shop.forSale) && ctx.filterCurrent == NoFilter
  {
    ghost var order := ctx.filterTabsOrder;
    ghost var stock := shop.forSale;
    assert IndexOf(order, NoFilter) == 0;
    var passOn := ctx.OnGamePadButton(shop, grid, cfg, RightShoulder);
    tab := ctx.filterCurrent;
    shown := shop.forSale;
    assert order[0] != order[1];
    TabShown(cfg, stock, tab, ctx.filterTabs.Keys, shown);
    assert IndexOf(order, tab) == 1;
    passOn := ctx.OnGamePadButton(shop, grid, cfg, LeftShoulder);
    back := shop.forSale;
  }

  /** Reposition while a tab is selected draws that tab lowered and makes NO_FILTER current again,
      but leaves the shown list filtered by the tab. */
  method RepositionKeepsFilter(shop: ShopMenu, grid: Grid.ScreenGrid, ctx: SearchContext, cfg: ModConfig)
    returns (tab: TabId, shown: seq<Salable>)
    requires ctx.Valid() && grid.Valid() && |ctx.filterTabsOrder| >= 2
    requires ctx.filterCurrent == NoFilter && ctx.forSaleAll.None? && !ctx.selected
    modifies ctx, shop, grid
    ensures ctx.Valid() && ctx.filterTabsOrder == old(ctx.filterTabsOrder)
    ensures tab == ctx.filterTabsOrder[1] && tab != NoFilter && ctx.filterCurrent == NoFilter
    ensures IsSubsequence(shown, old(shop.forSale))
    ensures forall s :: s in shown <==> s in old(shop.forSale) && Accepts(cfg, tab, s)
    ensures shop.forSale == shown && ctx.forSaleAll == Some(old(shop.forSale))
    ensures grid.Valid() && !ctx.selected
    ensures ctx.filterTabs[tab] == TabRect(shop.xPositionOnScreen, shop.yPositionOnScreen, ctx.tabSource, 1, true)
    ensures ctx.filterTabs[NoFilter] == TabRect(shop.xPositionOnScreen, shop.yPositionOnScreen, ctx.tabSource, 0, false)
  {
    ghost var order := ctx.filterTabsOrder;
    ghost var stock := shop.forSale;
    assert IndexOf(order, NoFilter) == 0;
    var passOn := ctx.OnGamePadButton(shop, grid, cfg, RightShoulder);
    tab := ctx.filterCurrent;
    shown := shop.forSale;
    assert order[0] != order[1];
    TabShown(cfg, stock, tab, ctx.filterTabs.Keys, shown);
    ctx.Reposition(shop, cfg);
    assert ctx.filterTabsOrder[0] == NoFilter && ctx.filterTabsOrder[1] == tab;
  }

  /** Toggling the box on and off again, with nothing searched in between, leaves the shown list as
      it was, provided that list is what the cache and the current tab give. */
  method ToggleTwice(shop: ShopMenu, grid: Grid.ScreenGrid, ctx: SearchContext, cfg: ModConfig)
    requires ctx.Valid() && grid.Valid() && ctx.hasSearchBox && !ctx.selected
    requires ctx.forSaleAll.Some? ==>
               shop.forSale == TabView(cfg, ctx.forSaleAll.value, ctx.filterCurrent, ctx.filterTabs.Keys)
    modifies ctx, shop, grid
    ensures shop.forSale == old(shop.forSale) && !ctx.selected && ctx.searchText == ctx.placeholder
  {
    ctx.GamepadToggleSearch(shop, grid, cfg);
    ctx.GamepadToggleSearch(shop, grid, cfg);
  }

  /** After Reposition the shown list no longer matches the current tab: toggling the box on and off
      then replaces the tab's list with the whole cached stock. */
  method RepositionThenToggle(shop: ShopMenu, grid: Grid.ScreenGrid, ctx: SearchContext, cfg: ModConfig)
    returns (tab: TabId, shown: seq<Salable>, after: seq<Salable>)
    requires ctx.Valid() && grid.Valid() && |ctx.filterTabsOrder| >= 2 && ctx.hasSearchBox
    requires ctx.filterCurrent == NoFilter && ctx.forSaleAll.None? && !ctx.selected
    modifies ctx, shop, grid
    ensures tab != NoFilter && forall s :: s in shown <==> s in old(shop.forSale) && Accepts(cfg, tab, s)
    ensures after == old(shop.forSale)
  {
    ghost var stock := shop.forSale;
    tab, shown := RepositionKeepsFilter(shop, grid, ctx, cfg);
    ctx.GamepadToggleSearch(shop, grid, cfg);
    ctx.GamepadToggleSearch(shop, grid, cfg);
    after := shop.forSale;
  }

  /** Searching twice with nothing changed in between shows the same list. */
  method SearchTwice(shop: ShopMenu, grid: Grid.ScreenGrid, ctx: SearchContext, cfg: ModConfig)
    returns (first: seq<Salable>, second: seq<Salable>)
    requires ctx.Valid() && grid.Valid()
    modifies ctx, shop, grid
    ensures first == second
  {
    ctx.DoSearch(shop, grid, cfg);
    first := shop.forSale;
    ctx.DoSearch(shop, grid, cfg);
    second := shop.forSale;
  }

  /** A second Dispose changes nothing further. */
  method DisposeTwice(ctx: SearchContext)
    requires ctx.Valid()
    modifies ctx
    ensures ctx.forSaleAll.None? && ctx.filterTabsOrder == [] && ctx.filterTabs == map[]
  {
    ctx.Dispose();
    ghost var once := (ctx.selected, ctx.searchText, ctx.filterCurrent, ctx.searchBoxBounds);
    ctx.Dispose();
    assert (ctx.selected, ctx.searchText, ctx.filterCurrent, ctx.searchBoxBounds) == once;
  }

  /** A click on the second tab (at 90, -50 on a menu at the origin) selects it, returns to the
      top of the list and shows the entries it accepts. */
  method ClickSecondTab(cfg: ModConfig, stock: seq<Salable>, prices: map<Salable, StockInfo>)
    returns (tab: TabId, shown: seq<Salable>, index: int)
    requires RegistryOrder(cfg, stock, 0) != []
    ensures tab == RegistryOrder(cfg, stock, 0)[1] && tab != NoFilter
    ensures IsSubsequence(shown, stock) && forall s :: s in shown <==> s in stock && Accepts(cfg, tab, s)
    ensures index == 0
  {
    var shop, grid, ctx := FreshMenu(cfg, stock, prices);
    RegistryShape(cfg, stock, 0);
    ghost var order := ctx.filterTabsOrder;
    assert order[0] != order[1];
    ghost var tabs := ctx.filterTabs;
    assert order[1] in tabs && tabs[order[1]] == Rect(84, -56, 64, 64);
    assert tabs[order[1]].Contains(90, -50);
    assert !(ctx.hasSearchBox && ctx.searchBoxBounds.Contains(90, -50));
    ctx.OnLeftClickPrefix(shop, grid, cfg, 90, -50);
    tab := ctx.filterCurrent;
    shown := shop.forSale;
    index := shop.currentItemIndex;
    TabShown(cfg, stock, tab, ctx.filterTabs.Keys, shown);
  }

  /** The list a tab shows when nothing is typed: the stock entries it accepts, in stock order. */
  lemma TabShown(cfg: ModConfig, stock: seq<Salable>, tab: TabId, keys: set<TabId>, shown: seq<Salable>)
    requires tab != NoFilter && tab in keys && shown == Visible(cfg, stock, tab, keys, false, "")
    ensures IsSubsequence(shown, stock) && forall s :: s in shown <==> s in stock && Accepts(cfg, tab, s)
  {
    VisibleIsSubsequence(cfg, stock, tab, keys, false, "");
    forall s ensures s in shown <==> s in stock && Accepts(cfg, tab, s) {
      VisibleMembership(cfg, stock, tab, keys, false, "", s);
    }
  }
}
