/** The batch-buy quantity of the compact shop menu (CompactSearchableShopMenu/Patches.cs):
    how many units one Shift-click buys, capped by stock, money and held trade items. */
module StackCount {
  import opened Host
  import opened Config
  import opened Arith

  /** The keys of Game1.oldKBState that the quantity depends on. */
  datatype KeyboardState = KeyboardState(leftShift: bool, leftControl: bool, d1: bool)

  /** The game state the quantity reads: the keyboard, Qi gems, golden walnuts, the count of each
      item id in the inventory (Items.CountId) and the shop's currency amount for the player. */
  datatype Game = Game(
    oldKBState: KeyboardState,
    qiGems: int,
    goldenWalnuts: int,
    itemCounts: map<string, int>,
    currency: int)
  {
    /** Items.CountId: an id the inventory does not hold counts 0. */
    function CountId(id: string): int {
      if id in itemCounts then itemCounts[id] else 0
    }
  }

  const QiGemId := "(O)858"
  const GoldenWalnutId := "(O)73"

  /** How many of the trade item the player holds: Qi gems and golden walnuts are counters, any
      other trade item is counted in the inventory. */
  function TradeItemsHeld(g: Game, tradeItem: string): int
  {
    if tradeItem == QiGemId then g.qiGems
    else if tradeItem == GoldenWalnutId then g.goldenWalnuts
    else g.CountId(tradeItem)
  }

  /** A trade cost that is present and positive. */
  predicate HasTradeCost(info: StockInfo) {
    info.tradeItemCount.Some? && info.tradeItemCount.value > 0
  }

  /** ApplyTradeItemStackCountCap: with a positive trade cost, at most as many as the held trade
      items pay for (C# division); otherwise the count as given. */
  function ApplyTradeItemStackCountCap(buyCount: int, info: StockInfo, g: Game): (r: int)
    ensures r <= buyCount
    ensures !HasTradeCost(info) ==> r == buyCount
    ensures HasTradeCost(info) ==>
              var cap := CsDiv(TradeItemsHeld(g, info.tradeItem), info.tradeItemCount.value);
              r <= cap && (r == buyCount || r == cap)
  {
    if HasTradeCost(info) then
      Min(buyCount, CsDiv(TradeItemsHeld(g, info.tradeItem), info.tradeItemCount.value))
    else buyCount
  }

  /** The batch size before any cap: 5 with Shift, 25 with Shift+Ctrl, 999 with Shift+Ctrl+1;
      the configured values replace these once the stack-count patch applied. */
  function RequestedCount(kb: KeyboardState, cfg: ModConfig, stackCountPatched: bool): int
  {
    var buyCount := if stackCountPatched then cfg.stackCount5 else 5;
    if kb.leftControl then
      (if kb.d1 then (if stackCountPatched then cfg.stackCount999 else 999)
       else (if stackCountPatched then cfg.stackCount25 else 25))
    else buyCount
  }

  /** The money cap: how many units the currency pays for, when the entry has a price. */
  function MoneyCap(info: StockInfo, g: Game): int
    requires info.price > 0
  {
    CsDiv(g.currency, info.price)
  }

  /** GetBuyStackCount: without Shift one unit; with Shift the requested batch (1 if it is below 1),
      otherwise capped by stock, by money when priced and by held trade items when there is a trade cost. */
  function GetBuyStackCount(g: Game, cfg: ModConfig, stackCountPatched: bool, info: StockInfo): (r: int)
    ensures !g.oldKBState.leftShift ==> r == 1
    ensures g.oldKBState.leftShift && RequestedCount(g.oldKBState, cfg, stackCountPatched) < 1 ==> r == 1
    ensures g.oldKBState.leftShift && RequestedCount(g.oldKBState, cfg, stackCountPatched) >= 1 ==>
              && r <= RequestedCount(g.oldKBState, cfg, stackCountPatched)
              && r <= info.stock
              && (info.price > 0 ==> r <= MoneyCap(info, g))
              && (HasTradeCost(info) ==> r <= CsDiv(TradeItemsHeld(g, info.tradeItem), info.tradeItemCount.value))
    ensures g.oldKBState.leftShift && RequestedCount(g.oldKBState, cfg, stackCountPatched) >= 1 ==>
              || r == RequestedCount(g.oldKBState, cfg, stackCountPatched)
              || r == info.stock
              || (info.price > 0 && r == MoneyCap(info, g))
              || (HasTradeCost(info) && r == CsDiv(TradeItemsHeld(g, info.tradeItem), info.tradeItemCount.value))
  {
    if !g.oldKBState.leftShift then 1
    else
      var buyCount := RequestedCount(g.oldKBState, cfg, stackCountPatched);
      if buyCount < 1 then 1
      else
        var byStock := Min(buyCount, info.stock);
        var byMoney := if info.price > 0 then Min(byStock, CsDiv(g.currency, info.price)) else byStock;
        ApplyTradeItemStackCountCap(byMoney, info, g)
  }

  /** ShopMenu_receiveLeftClick_GetMaxBuyStack: the host's stack for entry `forSaleIdx`, capped by
      the entry's trade cost. The list index and the dictionary lookup throw when out of range or
      missing; that is None here. */
  function GetMaxBuyStack(stack: int, shop: ShopMenu, forSaleIdx: int, g: Game): (r: Option<int>)
    reads shop
    ensures r.Some? <==> 0 <= forSaleIdx < |shop.forSale| && shop.forSale[forSaleIdx] in shop.itemPriceAndStock
    ensures r.Some? ==> r.value <= stack
    ensures r.Some? ==> r.value == ApplyTradeItemStackCountCap(stack, shop.itemPriceAndStock[shop.forSale[forSaleIdx]], g)
  {
    if 0 <= forSaleIdx < |shop.forSale| && shop.forSale[forSaleIdx] in shop.itemPriceAndStock then
      Some(ApplyTradeItemStackCountCap(stack, shop.itemPriceAndStock[shop.forSale[forSaleIdx]], g))
    else None
  }

  // ---------------------------------------------------------------- what the caps guarantee

  /** A count `n` that `p` units each may take from `c` satisfies `n <= c / p`. */
  lemma AffordableBelowQuotient(n: int, p: int, c: int)
    requires p >= 1 && n * p <= c
    ensures n <= c / p
  {
    var q := c / p;
    assert c == q * p + c % p;
    if n > q {
      assert n * p == (n - q - 1) * p + q * p + p;
      MulMonotone(0, n - q - 1, p);
    }
  }

  /** A count at most `c / p` costs at most `c`. */
  lemma QuotientIsAffordable(n: int, p: int, c: int)
    requires p >= 1 && c >= 0 && n <= c / p
    ensures n * p <= c
  {
    DivNonNegative(c, p);
    if n >= 0 {
      MulMonotone(n, c / p, p);
    } else {
      MulMonotone(0, -n, p);
      assert n * p == -((-n) * p);
    }
  }

  /** With non-negative money and trade items, the batch is affordable: its price is covered by the
      currency and its trade cost by the held trade items, and it does not exceed the stock. */
  lemma BatchIsAffordable(g: Game, cfg: ModConfig, patched: bool, info: StockInfo)
    requires g.oldKBState.leftShift && RequestedCount(g.oldKBState, cfg, patched) >= 1
    requires g.currency >= 0 && TradeItemsHeld(g, info.tradeItem) >= 0
    ensures var r := GetBuyStackCount(g, cfg, patched, info);
            && r <= info.stock
            && (info.price > 0 ==> r * info.price <= g.currency)
            && (HasTradeCost(info) ==> r * info.tradeItemCount.value <= TradeItemsHeld(g, info.tradeItem))
  {
    var r := GetBuyStackCount(g, cfg, patched, info);
    if info.price > 0 {
      QuotientIsAffordable(r, info.price, g.currency);
    }
    if HasTradeCost(info) {
      QuotientIsAffordable(r, info.tradeItemCount.value, TradeItemsHeld(g, info.tradeItem));
    }
  }

  /** The batch is the largest one within every cap: any count no larger than the request and the
      stock that the money and the trade items pay for is not more than it. */
  lemma BatchIsLargest(g: Game, cfg: ModConfig, patched: bool, info: StockInfo, n: int)
    requires g.oldKBState.leftShift && RequestedCount(g.oldKBState, cfg, patched) >= 1
    requires g.currency >= 0 && TradeItemsHeld(g, info.tradeItem) >= 0
    requires n <= RequestedCount(g.oldKBState, cfg, patched) && n <= info.stock
    requires info.price > 0 ==> n * info.price <= g.currency
    requires HasTradeCost(info) ==> n * info.tradeItemCount.value <= TradeItemsHeld(g, info.tradeItem)
    ensures n <= GetBuyStackCount(g, cfg, patched, info)
  {
    if info.price > 0 {
      AffordableBelowQuotient(n, info.price, g.currency);
    }
    if HasTradeCost(info) {
      AffordableBelowQuotient(n, info.tradeItemCount.value, TradeItemsHeld(g, info.tradeItem));
    }
  }

  /** The batch can be 0 (or below): one unit in stock, a price of 10 and 5 in money give 0. */
  lemma BatchCanBeZero(cfg: ModConfig)
    requires cfg.stackCount5 >= 1
    ensures GetBuyStackCount(Game(KeyboardState(true, false, false), 0, 0, map[], 5), cfg, true,
                             StockInfo(10, 1, "", None)) == 0
  {
  }
}
