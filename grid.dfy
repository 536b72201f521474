/** Row arithmetic, scroll mapping, arrow steps and the grid slot builder of the compact shop menu
    (CompactSearchableShopMenu/Patches.cs). */
module Grid {
  import opened Host
  import opened Config
  import opened Arith

  // ---------------------------------------------------------------- row remainder

  /** SetPerRow's `perRowR`: how many entries the last page holds so that only its final row is short. */
  function RowRemainder(perRow: int, forSaleCount: nat): int
    requires perRow >= 1
  {
    var remainder := forSaleCount % perRow;
    if remainder == 0 then perRow * ItemsPerPage
    else remainder + (ItemsPerPage - 1) * perRow
  }

  /** The remainder lies above `perRow * (itemsPerPage - 1)` and at most at a full page, and the
      index it leaves, `count - perRowR`, is a row boundary. */
  lemma RemainderShape(perRow: int, count: nat)
    requires perRow >= 1
    ensures perRow * (ItemsPerPage - 1) < RowRemainder(perRow, count) <= perRow * ItemsPerPage
    ensures 1 <= RowRemainder(perRow, count)
    ensures (count - RowRemainder(perRow, count)) % perRow == 0
  {
    var q, m := count / perRow, count % perRow;
    assert count == q * perRow + m;
    assert perRow * ItemsPerPage == perRow * (ItemsPerPage - 1) + perRow;
    MulAtLeast(ItemsPerPage, perRow);
    if m == 0 {
      assert count - perRow * ItemsPerPage == (q - ItemsPerPage) * perRow;
      DivModUnique(count - perRow * ItemsPerPage, perRow, q - ItemsPerPage, 0);
    } else {
      assert count - (m + (ItemsPerPage - 1) * perRow) == (q - ItemsPerPage + 1) * perRow;
      DivModUnique(count - (m + (ItemsPerPage - 1) * perRow), perRow, q - ItemsPerPage + 1, 0);
    }
  }

  /** These two properties determine the remainder: it is the only value in
      (perRow * (itemsPerPage - 1), perRow * itemsPerPage] that leaves a row boundary. */
  lemma RemainderUnique(perRow: int, count: nat, r: int)
    requires perRow >= 1
    requires perRow * (ItemsPerPage - 1) < r <= perRow * ItemsPerPage
    requires (count - r) % perRow == 0
    ensures r == RowRemainder(perRow, count)
  {
    var rr := RowRemainder(perRow, count);
    RemainderShape(perRow, count);
    assert perRow * ItemsPerPage == perRow * (ItemsPerPage - 1) + perRow;
    var a, b := (count - r) / perRow, (count - rr) / perRow;
    assert count - r == a * perRow;
    assert count - rr == b * perRow;
    assert rr - r == (a - b) * perRow;
    DivModUnique(rr - r, perRow, a - b, 0);
    SameResidueInWindow(rr, r, perRow);
  }

  /** Ten entries, three columns, four rows per page: the remainder is 1 + 3 * 3 = 10. */
  lemma RemainderExample()
    requires ItemsPerPage == 4
    ensures RowRemainder(3, 10) == 10
  {
  }

  /** The per-screen values `perRow` and `perRowR`. */
  class ScreenGrid {
    var perRow: int
    var perRowR: int

    ghost predicate Valid() reads this { perRow >= 1 }

    /** The values Patch() stores before any shop opens. */
    constructor ()
      ensures Valid() && perRow == 3 && perRowR == 4
    {
      perRow, perRowR := 3, 4;
    }

    method SetPerRow(perRowV: int, forSaleCount: nat)
      requires perRowV >= 1
      modifies this
      ensures Valid()
      ensures perRow == perRowV && perRowR == RowRemainder(perRowV, forSaleCount)
    {
      perRow := perRowV;
      var remainder := forSaleCount % perRowV;
      if remainder == 0 {
        remainder := perRowV * ItemsPerPage;
      } else {
        remainder := remainder + (ItemsPerPage - 1) * perRowV;
      }
      perRowR := remainder;
    }

    /** The prefix on setScrollBarToCurrentIndex: recompute the remainder for the current list.
        (The host method itself only moves the scroll bar thumb.) */
    method SyncScrollBar(shop: ShopMenu)
      requires Valid()
      modifies this
      ensures Valid() && perRow == old(perRow)
      ensures perRowR == RowRemainder(perRow, |shop.forSale|)
    {
      SetPerRow(perRow, |shop.forSale|);
    }
  }

  // ---------------------------------------------------------------- scroll bar drag

  /** MathF.Ceiling(a / b) for a positive divisor. */
  function CeilDiv(a: int, b: int): (c: int)
    requires b >= 1
    ensures (c - 1) * b < a <= c * b
  {
    var q := (-a) / b;
    assert q * b <= -a < q * b + b;
    -q
  }

  /** The C# cast `(int)x` of a float: truncation toward zero. */
  function Truncate(x: real): (n: int)
    ensures x >= 0.0 ==> n as real <= x < n as real + 1.0
    ensures x < 0.0 ==> n as real - 1.0 < x <= n as real
  {
    if x >= 0.0 then x.Floor else -((-x).Floor)
  }

  /** LeftClickHeldIndex: the item index for a scroll thumb dragged to `y`. */
  function LeftClickHeldIndex(originalValue: int, y: int, scrollBarRunner: Rect, forSaleCount: nat,
                              perRow: int, perRowR: int): (r: int)
    requires perRow >= 1
    requires perRow != 1 ==> scrollBarRunner.height > 0
    ensures perRow == 1 ==> r == originalValue
    ensures perRow != 1 ==> 0 <= r <= Max(0, forSaleCount - perRowR)
  {
    if perRow == 1 then originalValue
    else ClampToLastRow(forSaleCount - perRowR, HeldRow(y, scrollBarRunner, forSaleCount, perRow, perRowR), perRow)
  }

  /** The row the thumb was dragged to: `(int)(ceil((count - perRowR) / perRow) * percent)`. */
  function HeldRow(y: int, scrollBarRunner: Rect, forSaleCount: nat, perRow: int, perRowR: int): int
    requires perRow >= 1 && scrollBarRunner.height > 0
  {
    var percent := (y - scrollBarRunner.y) as real / scrollBarRunner.height as real;
    Truncate(CeilDiv(forSaleCount - perRowR, perRow) as real * percent)
  }

  /** Row `t` of the drag, as an index, kept within 0 .. max(0, lastRow). */
  function ClampToLastRow(lastRow: int, t: int, perRow: int): int {
    Min(Max(0, lastRow), Max(0, t * perRow))
  }

  lemma ClampToLastRowAligned(lastRow: int, t: int, perRow: int)
    requires perRow >= 1 && lastRow % perRow == 0
    ensures ClampToLastRow(lastRow, t, perRow) % perRow == 0
  {
    RowColumn(t, 0, perRow);
  }

  /** When the remainder was computed for the same list, a dragged thumb always lands on a row boundary. */
  lemma HeldIndexOnRowBoundary(originalValue: int, y: int, runner: Rect, count: nat, perRow: int)
    requires perRow >= 2 && runner.height > 0
    ensures LeftClickHeldIndex(originalValue, y, runner, count, perRow, RowRemainder(perRow, count)) % perRow == 0
  {
    var rr := RowRemainder(perRow, count);
    RemainderShape(perRow, count);
    ClampToLastRowAligned(count - rr, HeldRow(y, runner, count, perRow, rr), perRow);
  }

  /** The ends of the runner map to the first index and to the last row-aligned index. */
  lemma HeldIndexEnds(originalValue: int, runner: Rect, count: nat, perRow: int, perRowR: int)
    requires perRow >= 2 && runner.height > 0
    ensures LeftClickHeldIndex(originalValue, runner.y, runner, count, perRow, perRowR) == 0
    ensures LeftClickHeldIndex(originalValue, runner.y + runner.height, runner, count, perRow, perRowR)
            == Max(0, count - perRowR)
  {
    var rows := CeilDiv(count - perRowR, perRow);
    assert (runner.y + runner.height - runner.y) as real / runner.height as real == 1.0;
    assert Truncate(rows as real * 1.0) == rows;
    assert HeldRow(runner.y + runner.height, runner, count, perRow, perRowR) == rows;
    assert (runner.y - runner.y) as real / runner.height as real == 0.0;
    assert Truncate(rows as real * 0.0) == 0;
    assert HeldRow(runner.y, runner, count, perRow, perRowR) == 0;
    if count - perRowR > 0 {
      assert rows * perRow >= count - perRowR;
    }
  }

  /** The host's last-row bound `forSale.Count - 4`, with `perRowR` in place of 4. */
  function LastRowIndex(forSaleCount: nat, perRowR: int): int {
    forSaleCount - perRowR
  }

  /** With the remainder in place of 4, the last page starts on a row boundary and shows
      more than itemsPerPage - 1 full rows' worth of entries, at most a full page. */
  lemma LastPageIsFull(perRow: int, count: nat)
    requires perRow >= 1
    ensures LastRowIndex(count, RowRemainder(perRow, count)) % perRow == 0
    ensures perRow * (ItemsPerPage - 1) < count - LastRowIndex(count, RowRemainder(perRow, count)) <= perRow * ItemsPerPage
  {
    RemainderShape(perRow, count);
  }

  // ---------------------------------------------------------------- arrow prefixes

  /** currentItemIndex after the down-arrow prefix: `perRow - 1` further, capped at the last entry. */
  function DownArrowIndex(index: int, perRow: int, forSaleCount: int): (r: int)
    ensures r <= forSaleCount - 1 && r <= index + perRow - 1
    ensures r == forSaleCount - 1 || r == index + perRow - 1
  {
    var i := index + perRow - 1;
    if i >= forSaleCount - 1 then forSaleCount - 1 else i
  }

  /** currentItemIndex after the up-arrow prefix: `perRow - 1` back; exactly 0 becomes 1,
      a negative value is left negative. */
  function UpArrowIndex(index: int, perRow: int): (r: int)
    ensures r != 0
    ensures index - (perRow - 1) == 0 ==> r == 1
    ensures index - (perRow - 1) != 0 ==> r == index - (perRow - 1)
    ensures index - (perRow - 1) < 0 ==> r < 0
  {
    var i := index - (perRow - 1);
    if i == 0 then 1 else i
  }

  method DownArrowPressedPrefix(shop: ShopMenu, grid: ScreenGrid)
    modifies shop`currentItemIndex
    ensures shop.currentItemIndex == DownArrowIndex(old(shop.currentItemIndex), grid.perRow, |shop.forSale|)
  {
    shop.currentItemIndex := shop.currentItemIndex + (grid.perRow - 1);
    if shop.currentItemIndex >= |shop.forSale| - 1 {
      shop.currentItemIndex := |shop.forSale| - 1;
    }
  }

  method UpArrowPressedPrefix(shop: ShopMenu, grid: ScreenGrid)
    modifies shop`currentItemIndex
    ensures shop.currentItemIndex == UpArrowIndex(old(shop.currentItemIndex), grid.perRow)
  {
    shop.currentItemIndex := shop.currentItemIndex - (grid.perRow - 1);
    if shop.currentItemIndex == 0 {
      shop.currentItemIndex := 1;
    }
  }

  // ---------------------------------------------------------------- column count

  /** A stock entry whose price or trade cost has to be drawn. */
  predicate ShowsPrice(info: StockInfo) {
    info.price > 0 || (info.tradeItemCount.Some? && info.tradeItemCount.value > 0)
  }

  predicate AnyPriced(stock: map<Salable, StockInfo>) {
    exists s :: s in stock && ShowsPrice(stock[s])
  }

  /** Math.Clamp. */
  function Clamp(v: int, lo: int, hi: int): (r: int)
    requires lo <= hi
    ensures lo <= r <= hi
    ensures lo <= v <= hi ==> r == v
    ensures v < lo ==> r == lo
    ensures v > hi ==> r == hi
  {
    if v < lo then lo else if v > hi then hi else v
  }

  /** The column count: the priced-shop setting when some entry shows a price or trade cost,
      the dresser setting otherwise, clamped to 1..9. */
  function ColumnCount(cfg: ModConfig, stock: map<Salable, StockInfo>): (n: int)
    ensures 1 <= n <= 9
    ensures AnyPriced(stock) && 1 <= cfg.shopItemPerRow <= 9 ==> n == cfg.shopItemPerRow
    ensures !AnyPriced(stock) && 1 <= cfg.dresserItemPerRow <= 9 ==> n == cfg.dresserItemPerRow
    ensures var v := if AnyPriced(stock) then cfg.shopItemPerRow else cfg.dresserItemPerRow;
      (v < 1 ==> n == 1) && (v > 9 ==> n == 9)
  {
    Clamp(if AnyPriced(stock) then cfg.shopItemPerRow else cfg.dresserItemPerRow, 1, 9)
  }

  // ---------------------------------------------------------------- slots and neighbours

  function UpLink(idx: int, perRow: int, myID: int): int {
    if idx < perRow then CustomSnapBehavior else myID - perRow
  }

  function RightLink(i: int, perRow: int, myID: int): int {
    if i == perRow - 1 then RegionUpArrow else myID + 1
  }

  function DownLink(idx: int, perRow: int, myID: int): int {
    if idx < perRow * (ItemsPerPage - 1) then myID + perRow else CustomSnapBehavior
  }

  function LeftLink(i: int, myID: int): int {
    if i == 0 then SnapAutomatic else myID - 1
  }

  /** The slot built for sequential index `idx`, column `i`, from the full-width row rectangle `row`. */
  function MakeSlot(row: Rect, idx: int, i: int, perRow: int): Slot
    requires perRow >= 1
  {
    var width := CsDiv(row.width, perRow);
    var myID := BaseId + idx;
    Slot(Rect(row.x + width * i, row.y, width, row.height), myID,
         UpLink(idx, perRow, myID), RightLink(i, perRow, myID),
         DownLink(idx, perRow, myID), LeftLink(i, myID))
  }

  /** The old buttons' rectangles, in order. */
  function RowBounds(buttons: seq<Slot>): seq<Rect>
  {
    seq(|buttons|, k requires 0 <= k < |buttons| => buttons[k].bounds)
  }

  /** Slot `idx` of the grid over `rows`: row `idx / perRow`, column `idx % perRow`. */
  function SlotFor(rows: seq<Rect>, perRow: int, idx: nat): Slot
    requires perRow >= 1 && idx < |rows| * perRow
  {
    DivBound(idx, perRow, |rows|);
    MakeSlot(rows[idx / perRow], idx, idx % perRow, perRow)
  }

  /** `slots` is the grid MakeGridLikeSaleButtons builds from `rows` with `perRow` columns. */
  ghost predicate IsGridOf(slots: seq<Slot>, rows: seq<Rect>, perRow: int) {
    && perRow >= 1
    && |slots| == |rows| * perRow
    && forall k :: 0 <= k < |slots| ==> slots[k] == SlotFor(rows, perRow, k)
  }

  /** MakeGridLikeSaleButtons: choose the column count, store it with its remainder, and replace
      the one-per-row sale buttons by `perRow` slots per row. */
  method MakeGridLikeSaleButtons(shop: ShopMenu, grid: ScreenGrid, cfg: ModConfig)
    modifies shop`forSaleButtons, grid
    ensures grid.Valid() && grid.perRow == ColumnCount(cfg, shop.itemPriceAndStock)
    ensures grid.perRowR == RowRemainder(grid.perRow, |shop.forSale|)
    ensures IsGridOf(shop.forSaleButtons, RowBounds(old(shop.forSaleButtons)), grid.perRow)
  {
    var perRowV := if AnyPriced(shop.itemPriceAndStock) then cfg.shopItemPerRow else cfg.dresserItemPerRow;
    perRowV := Clamp(perRowV, 1, 9);
    grid.SetPerRow(perRowV, |shop.forSale|);
    var newForSaleButtons := BuildSaleSlots(shop.forSaleButtons, perRowV);
    shop.forSaleButtons := newForSaleButtons;
  }

  /** Slot `r * perRow + i` is the one built from row `r`, column `i`. */
  lemma SlotForAt(rows: seq<Rect>, perRow: int, r: nat, i: nat)
    requires perRow >= 1 && r < |rows| && i < perRow
    ensures r * perRow + i < |rows| * perRow
    ensures SlotFor(rows, perRow, r * perRow + i) == MakeSlot(rows[r], r * perRow + i, i, perRow)
  {
    RowColumn(r, i, perRow);
    MulMonotone(r + 1, |rows|, perRow);
  }

  /** One more slot, the next one of the grid, keeps the built prefix the grid's. */
  lemma ExtendGrid(built: seq<Slot>, slot: Slot, rows: seq<Rect>, perRow: int)
    requires perRow >= 1 && |built| < |rows| * perRow
    requires forall k :: 0 <= k < |built| ==> k < |rows| * perRow && built[k] == SlotFor(rows, perRow, k)
    requires slot == SlotFor(rows, perRow, |built|)
    ensures forall k :: 0 <= k < |built| + 1 ==>
              k < |rows| * perRow && (built + [slot])[k] == SlotFor(rows, perRow, k)
  {
  }

  /** The nested loop of MakeGridLikeSaleButtons: `perRow` slots for each existing sale button. */
  method BuildSaleSlots(buttons: seq<Slot>, perRowV: int) returns (newForSaleButtons: seq<Slot>)
    requires perRowV >= 1
    ensures IsGridOf(newForSaleButtons, RowBounds(buttons), perRowV)
  {
    ghost var rows := RowBounds(buttons);
    ghost var total := |rows| * perRowV;
    newForSaleButtons := [];
    var idx := 0;
    var r := 0;
    while r < |buttons|
      invariant 0 <= r <= |buttons|
      invariant idx == r * perRowV && |newForSaleButtons| == idx && idx <= total
      invariant forall k :: 0 <= k < idx ==> k < total && newForSaleButtons[k] == SlotFor(rows, perRowV, k)
    {
      var saleBounds := buttons[r].bounds;
      var width := CsDiv(saleBounds.width, perRowV);
      var i := 0;
      MulMonotone(r + 1, |rows|, perRowV);
      while i < perRowV
        invariant 0 <= i <= perRowV
        invariant idx == r * perRowV + i && |newForSaleButtons| == idx
        invariant forall k :: 0 <= k < idx ==> k < total && newForSaleButtons[k] == SlotFor(rows, perRowV, k)
      {
        var newBounds := Rect(saleBounds.x + width * i, saleBounds.y, width, saleBounds.height);
        var myID := BaseId + idx;
        var slot := Slot(newBounds, myID, UpLink(idx, perRowV, myID), RightLink(i, perRowV, myID),
                         DownLink(idx, perRowV, myID), LeftLink(i, myID));
        assert slot == MakeSlot(saleBounds, idx, i, perRowV);
        SlotForAt(rows, perRowV, r, i);
        ExtendGrid(newForSaleButtons, slot, rows, perRowV);
        newForSaleButtons := newForSaleButtons + [slot];
        idx := idx + 1;
        i := i + 1;
      }
      r := r + 1;
    }
  }

  // ---------------------------------------------------------------- properties of the grid

  /** Slot `k` is numbered `BaseId + k`, so slot ids are distinct and consecutive. */
  lemma GridIds(slots: seq<Slot>, rows: seq<Rect>, perRow: int, k: int)
    requires IsGridOf(slots, rows, perRow) && 0 <= k < |slots|
    ensures slots[k].myID == BaseId + k
  {
  }

  /** With one column nothing is split: every slot keeps its row's rectangle. */
  lemma SingleColumnKeepsRows(slots: seq<Slot>, rows: seq<Rect>, k: int)
    requires IsGridOf(slots, rows, 1) && 0 <= k < |slots|
    ensures |slots| == |rows| && slots[k].bounds == rows[k]
  {
    assert slots[k] == SlotFor(rows, 1, k);
  }

  /** Column `i` of a row `x .. x + width` cut into `perRow` equal parts lies inside the row. */
  lemma ColumnInRow(x: int, width: int, perRow: int, i: nat)
    requires width >= 0 && perRow >= 1 && i < perRow
    ensures var w := CsDiv(width, perRow); x <= x + w * i && x + w * i + w <= x + width
  {
    var w := CsDiv(width, perRow);
    DivNonNegative(width, perRow);
    MulMonotoneLeft(w, i + 1, perRow);
    MulMonotoneLeft(w, 0, i);
    assert w * (i + 1) == w * i + w;
  }

  /** In one row the slots lie side by side and inside the row: column `i` starts where column
      `i - 1` ends, and the last one ends at or before the row's right edge. */
  lemma RowTiles(slots: seq<Slot>, rows: seq<Rect>, perRow: int, r: nat, i: nat)
    requires IsGridOf(slots, rows, perRow) && r < |rows| && i < perRow && rows[r].width >= 0
    ensures r * perRow + i < |slots|
    ensures slots[r * perRow + i].bounds.y == rows[r].y
    ensures slots[r * perRow + i].bounds.height == rows[r].height
    ensures rows[r].x <= slots[r * perRow + i].bounds.x
    ensures slots[r * perRow + i].bounds.x + slots[r * perRow + i].bounds.width <= rows[r].x + rows[r].width
    ensures i > 0 ==> slots[r * perRow + i].bounds.x
                      == slots[r * perRow + i - 1].bounds.x + slots[r * perRow + i - 1].bounds.width
  {
    var k := r * perRow + i;
    SlotForAt(rows, perRow, r, i);
    assert slots[k] == MakeSlot(rows[r], k, i, perRow);
    ColumnInRow(rows[r].x, rows[r].width, perRow, i);
    if i > 0 {
      SlotForAt(rows, perRow, r, i - 1);
      assert slots[k - 1] == MakeSlot(rows[r], k - 1, i - 1, perRow);
      var w := CsDiv(rows[r].width, perRow);
      assert w * i == w * (i - 1) + w;
    }
  }

  /** Slot `k` sits in row `k / perRow`, column `k % perRow`, and the row's slots are `perRow` consecutive indices. */
  lemma SlotPosition(slots: seq<Slot>, rows: seq<Rect>, perRow: int, k: nat)
    requires IsGridOf(slots, rows, perRow) && k < |slots|
    ensures k / perRow < |rows| && k - k % perRow + perRow <= |slots|
    ensures slots[k] == MakeSlot(rows[k / perRow], k, k % perRow, perRow)
  {
    DivBound(k, perRow, |rows|);
    assert k == (k / perRow) * perRow + k % perRow;
    MulMonotone(k / perRow + 1, |rows|, perRow);
  }

  /** Right and left links within a row answer each other. */
  lemma LeftRightMutual(slots: seq<Slot>, rows: seq<Rect>, perRow: int, k: nat)
    requires IsGridOf(slots, rows, perRow) && k < |slots| && k % perRow != perRow - 1
    ensures k + 1 < |slots|
    ensures slots[k].right == slots[k + 1].myID && slots[k + 1].left == slots[k].myID
  {
    SlotPosition(slots, rows, perRow, k);
    RowColumn(k / perRow, k % perRow + 1, perRow);
    assert k + 1 == (k / perRow) * perRow + (k % perRow + 1);
    SlotPosition(slots, rows, perRow, k + 1);
  }

  /** Down links of the first itemsPerPage - 1 rows and the up links they point at answer each other. */
  lemma DownUpMutual(slots: seq<Slot>, rows: seq<Rect>, perRow: int, k: nat)
    requires IsGridOf(slots, rows, perRow) && k < perRow * (ItemsPerPage - 1) && k + perRow < |slots|
    ensures slots[k].down == slots[k + perRow].myID && slots[k + perRow].up == slots[k].myID
  {
    SlotPosition(slots, rows, perRow, k);
    SlotPosition(slots, rows, perRow, k + perRow);
  }

  /** On a grid of at most one page of rows every up link is answered by the down link it points at. */
  lemma UpDownMutual(slots: seq<Slot>, rows: seq<Rect>, perRow: int, k: nat)
    requires IsGridOf(slots, rows, perRow) && |rows| <= ItemsPerPage && perRow <= k < |slots|
    ensures slots[k].up == slots[k - perRow].myID && slots[k - perRow].down == slots[k].myID
  {
    MulMonotone(|rows|, ItemsPerPage, perRow);
    assert perRow * ItemsPerPage == perRow * (ItemsPerPage - 1) + perRow;
    SlotPosition(slots, rows, perRow, k);
    SlotPosition(slots, rows, perRow, k - perRow);
  }

  /** With sentinels that are no slot's id, a link leaves the grid exactly at its edge: first row
      up, last column right, first column left, and, when there is a full page of rows, below row
      itemsPerPage - 1 down. */
  lemma EdgeLinks(slots: seq<Slot>, rows: seq<Rect>, perRow: int, k: nat)
    requires IsGridOf(slots, rows, perRow) && SentinelsOutside(|slots|) && k < |slots|
    ensures slots[k].up == CustomSnapBehavior <==> k < perRow
    ensures slots[k].right == RegionUpArrow <==> k % perRow == perRow - 1
    ensures slots[k].left == SnapAutomatic <==> k % perRow == 0
    ensures |rows| >= ItemsPerPage ==> (slots[k].down == CustomSnapBehavior <==> k >= perRow * (ItemsPerPage - 1))
  {
    SlotPosition(slots, rows, perRow, k);
    if |rows| >= ItemsPerPage {
      MulMonotone(ItemsPerPage, |rows|, perRow);
      assert perRow * ItemsPerPage == perRow * (ItemsPerPage - 1) + perRow;
    }
  }
}
