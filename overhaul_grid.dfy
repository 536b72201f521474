/** The grid of the earlier ShopMenuOverhaul mod (ShopMenuOverhaul/Patches.cs): the same slot
    builder with the page height fixed at four rows, no remainder bookkeeping and unclamped arrow steps. */
module OverhaulGrid {
  import opened Host
  import opened Config
  import opened Arith
  import Grid

  /** Patches.ROW: the number of rows the grid's down links assume. */
  const Row := 4

  /** The per-screen column count of this variant. */
  class OverhaulScreen {
    var perRow: int

    /** The value Patch() stores before any shop opens. */
    constructor ()
      ensures perRow == 3
    {
      perRow := 3;
    }
  }

  /** The up link as written: only indices strictly above `perRow` link one row up. */
  function UpLink(idx: int, perRow: int, myID: int): int {
    if idx > perRow then myID - perRow else CustomSnapBehavior
  }

  function DownLink(idx: int, perRow: int, myID: int): int {
    if idx < perRow * (Row - 1) then myID + perRow else CustomSnapBehavior
  }

  function MakeSlot(row: Rect, idx: int, i: int, perRow: int): Slot
    requires perRow >= 1
  {
    var width := CsDiv(row.width, perRow);
    var myID := BaseId + idx;
    Slot(Rect(row.x + width * i, row.y, width, row.height), myID,
         UpLink(idx, perRow, myID), Grid.RightLink(i, perRow, myID),
         DownLink(idx, perRow, myID), Grid.LeftLink(i, myID))
  }

  function SlotFor(rows: seq<Rect>, perRow: int, idx: nat): Slot
    requires perRow >= 1 && idx < |rows| * perRow
  {
    DivBound(idx, perRow, |rows|);
    MakeSlot(rows[idx / perRow], idx, idx % perRow, perRow)
  }

  ghost predicate IsGridOf(slots: seq<Slot>, rows: seq<Rect>, perRow: int) {
    && perRow >= 1
    && |slots| == |rows| * perRow
    && forall k :: 0 <= k < |slots| ==> slots[k] == SlotFor(rows, perRow, k)
  }

  lemma SlotForAt(rows: seq<Rect>, perRow: int, r: nat, i: nat)
    requires perRow >= 1 && r < |rows| && i < perRow
    ensures r * perRow + i < |rows| * perRow
    ensures SlotFor(rows, perRow, r * perRow + i) == MakeSlot(rows[r], r * perRow + i, i, perRow)
  {
    RowColumn(r, i, perRow);
    MulMonotone(r + 1, |rows|, perRow);
  }

  /** MakeGridLikeSaleButtons of this variant: the same column choice, stored without a remainder. */
  method MakeGridLikeSaleButtons(shop: ShopMenu, screen: OverhaulScreen, cfg: ModConfig)
    modifies shop`forSaleButtons, screen
    ensures screen.perRow == Grid.ColumnCount(cfg, shop.itemPriceAndStock)
    ensures IsGridOf(shop.forSaleButtons, Grid.RowBounds(old(shop.forSaleButtons)), screen.perRow)
  {
    var perRowV := if Grid.AnyPriced(shop.itemPriceAndStock) then cfg.shopItemPerRow else cfg.dresserItemPerRow;
    perRowV := Grid.Clamp(perRowV, 1, 9);
    screen.perRow := perRowV;
    var newForSaleButtons := BuildSaleSlots(shop.forSaleButtons, perRowV);
    shop.forSaleButtons := newForSaleButtons;
  }

  /** One more slot, the next one of the grid, keeps the built prefix the grid's. */
  lemma ExtendGrid(built: seq<Slot>, slot: Slot, rows: seq<Rect>, perRow: int)
    requires perRow >= 1 && |built| < |rows| * perRow
    requires forall k :: 0 <= k < |built| ==> k < |rows| * perRow && built[k] == SlotFor(rows, perRow, k)
    requires slot == SlotFor(rows, perRow, |built|)
    ensures forall k :: 0 <= k < |built| + 1 ==>
              k < |rows| * perRow && (built + [slot])[k] == SlotFor(rows, perRow, k)
  {
  }

  method BuildSaleSlots(buttons: seq<Slot>, perRowV: int) returns (newForSaleButtons: seq<Slot>)
    requires perRowV >= 1
    ensures IsGridOf(newForSaleButtons, Grid.RowBounds(buttons), perRowV)
  {
    ghost var rows := Grid.RowBounds(buttons);
    ghost var total := |rows| * perRowV;
    newForSaleButtons := [];
    var idx := 0;
    var r := 0;
    while r < |buttons|
      invariant 0 <= r <= |buttons|
      invariant idx == r * perRowV && |newForSaleButtons| == idx && idx <= total
      invariant forall k :: 0 <= k < idx ==> k < total && newForSaleButtons[k] == SlotFor(rows, perRowV, k)
    {
      var saleBounds := buttons[r].bounds;
      var width := CsDiv(saleBounds.width, perRowV);
      var i := 0;
      MulMonotone(r + 1, |rows|, perRowV);
      while i < perRowV
        invariant 0 <= i <= perRowV
        invariant idx == r * perRowV + i && |newForSaleButtons| == idx
        invariant forall k :: 0 <= k < idx ==> k < total && newForSaleButtons[k] == SlotFor(rows, perRowV, k)
      {
        var newBounds := Rect(saleBounds.x + width * i, saleBounds.y, width, saleBounds.height);
        var myID := BaseId + idx;
        var slot := Slot(newBounds, myID, UpLink(idx, perRowV, myID), Grid.RightLink(i, perRowV, myID),
                         DownLink(idx, perRowV, myID), Grid.LeftLink(i, myID));
        assert slot == MakeSlot(saleBounds, idx, i, perRowV);
        SlotForAt(rows, perRowV, r, i);
        ExtendGrid(newForSaleButtons, slot, rows, perRowV);
        newForSaleButtons := newForSaleButtons + [slot];
        idx := idx + 1;
        i := i + 1;
      }
      r := r + 1;
    }
  }

  /** The down-arrow prefix of this variant: `perRow - 1` further, with no cap. */
  method DownArrowPressedPrefix(shop: ShopMenu, screen: OverhaulScreen)
    modifies shop`currentItemIndex
    ensures shop.currentItemIndex == old(shop.currentItemIndex) + screen.perRow - 1
  {
    shop.currentItemIndex := shop.currentItemIndex + (screen.perRow - 1);
  }

  /** The up-arrow prefix of this variant: `perRow - 1` back, with no correction at 0. */
  method UpArrowPressedPrefix(shop: ShopMenu, screen: OverhaulScreen)
    modifies shop`currentItemIndex
    ensures shop.currentItemIndex == old(shop.currentItemIndex) - (screen.perRow - 1)
  {
    shop.currentItemIndex := shop.currentItemIndex - (screen.perRow - 1);
  }

  /** The last-row bound `forSale.Count - 4` after this variant's transpiler: `forSale.Count - 4 * perRow`. */
  function LastRowIndex(forSaleCount: nat, perRow: int): int
  {
    forSaleCount - Row * perRow
  }

  // ---------------------------------------------------------------- relation to the later grid

  /** The later down-arrow step is this one capped at the last entry. */
  lemma DownArrowCapped(index: int, perRow: int, count: int)
    ensures Grid.DownArrowIndex(index, perRow, count) == Min(index + perRow - 1, count - 1)
  {
  }

  /** The later up-arrow step is this one, except that landing exactly on 0 gives 1. */
  lemma UpArrowCorrected(index: int, perRow: int)
    ensures index - (perRow - 1) != 0 ==> Grid.UpArrowIndex(index, perRow) == index - (perRow - 1)
    ensures index - (perRow - 1) == 0 ==> Grid.UpArrowIndex(index, perRow) == 1
  {
  }

  /** This variant's last-row bound keeps the count's column: it is a row boundary only when the
      count is; with four-row pages and a whole number of rows it is the later bound. */
  lemma LastRowIndexAgainstRemainder(perRow: int, count: nat)
    requires perRow >= 1
    ensures LastRowIndex(count, perRow) % perRow == count % perRow
    ensures ItemsPerPage == Row && count % perRow == 0 ==>
              LastRowIndex(count, perRow) == Grid.LastRowIndex(count, Grid.RowRemainder(perRow, count))
  {
    var q, m := count / perRow, count % perRow;
    assert count == q * perRow + m;
    assert LastRowIndex(count, perRow) == (q - Row) * perRow + m;
    DivModUnique(LastRowIndex(count, perRow), perRow, q - Row, m);
  }

  /** With four-row pages both builders make the same slot everywhere except at index `perRow`,
      the first slot of the second row, whose up link this variant leaves to the custom snap. */
  lemma VariantsAgree(rows: seq<Rect>, perRow: int, k: nat)
    requires ItemsPerPage == Row && perRow >= 1 && k < |rows| * perRow
    ensures k != perRow ==> SlotFor(rows, perRow, k) == Grid.SlotFor(rows, perRow, k)
    ensures k == perRow ==> SlotFor(rows, perRow, k) == Grid.SlotFor(rows, perRow, k).(up := CustomSnapBehavior)
  {
  }

  /** Slot 0 links down to slot `perRow`, but slot `perRow` does not link back up to slot 0. */
  lemma FirstColumnUpLinkIsNotAnswered(slots: seq<Slot>, rows: seq<Rect>, perRow: int)
    requires IsGridOf(slots, rows, perRow) && |rows| >= 2 && SentinelsOutside(|slots|)
    ensures perRow < |slots|
    ensures slots[0].down == slots[perRow].myID
    ensures slots[perRow].up == CustomSnapBehavior && slots[perRow].up != slots[0].myID
  {
    SlotForAt(rows, perRow, 0, 0);
    SlotForAt(rows, perRow, 1, 0);
    MulAtLeast(Row - 1, perRow);
  }
}
