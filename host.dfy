/** The parts of the game's shop menu that the catalog view controller reads and writes.
    Everything here belongs to the host; the controller only reorders and filters references. */
module Host {

  datatype Option<T> = None | Some(value: T)

  /** Integer division as C# does it: truncation toward zero (Dafny's `/` is Euclidean). */
  function CsDiv(a: int, b: int): (q: int)
    requires b != 0
    ensures b > 0 && a >= 0 ==> q == a / b
    ensures a >= 0 ==> 0 <= a - q * b < Abs(b)
    ensures a < 0 ==> -Abs(b) < a - q * b <= 0
  {
    if a >= 0 then (if b > 0 then a / b else -(a / -b))
    else (if b > 0 then -((-a) / b) else (-a) / (-b))
  }

  function Abs(a: int): int { if a < 0 then -a else a }

  function Min(a: int, b: int): int { if a <= b then a else b }
  function Max(a: int, b: int): int { if a >= b then a else b }

  /** An XNA rectangle. */
  datatype Rect = Rect(x: int, y: int, width: int, height: int) {
    /** Rectangle.Contains(int, int): the right and bottom edges are exclusive. */
    predicate Contains(px: int, py: int) {
      x <= px < x + width && y <= py < y + height
    }
  }

  const EmptyRect := Rect(0, 0, 0, 0)

  type PositiveInt = n: int | n >= 1 witness 1

  /** ShopMenu.itemsPerPage: the number of full-width rows the host shows per page. */
  const ItemsPerPage: PositiveInt
  /** ShopMenu.region_upArrow, ClickableComponent.CUSTOM_SNAP_BEHAVIOR and
      ClickableComponent.SNAP_AUTOMATIC: host sentinel ids used as neighbour links. */
  const RegionUpArrow: int
  const CustomSnapBehavior: int
  const SnapAutomatic: int

  /** The id of the first sale slot. The host numbers its one-per-row slots from here too. */
  const BaseId := 3546

  /** The three sentinels are not the id of any of `count` slots numbered from BaseId. */
  predicate SentinelsOutside(count: nat) {
    && (RegionUpArrow < BaseId || RegionUpArrow >= BaseId + count)
    && (CustomSnapBehavior < BaseId || CustomSnapBehavior >= BaseId + count)
    && (SnapAutomatic < BaseId || SnapAutomatic >= BaseId + count)
  }

  /** SObject.SeedsCategory. */
  const SeedsCategory := -74

  /** What an ISalable is at run time: not an Item at all, an Item that is not an SObject, or an SObject. */
  datatype Kind = NonItem | OtherItem | Obj

  /** One catalog entry. `id` stands for reference identity; the remaining fields are what the
      controller asks of the entry (the sapling and season answers come from game data). */
  datatype Salable = Salable(
    id: nat,
    displayName: string,
    description: string,
    kind: Kind,
    category: int,
    isRecipe: bool,
    isTeaSapling: bool,
    isWildTreeSapling: bool,
    isFruitTreeSapling: bool,
    plantableThisSeason: bool)
  {
    predicate IsItem() { kind != NonItem }
  }

  /** ItemStockInformation: price, stock and the optional trade-item cost. */
  datatype StockInfo = StockInfo(price: int, stock: int, tradeItem: string, tradeItemCount: Option<int>)

  /** A ClickableComponent sale slot: its bounds, its id and its four neighbour links. */
  datatype Slot = Slot(bounds: Rect, myID: int, up: int, right: int, down: int, left: int)

  /** The host's shop menu: the fields the controller reads or writes. */
  class ShopMenu {
    var forSale: seq<Salable>
    var currentItemIndex: int
    var forSaleButtons: seq<Slot>
    var itemPriceAndStock: map<Salable, StockInfo>
    var tabButtonCount: nat
    var xPositionOnScreen: int
    var yPositionOnScreen: int
    var height: int
    var inventoryHeight: int

    constructor (stock: seq<Salable>, prices: map<Salable, StockInfo>, buttons: seq<Slot>)
      ensures forSale == stock && itemPriceAndStock == prices && forSaleButtons == buttons
      ensures currentItemIndex == 0 && tabButtonCount == 0
      ensures xPositionOnScreen == 0 && yPositionOnScreen == 0 && height == 0 && inventoryHeight == 0
    {
      forSale, itemPriceAndStock, forSaleButtons := stock, prices, buttons;
      currentItemIndex, tabButtonCount := 0, 0;
      xPositionOnScreen, yPositionOnScreen, height, inventoryHeight := 0, 0, 0, 0;
    }
  }
}
