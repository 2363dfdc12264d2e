/** The records the inventory view holds, and the per-record rules that do
    not depend on the rest of the list. */
module Items {

  /** A value that may be missing; here, a quantity that may be `NaN`. */
  datatype Option<+T> = None | Some(value: T)

  /** One row of the inventory. `id` is whatever the caller supplied when the
      row was added; nothing in the view makes it unique. */
  datatype Item = Item(
    id: int,
    name: string,
    category: string,
    quantity: int,
    isEditing: bool)

  /** The direction the next "Sort by Quantity" click sorts in. */
  datatype SortOrder = Asc | Desc {
    /** The direction after a click: each sort alternates it. */
    function Flip(): (o: SortOrder)
      ensures o != this
    {
      match this
      case Asc => Desc
      case Desc => Asc
    }
  }

  /** The stock threshold below which a row is highlighted. */
  const LowStockLimit: int := 10

  /** A row is low on stock when its quantity is under the threshold. */
  predicate LowStock(it: Item) {
    it.quantity < LowStockLimit
  }

  /** The class name the table gives a row: the danger highlight exactly for
      low-stock rows, and no class otherwise. */
  function RowClass(it: Item): (c: string)
    ensures c != "" <==> it.quantity < LowStockLimit
    ensures c != "" ==> c == "table-danger"
  {
    if LowStock(it) then "table-danger" else ""
  }

  /** `a` may precede `b` in a list sorted in direction `o`: the comparator
      `a.quantity - b.quantity` (ascending) or `b.quantity - a.quantity`
      (descending) is not positive. */
  predicate InOrder(o: SortOrder, a: Item, b: Item) {
    match o
    case Asc => a.quantity <= b.quantity
    case Desc => b.quantity <= a.quantity
  }

  /** Every pair of rows is in order for direction `o`. */
  predicate Ordered(o: SortOrder, s: seq<Item>) {
    forall i, j :: 0 <= i < j < |s| ==> InOrder(o, s[i], s[j])
  }

  /** No two rows share an id. The view does not enforce this; it is the
      invariant that holds as long as every added id is fresh. */
  predicate UniqueIds(s: seq<Item>) {
    forall i, j :: 0 <= i < j < |s| ==> s[i].id != s[j].id
  }

  /** Some row carries id `id`. */
  predicate HasId(s: seq<Item>, id: int) {
    exists it :: it in s && it.id == id
  }
}
