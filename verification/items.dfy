/** What the creative registry borrows from the item layer. The item class,
    its equality, its durability subclass, its display name and the network
    item codec live outside the registry; the model receives them as plain
    function values so that every property below holds whatever they do. */
module Items {

  /** The display name the item layer gives to an id it cannot resolve. */
  const UnknownName: string := "Unknown"

  /** The item layer as the registry sees it:
      - `equals(a, b, checkDamage)`: item equality, comparing damage values
        only when `checkDamage` holds;
      - `isDurable(a)`: whether `a` belongs to the durable-item subclass;
      - `name(a)`: the item's display name;
      - `encode(a)`: the network form of the item stack. */
  datatype ItemLayer<!Item, Net> = ItemLayer(
    equals: (Item, Item, bool) -> bool,
    isDurable: Item -> bool,
    name: Item -> string,
    encode: Item -> Net)

  /** The test the index lookup applies to a stored item: damage is compared
      unless the QUERIED item is durable. The stored item's own durability
      plays no part, so the relation is not symmetric. */
  predicate LookupEquals<Item, Net>(layer: ItemLayer<Item, Net>, query: Item, stored: Item) {
    layer.equals(query, stored, !layer.isDurable(query))
  }

  /** Items the bundled item list names but the item layer cannot resolve. */
  predicate IsUnknown<Item, Net>(layer: ItemLayer<Item, Net>, item: Item) {
    layer.name(item) == UnknownName
  }
}
