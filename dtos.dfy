/**
 * The data-transfer objects the basket service works with.
 * A menu item is a value; the basket object is a reference whose
 * item list is mutated in place.
 */
module Dtos {

  /**
   * One entry of the menu (MenuItemDto). `id` is the catalogue identifier,
   * which may occur several times in one basket. The price is held as an
   * integer number of pence instead of a decimal.
   */
  datatype MenuItem = MenuItem(
    id: int,
    name: string,
    description: string,
    price: int,
    category: string)

  /** The basket object (BasketDto): an ordered list of entries, duplicates allowed. */
  class BasketDto {
    var menuItems: seq<MenuItem>

    /** `new BasketDto()`: an empty basket. */
    constructor ()
      ensures menuItems == []
    {
      menuItems := [];
    }

    /** A basket as produced by deserialising a stored value. */
    constructor FromItems(items: seq<MenuItem>)
      ensures menuItems == items
    {
      menuItems := items;
    }
  }
}
