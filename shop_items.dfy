/** The constant shop catalog of src/data/shopItems.ts. */
module ShopCatalog {

  /** A shop item; its Ukrainian and Russian names and descriptions are display text, left out. */
  datatype ShopItem = ShopItem(id: string, price: nat)

  const ShopItems: seq<ShopItem> := [
    ShopItem("1", 500),
    ShopItem("2", 300),
    ShopItem("3", 250),
    ShopItem("4", 400),
    ShopItem("5", 100),
    ShopItem("6", 50)
  ]

  /** Every item of the catalog has its own id. */
  lemma CatalogIdsDistinct()
    ensures forall i, j :: 0 <= i < j < |ShopItems| ==> ShopItems[i].id != ShopItems[j].id
  {
  }
}
