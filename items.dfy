/** The `Item` Eloquent model (backend/app/Models/Item.php): one row of the
    `items` table, its derived `is_low_stock` and `image_url` attributes,
    and its `active` and `lowStock` query scopes. The model uses
    `SoftDeletes`, so a deleted row keeps existing with `deleted_at` set. */
module Items {
  import opened Base
  import Listing

  /** A row of `items`. `deletedAt` is the soft-delete marker (`None` is
      null, the row is live). Prices are decimals and are not modelled. */
  datatype Item = Item(
    id: nat,
    name: string,
    sku: string,
    stock: int,
    unit: string,
    category: string,
    minStock: int,
    description: Option<string>,
    supplier: Option<string>,
    image: Option<string>,
    isActive: bool,
    deletedAt: Option<int>)

  /** The `is_low_stock` accessor. */
  predicate IsLowStock(item: Item) {
    item.stock <= item.minStock
  }

  predicate IsTrashed(item: Item) {
    item.deletedAt.Some?
  }

  /** `scopeActive`: the rows whose `is_active` flag is set, in order. */
  function ActiveScope(rows: seq<Item>): (r: seq<Item>)
    ensures forall i :: 0 <= i < |r| ==> r[i] in rows && r[i].isActive
    ensures forall i :: 0 <= i < |rows| && rows[i].isActive ==> rows[i] in r
  {
    Listing.Filter(rows, (x: Item) => x.isActive)
  }

  /** `scopeLowStock` (`whereRaw('stock <= min_stock')`) selects exactly
      the rows for which the `is_low_stock` accessor holds. */
  function LowStockScope(rows: seq<Item>): (r: seq<Item>)
    ensures forall i :: 0 <= i < |r| ==> r[i] in rows && IsLowStock(r[i])
    ensures forall i :: 0 <= i < |rows| && IsLowStock(rows[i]) ==> rows[i] in r
  {
    Listing.Filter(rows, (x: Item) => x.stock <= x.minStock)
  }

  const ImageFolder := "storage/items/"

  /** The `image_url` accessor: null unless `image` is truthy in PHP, else
      the public URL of the stored file. */
  function ImageUrl(item: Item, root: string): (url: Option<string>)
    ensures url.Some? <==> TruthyOpt(item.image)
    ensures url.Some? ==> IsPrefix(root + "/" + ImageFolder, url.value)
  {
    if TruthyOpt(item.image) then Some(Asset(root, ImageFolder + item.image.value)) else None
  }

  /** The file name a URL built by `ImageUrl` points at. */
  function ImageNameOf(url: string, root: string): string
    requires IsPrefix(root + "/" + ImageFolder, url)
  {
    url[|root + "/" + ImageFolder|..]
  }

  /** The URL names exactly the stored file: two items with the same image
      URL store the same image name. */
  lemma ImageUrlNamesFile(item: Item, root: string)
    requires TruthyOpt(item.image)
    ensures ImageNameOf(ImageUrl(item, root).value, root) == item.image.value
  {
    var prefix := root + "/" + ImageFolder;
    assert ImageUrl(item, root).value == prefix + item.image.value;
  }
}
