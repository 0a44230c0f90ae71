/** The inventory page (frontend/src/pages/Inventory.tsx): the window of
    at most five page buttons around the current page, the page-change
    guard, the "showing from - to" line, and the in-place update of the
    listed item after a stock operation. */
module InventoryPage {
  import opened Base
  import Listing
  import Items
  import Inventory

  const MaxVisiblePages := 5

  /** The ascending pages `lo`, `lo + 1`, ..., `hi` (none when `hi < lo`). */
  function Range(lo: int, hi: int): (r: seq<int>)
    ensures |r| == Max(0, hi - lo + 1)
    ensures forall k :: 0 <= k < |r| ==> r[k] == lo + k
  {
    seq(Max(0, hi - lo + 1), k => lo + k)
  }

  /** The button window stated directly: five consecutive pages centred on
      the current one, shifted right at the front and left at the back so
      that they stay inside `1..last`; nothing when there is one page. */
  function Window(current: int, last: int): seq<int> {
    if last <= 1 then []
    else
      var start := Max(1, Min(current - 2, last - MaxVisiblePages + 1));
      Range(start, Min(last, start + MaxVisiblePages - 1))
  }

  /** `renderPagination`: centre the window on the current page, clamp it
      to the last page, pull its start back when it came out short, then
      push the pages one by one. */
  method RenderPagination(current: int, last: int) returns (pages: seq<int>)
    ensures pages == Window(current, last)
  {
    pages := [];
    if last <= 1 {
      return;
    }
    var startPage := Max(1, current - MaxVisiblePages / 2);
    var endPage := Min(last, startPage + MaxVisiblePages - 1);
    if endPage - startPage + 1 < MaxVisiblePages {
      startPage := Max(1, endPage - MaxVisiblePages + 1);
    }
    assert Range(startPage, endPage) == Window(current, last);
    var i := startPage;
    while i <= endPage
      invariant startPage <= i <= Max(startPage, endPage + 1)
      invariant pages == Range(startPage, i - 1)
    {
      pages := pages + [i];
      i := i + 1;
    }
  }

  /** The window's shape: empty when there is at most one page; otherwise
      `min(last, 5)` consecutive ascending pages, all in `1..last`, and the
      current page among them whenever it is in range. */
  lemma WindowShape(current: int, last: int)
    ensures last <= 1 ==> Window(current, last) == []
    ensures last > 1 ==> |Window(current, last)| == Min(last, MaxVisiblePages)
    ensures forall k :: 0 <= k < |Window(current, last)| ==> 1 <= Window(current, last)[k] <= last
    ensures forall k :: 0 < k < |Window(current, last)| ==>
      Window(current, last)[k] == Window(current, last)[k - 1] + 1
    ensures 1 <= current <= last && last > 1 ==> current in Window(current, last)
  {
    if 1 <= current <= last && last > 1 {
      var w := Window(current, last);
      assert w[current - w[0]] == current;
    }
  }

  /** `handlePageChange`'s state: the page asked for and the pagination
      block of the last response. */
  datatype PaginationInfo = PaginationInfo(currentPage: int, lastPage: int, perPage: int, total: int)

  /** The pagination block the page keeps, read from a response with the
      `|| default` fallbacks (a zero field takes the default). */
  function InfoOf<T>(p: Listing.Page<T>): (info: PaginationInfo)
    ensures info.currentPage >= 1 && info.lastPage >= 1 && info.perPage >= 1
    ensures p.currentPage >= 1 ==> info.currentPage == p.currentPage
    ensures p.lastPage >= 1 ==> info.lastPage == p.lastPage
    ensures p.perPage >= 1 ==> info.perPage == p.perPage
    ensures info.total == p.total
  {
    PaginationInfo(
      if p.currentPage != 0 then p.currentPage else 1,
      if p.lastPage != 0 then p.lastPage else 1,
      if p.perPage != 0 then p.perPage else Listing.ModelPerPage,
      p.total)
  }

  /** First row number shown: `max(1, (current - 1) * perPage + 1)`. */
  function DisplayFrom(info: PaginationInfo): int {
    Max(1, (info.currentPage - 1) * info.perPage + 1)
  }

  /** Last row number shown: `min(current * perPage, total)`. */
  function DisplayTo(info: PaginationInfo): int {
    Min(info.currentPage * info.perPage, info.total)
  }

  /** On a page that exists, the "showing from - to" line names exactly
      the rows the server put on that page. */
  lemma DisplayRangeMatchesPage<T>(rows: seq<T>, page: nat, perPage: nat)
    requires perPage >= 1 && rows != []
    requires 1 <= page <= Listing.LastPage(|rows|, perPage)
    ensures var p := Listing.Paginate(rows, page, perPage);
      && p.from == Some(DisplayFrom(InfoOf(p)))
      && p.to == Some(DisplayTo(InfoOf(p)))
  {
    var p := Listing.Paginate(rows, page, perPage);
    var offset := Listing.Offset(page, perPage);
    var last := Listing.LastPage(|rows|, perPage);
    Listing.MulMonotone(page - 1, last - 1, perPage);
    assert offset < |rows|;
    Listing.MulSucc(page - 1, perPage);
    Listing.PageItems(rows, page, perPage);
  }

  /** The listed items after a stock operation: the item with the given id
      takes the returned stock. */
  function UpdatedList(items: seq<Items.Item>, id: nat, stock: int): (r: seq<Items.Item>)
    ensures |r| == |items|
    ensures forall i :: 0 <= i < |r| ==> r[i].id == items[i].id && r[i] == items[i].(stock := r[i].stock)
    ensures forall i :: 0 <= i < |r| && items[i].id == id ==> r[i].stock == stock
    ensures forall i :: 0 <= i < |r| && items[i].id != id ==> r[i] == items[i]
  {
    seq(|items|, i requires 0 <= i < |items| =>
      if items[i].id == id then items[i].(stock := stock) else items[i])
  }

  /** Every listed item is the stored row with its id. */
  ghost predicate ShowsRows(items: seq<Items.Item>, rows: map<nat, Items.Item>) {
    forall i :: 0 <= i < |items| ==> items[i].id in rows && rows[items[i].id] == items[i]
  }

  /** A list that showed the stored rows still shows them after a
      successful stock operation, once the returned stock is written into
      it: the page agrees with the server without reloading. */
  lemma UpdatedListShowsRows(items: seq<Items.Item>, rows: map<nat, Items.Item>,
                             ledger: seq<Inventory.Movement>, id: nat, req: Inventory.StockRequest)
    requires ShowsRows(items, rows)
    requires Inventory.ApplyStock(rows, ledger, id, req).result.Ok?
    ensures var out := Inventory.ApplyStock(rows, ledger, id, req);
      ShowsRows(UpdatedList(items, id, out.result.value.stock), out.rows)
  {
  }

  /** The page's state: the page asked for, the listed items and the
      pagination block of the last response. */
  class PageState {
    var currentPage: int
    var items: seq<Items.Item>
    var pagination: PaginationInfo

    ghost predicate Valid()
      reads this
    {
      currentPage >= 1 && pagination.lastPage >= 1
    }

    /** The initial state: page 1 of one page of 15, nothing counted. */
    constructor ()
      ensures Valid()
      ensures currentPage == 1 && items == [] && pagination == PaginationInfo(1, 1, Listing.ModelPerPage, 0)
    {
      currentPage := 1;
      items := [];
      pagination := PaginationInfo(1, 1, Listing.ModelPerPage, 0);
    }

    /** A response arrived: its items and pagination block replace the
        old ones. */
    method Loaded(p: Listing.Page<Items.Item>)
      requires Valid()
      modifies this
      ensures Valid()
      ensures currentPage == old(currentPage) && items == p.items && pagination == InfoOf(p)
    {
      items := p.items;
      pagination := InfoOf(p);
    }

    /** `handleConfirm` after a successful stock operation: the listed item
        with that id takes the stock the server returned. */
    method StockUpdated(id: nat, stock: int)
      requires Valid()
      modifies this
      ensures Valid()
      ensures currentPage == old(currentPage) && pagination == old(pagination)
      ensures items == UpdatedList(old(items), id, stock)
    {
      items := UpdatedList(items, id, stock);
    }

    /** `handlePageChange`: only a page in `1..last` is taken. */
    method PageChange(page: int)
      requires Valid()
      modifies this
      ensures Valid()
      ensures items == old(items) && pagination == old(pagination)
      ensures currentPage == (if 1 <= page <= pagination.lastPage then page else old(currentPage))
    {
      if page >= 1 && page <= pagination.lastPage {
        currentPage := page;
      }
    }

    /** A new search text goes back to the first page. */
    method SearchChanged()
      requires Valid()
      modifies this
      ensures Valid()
      ensures currentPage == 1 && items == old(items) && pagination == old(pagination)
    {
      currentPage := 1;
    }

    /** The buttons of the current pagination block. */
    method Buttons() returns (pages: seq<int>)
      requires Valid()
      ensures pages == Window(pagination.currentPage, pagination.lastPage)
    {
      pages := RenderPagination(pagination.currentPage, pagination.lastPage);
    }
  }
}
