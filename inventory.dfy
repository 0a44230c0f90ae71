/** The inventory core of `ItemController`
    (backend/app/Http/Controllers/Api/ItemController.php): the stock
    mutation engine (`stockIn`, `stockOut`) with its append-only ledger of
    `StockMovement` rows, the soft-delete lifecycle (`destroy`, `restore`,
    `forceDelete`), item creation and update with their validation rules,
    and the read-only listings (`index`, `trashed`, `stockMovements`). */
module Inventory {
  import opened Base
  import opened Items
  import Listing

  datatype Direction = In | Out

  /** A row of `stock_movements`. Written once, never updated or deleted. */
  datatype Movement = Movement(
    itemId: nat,
    userId: nat,
    kind: Direction,
    quantity: int,
    stockBefore: int,
    stockAfter: int,
    note: Option<string>,
    referenceNumber: Option<string>,
    createdAt: int)

  /** The largest value the `stock` and `min_stock` INT columns hold. A
      larger value makes the database refuse the write. */
  const IntColumnMax: int := 2147483647

  datatype Error =
    | NotFound            // route-model binding or `findOrFail` finds no row: 404
    | InvalidQuantity     // `quantity` fails `min:1`: 422
    | InsufficientStock   // `quantity` fails `max:<current stock>`: 422
    | Invalid(field: string)  // any other validation rule: 422
    | OutOfRange          // the database refuses the write; the transaction rolls back

  /** One stock request as `stockIn`/`stockOut` receive it, with the
      acting user and the time supplied by the caller. */
  datatype StockRequest = StockRequest(
    kind: Direction,
    quantity: int,
    userId: nat,
    note: Option<string>,
    referenceNumber: Option<string>,
    at: int)

  /** The outcome of a request: the response and the two tables after it. */
  datatype Outcome = Outcome(result: Result<Item, Error>, rows: map<nat, Item>, ledger: seq<Movement>)

  predicate FitsColumn(v: int) {
    0 <= v <= IntColumnMax
  }

  /** A ledger entry whose snapshot is consistent with its direction. */
  predicate WellFormed(m: Movement) {
    && m.quantity >= 1
    && FitsColumn(m.stockBefore)
    && FitsColumn(m.stockAfter)
    && m.stockAfter == (if m.kind == In then m.stockBefore + m.quantity else m.stockBefore - m.quantity)
  }

  /** The validation rules of `stockIn`/`stockOut` (the first failing one). */
  function ValidateStock(stock: int, req: StockRequest): Option<Error> {
    if req.quantity < 1 then Some(InvalidQuantity)
    else if req.kind == Out && req.quantity > stock then Some(InsufficientStock)
    else if req.note.Some? && |req.note.value| > 500 then Some(Invalid("note"))
    else if req.referenceNumber.Some? && |req.referenceNumber.value| > 100 then Some(Invalid("reference_number"))
    else None
  }

  /** The stock a movement asks for: `before + quantity` in, `before -
      quantity` out. */
  function StockAfter(stock: int, req: StockRequest): int {
    if req.kind == In then stock + req.quantity else stock - req.quantity
  }

  /** The stock mutation engine. The item is bound by route-model binding,
      which does not see soft-deleted rows; the request is validated before
      anything is written; inside one transaction the stock becomes
      `before + quantity` (in) or `before - quantity` (out) and one movement
      recording both snapshots is appended. A write the database refuses
      rolls back both. */
  function ApplyStock(rows: map<nat, Item>, ledger: seq<Movement>, id: nat, req: StockRequest): (out: Outcome)
    ensures out.result.Err? ==> out.rows == rows && out.ledger == ledger
    ensures !(id in rows && !IsTrashed(rows[id])) ==> out.result == Err(NotFound)
    ensures id in rows && !IsTrashed(rows[id]) && ValidateStock(rows[id].stock, req).Some? ==>
      out.result == Err(ValidateStock(rows[id].stock, req).value)
    ensures id in rows && !IsTrashed(rows[id]) && ValidateStock(rows[id].stock, req).None? ==>
      if StockAfter(rows[id].stock, req) <= IntColumnMax then out.result.Ok? else out.result == Err(OutOfRange)
    ensures out.result.Ok? ==>
      var before := rows[id];
      var after := out.result.value;
      && id in rows && !IsTrashed(before) && req.quantity >= 1
      && after == before.(stock := after.stock)
      && out.rows == rows[id := after]
      && out.ledger == ledger + [Movement(id, req.userId, req.kind, req.quantity,
                                          before.stock, after.stock, req.note, req.referenceNumber, req.at)]
      && (req.kind == In ==> after.stock == before.stock + req.quantity)
      && (req.kind == Out ==> after.stock == before.stock - req.quantity && req.quantity <= before.stock)
    ensures id in rows && FitsColumn(rows[id].stock) && out.result.Ok? ==>
      WellFormed(out.ledger[|out.ledger| - 1]) && FitsColumn(out.result.value.stock)
  {
    if id !in rows || IsTrashed(rows[id]) then Outcome(Err(NotFound), rows, ledger)
    else
      var item := rows[id];
      match ValidateStock(item.stock, req)
      case Some(e) => Outcome(Err(e), rows, ledger)
      case None =>
        var after := StockAfter(item.stock, req);
        if after > IntColumnMax then Outcome(Err(OutOfRange), rows, ledger)
        else
          var updated := item.(stock := after);
          var entry := Movement(id, req.userId, req.kind, req.quantity, item.stock, after,
                                req.note, req.referenceNumber, req.at);
          Outcome(Ok(updated), rows[id := updated], ledger + [entry])
  }

  /** The last ledger entry of item `id`, if any. */
  function LastMovementOf(ledger: seq<Movement>, id: nat): (m: Option<Movement>)
    ensures m.Some? ==> m.value in ledger && m.value.itemId == id
    ensures m.None? ==> forall i :: 0 <= i < |ledger| ==> ledger[i].itemId != id
    decreases |ledger|
  {
    if ledger == [] then None
    else if ledger[|ledger| - 1].itemId == id then Some(ledger[|ledger| - 1])
    else LastMovementOf(ledger[..|ledger| - 1], id)
  }

  /** The ledger agrees with the item: its latest movement ends at the
      current stock. */
  predicate InSync(rows: map<nat, Item>, ledger: seq<Movement>, id: nat) {
    id in rows && (LastMovementOf(ledger, id).Some? ==> LastMovementOf(ledger, id).value.stockAfter == rows[id].stock)
  }

  /** After a successful stock request the ledger is in sync with the item,
      and every other item's sync state is as it was. */
  lemma ApplyStockSyncs(rows: map<nat, Item>, ledger: seq<Movement>, id: nat, req: StockRequest, other: nat)
    requires ApplyStock(rows, ledger, id, req).result.Ok?
    ensures InSync(ApplyStock(rows, ledger, id, req).rows, ApplyStock(rows, ledger, id, req).ledger, id)
    ensures other != id ==>
      (InSync(ApplyStock(rows, ledger, id, req).rows, ApplyStock(rows, ledger, id, req).ledger, other)
       <==> InSync(rows, ledger, other))
  {
    var out := ApplyStock(rows, ledger, id, req);
    assert out.ledger[..|out.ledger| - 1] == ledger;
  }

  /** A stock request's arithmetic alone, for one item whose stock is
      `stock`: the resulting stock and the movement written, or `None` when
      the request is refused and nothing changes. */
  function Step(stock: int, req: StockRequest): Option<(int, Movement)> {
    var item := Item(0, "", "", stock, "", "", 0, None, None, None, true, None);
    var out := ApplyStock(map[0 := item], [], 0, req);
    if out.result.Ok? then Some((out.result.value.stock, out.ledger[0])) else None
  }

  /** Applies requests to one item in order, refused ones changing
      nothing: the final stock and the movements written. */
  function Replay(stock: int, reqs: seq<StockRequest>): (int, seq<Movement>)
    decreases |reqs|
  {
    if reqs == [] then (stock, [])
    else
      match Step(stock, reqs[0])
      case None => Replay(stock, reqs[1..])
      case Some((after, m)) =>
        var (final, ms) := Replay(after, reqs[1..]);
        (final, [m] + ms)
  }

  /** The movements form an unbroken chain from `start` to `end`: each
      starts where the previous one ended. */
  predicate Chain(ms: seq<Movement>, start: int, end: int)
    decreases |ms|
  {
    if ms == [] then start == end
    else ms[0].stockBefore == start && Chain(ms[1..], ms[0].stockAfter, end)
  }

  /** For every sequence of stock requests on one item: the stock never
      leaves the column's range (in particular never goes negative), every
      movement written is well formed, and the movements chain from the
      starting stock to the final stock, so the latest one ends at the
      item's current stock. */
  lemma {:induction false} ReplayConsistent(stock: int, reqs: seq<StockRequest>)
    requires FitsColumn(stock)
    ensures FitsColumn(Replay(stock, reqs).0)
    ensures forall m :: m in Replay(stock, reqs).1 ==> WellFormed(m)
    ensures Chain(Replay(stock, reqs).1, stock, Replay(stock, reqs).0)
    decreases |reqs|
  {
    if reqs != [] {
      match Step(stock, reqs[0])
      case None =>
        ReplayConsistent(stock, reqs[1..]);
      case Some((after, m)) =>
        var item := Item(0, "", "", stock, "", "", 0, None, None, None, true, None);
        var out := ApplyStock(map[0 := item], [], 0, reqs[0]);
        assert out.ledger[0] == m && out.result.value.stock == after;
        ReplayConsistent(after, reqs[1..]);
        var (final, ms) := Replay(after, reqs[1..]);
        assert Replay(stock, reqs) == (final, [m] + ms);
        assert ([m] + ms)[1..] == ms;
    }
  }

  /** A stock-in of `q` followed by a stock-out of `q` returns the stock to
      where it was and leaves two movements that chain back to it. */
  lemma InThenOutRoundTrip(stock: int, q: int, userId: nat, at: int)
    requires FitsColumn(stock) && 1 <= q && stock + q <= IntColumnMax
    ensures
      var reqs := [StockRequest(In, q, userId, None, None, at), StockRequest(Out, q, userId, None, None, at)];
      Replay(stock, reqs).0 == stock && |Replay(stock, reqs).1| == 2 && Chain(Replay(stock, reqs).1, stock, stock)
  {
    var reqs := [StockRequest(In, q, userId, None, None, at), StockRequest(Out, q, userId, None, None, at)];
    assert reqs[1..] == [reqs[1]];
    assert reqs[1..][1..] == [];
    assert Step(stock, reqs[0]).Some? && Step(stock, reqs[0]).value.0 == stock + q;
    assert Step(stock + q, reqs[1]).Some? && Step(stock + q, reqs[1]).value.0 == stock;
    var m1, m2 := Step(stock, reqs[0]).value.1, Step(stock + q, reqs[1]).value.1;
    assert Replay(stock + q, reqs[1..]) == (stock, [m2]) by {
      var rest := reqs[1..];
      assert rest != [] && rest[0] == reqs[1] && rest[1..] == [];
      assert Replay(stock, rest[1..]) == (stock, []);
      assert [m2] + [] == [m2];
    }
    assert [m1] + [m2] == [m1, m2];
    assert Replay(stock, reqs) == (stock, [m1, m2]);
    ReplayConsistent(stock, reqs);
  }

  /** A worked example: "Semen Portland" at 150 with minimum 50
      takes a stock-out of 120 (stock 30, now low), and a further stock-out
      of 40 is refused with the stock left at 30. */
  lemma SemenPortlandScenario(userId: nat, at: int)
    ensures
      var item := Item(1, "Semen Portland", "SP-01", 150, "sak", "Bahan", 50, None, None, None, true, None);
      var first := ApplyStock(map[1 := item], [], 1, StockRequest(Out, 120, userId, None, None, at));
      && !IsLowStock(item)
      && first.result.Ok? && first.result.value.stock == 30 && IsLowStock(first.result.value)
      && first.ledger == [Movement(1, userId, Out, 120, 150, 30, None, None, at)]
      && var second := ApplyStock(first.rows, first.ledger, 1, StockRequest(Out, 40, userId, None, None, at));
         second.result == Err(InsufficientStock) && second.rows[1].stock == 30 && second.ledger == first.ledger
  {
  }

  /** Fields of a create or update request. For `update`, an absent
      optional field (`None`) is not sent and keeps its value. */
  datatype ItemInput = ItemInput(
    name: string,
    sku: string,
    stock: int,
    unit: string,
    category: string,
    minStock: int,
    description: Option<string>,
    supplier: Option<string>,
    isActive: Option<bool>)

  /** `unique:items,sku[,id]`: some row other than `except` already has
      this SKU, compared under the case-insensitive collation. The rule
      queries the table itself, so trashed rows count. */
  predicate SkuTaken(rows: map<nat, Item>, sku: string, except: Option<nat>) {
    exists id :: id in rows && SameText(rows[id].sku, sku) && except != Some(id)
  }

  /** The `store`/`update` validation rules, then the database's INT bound;
      `None` when the request is accepted. */
  function ValidateItem(rows: map<nat, Item>, input: ItemInput, except: Option<nat>): Option<Error> {
    if input.name == "" || |input.name| > 255 then Some(Invalid("name"))
    else if input.sku == "" || |input.sku| > 255 || SkuTaken(rows, input.sku, except) then Some(Invalid("sku"))
    else if input.stock < 0 then Some(Invalid("stock"))
    else if input.unit == "" || |input.unit| > 50 then Some(Invalid("unit"))
    else if input.category == "" || |input.category| > 100 then Some(Invalid("category"))
    else if input.minStock < 0 then Some(Invalid("min_stock"))
    else if input.supplier.Some? && |input.supplier.value| > 255 then Some(Invalid("supplier"))
    else if input.stock > IntColumnMax || input.minStock > IntColumnMax then Some(OutOfRange)
    else None
  }

  /** Every accepted create or update leaves non-negative stock and
      minimum, and a SKU no other row has. */
  lemma ValidatedItemIsSound(rows: map<nat, Item>, input: ItemInput, except: Option<nat>)
    requires ValidateItem(rows, input, except).None?
    ensures FitsColumn(input.stock) && FitsColumn(input.minStock)
    ensures forall id :: id in rows && SameText(rows[id].sku, input.sku) ==> except == Some(id)
  {
  }

  /** The rows of the table, in id order, for ids below `bound`. */
  function RowsInIdOrder(rows: map<nat, Item>, bound: nat): (r: seq<Item>)
    requires forall id :: id in rows ==> rows[id].id == id
    ensures forall i :: 0 <= i < |r| ==> r[i].id in rows && rows[r[i].id] == r[i]
    ensures forall id :: id in rows && id < bound ==> rows[id] in r
  {
    Listing.Rows(rows, bound)
  }

  /** The default scope of a `SoftDeletes` model: live rows only. */
  function LiveRows(rows: seq<Item>): (r: seq<Item>)
    ensures forall i :: 0 <= i < |r| ==> r[i] in rows && !IsTrashed(r[i])
    ensures forall i :: 0 <= i < |rows| && !IsTrashed(rows[i]) ==> rows[i] in r
  {
    Listing.Filter(rows, (x: Item) => !IsTrashed(x))
  }

  /** `onlyTrashed()`: soft-deleted rows only. */
  function TrashedRows(rows: seq<Item>): (r: seq<Item>)
    ensures forall i :: 0 <= i < |r| ==> r[i] in rows && IsTrashed(r[i])
    ensures forall i :: 0 <= i < |rows| && IsTrashed(rows[i]) ==> rows[i] in r
  {
    Listing.Filter(rows, (x: Item) => IsTrashed(x))
  }

  /** The columns a listing may be sorted on: every column of `items`
      the model keeps. */
  datatype Column = Name | Sku | Stock | MinStock | Category | Unit | Description | Supplier | IsActive | Id | DeletedAt
  datatype SortOrder = Asc | Desc

  /** `ORDER BY column ASC` as a comparison of two rows. Text columns
      compare under the case-insensitive collation; SQL sorts null before
      every value and `false` before `true` in ascending order. */
  predicate ColumnLe(c: Column, a: Item, b: Item) {
    match c
    case Name => CiLe(a.name, b.name)
    case Sku => CiLe(a.sku, b.sku)
    case Category => CiLe(a.category, b.category)
    case Unit => CiLe(a.unit, b.unit)
    case Description => OptLe(a.description, b.description)
    case Supplier => OptLe(a.supplier, b.supplier)
    case IsActive => !a.isActive || b.isActive
    case Stock => a.stock <= b.stock
    case MinStock => a.minStock <= b.minStock
    case Id => a.id <= b.id
    case DeletedAt => a.deletedAt.None? || (b.deletedAt.Some? && a.deletedAt.value <= b.deletedAt.value)
  }

  /** `orderBy(column, order)` as a comparison of rows. */
  function OrderBy(c: Column, order: SortOrder): (Item, Item) -> bool {
    if order == Asc then (a: Item, b: Item) => ColumnLe(c, a, b)
    else (a: Item, b: Item) => ColumnLe(c, b, a)
  }

  lemma ColumnLeTotal(c: Column, a: Item, b: Item)
    ensures ColumnLe(c, a, b) || ColumnLe(c, b, a)
  {
    match c
    case Name => CiLeTotal(a.name, b.name);
    case Sku => CiLeTotal(a.sku, b.sku);
    case Category => CiLeTotal(a.category, b.category);
    case Unit => CiLeTotal(a.unit, b.unit);
    case Description => OptLeTotal(a.description, b.description);
    case Supplier => OptLeTotal(a.supplier, b.supplier);
    case _ =>
  }

  lemma ColumnLeTransitive(c: Column, a: Item, b: Item, d: Item)
    requires ColumnLe(c, a, b) && ColumnLe(c, b, d)
    ensures ColumnLe(c, a, d)
  {
    match c
    case Name => CiLeTransitive(a.name, b.name, d.name);
    case Sku => CiLeTransitive(a.sku, b.sku, d.sku);
    case Category => CiLeTransitive(a.category, b.category, d.category);
    case Unit => CiLeTransitive(a.unit, b.unit, d.unit);
    case Description => OptLeTransitive(a.description, b.description, d.description);
    case Supplier => OptLeTransitive(a.supplier, b.supplier, d.supplier);
    case _ =>
  }

  /** Every column ordering, either way round, is one `SortBy` can use. */
  lemma OrderByIsTotalPreorder(c: Column, order: SortOrder)
    ensures Listing.TotalPreorder(OrderBy(c, order))
  {
    forall a: Item, b: Item ensures ColumnLe(c, a, b) || ColumnLe(c, b, a) {
      ColumnLeTotal(c, a, b);
    }
    forall a: Item, b: Item, d: Item | ColumnLe(c, a, b) && ColumnLe(c, b, d) ensures ColumnLe(c, a, d) {
      ColumnLeTransitive(c, a, b, d);
    }
    forall a: Item, b: Item, d: Item | ColumnLe(c, b, a) && ColumnLe(c, d, b) ensures ColumnLe(c, d, a) {
      ColumnLeTransitive(c, d, b, a);
    }
  }

  /** The filters in the query string of `index`/`trashed`. Flags arrive
      as raw strings and are read with PHP truthiness, so "0" and "" switch
      them off. */
  datatype ItemFilter = ItemFilter(
    search: Option<string>,
    category: Option<string>,
    lowStock: Option<string>,
    active: Option<string>)

  /** The whole query string: filters, sort column and order, page. */
  datatype Query = Query(filter: ItemFilter, sortBy: Column, sortOrder: SortOrder, page: int, perPage: nat)

  /** `name LIKE '%s%' OR sku LIKE '%s%'`. */
  predicate MatchesSearch(item: Item, search: Option<string>) {
    search.None? || Like(item.name, search.value) || Like(item.sku, search.value)
  }

  /** All filters of the item index. The category is compared with SQL
      `=`, which the case-insensitive collation reads as `SameText`. */
  predicate MatchesQuery(item: Item, f: ItemFilter) {
    && MatchesSearch(item, f.search)
    && (f.category.None? || SameText(item.category, f.category.value))
    && (TruthyOpt(f.lowStock) ==> IsLowStock(item))
    && (TruthyOpt(f.active) ==> item.isActive)
  }

  /** The letter case of the requested category never changes which
      items match: "elektronik" selects the items of "Elektronik". */
  lemma CategoryCaseIrrelevant(item: Item, f: ItemFilter, c: string)
    ensures MatchesQuery(item, f.(category := Some(c))) <==> MatchesQuery(item, f.(category := Some(Fold(c))))
  {
    FoldIdempotent(c);
  }

  /** The filters as the `where` clause of the listing. */
  function Where(f: ItemFilter): Item -> bool {
    (x: Item) => MatchesQuery(x, f)
  }

  /** Filters, sorts and paginates: the page is page `q.page` of the
      matching rows arranged in the requested order. */
  function SortAndPage(rows: seq<Item>, q: Query): (p: Listing.Page<Item>)
    ensures forall i :: 0 <= i < |p.items| ==> p.items[i] in rows && MatchesQuery(p.items[i], q.filter)
    ensures Listing.SortedBy(p.items, OrderBy(q.sortBy, q.sortOrder))
    ensures p.total == |Listing.Filter(rows, Where(q.filter))|
    ensures Listing.IsPageOf(p, rows, Where(q.filter), OrderBy(q.sortBy, q.sortOrder), q.page, q.perPage)
  {
    OrderByIsTotalPreorder(q.sortBy, q.sortOrder);
    Listing.Query(rows, Where(q.filter), OrderBy(q.sortBy, q.sortOrder), q.page, q.perPage)
  }

  /** Every matching row is on one of the pages 1 to `lastPage` of the
      listing. */
  lemma SortAndPageFindsMatch(rows: seq<Item>, q: Query, x: Item)
    requires x in rows && MatchesQuery(x, q.filter)
    ensures exists k :: 1 <= k <= SortAndPage(rows, q).lastPage && x in SortAndPage(rows, q.(page := k)).items
  {
    var le := OrderBy(q.sortBy, q.sortOrder);
    OrderByIsTotalPreorder(q.sortBy, q.sortOrder);
    Listing.QueryFindsMatch(rows, Where(q.filter), le, q.perPage, x);
    var k :| 1 <= k <= Listing.LastPage(|Listing.Filter(rows, Where(q.filter))|, Listing.PageSize(q.perPage))
      && x in Listing.Query(rows, Where(q.filter), le, k, q.perPage).items;
    assert SortAndPage(rows, q.(page := k)) == Listing.Query(rows, Where(q.filter), le, k, q.perPage);
  }

  /** The live rows in id order, as `index` reads the table: each is the
      row stored under its id, and every live row below `bound` is there. */
  function IndexRows(rows: map<nat, Item>, bound: nat): (r: seq<Item>)
    requires forall id :: id in rows ==> rows[id].id == id
    ensures forall i :: 0 <= i < |r| ==> r[i].id in rows && rows[r[i].id] == r[i] && !IsTrashed(r[i])
    ensures forall id :: id in rows && id < bound && !IsTrashed(rows[id]) ==> rows[id] in r
  {
    var all := RowsInIdOrder(rows, bound);
    forall id | id in rows && id < bound && !IsTrashed(rows[id]) ensures rows[id] in LiveRows(all) {
      var k :| 0 <= k < |all| && all[k] == rows[id];
    }
    LiveRows(all)
  }

  /** `index`: the live rows, filtered, sorted (default: name ascending)
      and paginated (default 15 per page). */
  function Index(rows: map<nat, Item>, bound: nat, q: Query): (p: Listing.Page<Item>)
    requires forall id :: id in rows ==> rows[id].id == id
    ensures forall i :: 0 <= i < |p.items| ==> p.items[i] in IndexRows(rows, bound) && MatchesQuery(p.items[i], q.filter)
    ensures Listing.SortedBy(p.items, OrderBy(q.sortBy, q.sortOrder))
    ensures p.total == |Listing.Filter(IndexRows(rows, bound), Where(q.filter))|
    ensures Listing.IsPageOf(p, IndexRows(rows, bound), Where(q.filter), OrderBy(q.sortBy, q.sortOrder), q.page, q.perPage)
  {
    SortAndPage(IndexRows(rows, bound), q)
  }

  /** Every live row below `bound` that matches the filters is listed by
      `index` on one of its pages. */
  lemma IndexListsEveryMatch(rows: map<nat, Item>, bound: nat, q: Query, id: nat)
    requires forall k :: k in rows ==> rows[k].id == k
    requires id in rows && id < bound && !IsTrashed(rows[id]) && MatchesQuery(rows[id], q.filter)
    ensures exists k :: 1 <= k <= Index(rows, bound, q).lastPage && rows[id] in Index(rows, bound, q.(page := k)).items
  {
    SortAndPageFindsMatch(IndexRows(rows, bound), q, rows[id]);
  }

  /** `trashed` filters on `search` only. */
  function TrashFilter(f: ItemFilter): ItemFilter {
    ItemFilter(f.search, None, None, None)
  }

  /** The trashed rows in id order, as `trashed` reads the table: each is
      the row stored under its id, and every trashed row below `bound` is
      there. */
  function TrashRows(rows: map<nat, Item>, bound: nat): (r: seq<Item>)
    requires forall id :: id in rows ==> rows[id].id == id
    ensures forall i :: 0 <= i < |r| ==> r[i].id in rows && rows[r[i].id] == r[i] && IsTrashed(r[i])
    ensures forall id :: id in rows && id < bound && IsTrashed(rows[id]) ==> rows[id] in r
  {
    var all := RowsInIdOrder(rows, bound);
    forall id | id in rows && id < bound && IsTrashed(rows[id]) ensures rows[id] in TrashedRows(all) {
      var k :| 0 <= k < |all| && all[k] == rows[id];
    }
    TrashedRows(all)
  }

  /** `trashed`: the soft-deleted rows, searched, sorted (default:
      `deleted_at` descending) and paginated. */
  function Trashed(rows: map<nat, Item>, bound: nat, q: Query): (p: Listing.Page<Item>)
    requires forall id :: id in rows ==> rows[id].id == id
    ensures forall i :: 0 <= i < |p.items| ==> p.items[i] in TrashRows(rows, bound) && MatchesSearch(p.items[i], q.filter.search)
    ensures Listing.SortedBy(p.items, OrderBy(q.sortBy, q.sortOrder))
    ensures p.total == |Listing.Filter(TrashRows(rows, bound), Where(TrashFilter(q.filter)))|
    ensures Listing.IsPageOf(p, TrashRows(rows, bound), Where(TrashFilter(q.filter)), OrderBy(q.sortBy, q.sortOrder), q.page, q.perPage)
  {
    SortAndPage(TrashRows(rows, bound), q.(filter := TrashFilter(q.filter)))
  }

  /** Every trashed row below `bound` whose name or SKU matches the search
      is listed by `trashed` on one of its pages. */
  lemma TrashedListsEveryMatch(rows: map<nat, Item>, bound: nat, q: Query, id: nat)
    requires forall k :: k in rows ==> rows[k].id == k
    requires id in rows && id < bound && IsTrashed(rows[id]) && MatchesSearch(rows[id], q.filter.search)
    ensures exists k :: 1 <= k <= Trashed(rows, bound, q).lastPage && rows[id] in Trashed(rows, bound, q.(page := k)).items
  {
    var trash, q' := TrashRows(rows, bound), q.(filter := TrashFilter(q.filter));
    assert MatchesQuery(rows[id], q'.filter);
    SortAndPageFindsMatch(trash, q', rows[id]);
    var k :| 1 <= k <= SortAndPage(trash, q').lastPage && rows[id] in SortAndPage(trash, q'.(page := k)).items;
    assert Trashed(rows, bound, q) == SortAndPage(trash, q');
    assert q'.(page := k) == q.(page := k).(filter := TrashFilter(q.filter));
    assert Trashed(rows, bound, q.(page := k)) == SortAndPage(trash, q'.(page := k));
  }

  /** The defaults of the two listings. */
  function IndexQuery(page: int): Query {
    Query(ItemFilter(None, None, None, None), Name, Asc, page, 15)
  }

  function TrashedQuery(page: int): Query {
    Query(ItemFilter(None, None, None, None), DeletedAt, Desc, page, 15)
  }

  const SecondsPerDay := 86400

  /** `whereDate(created_at, ...)` compares calendar days; the model counts
      days from the epoch in the application's time zone. */
  function Day(t: int): int {
    t / SecondsPerDay
  }

  /** The filters of `stockMovements`. */
  datatype MovementFilter = MovementFilter(
    itemId: Option<nat>,
    kind: Option<Direction>,
    dateFrom: Option<int>,
    dateTo: Option<int>)

  predicate MatchesMovement(m: Movement, f: MovementFilter) {
    && (f.itemId.None? || m.itemId == f.itemId.value)
    && (f.kind.None? || m.kind == f.kind.value)
    && (f.dateFrom.None? || Day(m.createdAt) >= f.dateFrom.value)
    && (f.dateTo.None? || Day(m.createdAt) <= f.dateTo.value)
  }

  function MovementWhere(f: MovementFilter): Movement -> bool {
    (m: Movement) => MatchesMovement(m, f)
  }

  function NewestFirst(): (Movement, Movement) -> bool {
    (a: Movement, b: Movement) => a.createdAt >= b.createdAt
  }

  lemma NewestFirstIsTotalPreorder()
    ensures Listing.TotalPreorder(NewestFirst())
  {
  }

  /** `stockMovements`: page `page` of the matching ledger entries, newest
      first (default 15 per page). */
  function StockMovements(ledger: seq<Movement>, f: MovementFilter, page: int, perPage: nat): (p: Listing.Page<Movement>)
    ensures forall i :: 0 <= i < |p.items| ==> p.items[i] in ledger && MatchesMovement(p.items[i], f)
    ensures Listing.SortedBy(p.items, NewestFirst())
    ensures p.total == |Listing.Filter(ledger, MovementWhere(f))|
    ensures Listing.IsPageOf(p, ledger, MovementWhere(f), NewestFirst(), page, perPage)
  {
    Listing.Query(ledger, MovementWhere(f), NewestFirst(), page, perPage)
  }

  /** Every ledger entry that matches the filters is listed on one of the
      pages of `stockMovements`. */
  lemma StockMovementsListsEveryMatch(ledger: seq<Movement>, f: MovementFilter, perPage: nat, i: nat)
    requires i < |ledger| && MatchesMovement(ledger[i], f)
    ensures exists k ::
      1 <= k <= StockMovements(ledger, f, 1, perPage).lastPage && ledger[i] in StockMovements(ledger, f, k, perPage).items
  {
    NewestFirstIsTotalPreorder();
    Listing.QueryFindsMatch(ledger, MovementWhere(f), NewestFirst(), perPage, ledger[i]);
    var k :| 1 <= k <= Listing.LastPage(|Listing.Filter(ledger, MovementWhere(f))|, Listing.PageSize(perPage))
      && ledger[i] in Listing.Query(ledger, MovementWhere(f), NewestFirst(), k, perPage).items;
    assert StockMovements(ledger, f, k, perPage) == Listing.Query(ledger, MovementWhere(f), NewestFirst(), k, perPage);
  }

  /** Where an item id stands in the soft-delete lifecycle. */
  datatype Lifecycle = Live | InTrash | Gone

  function LifecycleOf(rows: map<nat, Item>, id: nat): Lifecycle {
    if id !in rows then Gone else if IsTrashed(rows[id]) then InTrash else Live
  }

  /** The table invariants: each row is stored under its own id, below the
      next id to hand out; stock and minimum stock fit their INT columns;
      no two rows share a SKU up to letter case; every ledger entry is well formed. */
  ghost predicate StoreValid(rows: map<nat, Item>, ledger: seq<Movement>, nextId: nat) {
    && (forall id :: id in rows ==> rows[id].id == id && id < nextId)
    && (forall id :: id in rows ==> FitsColumn(rows[id].stock) && FitsColumn(rows[id].minStock))
    && (forall id1, id2 :: id1 in rows && id2 in rows && SameText(rows[id1].sku, rows[id2].sku) ==> id1 == id2)
    && (forall i :: 0 <= i < |ledger| ==> WellFormed(ledger[i]))
  }

  /** Writing a stock that fits the column and appending a well-formed
      movement keeps the table invariants. */
  lemma StockWriteKeepsValid(rows: map<nat, Item>, ledger: seq<Movement>, nextId: nat, id: nat, stock: int, m: Movement)
    requires StoreValid(rows, ledger, nextId) && id in rows
    requires FitsColumn(stock) && WellFormed(m)
    ensures StoreValid(rows[id := rows[id].(stock := stock)], ledger + [m], nextId)
  {
  }

  /** The item store and the ledger, as the two tables hold them. */
  class Inventory {
    var rows: map<nat, Item>
    var ledger: seq<Movement>
    var nextId: nat

    ghost predicate Valid()
      reads this
    {
      StoreValid(rows, ledger, nextId)
    }

    constructor ()
      ensures Valid() && rows == map[] && ledger == [] && nextId == 1
    {
      rows := map[];
      ledger := [];
      nextId := 1;
    }

    function State(id: nat): Lifecycle
      reads this
    {
      LifecycleOf(rows, id)
    }

    /** `stockIn` and `stockOut`: see `ApplyStock`. */
    method ApplyMovement(id: nat, req: StockRequest) returns (r: Result<Item, Error>)
      requires Valid()
      modifies this
      ensures Valid() && nextId == old(nextId)
      ensures (r, rows, ledger) == (ApplyStock(old(rows), old(ledger), id, req).result,
                                   ApplyStock(old(rows), old(ledger), id, req).rows,
                                   ApplyStock(old(rows), old(ledger), id, req).ledger)
      ensures r.Ok? ==> InSync(rows, ledger, id)
    {
      if id !in rows || IsTrashed(rows[id]) {
        return Err(NotFound);
      }
      var item := rows[id];
      var invalid := ValidateStock(item.stock, req);
      if invalid.Some? {
        return Err(invalid.value);
      }
      var stockBefore := item.stock;
      var stockAfter := if req.kind == In then stockBefore + req.quantity else stockBefore - req.quantity;
      if stockAfter > IntColumnMax {
        return Err(OutOfRange);
      }
      var updated := item.(stock := stockAfter);
      var entry := Movement(id, req.userId, req.kind, req.quantity, stockBefore, stockAfter,
                            req.note, req.referenceNumber, req.at);
      StockWriteKeepsValid(rows, ledger, nextId, id, stockAfter, entry);
      rows := rows[id := updated];
      ledger := ledger + [entry];
      r := Ok(updated);
      ApplyStockSyncs(old(rows), old(ledger), id, req, id);
    }

    method StockIn(id: nat, quantity: int, userId: nat, note: Option<string>, referenceNumber: Option<string>, at: int)
      returns (r: Result<Item, Error>)
      requires Valid()
      modifies this
      ensures Valid() && nextId == old(nextId)
      ensures var out := ApplyStock(old(rows), old(ledger), id, StockRequest(In, quantity, userId, note, referenceNumber, at));
        r == out.result && rows == out.rows && ledger == out.ledger
      ensures r.Ok? ==> r.value.stock == old(rows[id].stock) + quantity && InSync(rows, ledger, id)
      ensures old(State(id)) == Live && 1 <= quantity && old(rows[id].stock) + quantity <= IntColumnMax ==>
        (note.None? || |note.value| <= 500) && (referenceNumber.None? || |referenceNumber.value| <= 100) ==> r.Ok?
    {
      r := ApplyMovement(id, StockRequest(In, quantity, userId, note, referenceNumber, at));
    }

    method StockOut(id: nat, quantity: int, userId: nat, note: Option<string>, referenceNumber: Option<string>, at: int)
      returns (r: Result<Item, Error>)
      requires Valid()
      modifies this
      ensures Valid() && nextId == old(nextId)
      ensures var out := ApplyStock(old(rows), old(ledger), id, StockRequest(Out, quantity, userId, note, referenceNumber, at));
        r == out.result && rows == out.rows && ledger == out.ledger
      ensures r.Ok? ==> 0 <= r.value.stock == old(rows[id].stock) - quantity && InSync(rows, ledger, id)
      ensures old(State(id)) == Live && 1 <= quantity <= old(rows[id].stock) ==>
        (note.None? || |note.value| <= 500) && (referenceNumber.None? || |referenceNumber.value| <= 100) ==> r.Ok?
    {
      r := ApplyMovement(id, StockRequest(Out, quantity, userId, note, referenceNumber, at));
    }

    /** `store`: validates, then inserts a live row under the next id. */
    method Store(input: ItemInput, image: Option<string>) returns (r: Result<Item, Error>)
      requires Valid()
      modifies this
      ensures Valid() && ledger == old(ledger)
      ensures ValidateItem(old(rows), input, None).Some? ==>
        r == Err(ValidateItem(old(rows), input, None).value) && rows == old(rows) && nextId == old(nextId)
      ensures ValidateItem(old(rows), input, None).None? ==>
        && r == Ok(Item(old(nextId), input.name, input.sku, input.stock, input.unit, input.category,
                        input.minStock, input.description, input.supplier, image,
                        input.isActive.GetOr(true), None))
        && rows == old(rows)[old(nextId) := r.value]
        && nextId == old(nextId) + 1
        && State(r.value.id) == Live
    {
      var invalid := ValidateItem(rows, input, None);
      if invalid.Some? {
        return Err(invalid.value);
      }
      var item := Item(nextId, input.name, input.sku, input.stock, input.unit, input.category,
                       input.minStock, input.description, input.supplier, image,
                       input.isActive.GetOr(true), None);
      rows := rows[nextId := item];
      nextId := nextId + 1;
      r := Ok(item);
    }

    /** `update`: binds a live row, validates with the row's own SKU
        allowed, and overwrites the sent fields, `stock` included (without a
        ledger entry). A new image replaces the old one, whose file name is
        returned for removal. */
    method Update(id: nat, input: ItemInput, newImage: Option<string>)
      returns (r: Result<Item, Error>, unlinked: Option<string>)
      requires Valid()
      modifies this
      ensures Valid() && ledger == old(ledger) && nextId == old(nextId)
      ensures old(State(id)) != Live ==> r == Err(NotFound) && rows == old(rows)
      ensures old(State(id)) == Live && ValidateItem(old(rows), input, Some(id)).Some? ==>
        r == Err(ValidateItem(old(rows), input, Some(id)).value) && rows == old(rows)
      ensures old(State(id)) == Live && ValidateItem(old(rows), input, Some(id)).None? ==> r.Ok?
      ensures r.Ok? ==>
        var before := old(rows[id]);
        && r.value == before.(name := input.name, sku := input.sku, stock := input.stock,
                              unit := input.unit, category := input.category, minStock := input.minStock,
                              description := if input.description.Some? then input.description else before.description,
                              supplier := if input.supplier.Some? then input.supplier else before.supplier,
                              isActive := input.isActive.GetOr(before.isActive),
                              image := if newImage.Some? then newImage else before.image)
        && rows == old(rows)[id := r.value]
        && unlinked == (if newImage.Some? && TruthyOpt(before.image) then before.image else None)
      ensures r.Err? ==> unlinked.None?
    {
      unlinked := None;
      if id !in rows || IsTrashed(rows[id]) {
        return Err(NotFound), None;
      }
      var invalid := ValidateItem(rows, input, Some(id));
      if invalid.Some? {
        return Err(invalid.value), None;
      }
      var before := rows[id];
      if newImage.Some? && TruthyOpt(before.image) {
        unlinked := before.image;
      }
      var item := before.(name := input.name, sku := input.sku, stock := input.stock,
                          unit := input.unit, category := input.category, minStock := input.minStock,
                          description := if input.description.Some? then input.description else before.description,
                          supplier := if input.supplier.Some? then input.supplier else before.supplier,
                          isActive := input.isActive.GetOr(before.isActive),
                          image := if newImage.Some? then newImage else before.image);
      rows := rows[id := item];
      r := Ok(item);
    }

    /** `destroy`: soft delete. The row is bound by route-model binding, so
        only a live row is found; it moves to the trash. */
    method Destroy(id: nat, now: int) returns (r: Result<(), Error>)
      requires Valid()
      modifies this
      ensures Valid() && ledger == old(ledger) && nextId == old(nextId)
      ensures old(State(id)) != Live ==> r == Err(NotFound) && rows == old(rows)
      ensures old(State(id)) == Live ==>
        && r == Ok(())
        && rows == old(rows)[id := old(rows[id]).(deletedAt := Some(now))]
        && State(id) == InTrash
    {
      if id !in rows || IsTrashed(rows[id]) {
        return Err(NotFound);
      }
      rows := rows[id := rows[id].(deletedAt := Some(now))];
      r := Ok(());
    }

    /** `restore`: found through `withTrashed()`, so any existing row,
        live or trashed, is made live; only an unknown id fails. */
    method Restore(id: nat) returns (r: Result<Item, Error>)
      requires Valid()
      modifies this
      ensures Valid() && ledger == old(ledger) && nextId == old(nextId)
      ensures old(State(id)) == Gone ==> r == Err(NotFound) && rows == old(rows)
      ensures old(State(id)) != Gone ==>
        && r == Ok(old(rows[id]).(deletedAt := None))
        && rows == old(rows)[id := r.value]
        && State(id) == Live
    {
      if id !in rows {
        return Err(NotFound);
      }
      var item := rows[id].(deletedAt := None);
      rows := rows[id := item];
      r := Ok(item);
    }

    /** `forceDelete`: found through `withTrashed()`, so a live row can be
        removed as well as a trashed one; the row is gone for good and the
        name of its image file, when it has one, is returned for removal.
        The ledger keeps the item's movements. */
    method ForceDelete(id: nat) returns (r: Result<Option<string>, Error>)
      requires Valid()
      modifies this
      ensures Valid() && ledger == old(ledger) && nextId == old(nextId)
      ensures old(State(id)) == Gone ==> r == Err(NotFound) && rows == old(rows)
      ensures old(State(id)) != Gone ==>
        && r == Ok(if TruthyOpt(old(rows[id]).image) then old(rows[id]).image else None)
        && rows == old(rows) - {id}
        && State(id) == Gone
    {
      if id !in rows {
        return Err(NotFound);
      }
      var image := rows[id].image;
      rows := rows - {id};
      r := Ok(if TruthyOpt(image) then image else None);
    }

    /** `index` over the current rows. */
    function List(q: Query): Listing.Page<Item>
      reads this
      requires Valid()
    {
      Index(rows, nextId, q)
    }

    /** `trashed` over the current rows. */
    function ListTrashed(q: Query): Listing.Page<Item>
      reads this
      requires Valid()
    {
      Trashed(rows, nextId, q)
    }
  }

  /** A row is in exactly one of the two listings' unfiltered rows: the
      live rows when `deleted_at` is null, the trashed rows otherwise. */
  lemma ListingsPartition(rows: map<nat, Item>, bound: nat, id: nat)
    requires forall k :: k in rows ==> rows[k].id == k
    requires id in rows && id < bound
    ensures !IsTrashed(rows[id]) ==>
      rows[id] in LiveRows(RowsInIdOrder(rows, bound)) && forall x :: x in TrashedRows(RowsInIdOrder(rows, bound)) ==> x.id != id
    ensures IsTrashed(rows[id]) ==>
      rows[id] in TrashedRows(RowsInIdOrder(rows, bound)) && forall x :: x in LiveRows(RowsInIdOrder(rows, bound)) ==> x.id != id
  {
    var all := RowsInIdOrder(rows, bound);
    var k :| 0 <= k < |all| && all[k] == rows[id];
    forall x | x in TrashedRows(all) ensures !IsTrashed(rows[id]) ==> x.id != id {
      Listing.FilterMember(all, (y: Item) => IsTrashed(y), x);
    }
    forall x | x in LiveRows(all) ensures IsTrashed(rows[id]) ==> x.id != id {
      Listing.FilterMember(all, (y: Item) => !IsTrashed(y), x);
    }
  }

  /** Soft delete moves a row from the `index` rows to the `trashed` rows. */
  lemma DestroyMovesBetweenListings(rows: map<nat, Item>, bound: nat, id: nat, now: int)
    requires forall k :: k in rows ==> rows[k].id == k
    requires id in rows && id < bound && !IsTrashed(rows[id])
    ensures rows[id] in LiveRows(RowsInIdOrder(rows, bound))
    ensures
      var after := rows[id := rows[id].(deletedAt := Some(now))];
      && after[id] in TrashedRows(RowsInIdOrder(after, bound))
      && forall x :: x in LiveRows(RowsInIdOrder(after, bound)) ==> x.id != id
  {
    ListingsPartition(rows, bound, id);
    ListingsPartition(rows[id := rows[id].(deletedAt := Some(now))], bound, id);
  }

  /** A soft-deleted item whose name or SKU matches the search is listed
      by `trashed` on one of its pages. */
  lemma DestroyedIsListedInTrash(rows: map<nat, Item>, bound: nat, id: nat, now: int, q: Query)
    requires forall k :: k in rows ==> rows[k].id == k
    requires id in rows && id < bound && !IsTrashed(rows[id]) && MatchesSearch(rows[id], q.filter.search)
    ensures
      var after := rows[id := rows[id].(deletedAt := Some(now))];
      exists k :: 1 <= k <= Trashed(after, bound, q).lastPage && after[id] in Trashed(after, bound, q.(page := k)).items
  {
    var after := rows[id := rows[id].(deletedAt := Some(now))];
    assert MatchesSearch(after[id], q.filter.search);
    TrashedListsEveryMatch(after, bound, q, id);
  }

  /** `update` accepts an item's own SKU, however its letters are cased,
      when the rest of the request is valid... */
  lemma OwnSkuAccepted(rows: map<nat, Item>, nextId: nat, ledger: seq<Movement>, input: ItemInput, id: nat)
    requires StoreValid(rows, ledger, nextId) && id in rows && SameText(input.sku, rows[id].sku)
    ensures !SkuTaken(rows, input.sku, Some(id))
  {
  }

  /** ...and refuses the SKU of any other row, live or trashed, once the
      name is valid. */
  lemma OtherSkuRefused(rows: map<nat, Item>, input: ItemInput, id: nat, other: nat)
    requires other in rows && other != id && SameText(input.sku, rows[other].sku)
    requires 1 <= |input.name| <= 255 && 1 <= |input.sku| <= 255
    ensures ValidateItem(rows, input, Some(id)) == Some(Invalid("sku"))
  {
  }
}
