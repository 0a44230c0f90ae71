/** The two catalogs items refer to by name: categories
    (backend/app/Http/Controllers/Api/CategoryController.php) and units
    (backend/app/Http/Controllers/Api/UnitController.php). The controllers
    differ only in their table, their messages, the name's length limit
    and the unit's extra `symbol` column, so one model serves both, told
    apart by a `Kind`. */
module Catalog {
  import opened Base
  import Listing

  datatype Kind = CategoryKind | UnitKind

  /** `name` is `max:100` for categories and `max:50` for units. */
  function NameLimit(kind: Kind): nat {
    if kind == CategoryKind then 100 else 50
  }

  /** One row of `categories` or `units`; `symbol` is always absent for a
      category. */
  datatype Entry = Entry(
    id: nat,
    name: string,
    description: Option<string>,
    symbol: Option<string>,
    isActive: bool,
    deletedAt: Option<int>)

  predicate IsLive(e: Entry) {
    e.deletedAt.None?
  }

  datatype CatalogError =
    | NotFound                          // route-model binding finds no live row: 404
    | Invalid(field: string)            // a validation rule fails: 422
    | InUse(count: nat, message: string)  // `destroy` refused: items still refer to the entry: 422

  function Noun(kind: Kind): string {
    if kind == CategoryKind then "Kategori" else "Satuan"
  }

  const InUseMiddle := " tidak dapat dihapus karena sedang digunakan oleh "
  const InUseSuffix := " barang"

  /** The refusal message of `destroy`, with the reference count in it. */
  function InUseMessage(kind: Kind, count: nat): string {
    Noun(kind) + InUseMiddle + NatToString(count) + InUseSuffix
  }

  /** The success message of `destroy`. */
  function DeletedMessage(kind: Kind): string {
    Noun(kind) + " berhasil dihapus"
  }

  /** Reads the count back out of a refusal message. */
  function CountIn(kind: Kind, message: string): Option<nat> {
    var head := Noun(kind) + InUseMiddle;
    if |message| < |head| + |InUseSuffix| then None
    else
      var digits := message[|head|..|message| - |InUseSuffix|];
      if message[..|head|] == head && message[|message| - |InUseSuffix|..] == InUseSuffix && AllDigits(digits)
      then Some(DigitsValue(digits))
      else None
  }

  /** The refusal message carries the exact reference count. */
  lemma InUseMessageCarriesCount(kind: Kind, count: nat)
    ensures CountIn(kind, InUseMessage(kind, count)) == Some(count)
  {
    var head := Noun(kind) + InUseMiddle;
    var message := InUseMessage(kind, count);
    var digits := NatToString(count);
    assert message == head + digits + InUseSuffix;
    assert message[..|head|] == head;
    assert message[|head|..|message| - |InUseSuffix|] == digits;
    assert message[|message| - |InUseSuffix|..] == InUseSuffix;
    NatToStringRoundTrip(count);
  }

  /** A create or update request. For `update`, an absent optional field
      (`None`) is not sent and keeps its value. */
  datatype EntryInput = EntryInput(
    name: string,
    description: Option<string>,
    symbol: Option<string>,
    isActive: Option<bool>)

  /** `unique:<table>,name[,<id>]`: some row other than `except` already
      has this name, compared under the case-insensitive collation. The
      rule queries the table itself, so trashed rows count too. */
  predicate NameTaken(entries: map<nat, Entry>, name: string, except: Option<nat>) {
    exists id :: id in entries && SameText(entries[id].name, name) && except != Some(id)
  }

  /** The `store`/`update` rules; `None` when the request is accepted. */
  function ValidateEntry(kind: Kind, entries: map<nat, Entry>, input: EntryInput, except: Option<nat>): Option<CatalogError> {
    if input.name == "" || |input.name| > NameLimit(kind) || NameTaken(entries, input.name, except) then Some(Invalid("name"))
    else if input.description.Some? && |input.description.value| > 255 then Some(Invalid("description"))
    else if kind == UnitKind && input.symbol.Some? && |input.symbol.value| > 10 then Some(Invalid("symbol"))
    else None
  }

  /** A row's own name, however its letters are cased, is refused for a
      new row, and never stands in the way of the row's own update: that
      update is accepted exactly when the description and the symbol are
      within their limits. */
  lemma ValidateEntryNames(kind: Kind, entries: map<nat, Entry>, input: EntryInput, id: nat)
    requires forall a, b :: a in entries && b in entries && SameText(entries[a].name, entries[b].name) ==> a == b
    requires id in entries && SameText(input.name, entries[id].name) && 1 <= |input.name| <= NameLimit(kind)
    ensures ValidateEntry(kind, entries, input, None) == Some(Invalid("name"))
    ensures !NameTaken(entries, input.name, Some(id))
    ensures ValidateEntry(kind, entries, input, Some(id)).None? <==>
      && (input.description.None? || |input.description.value| <= 255)
      && (kind == CategoryKind || input.symbol.None? || |input.symbol.value| <= 10)
  {
  }

  /** The name of any other row, live or trashed, is refused. */
  lemma OtherNameRefused(kind: Kind, entries: map<nat, Entry>, input: EntryInput, id: nat, other: nat)
    requires other in entries && other != id && SameText(input.name, entries[other].name)
    ensures ValidateEntry(kind, entries, input, Some(id)) == Some(Invalid("name"))
  {
  }

  /** `options`: the live, active rows ordered by name. */
  function Options(rows: seq<Entry>): (r: seq<Entry>)
    ensures forall i :: 0 <= i < |r| ==> r[i] in rows && IsLive(r[i]) && r[i].isActive
    ensures forall i :: 0 <= i < |rows| && IsLive(rows[i]) && rows[i].isActive ==> rows[i] in r
    ensures Listing.SortedBy(r, (a: Entry, b: Entry) => CiLe(a.name, b.name))
    ensures multiset(r) == multiset(Listing.Filter(rows, (e: Entry) => IsLive(e) && e.isActive))
  {
    var selected := Listing.Filter(rows, (e: Entry) => IsLive(e) && e.isActive);
    var le := (a: Entry, b: Entry) => CiLe(a.name, b.name);
    NameOrderIsTotalPreorder();
    Listing.SortBySorted(selected, le);
    var r := Listing.SortBy(selected, le);
    forall i | 0 <= i < |r| ensures r[i] in rows && IsLive(r[i]) && r[i].isActive {
      assert r[i] in multiset(r);
      Listing.FilterMember(rows, (e: Entry) => IsLive(e) && e.isActive, r[i]);
    }
    forall i | 0 <= i < |rows| && IsLive(rows[i]) && rows[i].isActive ensures rows[i] in r {
      assert rows[i] in multiset(selected);
    }
    r
  }

  lemma NameOrderIsTotalPreorder()
    ensures Listing.TotalPreorder((a: Entry, b: Entry) => CiLe(a.name, b.name))
  {
    forall a: Entry, b: Entry ensures CiLe(a.name, b.name) || CiLe(b.name, a.name) {
      CiLeTotal(a.name, b.name);
    }
    forall a: Entry, b: Entry, c: Entry | CiLe(a.name, b.name) && CiLe(b.name, c.name)
      ensures CiLe(a.name, c.name)
    {
      CiLeTransitive(a.name, b.name, c.name);
    }
  }

  /** The filters of `index`: `search` matches the name, the description
      or (units) the symbol; `active` is read with PHP truthiness. */
  datatype CatalogFilter = CatalogFilter(search: Option<string>, active: Option<string>)

  /** The columns `index` may sort on. */
  datatype EntryColumn = ByName | ByDescription | BySymbol | ByActive | ById

  /** The query string of `index`; the page size defaults to 50. */
  datatype CatalogQuery = CatalogQuery(filter: CatalogFilter, sortBy: EntryColumn, ascending: bool, page: int, perPage: nat)

  predicate MatchesText(field: Option<string>, search: string) {
    field.Some? && Like(field.value, search)
  }

  predicate MatchesCatalogQuery(e: Entry, f: CatalogFilter) {
    && IsLive(e)
    && (f.search.None? || Like(e.name, f.search.value) || MatchesText(e.description, f.search.value)
        || MatchesText(e.symbol, f.search.value))
    && (TruthyOpt(f.active) ==> e.isActive)
  }

  /** The filters as the `where` clause of `index`. */
  function CatalogWhere(f: CatalogFilter): Entry -> bool {
    (e: Entry) => MatchesCatalogQuery(e, f)
  }

  /** `ORDER BY column ASC`: text under the case-insensitive collation,
      null and `false` first. */
  predicate EntryLe(c: EntryColumn, a: Entry, b: Entry) {
    match c
    case ByName => CiLe(a.name, b.name)
    case ByDescription => OptLe(a.description, b.description)
    case BySymbol => OptLe(a.symbol, b.symbol)
    case ByActive => !a.isActive || b.isActive
    case ById => a.id <= b.id
  }

  function EntryOrder(c: EntryColumn, ascending: bool): (Entry, Entry) -> bool {
    if ascending then (a: Entry, b: Entry) => EntryLe(c, a, b)
    else (a: Entry, b: Entry) => EntryLe(c, b, a)
  }

  lemma EntryLeTotal(c: EntryColumn, a: Entry, b: Entry)
    ensures EntryLe(c, a, b) || EntryLe(c, b, a)
  {
    match c
    case ByName => CiLeTotal(a.name, b.name);
    case ByDescription => OptLeTotal(a.description, b.description);
    case BySymbol => OptLeTotal(a.symbol, b.symbol);
    case _ =>
  }

  lemma EntryLeTransitive(c: EntryColumn, a: Entry, b: Entry, d: Entry)
    requires EntryLe(c, a, b) && EntryLe(c, b, d)
    ensures EntryLe(c, a, d)
  {
    match c
    case ByName => CiLeTransitive(a.name, b.name, d.name);
    case ByDescription => OptLeTransitive(a.description, b.description, d.description);
    case BySymbol => OptLeTransitive(a.symbol, b.symbol, d.symbol);
    case _ =>
  }

  /** Every sort column, either way round, is one `SortBy` can use. */
  lemma EntryOrderIsTotalPreorder(c: EntryColumn, ascending: bool)
    ensures Listing.TotalPreorder(EntryOrder(c, ascending))
  {
    forall a: Entry, b: Entry ensures EntryLe(c, a, b) || EntryLe(c, b, a) {
      EntryLeTotal(c, a, b);
    }
    forall a: Entry, b: Entry, d: Entry | EntryLe(c, a, b) && EntryLe(c, b, d) ensures EntryLe(c, a, d) {
      EntryLeTransitive(c, a, b, d);
    }
    forall a: Entry, b: Entry, d: Entry | EntryLe(c, b, a) && EntryLe(c, d, b) ensures EntryLe(c, d, a) {
      EntryLeTransitive(c, d, b, a);
    }
  }

  /** `index`: page `q.page` of the live rows that match, arranged in the
      requested order. */
  function Index(rows: seq<Entry>, q: CatalogQuery): (p: Listing.Page<Entry>)
    ensures forall i :: 0 <= i < |p.items| ==> p.items[i] in rows && MatchesCatalogQuery(p.items[i], q.filter)
    ensures Listing.SortedBy(p.items, EntryOrder(q.sortBy, q.ascending))
    ensures p.total == |Listing.Filter(rows, CatalogWhere(q.filter))|
    ensures Listing.IsPageOf(p, rows, CatalogWhere(q.filter), EntryOrder(q.sortBy, q.ascending), q.page, q.perPage)
  {
    EntryOrderIsTotalPreorder(q.sortBy, q.ascending);
    Listing.Query(rows, CatalogWhere(q.filter), EntryOrder(q.sortBy, q.ascending), q.page, q.perPage)
  }

  /** Every live row that matches the filters is listed on one of the
      pages of `index`. */
  lemma IndexListsEveryMatch(rows: seq<Entry>, q: CatalogQuery, e: Entry)
    requires e in rows && MatchesCatalogQuery(e, q.filter)
    ensures exists k :: 1 <= k <= Index(rows, q).lastPage && e in Index(rows, q.(page := k)).items
  {
    var le := EntryOrder(q.sortBy, q.ascending);
    EntryOrderIsTotalPreorder(q.sortBy, q.ascending);
    Listing.QueryFindsMatch(rows, CatalogWhere(q.filter), le, q.perPage, e);
    var k :| 1 <= k <= Listing.LastPage(|Listing.Filter(rows, CatalogWhere(q.filter))|, Listing.PageSize(q.perPage))
      && e in Listing.Query(rows, CatalogWhere(q.filter), le, k, q.perPage).items;
    assert Index(rows, q.(page := k)) == Listing.Query(rows, CatalogWhere(q.filter), le, k, q.perPage);
  }

  /** The defaults of `index`: name ascending, 50 per page. */
  function DefaultQuery(page: int): CatalogQuery {
    CatalogQuery(CatalogFilter(None, None), ByName, true, page, 50)
  }

  /** The `categories` or the `units` table. */
  class Catalog {
    const kind: Kind
    var entries: map<nat, Entry>
    var nextId: nat

    ghost predicate Valid()
      reads this
    {
      && (forall id :: id in entries ==> entries[id].id == id && id < nextId)
      && (forall id :: id in entries ==> (kind == CategoryKind ==> entries[id].symbol.None?))
      && (forall a, b :: a in entries && b in entries && SameText(entries[a].name, entries[b].name) ==> a == b)
    }

    constructor (kind: Kind)
      ensures Valid() && this.kind == kind && entries == map[] && nextId == 1
    {
      this.kind := kind;
      entries := map[];
      nextId := 1;
    }

    predicate IsLiveId(id: nat)
      reads this
    {
      id in entries && IsLive(entries[id])
    }

    /** `store`: validates, then inserts under the next id; `is_active`
        defaults to true. */
    method Store(input: EntryInput) returns (r: Result<Entry, CatalogError>)
      requires Valid()
      modifies this
      ensures Valid()
      ensures ValidateEntry(kind, old(entries), input, None).Some? ==>
        r == Err(ValidateEntry(kind, old(entries), input, None).value) && entries == old(entries) && nextId == old(nextId)
      ensures ValidateEntry(kind, old(entries), input, None).None? ==>
        && r == Ok(Entry(old(nextId), input.name, input.description,
                         if kind == UnitKind then input.symbol else None, input.isActive.GetOr(true), None))
        && entries == old(entries)[old(nextId) := r.value]
        && nextId == old(nextId) + 1
    {
      var invalid := ValidateEntry(kind, entries, input, None);
      if invalid.Some? {
        return Err(invalid.value);
      }
      var e := Entry(nextId, input.name, input.description,
                     if kind == UnitKind then input.symbol else None, input.isActive.GetOr(true), None);
      entries := entries[nextId := e];
      nextId := nextId + 1;
      r := Ok(e);
    }

    /** `update`: binds a live row and validates with its own name allowed. */
    method Update(id: nat, input: EntryInput) returns (r: Result<Entry, CatalogError>)
      requires Valid()
      modifies this
      ensures Valid() && nextId == old(nextId)
      ensures !old(IsLiveId(id)) ==> r == Err(NotFound) && entries == old(entries)
      ensures old(IsLiveId(id)) && ValidateEntry(kind, old(entries), input, Some(id)).Some? ==>
        r == Err(ValidateEntry(kind, old(entries), input, Some(id)).value) && entries == old(entries)
      ensures old(IsLiveId(id)) && ValidateEntry(kind, old(entries), input, Some(id)).None? ==> r.Ok?
      ensures r.Ok? ==>
        var before := old(entries[id]);
        && r.value == before.(name := input.name,
                              description := if input.description.Some? then input.description else before.description,
                              symbol := if kind == UnitKind && input.symbol.Some? then input.symbol else before.symbol,
                              isActive := input.isActive.GetOr(before.isActive))
        && entries == old(entries)[id := r.value]
    {
      if !IsLiveId(id) {
        return Err(NotFound);
      }
      var invalid := ValidateEntry(kind, entries, input, Some(id));
      if invalid.Some? {
        return Err(invalid.value);
      }
      var before := entries[id];
      var e := before.(name := input.name,
                       description := if input.description.Some? then input.description else before.description,
                       symbol := if kind == UnitKind && input.symbol.Some? then input.symbol else before.symbol,
                       isActive := input.isActive.GetOr(before.isActive));
      entries := entries[id := e];
      r := Ok(e);
    }

    /** `destroy`: `itemsCount` is the number of items referring to the
        row. While it is positive the row stays and the refusal carries
        the count; otherwise the row is soft-deleted. */
    method Destroy(id: nat, itemsCount: nat, now: int) returns (r: Result<string, CatalogError>)
      requires Valid()
      modifies this
      ensures Valid() && nextId == old(nextId)
      ensures !old(IsLiveId(id)) ==> r == Err(NotFound) && entries == old(entries)
      ensures old(IsLiveId(id)) && itemsCount > 0 ==>
        r == Err(InUse(itemsCount, InUseMessage(kind, itemsCount))) && entries == old(entries)
      ensures old(IsLiveId(id)) && itemsCount == 0 ==>
        && r == Ok(DeletedMessage(kind))
        && entries == old(entries)[id := old(entries[id]).(deletedAt := Some(now))]
        && !IsLiveId(id)
    {
      if !IsLiveId(id) {
        return Err(NotFound);
      }
      if itemsCount > 0 {
        return Err(InUse(itemsCount, InUseMessage(kind, itemsCount)));
      }
      entries := entries[id := entries[id].(deletedAt := Some(now))];
      r := Ok(DeletedMessage(kind));
    }

    /** `options` over the current rows. */
    function OptionsList(): seq<Entry>
      reads this
    {
      Options(Listing.Rows(entries, nextId))
    }
  }

  /** A name freed by a soft delete is still taken: the trashed row keeps
      it, so a new entry of that name is refused. */
  lemma TrashedNameStaysTaken(kind: Kind, entries: map<nat, Entry>, id: nat, now: int, input: EntryInput)
    requires id in entries && SameText(input.name, entries[id].name)
    ensures ValidateEntry(kind, entries[id := entries[id].(deletedAt := Some(now))], input, None) == Some(Invalid("name"))
  {
    var after := entries[id := entries[id].(deletedAt := Some(now))];
    assert SameText(after[id].name, input.name);
  }

  /** A deleted row no longer appears among the options. */
  lemma DeletedLeavesOptions(entries: map<nat, Entry>, bound: nat, id: nat, now: int)
    requires id in entries
    ensures
      var after := entries[id := entries[id].(deletedAt := Some(now))];
      forall i :: 0 <= i < |Options(Listing.Rows(after, bound))| ==>
        Options(Listing.Rows(after, bound))[i] != after[id]
  {
  }
}
