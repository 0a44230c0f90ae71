/** The query machinery the controllers share: filtering by a scope,
    `orderBy` on a column, and Eloquent's `paginate`, which the model treats
    as taking one slice of the filtered, sorted rows. */
module Listing {
  import opened Base

  /** A `where` clause: keeps the rows that satisfy `p`, in their order. */
  function Filter<T>(s: seq<T>, p: T -> bool): (r: seq<T>)
    ensures |r| <= |s|
    ensures forall i :: 0 <= i < |r| ==> r[i] in s && p(r[i])
    ensures forall i :: 0 <= i < |s| && p(s[i]) ==> s[i] in r
    ensures multiset(r) <= multiset(s)
    decreases |s|
  {
    if s == [] then []
    else
      var rest := Filter(s[1..], p);
      assert s == [s[0]] + s[1..];
      if p(s[0]) then [s[0]] + rest else rest
  }

  /** A table keyed by id, read as its rows with ids below `bound`, in
      ascending id order. */
  function Rows<T(==)>(table: map<nat, T>, bound: nat): (r: seq<T>)
    ensures forall i :: 0 <= i < |r| ==> r[i] in table.Values
    ensures forall k :: k in table && k < bound ==> table[k] in r
    decreases bound
  {
    if bound == 0 then []
    else
      var prefix := Rows(table, bound - 1);
      if bound - 1 in table then prefix + [table[bound - 1]] else prefix
  }

  /** What `orderBy` needs of a column comparison: every two rows are
      comparable and the comparison is transitive (ties are allowed). */
  ghost predicate TotalPreorder<T(!new)>(le: (T, T) -> bool) {
    && (forall a, b :: le(a, b) || le(b, a))
    && (forall a, b, c :: le(a, b) && le(b, c) ==> le(a, c))
  }

  predicate SortedBy<T>(s: seq<T>, le: (T, T) -> bool) {
    forall i, j :: 0 <= i < j < |s| ==> le(s[i], s[j])
  }

  function Insert<T>(x: T, s: seq<T>, le: (T, T) -> bool): (r: seq<T>)
    ensures |r| == |s| + 1
    ensures multiset(r) == multiset(s) + multiset{x}
    decreases |s|
  {
    if s == [] then [x]
    else if le(x, s[0]) then [x] + s
    else
      assert s == [s[0]] + s[1..];
      [s[0]] + Insert(x, s[1..], le)
  }

  /** `ORDER BY` on the comparison `le`: a permutation of the rows. */
  function SortBy<T>(s: seq<T>, le: (T, T) -> bool): (r: seq<T>)
    ensures |r| == |s|
    ensures multiset(r) == multiset(s)
    decreases |s|
  {
    if s == [] then []
    else
      assert s == [s[0]] + s[1..];
      Insert(s[0], SortBy(s[1..], le), le)
  }

  lemma {:induction false} InsertSorted<T(!new)>(x: T, s: seq<T>, le: (T, T) -> bool)
    requires TotalPreorder(le) && SortedBy(s, le)
    ensures SortedBy(Insert(x, s, le), le)
    decreases |s|
  {
    if s != [] && !le(x, s[0]) {
      var tail := Insert(x, s[1..], le);
      assert SortedBy(s[1..], le) by {
        forall i, j | 0 <= i < j < |s[1..]| ensures le(s[1..][i], s[1..][j]) {
          assert s[1..][i] == s[i + 1] && s[1..][j] == s[j + 1];
        }
      }
      InsertSorted(x, s[1..], le);
      assert le(s[0], x);
      forall k | 0 <= k < |tail| ensures le(s[0], tail[k]) {
        assert tail[k] in multiset(tail);
        if tail[k] != x {
          assert tail[k] in multiset(s[1..]);
          var j :| 0 <= j < |s[1..]| && s[1..][j] == tail[k];
          assert s[j + 1] == tail[k];
        }
      }
      var r := [s[0]] + tail;
      forall i, j | 0 <= i < j < |r| ensures le(r[i], r[j]) {
        if i == 0 {
          assert r[j] == tail[j - 1];
        } else {
          assert r[i] == tail[i - 1] && r[j] == tail[j - 1];
        }
      }
    }
  }

  /** The rows `SortBy` returns are in order. */
  lemma {:induction false} SortBySorted<T(!new)>(s: seq<T>, le: (T, T) -> bool)
    requires TotalPreorder(le)
    ensures SortedBy(SortBy(s, le), le)
    decreases |s|
  {
    if s != [] {
      SortBySorted(s[1..], le);
      InsertSorted(s[0], SortBy(s[1..], le), le);
    }
  }

  /** Eloquent's fallback page size, used when `per_page` is 0. */
  const ModelPerPage: nat := 15

  /** The page size `paginate` uses for a requested `perPage`. */
  function PageSize(perPage: nat): (n: nat)
    ensures n >= 1
  {
    if perPage == 0 then ModelPerPage else perPage
  }

  /** What `paginate` reports: the slice and the numbers beside it. */
  datatype Page<T> = Page(
    items: seq<T>,
    currentPage: nat,
    lastPage: nat,
    perPage: nat,
    total: nat,
    from: Option<nat>,
    to: Option<nat>)

  /** Pages needed for `total` rows, `ceil(total / perPage)`, at least 1. */
  function LastPage(total: nat, perPage: nat): (n: nat)
    requires perPage >= 1
    ensures n >= 1
    ensures total <= n * perPage
    ensures n == 1 || (n - 1) * perPage < total
  {
    var c := (total + perPage - 1) / perPage;
    if c >= 1 then c else 1
  }

  /** Rows before page `current`. */
  function Offset(current: nat, size: nat): nat
    requires current >= 1
  {
    (current - 1) * size
  }

  /** The rows `LIMIT size OFFSET offset` returns. */
  function Slice<T>(rows: seq<T>, offset: nat, size: nat): seq<T> {
    rows[Min(offset, |rows|)..Min(offset + size, |rows|)]
  }

  /** `paginate(perPage)` for page `page`: a page number below 1 is read as
      1, a page size of 0 falls back to the model's 15; the slice starts at
      offset `(page - 1) * perPage`; `from`/`to` number its first and last
      row (1-based) and are absent when the slice is empty. */
  function Paginate<T>(rows: seq<T>, page: int, perPage: nat): (p: Page<T>)
    ensures p.currentPage >= 1 && p.perPage >= 1 && p.total == |rows|
    ensures page >= 1 ==> p.currentPage == page
    ensures p.perPage == PageSize(perPage)
    ensures p.lastPage == LastPage(|rows|, p.perPage)
    ensures |p.items| <= p.perPage
    ensures p.from.Some? <==> p.items != []
    ensures p.to.Some? <==> p.items != []
    ensures p.from.Some? ==>
      && 1 <= p.from.value <= p.to.value <= |rows|
      && p.to.value - p.from.value + 1 == |p.items|
      && rows[p.from.value - 1 .. p.to.value] == p.items
    ensures p.currentPage > p.lastPage ==> p.items == []
    ensures p.items == Slice(rows, Offset(p.currentPage, p.perPage), p.perPage)
  {
    var current := if page >= 1 then page else 1;
    var size := PageSize(perPage);
    var offset := Offset(current, size);
    var items := Slice(rows, offset, size);
    assert items != [] ==> offset < |rows| && rows[offset..offset + |items|] == items;
    var last := LastPage(|rows|, size);
    PastLastPage(|rows|, current, size);
    Page(items, current, last, size, |rows|,
         if items == [] then None else Some(offset + 1),
         if items == [] then None else Some(offset + |items|))
  }

  lemma PastLastPage(total: nat, current: nat, size: nat)
    requires current >= 1 && size >= 1
    ensures current > LastPage(total, size) ==> Offset(current, size) >= total
  {
    if current > LastPage(total, size) {
      MulMonotone(LastPage(total, size), current - 1, size);
    }
  }

  lemma MulMonotone(a: nat, b: nat, c: nat)
    requires a <= b
    ensures a * c <= b * c
  {
    var d := b - a;
    assert b * c == a * c + d * c;
  }

  /** Row `i` of a page is row `from - 1 + i` of the whole result. */
  lemma PageRow<T>(rows: seq<T>, page: int, perPage: nat, i: nat)
    requires i < |Paginate(rows, page, perPage).items|
    ensures var p := Paginate(rows, page, perPage);
      p.from.Some? && p.from.value - 1 + i < |rows| && p.items[i] == rows[p.from.value - 1 + i]
  {
    var p := Paginate(rows, page, perPage);
    assert rows[p.from.value - 1 .. p.to.value][i] == rows[p.from.value - 1 + i];
  }

  /** A page of an ordered result is itself ordered. */
  lemma PageSorted<T>(rows: seq<T>, page: int, perPage: nat, le: (T, T) -> bool)
    requires SortedBy(rows, le)
    ensures SortedBy(Paginate(rows, page, perPage).items, le)
  {
    var p := Paginate(rows, page, perPage);
    forall i, j | 0 <= i < j < |p.items| ensures le(p.items[i], p.items[j]) {
      PageRow(rows, page, perPage, i);
      PageRow(rows, page, perPage, j);
    }
  }

  lemma FilterMember<T>(s: seq<T>, p: T -> bool, x: T)
    requires x in Filter(s, p)
    ensures x in s && p(x)
  {
    var r := Filter(s, p);
    var i :| 0 <= i < |r| && r[i] == x;
  }

  /** A listing endpoint: `where pred`, `orderBy le`, `paginate`. The page
      holds only rows that satisfy the filter, in order, and reports how
      many rows matched in all. */
  function Query<T(!new)>(rows: seq<T>, pred: T -> bool, le: (T, T) -> bool, page: int, perPage: nat): (p: Page<T>)
    requires TotalPreorder(le)
    ensures forall i :: 0 <= i < |p.items| ==> p.items[i] in rows && pred(p.items[i])
    ensures SortedBy(p.items, le)
    ensures p.total == |Filter(rows, pred)|
    ensures p.perPage == PageSize(perPage) && p.lastPage == LastPage(p.total, p.perPage)
    ensures IsPageOf(p, rows, pred, le, page, perPage)
  {
    var matching := Filter(rows, pred);
    var sorted := SortBy(matching, le);
    SortBySorted(matching, le);
    PageSorted(sorted, page, perPage, le);
    var p := Paginate(sorted, page, perPage);
    forall i | 0 <= i < |p.items| ensures p.items[i] in rows && pred(p.items[i]) {
      PageRow(sorted, page, perPage, i);
      assert p.items[i] in multiset(sorted);
      FilterMember(rows, pred, p.items[i]);
    }
    assert SortedBy(sorted, le) && multiset(sorted) == multiset(matching) && p == Paginate(sorted, page, perPage);
    p
  }

  /** `p` is page `page` of the rows that satisfy `pred`, taken in some
      order sorted by `le`: which of two tied rows comes first is up to
      the database. */
  ghost predicate IsPageOf<T(!new)>(p: Page<T>, rows: seq<T>, pred: T -> bool, le: (T, T) -> bool, page: int, perPage: nat) {
    exists s :: SortedBy(s, le) && multiset(s) == multiset(Filter(rows, pred)) && p == Paginate(s, page, perPage)
  }

  lemma QueryUnfold<T(!new)>(rows: seq<T>, pred: T -> bool, le: (T, T) -> bool, page: int, perPage: nat)
    requires TotalPreorder(le)
    ensures Query(rows, pred, le, page, perPage).items == Paginate(SortBy(Filter(rows, pred), le), page, PageSize(perPage)).items
  {
  }

  /** Every page of a listing is cut from one and the same sorted
      arrangement of the matching rows, so paging through pages 1 to
      `lastPage` (see `PagesCoverRows`) lists each matching row exactly as
      often as the table holds it. */
  lemma QueryPagesShareOneOrder<T(!new)>(rows: seq<T>, pred: T -> bool, le: (T, T) -> bool, perPage: nat)
    requires TotalPreorder(le)
    ensures exists s ::
      && SortedBy(s, le)
      && multiset(s) == multiset(Filter(rows, pred))
      && forall k :: Query(rows, pred, le, k, perPage) == Paginate(s, k, perPage)
  {
    var sorted := SortBy(Filter(rows, pred), le);
    SortBySorted(Filter(rows, pred), le);
    assert forall k :: Query(rows, pred, le, k, perPage) == Paginate(sorted, k, perPage);
  }

  lemma {:induction false} InPagesUpTo<T>(rows: seq<T>, n: nat, perPage: nat, x: T)
    requires perPage >= 1 && x in PagesUpTo(rows, n, perPage)
    ensures exists k :: 1 <= k <= n && x in Slice(rows, Offset(k, perPage), perPage)
  {
    if x !in Slice(rows, Offset(n, perPage), perPage) {
      InPagesUpTo(rows, n - 1, perPage, x);
    }
  }

  /** Every row that satisfies the filter is listed on one of the pages 1
      to `lastPage`. */
  lemma QueryFindsMatch<T(!new)>(rows: seq<T>, pred: T -> bool, le: (T, T) -> bool, perPage: nat, x: T)
    requires TotalPreorder(le) && x in rows && pred(x)
    ensures exists k ::
      1 <= k <= LastPage(|Filter(rows, pred)|, PageSize(perPage)) && x in Query(rows, pred, le, k, perPage).items
  {
    var sorted, size := SortBy(Filter(rows, pred), le), PageSize(perPage);
    PagesCoverRows(sorted, size);
    var i :| 0 <= i < |rows| && rows[i] == x;
    assert x in multiset(Filter(rows, pred));
    assert x in multiset(sorted);
    InPagesUpTo(sorted, LastPage(|sorted|, size), size, x);
    var k :| 1 <= k <= LastPage(|sorted|, size) && x in Slice(sorted, Offset(k, size), size);
    QueryUnfold(rows, pred, le, k, perPage);
    assert Paginate(sorted, k, size).items == Slice(sorted, Offset(k, size), size);
  }

  /** The first `n` pages, one after another: the slice of each is the
      one `Paginate` returns for that page. */
  function PagesUpTo<T>(rows: seq<T>, n: nat, perPage: nat): seq<T>
    requires perPage >= 1
  {
    if n == 0 then [] else PagesUpTo(rows, n - 1, perPage) + Slice(rows, Offset(n, perPage), perPage)
  }

  /** Arithmetic step for the page offsets. */
  lemma MulSucc(n: nat, c: nat)
    ensures (n + 1) * c == n * c + c
  {
  }

  lemma PageItems<T>(rows: seq<T>, n: nat, perPage: nat)
    requires n >= 1 && perPage >= 1
    ensures Paginate(rows, n, perPage).items
         == rows[Min(Offset(n, perPage), |rows|)..Min(Offset(n, perPage) + perPage, |rows|)]
  {
  }

  lemma {:induction false} PagesUpToPrefix<T>(rows: seq<T>, n: nat, perPage: nat)
    requires perPage >= 1
    ensures PagesUpTo(rows, n, perPage) == rows[..Min(Offset(n + 1, perPage), |rows|)]
  {
    if n == 0 {
      assert Offset(1, perPage) == 0;
    } else {
      var a := Offset(n, perPage);
      var lo, hi := Min(a, |rows|), Min(a + perPage, |rows|);
      assert PagesUpTo(rows, n, perPage) == PagesUpTo(rows, n - 1, perPage) + rows[lo..hi];
      PagesUpToPrefix(rows, n - 1, perPage);
      PrefixJoin(rows, lo, hi);
      OffsetNext(n, perPage);
    }
  }

  lemma OffsetNext(n: nat, c: nat)
    requires n >= 1
    ensures Offset(n + 1, c) == Offset(n, c) + c
  {
    MulSucc(n - 1, c);
  }


  /** Sequence step: a prefix followed by the next slice is the longer
      prefix. */
  lemma PrefixJoin<T>(rows: seq<T>, lo: nat, hi: nat)
    requires lo <= hi <= |rows|
    ensures rows[..lo] + rows[lo..hi] == rows[..hi]
  {
  }

  /** Pagination is consistent: pages 1 to `lastPage`, read in order,
      give every row exactly once. */
  lemma PagesCoverRows<T>(rows: seq<T>, perPage: nat)
    requires perPage >= 1
    ensures PagesUpTo(rows, LastPage(|rows|, perPage), perPage) == rows
  {
    var last := LastPage(|rows|, perPage);
    PagesUpToPrefix(rows, last, perPage);
    assert Offset(last + 1, perPage) >= |rows|;
    assert rows[..|rows|] == rows;
  }
}
