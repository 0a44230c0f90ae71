/** The attendance history page (frontend/src/pages/Attendance.tsx): up
    to five page-number buttons, each computed from its index, and the
    previous / next / numbered page handlers. */
module AttendancePage {
  import opened Base
  import InventoryPage

  /** The number on button `i`: the first pages while the current page is
      near the front, the last pages near the back, otherwise the current
      page two from the left. */
  function PageButton(i: int, current: int, total: int): int {
    if total <= 5 then i + 1
    else if current <= 3 then i + 1
    else if current >= total - 2 then total - 4 + i
    else current - 2 + i
  }

  /** `Array.from({ length: min(totalPages, 5) }, ...)`; a negative length
      reads as 0. */
  function Buttons(current: int, total: int): (r: seq<int>)
    ensures |r| == Max(0, Min(total, 5))
    ensures forall i :: 0 <= i < |r| ==> r[i] == PageButton(i, current, total)
  {
    seq(Max(0, Min(total, 5)), i => PageButton(i, current, total))
  }

  /** The four shapes of the button row. */
  lemma ButtonCases(current: int, total: int)
    requires total > 1
    ensures total <= 5 ==> Buttons(current, total) == InventoryPage.Range(1, total)
    ensures total > 5 && current <= 3 ==> Buttons(current, total) == InventoryPage.Range(1, 5)
    ensures total > 5 && 3 < current && current >= total - 2 ==>
      Buttons(current, total) == InventoryPage.Range(total - 4, total)
    ensures total > 5 && 3 < current < total - 2 ==>
      Buttons(current, total) == InventoryPage.Range(current - 2, current + 2)
  {
  }

  /** With the current page in range every button names a page that
      exists, and the current page has a button. */
  lemma ButtonsInRange(current: int, total: int)
    requires 1 <= current <= total
    ensures forall i :: 0 <= i < |Buttons(current, total)| ==> 1 <= Buttons(current, total)[i] <= total
    ensures current in Buttons(current, total)
  {
    var b := Buttons(current, total);
    assert b[current - b[0]] == current;
  }

  /** This page's buttons and the inventory page's window are the same
      pages whenever the current page is in range and there is more than
      one page. */
  lemma SameWindowAsInventory(current: int, total: int)
    requires 1 <= current <= total && total > 1
    ensures Buttons(current, total) == InventoryPage.Window(current, total)
  {
    ButtonCases(current, total);
  }

  /** The page handlers' state. */
  class Pager {
    var currentPage: int
    var totalPages: int

    ghost predicate Valid()
      reads this
    {
      currentPage >= 1
    }

    constructor ()
      ensures Valid()
      ensures currentPage == 1 && totalPages == 1
    {
      currentPage := 1;
      totalPages := 1;
    }

    /** A history response arrived with its `last_page`. */
    method Loaded(lastPage: int)
      requires Valid()
      modifies this
      ensures Valid()
      ensures currentPage == old(currentPage) && totalPages == lastPage
    {
      totalPages := lastPage;
    }

    /** `handlePageChange`: a page in `1..totalPages` other than the current
        one is taken. */
    method PageChange(page: int)
      requires Valid()
      modifies this
      ensures Valid()
      ensures totalPages == old(totalPages)
      ensures currentPage == (if 1 <= page <= totalPages && page != old(currentPage) then page else old(currentPage))
    {
      if page >= 1 && page <= totalPages && page != currentPage {
        currentPage := page;
      }
    }

    /** `handlePrevPage`: one page back, never below page 1. */
    method Prev()
      requires Valid()
      modifies this
      ensures Valid()
      ensures totalPages == old(totalPages)
      ensures currentPage == (if old(currentPage) > 1 then old(currentPage) - 1 else old(currentPage))
    {
      if currentPage > 1 {
        currentPage := currentPage - 1;
      }
    }

    /** `handleNextPage`: one page on, never past the last page. */
    method Next()
      requires Valid()
      modifies this
      ensures Valid()
      ensures totalPages == old(totalPages)
      ensures currentPage == (if old(currentPage) < totalPages then old(currentPage) + 1 else old(currentPage))
      ensures old(currentPage) <= totalPages ==> currentPage <= totalPages
    {
      if currentPage < totalPages {
        currentPage := currentPage + 1;
      }
    }
  }
}
