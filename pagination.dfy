/**
 * The pagination component of the list view: which page buttons it shows,
 * which of its buttons are enabled, and when a click becomes a
 * `page-change` event.
 */
module PaginationWidget {

  /** The larger of two integers (`Math.max`). */
  function Max(a: int, b: int): int { if a >= b then a else b }

  /** The smaller of two integers (`Math.min`). */
  function Min(a: int, b: int): int { if a <= b then a else b }

  /** The last page shown: at most `visible` pages from the tentative start. */
  function WindowEnd(current: int, total: int, visible: int): int {
    Min(total, Max(1, current - visible / 2) + visible - 1)
  }

  /** The first page shown: centred on the current page, pulled back when the end hits the last page. */
  function WindowStart(current: int, total: int, visible: int): int {
    var start := Max(1, current - visible / 2);
    var end := WindowEnd(current, total, visible);
    if end - start + 1 < visible then Max(1, end - visible + 1) else start
  }

  /** The page numbers `getVisiblePages` lists: `WindowStart` to `WindowEnd`, one by one. */
  function VisibleWindow(current: int, total: int, visible: int): (pages: seq<int>)
    ensures forall i :: 0 <= i < |pages| ==> pages[i] == WindowStart(current, total, visible) + i
  {
    var start, end := WindowStart(current, total, visible), WindowEnd(current, total, visible);
    seq(if end >= start then end - start + 1 else 0, i => start + i)
  }

  /** Every listed page exists, and the list counts up by one. */
  lemma WindowInRange(current: int, total: int, visible: int)
    ensures var pages := VisibleWindow(current, total, visible);
      && (forall i :: 0 <= i < |pages| ==> 1 <= pages[i] <= total)
      && (forall i :: 0 <= i < |pages| - 1 ==> pages[i + 1] == pages[i] + 1)
  {
  }

  /**
   * For a current page that exists and at least one visible slot, the list
   * holds the current page, and as many pages as fit: the smaller of the
   * slot count and the page count.
   */
  lemma WindowHoldsCurrent(current: int, total: int, visible: int)
    requires 1 <= current <= total && visible >= 1
    ensures var pages := VisibleWindow(current, total, visible);
      && current in pages
      && |pages| == Min(visible, total)
  {
    var pages := VisibleWindow(current, total, visible);
    var start, end := WindowStart(current, total, visible), WindowEnd(current, total, visible);
    assert visible / 2 <= visible - 1;
    assert start <= current <= end;
    assert pages[current - start] == current;
  }

  /** The guard of `handlePageChange`: enabled, an existing page, and not the current one. */
  predicate AcceptsPage(disabled: bool, current: int, total: int, page: int) {
    !disabled && 1 <= page <= total && page != current
  }

  /** A numbered button: its page, whether it is the active one, whether it is disabled. */
  datatype PageButton = PageButton(page: int, active: bool, disabled: bool)

  /** What `render` draws: nothing, or Previous, the numbered buttons and Next. */
  datatype View =
    | Hidden
    | Shown(previousDisabled: bool, buttons: seq<PageButton>, nextDisabled: bool)

  class Pagination {
    var currentPage: int
    var totalPages: int
    var disabled: bool
    var visiblePages: int
    /** The details of the `page-change` events dispatched so far. */
    var events: seq<int>

    /** Page 1 of 1, enabled, five page slots. */
    constructor ()
      ensures currentPage == 1 && totalPages == 1 && !disabled && visiblePages == 5
      ensures events == []
    {
      currentPage := 1;
      totalPages := 1;
      disabled := false;
      visiblePages := 5;
      events := [];
    }

    /** `handlePageChange(page)`: dispatches `page` exactly when the guard lets it through. */
    method HandlePageChange(page: int)
      modifies this
      ensures events == old(events) + if AcceptsPage(disabled, currentPage, totalPages, page) then [page] else []
      ensures currentPage == old(currentPage) && totalPages == old(totalPages)
      ensures disabled == old(disabled) && visiblePages == old(visiblePages)
    {
      if disabled || page < 1 || page > totalPages || page == currentPage {
        return;
      }
      events := events + [page];
    }

    /** `getVisiblePages`: the loop that pushes the page numbers of the window. */
    method GetVisiblePages() returns (pages: seq<int>)
      ensures pages == VisibleWindow(currentPage, totalPages, visiblePages)
    {
      pages := [];
      var halfVisible := visiblePages / 2;
      var startPage := Max(1, currentPage - halfVisible);
      var endPage := Min(totalPages, startPage + visiblePages - 1);
      if endPage - startPage + 1 < visiblePages {
        startPage := Max(1, endPage - visiblePages + 1);
      }
      var i := startPage;
      while i <= endPage
        invariant startPage <= i <= Max(startPage, endPage + 1)
        invariant |pages| == i - startPage
        invariant forall k :: 0 <= k < |pages| ==> pages[k] == startPage + k
        decreases endPage - i
      {
        pages := pages + [i];
        i := i + 1;
      }
    }
  }

  /**
   * The drawing: hidden below one page; otherwise Previous disabled on the
   * first page, one button per listed page (the current one active), and
   * Next disabled on the last page, all of them disabled with the component.
   */
  function Drawing(current: int, total: int, disabled: bool, visible: int): (v: View)
    ensures v.Hidden? <==> total < 1
    ensures v.Shown? ==> |v.buttons| == |VisibleWindow(current, total, visible)|
  {
    if total < 1 then Hidden
    else
      var pages := VisibleWindow(current, total, visible);
      Shown(disabled || current == 1,
            seq(|pages|, i requires 0 <= i < |pages| => PageButton(pages[i], pages[i] == current, disabled)),
            disabled || current == total)
  }

  /**
   * On an existing current page, every enabled button of the drawing leads to
   * a `page-change` event, except the active page button; when the component
   * is disabled, no click leads to one.
   */
  lemma EnabledButtonsChangePage(current: int, total: int, disabled: bool, visible: int)
    requires 1 <= current <= total
    ensures var v := Drawing(current, total, disabled, visible);
      && v.Shown?
      && (!v.previousDisabled ==> AcceptsPage(disabled, current, total, current - 1))
      && (!v.nextDisabled ==> AcceptsPage(disabled, current, total, current + 1))
      && (forall b :: b in v.buttons && !b.disabled && !b.active ==> AcceptsPage(disabled, current, total, b.page))
  {
    var v := Drawing(current, total, disabled, visible);
    var pages := VisibleWindow(current, total, visible);
    WindowInRange(current, total, visible);
    forall b | b in v.buttons && !b.disabled && !b.active
      ensures AcceptsPage(disabled, current, total, b.page)
    {
      var i :| 0 <= i < |v.buttons| && v.buttons[i] == b;
      assert b.page == pages[i];
    }
  }

  /** Conversely, a disabled button of the drawing never corresponds to an accepted page change. */
  lemma DisabledButtonsDoNothing(current: int, total: int, disabled: bool, visible: int)
    requires total >= 1
    ensures var v := Drawing(current, total, disabled, visible);
      && (v.previousDisabled ==> !AcceptsPage(disabled, current, total, current - 1))
      && (v.nextDisabled ==> !AcceptsPage(disabled, current, total, current + 1))
      && (forall b :: b in v.buttons && (b.disabled || b.active) ==> !AcceptsPage(disabled, current, total, b.page))
  {
  }
}
