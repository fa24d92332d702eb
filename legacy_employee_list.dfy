/**
 * The older list controller (the one that draws its own pagination): the
 * same state as the newer one, but `loadEmployees` shows whatever page it is
 * on, without moving back from a page past the end.
 */
module LegacyEmployeeListView {
  import opened Text
  import opened Employees
  import opened Queries
  import opened ListControls
  import Store
  import opened PaginationWidget

  /** The page numbers `renderPagination` lists: two on either side of the current page, cut at 1 and at the last page. */
  function LegacyWindow(current: int, total: int): (pages: seq<int>)
    ensures |pages| == Max(0, Min(total, current + 2) - Max(1, current - 2) + 1)
    ensures forall i :: 0 <= i < |pages| ==> pages[i] == Max(1, current - 2) + i
  {
    var start, end := Max(1, current - 2), Min(total, current + 2);
    seq(if end >= start then end - start + 1 else 0, i => start + i)
  }

  /**
   * The window lists at most five pages, every one of them exists, they count
   * up by one, and none is more than two away from the current page.
   */
  lemma LegacyWindowInRange(current: int, total: int)
    ensures var pages := LegacyWindow(current, total);
      && |pages| <= 5
      && (forall i :: 0 <= i < |pages| ==> 1 <= pages[i] <= total && current - 2 <= pages[i] <= current + 2)
      && (forall i :: 0 <= i < |pages| - 1 ==> pages[i + 1] == pages[i] + 1)
  {
  }

  /**
   * On an existing page the window holds that page; on a page past the last
   * one it reaches only up to the last page, so the current page is missing.
   */
  lemma LegacyWindowHoldsCurrent(current: int, total: int)
    ensures 1 <= current <= total ==> current in LegacyWindow(current, total)
    ensures current > total ==> current !in LegacyWindow(current, total)
  {
    var pages := LegacyWindow(current, total);
    if 1 <= current <= total {
      assert pages[current - Max(1, current - 2)] == current;
    }
  }

  /** What `renderPagination` draws: Previous and Next, which may be disabled, and the numbered buttons, which are never disabled. */
  datatype LegacyButton = LegacyButton(page: int, active: bool)
  datatype LegacyPagination = LegacyPagination(previousDisabled: bool, buttons: seq<LegacyButton>, nextDisabled: bool)

  /** Previous is disabled on page 1 and Next on the last page; the button of the current page is the active one. */
  function LegacyDrawing(current: int, total: int): (v: LegacyPagination)
    ensures v.previousDisabled <==> current == 1
    ensures v.nextDisabled <==> current == total
    ensures |v.buttons| == |LegacyWindow(current, total)|
    ensures forall i :: 0 <= i < |v.buttons| ==>
      v.buttons[i].page == LegacyWindow(current, total)[i] && (v.buttons[i].active <==> v.buttons[i].page == current)
  {
    var pages := LegacyWindow(current, total);
    LegacyPagination(current == 1,
                     seq(|pages|, i requires 0 <= i < |pages| => LegacyButton(pages[i], pages[i] == current)),
                     current == total)
  }

  /**
   * On an existing page, every page an enabled button of the drawing leads to
   * exists. Past the last page, Next stays enabled and leads further away.
   */
  lemma LegacyButtonsTargets(current: int, total: int)
    ensures var v := LegacyDrawing(current, total);
      && (forall b :: b in v.buttons ==> 1 <= b.page <= total)
      && (1 <= current <= total && !v.previousDisabled ==> 1 <= current - 1 <= total)
      && (1 <= current <= total && !v.nextDisabled ==> 1 <= current + 1 <= total)
      && (current > total ==> !v.nextDisabled && current + 1 > total)
  {
    var v := LegacyDrawing(current, total);
    LegacyWindowInRange(current, total);
    forall b | b in v.buttons ensures 1 <= b.page <= total {
      var i :| 0 <= i < |v.buttons| && v.buttons[i] == b;
    }
  }

  /**
   * As written: a page past the last one is shown as it comes, empty, even
   * though the search result has records.
   */
  lemma LegacyPastLastPageIsEmpty(es: seq<Employee>, page: int, size: nat, query: string)
    requires size >= 1 && page > CeilDiv(|Search(es, query)|, size) > 0
    ensures Paginate(es, page, size, query).items == [] && Search(es, query) != []
  {
    PageNonEmptyIffInRange(es, page, size, query);
  }

  /**
   * The input that shows it: eleven records, ten per page, page 2 showing the
   * eleventh. Deleting any one of them leaves ten records and page 2 empty,
   * which the legacy controller keeps showing, as "No employees yet".
   */
  lemma LegacyDeleteStrands(es: seq<Employee>, idx: nat)
    requires |es| == 11 && idx < 11
    ensures var rest := es[..idx] + es[idx + 1..];
      && |rest| == 10
      && Paginate(rest, 2, 10, []).items == []
      && Paginate(rest, 2, 10, []).totalPages == 1
  {
    var rest := es[..idx] + es[idx + 1..];
    assert AllSpace([]);
    assert Search(rest, []) == rest;
    LegacyPastLastPageIsEmpty(rest, 2, 10, []);
  }

  class EmployeeList {
    /** The shared store. */
    const store: Store.EmployeeStore
    /** The handle under which the controller's reload is subscribed to the store. */
    const handle: nat
    var employees: seq<Employee>
    var searchQuery: string
    var currentPage: int
    /** Never reassigned by the controller. */
    const pageSize: nat := 10
    var totalPages: nat
    var totalItems: nat
    var viewMode: string
    var sortField: SortField
    var sortDirection: Direction
    var selectedEmployees: seq<string>

    /** Page 1 of nothing, ten per page, table view, sorted by first name ascending, nothing selected. */
    constructor (store: Store.EmployeeStore, handle: nat)
      ensures this.store == store && this.handle == handle
      ensures employees == [] && searchQuery == [] && currentPage == 1
      ensures totalPages == 0 && totalItems == 0 && viewMode == "table"
      ensures sortField == FirstName && sortDirection == Asc && selectedEmployees == []
    {
      this.store := store;
      this.handle := handle;
      employees := [];
      searchQuery := [];
      currentPage := 1;
      totalPages := 0;
      totalItems := 0;
      viewMode := "table";
      sortField := FirstName;
      sortDirection := Asc;
      selectedEmployees := [];
    }

    /** The template shows "No employees yet" whenever the page shown is empty, whatever the query. */
    predicate ShowsEmptyState()
      reads this
    {
      employees == []
    }

    /** The pagination is drawn below a non-empty table of more than one page. */
    predicate ShowsPagination()
      reads this
    {
      employees != [] && totalPages > 1
    }

    /** `loadEmployees`: fetch the current page and show it, whichever page that is. */
    method LoadEmployees()
      modifies this
      ensures var p := Paginate(store.employees, currentPage, pageSize, searchQuery);
        employees == p.items && totalPages == p.totalPages && totalItems == p.totalItems
      ensures currentPage == old(currentPage) && searchQuery == old(searchQuery) && viewMode == old(viewMode)
      ensures sortField == old(sortField) && sortDirection == old(sortDirection)
      ensures selectedEmployees == old(selectedEmployees)
      ensures 1 <= currentPage <= totalPages ==> employees != []
      ensures currentPage > totalPages > 0 ==> ShowsEmptyState() && !ShowsPagination()
    {
      var result := store.GetPaginated(currentPage, pageSize, searchQuery);
      if currentPage >= 1 {
        PageNonEmptyIffInRange(store.employees, currentPage, pageSize, searchQuery);
      }
      Show(result);
    }

    /** The assignments that show a fetched page. */
    method Show(result: PageResult)
      modifies this
      ensures employees == result.items && totalPages == result.totalPages && totalItems == result.totalItems
      ensures currentPage == old(currentPage) && searchQuery == old(searchQuery) && viewMode == old(viewMode)
      ensures sortField == old(sortField) && sortDirection == old(sortDirection)
      ensures selectedEmployees == old(selectedEmployees)
    {
      employees := result.items;
      totalPages := result.totalPages;
      totalItems := result.totalItems;
    }

    /** `handleSearch`: the value of the search box, back to page 1, reload. */
    method HandleSearch(value: string)
      modifies this
      ensures searchQuery == value && currentPage == 1
      ensures employees == Paginate(store.employees, 1, pageSize, value).items
      ensures sortField == old(sortField) && sortDirection == old(sortDirection)
      ensures selectedEmployees == old(selectedEmployees) && viewMode == old(viewMode)
    {
      searchQuery := value;
      currentPage := 1;
      LoadEmployees();
    }

    /**
     * `handleSort`: toggle the sort state, then show the whole store sorted
     * that way (not only the current page).
     */
    method HandleSort(field: SortField)
      modifies this
      ensures (sortField, sortDirection) == ToggleSort(old(sortField), old(sortDirection), field)
      ensures employees == SortBy(store.employees, field, sortDirection)
      ensures SortedBy(employees, field, sortDirection) && multiset(employees) == multiset(store.employees)
      ensures searchQuery == old(searchQuery) && currentPage == old(currentPage)
      ensures selectedEmployees == old(selectedEmployees) && viewMode == old(viewMode)
      ensures totalPages == old(totalPages) && totalItems == old(totalItems)
    {
      if sortField == field {
        sortDirection := if sortDirection == Asc then Desc else Asc;
      } else {
        sortField := field;
        sortDirection := Asc;
      }
      employees := store.Sort(field, sortDirection);
    }

    /** `handlePageChange`: the page a button asked for, taken as it is, reload. */
    method HandlePageChange(page: int)
      modifies this
      ensures currentPage == page
      ensures employees == Paginate(store.employees, page, pageSize, searchQuery).items
      ensures searchQuery == old(searchQuery) && sortField == old(sortField) && sortDirection == old(sortDirection)
      ensures selectedEmployees == old(selectedEmployees) && viewMode == old(viewMode)
    {
      currentPage := page;
      LoadEmployees();
    }

    /** `handleViewToggle`: the mode of the button clicked. */
    method HandleViewToggle(mode: string)
      modifies this
      ensures viewMode == mode
      ensures employees == old(employees) && currentPage == old(currentPage) && searchQuery == old(searchQuery)
      ensures selectedEmployees == old(selectedEmployees)
    {
      viewMode := mode;
    }

    /**
     * `handleDelete`: only after the user confirms, delete the record; an
     * unknown id is reported (`alerted`). The controller does not reload
     * itself: a save that notifies its subscription reloads the current page,
     * with no clamping.
     */
    method HandleDelete(id: string, confirmed: bool, writeOk: bool) returns (alerted: bool)
      modifies this, store
      ensures !confirmed ==> !alerted && store.employees == old(store.employees) && employees == old(employees)
      ensures confirmed ==> (alerted <==> Store.FindIndex(old(store.employees), id).None?)
      ensures confirmed && !alerted ==>
        var idx := Store.FindIndex(old(store.employees), id).value;
        store.employees == old(store.employees)[..idx] + old(store.employees)[idx + 1..]
      ensures alerted ==> store.employees == old(store.employees)
      ensures confirmed && !alerted && writeOk && handle in store.listeners ==>
        employees == Paginate(store.employees, currentPage, pageSize, searchQuery).items
      ensures currentPage == old(currentPage)
      ensures searchQuery == old(searchQuery) && selectedEmployees == old(selectedEmployees)
    {
      alerted := false;
      if confirmed {
        var r := store.Delete(id, writeOk);
        if r.Failure? {
          alerted := true;
        } else if writeOk && handle in store.listeners {
          LoadEmployees();
        }
      }
    }

    /** `handleSelectEmployee`: checking appends the id, unchecking removes every occurrence of it. */
    method HandleSelectEmployee(employeeId: string, checked: bool)
      modifies this
      ensures checked ==> selectedEmployees == old(selectedEmployees) + [employeeId]
      ensures !checked ==> selectedEmployees == Deselect(old(selectedEmployees), employeeId)
      ensures employees == old(employees) && currentPage == old(currentPage) && searchQuery == old(searchQuery)
    {
      if checked {
        selectedEmployees := selectedEmployees + [employeeId];
      } else {
        selectedEmployees := Deselect(selectedEmployees, employeeId);
      }
    }

    /** `handleSelectAll`: the ids of the records shown, or nothing. */
    method HandleSelectAll(checked: bool)
      modifies this
      ensures checked ==> selectedEmployees == Ids(employees)
      ensures !checked ==> selectedEmployees == []
      ensures employees == old(employees) && currentPage == old(currentPage) && searchQuery == old(searchQuery)
    {
      if checked {
        selectedEmployees := Ids(employees);
      } else {
        selectedEmployees := [];
      }
    }

    /** The loop of `renderPagination` that collects the page numbers to draw. */
    method RenderPaginationPages() returns (pages: seq<int>)
      ensures pages == LegacyWindow(currentPage, totalPages)
    {
      pages := [];
      var startPage := Max(1, currentPage - 2);
      var endPage := Min(totalPages, currentPage + 2);
      var i := startPage;
      while i <= endPage
        invariant startPage <= i <= Max(startPage, endPage + 1)
        invariant |pages| == i - startPage
        invariant forall k :: 0 <= k < |pages| ==> pages[k] == startPage + k
        decreases endPage - i
      {
        pages := pages + [i];
        i := i + 1;
      }
    }
  }
}
