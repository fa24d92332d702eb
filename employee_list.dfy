/**
 * The list controller of the list view (the one next to the pagination
 * component): it asks the store for one page at a time, clamps a page number
 * that fell past the end, and keeps the sort, view and selection state.
 */
module EmployeeListView {
  import opened Text
  import opened Employees
  import opened Queries
  import opened ListControls
  import Store

  /**
   * The page `loadEmployees` settles on: a page past the last one (when there
   * is one) becomes the last page; any other page number stays.
   */
  function ClampedPage(page: int, totalPages: nat): (r: int)
    ensures totalPages > 0 && page >= 1 ==> 1 <= r <= totalPages
    ensures 1 <= page <= totalPages ==> r == page
    ensures totalPages == 0 ==> r == page
  {
    if totalPages > 0 && page > totalPages then totalPages else page
  }

  /** The page count of the search result, which does not depend on the page asked for. */
  function PageCount(es: seq<Employee>, size: nat, query: string): nat
    requires size >= 1
  {
    CeilDiv(|Search(es, query)|, size)
  }

  /**
   * What a load settles on, from a page number from 1 on that needs no
   * clamping: the page is empty exactly when nothing matches, and with the
   * empty query exactly when the store is empty.
   */
  lemma SettledPage(es: seq<Employee>, page: int, size: nat, query: string)
    requires size >= 1 && page >= 1
    requires !(page > PageCount(es, size, query) > 0)
    ensures var p := Paginate(es, page, size, query);
      && (p.items == [] <==> p.totalItems == 0)
      && (query == [] ==> p.totalItems == |es|)
  {
    var p := Paginate(es, page, size, query);
    var n := |Search(es, query)|;
    PageNonEmptyIffInRange(es, page, size, query);
    assert p.totalItems == n && p.totalPages == CeilDiv(n, size);
    if query == [] {
      assert AllSpace(query);
    }
  }

  /** After moving to the last page, that page is not empty. */
  lemma LastPageFilled(es: seq<Employee>, size: nat, query: string)
    requires size >= 1 && PageCount(es, size, query) > 0
    ensures Paginate(es, PageCount(es, size, query), size, query).items != []
  {
    PageNonEmptyIffInRange(es, PageCount(es, size, query), size, query);
  }

  /**
   * Where a load from page `page` (from 1 on) ends, after any clamping: the
   * page shown is empty exactly when nothing matches the query, and with the
   * empty query exactly when the store is empty.
   */
  lemma LoadSettles(es: seq<Employee>, page: int, size: nat, query: string)
    requires size >= 1 && page >= 1
    ensures var p := Paginate(es, ClampedPage(page, PageCount(es, size, query)), size, query);
      && (p.items == [] <==> p.totalItems == 0)
      && (query == [] ==> (p.items == [] <==> es == []))
  {
    var n := PageCount(es, size, query);
    if page > n > 0 {
      LastPageFilled(es, size, query);
      SettledPage(es, n, size, query);
    } else {
      SettledPage(es, page, size, query);
    }
  }

  /**
   * The test `loadEmployees` makes on the page it fetched (empty, with pages,
   * past the last one) holds exactly when the page number is past a last
   * page that exists, and the last page then has items.
   */
  lemma ClampDecision(es: seq<Employee>, page: int, size: nat, query: string)
    requires size >= 1
    ensures var p := Paginate(es, page, size, query);
      && p.totalPages == PageCount(es, size, query)
      && (p.items == [] && p.totalPages > 0 && page > p.totalPages <==> page > p.totalPages > 0)
      && (p.totalPages > 0 ==> Paginate(es, p.totalPages, size, query).items != [])
  {
    var n := PageCount(es, size, query);
    if page > n > 0 {
      PageNonEmptyIffInRange(es, page, size, query);
    }
    if n > 0 {
      LastPageFilled(es, size, query);
    }
  }

  class EmployeeList {
    /** The shared store. */
    const store: Store.EmployeeStore
    /** The handle under which the controller's reload is subscribed to the store. */
    const handle: nat
    var employees: seq<Employee>
    var searchQuery: string
    var currentPage: int
    /** Never reassigned by the controller. */
    const pageSize: nat := 10
    var totalPages: nat
    var totalItems: nat
    var viewMode: string
    var sortField: SortField
    var sortDirection: Direction
    var selectedEmployees: seq<string>

    /** Page 1 of nothing, ten per page, table view, sorted by first name ascending, nothing selected. */
    constructor (store: Store.EmployeeStore, handle: nat)
      ensures this.store == store && this.handle == handle
      ensures employees == [] && searchQuery == [] && currentPage == 1
      ensures totalPages == 0 && totalItems == 0 && viewMode == "table"
      ensures sortField == FirstName && sortDirection == Asc && selectedEmployees == []
    {
      this.store := store;
      this.handle := handle;
      employees := [];
      searchQuery := [];
      currentPage := 1;
      totalPages := 0;
      totalItems := 0;
      viewMode := "table";
      sortField := FirstName;
      sortDirection := Asc;
      selectedEmployees := [];
    }

    /** The template shows "No employees yet" instead of the table and the pagination. */
    predicate ShowsEmptyState()
      reads this
    {
      employees == [] && searchQuery == []
    }

    /**
     * `loadEmployees`: fetch the current page; if it is empty and past the
     * last page, move to the last page and fetch again. The move is always to
     * a smaller page number, and the last page is never empty, so the second
     * fetch does not move again.
     */
    method LoadEmployees()
      modifies this
      decreases currentPage
      ensures currentPage == ClampedPage(old(currentPage), PageCount(store.employees, pageSize, searchQuery))
      ensures var p := Paginate(store.employees, currentPage, pageSize, searchQuery);
        employees == p.items && totalPages == p.totalPages && totalItems == p.totalItems
      ensures old(currentPage) >= 1 ==> (employees == [] <==> totalItems == 0)
      ensures old(currentPage) >= 1 ==> (ShowsEmptyState() <==> searchQuery == [] && store.employees == [])
      ensures searchQuery == old(searchQuery) && viewMode == old(viewMode)
      ensures sortField == old(sortField) && sortDirection == old(sortDirection)
      ensures selectedEmployees == old(selectedEmployees)
    {
      ghost var start := currentPage;
      var result := store.GetPaginated(currentPage, pageSize, searchQuery);
      ClampDecision(store.employees, currentPage, pageSize, searchQuery);
      if |result.items| == 0 && result.totalPages > 0 && currentPage > result.totalPages {
        currentPage := if 1 >= result.totalPages then 1 else result.totalPages;
        LoadEmployees();
      } else {
        Show(result);
      }
      if start >= 1 {
        LoadSettles(store.employees, start, pageSize, searchQuery);
      }
    }

    /** The assignments that show a fetched page. */
    method Show(result: PageResult)
      modifies this
      ensures employees == result.items && totalPages == result.totalPages && totalItems == result.totalItems
      ensures currentPage == old(currentPage) && searchQuery == old(searchQuery) && viewMode == old(viewMode)
      ensures sortField == old(sortField) && sortDirection == old(sortDirection)
      ensures selectedEmployees == old(selectedEmployees)
    {
      employees := result.items;
      totalPages := result.totalPages;
      totalItems := result.totalItems;
    }

    /** `handleSearch`: the new query, back to page 1, reload. */
    method HandleSearch(value: string)
      modifies this
      ensures searchQuery == value && currentPage == 1
      ensures employees == Paginate(store.employees, 1, pageSize, value).items
      ensures sortField == old(sortField) && sortDirection == old(sortDirection)
      ensures selectedEmployees == old(selectedEmployees) && viewMode == old(viewMode)
    {
      searchQuery := value;
      currentPage := 1;
      LoadEmployees();
    }

    /**
     * `handleSort`: toggle the sort state, then show the whole store sorted
     * that way (not only the current page).
     */
    method HandleSort(field: SortField)
      modifies this
      ensures (sortField, sortDirection) == ToggleSort(old(sortField), old(sortDirection), field)
      ensures employees == SortBy(store.employees, field, sortDirection)
      ensures SortedBy(employees, field, sortDirection) && multiset(employees) == multiset(store.employees)
      ensures searchQuery == old(searchQuery) && currentPage == old(currentPage)
      ensures selectedEmployees == old(selectedEmployees) && viewMode == old(viewMode)
      ensures totalPages == old(totalPages) && totalItems == old(totalItems)
    {
      if sortField == field {
        sortDirection := if sortDirection == Asc then Desc else Asc;
      } else {
        sortField := field;
        sortDirection := Asc;
      }
      employees := store.Sort(field, sortDirection);
    }

    /** `handlePageChange`: go to the page the pagination component asked for, reload (clamping). */
    method HandlePageChange(page: int)
      modifies this
      ensures currentPage == ClampedPage(page, PageCount(store.employees, pageSize, searchQuery))
      ensures employees == Paginate(store.employees, currentPage, pageSize, searchQuery).items
      ensures searchQuery == old(searchQuery) && sortField == old(sortField) && sortDirection == old(sortDirection)
      ensures selectedEmployees == old(selectedEmployees) && viewMode == old(viewMode)
    {
      currentPage := page;
      LoadEmployees();
    }

    /** `handleViewToggle`: the view the toggle reported. */
    method HandleViewToggle(view: string)
      modifies this
      ensures viewMode == view
      ensures employees == old(employees) && currentPage == old(currentPage) && searchQuery == old(searchQuery)
      ensures selectedEmployees == old(selectedEmployees)
    {
      viewMode := view;
    }

    /**
     * `handleDelete`: only after the user confirms, delete the record; an
     * unknown id is reported (`alerted`). A delete whose save notifies the
     * controller's subscription reloads the current page.
     */
    method HandleDelete(id: string, confirmed: bool, writeOk: bool) returns (alerted: bool)
      modifies this, store
      ensures !confirmed ==> !alerted && store.employees == old(store.employees) && employees == old(employees)
      ensures confirmed ==> (alerted <==> Store.FindIndex(old(store.employees), id).None?)
      ensures confirmed && !alerted ==>
        var idx := Store.FindIndex(old(store.employees), id).value;
        store.employees == old(store.employees)[..idx] + old(store.employees)[idx + 1..]
      ensures alerted ==> store.employees == old(store.employees)
      ensures confirmed && !alerted && writeOk && handle in store.listeners ==>
        employees == Paginate(store.employees, currentPage, pageSize, searchQuery).items
      ensures searchQuery == old(searchQuery) && selectedEmployees == old(selectedEmployees)
    {
      alerted := false;
      if confirmed {
        var r := store.Delete(id, writeOk);
        if r.Failure? {
          alerted := true;
        } else if writeOk && handle in store.listeners {
          LoadEmployees();
        }
      }
    }

    /** `handleSelectEmployee`: checking appends the id, unchecking removes every occurrence of it. */
    method HandleSelectEmployee(id: string, checked: bool)
      modifies this
      ensures checked ==> selectedEmployees == old(selectedEmployees) + [id]
      ensures !checked ==> selectedEmployees == Deselect(old(selectedEmployees), id)
      ensures employees == old(employees) && currentPage == old(currentPage) && searchQuery == old(searchQuery)
    {
      if checked {
        selectedEmployees := selectedEmployees + [id];
      } else {
        selectedEmployees := Deselect(selectedEmployees, id);
      }
    }

    /** `handleSelectAll`: the ids of the records shown, or nothing. */
    method HandleSelectAll(checked: bool)
      modifies this
      ensures checked ==> selectedEmployees == Ids(employees)
      ensures !checked ==> selectedEmployees == []
      ensures employees == old(employees) && currentPage == old(currentPage) && searchQuery == old(searchQuery)
    {
      if checked {
        selectedEmployees := Ids(employees);
      } else {
        selectedEmployees := [];
      }
    }
  }
}
