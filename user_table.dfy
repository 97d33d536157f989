/** The `UserTable` component: its four pieces of state and one method per
    event handler. Each handler is one atomic transition from the old state
    to the new one; what it computes is given by the functions of the
    `Users`, `Paging` and `Selection` modules. */
module UserTableComponent {
  import opened JsArray
  import opened Users
  import opened Paging
  import opened Selection

  class UserTable {
    var users: seq<User>
    var selectedRows: seq<Id>
    var searchTerm: string
    var currentPage: int

    /** The page number never drops below 1. */
    ghost predicate Valid()
      reads this
    {
      1 <= currentPage
    }

    /** Rows have unique ids, at most one row is in edit mode, and the
        selection holds ids of rows, each once. */
    ghost predicate Coherent()
      reads this
    {
      UniqueIds(users) && OneEditing(users) && Consistent(selectedRows, users)
    }

    /** The state before the fetch resolves. */
    constructor ()
      ensures Valid() && Coherent()
      ensures users == [] && selectedRows == [] && searchTerm == "" && currentPage == 1
    {
      users := [];
      selectedRows := [];
      searchTerm := "";
      currentPage := 1;
    }

    /** The number of page buttons: the least number of pages that hold the
        whole list, whatever the search shows. */
    function PageCount(): (r: nat)
      reads this
      ensures |users| <= r * ItemsPerPage && (0 < r ==> PageStart(r) < |users|)
      ensures r == 0 <==> users == []
    {
      TotalPages(|users|)
    }

    /** The rows rendered: the current page of the search result. */
    function Visible(): (r: seq<User>)
      reads this
      requires Valid()
      ensures var found := SearchFilter(users, searchTerm);
              r == if PageStart(currentPage) < |found|
                   then found[PageStart(currentPage)..if currentPage * ItemsPerPage < |found| then currentPage * ItemsPerPage else |found|]
                   else []
      ensures |r| <= ItemsPerPage
      ensures forall u :: u in r ==> u in users && Matches(u, searchTerm)
    {
      PageShape(SearchFilter(users, searchTerm), currentPage);
      PageOf(SearchFilter(users, searchTerm), currentPage)
    }

    /** The header checkbox; in a coherent state it is checked exactly when
        every row is selected. */
    function HeaderIsChecked(): (r: bool)
      reads this
      ensures Coherent() ==> (r <==> forall u :: u in users ==> u.id in selectedRows)
    {
      HeaderChecked(selectedRows, users)
    }

    /** The checkbox of the row with `id`. In a coherent state only ids of
        rows are checked, and with the header checked every row is. */
    function RowIsChecked(id: Id): (r: bool)
      reads this
      ensures Coherent() && r ==> id in Ids(users)
      ensures Coherent() && HeaderIsChecked() && id in Ids(users) ==> r
    {
      IdsIn(users, id);
      id in selectedRows
    }

    /** The fetch has resolved with `data`. */
    method Load(data: seq<Member>)
      requires Valid()
      modifies this
      ensures Valid()
      ensures users == Annotate(data)
      ensures selectedRows == old(selectedRows) && searchTerm == old(searchTerm) && currentPage == old(currentPage)
      ensures OneEditing(users)
      ensures old(selectedRows) == [] && UniqueIds(users) ==> Coherent()
    {
      AnnotateOneEditing(data);
      users := Annotate(data);
    }

    /** Typing into the search box: the term changes, the page does not. */
    method HandleSearchInput(term: string)
      requires Valid()
      modifies this
      ensures Valid()
      ensures searchTerm == term
      ensures users == old(users) && selectedRows == old(selectedRows) && currentPage == old(currentPage)
    {
      searchTerm := term;
    }

    /** The search button: back to the first page, nothing else changes. */
    method HandleSearch()
      requires Valid()
      modifies this
      ensures Valid()
      ensures currentPage == 1
      ensures users == old(users) && selectedRows == old(selectedRows) && searchTerm == old(searchTerm)
    {
      currentPage := 1;
    }

    /** A page button: the requested page, clamped to the page count of the
        whole list. */
    method HandlePageChange(page: int)
      requires Valid()
      modifies this
      ensures Valid()
      ensures currentPage == Clamp(page, TotalPages(|users|))
      ensures 1 <= currentPage <= if PageCount() < 1 then 1 else PageCount()
      ensures users == old(users) && selectedRows == old(selectedRows) && searchTerm == old(searchTerm)
    {
      currentPage := Clamp(page, TotalPages(|users|));
    }

    /** A row checkbox. */
    method HandleCheckboxChange(id: Id)
      requires Valid()
      modifies this
      ensures Valid()
      ensures selectedRows == Toggle(old(selectedRows), id)
      ensures RowIsChecked(id) <==> !old(RowIsChecked(id))
      ensures users == old(users) && searchTerm == old(searchTerm) && currentPage == old(currentPage)
      ensures old(Coherent()) && id in Ids(users) ==> Coherent()
    {
      if NoDup(selectedRows) {
        ToggleNoDup(selectedRows, id);
      }
      selectedRows := Toggle(selectedRows, id);
    }

    /** The bulk-delete button. With nothing selected it only raises the
        notice (`deleted` is false); otherwise the selected rows go and the
        selection empties. */
    method HandleDeleteSelected() returns (deleted: bool)
      requires Valid()
      modifies this
      ensures Valid()
      ensures deleted <==> old(selectedRows) != []
      ensures !deleted ==> users == old(users) && selectedRows == old(selectedRows)
      ensures deleted ==> users == DeleteSelected(old(users), old(selectedRows)) && selectedRows == []
      ensures searchTerm == old(searchTerm) && currentPage == old(currentPage)
      ensures old(Coherent()) ==> Coherent()
    {
      if |selectedRows| == 0 {
        deleted := false;
        return;
      }
      DeleteSelectedOrder(users, [], selectedRows);
      assert users + [] == users;
      if OneEditing(users) {
        DeleteSelectedOneEditing(users, selectedRows);
      }
      users := DeleteSelected(users, selectedRows);
      selectedRows := [];
      deleted := true;
    }

    /** The edit button of a row. */
    method HandleEdit(id: Id)
      requires Valid()
      modifies this
      ensures Valid()
      ensures users == EditRows(old(users), id)
      ensures selectedRows == old(selectedRows) && searchTerm == old(searchTerm) && currentPage == old(currentPage)
      ensures UniqueIds(old(users)) ==> OneEditing(users)
      ensures old(Coherent()) ==> Coherent()
    {
      var before := users;
      if UniqueIds(users) {
        EditOneEditing(users, id);
      }
      users := EditRows(users, id);
      SameIdsCoherent(before, users, selectedRows);
    }

    /** The save button of a row. */
    method HandleSave(id: Id)
      requires Valid()
      modifies this
      ensures Valid()
      ensures users == SaveRows(old(users), id)
      ensures selectedRows == old(selectedRows) && searchTerm == old(searchTerm) && currentPage == old(currentPage)
      ensures old(Coherent()) ==> Coherent()
    {
      var before := users;
      if OneEditing(users) {
        SaveOneEditing(users, id);
      }
      users := SaveRows(users, id);
      SameIdsCoherent(before, users, selectedRows);
    }

    /** The delete button of a row: the row goes and the whole selection is
        cleared, not only that row's id. */
    method HandleDelete(id: Id)
      requires Valid()
      modifies this
      ensures Valid()
      ensures users == DeleteRows(old(users), id) && selectedRows == []
      ensures searchTerm == old(searchTerm) && currentPage == old(currentPage)
      ensures old(Coherent()) ==> Coherent()
    {
      DeleteRowsOrder(users, [], id);
      assert users + [] == users;
      if OneEditing(users) {
        DeleteOneEditing(users, id);
      }
      users := DeleteRows(users, id);
      selectedRows := [];
    }

    /** The header checkbox: every row of the whole list is selected. */
    method HandleSelectAll()
      requires Valid()
      modifies this
      ensures Valid()
      ensures selectedRows == Ids(users)
      ensures HeaderIsChecked()
      ensures users == old(users) && searchTerm == old(searchTerm) && currentPage == old(currentPage)
      ensures UniqueIds(users) ==> Consistent(selectedRows, users)
      ensures old(Coherent()) ==> Coherent()
    {
      selectedRows := Ids(users);
      if UniqueIds(users) {
        SelectAllConsistent(users);
      }
    }

    /** Typing into an input of a row. */
    method HandleInputChange(id: Id, field: Field, value: string)
      requires Valid()
      modifies this
      ensures Valid()
      ensures users == InputRows(old(users), id, field, value)
      ensures selectedRows == old(selectedRows) && searchTerm == old(searchTerm) && currentPage == old(currentPage)
      ensures old(Coherent()) ==> Coherent()
    {
      var before := users;
      InputKeepsCommitted(users, id, field, value);
      if OneEditing(users) {
        InputOneEditing(users, id, field, value);
      }
      users := InputRows(users, id, field, value);
      SameIdsCoherent(before, users, selectedRows);
    }
  }

  /** Rows with the same ids keep unique ids and a consistent selection. */
  lemma SameIdsCoherent(a: seq<User>, b: seq<User>, sel: seq<Id>)
    requires |a| == |b| && forall i :: 0 <= i < |a| ==> a[i].id == b[i].id
    ensures UniqueIds(a) ==> UniqueIds(b)
    ensures Consistent(sel, a) ==> Consistent(sel, b)
  {
    assert Ids(a) == Ids(b);
    if UniqueIds(a) {
      forall i, j | 0 <= i < j < |b| ensures IdOf(b[i]) != IdOf(b[j]) {
        assert IdOf(a[i]) != IdOf(a[j]);
      }
    }
  }

  /** The page count ignores the search: a page the pager offers, and the
      clamp admits, can be empty although the list is not. */
  lemma PageCountIgnoresSearch(users: seq<User>, term: string, page: int)
    requires 1 <= page <= TotalPages(|users|)
    requires |SearchFilter(users, term)| <= PageStart(page)
    ensures Clamp(page, TotalPages(|users|)) == page
    ensures PageOf(SearchFilter(users, term), page) == []
  {
    PageShape(SearchFilter(users, term), page);
  }

  /** An example: on the second page of 16 rows with unique ids, deleting
      one row leaves a page count of 1 and the page empty, because
      `HandleDelete` keeps the current page as it is. */
  lemma DeleteLeavesPageBehind(users: seq<User>, id: Id)
    requires |users| == 16 && UniqueIds(users) && id in Ids(users)
    ensures Clamp(2, TotalPages(|users|)) == 2
    ensures TotalPages(|DeleteRows(users, id)|) == 1
    ensures PageOf(SearchFilter(DeleteRows(users, id), ""), 2) == []
  {
    DeleteRowsLength(users, id);
    SearchEmptyTermKeepsAll(DeleteRows(users, id));
    PageShape(DeleteRows(users, id), 2);
  }
}
