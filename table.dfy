/** The table's state controller: six state variables and the handlers that
    move them from one value to the next, each handler one atomic step that
    reads the state as it was before the event. */
module Table {
  import opened Js
  import opened Customers
  import opened Sorting
  import opened Search
  import opened Selection
  import opened Paging

  class CustomerTable {
    /** The records loaded at start-up; never changed. */
    const initialRows: seq<Row>

    /** The working rows: the latest search result, reordered by later sorts. */
    var rows: seq<Row>
    /** The direction the active column's sort label shows. */
    var order: Order
    /** The active sort column. */
    var orderBy: Field
    /** The selected names, in the order they were selected. */
    var selected: seq<string>
    /** The page cursor, as set by the page control. */
    var page: nat
    /** Rows per page. */
    var rowsPerPage: nat

    /** Every loaded record has a status the colour table knows, the working
        rows are drawn from the loaded records (no row invented, none
        repeated more often than loaded), and the page size is one on offer. */
    ghost predicate Valid()
      reads this
    {
      && (forall r :: r in initialRows ==> HasKnownStatus(r))
      && multiset(rows) <= multiset(initialRows)
      && rowsPerPage in PageSizeOptions
    }

    /** The state on first render: all loaded rows in load order, sorted
        ascending by name as far as the header shows, nothing selected,
        page 0 of 10 rows. */
    constructor (data: seq<Row>)
      requires forall r :: r in data ==> HasKnownStatus(r)
      ensures Valid()
      ensures initialRows == data && rows == data
      ensures order == Asc && orderBy == Name
      ensures selected == [] && page == 0 && rowsPerPage == InitialRowsPerPage
    {
      initialRows := data;
      rows := data;
      order := Asc;
      orderBy := Name;
      selected := [];
      page := 0;
      rowsPerPage := InitialRowsPerPage;
    }

    /** handleRequestSort: the label flips to descending when the same column
        was ascending, and shows ascending otherwise; in the first case the
        rows are sorted ascending, in the second descending, so the rows run
        opposite to the label. */
    method HandleRequestSort(property: Field)
      requires Valid()
      modifies this
      ensures Valid()
      ensures var isAsc := old(orderBy) == property && old(order) == Asc;
        && order == (if isAsc then Desc else Asc)
        && rows == SortRows(old(rows), property, isAsc)
      ensures orderBy == property
      ensures multiset(rows) == multiset(old(rows))
      ensures order == Desc ==> NonDecreasing(rows, property)
      ensures order == Asc ==> NonIncreasing(rows, property)
      ensures selected == old(selected) && page == old(page) && rowsPerPage == old(rowsPerPage)
    {
      var isAsc := orderBy == property && order == Asc;
      order := if isAsc then Desc else Asc;
      orderBy := property;
      rows := SortRows(rows, property, isAsc);
      SortedByMeaning(rows, property, isAsc);
    }

    /** handleSearch: the rows become the loaded records that match the text,
        in load order, whatever the rows were before; nothing else changes
        (the sort label, the selection and the page stay as they were). */
    method HandleSearch(text: string)
      requires Valid()
      modifies this
      ensures Valid()
      ensures rows == SearchRows(initialRows, text)
      ensures IsSubsequence(rows, initialRows)
      ensures order == old(order) && orderBy == old(orderBy)
      ensures selected == old(selected) && page == old(page) && rowsPerPage == old(rowsPerPage)
    {
      rows := SearchRows(initialRows, text);
      SearchWithinData(initialRows, text);
    }

    /** handleSelectAllClick: ticking selects the names of the current rows in
        row order, unticking selects nothing. */
    method HandleSelectAllClick(checked: bool)
      requires Valid()
      modifies this
      ensures Valid()
      ensures selected == SelectAll(rows, checked)
      ensures checked ==> |selected| == |rows|
      ensures !checked ==> selected == []
      ensures rows == old(rows) && order == old(order) && orderBy == old(orderBy)
      ensures page == old(page) && rowsPerPage == old(rowsPerPage)
    {
      selected := SelectAll(rows, checked);
    }

    /** handleClick on the row named `name`. */
    method HandleClick(name: string)
      requires Valid()
      modifies this
      ensures Valid()
      ensures selected == Toggle(old(selected), name)
      ensures name !in old(selected) ==> selected == old(selected) + [name]
      ensures name in old(selected) ==> |selected| == |old(selected)| - 1
      ensures rows == old(rows) && order == old(order) && orderBy == old(orderBy)
      ensures page == old(page) && rowsPerPage == old(rowsPerPage)
    {
      selected := Toggle(selected, name);
    }

    /** handleChangePage: the cursor moves to the page asked for, unclamped. */
    method HandleChangePage(newPage: nat)
      requires Valid()
      modifies this
      ensures Valid()
      ensures page == newPage
      ensures rows == old(rows) && order == old(order) && orderBy == old(orderBy)
      ensures selected == old(selected) && rowsPerPage == old(rowsPerPage)
    {
      page := newPage;
    }

    /** handleChangeRowsPerPage: takes the size picked and always goes back
        to the first page. */
    method HandleChangeRowsPerPage(size: nat)
      requires Valid()
      requires size in PageSizeOptions
      modifies this
      ensures Valid()
      ensures rowsPerPage == size && page == 0
      ensures rows == old(rows) && order == old(order) && orderBy == old(orderBy)
      ensures selected == old(selected)
    {
      rowsPerPage := size;
      page := 0;
    }

    /** The header box is half ticked. */
    function IsIndeterminate(): (b: bool)
      reads this
      ensures b ==> !IsChecked()
      ensures selected == [] ==> !b
    {
      Indeterminate(|selected|, |rows|)
    }

    /** The header box is ticked. */
    function IsChecked(): (b: bool)
      reads this
      ensures b ==> |rows| > 0
      ensures selected == [] ==> !b
    {
      AllChecked(|selected|, |rows|)
    }

    /** A row's box is ticked when its name is on the selection list. */
    function IsItemSelected(name: string): (b: bool)
      reads this
      ensures b <==> name in selected
    {
      IndexOf(selected, name) != -1
    }

    /** The rows on the current page. Every one of them is a loaded record
        whose status has a colour. */
    function VisibleRows(): (w: seq<Row>)
      reads this
      requires Valid()
      ensures |w| <= rowsPerPage
      ensures forall r :: r in w ==> r in initialRows && HasKnownStatus(r)
    {
      var w := Window(rows, page, rowsPerPage);
      assert forall r :: r in w ==> r in rows;
      assert forall r :: r in rows ==> r in initialRows by {
        forall r | r in rows ensures r in initialRows {
          assert multiset(rows)[r] > 0;
        }
      }
      w
    }
  }

  /** Two clicks on the same column header: `between` is the rows after the
      first click; the second click shows the column's values in exactly
      the reverse order (rows with equal values may trade places). */
  method ClickHeaderTwice(t: CustomerTable, f: Field) returns (between: seq<Row>)
    requires t.Valid()
    modifies t
    ensures t.Valid() && t.orderBy == f
    ensures t.order == if old(t.orderBy) == f && old(t.order) == Asc then Asc else Desc
    ensures multiset(between) == multiset(t.rows) == multiset(old(t.rows))
    ensures Keys(t.rows, f) == Reverse(Keys(between, f))
  {
    ghost var isAsc := t.orderBy == f && t.order == Asc;
    t.HandleRequestSort(f);
    between := t.rows;
    t.HandleRequestSort(f);
    ResortReverses(old(t.rows), f, isAsc);
  }

  /** A table showing two rows out of name order (Bob, then Amy, say) under
      the first render's ascending Name label: the first click on the Name
      header shows them in name order under a descending label; the second
      shows them the other way round under an ascending one. */
  method SortScenario(t: CustomerTable, amy: Row, bob: Row) returns (first: seq<Row>, firstOrder: Order, second: seq<Row>)
    requires t.Valid() && t.rows == [bob, amy] && t.orderBy == Name && t.order == Asc
    requires StrLess(amy.name, bob.name)
    modifies t
    ensures first == [amy, bob] && firstOrder == Desc
    ensures second == [bob, amy] && t.rows == second && t.order == Asc
  {
    StrLessAsymmetric(amy.name, bob.name);
    SortPair(bob, amy, Name, true);
    SortPair(amy, bob, Name, false);
    t.HandleRequestSort(Name);
    first, firstOrder := t.rows, t.order;
    t.HandleRequestSort(Name);
    second := t.rows;
  }
}
