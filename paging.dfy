/** Pagination: the page sizes on offer and the window of rows a page shows. */
module Paging {
  import opened Js

  /** The choices of the rows-per-page control. */
  const PageSizeOptions: set<int> := {5, 10, 25}

  /** Ten rows per page when the table first renders. */
  const InitialRowsPerPage: nat := 10

  function Min(a: int, b: int): int
  {
    if a < b then a else b
  }

  function Max(a: int, b: int): int
  {
    if a < b then b else a
  }

  /** `rows.slice(page * size, page * size + size)`: the rows shown on
      page `page`. The window starts at row `page * size`, holds at most
      `size` rows, and is cut short (possibly to nothing) at the end. */
  function Window<T>(rows: seq<T>, page: nat, size: nat): (w: seq<T>)
    ensures |w| == Min(size, Max(0, |rows| - page * size))
    ensures forall k :: 0 <= k < |w| ==> w[k] == rows[page * size + k]
  {
    Slice(rows, page * size, page * size + size)
  }

  /** A page never shows more rows than the page size, and shows nothing
      (rather than failing) once it starts at or after the last row. */
  lemma WindowBounds<T>(rows: seq<T>, page: nat, size: nat)
    ensures |Window(rows, page, size)| <= size
    ensures page * size >= |rows| ==> Window(rows, page, size) == []
    ensures page * size + size <= |rows| ==> |Window(rows, page, size)| == size
  {
  }

  /** The window is the contiguous run of rows from the page's first row. */
  lemma WindowIsSlice<T>(rows: seq<T>, page: nat, size: nat)
    requires page * size <= |rows|
    ensures Window(rows, page, size) == rows[page * size .. Min(page * size + size, |rows|)]
  {
  }

  /** Every row is on exactly one page: row `k` is entry `k % size` of page
      `k / size`. */
  lemma RowOnItsPage<T>(rows: seq<T>, size: nat, k: nat)
    requires size > 0 && k < |rows|
    ensures k % size < |Window(rows, k / size, size)|
    ensures Window(rows, k / size, size)[k % size] == rows[k]
  {
    var p, o := k / size, k % size;
    assert p * size + o == k;
    assert p * size <= k;
  }

  /** With 12 rows and 5 rows per page, page 2 shows rows 10 and 11. */
  lemma WindowExample<T>(rows: seq<T>)
    requires |rows| == 12
    ensures Window(rows, 2, 5) == rows[10..12]
  {
    WindowIsSlice(rows, 2, 5);
  }
}
