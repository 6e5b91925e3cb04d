/** Page arithmetic of the raw-data page: the page count and the row window
    shown for a page. */
module Pagination {

  /** `len(results) // page_size + (1 if len(results) % page_size else 0)`:
      the ceiling of `rows / pageSize`. */
  function TotalPages(rows: nat, pageSize: nat): (pages: nat)
    requires pageSize >= 1
    ensures rows <= pages * pageSize
    ensures pages > 0 ==> (pages - 1) * pageSize < rows
    ensures pages == 0 <==> rows == 0
  {
    var q, r := rows / pageSize, rows % pageSize;
    assert rows == q * pageSize + r;
    if r != 0 then
      assert (q + 1) * pageSize == q * pageSize + pageSize;
      q + 1
    else
      assert q > 0 ==> (q - 1) * pageSize == q * pageSize - pageSize;
      q
  }

  /** `start_idx` and `end_idx` of a page. */
  datatype Window = Window(start: nat, end: nat)

  /** The window of page `page` (counted from 1): page 1 starts at row 0,
      and every window spans one page size. */
  function PageWindow(page: nat, pageSize: nat): (w: Window)
    requires page >= 1 && pageSize >= 1
    ensures page == 1 ==> w.start == 0
    ensures w.end - w.start == pageSize
  {
    var start := (page - 1) * pageSize;
    Window(start, start + pageSize)
  }

  /** Each page's window starts where the previous page's ends, so with
      `PageWindow`'s contract the windows are fixed page by page. */
  lemma NextWindowStartsAtEnd(page: nat, pageSize: nat)
    requires page >= 1 && pageSize >= 1
    ensures PageWindow(page + 1, pageSize).start == PageWindow(page, pageSize).end
  {
  }

  /** `results.iloc[start_idx:end_idx]` shows row `k` of a table of `rows`
      rows: the slice is clipped at the end of the table. */
  predicate Shows(w: Window, rows: nat, k: int) {
    w.start <= k < w.end && k < rows
  }

  /** The number of rows `iloc` returns for a window. */
  function ShownCount(w: Window, rows: nat): nat {
    var lo := if w.start <= rows then w.start else rows;
    var hi := if w.end <= rows then w.end else rows;
    if lo <= hi then hi - lo else 0
  }

  lemma MulMonotone(a: int, b: int, c: nat)
    requires a <= b
    ensures a * c <= b * c
  {
    assert b * c - a * c == (b - a) * c;
  }

  /** `k` lies in the block of `d` numbers that starts at `(k / d) * d`. */
  lemma DivBounds(k: nat, d: nat)
    requires d >= 1
    ensures (k / d) * d <= k < (k / d) * d + d
  {
    assert k == (k / d) * d + k % d;
  }

  /** The quotient of `k` by `d` is the only `q` whose block of `d`
      numbers starting at `q * d` holds `k`. */
  lemma DivUnique(k: nat, d: nat, q: int)
    requires d >= 1 && q * d <= k < q * d + d
    ensures q == k / d
  {
    var r := k / d;
    DivBounds(k, d);
    MulShift(q, d);
    MulShift(r, d);
    if q < r {
      MulMonotone(q + 1, r, d);
    } else if q > r {
      MulMonotone(r + 1, q, d);
    }
  }

  lemma MulShift(a: int, c: int)
    ensures (a + 1) * c == a * c + c
  {
  }

  /** Row `k` lies in page `page`'s window exactly when `page` is
      `k / pageSize + 1`. */
  lemma WindowOfRow(pageSize: nat, page: nat, k: nat)
    requires pageSize >= 1 && page >= 1
    ensures PageWindow(page, pageSize).start <= k < PageWindow(page, pageSize).end <==> page == k / pageSize + 1
  {
    var w := PageWindow(page, pageSize);
    var q := k / pageSize;
    assert w.start == (page - 1) * pageSize && w.end == w.start + pageSize;
    DivBounds(k, pageSize);
    if w.start <= k < w.end {
      DivUnique(k, pageSize, page - 1);
    }
  }

  /** Every selectable page (1 to the page count) starts inside the table
      and shows between one and `pageSize` rows. */
  lemma PageWithinTable(rows: nat, pageSize: nat, page: nat)
    requires pageSize >= 1 && 1 <= page <= TotalPages(rows, pageSize)
    ensures PageWindow(page, pageSize).start < rows
    ensures 1 <= ShownCount(PageWindow(page, pageSize), rows) <= pageSize
  {
    MulMonotone(page - 1, TotalPages(rows, pageSize) - 1, pageSize);
  }

  /** Each row of the table is shown on exactly one selectable page, so the
      windows of distinct pages are disjoint and together cover the table. */
  lemma RowOnExactlyOnePage(rows: nat, pageSize: nat, k: nat)
    requires pageSize >= 1 && k < rows
    ensures 1 <= k / pageSize + 1 <= TotalPages(rows, pageSize)
    ensures Shows(PageWindow(k / pageSize + 1, pageSize), rows, k)
    ensures forall page :: 1 <= page && Shows(PageWindow(page, pageSize), rows, k) ==> page == k / pageSize + 1
  {
    var pages := TotalPages(rows, pageSize);
    WindowOfRow(pageSize, k / pageSize + 1, k);
    forall page | 1 <= page && Shows(PageWindow(page, pageSize), rows, k) ensures page == k / pageSize + 1 {
      WindowOfRow(pageSize, page, k);
    }
    if k / pageSize + 1 > pages {
      MulMonotone(pages, k / pageSize, pageSize);
    }
  }

  /** Some selectable page shows row `k`. */
  ghost predicate OnSomePage(rows: nat, pageSize: nat, k: int)
    requires pageSize >= 1
  {
    exists page :: 1 <= page <= TotalPages(rows, pageSize) && Shows(PageWindow(page, pageSize), rows, k)
  }

  /** The selectable pages' windows cover exactly the rows of the table. */
  lemma PagesCoverTable(rows: nat, pageSize: nat)
    requires pageSize >= 1
    ensures forall k :: 0 <= k < rows <==> OnSomePage(rows, pageSize, k)
  {
    forall k | 0 <= k < rows ensures OnSomePage(rows, pageSize, k) {
      RowOnExactlyOnePage(rows, pageSize, k);
    }
  }
}
