/** The pages the listing is fetched in: windows of `rowsPerPage` rows starting at
    row 1, the last one cut to what is left, each requested with the session's form
    fields plus the paging fields. */
module Pagination {

  import opened Wrappers
  import opened Text

  /** One page: its first row (counted from 1) and how many rows it asks for. */
  datatype PageWindow = PageWindow(firstRow: int, rowCount: int)

  function Min(a: int, b: int): int {
    if a <= b then a else b
  }

  /** The windows from row `first` on; the row count is the page size unless fewer
      rows are left. */
  function Windows(totalRows: int, rowsPerPage: int, first: int): (ws: seq<PageWindow>)
    requires first > totalRows || rowsPerPage > 0
    ensures ws != [] ==> first <= totalRows && ws[0].firstRow == first
    decreases if first <= totalRows then totalRows - first + 1 else 0
  {
    if first > totalRows then []
    else
      var count := if totalRows - first >= rowsPerPage then rowsPerPage else totalRows - first + 1;
      [PageWindow(first, count)] + Windows(totalRows, rowsPerPage, first + rowsPerPage)
  }

  /** The rows the windows ask for, added up. */
  function RowsRequested(ws: seq<PageWindow>): int {
    if ws == [] then 0 else ws[0].rowCount + RowsRequested(ws[1..])
  }

  /** Proof step for the window count: a positive multiple of a page is at least one page. */
  lemma MulAtLeast(d: int, s: int)
    requires d >= 1 && s > 0
    ensures d * s >= s
  {
  }

  /** Quotient and remainder are the only ones: `a == q * s + r` with `0 <= r < s`
      fixes `a / s` and `a % s`. */
  lemma DivModUnique(a: int, s: int, q: int, r: int)
    requires s > 0 && 0 <= r < s && a == q * s + r
    ensures a / s == q && a % s == r
  {
    var q0, r0 := a / s, a % s;
    assert (q - q0) * s == r0 - r;
    if q > q0 {
      MulAtLeast(q - q0, s);
    } else if q < q0 {
      MulAtLeast(q0 - q, s);
    }
  }

  /** From row `first`, the windows are the fewest pages that cover the rows left. */
  lemma {:induction false} WindowsCountFrom(totalRows: int, rowsPerPage: int, first: int)
    requires rowsPerPage > 0
    ensures var n := |Windows(totalRows, rowsPerPage, first)|;
      if first > totalRows then n == 0
      else (n - 1) * rowsPerPage <= totalRows - first < n * rowsPerPage
    decreases if first <= totalRows then totalRows - first + 1 else 0
  {
    if first <= totalRows {
      WindowsCountFrom(totalRows, rowsPerPage, first + rowsPerPage);
      var n := |Windows(totalRows, rowsPerPage, first + rowsPerPage)|;
      assert (n + 1 - 1) * rowsPerPage == n * rowsPerPage;
      assert (n + 1) * rowsPerPage == n * rowsPerPage + rowsPerPage;
      assert (n - 1) * rowsPerPage == n * rowsPerPage - rowsPerPage;
    }
  }

  /** With a positive page size there are ceil(totalRows / rowsPerPage) pages, and none
      when there is no row. */
  lemma WindowsCount(totalRows: int, rowsPerPage: int)
    requires rowsPerPage > 0
    ensures |Windows(totalRows, rowsPerPage, 1)|
            == if totalRows < 1 then 0 else (totalRows + rowsPerPage - 1) / rowsPerPage
  {
    WindowsCountFrom(totalRows, rowsPerPage, 1);
    var n := |Windows(totalRows, rowsPerPage, 1)|;
    if totalRows >= 1 {
      var r := totalRows - 1 - (n - 1) * rowsPerPage;
      assert n * rowsPerPage == (n - 1) * rowsPerPage + rowsPerPage;
      DivModUnique(totalRows + rowsPerPage - 1, rowsPerPage, n, r);
    }
  }

  /** Window `i` starts `i` pages after `first` and asks for the page size or for the
      rows left, whichever is fewer. */
  lemma {:induction false} WindowAt(totalRows: int, rowsPerPage: int, first: int, i: nat)
    requires rowsPerPage > 0
    requires i < |Windows(totalRows, rowsPerPage, first)|
    ensures var w := Windows(totalRows, rowsPerPage, first)[i];
      w.firstRow == first + i * rowsPerPage && w.firstRow <= totalRows
      && w.rowCount == Min(rowsPerPage, totalRows - w.firstRow + 1)
    decreases i
  {
    if i > 0 {
      WindowAt(totalRows, rowsPerPage, first + rowsPerPage, i - 1);
      assert first + rowsPerPage + (i - 1) * rowsPerPage == first + i * rowsPerPage;
    }
  }

  /** Every window asks for at least one row and at most a page. */
  lemma WindowBounds(totalRows: int, rowsPerPage: int, i: nat)
    requires rowsPerPage > 0
    requires i < |Windows(totalRows, rowsPerPage, 1)|
    ensures 1 <= Windows(totalRows, rowsPerPage, 1)[i].rowCount <= rowsPerPage
  {
    WindowAt(totalRows, rowsPerPage, 1, i);
  }

  /** The windows from `first` on ask for exactly the rows from `first` to the end. */
  lemma {:induction false} RowsRequestedFrom(totalRows: int, rowsPerPage: int, first: int)
    requires rowsPerPage > 0
    ensures RowsRequested(Windows(totalRows, rowsPerPage, first))
            == if first > totalRows then 0 else totalRows - first + 1
    decreases if first <= totalRows then totalRows - first + 1 else 0
  {
    if first <= totalRows {
      var ws := Windows(totalRows, rowsPerPage, first);
      RowsRequestedFrom(totalRows, rowsPerPage, first + rowsPerPage);
      assert ws[1..] == Windows(totalRows, rowsPerPage, first + rowsPerPage);
    }
  }

  /** All pages together ask for every row once: `totalRows` rows when there are any. */
  lemma RowsRequestedTotal(totalRows: int, rowsPerPage: int)
    requires rowsPerPage > 0
    ensures RowsRequested(Windows(totalRows, rowsPerPage, 1)) == if totalRows < 1 then 0 else totalRows
  {
    RowsRequestedFrom(totalRows, rowsPerPage, 1);
  }

  /** The last page asks for the remainder of the division, or a full page when the
      page size divides the total. */
  lemma LastWindow(totalRows: int, rowsPerPage: int)
    requires rowsPerPage > 0 && totalRows >= 1
    ensures var ws := Windows(totalRows, rowsPerPage, 1);
      |ws| > 0 && ws[|ws| - 1].rowCount
                  == if totalRows % rowsPerPage == 0 then rowsPerPage else totalRows % rowsPerPage
  {
    var ws := Windows(totalRows, rowsPerPage, 1);
    WindowsCountFrom(totalRows, rowsPerPage, 1);
    var n := |ws|;
    WindowAt(totalRows, rowsPerPage, 1, n - 1);
    var r := totalRows - 1 - (n - 1) * rowsPerPage;
    assert ws[n - 1].rowCount == r + 1;
    if r + 1 == rowsPerPage {
      assert n * rowsPerPage == (n - 1) * rowsPerPage + rowsPerPage;
      DivModUnique(totalRows, rowsPerPage, n, 0);
    } else {
      DivModUnique(totalRows, rowsPerPage, n - 1, r + 1);
    }
  }

  // ---------------------------------------------------------------------------
  // The request body of a page

  /** The `p_widget_action_mod` value of a page. */
  function ActionMod(minRow: int, maxRows: int, rowsFetched: int): string
  {
    "pgR_min_row=" + IntToString(minRow) + "max_rows=" + IntToString(maxRows)
      + "rows_fetched=" + IntToString(rowsFetched)
  }

  /** The paging fields every request sets. */
  const PagingKeys: set<string> :=
    {"p_request", "p_widget_name", "p_widget_mod", "p_widget_action", "p_widget_num_return", "p_widget_action_mod"}

  /** The session's fields with the paging fields set on top, given the texts of the
      row count and of the action modifier. */
  function PagingFields(meta: map<string, string>, numReturn: string, actionMod: string): map<string, string> {
    meta["p_request" := "APXWGT"]["p_widget_name" := "worksheet"]["p_widget_mod" := "ACTION"]
        ["p_widget_action" := "PAGE"]["p_widget_num_return" := numReturn]["p_widget_action_mod" := actionMod]
  }

  /** The fields are the session's and the paging ones; a session field the paging
      fields do not name keeps its value, and each paging field has its own. */
  lemma PagingFieldsContents(meta: map<string, string>, numReturn: string, actionMod: string)
    ensures var p := PagingFields(meta, numReturn, actionMod);
      && p.Keys == meta.Keys + PagingKeys
      && (forall k :: k in meta && k !in PagingKeys ==> p[k] == meta[k])
      && p["p_request"] == "APXWGT" && p["p_widget_name"] == "worksheet"
      && p["p_widget_mod"] == "ACTION" && p["p_widget_action"] == "PAGE"
      && p["p_widget_num_return"] == numReturn && p["p_widget_action_mod"] == actionMod
  {
  }

  /** The body of the request for one page: the session's fields, then the paging
      fields. */
  function PagePayload(meta: map<string, string>, w: PageWindow): map<string, string> {
    PagingFields(meta, IntToString(w.rowCount), ActionMod(w.firstRow, w.rowCount, w.rowCount))
  }

  /** A request body has the session's fields and the paging fields, keeps every
      session field it does not set, and sets the fixed paging values; its row count
      reads back as the window's. */
  lemma PagePayloadContents(meta: map<string, string>, w: PageWindow)
    ensures var p := PagePayload(meta, w);
      && p.Keys == meta.Keys + PagingKeys
      && (forall k :: k in meta && k !in PagingKeys ==> p[k] == meta[k])
      && p["p_request"] == "APXWGT" && p["p_widget_name"] == "worksheet"
      && p["p_widget_mod"] == "ACTION" && p["p_widget_action"] == "PAGE"
      && ParseInt(p["p_widget_num_return"]) == Some(w.rowCount)
      && p["p_widget_action_mod"] == ActionMod(w.firstRow, w.rowCount, w.rowCount)
  {
    PagingFieldsContents(meta, IntToString(w.rowCount), ActionMod(w.firstRow, w.rowCount, w.rowCount));
    ParseIntToString(w.rowCount);
  }

  /** The windows from `first` on are the window at `first` followed by the windows a
      page later. */
  lemma WindowsUnfold(totalRows: int, rowsPerPage: int, first: int, count: int)
    requires rowsPerPage > 0 && first <= totalRows
    requires count == if totalRows - first >= rowsPerPage then rowsPerPage else totalRows - first + 1
    ensures Windows(totalRows, rowsPerPage, first)
            == [PageWindow(first, count)] + Windows(totalRows, rowsPerPage, first + rowsPerPage)
  {
  }

  /** Proof step for the generator's loop: regrouping a concatenation. */
  lemma AppendAssoc<T>(a: seq<T>, b: seq<T>, c: seq<T>)
    ensures a + (b + c) == (a + b) + c
  {
  }

  /** Taking the window at `first` off the ones left keeps them, in order, after the
      ones already taken. */
  lemma WindowsStep(totalRows: int, rowsPerPage: int, first: int, count: int,
                    done: seq<PageWindow>, done': seq<PageWindow>, next: int)
    requires rowsPerPage > 0 && first <= totalRows
    requires count == if totalRows - first >= rowsPerPage then rowsPerPage else totalRows - first + 1
    requires Windows(totalRows, rowsPerPage, 1) == done + Windows(totalRows, rowsPerPage, first)
    requires done' == done + [PageWindow(first, count)] && next == first + rowsPerPage
    ensures Windows(totalRows, rowsPerPage, 1) == done' + Windows(totalRows, rowsPerPage, next)
  {
    WindowsUnfold(totalRows, rowsPerPage, first, count);
    AppendAssoc(done, [PageWindow(first, count)], Windows(totalRows, rowsPerPage, next));
  }

  /** The request bodies of the windows `ws`, in order. */
  function Payloads(meta: map<string, string>, ws: seq<PageWindow>): (ps: seq<map<string, string>>)
    ensures |ps| == |ws|
  {
    seq(|ws|, i requires 0 <= i < |ws| => PagePayload(meta, ws[i]))
  }

  /** Body `i` has the session's fields and the paging fields, keeps every session
      field it does not set, and carries the row count and action modifier of
      window `i`. */
  lemma PayloadsContents(meta: map<string, string>, ws: seq<PageWindow>, i: nat)
    requires i < |ws|
    ensures var p := Payloads(meta, ws)[i];
      && p.Keys == meta.Keys + PagingKeys
      && (forall k :: k in meta && k !in PagingKeys ==> p[k] == meta[k])
      && p["p_request"] == "APXWGT" && p["p_widget_name"] == "worksheet"
      && p["p_widget_mod"] == "ACTION" && p["p_widget_action"] == "PAGE"
      && ParseInt(p["p_widget_num_return"]) == Some(ws[i].rowCount)
      && p["p_widget_action_mod"] == ActionMod(ws[i].firstRow, ws[i].rowCount, ws[i].rowCount)
  {
    PagePayloadContents(meta, ws[i]);
  }

  /** With session fields that the paging fields do not name, body `i` of all the
      windows keeps every session field and asks for the rows of page `i`: from row
      `1 + i * rowsPerPage`, a full page or the rows left. */
  lemma WindowBodyContents(meta: map<string, string>, totalRows: int, rowsPerPage: int, i: nat)
    requires meta.Keys !! PagingKeys && rowsPerPage > 0
    requires i < |Windows(totalRows, rowsPerPage, 1)|
    ensures var p := Payloads(meta, Windows(totalRows, rowsPerPage, 1))[i];
      var count := Min(rowsPerPage, totalRows - i * rowsPerPage);
      && p.Keys == meta.Keys + PagingKeys
      && (forall k :: k in meta ==> p[k] == meta[k])
      && 1 <= count <= rowsPerPage
      && ParseInt(p["p_widget_num_return"]) == Some(count)
      && p["p_widget_action_mod"] == ActionMod(1 + i * rowsPerPage, count, count)
  {
    var ws := Windows(totalRows, rowsPerPage, 1);
    WindowAt(totalRows, rowsPerPage, 1, i);
    WindowBounds(totalRows, rowsPerPage, i);
    assert ws[i] == PageWindow(1 + i * rowsPerPage, Min(rowsPerPage, totalRows - i * rowsPerPage));
    PayloadsContents(meta, ws, i);
  }

  /** Adding the body of one more window to the bodies of the windows before it
      gives the bodies of all of them. */
  lemma PayloadsStep(meta: map<string, string>, ws: seq<PageWindow>, w: PageWindow, ws': seq<PageWindow>,
                     bodies: seq<map<string, string>>, body: map<string, string>)
    requires ws' == ws + [w] && bodies == Payloads(meta, ws) && body == PagePayload(meta, w)
    ensures bodies + [body] == Payloads(meta, ws')
  {
    var ps := Payloads(meta, ws');
    forall i | 0 <= i < |ws'| ensures (bodies + [body])[i] == ps[i] {
      if i < |ws| {
        assert ws'[i] == ws[i];
      }
    }
  }
}
