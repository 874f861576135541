/**
 * The row loop of `scrape_archive` in scrape-archive_download.py: every
 * table row of the listing page that has an anchor and at least one cell
 * contributes a resolved URL, a decoded file name and the parsed size of its
 * last cell; a row whose processing raises contributes nothing.
 *
 * HTML parsing is abstracted: a row is its first anchor (if any), that
 * anchor's `href` attribute (if any) and the texts of its `td` cells.
 * `urljoin` and `unquote` are opaque functions supplied by the caller;
 * `urljoin` answers `None` where the library would raise.
 */
module Listing {
  import opened Wrappers
  import SizeParsing

  /** The first `<a>` of a row; `href` is `None` when the attribute is missing (`link['href']` raises `KeyError`). */
  datatype Anchor = Anchor(href: Option<string>)

  /** One `<tr>`: its first anchor, if any, and the texts of its `<td>` cells in document order. */
  datatype Row = Row(anchor: Option<Anchor>, cells: seq<string>)

  /**
   * What an accepted row contributes: the absolute URL, the display name and
   * the text of the size cell, whose estimate in bytes is `Size()`.
   */
  datatype Entry = Entry(url: string, name: string, sizeText: string) {
    /** `parse_size(size_cell.text)`; it never raises, so evaluating it here or in the row loop is the same. */
    function Size(): real {
      SizeParsing.ParseSize(sizeText)
    }
  }

  /** How the loop body ends for one row. */
  datatype RowResult =
    | NotAFile          // no anchor or no cell: `if link and size_cell` is false
    | Raised            // an exception inside the `try`: the warning is printed, the row is skipped
    | Accepted(entry: Entry)

  type UrlJoin = (string, string) -> Option<string>
  type Unquote = string -> string

  /** `href.split('/')[-1]`: the text after the last `/`, or all of `href` when it has none. */
  function LastSegment(href: string): (seg: string)
    ensures |seg| <= |href| && seg == href[|href| - |seg|..]
    ensures forall i :: 0 <= i < |seg| ==> seg[i] != '/'
    ensures |seg| < |href| ==> href[|href| - |seg| - 1] == '/'
  {
    if href == [] || href[|href| - 1] == '/' then []
    else LastSegment(href[..|href| - 1]) + [href[|href| - 1]]
  }

  /** The body of the loop for one row, `link = row.find('a')` through `total_size += size`. */
  function ProcessRow(page: string, row: Row, urljoin: UrlJoin, unquote: Unquote): RowResult {
    match row.anchor
    case None => NotAFile
    case Some(link) =>
      if row.cells == [] then NotAFile
      else
        match link.href
        case None => Raised
        case Some(href) =>
          match urljoin(page, href)
          case None => Raised
          case Some(url) =>
            Accepted(Entry(url, unquote(LastSegment(href)), row.cells[|row.cells| - 1]))
  }

  /**
   * A row is looked at only when it has an anchor and a cell; it is accepted
   * exactly when, in addition, the anchor has an `href` that `urljoin`
   * resolves. An accepted row yields the resolved URL, the decoded last
   * segment of the `href`, and the size parsed from its LAST cell.
   */
  lemma RowRule(page: string, row: Row, urljoin: UrlJoin, unquote: Unquote)
    ensures var res := ProcessRow(page, row, urljoin, unquote);
      && (res.NotAFile? <==> row.anchor.None? || row.cells == [])
      && (res.Accepted? <==>
            row.anchor.Some? && row.cells != [] && row.anchor.value.href.Some?
            && urljoin(page, row.anchor.value.href.value).Some?)
      && (res.Accepted? ==>
            var href := row.anchor.value.href.value;
            && res.entry.url == urljoin(page, href).value
            && res.entry.name == unquote(LastSegment(href))
            && res.entry.sizeText == row.cells[|row.cells| - 1]
            && res.entry.Size() == SizeParsing.ParseSize(row.cells[|row.cells| - 1]))
  {
    if row.anchor.Some? && row.cells != [] && row.anchor.value.href.Some? {
      var href := row.anchor.value.href.value;
      if urljoin(page, href).Some? {
        assert ProcessRow(page, row, urljoin, unquote).Accepted?;
      } else {
        assert ProcessRow(page, row, urljoin, unquote) == Raised;
      }
    }
  }

  function Contribution(res: RowResult): seq<Entry> {
    if res.Accepted? then [res.entry] else []
  }

  /** The entries the loop collects from `rows`, in document order. */
  function Entries(page: string, rows: seq<Row>, urljoin: UrlJoin, unquote: Unquote): seq<Entry> {
    if rows == [] then []
    else Entries(page, rows[..|rows| - 1], urljoin, unquote)
         + Contribution(ProcessRow(page, rows[|rows| - 1], urljoin, unquote))
  }

  function Urls(es: seq<Entry>): (r: seq<string>)
    ensures |r| == |es| && forall k :: 0 <= k < |es| ==> r[k] == es[k].url
  {
    if es == [] then [] else Urls(es[..|es| - 1]) + [es[|es| - 1].url]
  }

  function Names(es: seq<Entry>): (r: seq<string>)
    ensures |r| == |es| && forall k :: 0 <= k < |es| ==> r[k] == es[k].name
  {
    if es == [] then [] else Names(es[..|es| - 1]) + [es[|es| - 1].name]
  }

  function TotalSize(es: seq<Entry>): real {
    if es == [] then 0.0 else TotalSize(es[..|es| - 1]) + es[|es| - 1].Size()
  }

  lemma EntriesStep(page: string, rows: seq<Row>, i: nat, urljoin: UrlJoin, unquote: Unquote)
    requires i < |rows|
    ensures Entries(page, rows[..i + 1], urljoin, unquote)
            == Entries(page, rows[..i], urljoin, unquote) + Contribution(ProcessRow(page, rows[i], urljoin, unquote))
  {
    assert rows[..i + 1][..i] == rows[..i];
  }

  lemma AppendContribution(es: seq<Entry>, res: RowResult)
    ensures Urls(es + Contribution(res)) == Urls(es) + (if res.Accepted? then [res.entry.url] else [])
    ensures Names(es + Contribution(res)) == Names(es) + (if res.Accepted? then [res.entry.name] else [])
    ensures TotalSize(es + Contribution(res)) == TotalSize(es) + (if res.Accepted? then res.entry.Size() else 0.0)
  {
    if res.Accepted? {
      assert (es + [res.entry])[..|es|] == es;
    } else {
      assert es + [] == es;
    }
  }

  /**
   * The loop over the rows: `game_url_list`, `game_name_list` and
   * `total_size` grow together, one accepted row at a time.
   */
  method ScrapeRows(page: string, rows: seq<Row>, urljoin: UrlJoin, unquote: Unquote)
    returns (urls: seq<string>, names: seq<string>, total: real)
    ensures |urls| == |names|
    ensures urls == Urls(Entries(page, rows, urljoin, unquote))
    ensures names == Names(Entries(page, rows, urljoin, unquote))
    ensures total == TotalSize(Entries(page, rows, urljoin, unquote))
  {
    urls, names, total := [], [], 0.0;
    for i := 0 to |rows|
      invariant urls == Urls(Entries(page, rows[..i], urljoin, unquote))
      invariant names == Names(Entries(page, rows[..i], urljoin, unquote))
      invariant total == TotalSize(Entries(page, rows[..i], urljoin, unquote))
    {
      var res := ProcessRow(page, rows[i], urljoin, unquote);
      EntriesStep(page, rows, i, urljoin, unquote);
      AppendContribution(Entries(page, rows[..i], urljoin, unquote), res);
      if res.Accepted? {
        urls := urls + [res.entry.url];
        names := names + [res.entry.name];
        total := total + res.entry.Size();
      }
    }
    assert rows[..|rows|] == rows;
  }

  /**
   * `scrape_archive(url)`: `page` is the parsed listing, or `None` when the
   * request failed or answered with an error status.
   */
  method ScrapeArchive(url: string, page: Option<seq<Row>>, urljoin: UrlJoin, unquote: Unquote)
    returns (urls: seq<string>, names: seq<string>, total: real)
    ensures page.None? ==> urls == [] && names == [] && total == 0.0
    ensures page.Some? ==>
      var es := Entries(url, page.value, urljoin, unquote);
      urls == Urls(es) && names == Names(es) && total == TotalSize(es)
  {
    match page
    case None =>
      urls, names, total := [], [], 0.0;
    case Some(rows) =>
      urls, names, total := ScrapeRows(url, rows, urljoin, unquote);
  }

  // ---------------------------------------------------------------------
  // Properties of the row loop

  lemma {:induction false} EntriesAppend(page: string, a: seq<Row>, b: seq<Row>, urljoin: UrlJoin, unquote: Unquote)
    ensures Entries(page, a + b, urljoin, unquote) == Entries(page, a, urljoin, unquote) + Entries(page, b, urljoin, unquote)
  {
    if b == [] {
      assert a + b == a;
    } else {
      var b' := b[..|b| - 1];
      assert (a + b)[..|a + b| - 1] == a + b';
      assert (a + b)[|a + b| - 1] == b[|b| - 1];
      EntriesAppend(page, a, b', urljoin, unquote);
    }
  }

  lemma EntriesSingle(page: string, row: Row, urljoin: UrlJoin, unquote: Unquote)
    ensures Entries(page, [row], urljoin, unquote) == Contribution(ProcessRow(page, row, urljoin, unquote))
  {
    assert [row][..0] == [];
  }

  /**
   * A row that is not a file, or whose processing raises, leaves the URL
   * list, the name list and the total exactly as they would be without it.
   */
  lemma FailingRowChangesNothing(page: string, before: seq<Row>, row: Row, after: seq<Row>,
                                 urljoin: UrlJoin, unquote: Unquote)
    requires !ProcessRow(page, row, urljoin, unquote).Accepted?
    ensures Entries(page, before + [row] + after, urljoin, unquote) == Entries(page, before + after, urljoin, unquote)
  {
    EntriesAppend(page, before + [row], after, urljoin, unquote);
    EntriesAppend(page, before, [row], urljoin, unquote);
    EntriesAppend(page, before, after, urljoin, unquote);
    EntriesSingle(page, row, urljoin, unquote);
  }

  /** The positions of the accepted rows, in increasing order. */
  function AcceptedIndices(page: string, rows: seq<Row>, urljoin: UrlJoin, unquote: Unquote): seq<nat> {
    if rows == [] then []
    else AcceptedIndices(page, rows[..|rows| - 1], urljoin, unquote)
         + (if ProcessRow(page, rows[|rows| - 1], urljoin, unquote).Accepted? then [|rows| - 1] else [])
  }

  /** Each accepted row position contributes exactly one entry. */
  lemma {:induction false} AcceptedCount(page: string, rows: seq<Row>, urljoin: UrlJoin, unquote: Unquote)
    ensures |AcceptedIndices(page, rows, urljoin, unquote)| == |Entries(page, rows, urljoin, unquote)|
    ensures forall k :: 0 <= k < |AcceptedIndices(page, rows, urljoin, unquote)| ==>
              AcceptedIndices(page, rows, urljoin, unquote)[k] < |rows|
  {
    if rows != [] {
      AcceptedCount(page, rows[..|rows| - 1], urljoin, unquote);
    }
  }

  /**
   * The collected entries are exactly the accepted rows, each once, in
   * document order: the k-th entry comes from the k-th accepted row.
   */
  lemma {:induction false} EntriesInDocumentOrder(page: string, rows: seq<Row>, urljoin: UrlJoin, unquote: Unquote)
    ensures var es := Entries(page, rows, urljoin, unquote);
      var idx := AcceptedIndices(page, rows, urljoin, unquote);
      && |idx| == |es|
      && (forall k :: 0 <= k < |idx| ==>
            idx[k] < |rows| && ProcessRow(page, rows[idx[k]], urljoin, unquote) == Accepted(es[k]))
  {
    AcceptedCount(page, rows, urljoin, unquote);
    if rows != [] {
      var n := |rows| - 1;
      var init := rows[..n];
      EntriesInDocumentOrder(page, init, urljoin, unquote);
      var res := ProcessRow(page, rows[n], urljoin, unquote);
      var es0, idx0 := Entries(page, init, urljoin, unquote), AcceptedIndices(page, init, urljoin, unquote);
      var es, idx := Entries(page, rows, urljoin, unquote), AcceptedIndices(page, rows, urljoin, unquote);
      assert es == es0 + Contribution(res);
      assert idx == idx0 + (if res.Accepted? then [n] else []);
      forall k | 0 <= k < |idx|
        ensures ProcessRow(page, rows[idx[k]], urljoin, unquote) == Accepted(es[k])
      {
        if k < |idx0| {
          assert idx[k] == idx0[k] && es[k] == es0[k];
          assert rows[idx0[k]] == init[idx0[k]];
        }
      }
    }
  }

  /** The accepted positions are strictly increasing, so no row is counted twice. */
  lemma {:induction false} AcceptedIndicesIncrease(page: string, rows: seq<Row>, urljoin: UrlJoin, unquote: Unquote)
    ensures var idx := AcceptedIndices(page, rows, urljoin, unquote);
      forall k, l :: 0 <= k < l < |idx| ==> idx[k] < idx[l]
  {
    if rows != [] {
      var n := |rows| - 1;
      var init := rows[..n];
      AcceptedIndicesIncrease(page, init, urljoin, unquote);
      AcceptedCount(page, init, urljoin, unquote);
      var idx0 := AcceptedIndices(page, init, urljoin, unquote);
      var idx := AcceptedIndices(page, rows, urljoin, unquote);
      assert idx == idx0 + (if ProcessRow(page, rows[n], urljoin, unquote).Accepted? then [n] else []);
      forall k, l | 0 <= k < l < |idx|
        ensures idx[k] < idx[l]
      {
        if l < |idx0| {
          assert idx[k] == idx0[k] && idx[l] == idx0[l];
        } else {
          assert idx[k] == idx0[k] < n == idx[l];
        }
      }
    }
  }

  /** Every accepted row has its position among the accepted positions. */
  lemma {:induction false} AcceptedIndicesComplete(page: string, rows: seq<Row>, urljoin: UrlJoin, unquote: Unquote)
    ensures forall i :: 0 <= i < |rows| && ProcessRow(page, rows[i], urljoin, unquote).Accepted? ==>
              i in AcceptedIndices(page, rows, urljoin, unquote)
  {
    if rows != [] {
      var n := |rows| - 1;
      var init := rows[..n];
      AcceptedIndicesComplete(page, init, urljoin, unquote);
      var idx0 := AcceptedIndices(page, init, urljoin, unquote);
      var idx := AcceptedIndices(page, rows, urljoin, unquote);
      assert idx == idx0 + (if ProcessRow(page, rows[n], urljoin, unquote).Accepted? then [n] else []);
      forall i | 0 <= i < |rows| && ProcessRow(page, rows[i], urljoin, unquote).Accepted?
        ensures i in idx
      {
        if i < n {
          assert rows[i] == init[i];
          assert i in idx0;
          assert idx0 <= idx;
        } else {
          assert idx == idx0 + [n];
          assert idx[|idx0|] == n;
        }
      }
    }
  }

  /**
   * An independent account of `total_size`: walking the rows from the first,
   * every accepted row adds the size of the entry it yields (by `RowRule`,
   * the parsed size of its last cell) and every other row adds nothing.
   */
  function RowsTotal(page: string, rows: seq<Row>, urljoin: UrlJoin, unquote: Unquote): real {
    if rows == [] then 0.0
    else
      var res := ProcessRow(page, rows[0], urljoin, unquote);
      (if res.Accepted? then res.entry.Size() else 0.0) + RowsTotal(page, rows[1..], urljoin, unquote)
  }

  lemma {:induction false} TotalSizeAppend(a: seq<Entry>, b: seq<Entry>)
    ensures TotalSize(a + b) == TotalSize(a) + TotalSize(b)
  {
    if b == [] {
      assert a + b == a;
    } else {
      assert (a + b)[..|a + b| - 1] == a + b[..|b| - 1];
      TotalSizeAppend(a, b[..|b| - 1]);
    }
  }

  /** One row's share of the total: its last cell's size if it is accepted, nothing otherwise. */
  lemma RowShare(page: string, row: Row, urljoin: UrlJoin, unquote: Unquote)
    ensures var res := ProcessRow(page, row, urljoin, unquote);
      TotalSize(Contribution(res)) == if res.Accepted? then res.entry.Size() else 0.0
  {
    var res := ProcessRow(page, row, urljoin, unquote);
    if res.Accepted? {
      var one := [res.entry];
      assert one[..0] == [];
    }
  }

  lemma EntriesCons(page: string, rows: seq<Row>, urljoin: UrlJoin, unquote: Unquote)
    requires rows != []
    ensures Entries(page, rows, urljoin, unquote)
            == Contribution(ProcessRow(page, rows[0], urljoin, unquote)) + Entries(page, rows[1..], urljoin, unquote)
  {
    assert rows == [rows[0]] + rows[1..];
    EntriesAppend(page, [rows[0]], rows[1..], urljoin, unquote);
    EntriesSingle(page, rows[0], urljoin, unquote);
  }

  /** The total the loop reports is the sum of the sizes of the accepted rows' last cells. */
  lemma {:induction false} TotalIsSumOverAcceptedRows(page: string, rows: seq<Row>, urljoin: UrlJoin, unquote: Unquote)
    ensures TotalSize(Entries(page, rows, urljoin, unquote)) == RowsTotal(page, rows, urljoin, unquote)
  {
    if rows != [] {
      TotalIsSumOverAcceptedRows(page, rows[1..], urljoin, unquote);
      EntriesCons(page, rows, urljoin, unquote);
      var res := ProcessRow(page, rows[0], urljoin, unquote);
      TotalSizeAppend(Contribution(res), Entries(page, rows[1..], urljoin, unquote));
      RowShare(page, rows[0], urljoin, unquote);
    }
  }

  /**
   * Only the anchor's `href` feeds the name: for the same row, any two pages
   * that both accept it give it the same name and the same size.
   */
  lemma NameIgnoresPage(page1: string, page2: string, row: Row, urljoin: UrlJoin, unquote: Unquote)
    requires ProcessRow(page1, row, urljoin, unquote).Accepted?
    requires ProcessRow(page2, row, urljoin, unquote).Accepted?
    ensures ProcessRow(page1, row, urljoin, unquote).entry.name == ProcessRow(page2, row, urljoin, unquote).entry.name
    ensures ProcessRow(page1, row, urljoin, unquote).entry.sizeText == ProcessRow(page2, row, urljoin, unquote).entry.sizeText
  {
    RowRule(page1, row, urljoin, unquote);
    RowRule(page2, row, urljoin, unquote);
  }
}
