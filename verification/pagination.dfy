/** The "infinite scroll" state: how many rows of the sorted table are shown.
    The cursor lives in the session, starts at one page, grows by one page
    per "Load More" click and is never reset, not even when the filters or
    the sort change. */
module Pagination {
  import opened Catalogue
  import opened Filters
  import opened Sorting

  /** Rows added by one "Load More" click, and the initial cursor. */
  const PageSize: nat := 100

  function Min(a: int, b: int): int { if a <= b then a else b }

  /** The session's `end_row`. */
  class Pager {
    var endRow: int

    /** The cursor is a positive whole number of pages. */
    ghost predicate Valid()
      reads this
    {
      endRow >= PageSize && endRow % PageSize == 0
    }

    /** A new session starts with one page. */
    constructor ()
      ensures Valid() && endRow == PageSize
    {
      endRow := PageSize;
    }

    /** `rows.iloc[:end_row]`: the first `end_row` rows, or all of them. */
    function Visible(rows: seq<Book>): (v: seq<Book>)
      reads this
      requires Valid()
      ensures |v| == Min(endRow, |rows|)
      ensures forall k :: 0 <= k < |v| ==> v[k] == rows[k]
    {
      if endRow <= |rows| then rows[..endRow] else rows
    }

    /** "Load More" is offered exactly while rows remain hidden. */
    predicate HasMore(rows: seq<Book>)
      requires Valid()
      reads this
      ensures HasMore(rows) <==> |Visible(rows)| < |rows|
    {
      endRow < |rows|
    }

    /** One click of "Load More". */
    method LoadMore()
      requires Valid()
      modifies this
      ensures Valid()
      ensures endRow == old(endRow) + PageSize
    {
      endRow := endRow + PageSize;
    }

    /** One run of the page: filter and sort the table, show the visible
        rows, offer "Load More" while rows remain hidden and, when the user
        clicks it, grow the cursor. Nothing here depends on the criteria
        having changed since the last run: the cursor is kept as it is. */
    method Run(rows: seq<Book>, c: Criteria, col: SortColumn, order: SortOrder, click: bool)
      returns (shown: seq<Book>, more: bool)
      requires Valid()
      modifies this
      ensures Valid()
      ensures var listed := Pipeline(rows, c, col, order);
        |shown| == Min(old(endRow), |listed|) &&
        (forall k :: 0 <= k < |shown| ==> shown[k] == listed[k]) &&
        more == (old(endRow) < |listed|)
      ensures endRow == if more && click then old(endRow) + PageSize else old(endRow)
    {
      var listed := Pipeline(rows, c, col, order);
      shown := Visible(listed);
      more := HasMore(listed);
      if more && click {
        LoadMore();
      }
    }
  }

  /** Every shown row passes the filters, and once every row fits under the
      cursor the page shows the whole result and stops offering more. */
  lemma ShownRowsPass(p: Pager, rows: seq<Book>, c: Criteria, col: SortColumn, order: SortOrder)
    requires p.Valid()
    ensures forall b :: b in p.Visible(Pipeline(rows, c, col, order)) ==> b in rows && Passes(c, b)
    ensures !p.HasMore(Pipeline(rows, c, col, order)) ==>
      p.Visible(Pipeline(rows, c, col, order)) == Pipeline(rows, c, col, order)
  {
    var listed := Pipeline(rows, c, col, order);
    var v := p.Visible(listed);
    forall b | b in v ensures b in rows && Passes(c, b) {
      var k :| 0 <= k < |v| && v[k] == b;
      assert b == listed[k];
    }
  }
}
