/**
 The console front end (`Interactive`): the query prompt, the paging loop
 over a query's results and the window of results each page prints.

 The console is a sequence of input lines and the retrieval model is a
 function from a query line to its number of results; what the model keeps
 is the order of prompts, the page the cursor is on and which result
 positions each page prints. Reading past the last line stops the run.
 */
module Interactive {
  import opened Seqs

  /** Results per page. */
  const PageSize: nat := 10

  // ---------------------------------------------------------------------------
  // The printed window (Interactive.java:91-107)

  /** The result positions `printResults(from, count)` visits, in order. */
  function Window(from: nat, count: int, size: nat): (w: seq<nat>)
    ensures forall k | 0 <= k < |w| :: w[k] == from + k
    ensures forall i: nat :: i in w <==> from <= i < from + count && i < size
  {
    var stop := if from + count < size then from + count else size;
    var n := if stop < from then 0 else stop - from;
    var w := seq(n, k requires 0 <= k < n => from + k);
    forall i: nat | from <= i < from + count && i < size
      ensures i in w
    {
      assert w[i - from] == i;
    }
    w
  }

  /** The loop of `printResults`: `i` runs from `from` while it is below both
      `from + count` and the number of results. */
  method PrintedPositions(from: nat, count: int, size: nat) returns (visited: seq<nat>)
    ensures visited == Window(from, count, size)
  {
    visited := [];
    var i := from;
    while i < from + count && i < size
      invariant from <= i
      invariant i <= from + count || i == from
      invariant i <= size || i == from
      invariant visited == Window(from, i - from, size)
      decreases size - i
    {
      visited := visited + [i];
      i := i + 1;
    }
  }

  /** The window a page prints. */
  function PageWindow(page: nat, size: nat): seq<nat>
  {
    Window(page * PageSize, PageSize, size)
  }

  /** The last page index the paging loop can reach: `size / 10`. */
  function LastPage(size: nat): nat
  {
    size / PageSize
  }

  /** Every result position is printed on exactly one reachable page: its
      tenth. */
  lemma PagesPartitionResults(size: nat, i: nat, page: nat)
    requires i < size
    ensures i / PageSize <= LastPage(size)
    ensures i in PageWindow(page, size) <==> page == i / PageSize
  {
    assert i in PageWindow(i / PageSize, size);
    if page < i / PageSize {
      assert (page + 1) * PageSize <= (i / PageSize) * PageSize;
    }
    if page > i / PageSize {
      assert page * PageSize >= (i / PageSize + 1) * PageSize;
    }
  }

  /** A result count that is a multiple of ten leaves a last page that
      prints nothing. */
  lemma LastPageEmptyOnMultiple(size: nat)
    requires size % PageSize == 0
    ensures PageWindow(LastPage(size), size) == []
  {
    assert LastPage(size) * PageSize == size;
  }

  /** Otherwise the last page holds the remaining `size % 10` results. */
  lemma LastPageHoldsRemainder(size: nat)
    requires size % PageSize != 0
    ensures |PageWindow(LastPage(size), size)| == size % PageSize
  {
    assert LastPage(size) * PageSize + size % PageSize == size;
  }

  // ---------------------------------------------------------------------------
  // Page navigation (Interactive.java:51-73)

  /** The answer at the paging prompt: "p" goes back a page unless on the
      first, "n" goes forward unless on the last, "f" and an empty line end
      paging (None) and anything else stays on the page. */
  function Navigate(answer: string, page: nat, pages: nat): (next: Option<nat>)
    ensures next.None? <==> answer == "f" || answer == ""
    ensures answer == "p" ==> next == Some(if page > 0 then page - 1 else page)
    ensures answer == "n" ==> next == Some(if page < pages then page + 1 else page)
    ensures answer !in {"p", "n", "f", ""} ==> next == Some(page)
    ensures page <= pages && next.Some? ==> next.value <= pages
  {
    if answer == "p" then Some(if page > 0 then page - 1 else page)
    else if answer == "n" then Some(if page < pages then page + 1 else page)
    else if answer == "f" || answer == "" then None
    else Some(page)
  }

  /** "p" undoes "n" away from the last page. */
  lemma BackUndoesForward(page: nat, pages: nat)
    requires page < pages
    ensures Navigate("n", page, pages).Some?
    ensures Navigate("p", Navigate("n", page, pages).value, pages) == Some(page)
  {
  }

  /** "n" undoes "p" away from the first page. */
  lemma ForwardUndoesBack(page: nat, pages: nat)
    requires 0 < page <= pages
    ensures Navigate("p", page, pages).Some?
    ensures Navigate("n", Navigate("p", page, pages).value, pages) == Some(page)
  {
  }

  /** What the console shows: one page of a query's results, or the message
      that a query found nothing. */
  datatype Event = ShowPage(query: string, page: nat, positions: seq<nat>) | NoResults(query: string)

  /** The paging loop for one query: show `page`, read an answer, and go on
      until paging ends; yields the events and the lines not read. */
  function Paging(query: string, size: nat, page: nat, lines: seq<string>): (r: (seq<Event>, seq<string>))
    ensures |r.0| > 0 && r.0[0] == ShowPage(query, page, PageWindow(page, size))
    ensures |r.1| <= |lines|
    decreases |lines|
  {
    var shown := [ShowPage(query, page, PageWindow(page, size))];
    if |lines| == 0 then (shown, [])
    else match Navigate(lines[0], page, LastPage(size))
      case None => (shown, lines[1..])
      case Some(next) =>
        var (es, left) := Paging(query, size, next, lines[1..]);
        (shown + es, left)
  }

  /** The cursor stays within the reachable pages: every page shown is one
      of `0 ..= size / 10` and prints that page's window. */
  lemma {:induction false} PagingInRange(query: string, size: nat, page: nat, lines: seq<string>)
    requires page <= LastPage(size)
    ensures forall e | e in Paging(query, size, page, lines).0 ::
      e.ShowPage? && e.query == query && e.page <= LastPage(size)
      && e.positions == PageWindow(e.page, size)
    decreases |lines|
  {
    if |lines| > 0 {
      match Navigate(lines[0], page, LastPage(size))
      case None =>
      case Some(next) =>
        PagingInRange(query, size, next, lines[1..]);
    }
  }

  /** The answers that end paging. */
  predicate EndsPaging(answer: string)
  {
    answer == "f" || answer == ""
  }

  /** Paging reads one answer per page shown and stops right after the
      first "f" or empty line; when the lines run out first, the last page
      shown has no answer and nothing is left. */
  lemma {:induction false} PagingStopsAtFirstEnd(query: string, size: nat, page: nat, lines: seq<string>)
    ensures var r := Paging(query, size, page, lines);
      var n := |r.0|;
      && (forall k | 0 <= k < n - 1 :: k < |lines| && !EndsPaging(lines[k]))
      && (if n <= |lines| then EndsPaging(lines[n - 1]) && r.1 == lines[n..]
          else n == |lines| + 1 && r.1 == [])
    decreases |lines|
  {
    if |lines| > 0 {
      match Navigate(lines[0], page, LastPage(size))
      case None =>
      case Some(next) =>
        PagingStopsAtFirstEnd(query, size, next, lines[1..]);
        var r := Paging(query, size, next, lines[1..]);
        assert Paging(query, size, page, lines).0 == [ShowPage(query, page, PageWindow(page, size))] + r.0;
        var n := |r.0| + 1;
        forall k | 0 <= k < n - 1
          ensures k < |lines| && !EndsPaging(lines[k])
        {
          if k > 0 {
            assert lines[k] == lines[1..][k - 1];
          }
        }
        if n <= |lines| {
          assert lines[n - 1] == lines[1..][n - 2];
          assert lines[1..][n - 1..] == lines[n..];
        }
    }
  }

  // ---------------------------------------------------------------------------
  // The query prompt (Interactive.java:37-81)

  /** One query: page through its results when there are any, otherwise
      report that a non-empty query found nothing; yields the events and
      the lines not read. */
  function Answer(query: string, size: nat, lines: seq<string>): (r: (seq<Event>, seq<string>))
    ensures |r.1| <= |lines|
    ensures size == 0 ==> r.1 == lines
  {
    if size != 0 then Paging(query, size, 0, lines)
    else if query != "" then ([NoResults(query)], lines)
    else ([], lines)
  }

  /** `run`: read a query, answer it, and prompt again until the query line
      is empty. `results` is the number of results the retrieval model
      finds for a query line. */
  function Run(lines: seq<string>, results: string -> nat): seq<Event>
    decreases |lines|
  {
    if |lines| == 0 then []
    else
      var query := lines[0];
      var (es, left) := Answer(query, results(query), lines[1..]);
      if query == "" then es else es + Run(left, results)
  }

  /** "No results" is shown for exactly the non-empty queries that find
      nothing, and every page shown belongs to a query with results, lies
      within its reachable pages and prints that page's window. */
  lemma {:induction false} RunEvents(lines: seq<string>, results: string -> nat)
    ensures forall e | e in Run(lines, results) ::
      && (e.NoResults? ==> e.query != "" && results(e.query) == 0)
      && (e.ShowPage? ==>
            && results(e.query) != 0
            && e.page <= LastPage(results(e.query))
            && e.positions == PageWindow(e.page, results(e.query)))
    decreases |lines|
  {
    if |lines| > 0 {
      var query := lines[0];
      var (es, left) := Answer(query, results(query), lines[1..]);
      if results(query) != 0 {
        PagingInRange(query, results(query), 0, lines[1..]);
      }
      if query != "" {
        RunEvents(left, results);
      }
    }
  }

  /** The first query line decides the first thing shown: its first page
      when it has results, the "no results" message when it is non-empty
      and has none, and nothing at all (the run ends) when it is empty and
      has none. */
  lemma RunFirstEvent(lines: seq<string>, results: string -> nat)
    requires |lines| > 0
    ensures var query := lines[0];
      && (results(query) != 0 ==>
            |Run(lines, results)| > 0 && Run(lines, results)[0] == ShowPage(query, 0, PageWindow(0, results(query))))
      && (results(query) == 0 && query != "" ==>
            |Run(lines, results)| > 0 && Run(lines, results)[0] == NoResults(query))
      && (results(query) == 0 && query == "" ==> Run(lines, results) == [])
  {
  }
}
