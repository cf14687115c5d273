/**
 The paginated collector `codigo/src/consulta_repositorios.py`: a cursor
 loop over GraphQL search pages that keeps the non-null repository nodes of
 every successful page, stops at 1000 rows, after a page without a next
 page, or at the first failed request, and a report step that adds the
 derived age, recency and closed-issue-ratio columns.

 The upstream is a finite sequence of responses: the i-th request receives
 the i-th element. The cursor each request carried is recorded, so that the
 cursor discipline can be stated without any I/O.
 */
module Consulta {
  import opened Common

  /** Rows wanted before the loop stops asking for pages. */
  const Target: nat := 1000

  /** One `Repository` search node; instants are whole seconds. */
  datatype Node = Node(
    nameWithOwner: string,
    stars: nat,
    createdAt: int,
    pushedAt: int,
    primaryLanguage: Option<string>,
    releases: nat,
    mergedPullRequests: nat,
    totalIssues: nat,
    closedIssues: nat)

  /** One collected row, before the report adds derived columns. */
  datatype Row = Row(
    repository: string,
    stars: nat,
    creationDate: int,
    lastUpdateDate: int,
    primaryLanguage: string,
    totalReleases: nat,
    acceptedPullRequests: nat,
    totalIssues: nat,
    closedIssues: nat)

  /** What one request yields: a page of nodes with its `pageInfo`, or a
      failure (an HTTP error or any other exception). */
  datatype PageResult =
    | Page(nodes: seq<Option<Node>>, endCursor: Option<string>, hasNextPage: bool)
    | RequestError

  /** Why the loop ended. `UpstreamSilent` means the finite sequence of
      responses ran out while the loop still wanted another page. */
  datatype StopReason = TargetReached | LastPage | RequestFailed | UpstreamSilent

  /** The rows gathered, the page counter, the cursor sent with each
      request (in request order) and the reason the loop ended. */
  datatype Collection = Collection(
    rows: seq<Row>,
    pagesRequested: nat,
    cursorsSent: seq<Option<string>>,
    stop: StopReason)

  /* ---------------------------------------------------------------- */
  /* Rows                                                              */
  /* ---------------------------------------------------------------- */

  /** The dictionary appended for one non-null node. */
  function ToRow(n: Node): (r: Row)
    ensures r.repository == n.nameWithOwner && r.stars == n.stars
    ensures r.creationDate == n.createdAt && r.lastUpdateDate == n.pushedAt
    ensures n.primaryLanguage.Some? ==> r.primaryLanguage == n.primaryLanguage.value
    ensures n.primaryLanguage.None? ==> r.primaryLanguage == NotAvailable
    ensures r.totalReleases == n.releases && r.acceptedPullRequests == n.mergedPullRequests
    ensures r.totalIssues == n.totalIssues && r.closedIssues == n.closedIssues
  {
    Row(n.nameWithOwner, n.stars, n.createdAt, n.pushedAt,
        LanguageOrSentinel(n.primaryLanguage),
        n.releases, n.mergedPullRequests, n.totalIssues, n.closedIssues)
  }

  /** Rows contributed by one response: one per non-null node of a page,
      none for a failed request. */
  function PageRows(p: PageResult): (rs: seq<Row>)
    ensures p.RequestError? ==> rs == []
    ensures p.Page? ==> |rs| == |Present(p.nodes)| <= |p.nodes|
    ensures p.Page? ==> forall j :: 0 <= j < |rs| ==> rs[j] == ToRow(Present(p.nodes)[j])
  {
    match p
    case Page(nodes, _, _) => MapPresent(nodes, ToRow)
    case RequestError => []
  }

  /** `f` applied to the first `n` elements of `xs`, the results
      concatenated in order. */
  function Concat<T, U>(xs: seq<T>, n: nat, f: T -> seq<U>): seq<U>
    requires n <= |xs|
    decreases n
  {
    if n == 0 then [] else Concat(xs, n - 1, f) + f(xs[n - 1])
  }

  /** Concatenation only ever appends: the result for `j` elements is a
      prefix of the result for `k >= j`. */
  lemma {:induction false} ConcatPrefix<T, U>(xs: seq<T>, f: T -> seq<U>, j: nat, k: nat)
    requires j <= k <= |xs|
    ensures Concat(xs, j, f) <= Concat(xs, k, f)
    decreases k - j
  {
    if j < k {
      ConcatPrefix(xs, f, j, k - 1);
      var a, b, r := Concat(xs, j, f), Concat(xs, k - 1, f), f(xs[k - 1]);
      assert a <= b;
      assert a <= b + r;
    }
  }

  /** The rows of the first `n` responses, concatenated in page order. */
  function RowsOf(pages: seq<PageResult>, n: nat): seq<Row>
    requires n <= |pages|
  {
    Concat(pages, n, PageRows)
  }

  /** Rows are only ever appended: the rows of the first `j` responses are
      a prefix of the rows of the first `k >= j`. */
  lemma RowsOfPrefix(pages: seq<PageResult>, j: nat, k: nat)
    requires j <= k <= |pages|
    ensures RowsOf(pages, j) <= RowsOf(pages, k)
  {
    ConcatPrefix(pages, PageRows, j, k);
  }

  /** The rows of the first `n` responses depend on those responses only. */
  lemma {:induction false} RowsOfAgree(p: seq<PageResult>, q: seq<PageResult>, n: nat)
    requires n <= |p| && n <= |q|
    requires forall i :: 0 <= i < n ==> p[i] == q[i]
    ensures RowsOf(p, n) == RowsOf(q, n)
    decreases n
  {
    if n > 0 {
      RowsOfAgree(p, q, n - 1);
    }
  }

  /* ---------------------------------------------------------------- */
  /* The pagination loop as a state machine                            */
  /* ---------------------------------------------------------------- */

  /** The loop from the point where `k` requests have been issued, `rows`
      collected, `cursor` is due to be sent and `sent` were sent. */
  function CollectFrom(upstream: seq<PageResult>, k: nat, rows: seq<Row>,
                       cursor: Option<string>, sent: seq<Option<string>>): (c: Collection)
    requires k <= |upstream|
    ensures k <= c.pagesRequested <= |upstream|
    decreases |upstream| - k
  {
    if |rows| >= Target then Collection(rows, k, sent, TargetReached)
    else if k == |upstream| then Collection(rows, k, sent, UpstreamSilent)
    else match upstream[k]
      case RequestError => Collection(rows, k + 1, sent + [cursor], RequestFailed)
      case Page(_, endCursor, hasNextPage) =>
        var rows' := rows + PageRows(upstream[k]);
        if !hasNextPage then Collection(rows', k + 1, sent + [cursor], LastPage)
        else CollectFrom(upstream, k + 1, rows', endCursor, sent + [cursor])
  }

  /** Request `j` carried the cursor the protocol prescribes: none for the
      first request, the previous page's `endCursor` afterwards, and every
      request but the first follows a successful page that had a next page. */
  ghost predicate CursorsFollow(upstream: seq<PageResult>, sent: seq<Option<string>>)
  {
    && |sent| <= |upstream|
    && (|sent| > 0 ==> sent[0] == None)
    && (forall j :: 0 <= j < |sent| - 1 ==>
          upstream[j].Page? && upstream[j].hasNextPage && sent[j + 1] == upstream[j].endCursor)
  }

  /** The loop state after `k` requests, as the Python loop maintains it. */
  ghost predicate Reached(upstream: seq<PageResult>, k: nat, rows: seq<Row>,
                          cursor: Option<string>, sent: seq<Option<string>>)
  {
    && k <= |upstream|
    && |sent| == k
    && rows == RowsOf(upstream, k)
    && (k == 0 ==> cursor == None)
    && (k > 0 ==> upstream[k - 1].Page? && upstream[k - 1].hasNextPage
                  && cursor == upstream[k - 1].endCursor)
    && CursorsFollow(upstream, sent)
    && (k > 0 ==> |RowsOf(upstream, k - 1)| < Target)
  }

  /** What a finished run guarantees. */
  ghost predicate Finished(upstream: seq<PageResult>, c: Collection)
  {
    var n := c.pagesRequested;
    && n == |c.cursorsSent| <= |upstream|
    && c.rows == RowsOf(upstream, n)
    && CursorsFollow(upstream, c.cursorsSent)
    && (n > 0 ==> |RowsOf(upstream, n - 1)| < Target)
    && (c.stop.TargetReached? ==> |c.rows| >= Target)
    && (c.stop.LastPage? ==> n > 0 && upstream[n - 1].Page? && !upstream[n - 1].hasNextPage)
    && (c.stop.RequestFailed? ==>
          n > 0 && upstream[n - 1].RequestError? && c.rows == RowsOf(upstream, n - 1))
    && (c.stop.UpstreamSilent? ==> n == |upstream| && |c.rows| < Target)
    && ((c.stop.TargetReached? || c.stop.UpstreamSilent?) && n > 0 ==>
          upstream[n - 1].Page? && upstream[n - 1].hasNextPage)
  }

  /** Sending `cursor` as request `k` keeps the cursor discipline. */
  lemma CursorsFollowStep(upstream: seq<PageResult>, sent: seq<Option<string>>,
                          cursor: Option<string>)
    requires |sent| < |upstream|
    requires CursorsFollow(upstream, sent)
    requires |sent| == 0 ==> cursor == None
    requires |sent| > 0 ==> upstream[|sent| - 1].Page? && upstream[|sent| - 1].hasNextPage
                            && cursor == upstream[|sent| - 1].endCursor
    ensures CursorsFollow(upstream, sent + [cursor])
  {
  }

  /** A request below `Target` on a page that announces a next page moves
      the Python loop to its next state. */
  lemma ReachedStep(upstream: seq<PageResult>, k: nat, rows: seq<Row>,
                    cursor: Option<string>, sent: seq<Option<string>>)
    requires Reached(upstream, k, rows, cursor, sent)
    requires |rows| < Target && k < |upstream|
    requires upstream[k].Page? && upstream[k].hasNextPage
    ensures Reached(upstream, k + 1, rows + PageRows(upstream[k]), upstream[k].endCursor,
                    sent + [cursor])
  {
    CursorsFollowStep(upstream, sent, cursor);
  }

  /** The exits that issue no further request: `Target` reached, or no
      response left. */
  lemma FinishedWithoutRequest(upstream: seq<PageResult>, k: nat, rows: seq<Row>,
                               cursor: Option<string>, sent: seq<Option<string>>)
    requires Reached(upstream, k, rows, cursor, sent)
    requires |rows| >= Target || k == |upstream|
    ensures Finished(upstream, CollectFrom(upstream, k, rows, cursor, sent))
  {
  }

  /** The exits right after request `k`: it failed, or its page had no
      next page. */
  lemma FinishedAfterRequest(upstream: seq<PageResult>, k: nat, rows: seq<Row>,
                             cursor: Option<string>, sent: seq<Option<string>>)
    requires Reached(upstream, k, rows, cursor, sent)
    requires |rows| < Target && k < |upstream|
    requires !(upstream[k].Page? && upstream[k].hasNextPage)
    ensures Finished(upstream, CollectFrom(upstream, k, rows, cursor, sent))
  {
    CursorsFollowStep(upstream, sent, cursor);
    var c := CollectFrom(upstream, k, rows, cursor, sent);
    var rows' := rows + PageRows(upstream[k]);
    assert RowsOf(upstream, k + 1) == rows';
    if upstream[k].RequestError? {
      assert rows' == rows;
      assert c == Collection(rows, k + 1, sent + [cursor], RequestFailed);
    } else {
      assert c == Collection(rows', k + 1, sent + [cursor], LastPage);
    }
  }

  /** Every step of the loop preserves `Reached`, so the run it finishes
      satisfies `Finished`. */
  lemma {:induction false} CollectFromFinishes(upstream: seq<PageResult>, k: nat, rows: seq<Row>,
                                               cursor: Option<string>, sent: seq<Option<string>>)
    requires Reached(upstream, k, rows, cursor, sent)
    ensures Finished(upstream, CollectFrom(upstream, k, rows, cursor, sent))
    decreases |upstream| - k
  {
    if |rows| >= Target || k == |upstream| {
      FinishedWithoutRequest(upstream, k, rows, cursor, sent);
    } else if upstream[k].Page? && upstream[k].hasNextPage {
      ReachedStep(upstream, k, rows, cursor, sent);
      CollectFromFinishes(upstream, k + 1, rows + PageRows(upstream[k]), upstream[k].endCursor,
                          sent + [cursor]);
    } else {
      FinishedAfterRequest(upstream, k, rows, cursor, sent);
    }
  }

  /** The whole loop, started with `cursor = None`, no rows and page
      counter 0. The page counter counts the requests, each of which sent
      one cursor; the rows are the non-null nodes of the requested pages in
      page order; the first request carries no cursor and each later one
      the `endCursor` of the page before it, which was a successful page
      announcing a next page; and the stop reason matches the last response
      (a failure keeps exactly the rows of the pages before it). */
  function Collect(upstream: seq<PageResult>): (c: Collection)
    ensures c.pagesRequested == |c.cursorsSent| <= |upstream|
    ensures c.rows == RowsOf(upstream, c.pagesRequested)
    ensures c.pagesRequested > 0 ==> c.cursorsSent[0] == None
    ensures forall j :: 0 <= j < c.pagesRequested - 1 ==>
      upstream[j].Page? && upstream[j].hasNextPage && c.cursorsSent[j + 1] == upstream[j].endCursor
    ensures c.pagesRequested > 0 ==> |RowsOf(upstream, c.pagesRequested - 1)| < Target
    ensures c.stop.TargetReached? ==> |c.rows| >= Target
    ensures c.stop.LastPage? ==>
      c.pagesRequested > 0 && upstream[c.pagesRequested - 1].Page?
      && !upstream[c.pagesRequested - 1].hasNextPage
    ensures c.stop.RequestFailed? ==>
      c.pagesRequested > 0 && upstream[c.pagesRequested - 1].RequestError?
      && c.rows == RowsOf(upstream, c.pagesRequested - 1)
    ensures c.stop.UpstreamSilent? ==> c.pagesRequested == |upstream| && |c.rows| < Target
    ensures (c.stop.TargetReached? || c.stop.UpstreamSilent?) && c.pagesRequested > 0 ==>
      upstream[c.pagesRequested - 1].Page? && upstream[c.pagesRequested - 1].hasNextPage
  {
    CollectFromFinishes(upstream, 0, [], None, []);
    CollectFrom(upstream, 0, [], None, [])
  }

  /** No request is issued once `Target` rows are in: before each request
      of the run fewer than `Target` rows had been collected. */
  lemma CollectStopsAtTarget(upstream: seq<PageResult>, j: nat)
    requires j < Collect(upstream).pagesRequested
    ensures |RowsOf(upstream, j)| < Target
  {
    var n := Collect(upstream).pagesRequested;
    RowsOfPrefix(upstream, j, n - 1);
  }

  /** The run depends only on the responses it asked for: any upstream
      that agrees on the requested pages yields the same collection, unless
      the run stopped only because the responses ran out. In particular a
      failure keeps exactly what the pages before it gave. */
  lemma {:induction false} CollectFromIgnoresLaterPages(
    up1: seq<PageResult>, up2: seq<PageResult>, k: nat, rows: seq<Row>,
    cursor: Option<string>, sent: seq<Option<string>>)
    requires k <= |up1| && k <= |up2|
    requires !CollectFrom(up1, k, rows, cursor, sent).stop.UpstreamSilent?
    requires CollectFrom(up1, k, rows, cursor, sent).pagesRequested <= |up2|
    requires forall j :: k <= j < CollectFrom(up1, k, rows, cursor, sent).pagesRequested ==>
      up2[j] == up1[j]
    ensures CollectFrom(up2, k, rows, cursor, sent) == CollectFrom(up1, k, rows, cursor, sent)
    decreases |up1| - k
  {
    if |rows| >= Target {
      return;
    }
    assert up2[k] == up1[k];
    match up1[k]
    case RequestError =>
    case Page(_, endCursor, hasNextPage) =>
      if hasNextPage {
        CollectFromIgnoresLaterPages(up1, up2, k + 1, rows + PageRows(up1[k]),
                                     endCursor, sent + [cursor]);
      }
  }

  /** The same fact for whole runs. */
  lemma CollectIgnoresLaterPages(upstream: seq<PageResult>, other: seq<PageResult>)
    requires !Collect(upstream).stop.UpstreamSilent?
    requires Collect(upstream).pagesRequested <= |other|
    requires forall j :: 0 <= j < Collect(upstream).pagesRequested ==> other[j] == upstream[j]
    ensures Collect(other) == Collect(upstream)
  {
    CollectFromIgnoresLaterPages(upstream, other, 0, [], None, []);
  }

  /** A failed first request ends the run with no rows, so no report is
      produced. */
  lemma FirstRequestFails(upstream: seq<PageResult>, ageNow: int, updateNow: int)
    requires |upstream| > 0 && upstream[0].RequestError?
    ensures Collect(upstream).stop == RequestFailed
    ensures Collect(upstream).rows == []
    ensures Collect(upstream).pagesRequested == 1
    ensures Report(Collect(upstream).rows, ageNow, updateNow) == None
  {
  }

  /** Concrete runs: a page with one repository, a page holding only a
      null node, then a last page; and the same start cut short by a failed
      second request. */
  lemma ExampleRuns(n1: Node, n2: Node)
    ensures var up := [Page([Some(n1)], Some("c1"), true),
                       Page([None], Some("c2"), true),
                       Page([Some(n2)], Some("c3"), false)];
            Collect(up) == Collection([ToRow(n1), ToRow(n2)], 3, [None, Some("c1"), Some("c2")], LastPage)
    ensures var up := [Page([Some(n1)], Some("c1"), true), RequestError,
                       Page([Some(n2)], None, false)];
            Collect(up) == Collection([ToRow(n1)], 2, [None, Some("c1")], RequestFailed)
  {
    var up := [Page([Some(n1)], Some("c1"), true),
               Page([None], Some("c2"), true),
               Page([Some(n2)], Some("c3"), false)];
    assert PageRows(up[0]) == [ToRow(n1)];
    assert PageRows(up[1]) == [];
    assert PageRows(up[2]) == [ToRow(n2)];
    assert Collect(up) == CollectFrom(up, 0, [], None, []);
    assert [] + [ToRow(n1)] == [ToRow(n1)];
    var noCursor: seq<Option<string>> := [];
    assert noCursor + [None] == [None];
    assert CollectFrom(up, 0, [], None, noCursor) == CollectFrom(up, 1, [ToRow(n1)], Some("c1"), [None]);
    assert [ToRow(n1)] + [] == [ToRow(n1)];
    assert CollectFrom(up, 1, [ToRow(n1)], Some("c1"), [None])
        == CollectFrom(up, 2, [ToRow(n1)], Some("c2"), [None, Some("c1")]);
    assert CollectFrom(up, 2, [ToRow(n1)], Some("c2"), [None, Some("c1")])
        == Collection([ToRow(n1), ToRow(n2)], 3, [None, Some("c1"), Some("c2")], LastPage);

    var up' := [Page([Some(n1)], Some("c1"), true), RequestError, Page([Some(n2)], None, false)];
    assert PageRows(up'[0]) == [ToRow(n1)];
    assert Collect(up') == CollectFrom(up', 0, [], None, []);
    assert CollectFrom(up', 0, [], None, []) == CollectFrom(up', 1, [ToRow(n1)], Some("c1"), [None]);
    assert CollectFrom(up', 1, [ToRow(n1)], Some("c1"), [None])
        == Collection([ToRow(n1)], 2, [None, Some("c1")], RequestFailed);
  }

  /** With pages of at most `size` nodes (the query asks for `first: 1`),
      the loop overshoots `Target` by less than one page. */
  lemma CollectOvershoot(upstream: seq<PageResult>, size: nat)
    requires forall i :: 0 <= i < |upstream| && upstream[i].Page? ==> |upstream[i].nodes| <= size
    ensures |Collect(upstream).rows| < Target + size
  {
    var c := Collect(upstream);
    var n := c.pagesRequested;
    if n > 0 {
      CollectStopsAtTarget(upstream, n - 1);
    }
  }

  /** The inner `for repo in repos` loop: skip null nodes, append a row
      for every other one. */
  method AppendRows(rows: seq<Row>, nodes: seq<Option<Node>>) returns (rows': seq<Row>)
    ensures rows' == rows + MapPresent(nodes, ToRow)
  {
    rows' := rows;
    var i := 0;
    while i < |nodes|
      invariant i <= |nodes|
      invariant rows' == rows + MapPresent(nodes[..i], ToRow)
    {
      assert nodes[..i + 1][..i] == nodes[..i];
      if nodes[i].Some? {
        rows' := rows' + [ToRow(nodes[i].value)];
      }
      i := i + 1;
    }
    assert nodes[..i] == nodes;
  }

  /** The cursor loop as the script writes it: a `while` over the row count
      with `break`s, the page counter bumped before every request. */
  method CollectPages(upstream: seq<PageResult>) returns (c: Collection)
    ensures c == Collect(upstream)
  {
    var rows: seq<Row> := [];
    var cursor: Option<string> := None;
    var numPag: nat := 0;
    var sent: seq<Option<string>> := [];
    while |rows| < Target
      invariant numPag <= |upstream|
      invariant CollectFrom(upstream, numPag, rows, cursor, sent) == Collect(upstream)
      decreases |upstream| - numPag
    {
      if numPag == |upstream| {
        return Collection(rows, numPag, sent, UpstreamSilent);
      }
      var response := upstream[numPag];
      numPag := numPag + 1;
      sent := sent + [cursor];
      if response.RequestError? {
        return Collection(rows, numPag, sent, RequestFailed);
      }
      rows := AppendRows(rows, response.nodes);
      cursor := response.endCursor;
      if !response.hasNextPage {
        return Collection(rows, numPag, sent, LastPage);
      }
    }
    c := Collection(rows, numPag, sent, TargetReached);
  }

  /* ---------------------------------------------------------------- */
  /* Report columns                                                    */
  /* ---------------------------------------------------------------- */

  /** A collected row with the three columns the report adds. */
  datatype ReportRow = ReportRow(
    row: Row,
    repositoryAgeDays: int,
    daysSinceLastUpdate: int,
    closedIssuesRatio: real)

  /** The derived columns of one row. The age column is computed at
      instant `ageNow` and the recency column at `updateNow`: the report
      reads the clock once per column. */
  function Derive(row: Row, ageNow: int, updateNow: int): (d: ReportRow)
    ensures d.row == row
    ensures d.repositoryAgeDays * SecondsPerDay <= ageNow - row.creationDate
    ensures ageNow - row.creationDate < (d.repositoryAgeDays + 1) * SecondsPerDay
    ensures d.daysSinceLastUpdate * SecondsPerDay <= updateNow - row.lastUpdateDate
    ensures updateNow - row.lastUpdateDate < (d.daysSinceLastUpdate + 1) * SecondsPerDay
    ensures row.totalIssues == 0 ==> d.closedIssuesRatio == 0.0
    ensures row.totalIssues > 0 ==>
      d.closedIssuesRatio * (row.totalIssues as real) == row.closedIssues as real
    ensures row.closedIssues <= row.totalIssues ==> 0.0 <= d.closedIssuesRatio <= 1.0
  {
    RatioInUnitInterval(row.closedIssues, row.totalIssues);
    ReportRow(
      row,
      ElapsedDays(ageNow, row.creationDate),
      ElapsedDays(updateNow, row.lastUpdateDate),
      GuardedRatio(row.closedIssues, row.totalIssues))
  }

  /** The report: nothing for an empty row list, otherwise one report row
      per collected row, in collection order. Each derived column is one
      vectorised expression, so all rows share its clock reading. */
  function Report(rows: seq<Row>, ageNow: int, updateNow: int): (r: Option<seq<ReportRow>>)
    ensures r.None? <==> |rows| == 0
    ensures r.Some? ==> |r.value| == |rows|
    ensures r.Some? ==> forall j :: 0 <= j < |rows| ==> r.value[j] == Derive(rows[j], ageNow, updateNow)
  {
    if |rows| == 0 then None
    else Some(seq(|rows|, j requires 0 <= j < |rows| => Derive(rows[j], ageNow, updateNow)))
  }
}
