/**
 The single-request script `GetData.py`: one GraphQL search for the most
 starred repositories, early exits on a placeholder token, a failed request,
 a response carrying `errors` or an empty node list, then one flat record per
 non-null repository node.
 */
module GetData {
  import opened Common

  /** The token value the script treats as "not configured". */
  const PlaceholderToken: string := "SEU_TOKEN_AQUI"

  /** One `Repository` node of the search result. `pushedAt` is already an
      instant in whole seconds; `createdAt` stays the raw ISO string because
      only its date part is kept. */
  datatype RepoNode = RepoNode(
    nameWithOwner: string,
    stars: nat,
    primaryLanguage: Option<string>,
    createdAt: string,
    pushedAt: int,
    mergedPullRequests: nat,
    releases: nat,
    openIssues: nat,
    closedIssues: nat)

  /** One row of the exported table. */
  datatype Record = Record(
    repository: string,
    stars: nat,
    primaryLanguage: string,
    creationDate: string,
    daysSinceLastUpdate: int,
    acceptedPullRequests: nat,
    totalReleases: nat,
    closedIssueRatio: real)

  /** The HTTP exchange, as seen after `response.json()`. `search` is
      `None` when `data` or `data.search` is JSON `null`: the chained
      `.get` calls then fail on `None`. A missing key, or a `null` node
      list, reads as the empty node list. */
  datatype Response =
    | RequestError
    | Answered(hasErrors: bool, search: Option<seq<Option<RepoNode>>>)

  /** How `main` ends. `Crashed` is the uncaught `AttributeError` raised
      after the `try` block when `data` or `data.search` is `null`. */
  datatype RunResult =
    | TokenNotConfigured
    | RequestFailed
    | QueryError
    | Crashed
    | NoRepositories
    | Collected(records: seq<Record>)

  /* ---------------------------------------------------------------- */
  /* Per-node derived values                                           */
  /* ---------------------------------------------------------------- */

  /** `s.split('T')[0]`: the longest prefix of `s` without a 'T'. */
  function DatePart(s: string): (r: string)
    ensures r <= s
    ensures 'T' !in r
    ensures |r| < |s| ==> s[|r|] == 'T'
    decreases |s|
  {
    if |s| == 0 || s[0] == 'T' then ""
    else [s[0]] + DatePart(s[1..])
  }

  /** Those three facts leave no choice: any prefix without a 'T' that
      stops at a 'T' or at the end of the string is the date part. */
  lemma DatePartUnique(s: string, p: string)
    requires p <= s
    requires 'T' !in p
    requires |p| < |s| ==> s[|p|] == 'T'
    ensures p == DatePart(s)
  {
  }

  /** On an ISO-8601 timestamp `YYYY-MM-DDThh:mm:ssZ` the date part is the
      first ten characters; a string with no 'T' is kept whole. */
  lemma DatePartOfTimestamp(s: string)
    ensures 'T' !in s ==> DatePart(s) == s
    ensures |s| > 10 && s[10] == 'T' && 'T' !in s[..10] ==> DatePart(s) == s[..10]
  {
  }

  /** The closed-issue ratio over open plus closed issues. */
  function ClosedIssueRatio(open: nat, closed: nat): (r: real)
    ensures open + closed == 0 ==> r == 0.0
    ensures open + closed > 0 ==> r * ((open + closed) as real) == closed as real
    ensures 0.0 <= r <= 1.0
  {
    var total := open + closed;
    RatioInUnitInterval(closed, total);
    GuardedRatio(closed, total)
  }

  /** Sample values: 3 open and 0 closed give 0.0, 2 open and 8 closed
      give 0.8; a repository without issues gives 0.0. */
  lemma ClosedIssueRatioExamples()
    ensures ClosedIssueRatio(3, 0) == 0.0
    ensures ClosedIssueRatio(2, 8) == 0.8
    ensures ClosedIssueRatio(0, 0) == 0.0
  {
  }

  /** The record built for one non-null node at instant `now`. */
  function Assemble(node: RepoNode, now: int): (r: Record)
    ensures r.repository == node.nameWithOwner && r.stars == node.stars
    ensures r.acceptedPullRequests == node.mergedPullRequests
    ensures r.totalReleases == node.releases
    ensures node.primaryLanguage.Some? ==> r.primaryLanguage == node.primaryLanguage.value
    ensures node.primaryLanguage.None? ==> r.primaryLanguage == NotAvailable
    ensures r.creationDate <= node.createdAt && 'T' !in r.creationDate
    ensures |r.creationDate| < |node.createdAt| ==> node.createdAt[|r.creationDate|] == 'T'
    ensures r.daysSinceLastUpdate * SecondsPerDay <= now - node.pushedAt
    ensures now - node.pushedAt < (r.daysSinceLastUpdate + 1) * SecondsPerDay
    ensures r.daysSinceLastUpdate >= 0 <==> node.pushedAt <= now
    ensures node.openIssues + node.closedIssues == 0 ==> r.closedIssueRatio == 0.0
    ensures node.openIssues + node.closedIssues > 0 ==>
      r.closedIssueRatio * ((node.openIssues + node.closedIssues) as real) == node.closedIssues as real
    ensures 0.0 <= r.closedIssueRatio <= 1.0
  {
    Record(
      node.nameWithOwner,
      node.stars,
      LanguageOrSentinel(node.primaryLanguage),
      DatePart(node.createdAt),
      ElapsedDays(now, node.pushedAt),
      node.mergedPullRequests,
      node.releases,
      ClosedIssueRatio(node.openIssues, node.closedIssues))
  }

  /** The processing loop: one record per non-null node, in search order.
      The script reads the clock afresh for every record it builds, so
      `clock(j)` is the instant read while building the `j`-th record. */
  function AssembleAll(nodes: seq<Option<RepoNode>>, clock: nat -> int): (rs: seq<Record>)
    ensures |rs| == |Present(nodes)|
    ensures forall j :: 0 <= j < |rs| ==> rs[j] == Assemble(Present(nodes)[j], clock(j))
  {
    MapPresentStamped(nodes, Assemble, clock)
  }

  /* ---------------------------------------------------------------- */
  /* main                                                              */
  /* ---------------------------------------------------------------- */

  /** The whole script for a configured `token`, the `response` the request
      produces and the `clock` readings taken while the records are built. */
  function Run(token: Option<string>, response: Response, clock: nat -> int): (o: RunResult)
    ensures token == Some(PlaceholderToken) <==> o.TokenNotConfigured?
    ensures o.RequestFailed? <==> token != Some(PlaceholderToken) && response.RequestError?
    ensures o.QueryError? <==>
      token != Some(PlaceholderToken) && response.Answered? && response.hasErrors
    ensures o.Crashed? <==>
      token != Some(PlaceholderToken) && response.Answered? && !response.hasErrors
      && response.search.None?
    ensures o.NoRepositories? <==>
      token != Some(PlaceholderToken) && response.Answered? && !response.hasErrors
      && response.search.Some? && |response.search.value| == 0
    ensures o.Collected? ==>
      response.Answered? && response.search.Some?
      && o.records == AssembleAll(response.search.value, clock)
  {
    if token == Some(PlaceholderToken) then TokenNotConfigured
    else match response
      case RequestError => RequestFailed
      case Answered(hasErrors, search) =>
        if hasErrors then QueryError
        else match search
          case None => Crashed
          case Some(nodes) =>
            if |nodes| == 0 then NoRepositories
            else Collected(AssembleAll(nodes, clock))
  }

  /** A run ends without a record list exactly when one of the early exits
      applies, and the full pass yields exactly one record per non-null node. */
  lemma RunRecordCount(token: Option<string>, response: Response, clock: nat -> int)
    ensures !Run(token, response, clock).Collected? <==>
      token == Some(PlaceholderToken) || response.RequestError?
      || response.hasErrors || response.search.None? || |response.search.value| == 0
    ensures Run(token, response, clock).Collected? ==>
      |Run(token, response, clock).records| == |Present(response.search.value)|
                                           <= |response.search.value|
  {
  }

  /** Records are only appended: the records for the nodes `a` are the
      first records for `a + b`, whatever nodes follow. */
  lemma AssembleAllPrefix(a: seq<Option<RepoNode>>, b: seq<Option<RepoNode>>, clock: nat -> int)
    ensures |AssembleAll(a + b, clock)| == |Present(a)| + |Present(b)|
    ensures AssembleAll(a + b, clock)[..|Present(a)|] == AssembleAll(a, clock)
  {
    MapPresentStampedPrefix(a, b, Assemble, clock);
  }

  /** With a clock that does not move, every record is assembled at the
      same instant: the loop is the plain map over the non-null nodes. */
  lemma AssembleAllFrozenClock(nodes: seq<Option<RepoNode>>, now: int)
    ensures AssembleAll(nodes, (j: nat) => now) == MapPresent(nodes, (n: RepoNode) => Assemble(n, now))
  {
    var l := AssembleAll(nodes, (j: nat) => now);
    var r := MapPresent(nodes, (n: RepoNode) => Assemble(n, now));
    assert |l| == |r|;
    forall j | 0 <= j < |l|
      ensures l[j] == r[j]
    {
    }
  }
}
