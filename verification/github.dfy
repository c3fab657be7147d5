/** The decision logic inside src/github.ts: which pull request a workflow
    run belongs to, the per-process cache of that answer, and the
    degrade-to-unknown lookup of a branch's required check names. The REST
    calls themselves are not modelled; their answers are parameters. */
module GitHub {
  import opened Wrappers
  import opened Sequences

  /** A pull request as listed by the REST API (only the fields the action reads). */
  datatype PullRequest = PullRequest(number: int, title: string, baseRef: Option<string>)

  /** The `workflow_run` payload of the triggering event. */
  datatype WorkflowRun = WorkflowRun(pullRequests: seq<PullRequest>, displayTitle: string, headSha: string)

  /** One check run of the head commit. `conclusion` is absent (null) until the run completes. */
  datatype CheckRun = CheckRun(name: string, status: string, conclusion: Option<string>)

  /** The error thrown when no pull request can be found; it names the title searched. */
  datatype PrNotFound = PrNotFound(searchedTitle: string)

  /** What `fetchPr` produced, and whether it had to call the pulls-list endpoint. */
  datatype Fetched = Fetched(result: Result<PullRequest, PrNotFound>, listedPulls: bool)

  function HasTitle(title: string): PullRequest -> bool {
    (pr: PullRequest) => pr.title == title
  }

  /** `pulls[i]` is the first pull request in `pulls` whose title is `title`. */
  ghost predicate IsFirstWithTitle(pulls: seq<PullRequest>, title: string, i: int) {
    && 0 <= i < |pulls|
    && pulls[i].title == title
    && forall j :: 0 <= j < i ==> pulls[j].title != title
  }

  /** `fetchPr`: the payload's first pull request if it lists any (no lookup);
      otherwise the first of `pulls` (the repository's pull requests, most
      recently updated first) whose title equals the run's display title;
      otherwise the not-found error naming that title. */
  function FetchPr(run: WorkflowRun, pulls: seq<PullRequest>): (f: Fetched)
    ensures |run.pullRequests| > 0 ==> f == Fetched(Success(run.pullRequests[0]), false)
    ensures |run.pullRequests| == 0 ==> f.listedPulls
    ensures f.result.Failure? <==>
              |run.pullRequests| == 0 && forall i :: 0 <= i < |pulls| ==> pulls[i].title != run.displayTitle
    ensures f.result.Failure? ==> f.result.error == PrNotFound(run.displayTitle)
    ensures |run.pullRequests| == 0 && f.result.Success? ==>
              exists i :: IsFirstWithTitle(pulls, run.displayTitle, i) && f.result.value == pulls[i]
  {
    if |run.pullRequests| > 0 then
      Fetched(Success(run.pullRequests[0]), false)
    else
      var matching := Filter(HasTitle(run.displayTitle), pulls);
      FilterNonEmpty(HasTitle(run.displayTitle), pulls);
      if |matching| >= 1 then
        FilterHeadIsFirst(HasTitle(run.displayTitle), pulls);
        Fetched(Success(matching[0]), true)
      else
        Fetched(Failure(PrNotFound(run.displayTitle)), true)
  }

  /** The module-level cache of the resolved pull request. */
  datatype PrCache = Unset | Cached(pr: PullRequest)

  /** One `getPr` call: its result, the cache afterwards, and how many
      pulls-list API calls it made (zero or one). */
  datatype PrLookup = PrLookup(result: Result<PullRequest, PrNotFound>, cache: PrCache, listCalls: nat)

  /** `getPr`: a cached pull request is returned as is, with no API call;
      otherwise `fetchPr` runs and a successful answer is written to the
      cache (a thrown error leaves it unset). */
  function GetPr(cache: PrCache, run: WorkflowRun, pulls: seq<PullRequest>): (l: PrLookup)
    ensures cache.Cached? ==> l == PrLookup(Success(cache.pr), cache, 0)
    ensures cache.Unset? ==> l.result == FetchPr(run, pulls).result
    ensures cache.Unset? ==> (l.listCalls == 1 <==> |run.pullRequests| == 0)
    ensures l.listCalls <= 1
    ensures l.result.Success? ==> l.cache == Cached(l.result.value)
    ensures l.result.Failure? ==> l.cache == Unset
  {
    match cache
    case Cached(pr) => PrLookup(Success(pr), cache, 0)
    case Unset =>
      var f := FetchPr(run, pulls);
      var calls := if f.listedPulls then 1 else 0;
      match f.result
      case Success(pr) => PrLookup(f.result, Cached(pr), calls)
      case Failure(_) => PrLookup(f.result, Unset, calls)
  }

  /** Successive `getPr` calls within one process, starting from `cache`; the
      k-th call sees `pulls[k]` as the repository's pull-request list. */
  function GetPrCalls(cache: PrCache, run: WorkflowRun, pulls: seq<seq<PullRequest>>): (ls: seq<PrLookup>)
    ensures |ls| == |pulls|
    decreases |pulls|
  {
    if |pulls| == 0 then []
    else
      var l := GetPr(cache, run, pulls[0]);
      [l] + GetPrCalls(l.cache, run, pulls[1..])
  }

  /** Total pulls-list API calls over a sequence of lookups. */
  function TotalListCalls(ls: seq<PrLookup>): nat {
    if |ls| == 0 then 0 else ls[0].listCalls + TotalListCalls(ls[1..])
  }

  /** Write-once cache: once a call has resolved a pull request, every later
      call in the process returns that same pull request without any API call. */
  lemma {:induction false} CachedPrIsStable(pr: PullRequest, run: WorkflowRun, pulls: seq<seq<PullRequest>>)
    ensures forall k :: 0 <= k < |pulls| ==>
              GetPrCalls(Cached(pr), run, pulls)[k] == PrLookup(Success(pr), Cached(pr), 0)
    ensures TotalListCalls(GetPrCalls(Cached(pr), run, pulls)) == 0
    decreases |pulls|
  {
    if |pulls| > 0 {
      CachedPrIsStable(pr, run, pulls[1..]);
      var ls := GetPrCalls(Cached(pr), run, pulls);
      assert ls == [PrLookup(Success(pr), Cached(pr), 0)] + GetPrCalls(Cached(pr), run, pulls[1..]);
    }
  }

  /** Resolving the pull request any number of times in one process from an
      empty cache: if the first resolution succeeds, every call returns the
      identical pull request and at most one pulls-list call is made in all. */
  lemma ResolveOnce(run: WorkflowRun, pulls: seq<seq<PullRequest>>)
    requires |pulls| > 0
    requires GetPr(Unset, run, pulls[0]).result.Success?
    ensures var ls := GetPrCalls(Unset, run, pulls);
      && (forall k :: 0 <= k < |ls| ==> ls[k].result == ls[0].result)
      && (forall k :: 0 < k < |ls| ==> ls[k].listCalls == 0)
      && TotalListCalls(ls) <= 1
  {
    var first := GetPr(Unset, run, pulls[0]);
    var pr := first.result.value;
    CachedPrIsStable(pr, run, pulls[1..]);
    var ls := GetPrCalls(Unset, run, pulls);
    assert ls == [first] + GetPrCalls(Cached(pr), run, pulls[1..]);
    assert forall k :: 0 < k < |ls| ==> ls[k] == GetPrCalls(Cached(pr), run, pulls[1..])[k - 1];
  }

  /** The answer of the branch-protection "required status checks" endpoint:
      the required check names, or a thrown error (no protection configured,
      or any other failure). */
  datatype ProtectionResponse = RequiredContexts(contexts: seq<string>) | LookupFailed

  /** `getRequiredCheckNames`: unknown (None) when the pull request's base ref
      is unknown or the protection lookup for it fails; the configured names
      otherwise. The lookup's error never escapes. */
  function GetRequiredCheckNames(pr: PullRequest, protection: string -> ProtectionResponse): (names: Option<seq<string>>)
    ensures pr.baseRef.None? ==> names.None?
    ensures names.Some? <==> pr.baseRef.Some? && protection(pr.baseRef.value).RequiredContexts?
    ensures names.Some? ==> names.value == protection(pr.baseRef.value).contexts
  {
    match pr.baseRef
    case None => None
    case Some(baseRef) =>
      match protection(baseRef)
      case RequiredContexts(contexts) => Some(contexts)
      case LookupFailed => None
  }
}
