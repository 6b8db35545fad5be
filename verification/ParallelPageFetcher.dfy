/**
 * Fetching several counter pages in one go (src/sync/parallel-page-fetcher.ts), compared with taking the same pages
 * one message at a time, as the backfill does when the parallel fetch is switched off.
 */
module ParallelPageFetcher {
  import opened Wrappers
  import opened PageCounterCursor

  datatype WorkflowRun = WorkflowRun(id: int, createdAt: int)

  /** One edge: the cursor of the next page, and the runs of the page it was built from. */
  datatype Edge = Edge(cursor: string, runs: seq<WorkflowRun>)

  datatype JiraPayload = JiraPayload(repository: string, pullRequests: seq<string>, builds: seq<string>)

  datatype TaskResult = TaskResult(edges: seq<Edge>, payload: Option<JiraPayload>)

  type PageFetch = Cursor -> Result<TaskResult, string>

  function PullRequestsOf(payload: Option<JiraPayload>): seq<string> {
    if payload.Some? then payload.value.pullRequests else []
  }

  function BuildsOf(payload: Option<JiraPayload>): seq<string> {
    if payload.Some? then payload.value.builds else []
  }

  // Nothing is lost and nothing is reordered when two payloads are merged.
  function MergeJiraPayload(p1: Option<JiraPayload>, p2: Option<JiraPayload>): (p: Option<JiraPayload>)
    ensures BuildsOf(p) == BuildsOf(p1) + BuildsOf(p2)
    ensures PullRequestsOf(p) == PullRequestsOf(p1) + PullRequestsOf(p2)
  {
    var pullRequests := PullRequestsOf(p1) + PullRequestsOf(p2);
    var builds := BuildsOf(p1) + BuildsOf(p2);
    if (p1.None? && p2.None?) || (pullRequests == [] && builds == []) then None
    else
      var base := if p1.Some? then p1.value else p2.value;
      Some(JiraPayload(base.repository, pullRequests, builds))
  }

  function Ahead(c: Cursor, pages: nat): Cursor {
    Cursor(c.perPage, c.pageNo + pages)
  }

  /** The left-to-right `reduce` over the settled pages `c`, `c+1`, ..., `c+pages-1`; it rethrows the first failure. */
  function FetchNextPagesInParallel(pages: nat, c: Cursor, fetch: PageFetch): Result<TaskResult, string> {
    if pages == 0 then Success(TaskResult([], None))
    else
      var prev := FetchNextPagesInParallel(pages - 1, c, fetch);
      if prev.Failure? then prev
      else
        var curr := fetch(Ahead(c, pages - 1));
        if curr.Failure? then Failure(curr.error)
        else Success(TaskResult(prev.value.edges + curr.value.edges,
                                MergeJiraPayload(prev.value.payload, curr.value.payload)))
  }

  /** What the backfill keeps of a task between messages, with the builds sent to Jira so far. */
  datatype Progress = Progress(text: Option<string>, builds: seq<string>, complete: bool)

  /** How a task result is recorded: no edges completes the task, otherwise the last edge carries the next cursor. */
  function Record(s: Progress, result: TaskResult): Progress {
    var builds := s.builds + BuildsOf(result.payload);
    if result.edges == [] then Progress(s.text, builds, true)
    else Progress(Some(result.edges[|result.edges| - 1].cursor), builds, false)
  }

  /** One message: parse the stored cursor, scale it, fetch `pages` pages at once, record the result. */
  function AllAtOnce(pages: nat, s: Progress, perPage: nat, fetch: PageFetch): Result<Progress, string>
    requires perPage >= 1
    requires Parse(s.text).Success? && Parse(s.text).value.Valid()
  {
    var fetched := FetchNextPagesInParallel(pages, Scaled(Parse(s.text).value, perPage), fetch);
    if fetched.Failure? then Failure(fetched.error) else Success(Record(s, fetched.value))
  }

  predicate NonEmpty(c: Cursor, fetch: PageFetch) {
    fetch(c).Success? && fetch(c).value.edges != []
  }

  /**
   * What every page factory of the repository guarantees: an edge of page `c` carries the serialised cursor of the page
   * after `c`, and a page without edges has nothing for Jira.
   */
  ghost predicate Serial(fetch: PageFetch) {
    forall c: Cursor | fetch(c).Success? ::
      var r := fetch(c).value;
      if r.edges == [] then BuildsOf(r.payload) == []
      else r.edges[|r.edges| - 1].cursor == Print(Ahead(c, 1))
  }

  /** `pages` messages of one page each; the sequence stops at the first page without edges. */
  function OneAtATime(pages: nat, s: Progress, perPage: nat, fetch: PageFetch): Result<Progress, string>
    requires perPage >= 1
  {
    if pages == 0 then Success(s)
    else
      var prev := OneAtATime(pages - 1, s, perPage, fetch);
      if prev.Failure? || prev.value.complete then prev
      else
        var parsed := Parse(prev.value.text);
        if parsed.Failure? then Failure(parsed.error)
        else if !parsed.value.Valid() then Failure("RangeError")
        else
          var fetched := fetch(Scaled(parsed.value, perPage));
          if fetched.Failure? then Failure(fetched.error)
          else Success(Record(prev.value, fetched.value))
  }

  // ---- The comparison --------------------------------------------------------------------------------------------

  ghost predicate AllSucceed(pages: nat, c: Cursor, fetch: PageFetch) {
    forall i | 0 <= i < pages :: fetch(Ahead(c, i)).Success?
  }

  /** An empty page is followed by empty pages only. */
  ghost predicate EmptyTail(pages: nat, c: Cursor, fetch: PageFetch) {
    forall i, j | 0 <= i < j < pages && NonEmpty(Ahead(c, j), fetch) :: NonEmpty(Ahead(c, i), fetch)
  }

  /** One past the last non-empty page among the first `pages`, or 0. */
  function LastNonEmpty(pages: nat, c: Cursor, fetch: PageFetch): (n: nat)
    ensures n <= pages
    ensures n > 0 ==> NonEmpty(Ahead(c, n - 1), fetch)
    ensures forall i | n <= i < pages :: !NonEmpty(Ahead(c, i), fetch)
  {
    if pages == 0 then 0
    else if NonEmpty(Ahead(c, pages - 1), fetch) then pages
    else LastNonEmpty(pages - 1, c, fetch)
  }

  /** The number of leading non-empty pages. */
  function FirstEmpty(pages: nat, c: Cursor, fetch: PageFetch): (n: nat)
    ensures n <= pages
    ensures forall i | 0 <= i < n :: NonEmpty(Ahead(c, i), fetch)
    ensures n < pages ==> !NonEmpty(Ahead(c, n), fetch)
  {
    if pages == 0 then 0
    else
      var n := FirstEmpty(pages - 1, c, fetch);
      if n == pages - 1 && NonEmpty(Ahead(c, pages - 1), fetch) then pages else n
  }

  function BuildsOfPages(pages: nat, c: Cursor, fetch: PageFetch): seq<string> {
    if pages == 0 then []
    else
      var page := fetch(Ahead(c, pages - 1));
      BuildsOfPages(pages - 1, c, fetch) + if page.Success? then BuildsOf(page.value.payload) else []
  }

  // The parallel fetch fails exactly when some page fails.
  lemma {:induction false} ParallelFailure(pages: nat, c: Cursor, fetch: PageFetch)
    ensures FetchNextPagesInParallel(pages, c, fetch).Success? <==> AllSucceed(pages, c, fetch)
  {
    if pages > 0 {
      ParallelFailure(pages - 1, c, fetch);
      assert AllSucceed(pages, c, fetch) <==>
             AllSucceed(pages - 1, c, fetch) && fetch(Ahead(c, pages - 1)).Success?;
    }
  }

  lemma {:induction false} ParallelBuilds(pages: nat, c: Cursor, fetch: PageFetch)
    requires FetchNextPagesInParallel(pages, c, fetch).Success?
    ensures BuildsOf(FetchNextPagesInParallel(pages, c, fetch).value.payload) == BuildsOfPages(pages, c, fetch)
  {
    if pages > 0 {
      ParallelBuilds(pages - 1, c, fetch);
    }
  }

  lemma PageShape(c: Cursor, fetch: PageFetch)
    requires Serial(fetch) && fetch(c).Success?
    ensures var r := fetch(c).value;
            if NonEmpty(c, fetch) then r.edges != [] && r.edges[|r.edges| - 1].cursor == Print(Ahead(c, 1))
            else r.edges == [] && BuildsOf(r.payload) == []
  {
  }

  lemma FetchStep(pages: nat, c: Cursor, fetch: PageFetch)
    requires pages > 0 && FetchNextPagesInParallel(pages, c, fetch).Success?
    ensures FetchNextPagesInParallel(pages - 1, c, fetch).Success? && fetch(Ahead(c, pages - 1)).Success?
    ensures FetchNextPagesInParallel(pages, c, fetch).value.edges ==
            FetchNextPagesInParallel(pages - 1, c, fetch).value.edges + fetch(Ahead(c, pages - 1)).value.edges
  {
    hide MergeJiraPayload;
  }

  lemma LastOfConcat(a: seq<Edge>, b: seq<Edge>)
    ensures if b == [] then a + b == a else (a + b)[|a + b| - 1] == b[|b| - 1]
  {
  }

  lemma {:induction false} ParallelEdges(pages: nat, c: Cursor, fetch: PageFetch)
    requires Serial(fetch) && FetchNextPagesInParallel(pages, c, fetch).Success?
    ensures var edges := FetchNextPagesInParallel(pages, c, fetch).value.edges;
            var n := LastNonEmpty(pages, c, fetch);
            && (edges == [] <==> n == 0)
            && (n > 0 ==> edges[|edges| - 1].cursor == Print(Ahead(c, n)))
  {
    if pages > 0 {
      hide Print, Serial, NonEmpty, FetchNextPagesInParallel;
      FetchStep(pages, c, fetch);
      ParallelEdges(pages - 1, c, fetch);
      var last := Ahead(c, pages - 1);
      PageShape(last, fetch);
      assert Ahead(last, 1) == Ahead(c, pages);
      LastOfConcat(FetchNextPagesInParallel(pages - 1, c, fetch).value.edges, fetch(last).value.edges);
    }
  }

  /** Where the one-page messages stand after the first `n` pages, all of them non-empty. */
  function After(n: nat, s: Progress, c: Cursor, fetch: PageFetch): Progress {
    Progress(if n == 0 then s.text else Some(Print(Ahead(c, n))), s.builds + BuildsOfPages(n, c, fetch), false)
  }

  // One more one-page message reads page `c + n`, whatever page size the stored text was written with.
  lemma NextMessage(n: nat, s: Progress, perPage: nat, fetch: PageFetch)
    requires perPage >= 1 && !s.complete
    requires Parse(s.text).Success? && Parse(s.text).value.Valid()
    requires var c := Scaled(Parse(s.text).value, perPage); Serial(fetch) && fetch(Ahead(c, n)).Success?
    ensures var c := Scaled(Parse(s.text).value, perPage);
            var here := After(n, s, c, fetch);
            && Parse(here.text).Success? && Parse(here.text).value.Valid()
            && Scaled(Parse(here.text).value, perPage) == Ahead(c, n)
            && Record(here, fetch(Ahead(c, n)).value) ==
               if NonEmpty(Ahead(c, n), fetch) then After(n + 1, s, c, fetch) else here.(complete := true)
  {
    hide Print, Parse, Serial;
    var c := Scaled(Parse(s.text).value, perPage);
    ScaleNeverSkips(Parse(s.text).value, perPage);
    SerialiseRoundTrip(Ahead(c, n));
    PageShape(Ahead(c, n), fetch);
    assert Ahead(c, 0) == c && Ahead(Ahead(c, n), 1) == Ahead(c, n + 1);
    var here := After(n, s, c, fetch);
    var page := fetch(Ahead(c, n)).value;
    assert here.builds + BuildsOf(page.payload) == s.builds + (BuildsOfPages(n, c, fetch) + BuildsOf(page.payload));
    assert here.builds + [] == here.builds;
  }

  lemma {:induction false} SequentialResult(pages: nat, s: Progress, perPage: nat, fetch: PageFetch)
    requires perPage >= 1 && !s.complete
    requires Parse(s.text).Success? && Parse(s.text).value.Valid()
    requires var c := Scaled(Parse(s.text).value, perPage); Serial(fetch) && AllSucceed(pages, c, fetch)
    ensures var c := Scaled(Parse(s.text).value, perPage);
            var n := FirstEmpty(pages, c, fetch);
            OneAtATime(pages, s, perPage, fetch) == Success(After(n, s, c, fetch).(complete := n < pages))
  {
    hide Print, Parse, Serial, Record, Scaled;
    var c := Scaled(Parse(s.text).value, perPage);
    if pages == 0 {
      assert s.builds + [] == s.builds;
    } else {
      SequentialResult(pages - 1, s, perPage, fetch);
      NextMessage(pages - 1, s, perPage, fetch);
    }
  }

  lemma {:induction false} EmptyPagesAddNoBuilds(m: nat, pages: nat, c: Cursor, fetch: PageFetch)
    requires m <= pages && Serial(fetch) && AllSucceed(pages, c, fetch)
    requires forall i | m <= i < pages :: !NonEmpty(Ahead(c, i), fetch)
    ensures BuildsOfPages(pages, c, fetch) == BuildsOfPages(m, c, fetch)
  {
    if m < pages {
      EmptyPagesAddNoBuilds(m, pages - 1, c, fetch);
      assert !NonEmpty(Ahead(c, pages - 1), fetch);
    }
  }

  lemma EmptyTailIff(pages: nat, c: Cursor, fetch: PageFetch)
    ensures EmptyTail(pages, c, fetch) <==> LastNonEmpty(pages, c, fetch) == FirstEmpty(pages, c, fetch)
  {
    var l, m := LastNonEmpty(pages, c, fetch), FirstEmpty(pages, c, fetch);
    if m < l {
      assert NonEmpty(Ahead(c, l - 1), fetch) && !NonEmpty(Ahead(c, m), fetch);
    }
  }

  // Main result: when every page can be fetched, the parallel fetch leaves the same stored cursor as the one-page
  // messages if and only if no non-empty page follows an empty one; and then it sends the same builds in the same
  // order.
  lemma ParallelRefinesSequential(pages: nat, s: Progress, perPage: nat, fetch: PageFetch)
    requires perPage >= 1 && !s.complete
    requires Parse(s.text).Success? && Parse(s.text).value.Valid()
    requires var c := Scaled(Parse(s.text).value, perPage); Serial(fetch) && AllSucceed(pages, c, fetch)
    ensures AllAtOnce(pages, s, perPage, fetch).Success? && OneAtATime(pages, s, perPage, fetch).Success?
    ensures var c := Scaled(Parse(s.text).value, perPage);
            var parallel := AllAtOnce(pages, s, perPage, fetch).value;
            var sequential := OneAtATime(pages, s, perPage, fetch).value;
            && (EmptyTail(pages, c, fetch) <==> parallel.text == sequential.text)
            && (EmptyTail(pages, c, fetch) ==> parallel.builds == sequential.builds)
  {
    var c := Scaled(Parse(s.text).value, perPage);
    ParallelFailure(pages, c, fetch);
    ParallelBuilds(pages, c, fetch);
    ParallelEdges(pages, c, fetch);
    SequentialResult(pages, s, perPage, fetch);
    EmptyTailIff(pages, c, fetch);
    var l, m := LastNonEmpty(pages, c, fetch), FirstEmpty(pages, c, fetch);
    ScaleNeverSkips(Parse(s.text).value, perPage);
    SerialiseRoundTrip(Ahead(c, l));
    SerialiseRoundTrip(Ahead(c, m));
    if l == m {
      EmptyPagesAddNoBuilds(l, pages, c, fetch);
    }
  }

  // The parallel task is completed one message later than the sequential one, and by the very next message.
  lemma CompletedByTheNextMessage(pages: nat, more: nat, s: Progress, perPage: nat, fetch: PageFetch)
    requires perPage >= 1 && !s.complete
    requires Parse(s.text).Success? && Parse(s.text).value.Valid()
    requires var c := Scaled(Parse(s.text).value, perPage);
             && Serial(fetch) && AllSucceed(pages + more, c, fetch) && EmptyTail(pages + more, c, fetch)
    requires OneAtATime(pages, s, perPage, fetch).Success? && OneAtATime(pages, s, perPage, fetch).value.complete
    ensures var sequential := OneAtATime(pages, s, perPage, fetch).value;
            && Parse(sequential.text).Success? && Parse(sequential.text).value.Valid()
            && AllAtOnce(more, sequential, perPage, fetch) == Success(sequential)
  {
    hide Print, Parse, Serial, MergeJiraPayload;
    var c := Scaled(Parse(s.text).value, perPage);
    SequentialResult(pages, s, perPage, fetch);
    var m := FirstEmpty(pages, c, fetch);
    NextMessage(m, s, perPage, fetch);
    assert Ahead(Ahead(c, m), 0) == Ahead(c, m);
    StaysEmpty(pages, more, m, c, fetch);
    var d := Ahead(c, m);
    ParallelFailure(more, d, fetch);
    ParallelBuilds(more, d, fetch);
    ParallelEdges(more, d, fetch);
    EmptyPagesAddNoBuilds(0, more, d, fetch);
    var sequential := OneAtATime(pages, s, perPage, fetch).value;
    assert sequential.builds + [] == sequential.builds;
  }

  lemma StaysEmpty(pages: nat, more: nat, m: nat, c: Cursor, fetch: PageFetch)
    requires m < pages && !NonEmpty(Ahead(c, m), fetch)
    requires AllSucceed(pages + more, c, fetch) && EmptyTail(pages + more, c, fetch)
    ensures AllSucceed(more, Ahead(c, m), fetch)
    ensures forall i | 0 <= i < more :: !NonEmpty(Ahead(Ahead(c, m), i), fetch)
  {
    forall i | 0 <= i < more
      ensures fetch(Ahead(Ahead(c, m), i)).Success? && !NonEmpty(Ahead(Ahead(c, m), i), fetch)
    {
      assert Ahead(Ahead(c, m), i) == Ahead(c, m + i);
    }
  }
}
