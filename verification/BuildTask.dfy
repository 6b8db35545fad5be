/**
 * The build backfill task (src/sync/build.ts): it walks the workflow runs of a repository with a counter cursor, one or
 * several pages per message, with a page size that may differ from message to message.
 */
module BuildTask {
  import opened Wrappers
  import opened PageCounterCursor
  import opened ParallelPageFetcher

  /** GitHub's side of one repository: the list of runs, and what `transformWorkflow` makes of a run. */
  datatype Source = Source(name: string, runs: seq<WorkflowRun>, toBuilds: WorkflowRun -> seq<string>)

  function Min(a: nat, b: nat): nat {
    if a < b then a else b
  }

  /** The slice GitHub answers for a page; pages past the end are empty. */
  function PageOf(runs: seq<WorkflowRun>, c: Cursor): seq<WorkflowRun>
    requires c.Valid()
  {
    runs[Min(c.Position(), |runs|)..Min(c.Position() + c.perPage, |runs|)]
  }

  function TransformedBuilds(source: Source, runs: seq<WorkflowRun>): seq<string> {
    if runs == [] then [] else source.toBuilds(runs[0]) + TransformedBuilds(source, runs[1..])
  }

  predicate Earlier(run: WorkflowRun, fromDate: Option<int>) {
    fromDate.Some? && run.createdAt < fromDate.value
  }

  predicate AreAllBuildsEarlierThanFromDate(runs: seq<WorkflowRun>, fromDate: Option<int>) {
    fromDate.Some? && forall run | run in runs :: run.createdAt < fromDate.value
  }

  function DoGetBuildTask(source: Source, c: Cursor, fromDate: Option<int>): Result<TaskResult, string> {
    if !c.Valid() then Failure("RangeError")
    else
      var runs := PageOf(source.runs, c);
      if AreAllBuildsEarlierThanFromDate(runs, fromDate) then Success(TaskResult([], None))
      else
        var edges := [Edge(Print(Ahead(c, 1)), runs)];
        if runs == [] then Success(TaskResult([], None))
        else
          var builds := TransformedBuilds(source, runs);
          if builds == [] then Success(TaskResult(edges, None))
          else Success(TaskResult(edges, Some(JiraPayload(source.name, [], builds))))
  }

  function PageFactory(source: Source, fromDate: Option<int>): PageFetch {
    c => DoGetBuildTask(source, c, fromDate)
  }

  /** `pages` is the feature flag for the parallel fetch; 0 and 1 switch it off. */
  function GetBuildTask(source: Source, text: Option<string>, perPage: nat, pages: nat, fromDate: Option<int>)
    : Result<TaskResult, string>
    requires perPage >= 1
  {
    var parsed := Parse(text);
    if parsed.Failure? then Failure(parsed.error)
    else if !parsed.value.Valid() then Failure("RangeError")
    else
      var smartCursor := Scaled(parsed.value, perPage);
      if pages <= 1 then DoGetBuildTask(source, smartCursor, fromDate)
      else FetchNextPagesInParallel(pages, smartCursor, PageFactory(source, fromDate))
  }

  // ---- The factory meets the terms of the parallel fetcher ---------------------------------------------------------

  lemma BuildPagesAreSerial(source: Source, fromDate: Option<int>)
    ensures Serial(PageFactory(source, fromDate))
  {
    hide Print;
    var fetch := PageFactory(source, fromDate);
    forall c: Cursor | fetch(c).Success?
      ensures var r := fetch(c).value;
              if r.edges == [] then BuildsOf(r.payload) == []
              else r.edges[|r.edges| - 1].cursor == Print(Ahead(c, 1))
    {
      assert fetch(c) == DoGetBuildTask(source, c, fromDate);
    }
  }

  /** GitHub lists workflow runs newest first. */
  ghost predicate NewestFirst(runs: seq<WorkflowRun>) {
    forall i, j | 0 <= i < j < |runs| :: runs[i].createdAt >= runs[j].createdAt
  }

  /** Behind a run that is too old there are only such runs. */
  ghost predicate OldRunsLast(runs: seq<WorkflowRun>, fromDate: Option<int>) {
    forall i, j | 0 <= i < j < |runs| && Earlier(runs[i], fromDate) :: Earlier(runs[j], fromDate)
  }

  /** A wanted run behind one that is too old is listed in front of that one, too. */
  ghost predicate OldRunsHideNothing(runs: seq<WorkflowRun>, fromDate: Option<int>) {
    forall i, j | 0 <= i < j < |runs| && Earlier(runs[i], fromDate) && !Earlier(runs[j], fromDate) ::
        runs[j] in runs[..i]
  }

  // So GitHub's order is enough, and for a list without repetition the two conditions are the same.
  lemma OrdersCompared(runs: seq<WorkflowRun>, fromDate: Option<int>)
    ensures NewestFirst(runs) ==> OldRunsLast(runs, fromDate)
    ensures OldRunsLast(runs, fromDate) ==> OldRunsHideNothing(runs, fromDate)
    ensures (forall i, j | 0 <= i < j < |runs| :: runs[i] != runs[j]) && OldRunsHideNothing(runs, fromDate) ==>
              OldRunsLast(runs, fromDate)
  {
  }

  // A page is empty exactly when nothing on it is wanted.
  lemma EmptyPageIff(source: Source, c: Cursor, fromDate: Option<int>)
    requires c.Valid()
    ensures !NonEmpty(c, PageFactory(source, fromDate)) <==>
            forall run | run in PageOf(source.runs, c) :: Earlier(run, fromDate)
  {
    hide Print;
    var runs := PageOf(source.runs, c);
    assert PageFactory(source, fromDate)(c) == DoGetBuildTask(source, c, fromDate);
    if fromDate.None? && runs != [] {
      assert runs[0] in runs;
    }
  }

  // Once a page is unwanted, so is everything from there on.
  lemma NothingWantedFrom(source: Source, c: Cursor, fromDate: Option<int>, i: nat)
    requires c.Valid() && c.Position() <= i < |source.runs|
    requires OldRunsLast(source.runs, fromDate)
    requires !NonEmpty(c, PageFactory(source, fromDate))
    ensures Earlier(source.runs[i], fromDate)
  {
    EmptyPageIff(source, c, fromDate);
    var page := PageOf(source.runs, c);
    assert page[0] == source.runs[c.Position()];
    assert page[0] in page;
  }

  // So the tail hypothesis of the refinement theorem holds of a build task.
  lemma BuildPagesHaveEmptyTail(source: Source, c: Cursor, pages: nat, fromDate: Option<int>)
    requires c.Valid() && OldRunsLast(source.runs, fromDate)
    ensures EmptyTail(pages, c, PageFactory(source, fromDate))
  {
    hide NonEmpty, OldRunsLast, PageFactory;
    var fetch := PageFactory(source, fromDate);
    forall i, j | 0 <= i < j < pages && NonEmpty(Ahead(c, j), fetch)
      ensures NonEmpty(Ahead(c, i), fetch)
    {
      PagesApart(Ahead(c, i).pageNo, Ahead(c, j).pageNo, c.perPage);
      var k := WantedRun(source, Ahead(c, j), fromDate);
      if !NonEmpty(Ahead(c, i), fetch) {
        NothingWantedFrom(source, Ahead(c, i), fromDate, k);
      }
    }
  }

  // Main result: the hypothesis of the refinement theorem holds of a build task, for all cursors and numbers of pages,
  // if and only if behind a run that is too old there are only such runs.
  lemma EmptyTailExactly(source: Source, fromDate: Option<int>)
    ensures (forall c: Cursor, pages: nat | c.Valid() :: EmptyTail(pages, c, PageFactory(source, fromDate)))
            <==> OldRunsLast(source.runs, fromDate)
  {
    hide EmptyTail, PageFactory;
    var runs, fetch := source.runs, PageFactory(source, fromDate);
    if OldRunsLast(runs, fromDate) {
      forall c: Cursor, pages: nat | c.Valid()
        ensures EmptyTail(pages, c, fetch)
      {
        BuildPagesHaveEmptyTail(source, c, pages, fromDate);
      }
    }
    if forall c: Cursor, pages: nat | c.Valid() :: EmptyTail(pages, c, fetch) {
      forall i, j | 0 <= i < j < |runs| && Earlier(runs[i], fromDate)
        ensures Earlier(runs[j], fromDate)
      {
        assert EmptyTail(j - i + 1, Cursor(1, i + 1), fetch);
        SinglePages(source, fromDate, i, j);
      }
    }
  }

  /** With one run per page, an old run is an empty page, and a wanted one is not. */
  lemma SinglePages(source: Source, fromDate: Option<int>, i: nat, j: nat)
    requires i < j < |source.runs| && Earlier(source.runs[i], fromDate)
    requires EmptyTail(j - i + 1, Cursor(1, i + 1), PageFactory(source, fromDate))
    ensures Earlier(source.runs[j], fromDate)
  {
    var c, fetch := Cursor(1, i + 1), PageFactory(source, fromDate);
    assert Ahead(c, 0) == c && Ahead(c, j - i) == Cursor(1, j + 1);
    assert PageOf(source.runs, c) == [source.runs[i]];
    assert PageOf(source.runs, Cursor(1, j + 1)) == [source.runs[j]];
    EmptyPageIff(source, c, fromDate);
    EmptyPageIff(source, Cursor(1, j + 1), fromDate);
    assert !NonEmpty(Ahead(c, 0), fetch);
    assert !NonEmpty(Ahead(c, j - i), fetch);
  }

  lemma WantedRun(source: Source, c: Cursor, fromDate: Option<int>) returns (k: nat)
    requires c.Valid() && NonEmpty(c, PageFactory(source, fromDate))
    ensures c.Position() <= k < |source.runs| && !Earlier(source.runs[k], fromDate)
  {
    hide Cursor.Position;
    EmptyPageIff(source, c, fromDate);
    var run :| run in PageOf(source.runs, c) && !Earlier(run, fromDate);
    k :| c.Position() <= k < |source.runs| && source.runs[k] == run;
  }

  // Switching the flag from 0 to 1 changes nothing; from 0 to `pages` it saves messages only.
  lemma ParallelOfOne(source: Source, c: Cursor, fromDate: Option<int>)
    ensures FetchNextPagesInParallel(1, c, PageFactory(source, fromDate)) == DoGetBuildTask(source, c, fromDate)
  {
    hide Print;
    var fetch := PageFactory(source, fromDate);
    assert Ahead(c, 0) == c;
    assert fetch(c) == DoGetBuildTask(source, c, fromDate);
    assert FetchNextPagesInParallel(0, c, fetch) == Success(TaskResult([], None));
    var r := DoGetBuildTask(source, c, fromDate);
    if r.Success? {
      assert [] + r.value.edges == r.value.edges;
      assert [] + BuildsOf(r.value.payload) == BuildsOf(r.value.payload);
    }
  }

  // ---- No data loss ------------------------------------------------------------------------------------------------

  function RunsOf(edges: seq<Edge>): seq<WorkflowRun> {
    if edges == [] then [] else RunsOf(edges[..|edges| - 1]) + edges[|edges| - 1].runs
  }

  /** Every run with an index in `[from, to)` was handed over, or predates the from-date. */
  ghost predicate Covered(source: Source, fromDate: Option<int>, delivered: seq<WorkflowRun>, from: nat, to: nat) {
    forall i | from <= i < to && i < |source.runs| ::
      source.runs[i] in delivered || Earlier(source.runs[i], fromDate)
  }

  lemma RunsOfOneMore(edges: seq<Edge>, last: Edge)
    ensures RunsOf(edges + [last]) == RunsOf(edges) + last.runs
  {
    assert (edges + [last])[..|edges|] == edges;
  }

  lemma Associative(x: seq<WorkflowRun>, y: seq<WorkflowRun>, z: seq<WorkflowRun>)
    ensures x + y + z == x + (y + z)
  {
  }

  lemma {:induction false} RunsOfConcat(a: seq<Edge>, b: seq<Edge>)
    ensures RunsOf(a + b) == RunsOf(a) + RunsOf(b)
  {
    if b == [] {
      assert a + b == a;
    } else {
      hide RunsOf;
      var front, last := b[..|b| - 1], b[|b| - 1];
      RunsOfConcat(a, front);
      RunsOfOneMore(front, last);
      RunsOfOneMore(a + front, last);
      assert b == front + [last] && a + b == (a + front) + [last];
      Associative(RunsOf(a), RunsOf(front), last.runs);
    }
  }

  lemma PageCovers(source: Source, c: Cursor, fromDate: Option<int>)
    requires c.Valid()
    ensures DoGetBuildTask(source, c, fromDate).Success?
    ensures Covered(source, fromDate, RunsOf(DoGetBuildTask(source, c, fromDate).value.edges),
                    c.Position(), c.Position() + c.perPage)
  {
    hide Print;
    var page := PageOf(source.runs, c);
    var edges := DoGetBuildTask(source, c, fromDate).value.edges;
    forall i | c.Position() <= i < c.Position() + c.perPage && i < |source.runs|
      ensures source.runs[i] in RunsOf(edges) || Earlier(source.runs[i], fromDate)
    {
      assert page[i - c.Position()] == source.runs[i];
      assert source.runs[i] in page;
      if edges != [] {
        assert edges[..0] == [];
        assert RunsOf(edges) == [] + edges[0].runs == page;
      }
    }
  }

  lemma CoveredConcat(source: Source, fromDate: Option<int>, a: seq<WorkflowRun>, b: seq<WorkflowRun>,
                      from: nat, mid: nat, to: nat)
    requires Covered(source, fromDate, a, from, mid) && Covered(source, fromDate, b, mid, to)
    ensures Covered(source, fromDate, a + b, from, to)
  {
  }

  lemma {:induction false} ParallelCovers(source: Source, c: Cursor, pages: nat, fromDate: Option<int>)
    requires c.Valid()
    ensures FetchNextPagesInParallel(pages, c, PageFactory(source, fromDate)).Success?
    ensures Covered(source, fromDate,
                    RunsOf(FetchNextPagesInParallel(pages, c, PageFactory(source, fromDate)).value.edges),
                    c.Position(), Ahead(c, pages).Position())
  {
    hide Print, MergeJiraPayload, DoGetBuildTask, Covered, Cursor.Position;
    if pages == 0 {
      assert Ahead(c, 0) == c;
      CoveredNowhere(source, fromDate, [], c.Position());
    } else {
      var last := Ahead(c, pages - 1);
      var fetch := PageFactory(source, fromDate);
      ParallelCovers(source, c, pages - 1, fromDate);
      PageCovers(source, last, fromDate);
      NextPagePosition(last);
      assert Ahead(last, 1) == Ahead(c, pages);
      assert fetch(last) == DoGetBuildTask(source, last, fromDate);
      var before := FetchNextPagesInParallel(pages - 1, c, fetch).value.edges;
      var page := fetch(last).value.edges;
      RunsOfConcat(before, page);
      CoveredConcat(source, fromDate, RunsOf(before), RunsOf(page),
                    c.Position(), last.Position(), Ahead(c, pages).Position());
    }
  }

  lemma CoveredNowhere(source: Source, fromDate: Option<int>, delivered: seq<WorkflowRun>, at: nat)
    ensures Covered(source, fromDate, delivered, at, at)
  {
  }

  lemma NextPagePosition(c: Cursor)
    requires c.Valid()
    ensures Ahead(c, 1).Position() == c.Position() + c.perPage
  {
  }

  lemma PositionGrows(c: Cursor, pages: nat)
    requires c.Valid()
    ensures Ahead(c, pages).Position() >= c.Position()
  {
    if pages > 0 {
      PagesApart(c.pageNo, Ahead(c, pages).pageNo, c.perPage);
    }
  }

  lemma LaterPagePosition(c: Cursor, pages: nat)
    requires c.Valid() && pages >= 1
    ensures Ahead(c, pages).Position() >= c.Position() + c.perPage
  {
    PagesApart(c.pageNo, Ahead(c, pages).pageNo, c.perPage);
  }

  /** What a message contributes: the pages it reads are `Cursor(perPage, pageNo)` up to the last non-empty one. */
  function Pages(flag: nat): nat {
    if flag <= 1 then 1 else flag
  }

  lemma FetchedFromValidCursor(source: Source, text: Option<string>, perPage: nat, flag: nat, fromDate: Option<int>)
    requires perPage >= 1 && GetBuildTask(source, text, perPage, flag, fromDate).Success?
    ensures Parse(text).Success? && Parse(text).value.Valid()
  {
    hide Parse, DoGetBuildTask, FetchNextPagesInParallel;
  }

  lemma TaskIsParallelFetch(source: Source, text: Option<string>, perPage: nat, flag: nat, fromDate: Option<int>)
    requires perPage >= 1 && Parse(text).Success? && Parse(text).value.Valid()
    ensures GetBuildTask(source, text, perPage, flag, fromDate) ==
            FetchNextPagesInParallel(Pages(flag), Scaled(Parse(text).value, perPage), PageFactory(source, fromDate))
  {
    hide Print, Parse, FetchNextPagesInParallel, DoGetBuildTask;
    ParallelOfOne(source, Scaled(Parse(text).value, perPage), fromDate);
  }

  // ---- What is sent ------------------------------------------------------------------------------------------------

  lemma {:induction false} TransformedConcat(source: Source, a: seq<WorkflowRun>, b: seq<WorkflowRun>)
    ensures TransformedBuilds(source, a + b) == TransformedBuilds(source, a) + TransformedBuilds(source, b)
  {
    if a == [] {
      assert a + b == b;
    } else {
      TransformedConcat(source, a[1..], b);
      assert (a + b)[1..] == a[1..] + b;
    }
  }

  lemma PageSendsAll(source: Source, c: Cursor, fromDate: Option<int>)
    requires c.Valid()
    ensures var r := DoGetBuildTask(source, c, fromDate);
            r.Success? && BuildsOf(r.value.payload) == TransformedBuilds(source, RunsOf(r.value.edges))
  {
    hide Print;
    var edges := DoGetBuildTask(source, c, fromDate).value.edges;
    if edges != [] {
      assert edges[..0] == [];
      assert RunsOf(edges) == [] + edges[0].runs == edges[0].runs;
    }
  }

  lemma {:induction false} ParallelSendsAll(source: Source, c: Cursor, pages: nat, fromDate: Option<int>)
    requires c.Valid()
    ensures var r := FetchNextPagesInParallel(pages, c, PageFactory(source, fromDate));
            r.Success? && BuildsOf(r.value.payload) == TransformedBuilds(source, RunsOf(r.value.edges))
  {
    hide DoGetBuildTask, RunsOf, TransformedBuilds;
    if pages > 0 {
      var last, fetch := Ahead(c, pages - 1), PageFactory(source, fromDate);
      ParallelSendsAll(source, c, pages - 1, fromDate);
      PageSendsAll(source, last, fromDate);
      assert fetch(last) == DoGetBuildTask(source, last, fromDate);
      var before, page := FetchNextPagesInParallel(pages - 1, c, fetch).value.edges, fetch(last).value.edges;
      RunsOfConcat(before, page);
      TransformedConcat(source, RunsOf(before), RunsOf(page));
    } else {
      NothingToSend(source);
    }
  }

  lemma NothingToSend(source: Source)
    ensures TransformedBuilds(source, RunsOf([])) == []
  {
  }

  // Main result: what a message sends to Jira is made of the runs it hands over, of all of them and in their order.
  lemma MessageSendsAll(source: Source, text: Option<string>, perPage: nat, flag: nat, fromDate: Option<int>)
    requires perPage >= 1 && GetBuildTask(source, text, perPage, flag, fromDate).Success?
    ensures var r := GetBuildTask(source, text, perPage, flag, fromDate).value;
            BuildsOf(r.payload) == TransformedBuilds(source, RunsOf(r.edges))
  {
    hide GetBuildTask, FetchNextPagesInParallel, TransformedBuilds, RunsOf;
    FetchedFromValidCursor(source, text, perPage, flag, fromDate);
    TaskIsParallelFetch(source, text, perPage, flag, fromDate);
    ParallelSendsAll(source, Scaled(Parse(text).value, perPage), Pages(flag), fromDate);
  }

  // ---- Whole runs --------------------------------------------------------------------------------------------------

  /** The state of one build task between messages. */
  datatype Drive = Drive(text: Option<string>, delivered: seq<WorkflowRun>, complete: bool)

  /** One message, recorded the way `updateTaskStatusAndContinue` does. */
  function Message(source: Source, s: Drive, perPage: nat, flag: nat, fromDate: Option<int>): Drive
    requires perPage >= 1
  {
    var fetched := GetBuildTask(source, s.text, perPage, flag, fromDate);
    if s.complete || fetched.Failure? then s
    else
      var edges := fetched.value.edges;
      if edges == [] then s.(complete := true)
      else Drive(Some(edges[|edges| - 1].cursor), s.delivered + RunsOf(edges), false)
  }

  /** What is guaranteed between messages. */
  ghost predicate NothingSkipped(source: Source, s: Drive, fromDate: Option<int>) {
    && Parse(s.text).Success? && Parse(s.text).value.Valid()
    && Covered(source, fromDate, s.delivered, 0, Parse(s.text).value.Position())
    && (s.complete ==> Covered(source, fromDate, s.delivered, 0, |source.runs|))
  }

  /** The cursor and edges a message ends up with. */
  lemma MessageCursor(source: Source, text: Option<string>, perPage: nat, flag: nat, fromDate: Option<int>)
    requires perPage >= 1 && Parse(text).Success? && Parse(text).value.Valid()
    ensures GetBuildTask(source, text, perPage, flag, fromDate).Success?
    ensures var c := Scaled(Parse(text).value, perPage);
            var edges := GetBuildTask(source, text, perPage, flag, fromDate).value.edges;
            var n := LastNonEmpty(Pages(flag), c, PageFactory(source, fromDate));
            && (edges == [] <==> n == 0)
            && (n > 0 ==> Parse(Some(edges[|edges| - 1].cursor)) == Success(Ahead(c, n)))
            && Covered(source, fromDate, RunsOf(edges), c.Position(), Ahead(c, Pages(flag)).Position())
  {
    hide Print, Parse, FetchNextPagesInParallel, DoGetBuildTask, GetBuildTask, Serial;
    var c := Scaled(Parse(text).value, perPage);
    var fetch := PageFactory(source, fromDate);
    var n := LastNonEmpty(Pages(flag), c, fetch);
    TaskIsParallelFetch(source, text, perPage, flag, fromDate);
    BuildPagesAreSerial(source, fromDate);
    ParallelCovers(source, c, Pages(flag), fromDate);
    ParallelEdges(Pages(flag), c, fetch);
    SerialiseRoundTrip(Ahead(c, n));
  }

  /** Whoever asks for everything since `asked` gets everything since `since`. */
  predicate ReachesBack(asked: Option<int>, since: Option<int>) {
    asked.None? || (since.Some? && asked.value <= since.value)
  }

  /** Every run before the cursor was handed over, or predates `since`. */
  ghost predicate CursorCovered(source: Source, delivered: seq<WorkflowRun>, text: Option<string>, since: Option<int>) {
    && Parse(text).Success? && Parse(text).value.Valid()
    && Covered(source, since, delivered, 0, Parse(text).value.Position())
  }

  lemma CoveredSince(source: Source, asked: Option<int>, since: Option<int>, delivered: seq<WorkflowRun>,
                     from: nat, to: nat)
    requires ReachesBack(asked, since) && Covered(source, asked, delivered, from, to)
    ensures Covered(source, since, delivered, from, to)
  {
  }

  // Behind an unwanted page there is nothing that was not handed over before.
  lemma NothingHiddenFrom(source: Source, delivered: seq<WorkflowRun>, c: Cursor, asked: Option<int>,
                          since: Option<int>, i: nat)
    requires c.Valid() && c.Position() <= i < |source.runs| && ReachesBack(asked, since)
    requires OldRunsHideNothing(source.runs, asked) && !NonEmpty(c, PageFactory(source, asked))
    requires Covered(source, since, delivered, 0, c.Position())
    ensures source.runs[i] in delivered || Earlier(source.runs[i], since)
  {
    EmptyPageIff(source, c, asked);
    var first := c.Position();
    var page := PageOf(source.runs, c);
    assert page[0] == source.runs[first];
    assert page[0] in page;
    if first < i && !Earlier(source.runs[i], asked) {
      var m :| 0 <= m < first && source.runs[m] == source.runs[i];
    }
  }

  // One fetch, whatever the page size and the number of parallel pages, for a message that asks for runs since `asked`:
  // nothing is skipped of what anybody wants since a later date, and a fetch with edges moves strictly forward.
  lemma FetchSkipsNothing(source: Source, delivered: seq<WorkflowRun>, text: Option<string>, perPage: nat, flag: nat,
                          asked: Option<int>, since: Option<int>)
    requires perPage >= 1 && ReachesBack(asked, since) && OldRunsHideNothing(source.runs, asked)
    requires CursorCovered(source, delivered, text, since)
    ensures GetBuildTask(source, text, perPage, flag, asked).Success?
    ensures var edges := GetBuildTask(source, text, perPage, flag, asked).value.edges;
            if edges == [] then Covered(source, since, delivered, 0, |source.runs|)
            else var next := Some(edges[|edges| - 1].cursor);
                 && CursorCovered(source, delivered + RunsOf(edges), next, since)
                 && Parse(next).value.Position() > Parse(text).value.Position()
  {
    hide Print, Parse, GetBuildTask, DoGetBuildTask, NonEmpty, OldRunsHideNothing, Covered;
    var start := Parse(text).value;
    var c := Scaled(start, perPage);
    var fetch := PageFactory(source, asked);
    var n := LastNonEmpty(Pages(flag), c, fetch);
    MessageCursor(source, text, perPage, flag, asked);
    ScaleNeverSkips(start, perPage);
    var edges := GetBuildTask(source, text, perPage, flag, asked).value.edges;
    if n == 0 {
      assert Ahead(c, 0) == c;
      NothingLeftToHandOver(source, delivered, start, c, asked, since);
    } else {
      LaterPagePosition(c, n);
      if n < Pages(flag) {
        PagesApart(Ahead(c, n).pageNo, Ahead(c, Pages(flag)).pageNo, perPage);
      }
      CoveredSince(source, asked, since, RunsOf(edges), c.Position(), Ahead(c, Pages(flag)).Position());
      CoveredTogether(source, since, delivered, RunsOf(edges), start.Position(), c.Position(),
                      Ahead(c, Pages(flag)).Position(), Ahead(c, n).Position());
    }
  }

  lemma NothingLeftToHandOver(source: Source, delivered: seq<WorkflowRun>, start: Cursor, c: Cursor,
                              asked: Option<int>, since: Option<int>)
    requires start.Valid() && c.Valid() && c.Position() <= start.Position()
    requires ReachesBack(asked, since) && OldRunsHideNothing(source.runs, asked)
    requires Covered(source, since, delivered, 0, start.Position()) && !NonEmpty(c, PageFactory(source, asked))
    ensures Covered(source, since, delivered, 0, |source.runs|)
  {
    hide NonEmpty, OldRunsHideNothing;
    forall i | 0 <= i < |source.runs|
      ensures source.runs[i] in delivered || Earlier(source.runs[i], since)
    {
      if i >= start.Position() {
        NothingHiddenFrom(source, delivered, c, asked, since, i);
      }
    }
  }

  lemma CoveredTogether(source: Source, since: Option<int>, a: seq<WorkflowRun>, b: seq<WorkflowRun>,
                        upTo: nat, from: nat, to: nat, end: nat)
    requires Covered(source, since, a, 0, upTo) && Covered(source, since, b, from, to)
    requires from <= upTo && end <= to
    ensures Covered(source, since, a + b, 0, end)
  {
  }

  // Main result, one message: whatever the page size and the number of parallel pages, nothing is skipped, and a
  // message that does not complete the task moves the position strictly forward.
  lemma MessageSkipsNothing(source: Source, s: Drive, perPage: nat, flag: nat, fromDate: Option<int>)
    requires perPage >= 1 && NothingSkipped(source, s, fromDate)
    requires OldRunsHideNothing(source.runs, fromDate)
    ensures var t := Message(source, s, perPage, flag, fromDate);
            && NothingSkipped(source, t, fromDate)
            && (!t.complete ==> Parse(t.text).value.Position() > Parse(s.text).value.Position())
  {
    hide Parse, GetBuildTask, Covered, OldRunsHideNothing;
    if !s.complete {
      FetchSkipsNothing(source, s.delivered, s.text, perPage, flag, fromDate, fromDate);
    }
  }

  /** The page size and the flag of every message. */
  ghost predicate PageSizesPositive(settings: seq<(nat, nat)>) {
    forall x | x in settings :: x.0 >= 1
  }

  /** Any number of messages, each with its own page size and flag. */
  ghost function DriveAll(source: Source, s: Drive, settings: seq<(nat, nat)>, fromDate: Option<int>): Drive
    requires PageSizesPositive(settings)
  {
    if settings == [] then s
    else
      var before := DriveAll(source, s, settings[..|settings| - 1], fromDate);
      var (perPage, flag) := settings[|settings| - 1];
      assert settings[|settings| - 1] in settings;
      Message(source, before, perPage, flag, fromDate)
  }

  // Main result, whole runs: page sizes may change at every message and no run is ever lost; when the task is complete,
  // every run of the repository has been handed over, except those older than the requested from-date.
  lemma {:induction false} NoDataLoss(source: Source, s: Drive, settings: seq<(nat, nat)>, fromDate: Option<int>)
    requires PageSizesPositive(settings) && OldRunsHideNothing(source.runs, fromDate)
    requires NothingSkipped(source, s, fromDate)
    ensures NothingSkipped(source, DriveAll(source, s, settings, fromDate), fromDate)
  {
    hide Parse, Message, Covered, OldRunsHideNothing;
    if settings != [] {
      var last := settings[|settings| - 1];
      assert last in settings;
      NoDataLoss(source, s, settings[..|settings| - 1], fromDate);
      MessageSkipsNothing(source, DriveAll(source, s, settings[..|settings| - 1], fromDate), last.0, last.1, fromDate);
    }
  }

  const START := Drive(None, [], false)

  /** `n` messages of one run each. */
  function OneByOne(n: nat): (settings: seq<(nat, nat)>)
    ensures |settings| == n && forall x | x in settings :: x == (1, 0)
  {
    if n == 0 then [] else OneByOne(n - 1) + [(1, 0)]
  }

  lemma OneMoreMessage(source: Source, n: nat, fromDate: Option<int>)
    ensures DriveAll(source, START, OneByOne(n + 1), fromDate)
            == Message(source, DriveAll(source, START, OneByOne(n), fromDate), 1, 0, fromDate)
  {
    hide Message;
    assert OneByOne(n + 1)[..n] == OneByOne(n);
  }

  lemma OneRunMessage(source: Source, s: Drive, k: nat, fromDate: Option<int>)
    requires k < |source.runs| && !s.complete
    requires Parse(s.text).Success? && Parse(s.text).value.Valid() && Scaled(Parse(s.text).value, 1) == Cursor(1, k + 1)
    ensures var t := Message(source, s, 1, 0, fromDate);
            if Earlier(source.runs[k], fromDate) then t == s.(complete := true)
            else t == Drive(Some(Print(Cursor(1, k + 2))), s.delivered + [source.runs[k]], false)
  {
    hide Print, Parse, FetchNextPagesInParallel, DoGetBuildTask;
    OneRunPage(source, k, fromDate);
  }

  lemma OneRunPage(source: Source, k: nat, fromDate: Option<int>)
    requires k < |source.runs|
    ensures var r := DoGetBuildTask(source, Cursor(1, k + 1), fromDate);
            && r.Success?
            && (if Earlier(source.runs[k], fromDate) then r.value.edges == []
                else && r.value.edges != []
                     && r.value.edges[|r.value.edges| - 1].cursor == Print(Cursor(1, k + 2))
                     && RunsOf(r.value.edges) == [source.runs[k]])
  {
    hide Print, PageOf, TransformedBuilds, RunsOf;
    var run := source.runs[k];
    OneRunSlice(source.runs, k);
    assert run in [run];
    RunsOfOneMore([], Edge(Print(Cursor(1, k + 2)), [run]));
    assert [] + [Edge(Print(Cursor(1, k + 2)), [run])] == [Edge(Print(Cursor(1, k + 2)), [run])];
    NoRuns();
  }

  lemma OneRunSlice(runs: seq<WorkflowRun>, k: nat)
    requires k < |runs|
    ensures PageOf(runs, Cursor(1, k + 1)) == [runs[k]]
  {
  }

  lemma NoRuns()
    ensures RunsOf([]) == []
  {
  }

  lemma NoMessageYet(source: Source, fromDate: Option<int>)
    ensures DriveAll(source, START, OneByOne(0), fromDate) == START
    ensures Parse(START.text) == Success(Cursor(20, 1)) && Scaled(Cursor(20, 1), 1) == Cursor(1, 1)
  {
  }

  // As long as no run is too old, messages of one run each hand over one run after the other.
  lemma {:induction false} OneByOneDelivers(source: Source, n: nat, fromDate: Option<int>)
    requires n <= |source.runs| && forall k | 0 <= k < n :: !Earlier(source.runs[k], fromDate)
    ensures var s := DriveAll(source, START, OneByOne(n), fromDate);
            && !s.complete && s.delivered == source.runs[..n]
            && Parse(s.text).Success? && Parse(s.text).value.Valid()
                 && Scaled(Parse(s.text).value, 1) == Cursor(1, n + 1)
  {
    hide Print, Message, Parse, DriveAll;
    if n == 0 {
      NoMessageYet(source, fromDate);
    } else {
      OneByOneDelivers(source, n - 1, fromDate);
      OneMoreMessage(source, n - 1, fromDate);
      OneRunMessage(source, DriveAll(source, START, OneByOne(n - 1), fromDate), n - 1, fromDate);
      SerialiseRoundTrip(Cursor(1, n + 1));
      assert source.runs[..n] == source.runs[..n - 1] + [source.runs[n - 1]];
    }
  }

  /** `i` is the first run that is too old. */
  ghost predicate IsFirstOld(runs: seq<WorkflowRun>, fromDate: Option<int>, i: nat) {
    i < |runs| && Earlier(runs[i], fromDate) && forall k | 0 <= k < i :: !Earlier(runs[k], fromDate)
  }

  lemma {:induction false} FirstOld(runs: seq<WorkflowRun>, fromDate: Option<int>, i: nat) returns (first: nat)
    requires i < |runs| && Earlier(runs[i], fromDate)
    ensures first <= i && IsFirstOld(runs, fromDate, first)
  {
    if k :| 0 <= k < i && Earlier(runs[k], fromDate) {
      first := FirstOld(runs, fromDate, k);
    } else {
      first := i;
    }
  }

  // A wanted run that only stands behind one that is too old is lost.
  lemma HiddenRunIsLost(source: Source, fromDate: Option<int>, i: nat, j: nat)
    requires i < j < |source.runs| && Earlier(source.runs[i], fromDate) && !Earlier(source.runs[j], fromDate)
    requires source.runs[j] !in source.runs[..i]
    ensures exists n: nat :: !NothingSkipped(source, DriveAll(source, START, OneByOne(n), fromDate), fromDate)
  {
    hide Parse, Message, Print, DriveAll;
    var first := FirstOld(source.runs, fromDate, i);
    OneByOneDelivers(source, first, fromDate);
    OneMoreMessage(source, first, fromDate);
    var s := DriveAll(source, START, OneByOne(first), fromDate);
    OneRunMessage(source, s, first, fromDate);
    var t := DriveAll(source, START, OneByOne(first + 1), fromDate);
    assert t == s.(complete := true);
    if source.runs[j] in t.delivered {
      PrefixContains(source.runs, first, i, source.runs[j]);
    }
    assert !Covered(source, fromDate, t.delivered, 0, |source.runs|);
    assert !NothingSkipped(source, t, fromDate);
  }

  lemma PrefixContains(runs: seq<WorkflowRun>, m: nat, n: nat, run: WorkflowRun)
    requires m <= n <= |runs|
    ensures run in runs[..m] ==> run in runs[..n]
  {
    if run in runs[..m] {
      var k :| 0 <= k < m && runs[k] == run;
      assert runs[..n][k] == run;
    }
  }

  // Main result: whatever the page sizes and flags, no run is lost from the start on, if and only if every wanted run
  // behind one that is too old is listed in front of it, too; for a list without repetition: if the runs that are too
  // old come last.
  lemma NothingLostExactly(source: Source, fromDate: Option<int>)
    ensures (forall settings | PageSizesPositive(settings) ::
               NothingSkipped(source, DriveAll(source, START, settings, fromDate), fromDate))
            <==> OldRunsHideNothing(source.runs, fromDate)
  {
    hide NothingSkipped, DriveAll;
    StartSkipsNothing(source, fromDate);
    if OldRunsHideNothing(source.runs, fromDate) {
      forall settings | PageSizesPositive(settings)
        ensures NothingSkipped(source, DriveAll(source, START, settings, fromDate), fromDate)
      {
        NoDataLoss(source, START, settings, fromDate);
      }
    } else {
      var i, j :| 0 <= i < j < |source.runs| && Earlier(source.runs[i], fromDate) && !Earlier(source.runs[j], fromDate)
                  && source.runs[j] !in source.runs[..i];
      HiddenRunIsLost(source, fromDate, i, j);
      var n: nat :| !NothingSkipped(source, DriveAll(source, START, OneByOne(n), fromDate), fromDate);
      assert PageSizesPositive(OneByOne(n));
    }
  }

  // A task starts without a cursor, or with a page number left by the version that always used 20 per page.
  lemma StartSkipsNothing(source: Source, fromDate: Option<int>)
    ensures NothingSkipped(source, Drive(None, [], false), fromDate)
  {
  }

  // ---- A build task is a finite source -----------------------------------------------------------------------------

  /** GitHub caps a page at 100 items; a rescaled cursor can lie up to one page past the end of the list. */
  const MAX_PAGE_SIZE := 100

  function Left(source: Source, text: Option<string>): nat {
    var parsed := Parse(text);
    if parsed.Failure? || !parsed.value.Valid() then 0
    else
      var bound := |source.runs| + MAX_PAGE_SIZE;
      if parsed.value.Position() < bound then bound - parsed.value.Position() else 0
  }

  // A page with edges brings the task strictly nearer to its end. The number of unread items does not have this
  // property: after a change of page size a cursor can lie past the last item and still lead to a non-empty page.
  lemma FetchMakesProgress(source: Source, text: Option<string>, perPage: nat, flag: nat, fromDate: Option<int>)
    requires 1 <= perPage <= MAX_PAGE_SIZE
    ensures var fetched := GetBuildTask(source, text, perPage, flag, fromDate);
            fetched.Success? && fetched.value.edges != [] ==>
              Left(source, Some(fetched.value.edges[|fetched.value.edges| - 1].cursor)) < Left(source, text)
  {
    hide Print, Parse, GetBuildTask, PageFactory, Covered, Cursor.Position, NonEmpty;
    var parsed := Parse(text);
    if GetBuildTask(source, text, perPage, flag, fromDate).Success? {
      FetchedFromValidCursor(source, text, perPage, flag, fromDate);
      var c := Scaled(parsed.value, perPage);
      var fetch := PageFactory(source, fromDate);
      var n := LastNonEmpty(Pages(flag), c, fetch);
      MessageCursor(source, text, perPage, flag, fromDate);
      ScaleNeverSkips(parsed.value, perPage);
      if n > 0 {
        LaterPagePosition(c, n);
        NonEmptyPageStartsInside(source, Ahead(c, n - 1), fromDate);
        PositionGrows(c, n - 1);
      }
    }
  }

  lemma NonEmptyPageStartsInside(source: Source, c: Cursor, fromDate: Option<int>)
    requires c.Valid() && NonEmpty(c, PageFactory(source, fromDate))
    ensures c.Position() < |source.runs|
  {
    EmptyPageIff(source, c, fromDate);
  }
}
