/**
 * The job's control flow as values: the page loop of one survey, driven by the
 * page number and page count the service reports, and the loop over the
 * configured surveys. The service is an oracle from request to reply; waits
 * are recorded in a trace instead of being slept.
 */
module Sync {
  import opened Wrappers
  import opened Text
  import opened Rock
  import opened Dto
  import opened Config
  import opened Query
  import opened Mapping

  /** The service's answer to a request: a parsed page, or a status other than
      OK with its status name and description (a network failure is one too). */
  datatype Reply = Ok(body: SurveyApiResponse) | NotOk(status: string, description: string)

  /** What the job does that can be observed from outside, in order. */
  datatype Event =
    | Wait(milliseconds: int)          // the pause before a page other than page 1
    | Get(request: Request)            // one request sent to the service
    | SurveyDone(processed: nat)       // a survey's page loop ended normally

  /** What one run is given besides the store and the trace. */
  datatype Inputs = Inputs(cfg: JobConfig, env: Environment, server: Request -> Reply, cutoff: string)

  /** The state a survey's page loop carries: the store, the trace and the
      survey's count of responses iterated. */
  datatype Run = Run(people: Store, trace: seq<Event>, processed: nat)

  /** How a survey's page loop ended: normally, on a reply other than OK (the
      exception's message), or because the bound on fetches ran out. */
  datatype PageStatus = Done | Abort(message: string) | Exhausted

  datatype SurveyEnd = SurveyEnd(run: Run, status: PageStatus)

  /** The request for one page of one survey in this run. */
  function PageRequest(inp: Inputs, surveyId: int, page: int): Request {
    BuildRequest(inp.cfg, surveyId, page, inp.cutoff)
  }

  /** The trace after asking for `page`: a wait first unless it is page 1. */
  function StepTrace(inp: Inputs, surveyId: int, trace: seq<Event>, page: int): seq<Event> {
    trace + (if page != 1 then [Wait(Delay(inp.cfg.requestsPerMinute))] else []) + [Get(PageRequest(inp, surveyId, page))]
  }

  /** The state after processing every response of a fetched page, in order. */
  function AfterPage(inp: Inputs, ctx: SurveyContext, run: Run, trace: seq<Event>, body: SurveyApiResponse): Run {
    Run(ApplyAll(run.people, inp.env, ctx, body.surveyResults), trace, run.processed + |body.surveyResults|)
  }

  /**
   * The page loop from `currentPage` and `totalPages` on, with at most `fuel`
   * more fetches: while `currentPage < totalPages`, wait unless on page 1,
   * fetch, stop on a reply other than OK, otherwise process every response and
   * continue from the page after the reported one with the reported count.
   */
  function Pages(inp: Inputs, ctx: SurveyContext, surveyId: int, run: Run,
                 currentPage: int, totalPages: int, fuel: nat): SurveyEnd
    decreases fuel
  {
    if currentPage >= totalPages then SurveyEnd(run, Done)
    else if fuel == 0 then SurveyEnd(run, Exhausted)
    else
      var trace := StepTrace(inp, surveyId, run.trace, currentPage);
      match inp.server(PageRequest(inp, surveyId, currentPage))
      case NotOk(status, description) =>
        SurveyEnd(Run(run.people, trace, run.processed), Abort(status + ": " + description))
      case Ok(body) =>
        Pages(inp, ctx, surveyId, AfterPage(inp, ctx, run, trace, body), body.page + 1, body.totalPages, fuel - 1)
  }

  /** A survey's page loop as the job starts it: page 1 of a provisional 2. */
  function SurveyPages(inp: Inputs, ctx: SurveyContext, surveyId: int, people: Store, trace: seq<Event>,
                       fuel: nat): SurveyEnd
  {
    Pages(inp, ctx, surveyId, Run(people, trace, 0), 1, 2, fuel)
  }

  /** The message of the exception `int?.Value` throws on null. */
  const NullValueMessage: string := "Nullable object must have a value."

  /** How a run ended. A failure is an exception escaping the job. */
  datatype Outcome = NotConfigured | NoSurveys | Completed | Failed(message: string) | OutOfFuel

  datatype State = State(people: Store, trace: seq<Event>)

  /**
   * The configured surveys in order. A survey id that does not parse fails the
   * run; so does a survey whose page loop aborts; later surveys are not
   * touched.
   */
  function Surveys(inp: Inputs, st: State, surveys: seq<DefinedValue>, fuel: nat): (State, Outcome)
    decreases |surveys|
  {
    if surveys == [] then (st, Completed)
    else
      var ctx := ResolveSurvey(inp.env, surveys[0]);
      match inp.env.parsers.asInteger(surveys[0].value)
      case None => (st, Failed(NullValueMessage))
      case Some(id) =>
        var e := SurveyPages(inp, ctx, id, st.people, st.trace, fuel);
        match e.status
        case Done => Surveys(inp, State(e.run.people, e.run.trace + [SurveyDone(e.run.processed)]), surveys[1..], fuel)
        case Abort(message) => (State(e.run.people, e.run.trace), Failed(message))
        case Exhausted => (State(e.run.people, e.run.trace), OutOfFuel)
  }

  /**
   * A whole run: the configuration guard, the "no surveys" case, then the
   * surveys. `dateBefore(n)` is today's date minus `n` days as `yyyy-MM-dd`.
   */
  function JobRun(settings: Settings, env: Environment, server: Request -> Reply, dateBefore: int -> string,
                  st: State, surveys: seq<DefinedValue>, fuel: nat): (State, Outcome)
  {
    var cfg := Normalize(settings, env.parsers.asInteger);
    if !ConfigOk(cfg) then (st, NotConfigured)
    else if surveys == [] then (st, NoSurveys)
    else Surveys(Inputs(cfg, env, server, dateBefore(cfg.daysBack)), st, surveys, fuel)
  }

  // ----- the configuration guard -----

  /** Without a token, a secret and a base URL that have text, nothing happens:
      no request, no wait, no write. */
  lemma NotConfiguredDoesNothing(settings: Settings, env: Environment, server: Request -> Reply,
                                 dateBefore: int -> string, st: State, surveys: seq<DefinedValue>, fuel: nat)
    ensures var (st', outcome) := JobRun(settings, env, server, dateBefore, st, surveys, fuel);
      (outcome == NotConfigured <==> !ConfigOk(Normalize(settings, env.parsers.asInteger)))
      && (outcome == NotConfigured ==> st' == st)
  {
    var cfg := Normalize(settings, env.parsers.asInteger);
    if ConfigOk(cfg) && surveys != [] {
      SurveysNeverNotConfigured(Inputs(cfg, env, server, dateBefore(cfg.daysBack)), st, surveys, fuel);
    }
  }

  lemma {:induction false} SurveysNeverNotConfigured(inp: Inputs, st: State, surveys: seq<DefinedValue>, fuel: nat)
    ensures Surveys(inp, st, surveys, fuel).1 != NotConfigured
    decreases |surveys|
  {
    if surveys != [] {
      match inp.env.parsers.asInteger(surveys[0].value)
      case None =>
      case Some(id) =>
        var e := SurveyPages(inp, ResolveSurvey(inp.env, surveys[0]), id, st.people, st.trace, fuel);
        if e.status == Done {
          SurveysNeverNotConfigured(inp, State(e.run.people, e.run.trace + [SurveyDone(e.run.processed)]),
                                    surveys[1..], fuel);
        }
    }
  }

  // ----- what every page loop does, whatever the server answers -----

  /** The number of responses the server hands over for one event: those of an
      OK reply to a request, none otherwise. */
  function EventServed(server: Request -> Reply, ev: Event): nat {
    match ev
    case Get(request) => (match server(request) case Ok(body) => |body.surveyResults| case NotOk(_, _) => 0)
    case _ => 0
  }

  /** The number of responses the server handed over for the requests in a trace. */
  function ResponsesServed(server: Request -> Reply, trace: seq<Event>): nat {
    if trace == [] then 0 else EventServed(server, trace[0]) + ResponsesServed(server, trace[1..])
  }

  lemma {:induction false} ServedAppend(server: Request -> Reply, t1: seq<Event>, t2: seq<Event>)
    ensures ResponsesServed(server, t1 + t2) == ResponsesServed(server, t1) + ResponsesServed(server, t2)
  {
    if t1 == [] {
      assert t1 + t2 == t2;
    } else {
      assert (t1 + t2)[0] == t1[0];
      assert (t1 + t2)[1..] == t1[1..] + t2;
      ServedAppend(server, t1[1..], t2);
    }
  }

  /** One step of the loop adds the responses of the page it asked for. */
  lemma StepServed(inp: Inputs, surveyId: int, trace: seq<Event>, page: int)
    ensures ResponsesServed(inp.server, StepTrace(inp, surveyId, trace, page))
         == ResponsesServed(inp.server, trace) + EventServed(inp.server, Get(PageRequest(inp, surveyId, page)))
  {
    var step := StepTrace(inp, surveyId, [], page);
    StepTraceFrom(inp, surveyId, trace, page);
    ServedAppend(inp.server, trace, step);
    var get := Get(PageRequest(inp, surveyId, page));
    if page != 1 {
      assert step[1..] == [get] && [get][1..] == [];
      assert ResponsesServed(inp.server, [get]) == EventServed(inp.server, get);
    } else {
      assert step == [get] && step[1..] == [];
    }
  }

  /** A page loop only appends to the trace and keeps the set of people. */
  lemma {:induction false} PagesExtend(inp: Inputs, ctx: SurveyContext, surveyId: int, run: Run,
                                       currentPage: int, totalPages: int, fuel: nat)
    ensures var e := Pages(inp, ctx, surveyId, run, currentPage, totalPages, fuel);
      run.trace <= e.run.trace && e.run.people.Keys == run.people.Keys
    decreases fuel
  {
    if currentPage < totalPages && fuel > 0 {
      var trace := StepTrace(inp, surveyId, run.trace, currentPage);
      match inp.server(PageRequest(inp, surveyId, currentPage))
      case NotOk(_, _) =>
      case Ok(body) =>
        PagesExtend(inp, ctx, surveyId, AfterPage(inp, ctx, run, trace, body), body.page + 1, body.totalPages, fuel - 1);
    }
  }

  /**
   * A survey's count grows by exactly the number of responses on the pages it
   * fetched: every response is counted, whether or not it resolved to a person.
   */
  lemma {:induction false} PagesCountEveryResponse(inp: Inputs, ctx: SurveyContext, surveyId: int, run: Run,
                                                   currentPage: int, totalPages: int, fuel: nat)
    ensures var e := Pages(inp, ctx, surveyId, run, currentPage, totalPages, fuel);
      e.run.processed + ResponsesServed(inp.server, run.trace) == run.processed + ResponsesServed(inp.server, e.run.trace)
    decreases fuel
  {
    if currentPage < totalPages && fuel > 0 {
      var reply := inp.server(PageRequest(inp, surveyId, currentPage));
      if reply.Ok? {
        var next := AfterPage(inp, ctx, run, StepTrace(inp, surveyId, run.trace, currentPage), reply.body);
        PagesCountEveryResponse(inp, ctx, surveyId, next, reply.body.page + 1, reply.body.totalPages, fuel - 1);
        CountOkStep(inp, ctx, surveyId, run, currentPage, totalPages, fuel);
      } else {
        StepServed(inp, surveyId, run.trace, currentPage);
      }
    }
  }

  /** The counting argument for one page answered OK, given it for the rest of the loop. */
  lemma CountOkStep(inp: Inputs, ctx: SurveyContext, surveyId: int, run: Run, p: int, t: int, fuel: nat)
    requires p < t && fuel > 0 && inp.server(PageRequest(inp, surveyId, p)).Ok?
    requires var body := inp.server(PageRequest(inp, surveyId, p)).body;
      var next := AfterPage(inp, ctx, run, StepTrace(inp, surveyId, run.trace, p), body);
      var e := Pages(inp, ctx, surveyId, next, body.page + 1, body.totalPages, fuel - 1);
      e.run.processed + ResponsesServed(inp.server, next.trace) == next.processed + ResponsesServed(inp.server, e.run.trace)
    ensures var e := Pages(inp, ctx, surveyId, run, p, t, fuel);
      e.run.processed + ResponsesServed(inp.server, run.trace) == run.processed + ResponsesServed(inp.server, e.run.trace)
  {
    StepServed(inp, surveyId, run.trace, p);
    PagesOk(inp, ctx, surveyId, run, p, t, fuel);
  }

  /** The first thing a survey does is request page 1, without waiting. */
  lemma FirstRequestWithoutWait(inp: Inputs, ctx: SurveyContext, surveyId: int, people: Store,
                                trace: seq<Event>, fuel: nat)
    requires fuel >= 1
    ensures var e := SurveyPages(inp, ctx, surveyId, people, trace, fuel);
      |e.run.trace| > |trace| && e.run.trace[..|trace| + 1] == trace + [Get(PageRequest(inp, surveyId, 1))]
  {
    var first := StepTrace(inp, surveyId, trace, 1);
    assert first == trace + [Get(PageRequest(inp, surveyId, 1))];
    var e := SurveyPages(inp, ctx, surveyId, people, trace, fuel);
    match inp.server(PageRequest(inp, surveyId, 1))
    case NotOk(_, _) =>
    case Ok(body) =>
      PagesExtend(inp, ctx, surveyId, AfterPage(inp, ctx, Run(people, trace, 0), first, body),
                  body.page + 1, body.totalPages, fuel - 1);
  }

  // ----- a server that echoes the requested page and reports a fixed count -----

  /** The server answers every request with the page it asked for and a page count of `n`. */
  ghost predicate Echoes(server: Request -> Reply, n: int) {
    forall request {:trigger PageOf(request)} :: PageOf(request).Some? ==>
      server(request).Ok? && server(request).body.page == PageOf(request).value && server(request).body.totalPages == n
  }

  /** The events of fetching pages `p` to `last` in order, each but page 1 after a wait. */
  function PageEvents(inp: Inputs, surveyId: int, p: int, last: int): seq<Event>
    decreases last - p
  {
    if p > last then []
    else StepTrace(inp, surveyId, [], p) + PageEvents(inp, surveyId, p + 1, last)
  }

  lemma {:induction false} EchoFrom(inp: Inputs, ctx: SurveyContext, surveyId: int, run: Run,
                                    p: int, t: int, n: int, fuel: nat)
    requires Echoes(inp.server, n)
    requires p >= 1 && t >= p + 1 && fuel >= (if n - 1 > p then n - 1 else p) - p + 1
    ensures var e := Pages(inp, ctx, surveyId, run, p, t, fuel);
      e.status == Done && e.run.trace == run.trace + PageEvents(inp, surveyId, p, if n - 1 > p then n - 1 else p)
    decreases fuel
  {
    EchoStep(inp, ctx, surveyId, run, p, t, n, fuel);
    var body := inp.server(PageRequest(inp, surveyId, p)).body;
    var next := AfterPage(inp, ctx, run, StepTrace(inp, surveyId, run.trace, p), body);
    var last := if n - 1 > p then n - 1 else p;
    var step, rest := StepTrace(inp, surveyId, [], p), PageEvents(inp, surveyId, p + 1, last);
    StepTraceFrom(inp, surveyId, run.trace, p);
    PageEventsFirst(inp, surveyId, p, last);
    var e := Pages(inp, ctx, surveyId, next, p + 1, n, fuel - 1);
    if p + 1 < n {
      EchoFrom(inp, ctx, surveyId, next, p + 1, n, n, fuel - 1);
    } else {
      assert e == SurveyEnd(next, Done);
      assert rest == [];
    }
    assert e.run.trace == (run.trace + step) + rest;
    AppendAssociative(run.trace, step, rest);
  }


  lemma PageEventsFirst(inp: Inputs, surveyId: int, p: int, last: int)
    requires p <= last
    ensures PageEvents(inp, surveyId, p, last) == StepTrace(inp, surveyId, [], p) + PageEvents(inp, surveyId, p + 1, last)
  {
  }

  /** With an echoing server, one turn of the loop continues from the next page with the count `n`. */
  lemma EchoStep(inp: Inputs, ctx: SurveyContext, surveyId: int, run: Run, p: int, t: int, n: int, fuel: nat)
    requires Echoes(inp.server, n) && p < t && fuel > 0
    ensures inp.server(PageRequest(inp, surveyId, p)).Ok?
    ensures var body := inp.server(PageRequest(inp, surveyId, p)).body;
      Pages(inp, ctx, surveyId, run, p, t, fuel)
      == Pages(inp, ctx, surveyId, AfterPage(inp, ctx, run, StepTrace(inp, surveyId, run.trace, p), body),
               p + 1, n, fuel - 1)
  {
    PageOfRequest(inp.cfg, surveyId, p, inp.cutoff);
    PagesOk(inp, ctx, surveyId, run, p, t, fuel);
  }

  /** A step's events do not depend on the trace before them. */
  lemma StepTraceFrom(inp: Inputs, surveyId: int, trace: seq<Event>, page: int)
    ensures StepTrace(inp, surveyId, trace, page) == trace + StepTrace(inp, surveyId, [], page)
  {
  }

  /** One turn of the loop when the page is below the count, fuel is left and the reply is OK. */
  lemma PagesOk(inp: Inputs, ctx: SurveyContext, surveyId: int, run: Run, p: int, t: int, fuel: nat)
    requires p < t && fuel > 0 && inp.server(PageRequest(inp, surveyId, p)).Ok?
    ensures var body := inp.server(PageRequest(inp, surveyId, p)).body;
      Pages(inp, ctx, surveyId, run, p, t, fuel)
      == Pages(inp, ctx, surveyId, AfterPage(inp, ctx, run, StepTrace(inp, surveyId, run.trace, p), body),
               body.page + 1, body.totalPages, fuel - 1)
  {
  }

  /** The number of requests in a trace. */
  function Gets(trace: seq<Event>): nat {
    if trace == [] then 0 else (if trace[0].Get? then 1 else 0) + Gets(trace[1..])
  }

  /** The number of waits in a trace. */
  function Waits(trace: seq<Event>): nat {
    if trace == [] then 0 else (if trace[0].Wait? then 1 else 0) + Waits(trace[1..])
  }

  lemma {:induction false} CountsAppend(t1: seq<Event>, t2: seq<Event>)
    ensures Gets(t1 + t2) == Gets(t1) + Gets(t2)
    ensures Waits(t1 + t2) == Waits(t1) + Waits(t2)
  {
    if t1 == [] {
      assert t1 + t2 == t2;
    } else {
      assert (t1 + t2)[0] == t1[0];
      assert (t1 + t2)[1..] == t1[1..] + t2;
      CountsAppend(t1[1..], t2);
    }
  }

  /** Fetching pages `p` to `last` sends one request per page and waits before all but page 1. */
  lemma {:induction false} PageEventsCount(inp: Inputs, surveyId: int, p: int, last: int)
    requires p >= 1
    ensures Gets(PageEvents(inp, surveyId, p, last)) == if p > last then 0 else last - p + 1
    ensures Waits(PageEvents(inp, surveyId, p, last)) == if p > last then 0 else last - p + 1 - (if p == 1 then 1 else 0)
    decreases last - p
  {
    if p <= last {
      var step := StepTrace(inp, surveyId, [], p);
      PageEventsCount(inp, surveyId, p + 1, last);
      CountsAppend(step, PageEvents(inp, surveyId, p + 1, last));
      if p != 1 {
        assert step[1..][1..] == [];
      } else {
        assert step[1..] == [];
      }
    }
  }

  /**
   * When the server echoes the requested page and always reports `n` pages, a
   * survey fetches pages 1 to max(1, n - 1) in order, waiting before each but
   * the first, and ends normally: max(1, n - 1) requests and one wait fewer.
   */
  lemma EchoPageCount(inp: Inputs, ctx: SurveyContext, surveyId: int, people: Store, trace: seq<Event>,
                      n: int, fuel: nat)
    requires Echoes(inp.server, n)
    requires fuel >= (if n - 1 > 1 then n - 1 else 1)
    ensures var e := SurveyPages(inp, ctx, surveyId, people, trace, fuel);
      var k := if n - 1 > 1 then n - 1 else 1;
      && e.status == Done
      && e.run.trace == trace + PageEvents(inp, surveyId, 1, k)
      && Gets(e.run.trace[|trace|..]) == k
      && Waits(e.run.trace[|trace|..]) == k - 1
  {
    var k := if n - 1 > 1 then n - 1 else 1;
    EchoFrom(inp, ctx, surveyId, Run(people, trace, 0), 1, 2, n, fuel);
    var e := SurveyPages(inp, ctx, surveyId, people, trace, fuel);
    assert e.run.trace[|trace|..] == PageEvents(inp, surveyId, 1, k);
    PageEventsCount(inp, surveyId, 1, k);
  }

  /**
   * The strict comparison in the loop condition: of pages 1 to `last` + 1, the
   * loop that fetched pages up to `last` never requested page `last` + 1, so
   * with `n` >= 2 echoed pages page `n` is never fetched.
   */
  lemma {:induction false} LastPageNeverRequested(inp: Inputs, surveyId: int, p: int, last: int)
    requires p >= 1
    ensures Get(PageRequest(inp, surveyId, last + 1)) !in PageEvents(inp, surveyId, p, last)
    decreases last - p
  {
    if p <= last {
      RequestsDistinct(inp.cfg, surveyId, p, surveyId, last + 1, inp.cutoff);
      LastPageNeverRequested(inp, surveyId, p + 1, last);
    }
  }

  /**
   * The strict comparison in the loop condition, for a whole survey: against a
   * service that echoes the page and reports `n` >= 2 pages, page `n` is never
   * requested.
   */
  lemma EchoLastPageNeverFetched(inp: Inputs, ctx: SurveyContext, surveyId: int, people: Store,
                                 trace: seq<Event>, n: int, fuel: nat)
    requires Echoes(inp.server, n) && n >= 2 && fuel >= n - 1
    ensures var e := SurveyPages(inp, ctx, surveyId, people, trace, fuel);
      |trace| <= |e.run.trace| && Get(PageRequest(inp, surveyId, n)) !in e.run.trace[|trace|..]
  {
    EchoPageCount(inp, ctx, surveyId, people, trace, n, fuel);
    LastPageNeverRequested(inp, surveyId, 1, n - 1);
  }

  // ----- failures -----

  /**
   * A reply other than OK on page 2 ends the survey with the writes of page 1
   * kept and the exception's message "<status>: <description>".
   */
  lemma FailureKeepsEarlierPages(inp: Inputs, ctx: SurveyContext, surveyId: int, people: Store,
                                 trace: seq<Event>, fuel: nat)
    requires fuel >= 2
    requires var r1 := inp.server(PageRequest(inp, surveyId, 1));
      r1.Ok? && r1.body.page == 1 && r1.body.totalPages >= 3
    requires inp.server(PageRequest(inp, surveyId, 2)).NotOk?
    ensures var body := inp.server(PageRequest(inp, surveyId, 1)).body;
      var r2 := inp.server(PageRequest(inp, surveyId, 2));
      var e := SurveyPages(inp, ctx, surveyId, people, trace, fuel);
      && e.status == Abort(r2.status + ": " + r2.description)
      && e.run.people == ApplyAll(people, inp.env, ctx, body.surveyResults)
  {
    var body := inp.server(PageRequest(inp, surveyId, 1)).body;
    var run := Run(people, trace, 0);
    var next := AfterPage(inp, ctx, run, StepTrace(inp, surveyId, trace, 1), body);
    assert SurveyPages(inp, ctx, surveyId, people, trace, fuel)
        == Pages(inp, ctx, surveyId, next, 2, body.totalPages, fuel - 1);
  }

  /** Once a survey fails the run, the surveys after it make no difference. */
  lemma {:induction false} FailureStopsRun(inp: Inputs, st: State, surveys: seq<DefinedValue>,
                                           rest: seq<DefinedValue>, fuel: nat)
    requires Surveys(inp, st, surveys, fuel).1.Failed?
    ensures Surveys(inp, st, surveys + rest, fuel) == Surveys(inp, st, surveys, fuel)
    decreases |surveys|
  {
    assert surveys != [];
    assert (surveys + rest)[0] == surveys[0];
    assert (surveys + rest)[1..] == surveys[1..] + rest;
    match inp.env.parsers.asInteger(surveys[0].value)
    case None =>
    case Some(id) =>
      var e := SurveyPages(inp, ResolveSurvey(inp.env, surveys[0]), id, st.people, st.trace, fuel);
      if e.status == Done {
        FailureStopsRun(inp, State(e.run.people, e.run.trace + [SurveyDone(e.run.processed)]), surveys[1..], rest, fuel);
      }
  }

  /** A survey id that does not parse fails the run before any request for it. */
  lemma UnparsableSurveyIdFails(inp: Inputs, st: State, surveys: seq<DefinedValue>, fuel: nat)
    requires surveys != [] && inp.env.parsers.asInteger(surveys[0].value).None?
    ensures Surveys(inp, st, surveys, fuel) == (st, Failed(NullValueMessage))
  {
  }
}
