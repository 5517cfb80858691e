/**
 * The job itself: an object holding the person store and the trace of what it
 * has done, whose `Execute` walks the configured surveys, pages through each
 * survey's responses and writes person attribute values one at a time. Each
 * method is proved to end in the state the value-level definitions describe.
 */
module Job {
  import opened Wrappers
  import opened Text
  import opened Rock
  import opened Dto
  import opened Config
  import opened Query
  import opened Mapping
  import opened Sync

  lemma UpdateSame<K, V>(m: map<K, V>, k: K)
    requires k in m
    ensures m[k := m[k]] == m
  {
  }

  lemma UpdateTwice<K, V>(m: map<K, V>, k: K, x: V, y: V)
    ensures m[k := x][k := y] == m[k := y]
  {
  }

  /** Scanning one more entry appends that entry's writes. */
  lemma ScanWritesStep(qid: int, key: string, data: seq<(string, Option<SurveyQuestion>)>, j: nat)
    requires j < |data|
    ensures ScanWrites(qid, key, data[..j + 1]) == ScanWrites(qid, key, data[..j]) + EntryWrites(qid, key, data[j])
    ensures EntryWrites(qid, key, data[j]) == [] ==> ScanWrites(qid, key, data[..j + 1]) == ScanWrites(qid, key, data[..j])
  {
    assert data[..j + 1][..j] == data[..j];
  }

  /** Resolving one more matrix item appends that item's writes. */
  lemma MatrixWritesStep(env: Environment, items: seq<MatrixItem>, data: seq<(string, Option<SurveyQuestion>)>, i: nat)
    requires i < |items|
    ensures MatrixWrites(env, items[..i + 1], data) == MatrixWrites(env, items[..i], data) + ItemWrites(ResolveItem(env, items[i]), data)
    ensures ItemWrites(ResolveItem(env, items[i]), data) == [] ==> MatrixWrites(env, items[..i + 1], data) == MatrixWrites(env, items[..i], data)
  {
    assert items[..i + 1][..i] == items[..i];
  }

  class SyncJob {
    /** Every person and that person's attribute values. */
    var people: Store
    /** Waits, requests and finished surveys, in order. */
    var trace: seq<Event>

    constructor(initial: Store)
      ensures people == initial && trace == []
    {
      people := initial;
      trace := [];
    }

    /** `SetAttributeValue` followed by `SaveAttributeValue` on one person. */
    method SetAttribute(pid: PersonId, key: string, value: string)
      requires pid in people
      modifies this
      ensures people == old(people)[pid := old(people)[pid][key := value]]
      ensures trace == old(trace)
    {
      people := people[pid := people[pid][key := value]];
    }

    /** One matrix item's scan: every answer to question `qid` whose value has
        text is stored under `key`, in the order of survey_data. */
    method ScanAnswers(pid: PersonId, qid: int, key: string, data: seq<(string, Option<SurveyQuestion>)>)
      requires pid in people
      modifies this
      ensures people == old(people)[pid := ApplyWrites(old(people)[pid], ScanWrites(qid, key, data))]
      ensures trace == old(trace)
    {
      ghost var a0 := people[pid];
      UpdateSame(people, pid);
      var j := 0;
      while j < |data|
        invariant 0 <= j <= |data|
        invariant people == old(people)[pid := ApplyWrites(a0, ScanWrites(qid, key, data[..j]))]
        invariant trace == old(trace)
      {
        ghost var done := ScanWrites(qid, key, data[..j]);
        ScanWritesStep(qid, key, data, j);
        var entry := data[j];
        if entry.1.Some? {
          var q := entry.1.value;
          var answer := AnswerValue(q);
          if q.id > 0 && q.id == qid && !IsBlank(answer) {
            SetAttribute(pid, key, answer.value);
            ApplyWritesSnoc(a0, done, Write(key, answer.value));
            UpdateTwice(old(people), pid, ApplyWrites(a0, done), ApplyWrites(a0, done)[key := answer.value]);
          } else {
            assert EntryWrites(qid, key, entry) == [];
          }
        } else {
          assert EntryWrites(qid, key, entry) == [];
        }
        j := j + 1;
      }
      assert data[..j] == data;
    }

    /** The matrix items in order, each with a parsable question id and an
        existing attribute scanning the answers. */
    method ApplyMatrix(pid: PersonId, env: Environment, items: seq<MatrixItem>,
                       data: seq<(string, Option<SurveyQuestion>)>)
      requires pid in people
      modifies this
      ensures people == old(people)[pid := ApplyWrites(old(people)[pid], MatrixWrites(env, items, data))]
      ensures trace == old(trace)
    {
      ghost var a0 := people[pid];
      UpdateSame(people, pid);
      var i := 0;
      while i < |items|
        invariant 0 <= i <= |items|
        invariant people == old(people)[pid := ApplyWrites(a0, MatrixWrites(env, items[..i], data))]
        invariant trace == old(trace)
      {
        ghost var done := MatrixWrites(env, items[..i], data);
        MatrixWritesStep(env, items, data, i);
        var b := ResolveItem(env, items[i]);
        if b.questionId.Some? && b.attributeKey.Some? {
          ScanAnswers(pid, b.questionId.value, b.attributeKey.value, data);
          ApplyWritesAppend(a0, done, ItemWrites(b, data));
          UpdateTwice(old(people), pid, ApplyWrites(a0, done), ApplyWrites(ApplyWrites(a0, done), ItemWrites(b, data)));
        }
        i := i + 1;
      }
      assert items[..i] == items;
    }

    /**
     * One survey response: resolve the respondent from the alias URL variable;
     * if that person exists, mark completion, then apply the question mapping.
     */
    method ProcessResponse(env: Environment, ctx: SurveyContext, r: SurveyResults)
      modifies this
      ensures people == ApplyResponse(old(people), env, ctx, r)
      ensures trace == old(trace)
    {
      var person := PersonFor(env, r);
      if person.None? || person.value !in people {
        return;
      }
      var pid := person.value;
      ghost var a0 := people[pid];
      if ctx.completionKey.Some? {
        SetAttribute(pid, ctx.completionKey.value, "True");
        ApplyWritesSnoc(a0, [], Write(ctx.completionKey.value, "True"));
      }
      if ctx.matrix.Some? {
        ApplyMatrix(pid, env, ctx.matrix.value, r.surveyData);
        ApplyWritesAppend(a0, CompletionWrites(ctx), MatrixWrites(env, ctx.matrix.value, r.surveyData));
      } else {
        assert ResponseWrites(env, ctx, r) == CompletionWrites(ctx) + [];
      }
    }

    /** A page of responses, processed in order. */
    method ProcessPage(env: Environment, ctx: SurveyContext, rs: seq<SurveyResults>)
      modifies this
      ensures people == ApplyAll(old(people), env, ctx, rs)
      ensures trace == old(trace)
    {
      var i := 0;
      while i < |rs|
        invariant 0 <= i <= |rs|
        invariant people == ApplyAll(old(people), env, ctx, rs[..i])
        invariant trace == old(trace)
      {
        assert rs[..i + 1][..i] == rs[..i];
        ProcessResponse(env, ctx, rs[i]);
        i := i + 1;
      }
      assert rs[..i] == rs;
    }

    /** Wait unless on page 1, then send the request for `page`. */
    method Fetch(inp: Inputs, surveyId: int, page: int) returns (reply: Reply)
      modifies this
      ensures trace == StepTrace(inp, surveyId, old(trace), page)
      ensures reply == inp.server(PageRequest(inp, surveyId, page))
      ensures people == old(people)
    {
      if page != 1 {
        trace := trace + [Wait(Delay(inp.cfg.requestsPerMinute))];
      }
      var request := BuildRequest(inp.cfg, surveyId, page, inp.cutoff);
      trace := trace + [Get(request)];
      reply := inp.server(request);
    }

    /**
     * One survey's page loop: starting from page 1 of a provisional 2, wait
     * unless on page 1, request the page, abort on a reply other than OK,
     * otherwise process every response and continue after the reported page
     * while it is below the reported page count; at most `fuel` requests.
     */
    method SyncSurvey(inp: Inputs, ctx: SurveyContext, surveyId: int, fuel: nat)
      returns (processed: nat, status: PageStatus)
      modifies this
      ensures SurveyPages(inp, ctx, surveyId, old(people), old(trace), fuel)
           == SurveyEnd(Run(people, trace, processed), status)
    {
      var currentPage, totalPages := 1, 2;
      var budget := fuel;
      processed := 0;
      while currentPage < totalPages
        invariant Pages(inp, ctx, surveyId, Run(people, trace, processed), currentPage, totalPages, budget)
               == SurveyPages(inp, ctx, surveyId, old(people), old(trace), fuel)
        decreases budget
      {
        if budget == 0 {
          return processed, Exhausted;
        }
        ghost var run := Run(people, trace, processed);
        var reply := Fetch(inp, surveyId, currentPage);
        match reply
        case NotOk(statusName, description) =>
          return processed, Abort(statusName + ": " + description);
        case Ok(body) =>
          currentPage, totalPages := body.page + 1, body.totalPages;
          ProcessPage(inp.env, ctx, body.surveyResults);
          processed := processed + |body.surveyResults|;
          budget := budget - 1;
      }
      status := Done;
    }

    /**
     * The whole job: normalise the settings; do nothing unless token, secret
     * and base URL have text; report when no survey is configured; otherwise
     * sync the surveys in order, failing on a survey id that does not parse or
     * on a reply other than OK, and record each survey that ends normally.
     */
    method Execute(settings: Settings, env: Environment, server: Request -> Reply, dateBefore: int -> string,
                   surveys: seq<DefinedValue>, fuel: nat) returns (outcome: Outcome)
      modifies this
      ensures JobRun(settings, env, server, dateBefore, State(old(people), old(trace)), surveys, fuel)
           == (State(people, trace), outcome)
    {
      var cfg := Normalize(settings, env.parsers.asInteger);
      if !ConfigOk(cfg) {
        return NotConfigured;
      }
      if surveys == [] {
        return NoSurveys;
      }
      var inp := Inputs(cfg, env, server, dateBefore(cfg.daysBack));
      var i := 0;
      while i < |surveys|
        invariant 0 <= i <= |surveys|
        invariant Surveys(inp, State(people, trace), surveys[i..], fuel)
               == Surveys(inp, State(old(people), old(trace)), surveys, fuel)
      {
        assert surveys[i..][0] == surveys[i];
        assert surveys[i..][1..] == surveys[i + 1..];
        var surveyId := env.parsers.asInteger(surveys[i].value);
        var ctx := ResolveSurvey(env, surveys[i]);
        if surveyId.None? {
          return Failed(NullValueMessage);
        }
        var processed, status := SyncSurvey(inp, ctx, surveyId.value, fuel);
        match status
        case Abort(message) =>
          return Failed(message);
        case Exhausted =>
          return OutOfFuel;
        case Done =>
          trace := trace + [SurveyDone(processed)];
        i := i + 1;
      }
      outcome := Completed;
    }
  }
}
