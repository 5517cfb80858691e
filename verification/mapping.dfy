/**
 * What one survey response does to the person store, as values: which person
 * it resolves to, which attribute writes it produces and in which order, and
 * the store after those writes. The job's loops (module Job) are proved to do
 * exactly this.
 */
module Mapping {
  import opened Wrappers
  import opened Text
  import opened Rock
  import opened Dto
  import opened Query

  // ----- per-survey configuration -----

  /** A configured survey's completion attribute key and question-mapping matrix
      items, each absent when its guid does not parse or does not resolve. */
  datatype SurveyContext = SurveyContext(completionKey: Option<string>, matrix: Option<seq<MatrixItem>>)

  function ResolveSurvey(env: Environment, dv: DefinedValue): SurveyContext {
    SurveyContext(
      AttributeKey(env, dv.personAttribute),
      match env.parsers.asGuid(dv.questionMapping)
      case None => None
      case Some(g) => if g in env.matrices then Some(env.matrices[g]) else None)
  }

  /** A matrix item's question id and target attribute key, each absent when
      its raw value does not parse or does not resolve. */
  datatype Binding = Binding(questionId: Option<int>, attributeKey: Option<string>)

  function ResolveItem(env: Environment, item: MatrixItem): Binding {
    Binding(env.parsers.asInteger(item.questionId), AttributeKey(env, item.personAttribute))
  }

  // ----- the respondent -----

  /** `FirstOrDefault` over the URL variables: the value of the first entry
      whose dictionary key is `key`, null when there is none. */
  function UrlValue(vars: seq<(string, UrlVariable)>, key: string): (r: NString)
    ensures (forall i :: 0 <= i < |vars| ==> vars[i].0 != key) ==> r.None?
    ensures forall i :: 0 <= i < |vars| && vars[i].0 == key && (forall j :: 0 <= j < i ==> vars[j].0 != key)
                        ==> r == vars[i].1.value
  {
    if vars == [] then None
    else if vars[0].0 == key then vars[0].1.value
    else UrlValue(vars[1..], key)
  }

  /** The person a response belongs to: its alias URL variable parsed as a guid
      and looked up as a person alias. */
  function PersonFor(env: Environment, r: SurveyResults): Option<PersonId> {
    match GuidOf(env.parsers, UrlValue(r.urlVariables, AliasVariable))
    case None => None
    case Some(g) => if g in env.aliases then Some(env.aliases[g]) else None
  }

  // ----- answer values -----

  /** The answer texts of the non-null options, in dictionary order; a null
      answer joins as an empty text. */
  function SelectedTexts(opts: seq<(string, Option<SurveyQuestionOptions>)>): (r: seq<string>)
    ensures |r| <= |opts|
  {
    if opts == [] then []
    else (if opts[0].1.Some? then [opts[0].1.value.answer.GetOr("")] else []) + SelectedTexts(opts[1..])
  }

  predicate HasOptions(q: SurveyQuestion) {
    q.options.Some? && q.options.value != []
  }

  /**
   * The value stored for an answered question: the comma-joined option answers
   * when the question has options, the raw answer otherwise.
   */
  function AnswerValue(q: SurveyQuestion): (r: NString)
    ensures !HasOptions(q) ==> r == q.answer
    ensures HasOptions(q) ==> r.Some?
    ensures HasOptions(q) && SelectedTexts(q.options.value) == [] ==> r == Some("")
  {
    if HasOptions(q) then Some(Join(",", SelectedTexts(q.options.value))) else q.answer
  }

  /** With options present, the raw answer plays no part. */
  lemma AnswerIgnoresRaw(q: SurveyQuestion, raw: NString)
    requires HasOptions(q)
    ensures AnswerValue(q.(answer := raw)) == AnswerValue(q)
  {
  }

  lemma {:induction false} SelectedTextsAppend(o1: seq<(string, Option<SurveyQuestionOptions>)>,
                                               o2: seq<(string, Option<SurveyQuestionOptions>)>)
    ensures SelectedTexts(o1 + o2) == SelectedTexts(o1) + SelectedTexts(o2)
  {
    if o1 == [] {
      assert o1 + o2 == o2;
    } else {
      assert (o1 + o2)[0] == o1[0];
      assert (o1 + o2)[1..] == o1[1..] + o2;
      SelectedTextsAppend(o1[1..], o2);
    }
  }

  /**
   * Options keep payload order: the value for two runs of options is the value
   * for the first, a comma, and the value for the second (when each run has a
   * non-null option).
   */
  lemma AnswerOptionsInOrder(q: SurveyQuestion, o1: seq<(string, Option<SurveyQuestionOptions>)>,
                             o2: seq<(string, Option<SurveyQuestionOptions>)>)
    requires SelectedTexts(o1) != [] && SelectedTexts(o2) != []
    ensures AnswerValue(q.(options := Some(o1 + o2))).value
         == AnswerValue(q.(options := Some(o1))).value + "," + AnswerValue(q.(options := Some(o2))).value
  {
    SelectedTextsAppend(o1, o2);
    JoinAppend(",", SelectedTexts(o1), SelectedTexts(o2));
  }

  /** A single non-null option gives its answer text, a null answer as empty text. */
  lemma AnswerOneOption(q: SurveyQuestion, k: string, o: SurveyQuestionOptions)
    ensures AnswerValue(q.(options := Some([(k, Some(o))]))) == Some(o.answer.GetOr(""))
  {
  }

  /** A null option contributes nothing to the value, not even a separator. */
  lemma AnswerSkipsNullOption(q: SurveyQuestion, o1: seq<(string, Option<SurveyQuestionOptions>)>, k: string,
                              o2: seq<(string, Option<SurveyQuestionOptions>)>)
    requires o1 + o2 != []
    ensures AnswerValue(q.(options := Some(o1 + [(k, None)] + o2))) == AnswerValue(q.(options := Some(o1 + o2)))
  {
    var nil: seq<(string, Option<SurveyQuestionOptions>)> := [(k, None)];
    SelectedTextsAppend(o1 + nil, o2);
    SelectedTextsAppend(o1, nil);
    SelectedTextsAppend(o1, o2);
    assert SelectedTexts(nil) == [];
    assert SelectedTexts(o1 + nil) == SelectedTexts(o1);
    assert SelectedTexts(o1 + nil + o2) == SelectedTexts(o1 + o2);
  }

  // ----- attribute writes -----

  /** One `SetAttributeValue` + `SaveAttributeValue` on the respondent. */
  datatype Write = Write(key: string, value: string)

  /** Whether a survey_data entry is written for a matrix item: a non-null
      question with a positive id equal to the item's, whose value has text. */
  predicate Matches(b: Binding, entry: (string, Option<SurveyQuestion>), w: Write) {
    && b.questionId.Some? && b.attributeKey == Some(w.key)
    && entry.1.Some? && entry.1.value.id > 0 && entry.1.value.id == b.questionId.value
    && AnswerValue(entry.1.value) == Some(w.value) && HasText(w.value)
  }

  function EntryWrites(qid: int, key: string, entry: (string, Option<SurveyQuestion>)): seq<Write> {
    match entry.1
    case None => []
    case Some(q) =>
      var a := AnswerValue(q);
      if q.id > 0 && q.id == qid && !IsBlank(a) then [Write(key, a.value)] else []
  }

  /** The writes of one resolved matrix item, scanning survey_data in order. */
  function ScanWrites(qid: int, key: string, data: seq<(string, Option<SurveyQuestion>)>): seq<Write> {
    if data == [] then []
    else ScanWrites(qid, key, data[..|data| - 1]) + EntryWrites(qid, key, data[|data| - 1])
  }

  /** An item without a parsable question id or a resolvable attribute writes nothing. */
  function ItemWrites(b: Binding, data: seq<(string, Option<SurveyQuestion>)>): seq<Write> {
    if b.questionId.Some? && b.attributeKey.Some? then ScanWrites(b.questionId.value, b.attributeKey.value, data)
    else []
  }

  /** The writes of the matrix items in order. */
  function MatrixWrites(env: Environment, items: seq<MatrixItem>, data: seq<(string, Option<SurveyQuestion>)>): seq<Write> {
    if items == [] then []
    else MatrixWrites(env, items[..|items| - 1], data) + ItemWrites(ResolveItem(env, items[|items| - 1]), data)
  }

  function CompletionWrites(ctx: SurveyContext): seq<Write> {
    if ctx.completionKey.Some? then [Write(ctx.completionKey.value, "True")] else []
  }

  /** Every write a response causes on its person, in order. */
  function ResponseWrites(env: Environment, ctx: SurveyContext, r: SurveyResults): seq<Write> {
    CompletionWrites(ctx) + (if ctx.matrix.Some? then MatrixWrites(env, ctx.matrix.value, r.surveyData) else [])
  }

  /** A write is justified when it marks completion or when some matrix item matches some answer. */
  predicate Justified(env: Environment, ctx: SurveyContext, r: SurveyResults, w: Write) {
    || (ctx.completionKey == Some(w.key) && w.value == "True")
    || (ctx.matrix.Some? &&
        exists i, j :: 0 <= i < |ctx.matrix.value| && 0 <= j < |r.surveyData|
                       && Matches(ResolveItem(env, ctx.matrix.value[i]), r.surveyData[j], w))
  }

  lemma {:induction false} ScanWritesExact(b: Binding, data: seq<(string, Option<SurveyQuestion>)>, w: Write)
    requires b.questionId.Some? && b.attributeKey.Some?
    ensures w in ScanWrites(b.questionId.value, b.attributeKey.value, data)
        <==> exists j :: 0 <= j < |data| && Matches(b, data[j], w)
  {
    if data != [] {
      var init := data[..|data| - 1];
      ScanWritesExact(b, init, w);
      if exists j :: 0 <= j < |init| && Matches(b, init[j], w) {
        var j :| 0 <= j < |init| && Matches(b, init[j], w);
        assert data[j] == init[j];
      }
      if exists j :: 0 <= j < |data| && Matches(b, data[j], w) {
        var j :| 0 <= j < |data| && Matches(b, data[j], w);
        if j < |init| {
          assert init[j] == data[j];
        }
      }
    }
  }

  /** A matrix item writes exactly the matching answers; an unresolved item writes nothing. */
  lemma ItemWritesExact(b: Binding, data: seq<(string, Option<SurveyQuestion>)>, w: Write)
    ensures w in ItemWrites(b, data) <==> exists j :: 0 <= j < |data| && Matches(b, data[j], w)
  {
    if b.questionId.Some? && b.attributeKey.Some? {
      ScanWritesExact(b, data, w);
    }
  }

  /** Every write of the matrix comes from some item matching some answer. */
  lemma {:induction false} MatrixWritesSound(env: Environment, items: seq<MatrixItem>,
                                             data: seq<(string, Option<SurveyQuestion>)>, w: Write)
    requires w in MatrixWrites(env, items, data)
    ensures exists i, j :: 0 <= i < |items| && 0 <= j < |data| && Matches(ResolveItem(env, items[i]), data[j], w)
  {
    var init := items[..|items| - 1];
    var b := ResolveItem(env, items[|items| - 1]);
    assert MatrixWrites(env, items, data) == MatrixWrites(env, init, data) + ItemWrites(b, data);
    if w in MatrixWrites(env, init, data) {
      MatrixWritesSound(env, init, data, w);
      var i, j :| 0 <= i < |init| && 0 <= j < |data| && Matches(ResolveItem(env, init[i]), data[j], w);
      assert items[i] == init[i];
    } else {
      ItemWritesExact(b, data, w);
      var j :| 0 <= j < |data| && Matches(b, data[j], w);
      assert Matches(ResolveItem(env, items[|items| - 1]), data[j], w);
    }
  }

  /** Every item matching an answer contributes that write to the matrix. */
  lemma {:induction false} MatrixWritesComplete(env: Environment, items: seq<MatrixItem>,
                                                data: seq<(string, Option<SurveyQuestion>)>, w: Write, i: int, j: int)
    requires 0 <= i < |items| && 0 <= j < |data| && Matches(ResolveItem(env, items[i]), data[j], w)
    ensures w in MatrixWrites(env, items, data)
  {
    var init := items[..|items| - 1];
    var b := ResolveItem(env, items[|items| - 1]);
    assert MatrixWrites(env, items, data) == MatrixWrites(env, init, data) + ItemWrites(b, data);
    if i < |init| {
      assert init[i] == items[i];
      MatrixWritesComplete(env, init, data, w, i, j);
    } else {
      ItemWritesExact(b, data, w);
    }
  }

  lemma MatrixWritesExact(env: Environment, items: seq<MatrixItem>,
                          data: seq<(string, Option<SurveyQuestion>)>, w: Write)
    ensures w in MatrixWrites(env, items, data)
        <==> exists i, j :: 0 <= i < |items| && 0 <= j < |data| && Matches(ResolveItem(env, items[i]), data[j], w)
  {
    if w in MatrixWrites(env, items, data) {
      MatrixWritesSound(env, items, data, w);
    }
    if exists i, j :: 0 <= i < |items| && 0 <= j < |data| && Matches(ResolveItem(env, items[i]), data[j], w) {
      var i, j :| 0 <= i < |items| && 0 <= j < |data| && Matches(ResolveItem(env, items[i]), data[j], w);
      MatrixWritesComplete(env, items, data, w, i, j);
    }
  }

  /**
   * A response writes exactly the justified writes: the completion mark, and
   * the value of every answer whose positive question id equals a matrix item's
   * question id and whose value has text, to that item's attribute.
   */
  lemma ResponseWritesExact(env: Environment, ctx: SurveyContext, r: SurveyResults, w: Write)
    ensures w in ResponseWrites(env, ctx, r) <==> Justified(env, ctx, r, w)
  {
    if ctx.matrix.Some? {
      MatrixWritesExact(env, ctx.matrix.value, r.surveyData, w);
    }
  }

  // ----- applying writes -----

  function WriteKeys(ws: seq<Write>): set<string> {
    set i | 0 <= i < |ws| :: ws[i].key
  }

  /** Writes applied in order as plain sets on a person's attribute values. */
  function ApplyWrites(a: Attributes, ws: seq<Write>): Attributes {
    if ws == [] then a
    else ApplyWrites(a, ws[..|ws| - 1])[ws[|ws| - 1].key := ws[|ws| - 1].value]
  }

  /**
   * Only the written keys change, every value comes from the old attributes or
   * from some write, and the last write to a key wins.
   */
  lemma {:induction false} ApplyWritesMeaning(a: Attributes, ws: seq<Write>)
    ensures ApplyWrites(a, ws).Keys == a.Keys + WriteKeys(ws)
    ensures forall k :: k in a && k !in WriteKeys(ws) ==> ApplyWrites(a, ws)[k] == a[k]
    ensures forall k :: k in WriteKeys(ws) ==> Write(k, ApplyWrites(a, ws)[k]) in ws
    ensures ws != [] ==> ApplyWrites(a, ws)[ws[|ws| - 1].key] == ws[|ws| - 1].value
  {
    if ws != [] {
      var init := ws[..|ws| - 1];
      ApplyWritesMeaning(a, init);
      WriteKeysSnoc(ws);
      forall k | k in WriteKeys(ws) ensures Write(k, ApplyWrites(a, ws)[k]) in ws {
        if k != ws[|ws| - 1].key {
          assert Write(k, ApplyWrites(a, init)[k]) in init;
        }
      }
    }
  }

  /** The keys of some writes are those of all but the last one, plus the last one's. */
  lemma WriteKeysSnoc(ws: seq<Write>)
    requires ws != []
    ensures WriteKeys(ws) == WriteKeys(ws[..|ws| - 1]) + {ws[|ws| - 1].key}
  {
    var init := ws[..|ws| - 1];
    forall k | k in WriteKeys(ws) ensures k in WriteKeys(init) + {ws[|ws| - 1].key} {
      var i :| 0 <= i < |ws| && ws[i].key == k;
      if i < |init| { assert init[i] == ws[i]; }
    }
    forall k | k in WriteKeys(init) ensures k in WriteKeys(ws) {
      var i :| 0 <= i < |init| && init[i].key == k;
      assert ws[i] == init[i];
    }
  }

  /** Applying writes overrides the attributes with what the writes alone would produce. */
  lemma {:induction false} ApplyWritesOverride(a: Attributes, ws: seq<Write>)
    ensures ApplyWrites(a, ws) == a + ApplyWrites(map[], ws)
  {
    if ws != [] {
      ApplyWritesOverride(a, ws[..|ws| - 1]);
    }
  }

  /** Applying the same writes twice leaves what applying them once left. */
  lemma ApplyWritesIdempotent(a: Attributes, ws: seq<Write>)
    ensures ApplyWrites(ApplyWrites(a, ws), ws) == ApplyWrites(a, ws)
  {
    var m := ApplyWrites(map[], ws);
    ApplyWritesOverride(a, ws);
    ApplyWritesOverride(a + m, ws);
    assert (a + m) + m == a + m;
  }

  /** Appending one write applies it after the earlier ones. */
  lemma ApplyWritesSnoc(a: Attributes, ws: seq<Write>, w: Write)
    ensures ApplyWrites(a, ws + [w]) == ApplyWrites(a, ws)[w.key := w.value]
  {
    assert (ws + [w])[..|ws|] == ws;
  }

  /** Applying two runs of writes one after the other applies their concatenation. */
  lemma {:induction false} ApplyWritesAppend(a: Attributes, ws1: seq<Write>, ws2: seq<Write>)
    ensures ApplyWrites(a, ws1 + ws2) == ApplyWrites(ApplyWrites(a, ws1), ws2)
    decreases |ws2|
  {
    if ws2 == [] {
      assert ws1 + ws2 == ws1;
    } else {
      var init := ws2[..|ws2| - 1];
      var last := ws2[|ws2| - 1];
      assert ws1 + ws2 == (ws1 + init) + [last];
      assert ws2 == init + [last];
      ApplyWritesAppend(a, ws1, init);
      ApplyWritesSnoc(a, ws1 + init, last);
      ApplyWritesSnoc(ApplyWrites(a, ws1), init, last);
    }
  }

  /** A write that no later write to the same key follows decides that key's value. */
  lemma {:induction false} ApplyWritesLastFor(a: Attributes, ws: seq<Write>, i: int)
    requires 0 <= i < |ws|
    requires forall j :: i < j < |ws| ==> ws[j].key != ws[i].key
    ensures ws[i].key in ApplyWrites(a, ws) && ApplyWrites(a, ws)[ws[i].key] == ws[i].value
    decreases |ws|
  {
    if i < |ws| - 1 {
      var init := ws[..|ws| - 1];
      assert init[i] == ws[i];
      forall j | i < j < |init| ensures init[j].key != init[i].key {
        assert init[j] == ws[j];
      }
      ApplyWritesLastFor(a, init, i);
    }
  }

  /**
   * Of the survey_data entries that match one matrix item, the last one decides
   * the item's attribute: every earlier match is overwritten.
   */
  lemma {:induction false} ScanLastMatchWins(a: Attributes, qid: int, key: string,
                                             data: seq<(string, Option<SurveyQuestion>)>, j: int)
    requires 0 <= j < |data| && EntryWrites(qid, key, data[j]) != []
    requires forall l :: j < l < |data| ==> EntryWrites(qid, key, data[l]) == []
    ensures key in ApplyWrites(a, ScanWrites(qid, key, data))
    ensures ApplyWrites(a, ScanWrites(qid, key, data))[key] == AnswerValue(data[j].1.value).value
    decreases |data|
  {
    var init := data[..|data| - 1];
    if j == |data| - 1 {
      var w := Write(key, AnswerValue(data[j].1.value).value);
      assert ScanWrites(qid, key, data) == ScanWrites(qid, key, init) + [w];
      ApplyWritesSnoc(a, ScanWrites(qid, key, init), w);
    } else {
      assert ScanWrites(qid, key, data) == ScanWrites(qid, key, init) + [];
      assert ScanWrites(qid, key, init) + [] == ScanWrites(qid, key, init);
      assert init[j] == data[j];
      forall l | j < l < |init| ensures EntryWrites(qid, key, init[l]) == [] {
        assert init[l] == data[l];
      }
      ScanLastMatchWins(a, qid, key, init, j);
    }
  }

  /**
   * A matrix item's attribute ends with the value of the item's last matching
   * answer when no later item targets the same attribute.
   */
  lemma {:induction false} MatrixLastItemWins(a: Attributes, env: Environment, items: seq<MatrixItem>,
                                              data: seq<(string, Option<SurveyQuestion>)>, i: int, j: int)
    requires 0 <= i < |items| && 0 <= j < |data|
    requires var b := ResolveItem(env, items[i]);
      && b.questionId.Some? && b.attributeKey.Some?
      && EntryWrites(b.questionId.value, b.attributeKey.value, data[j]) != []
      && (forall l :: j < l < |data| ==> EntryWrites(b.questionId.value, b.attributeKey.value, data[l]) == [])
      && (forall m :: i < m < |items| ==> ResolveItem(env, items[m]).attributeKey != b.attributeKey)
    ensures var key := ResolveItem(env, items[i]).attributeKey.value;
      && key in ApplyWrites(a, MatrixWrites(env, items, data))
      && ApplyWrites(a, MatrixWrites(env, items, data))[key] == AnswerValue(data[j].1.value).value
    decreases |items|
  {
    var b := ResolveItem(env, items[i]);
    var key := b.attributeKey.value;
    var init := items[..|items| - 1];
    var lastItem := ResolveItem(env, items[|items| - 1]);
    var last := ItemWrites(lastItem, data);
    assert MatrixWrites(env, items, data) == MatrixWrites(env, init, data) + last;
    ApplyWritesAppend(a, MatrixWrites(env, init, data), last);
    var mid := ApplyWrites(a, MatrixWrites(env, init, data));
    if i == |items| - 1 {
      ScanLastMatchWins(mid, b.questionId.value, key, data, j);
    } else {
      assert init[i] == items[i];
      forall m | i < m < |init| ensures ResolveItem(env, init[m]).attributeKey != b.attributeKey {
        assert init[m] == items[m];
      }
      MatrixLastItemWins(a, env, init, data, i, j);
      forall n | 0 <= n < |last| ensures last[n].key != key {
        ItemWritesExact(lastItem, data, last[n]);
      }
      ApplyWritesMeaning(mid, last);
    }
  }

  // ----- one response, a run of responses -----

  /**
   * The store after one response: the respondent, when the alias resolves to an
   * existing person, receives the response's writes; nobody else changes.
   */
  function ApplyResponse(people: Store, env: Environment, ctx: SurveyContext, r: SurveyResults): (p: Store)
    ensures p.Keys == people.Keys
    ensures forall pid :: pid in people && PersonFor(env, r) != Some(pid) ==> p[pid] == people[pid]
  {
    match PersonFor(env, r)
    case None => people
    case Some(pid) =>
      if pid in people then people[pid := ApplyWrites(people[pid], ResponseWrites(env, ctx, r))] else people
  }

  /** A response whose alias does not parse or resolve, or whose person does not exist, writes nothing. */
  lemma SkippedResponseWritesNothing(people: Store, env: Environment, ctx: SurveyContext, r: SurveyResults)
    requires PersonFor(env, r).None? || PersonFor(env, r).value !in people
    ensures ApplyResponse(people, env, ctx, r) == people
  {
  }

  /**
   * Every attribute value of the respondent after the response is either the one
   * it had or a justified write.
   */
  lemma ResponseChangesOnlyJustified(people: Store, env: Environment, ctx: SurveyContext, r: SurveyResults,
                                     pid: PersonId, k: string)
    requires PersonFor(env, r) == Some(pid) && pid in people
    requires k in ApplyResponse(people, env, ctx, r)[pid]
    ensures var v := ApplyResponse(people, env, ctx, r)[pid][k];
      (k in people[pid] && v == people[pid][k]) || Justified(env, ctx, r, Write(k, v))
  {
    var v := ApplyResponse(people, env, ctx, r)[pid][k];
    ApplyWritesMeaning(people[pid], ResponseWrites(env, ctx, r));
    ResponseWritesExact(env, ctx, r, Write(k, v));
  }

  /** No matrix item of the survey writes to attribute `k`. */
  predicate NoItemTargets(env: Environment, ctx: SurveyContext, k: string) {
    ctx.matrix.Some? ==> forall i :: 0 <= i < |ctx.matrix.value| ==>
      ResolveItem(env, ctx.matrix.value[i]).attributeKey != Some(k)
  }

  lemma CompletionWriteWins(a: Attributes, env: Environment, ctx: SurveyContext, r: SurveyResults)
    requires ctx.completionKey.Some? && NoItemTargets(env, ctx, ctx.completionKey.value)
    ensures ctx.completionKey.value in ApplyWrites(a, ResponseWrites(env, ctx, r))
    ensures ApplyWrites(a, ResponseWrites(env, ctx, r))[ctx.completionKey.value] == "True"
  {
    var k := ctx.completionKey.value;
    var ws := ResponseWrites(env, ctx, r);
    assert ws[0] == Write(k, "True");
    assert k in WriteKeys(ws);
    ApplyWritesMeaning(a, ws);
    var v := ApplyWrites(a, ws)[k];
    ResponseWritesExact(env, ctx, r, Write(k, v));
    if ctx.matrix.Some? {
      var items, data := ctx.matrix.value, r.surveyData;
      forall i, j | 0 <= i < |items| && 0 <= j < |data|
        ensures !Matches(ResolveItem(env, items[i]), data[j], Write(k, v))
      {
      }
    }
  }

  /**
   * When a completion attribute is configured and no matrix item targets it, a
   * resolved respondent ends up with it set to "True".
   */
  lemma CompletionMarked(people: Store, env: Environment, ctx: SurveyContext, r: SurveyResults, pid: PersonId)
    requires PersonFor(env, r) == Some(pid) && pid in people
    requires ctx.completionKey.Some? && NoItemTargets(env, ctx, ctx.completionKey.value)
    ensures ctx.completionKey.value in ApplyResponse(people, env, ctx, r)[pid]
    ensures ApplyResponse(people, env, ctx, r)[pid][ctx.completionKey.value] == "True"
  {
    var a := ApplyWrites(people[pid], ResponseWrites(env, ctx, r));
    assert ApplyResponse(people, env, ctx, r) == people[pid := a];
    CompletionWriteWins(people[pid], env, ctx, r);
  }

  /** Re-applying a response changes nothing. */
  lemma ApplyResponseIdempotent(people: Store, env: Environment, ctx: SurveyContext, r: SurveyResults)
    ensures ApplyResponse(ApplyResponse(people, env, ctx, r), env, ctx, r) == ApplyResponse(people, env, ctx, r)
  {
    match PersonFor(env, r)
    case None =>
    case Some(pid) =>
      if pid in people {
        ApplyWritesIdempotent(people[pid], ResponseWrites(env, ctx, r));
      }
  }

  /** The store after a page of responses, processed in order. */
  function ApplyAll(people: Store, env: Environment, ctx: SurveyContext, rs: seq<SurveyResults>): (p: Store)
    ensures p.Keys == people.Keys
  {
    if rs == [] then people
    else ApplyResponse(ApplyAll(people, env, ctx, rs[..|rs| - 1]), env, ctx, rs[|rs| - 1])
  }

  // ----- a run of responses as one patch -----

  /** What a run of responses writes, person by person; it depends on the
      responses and the lookups only, not on the store. */
  function Patch(env: Environment, ctx: SurveyContext, rs: seq<SurveyResults>): map<PersonId, Attributes> {
    if rs == [] then map[]
    else
      var p := Patch(env, ctx, rs[..|rs| - 1]);
      var last := rs[|rs| - 1];
      match PersonFor(env, last)
      case None => p
      case Some(pid) =>
        p[pid := (if pid in p then p[pid] else map[]) + ApplyWrites(map[], ResponseWrites(env, ctx, last))]
  }

  /** The store with a patch laid over the people that exist. */
  function Patched(people: Store, patch: map<PersonId, Attributes>): Store {
    map pid | pid in people :: if pid in patch then people[pid] + patch[pid] else people[pid]
  }

  /** Adding writes for one person to the patch adds them to that person's record. */
  lemma PatchedStep(people: Store, patch: map<PersonId, Attributes>, pid: PersonId, w: Attributes)
    ensures var prior := if pid in patch then patch[pid] else map[];
      Patched(people, patch[pid := prior + w])
        == if pid in people then Patched(people, patch)[pid := Patched(people, patch)[pid] + w]
           else Patched(people, patch)
  {
    var prior := if pid in patch then patch[pid] else map[];
    var before := Patched(people, patch);
    var after := Patched(people, patch[pid := prior + w]);
    if pid in people {
      assert before[pid] == people[pid] + prior;
      UnionAssociative(people[pid], prior, w);
      assert after == before[pid := before[pid] + w];
    } else {
      assert after == before;
    }
  }

  lemma UnionAssociative<K, V>(a: map<K, V>, b: map<K, V>, c: map<K, V>)
    ensures (a + b) + c == a + (b + c)
  {
  }

  lemma {:induction false} ApplyAllIsPatch(people: Store, env: Environment, ctx: SurveyContext, rs: seq<SurveyResults>)
    ensures ApplyAll(people, env, ctx, rs) == Patched(people, Patch(env, ctx, rs))
  {
    if rs == [] {
      assert Patched(people, map[]) == people;
    } else {
      var init, last := rs[..|rs| - 1], rs[|rs| - 1];
      ApplyAllIsPatch(people, env, ctx, init);
      var before := ApplyAll(people, env, ctx, init);
      match PersonFor(env, last)
      case None =>
      case Some(pid) =>
        var ws := ResponseWrites(env, ctx, last);
        PatchedStep(people, Patch(env, ctx, init), pid, ApplyWrites(map[], ws));
        if pid in people {
          ApplyWritesOverride(before[pid], ws);
        }
    }
  }

  lemma PatchedTwice(people: Store, patch: map<PersonId, Attributes>)
    ensures Patched(Patched(people, patch), patch) == Patched(people, patch)
  {
    var once := Patched(people, patch);
    forall pid | pid in people && pid in patch
      ensures (people[pid] + patch[pid]) + patch[pid] == people[pid] + patch[pid]
    {
    }
  }

  /**
   * Re-processing the same responses over the store they produced changes
   * nothing: every write is a plain set, so the last write to each attribute wins
   * both times.
   */
  lemma ApplyAllIdempotent(people: Store, env: Environment, ctx: SurveyContext, rs: seq<SurveyResults>)
    ensures ApplyAll(ApplyAll(people, env, ctx, rs), env, ctx, rs) == ApplyAll(people, env, ctx, rs)
  {
    var once := ApplyAll(people, env, ctx, rs);
    ApplyAllIsPatch(people, env, ctx, rs);
    ApplyAllIsPatch(once, env, ctx, rs);
    PatchedTwice(people, Patch(env, ctx, rs));
  }
}
