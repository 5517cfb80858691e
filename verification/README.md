# Survey result sync, modelled in Dafny

This project models the scheduled job that copies completed survey responses
from the Alchemer (formerly SurveyGizmo) survey service into person attribute
values of a Rock RMS installation (`SyncSurveyResults.Execute`), together with
the JSON records that the service's "list survey responses" reply is read into.

One run works like this:

1. It reads the job settings. A days-back or requests-per-minute value that
   does not parse falls back to 1 or 30. Trailing slashes are trimmed off the
   base URL.
2. It does nothing unless the token, the secret and the base URL all have text.
3. For each configured survey it pages through the responses that are complete,
   carry the `rockpersonaliasguid` URL variable and were submitted on or after
   the cutoff date. The page number and page count that each reply reports
   drive the loop.
4. Each response whose alias resolves to an existing person gets the following
   writes on that person:
   - the survey's completion attribute, set to `True`;
   - then, for every question-mapping matrix item, every answer to the item's
     question whose value is not blank.
   A multiple-choice answer is its option answers joined with commas. Any
   other answer is the free-text answer.

The model has two layers:

- **Value layer.** Modules `Config`, `Query`, `Mapping` and `Sync` are pure
  definitions of what a run does. They cover the settings, the request, the
  writes of one response, the page loop and the survey loop, with lemmas
  about them.
- **Object layer.** Module `Job` is a class `SyncJob`. It holds the person
  store and a trace of the job's observable actions. Its methods loop and
  write one attribute at a time, as the job does. Each method is proved to
  end in exactly the state the value layer describes.

Supporting modules:

- `Dto`: the reply records.
- `Rock`: the host platform's lookups, as maps and given functions.
- `Text`: string helpers.
- `Wrappers`: `Option`.

The survey service is an oracle from request to reply. A pause between pages
is recorded in the trace as a `Wait` event instead of being slept.

Behaviour that the code has and that the model keeps as written:

- **The loop stops one page early.** The loop runs while `currentPage < totalPages`,
  and after each page continues from the reported page plus one. A survey
  whose service reports `n >= 2` pages and echoes the requested page
  therefore fetches pages `1 .. n-1`, and page `n` is never requested
  (`EchoPageCount`, `EchoLastPageNeverFetched`). With `n = 1` page 1 is
  still fetched once, because the loop starts on page 1 of a provisional 2.
- **One failure ends the whole run.** A reply other than OK throws an
  exception. The surrounding `catch` rethrows it with the same message, so it
  ends the whole run, not only the survey (`FailureKeepsEarlierPages`,
  `FailureStopsRun`). Writes already made stay made.
- **A bad survey id throws.** A survey id that does not parse reaches
  `surveyId.Value` on a null value while the status message is built. That
  throws and ends the run (`UnparsableSurveyIdFails`).
- **Waits are per survey.** The pause comes before every request for a page
  other than page 1, so every survey starts without a wait. Against a service
  that echoes the requested page, a survey's `k` fetches come with `k - 1`
  waits (`EchoPageCount`). A reply that reports page 0 sends the loop back to
  page 1, which is then requested again without a wait.
- **Skipped responses still count.** Every response iterated is counted,
  whether or not it resolved to a person (`PagesCountEveryResponse`).

A more lenient reading of this job is possible:

- skip a survey whose id is malformed;
- keep going with the next survey after a failed fetch;
- no wait before the first fetch of the whole run, and a wait before every
  other fetch, including the first fetch of each later survey.

The model follows the code instead.

## Model

| member | source | states |
|---|---|---|
| Config.Normalize | com.bemaservices.SurveyGizmo/Jobs/SyncSurveyResults.cs:51-55 | token and secret are kept; an unparsable days-back or rate falls back to 1 or 30, a parsable one is used as is; the base URL loses its trailing slashes and nothing else |
| Text.TrimEnd | com.bemaservices.SurveyGizmo/Jobs/SyncSurveyResults.cs:54 | the result is a prefix of the input, everything removed is the trimmed character, and the result does not end with it |
| Config.SlashesOnlyBaseUrlRefused | com.bemaservices.SurveyGizmo/Jobs/SyncSurveyResults.cs:54-58 | a base URL made only of slashes trims to nothing, so the configuration guard refuses the run |
| Sync.NotConfiguredDoesNothing | com.bemaservices.SurveyGizmo/Jobs/SyncSurveyResults.cs:58 | the run ends as not configured exactly when token, secret or trimmed base URL lacks text, and then the store and the trace are untouched |
| Sync.SurveysNeverNotConfigured | com.bemaservices.SurveyGizmo/Jobs/SyncSurveyResults.cs:72-237 | the survey loop never reports a configuration failure |
| Config.Delay | com.bemaservices.SurveyGizmo/Jobs/SyncSurveyResults.cs:104 | the wait is between 0 and 60000 ms, is a whole minute for a rate of at most 1, and otherwise is the floor of 60000 divided by the rate |
| Config.DelayAntitone | com.bemaservices.SurveyGizmo/Jobs/SyncSurveyResults.cs:104 | a higher rate never waits longer |
| Query.RequestShape | com.bemaservices.SurveyGizmo/Jobs/SyncSurveyResults.cs:108-131 | every request goes to `/survey/{id}/surveyresponse` on the configured base URL with exactly twelve parameters, named in the order the job adds them |
| Query.RequestValues | com.bemaservices.SurveyGizmo/Jobs/SyncSurveyResults.cs:112-131 | the parameter values: credentials, page, page size 30, status = complete, the alias URL variable IS NOT NULL, date_submitted >= cutoff |
| Query.QueryKeysDistinct | com.bemaservices.SurveyGizmo/Jobs/SyncSurveyResults.cs:112-131 | no parameter name is added twice |
| Query.PageOfRequest | com.bemaservices.SurveyGizmo/Jobs/SyncSurveyResults.cs:114 | a server reading the `page` parameter recovers the page that was asked for |
| Text.DecimalRoundTrip | com.bemaservices.SurveyGizmo/Jobs/SyncSurveyResults.cs:114 | the decimal text of an integer parses back to that integer |
| Query.RequestsDistinct | com.bemaservices.SurveyGizmo/Jobs/SyncSurveyResults.cs:111-114 | requests for different pages or different surveys differ |
| Mapping.UrlValue | com.bemaservices.SurveyGizmo/Jobs/SyncSurveyResults.cs:147 | the value of the first URL variable whose dictionary key is `rockpersonaliasguid`, null when there is none |
| Mapping.AnswerValue | com.bemaservices.SurveyGizmo/Jobs/SyncSurveyResults.cs:189-199 | without options (null or empty) the raw answer is used; with options the value is never null and is empty when every option is null; with `AnswerOneOption`, `AnswerSkipsNullOption` and `AnswerOptionsInOrder` it is the comma-join of the non-null options' answer texts in payload order |
| Mapping.AnswerIgnoresRaw | com.bemaservices.SurveyGizmo/Jobs/SyncSurveyResults.cs:190-195 | when options exist the free-text answer has no influence on the value |
| Mapping.AnswerOptionsInOrder | com.bemaservices.SurveyGizmo/Jobs/SyncSurveyResults.cs:192-194 | option answers are joined with commas in payload order: splitting the options splits the value at a comma |
| Mapping.AnswerOneOption | com.bemaservices.SurveyGizmo/Jobs/SyncSurveyResults.cs:192-194 | a single non-null option gives exactly its answer text, a null answer joining as empty text; it is the answer, not the option label |
| Mapping.AnswerSkipsNullOption | com.bemaservices.SurveyGizmo/Jobs/SyncSurveyResults.cs:193 | a null option is dropped before joining: it adds neither text nor a comma |
| Mapping.ScanWritesExact | com.bemaservices.SurveyGizmo/Jobs/SyncSurveyResults.cs:182-206 | a matrix item writes a value exactly when some non-null answer has a positive id equal to the item's question id and a non-blank value |
| Mapping.ItemWritesExact | com.bemaservices.SurveyGizmo/Jobs/SyncSurveyResults.cs:171-206 | an item writes only when its question id parses and its attribute resolves, and then exactly the matching answers |
| Mapping.MatrixWritesExact | com.bemaservices.SurveyGizmo/Jobs/SyncSurveyResults.cs:166-210 | the matrix writes exactly the pairs of an item and an answer that match |
| Mapping.ResponseWritesExact | com.bemaservices.SurveyGizmo/Jobs/SyncSurveyResults.cs:157-211 | a response writes exactly the completion mark (when configured) and the matching matrix answers (when a matrix is configured) |
| Mapping.ApplyWritesMeaning | com.bemaservices.SurveyGizmo/Jobs/SyncSurveyResults.cs:203-205 | applying writes in order adds exactly the written keys, leaves every other value alone, stores a value some write carried, and the last write wins |
| Mapping.ApplyWritesOverride | com.bemaservices.SurveyGizmo/Jobs/SyncSurveyResults.cs:203-205 | the result of a run of writes does not depend on the old values of the keys written |
| Mapping.ApplyWritesIdempotent | com.bemaservices.SurveyGizmo/Jobs/SyncSurveyResults.cs:203-205 | applying the same writes twice gives what applying them once gave |
| Mapping.ApplyWritesLastFor | com.bemaservices.SurveyGizmo/Jobs/SyncSurveyResults.cs:203-205 | a write that no later write to the same key follows decides that key's final value |
| Mapping.ScanLastMatchWins | com.bemaservices.SurveyGizmo/Jobs/SyncSurveyResults.cs:182-206 | of the answers matching one matrix item, the last in survey_data order is the value its attribute ends with |
| Mapping.MatrixLastItemWins | com.bemaservices.SurveyGizmo/Jobs/SyncSurveyResults.cs:168-210 | a matrix item's attribute ends with the value of its last matching answer when no later item targets the same attribute |
| Mapping.ApplyResponse | com.bemaservices.SurveyGizmo/Jobs/SyncSurveyResults.cs:147-156 | one response adds or removes no person and changes nobody other than its respondent |
| Mapping.SkippedResponseWritesNothing | com.bemaservices.SurveyGizmo/Jobs/SyncSurveyResults.cs:148-155 | a missing or unparsable alias, an unknown alias or a missing person leaves the store as it was |
| Mapping.ResponseChangesOnlyJustified | com.bemaservices.SurveyGizmo/Jobs/SyncSurveyResults.cs:157-211 | every attribute value of the respondent afterwards is either the old one or a completion mark or matching answer of this response |
| Mapping.CompletionWriteWins | com.bemaservices.SurveyGizmo/Jobs/SyncSurveyResults.cs:158-206 | when no matrix item targets the completion attribute, the completion attribute ends as `True` |
| Mapping.CompletionMarked | com.bemaservices.SurveyGizmo/Jobs/SyncSurveyResults.cs:157-163 | an existing respondent of a survey with a completion attribute ends with that attribute set to `True`, unless a matrix item targets it |
| Mapping.ApplyResponseIdempotent | com.bemaservices.SurveyGizmo/Jobs/SyncSurveyResults.cs:145-214 | processing a response a second time changes nothing |
| Mapping.ApplyAll | com.bemaservices.SurveyGizmo/Jobs/SyncSurveyResults.cs:145-218 | a page of responses adds or removes no person |
| Mapping.ApplyAllIsPatch | com.bemaservices.SurveyGizmo/Jobs/SyncSurveyResults.cs:145-218 | a page of responses lays one per-person patch, fixed by the responses and lookups alone, over the store |
| Mapping.ApplyAllIdempotent | com.bemaservices.SurveyGizmo/Jobs/SyncSurveyResults.cs:145-218 | processing the same page again changes nothing |
| Sync.FirstRequestWithoutWait | com.bemaservices.SurveyGizmo/Jobs/SyncSurveyResults.cs:95-114 | every survey starts by requesting page 1 without waiting |
| Sync.PagesExtend | com.bemaservices.SurveyGizmo/Jobs/SyncSurveyResults.cs:99-229 | the page loop only appends to the trace and adds or removes no person |
| Sync.PagesCountEveryResponse | com.bemaservices.SurveyGizmo/Jobs/SyncSurveyResults.cs:216 | a survey's count grows by exactly the number of responses on the pages it fetched, resolved or not |
| Sync.EchoFrom | com.bemaservices.SurveyGizmo/Jobs/SyncSurveyResults.cs:99-142 | against a service that echoes the page and reports `n` pages, the loop ends normally after fetching exactly the pages from the current one through `n - 1` |
| Sync.PageEventsCount | com.bemaservices.SurveyGizmo/Jobs/SyncSurveyResults.cs:99-106 | fetching pages `p .. last` makes one request per page and one wait per page other than page 1 |
| Sync.EchoPageCount | com.bemaservices.SurveyGizmo/Jobs/SyncSurveyResults.cs:95-142 | a survey whose service reports `n` pages makes `max(n - 1, 1)` requests and one wait fewer |
| Sync.LastPageNeverRequested | com.bemaservices.SurveyGizmo/Jobs/SyncSurveyResults.cs:99-142 | the last reported page is never requested |
| Sync.EchoLastPageNeverFetched | com.bemaservices.SurveyGizmo/Jobs/SyncSurveyResults.cs:99 | against a service that echoes the page and reports `n >= 2` pages, the survey never requests page `n` |
| Sync.FailureKeepsEarlierPages | com.bemaservices.SurveyGizmo/Jobs/SyncSurveyResults.cs:137-228 | a failure on page 2 aborts with the status and description, and page 1's writes stay in the store |
| Sync.FailureStopsRun | com.bemaservices.SurveyGizmo/Jobs/SyncSurveyResults.cs:220-228 | once a survey fails, the surveys after it are never touched |
| Sync.UnparsableSurveyIdFails | com.bemaservices.SurveyGizmo/Jobs/SyncSurveyResults.cs:233-236 | a survey id that does not parse ends the run with the null-value exception and nothing done for it |
| Job.SyncJob.SetAttribute | com.bemaservices.SurveyGizmo/Jobs/SyncSurveyResults.cs:160-162 | one attribute of one person takes the value; everything else stays |
| Job.SyncJob.ScanAnswers | com.bemaservices.SurveyGizmo/Jobs/SyncSurveyResults.cs:182-208 | the loop over the answers leaves the person with the item's writes applied in order |
| Job.SyncJob.ApplyMatrix | com.bemaservices.SurveyGizmo/Jobs/SyncSurveyResults.cs:168-210 | the loop over the matrix items leaves the person with the matrix writes applied in order |
| Job.SyncJob.ProcessResponse | com.bemaservices.SurveyGizmo/Jobs/SyncSurveyResults.cs:147-214 | processing one response leaves the store that `ApplyResponse` describes, and the trace untouched |
| Job.SyncJob.ProcessPage | com.bemaservices.SurveyGizmo/Jobs/SyncSurveyResults.cs:145-218 | processing a page leaves the store that `ApplyAll` describes |
| Job.SyncJob.Fetch | com.bemaservices.SurveyGizmo/Jobs/SyncSurveyResults.cs:101-135 | one fetch appends a wait (except for page 1) and the request to the trace and returns the service's reply |
| Job.SyncJob.SyncSurvey | com.bemaservices.SurveyGizmo/Jobs/SyncSurveyResults.cs:95-231 | the page loop ends in the store, trace, count and status that `SurveyPages` describes |
| Job.SyncJob.Execute | com.bemaservices.SurveyGizmo/Jobs/SyncSurveyResults.cs:49-245 | a whole run ends in the store, trace and outcome that `JobRun` describes |

## Left out

- HTTP and JSON: the REST client and the JSON deserialiser are not modelled.
  A reply is a parsed `SurveyApiResponse` or a non-OK status with its description.
  A transport failure counts as a non-OK reply.
- Platform services: the person alias service, the person service, the
  attribute cache and the attribute matrix service are maps. A missing key
  stands for a null result.
- Parsers: `AsIntegerOrNull` and `AsGuidOrNull` are given functions.
- `AsDelimited` is taken as a plain join in which a null option answer joins
  as empty text.
- The survey defined type: its lookup through `DefinedTypeCache` is not
  modelled. The job is handed the list of its defined values.
- Clock and date: `Task.Delay` is recorded as a `Wait` event, not slept. The
  cutoff date is a given function of days-back, `dateBefore`. It is evaluated
  once per run, where the job re-reads today's date for every page. This
  matters only for a run that spans midnight.
- Scheduling and status: the Quartz scheduling and the concurrency attribute
  are not modelled. The status messages of the survey loop appear only as the
  `SurveyDone(count)` event. The running "responses processed" message and
  `this.Result` are not modelled.
- Job.SyncJob.SyncSurvey: a server that keeps reporting more pages would make
  the job loop forever. The model bounds each survey to `fuel` fetches and
  reports `OutOfFuel` when the bound runs out.
- Integer width: integers are unbounded. A 32-bit overflow of the page
  counter or the processed count is not modelled.
- Attribute writes: `LoadAttributes`, `SetAttributeValue` and
  `SaveAttributeValue` together are one plain set of the value in the store.
  Database transactions and other writers are not modelled.
- Null containers are not modelled. The job would throw in these cases:
  - a null `data` list in an OK reply, when the page is processed (line 145);
  - a null `url_variables` dictionary, for every response (line 147);
  - a null `UrlVariable` object, only when it sits under the key
    `rockpersonaliasguid` (line 147 filters on the key before reading the
    value);
  - a null `survey_data` dictionary, only when the response resolves to an
    existing person and the survey has a matrix item whose question id parses
    and whose attribute resolves (line 182).
  A null question (line 184), a null or empty `options` dictionary (line 190)
  and a null option (line 193) are all modelled.
- Error wrapping: an exception's type and stack are not modelled. Only the
  message is kept, which is all the `catch` block passes on.
