/**
 * The job's global settings: how the raw attribute values become the values
 * the run uses, the guard that decides whether the run talks to the service
 * at all, and the wait between two page requests.
 */
module Config {
  import opened Wrappers
  import opened Text

  /** The raw "DaysBack", "APIToken", "APITokenSecret", "APIBaseURL" and
      "APIRequestsPerMinute" attribute values of the job. */
  datatype Settings = Settings(
    daysBack: string,
    apiToken: string,
    apiTokenSecret: string,
    apiBaseUrl: string,
    requestsPerMinute: string)

  /** The settings as the run uses them. */
  datatype JobConfig = JobConfig(
    daysBack: int,
    apiToken: string,
    apiTokenSecret: string,
    apiBaseUrl: string,
    requestsPerMinute: int)

  const DefaultDaysBack: int := 1
  const DefaultRequestsPerMinute: int := 30

  /** A millisecond wait is spread over one minute. */
  const MillisecondsPerMinute: int := 60000

  /**
   * Unparsable numbers fall back to their defaults (1 day, 30 requests a
   * minute), and the base URL loses its trailing slashes and nothing else.
   */
  function Normalize(s: Settings, asInteger: string -> Option<int>): (c: JobConfig)
    ensures c.apiToken == s.apiToken && c.apiTokenSecret == s.apiTokenSecret
    ensures asInteger(s.daysBack).None? ==> c.daysBack == DefaultDaysBack
    ensures asInteger(s.daysBack).Some? ==> c.daysBack == asInteger(s.daysBack).value
    ensures asInteger(s.requestsPerMinute).None? ==> c.requestsPerMinute == DefaultRequestsPerMinute
    ensures asInteger(s.requestsPerMinute).Some? ==> c.requestsPerMinute == asInteger(s.requestsPerMinute).value
    ensures c.apiBaseUrl <= s.apiBaseUrl
    ensures forall i :: |c.apiBaseUrl| <= i < |s.apiBaseUrl| ==> s.apiBaseUrl[i] == '/'
    ensures c.apiBaseUrl == [] || c.apiBaseUrl[|c.apiBaseUrl| - 1] != '/'
  {
    JobConfig(
      asInteger(s.daysBack).GetOr(DefaultDaysBack),
      s.apiToken,
      s.apiTokenSecret,
      TrimEnd(s.apiBaseUrl, '/'),
      asInteger(s.requestsPerMinute).GetOr(DefaultRequestsPerMinute))
  }

  /** The run does any work only when token, secret and base URL all have text. */
  predicate ConfigOk(c: JobConfig) {
    HasText(c.apiToken) && HasText(c.apiTokenSecret) && HasText(c.apiBaseUrl)
  }

  /** A base URL made of slashes only is trimmed to nothing, so the run is refused. */
  lemma SlashesOnlyBaseUrlRefused(s: Settings, asInteger: string -> Option<int>)
    requires forall i :: 0 <= i < |s.apiBaseUrl| ==> s.apiBaseUrl[i] == '/'
    ensures Normalize(s, asInteger).apiBaseUrl == []
    ensures !ConfigOk(Normalize(s, asInteger))
  {
  }

  /**
   * The wait between two pages of one survey, in milliseconds: a minute
   * divided by the configured rate, a rate below 1 counting as 1.
   */
  function Delay(requestsPerMinute: int): (ms: int)
    ensures 0 <= ms <= MillisecondsPerMinute
    ensures requestsPerMinute <= 1 ==> ms == MillisecondsPerMinute
    ensures requestsPerMinute >= 1 ==>
      ms * requestsPerMinute <= MillisecondsPerMinute < (ms + 1) * requestsPerMinute
  {
    MillisecondsPerMinute / (if requestsPerMinute < 1 then 1 else requestsPerMinute)
  }

  /** A higher rate never waits longer. */
  lemma DelayAntitone(r1: int, r2: int)
    requires r1 <= r2
    ensures Delay(r2) <= Delay(r1)
  {
    var a, b := if r1 < 1 then 1 else r1, if r2 < 1 then 1 else r2;
    var q1, q2 := Delay(r1), Delay(r2);
    assert q1 == Delay(a) && q2 == Delay(b);
    MulMonotone(a, b, q2);
    assert q2 * a <= MillisecondsPerMinute < (q1 + 1) * a;
    MulCancel(q2, q1 + 1, a);
  }

  lemma MulCancel(x: int, y: int, z: int)
    requires 0 < z && x * z < y * z
    ensures x < y
  {
  }

  lemma MulMonotone(x: int, y: int, z: int)
    requires x <= y && 0 <= z
    ensures x * z <= y * z && z * x <= z * y
  {
  }
}
