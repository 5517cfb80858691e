/**
 * The "list survey responses" request: `GET {base}/survey/{id}/surveyresponse`
 * with twelve query parameters in a fixed order.
 */
module Query {
  import opened Wrappers
  import opened Text
  import opened Config

  /** A GET request: the client's base URL, the resource path and the query
      parameters in the order they were added. */
  datatype Request = Request(baseUrl: string, path: string, query: seq<(string, string)>)

  /** The URL variable that carries the respondent's person alias guid. */
  const AliasVariable: string := "rockpersonaliasguid"

  /** The filter field naming the alias URL variable. */
  const AliasFilter: string := "[url(\"rockpersonaliasguid\")]"

  /** Page size asked of the service. */
  const ResultsPerPage: string := "30"

  /** The parameter names, in the order the job adds them. */
  const QueryKeys: seq<string> := [
    "api_token", "api_token_secret", "page", "resultsperpage",
    "filter[field][0]", "filter[operator][0]", "filter[value][0]",
    "filter[field][1]", "filter[operator][1]",
    "filter[field][2]", "filter[operator][2]", "filter[value][2]"]

  function SurveyPath(surveyId: int): string {
    "/survey/" + IntToDecimal(surveyId) + "/surveyresponse"
  }

  /**
   * The request for one page of one survey: complete responses that carry the
   * alias URL variable and were submitted on or after `cutoff` (a
   * `yyyy-MM-dd` date).
   */
  function BuildRequest(c: JobConfig, surveyId: int, page: int, cutoff: string): Request {
    Request(
      c.apiBaseUrl,
      SurveyPath(surveyId),
      [ ("api_token", c.apiToken),
        ("api_token_secret", c.apiTokenSecret),
        ("page", IntToDecimal(page)),
        ("resultsperpage", ResultsPerPage),
        ("filter[field][0]", "status"),
        ("filter[operator][0]", "="),
        ("filter[value][0]", "complete"),
        ("filter[field][1]", AliasFilter),
        ("filter[operator][1]", "IS NOT NULL"),
        ("filter[field][2]", "date_submitted"),
        ("filter[operator][2]", ">="),
        ("filter[value][2]", cutoff) ])
  }

  /** The value of the first parameter named `key`, as a server reads it. */
  function Lookup(query: seq<(string, string)>, key: string): Option<string> {
    if query == [] then None
    else if query[0].0 == key then Some(query[0].1)
    else Lookup(query[1..], key)
  }

  /** The page number a server reads off a request. */
  function PageOf(r: Request): Option<int> {
    match Lookup(r.query, "page")
    case None => None
    case Some(v) => DecimalValue(v)
  }

  /** No parameter name occurs twice, so a server reads each one unambiguously. */
  lemma QueryKeysDistinct()
    ensures forall i, j :: 0 <= i < j < |QueryKeys| ==> QueryKeys[i] != QueryKeys[j]
  {
  }

  /**
   * Every request goes to the survey's response path on the configured base URL
   * and carries exactly the twelve parameters, named in the fixed order.
   */
  lemma RequestShape(c: JobConfig, surveyId: int, page: int, cutoff: string)
    ensures var r := BuildRequest(c, surveyId, page, cutoff);
      && r.baseUrl == c.apiBaseUrl
      && r.path == SurveyPath(surveyId)
      && |r.query| == |QueryKeys|
      && (forall i :: 0 <= i < |QueryKeys| ==> r.query[i].0 == QueryKeys[i])
  {
    var r := BuildRequest(c, surveyId, page, cutoff);
    forall i | 0 <= i < |QueryKeys| ensures r.query[i].0 == QueryKeys[i] {
      if i < 6 {
        if i < 3 {
          assert i == 0 || i == 1 || i == 2;
        } else {
          assert i == 3 || i == 4 || i == 5;
        }
      } else {
        if i < 9 {
          assert i == 6 || i == 7 || i == 8;
        } else {
          assert i == 9 || i == 10 || i == 11;
        }
      }
    }
  }

  /**
   * The parameter values: the credentials, the page, a page size of 30, and the
   * filters status = complete, alias URL variable IS NOT NULL and
   * date_submitted >= cutoff.
   */
  lemma RequestValues(c: JobConfig, surveyId: int, page: int, cutoff: string)
    ensures var q := BuildRequest(c, surveyId, page, cutoff).query;
      && |q| == 12
      && q[0].1 == c.apiToken && q[1].1 == c.apiTokenSecret
      && q[2].1 == IntToDecimal(page) && q[3].1 == "30"
      && q[4].1 == "status" && q[5].1 == "=" && q[6].1 == "complete"
      && q[7].1 == AliasFilter && q[8].1 == "IS NOT NULL"
      && q[9].1 == "date_submitted" && q[10].1 == ">=" && q[11].1 == cutoff
  {
  }

  /** A server reading the `page` parameter of a request recovers the requested page. */
  lemma PageOfRequest(c: JobConfig, surveyId: int, page: int, cutoff: string)
    ensures PageOf(BuildRequest(c, surveyId, page, cutoff)) == Some(page)
  {
    var r := BuildRequest(c, surveyId, page, cutoff);
    assert r.query[2] == ("page", IntToDecimal(page));
    assert r.query[0].0 != "page" && r.query[1].0 != "page";
    LookupFirst(r.query, 2);
    DecimalRoundTrip(page);
  }

  /** The first parameter with a given name is the one a lookup finds. */
  lemma {:induction false} LookupFirst(query: seq<(string, string)>, i: nat)
    requires i < |query|
    requires forall j :: 0 <= j < i ==> query[j].0 != query[i].0
    ensures Lookup(query, query[i].0) == Some(query[i].1)
  {
    if i > 0 {
      LookupFirst(query[1..], i - 1);
    }
  }

  /** Requests for different pages or different surveys are different requests. */
  lemma RequestsDistinct(c: JobConfig, id1: int, p1: int, id2: int, p2: int, cutoff: string)
    requires (id1, p1) != (id2, p2)
    ensures BuildRequest(c, id1, p1, cutoff) != BuildRequest(c, id2, p2, cutoff)
  {
    var r1, r2 := BuildRequest(c, id1, p1, cutoff), BuildRequest(c, id2, p2, cutoff);
    if p1 != p2 {
      PageOfRequest(c, id1, p1, cutoff);
      PageOfRequest(c, id2, p2, cutoff);
      assert PageOf(r1) != PageOf(r2);
    } else {
      DecimalRoundTrip(id1);
      DecimalRoundTrip(id2);
      SurveyPathsDiffer(IntToDecimal(id1), IntToDecimal(id2));
    }
  }

  /** Different id digits give different survey paths. */
  lemma SurveyPathsDiffer(d1: string, d2: string)
    requires d1 != d2
    ensures "/survey/" + d1 + "/surveyresponse" != "/survey/" + d2 + "/surveyresponse"
  {
    var p1, p2 := "/survey/" + d1 + "/surveyresponse", "/survey/" + d2 + "/surveyresponse";
    assert d1 == p1[8..|p1| - 15];
    assert d2 == p2[8..|p2| - 15];
  }
}
