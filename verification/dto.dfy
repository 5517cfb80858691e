/**
 * The JSON records of the survey service's "list survey responses" reply, as
 * already deserialised values. A JSON dictionary is a sequence of key/value
 * pairs in payload order; a string or object that the JSON may leave null is
 * an `Option`.
 */
module Dto {
  import opened Wrappers

  /** A JSON string that may be null. */
  type NString = Option<string>

  /** One option of a multiple-choice question (`options` entries). */
  datatype SurveyQuestionOptions = SurveyQuestionOptions(id: int, option: NString, answer: NString)

  /** One answered question (`survey_data` entries). */
  datatype SurveyQuestion = SurveyQuestion(
    id: int,
    questionType: NString,
    question: NString,
    answer: NString,
    sectionId: NString,
    shown: bool,
    options: Option<seq<(string, Option<SurveyQuestionOptions>)>>)

  /** A URL variable the respondent arrived with (`url_variables` entries). */
  datatype UrlVariable = UrlVariable(key: NString, value: NString, variableType: NString)

  /** One survey response (`data` items). */
  datatype SurveyResults = SurveyResults(
    id: Option<int>,
    status: NString,
    urlVariables: seq<(string, UrlVariable)>,
    surveyData: seq<(string, Option<SurveyQuestion>)>)

  /** The paged envelope. */
  datatype SurveyApiResponse = SurveyApiResponse(
    totalCount: int,
    page: int,
    totalPages: int,
    resultsPerPage: int,
    surveyResults: seq<SurveyResults>)
}
