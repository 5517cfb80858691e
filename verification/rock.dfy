/**
 * The host platform as the job sees it: the string parsers it calls, the
 * lookups it makes (person aliases, attributes, attribute matrices) and the
 * configured survey defined values. Lookups that may return null are maps
 * whose missing keys are the null case.
 */
module Rock {
  import opened Wrappers

  /** A 128-bit globally unique identifier. */
  newtype Guid = x: int | 0 <= x < 0x1_0000_0000_0000_0000_0000_0000_0000_0000

  type PersonId = int

  /** A person's attribute values, by attribute key. */
  type Attributes = map<string, string>

  /** The person store: every existing person and that person's attribute values. */
  type Store = map<PersonId, Attributes>

  /** `AsIntegerOrNull` and `AsGuidOrNull`, taken as given functions. */
  datatype Parsers = Parsers(asInteger: string -> Option<int>, asGuid: string -> Option<Guid>)

  /** `AsGuidOrNull` on a string that may itself be null. */
  function GuidOf(p: Parsers, s: Option<string>): Option<Guid> {
    match s
    case None => None
    case Some(t) => p.asGuid(t)
  }

  /** One row of a question-mapping matrix: its raw "QuestionId" and
      "PersonAttribute" attribute values. */
  datatype MatrixItem = MatrixItem(questionId: string, personAttribute: string)

  /** A configured survey: the defined value's `Value` (the survey id) and its
      "PersonAttribute" and "QuestionMapping" attribute values. */
  datatype DefinedValue = DefinedValue(value: string, personAttribute: string, questionMapping: string)

  /**
   * The lookups the job makes:
   * - aliases: person alias guid to the alias's PersonId (`PersonAliasService.Get`);
   * - attributes: attribute guid to the attribute's key (`AttributeCache.Get`);
   * - matrices: attribute matrix guid to its items (`AttributeMatrixService.Get`).
   */
  datatype Environment = Environment(
    parsers: Parsers,
    aliases: map<Guid, PersonId>,
    attributes: map<Guid, string>,
    matrices: map<Guid, seq<MatrixItem>>)

  /** The key of the attribute whose guid is stored in `raw`, if it parses and exists. */
  function AttributeKey(env: Environment, raw: string): Option<string> {
    match env.parsers.asGuid(raw)
    case None => None
    case Some(g) => if g in env.attributes then Some(env.attributes[g]) else None
  }
}
