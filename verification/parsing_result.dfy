/** The record every operation of the parser returns. */
module ParsingResult {
  import opened Wrappers

  /** `result` is a Java `int`, so it reads 0 when the builder never set it;
      `isValid` and `nonValidityReason` are references that may stay null. */
  datatype RomanParsingResult = RomanParsingResult(
    result: int,
    isValid: Option<bool>,
    nonValidityReason: Option<string>)

  /** A valid result carrying `n`, with no reason. */
  function Valid(n: int): RomanParsingResult {
    RomanParsingResult(n, Some(true), None)
  }

  /** An invalid result with the given reason; `result` keeps its default 0. */
  function Invalid(reason: string): RomanParsingResult {
    RomanParsingResult(0, Some(false), Some(reason))
  }

  /** The record's intended invariant: validity is known, and a reason is
      present exactly when the record is invalid. */
  predicate ReasonIffInvalid(r: RomanParsingResult) {
    r.isValid.Some? && (r.nonValidityReason.Some? <==> r.isValid == Some(false))
  }
}
