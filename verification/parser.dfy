/** The orchestrator: validate the numeral, then the vinculum numeral (the
    part written under a bar, worth a thousand times its face value), and
    compute only when both pass. */
module Parser {
  import opened Wrappers
  import opened Constants
  import opened ParsingResult
  import opened Validator
  import opened Evaluator

  /** The numeral gets through the evaluator's pass without a stop. */
  predicate Computable(s: string) {
    RunsPast(s, |s|)
  }

  /** computeRomanNumeral: computes the numeral and, when present, the
      vinculum numeral, and combines them as `numeral + 1000 * vinculum`.
      Without a vinculum it is the numeral's own computation; with one it
      returns exactly when the evaluator gets through both numerals, and
      throws otherwise. */
  function ComputeRomanNumeral(numeral: string, vinculum: Option<string>): (o: Completion<RomanParsingResult>)
    ensures vinculum.None? ==> o == ComputeRomanNumeralWithoutVinculum(numeral)
    ensures vinculum.Some? ==> (o.Returned? <==> Computable(numeral) && Computable(vinculum.value))
    ensures vinculum.Some? && o.Returned? ==>
      AllSymbols(numeral) && AllSymbols(vinculum.value)
      && o == Returned(Valid(ClosedForm(numeral) + 1000 * ClosedForm(vinculum.value)))
  {
    match ComputeRomanNumeralWithoutVinculum(numeral)
    case NullPointerException => NullPointerException
    case Returned(simple) =>
      match vinculum
      case None => Returned(simple)
      case Some(bar) =>
        match ComputeRomanNumeralWithoutVinculum(bar)
        case NullPointerException => NullPointerException
        case Returned(over) =>
          // `&&` unboxes both validity flags; when the verdict is false the
          // conditional yields a null Integer, and the builder's int setter
          // unboxes it
          if simple.isValid == Some(true) && over.isValid == Some(true) then
            Returned(RomanParsingResult(simple.result + over.result * 1000, Some(true), None))
          else NullPointerException
  }

  /** For two numerals of table symbols the combination returns exactly when
      the evaluator gets through both, and then carries `numeral + 1000 *
      vinculum` in their classical readings; otherwise it throws. */
  lemma CombinationOfTableNumerals(numeral: string, bar: string)
    requires AllSymbols(numeral) && AllSymbols(bar)
    ensures ComputeRomanNumeral(numeral, Some(bar)).Returned? <==> Computable(numeral) && Computable(bar)
    ensures ComputeRomanNumeral(numeral, Some(bar)).Returned? ==>
      ComputeRomanNumeral(numeral, Some(bar)) == Returned(Valid(ClassicalValue(numeral) + 1000 * ClassicalValue(bar)))
  {
    TableNumeralOutcome(numeral);
    TableNumeralOutcome(bar);
  }

  /** Parses a numeral with an optional vinculum numeral, short-circuiting on
      the first rejection in a fixed order: the numeral's rejection is
      returned unchanged, then the vinculum's, and without a vinculum the
      result is the numeral's own computation, guard failure included. */
  function ParseRomanNumeral(numeral: string, vinculum: Option<string>): (o: Completion<RomanParsingResult>)
    ensures ValidateRomanNumeral(numeral).Some? ==> o == Returned(ValidateRomanNumeral(numeral).value)
    ensures ValidateRomanNumeral(numeral).None? && vinculum.Some?
            && ValidateRomanNumeral(vinculum.value).Some? ==>
      o == Returned(ValidateRomanNumeral(vinculum.value).value)
    ensures ValidateRomanNumeral(numeral).None? && vinculum.None? ==>
      o == ComputeRomanNumeralWithoutVinculum(numeral)
  {
    var rejection := ValidateRomanNumeral(numeral);
    if rejection.Some? then Returned(rejection.value)
    else
      var barRejection := if vinculum.Some? then ValidateRomanNumeral(vinculum.value) else None;
      if barRejection.Some? then Returned(barRejection.value)
      else ComputeRomanNumeral(numeral, vinculum)
  }

  /** With both parts accepted by the validator, parsing combines their
      classical readings as `numeral + 1000 * vinculum` when the evaluator
      gets through both, and throws otherwise. */
  lemma ParseCombinesVinculum(numeral: string, bar: string)
    requires ValidateRomanNumeral(numeral).None? && ValidateRomanNumeral(bar).None?
    ensures ParseRomanNumeral(numeral, Some(bar)).Returned? <==> Computable(numeral) && Computable(bar)
    ensures ParseRomanNumeral(numeral, Some(bar)).Returned? ==>
      AllSymbols(numeral) && AllSymbols(bar)
      && ParseRomanNumeral(numeral, Some(bar)) == Returned(Valid(ClassicalValue(numeral) + 1000 * ClassicalValue(bar)))
  {
    AcceptedNumeralUsesTableSymbols(numeral);
    AcceptedNumeralUsesTableSymbols(bar);
    CombinationOfTableNumerals(numeral, bar);
  }

  /** When the numeral is rejected the vinculum is never looked at. */
  lemma ParseIgnoresVinculumWhenNumeralRejected(numeral: string, first: Option<string>, second: Option<string>)
    requires ValidateRomanNumeral(numeral).Some?
    ensures ParseRomanNumeral(numeral, first) == ParseRomanNumeral(numeral, second)
    ensures ParseRomanNumeral(numeral, first).Returned?
    ensures ParseRomanNumeral(numeral, first).value.isValid == Some(false)
  {
  }

  /** Parsing throws only in one place: both parts pass validation and at
      least one of them is stopped by the evaluator. */
  lemma ParseThrowsOnlyWhenCombiningInvalid(numeral: string, vinculum: Option<string>)
    ensures ParseRomanNumeral(numeral, vinculum).NullPointerException? <==>
      && vinculum.Some?
      && ValidateRomanNumeral(numeral).None?
      && ValidateRomanNumeral(vinculum.value).None?
      && !(Computable(numeral) && Computable(vinculum.value))
  {
    if ValidateRomanNumeral(numeral).None? {
      AcceptedNumeralUsesTableSymbols(numeral);
      TableNumeralOutcome(numeral);
      if vinculum.Some? && ValidateRomanNumeral(vinculum.value).None? {
        ParseCombinesVinculum(numeral, vinculum.value);
      }
    }
  }

  /** Every record parsing returns carries a validity verdict, and a reason
      exactly when it is invalid: the combined failure that would break this
      throws instead of returning. */
  lemma ParseResultWellFormed(numeral: string, vinculum: Option<string>)
    ensures ParseRomanNumeral(numeral, vinculum).Returned? ==>
      ReasonIffInvalid(ParseRomanNumeral(numeral, vinculum).value)
  {
    if ValidateRomanNumeral(numeral).None? {
      AcceptedNumeralUsesTableSymbols(numeral);
      TableNumeralOutcome(numeral);
      if vinculum.Some? && ValidateRomanNumeral(vinculum.value).None? {
        ParseCombinesVinculum(numeral, vinculum.value);
      }
    }
  }

  /** The sample call in `main`: XXIX with the vinculum CXVII is 117029. */
  lemma SampleParse()
    ensures ParseRomanNumeral("XXIX", Some("CXVII")) == Returned(Valid(117029))
  {
    SampleNumeralAccepted();
    SampleVinculumAccepted();
    SampleValues();
  }

  /** Without a vinculum, parsing is the numeral's own computation. */
  lemma SampleParseWithoutVinculum()
    ensures ParseRomanNumeral("XXIX", None) == Returned(Valid(29))
  {
    SampleNumeralAccepted();
    SampleValues();
  }

  /** X passes, IM passes validation but is stopped by the guard, so the
      combination throws. */
  lemma SampleParseThrows()
    ensures ParseRomanNumeral("X", Some("IM")) == NullPointerException
  {
    GuardOnlyNumeralAccepted();
    GuardBoundary();
  }
}
