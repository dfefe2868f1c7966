/** The form validator: three pattern rules checked in a fixed order, whose
    messages are accumulated into one reason. */
module Validator {
  import opened Wrappers
  import opened Constants
  import opened Regex
  import opened Patterns
  import opened ParsingResult

  /** Rule 1 fires when the first pattern does NOT match. */
  ghost predicate ViolatesAllowedCharacters(s: string) {
    !Matches(AllowedCharactersPattern, s)
  }

  /** Rule 2 fires when one of the four repetition patterns matches. */
  ghost predicate ViolatesThreeRepetitions(s: string) {
    || Matches(RepeatedSymbolPattern('I'), s)
    || Matches(RepeatedSymbolPattern('X'), s)
    || Matches(RepeatedSymbolPattern('C'), s)
    || Matches(RepeatedSymbolPattern('M'), s)
  }

  /** Rule 3 fires when the third pattern matches. */
  ghost predicate ViolatesNoRepetition(s: string) {
    Matches(NonRepeatableRunPattern, s)
  }

  /** The messages of the rules that fire, in rule order. */
  ghost function FiredMessages(s: string): seq<string> {
    (if ViolatesAllowedCharacters(s) then [CharactersExpressionsAllowedRestrictionRule] else [])
    + (if ViolatesThreeRepetitions(s) then [ThreeConsecutiveRepetitionRule] else [])
    + (if ViolatesNoRepetition(s) then [NoRepetitionRule] else [])
  }

  /** The messages separated by ", ". */
  function Join(messages: seq<string>): string {
    if |messages| == 0 then ""
    else if |messages| == 1 then messages[0]
    else messages[0] + ", " + Join(messages[1..])
  }

  /** One step of validateRomanNumeral's accumulation: the first message stands alone,
      each later one is appended after ", ". */
  function AppendReason(acc: Option<string>, message: string): string {
    match acc
    case None => message
    case Some(previous) => previous + ", " + message
  }

  /** Executable form of rule 2: the whole input repeats I, X, C or M at least
      four times. */
  predicate IsLongRepetition(s: string) {
    IsRepetitionOf(s, 'I') || IsRepetitionOf(s, 'X') || IsRepetitionOf(s, 'C') || IsRepetitionOf(s, 'M')
  }

  /** Rule 2's executable form decides the four repetition patterns. */
  lemma LongRepetitionMeaning(s: string)
    ensures ViolatesThreeRepetitions(s) <==> IsLongRepetition(s)
  {
    RepeatedSymbolPatternMeaning(s, 'I');
    RepeatedSymbolPatternMeaning(s, 'X');
    RepeatedSymbolPatternMeaning(s, 'C');
    RepeatedSymbolPatternMeaning(s, 'M');
  }

  /** Rule 3's executable form decides the third pattern. */
  lemma NonRepeatableRunMeaning(s: string)
    ensures ViolatesNoRepetition(s) <==> HasNonRepeatableRun(s)
  {
    NonRepeatableRunPatternMeaning(s);
    NonRepeatableRunScan(s);
  }

  /** The messages of the rules whose executable forms fire, in rule order. */
  function FiredRules(s: string): seq<string> {
    (if !HasAllowedCharacters(s) then [CharactersExpressionsAllowedRestrictionRule] else [])
    + (if IsLongRepetition(s) then [ThreeConsecutiveRepetitionRule] else [])
    + (if HasNonRepeatableRun(s) then [NoRepetitionRule] else [])
  }

  /** The executable rules fire exactly when their patterns do. */
  lemma FiredRulesArePatternVerdicts(s: string)
    ensures FiredRules(s) == FiredMessages(s)
  {
    AllowedCharactersPatternMeaning(s);
    LongRepetitionMeaning(s);
    NonRepeatableRunMeaning(s);
  }

  /** Returns None (Java's null) when no rule fires; otherwise an invalid
      result whose reason is the fired messages, in rule order, joined by ", ". */
  function ValidateRomanNumeral(s: string): (r: Option<RomanParsingResult>)
    ensures r.None? <==> FiredRules(s) == []
    ensures r.Some? ==> r.value == Invalid(Join(FiredRules(s)))
  {
    var afterRule1 :=
      if !HasAllowedCharacters(s) then Some(CharactersExpressionsAllowedRestrictionRule) else None;
    var afterRule2 :=
      if IsLongRepetition(s) then Some(AppendReason(afterRule1, ThreeConsecutiveRepetitionRule))
      else afterRule1;
    var afterRule3 :=
      if HasNonRepeatableRun(s) then Some(AppendReason(afterRule2, NoRepetitionRule))
      else afterRule2;
    match afterRule3
    case None => None
    case Some(reason) => Some(Invalid(reason))
  }

  /** Validation decides the three patterns under matches(): it accepts
      exactly when no rule fires, and otherwise reports the fired rules'
      messages in rule order, joined by ", ". */
  lemma ValidationFollowsPatterns(s: string)
    ensures ValidateRomanNumeral(s).None? <==> FiredMessages(s) == []
    ensures ValidateRomanNumeral(s).Some? ==>
      ValidateRomanNumeral(s).value == Invalid(Join(FiredMessages(s)))
  {
    FiredRulesArePatternVerdicts(s);
  }

  /** An input that passes validation is made of the seven table symbols. */
  lemma AcceptedNumeralUsesTableSymbols(s: string)
    requires ValidateRomanNumeral(s).None?
    ensures forall i | 0 <= i < |s| :: IsRomanSymbol(s[i])
  {
    RomanClassIsTableKeys();
  }

  /** Rule 2 excludes rules 1 and 3: a long run of one repeatable symbol uses
      allowed characters and contains no V, L or D. */
  lemma LongRepetitionExcludesOthers(s: string)
    requires IsLongRepetition(s)
    ensures HasAllowedCharacters(s)
    ensures !HasNonRepeatableRun(s)
  {
    var c := s[0];
    assert forall i | 0 <= i < |s| :: s[i] == c;
    assert s[..2] == [c, c];
    NonRepeatableRunScan(s);
    SplitsAtIndices(s);
  }

  /** Rule 3 excludes rule 1: the shape uses only table symbols, and it cannot
      begin with VX, LC or DM. */
  lemma NonRepeatableRunExcludesDisallowed(s: string)
    requires HasNonRepeatableRun(s)
    ensures HasAllowedCharacters(s)
  {
    NonRepeatableRunScan(s);
    SplitsAtIndices(s);
    var k1: nat, k2: nat :| SplitsAt(s, k1, k2);
    forall i | 0 <= i < |s|
      ensures s[i] in RomanClass
    {
      if i < k1 {
        assert s[..k1][i] == s[i];
      } else if i < k2 {
        assert s[k1..k2][i - k1] == s[i];
      } else {
        assert s[k2..][i - k2] == s[i];
      }
    }
    if k1 == 0 {
      assert s[0] == s[k1..k2][0] && s[1] == s[k1..k2][1];
    } else {
      assert s[0] == s[..k1][0];
    }
  }

  /** The three rules are pairwise exclusive, so at most one message fires. */
  lemma AtMostOneRuleFires(s: string)
    ensures !(ViolatesAllowedCharacters(s) && ViolatesThreeRepetitions(s))
    ensures !(ViolatesAllowedCharacters(s) && ViolatesNoRepetition(s))
    ensures !(ViolatesThreeRepetitions(s) && ViolatesNoRepetition(s))
    ensures |FiredMessages(s)| <= 1
  {
    AllowedCharactersPatternMeaning(s);
    LongRepetitionMeaning(s);
    NonRepeatableRunMeaning(s);
    if IsLongRepetition(s) {
      LongRepetitionExcludesOthers(s);
    }
    if HasNonRepeatableRun(s) {
      NonRepeatableRunExcludesDisallowed(s);
    }
  }

  /** A rejection's reason is always exactly one of the three rule messages,
      never a joined list. */
  lemma RejectionReasonIsOneMessage(s: string)
    requires ValidateRomanNumeral(s).Some?
    ensures ValidateRomanNumeral(s).value.nonValidityReason.Some?
    ensures ValidateRomanNumeral(s).value.nonValidityReason.value
            in {CharactersExpressionsAllowedRestrictionRule, ThreeConsecutiveRepetitionRule, NoRepetitionRule}
  {
    AtMostOneRuleFires(s);
    FiredRulesArePatternVerdicts(s);
  }

  /** Rule 1 rejects a numeral that begins with a forbidden pair, but not
      one that contains the pair further on. */
  lemma ForbiddenPairExamples()
    ensures ValidateRomanNumeral("VX") == Some(Invalid(CharactersExpressionsAllowedRestrictionRule))
    ensures ValidateRomanNumeral("XVX") == None
  {
    assert "VX"[..2] == "VX";
    assert LeadingRun("VX", RepeatableClass) == 0;
    assert LeadingRun("VX", NonRepeatableClass) == 1;
    assert "XVX"[..2] == "XV";
    assert LeadingRun("XVX", RepeatableClass) == 1;
    assert "XVX"[1..] == "VX";
  }

  /** Rule 2 rejects a numeral that is wholly four I's. */
  lemma LongRepetitionRejected()
    ensures ValidateRomanNumeral("IIII") == Some(Invalid(ThreeConsecutiveRepetitionRule))
  {
    assert "IIII"[..2] == "II";
    assert LeadingRun("IIII", RepeatableClass) == 4;
  }

  /** Rule 2 misses four I's that follow another symbol. */
  lemma EmbeddedRepetitionAccepted()
    ensures ValidateRomanNumeral("XIIII") == None
  {
    assert "XIIII"[..2] == "XI";
    assert "XIIII"[0] == 'X' && "XIIII"[1] == 'I';
    assert LeadingRun("XIIII", RepeatableClass) == 5;
  }

  /** Rule 3 rejects a contiguous run of V, L, D, mixed ones included. */
  lemma NonRepeatableRunRejected()
    ensures ValidateRomanNumeral("VV") == Some(Invalid(NoRepetitionRule))
    ensures ValidateRomanNumeral("VL") == Some(Invalid(NoRepetitionRule))
  {
    assert "VV"[..2] == "VV";
    assert LeadingRun("VV", RepeatableClass) == 0;
    assert LeadingRun("VV", NonRepeatableClass) == 2;
    assert "VL"[..2] == "VL";
    assert LeadingRun("VL", RepeatableClass) == 0;
    assert LeadingRun("VL", NonRepeatableClass) == 2;
  }

  /** Rule 3 misses V's that another symbol separates. */
  lemma SeparatedNonRepeatableAccepted()
    ensures ValidateRomanNumeral("VVXV") == None
  {
    assert "VVXV"[..2] == "VV";
    assert LeadingRun("VVXV", RepeatableClass) == 0;
    assert LeadingRun("VVXV", NonRepeatableClass) == 2;
    assert "VVXV"[2..] == "XV";
    assert LeadingRun("XV", RepeatableClass) == 1;
  }

  /** The numeral of the sample call in `main` passes validation. */
  lemma SampleNumeralAccepted()
    ensures ValidateRomanNumeral("XXIX") == None
  {
    assert LeadingRun("XXIX", RepeatableClass) == 4;
    assert "XXIX"[0] == 'X' && "XXIX"[2] == 'I';
    assert "XXIX"[..2] == "XX";
  }

  /** The vinculum numeral of the sample call in `main` passes validation. */
  lemma SampleVinculumAccepted()
    ensures ValidateRomanNumeral("CXVII") == None
  {
    assert LeadingRun("CXVII", RepeatableClass) == 2;
    assert "CXVII"[2..] == "VII";
    assert LeadingRun("VII", NonRepeatableClass) == 1;
    assert "CXVII"[0] == 'C' && "CXVII"[1] == 'X';
    assert "CXVII"[..2] == "CX";
  }

  /** IM passes validation: only the evaluator's guard rejects it. */
  lemma GuardOnlyNumeralAccepted()
    ensures ValidateRomanNumeral("X") == None
    ensures ValidateRomanNumeral("IM") == None
  {
    assert "IM"[..2] == "IM";
    assert LeadingRun("IM", RepeatableClass) == 2;
  }
}
