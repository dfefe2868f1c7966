/** The constants the parser works with: the four rule messages and the table
    from Roman symbols to their integer values. */
module Constants {

  const CharactersExpressionsAllowedRestrictionRule: string :=
    "The Roman numerals should contain only these characters :  (I, V, X, L, C, D, M) and (VX, LC, DM) are forbidden combinations"

  const ThreeConsecutiveRepetitionRule: string :=
    "The Roman numerals can not have more than 3 consecutive repetitions of these characters : (I, X, C, M)"

  const NoRepetitionRule: string :=
    "The Roman numerals can not have more than 1 repetition on these characters : (V, L, D)"

  /** A prefix: the evaluator appends the two offending symbols to it. */
  const ComputationRule: string :=
    "The Roman numerals can not have these two symbols in this order : "

  const RomanSymbolsToInteger: map<char, int> :=
    map['I' := 1, 'V' := 5, 'X' := 10, 'L' := 50, 'C' := 100, 'D' := 500, 'M' := 1000]

  /** The seven symbols, from the smallest value to the largest. */
  const SymbolsInOrder: string := "IVXLCDM"

  predicate IsRomanSymbol(c: char) {
    c in RomanSymbolsToInteger
  }

  /** The value of a symbol; looking up any other character yields a null
      Integer in the Java map lookup, which the caller must rule out. */
  function Value(c: char): (v: int)
    requires IsRomanSymbol(c)
    ensures 1 <= v <= 1000
  {
    RomanSymbolsToInteger[c]
  }

  /** The reason the evaluator reports for the adjacent pair `a` `b`. */
  function ComputationReason(a: char, b: char): (reason: string)
    ensures |reason| == |ComputationRule| + 2
    ensures reason[..|ComputationRule|] == ComputationRule
    ensures reason[|ComputationRule|] == a && reason[|ComputationRule| + 1] == b
  {
    ComputationRule + [a, b]
  }

  /** The table has exactly the seven symbols as keys, with the classical values. */
  lemma SymbolTableContents()
    ensures forall c :: IsRomanSymbol(c) <==> c in SymbolsInOrder
    ensures Value('I') == 1 && Value('V') == 5 && Value('X') == 10 && Value('L') == 50
    ensures Value('C') == 100 && Value('D') == 500 && Value('M') == 1000
    ensures |RomanSymbolsToInteger| == 7
  {
    assert RomanSymbolsToInteger.Keys == {'I', 'V', 'X', 'L', 'C', 'D', 'M'};
  }

  /** Values strictly increase along I, V, X, L, C, D, M. */
  lemma ValuesStrictlyIncrease()
    ensures forall c :: c in SymbolsInOrder ==> IsRomanSymbol(c)
    ensures forall i, j :: 0 <= i < j < |SymbolsInOrder| ==>
      Value(SymbolsInOrder[i]) < Value(SymbolsInOrder[j])
  {
    SymbolTableContents();
  }

  /** Whenever one symbol is worth more than another it is worth at least
      twice as much, so a subtractive step `cur - 2 * prev` is never negative. */
  lemma LargerValueAtLeastDoubles(a: char, b: char)
    requires IsRomanSymbol(a) && IsRomanSymbol(b)
    ensures Value(a) < Value(b) ==> 2 * Value(a) <= Value(b)
  {
    SymbolTableContents();
  }

  /** The four messages are distinct, and no reason the evaluator builds can be
      mistaken for one of the three form-rule messages. */
  lemma RuleMessagesDistinct(a: char, b: char)
    ensures CharactersExpressionsAllowedRestrictionRule != ThreeConsecutiveRepetitionRule
    ensures CharactersExpressionsAllowedRestrictionRule != NoRepetitionRule
    ensures ThreeConsecutiveRepetitionRule != NoRepetitionRule
    ensures ComputationRule != CharactersExpressionsAllowedRestrictionRule
    ensures ComputationRule != ThreeConsecutiveRepetitionRule
    ensures ComputationRule != NoRepetitionRule
    ensures ComputationReason(a, b) != CharactersExpressionsAllowedRestrictionRule
    ensures ComputationReason(a, b) != ThreeConsecutiveRepetitionRule
    ensures ComputationReason(a, b) != NoRepetitionRule
  {
  }

  /** A computation reason names its pair: distinct pairs give distinct reasons. */
  lemma ComputationReasonInjective(a: char, b: char, c: char, d: char)
    ensures ComputationReason(a, b) == ComputationReason(c, d) <==> a == c && b == d
  {
  }
}
