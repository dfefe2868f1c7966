# Roman numeral parser, modelled in Dafny

This project models a small Java library. The library validates a Roman
numeral string and computes its integer value. It also takes an optional
*vinculum* numeral, the part written under a bar, which is worth a thousand
times its face value. The whole library is one pure pipeline with three parts.

- **Form validator** (`validateRomanNumeral`). It checks three regular
  expressions under `Matcher.matches()`. It returns `null` when no rule fires.
  Otherwise it returns an invalid result whose reason joins the fired rules'
  messages with `", "`.
- **Evaluator** (`computeRomanNumeralWithoutVinculum`). It makes one
  left-to-right pass that adds symbol values. After a smaller symbol it adds
  `cur - 2 * prev`. It stops with an invalid result at the first adjacent pair
  whose second symbol is worth more than ten times the first.
- **Orchestrator** (`parseRomanNumeral`, `computeRomanNumeral`). It validates
  the numeral, then the vinculum numeral. Only then does it compute, and it
  combines the two parts as `numeral + 1000 * vinculum`.

Modules, one per file:

- `Wrappers` (`wrappers.dfy`) defines `Option` and `Completion`. `Option`
  stands for a nullable Java reference. `Completion` says whether a Java call
  returned normally or threw a `NullPointerException`.
- `Constants` (`constants.dfy`) holds the symbol table and the four messages.
- `ParsingResult` (`parsing_result.dfy`) holds the `RomanParsingResult`
  record. Its `result` field defaults to 0, and its `isValid` and
  `nonValidityReason` fields may be null.
- `Regex` (`regex.dfy`) gives the existential span semantics of the regex
  constructs the validator uses, with `Matches` standing for
  `Matcher.matches()`. Those constructs are character classes, concatenation,
  alternation, `*`, `{n,}`, the negative lookahead `(?!…)`, `^` and `$`.
- `Patterns` (`patterns.dfy`) writes the validator's patterns as `Regex`
  values. Each one comes with an executable predicate that is proved to accept
  exactly the same strings.
- `Validator` (`validator.dfy`), `Evaluator` (`evaluator.dfy`) and `Parser`
  (`parser.dfy`) model the three parts.

Java exceptions are modelled as values. The evaluator reaches a
`NullPointerException` when a character is missing from the table, because it
unboxes the `null` lookup. The combination of a numeral and a vinculum
numeral reaches one when either part is invalid. In that case the conditional
at `RomanNumeralParserMain.java:54` has type `Integer`, and its `null` is
unboxed into the builder's `int` setter.

Where the code and its documentation disagree, the model follows the code:

- The doc comment at `RomanNumeralParserMain.java:91-94` forbids VX, LC and DM
  anywhere. The lookahead at line 102 only applies at position 0, so only a
  numeral that *begins* with one of them is rejected ("XVX" passes).
- The same comment says I, X, C and M may not repeat more than three times.
  The anchored patterns at lines 105-108 only catch a numeral that consists
  entirely of four or more copies of one symbol ("XIIII" passes).
- V, L and D are rejected only when they form one contiguous run of two or
  more between I/X/C/M characters ("VVXV" passes).
- A failed vinculum combination does not return `isValid = false` without a
  reason. It throws, so every record the parser does return has a reason
  exactly when it is invalid.

## Model

| member | source | states |
|---|---|---|
| Constants.SymbolTableContents | src/main/java/com/wishow/Constants.java:24-32 | the table's keys are exactly I, V, X, L, C, D, M, with values 1, 5, 10, 50, 100, 500, 1000 |
| Constants.ValuesStrictlyIncrease | src/main/java/com/wishow/Constants.java:25-31 | values strictly increase along I, V, X, L, C, D, M |
| Constants.LargerValueAtLeastDoubles | src/main/java/com/wishow/Constants.java:25-31 | a symbol worth more than another is worth at least twice as much, so a subtractive step is never negative |
| Constants.RuleMessagesDistinct | src/main/java/com/wishow/Constants.java:14-21 | the four messages are pairwise distinct, and no computation reason equals any of the three rule messages |
| Constants.ComputationReason | src/main/java/com/wishow/RomanNumeralParserMain.java:73 | the reason is the computation-rule prefix followed by exactly the two offending characters |
| Constants.ComputationReasonInjective | src/main/java/com/wishow/RomanNumeralParserMain.java:73 | two computation reasons are equal exactly when they name the same pair |
| Regex.Matches | src/main/java/com/wishow/Utils.java:18-24 | a pattern accepts an input only when one match spans the whole input, from position 0 to the end (`Matcher.matches()`, not `find()`); defined by the span semantics `Regex.MatchSpan`, it carries no contract of its own |
| Regex.AnchoredMatches | src/main/java/com/wishow/Utils.java:23 | under whole-input matching, `^r$` accepts exactly what `r` accepts |
| Patterns.RomanClassIsTableKeys | src/main/java/com/wishow/RomanNumeralParserMain.java:102 | the pattern's class `[IVXLCDM]` is exactly the symbol table's key set |
| Patterns.AllowedCharactersPatternMeaning | src/main/java/com/wishow/RomanNumeralParserMain.java:102 | `(?!(VX\|LC\|DM))([IVXLCDM]*)` matches exactly the strings of the seven symbols that do not begin with VX, LC or DM |
| Patterns.RepeatedSymbolPatternMeaning | src/main/java/com/wishow/RomanNumeralParserMain.java:105-108 | `^([c]{4,})$` matches exactly the strings that are four or more copies of `c` |
| Patterns.NonRepeatableRunPatternMeaning | src/main/java/com/wishow/RomanNumeralParserMain.java:112 | `^([IXCM]*)([VLD]{2,})([IXCM]*)$` matches exactly the strings `p + r + q` with `p`, `q` over I/X/C/M and `r` at least two of V/L/D |
| Patterns.NonRepeatableRunScan | src/main/java/com/wishow/RomanNumeralParserMain.java:112 | the single left-to-right scan decides that `p + r + q` shape, in both directions |
| Validator.ValidateRomanNumeral | src/main/java/com/wishow/RomanNumeralParserMain.java:99-124 | returns null exactly when no rule fires; otherwise an invalid result whose reason is the fired messages in rule order joined by ", " |
| Validator.ValidationFollowsPatterns | src/main/java/com/wishow/RomanNumeralParserMain.java:101-123 | the same, stated for the three regular expressions under whole-input matching |
| Validator.AtMostOneRuleFires | src/main/java/com/wishow/RomanNumeralParserMain.java:102-115 | the three rule conditions are pairwise exclusive, so at most one message fires |
| Validator.RejectionReasonIsOneMessage | src/main/java/com/wishow/RomanNumeralParserMain.java:109-121 | every rejection's reason is exactly one of the three rule messages |
| Validator.AcceptedNumeralUsesTableSymbols | src/main/java/com/wishow/RomanNumeralParserMain.java:102-104 | every character of an accepted numeral is in the symbol table |
| Validator.ForbiddenPairExamples | src/main/java/com/wishow/RomanNumeralParserMain.java:102-104 | "VX" is rejected by rule 1, but "XVX" is accepted |
| Validator.LongRepetitionRejected | src/main/java/com/wishow/RomanNumeralParserMain.java:105-110 | "IIII" is rejected with the repetition message |
| Validator.EmbeddedRepetitionAccepted | src/main/java/com/wishow/RomanNumeralParserMain.java:105-108 | "XIIII" is accepted: an embedded run of four is not caught |
| Validator.NonRepeatableRunRejected | src/main/java/com/wishow/RomanNumeralParserMain.java:112-114 | "VV" and the mixed run "VL" are rejected with the no-repetition message |
| Validator.SeparatedNonRepeatableAccepted | src/main/java/com/wishow/RomanNumeralParserMain.java:112 | "VVXV" is accepted because its V's are not contiguous |
| Validator.GuardOnlyNumeralAccepted | src/main/java/com/wishow/RomanNumeralParserMain.java:99-124 | "X" and "IM" pass validation |
| Evaluator.ComputeRomanNumeralWithoutVinculum | src/main/java/com/wishow/RomanNumeralParserMain.java:64-86 | the result is valid exactly when the pass reaches the end, and then it equals Σv(sᵢ) − 2·Σ over ascents of v(sᵢ₋₁); it throws at the first character outside the table; at the first pair with v(b) > 10·v(a) it returns invalid with that pair's reason |
| Evaluator.ComputeWithoutVinculumLoop | src/main/java/com/wishow/RomanNumeralParserMain.java:64-86 | the loop with early returns computes exactly what the functional pass computes |
| Evaluator.ScanReachesEnd | src/main/java/com/wishow/RomanNumeralParserMain.java:65-85 | a pass that gets past every position returns the running total plus the closed form of the unseen positions |
| Evaluator.ScanThrows | src/main/java/com/wishow/RomanNumeralParserMain.java:67-79 | the pass throws at the first character missing from the table |
| Evaluator.ScanRejects | src/main/java/com/wishow/RomanNumeralParserMain.java:70-75 | the pass returns the invalid result naming the first pair the guard rejects |
| Evaluator.Scan | src/main/java/com/wishow/RomanNumeralParserMain.java:66-85 | every record the loop returns is valid without a reason or invalid with one, and it is valid only when the pass got past every position |
| Evaluator.ClosedFormExtends | src/main/java/com/wishow/RomanNumeralParserMain.java:76-80 | one more symbol adds `cur - 2 * prev` after a smaller symbol and `cur` otherwise |
| Evaluator.ClosedFormIsClassicalValue | src/main/java/com/wishow/RomanNumeralParserMain.java:76-80 | the look-behind correction equals the classical reading, where a symbol is subtracted when a larger one follows it |
| Evaluator.ComputedValueIsClassical | src/main/java/com/wishow/RomanNumeralParserMain.java:64-86 | a numeral the pass gets through evaluates to its classical reading |
| Evaluator.RunningTotalNeverDecreases | src/main/java/com/wishow/RomanNumeralParserMain.java:76-80 | each step adds a non-negative amount to the running total |
| Evaluator.ClosedFormBounds | src/main/java/com/wishow/RomanNumeralParserMain.java:65-85 | the computed value lies between 0 and the plain sum of the symbol values |
| Evaluator.NeverThrowsOnTableSymbols | src/main/java/com/wishow/RomanNumeralParserMain.java:67-68 | on table symbols the pass never throws |
| Evaluator.TableNumeralOutcome | src/main/java/com/wishow/RomanNumeralParserMain.java:64-86 | on table symbols the result is valid exactly when no pair trips the guard, and then it holds the classical reading |
| Evaluator.SampleValues | src/main/java/com/wishow/RomanNumeralParserMain.java:64-86 | "" is 0, "XXIX" is 29 and "CXVII" is 117 |
| Evaluator.GuardBoundary | src/main/java/com/wishow/RomanNumeralParserMain.java:70-75 | "IX" passes the strict guard with value 9, while "IM" is invalid with reason prefix + "IM" |
| Parser.ComputeRomanNumeral | src/main/java/com/wishow/RomanNumeralParserMain.java:44-57 | without a vinculum it is the numeral's own computation; with one it returns exactly when the evaluator gets through both numerals, and then holds valid numeral + 1000·vinculum with no reason; otherwise it throws |
| Parser.CombinationOfTableNumerals | src/main/java/com/wishow/RomanNumeralParserMain.java:44-57 | for two numerals of table symbols the combination returns exactly when both pass the guard, with value numeral + 1000·vinculum; otherwise it throws |
| Parser.ParseRomanNumeral | src/main/java/com/wishow/RomanNumeralParserMain.java:24-36 | the numeral's rejection is returned unchanged; then the vinculum's rejection; without a vinculum the result is the numeral's own computation |
| Parser.ParseCombinesVinculum | src/main/java/com/wishow/RomanNumeralParserMain.java:30-56 | with both parts accepted, parsing returns valid numeral + 1000·vinculum exactly when both pass the guard, and throws otherwise |
| Parser.ParseIgnoresVinculumWhenNumeralRejected | src/main/java/com/wishow/RomanNumeralParserMain.java:26-29 | when the numeral is rejected, the vinculum argument makes no difference and the result is invalid |
| Parser.ParseThrowsOnlyWhenCombiningInvalid | src/main/java/com/wishow/RomanNumeralParserMain.java:50-56 | parsing throws exactly when a vinculum is present, both parts pass validation, and the guard rejects one of them |
| Parser.ParseResultWellFormed | src/main/java/com/wishow/RomanNumeralParserMain.java:24-57 | every record parsing returns has a validity verdict, and a reason exactly when it is invalid |
| Parser.SampleParse | src/main/java/com/wishow/RomanNumeralParserMain.java:13 | parsing "XXIX" with vinculum "CXVII" gives 117029 |
| Parser.SampleParseWithoutVinculum | src/main/java/com/wishow/RomanNumeralParserMain.java:47-48 | parsing "XXIX" without a vinculum gives the numeral's own value 29 |
| Parser.SampleParseThrows | src/main/java/com/wishow/RomanNumeralParserMain.java:50-56 | parsing "X" with vinculum "IM" throws, because "IM" passes validation but not the guard |

## Left out

- `main` and the slf4j logging calls are left out. They only write to the console.
- The Lombok-generated builder, getters, `equals` and `toString` of
  `RomanParsingResult` are left out. A datatype with three fields stands in
  for them.
- The `@NonNull` check on the first argument of `parseRomanNumeral` is left
  out. A Dafny `string` cannot be null; only the vinculum is an `Option`.
- `Utils.evaluateRegExp` is not modelled as code. It compiles a pattern and
  calls `matches()`. The `Regex` module gives the meaning of the constructs
  the patterns use, and capture groups are ignored because they do not affect
  whether the input matches.
- Regex.MatchSpan: `$` matches only at the end of the input. Java's `$` also
  matches just before a final line terminator. Under `matches()` that
  terminator would be left unconsumed, so no verdict can change.
- Java strings are sequences of UTF-16 code units, while a Dafny `char` is a
  Unicode scalar value. A character outside the seven symbols fails rule 1
  either way.
- Evaluator.ComputeRomanNumeralWithoutVinculum: the running total is an
  unbounded integer. The Java `int` would wrap around only past about
  2,147,483 symbols.
- Parser.ComputeRomanNumeral: `numeral + 1000 * vinculum` is unbounded. In
  Java the `int` arithmetic wraps around whenever
  `numeral + 1000 * vinculum > 2^31 - 1`.
- Parser.CombinationOfTableNumerals: the same unbounded combination, for the
  same reason.
- Parser.ParseCombinesVinculum: the same unbounded combination, for the same
  reason.
