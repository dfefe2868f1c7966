/** The evaluator: one left-to-right pass over the numeral that adds symbol
    values, corrects for subtractive pairs, and stops at the first pair whose
    second symbol is worth more than ten times the first. */
module Evaluator {
  import opened Wrappers
  import opened Constants
  import opened ParsingResult

  predicate AllSymbols(s: string) {
    forall i | 0 <= i < |s| :: IsRomanSymbol(s[i])
  }

  /** The pass stops at position `i`: its character is not in the table (the
      lookup yields null and unboxing it throws), or the guard fires because
      the symbol is worth more than ten times its predecessor. */
  predicate StopsAt(s: string, i: nat)
    requires i < |s|
  {
    || !IsRomanSymbol(s[i])
    || (0 < i && IsRomanSymbol(s[i - 1]) && Value(s[i]) > 10 * Value(s[i - 1]))
  }

  /** The pass gets past every position before `i`. */
  predicate RunsPast(s: string, i: nat)
    requires i <= |s|
  {
    forall k | 0 <= k < i :: !StopsAt(s, k)
  }

  /** The sum of all symbol values. */
  function SymbolSum(s: string): int
    requires AllSymbols(s)
  {
    if |s| == 0 then 0 else SymbolSum(s[..|s| - 1]) + Value(s[|s| - 1])
  }

  /** The sum of v(s[i-1]) over the positions i where v(s[i]) > v(s[i-1]). */
  function AscentSum(s: string): int
    requires AllSymbols(s)
  {
    if |s| < 2 then 0
    else AscentSum(s[..|s| - 1])
         + (if Value(s[|s| - 1]) > Value(s[|s| - 2]) then Value(s[|s| - 2]) else 0)
  }

  /** The value the pass computes, in closed form. */
  function ClosedForm(s: string): int
    requires AllSymbols(s)
  {
    SymbolSum(s) - 2 * AscentSum(s)
  }

  /** The usual reading of a Roman numeral, independent of the pass: a symbol
      is subtracted when a larger one follows it, and added otherwise. */
  function ClassicalValue(s: string): int
    requires AllSymbols(s)
  {
    if |s| == 0 then 0
    else (if |s| >= 2 && Value(s[0]) < Value(s[1]) then -Value(s[0]) else Value(s[0]))
         + ClassicalValue(s[1..])
  }

  /** What the pass adds for position `i`: `cur - 2 * prev` after a smaller
      symbol, `cur` otherwise. */
  function Step(s: string, i: nat): int
    requires i < |s| && IsRomanSymbol(s[i]) && (0 < i ==> IsRomanSymbol(s[i - 1]))
  {
    if 0 < i && Value(s[i]) > Value(s[i - 1]) then Value(s[i]) - 2 * Value(s[i - 1]) else Value(s[i])
  }

  /** Every character the pass gets past is in the table. */
  lemma RunsPastSymbols(s: string, i: nat)
    requires i <= |s| && RunsPast(s, i)
    ensures AllSymbols(s[..i])
  {
    forall k | 0 <= k < i
      ensures IsRomanSymbol(s[..i][k])
    {
      assert !StopsAt(s, k);
    }
  }

  /** Extending the prefix by one symbol adds that position's step. */
  lemma ClosedFormExtends(s: string, i: nat)
    requires i < |s| && AllSymbols(s[..i + 1])
    ensures AllSymbols(s[..i])
    ensures ClosedForm(s[..i + 1]) == ClosedForm(s[..i]) + Step(s, i)
  {
    assert s[..i + 1][..i] == s[..i];
    if i >= 1 {
      assert s[..i + 1][..i][..i - 1] == s[..i][..i - 1];
    }
  }

  /** The pass from position `i` with running total `total`, one iteration
      of the `for` loop of computeRomanNumeralWithoutVinculum per call. A
      record it returns has a reason exactly when it is invalid, and it is
      valid only when the pass got past every position. */
  function Scan(s: string, i: nat, total: int): (o: Completion<RomanParsingResult>)
    requires i <= |s| && RunsPast(s, i)
    ensures o.Returned? ==> ReasonIffInvalid(o.value)
    ensures o.Returned? && o.value.isValid == Some(true) ==> RunsPast(s, |s|)
    decreases |s| - i
  {
    if i == |s| then Returned(Valid(total))
    else if !IsRomanSymbol(s[i]) then NullPointerException
    else
      assert 0 < i ==> !StopsAt(s, i - 1);
      if 0 < i && Value(s[i]) > 10 * Value(s[i - 1]) then
        Returned(Invalid(ComputationReason(s[i - 1], s[i])))
      else
        assert !StopsAt(s, i);
        Scan(s, i + 1, total + Step(s, i))
  }

  /** When the pass gets past every position, it returns the closed form of
      the positions it had not yet seen, added to the running total. */
  lemma {:induction false} ScanReachesEnd(s: string, i: nat, total: int)
    requires i <= |s| && RunsPast(s, |s|)
    ensures RunsPast(s, i) && AllSymbols(s) && AllSymbols(s[..i])
    ensures Scan(s, i, total) == Returned(Valid(total + ClosedForm(s) - ClosedForm(s[..i])))
    decreases |s| - i
  {
    RunsPastSymbols(s, i);
    if i == |s| {
      assert s[..i] == s;
    } else {
      assert !StopsAt(s, i);
      assert 0 < i ==> !StopsAt(s, i - 1);
      RunsPastSymbols(s, i + 1);
      ClosedFormExtends(s, i);
      ScanReachesEnd(s, i + 1, total + Step(s, i));
    }
  }

  /** The pass throws at the first position whose character is not in the table. */
  lemma {:induction false} ScanThrows(s: string, i: nat, total: int, k: nat)
    requires i <= k < |s| && RunsPast(s, k) && !IsRomanSymbol(s[k])
    ensures RunsPast(s, i)
    ensures Scan(s, i, total) == NullPointerException
    decreases k - i
  {
    if i < k {
      assert !StopsAt(s, i);
      assert 0 < i ==> !StopsAt(s, i - 1);
      ScanThrows(s, i + 1, total + Step(s, i), k);
    }
  }

  /** The pass stops with an invalid result at the first pair the guard
      rejects, naming the pair. */
  lemma {:induction false} ScanRejects(s: string, i: nat, total: int, k: nat)
    requires i <= k < |s| && 0 < k && RunsPast(s, k) && IsRomanSymbol(s[k]) && StopsAt(s, k)
    ensures RunsPast(s, i)
    ensures Scan(s, i, total) == Returned(Invalid(ComputationReason(s[k - 1], s[k])))
    decreases k - i
  {
    assert !StopsAt(s, k - 1);
    if i < k {
      assert !StopsAt(s, i);
      assert 0 < i ==> !StopsAt(s, i - 1);
      ScanRejects(s, i + 1, total + Step(s, i), k);
    }
  }

  /** Computes a numeral with no vinculum. It returns the closed-form value
      when the pass reaches the end; it throws when it reaches a character
      outside the table; and it returns an invalid result naming the pair
      when it reaches the first pair the guard rejects. */
  function ComputeRomanNumeralWithoutVinculum(s: string): (o: Completion<RomanParsingResult>)
    ensures o.Returned? ==> ReasonIffInvalid(o.value)
    ensures o.Returned? && o.value.isValid == Some(true) <==> RunsPast(s, |s|)
    ensures RunsPast(s, |s|) ==> AllSymbols(s) && o == Returned(Valid(SymbolSum(s) - 2 * AscentSum(s)))
    ensures forall k {:trigger RunsPast(s, k)} | 0 <= k < |s| ::
      RunsPast(s, k) && !IsRomanSymbol(s[k]) ==> o == NullPointerException
    ensures forall k {:trigger RunsPast(s, k)} | 0 < k < |s| ::
      RunsPast(s, k) && IsRomanSymbol(s[k]) && StopsAt(s, k) ==>
        o == Returned(Invalid(ComputationReason(s[k - 1], s[k])))
  {
    assert s[..0] == [];
    if RunsPast(s, |s|) then
      ScanReachesEnd(s, 0, 0);
      Scan(s, 0, 0)
    else
      assert forall k {:trigger RunsPast(s, k)} | 0 <= k < |s| :: RunsPast(s, k) && !IsRomanSymbol(s[k]) ==>
        Scan(s, 0, 0) == NullPointerException by {
        forall k | 0 <= k < |s| && RunsPast(s, k) && !IsRomanSymbol(s[k]) {
          ScanThrows(s, 0, 0, k);
        }
      }
      assert forall k {:trigger RunsPast(s, k)} | 0 < k < |s| :: RunsPast(s, k) && IsRomanSymbol(s[k]) && StopsAt(s, k) ==>
        Scan(s, 0, 0) == Returned(Invalid(ComputationReason(s[k - 1], s[k]))) by {
        forall k | 0 < k < |s| && RunsPast(s, k) && IsRomanSymbol(s[k]) && StopsAt(s, k) {
          ScanRejects(s, 0, 0, k);
        }
      }
      Scan(s, 0, 0)
  }

  /** The same pass as a loop with early returns, as the Java method writes it. */
  method ComputeWithoutVinculumLoop(s: string) returns (o: Completion<RomanParsingResult>)
    ensures o == ComputeRomanNumeralWithoutVinculum(s)
  {
    var result := 0;
    var i := 0;
    while i < |s|
      invariant i <= |s|
      invariant RunsPast(s, i)
      invariant Scan(s, i, result) == ComputeRomanNumeralWithoutVinculum(s)
    {
      if !IsRomanSymbol(s[i]) {
        assert Scan(s, i, result) == NullPointerException;
        return NullPointerException;
      }
      if 0 < i {
        assert !StopsAt(s, i - 1);
      }
      if 0 < i && Value(s[i]) > 10 * Value(s[i - 1]) {
        assert Scan(s, i, result) == Returned(Invalid(ComputationReason(s[i - 1], s[i])));
        return Returned(Invalid(ComputationReason(s[i - 1], s[i])));
      }
      assert Scan(s, i, result) == Scan(s, i + 1, result + Step(s, i));
      if 0 < i && Value(s[i]) > Value(s[i - 1]) {
        result := result + Value(s[i]) - 2 * Value(s[i - 1]);
      } else {
        result := result + Value(s[i]);
      }
      i := i + 1;
    }
    assert Scan(s, i, result) == Returned(Valid(result));
    return Returned(Valid(result));
  }

  /** Appending a symbol to the classical reading adds its value, and turns
      a smaller last symbol from added to subtracted. */
  lemma {:induction false} ClassicalValueAppend(s: string, c: char)
    requires AllSymbols(s) && IsRomanSymbol(c)
    ensures AllSymbols(s + [c])
    ensures ClassicalValue(s + [c]) ==
      ClassicalValue(s) + Value(c)
      - (if 0 < |s| && Value(s[|s| - 1]) < Value(c) then 2 * Value(s[|s| - 1]) else 0)
    decreases |s|
  {
    var t := s + [c];
    if |s| == 1 {
      assert t[0] == s[0] && t[1] == c;
      assert t[1..] == [c] && [c][1..] == [];
    } else if |s| >= 2 {
      assert t[0] == s[0] && t[1] == s[1];
      assert t[1..] == s[1..] + [c];
      ClassicalValueAppend(s[1..], c);
    }
  }

  /** The pass's closed form is the classical reading of the numeral: the
      look-behind correction `cur - 2 * prev` and the look-ahead subtraction
      agree on every string of table symbols. */
  lemma {:induction false} ClosedFormIsClassicalValue(s: string)
    requires AllSymbols(s)
    ensures ClosedForm(s) == ClassicalValue(s)
    decreases |s|
  {
    if |s| > 0 {
      var init := s[..|s| - 1];
      assert s == init + [s[|s| - 1]];
      ClosedFormIsClassicalValue(init);
      ClassicalValueAppend(init, s[|s| - 1]);
      if |s| >= 2 {
        assert init[|init| - 1] == s[|s| - 2];
      }
    }
  }

  /** A numeral the pass gets through evaluates to its classical reading. */
  lemma ComputedValueIsClassical(s: string)
    requires RunsPast(s, |s|)
    ensures AllSymbols(s)
    ensures ComputeRomanNumeralWithoutVinculum(s) == Returned(Valid(ClassicalValue(s)))
  {
    RunsPastSymbols(s, |s|);
    assert s[..|s|] == s;
    ClosedFormIsClassicalValue(s);
    assert ClosedForm(s) == SymbolSum(s) - 2 * AscentSum(s);
  }

  /** The running total never decreases: each step adds a non-negative
      amount, because a larger symbol is worth at least twice a smaller one. */
  lemma RunningTotalNeverDecreases(s: string, i: nat)
    requires i < |s| && AllSymbols(s)
    ensures AllSymbols(s[..i]) && AllSymbols(s[..i + 1])
    ensures ClosedForm(s[..i]) <= ClosedForm(s[..i + 1])
  {
    assert AllSymbols(s[..i + 1]);
    ClosedFormExtends(s, i);
    if 0 < i {
      LargerValueAtLeastDoubles(s[i - 1], s[i]);
    }
  }

  /** The computed value lies between 0 and the plain sum of the symbols. */
  lemma {:induction false} ClosedFormBounds(s: string)
    requires AllSymbols(s)
    ensures 0 <= ClosedForm(s) <= SymbolSum(s)
    decreases |s|
  {
    if |s| > 0 {
      var n := |s| - 1;
      assert s[..n + 1] == s;
      ClosedFormBounds(s[..n]);
      RunningTotalNeverDecreases(s, n);
      assert s[..n + 1][..n] == s[..n];
      if n >= 1 {
        assert s[..n + 1][..n][..n - 1] == s[..n][..n - 1];
      }
    }
  }

  /** On table symbols the pass never throws. */
  lemma NeverThrowsOnTableSymbols(s: string)
    requires AllSymbols(s)
    ensures ComputeRomanNumeralWithoutVinculum(s).Returned?
  {
    if !RunsPast(s, |s|) {
      var k :| 0 <= k < |s| && StopsAt(s, k);
      FirstStop(s, k);
    }
  }

  /** If the pass stops somewhere, there is a first position where it stops. */
  lemma {:induction false} FirstStop(s: string, k: nat)
    requires k < |s| && StopsAt(s, k)
    ensures exists j :: 0 <= j <= k && RunsPast(s, j) && StopsAt(s, j)
    decreases k
  {
    if !RunsPast(s, k) {
      var j :| 0 <= j < k && StopsAt(s, j);
      FirstStop(s, j);
    }
  }

  /** On table symbols the pass returns a valid result exactly when it gets
      through, and that result carries the classical reading. */
  lemma TableNumeralOutcome(s: string)
    requires AllSymbols(s)
    ensures ComputeRomanNumeralWithoutVinculum(s).Returned?
    ensures ComputeRomanNumeralWithoutVinculum(s).value.isValid == Some(true) <==> RunsPast(s, |s|)
    ensures RunsPast(s, |s|) ==> ComputeRomanNumeralWithoutVinculum(s) == Returned(Valid(ClassicalValue(s)))
  {
    NeverThrowsOnTableSymbols(s);
    if RunsPast(s, |s|) {
      ComputedValueIsClassical(s);
    } else {
      var k :| 0 <= k < |s| && StopsAt(s, k);
      FirstStop(s, k);
      var j :| 0 <= j <= k && RunsPast(s, j) && StopsAt(s, j);
      assert IsRomanSymbol(s[j]);
    }
  }

  /** The numerals of the sample call in `main`, and the empty numeral. */
  lemma SampleValues()
    ensures ComputeRomanNumeralWithoutVinculum("") == Returned(Valid(0))
    ensures ComputeRomanNumeralWithoutVinculum("XXIX") == Returned(Valid(29))
    ensures ComputeRomanNumeralWithoutVinculum("CXVII") == Returned(Valid(117))
  {
  }

  /** The guard compares strictly: IX (ten times) passes, IM fails and names the pair. */
  lemma GuardBoundary()
    ensures ComputeRomanNumeralWithoutVinculum("IX") == Returned(Valid(9))
    ensures ComputeRomanNumeralWithoutVinculum("IM") == Returned(Invalid(ComputationReason('I', 'M')))
  {
  }
}
