/** The regular expressions of the form validator, written out as Regex
    values, and the executable predicates the validator evaluates instead.
    Each predicate is proved to accept exactly the inputs its pattern accepts
    under Matcher.matches(). */
module Patterns {
  import opened Regex
  import opened Constants

  const RomanClass: set<char> := {'I', 'V', 'X', 'L', 'C', 'D', 'M'}

  /** Symbols that may repeat (up to three times). */
  const RepeatableClass: set<char> := {'I', 'X', 'C', 'M'}

  /** Symbols that may not repeat. */
  const NonRepeatableClass: set<char> := {'V', 'L', 'D'}

  /** `VX|LC|DM` */
  const ForbiddenPairs: Regex := Alt(Alt(Literal("VX"), Literal("LC")), Literal("DM"))

  /** `(?!(VX|LC|DM))([IVXLCDM]*)` */
  const AllowedCharactersPattern: Regex :=
    Concat(NegLookahead(ForbiddenPairs), Star(CharClass(RomanClass)))

  /** `^([c]{4,})$`, used with c = I, X, C and M. */
  function RepeatedSymbolPattern(c: char): Regex {
    Anchored(AtLeast(CharClass({c}), 4))
  }

  /** `^([IXCM]*)([VLD]{2,})([IXCM]*)$` */
  const NonRepeatableRunPattern: Regex :=
    Anchored(Concat(Star(CharClass(RepeatableClass)),
                    Concat(AtLeast(CharClass(NonRepeatableClass), 2), Star(CharClass(RepeatableClass)))))

  /** The input begins with VX, LC or DM. The lookahead of the first pattern
      is tried at position 0 only, so a forbidden pair anywhere else passes. */
  predicate StartsWithForbiddenPair(s: string) {
    |s| >= 2 && s[..2] in {"VX", "LC", "DM"}
  }

  /** Executable form of the first pattern. */
  predicate HasAllowedCharacters(s: string) {
    AllIn(s, RomanClass) && !StartsWithForbiddenPair(s)
  }

  /** Executable form of `^([c]{4,})$`: the WHOLE input is four or more
      copies of `c`; a run of four inside a longer numeral does not count. */
  predicate IsRepetitionOf(s: string, c: char) {
    |s| >= 4 && forall i | 0 <= i < |s| :: s[i] == c
  }

  /** The shape the third pattern describes: `p + r + q` with `p` and `q`
      made of I, X, C, M and `r` at least two of V, L, D. */
  ghost predicate SplitsAroundNonRepeatableRun(s: string) {
    exists p: string, r: string, q: string ::
      s == p + r + q && AllIn(p, RepeatableClass) && 2 <= |r|
      && AllIn(r, NonRepeatableClass) && AllIn(q, RepeatableClass)
  }

  /** The length of the longest prefix of `w` whose characters are all in `cs`. */
  function LeadingRun(w: string, cs: set<char>): (n: nat)
    ensures n <= |w|
    ensures AllIn(w[..n], cs)
    ensures n < |w| ==> w[n] !in cs
    decreases |w|
  {
    if w == [] || w[0] !in cs then 0
    else
      var n := 1 + LeadingRun(w[1..], cs);
      assert w[..n] == [w[0]] + w[1..][..n - 1];
      n
  }

  /** Executable form of the third pattern: skip the leading I/X/C/M, take
      the run of V/L/D that follows, and require at least two of them and
      only I/X/C/M after them. */
  predicate HasNonRepeatableRun(s: string) {
    var k1 := LeadingRun(s, RepeatableClass);
    var k2 := k1 + LeadingRun(s[k1..], NonRepeatableClass);
    k2 - k1 >= 2 && AllIn(s[k2..], RepeatableClass)
  }

  /** The pattern's character class is the symbol table's key set. */
  lemma RomanClassIsTableKeys()
    ensures forall c :: c in RomanClass <==> IsRomanSymbol(c)
  {
    SymbolTableContents();
  }

  lemma ForbiddenPairLookahead(s: string)
    ensures MatchSpan(NegLookahead(ForbiddenPairs), s, 0, 0) <==> !StartsWithForbiddenPair(s)
  {
    forall k: nat | k <= |s|
      ensures MatchSpan(ForbiddenPairs, s, 0, k) <==> s[..k] in {"VX", "LC", "DM"}
    {
      LiteralSpan("VX", s, 0, k);
      LiteralSpan("LC", s, 0, k);
      LiteralSpan("DM", s, 0, k);
      assert s[0..k] == s[..k];
    }
    if StartsWithForbiddenPair(s) {
      assert MatchSpan(ForbiddenPairs, s, 0, 2);
    } else {
    }
  }

  /** Rule 1: the first pattern matches exactly the inputs made of the seven
      symbols that do not begin with VX, LC or DM. */
  lemma AllowedCharactersPatternMeaning(s: string)
    ensures Matches(AllowedCharactersPattern, s) <==> HasAllowedCharacters(s)
  {
    var look := NegLookahead(ForbiddenPairs);
    var body := Star(CharClass(RomanClass));
    ForbiddenPairLookahead(s);
    StarClassSpan(RomanClass, s, 0, |s|);
    assert s[0..|s|] == s;
    if HasAllowedCharacters(s) {
      assert MatchSpan(look, s, 0, 0) && MatchSpan(body, s, 0, |s|);
    }
    if Matches(AllowedCharactersPattern, s) {
      ConcatSplit(look, body, s, 0, |s|);
      var k: nat :| k <= |s| && MatchSpan(look, s, 0, k) && MatchSpan(body, s, k, |s|);
      assert k == 0;
    }
  }

  /** Rule 2: `^([c]{4,})$` matches exactly four or more copies of `c`. */
  lemma RepeatedSymbolPatternMeaning(s: string, c: char)
    ensures Matches(RepeatedSymbolPattern(c), s) <==> IsRepetitionOf(s, c)
  {
    AnchoredMatches(AtLeast(CharClass({c}), 4), s);
    AtLeastClassSpan({c}, 4, s, 0, |s|);
    assert s[0..|s|] == s;
  }

  /** The third pattern's shape, with the two cut points given as indices. */
  ghost predicate SplitsAt(s: string, k1: nat, k2: nat) {
    k1 <= k2 <= |s| && 2 <= k2 - k1
    && AllIn(s[..k1], RepeatableClass) && AllIn(s[k1..k2], NonRepeatableClass)
    && AllIn(s[k2..], RepeatableClass)
  }

  lemma SplitsAtIndices(s: string)
    ensures SplitsAroundNonRepeatableRun(s) <==> exists k1: nat, k2: nat :: SplitsAt(s, k1, k2)
  {
    if SplitsAroundNonRepeatableRun(s) {
      var p: string, r: string, q: string :|
        s == p + r + q && AllIn(p, RepeatableClass) && 2 <= |r|
        && AllIn(r, NonRepeatableClass) && AllIn(q, RepeatableClass);
      PiecesSplitAt(s, p, r, q);
    }
    if exists k1: nat, k2: nat :: SplitsAt(s, k1, k2) {
      var k1: nat, k2: nat :| SplitsAt(s, k1, k2);
      assert s == s[..k1] + s[k1..k2] + s[k2..];
    }
  }

  lemma PiecesSplitAt(s: string, p: string, r: string, q: string)
    requires s == p + r + q && AllIn(p, RepeatableClass) && 2 <= |r|
    requires AllIn(r, NonRepeatableClass) && AllIn(q, RepeatableClass)
    ensures SplitsAt(s, |p|, |p| + |r|)
  {
    assert s[..|p|] == p && s[|p|..|p| + |r|] == r && s[|p| + |r|..] == q;
  }

  lemma NonRepeatableRunPatternSound(s: string, k1: nat, k2: nat)
    requires SplitsAt(s, k1, k2)
    ensures MatchSpan(Concat(Star(CharClass(RepeatableClass)),
                             Concat(AtLeast(CharClass(NonRepeatableClass), 2), Star(CharClass(RepeatableClass)))),
                      s, 0, |s|)
  {
    var lead := Star(CharClass(RepeatableClass));
    var run := AtLeast(CharClass(NonRepeatableClass), 2);
    assert s[0..k1] == s[..k1] && s[k2..|s|] == s[k2..];
    StarClassSpan(RepeatableClass, s, 0, k1);
    AtLeastClassSpan(NonRepeatableClass, 2, s, k1, k2);
    StarClassSpan(RepeatableClass, s, k2, |s|);
    assert MatchSpan(Concat(run, lead), s, k1, |s|);
  }

  lemma NonRepeatableRunPatternComplete(s: string)
    requires MatchSpan(Concat(Star(CharClass(RepeatableClass)),
                              Concat(AtLeast(CharClass(NonRepeatableClass), 2), Star(CharClass(RepeatableClass)))),
                       s, 0, |s|)
    ensures exists k1: nat, k2: nat :: SplitsAt(s, k1, k2)
  {
    var lead := Star(CharClass(RepeatableClass));
    var run := AtLeast(CharClass(NonRepeatableClass), 2);
    ConcatSplit(lead, Concat(run, lead), s, 0, |s|);
    var k1: nat :| k1 <= |s| && MatchSpan(lead, s, 0, k1) && MatchSpan(Concat(run, lead), s, k1, |s|);
    ConcatSplit(run, lead, s, k1, |s|);
    var k2: nat :| k1 <= k2 <= |s| && MatchSpan(run, s, k1, k2) && MatchSpan(lead, s, k2, |s|);
    StarClassSpan(RepeatableClass, s, 0, k1);
    AtLeastClassSpan(NonRepeatableClass, 2, s, k1, k2);
    StarClassSpan(RepeatableClass, s, k2, |s|);
    assert s[0..k1] == s[..k1] && s[k2..|s|] == s[k2..];
    assert SplitsAt(s, k1, k2);
  }

  /** Rule 3: the third pattern matches exactly the `p + r + q` shape. */
  lemma NonRepeatableRunPatternMeaning(s: string)
    ensures Matches(NonRepeatableRunPattern, s) <==> SplitsAroundNonRepeatableRun(s)
  {
    var core := Concat(Star(CharClass(RepeatableClass)),
                       Concat(AtLeast(CharClass(NonRepeatableClass), 2), Star(CharClass(RepeatableClass))));
    AnchoredMatches(core, s);
    SplitsAtIndices(s);
    if Matches(core, s) {
      NonRepeatableRunPatternComplete(s);
    }
    if exists k1: nat, k2: nat :: SplitsAt(s, k1, k2) {
      var k1: nat, k2: nat :| SplitsAt(s, k1, k2);
      NonRepeatableRunPatternSound(s, k1, k2);
    }
  }

  /** LeadingRun is the only length with its two properties. */
  lemma LeadingRunUnique(w: string, cs: set<char>, m: nat)
    requires m <= |w|
    requires AllIn(w[..m], cs)
    requires m < |w| ==> w[m] !in cs
    ensures LeadingRun(w, cs) == m
  {
  }

  /** The scan decides the third pattern's shape: both directions. */
  lemma NonRepeatableRunScan(s: string)
    ensures HasNonRepeatableRun(s) <==> SplitsAroundNonRepeatableRun(s)
  {
    var k1 := LeadingRun(s, RepeatableClass);
    var k2 := k1 + LeadingRun(s[k1..], NonRepeatableClass);
    SplitsAtIndices(s);
    if HasNonRepeatableRun(s) {
      assert s[k1..][..k2 - k1] == s[k1..k2];
      assert SplitsAt(s, k1, k2);
    }
    if exists m1: nat, m2: nat :: SplitsAt(s, m1, m2) {
      var m1: nat, m2: nat :| SplitsAt(s, m1, m2);
      ScanFindsSplit(s, m1, m2);
    }
  }

  /** Any split of the third pattern's shape is the one the scan finds. */
  lemma ScanFindsSplit(s: string, m1: nat, m2: nat)
    requires SplitsAt(s, m1, m2)
    ensures LeadingRun(s, RepeatableClass) == m1
    ensures LeadingRun(s[m1..], NonRepeatableClass) == m2 - m1
    ensures HasNonRepeatableRun(s)
  {
    assert s[m1] == s[m1..m2][0];
    LeadingRunUnique(s, RepeatableClass, m1);
    var rest := s[m1..];
    assert rest[..m2 - m1] == s[m1..m2];
    if m2 < |s| {
      assert rest[m2 - m1] == s[m2..][0];
    }
    LeadingRunUnique(rest, NonRepeatableClass, m2 - m1);
    assert s[m2..] == s[m1..][m2 - m1..];
  }
}
