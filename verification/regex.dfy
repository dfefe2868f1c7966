/** The meaning of the regular expressions the validator uses, under
    java.util.regex's Matcher.matches(): the pattern must match the WHOLE
    input. Only the constructs the validator's patterns use are modelled.

    A match is a span `s[i..j]`; the span semantics is existential, which is
    what Java's backtracking search decides for these constructs. */
module Regex {

  datatype Regex =
    | Epsilon                       // the empty pattern
    | CharClass(chars: set<char>)   // one character of the class, `[IVX]` or a literal `I`
    | Concat(first: Regex, second: Regex)
    | Alt(left: Regex, right: Regex)
    | Star(body: Regex)             // `r*`
    | NegLookahead(body: Regex)     // `(?!r)`: zero-width, no match of `r` starts here
    | InputStart                    // `^`
    | InputEnd                      // `$`

  /** Every character of `w` is in `cs`. */
  predicate AllIn(w: string, cs: set<char>) {
    forall k | 0 <= k < |w| :: w[k] in cs
  }

  /** `re` matches exactly the span `s[i..j]` of the input `s`. A lookahead may
      look at the input up to its end, past `j`. */
  ghost predicate MatchSpan(re: Regex, s: string, i: nat, j: nat)
    requires i <= j <= |s|
    decreases re, j - i
  {
    match re
    case Epsilon => i == j
    case CharClass(cs) => j == i + 1 && s[i] in cs
    case Concat(a, b) =>
      exists k: nat :: i <= k <= j && MatchSpan(a, s, i, k) && MatchSpan(b, s, k, j)
    case Alt(a, b) => MatchSpan(a, s, i, j) || MatchSpan(b, s, i, j)
    case Star(r) =>
      i == j || exists k: nat :: i < k <= j && MatchSpan(r, s, i, k) && MatchSpan(re, s, k, j)
    case NegLookahead(r) =>
      i == j && !exists k: nat :: i <= k <= |s| && MatchSpan(r, s, i, k)
    case InputStart => i == j && i == 0
    case InputEnd => i == j && j == |s|
  }

  /** Matcher.matches(): the pattern matches the entire input. */
  ghost predicate Matches(re: Regex, s: string) {
    MatchSpan(re, s, 0, |s|)
  }

  /** The literal string `w` as a pattern. */
  function Literal(w: string): Regex {
    if w == [] then Epsilon else Concat(CharClass({w[0]}), Literal(w[1..]))
  }

  /** `r{n,}`: at least `n` repetitions of `r`. */
  function AtLeast(r: Regex, n: nat): Regex {
    if n == 0 then Star(r) else Concat(r, AtLeast(r, n - 1))
  }

  /** `^r$`. */
  function Anchored(r: Regex): Regex {
    Concat(InputStart, Concat(r, InputEnd))
  }

  lemma AllInSplit(s: string, i: nat, j: nat, cs: set<char>)
    requires i < j <= |s|
    ensures AllIn(s[i..j], cs) <==> s[i] in cs && AllIn(s[i + 1..j], cs)
  {
    var w := s[i..j];
    assert w[0] == s[i];
    assert w[1..] == s[i + 1..j];
    if AllIn(w, cs) {
      assert forall k | 0 <= k < |w| - 1 :: w[1..][k] == w[k + 1];
    }
  }

  /** A concatenation that matches splits its span somewhere. */
  lemma ConcatSplit(a: Regex, b: Regex, s: string, i: nat, j: nat)
    requires i <= j <= |s|
    requires MatchSpan(Concat(a, b), s, i, j)
    ensures exists k: nat :: i <= k <= j && MatchSpan(a, s, i, k) && MatchSpan(b, s, k, j)
  {
  }

  /** A star that matches a non-empty span starts with one non-empty iteration. */
  lemma StarSplit(r: Regex, s: string, i: nat, j: nat)
    requires i < j <= |s|
    requires MatchSpan(Star(r), s, i, j)
    ensures exists k: nat :: i < k <= j && MatchSpan(r, s, i, k) && MatchSpan(Star(r), s, k, j)
  {
  }

  /** `[cs]*` matches a span exactly when every character of it is in `cs`. */
  lemma {:induction false} StarClassSpan(cs: set<char>, s: string, i: nat, j: nat)
    requires i <= j <= |s|
    ensures MatchSpan(Star(CharClass(cs)), s, i, j) <==> AllIn(s[i..j], cs)
    decreases j - i
  {
    if i < j {
      StarClassSpan(cs, s, i + 1, j);
      AllInSplit(s, i, j, cs);
      if AllIn(s[i..j], cs) {
        assert MatchSpan(CharClass(cs), s, i, i + 1);
        assert MatchSpan(Star(CharClass(cs)), s, i + 1, j);
      }
      if MatchSpan(Star(CharClass(cs)), s, i, j) {
        StarSplit(CharClass(cs), s, i, j);
        var k: nat :| i < k <= j && MatchSpan(CharClass(cs), s, i, k)
                      && MatchSpan(Star(CharClass(cs)), s, k, j);
        assert k == i + 1;
      }
    }
  }

  /** `[cs]{n,}` matches a span exactly when it has at least `n` characters,
      all in `cs`. */
  lemma {:induction false} AtLeastClassSpan(cs: set<char>, n: nat, s: string, i: nat, j: nat)
    requires i <= j <= |s|
    ensures MatchSpan(AtLeast(CharClass(cs), n), s, i, j) <==> j - i >= n && AllIn(s[i..j], cs)
    decreases n
  {
    if n == 0 {
      StarClassSpan(cs, s, i, j);
    } else {
      var rest := AtLeast(CharClass(cs), n - 1);
      assert AtLeast(CharClass(cs), n) == Concat(CharClass(cs), rest);
      if i < j {
        AtLeastClassSpan(cs, n - 1, s, i + 1, j);
        AllInSplit(s, i, j, cs);
        if j - i >= n && AllIn(s[i..j], cs) {
          assert MatchSpan(CharClass(cs), s, i, i + 1) && MatchSpan(rest, s, i + 1, j);
        }
      }
      if MatchSpan(AtLeast(CharClass(cs), n), s, i, j) {
        ConcatSplit(CharClass(cs), rest, s, i, j);
        var k: nat :| i <= k <= j && MatchSpan(CharClass(cs), s, i, k) && MatchSpan(rest, s, k, j);
        assert k == i + 1;
      }
    }
  }

  /** A literal matches a span exactly when the span spells it. */
  lemma {:induction false} LiteralSpan(w: string, s: string, i: nat, j: nat)
    requires i <= j <= |s|
    ensures MatchSpan(Literal(w), s, i, j) <==> s[i..j] == w
    decreases w
  {
    if w != [] {
      var rest := Literal(w[1..]);
      assert Literal(w) == Concat(CharClass({w[0]}), rest);
      if i < j {
        LiteralSpan(w[1..], s, i + 1, j);
        assert s[i..j] == [s[i]] + s[i + 1..j];
        if s[i..j] == w {
          assert w == [w[0]] + w[1..];
          assert MatchSpan(CharClass({w[0]}), s, i, i + 1) && MatchSpan(rest, s, i + 1, j);
        }
        if MatchSpan(Literal(w), s, i, j) {
          ConcatSplit(CharClass({w[0]}), rest, s, i, j);
          var k: nat :| i <= k <= j && MatchSpan(CharClass({w[0]}), s, i, k) && MatchSpan(rest, s, k, j);
          assert k == i + 1;
          assert w == [w[0]] + w[1..];
        }
      } else {
        if MatchSpan(Literal(w), s, i, j) {
          ConcatSplit(CharClass({w[0]}), rest, s, i, j);
        }
      }
    }
  }

  /** Under matches(), `^r$` and `r` accept the same inputs. */
  lemma AnchoredMatches(r: Regex, s: string)
    ensures Matches(Anchored(r), s) <==> Matches(r, s)
  {
    var tail := Concat(r, InputEnd);
    if Matches(r, s) {
      assert MatchSpan(InputEnd, s, |s|, |s|);
      assert MatchSpan(tail, s, 0, |s|);
      assert MatchSpan(InputStart, s, 0, 0);
    }
    if Matches(Anchored(r), s) {
      ConcatSplit(InputStart, tail, s, 0, |s|);
      var k: nat :| k <= |s| && MatchSpan(InputStart, s, 0, k) && MatchSpan(tail, s, k, |s|);
      assert k == 0;
      ConcatSplit(r, InputEnd, s, 0, |s|);
      var m: nat :| m <= |s| && MatchSpan(r, s, 0, m) && MatchSpan(InputEnd, s, m, |s|);
      assert m == |s|;
    }
  }
}
