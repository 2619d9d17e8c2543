/**
 * The expressions of the unit tests of src/plurals.rs, parsed and resolved
 * in the model, together with the facts about `index_of` on plain text
 * (text with no parentheses) that reading them takes.
 */
module PluralExamples {
  import opened Wrappers
  import opened Text
  import opened Errors
  import opened Plurals
  import opened PluralSyntax

  // ---------------------------------------------------------------------
  // index_of on plain text
  // ---------------------------------------------------------------------

  /** Text without the first character of `pat` holds no match of it. */
  lemma IndexOfAbsent(t: string, pat: string)
    requires |pat| > 0 && pat[0] !in t
    ensures IndexOf(t, pat) == None
  {
    if t != [] {
      ScanAbsent(pat, ScanStart, t);
    }
  }

  /** The first characters of the chain's patterns, in the order the chain tries them. */
  const ChainHeads: string := "&|?>><<=!%"

  /** No character of `t` is one of `cs`. */
  predicate Avoids(t: string, cs: string)
  {
    t == [] || (t[0] !in cs && Avoids(t[1..], cs))
  }

  lemma {:induction false} AvoidsNotIn(t: string, cs: string, c: char)
    requires Avoids(t, cs) && c in cs
    ensures c !in t
  {
    if t != [] {
      AvoidsNotIn(t[1..], cs, c);
      assert t == [t[0]] + t[1..];
    }
  }

  /** Text that avoids the first characters of the first `r` patterns of the chain holds none of them. */
  lemma ChainAbsent(t: string, heads: string, r: nat)
    requires r <= |ChainPatterns| && Avoids(t, heads) && heads == ChainHeads[..r]
    ensures forall k :: 0 <= k < r ==> IndexOf(t, ChainPatterns[k]) == None
  {
    forall k | 0 <= k < r
      ensures IndexOf(t, ChainPatterns[k]) == None
    {
      assert ChainPatterns[k][0] == ChainHeads[k];
      AvoidsNotIn(t, heads, ChainHeads[k]);
      IndexOfAbsent(t, ChainPatterns[k]);
    }
  }

  /** Scanning plain text that lacks the first character of `pat` leaves the scan idle at its end. */
  lemma ScanPlain(pat: string, a: string)
    requires |pat| > 0 && ParenFree(a) && pat[0] !in a
    ensures ScanFrom(pat, ScanStart, a) == ScanState(None, |a|, 0, 0)
  {
    if a != [] {
      ScanAbsent(pat, ScanStart, a);
      ParenFreeBalanced(a);
    }
  }

  /** An idle scan that meets the whole of a plain pattern of one or two characters records a match there. */
  lemma ScanPattern(pat: string, n: nat)
    requires 1 <= |pat| <= 2 && ParenFree(pat)
    ensures ScanFrom(pat, ScanState(None, n, 0, 0), pat).matchIndex == Some(n)
  {
    var z := ScanState(None, n, 0, 0);
    if |pat| == 1 {
      assert [pat[0]] == pat;
      ScanOne(pat, z, pat[0]);
    } else {
      assert [pat[0], pat[1]] == pat;
      ScanTwo(pat, z, pat[0], pat[1]);
    }
  }

  /** After plain text that lacks its first character, a pattern of one or two characters is found where it stands. */
  lemma IndexOfPlain(a: string, pat: string, b: string)
    requires 1 <= |pat| <= 2 && ParenFree(pat) && ParenFree(a) && pat[0] !in a
    ensures IndexOf(a + pat + b, pat) == Some(|a|)
  {
    ScanPlain(pat, a);
    ScanPattern(pat, |a|);
    ScanConcat(pat, ScanStart, a, pat);
    ScanConcat(pat, ScanStart, a + pat, b);
    ScanFrozen(pat, ScanFrom(pat, ScanStart, a + pat), b);
  }

  /** The first character of a two-character pattern followed by another character starts no match. */
  lemma IndexOfBroken(a: string, pat: string, c: char, b: string)
    requires |pat| == 2 && ParenFree(pat) && ParenFree(a) && pat[0] !in a && pat[0] !in b
    requires c != pat[0] && c != pat[1] && c != '(' && c != ')'
    ensures IndexOf(a + [pat[0], c] + b, pat) == None
  {
    var z := ScanState(None, |a|, 0, 0);
    ScanPlain(pat, a);
    ScanConcat(pat, ScanStart, a + [pat[0], c], b);
    ScanConcat(pat, ScanStart, a, [pat[0], c]);
    ScanTwo(pat, z, pat[0], c);
    var z2 := ScanState(None, |a| + 2, 0, 0);
    assert ScanFrom(pat, ScanStart, a + [pat[0], c]) == z2;
    if b != [] {
      ScanAbsent(pat, z2, b);
    }
  }

  // ---------------------------------------------------------------------
  // Atoms
  // ---------------------------------------------------------------------

  lemma ParseNumberAtom(s: string, x: U64)
    requires NoOperatorChar(s) && Trim(s) == DecimalString(x)
    ensures Parse(s) == Parsed(Integer(x))
  {
    ParseAtom(s);
    ParseDecimalString(x);
  }

  lemma ParseNAtom(s: string)
    requires NoOperatorChar(s) && Trim(s) == "n"
    ensures Parse(s) == Parsed(N)
  {
    ParseAtom(s);
    ParseDecimalNeedsDigits("n");
  }

  /** A text whose trim does not open with `(` and whose chain first finds `op` at `i` splits there. */
  lemma ParsePlainBinary(s: string, t: string, op: Operator, i: nat)
    requires t == Trim(s) && Trim(t) == t && t != [] && t[0] != '('
    requires forall k :: 0 <= k < ChainRank(op) ==> IndexOf(t, ChainPatterns[k]) == None
    requires IndexOf(t, ChainPatterns[ChainRank(op)]) == Some(i)
    ensures Parse(s) == Binary(op, t[..i], t[i + |OperatorText(op)|..])
  {
    ParseParensPlain(t);
    ChainReaches(t, op, i);
  }

  /** The same split, with the two sides' parses given. */
  lemma ParseBinaryFrom(s: string, t: string, op: Operator, i: nat, l: string, r: string, x: Ast, y: Ast)
    requires t == Trim(s) && Trim(t) == t && t != [] && t[0] != '('
    requires forall k :: 0 <= k < ChainRank(op) ==> IndexOf(t, ChainPatterns[k]) == None
    requires IndexOf(t, ChainPatterns[ChainRank(op)]) == Some(i)
    requires i + |OperatorText(op)| <= |t| && t[..i] == l && t[i + |OperatorText(op)|..] == r
    requires Parse(l) == Parsed(x) && Parse(r) == Parsed(y)
    ensures Parse(s) == Parsed(Op(op, x, y))
  {
    ParsePlainBinary(s, t, op, i);
  }

  // ---------------------------------------------------------------------
  // The expression "n == 42 ? n : 6 && n < 7"
  // ---------------------------------------------------------------------

  /** The count variable between whitespace is `N`. */
  lemma ParseSpacedN(a: string, b: string)
    requires AllWhitespace(a) && AllWhitespace(b) && NoOperatorChar(a) && NoOperatorChar(b)
    ensures Parse(a + "n" + b) == Parsed(N)
  {
    var s := a + "n" + b;
    forall k | 0 <= k < |s|
      ensures !IsOperatorChar(s[k])
    {
      if k < |a| {
        assert s[k] == a[k];
      } else if k > |a| {
        assert s[k] == b[k - |a| - 1];
      }
    }
    TrimSpaced(a, "n", b);
    ParseNAtom(s);
  }

  /** `n` with a space after it, or one on each side, as the examples below write it. */
  lemma ParsePaddedN()
    ensures Parse("n ") == Parsed(N) && Parse(" n ") == Parsed(N)
  {
    ParseSpacedN("", " ");
    assert "" + "n" + " " == "n ";
    ParseSpacedN(" ", " ");
    assert " " + "n" + " " == " n ";
  }

  /** A numeral between whitespace is read as its number. */
  lemma ParseSpacedNumeral(a: string, x: U64, b: string)
    requires AllWhitespace(a) && AllWhitespace(b) && NoOperatorChar(a) && NoOperatorChar(b)
    ensures Parse(a + DecimalString(x) + b) == Parsed(Integer(x))
  {
    var d := DecimalString(x);
    var s := a + d + b;
    NumeralAtom(x);
    NumeralEnds(x);
    forall k | 0 <= k < |s|
      ensures !IsOperatorChar(s[k])
    {
      if k < |a| {
        assert s[k] == a[k];
      } else if k < |a| + |d| {
        assert s[k] == d[k - |a|];
      } else {
        assert s[k] == b[k - |a| - |d|];
      }
    }
    TrimSpaced(a, d, b);
    ParseNumberAtom(s, x);
  }

  lemma Parse42()
    ensures Parse(" 42") == Parsed(Integer(42))
  {
    assert DecimalString(4) == "4";
    assert DecimalString(42) == "42";
    ParseSpacedNumeral(" ", 42, "");
    assert " " + "42" + "" == " 42";
  }

  lemma Parse6()
    ensures Parse(" 6") == Parsed(Integer(6))
  {
    assert DecimalString(6) == "6";
    ParseSpacedNumeral(" ", 6, "");
    assert " " + "6" + "" == " 6";
  }

  lemma Parse7()
    ensures Parse(" 7") == Parsed(Integer(7))
  {
    assert DecimalString(7) == "7";
    ParseSpacedNumeral(" ", 7, "");
    assert " " + "7" + "" == " 7";
  }

  /** `n == d`, for a numeral `d`, holds none of the patterns the chain tries before `==`. */
  lemma EqualChainAbsent(x: U64)
    ensures var t := "n == " + DecimalString(x);
      forall k :: 0 <= k < ChainRank(Equal) ==> IndexOf(t, ChainPatterns[k]) == None
  {
    var d := DecimalString(x);
    var t := "n == " + d;
    assert forall j :: 0 <= j < |d| ==> IsDigit(d[j]);
    forall k | 0 <= k < ChainRank(Equal)
      ensures IndexOf(t, ChainPatterns[k]) == None
    {
      var c := ChainPatterns[k][0];
      assert c == ChainHeads[k] && !IsDigit(c) && c !in "n == ";
      forall j | 0 <= j < |t|
        ensures t[j] != c
      {
        if j >= 5 {
          assert t[j] == d[j - 5];
        }
      }
      IndexOfAbsent(t, ChainPatterns[k]);
    }
  }

  /** Trimming whitespace around `n == d` leaves `n == d`, which has none to trim. */
  lemma EqualTrimmed(a: string, x: U64, b: string)
    requires AllWhitespace(a) && AllWhitespace(b)
    ensures var t := "n == " + DecimalString(x);
      Trim(a + t + b) == t && Trim(t) == t && t != [] && t[0] == 'n'
  {
    var d := DecimalString(x);
    var t := "n == " + d;
    NumeralEnds(x);
    assert t[|t| - 1] == d[|d| - 1];
    TrimSpaced(a, t, b);
    TrimSpaced("", t, "");
    assert "" + t + "" == t;
  }

  /** The chain finds `==` at 2 in `n == d`, leaving `n ` and ` d` on its sides. */
  lemma EqualFound(d: string)
    ensures var t := "n == " + d;
      && IndexOf(t, ChainPatterns[ChainRank(Equal)]) == Some(2)
      && |t| == 5 + |d| && t[..2] == [] + "n" + [t[1]] && t[4..] == [t[4]] + d + []
      && IsWhitespace(t[1]) && IsWhitespace(t[4]) && !IsOperatorChar(t[1]) && !IsOperatorChar(t[4])
  {
    var t := "n == " + d;
    assert t == "n " + "==" + (" " + d);
    IndexOfPlain("n ", "==", " " + d);
  }

  /** The two sides the chain leaves in `n == d` parse as `N` and as the number `d` reads as. */
  lemma EqualSides(x: U64)
    ensures var t := "n == " + DecimalString(x);
      |t| > 4 && Parse(t[..2]) == Parsed(N) && Parse(t[4..]) == Parsed(Integer(x))
  {
    var d := DecimalString(x);
    var t := "n == " + d;
    EqualFound(d);
    ParseSpacedN([], [t[1]]);
    ParseSpacedNumeral([t[4]], x, []);
  }

  /** `n == d` is the equality of `N` and the number `d` reads as. */
  lemma ParseEqualTrimmed(x: U64)
    ensures Parse("n == " + DecimalString(x)) == Parsed(Op(Equal, N, Integer(x)))
  {
    var d := DecimalString(x);
    var t := "n == " + d;
    EqualTrimmed([], x, []);
    EqualFound(d);
    EqualChainAbsent(x);
    EqualSides(x);
    ParseBinaryFrom(t, t, Equal, 2, t[..2], t[4..], N, Integer(x));
  }

  /** The same text with whitespace around it parses the same. */
  lemma ParseEqualN(a: string, x: U64, b: string)
    requires AllWhitespace(a) && AllWhitespace(b)
    ensures Parse(a + ("n == " + DecimalString(x)) + b) == Parsed(Op(Equal, N, Integer(x)))
  {
    EqualTrimmed(a, x, b);
    ParseEqualTrimmed(x);
  }

  lemma ParseEqualExample()
    ensures Parse("n == 42 ") == Parsed(Op(Equal, N, Integer(42)))
  {
    assert DecimalString(4) == "4";
    assert DecimalString(42) == "42";
    ParseEqualN("", 42, " ");
    assert "n == " + "42" == "n == 42";
    assert "" + "n == 42" + " " == "n == 42 ";
  }

  lemma SmallerExampleTrim()
    ensures Trim(" n < 7") == "n < 7" && Trim("n < 7") == "n < 7"
  {
  }

  /** Neither `&&`, `||`, `?`, `>=`, `>` nor `<=` occurs in `n < 7`: its `<` is followed by a space. */
  lemma SmallerExampleAbsent()
    ensures forall k :: 0 <= k < ChainRank(Smaller) ==> IndexOf("n < 7", ChainPatterns[k]) == None
  {
    assert Avoids("n < 7", "&|?>>");
    ChainAbsent("n < 7", "&|?>>", 5);
    assert "n < 7" == "n " + ['<', ' '] + "7";
    IndexOfBroken("n ", "<=", ' ', "7");
  }

  lemma SmallerExampleFound()
    ensures IndexOf("n < 7", ChainPatterns[ChainRank(Smaller)]) == Some(2)
  {
    assert "n < 7" == "n " + "<" + " 7";
    IndexOfPlain("n ", "<", " 7");
  }

  lemma SmallerExampleSlices()
    ensures "n < 7"[..2] == "n " && "n < 7"[2 + |OperatorText(Smaller)|..] == " 7"
  {
  }

  lemma ParseSmallerExample()
    ensures Parse(" n < 7") == Parsed(Op(Smaller, N, Integer(7)))
  {
    SmallerExampleTrim();
    SmallerExampleAbsent();
    SmallerExampleFound();
    SmallerExampleSlices();
    ParsePaddedN();
    Parse7();
    ParseBinaryFrom(" n < 7", "n < 7", Smaller, 2, "n ", " 7", N, Integer(7));
  }

  /** A text whose trim does not open with `(`, holds no `&&` or `||` and has a `?` before its `:` splits in three. */
  lemma ParseTernaryFrom(s: string, t: string, i: nat, l: nat, sc: string, sa: string, sb: string, c: Ast, a: Ast, b: Ast)
    requires t == Trim(s) && Trim(t) == t && t != [] && t[0] != '('
    requires IndexOf(t, "&&") == None && IndexOf(t, "||") == None
    requires IndexOf(t, "?") == Some(i) && IndexOf(t, ":") == Some(l) && i + 1 <= l < |t|
    requires t[..i] == sc && t[i + 1..l] == sa && t[l + 1..] == sb
    requires Parse(sc) == Parsed(c) && Parse(sa) == Parsed(a) && Parse(sb) == Parsed(b)
    ensures Parse(s) == Parsed(Ternary(c, a, b))
  {
    ParseParensPlain(t);
    SkipToTernary(t);
    TernarySplitAt(t, i, l);
  }

  lemma TernaryExampleTrim()
    ensures Trim("n == 42 ? n : 6 ") == "n == 42 ? n : 6" && Trim("n == 42 ? n : 6") == "n == 42 ? n : 6"
  {
  }

  lemma TernaryExampleFound()
    ensures IndexOf("n == 42 ? n : 6", "&&") == None && IndexOf("n == 42 ? n : 6", "||") == None
    ensures IndexOf("n == 42 ? n : 6", "?") == Some(8) && IndexOf("n == 42 ? n : 6", ":") == Some(12)
  {
    IndexOfAbsent("n == 42 ? n : 6", "&&");
    IndexOfAbsent("n == 42 ? n : 6", "||");
    assert "n == 42 ? n : 6" == "n == 42 " + "?" + " n : 6";
    IndexOfPlain("n == 42 ", "?", " n : 6");
    assert "n == 42 ? n : 6" == "n == 42 ? n " + ":" + " 6";
    IndexOfPlain("n == 42 ? n ", ":", " 6");
  }

  lemma TernaryExampleSlices()
    ensures "n == 42 ? n : 6"[..8] == "n == 42 " && "n == 42 ? n : 6"[9..12] == " n " && "n == 42 ? n : 6"[13..] == " 6"
  {
  }

  lemma ParseTernaryExample()
    ensures Parse("n == 42 ? n : 6 ") == Parsed(Ternary(Op(Equal, N, Integer(42)), N, Integer(6)))
  {
    TernaryExampleTrim();
    TernaryExampleFound();
    TernaryExampleSlices();
    ParseEqualExample();
    ParsePaddedN();
    Parse6();
    ParseTernaryFrom("n == 42 ? n : 6 ", "n == 42 ? n : 6", 8, 12, "n == 42 ", " n ", " 6", Op(Equal, N, Integer(42)), N, Integer(6));
  }

  /** A text whose trim does not open with `(` and holds a top-level `&&` is a conjunction split there. */
  lemma ParseConjunctionFrom(s: string, t: string, i: nat, l: string, r: string, x: Ast, y: Ast)
    requires t == Trim(s) && Trim(t) == t && t != [] && t[0] != '('
    requires IndexOf(t, "&&") == Some(i) && t[..i] == l && t[i + 2..] == r
    requires Parse(l) == Parsed(x) && Parse(r) == Parsed(y)
    ensures Parse(s) == Parsed(Op(And, x, y))
  {
    ParseParensPlain(t);
    HitAnd(t, i);
  }

  lemma AndExampleTrim()
    ensures Trim("n == 42 ? n : 6 && n < 7") == "n == 42 ? n : 6 && n < 7"
  {
  }

  lemma AndExampleFound()
    ensures IndexOf("n == 42 ? n : 6 && n < 7", "&&") == Some(16)
  {
    assert "n == 42 ? n : 6 && n < 7" == "n == 42 ? n : 6 " + "&&" + " n < 7";
    IndexOfPlain("n == 42 ? n : 6 ", "&&", " n < 7");
  }

  lemma AndExampleSlices()
    ensures "n == 42 ? n : 6 && n < 7"[..16] == "n == 42 ? n : 6 "
    ensures "n == 42 ? n : 6 && n < 7"[18..] == " n < 7"
  {
  }

  /**
   * The unit test of src/plurals.rs: `&&` binds loosest, so the ternary
   * ends at it and the whole expression is a conjunction.
   */
  lemma ParseAndExample()
    ensures Parse("n == 42 ? n : 6 && n < 7")
      == Parsed(Op(And, Ternary(Op(Equal, N, Integer(42)), N, Integer(6)), Op(Smaller, N, Integer(7))))
  {
    AndExampleTrim();
    AndExampleFound();
    AndExampleSlices();
    ParseTernaryExample();
    ParseSmallerExample();
    ParseConjunctionFrom("n == 42 ? n : 6 && n < 7", "n == 42 ? n : 6 && n < 7", 16,
      "n == 42 ? n : 6 ", " n < 7", Ternary(Op(Equal, N, Integer(42)), N, Integer(6)), Op(Smaller, N, Integer(7)));
  }

  /** The unit test of src/plurals.rs: a parenthesised `n` is `n`. */
  lemma OperandN()
    ensures Operand("n") && Parenthesized("n") == "(n)"
  {
  }

  lemma ParseParenthesizedN()
    ensures Parse("(n)") == Parsed(N)
  {
    OperandN();
    ParseParenthesized("n");
    ParseNAtom("n");
  }

  /**
   * Two adjacent groups are unwrapped as one: the `(` read between them with
   * no parenthesis open is counted, so the fold's count reaches the length
   * and `(n)(n)` is parsed as `n)(n`.
   */
  lemma AdjacentGroupsUnwrapped()
    ensures ParensEnd("n)(n") == |"(n)(n)"|
    ensures Parse("(n)(n)") == Parse("n)(n")
  {
    assert "n)(n"[..3] == "n)(" && "n)(n"[..2] == "n)" && "n)(n"[..1] == "n" && "n"[..0] == "";
    assert ParensFrom(ParensState(1, 2), "n") == ParensState(1, 3);
    assert ParensFrom(ParensState(1, 2), "n)") == ParensState(0, 4);
    assert ParensFrom(ParensState(1, 2), "n)(") == ParensState(1, 5);
    assert ParensFrom(ParensState(1, 2), "n)(n") == ParensState(1, 6);
    assert Trim("(n)(n)") == "(n)(n)" by {
      TrimUntrimmed("(n)(n)");
    }
    assert "(n)(n)"[1..5] == "n)(n";
    TrimUntrimmed("n)(n");
  }

  lemma MissingColonFacts()
    ensures Trim("n ? 1") == "n ? 1"
    ensures IndexOf("n ? 1", "&&") == None && IndexOf("n ? 1", "||") == None
    ensures IndexOf("n ? 1", "?") == Some(2) && IndexOf("n ? 1", ":") == None
  {
    IndexOfAbsent("n ? 1", "&&");
    IndexOfAbsent("n ? 1", "||");
    IndexOfAbsent("n ? 1", ":");
    assert "n ? 1" == "n " + "?" + " 1";
    IndexOfPlain("n ", "?", " 1");
  }

  /** A `?` without a `:` is a parse error, not a panic. */
  lemma ParseMissingColon()
    ensures Parse("n ? 1") == Failed(PluralParsing)
  {
    MissingColonFacts();
    ParseParensPlain("n ? 1");
    SkipToTernary("n ? 1");
  }

  // ---------------------------------------------------------------------
  // The expression "(n == 1 || n == 2) ? 0 : 1"
  // ---------------------------------------------------------------------

  /** A scan that reads a parenthesised balanced text and then plain text without the first character of `pat` is idle at level 0. */
  lemma ScanAfterGroup(pat: string, x: string, a: string)
    requires Balanced(x) && |pat| > 0 && ParenFree(pat) && ParenFree(a) && pat[0] !in a
    ensures ScanFrom(pat, ScanStart, Parenthesized(x) + a) == ScanState(None, |x| + 2 + |a|, 0, 0)
  {
    var g := Parenthesized(x);
    ScanShielded(pat, ScanStart, x);
    ScanConcat(pat, ScanStart, g, a);
    if a != [] {
      ScanAbsent(pat, ScanFrom(pat, ScanStart, g), a);
      ParenFreeBalanced(a);
    }
  }

  /** After a parenthesised balanced text, plain text without the first character of `pat` holds no match of it. */
  lemma IndexOfPastGroup(x: string, a: string, pat: string)
    requires Balanced(x) && |pat| > 0 && ParenFree(pat) && ParenFree(a) && pat[0] !in a
    ensures IndexOf(Parenthesized(x) + a, pat) == None
  {
    ScanAfterGroup(pat, x, a);
  }

  /** After a parenthesised balanced text and plain text without its first character, a pattern of one or two characters is found where it stands. */
  lemma IndexOfAfterGroup(x: string, a: string, pat: string, b: string)
    requires Balanced(x) && 1 <= |pat| <= 2 && ParenFree(pat) && ParenFree(a) && pat[0] !in a
    ensures IndexOf(Parenthesized(x) + a + pat + b, pat) == Some(|x| + 2 + |a|)
  {
    var ga := Parenthesized(x) + a;
    ScanAfterGroup(pat, x, a);
    ScanPattern(pat, |ga|);
    ScanConcat(pat, ScanStart, ga, pat);
    ScanConcat(pat, ScanStart, ga + pat, b);
    ScanFrozen(pat, ScanFrom(pat, ScanStart, ga + pat), b);
  }

  /** In `(x)` followed by at least two characters without `(`, the fold of `parse_parens` skips those after the group, so its count falls short of the length. */
  lemma ParensEndGroup(x: string, a: string)
    requires Balanced(x) && |a| >= 2 && '(' !in a
    ensures var t := Parenthesized(x) + a; ParensEnd(t[1..|t| - 1]) == |x| + 3 < |t|
  {
    var t := Parenthesized(x) + a;
    var rest := a[..|a| - 1];
    assert t[1..|t| - 1] == x + ([')'] + rest);
    ParensShielded(ParensState(1, 2), x);
    ParensConcat(ParensState(1, 2), x, [')'] + rest);
    ParensConcat(ParensState(1, 2 + |x|), [')'], rest);
    ParensOne(ParensState(1, 2 + |x|), ')');
    assert '(' !in rest by {
      assert forall c :: c in rest ==> c in a;
    }
    ParensIdle(ParensState(0, 3 + |x|), rest);
  }

  /** A parenthesised operand followed by a space parses as the operand. */
  lemma ParseGroupSpaced(x: string)
    requires Operand(x)
    ensures Parse(Parenthesized(x) + " ") == Parse(x)
  {
    var g := Parenthesized(x);
    assert AllWhitespace("") && AllWhitespace(" ");
    assert "" + g + " " == g + " ";
    TrimSpaced("", g, " ");
    TrimUntrimmed(g);
    ParseParenthesized(x);
  }

  /**
   * `t` opens with `(` but the fold of `parse_parens` counts fewer characters
   * than it holds, is trimmed, holds no
   * top-level `&&` or `||`, and its first top-level `?` at `i` comes before
   * its first top-level `:` at `l`.
   */
  predicate GroupTernaryText(t: string, i: nat, l: nat)
  {
    && |t| >= 2 && t[0] == '(' && ParensEnd(t[1..|t| - 1]) != |t| && Trim(t) == t
    && IndexOf(t, "&&") == None && IndexOf(t, "||") == None
    && IndexOf(t, "?") == Some(i) && IndexOf(t, ":") == Some(l) && i + 1 <= l < |t|
  }

  /** Such a text is the ternary over its three pieces. */
  lemma ParseGroupTernaryFrom(t: string, i: nat, l: nat, c: Ast, a: Ast, b: Ast)
    requires GroupTernaryText(t, i, l)
    requires Parse(t[..i]) == Parsed(c) && Parse(t[i + 1..l]) == Parsed(a) && Parse(t[l + 1..]) == Parsed(b)
    ensures Parse(t) == Parsed(Ternary(c, a, b))
  {
    ParseOpenHead(t);
    SkipToTernary(t);
    TernarySplitAt(t, i, l);
  }

  lemma Parse1()
    ensures Parse(" 1") == Parsed(Integer(1))
  {
    assert DecimalString(1) == "1";
    ParseSpacedNumeral(" ", 1, "");
    assert " " + "1" + "" == " 1";
  }

  lemma Parse0()
    ensures Parse(" 0 ") == Parsed(Integer(0))
  {
    assert DecimalString(0) == "0";
    ParseSpacedNumeral(" ", 0, " ");
    assert " " + "0" + " " == " 0 ";
  }

  /** Where the chain cuts `l || r` when neither side has `&` and `l` has no `|` or parenthesis. */
  lemma DisjunctionShape(l: string, r: string)
    requires l != [] && r != [] && !IsWhitespace(l[0]) && !IsWhitespace(r[|r| - 1]) && l[0] != '('
    requires ParenFree(l) && '|' !in l && '&' !in l && '&' !in r
    ensures var t := l + "||" + r;
      && Trim(t) == t && t != [] && t[0] != '('
      && (forall k :: 0 <= k < ChainRank(Or) ==> IndexOf(t, ChainPatterns[k]) == None)
      && IndexOf(t, ChainPatterns[ChainRank(Or)]) == Some(|l|)
      && |l| + |OperatorText(Or)| <= |t| && t[..|l|] == l && t[|l| + |OperatorText(Or)|..] == r
  {
    var t := l + "||" + r;
    assert t[0] == l[0] && t[|t| - 1] == r[|r| - 1];
    TrimUntrimmed(t);
    forall k | 0 <= k < ChainRank(Or)
      ensures IndexOf(t, ChainPatterns[k]) == None
    {
      assert '&' !in t;
      IndexOfAbsent(t, "&&");
    }
    IndexOfPlain(l, "||", r);
    assert t[..|l|] == l && t[|l| + 2..] == r;
  }

  /** `l || r`, with no `&` and no parenthesis around, is the disjunction of its sides. */
  lemma ParseDisjunction(l: string, r: string, x: Ast, y: Ast)
    requires l != [] && r != [] && !IsWhitespace(l[0]) && !IsWhitespace(r[|r| - 1]) && l[0] != '('
    requires ParenFree(l) && '|' !in l && '&' !in l && '&' !in r
    requires Parse(l) == Parsed(x) && Parse(r) == Parsed(y)
    ensures Parse(l + "||" + r) == Parsed(Op(Or, x, y))
  {
    DisjunctionShape(l, r);
    var t := l + "||" + r;
    ParseBinaryFrom(t, t, Or, |l|, l, r, x, y);
  }

  lemma OrExampleFacts()
    ensures var l, r := "" + ("n == " + DecimalString(1)) + " ", " " + ("n == " + DecimalString(2)) + "";
      && l != [] && r != [] && !IsWhitespace(l[0]) && !IsWhitespace(r[|r| - 1]) && l[0] != '('
      && ParenFree(l) && '|' !in l && '&' !in l && '&' !in r
      && l + "||" + r == "n == 1 || n == 2"
  {
    assert DecimalString(1) == "1" && DecimalString(2) == "2";
    assert "" + ("n == " + "1") + " " == "n == 1 ";
    assert " " + ("n == " + "2") + "" == " n == 2";
  }

  /** `n == 1 || n == 2`: `||` binds looser than `==`. */
  lemma ParseOrExample()
    ensures Parse("n == 1 || n == 2") == Parsed(Op(Or, Op(Equal, N, Integer(1)), Op(Equal, N, Integer(2))))
  {
    OrExampleFacts();
    ParseEqualN("", 1, " ");
    ParseEqualN(" ", 2, "");
    ParseDisjunction("" + ("n == " + DecimalString(1)) + " ", " " + ("n == " + DecimalString(2)) + "",
      Op(Equal, N, Integer(1)), Op(Equal, N, Integer(2)));
  }

  /** The text after the group of `(x) ? a : b` holds no parenthesis, `&`, `|`, nor a `:` before the last `" "` + `b`. */
  lemma TernaryTailChars(sa: string, sb: string)
    requires NoOperatorChar(sa) && NoOperatorChar(sb)
    ensures var rest, before := " ? " + sa + " : " + sb, " ? " + sa + " ";
      && '(' !in rest && ')' !in rest && '&' !in rest && '|' !in rest
      && ParenFree(before) && ':' !in before && ParenFree(" ")
  {
    var rest := " ? " + sa + " : " + sb;
    forall k | 0 <= k < |rest|
      ensures !IsOperatorChar(rest[k]) || rest[k] == '?' || rest[k] == ':'
    {
      if 3 <= k < 3 + |sa| {
        assert rest[k] == sa[k - 3];
      } else if 3 + |sa| + 3 <= k {
        assert rest[k] == sb[k - 6 - |sa|];
      }
    }
    var before := " ? " + sa + " ";
    assert forall k :: 0 <= k < |before| ==> before[k] == rest[k];
  }

  /** The fold of `parse_parens` over `(x) ? a : b` counts fewer characters than the text holds, and the text is trimmed. */
  lemma GroupTernaryHead(x: string, sa: string, sb: string)
    requires Balanced(x) && NoOperatorChar(sa) && NoOperatorChar(sb) && sb != [] && !IsWhitespace(sb[|sb| - 1])
    ensures var t := Parenthesized(x) + " ? " + sa + " : " + sb;
      |t| >= 2 && t[0] == '(' && ParensEnd(t[1..|t| - 1]) != |t| && Trim(t) == t
  {
    var rest := " ? " + sa + " : " + sb;
    var t := Parenthesized(x) + rest;
    assert t == Parenthesized(x) + " ? " + sa + " : " + sb;
    TernaryTailChars(sa, sb);
    ParensEndGroup(x, rest);
    assert t[|t| - 1] == sb[|sb| - 1];
    TrimUntrimmed(t);
  }

  /** Where `index_of` finds the operators of `(x) ? a : b`. */
  lemma GroupTernaryIndexes(x: string, sa: string, sb: string)
    requires Balanced(x) && NoOperatorChar(sa) && NoOperatorChar(sb)
    ensures var t := Parenthesized(x) + " ? " + sa + " : " + sb;
      && IndexOf(t, "&&") == None && IndexOf(t, "||") == None
      && IndexOf(t, "?") == Some(|x| + 3) && IndexOf(t, ":") == Some(|x| + 6 + |sa|)
  {
    var g := Parenthesized(x);
    var rest, before := " ? " + sa + " : " + sb, " ? " + sa + " ";
    var t := g + rest;
    assert t == Parenthesized(x) + " ? " + sa + " : " + sb;
    TernaryTailChars(sa, sb);
    IndexOfPastGroup(x, rest, "&&");
    IndexOfPastGroup(x, rest, "||");
    assert t == g + " " + "?" + (" " + sa + " : " + sb);
    IndexOfAfterGroup(x, " ", "?", " " + sa + " : " + sb);
    assert t == g + before + ":" + (" " + sb);
    IndexOfAfterGroup(x, before, ":", " " + sb);
  }

  lemma GroupTernaryShape(x: string, sa: string, sb: string)
    requires Balanced(x) && NoOperatorChar(sa) && NoOperatorChar(sb) && sb != [] && !IsWhitespace(sb[|sb| - 1])
    ensures GroupTernaryText(Parenthesized(x) + " ? " + sa + " : " + sb, |x| + 3, |x| + 6 + |sa|)
  {
    GroupTernaryHead(x, sa, sb);
    GroupTernaryIndexes(x, sa, sb);
  }

  lemma GroupTernarySlices(x: string, sa: string, sb: string)
    ensures var t, i, l := Parenthesized(x) + " ? " + sa + " : " + sb, |x| + 3, |x| + 6 + |sa|;
      && i + 1 <= l < |t|
      && t[..i] == Parenthesized(x) + " " && t[i + 1..l] == " " + sa + " " && t[l + 1..] == " " + sb
  {
  }

  /** The parts of `(x) ? a : b`: an operand `x`, and `a` and `b` free of operators, `b` ending in a non-space. */
  ghost predicate GroupTernaryParts(x: string, sa: string, sb: string)
  {
    Operand(x) && NoOperatorChar(sa) && NoOperatorChar(sb) && sb != [] && !IsWhitespace(sb[|sb| - 1])
  }

  /**
   * `(x) ? a : b` with `a` and `b` free of operators: the characters after the
   * group are read with no parenthesis open, so the fold's count falls short
   * of the length, the pair is kept, and the text is a ternary whose
   * condition is the group.
   */
  lemma ParseGroupTernary(x: string, sa: string, sb: string, c: Ast, a: Ast, b: Ast)
    requires GroupTernaryParts(x, sa, sb)
    requires Parse(x) == Parsed(c) && Parse(" " + sa + " ") == Parsed(a) && Parse(" " + sb) == Parsed(b)
    ensures Parse(Parenthesized(x) + " ? " + sa + " : " + sb) == Parsed(Ternary(c, a, b))
  {
    var t, i, l := Parenthesized(x) + " ? " + sa + " : " + sb, |x| + 3, |x| + 6 + |sa|;
    GroupTernaryShape(x, sa, sb);
    GroupTernarySlices(x, sa, sb);
    ParseGroupSpaced(x);
    ParseGroupTernaryFrom(t, i, l, c, a, b);
  }

  /** Parenthesis-free text with no whitespace at either end is an operand. */
  lemma PlainOperand(x: string)
    requires ParenFree(x) && x != [] && !IsWhitespace(x[0]) && !IsWhitespace(x[|x| - 1])
    ensures Operand(x)
  {
    ParenFreeBalanced(x);
  }

  lemma OrOperand()
    ensures Operand("n == 1 || n == 2")
  {
    PlainOperand("n == 1 || n == 2");
  }

  lemma GroupTernaryExampleFacts()
    ensures NoOperatorChar("0") && NoOperatorChar("1") && !IsWhitespace('1')
    ensures " " + "0" + " " == " 0 " && " " + "1" == " 1"
    ensures Parenthesized("n == 1 || n == 2") + " ? " + "0" + " : " + "1" == "(n == 1 || n == 2) ? 0 : 1"
  {
  }

  /**
   * The unit test of src/plurals.rs: a parenthesised condition followed by
   * more text does not make the whole text one group; the text is a ternary
   * whose condition is the disjunction.
   */
  lemma ParseGroupTernaryExample()
    ensures Parse("(n == 1 || n == 2) ? 0 : 1")
      == Parsed(Ternary(Op(Or, Op(Equal, N, Integer(1)), Op(Equal, N, Integer(2))), Integer(0), Integer(1)))
  {
    OrOperand();
    GroupTernaryExampleFacts();
    ParseOrExample();
    Parse0();
    Parse1();
    ParseGroupTernary("n == 1 || n == 2", "0", "1", Op(Or, Op(Equal, N, Integer(1)), Op(Equal, N, Integer(2))), Integer(0), Integer(1));
  }
}
