/**
 * What the parser of src/plurals.rs accepts, stated about the model in
 * Plurals: text without operator characters is a number, `n` or an error;
 * every tree, written out with full parentheses, is read back as itself;
 * and the expressions of the crate's own unit tests parse as the tests expect.
 */
module PluralSyntax {
  import opened Wrappers
  import opened Text
  import opened Errors
  import opened Plurals

  // ---------------------------------------------------------------------
  // Balanced parentheses
  // ---------------------------------------------------------------------

  /** Every prefix of `s` closes no more parentheses than it opens, and `s` closes them all. */
  ghost predicate Balanced(s: string)
  {
    Depth(s) == 0 && NeverBelow(s)
  }

  /** No prefix of `s` closes more parentheses than it opens. */
  ghost predicate NeverBelow(s: string)
  {
    s == [] || (Depth(s) >= 0 && NeverBelow(s[..|s| - 1]))
  }

  lemma {:induction false} NeverBelowPrefixes(s: string)
    ensures NeverBelow(s) <==> forall k :: 0 <= k <= |s| ==> Depth(s[..k]) >= 0
  {
    if s != [] {
      var t := s[..|s| - 1];
      NeverBelowPrefixes(t);
      assert s[..|s|] == s;
      assert forall k :: 0 <= k <= |t| ==> t[..k] == s[..k];
    } else {
      assert s[..0] == s;
    }
  }

  lemma BalancedPrefix(x: string, k: nat)
    requires Balanced(x) && k <= |x|
    ensures Depth(x[..k]) >= 0
  {
    NeverBelowPrefixes(x);
  }

  predicate ParenFree(s: string)
  {
    '(' !in s && ')' !in s
  }

  lemma DepthConcat(a: string, b: string)
    ensures Depth(a + b) == Depth(a) + Depth(b)
  {
    assert multiset(a + b) == multiset(a) + multiset(b);
  }

  lemma ParenFreeBalanced(s: string)
    requires ParenFree(s)
    ensures Balanced(s) && Depth(s) == 0
  {
    forall k | 0 <= k <= |s|
      ensures Depth(s[..k]) == 0
    {
      assert '(' !in s[..k] && ')' !in s[..k] by {
        assert forall c :: c in s[..k] ==> c in s;
      }
    }
    assert s[..|s|] == s;
    NeverBelowPrefixes(s);
  }

  lemma BalancedConcat(a: string, b: string)
    requires Balanced(a) && Balanced(b)
    ensures Balanced(a + b)
  {
    NeverBelowPrefixes(a);
    NeverBelowPrefixes(b);
    DepthConcat(a, b);
    forall k | 0 <= k <= |a + b|
      ensures Depth((a + b)[..k]) >= 0
    {
      if k <= |a| {
        assert (a + b)[..k] == a[..k];
      } else {
        assert (a + b)[..k] == a + b[..k - |a|];
        DepthConcat(a, b[..k - |a|]);
      }
    }
    NeverBelowPrefixes(a + b);
  }

  /** The opening parenthesis stays open over every proper prefix of the balanced text it wraps. */
  lemma DepthInsideParens(x: string, k: nat)
    requires Balanced(x) && k <= |x|
    ensures Depth("(" + x[..k]) == 1 + Depth(x[..k]) >= 1
  {
    BalancedPrefix(x, k);
    DepthConcat("(", x[..k]);
  }

  lemma BalancedParenthesized(x: string)
    requires Balanced(x)
    ensures Balanced(Parenthesized(x))
  {
    var s := Parenthesized(x);
    DepthConcat("(" + x, ")");
    DepthConcat("(", x);
    forall k | 0 <= k <= |s|
      ensures Depth(s[..k]) >= 0
    {
      if k == 0 {
        assert s[..k] == [];
      } else if k <= |x| + 1 {
        assert s[..k] == "(" + x[..k - 1];
        DepthInsideParens(x, k - 1);
      } else {
        assert s[..k] == s;
      }
    }
    NeverBelowPrefixes(s);
  }

  // ---------------------------------------------------------------------
  // Printing a tree
  // ---------------------------------------------------------------------

  function Parenthesized(s: string): string
  {
    "(" + s + ")"
  }

  /** How the parser spells each binary operator. */
  function OperatorText(op: Operator): string
  {
    match op
    case Equal => "=="
    case NotEqual => "!="
    case GreaterOrEqual => ">="
    case SmallerOrEqual => "<="
    case Greater => ">"
    case Smaller => "<"
    case And => "&&"
    case Or => "||"
    case Modulo => "%"
  }

  /** Every operator is one or two characters long, none of them a parenthesis or whitespace. */
  lemma OperatorTextShape(op: Operator)
    ensures 1 <= |OperatorText(op)| <= 2 && ParenFree(OperatorText(op))
    ensures forall k :: 0 <= k < |OperatorText(op)| ==> !IsWhitespace(OperatorText(op)[k])
  {
    match op
    case Equal =>
    case NotEqual =>
    case GreaterOrEqual =>
    case SmallerOrEqual =>
    case Greater =>
    case Smaller =>
    case And =>
    case Or =>
    case Modulo =>
  }

  /** A tree written out with every operand in parentheses. */
  function Print(ast: Ast): string
  {
    match ast
    case Ternary(c, a, b) =>
      Parenthesized(Print(c)) + "?" + Parenthesized(Print(a)) + ":" + Parenthesized(Print(b))
    case N => "n"
    case Integer(x) => DecimalString(x)
    case Op(op, l, r) => Parenthesized(Print(l)) + OperatorText(op) + Parenthesized(Print(r))
    case Not(v) => "!" + Parenthesized(Print(v))
  }

  /** Two balanced operands in parentheses around a parenthesis-free operator make a balanced text. */
  lemma BalancedBinary(x: string, o: string, y: string)
    requires Balanced(x) && Balanced(y) && ParenFree(o)
    ensures Balanced(Parenthesized(x) + o + Parenthesized(y))
  {
    BalancedParenthesized(x);
    BalancedParenthesized(y);
    ParenFreeBalanced(o);
    BalancedConcat(Parenthesized(x), o);
    BalancedConcat(Parenthesized(x) + o, Parenthesized(y));
  }

  lemma BalancedTernary(c: string, a: string, b: string)
    requires Balanced(c) && Balanced(a) && Balanced(b)
    ensures Balanced(Parenthesized(c) + "?" + Parenthesized(a) + ":" + Parenthesized(b))
  {
    BalancedBinary(c, "?", a);
    BalancedParenthesized(b);
    ParenFreeBalanced(":");
    BalancedConcat(Parenthesized(c) + "?" + Parenthesized(a), ":");
    BalancedConcat(Parenthesized(c) + "?" + Parenthesized(a) + ":", Parenthesized(b));
  }

  lemma BalancedNot(x: string)
    requires Balanced(x)
    ensures Balanced("!" + Parenthesized(x))
  {
    BalancedParenthesized(x);
    ParenFreeBalanced("!");
    BalancedConcat("!", Parenthesized(x));
  }

  lemma BinaryEnds(l: string, o: string, r: string)
    ensures var s := Parenthesized(l) + o + Parenthesized(r);
      s[0] == '(' && s[|s| - 1] == ')'
  {
  }

  lemma TernaryEnds(c: string, a: string, b: string)
    ensures var s := Parenthesized(c) + "?" + Parenthesized(a) + ":" + Parenthesized(b);
      s[0] == '(' && s[|s| - 1] == ')'
  {
  }

  lemma NotEnds(x: string)
    ensures var s := "!" + Parenthesized(x);
      s[0] == '!' && s[|s| - 1] == ')'
  {
  }

  lemma NumeralEnds(x: nat)
    ensures var d := DecimalString(x);
      IsDigit(d[0]) && IsDigit(d[|d| - 1])
  {
  }

  /** A printed tree starts with `(`, `!`, `n` or a digit and ends with `)`, `n` or a digit. */
  lemma PrintEnds(ast: Ast)
    ensures var s := Print(ast);
      |s| > 0 && !IsWhitespace(s[0]) && !IsWhitespace(s[|s| - 1])
  {
    match ast
    case Ternary(c, a, b) =>
      TernaryEnds(Print(c), Print(a), Print(b));
    case N =>
    case Integer(x) =>
      NumeralEnds(x);
    case Op(op, l, r) =>
      BinaryEnds(Print(l), OperatorText(op), Print(r));
    case Not(v) =>
      NotEnds(Print(v));
  }

  /** Text that can stand in parentheses as an operand: balanced, with no whitespace at either end. */
  ghost predicate Operand(x: string)
  {
    Balanced(x) && x != [] && !IsWhitespace(x[0]) && !IsWhitespace(x[|x| - 1])
  }

  lemma DigitsBalanced(d: string)
    requires AllDigits(d)
    ensures Balanced(d)
  {
    assert ParenFree(d) by {
      assert forall k :: 0 <= k < |d| ==> IsDigit(d[k]);
    }
    ParenFreeBalanced(d);
  }

  /** A printed tree is balanced. */
  lemma {:induction false} PrintBalanced(ast: Ast)
    ensures Balanced(Print(ast))
  {
    match ast
    case Ternary(c, a, b) =>
      PrintBalanced(c); PrintBalanced(a); PrintBalanced(b);
      BalancedTernary(Print(c), Print(a), Print(b));
    case N =>
      ParenFreeBalanced("n");
    case Integer(x) =>
      DigitsBalanced(DecimalString(x));
    case Op(op, l, r) =>
      PrintBalanced(l); PrintBalanced(r);
      OperatorTextShape(op);
      BalancedBinary(Print(l), OperatorText(op), Print(r));
    case Not(v) =>
      PrintBalanced(v);
      BalancedNot(Print(v));
  }

  /** A printed tree can stand as an operand. */
  lemma PrintOperand(ast: Ast)
    ensures Operand(Print(ast))
  {
    PrintBalanced(ast);
    PrintEnds(ast);
  }

  // ---------------------------------------------------------------------
  // The folds of index_of and parse_parens over pieces of text
  // ---------------------------------------------------------------------

  lemma {:induction false} ScanConcat(pat: string, st: ScanState, a: string, b: string)
    requires st.nMatches <= st.i
    ensures ScanFrom(pat, st, a + b) == ScanFrom(pat, ScanFrom(pat, st, a), b)
    decreases |b|
  {
    if b == [] {
      assert a + b == a;
    } else {
      ScanConcat(pat, st, a, b[..|b| - 1]);
      assert (a + b)[..|a + b| - 1] == a + b[..|b| - 1];
    }
  }

  lemma ScanOne(pat: string, st: ScanState, c: char)
    requires st.nMatches <= st.i
    ensures ScanFrom(pat, st, [c]) == ScanStep(pat, st, c)
  {
    assert [c][..0] == [];
  }

  lemma ScanTwo(pat: string, st: ScanState, c: char, d: char)
    requires st.nMatches <= st.i
    ensures ScanFrom(pat, st, [c, d]) == ScanStep(pat, ScanStep(pat, st, c), d)
  {
    assert [c, d][..1] == [c];
    ScanOne(pat, st, c);
  }

  /** Once a match is recorded, the rest of the text changes nothing. */
  lemma {:induction false} ScanFrozen(pat: string, st: ScanState, s: string)
    requires st.nMatches <= st.i && st.matchIndex.Some?
    ensures ScanFrom(pat, st, s) == st
  {
    if s != [] {
      ScanFrozen(pat, st, s[..|s| - 1]);
    }
  }

  /** While nothing has matched, the fold counts the characters and tracks the depth. */
  lemma {:induction false} ScanTrack(pat: string, st: ScanState, s: string)
    requires st.nMatches <= st.i
    ensures var r := ScanFrom(pat, st, s);
      r.matchIndex.None? ==> r.i == st.i + |s| && r.parenLevel == st.parenLevel + Depth(s)
  {
    if s != [] {
      var p := s[..|s| - 1];
      ScanTrack(pat, st, p);
      DepthSnoc(p, s[|s| - 1]);
      assert p + [s[|s| - 1]] == s;
    }
  }

  /**
   * Text in which the pattern's first character never appears, and whose
   * first character does not continue a partial match, matches nothing and
   * leaves no partial match behind.
   */
  lemma {:induction false} ScanAbsent(pat: string, st: ScanState, s: string)
    requires st.nMatches <= st.i && st.matchIndex.None? && |pat| > 0 && s != []
    requires pat[0] !in s
    requires st.nMatches < |pat| ==> s[0] != pat[st.nMatches]
    ensures var r := ScanFrom(pat, st, s);
      r.matchIndex.None? && r.nMatches == 0 && r.i == st.i + |s|
      && r.parenLevel == st.parenLevel + Depth(s)
  {
    var p := s[..|s| - 1];
    if p == [] {
      ScanOne(pat, st, s[0]);
      DepthSnoc([], s[0]);
      assert [s[0]] == s;
    } else {
      assert p[0] == s[0];
      assert pat[0] !in p by {
        assert forall c :: c in p ==> c in s;
      }
      ScanAbsent(pat, st, p);
      DepthSnoc(p, s[|s| - 1]);
      assert p + [s[|s| - 1]] == s;
    }
  }

  /** The nesting level inside `(` + `x[..k]` when the scan starts at level 0 and `pat` has no parentheses. */
  lemma {:induction false} ScanInsideParens(pat: string, st: ScanState, x: string, k: nat)
    requires st.nMatches <= st.i && st.matchIndex.None? && st.parenLevel == 0
    requires ParenFree(pat) && Balanced(x) && k <= |x|
    ensures var r := ScanFrom(pat, st, "(" + x[..k]);
      r.matchIndex.None? && r.i == st.i + 1 + k && r.parenLevel == 1 + Depth(x[..k])
  {
    var s := "(" + x[..k];
    if k == 0 {
      assert s == ['('];
      ScanOne(pat, st, '(');
      assert x[..0] == [];
    } else {
      ScanInsideParens(pat, st, x, k - 1);
      assert s[..|s| - 1] == "(" + x[..k - 1];
      assert x[..k] == x[..k - 1] + [x[k - 1]];
      DepthSnoc(x[..k - 1], x[k - 1]);
      DepthInsideParens(x, k);
    }
  }

  /**
   * A parenthesised balanced text read at level 0 cannot hold a match of a
   * pattern without parentheses: the fold comes out of it unmatched, at level 0.
   */
  lemma ScanShielded(pat: string, st: ScanState, x: string)
    requires st.nMatches <= st.i && st.matchIndex.None? && st.parenLevel == 0
    requires ParenFree(pat) && Balanced(x)
    ensures ScanFrom(pat, st, Parenthesized(x)) == ScanState(None, st.i + |x| + 2, 0, 0)
  {
    ScanInsideParens(pat, st, x, |x|);
    assert x[..|x|] == x;
    ScanConcat(pat, st, "(" + x, ")");
    ScanOne(pat, ScanFrom(pat, st, "(" + x), ')');
  }

  lemma ParensOne(st: ParensState, c: char)
    ensures ParensFrom(st, [c]) == ParensStep(st, c)
  {
    assert [c][..0] == [];
  }

  lemma {:induction false} ParensConcat(st: ParensState, a: string, b: string)
    ensures ParensFrom(st, a + b) == ParensFrom(ParensFrom(st, a), b)
    decreases |b|
  {
    if b == [] {
      assert a + b == a;
    } else {
      ParensConcat(st, a, b[..|b| - 1]);
      assert (a + b)[..|a + b| - 1] == a + b[..|b| - 1];
    }
  }

  /** At level 0 the fold of `parse_parens` ignores everything but `(`. */
  lemma {:induction false} ParensIdle(st: ParensState, s: string)
    requires st.level == 0 && '(' !in s
    ensures ParensFrom(st, s) == st
  {
    if s != [] {
      assert '(' !in s[..|s| - 1] by {
        assert forall c :: c in s[..|s| - 1] ==> c in s;
      }
      ParensIdle(st, s[..|s| - 1]);
    }
  }

  lemma {:induction false} ParensPrefix(st: ParensState, x: string, k: nat)
    requires st.level >= 1 && Balanced(x) && k <= |x|
    ensures Depth(x[..k]) >= 0
    ensures ParensFrom(st, x[..k]) == ParensState(st.level + Depth(x[..k]), st.index + k)
  {
    BalancedPrefix(x, k);
    if k == 0 {
      assert x[..0] == [];
    } else {
      ParensPrefix(st, x, k - 1);
      BalancedPrefix(x, k);
      assert x[..k][..k - 1] == x[..k - 1];
      assert x[..k] == x[..k - 1] + [x[k - 1]];
      DepthSnoc(x[..k - 1], x[k - 1]);
    }
  }

  /** Inside an open parenthesis a balanced text is counted and leaves the level as it was. */
  lemma ParensShielded(st: ParensState, x: string)
    requires st.level >= 1 && Balanced(x)
    ensures ParensFrom(st, x) == ParensState(st.level, st.index + |x|)
  {
    ParensPrefix(st, x, |x|);
    assert x[..|x|] == x;
  }

  /** Inside `(x)` a parenthesis is open at every character, so the fold's count is the length of `(x)`. */
  lemma ParensEndWrapped(x: string)
    requires Balanced(x)
    ensures ParensEnd(x) == |Parenthesized(x)|
    ensures Parenthesized(x)[1..|Parenthesized(x)| - 1] == x
  {
    ParensShielded(ParensState(1, 2), x);
  }

  lemma ParseParensUnwrap(s: string)
    requires |s| >= 2 && s[0] == '(' && ParensEnd(s[1..|s| - 1]) == |s|
    ensures ParseParens(s) == Parse(Trim(s[1..|s| - 1]))
  {
  }

  lemma ParseTrimmed(s: string)
    requires Trim(s) == s
    ensures Parse(s) == ParseParens(s)
  {
  }

  lemma ParseWrapped(x: string)
    requires Balanced(x)
    ensures Parse(Parenthesized(x)) == Parse(Trim(x))
  {
    var s := Parenthesized(x);
    assert Parse(s) == ParseParens(s) by {
      TrimUntrimmed(s);
      ParseTrimmed(s);
    }
    assert ParseParens(s) == Parse(Trim(x)) by {
      ParensEndWrapped(x);
      ParseParensUnwrap(s);
    }
  }

  /** A balanced text in parentheses parses as the text itself. */
  lemma ParseParenthesized(x: string)
    requires Operand(x)
    ensures Parse(Parenthesized(x)) == Parse(x)
  {
    ParseWrapped(x);
    TrimUntrimmed(x);
  }

  /** A text that is not one parenthesised whole goes on to `parse_and` in full. */
  lemma ParseParensKeep(s: string)
    requires |s| >= 2 && s[0] == '(' && ParensEnd(s[1..|s| - 1]) != |s| && Trim(s) == s
    ensures ParseParens(s) == ParseAnd(s)
  {
  }

  /** The fold of `parse_parens` over `(l) o (r)` does not count the characters of `o`, so its count falls short of the length. */
  lemma ParensEndBinary(l: string, o: string, r: string)
    requires Balanced(l) && Balanced(r) && ParenFree(o) && o != []
    ensures var s := Parenthesized(l) + o + Parenthesized(r);
      ParensEnd(s[1..|s| - 1]) == |s| - |o|
  {
    var s := Parenthesized(l) + o + Parenthesized(r);
    var inner := s[1..|s| - 1];
    assert inner == l + ")" + o + "(" + r;
    var st0 := ParensState(1, 2);
    ParensConcat(st0, l + ")" + o + "(", r);
    ParensConcat(st0, l + ")" + o, "(");
    ParensConcat(st0, l + ")", o);
    ParensConcat(st0, l, ")");
    ParensShielded(st0, l);
    ParensOne(ParensState(1, 2 + |l|), ')');
    ParensIdle(ParensState(0, 3 + |l|), o);
    ParensOne(ParensState(0, 3 + |l|), '(');
    ParensShielded(ParensState(1, 4 + |l|), r);
  }

  /** `)`, a character other than `(`, then `(`, read inside one open parenthesis. */
  lemma ParensSeparator(st: ParensState, m: char)
    requires st.level == 1 && m != '('
    ensures ParensFrom(st, [')', m, '(']) == ParensState(1, st.index + 2)
  {
    assert [')', m, '('][..2] == [')', m];
    assert [')', m][..1] == [')'];
    ParensOne(st, ')');
  }

  /** `)`, one other character, `(`, then a balanced text, read inside one open parenthesis. */
  lemma ParensSeparated(st: ParensState, m: char, y: string)
    requires st.level == 1 && m != '(' && Balanced(y)
    ensures ParensFrom(st, [')', m, '('] + y) == ParensState(1, st.index + 2 + |y|)
  {
    ParensConcat(st, [')', m, '('], y);
    ParensSeparator(st, m);
    ParensShielded(ParensState(1, st.index + 2), y);
  }

  /** A balanced text read inside one open parenthesis, followed by more text. */
  lemma ParensAfterBalanced(st: ParensState, x: string, y: string, z: string)
    requires st.level == 1 && Balanced(x)
    ensures ParensFrom(st, x + (y + z)) == ParensFrom(ParensFrom(ParensState(1, st.index + |x|), y), z)
  {
    ParensConcat(st, x, y + z);
    ParensShielded(st, x);
    ParensConcat(ParensState(1, st.index + |x|), y, z);
  }

  lemma ParensFoldTernary(c: string, a: string, b: string)
    requires Balanced(c) && Balanced(a) && Balanced(b)
    ensures ParensFrom(ParensState(1, 2), c + (([')', '?', '('] + a) + ([')', ':', '('] + b)))
         == ParensState(1, 6 + |c| + |a| + |b|)
  {
    var qa, cb := [')', '?', '('] + a, [')', ':', '('] + b;
    var st1 := ParensState(1, 2 + |c|);
    ParensAfterBalanced(ParensState(1, 2), c, qa, cb);
    ParensSeparated(st1, '?', a);
    var st2 := ParensFrom(st1, qa);
    assert st2 == ParensState(1, 4 + |c| + |a|);
    ParensSeparated(st2, ':', b);
  }

  /** What lies between the outer ends of `(c)?(a):(b)`. */
  lemma TernaryInner(c: string, a: string, b: string)
    ensures var s := Parenthesized(c) + "?" + Parenthesized(a) + ":" + Parenthesized(b);
      s[1..|s| - 1] == c + (([')', '?', '('] + a) + ([')', ':', '('] + b))
  {
    var m := c + (([')', '?', '('] + a) + ([')', ':', '('] + b));
    var s := Parenthesized(c) + "?" + Parenthesized(a) + ":" + Parenthesized(b);
    assert s == "(" + m + ")";
    assert ("(" + m + ")")[1..|s| - 1] == m;
  }

  /** Likewise the one that opens `(c)?(a):(b)`. */
  lemma ParensEndTernary(c: string, a: string, b: string)
    requires Balanced(c) && Balanced(a) && Balanced(b)
    ensures var s := Parenthesized(c) + "?" + Parenthesized(a) + ":" + Parenthesized(b);
      ParensEnd(s[1..|s| - 1]) == |s| - 2
  {
    TernaryInner(c, a, b);
    ParensFoldTernary(c, a, b);
  }

  /** In `(l) o (r)` only the operator text can hold a top-level match. */
  lemma SkeletonIndexOf(pat: string, l: string, o: string, r: string)
    requires ParenFree(pat) && ParenFree(o) && Balanced(l) && Balanced(r)
    ensures IndexOf(Parenthesized(l) + o + Parenthesized(r), pat)
         == ScanFrom(pat, ScanState(None, |l| + 2, 0, 0), o).matchIndex
  {
    var z := ScanState(None, |l| + 2, 0, 0);
    ScanConcat(pat, ScanStart, Parenthesized(l) + o, Parenthesized(r));
    ScanConcat(pat, ScanStart, Parenthesized(l), o);
    ScanShielded(pat, ScanStart, l);
    var t := ScanFrom(pat, z, o);
    if t.matchIndex.Some? {
      ScanFrozen(pat, t, Parenthesized(r));
    } else {
      ScanTrack(pat, z, o);
      ParenFreeBalanced(o);
      ScanShielded(pat, t, r);
    }
  }

  /** The patterns `parse_and` … `parse_mod` look for, in the order they look. */
  const ChainPatterns: seq<string> := ["&&", "||", "?", ">=", ">", "<=", "<", "==", "!=", "%"]

  /** The position of an operator's own pattern in the chain. */
  function ChainRank(op: Operator): (k: nat)
    ensures k < |ChainPatterns| && ChainPatterns[k] == OperatorText(op)
  {
    match op
    case And => 0
    case Or => 1
    case GreaterOrEqual => 3
    case Greater => 4
    case SmallerOrEqual => 5
    case Smaller => 6
    case Equal => 7
    case NotEqual => 8
    case Modulo => 9
  }

  /**
   * Read from a fresh state at level 0, an operator's text completes one of
   * the chain's patterns exactly when the pattern is a prefix of it.
   */
  lemma OperatorScan(pat: string, z: ScanState, op: Operator)
    requires z.matchIndex.None? && z.nMatches == 0 && z.parenLevel == 0
    requires pat in ChainPatterns
    ensures ScanFrom(pat, z, OperatorText(op)).matchIndex == if pat <= OperatorText(op) then Some(z.i) else None
  {
    var o := OperatorText(op);
    OperatorTextShape(op);
    if |o| == 1 {
      ScanOne(pat, z, o[0]);
      assert o == [o[0]];
    } else {
      ScanTwo(pat, z, o[0], o[1]);
      assert o == [o[0], o[1]];
    }
  }

  /** Where `index_of` finds each pattern of the chain in `(l) op (r)`. */
  lemma PrintedOpIndexOf(pat: string, op: Operator, l: string, r: string)
    requires Balanced(l) && Balanced(r) && pat in ChainPatterns
    ensures var o := OperatorText(op);
      IndexOf(Parenthesized(l) + o + Parenthesized(r), pat) == if pat <= o then Some(|l| + 2) else None
  {
    OperatorTextShape(op);
    SkeletonIndexOf(pat, l, OperatorText(op), r);
    OperatorScan(pat, ScanState(None, |l| + 2, 0, 0), op);
  }

  // Each function of the chain hands on the text it does not split. The
  // chain is crossed a few links at a time: the solver would unfold every
  // function of a longer stretch at once.

  lemma SkipToGe(s: string)
    requires IndexOf(s, "&&") == None && IndexOf(s, "||") == None && IndexOf(s, "?") == None
    ensures ParseAnd(s) == ParseGe(s)
  {
    assert ParseAnd(s) == ParseOr(s);
    assert ParseOr(s) == ParseTernary(s);
  }

  lemma SkipToLt(s: string)
    requires IndexOf(s, ">=") == None && IndexOf(s, ">") == None && IndexOf(s, "<=") == None
    ensures ParseGe(s) == ParseLt(s)
  {
    assert ParseGe(s) == ParseGt(s);
    assert ParseGt(s) == ParseLe(s);
  }

  lemma SkipToMod(s: string)
    requires IndexOf(s, "<") == None && IndexOf(s, "==") == None && IndexOf(s, "!=") == None
    ensures ParseLt(s) == ParseMod(s)
  {
    assert ParseLt(s) == ParseEq(s);
    assert ParseEq(s) == ParseNeq(s);
  }

  lemma HitAnd(s: string, i: nat)
    requires IndexOf(s, "&&") == Some(i)
    ensures ParseAnd(s) == Binary(And, s[..i], s[i + 2..])
  {
  }

  lemma HitOr(s: string, i: nat)
    requires IndexOf(s, "&&") == None && IndexOf(s, "||") == Some(i)
    ensures ParseAnd(s) == Binary(Or, s[..i], s[i + 2..])
  {
  }

  lemma HitGreaterOrEqual(s: string, i: nat)
    requires IndexOf(s, ">=") == Some(i)
    ensures ParseGe(s) == Binary(GreaterOrEqual, s[..i], s[i + 2..])
  {
  }

  lemma HitGreater(s: string, i: nat)
    requires IndexOf(s, ">=") == None && IndexOf(s, ">") == Some(i)
    ensures ParseGe(s) == Binary(Greater, s[..i], s[i + 1..])
  {
  }

  lemma HitSmallerOrEqual(s: string, i: nat)
    requires IndexOf(s, ">=") == None && IndexOf(s, ">") == None && IndexOf(s, "<=") == Some(i)
    ensures ParseGe(s) == Binary(SmallerOrEqual, s[..i], s[i + 2..])
  {
    assert ParseGe(s) == ParseGt(s);
    assert ParseGt(s) == ParseLe(s);
  }

  lemma HitSmaller(s: string, i: nat)
    requires IndexOf(s, "<") == Some(i)
    ensures ParseLt(s) == Binary(Smaller, s[..i], s[i + 1..])
  {
  }

  lemma HitEqual(s: string, i: nat)
    requires IndexOf(s, "<") == None && IndexOf(s, "==") == Some(i)
    ensures ParseLt(s) == Binary(Equal, s[..i], s[i + 2..])
  {
  }

  lemma HitNotEqual(s: string, i: nat)
    requires IndexOf(s, "<") == None && IndexOf(s, "==") == None && IndexOf(s, "!=") == Some(i)
    ensures ParseLt(s) == Binary(NotEqual, s[..i], s[i + 2..])
  {
    assert ParseLt(s) == ParseEq(s);
    assert ParseEq(s) == ParseNeq(s);
  }

  lemma HitModulo(s: string, i: nat)
    requires IndexOf(s, "%") == Some(i)
    ensures ParseMod(s) == Binary(Modulo, s[..i], s[i + 1..])
  {
  }

  /** From `parse_lt` on, for an operator the chain tries at or after `<`. */
  lemma ReachFromLt(s: string, op: Operator, i: nat)
    requires 6 <= ChainRank(op)
    requires forall k :: 6 <= k < ChainRank(op) ==> IndexOf(s, ChainPatterns[k]) == None
    requires IndexOf(s, ChainPatterns[ChainRank(op)]) == Some(i)
    ensures ParseLt(s) == Binary(op, s[..i], s[i + |OperatorText(op)|..])
  {
    var rhs := s[i + |OperatorText(op)|..];
    match op
    case Smaller =>
      assert rhs == s[i + 1..];
      HitSmaller(s, i);
    case Equal =>
      assert rhs == s[i + 2..];
      assert IndexOf(s, ChainPatterns[6]) == None;
      HitEqual(s, i);
    case NotEqual =>
      assert rhs == s[i + 2..];
      assert IndexOf(s, ChainPatterns[6]) == None;
      assert IndexOf(s, ChainPatterns[7]) == None;
      HitNotEqual(s, i);
    case Modulo =>
      assert rhs == s[i + 1..];
      assert IndexOf(s, ChainPatterns[6]) == None;
      assert IndexOf(s, ChainPatterns[7]) == None;
      assert IndexOf(s, ChainPatterns[8]) == None;
      SkipToMod(s);
      HitModulo(s, i);
  }

  /** From `parse_ge` on, for an operator the chain tries at or after `>=`. */
  lemma ReachFromGe(s: string, op: Operator, i: nat)
    requires 3 <= ChainRank(op)
    requires forall k :: 3 <= k < ChainRank(op) ==> IndexOf(s, ChainPatterns[k]) == None
    requires IndexOf(s, ChainPatterns[ChainRank(op)]) == Some(i)
    ensures ParseGe(s) == Binary(op, s[..i], s[i + |OperatorText(op)|..])
  {
    if ChainRank(op) >= 6 {
      assert IndexOf(s, ChainPatterns[3]) == None;
      assert IndexOf(s, ChainPatterns[4]) == None;
      assert IndexOf(s, ChainPatterns[5]) == None;
      SkipToLt(s);
      ReachFromLt(s, op, i);
    } else {
      ReachWithinGe(s, op, i);
    }
  }

  /** `parse_ge`, `parse_gt` and `parse_le` themselves split at `>=`, `>` and `<=`. */
  lemma ReachWithinGe(s: string, op: Operator, i: nat)
    requires 3 <= ChainRank(op) < 6
    requires forall k :: 3 <= k < ChainRank(op) ==> IndexOf(s, ChainPatterns[k]) == None
    requires IndexOf(s, ChainPatterns[ChainRank(op)]) == Some(i)
    ensures ParseGe(s) == Binary(op, s[..i], s[i + |OperatorText(op)|..])
  {
    match op
    case GreaterOrEqual => HitGreaterOrEqual(s, i);
    case Greater =>
      assert IndexOf(s, ChainPatterns[3]) == None;
      HitGreater(s, i);
    case SmallerOrEqual =>
      assert IndexOf(s, ChainPatterns[3]) == None;
      assert IndexOf(s, ChainPatterns[4]) == None;
      HitSmallerOrEqual(s, i);
  }

  /** `parse_and` hands `s` down the chain to the first function whose pattern it holds at the top level. */
  lemma ChainReaches(s: string, op: Operator, i: nat)
    requires forall k :: 0 <= k < ChainRank(op) ==> IndexOf(s, ChainPatterns[k]) == None
    requires IndexOf(s, ChainPatterns[ChainRank(op)]) == Some(i)
    ensures ParseAnd(s) == Binary(op, s[..i], s[i + |OperatorText(op)|..])
  {
    if ChainRank(op) >= 3 {
      assert IndexOf(s, ChainPatterns[0]) == None;
      assert IndexOf(s, ChainPatterns[1]) == None;
      assert IndexOf(s, ChainPatterns[2]) == None;
      SkipToGe(s);
      ReachFromGe(s, op, i);
    } else if op == And {
      HitAnd(s, i);
    } else {
      assert IndexOf(s, ChainPatterns[0]) == None;
      HitOr(s, i);
    }
  }

  /** No pattern the chain tries before an operator's own is a prefix of the operator's text. */
  lemma ChainOrder(op: Operator, k: nat)
    requires k <= ChainRank(op)
    ensures ChainPatterns[k] <= OperatorText(op) <==> k == ChainRank(op)
  {
    var p, o := ChainPatterns[k], OperatorText(op);
    if k < ChainRank(op) {
      assert p[0] != o[0] || |p| > |o| by {
        match op
        case And =>
        case Or =>
        case GreaterOrEqual =>
        case Greater =>
        case SmallerOrEqual =>
        case Smaller =>
        case Equal =>
        case NotEqual =>
        case Modulo =>
      }
      if |p| <= |o| {
        assert p[0] != o[..|p|][0];
      }
    }
  }

  /** The chain of `parse_*` functions reaches the operator of `(l) op (r)` and splits there. */
  lemma ParseOpPrinted(op: Operator, l: string, r: string)
    requires Balanced(l) && Balanced(r)
    ensures var s := Parenthesized(l) + OperatorText(op) + Parenthesized(r);
      ParseAnd(s) == Binary(op, Parenthesized(l), Parenthesized(r))
  {
    var o := OperatorText(op);
    var s := Parenthesized(l) + o + Parenthesized(r);
    var i0 := |l| + 2;
    assert s[..i0] == Parenthesized(l);
    assert s[i0 + |o|..] == Parenthesized(r);
    forall k | 0 <= k <= ChainRank(op)
      ensures IndexOf(s, ChainPatterns[k]) == if k == ChainRank(op) then Some(i0) else None
    {
      PrintedOpIndexOf(ChainPatterns[k], op, l, r);
      ChainOrder(op, k);
    }
    ChainReaches(s, op, i0);
  }

  // ---------------------------------------------------------------------
  // Ternary and `!` skeletons
  // ---------------------------------------------------------------------

  /** Scanning `(c)?` from the start stops right after the `?`, with `(c)` left behind at level 0. */
  lemma ScanQuestion(pat: string, c: string)
    requires ParenFree(pat) && Balanced(c)
    ensures ScanFrom(pat, ScanStart, Parenthesized(c) + "?")
            == ScanStep(pat, ScanState(None, |c| + 2, 0, 0), '?')
  {
    ScanConcat(pat, ScanStart, Parenthesized(c), "?");
    ScanShielded(pat, ScanStart, c);
    ScanOne(pat, ScanState(None, |c| + 2, 0, 0), '?');
  }

  /** From an unmatched state at level 0, scanning `(a):(b)` can only match at the `:`. */
  lemma ScanColonTail(pat: string, z: ScanState, a: string, b: string)
    requires z.nMatches <= z.i && z.matchIndex.None? && z.parenLevel == 0
    requires ParenFree(pat) && Balanced(a) && Balanced(b)
    ensures ScanFrom(pat, z, Parenthesized(a) + ":" + Parenthesized(b)).matchIndex
            == ScanStep(pat, ScanState(None, z.i + |a| + 2, 0, 0), ':').matchIndex
  {
    ScanConcat(pat, z, Parenthesized(a) + ":", Parenthesized(b));
    ScanConcat(pat, z, Parenthesized(a), ":");
    ScanShielded(pat, z, a);
    var z2 := ScanState(None, z.i + |a| + 2, 0, 0);
    ScanOne(pat, z2, ':');
    var t2 := ScanStep(pat, z2, ':');
    if t2.matchIndex.Some? {
      ScanFrozen(pat, t2, Parenthesized(b));
    } else {
      ScanShielded(pat, t2, b);
    }
  }

  /** In `(c)?(a):(b)` only the `?` and the `:` can hold a top-level match. */
  lemma TernaryIndexOf(pat: string, c: string, a: string, b: string)
    requires ParenFree(pat) && Balanced(c) && Balanced(a) && Balanced(b)
    ensures var t1 := ScanStep(pat, ScanState(None, |c| + 2, 0, 0), '?');
      IndexOf(Parenthesized(c) + "?" + Parenthesized(a) + ":" + Parenthesized(b), pat)
      == if t1.matchIndex.Some? then t1.matchIndex
         else ScanStep(pat, ScanState(None, |c| + |a| + 5, 0, 0), ':').matchIndex
  {
    var head := Parenthesized(c) + "?";
    var rest := Parenthesized(a) + ":" + Parenthesized(b);
    assert Parenthesized(c) + "?" + Parenthesized(a) + ":" + Parenthesized(b) == head + rest;
    ScanConcat(pat, ScanStart, head, rest);
    ScanQuestion(pat, c);
    var t1 := ScanStep(pat, ScanState(None, |c| + 2, 0, 0), '?');
    if t1.matchIndex.Some? {
      ScanFrozen(pat, t1, rest);
    } else {
      ScanColonTail(pat, t1, a, b);
    }
  }

  /** In `!(x)` only the `!` can hold a top-level match. */
  lemma NotIndexOf(pat: string, x: string)
    requires ParenFree(pat) && Balanced(x)
    ensures IndexOf("!" + Parenthesized(x), pat) == ScanStep(pat, ScanStart, '!').matchIndex
  {
    ScanConcat(pat, ScanStart, "!", Parenthesized(x));
    ScanOne(pat, ScanStart, '!');
    var t := ScanStep(pat, ScanStart, '!');
    if t.matchIndex.Some? {
      ScanFrozen(pat, t, Parenthesized(x));
    } else {
      ScanShielded(pat, t, x);
    }
  }

  lemma SkipToTernary(s: string)
    requires IndexOf(s, "&&") == None && IndexOf(s, "||") == None
    ensures ParseAnd(s) == ParseTernary(s)
  {
    assert ParseAnd(s) == ParseOr(s);
  }

  lemma SkipAndToLt(s: string)
    requires forall k :: 0 <= k < 6 ==> IndexOf(s, ChainPatterns[k]) == None
    ensures ParseAnd(s) == ParseLt(s)
  {
    assert IndexOf(s, ChainPatterns[0]) == None;
    assert IndexOf(s, ChainPatterns[1]) == None;
    assert IndexOf(s, ChainPatterns[2]) == None;
    SkipToGe(s);
    assert IndexOf(s, ChainPatterns[3]) == None;
    assert IndexOf(s, ChainPatterns[4]) == None;
    assert IndexOf(s, ChainPatterns[5]) == None;
    SkipToLt(s);
  }

  lemma SkipLtToNot(s: string)
    requires forall k :: 6 <= k < |ChainPatterns| ==> IndexOf(s, ChainPatterns[k]) == None
    requires Trim(s) == s
    ensures ParseLt(s) == ParseNot(s)
  {
    assert IndexOf(s, ChainPatterns[6]) == None;
    assert IndexOf(s, ChainPatterns[7]) == None;
    assert IndexOf(s, ChainPatterns[8]) == None;
    SkipToMod(s);
    assert IndexOf(s, ChainPatterns[9]) == None;
  }

  /** Text with none of the chain's patterns at the top level reaches `parse_not`. */
  lemma SkipToNot(s: string)
    requires forall k :: 0 <= k < |ChainPatterns| ==> IndexOf(s, ChainPatterns[k]) == None
    requires Trim(s) == s
    ensures ParseAnd(s) == ParseNot(s)
  {
    SkipAndToLt(s);
    SkipLtToNot(s);
  }

  /** `index_of` finds the `?` and the `:` of `(c)?(a):(b)`, and neither `&&` nor `||`. */
  lemma TernaryFinds(c: string, a: string, b: string)
    requires Balanced(c) && Balanced(a) && Balanced(b)
    ensures var s := Parenthesized(c) + "?" + Parenthesized(a) + ":" + Parenthesized(b);
      && IndexOf(s, "&&") == None && IndexOf(s, "||") == None
      && IndexOf(s, "?") == Some(|c| + 2) && IndexOf(s, ":") == Some(|c| + |a| + 5)
  {
    TernaryIndexOf("&&", c, a, b);
    TernaryIndexOf("||", c, a, b);
    TernaryIndexOf("?", c, a, b);
    TernaryIndexOf(":", c, a, b);
  }

  /** Where `parse_ternary` cuts `(c)?(a):(b)`, and the three pieces it gets. */
  lemma TernaryLocated(c: string, a: string, b: string)
    requires Balanced(c) && Balanced(a) && Balanced(b)
    ensures var s := Parenthesized(c) + "?" + Parenthesized(a) + ":" + Parenthesized(b);
      var i, l := |c| + 2, |c| + |a| + 5;
      && IndexOf(s, "?") == Some(i) && IndexOf(s, ":") == Some(l) && i + 1 <= l
      && s[..i] == Parenthesized(c) && s[i + 1..l] == Parenthesized(a) && s[l + 1..] == Parenthesized(b)
  {
    TernaryFinds(c, a, b);
  }

  /** `index_of` finds the `!` of `!(x)` and none of the chain's patterns. */
  lemma NotFinds(x: string)
    requires Balanced(x)
    ensures var s := "!" + Parenthesized(x);
      && (forall k :: 0 <= k < |ChainPatterns| ==> IndexOf(s, ChainPatterns[k]) == None)
      && IndexOf(s, "!") == Some(0)
  {
    var s := "!" + Parenthesized(x);
    forall k | 0 <= k < |ChainPatterns|
      ensures IndexOf(s, ChainPatterns[k]) == None
    {
      NotIndexOf(ChainPatterns[k], x);
    }
    NotIndexOf("!", x);
  }

  lemma NotSlices(x: string)
    ensures ("!" + Parenthesized(x))[1..] == Parenthesized(x)
  {
  }

  // ---------------------------------------------------------------------
  // Atoms
  // ---------------------------------------------------------------------

  /** The characters the parser treats as (part of) an operator or a parenthesis. */
  predicate IsOperatorChar(c: char)
  {
    c in "()&|?:<>=!%"
  }

  predicate NoOperatorChar(s: string)
  {
    forall k :: 0 <= k < |s| ==> !IsOperatorChar(s[k])
  }

  /** `index_of` finds nothing that starts with an operator character in text that has none. */
  lemma AtomIndexOf(t: string, pat: string)
    requires NoOperatorChar(t) && |pat| > 0 && IsOperatorChar(pat[0])
    ensures IndexOf(t, pat) == None
  {
    if t != [] {
      assert pat[0] !in t;
      ScanAbsent(pat, ScanStart, t);
    }
  }

  lemma ParseParensPlain(t: string)
    requires (t == [] || t[0] != '(') && Trim(t) == t
    ensures ParseParens(t) == ParseAnd(t)
  {
  }

  lemma ParseNotPlain(t: string)
    requires IndexOf(t, "!") == None && Trim(t) == t
    ensures ParseNot(t) == ParseInt(t)
  {
  }

  lemma ParseIntPlain(t: string)
    requires Trim(t) == t
    ensures ParseInt(t) == match ParseDecimal(t)
      case Some(x) => Parsed(Integer(x))
      case None => if t == "n" then Parsed(N) else Failed(PluralParsing)
  {
  }

  /** Trimming keeps no character that was not there. */
  lemma TrimNoOperatorChar(s: string)
    requires NoOperatorChar(s)
    ensures NoOperatorChar(Trim(s))
  {
    TrimIsSlice(s);
    var t := Trim(s);
    var a := |s| - |TrimStart(s)|;
    assert forall k :: 0 <= k < |t| ==> t[k] == s[a + k];
  }

  /**
   * Text without any operator character or parenthesis parses as a number
   * when `from_str_radix` accepts its trimmed form, as `n` when that is `n`,
   * and fails with `PluralParsing` otherwise.
   */
  lemma ParseAtom(s: string)
    requires NoOperatorChar(s)
    ensures Parse(s) == match ParseDecimal(Trim(s))
      case Some(x) => Parsed(Integer(x))
      case None => if Trim(s) == "n" then Parsed(N) else Failed(PluralParsing)
  {
    var t := Trim(s);
    TrimNoOperatorChar(s);
    TrimUntrimmed(t);
    assert t == [] || t[0] != '(' by {
      if t != [] {
        assert !IsOperatorChar(t[0]);
      }
    }
    forall k | 0 <= k < |ChainPatterns|
      ensures IndexOf(t, ChainPatterns[k]) == None
    {
      AtomIndexOf(t, ChainPatterns[k]);
    }
    AtomIndexOf(t, "!");
    assert ParseAnd(t) == ParseNot(t) by {
      SkipToNot(t);
    }
    ParseParensPlain(t);
    ParseNotPlain(t);
    ParseIntPlain(t);
  }

  // ---------------------------------------------------------------------
  // Reading back a printed tree
  // ---------------------------------------------------------------------

  /**
   * Trimmed text that opens with `(` and whose fold count (2 plus the
   * characters read while a parenthesis is open) differs from its length goes
   * to `parse_and` whole.
   */
  lemma ParseOpenHead(s: string)
    requires |s| >= 2 && s[0] == '(' && ParensEnd(s[1..|s| - 1]) != |s| && Trim(s) == s
    ensures Parse(s) == ParseAnd(s)
  {
    ParseTrimmed(s);
    ParseParensKeep(s);
  }

  /** The text `(l) op (r)` is trimmed and the fold of `parse_parens` over it counts fewer characters than it holds. */
  lemma PrintedOpShape(op: Operator, l: string, r: string)
    requires Balanced(l) && Balanced(r)
    ensures var s := Parenthesized(l) + OperatorText(op) + Parenthesized(r);
      |s| >= 2 && s[0] == '(' && ParensEnd(s[1..|s| - 1]) != |s| && Trim(s) == s
  {
    var o := OperatorText(op);
    var s := Parenthesized(l) + o + Parenthesized(r);
    OperatorTextShape(op);
    TrimUntrimmed(s);
    ParensEndBinary(l, o, r);
  }

  /** `(l) op (r)` reaches `parse_and` whole, which splits it at `op`. */
  lemma PrintedOpHead(op: Operator, l: string, r: string)
    requires Balanced(l) && Balanced(r)
    ensures var s := Parenthesized(l) + OperatorText(op) + Parenthesized(r);
      Parse(s) == Binary(op, Parenthesized(l), Parenthesized(r))
  {
    var s := Parenthesized(l) + OperatorText(op) + Parenthesized(r);
    PrintedOpShape(op, l, r);
    ParseOpenHead(s);
    ParseOpPrinted(op, l, r);
  }

  lemma BinaryParsed(op: Operator, l: string, r: string, x: Ast, y: Ast)
    requires Parse(l) == Parsed(x) && Parse(r) == Parsed(y)
    ensures Binary(op, l, r) == Parsed(Op(op, x, y))
  {
  }

  /** `(l) op (r)` parses as the node `op` over what `l` and `r` parse as. */
  lemma ParsePrintedOp(op: Operator, l: string, r: string, x: Ast, y: Ast)
    requires Operand(l) && Operand(r)
    requires Parse(l) == Parsed(x) && Parse(r) == Parsed(y)
    ensures Parse(Parenthesized(l) + OperatorText(op) + Parenthesized(r)) == Parsed(Op(op, x, y))
  {
    PrintedOpHead(op, l, r);
    ParseParenthesized(l);
    ParseParenthesized(r);
    BinaryParsed(op, Parenthesized(l), Parenthesized(r), x, y);
  }

  /** What `parse_ternary` makes of the three pieces once it has found a `?` and then a `:`. */
  function TernaryOf(c: Parsed, a: Parsed, b: Parsed): Parsed
  {
    match c
    case Parsed(x) =>
      (match a
       case Parsed(y) =>
         (match b
          case Parsed(z) => Parsed(Ternary(x, y, z))
          case other => other)
       case other => other)
    case other => other
  }

  lemma TernarySplitAt(s: string, i: nat, l: nat)
    requires IndexOf(s, "?") == Some(i) && IndexOf(s, ":") == Some(l) && i + 1 <= l
    ensures ParseTernary(s) == TernaryOf(Parse(s[..i]), Parse(s[i + 1..l]), Parse(s[l + 1..]))
  {
  }

  /** `parse_ternary` splits `(c)?(a):(b)` at its `?` and `:`. */
  lemma TernarySplit(c: string, a: string, b: string, x: Ast, y: Ast, z: Ast)
    requires Balanced(c) && Balanced(a) && Balanced(b)
    requires Parse(Parenthesized(c)) == Parsed(x)
    requires Parse(Parenthesized(a)) == Parsed(y)
    requires Parse(Parenthesized(b)) == Parsed(z)
    ensures var s := Parenthesized(c) + "?" + Parenthesized(a) + ":" + Parenthesized(b);
      ParseTernary(s) == Parsed(Ternary(x, y, z))
  {
    TernaryLocated(c, a, b);
    TernarySplitAt(Parenthesized(c) + "?" + Parenthesized(a) + ":" + Parenthesized(b), |c| + 2, |c| + |a| + 5);
  }

  /** `(c)?(a):(b)` is trimmed and the fold of `parse_parens` over it counts fewer characters than it holds. */
  lemma PrintedTernaryShape(c: string, a: string, b: string)
    requires Balanced(c) && Balanced(a) && Balanced(b)
    ensures var s := Parenthesized(c) + "?" + Parenthesized(a) + ":" + Parenthesized(b);
      |s| >= 2 && s[0] == '(' && ParensEnd(s[1..|s| - 1]) != |s| && Trim(s) == s
  {
    var s := Parenthesized(c) + "?" + Parenthesized(a) + ":" + Parenthesized(b);
    TrimUntrimmed(s);
    ParensEndTernary(c, a, b);
  }

  /** `(c)?(a):(b)` reaches `parse_ternary` whole. */
  lemma PrintedTernaryHead(c: string, a: string, b: string)
    requires Balanced(c) && Balanced(a) && Balanced(b)
    ensures var s := Parenthesized(c) + "?" + Parenthesized(a) + ":" + Parenthesized(b);
      Parse(s) == ParseTernary(s)
  {
    var s := Parenthesized(c) + "?" + Parenthesized(a) + ":" + Parenthesized(b);
    PrintedTernaryShape(c, a, b);
    ParseOpenHead(s);
    TernaryFinds(c, a, b);
    SkipToTernary(s);
  }

  /** `(c)?(a):(b)` parses as the ternary over what `c`, `a` and `b` parse as. */
  lemma ParsePrintedTernary(c: string, a: string, b: string, x: Ast, y: Ast, z: Ast)
    requires Operand(c) && Operand(a) && Operand(b)
    requires Parse(c) == Parsed(x) && Parse(a) == Parsed(y) && Parse(b) == Parsed(z)
    ensures Parse(Parenthesized(c) + "?" + Parenthesized(a) + ":" + Parenthesized(b)) == Parsed(Ternary(x, y, z))
  {
    PrintedTernaryHead(c, a, b);
    ParseParenthesized(c);
    ParseParenthesized(a);
    ParseParenthesized(b);
    TernarySplit(c, a, b, x, y, z);
  }

  lemma NotSplit(s: string, x: Ast)
    requires IndexOf(s, "!") == Some(0) && |s| >= 1 && Parse(s[1..]) == Parsed(x)
    ensures ParseNot(s) == Parsed(Not(x))
  {
  }

  /** `!(v)` is trimmed and does not open with a parenthesis. */
  lemma PrintedNotShape(v: string)
    ensures var s := "!" + Parenthesized(v);
      s[0] != '(' && Trim(s) == s
  {
    TrimUntrimmed("!" + Parenthesized(v));
  }

  /** `!(v)` reaches `parse_not` whole. */
  lemma PrintedNotHead(v: string)
    requires Balanced(v)
    ensures var s := "!" + Parenthesized(v);
      Parse(s) == ParseNot(s)
  {
    var s := "!" + Parenthesized(v);
    PrintedNotShape(v);
    ParseTrimmed(s);
    ParseParensPlain(s);
    NotFinds(v);
    SkipToNot(s);
  }

  /** `!(v)` parses as the negation of what `v` parses as. */
  lemma ParsePrintedNot(v: string, x: Ast)
    requires Operand(v)
    requires Parse(v) == Parsed(x)
    ensures Parse("!" + Parenthesized(v)) == Parsed(Not(x))
  {
    var s := "!" + Parenthesized(v);
    PrintedNotHead(v);
    NotFinds(v);
    NotSlices(v);
    ParseParenthesized(v);
    NotSplit(s, x);
  }

  /** `n` is read back as the variable. */
  lemma ParsePrintN()
    ensures Parse(Print(N)) == Parsed(N)
  {
    assert NoOperatorChar("n");
    ParseAtom("n");
    TrimUntrimmed("n");
    ParseDecimalNeedsDigits("n");
  }

  /** A numeral holds no operator character and has nothing to trim. */
  lemma NumeralAtom(x: nat)
    ensures NoOperatorChar(DecimalString(x)) && Trim(DecimalString(x)) == DecimalString(x)
  {
    var d := DecimalString(x);
    assert forall k :: 0 <= k < |d| ==> IsDigit(d[k]);
    NumeralEnds(x);
    TrimUntrimmed(d);
  }

  /** A numeral is read back as its number. */
  lemma ParsePrintInteger(x: U64)
    ensures Parse(Print(Integer(x))) == Parsed(Integer(x))
  {
    var d := DecimalString(x);
    assert Print(Integer(x)) == d;
    NumeralAtom(x);
    ParseAtom(d);
    ParseDecimalString(x);
  }

  lemma ParsePrintOp(op: Operator, l: Ast, r: Ast)
    requires Parse(Print(l)) == Parsed(l) && Parse(Print(r)) == Parsed(r)
    ensures Parse(Print(Op(op, l, r))) == Parsed(Op(op, l, r))
  {
    var pl, pr := Print(l), Print(r);
    assert Print(Op(op, l, r)) == Parenthesized(pl) + OperatorText(op) + Parenthesized(pr);
    PrintOperand(l);
    PrintOperand(r);
    ParsePrintedOp(op, pl, pr, l, r);
  }

  lemma ParsePrintTernary(c: Ast, a: Ast, b: Ast)
    requires Parse(Print(c)) == Parsed(c) && Parse(Print(a)) == Parsed(a) && Parse(Print(b)) == Parsed(b)
    ensures Parse(Print(Ternary(c, a, b))) == Parsed(Ternary(c, a, b))
  {
    var pc, pa, pb := Print(c), Print(a), Print(b);
    assert Print(Ternary(c, a, b)) == Parenthesized(pc) + "?" + Parenthesized(pa) + ":" + Parenthesized(pb);
    PrintOperand(c);
    PrintOperand(a);
    PrintOperand(b);
    ParsePrintedTernary(pc, pa, pb, c, a, b);
  }

  lemma PrintNotForm(v: Ast)
    ensures Print(Not(v)) == "!" + Parenthesized(Print(v))
  {
  }

  lemma ParsePrintNot(v: Ast)
    requires Parse(Print(v)) == Parsed(v)
    ensures Parse(Print(Not(v))) == Parsed(Not(v))
  {
    PrintNotForm(v);
    PrintOperand(v);
    ParsePrintedNot(Print(v), v);
  }

  /** Every tree, printed with full parentheses, is parsed back as itself. */
  lemma {:induction false} ParsePrint(ast: Ast)
    ensures Parse(Print(ast)) == Parsed(ast)
  {
    match ast
    case Ternary(c, a, b) =>
      ParsePrint(c);
      ParsePrint(a);
      ParsePrint(b);
      ParsePrintTernary(c, a, b);
    case N =>
      ParsePrintN();
    case Integer(x) =>
      ParsePrintInteger(x);
    case Op(op, l, r) =>
      ParsePrint(l);
      ParsePrint(r);
      ParsePrintOp(op, l, r);
    case Not(v) =>
      ParsePrint(v);
      ParsePrintNot(v);
  }
}
