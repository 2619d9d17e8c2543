/**
 * The plural-expression engine of src/plurals.rs: `index_of`, the `Ast` of a
 * Plural-Forms expression, its evaluation on a count `n`, and the parser, a
 * chain of functions that each split the text at the first top-level
 * occurrence of one operator and hand the text on to the next when there is none.
 */
module Plurals {
  import opened Wrappers
  import opened Text
  import opened Errors

  // ---------------------------------------------------------------------
  // index_of
  // ---------------------------------------------------------------------

  /** How a character moves the parenthesis level. */
  function Delta(ch: char): int
  {
    if ch == '(' then 1 else if ch == ')' then -1 else 0
  }

  /** The number of `(` minus the number of `)` in `s`. */
  function Depth(s: string): int
  {
    multiset(s)['('] as int - multiset(s)[')'] as int
  }

  /**
   * The accumulator of the fold in `index_of`: the match found so far, the
   * index of the next character, how many characters of the pattern the
   * characters just read have matched, and the parenthesis level.
   */
  datatype ScanState = ScanState(matchIndex: Option<nat>, i: nat, nMatches: nat, parenLevel: int)

  /** The fold's starting accumulator `(None, 0, 0, 0)`. */
  const ScanStart := ScanState(None, 0, 0, 0)

  /** One step of the fold: what the closure of `index_of` returns for `ch`. */
  function ScanStep(pat: string, st: ScanState, ch: char): (r: ScanState)
    requires st.nMatches <= st.i
    ensures r.nMatches <= r.i
  {
    if st.matchIndex.Some? then st
    else
      var level := st.parenLevel + Delta(ch);
      if st.nMatches < |pat| && ch == pat[st.nMatches] then
        var length := st.nMatches + 1;
        if length == |pat| && level == 0 then ScanState(Some(st.i - st.nMatches), st.i + 1, length, level)
        else ScanState(None, st.i + 1, length, level)
      else ScanState(None, st.i + 1, 0, level)
  }

  /** The fold of `ScanStep` over `s` from `st`, left to right. */
  function ScanFrom(pat: string, st: ScanState, s: string): (r: ScanState)
    requires st.nMatches <= st.i
    ensures r.nMatches <= r.i
  {
    if s == [] then st else ScanStep(pat, ScanFrom(pat, st, s[..|s| - 1]), s[|s| - 1])
  }

  /**
   * `index_of(src, pat)`: where the fold over `src` first completed `pat`
   * with the parenthesis level back at 0 (see `IndexOfSound` for what such
   * a position holds).
   */
  function IndexOf(src: string, pat: string): (r: Option<nat>)
    ensures r.Some? ==> r.value + |pat| <= |src|
  {
    ScanInvariant(src, pat);
    ScanFrom(pat, ScanStart, src).matchIndex
  }

  /** What `index_of` returns is always an occurrence of `pat` that closes at level 0. */
  lemma IndexOfSound(src: string, pat: string)
    ensures var r := IndexOf(src, pat);
      r.Some? ==> && |pat| > 0 && r.value + |pat| <= |src| && src[r.value..r.value + |pat|] == pat
                  && Depth(src[..r.value + |pat|]) == 0
  {
    ScanInvariant(src, pat);
  }

  lemma DepthSnoc(s: string, ch: char)
    ensures Depth(s + [ch]) == Depth(s) + Delta(ch)
  {
    assert multiset(s + [ch]) == multiset(s) + multiset{ch};
  }

  /**
   * What the fold knows after reading `src`: with no match yet, the level is
   * the depth of `src` and the last `nMatches` characters are the start of
   * `pat`; once a match is recorded, it is an occurrence closing at depth 0.
   */
  ghost predicate ScanInv(src: string, pat: string, st: ScanState)
  {
    && (st.matchIndex.None? ==>
          && st.i == |src| && st.parenLevel == Depth(src)
          && st.nMatches <= |pat| && st.nMatches <= |src|
          && src[|src| - st.nMatches..] == pat[..st.nMatches])
    && (st.matchIndex.Some? ==>
          var x := st.matchIndex.value;
          && |pat| > 0 && x + |pat| <= |src|
          && src[x..x + |pat|] == pat && Depth(src[..x + |pat|]) == 0)
  }

  lemma {:induction false} ScanInvariant(src: string, pat: string)
    ensures ScanInv(src, pat, ScanFrom(pat, ScanStart, src))
  {
    if src != [] {
      var p, ch := src[..|src| - 1], src[|src| - 1];
      ScanInvariant(p, pat);
      ScanInvStep(p, ch, pat, ScanFrom(pat, ScanStart, p));
      assert p + [ch] == src;
    }
  }

  lemma ScanInvStep(p: string, ch: char, pat: string, st: ScanState)
    requires st.nMatches <= st.i
    requires ScanInv(p, pat, st)
    ensures ScanInv(p + [ch], pat, ScanStep(pat, st, ch))
  {
    if st.matchIndex.Some? {
      ScanInvFrozen(p, ch, pat, st);
    } else {
      ScanInvOpen(p, ch, pat, st);
    }
  }

  lemma ScanInvFrozen(p: string, ch: char, pat: string, st: ScanState)
    requires st.nMatches <= st.i && st.matchIndex.Some?
    requires ScanInv(p, pat, st)
    ensures ScanInv(p + [ch], pat, ScanStep(pat, st, ch))
  {
    var src := p + [ch];
    var x := st.matchIndex.value;
    assert src[x..x + |pat|] == p[x..x + |pat|];
    assert src[..x + |pat|] == p[..x + |pat|];
  }

  lemma ScanInvOpen(p: string, ch: char, pat: string, st: ScanState)
    requires st.nMatches <= st.i && st.matchIndex.None?
    requires ScanInv(p, pat, st)
    ensures ScanInv(p + [ch], pat, ScanStep(pat, st, ch))
  {
    var src := p + [ch];
    DepthSnoc(p, ch);
    if st.nMatches < |pat| && ch == pat[st.nMatches] {
      assert src[|src| - (st.nMatches + 1)..] == p[|p| - st.nMatches..] + [ch];
      assert pat[..st.nMatches + 1] == pat[..st.nMatches] + [pat[st.nMatches]];
      assert src[..|src|] == src;
    }
  }

  /** `src[x]` is `c` and the parentheses are balanced once it has been read. */
  ghost predicate TopLevelAt(src: string, c: char, x: int)
  {
    0 <= x < |src| && src[x] == c && Depth(src[..x + 1]) == 0
  }

  /**
   * For a one-character pattern other than a parenthesis, `index_of` finds
   * exactly the first top-level occurrence, and returns `None` when there is none.
   */
  lemma {:induction false} IndexOfChar(src: string, c: char)
    requires c != '(' && c != ')'
    ensures match IndexOf(src, [c])
      case Some(x) => TopLevelAt(src, c, x) && forall y :: 0 <= y < x ==> !TopLevelAt(src, c, y)
      case None => forall y :: 0 <= y < |src| ==> !TopLevelAt(src, c, y)
  {
    CharScanInvariant(src, c);
  }

  ghost predicate CharInv(src: string, c: char, st: ScanState)
  {
    && (st.matchIndex.None? ==>
          && st.i == |src| && st.parenLevel == Depth(src) && st.nMatches <= 1
          && (st.nMatches == 1 ==> src != [] && src[|src| - 1] == c && Depth(src) != 0)
          && forall y :: 0 <= y < |src| ==> !TopLevelAt(src, c, y))
    && (st.matchIndex.Some? ==>
          var x := st.matchIndex.value;
          TopLevelAt(src, c, x) && forall y :: 0 <= y < x ==> !TopLevelAt(src, c, y))
  }

  lemma {:induction false} CharScanInvariant(src: string, c: char)
    requires c != '(' && c != ')'
    ensures CharInv(src, c, ScanFrom([c], ScanStart, src))
  {
    if src != [] {
      var p, ch := src[..|src| - 1], src[|src| - 1];
      CharScanInvariant(p, c);
      CharInvStep(p, ch, c, ScanFrom([c], ScanStart, p));
      assert p + [ch] == src;
    }
  }

  lemma CharInvStep(p: string, ch: char, c: char, st: ScanState)
    requires c != '(' && c != ')'
    requires st.nMatches <= st.i
    requires CharInv(p, c, st)
    ensures CharInv(p + [ch], c, ScanStep([c], st, ch))
  {
    var src := p + [ch];
    DepthSnoc(p, ch);
    assert src[..|src|] == src;
    forall y | 0 <= y < |p|
      ensures TopLevelAt(src, c, y) <==> TopLevelAt(p, c, y)
    {
      assert src[..y + 1] == p[..y + 1];
    }
  }

  // ---------------------------------------------------------------------
  // Ast and its evaluation
  // ---------------------------------------------------------------------

  datatype Operator =
    | Equal | NotEqual | GreaterOrEqual | SmallerOrEqual | Greater | Smaller
    | And | Or | Modulo

  datatype Ast =
    | Ternary(cond: Ast, ok: Ast, nok: Ast)   // cond ? ok : nok
    | N                                       // the count n
    | Integer(x: U64)                         // an integer literal
    | Op(op: Operator, lhs: Ast, rhs: Ast)    // a binary operator
    | Not(val: Ast)                           // the ! operator

  /** The operator `op` has a boolean (0 or 1) result. */
  predicate IsBooleanOperator(op: Operator)
  {
    op != Modulo
  }

  /** Whether the tree holds a `%` node anywhere. */
  predicate HasModulo(ast: Ast)
  {
    match ast
    case Ternary(c, a, b) => HasModulo(c) || HasModulo(a) || HasModulo(b)
    case N => false
    case Integer(_) => false
    case Op(op, l, r) => op == Modulo || HasModulo(l) || HasModulo(r)
    case Not(v) => HasModulo(v)
  }

  /** A Rust `bool` cast to `usize`. */
  function BoolToIndex(b: bool): nat
  {
    if b then 1 else 0
  }

  /**
   * `Ast::resolve`: the value of the tree for the count `n`. `None` stands
   * for the panic of a remainder by zero. `&&` and `||` short-circuit as in
   * Rust, so a `%` by zero in an operand they skip does no harm; every other
   * node evaluates all its operands left to right. Every value fits in a
   * `usize`, and a tree without `%` never panics.
   */
  function Resolve(ast: Ast, n: U64): (r: Option<nat>)
    ensures r.Some? ==> r.value < U64_LIMIT
    ensures !HasModulo(ast) ==> r.Some?
  {
    match ast
    case Ternary(c, ok, nok) =>
      (match Resolve(c, n)
       case None => None
       case Some(v) => if v == 0 then Resolve(nok, n) else Resolve(ok, n))
    case N => Some(n)
    case Integer(x) => Some(x)
    case Op(op, lhs, rhs) =>
      (match Resolve(lhs, n)
       case None => None
       case Some(a) =>
         if op == And && a == 0 then Some(0)
         else if op == Or && a != 0 then Some(1)
         else
           match Resolve(rhs, n)
           case None => None
           case Some(b) =>
             match op
             case Equal => Some(BoolToIndex(a == b))
             case NotEqual => Some(BoolToIndex(a != b))
             case GreaterOrEqual => Some(BoolToIndex(a >= b))
             case SmallerOrEqual => Some(BoolToIndex(a <= b))
             case Greater => Some(BoolToIndex(a > b))
             case Smaller => Some(BoolToIndex(a < b))
             case And => Some(BoolToIndex(b != 0))
             case Or => Some(BoolToIndex(b != 0))
             case Modulo => if b == 0 then None else Some(a % b))
    case Not(v) =>
      (match Resolve(v, n)
       case None => None
       case Some(a) => Some(if a == 0 then 1 else 0))
  }

  /** What a boolean operator says of two values, `0` being false and anything else true. */
  predicate Holds(op: Operator, a: nat, b: nat)
    requires IsBooleanOperator(op)
  {
    match op
    case Equal => a == b
    case NotEqual => a != b
    case GreaterOrEqual => a >= b
    case SmallerOrEqual => a <= b
    case Greater => a > b
    case Smaller => a < b
    case And => a != 0 && b != 0
    case Or => a != 0 || b != 0
  }

  /** A boolean operator over two operands that evaluate yields 1 when it holds and 0 otherwise. */
  lemma ResolveBoolean(op: Operator, l: Ast, r: Ast, n: U64)
    requires IsBooleanOperator(op) && Resolve(l, n).Some? && Resolve(r, n).Some?
    ensures Resolve(Op(op, l, r), n) == Some(BoolToIndex(Holds(op, Resolve(l, n).value, Resolve(r, n).value)))
  {
  }

  /** `&&` with a false left operand is false without evaluating the right one, and `||` with a true one is true. */
  lemma ResolveShortCircuit(l: Ast, r: Ast, n: U64)
    ensures Resolve(l, n) == Some(0) ==> Resolve(Op(And, l, r), n) == Some(0)
    ensures Resolve(l, n).Some? && Resolve(l, n).value != 0 ==> Resolve(Op(Or, l, r), n) == Some(1)
  {
  }

  /** A remainder by a right operand that evaluates to 0 panics; otherwise it is below the right operand. */
  lemma ResolveModulo(l: Ast, r: Ast, n: U64)
    requires Resolve(l, n).Some? && Resolve(r, n).Some?
    ensures Resolve(r, n).value == 0 <==> Resolve(Op(Modulo, l, r), n).None?
    ensures Resolve(r, n).value != 0 ==>
      Resolve(Op(Modulo, l, r), n) == Some(Resolve(l, n).value % Resolve(r, n).value)
      && Resolve(Op(Modulo, l, r), n).value < Resolve(r, n).value
  {
  }

  /** `!` maps 0 to 1 and every other value to 0. */
  lemma ResolveNot(v: Ast, n: U64)
    requires Resolve(v, n).Some?
    ensures Resolve(Not(v), n) == Some(BoolToIndex(Resolve(v, n).value == 0))
  {
  }

  /** A ternary takes the value of its first branch when the condition is non-zero, of its second when it is zero. */
  lemma ResolveTernary(c: Ast, ok: Ast, nok: Ast, n: U64)
    requires Resolve(c, n).Some?
    ensures Resolve(c, n).value != 0 ==> Resolve(Ternary(c, ok, nok), n) == Resolve(ok, n)
    ensures Resolve(c, n).value == 0 ==> Resolve(Ternary(c, ok, nok), n) == Resolve(nok, n)
  {
  }

  /** A `!` node and a node of a boolean operator yield 0 or 1. */
  lemma ResolveBooleanNode(ast: Ast, n: U64)
    requires ast.Not? || (ast.Op? && IsBooleanOperator(ast.op))
    requires Resolve(ast, n).Some?
    ensures Resolve(ast, n).value <= 1
  {
  }

  /** `Resolver`: a parsed expression, or a host function given the count. */
  datatype Resolver = Expr(ast: Ast) | Function(f: U64 -> U64)

  /** `Resolver::resolve`: the index of the plural form to use for `n` objects. */
  function ResolveForm(resolver: Resolver, n: U64): (r: Option<nat>)
    ensures r.Some? ==> r.value < U64_LIMIT
    ensures resolver.Function? || !HasModulo(resolver.ast) ==> r.Some?
  {
    match resolver
    case Expr(ast) => Resolve(ast, n)
    case Function(f) => Some(f(n))
  }

  /**
   * The expression `n` selects form `n` (`Expr(N).resolve(42)` is 42), and
   * an integer literal selects itself whatever the count.
   */
  lemma ResolveCount(n: U64, x: U64)
    ensures ResolveForm(Expr(N), n) == Some(n)
    ensures ResolveForm(Expr(N), 42) == Some(42)
    ensures Resolve(Integer(x), n) == Some(x)
  {
  }

  // ---------------------------------------------------------------------
  // The parser
  // ---------------------------------------------------------------------

  /**
   * What a parsing function yields: a tree, the crate's `PluralParsing`
   * error, or a panic of Rust's slicing (an operand that trims to a lone `(`,
   * or a top-level `:` ahead of the top-level `?`).
   */
  datatype Parsed = Parsed(ast: Ast) | Failed(error: Error) | Panicked

  /** The accumulator `(level, index)` of the fold in `parse_parens`. */
  datatype ParensState = ParensState(level: nat, index: nat)

  function ParensStep(st: ParensState, ch: char): ParensState
  {
    if st.level == 0 then
      if ch == '(' then ParensState(1, st.index + 1) else st
    else if ch == '(' then ParensState(st.level + 1, st.index + 1)
    else if ch == ')' then ParensState(st.level - 1, st.index + 1)
    else ParensState(st.level, st.index + 1)
  }

  function ParensFrom(st: ParensState, s: string): ParensState
  {
    if s == [] then st else ParensStep(ParensFrom(st, s[..|s| - 1]), s[|s| - 1])
  }

  /**
   * The `end` that `parse_parens` computes over the text between the outer
   * characters: 2 plus the characters read while some parenthesis was open.
   */
  function ParensEnd(inner: string): nat
  {
    ParensFrom(ParensState(1, 2), inner).index
  }

  /** `Ast::parse`: parse the trimmed text. */
  function Parse(src: string): Parsed
    decreases |src|, 13
  {
    ParseParens(Trim(src))
  }

  /**
   * `parse_parens`: a text that starts with `(` and whose fold count
   * (`ParensEnd` of the text between its outer characters) equals its length
   * is parsed without the outer pair. That holds when the first parenthesis
   * closes at the last character, but also for adjacent groups such as
   * `(a)(b)`, because characters read with no parenthesis open other than
   * `(` are not counted.
   */
  function ParseParens(src: string): Parsed
    decreases |src|, 12
  {
    if |src| > 0 && src[0] == '(' then
      if |src| < 2 then Panicked
      else
        var inner := src[1..|src| - 1];
        if ParensEnd(inner) == |src| then Parse(Trim(inner)) else ParseAnd(Trim(src))
    else ParseAnd(Trim(src))
  }

  /** The node `op` over the parses of `lhs` and of `rhs`, parsed in that order. */
  function Binary(op: Operator, lhs: string, rhs: string): Parsed
    decreases |lhs| + |rhs|, 14
  {
    match Parse(lhs)
    case Parsed(a) =>
      (match Parse(rhs)
       case Parsed(b) => Parsed(Op(op, a, b))
       case other => other)
    case other => other
  }

  /** Split at the first top-level occurrence of `pat`, if any, else use `next`. */
  function ParseAnd(src: string): Parsed
    decreases |src|, 11
  {
    match IndexOf(src, "&&")
    case Some(i) => Binary(And, src[..i], src[i + 2..])
    case None => ParseOr(src)
  }

  function ParseOr(src: string): Parsed
    decreases |src|, 10
  {
    match IndexOf(src, "||")
    case Some(i) => Binary(Or, src[..i], src[i + 2..])
    case None => ParseTernary(src)
  }

  /**
   * `parse_ternary`: the first top-level `?` and the first top-level `:`
   * split the text in three; a `?` without a `:` is an error.
   */
  function ParseTernary(src: string): Parsed
    decreases |src|, 9
  {
    match IndexOf(src, "?")
    case None => ParseGe(src)
    case Some(i) =>
      match IndexOf(src, ":")
      case None => Failed(PluralParsing)
      case Some(l) =>
        match Parse(src[..i])
        case Parsed(c) =>
          if l < i + 1 then Panicked
          else
            (match Parse(src[i + 1..l])
             case Parsed(a) =>
               (match Parse(src[l + 1..])
                case Parsed(b) => Parsed(Ternary(c, a, b))
                case other => other)
             case other => other)
        case other => other
  }

  function ParseGe(src: string): Parsed
    decreases |src|, 8
  {
    match IndexOf(src, ">=")
    case Some(i) => Binary(GreaterOrEqual, src[..i], src[i + 2..])
    case None => ParseGt(src)
  }

  function ParseGt(src: string): Parsed
    decreases |src|, 7
  {
    match IndexOf(src, ">")
    case Some(i) => Binary(Greater, src[..i], src[i + 1..])
    case None => ParseLe(src)
  }

  function ParseLe(src: string): Parsed
    decreases |src|, 6
  {
    match IndexOf(src, "<=")
    case Some(i) => Binary(SmallerOrEqual, src[..i], src[i + 2..])
    case None => ParseLt(src)
  }

  function ParseLt(src: string): Parsed
    decreases |src|, 5
  {
    match IndexOf(src, "<")
    case Some(i) => Binary(Smaller, src[..i], src[i + 1..])
    case None => ParseEq(src)
  }

  function ParseEq(src: string): Parsed
    decreases |src|, 4
  {
    match IndexOf(src, "==")
    case Some(i) => Binary(Equal, src[..i], src[i + 2..])
    case None => ParseNeq(src)
  }

  function ParseNeq(src: string): Parsed
    decreases |src|, 3
  {
    match IndexOf(src, "!=")
    case Some(i) => Binary(NotEqual, src[..i], src[i + 2..])
    case None => ParseMod(src)
  }

  function ParseMod(src: string): Parsed
    decreases |src|, 2
  {
    match IndexOf(src, "%")
    case Some(i) => Binary(Modulo, src[..i], src[i + 1..])
    case None => ParseNot(Trim(src))
  }

  /** `parse_not`: a `!` that is the first top-level `!` and the first character. */
  function ParseNot(src: string): Parsed
    decreases |src|, 1
  {
    if IndexOf(src, "!") == Some(0) then
      match Parse(src[1..])
      case Parsed(a) => Parsed(Not(a))
      case other => other
    else ParseInt(Trim(src))
  }

  function ParseInt(src: string): Parsed
    decreases |src|, 0
  {
    match ParseDecimal(src)
    case Some(x) => Parsed(Integer(x))
    case None => ParseN(Trim(src))
  }

  /** `parse_n`: the only tree it yields evaluates to the count itself; it never panics. */
  function ParseN(src: string): (r: Parsed)
    ensures r.Parsed? ==> forall n: U64 :: Resolve(r.ast, n) == Some(n as nat)
    ensures r.Failed? ==> r.error == PluralParsing
    ensures !r.Panicked?
  {
    if src == "n" then Parsed(N) else Failed(PluralParsing)
  }
}
