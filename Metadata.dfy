/**
 * The metadata of a catalog (src/metadata.rs): the header entry of an MO
 * file is a list of `Key: Value` lines. `parse_metadata` reads them into a
 * map; `charset` and `plural_forms` read two of the fields.
 */
module Metadata {
  import opened Wrappers
  import opened Text
  import opened Errors

  /** `MetadataMap`: field names to field values. */
  type MetadataMap = map<string, string>

  // ---------------------------------------------------------------------
  // charset
  // ---------------------------------------------------------------------

  /** `i` is where `pat` first occurs in `s`. */
  predicate FirstOccurrence(s: string, pat: string, i: int)
  {
    OccursAt(s, pat, i) && forall j :: 0 <= j < i ==> !OccursAt(s, pat, j)
  }

  /** `v` starts `t` and runs up to the first `pat` in `t`, or to the end of `t` when there is none. */
  predicate PieceBefore(t: string, pat: string, v: string)
  {
    && |v| <= |t| && t[..|v|] == v
    && (forall j :: 0 <= j < |v| ==> !OccursAt(t, pat, j))
    && (|v| == |t| || OccursAt(t, pat, |v|))
  }

  /** `t.split(pat).next()`: the text of `t` before its first `pat`. */
  function FirstPiece(t: string, pat: string): (v: string)
    ensures PieceBefore(t, pat, v)
  {
    match Find(t, pat)
    case None => t
    case Some(j) => t[..j]
  }

  /**
   * `s.split(pat).skip(1).next()`: the second piece of `s` split at `pat`,
   * i.e. the text after the first `pat` up to the next one or the end.
   */
  function SecondPiece(s: string, pat: string): (r: Option<string>)
    ensures r.None? <==> forall j :: 0 <= j <= |s| ==> !OccursAt(s, pat, j)
    ensures r.Some? ==> exists i :: FirstOccurrence(s, pat, i) && PieceBefore(s[i + |pat|..], pat, r.value)
  {
    match Find(s, pat)
    case None => None
    case Some(i) =>
      assert FirstOccurrence(s, pat, i);
      Some(FirstPiece(s[i + |pat|..], pat))
  }

  /** `MetadataMap::charset`: the second `charset=` piece of the `Content-Type` field. */
  function Charset(m: MetadataMap): (r: Option<string>)
  {
    if "Content-Type" in m then SecondPiece(m["Content-Type"], "charset=") else None
  }

  /** There is no charset exactly when `Content-Type` is missing or holds no `charset=`. */
  lemma CharsetNone(m: MetadataMap)
    ensures Charset(m).None? <==>
      "Content-Type" !in m || forall j :: 0 <= j <= |m["Content-Type"]| ==> !OccursAt(m["Content-Type"], "charset=", j)
  {
  }

  /**
   * A charset is the text that follows the first `charset=` of
   * `Content-Type`, up to the end or to a further `charset=`.
   */
  lemma CharsetSome(m: MetadataMap)
    requires Charset(m).Some?
    ensures "Content-Type" in m
    ensures exists i :: (FirstOccurrence(m["Content-Type"], "charset=", i)
      && PieceBefore(m["Content-Type"][i + 8..], "charset=", Charset(m).value))
  {
  }

  // ---------------------------------------------------------------------
  // plural_forms
  // ---------------------------------------------------------------------

  /** The `(n_plurals, plural)` pair `plural_forms` returns. */
  datatype PluralForms = PluralForms(count: U64, expr: string)

  /** English: two forms, the second for every count but one. */
  const DEFAULT_PLURAL_FORMS := PluralForms(2, "n!=1")

  /** The name that `plural_forms` reads the count from. */
  const COUNT_NAME := "n_plurals"

  /** `s` split at its first `sep`, both sides trimmed; `None` when `sep` does not occur. */
  function NameValue(s: string, sep: char): (r: Option<(string, string)>)
    ensures r.None? <==> sep !in s
    ensures r.Some? ==>
      exists i :: 0 <= i < |s| && s[i] == sep && sep !in s[..i] && r.value == (Trim(s[..i]), Trim(s[i + 1..]))
  {
    match FirstIndex(s, sep)
    case None => None
    case Some(i) => Some((Trim(s[..i]), Trim(s[i + 1..])))
  }

  /** Whatever `sep` a split is found at, it is the first one: the split is determined by it. */
  lemma NameValueAt(s: string, sep: char, i: nat)
    requires i < |s| && s[i] == sep && sep !in s[..i]
    ensures NameValue(s, sep) == Some((Trim(s[..i]), Trim(s[i + 1..])))
  {
  }

  /** A `name=value` property of the `Plural-Forms` field. */
  function Property(prop: string): Option<(string, string)>
  {
    NameValue(prop, '=')
  }

  /** One step of the fold in `plural_forms`, with the count read from the property named `countName`. */
  function ApplyProperty(countName: string, acc: PluralForms, prop: string): PluralForms
  {
    match Property(prop)
    case None => acc
    case Some((name, value)) =>
      if name == countName then PluralForms(ParseDecimal(value).UnwrapOr(acc.count), acc.expr)
      else if name == "plural" then PluralForms(acc.count, value)
      else acc
  }

  /** The fold over the properties, first to last. */
  function ApplyProperties(countName: string, acc: PluralForms, props: seq<string>): PluralForms
    decreases |props|
  {
    if props == [] then acc else ApplyProperties(countName, ApplyProperty(countName, acc, props[0]), props[1..])
  }

  /** `plural_forms` reading the count from the property named `countName`. */
  function PluralFormsNamed(countName: string, m: MetadataMap): PluralForms
  {
    if "Plural-Forms" in m then ApplyProperties(countName, DEFAULT_PLURAL_FORMS, SplitOn(m["Plural-Forms"], ';'))
    else DEFAULT_PLURAL_FORMS
  }

  /** `MetadataMap::plural_forms` as written: the count comes from `n_plurals`. */
  function PluralFormsOf(m: MetadataMap): PluralForms
  {
    PluralFormsNamed(COUNT_NAME, m)
  }

  /** The name GNU gettext writes the count under in a `Plural-Forms` header. */
  const GNU_COUNT_NAME := "nplurals"

  /** `plural_forms` as evidently intended: the count comes from `nplurals`. */
  function GnuPluralFormsOf(m: MetadataMap): PluralForms
  {
    PluralFormsNamed(GNU_COUNT_NAME, m)
  }

  /** The count a property sets: it is named `countName` and its value is a decimal number. */
  function CountSetBy(countName: string, prop: string): Option<U64>
  {
    match Property(prop)
    case Some((name, value)) => if name == countName then ParseDecimal(value) else None
    case None => None
  }

  /** The expression a property sets: it is named `plural`. */
  function ExprSetBy(countName: string, prop: string): Option<string>
  {
    match Property(prop)
    case Some((name, value)) => if name == "plural" && name != countName then Some(value) else None
    case None => None
  }

  /** The count set by the last property that sets one, or `fallback`. */
  function LastCount(countName: string, fallback: U64, props: seq<string>): U64
  {
    if props == [] then fallback
    else match CountSetBy(countName, props[|props| - 1])
      case Some(c) => c
      case None => LastCount(countName, fallback, props[..|props| - 1])
  }

  /** The expression set by the last property that sets one, or `fallback`. */
  function LastExpr(countName: string, fallback: string, props: seq<string>): string
  {
    if props == [] then fallback
    else match ExprSetBy(countName, props[|props| - 1])
      case Some(e) => e
      case None => LastExpr(countName, fallback, props[..|props| - 1])
  }

  /** One property applied to the forms read so far. */
  lemma ApplyPropertySets(countName: string, acc: PluralForms, prop: string)
    ensures ApplyProperty(countName, acc, prop)
      == PluralForms(CountSetBy(countName, prop).UnwrapOr(acc.count), ExprSetBy(countName, prop).UnwrapOr(acc.expr))
  {
  }

  lemma LastCountSnoc(countName: string, fallback: U64, props: seq<string>, p: string)
    ensures LastCount(countName, fallback, props + [p])
      == CountSetBy(countName, p).UnwrapOr(LastCount(countName, fallback, props))
  {
    assert (props + [p])[..|props|] == props;
  }

  lemma LastExprSnoc(countName: string, fallback: string, props: seq<string>, p: string)
    ensures LastExpr(countName, fallback, props + [p])
      == ExprSetBy(countName, p).UnwrapOr(LastExpr(countName, fallback, props))
  {
    assert (props + [p])[..|props|] == props;
  }

  /** Reading a first property before the rest is the same as starting from the value it sets. */
  lemma {:induction false} LastCountCons(countName: string, fallback: U64, p: string, rest: seq<string>)
    ensures LastCount(countName, fallback, [p] + rest)
      == LastCount(countName, CountSetBy(countName, p).UnwrapOr(fallback), rest)
  {
    if rest != [] {
      var q := rest[..|rest| - 1];
      var x := rest[|rest| - 1];
      assert rest == q + [x];
      assert [p] + rest == ([p] + q) + [x];
      LastCountCons(countName, fallback, p, q);
      LastCountSnoc(countName, fallback, [p] + q, x);
      LastCountSnoc(countName, CountSetBy(countName, p).UnwrapOr(fallback), q, x);
    }
  }

  lemma {:induction false} LastExprCons(countName: string, fallback: string, p: string, rest: seq<string>)
    ensures LastExpr(countName, fallback, [p] + rest)
      == LastExpr(countName, ExprSetBy(countName, p).UnwrapOr(fallback), rest)
  {
    if rest != [] {
      var q := rest[..|rest| - 1];
      var x := rest[|rest| - 1];
      assert rest == q + [x];
      assert [p] + rest == ([p] + q) + [x];
      LastExprCons(countName, fallback, p, q);
      LastExprSnoc(countName, fallback, [p] + q, x);
      LastExprSnoc(countName, ExprSetBy(countName, p).UnwrapOr(fallback), q, x);
    }
  }

  /**
   * The fold yields the count of the last property that sets a count and
   * the expression of the last property that sets one, each falling back
   * to where the fold started.
   */
  lemma {:induction false} ApplyPropertiesIsLast(countName: string, acc: PluralForms, props: seq<string>)
    ensures ApplyProperties(countName, acc, props)
      == PluralForms(LastCount(countName, acc.count, props), LastExpr(countName, acc.expr, props))
    decreases |props|
  {
    if props != [] {
      var p, rest := props[0], props[1..];
      assert props == [p] + rest;
      ApplyPropertySets(countName, acc, p);
      ApplyPropertiesIsLast(countName, ApplyProperty(countName, acc, p), rest);
      LastCountCons(countName, acc.count, p, rest);
      LastExprCons(countName, acc.expr, p, rest);
    }
  }

  lemma {:induction false} LastCountAppend(countName: string, fallback: U64, x: seq<string>, y: seq<string>)
    ensures LastCount(countName, fallback, x + y) == LastCount(countName, LastCount(countName, fallback, x), y)
  {
    if y != [] {
      var q, last := y[..|y| - 1], y[|y| - 1];
      assert y == q + [last];
      assert x + y == (x + q) + [last];
      LastCountAppend(countName, fallback, x, q);
      LastCountSnoc(countName, fallback, x + q, last);
      LastCountSnoc(countName, LastCount(countName, fallback, x), q, last);
    } else {
      assert x + y == x;
    }
  }

  lemma {:induction false} LastExprAppend(countName: string, fallback: string, x: seq<string>, y: seq<string>)
    ensures LastExpr(countName, fallback, x + y) == LastExpr(countName, LastExpr(countName, fallback, x), y)
  {
    if y != [] {
      var q, last := y[..|y| - 1], y[|y| - 1];
      assert y == q + [last];
      assert x + y == (x + q) + [last];
      LastExprAppend(countName, fallback, x, q);
      LastExprSnoc(countName, fallback, x + q, last);
      LastExprSnoc(countName, LastExpr(countName, fallback, x), q, last);
    } else {
      assert x + y == x;
    }
  }

  /**
   * Two neighbouring properties that do not both set the count and do not
   * both set the expression may come in either order: `plural=…; n_plurals=…`
   * means the same as `n_plurals=…; plural=…`.
   */
  lemma PropertiesCommute(countName: string, acc: PluralForms, pre: seq<string>, a: string, b: string, post: seq<string>)
    requires CountSetBy(countName, a).None? || CountSetBy(countName, b).None?
    requires ExprSetBy(countName, a).None? || ExprSetBy(countName, b).None?
    ensures ApplyProperties(countName, acc, pre + [a, b] + post) == ApplyProperties(countName, acc, pre + [b, a] + post)
  {
    ApplyPropertiesIsLast(countName, acc, pre + [a, b] + post);
    ApplyPropertiesIsLast(countName, acc, pre + [b, a] + post);
    LastCountAppend(countName, acc.count, pre + [a, b], post);
    LastCountAppend(countName, acc.count, pre + [b, a], post);
    LastCountAppend(countName, acc.count, pre, [a, b]);
    LastCountAppend(countName, acc.count, pre, [b, a]);
    LastExprAppend(countName, acc.expr, pre + [a, b], post);
    LastExprAppend(countName, acc.expr, pre + [b, a], post);
    LastExprAppend(countName, acc.expr, pre, [a, b]);
    LastExprAppend(countName, acc.expr, pre, [b, a]);
    PairCommutes(countName, LastCount(countName, acc.count, pre), LastExpr(countName, acc.expr, pre), a, b);
  }

  lemma PairCommutes(countName: string, c: U64, e: string, a: string, b: string)
    requires CountSetBy(countName, a).None? || CountSetBy(countName, b).None?
    requires ExprSetBy(countName, a).None? || ExprSetBy(countName, b).None?
    ensures LastCount(countName, c, [a, b]) == LastCount(countName, c, [b, a])
    ensures LastExpr(countName, e, [a, b]) == LastExpr(countName, e, [b, a])
  {
    assert [a, b][..1] == [a] && [b, a][..1] == [b];
    assert [a][..0] == [] && [b][..0] == [];
  }

  /** Properties without `=` set nothing. */
  lemma {:induction false} NoPropertySetsNothing(countName: string, acc: PluralForms, props: seq<string>)
    requires forall k :: 0 <= k < |props| ==> '=' !in props[k]
    ensures ApplyProperties(countName, acc, props) == acc
    decreases |props|
  {
    if props != [] {
      NoPropertySetsNothing(countName, acc, props[1..]);
    }
  }

  /** A character of a piece is a character of the joined text. */
  lemma {:induction false} JoinHolds(pieces: seq<string>, sep: char, k: nat, c: char)
    requires k < |pieces| && c in pieces[k]
    ensures c in Join(pieces, sep)
  {
    if k > 0 {
      JoinHolds(pieces[1..], sep, k - 1, c);
    }
  }

  /**
   * Without a `Plural-Forms` field, or with one that holds no `name=value`
   * property, the forms are English's: two forms, `n!=1`.
   */
  lemma PluralFormsDefault(countName: string, m: MetadataMap)
    requires "Plural-Forms" !in m || '=' !in m["Plural-Forms"]
    ensures PluralFormsNamed(countName, m) == DEFAULT_PLURAL_FORMS
  {
    if "Plural-Forms" in m {
      var props := SplitOn(m["Plural-Forms"], ';');
      forall k | 0 <= k < |props|
        ensures '=' !in props[k]
      {
        if '=' in props[k] {
          JoinHolds(props, ';', k, '=');
        }
      }
      NoPropertySetsNothing(countName, DEFAULT_PLURAL_FORMS, props);
    }
  }

  /**
   * The count is that of the last property named `countName` whose value is
   * a decimal number, and 2 when there is none: a value that is not a number
   * keeps the count read before it. The expression is that of the last
   * `plural` property, and `n!=1` when there is none.
   */
  lemma PluralFormsAreLast(countName: string, m: MetadataMap)
    requires "Plural-Forms" in m
    ensures var props := SplitOn(m["Plural-Forms"], ';');
      PluralFormsNamed(countName, m) == PluralForms(LastCount(countName, 2, props), LastExpr(countName, "n!=1", props))
  {
    ApplyPropertiesIsLast(countName, DEFAULT_PLURAL_FORMS, SplitOn(m["Plural-Forms"], ';'));
  }

  /** A trimmed text is its own trim. */
  lemma TrimTwice(s: string)
    ensures Trim(Trim(s)) == Trim(s)
  {
    TrimUntrimmed(Trim(s));
  }

  /** Every expression a property sets is trimmed. */
  lemma {:induction false} LastExprTrimmed(countName: string, fallback: string, props: seq<string>)
    requires Trim(fallback) == fallback
    ensures Trim(LastExpr(countName, fallback, props)) == LastExpr(countName, fallback, props)
  {
    if props != [] {
      var p := props[|props| - 1];
      if ExprSetBy(countName, p).Some? {
        var i := FirstIndex(p, '=').value;
        TrimTwice(p[i + 1..]);
      } else {
        LastExprTrimmed(countName, fallback, props[..|props| - 1]);
      }
    }
  }

  /** The plural expression has no whitespace at either end. */
  lemma PluralExprTrimmed(countName: string, m: MetadataMap)
    ensures Trim(PluralFormsNamed(countName, m).expr) == PluralFormsNamed(countName, m).expr
  {
    assert Trim("n!=1") == "n!=1";
    if "Plural-Forms" in m {
      PluralFormsAreLast(countName, m);
      LastExprTrimmed(countName, "n!=1", SplitOn(m["Plural-Forms"], ';'));
    }
  }

  // ---------------------------------------------------------------------
  // parse_metadata
  // ---------------------------------------------------------------------

  /**
   * The lines read into `m`, first to last: empty lines are skipped, a line
   * without `:` is `MalformedMetadata`, and every other line maps the trimmed
   * text before its first `:` to the trimmed text after it, replacing any
   * earlier value of that name.
   */
  function ReadLines(m: MetadataMap, lines: seq<string>): Result<MetadataMap, Error>
    decreases |lines|
  {
    if lines == [] then Ok(m)
    else if lines[0] == "" then ReadLines(m, lines[1..])
    else match NameValue(lines[0], ':')
      case None => Err(MalformedMetadata)
      case Some((name, value)) => ReadLines(m[name := value], lines[1..])
  }

  /** What `parse_metadata` yields for the header `blob`. */
  function MetadataOf(blob: string): Result<MetadataMap, Error>
  {
    ReadLines(map[], SplitOn(blob, '\n'))
  }

  /** `parse_metadata`: reads the header line by line into a map it updates in place. */
  method ParseMetadata(blob: string) returns (r: Result<MetadataMap, Error>)
    ensures r == MetadataOf(blob)
  {
    var lines := SplitOn(blob, '\n');
    var m: MetadataMap := map[];
    var i := 0;
    while i < |lines|
      invariant 0 <= i <= |lines|
      invariant ReadLines(m, lines[i..]) == MetadataOf(blob)
    {
      var line := lines[i];
      assert lines[i..][1..] == lines[i + 1..];
      if line != "" {
        var pos := FirstIndex(line, ':');
        if pos.None? {
          return Err(MalformedMetadata);
        }
        NameValueAt(line, ':', pos.value);
        m := m[Trim(line[..pos.value]) := Trim(line[pos.value + 1..])];
      }
      i := i + 1;
    }
    return Ok(m);
  }

  /** The value a line gives `name`: the line holds a `:` and its trimmed text before the first one is `name`. */
  function LineValue(line: string, name: string): Option<string>
  {
    match NameValue(line, ':')
    case Some((n, v)) => if n == name then Some(v) else None
    case None => None
  }

  /** The value the last line naming `name` gives it. */
  function LastValue(lines: seq<string>, name: string): Option<string>
  {
    if lines == [] then None
    else match LastValue(lines[1..], name)
      case Some(v) => Some(v)
      case None => LineValue(lines[0], name)
  }

  /** A line the reader rejects: not empty, and without `:`. */
  predicate Malformed(line: string)
  {
    line != "" && ':' !in line
  }

  /** Reading fails, with `MalformedMetadata`, exactly when some line is malformed. */
  lemma {:induction false} ReadLinesFails(m: MetadataMap, lines: seq<string>)
    ensures ReadLines(m, lines).Err? <==> exists k :: 0 <= k < |lines| && Malformed(lines[k])
    ensures ReadLines(m, lines).Err? ==> ReadLines(m, lines).error == MalformedMetadata
    decreases |lines|
  {
    if lines != [] {
      var rest := lines[1..];
      var next := if lines[0] == "" || NameValue(lines[0], ':').None? then m
        else m[NameValue(lines[0], ':').value.0 := NameValue(lines[0], ':').value.1];
      ReadLinesFails(next, rest);
      if exists k :: 0 <= k < |rest| && Malformed(rest[k]) {
        var k :| 0 <= k < |rest| && Malformed(rest[k]);
        assert Malformed(lines[k + 1]);
      }
      if exists k :: 0 <= k < |lines| && Malformed(lines[k]) {
        var k :| 0 <= k < |lines| && Malformed(lines[k]);
        if k > 0 {
          assert Malformed(rest[k - 1]);
        }
      }
    }
  }

  /**
   * A successful read gives every name the value of the last line that
   * names it, and keeps what `m` held for the names no line names.
   */
  lemma {:induction false} ReadLinesValues(m: MetadataMap, lines: seq<string>, r: MetadataMap, name: string)
    requires ReadLines(m, lines) == Ok(r)
    ensures LastValue(lines, name).Some? ==> name in r && r[name] == LastValue(lines, name).value
    ensures LastValue(lines, name).None? ==> (name in r <==> name in m) && (name in m ==> r[name] == m[name])
    decreases |lines|
  {
    if lines != [] {
      if lines[0] == "" {
        assert LineValue(lines[0], name).None?;
        ReadLinesValues(m, lines[1..], r, name);
      } else {
        var nv := NameValue(lines[0], ':').value;
        ReadLinesValues(m[nv.0 := nv.1], lines[1..], r, name);
      }
    }
  }

  /** `parse_metadata` fails, with `MalformedMetadata`, exactly when some non-empty line lacks a `:`. */
  lemma MetadataFails(blob: string)
    ensures MetadataOf(blob).Err? <==> exists line <- SplitOn(blob, '\n') :: Malformed(line)
    ensures MetadataOf(blob).Err? ==> MetadataOf(blob).error == MalformedMetadata
  {
    var lines := SplitOn(blob, '\n');
    ReadLinesFails(map[], lines);
    if line :| line in lines && Malformed(line) {
      var k :| 0 <= k < |lines| && lines[k] == line;
      assert Malformed(lines[k]);
    }
  }

  /**
   * A map `parse_metadata` returns holds a name exactly when some line names
   * it, with the value of the last such line.
   */
  lemma MetadataValues(blob: string, r: MetadataMap, name: string)
    requires MetadataOf(blob) == Ok(r)
    ensures LastValue(SplitOn(blob, '\n'), name) == if name in r then Some(r[name]) else None
  {
    ReadLinesValues(map[], SplitOn(blob, '\n'), r, name);
  }

  /** An empty header is an empty map. */
  lemma MetadataOfEmpty()
    ensures MetadataOf("") == Ok(map[])
  {
    assert SplitOn("", '\n') == [""];
  }
}
