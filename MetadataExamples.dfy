/**
 * The unit tests of src/metadata.rs, stated on the model, and the finding
 * about the name of the plural count.
 */
module MetadataExamples {
  import opened Wrappers
  import opened Text
  import opened Metadata

  // ---------------------------------------------------------------------
  // Splitting plain text
  // ---------------------------------------------------------------------

  /** A pattern whose first character `a` lacks is first found right after `a`. */
  lemma FindAfter(a: string, pat: string, b: string)
    requires pat != [] && pat[0] !in a
    ensures Find(a + pat + b, pat) == Some(|a|)
  {
    var s := a + pat + b;
    assert s[|a|..|a| + |pat|] == pat;
    assert OccursAt(s, pat, |a|);
    forall j | 0 <= j < |a|
      ensures !OccursAt(s, pat, j)
    {
      assert s[j] == a[j] != pat[0];
      if j + |pat| <= |s| {
        assert s[j..j + |pat|][0] == s[j];
      }
    }
  }

  /** Text without the separator is one piece. */
  lemma SplitOne(a: string, sep: char)
    requires sep !in a
    ensures SplitOn(a, sep) == [a]
  {
  }

  /** Text with one separator is two pieces. */
  lemma SplitTwo(a: string, sep: char, b: string)
    requires sep !in a && sep !in b
    ensures SplitOn(a + [sep] + b, sep) == [a, b]
  {
    var s := a + [sep] + b;
    assert s[|a|] == sep && s[..|a|] == a && s[|a| + 1..] == b;
    assert FirstIndex(s, sep) == Some(|a|) by {
      assert sep !in s[..|a|];
    }
  }

  /** A property whose name has no `=` splits at the `=` that follows it. */
  lemma PropertyOf(name: string, value: string)
    requires '=' !in name
    ensures Property(name + "=" + value) == Some((Trim(name), Trim(value)))
  {
    var s := name + "=" + value;
    assert s[|name|] == '=' && s[..|name|] == name && s[|name| + 1..] == value;
    assert FirstIndex(s, '=') == Some(|name|) by {
      assert '=' !in s[..|name|];
    }
  }

  // ---------------------------------------------------------------------
  // charset
  // ---------------------------------------------------------------------

  /** No `Content-Type`, an empty one and one without `charset=` give no charset. */
  lemma CharsetMissing()
    ensures Charset(map[]) == None
    ensures Charset(map["Content-Type" := ""]) == None
    ensures Charset(map["Content-Type" := "abc"]) == None
  {
  }

  lemma CharsetExample()
    ensures Charset(map["Content-Type" := "text/plain; charset=utf-42"]) == Some("utf-42")
  {
    assert "text/plain; charset=utf-42" == "text/plain; " + "charset=" + "utf-42";
    FindAfter("text/plain; ", "charset=", "utf-42");
    assert "text/plain; charset=utf-42"[20..] == "utf-42";
  }

  // ---------------------------------------------------------------------
  // plural_forms
  // ---------------------------------------------------------------------

  /** No `Plural-Forms`, or an empty one, gives English's forms. */
  lemma PluralFormsMissing()
    ensures PluralFormsOf(map[]) == PluralForms(2, "n!=1")
    ensures PluralFormsOf(map["Plural-Forms" := ""]) == PluralForms(2, "n!=1")
  {
    PluralFormsDefault(COUNT_NAME, map["Plural-Forms" := ""]);
  }

  /** A property whose name trims to `countName` and whose value trims to the numeral of `x` sets the count `x`. */
  lemma CountProperty(countName: string, name: string, value: string, x: U64)
    requires '=' !in name && Trim(name) == countName && Trim(value) == DecimalString(x)
    ensures CountSetBy(countName, name + "=" + value) == Some(x)
    ensures ExprSetBy(countName, name + "=" + value) == None
  {
    PropertyOf(name, value);
    ParseDecimalString(x);
  }

  /** A property whose name trims to `plural` sets the expression to its trimmed value. */
  lemma ExprProperty(countName: string, name: string, value: string)
    requires '=' !in name && Trim(name) == "plural" && countName != "plural"
    ensures CountSetBy(countName, name + "=" + value) == None
    ensures ExprSetBy(countName, name + "=" + value) == Some(Trim(value))
  {
    PropertyOf(name, value);
  }

  /** A field of one property is read as that property applied to the default. */
  lemma OneProperty(countName: string, p: string)
    requires ';' !in p
    ensures PluralFormsNamed(countName, map["Plural-Forms" := p]) == ApplyProperty(countName, DEFAULT_PLURAL_FORMS, p)
  {
    var m := map["Plural-Forms" := p];
    SplitOne(p, ';');
    assert [p][1..] == [];
    var a := ApplyProperty(countName, DEFAULT_PLURAL_FORMS, p);
    assert ApplyProperties(countName, DEFAULT_PLURAL_FORMS, [p]) == ApplyProperties(countName, a, []) == a;
    assert PluralFormsNamed(countName, m) == ApplyProperties(countName, DEFAULT_PLURAL_FORMS, [p]);
  }

  /** A field holding one property that sets only the count: that count, and the default expression. */
  lemma PluralFormsOfCount(countName: string, p: string, x: U64)
    requires ';' !in p && CountSetBy(countName, p) == Some(x) && ExprSetBy(countName, p) == None
    ensures PluralFormsNamed(countName, map["Plural-Forms" := p]) == PluralForms(x, "n!=1")
  {
    OneProperty(countName, p);
    ApplyPropertySets(countName, DEFAULT_PLURAL_FORMS, p);
  }

  /** A field of two properties is read as the first and then the second. */
  lemma TwoProperties(countName: string, p: string, q: string)
    requires ';' !in p && ';' !in q
    ensures PluralFormsNamed(countName, map["Plural-Forms" := p + ";" + q])
      == ApplyProperty(countName, ApplyProperty(countName, DEFAULT_PLURAL_FORMS, p), q)
  {
    var m := map["Plural-Forms" := p + ";" + q];
    assert p + ";" + q == p + [';'] + q;
    SplitTwo(p, ';', q);
    assert [p, q][1..] == [q] && [q][1..] == [];
    var a := ApplyProperty(countName, DEFAULT_PLURAL_FORMS, p);
    var b := ApplyProperty(countName, a, q);
    assert ApplyProperties(countName, DEFAULT_PLURAL_FORMS, [p, q]) == ApplyProperties(countName, a, [q]);
    assert ApplyProperties(countName, a, [q]) == ApplyProperties(countName, b, []) == b;
    assert PluralFormsNamed(countName, m) == ApplyProperties(countName, DEFAULT_PLURAL_FORMS, [p, q]);
  }

  /**
   * A field holding a property that sets the count and one that sets the
   * expression gives that count and that expression, in either order.
   */
  lemma PluralFormsOfPair(countName: string, p: string, q: string, x: U64, e: string)
    requires ';' !in p && ';' !in q
    requires CountSetBy(countName, p) == Some(x) && ExprSetBy(countName, p) == None
    requires CountSetBy(countName, q) == None && ExprSetBy(countName, q) == Some(e)
    ensures PluralFormsNamed(countName, map["Plural-Forms" := p + ";" + q]) == PluralForms(x, e)
    ensures PluralFormsNamed(countName, map["Plural-Forms" := q + ";" + p]) == PluralForms(x, e)
  {
    TwoProperties(countName, p, q);
    TwoProperties(countName, q, p);
    ApplyPropertySets(countName, DEFAULT_PLURAL_FORMS, p);
    ApplyPropertySets(countName, DEFAULT_PLURAL_FORMS, q);
    ApplyPropertySets(countName, ApplyProperty(countName, DEFAULT_PLURAL_FORMS, p), q);
    ApplyPropertySets(countName, ApplyProperty(countName, DEFAULT_PLURAL_FORMS, q), p);
  }

  // ---------------------------------------------------------------------
  // The name of the count
  // ---------------------------------------------------------------------

  /** The GNU name is neither of the names the code reads. */
  lemma GnuCountFacts()
    ensures GNU_COUNT_NAME != COUNT_NAME && GNU_COUNT_NAME != "plural"
  {
  }

  /**
   * As written, a GNU header field `nplurals=<x>` leaves the count at 2
   * whatever `x` is: the name read is `n_plurals`, which GNU tools never
   * write.
   */
  lemma GnuCountIgnored(name: string, value: string, x: U64)
    requires '=' !in name && ';' !in name && ';' !in value
    requires Trim(name) == GNU_COUNT_NAME && Trim(value) == DecimalString(x)
    ensures PluralFormsOf(map["Plural-Forms" := name + "=" + value]) == PluralForms(2, "n!=1")
    ensures GnuPluralFormsOf(map["Plural-Forms" := name + "=" + value]) == PluralForms(x, "n!=1")
  {
    var p := name + "=" + value;
    GnuCountFacts();
    PropertyOf(name, value);
    assert CountSetBy(COUNT_NAME, p) == None;
    assert ExprSetBy(COUNT_NAME, p) == None;
    OneProperty(COUNT_NAME, p);
    ApplyPropertySets(COUNT_NAME, DEFAULT_PLURAL_FORMS, p);
    CountProperty(GNU_COUNT_NAME, name, value, x);
    PluralFormsOfCount(GNU_COUNT_NAME, p, x);
  }

  /**
   * Reading the count from `nplurals`, a GNU header field gives the count and
   * the expression it declares, in either order.
   */
  lemma GnuPluralFormsRead(countName: string, countValue: string, exprName: string, exprValue: string, x: U64)
    requires '=' !in countName && ';' !in countName && ';' !in countValue
    requires Trim(countName) == GNU_COUNT_NAME && Trim(countValue) == DecimalString(x)
    requires '=' !in exprName && ';' !in exprName && ';' !in exprValue && Trim(exprName) == "plural"
    ensures var p, q := countName + "=" + countValue, exprName + "=" + exprValue;
      && GnuPluralFormsOf(map["Plural-Forms" := p + ";" + q]) == PluralForms(x, Trim(exprValue))
      && GnuPluralFormsOf(map["Plural-Forms" := q + ";" + p]) == PluralForms(x, Trim(exprValue))
  {
    var p, q := countName + "=" + countValue, exprName + "=" + exprValue;
    GnuCountFacts();
    CountProperty(GNU_COUNT_NAME, countName, countValue, x);
    ExprProperty(GNU_COUNT_NAME, exprName, exprValue);
    PluralFormsOfPair(GNU_COUNT_NAME, p, q, x, Trim(exprValue));
  }
}
