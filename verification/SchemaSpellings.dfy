/**
 Spellings the printer never writes and the reader still accepts: the second spellings of
 defaults and base types, a namespace before the name. And the printed form itself, on texts
 that show its conventions.
 */
module SchemaSpellings {
  import opened Text
  import opened Spellings
  import opened SchemaModel
  import opened SchemaGrammar
  import opened SchemaPrinted
  import opened SchemaRoundTrip
  import opened SchemaTheorems
  import opened SchemaLiterals
  import opened SchemaTokens
  import opened SchemaLanguage

  // ----- default values -----

  /** A bare word before a comma or a closing parenthesis is read as what it denotes. */
  lemma BareWordExactly(w: string, r: string, v: Value)
    requires IsBareWord(w) && EndsDefault(r)
    ensures ParseDefault(w + r) == Ok(v, r) <==> Denotes(w, v)
  {
    var u := Literal(w);
    LiteralExactly(w, u);
    LiteralExactly(w, v);
    SkipFixed(w + r);
    SkipFixed(r);
    BareComplete(w + r, w, u, r, r);
  }

  /** The named defaults, in either spelling of the truth values. */
  lemma NamedDefaultsExactly(w: string, v: Value, r: string)
    requires EndsDefault(r) && IsConstant(w)
    ensures ParseDefault(w + r) == Ok(v, r) <==>
            (w == "None" && v == NoneV) || ((w == "True" || w == "true") && v == BoolV(true))
            || ((w == "False" || w == "false") && v == BoolV(false))
  {
    WordIsBare(w);
    BareWordExactly(w, r, v);
    NamedExactly(w, v);
    LiteralExactly(w, v);
  }

  lemma WordIsBare(w: string)
    requires IsIdent(w)
    ensures IsBareWord(w)
  {
    assert forall i :: 0 <= i < |w| ==> IsIdentChar(w[i]);
  }

  /** Every other word that spells no number stands for itself. */
  lemma OtherWordsExactly(w: string, r: string)
    requires IsIdent(w) && EndsDefault(r)
    ensures ParseDefault(w + r) == Ok(StrV(w), r) <==> !IsConstant(w) && !SpellsSomeInt(w) && !SpellsFloat(w)
  {
    WordIsBare(w);
    BareWordExactly(w, r, StrV(w));
  }

  // ----- base types -----

  /** A lone word is a type exactly when it is a base name or `int64_t`. */
  lemma BaseTypeExactly(w: string, b: Base)
    requires IsIdent(w)
    ensures ParseType(w) == Ok(Typed(BaseType(b), None, None), "") <==>
            w == BaseName(b) || (w == "int64_t" && b == IntT)
    ensures ParseType(w).Ok? <==> w == "int64_t" || exists c :: w == BaseName(c)
  {
    assert w + "" == w;
    ReadIdentPrinted(w, "");
    BaseNamesExactly(w, b);
    forall c ensures LookupBase(w) == Some(c) <==> w == BaseName(c) || (w == "int64_t" && c == IntT) {
      BaseNamesExactly(w, c);
    }
    if LookupBase(w).Some? { LoneWord(w, LookupBase(w).value); }
  }

  lemma LoneWord(w: string, b: Base)
    requires ReadIdent(w) == Ok(w, "") && LookupBase(w) == Some(b)
    ensures ParseType(w) == Ok(Typed(BaseType(b), None, None), "")
  {
    assert ParseAnnotation("") == Ok(None, "");
    assert TypeSuffix("", BaseType(b), None) == Ok((BaseType(b), None), "");
  }

  // ----- namespaces -----

  lemma SamePartsRead(text: string, other: string, w: string, v: string, rest: string, s: FunctionSchema, ns: string)
    requires ReadIdent(text) == Ok(w, rest) && ReadIdent(other) == Ok(v, rest)
    requires ParseSchema(text, s.ns) == Ok(s, "")
    ensures ParseSchema(other, ns) == Ok(s.(ns := Qualify(v, ns).0, name := Qualify(v, ns).1), "")
  {
  }

  lemma PlainWord(q: string, name: string)
    requires IsIdent(q) && ':' !in q && IsIdent(name)
    ensures IsIdent(q + ("::" + name)) && !HasColons(q + ":")
  {
    var w := q + ("::" + name);
    forall i | 0 <= i < |w| ensures IsIdentChar(w[i]) {}
    forall k | 0 <= k < |q| ensures !ColonsAt(q + ":", k) { assert (q + ":")[k] == q[k] && q[k] in q; }
  }

  /** A namespace written before the name takes the place of the caller's, and without one the
      caller's is used. */
  lemma QualifiedReadsBack(s: FunctionSchema, ns: string, q: string)
    requires Printable(s) && IsIdent(q) && ':' !in q
    ensures ParseSchema(q + ("::" + SchemaText(s)), ns) == Ok(s.(ns := q), "")
    ensures ParseSchema(SchemaText(s), ns) == Ok(s.(ns := ns), "")
  {
    var rest := OverloadText(s.overload, "(" + ListText(s.arguments, false, " ->" + (" " + ReturnsText(s.results))));
    var w := q + ("::" + s.name);
    PrintableReadsBack(s);
    SchemaTextParts(s);
    OverloadRead(s.overload, "(" + ListText(s.arguments, false, " ->" + (" " + ReturnsText(s.results))));
    ReadIdentPrinted(s.name, rest);
    PlainWord(q, s.name);
    ReadIdentPrinted(w, rest);
    Enclosed(q, "::", s.name, rest);
    Associate("::", s.name, rest);
    assert q + ("::" + SchemaText(s)) == w + rest;
    QualifierIs(q, s.name, ns);
    QualifyPrintable(s.name, ns);
    SamePartsRead(SchemaText(s), q + ("::" + SchemaText(s)), s.name, w, rest, s, ns);
    SamePartsRead(SchemaText(s), SchemaText(s), s.name, s.name, rest, s, ns);
  }

  lemma QualifierIs(q: string, name: string, ns: string)
    requires !HasColons(q + ":")
    ensures Qualify(q + ("::" + name), ns) == (q, name)
  {
    QualifiedAt(q, name);
    var w := q + ("::" + name);
    assert w[..|q|] == q && w[|q| + 2..] == name;
  }

  // ----- the printed form -----

  /** No backslash, and no character below the space or deleted. */
  predicate IsPlainText(s: string) {
    forall i :: 0 <= i < |s| ==> s[i] != '\\' && s[i] as int >= 32 && s[i] as int != 127
  }

  lemma {:induction false} EscapedPlain(s: string, q: char)
    requires IsPlainText(s) && q !in s
    ensures Escaped(s, q) == s
  {
    if s != "" {
      assert s == [s[0]] + s[1..];
      EscapedPlain(s[1..], q);
    }
  }

  /** Text without escapes is printed between single quotes, or between double quotes when only
      single ones occur in it. */
  lemma ReprPlain(s: string)
    requires IsPlainText(s)
    ensures '\'' !in s ==> Repr(s) == "'" + s + "'"
    ensures '\'' in s && '"' !in s ==> Repr(s) == "\"" + s + "\""
  {
    if '\'' !in s || '"' !in s { EscapedPlain(s, QuoteFor(s)); }
  }

  /** The printed characters follow one another. */
  lemma {:induction false} EscapedAppend(a: string, b: string, q: char)
    ensures Escaped(a + b, q) == Escaped(a, q) + Escaped(b, q)
    decreases |a|
  {
    if a == "" {
      assert a + b == b;
    } else {
      assert (a + b)[1..] == a[1..] + b;
      EscapedAppend(a[1..], b, q);
      Associate(EscapeChar(a[0], q), Escaped(a[1..], q), Escaped(b, q));
    }
  }

  /** The escapes `repr` writes. */
  lemma EscapesWritten(q: char)
    requires q == '\'' || q == '"'
    ensures EscapeChar('\\', q) == ['\\', '\\'] && EscapeChar(q, q) == ['\\', q]
    ensures EscapeChar('\n', q) == "\\n" && EscapeChar('\r', q) == "\\r" && EscapeChar('\t', q) == "\\t"
    ensures EscapeChar(1 as char, q) == "\\x01" && EscapeChar(127 as char, q) == "\\x7f"
  {
  }

  lemma SortedOne(x: string)
    ensures SortedNames({x}) == [x]
  {
    var r := SortedNames({x});
    assert x in r;
  }

  lemma WriteText(a: AliasInfo)
    requires a == AliasInfo({"a"}, {"a"}, true)
    ensures AliasText(a) == "(a!)"
  {
    SortedOne("a");
  }

  lemma TypeTexts(a: AliasInfo)
    requires a == AliasInfo({"a"}, {"a"}, true)
    ensures TypeText(BaseType(TensorT), Some(a)) == "Tensor(a!)" && TypeText(BaseType(TensorT), None) == "Tensor"
    ensures TypeText(ListType(BaseType(IntT), Some(2)), None) == "int[2]"
    ensures TypeText(OptionalType(BaseType(BoolT)), None) == "bool?"
    ensures TypeText(ListType(OptionalType(BaseType(TensorT)), None), Some(a)) == "Tensor(a!)?[]"
  {
    WriteText(a);
    assert NatText(2) == "2";
  }

  lemma ListDefaultText()
    ensures DefaultText(ListV([IntV(0), IntV(-1)])) == "[0,-1]" && DefaultText(BoolV(true)) == "True"
  {
  }

  predicate IsDims(a: Argument) {
    a.name == "dim" && a.typ == ListType(BaseType(IntT), Some(2)) && a.alias.None? && !a.kwargOnly
    && a.hasDefault && a.default == ListV([IntV(0), IntV(-1)])
  }

  predicate IsFlag(a: Argument) {
    a.name == "flag" && a.typ == OptionalType(BaseType(BoolT)) && a.alias.None? && a.kwargOnly
    && a.hasDefault && a.default == BoolV(true)
  }

  predicate IsTensor(a: Argument, name: string, alias: Option<AliasInfo>) {
    a.name == name && a.typ == BaseType(TensorT) && a.alias == alias && !a.hasDefault
  }

  lemma ArgumentSamples(x: Argument, dims: Argument, flag: Argument, out: Argument, ret: Argument, a: AliasInfo)
    requires a == AliasInfo({"a"}, {"a"}, true) && IsDims(dims) && IsFlag(flag)
    requires IsTensor(x, "self", None) && IsTensor(out, "out", Some(a)) && IsTensor(ret, "", Some(a))
    ensures ArgumentText(x) == "Tensor self" && ArgumentText(dims) == "int[2] dim=[0,-1]"
    ensures ArgumentText(flag) == "bool? flag=True"
    ensures ArgumentText(out) == "Tensor(a!) out" && ArgumentText(ret) == "Tensor(a!)"
  {
    TypeTexts(a);
    ListDefaultText();
  }

  lemma PartsSample(x: Argument, dims: Argument, flag: Argument, out: Argument, a: AliasInfo)
    requires !x.kwargOnly && !dims.kwargOnly && flag.kwargOnly && out.kwargOnly
    ensures ArgumentParts([x, dims, flag, out], false)
         == [ArgumentText(x), ArgumentText(dims), "*", ArgumentText(flag), ArgumentText(out)]
  {
    assert [flag, out][1..] == [out] && [out][1..] == [];
    assert ArgumentParts([out], true) == [ArgumentText(out)];
    assert [x, dims, flag, out][1..] == [dims, flag, out] && [dims, flag, out][1..] == [flag, out];
    assert ArgumentParts([flag, out], false) == ["*", ArgumentText(flag), ArgumentText(out)];
  }

  lemma JoinSample(a: string, b: string, c: string, d: string, e: string)
    ensures Join(", ", [a, b, c, d, e]) == a + ", " + (b + ", " + (c + ", " + (d + ", " + e)))
  {
    assert [c, d, e][1..] == [d, e] && [d, e][1..] == [e];
    assert Join(", ", [d, e]) == d + ", " + e;
    assert [a, b, c, d, e][1..] == [b, c, d, e] && [b, c, d, e][1..] == [c, d, e];
    assert Join(", ", [c, d, e]) == c + ", " + (d + ", " + e);
  }

  /** A schema that shows the conventions of the printed form: the overload behind a dot, one star
      before the keyword-only arguments, annotations behind the base name, no namespace. */
  lemma PrintedForm(s: FunctionSchema, a: AliasInfo)
    requires s.name == "sum" && s.overload == "dim_out" && |s.arguments| == 4 && |s.results| == 1
    requires a == AliasInfo({"a"}, {"a"}, true)
    requires IsTensor(s.arguments[0], "self", None) && !s.arguments[0].kwargOnly
    requires IsDims(s.arguments[1]) && IsFlag(s.arguments[2])
    requires IsTensor(s.arguments[3], "out", Some(a)) && s.arguments[3].kwargOnly
    requires IsTensor(s.results[0], "", Some(a))
    ensures SchemaText(s)
         == "sum.dim_out" + "("
            + ("Tensor self" + ", "
               + ("int[2] dim=[0,-1]" + ", " + ("*" + ", " + ("bool? flag=True" + ", " + "Tensor(a!) out"))))
            + ") -> " + "Tensor(a!)"
  {
    var x, dims, flag, out := s.arguments[0], s.arguments[1], s.arguments[2], s.arguments[3];
    assert s.arguments == [x, dims, flag, out];
    ArgumentSamples(x, dims, flag, out, s.results[0], a);
    PartsSample(x, dims, flag, out, a);
    JoinSample("Tensor self", "int[2] dim=[0,-1]", "*", "bool? flag=True", "Tensor(a!) out");
    assert HeadText("sum", "dim_out") == "sum.dim_out";
  }
}
