/**
 Whole schemas: what every accepted text yields, and exactly which schemas read
 back from their printed form.
 */
module SchemaRoundTrip {
  import opened Text
  import opened SchemaModel
  import opened SchemaGrammar
  import opened SchemaPrinted

  // ----- the schemas the reader can produce -----

  predicate IsItem(v: Value) {
    IsScalar(v) || v.StrV?
  }

  predicate AreItems(vs: seq<Value>) {
    forall i :: 0 <= i < |vs| ==> IsItem(vs[i])
  }

  /** Defaults the reader can produce: an item, or a flat list of items. */
  predicate IsParsedDefault(v: Value) {
    if v.ListV? then AreItems(v.items) else IsItem(v)
  }

  /** Defaults that survive printing: lists must hold no strings. */
  predicate IsReadableDefault(v: Value) {
    if v.ListV? then AreScalars(v.items) else IsItem(v)
  }

  predicate WellFormedArgument(a: Argument) {
    && IsIdent(a.name)
    && WellFormedAnnotation(a.alias)
    && a.size == OutermostSize(a.typ)
    && a.isOut == (a.kwargOnly && a.alias.Some? && a.alias.value.isWrite)
    && (if a.hasDefault then IsParsedDefault(a.default) else a.default == NoneV)
  }

  predicate WellFormedReturn(a: Argument) {
    && (a.name == "" || IsIdent(a.name))
    && WellFormedAnnotation(a.alias)
    && a.size == OutermostSize(a.typ)
    && !a.hasDefault && a.default == NoneV && !a.kwargOnly && !a.isOut
  }

  predicate WellFormedArguments(args: seq<Argument>) {
    forall i :: 0 <= i < |args| ==> WellFormedArgument(args[i])
  }

  predicate WellFormedReturns(rets: seq<Argument>) {
    forall i :: 0 <= i < |rets| ==> WellFormedReturn(rets[i])
  }

  /** Keyword-only arguments come last. */
  predicate KwargSuffix(args: seq<Argument>) {
    forall i, j :: 0 <= i < j < |args| && args[i].kwargOnly ==> args[j].kwargOnly
  }

  predicate AllKwarg(args: seq<Argument>) {
    forall i :: 0 <= i < |args| ==> args[i].kwargOnly
  }

  predicate WellFormed(s: FunctionSchema) {
    && (s.overload == "" || IsIdent(s.overload))
    && WellFormedArguments(s.arguments) && KwargSuffix(s.arguments)
    && WellFormedReturns(s.results)
  }

  predicate AllReadable(args: seq<Argument>) {
    forall i :: 0 <= i < |args| && args[i].hasDefault ==> IsReadableDefault(args[i].default)
  }

  /** A non-empty identifier that holds no `::`. */
  predicate PrintableName(w: string) {
    IsIdent(w) && QualifierLen(w) == |w|
  }

  predicate Printable(s: FunctionSchema) {
    WellFormed(s) && PrintableName(s.name) && AllReadable(s.arguments)
  }

  // ----- parser image -----

  predicate GoodParts(p: AliasParts) {
    AreAliasNames(p.before) && AreAliasNames(p.after) && (p.inAfter ==> p.before != [])
  }

  lemma {:induction false} AliasLoopImage(s: string, p: AliasParts)
    requires GoodParts(p)
    ensures var r := AliasLoop(s, p); r.Ok? ==> GoodParts(r.value) && r.value.before != []
    decreases |s|, 1
  {
    var r := AliasName(s);
    if r.Ok? {
      AliasNextImage(r.rest, PushName(p, r.value));
    }
  }

  lemma {:induction false} AliasNextImage(s: string, p: AliasParts)
    requires GoodParts(p) && p.before != []
    ensures var r := AliasNext(s, p); r.Ok? ==> GoodParts(r.value) && r.value.before != []
    decreases |s|, 0
  {
    var bar, arrow := Accept(s, "|"), Accept(s, "->");
    if bar.Some? {
      AliasLoopImage(bar.value, p);
    } else if arrow.Some? {
      AliasLoopImage(arrow.value, p.(inAfter := true));
    }
  }

  lemma NameSetImage(names: seq<string>)
    requires names != [] && AreAliasNames(names)
    ensures IsAliasNameSet(NameSet(names))
  {
    assert names[0] in NameSet(names);
  }

  lemma ParseAliasImage(s: string)
    ensures var r := ParseAlias(s); r.Ok? ==> WellFormedAlias(r.value)
  {
    var start := AliasParts([], [], false);
    AliasLoopImage(s, start);
    var r := AliasLoop(s, start);
    if r.Ok? {
      NameSetImage(r.value.before);
      if r.value.after != [] {
        NameSetImage(r.value.after);
      }
    }
  }

  lemma {:induction false} TypeSuffixImage(s: string, t: SchemaType, size: Option<nat>)
    requires size == OutermostSize(t)
    ensures var r := TypeSuffix(s, t, size); r.Ok? ==> r.value.1 == OutermostSize(r.value.0)
    decreases |s|
  {
    var opt, list := Accept(s, "?"), Accept(s, "[");
    if opt.Some? {
      TypeSuffixImage(opt.value, OptionalType(t), size);
    } else if list.Some? {
      var n := ParseSize(list.value);
      if n.Ok? {
        TypeSuffixImage(n.rest, ListType(t, n.value), n.value);
      }
    }
  }

  lemma ParseTypeImage(s: string)
    ensures var r := ParseType(s);
            r.Ok? ==> WellFormedAnnotation(r.value.alias) && r.value.size == OutermostSize(r.value.typ)
  {
    var id := ReadIdent(s);
    if id.Ok? && LookupBase(id.value).Some? {
      var b := BaseType(LookupBase(id.value).value);
      var open := Accept(id.rest, "(");
      if open.Some? {
        ParseAliasImage(open.value);
      }
      var ann := ParseAnnotation(id.rest);
      if ann.Ok? {
        TypeSuffixImage(ann.rest, b, None);
      }
    }
  }

  lemma LiteralImage(token: string)
    ensures IsItem(Literal(token))
  {
    if NamedDefault(token).None? && IntValue(token).None? && IsFloatSpelling(token) {
      assert Literal(token) == FloatV(token);
    }
  }

  lemma ParseDefaultImage(s: string)
    ensures var r := ParseDefault(s); r.Ok? ==> IsParsedDefault(r.value)
  {
    var t := Skip(s);
    if t != "" && t[0] == '[' {
      var inner := Strip(t[1..ListLen(t, 0)]);
      forall i | 0 <= i < |SplitComma(inner)| ensures IsItem(Literal(Strip(SplitComma(inner)[i]))) {
        LiteralImage(Strip(SplitComma(inner)[i]));
      }
    } else if t != "" && t[0] != '"' && t[0] != '\'' {
      LiteralImage(Strip(t[..SpanLen(NotCloser, t)]));
    }
  }

  lemma ParseArgumentImage(s: string, kwargOnly: bool)
    ensures var r := ParseArgument(s, kwargOnly);
            r.Ok? ==> WellFormedArgument(r.value) && r.value.kwargOnly == kwargOnly
  {
    ParseTypeImage(s);
    var t := ParseType(s);
    if t.Ok? {
      var id := ReadIdent(t.rest);
      if id.Ok? {
        var eq := Accept(id.rest, "=");
        if eq.Some? {
          ParseDefaultImage(eq.value);
        }
      }
    }
  }

  lemma ConsImage(a: Argument, args: seq<Argument>)
    requires WellFormedArgument(a) && WellFormedArguments(args) && KwargSuffix(args)
    requires a.kwargOnly ==> AllKwarg(args)
    ensures WellFormedArguments([a] + args) && KwargSuffix([a] + args)
    ensures a.kwargOnly ==> AllKwarg([a] + args)
  {
  }

  lemma {:induction false} ArgLoopImage(s: string, kwargOnly: bool)
    ensures var r := ArgLoop(s, kwargOnly);
            r.Ok? ==> WellFormedArguments(r.value) && KwargSuffix(r.value) && (kwargOnly ==> AllKwarg(r.value))
    decreases |s|, 1
  {
    var star := Accept(s, "*");
    if star.Some? {
      ArgNextImage(star.value, true);
    } else {
      ParseArgumentImage(s, kwargOnly);
      var a := ParseArgument(s, kwargOnly);
      if a.Ok? {
        ArgNextImage(a.rest, kwargOnly);
        var more := ArgNext(a.rest, kwargOnly);
        if more.Ok? {
          ConsImage(a.value, more.value);
        }
      }
    }
  }

  lemma {:induction false} ArgNextImage(s: string, kwargOnly: bool)
    ensures var r := ArgNext(s, kwargOnly);
            r.Ok? ==> WellFormedArguments(r.value) && KwargSuffix(r.value) && (kwargOnly ==> AllKwarg(r.value))
    decreases |s|, 0
  {
    var comma := Expect(s, ",");
    if Accept(s, ")").None? && comma.Ok? {
      ArgLoopImage(comma.rest, kwargOnly);
    }
  }

  lemma ParseArgumentsImage(s: string)
    ensures var r := ParseArguments(s); r.Ok? ==> WellFormedArguments(r.value) && KwargSuffix(r.value)
  {
    var open := Expect(s, "(");
    if open.Ok? {
      ArgLoopImage(open.rest, false);
    }
  }

  lemma ReturnIsWellFormed(t: Typed, name: string)
    requires WellFormedAnnotation(t.alias) && t.size == OutermostSize(t.typ) && (name == "" || IsIdent(name))
    ensures WellFormedReturn(MakeReturn(t, name))
  {
  }

  lemma ParseReturnImage(s: string)
    ensures var r := ParseReturn(s); r.Ok? ==> WellFormedReturn(r.value)
  {
    ParseTypeImage(s);
    var t := ParseType(s);
    if t.Ok? {
      ReturnIsWellFormed(t.value, "");
      var name := ReadIdent(t.rest);
      if name.Ok? { ReturnIsWellFormed(t.value, name.value); }
    }
  }

  lemma {:induction false} ReturnLoopImage(s: string)
    ensures var r := ReturnLoop(s); r.Ok? ==> WellFormedReturns(r.value)
    decreases |s|, 1
  {
    ParseReturnImage(s);
    var a := ParseReturn(s);
    if a.Ok? {
      ReturnNextImage(a.rest);
    }
  }

  lemma {:induction false} ReturnNextImage(s: string)
    ensures var r := ReturnNext(s); r.Ok? ==> WellFormedReturns(r.value)
    decreases |s|, 0
  {
    var comma := Accept(s, ",");
    if comma.Some? {
      ReturnLoopImage(comma.value);
    }
  }

  lemma ParseReturnsImage(s: string)
    ensures var r := ParseReturns(s); r.Ok? ==> WellFormedReturns(r.value)
  {
    ParseReturnImage(s);
    var open := Accept(s, "(");
    if open.Some? {
      ReturnLoopImage(open.value);
    }
  }

  /** The stages of a successful parse. */
  predicate Stages(text: string, ns: string, s: FunctionSchema,
                   q: string, s1: string, s2: string, s3: string, s4: string, s5: string) {
    && ReadIdent(text) == Ok(q, s1)
    && ParseOverload(s1) == Ok(s.overload, s2)
    && ParseArguments(s2) == Ok(s.arguments, s3)
    && Expect(s3, "->") == Ok((), s4)
    && ParseReturns(s4) == Ok(s.results, s5)
    && Skip(s5) == ""
    && Qualify(q, ns) == (s.ns, s.name)
  }

  lemma ParseSchemaStages(text: string, ns: string)
    returns (q: string, s1: string, s2: string, s3: string, s4: string, s5: string)
    requires ParseSchema(text, ns).Ok?
    ensures Stages(text, ns, ParseSchema(text, ns).value, q, s1, s2, s3, s4, s5)
  {
    q, s1 := ReadIdent(text).value, ReadIdent(text).rest;
    s2 := ParseOverload(s1).rest;
    s3 := ParseArguments(s2).rest;
    s4 := Expect(s3, "->").rest;
    s5 := ParseReturns(s4).rest;
  }

  lemma StagesParse(text: string, ns: string, s: FunctionSchema,
                    q: string, s1: string, s2: string, s3: string, s4: string, s5: string)
    requires Stages(text, ns, s, q, s1, s2, s3, s4, s5)
    ensures ParseSchema(text, ns) == Ok(s, "")
  {
  }

  /** Every accepted text, whatever it is, yields a well-formed schema. */
  lemma ParserImage(text: string, ns: string)
    requires ParseSchema(text, ns).Ok?
    ensures WellFormed(ParseSchema(text, ns).value)
  {
    var q, s1, s2, s3, s4, s5 := ParseSchemaStages(text, ns);
    ParseArgumentsImage(s2);
    ParseReturnsImage(s4);
  }

  // ----- reading back a printed argument -----

  lemma ReadableDefaultRead(v: Value, r: string)
    requires IsReadableDefault(v) && EndsDefault(r)
    ensures ParseDefault(DefaultText(v) + r) == Ok(v, r)
  {
    match v
    case StrV(s) => ReprRead(s, r);
    case ListV(items) => ScalarListRead(items, r);
    case NoneV => ScalarRead(v, r);
    case BoolV(_) => ScalarRead(v, r);
    case IntV(_) => ScalarRead(v, r);
    case FloatV(_) => ScalarRead(v, r);
  }

  function OptionalDefaultText(a: Argument): string {
    if a.hasDefault then "=" + DefaultText(a.default) else ""
  }

  lemma ArgumentTextParts(a: Argument, r: string)
    requires a.name != ""
    ensures ArgumentText(a) + r == TypeText(a.typ, a.alias) + (" " + (a.name + (OptionalDefaultText(a) + r)))
  {
    var t, n, d := TypeText(a.typ, a.alias), a.name, OptionalDefaultText(a);
    Regroup(t, " ", n, d, r);
  }

  lemma Regroup(a: string, b: string, c: string, d: string, e: string)
    ensures ((a + (b + c)) + d) + e == a + (b + (c + (d + e)))
  {
  }

  lemma NameEndsType(w: string, r: string)
    requires IsIdent(w)
    ensures EndsType(" " + (w + r)) && Skip(" " + (w + r)) == w + r
  {
    SkipOneSpace(w + r);
    assert IsIdentChar(w[0]);
    SkipFixed(w + r);
  }

  /** Type and name of a printed argument, leaving its default. */
  lemma ArgumentHeadRead(a: Argument, r: string)
    requires WellFormedArgument(a) && EndsDefault(r)
    ensures ParseType(ArgumentText(a) + r)
         == Ok(Typed(a.typ, a.alias, a.size), a.name + (OptionalDefaultText(a) + r))
    ensures ReadIdent(a.name + (OptionalDefaultText(a) + r)) == Ok(a.name, OptionalDefaultText(a) + r)
  {
    var more := OptionalDefaultText(a) + r;
    ArgumentTextParts(a, r);
    NameEndsType(a.name, more);
    ParseTypePrinted(a.typ, a.alias, " " + (a.name + more));
    assert more[0] == if a.hasDefault then '=' else r[0];
    ReadIdentPrinted(a.name, more);
  }

  lemma NoDefaultRead(r: string)
    requires EndsDefault(r)
    ensures ParseOptionalDefault(r) == Ok(None, r)
  {
    SkipFixed(r);
    AcceptMiss(r, "=");
  }

  lemma SomeDefaultRead(v: Value, r: string)
    ensures ParseOptionalDefault("=" + DefaultText(v) + r)
         == var d := ParseDefault(DefaultText(v) + r); if d.Ok? then Ok(Some(d.value), d.rest) else Err(d.error)
  {
    var w := DefaultText(v);
    Associate("=", w, r);
    AcceptToken("=", w + r);
  }

  lemma ArgumentStep(s: string, kwargOnly: bool, t: Typed, s1: string, name: string, s2: string)
    requires ParseType(s) == Ok(t, s1) && ReadIdent(s1) == Ok(name, s2)
    ensures var d := ParseOptionalDefault(s2);
            ParseArgument(s, kwargOnly)
            == if d.Ok? then Ok(MakeArgument(t, name, d.value, kwargOnly), d.rest) else Err(d.error)
  {
  }

  predicate ReadableArgument(a: Argument) {
    a.hasDefault ==> IsReadableDefault(a.default)
  }

  lemma ArgumentRead(a: Argument, r: string)
    requires WellFormedArgument(a) && EndsDefault(r)
    ensures ReadableArgument(a) ==> ParseArgument(ArgumentText(a) + r, a.kwargOnly) == Ok(a, r)
    ensures !ReadableArgument(a) ==>
              var p := ParseArgument(ArgumentText(a) + r, a.kwargOnly); p.Ok? ==> p.value != a
  {
    ArgumentHeadRead(a, r);
    var more := OptionalDefaultText(a) + r;
    var t := Typed(a.typ, a.alias, a.size);
    ArgumentStep(ArgumentText(a) + r, a.kwargOnly, t, a.name + more, a.name, more);
    if !a.hasDefault {
      assert more == r;
      NoDefaultRead(r);
    } else {
      SomeDefaultRead(a.default, r);
      if ReadableArgument(a) {
        ReadableDefaultRead(a.default, r);
      } else {
        StringListNeverReadsBack(a.default.items, r);
      }
    }
  }

  // ----- a list that holds a string never reads back -----

  /** Every prefix character of `repr(s)` after its quote is a backslash or an earlier
      character of `s`, or `s` repeats itself shifted. */
  lemma {:induction false} EscapedAt(s: string, q: char, i: nat)
    requires i < |Escaped(s, q)|
    requires forall k :: 0 <= k < |s| ==> s[k] == q || s[k] == '\\' || k > i
    ensures Escaped(s, q)[i] == '\\' || Escaped(s, q)[i] == q
    decreases |s|
  {
    var e := EscapeChar(s[0], q);
    assert s[0] == q || s[0] == '\\';
    if i >= |e| {
      assert Escaped(s, q)[i] == Escaped(s[1..], q)[i - |e|];
      EscapedAt(s[1..], q, i - |e|);
    }
  }

  /** A text that starts with its own quoted form holds nothing but the quote and backslashes. */
  lemma {:induction false} SelfQuotedChars(s: string, q: char, n: nat)
    requires n <= |s| && s <= [q] + Escaped(s, q) + [q]
    ensures forall k :: 0 <= k < n ==> s[k] == q || s[k] == '\\'
    decreases n
  {
    if n > 0 {
      SelfQuotedChars(s, q, n - 1);
      var i := n - 1;
      var full := [q] + Escaped(s, q) + [q];
      assert s[i] == full[i];
      if 0 < i <= |Escaped(s, q)| {
        assert full[i] == Escaped(s, q)[i - 1];
        EscapedAt(s, q, i - 1);
      }
    }
  }

  lemma {:induction false} EscapedLonger(s: string, q: char)
    ensures |Escaped(s, q)| >= |s|
    decreases |s|
  {
    if s != "" {
      EscapedLonger(s[1..], q);
    }
  }

  /** Such a text is quoted the other way, as it holds only one kind of quote. */
  lemma SelfQuotedQuote(s: string, q: char)
    requires s != "" && s <= [q] + Escaped(s, q) + [q]
    requires q == '\'' || q == '"'
    ensures QuoteFor(s) != q
  {
    SelfQuotedChars(s, q, |s|);
    assert s[0] == q;
    assert forall c :: c in s ==> c == q || c == '\\';
  }

  /** No text is a prefix of its own `repr`, unless empty. */
  lemma ReprIsNoExtension(s: string)
    requires s != ""
    ensures !(s <= Repr(s))
  {
    if s <= Repr(s) {
      SelfQuotedQuote(s, QuoteFor(s));
    }
  }

  /** Scalars as they stand before a later item, each with its comma. */
  function PrefixText(vs: seq<Value>): string {
    if vs == [] then "" else DefaultText(vs[0]) + "," + PrefixText(vs[1..])
  }

  lemma {:induction false} PrefixTextPlain(vs: seq<Value>)
    requires AreScalars(vs)
    ensures Plain(PrefixText(vs))
    ensures PrefixText(vs) == "" || !IsSpace(PrefixText(vs)[0])
    decreases |vs|
  {
    if vs != [] {
      ScalarTextPlain(vs[0]);
      PrefixTextPlain(vs[1..]);
      assert PrefixText(vs)[0] == DefaultText(vs[0])[0];
    }
  }

  lemma ScalarHoldsNoComma(v: Value)
    requires IsScalar(v)
    ensures forall i :: 0 <= i < |DefaultText(v)| ==> DefaultText(v)[i] != ','
  {
    ScalarText(v);
    NumberCharsPlain(DefaultText(v));
  }

  lemma OneLater(w: string, rest: seq<string>, k: nat)
    requires k < |rest|
    ensures |[w] + rest| == 1 + |rest| && ([w] + rest)[k + 1] == rest[k]
  {
  }

  lemma SplitLater(w: string, p: string, x: string, k: nat)
    requires forall i :: 0 <= i < |w| ==> w[i] != ','
    requires k < |SplitComma(p + x)|
    ensures |SplitComma((w + "," + p) + x)| == 1 + |SplitComma(p + x)|
    ensures SplitComma((w + "," + p) + x)[k + 1] == SplitComma(p + x)[k]
  {
    Associate(w + ",", p, x);
    SplitCommaStep(w, p + x);
    OneLater(w, SplitComma(p + x), k);
  }

  lemma {:induction false} SplitPrefix(vs: seq<Value>, x: string)
    requires AreScalars(vs)
    ensures |SplitComma(PrefixText(vs) + x)| > |vs|
    ensures SplitComma(PrefixText(vs) + x)[|vs|] == SplitComma(x)[0]
    decreases |vs|
  {
    if vs == [] {
      assert PrefixText(vs) + x == x;
    } else {
      ScalarHoldsNoComma(vs[0]);
      SplitPrefix(vs[1..], x);
      SplitLater(DefaultText(vs[0]), PrefixText(vs[1..]), x, |vs| - 1);
    }
  }

  function TailText(vs: seq<Value>): string {
    if vs == [] then "" else "," + Join(",", DefaultTexts(vs))
  }

  lemma DefaultTextsCons(v: Value, vs: seq<Value>)
    ensures Join(",", DefaultTexts([v] + vs)) == DefaultText(v) + TailText(vs)
  {
    assert ([v] + vs)[1..] == vs;
    assert DefaultTexts([v] + vs) == [DefaultText(v)] + DefaultTexts(vs);
    assert ([DefaultText(v)] + DefaultTexts(vs))[1..] == DefaultTexts(vs);
    if vs == [] {
      assert DefaultText(v) + "" == DefaultText(v);
    } else {
      Associate(DefaultText(v), ",", Join(",", DefaultTexts(vs)));
    }
  }

  lemma {:induction false} JoinAround(vs: seq<Value>, v: Value, more: seq<Value>)
    ensures Join(",", DefaultTexts(vs + ([v] + more))) == PrefixText(vs) + (DefaultText(v) + TailText(more))
    decreases |vs|
  {
    if vs == [] {
      DefaultTextsCons(v, more);
      assert vs + ([v] + more) == [v] + more;
    } else {
      var rest := vs[1..] + ([v] + more);
      assert vs + ([v] + more) == [vs[0]] + rest;
      JoinAround(vs[1..], v, more);
      DefaultTextsCons(vs[0], rest);
      RegroupPrefix(DefaultText(vs[0]), PrefixText(vs[1..]), DefaultText(v) + TailText(more));
    }
  }

  lemma RegroupPrefix(a: string, b: string, c: string)
    ensures a + ("," + (b + c)) == (a + "," + b) + c
  {
  }

  lemma {:induction false} StripRightOver(p: string, x: string)
    requires x != "" && !IsSpace(x[0])
    ensures StripRight(p + x) == p + StripRight(x)
    ensures StripRight(x) != ""
    decreases |x|
  {
    var m := |x| - 1;
    assert (p + x)[|p + x| - 1] == x[m];
    if IsSpace(x[m]) {
      assert (p + x)[..|p + x| - 1] == p + x[..m];
      StripRightOver(p, x[..m]);
    }
  }

  lemma QuotedTokenIsString(w: string)
    requires w != "" && (w[0] == '\'' || w[0] == '"')
    ensures Literal(w) == StrV(w)
  {
    assert Unsigned(w) == w;
    assert !IsNumberChar(w[0]);
    if IsFloatSpelling(w) {
      FloatSpellingChars(w);
    }
    if NamedDefault(w).Some? {
      NamedHead(w);
    }
  }

  lemma NamedHead(w: string)
    requires NamedDefault(w).Some?
    ensures w != "" && w[0] != '\'' && w[0] != '"'
  {
  }

  lemma ListLenHead(x: string)
    requires x != "" && x[0] != '[' && x[0] != ']'
    ensures ListLen(x, 1) >= 1
  {
  }

  lemma TakeOver(p: string, x: string, m: nat)
    requires m <= |x|
    ensures (p + x)[..|p| + m] == p + x[..m]
  {
  }

  /** What is cut out between the brackets: the scalars, then the start of the quoted text. */
  lemma CutList(p: string, x: string) returns (y: string)
    requires Plain(p) && x != "" && x[0] != '[' && x[0] != ']'
    ensures y != "" && y <= x
    ensures ParseList("[" + (p + x)).value == ListV(ListItems(p + y))
  {
    ListLenHead(x);
    ListLenPlain(p, x, 1);
    y := Take(x, ListLen(x, 1));
    TakeOver(p, x, |y|);
    ListValue(p + x, p + y);
  }

  lemma ListValue(body: string, cut: string)
    requires cut == body[..ListLen(body, 1)]
    ensures ParseList("[" + body).value == ListV(ListItems(cut))
  {
    ParseListCut(body, ListLen(body, 1));
  }

  lemma Take(x: string, m: nat) returns (y: string)
    requires m <= |x|
    ensures |y| == m && y <= x && y == x[..m]
  {
    y := x[..m];
  }

  lemma StripAtQuote(p: string, y: string)
    requires p == "" || !IsSpace(p[0])
    requires y != "" && !IsSpace(y[0])
    ensures Strip(p + y) == p + StripRight(y)
    ensures StripRight(y) != "" && StripRight(y) <= y
  {
    StripRightOver(p, y);
    assert (p + y)[0] == if p == "" then y[0] else p[0];
    SkipFixed(p + y);
  }

  lemma FirstTokenAtQuote(z: string)
    requires z != "" && (z[0] == '\'' || z[0] == '"')
    ensures var token := Strip(SplitComma(z)[0]);
            token != "" && token <= z && Literal(token) == StrV(token)
  {
    var w := SplitComma(z)[0];
    assert w != "" && w[0] == z[0];
    StripAtQuote("", w);
    assert "" + w == w;
    QuotedTokenIsString(Strip(w));
  }

  /** The item read where the quoted text stands is a prefix of it, quote included. */
  lemma ItemAtQuote(vs: seq<Value>, y: string)
    requires AreScalars(vs) && y != "" && (y[0] == '\'' || y[0] == '"')
    ensures var got := ListItems(PrefixText(vs) + y);
            |got| > |vs| && got[|vs|].StrV? && got[|vs|].chars != "" && got[|vs|].chars <= y
  {
    PrefixTextPlain(vs);
    StripAtQuote(PrefixText(vs), y);
    SplitPrefix(vs, StripRight(y));
    FirstTokenAtQuote(StripRight(y));
  }

  lemma FirstString(items: seq<Value>) returns (k: nat)
    requires AreItems(items) && !AreScalars(items)
    ensures k < |items| && items[k].StrV? && AreScalars(items[..k])
    decreases |items|
  {
    if !IsScalar(items[0]) {
      k := 0;
    } else {
      assert items == [items[0]] + items[1..];
      var j := FirstString(items[1..]);
      k := j + 1;
      assert items[..k] == [items[0]] + items[1..][..j];
    }
  }

  /** Whatever follows it, a printed list that holds a string is read as something else:
      the quotes become part of the item, and no text is its own quoted form. */
  lemma StringListNeverReadsBack(items: seq<Value>, r: string)
    requires AreItems(items) && !AreScalars(items)
    ensures var d := ParseDefault(DefaultText(ListV(items)) + r); d.Ok? ==> d.value != ListV(items)
  {
    var k := FirstString(items);
    var vs, s, more := items[..k], items[k].chars, items[k + 1..];
    assert items == vs + ([items[k]] + more);
    JoinAround(vs, items[k], more);
    var p, x := PrefixText(vs), Repr(s) + (TailText(more) + ("]" + r));
    ListTextAround(p, Repr(s), TailText(more), r);
    ItemInCutList(vs, s, x);
  }

  /** The item read where the printed string `s` starts is not `s`. */
  lemma ItemInCutList(vs: seq<Value>, s: string, x: string)
    requires AreScalars(vs) && Repr(s) <= x
    ensures var got := ParseList("[" + (PrefixText(vs) + x)).value;
            got.ListV? && (|got.items| > |vs| ==> got.items[|vs|] != StrV(s))
  {
    var p := PrefixText(vs);
    PrefixTextPlain(vs);
    assert x[0] == QuoteFor(s);
    var y := CutList(p, x);
    assert y[0] == x[0];
    ItemAtQuote(vs, y);
    if s != "" {
      PrefixOfRepr(s, x);
    }
  }

  lemma ListTextAround(p: string, w: string, q: string, r: string)
    requires w != ""
    ensures var j := p + (w + q); var x := w + (q + ("]" + r));
            ParseDefault(("[" + j + "]") + r) == ParseList("[" + (p + x))
  {
    var j, x := p + (w + q), w + (q + ("]" + r));
    Bracketed(j, r);
    Associate(p, w + q, "]" + r);
    Associate(w, q, "]" + r);
  }

  lemma PrefixOfRepr(s: string, x: string)
    requires s != "" && Repr(s) <= x
    ensures !(s <= x)
  {
    EscapedLonger(s, QuoteFor(s));
    assert s <= x ==> s <= Repr(s);
    ReprIsNoExtension(s);
  }
}
