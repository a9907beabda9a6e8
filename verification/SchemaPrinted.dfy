/**
 Reading back what the printer wrote, piece by piece: tokens, alias annotations,
 types, default values.
 */
module SchemaPrinted {
  import opened Text
  import opened SchemaModel
  import opened SchemaGrammar

  // ----- tokens -----

  /** The text starts with `c`, spaces aside. */
  predicate Heads(s: string, c: char) {
    Skip(s) != "" && Skip(s)[0] == c
  }

  lemma AcceptToken(tok: string, r: string)
    requires tok != "" && !IsSpace(tok[0])
    ensures Accept(tok + r, tok) == Some(r)
    ensures Expect(tok + r, tok) == Ok((), r)
  {
    SkipFixed(tok + r);
    assert (tok + r)[|tok|..] == r;
  }

  lemma AcceptMiss(s: string, tok: string)
    requires tok != "" && !Heads(s, tok[0])
    ensures Accept(s, tok) == None
  {
  }

  lemma HeadOf(c: char, r: string)
    requires !IsSpace(c)
    ensures forall d :: Heads([c] + r, d) <==> d == c
  {
    SkipFixed([c] + r);
  }

  lemma SkipTwice(s: string)
    ensures Skip(Skip(s)) == Skip(s)
  {
    SkipFixed(Skip(s));
  }

  /** No reader looks at leading spaces. */
  lemma SpacesIgnored(s: string, tok: string)
    ensures Accept(Skip(s), tok) == Accept(s, tok)
    ensures ReadIdent(Skip(s)) == ReadIdent(s)
  {
    SkipTwice(s);
  }

  predicate EndsIdent(r: string) {
    r == "" || !IsIdentChar(r[0])
  }

  lemma ReadIdentPrinted(w: string, r: string)
    requires IsIdent(w) && EndsIdent(r)
    ensures ReadIdent(w + r) == Ok(w, r)
    ensures ReadIdent(" " + (w + r)) == Ok(w, r)
  {
    assert !IsSpace(w[0]) by { assert IsIdentChar(w[0]); }
    SkipFixed(w + r);
    SkipOneSpace(w + r);
    SpanLenOfPrefix(IsIdentChar, w, r);
  }

  // ----- alias annotations -----

  predicate AreAliasNames(names: seq<string>) {
    forall i :: 0 <= i < |names| ==> IsAliasName(names[i])
  }

  function PushNames(p: AliasParts, names: seq<string>): (r: AliasParts) {
    if p.inAfter then p.(after := p.after + names) else p.(before := p.before + names)
  }

  lemma AliasNamePrinted(w: string, r: string)
    requires IsAliasName(w) && EndsIdent(r)
    ensures AliasName(w + r) == Ok(w, r)
    ensures AliasName(" " + (w + r)) == Ok(w, r)
  {
    SkipOneSpace(w + r);
    if w == "*" {
      AcceptToken("*", r);
    } else {
      assert IsIdentChar(w[0]);
      assert w + r == [w[0]] + (w[1..] + r);
      HeadOf(w[0], w[1..] + r);
      AcceptMiss(w + r, "*");
      ReadIdentPrinted(w, r);
    }
  }

  lemma AliasLoopStep(s: string, p: AliasParts, w: string, r: string)
    requires AliasName(s) == Ok(w, r)
    ensures AliasLoop(s, p) == AliasNext(r, PushName(p, w))
  {
  }

  lemma AliasBar(r: string, p: AliasParts)
    ensures AliasNext("|" + r, p) == AliasLoop(r, p)
  {
    AcceptToken("|", r);
  }

  lemma PushNamesStep(p: AliasParts, names: seq<string>)
    requires names != []
    ensures PushNames(PushName(p, names[0]), names[1..]) == PushNames(p, names)
    ensures |names| == 1 ==> PushName(p, names[0]) == PushNames(p, names)
  {
    assert [names[0]] + names[1..] == names;
    assert p.before + [names[0]] + names[1..] == p.before + names;
    assert p.after + [names[0]] + names[1..] == p.after + names;
  }

  lemma JoinStep(sep: string, parts: seq<string>, r: string)
    requires parts != []
    ensures |parts| == 1 ==> Join(sep, parts) + r == parts[0] + r
    ensures |parts| > 1 ==> Join(sep, parts) + r == parts[0] + (sep + (Join(sep, parts[1..]) + r))
  {
    if |parts| > 1 {
      var a, b := parts[0], Join(sep, parts[1..]);
      assert ((a + sep) + b) + r == a + (sep + (b + r));
    }
  }

  /** A printed set of names is read name by name, then what follows it decides. */
  lemma {:induction false} AliasLoopPrinted(names: seq<string>, r: string, p: AliasParts)
    requires names != [] && AreAliasNames(names) && EndsIdent(r)
    ensures AliasLoop(Join("|", names) + r, p) == AliasNext(r, PushNames(p, names))
    decreases |names|
  {
    var w, s := names[0], Join("|", names) + r;
    JoinStep("|", names, r);
    PushNamesStep(p, names);
    if |names| == 1 {
      AliasNamePrinted(w, r);
      AliasLoopStep(s, p, w, r);
    } else {
      var more := Join("|", names[1..]) + r;
      AliasNamePrinted(w, "|" + more);
      AliasLoopStep(s, p, w, "|" + more);
      AliasBar(more, PushName(p, w));
      AliasLoopPrinted(names[1..], r, PushName(p, w));
    }
  }

  lemma AliasLoopSpace(s: string, p: AliasParts)
    ensures AliasLoop(" " + s, p) == AliasLoop(s, p)
  {
    SkipOneSpace(s);
    assert AliasName(" " + s) == AliasName(s);
  }

  predicate IsAliasNameSet(s: set<string>) {
    s != {} && forall x :: x in s ==> IsAliasName(x)
  }

  predicate WellFormedAlias(a: AliasInfo) {
    IsAliasNameSet(a.before) && IsAliasNameSet(a.after)
  }

  lemma SortedAliasNames(s: set<string>)
    requires IsAliasNameSet(s)
    ensures SortedNames(s) != [] && AreAliasNames(SortedNames(s))
    ensures NameSet(SortedNames(s)) == s
  {
    var x :| x in s;
    assert x in SortedNames(s);
    assert forall y :: y in SortedNames(s) <==> y in s;
  }

  /** `!` if written, then the closing parenthesis. */
  function AliasTail(isWrite: bool, r: string): string {
    (if isWrite then "!" else "") + (")" + r)
  }

  lemma AliasEndPrinted(p: AliasParts, isWrite: bool, r: string)
    ensures AliasNext(AliasTail(isWrite, r), p) == Ok(p, AliasTail(isWrite, r))
    ensures EndsIdent(AliasTail(isWrite, r))
    ensures ParseAliasEnd(AliasTail(isWrite, r), p) == Ok(AliasOf(p, isWrite), r)
  {
    var s := AliasTail(isWrite, r);
    AcceptToken(")", r);
    if isWrite {
      AcceptToken("!", ")" + r);
      HeadOf('!', ")" + r);
    } else {
      assert s == ")" + r;
      HeadOf(')', r);
      AcceptMiss(s, "!");
    }
    SkipFixed(s);
    AcceptMiss(s, "|");
    AcceptMiss(s, "->");
  }

  function SecondSetText(a: AliasInfo, tail: string): string {
    if a.after != {} && a.after != a.before
    then " ->" + (" " + (NamesText(a.after) + tail)) else tail
  }

  lemma AliasTextParts(a: AliasInfo, r: string)
    ensures AliasText(a) + r == "(" + (NamesText(a.before) + SecondSetText(a, AliasTail(a.isWrite, r)))
  {
    var b, c := NamesText(a.before), NamesText(a.after);
    var bang := if a.isWrite then "!" else "";
    var mid := if a.after != {} && a.after != a.before then " -> " + c else "";
    AliasRegroup(b, mid, bang, r);
    ArrowRegroup(c, AliasTail(a.isWrite, r));
    assert "" + AliasTail(a.isWrite, r) == AliasTail(a.isWrite, r);
  }

  lemma AliasRegroup(b: string, mid: string, bang: string, r: string)
    ensures ("(" + b + mid + bang + ")") + r == "(" + (b + (mid + (bang + (")" + r))))
  {
  }

  lemma ArrowRegroup(c: string, tail: string)
    ensures (" -> " + c) + tail == " ->" + (" " + (c + tail))
  {
  }

  lemma PushedFirst(names: seq<string>)
    ensures PushNames(AliasParts([], [], false), names) == AliasParts(names, [], false)
  {
  }

  lemma OneSetRead(bs: seq<string>, isWrite: bool, r: string)
    requires bs != [] && AreAliasNames(bs)
    ensures ParseAlias(Join("|", bs) + AliasTail(isWrite, r)) == Ok(AliasOf(AliasParts(bs, [], false), isWrite), r)
  {
    AliasEndPrinted(AliasParts(bs, [], false), isWrite, r);
    AliasLoopPrinted(bs, AliasTail(isWrite, r), AliasParts([], [], false));
    PushedFirst(bs);
  }

  lemma TwoSetsRead(bs: seq<string>, cs: seq<string>, isWrite: bool, r: string)
    requires bs != [] && AreAliasNames(bs) && cs != [] && AreAliasNames(cs)
    ensures ParseAlias(Join("|", bs) + (" ->" + (" " + (Join("|", cs) + AliasTail(isWrite, r)))))
         == Ok(AliasOf(AliasParts(bs, cs, true), isWrite), r)
  {
    var p := AliasParts([], [], false);
    var tail := AliasTail(isWrite, r);
    var second := Join("|", cs) + tail;
    AliasLoopPrinted(bs, " ->" + (" " + second), p);
    assert PushNames(p, bs) == AliasParts(bs, [], false);
    SecondSetPrinted(AliasParts(bs, [], false), " " + second);
    AliasLoopSpace(second, AliasParts(bs, [], true));
    AliasEndPrinted(AliasParts(bs, cs, true), isWrite, r);
    AliasLoopPrinted(cs, tail, AliasParts(bs, [], true));
    assert PushNames(AliasParts(bs, [], true), cs) == AliasParts(bs, cs, true);
  }

  lemma ParseAliasPrinted(a: AliasInfo, r: string)
    requires WellFormedAlias(a)
    ensures ParseAlias(NamesText(a.before) + SecondSetText(a, AliasTail(a.isWrite, r))) == Ok(a, r)
  {
    SortedAliasNames(a.before);
    SortedAliasNames(a.after);
    if a.after == a.before {
      OneSetRead(SortedNames(a.before), a.isWrite, r);
    } else {
      TwoSetsRead(SortedNames(a.before), SortedNames(a.after), a.isWrite, r);
    }
  }

  lemma SecondSetPrinted(p: AliasParts, second: string)
    ensures AliasNext(" ->" + second, p) == AliasLoop(second, p.(inAfter := true))
  {
    var s := "->" + second;
    assert " ->" + second == " " + s;
    SkipOneSpace(s);
    assert s == ['-'] + (">" + second);
    HeadOf('-', ">" + second);
    AcceptMiss(" " + s, "|");
    AcceptToken("->", second);
  }

  // ----- types -----

  /** What may follow a printed type: nothing the type reader would take for its own. */
  predicate EndsType(r: string) {
    EndsIdent(r) && !Heads(r, '(') && !Heads(r, '?') && !Heads(r, '[')
  }

  lemma TypeSuffixEnd(r: string, t: SchemaType, size: Option<nat>)
    requires EndsType(r)
    ensures TypeSuffix(r, t, size) == Ok((t, size), Skip(r))
  {
    AcceptMiss(r, "?");
    AcceptMiss(r, "[");
  }

  lemma TypeSuffixSkips(s: string, t: SchemaType, size: Option<nat>)
    ensures TypeSuffix(Skip(s), t, size) == TypeSuffix(s, t, size)
  {
    SpacesIgnored(s, "?");
    SpacesIgnored(s, "[");
    SkipTwice(s);
  }

  lemma ParseSizePrinted(n: Option<nat>, r: string)
    ensures ParseSize(SizeText(n) + ("]" + r)) == Ok(n, r)
  {
    var w := SizeText(n);
    SpanLenOfPrefix(IsDigit, w, "]" + r);
    assert w != "" ==> IsDigit(w[0]);
    SkipFixed(w + ("]" + r));
    AcceptToken("]", r);
    if n.Some? {
      NatRoundTrip(n.value);
    }
  }

  lemma {:induction false} TypeSuffixPrinted(t: SchemaType, r: string)
    ensures TypeSuffix(SuffixText(t) + r, BaseType(BaseOf(t)), None) == TypeSuffix(r, t, OutermostSize(t))
    decreases t
  {
    match t
    case BaseType(_) =>
      assert SuffixText(t) + r == r;
    case OptionalType(e) =>
      SuffixStep(t, r);
      TypeSuffixPrinted(e, "?" + r);
      AcceptToken("?", r);
    case ListType(e, n) =>
      SuffixStep(t, r);
      var inner := SizeText(n) + ("]" + r);
      assert WrapperText(t) + r == "[" + inner;
      TypeSuffixPrinted(e, "[" + inner);
      HeadOf('[', inner);
      AcceptMiss("[" + inner, "?");
      AcceptToken("[", inner);
      ParseSizePrinted(n, r);
  }

  lemma SuffixThenEnd(t: SchemaType, r: string)
    requires EndsType(r)
    ensures EndsIdent(SuffixText(t) + r) && !Heads(SuffixText(t) + r, '(')
    decreases t
  {
    match t
    case BaseType(_) =>
      assert SuffixText(t) + r == r;
    case OptionalType(e) =>
      SuffixHead(t, r);
    case ListType(e, n) =>
      SuffixHead(t, r);
  }

  predicate IsWrapperHead(s: string) {
    s != "" && (s[0] == '?' || s[0] == '[')
  }

  lemma {:induction false} SuffixTextHead(t: SchemaType)
    requires !t.BaseType?
    ensures IsWrapperHead(SuffixText(t))
  {
    var w := WrapperText(t);
    assert IsWrapperHead(w);
    if t.element.BaseType? {
      assert "" + w == w;
    } else {
      SuffixTextHead(t.element);
    }
  }

  lemma SuffixHead(t: SchemaType, r: string)
    requires !t.BaseType?
    ensures EndsIdent(SuffixText(t) + r) && !Heads(SuffixText(t) + r, '(')
  {
    SuffixTextHead(t);
    var s := SuffixText(t) + r;
    assert IsWrapperHead(s);
    SkipFixed(s);
  }

  predicate WellFormedAnnotation(alias: Option<AliasInfo>) {
    alias.Some? ==> WellFormedAlias(alias.value)
  }

  lemma AnnotationPrinted(alias: Option<AliasInfo>, s: string)
    requires WellFormedAnnotation(alias) && EndsIdent(s) && !Heads(s, '(')
    ensures EndsIdent(AnnotationText(alias) + s)
    ensures ParseAnnotation(AnnotationText(alias) + s) == Ok(alias, if alias.Some? then s else Skip(s))
  {
    if alias.None? {
      assert AnnotationText(alias) + s == s;
      AcceptMiss(s, "(");
    } else {
      var x := NamesText(alias.value.before) + SecondSetText(alias.value, AliasTail(alias.value.isWrite, s));
      AliasTextParts(alias.value, s);
      ParseAliasPrinted(alias.value, s);
      AcceptToken("(", x);
    }
  }

  function AnnotationText(alias: Option<AliasInfo>): string {
    if alias.None? then "" else AliasText(alias.value)
  }

  lemma TypeTextParts(t: SchemaType, alias: Option<AliasInfo>, r: string)
    ensures TypeText(t, alias) + r == BaseName(BaseOf(t)) + (AnnotationText(alias) + (SuffixText(t) + r))
  {
    var b, s := BaseName(BaseOf(t)), SuffixText(t);
    if alias.None? {
      TypeNameParts(t);
      Associate(b, s, r);
      assert "" + (s + r) == s + r;
    } else {
      Associate(b + AliasText(alias.value), s, r);
      Associate(b, AliasText(alias.value), s + r);
    }
  }

  lemma ParseTypeStep(s: string, b: Base, s1: string, alias: Option<AliasInfo>, s2: string)
    requires ReadIdent(s) == Ok(BaseName(b), s1)
    requires ParseAnnotation(s1) == Ok(alias, s2)
    ensures var r := TypeSuffix(s2, BaseType(b), None);
            r.Ok? ==> ParseType(s) == Ok(Typed(r.value.0, alias, r.value.1), r.rest)
  {
    LookupBaseName(b);
  }

  lemma ParseTypePrinted(t: SchemaType, alias: Option<AliasInfo>, r: string)
    requires WellFormedAnnotation(alias) && EndsType(r)
    ensures ParseType(TypeText(t, alias) + r) == Ok(Typed(t, alias, OutermostSize(t)), Skip(r))
  {
    var b, s := BaseOf(t), SuffixText(t) + r;
    TypeTextParts(t, alias, r);
    SuffixThenEnd(t, r);
    AnnotationPrinted(alias, s);
    ReadIdentPrinted(BaseName(b), AnnotationText(alias) + s);
    ParseTypeStep(TypeText(t, alias) + r, b, AnnotationText(alias) + s, alias, if alias.Some? then s else Skip(s));
    TypeSuffixSkips(s, BaseType(b), None);
    TypeSuffixPrinted(t, r);
    TypeSuffixEnd(r, t, OutermostSize(t));
  }

  // ----- string defaults -----

  lemma HexRoundTrip(d: nat)
    requires d < 16
    ensures IsHex(HexDigit(d)) && HexValue(HexDigit(d)) == d
  {
  }

  /** `e` before `r` reads as the character `c`, and hides no closing quote. */
  predicate ReadsAs(e: string, c: char, q: char, r: string) {
    && Unescape(e + r) == Prepend([c], Unescape(r))
    && QuoteLen(e + r, q) == |e| + QuoteLen(r, q)
  }

  lemma PlainCharRead(c: char, q: char, r: string)
    requires c != '\\' && c != q && c != '\n' && c != '\r' && c as int != 0
    ensures ReadsAs([c], c, q, r)
  {
    assert ([c] + r)[1..] == r;
  }

  lemma EscapePairRead(e: char, q: char, r: string)
    requires SimpleEscape(e).Some?
    ensures ReadsAs(['\\', e], SimpleEscape(e).value, q, r)
  {
    var s := ['\\', e] + r;
    assert s[0] == '\\' && s[1] == e && s[2..] == r;
  }

  lemma EscapeHexRead(n: nat, q: char, r: string)
    requires n < 128 && (q == '\'' || q == '"')
    ensures ReadsAs(['\\', 'x', HexDigit(n / 16), HexDigit(n % 16)], n as char, q, r)
  {
    var a, b := HexDigit(n / 16), HexDigit(n % 16);
    HexRoundTrip(n / 16);
    HexRoundTrip(n % 16);
    assert HexValue(a) * 16 + HexValue(b) == n;
    HexUnescape(a, b, n, r);
    HexQuoteLen(a, b, q, r);
  }

  lemma HexUnescape(a: char, b: char, n: nat, r: string)
    requires IsHex(a) && IsHex(b) && n < 256 && HexValue(a) * 16 + HexValue(b) == n
    ensures Unescape(['\\', 'x', a, b] + r) == Prepend([n as char], Unescape(r))
  {
    var s := ['\\', 'x', a, b] + r;
    assert s[4..] == r;
  }

  lemma QuoteLenPlain(c: char, q: char, r: string)
    requires c != '\\' && c != q
    ensures QuoteLen([c] + r, q) == 1 + QuoteLen(r, q)
  {
    assert ([c] + r)[1..] == r;
  }

  lemma QuoteLenPair(e: char, q: char, r: string)
    ensures QuoteLen(['\\', e] + r, q) == 2 + QuoteLen(r, q)
  {
    assert (['\\', e] + r)[2..] == r;
  }

  lemma HexQuoteLen(a: char, b: char, q: char, r: string)
    requires IsHex(a) && IsHex(b) && (q == '\'' || q == '"')
    ensures QuoteLen(['\\', 'x', a, b] + r, q) == 4 + QuoteLen(r, q)
  {
    QuoteLenPair('x', q, [a] + ([b] + r));
    QuoteLenPlain(a, q, [b] + r);
    QuoteLenPlain(b, q, r);
    assert ['\\', 'x', a, b] + r == ['\\', 'x'] + ([a] + ([b] + r));
  }

  lemma EscapeCharRead(c: char, q: char, r: string)
    requires q == '\'' || q == '"'
    ensures ReadsAs(EscapeChar(c, q), c, q, r)
  {
    if c == '\\' || c == q {
      EscapePairRead(c, q, r);
    } else if c == '\n' {
      EscapePairRead('n', q, r);
    } else if c == '\r' {
      EscapePairRead('r', q, r);
    } else if c == '\t' {
      EscapePairRead('t', q, r);
    } else if IsControl(c) {
      EscapeHexRead(c as int, q, r);
    } else {
      PlainCharRead(c, q, r);
    }
  }

  lemma {:induction false} EscapedRead(s: string, q: char)
    requires q == '\'' || q == '"'
    ensures Unescape(Escaped(s, q)) == Chars(s)
    decreases |s|
  {
    if s != "" {
      EscapedRead(s[1..], q);
      EscapeCharRead(s[0], q, Escaped(s[1..], q));
      assert [s[0]] + s[1..] == s;
    }
  }

  lemma {:induction false} EscapedQuoteLen(s: string, q: char, r: string)
    requires q == '\'' || q == '"'
    ensures QuoteLen(Escaped(s, q) + ([q] + r), q) == |Escaped(s, q)|
    decreases |s|
  {
    if s == "" {
      assert Escaped(s, q) + ([q] + r) == [q] + r;
    } else {
      var e, more := EscapeChar(s[0], q), Escaped(s[1..], q);
      EscapedQuoteLen(s[1..], q, r);
      EscapeCharRead(s[0], q, more + ([q] + r));
      assert (e + more) + ([q] + r) == e + (more + ([q] + r));
    }
  }

  /** A quoted text is cut at its closing quote. */
  lemma ParseQuotedStep(q: char, e: string, r: string)
    requires QuoteLen(e + ([q] + r), q) == |e|
    requires Unescape(e).Chars?
    ensures ParseQuoted([q] + (e + ([q] + r))) == Ok(StrV(Unescape(e).chars), r)
  {
    var t := [q] + (e + ([q] + r));
    assert t[1..] == e + ([q] + r);
    assert t[1..|e| + 1] == e;
    assert t[|e| + 2..] == r;
  }

  /** `literal_eval(repr(s)) == s`, with the closing quote found where it was written. */
  lemma ReprRead(s: string, r: string)
    ensures ParseDefault(Repr(s) + r) == Ok(StrV(s), r)
  {
    var q := QuoteFor(s);
    var e := Escaped(s, q);
    EscapedRead(s, q);
    EscapedQuoteLen(s, q, r);
    ParseQuotedStep(q, e, r);
    assert Repr(s) + r == [q] + (e + ([q] + r));
    SkipFixed([q] + (e + ([q] + r)));
  }

  // ----- scalar and list defaults -----

  predicate IsFloatToken(w: string) {
    IsFloatSpelling(w) && IntValue(w).None?
  }

  /** A default other than a string or a list that a printed token spells. */
  predicate IsScalar(v: Value) {
    v.NoneV? || v.BoolV? || v.IntV? || (v.FloatV? && IsFloatToken(v.spelling))
  }

  lemma NamedShape(w: string)
    requires NamedDefault(w).Some?
    ensures |w| >= 4 && LowerChar(w[0]) != 'i' && !IsNumberHead(w[0])
  {
  }

  predicate IsNumberHead(c: char) {
    IsDigit(c) || c == '.' || c == '+' || c == '-'
  }

  lemma FloatNumberHead(u: string)
    requires IsFloatNumber(u)
    ensures u != "" && (IsDigit(u[0]) || u[0] == '.')
  {
    FloatNumberChars(u);
    var k := SpanLen(NotExponent, u);
    assert u[..|u|] == u;
    MantissaHead(u[..k]);
  }

  lemma MantissaHead(m: string)
    requires IsMantissa(m)
    ensures m != "" && (IsDigit(m[0]) || m[0] == '.')
  {
    var k := SpanLen(NotPoint, m);
    assert 0 < k < |m| ==> m[..k][0] == m[0];
  }

  /** Numbers are not among the named constants, so the order of the tests is immaterial. */
  lemma NumbersAreNotNamed(w: string)
    requires IsFloatSpelling(w) || IntValue(w).Some?
    ensures NamedDefault(w).None?
  {
    if NamedDefault(w).Some? {
      NamedShape(w);
      assert Unsigned(w) == w;
      assert Lower(w)[0] == LowerChar(w[0]);
      if IsFloatNumber(w) {
        FloatNumberHead(w);
      }
      assert false;
    }
  }

  lemma ScalarText(v: Value)
    requires IsScalar(v)
    ensures Literal(DefaultText(v)) == v
    ensures DefaultText(v) != "" && AllNumberChars(DefaultText(v))
  {
    match v
    case NoneV =>
    case BoolV(_) =>
    case IntV(n) =>
      var w := DefaultText(v);
      IntValueOfIntText(n);
      NumbersAreNotNamed(w);
    case FloatV(w) =>
      FloatSpellingChars(w);
      NumbersAreNotNamed(w);
  }

  /** A bare token ends at the first comma or closing parenthesis. */
  predicate EndsDefault(r: string) {
    r != "" && (r[0] == ',' || r[0] == ')')
  }

  lemma NumberCharsPlain(w: string)
    requires w != "" && AllNumberChars(w)
    ensures forall i :: 0 <= i < |w| ==> NotCloser(w[i]) && w[i] != '[' && w[i] != ']' && !IsSpace(w[i])
    ensures w[0] != '"' && w[0] != '\''
    ensures Strip(w) == w
  {
    assert forall i :: 0 <= i < |w| ==> IsNumberChar(w[i]);
    StripFixed(w);
  }

  lemma ScalarRead(v: Value, r: string)
    requires IsScalar(v) && EndsDefault(r)
    ensures ParseDefault(DefaultText(v) + r) == Ok(v, r)
  {
    var w := DefaultText(v);
    ScalarText(v);
    NumberCharsPlain(w);
    SkipFixed(w + r);
    SpanLenOfPrefix(NotCloser, w, r);
  }

  predicate AreScalars(vs: seq<Value>) {
    forall i :: 0 <= i < |vs| ==> IsScalar(vs[i])
  }

  predicate Plain(s: string) {
    forall i :: 0 <= i < |s| ==> s[i] != '[' && s[i] != ']'
  }

  lemma {:induction false} ListLenPlain(w: string, r: string, depth: int)
    requires Plain(w)
    ensures ListLen(w + r, depth) == |w| + ListLen(r, depth)
    decreases |w|
  {
    if w == "" {
      assert w + r == r;
    } else {
      assert w == [w[0]] + w[1..];
      assert (w + r)[1..] == w[1..] + r;
      ListLenPlain(w[1..], r, depth);
    }
  }

  predicate SolidEnds(s: string) {
    s != "" && !IsSpace(s[0]) && !IsSpace(s[|s| - 1])
  }

  lemma ScalarTextPlain(v: Value)
    requires IsScalar(v)
    ensures Plain(DefaultText(v)) && SolidEnds(DefaultText(v))
  {
    ScalarText(v);
    NumberCharsPlain(DefaultText(v));
  }

  lemma PlainJoinStep(a: string, b: string)
    requires Plain(a) && Plain(b) && SolidEnds(a) && SolidEnds(b)
    ensures Plain(a + "," + b) && SolidEnds(a + "," + b)
  {
  }

  lemma {:induction false} ScalarTextsPlain(vs: seq<Value>)
    requires vs != [] && AreScalars(vs)
    ensures Plain(Join(",", DefaultTexts(vs)))
    ensures SolidEnds(Join(",", DefaultTexts(vs)))
    decreases |vs|
  {
    ScalarTextPlain(vs[0]);
    if |vs| > 1 {
      ScalarTextsPlain(vs[1..]);
      assert DefaultTexts(vs)[1..] == DefaultTexts(vs[1..]);
      PlainJoinStep(DefaultText(vs[0]), Join(",", DefaultTexts(vs[1..])));
    }
  }

  lemma ScalarListItems(vs: seq<Value>)
    requires AreScalars(vs)
    ensures ListItems(Join(",", DefaultTexts(vs))) == vs
  {
    var texts := DefaultTexts(vs);
    if vs != [] {
      ScalarTextsPlain(vs);
      StripFixed(Join(",", texts));
      forall i | 0 <= i < |vs|
        ensures Literal(Strip(texts[i])) == vs[i]
        ensures forall k :: 0 <= k < |texts[i]| ==> texts[i][k] != ','
      {
        ScalarText(vs[i]);
        NumberCharsPlain(texts[i]);
      }
      SplitJoin(texts);
    }
  }

  /** A bracketed text is cut where its opening bracket is closed. */
  lemma ParseListCut(body: string, n: nat)
    requires ListLen(body, 1) == n
    ensures ParseList("[" + body) == Ok(ListV(ListItems(body[..n])), From(body, n + 1))
  {
    var t := "[" + body;
    assert t[1..] == body;
    assert ListLen(t, 0) == 1 + n;
    assert t[1..1 + n] == body[..n];
    assert n < |body| ==> t[n + 2..] == body[n + 1..];
  }

  lemma ClosingBracket(r: string)
    ensures ListLen("]" + r, 1) == 0
  {
  }

  lemma ParseListStep(j: string, r: string)
    requires Plain(j)
    ensures ParseList("[" + (j + ("]" + r))) == Ok(ListV(ListItems(j)), r)
  {
    var body := j + ("]" + r);
    ListLenPlain(j, "]" + r, 1);
    ClosingBracket(r);
    ParseListCut(body, |j|);
    assert body[..|j|] == j && body[|j| + 1..] == r;
  }

  lemma PlainItems(vs: seq<Value>)
    requires AreScalars(vs)
    ensures Plain(Join(",", DefaultTexts(vs)))
  {
    if vs != [] { ScalarTextsPlain(vs); }
  }

  lemma ScalarListRead(vs: seq<Value>, r: string)
    requires AreScalars(vs)
    ensures ParseDefault(DefaultText(ListV(vs)) + r) == Ok(ListV(vs), r)
  {
    PlainItems(vs);
    ScalarListItems(vs);
    BracketedRead(Join(",", DefaultTexts(vs)), r);
  }

  lemma BracketedRead(j: string, r: string)
    requires Plain(j)
    ensures ParseDefault(("[" + j + "]") + r) == Ok(ListV(ListItems(j)), r)
  {
    ParseListStep(j, r);
    Bracketed(j, r);
  }

  lemma Bracketed(j: string, r: string)
    ensures ("[" + j + "]") + r == "[" + (j + ("]" + r))
    ensures ParseDefault(("[" + j + "]") + r) == ParseList("[" + (j + ("]" + r)))
  {
    Associate("[", j, "]");
    Associate("[", j + "]", r);
    Associate(j, "]", r);
    SkipFixed("[" + (j + ("]" + r)));
  }
}
