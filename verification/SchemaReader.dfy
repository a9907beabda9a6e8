/**
 The cursor-based schema reader: a lexer object whose position the parsing routines
 advance, proved to compute what `SchemaGrammar` says of the text after the cursor.
 */
module SchemaReader {
  import opened Text
  import opened SchemaModel
  import G = SchemaGrammar
  import P = SchemaPrinted

  /** A returned value or a raised exception. */
  datatype Outcome<+T> = Done(value: T) | Raised(error: G.Failure)
  {
    predicate IsFailure() { Raised? }

    function PropagateFailure<U>(): Outcome<U>
      requires Raised?
    {
      Raised(error)
    }

    function Extract(): T
      requires Done?
    {
      value
    }
  }

  /** The outcome and the text left agree with what the grammar says. */
  predicate Agrees<T(==)>(o: Outcome<T>, p: G.Parsed<T>, rest: string) {
    match o
    case Done(v) => p == G.Ok(v, rest)
    case Raised(e) => p == G.Err(e)
  }

  class Lexer {
    const text: string
    var pos: nat

    /** The text after the cursor; the cursor may stand past the end. */
    ghost function Rest(): (r: string)
      reads this
    {
      if pos <= |text| then text[pos..] else ""
    }

    predicate InText()
      reads this
    {
      pos <= |text|
    }

    constructor (text: string)
      ensures this.text == text && pos == 0 && Rest() == text
    {
      this.text := text;
      this.pos := 0;
      new;
      assert text[0..] == text;
    }

    method SkipSpaces()
      modifies this
      ensures Rest() == Skip(old(Rest()))
      ensures old(InText()) ==> InText()
    {
      while pos < |text| && IsSpace(text[pos])
        invariant Skip(Rest()) == Skip(old(Rest()))
        invariant old(InText()) ==> InText()
        decreases |text| - pos
      {
        assert Rest()[0] == text[pos] && Rest()[1..] == text[pos + 1..];
        pos := pos + 1;
      }
      assert pos < |text| ==> Rest()[0] == text[pos];
    }

    method Peek(token: string) returns (found: bool)
      requires token != ""
      modifies this
      ensures found <==> G.Accept(old(Rest()), token).Some?
      ensures Rest() == Skip(old(Rest()))
      ensures found ==> pos + |token| <= |text| && text[pos + |token|..] == G.Accept(old(Rest()), token).value
      ensures old(InText()) ==> InText()
    {
      SkipSpaces();
      found := pos <= |text| && token <= text[pos..];
      assert found ==> text[pos..][|token|..] == text[pos + |token|..];
    }

    method Accept(token: string) returns (found: bool)
      requires token != ""
      modifies this
      ensures found <==> G.Accept(old(Rest()), token).Some?
      ensures Rest() == if found then G.Accept(old(Rest()), token).value else Skip(old(Rest()))
      ensures old(InText()) || found ==> InText()
    {
      found := Peek(token);
      if found {
        pos := pos + |token|;
      }
    }

    method Expect(token: string) returns (o: Outcome<()>)
      requires token != ""
      modifies this
      ensures Agrees(o, G.Expect(old(Rest()), token), Rest())
      ensures old(InText()) || o.Done? ==> InText()
    {
      var found := Accept(token);
      o := if found then Done(()) else Raised(G.SchemaParseError);
    }

    /** Advance over the longest run of characters satisfying `p`. */
    method Span(p: char -> bool) returns (start: nat)
      modifies this
      ensures start == old(pos) <= pos
      ensures old(InText()) ==> InText()
      ensures pos == start + SpanLen(p, old(Rest()))
      ensures Rest() == old(Rest())[SpanLen(p, old(Rest()))..]
      ensures pos > start ==> InText() && text[start..pos] == old(Rest())[..SpanLen(p, old(Rest()))]
    {
      start := pos;
      if pos <= |text| {
        pos := SpanEnd(text, start, p);
        RestSlices(text, start, pos - start);
      }
    }

    method Ident() returns (o: Outcome<string>)
      modifies this
      ensures Agrees(o, G.ReadIdent(old(Rest())), Rest())
      ensures old(InText()) || o.Done? ==> InText()
    {
      SkipSpaces();
      var start := Span(IsIdentChar);
      if start == pos {
        return Raised(G.SchemaParseError);
      }
      return Done(text[start..pos]);
    }

    method AtEnd() returns (b: bool)
      modifies this
      ensures Rest() == Skip(old(Rest())) && b == (Rest() == "")
      ensures old(InText()) ==> InText()
    {
      SkipSpaces();
      b := pos >= |text|;
    }
  }

  // ----- alias annotations -----

  method ReadAlias(lex: Lexer) returns (o: Outcome<AliasInfo>)
    modifies lex
    ensures Agrees(o, G.ParseAlias(old(lex.Rest())), lex.Rest())
    ensures o.Done? ==> lex.InText()
  {
    ghost var start := lex.Rest();
    var parts := G.AliasParts([], [], false);
    ghost var goal := G.AliasLoop(start, parts);
    var more := true;
    while more
      invariant more ==> G.AliasLoop(lex.Rest(), parts) == goal
      invariant !more ==> goal == G.Ok(parts, lex.Rest())
      decreases more, |lex.Rest()|
    {
      ghost var here := lex.Rest();
      var name :- ReadAliasName(lex);
      parts := G.PushName(parts, name);
      more, parts := ReadAliasSeparator(lex, parts);
    }
    var isWrite := lex.Accept("!");
    P.SkipTwice(lex.Rest());
    var _ :- lex.Expect(")");
    o := Done(G.AliasOf(parts, isWrite));
  }

  method ReadAliasName(lex: Lexer) returns (o: Outcome<string>)
    modifies lex
    ensures Agrees(o, G.AliasName(old(lex.Rest())), lex.Rest())
  {
    ghost var r := lex.Rest();
    var star := lex.Accept("*");
    if star {
      return Done("*");
    }
    P.SpacesIgnored(r, "*");
    o := lex.Ident();
  }

  /** `|` keeps the set, `->` switches to the after-set, anything else ends the names. */
  method ReadAliasSeparator(lex: Lexer, parts: G.AliasParts) returns (more: bool, next: G.AliasParts)
    modifies lex
    ensures more ==> |lex.Rest()| < |old(lex.Rest())|
    ensures G.AliasNext(old(lex.Rest()), parts)
         == if more then G.AliasLoop(lex.Rest(), next) else G.Ok(next, lex.Rest())
  {
    ghost var r := lex.Rest();
    next := parts;
    more := lex.Accept("|");
    if !more {
      P.SpacesIgnored(r, "->");
      P.SkipTwice(r);
      more := lex.Accept("->");
      if more {
        next := parts.(inAfter := true);
      }
    }
  }

  // ----- types -----

  lemma SpanStep(p: char -> bool, text: string, i: nat)
    requires i < |text|
    ensures SpanLen(p, text[i..]) == if p(text[i]) then 1 + SpanLen(p, text[i + 1..]) else 0
  {
    assert text[i..][0] == text[i] && text[i..][1..] == text[i + 1..];
  }

  /** Where the characters of a class end, scanning on from a position. */
  method SpanEnd(text: string, start: nat, p: char -> bool) returns (end: nat)
    requires start <= |text|
    ensures start <= end <= |text| && end == start + SpanLen(p, text[start..])
  {
    end := start;
    while end < |text| && p(text[end])
      invariant start <= end <= |text|
      invariant end + SpanLen(p, text[end..]) == start + SpanLen(p, text[start..])
    {
      SpanStep(p, text, end);
      end := end + 1;
    }
    if end < |text| { SpanStep(p, text, end); }
  }

  /** The slices of a text that continue from a position are those of the rest of it. */
  lemma RestSlices(text: string, start: nat, n: nat)
    requires start + n <= |text|
    ensures text[start..start + n] == text[start..][..n] && text[start + n..] == text[start..][n..]
  {
  }

  function DigitsOf(r: string): (digits: string) {
    r[..SpanLen(IsDigit, r)]
  }

  function AfterDigits(r: string): (rest: string) {
    r[SpanLen(IsDigit, r)..]
  }

  method ReadDigits(lex: Lexer) returns (digits: string)
    modifies lex
    ensures digits == DigitsOf(Skip(old(lex.Rest()))) && lex.Rest() == AfterDigits(Skip(old(lex.Rest())))
  {
    lex.SkipSpaces();
    var start := lex.Span(IsDigit);
    digits := if start < lex.pos then lex.text[start..lex.pos] else "";
  }

  method ReadSize(lex: Lexer) returns (o: Outcome<Option<nat>>)
    modifies lex
    ensures Agrees(o, G.ParseSize(old(lex.Rest())), lex.Rest())
    ensures o.Done? ==> lex.InText()
  {
    var digits := ReadDigits(lex);
    var _ :- lex.Expect("]");
    o := Done(if digits == "" then None else Some(NatOf(digits)));
  }

  method ReadAnnotation(lex: Lexer) returns (o: Outcome<Option<AliasInfo>>)
    modifies lex
    ensures Agrees(o, G.ParseAnnotation(old(lex.Rest())), lex.Rest())
    ensures old(lex.InText()) && o.Done? ==> lex.InText()
  {
    var open := lex.Accept("(");
    if !open {
      return Done(None);
    }
    var alias :- ReadAlias(lex);
    o := Done(Some(alias));
  }

  /** The suffixes of a type, each wrapping what has been read so far. */
  method ReadTypeSuffix(lex: Lexer, base: SchemaType) returns (o: Outcome<(SchemaType, Option<nat>)>)
    modifies lex
    ensures Agrees(o, G.TypeSuffix(old(lex.Rest()), base, None), lex.Rest())
    ensures old(lex.InText()) && o.Done? ==> lex.InText()
  {
    ghost var goal := G.TypeSuffix(lex.Rest(), base, None);
    var t, size: Option<nat> := base, None;
    while true
      invariant G.TypeSuffix(lex.Rest(), t, size) == goal
      invariant old(lex.InText()) ==> lex.InText()
      decreases |lex.Rest()|
    {
      ghost var r := lex.Rest();
      var optional := lex.Accept("?");
      if optional {
        t := OptionalType(t);
      } else {
        P.SpacesIgnored(r, "[");
        P.SkipTwice(r);
        var list := lex.Accept("[");
        if !list {
          return Done((t, size));
        }
        size :- ReadSize(lex);
        t := ListType(t, size);
      }
    }
  }

  method ReadType(lex: Lexer) returns (o: Outcome<G.Typed>)
    modifies lex
    ensures Agrees(o, G.ParseType(old(lex.Rest())), lex.Rest())
    ensures o.Done? ==> lex.InText()
  {
    var name :- lex.Ident();
    var base := LookupBase(name);
    if base.None? {
      return Raised(G.SchemaParseError);
    }
    var alias :- ReadAnnotation(lex);
    var ts :- ReadTypeSuffix(lex, BaseType(base.value));
    o := Done(G.Typed(ts.0, alias, ts.1));
  }

  // ----- defaults -----

  /** Where a quoted text ends: the first unescaped `quote` at or after `start`. */
  method FindQuote(text: string, start: nat, quote: char) returns (pos: nat)
    requires start <= |text|
    ensures pos == start + G.QuoteLen(text[start..], quote)
  {
    pos := start;
    ghost var goal := start + G.QuoteLen(text[start..], quote);
    while pos < |text|
      invariant start <= pos
      invariant pos <= |text| ==> pos + G.QuoteLen(text[pos..], quote) == goal
      invariant pos > |text| ==> pos == goal
      decreases |text| - pos
    {
      ghost var r := text[pos..];
      assert r[0] == text[pos] && r[1..] == text[pos + 1..];
      if text[pos] == '\\' {
        assert |r| > 1 ==> r[2..] == text[pos + 2..];
        pos := pos + 2;
        continue;
      }
      if text[pos] == quote {
        break;
      }
      pos := pos + 1;
    }
  }

  /** A quoted text found at a position, in terms of what follows the opening quote. */
  lemma QuotedSlices(text: string, start: nat, pos: nat)
    requires start < |text|
    ensures text[start..][0] == text[start] && text[start..][1..] == text[start + 1..]
    ensures start < pos < |text| ==>
              text[start + 1..pos] == text[start..][1..pos - start]
    ensures start < pos < |text| ==> text[pos + 1..] == text[start..][pos + 1 - start..]
  {
  }

  method ReadQuoted(lex: Lexer) returns (o: Outcome<Value>)
    requires lex.pos < |lex.text|
    requires lex.text[lex.pos] == '"' || lex.text[lex.pos] == '\''
    modifies lex
    ensures Agrees(o, G.ParseQuoted(old(lex.Rest())), lex.Rest())
  {
    var text, start := lex.text, lex.pos;
    var pos := FindQuote(text, start + 1, text[start]);
    QuotedSlices(text, start, pos);
    lex.pos := pos + 1;
    if pos >= |text| {
      return Raised(G.SyntaxError);
    }
    var body := G.Unescape(text[start + 1..pos]);
    o := if body.Bad? then Raised(body.error) else Done(StrV(body.chars));
  }

  /** Where a bracketed text ends: the bracket that closes the one at `start`. */
  method FindBracket(text: string, start: nat) returns (pos: nat)
    requires start <= |text|
    ensures pos == start + G.ListLen(text[start..], 0)
  {
    pos := start;
    var depth := 0;
    while pos < |text|
      invariant start <= pos <= |text|
      invariant pos + G.ListLen(text[pos..], depth) == start + G.ListLen(text[start..], 0)
      decreases |text| - pos
    {
      ghost var r := text[pos..];
      assert r[0] == text[pos] && r[1..] == text[pos + 1..];
      if text[pos] == '[' {
        depth := depth + 1;
      } else if text[pos] == ']' {
        depth := depth - 1;
        if depth == 0 {
          return;
        }
      }
      pos := pos + 1;
    }
  }

  method ReadList(lex: Lexer) returns (o: Outcome<Value>)
    requires lex.pos < |lex.text| && lex.text[lex.pos] == '['
    modifies lex
    ensures Agrees(o, G.ParseList(old(lex.Rest())), lex.Rest())
  {
    var text, start := lex.text, lex.pos;
    ghost var t := lex.Rest();
    var pos := FindBracket(text, start);
    lex.pos := pos + 1;
    assert pos > start by { assert t[0] == text[start]; }
    var inner := text[start + 1..pos];
    assert inner == t[1..pos - start];
    assert pos + 1 <= |text| ==> text[pos + 1..] == t[pos + 1 - start..];
    o := Done(ListV(G.ListItems(inner)));
  }

  method ReadBare(lex: Lexer) returns (o: Outcome<Value>)
    requires lex.InText()
    modifies lex
    ensures Agrees(o, G.ParseBare(old(lex.Rest())), lex.Rest())
  {
    ghost var t := lex.Rest();
    var start := lex.Span(G.NotCloser);
    assert lex.text[start..lex.pos] == t[..lex.pos - start];
    assert lex.text[lex.pos..] == t[lex.pos - start..];
    o := Done(G.Literal(Strip(lex.text[start..lex.pos])));
  }

  method ReadDefault(lex: Lexer) returns (o: Outcome<Value>)
    modifies lex
    ensures Agrees(o, G.ParseDefault(old(lex.Rest())), lex.Rest())
  {
    lex.SkipSpaces();
    if lex.pos >= |lex.text| {
      return Raised(G.IndexError);
    }
    assert lex.Rest()[0] == lex.text[lex.pos];
    var c := lex.text[lex.pos];
    if c == '"' || c == '\'' {
      o := ReadQuoted(lex);
    } else if c == '[' {
      o := ReadList(lex);
    } else {
      o := ReadBare(lex);
    }
  }

  // ----- arguments -----

  method ReadOptionalDefault(lex: Lexer) returns (o: Outcome<Option<Value>>)
    modifies lex
    ensures Agrees(o, G.ParseOptionalDefault(old(lex.Rest())), lex.Rest())
  {
    var hasDefault := lex.Accept("=");
    if !hasDefault {
      return Done(None);
    }
    var v :- ReadDefault(lex);
    o := Done(Some(v));
  }

  method ReadArgument(lex: Lexer, kwargOnly: bool) returns (o: Outcome<Argument>)
    modifies lex
    ensures Agrees(o, G.ParseArgument(old(lex.Rest()), kwargOnly), lex.Rest())
  {
    var t :- ReadType(lex);
    var name :- lex.Ident();
    var d :- ReadOptionalDefault(lex);
    o := Done(G.MakeArgument(t, name, d, kwargOnly));
  }

  /** Arguments already read in front of what the rest of the list yields. */
  ghost function Before(args: seq<Argument>, r: G.Parsed<seq<Argument>>): G.Parsed<seq<Argument>> {
    if r.Ok? then G.Ok(args + r.value, r.rest) else r
  }

  lemma BeforeNone(r: G.Parsed<seq<Argument>>)
    ensures Before([], r) == r
  {
    if r.Ok? {
      assert [] + r.value == r.value;
    }
  }

  lemma BeforeEnd(args: seq<Argument>, rest: string)
    ensures Before(args, G.Ok([], rest)) == G.Ok(args, rest)
  {
    assert args + [] == args;
  }

  lemma BeforeCons(args: seq<Argument>, a: Argument, r: G.Parsed<seq<Argument>>)
    ensures Before(args, G.Cons(a, r)) == Before(args + [a], r)
  {
    if r.Ok? {
      assert args + ([a] + r.value) == (args + [a]) + r.value;
    }
  }

  /** After an argument: the end of the list, or a comma and more to read. */
  method ReadArgumentSeparator(lex: Lexer, kwargOnly: bool) returns (o: Outcome<bool>)
    modifies lex
    ensures match o
            case Raised(e) => G.ArgNext(old(lex.Rest()), kwargOnly) == G.Err(e)
            case Done(closed) =>
              && lex.InText() && |lex.Rest()| < |old(lex.Rest())|
              && G.ArgNext(old(lex.Rest()), kwargOnly)
              == if closed then G.Ok([], lex.Rest()) else G.ArgLoop(lex.Rest(), kwargOnly)
  {
    ghost var r := lex.Rest();
    var closed := lex.Accept(")");
    if closed {
      return Done(true);
    }
    P.SpacesIgnored(r, ",");
    var _ :- lex.Expect(",");
    o := Done(false);
  }

  /** One part of the list: the `*` marker or an argument. */
  method ReadPart(lex: Lexer, kwargOnly: bool) returns (o: Outcome<Option<Argument>>)
    modifies lex
    ensures match o
            case Raised(e) => G.ArgLoop(old(lex.Rest()), kwargOnly) == G.Err(e)
            case Done(part) =>
              && |lex.Rest()| < |old(lex.Rest())|
              && G.ArgLoop(old(lex.Rest()), kwargOnly)
              == if part.None? then G.ArgNext(lex.Rest(), true)
                 else G.Cons(part.value, G.ArgNext(lex.Rest(), kwargOnly))
  {
    ghost var r := lex.Rest();
    var star := lex.Accept("*");
    if star {
      return Done(None);
    }
    SkipArgument(r, kwargOnly);
    var a :- ReadArgument(lex, kwargOnly);
    o := Done(Some(a));
  }

  /** What reading one part does to the list so far. */
  lemma PartStep(args: seq<Argument>, kwargOnly: bool, r: string, part: Option<Argument>, s: string)
    requires G.ArgLoop(r, kwargOnly)
          == if part.None? then G.ArgNext(s, true) else G.Cons(part.value, G.ArgNext(s, kwargOnly))
    ensures Before(args, G.ArgLoop(r, kwargOnly))
         == Before(WithPart(args, part), G.ArgNext(s, kwargOnly || part.None?))
  {
    if part.Some? {
      BeforeCons(args, part.value, G.ArgNext(s, kwargOnly));
    }
  }

  function WithPart(args: seq<Argument>, part: Option<Argument>): seq<Argument> {
    if part.None? then args else args + [part.value]
  }

  method ReadArgumentLoop(lex: Lexer) returns (o: Outcome<seq<Argument>>)
    modifies lex
    ensures Agrees(o, G.ArgLoop(old(lex.Rest()), false), lex.Rest())
    ensures o.Done? ==> lex.InText()
  {
    var args: seq<Argument> := [];
    var kwargOnly := false;
    ghost var r := lex.Rest();
    ghost var goal := G.ArgLoop(r, false);
    BeforeNone(goal);
    while true
      invariant r == lex.Rest() && Before(args, G.ArgLoop(r, kwargOnly)) == goal
      decreases |lex.Rest()|
    {
      var part :- ReadPart(lex, kwargOnly);
      ghost var s := lex.Rest();
      PartStep(args, kwargOnly, r, part, s);
      args, kwargOnly := WithPart(args, part), kwargOnly || part.None?;
      var closed :- ReadArgumentSeparator(lex, kwargOnly);
      r := lex.Rest();
      if closed {
        BeforeEnd(args, r);
        return Done(args);
      }
    }
  }

  lemma SkipArgument(r: string, kwargOnly: bool)
    ensures G.ParseArgument(Skip(r), kwargOnly) == G.ParseArgument(r, kwargOnly)
  {
    P.SpacesIgnored(r, "*");
    assert G.ParseType(Skip(r)) == G.ParseType(r);
  }

  method ReadArguments(lex: Lexer) returns (o: Outcome<seq<Argument>>)
    modifies lex
    ensures Agrees(o, G.ParseArguments(old(lex.Rest())), lex.Rest())
    ensures o.Done? ==> lex.InText()
  {
    var _ :- lex.Expect("(");
    ghost var r := lex.Rest();
    var closed := lex.Accept(")");
    if closed {
      return Done([]);
    }
    SkipArgLoop(r);
    o := ReadArgumentLoop(lex);
  }

  lemma SkipArgLoop(r: string)
    ensures G.ArgLoop(Skip(r), false) == G.ArgLoop(r, false)
  {
    P.SpacesIgnored(r, "*");
    SkipArgument(r, false);
  }

  // ----- returns -----

  method ReadReturn(lex: Lexer) returns (o: Outcome<Argument>)
    modifies lex
    ensures Agrees(o, G.ParseReturn(old(lex.Rest())), lex.Rest())
    ensures o.Done? ==> lex.InText()
  {
    var t :- ReadType(lex);
    ghost var r := lex.Rest();
    P.SkipTwice(r);
    P.SpacesIgnored(r, ",");
    P.SpacesIgnored(r, ")");
    var end := lex.AtEnd();
    var comma := lex.Peek(",");
    var close := lex.Peek(")");
    if end || comma || close {
      return Done(G.MakeReturn(t, ""));
    }
    var name :- lex.Ident();
    o := Done(G.MakeReturn(t, name));
  }

  /** A parenthesised list of returns after its opening parenthesis. */
  method ReadReturnLoop(lex: Lexer) returns (o: Outcome<seq<Argument>>)
    modifies lex
    ensures Agrees(o, G.ReturnLoop(old(lex.Rest())), lex.Rest())
    ensures o.Done? ==> lex.InText()
  {
    ghost var goal := G.ReturnLoop(lex.Rest());
    var first :- ReadReturn(lex);
    var rets := [first];
    ghost var r := lex.Rest();
    BeforeNone(goal);
    BeforeCons([], first, G.ReturnNext(r));
    var comma := lex.Accept(",");
    while comma
      invariant Before(rets, G.ReturnNext(r)) == goal
      invariant comma ==> G.ReturnNext(r) == G.ReturnLoop(lex.Rest())
      invariant !comma ==> G.Accept(r, ",").None? && lex.Rest() == Skip(r)
      decreases comma, |lex.Rest()|
    {
      var a :- ReadReturn(lex);
      r := lex.Rest();
      BeforeCons(rets, a, G.ReturnNext(r));
      rets := rets + [a];
      comma := lex.Accept(",");
    }
    P.SpacesIgnored(r, ")");
    var _ :- lex.Expect(")");
    BeforeEnd(rets, lex.Rest());
    o := Done(rets);
  }

  method ReadReturns(lex: Lexer) returns (o: Outcome<seq<Argument>>)
    modifies lex
    ensures Agrees(o, G.ParseReturns(old(lex.Rest())), lex.Rest())
    ensures o.Done? ==> lex.InText()
  {
    ghost var r := lex.Rest();
    var open := lex.Accept("(");
    if open {
      ghost var s := lex.Rest();
      var closed := lex.Accept(")");
      if closed {
        return Done([]);
      }
      SkipReturn(s);
      o := ReadReturnLoop(lex);
    } else {
      SkipReturn(r);
      var a :- ReadReturn(lex);
      o := Done([a]);
    }
  }

  lemma SkipReturn(r: string)
    ensures G.ParseReturn(Skip(r)) == G.ParseReturn(r)
    ensures G.ReturnLoop(Skip(r)) == G.ReturnLoop(r)
  {
    P.SpacesIgnored(r, "(");
    assert G.ParseType(Skip(r)) == G.ParseType(r);
  }

  // ----- schemas -----

  /** The whole text is read, and on success the cursor ends exactly at its end. */
  method ReadSchema(text: string, ns: string) returns (o: Outcome<FunctionSchema>, end: nat)
    ensures Agrees(o, G.ParseSchema(text, ns), "")
    ensures o.Done? ==> end == |text|
  {
    var lex := new Lexer(text);
    end := 0;
    var qualified := lex.Ident();
    if qualified.Raised? { return Raised(qualified.error), lex.pos; }
    var names := G.Qualify(qualified.value, ns);
    var overload := ReadOverload(lex);
    if overload.Raised? { return Raised(overload.error), lex.pos; }
    var signature := ReadSignature(lex);
    if signature.Raised? { return Raised(signature.error), lex.pos; }
    o := Done(FunctionSchema(names.1, overload.value, signature.value.0, signature.value.1, names.0));
    end := lex.pos;
  }

  method ReadSignature(lex: Lexer) returns (o: Outcome<(seq<Argument>, seq<Argument>)>)
    modifies lex
    ensures Agrees(o, G.ParseSignature(old(lex.Rest())), "")
    ensures o.Done? ==> lex.pos == |lex.text|
  {
    var args := ReadArguments(lex);
    if args.Raised? { return Raised(args.error); }
    var arrow := lex.Expect("->");
    if arrow.Raised? { return Raised(arrow.error); }
    var rets := ReadReturns(lex);
    if rets.Raised? { return Raised(rets.error); }
    var atEnd := lex.AtEnd();
    if !atEnd { return Raised(G.SchemaParseError); }
    o := Done((args.value, rets.value));
  }

  method ReadOverload(lex: Lexer) returns (o: Outcome<string>)
    modifies lex
    ensures Agrees(o, G.ParseOverload(old(lex.Rest())), lex.Rest())
  {
    var dot := lex.Accept(".");
    if !dot {
      return Done("");
    }
    o := lex.Ident();
  }
}
