/**
 The tokens of a schema, and the ways to write annotations and types as trees of their parts.
 The reader's functions accept exactly the tokens of such trees, with any spaces before each,
 and yield what the trees stand for.
 */
module SchemaTokens {
  import opened Text
  import opened SchemaModel
  import opened SchemaGrammar
  import opened SchemaPrinted

  // ----- tokens -----

  /** The text starts with the token, and where the token is a word, the word ends there. */
  predicate Fits(tok: string, t: string) {
    tok <= t && (IsIdent(tok) ==> EndsIdent(t[|tok|..]))
  }

  /** What is left, spaces aside, when these tokens come next with any spaces before each. */
  function After(s: string, toks: seq<string>): (r: Option<string>)
    ensures r.Some? ==> Skip(r.value) == r.value
    decreases |toks|
  {
    SkipTwice(s);
    var t := Skip(s);
    if toks == [] then Some(t)
    else if Fits(toks[0], t) then After(t[|toks[0]|..], toks[1..])
    else None
  }

  function Then(r: Option<string>, toks: seq<string>): (r': Option<string>) {
    if r.Some? then After(r.value, toks) else None
  }

  lemma AfterSkip(s: string, toks: seq<string>)
    ensures After(Skip(s), toks) == After(s, toks)
  {
    SkipTwice(s);
  }

  lemma {:induction false} AfterAppend(s: string, a: seq<string>, b: seq<string>)
    ensures After(s, a + b) == Then(After(s, a), b)
    decreases |a|
  {
    if a == [] {
      assert a + b == b;
      AfterSkip(s, b);
    } else {
      assert (a + b)[0] == a[0] && (a + b)[1..] == a[1..] + b;
      var t := Skip(s);
      if Fits(a[0], t) { AfterAppend(t[|a[0]|..], a[1..], b); }
    }
  }

  predicate IsMark(tok: string) {
    tok != "" && !IsSpace(tok[0]) && !IsIdentChar(tok[0])
  }

  lemma AfterMark(s: string, tok: string, toks: seq<string>)
    requires IsMark(tok)
    ensures After(s, [tok] + toks) == Then(Accept(s, tok), toks)
  {
    assert ([tok] + toks)[1..] == toks;
  }

  lemma WordSpan(w: string, t: string)
    requires IsIdent(w)
    ensures Fits(w, t) <==> t[..SpanLen(IsIdentChar, t)] == w
  {
    if Fits(w, t) {
      assert t == w + t[|w|..];
      SpanLenOfPrefix(IsIdentChar, w, t[|w|..]);
    }
  }

  lemma AfterWord(s: string, w: string, toks: seq<string>)
    requires IsIdent(w)
    ensures After(s, [w] + toks)
         == if ReadIdent(s).Ok? && ReadIdent(s).value == w then After(ReadIdent(s).rest, toks) else None
  {
    assert ([w] + toks)[1..] == toks;
    WordSpan(w, Skip(s));
  }

  lemma AfterAliasName(s: string, w: string, toks: seq<string>)
    requires IsAliasName(w)
    ensures After(s, [w] + toks)
         == if AliasName(s).Ok? && AliasName(s).value == w then After(AliasName(s).rest, toks) else None
  {
    if w == "*" {
      AfterMark(s, w, toks);
    } else {
      AfterWord(s, w, toks);
      if ReadIdent(s).Ok? { assert !Heads(s, '*'); AcceptMiss(s, "*"); }
    }
  }

  /** Which character comes next decides what is not accepted. */
  lemma HeadDecides(s: string, t: string, tok: string)
    requires Skip(s) == t && tok != "" && (t == "" || t[0] != tok[0])
    ensures Accept(s, tok) == None
  {
  }

  // ----- alias annotations -----

  predicate Chained(names: seq<string>, arrows: seq<bool>) {
    |names| == |arrows| + 1 && AreAliasNames(names)
  }

  /** Names with a bar, or an arrow where `arrows` says so, between any two. */
  function ChainTokens(names: seq<string>, arrows: seq<bool>): (toks: seq<string>)
    requires |names| == |arrows| + 1
  {
    [names[0]]
    + (if arrows == [] then [] else [if arrows[0] then "->" else "|"] + ChainTokens(names[1..], arrows[1..]))
  }

  predicate BeforeArrow(x: string, names: seq<string>, arrows: seq<bool>)
    requires |names| == |arrows| + 1
  {
    exists i :: 0 <= i < |names| && names[i] == x && true !in arrows[..i]
  }

  predicate AfterArrow(x: string, names: seq<string>, arrows: seq<bool>)
    requires |names| == |arrows| + 1
  {
    exists i :: 0 <= i < |names| && names[i] == x && true in arrows[..i]
  }

  /** A way to write an annotation: names, separators, and the mark of a write. */
  datatype AliasSpelling = AliasSpelling(names: seq<string>, arrows: seq<bool>, bang: bool)
  {
    predicate Valid() {
      Chained(names, arrows)
    }

    function Tokens(): (toks: seq<string>)
      requires Valid()
    {
      ["("] + (ChainTokens(names, arrows) + ((if bang then ["!"] else []) + [")"]))
    }

    /** The set before is named before the first arrow, the set after behind it, whatever further
        arrows there are; without an arrow the two are the same. */
    ghost function Meaning(): (a: AliasInfo)
      requires Valid()
    {
      var before := set x | x in names && BeforeArrow(x, names, arrows);
      var after := set x | x in names && AfterArrow(x, names, arrows);
      AliasInfo(before, if true in arrows then after else before, bang)
    }
  }

  /** What reading the names one by one collects. */
  function PushAll(p: AliasParts, names: seq<string>, arrows: seq<bool>): (r: AliasParts)
    requires |names| == |arrows| + 1
    decreases |names|
  {
    var q := PushName(p, names[0]);
    if arrows == [] then q
    else PushAll(if arrows[0] then q.(inAfter := true) else q, names[1..], arrows[1..])
  }

  lemma BeforeArrowStep(x: string, names: seq<string>, arrows: seq<bool>)
    requires |names| == |arrows| + 1
    ensures BeforeArrow(x, names, arrows) <==>
            x == names[0] || (arrows != [] && !arrows[0] && BeforeArrow(x, names[1..], arrows[1..]))
  {
    assert names[0] == x ==> true !in arrows[..0];
    if arrows != [] && !arrows[0] {
      forall i | 1 <= i < |names| ensures true in arrows[..i] <==> true in arrows[1..][..i - 1] {
        assert arrows[..i] == [arrows[0]] + arrows[1..][..i - 1];
      }
      if BeforeArrow(x, names[1..], arrows[1..]) {
        var i :| 0 <= i < |names| - 1 && names[1..][i] == x && true !in arrows[1..][..i];
        assert names[i + 1] == x && true !in arrows[..i + 1];
      }
    }
  }

  lemma AfterArrowStep(x: string, names: seq<string>, arrows: seq<bool>)
    requires |names| == |arrows| + 1
    ensures AfterArrow(x, names, arrows) <==>
            arrows != [] && (if arrows[0] then x in names[1..] else AfterArrow(x, names[1..], arrows[1..]))
  {
    if arrows != [] {
      forall i | 1 <= i < |names|
        ensures true in arrows[..i] <==> arrows[0] || true in arrows[1..][..i - 1]
      {
        assert arrows[..i] == [arrows[0]] + arrows[1..][..i - 1];
      }
      if arrows[0] && x in names[1..] {
        var i :| 0 <= i < |names| - 1 && names[1..][i] == x;
        assert names[i + 1] == x && true in arrows[..i + 1];
      }
      if !arrows[0] && AfterArrow(x, names[1..], arrows[1..]) {
        var i :| 0 <= i < |names| - 1 && names[1..][i] == x && true in arrows[1..][..i];
        assert names[i + 1] == x && true in arrows[..i + 1];
      }
    }
  }

  lemma {:induction false} PushAllInAfter(p: AliasParts, names: seq<string>, arrows: seq<bool>, x: string)
    requires |names| == |arrows| + 1 && p.inAfter
    ensures PushAll(p, names, arrows).before == p.before
    ensures x in PushAll(p, names, arrows).after <==> x in p.after || x in names
    decreases |names|
  {
    if arrows != [] { PushAllInAfter(PushName(p, names[0]), names[1..], arrows[1..], x); }
  }

  lemma {:induction false} PushAllMembers(p: AliasParts, names: seq<string>, arrows: seq<bool>, x: string)
    requires |names| == |arrows| + 1 && !p.inAfter
    ensures x in PushAll(p, names, arrows).before <==> x in p.before || BeforeArrow(x, names, arrows)
    ensures x in PushAll(p, names, arrows).after <==> x in p.after || AfterArrow(x, names, arrows)
    decreases |names|
  {
    BeforeArrowStep(x, names, arrows);
    AfterArrowStep(x, names, arrows);
    var q := PushName(p, names[0]);
    if arrows != [] {
      if arrows[0] {
        PushAllInAfter(q.(inAfter := true), names[1..], arrows[1..], x);
      } else {
        PushAllMembers(q, names[1..], arrows[1..], x);
      }
    }
  }

  lemma {:induction false} PushAllGrows(p: AliasParts, names: seq<string>, arrows: seq<bool>)
    requires |names| == |arrows| + 1
    ensures PushAll(p, names, arrows).after == [] <==> p.after == [] && !p.inAfter && true !in arrows
    decreases |names|
  {
    var q := PushName(p, names[0]);
    if arrows != [] {
      PushAllGrows(if arrows[0] then q.(inAfter := true) else q, names[1..], arrows[1..]);
      assert arrows == [arrows[0]] + arrows[1..];
    }
  }

  lemma AliasMeaning(c: AliasSpelling)
    requires c.Valid()
    ensures AliasOf(PushAll(AliasParts([], [], false), c.names, c.arrows), c.bang) == c.Meaning()
  {
    var start := AliasParts([], [], false);
    var p := PushAll(start, c.names, c.arrows);
    PushAllGrows(start, c.names, c.arrows);
    forall x ensures x in p.before <==> BeforeArrow(x, c.names, c.arrows)
             ensures x in p.after <==> AfterArrow(x, c.names, c.arrows)
    {
      PushAllMembers(start, c.names, c.arrows, x);
    }
    assert NameSet(p.before) == set x | x in c.names && BeforeArrow(x, c.names, c.arrows);
    assert NameSet(p.after) == set x | x in c.names && AfterArrow(x, c.names, c.arrows);
  }

  /** The first name, and then either nothing more or a separator and the other names. */
  lemma ChainStep(s: string, names: seq<string>, arrows: seq<bool>)
    requires Chained(names, arrows)
    ensures After(s, ChainTokens(names, arrows))
         == if AliasName(s).Err? || AliasName(s).value != names[0] then None
            else if arrows == [] then Some(Skip(AliasName(s).rest))
            else Then(Accept(AliasName(s).rest, if arrows[0] then "->" else "|"), ChainTokens(names[1..], arrows[1..]))
  {
    if arrows == [] {
      AfterAliasName(s, names[0], []);
    } else {
      var sep, more := if arrows[0] then "->" else "|", ChainTokens(names[1..], arrows[1..]);
      AfterAliasName(s, names[0], [sep] + more);
      if AliasName(s).Ok? { AfterMark(AliasName(s).rest, sep, more); }
    }
  }

  lemma ChainCons(s: string, p: AliasParts, w: string, arrow: bool, t: string, names: seq<string>, arrows: seq<bool>)
    requires AliasName(s).Ok? && AliasName(s).value == w && Chained(names, arrows)
    requires Accept(AliasName(s).rest, if arrow then "->" else "|") == Some(t)
    ensures Chained([w] + names, [arrow] + arrows)
    ensures After(s, ChainTokens([w] + names, [arrow] + arrows)) == After(t, ChainTokens(names, arrows))
    ensures PushAll(p, [w] + names, [arrow] + arrows)
         == PushAll(if arrow then PushName(p, w).(inAfter := true) else PushName(p, w), names, arrows)
  {
    assert ([w] + names)[1..] == names && ([arrow] + arrows)[1..] == arrows;
    ChainStep(s, [w] + names, [arrow] + arrows);
  }

  lemma {:induction false} AliasLoopSound(s: string, p: AliasParts) returns (names: seq<string>, arrows: seq<bool>)
    requires AliasLoop(s, p).Ok?
    ensures Chained(names, arrows) && AliasLoop(s, p).value == PushAll(p, names, arrows)
    ensures After(s, ChainTokens(names, arrows)) == Some(Skip(AliasLoop(s, p).rest))
    decreases |s|
  {
    var w := AliasName(s);
    var bar, arrow := Accept(w.rest, "|"), Accept(w.rest, "->");
    if bar.Some? {
      names, arrows := AliasLoopSound(bar.value, PushName(p, w.value));
      ChainCons(s, p, w.value, false, bar.value, names, arrows);
      names, arrows := [w.value] + names, [false] + arrows;
    } else if arrow.Some? {
      names, arrows := AliasLoopSound(arrow.value, PushName(p, w.value).(inAfter := true));
      ChainCons(s, p, w.value, true, arrow.value, names, arrows);
      names, arrows := [w.value] + names, [true] + arrows;
    } else {
      names, arrows := [w.value], [];
      SkipTwice(w.rest);
      ChainStep(s, names, arrows);
    }
  }

  lemma {:induction false} AliasLoopComplete(s: string, p: AliasParts, names: seq<string>, arrows: seq<bool>,
                                             rest: string)
    requires Chained(names, arrows) && After(s, ChainTokens(names, arrows)) == Some(rest)
    requires rest != "" && (rest[0] == '!' || rest[0] == ')')
    ensures AliasLoop(s, p) == Ok(PushAll(p, names, arrows), rest)
    decreases |names|
  {
    ChainStep(s, names, arrows);
    var r, q := AliasName(s).rest, PushName(p, names[0]);
    if arrows == [] {
      HeadDecides(r, rest, "|");
      HeadDecides(r, rest, "->");
    } else if arrows[0] {
      HeadDecides(r, Skip(r), "|");
      AliasLoopComplete(Accept(r, "->").value, q.(inAfter := true), names[1..], arrows[1..], rest);
    } else {
      AliasLoopComplete(Accept(r, "|").value, q, names[1..], arrows[1..], rest);
    }
  }

  /** The mark of a write and the closing parenthesis. */
  lemma AliasEnd(s: string, p: AliasParts, bang: bool, rest: string)
    ensures After(s, (if bang then ["!"] else []) + [")"]) == Some(rest) <==>
            ParseAliasEnd(s, p).Ok? && ParseAliasEnd(s, p).value == AliasOf(p, bang)
            && Skip(ParseAliasEnd(s, p).rest) == rest && Accept(s, "!").Some? == bang
  {
    if bang {
      AfterMark(s, "!", [")"]);
      if Accept(s, "!").Some? { AfterMark(Accept(s, "!").value, ")", []); }
    } else {
      assert [] + [")"] == [")"];
      AfterMark(s, ")", []);
    }
  }

  lemma AliasSound(s: string) returns (c: AliasSpelling)
    requires Accept(s, "(").Some? && ParseAlias(Accept(s, "(").value).Ok?
    ensures c.Valid() && c.Meaning() == ParseAlias(Accept(s, "(").value).value
    ensures After(s, c.Tokens()) == Some(Skip(ParseAlias(Accept(s, "(").value).rest))
  {
    var t, start := Accept(s, "(").value, AliasParts([], [], false);
    var names, arrows := AliasLoopSound(t, start);
    var r := AliasLoop(t, start);
    var bang := Accept(r.rest, "!").Some?;
    c := AliasSpelling(names, arrows, bang);
    AliasMeaning(c);
    AliasEnd(r.rest, r.value, bang, Skip(ParseAlias(t).rest));
    AfterSkip(r.rest, (if bang then ["!"] else []) + [")"]);
    AfterAppend(t, ChainTokens(names, arrows), (if bang then ["!"] else []) + [")"]);
    AfterMark(s, "(", ChainTokens(names, arrows) + ((if bang then ["!"] else []) + [")"]));
  }

  lemma AliasComplete(s: string, c: AliasSpelling, rest: string)
    requires c.Valid() && After(s, c.Tokens()) == Some(rest)
    ensures Accept(s, "(").Some? && ParseAlias(Accept(s, "(").value).Ok?
    ensures ParseAlias(Accept(s, "(").value).value == c.Meaning()
    ensures Skip(ParseAlias(Accept(s, "(").value).rest) == rest
  {
    var end := (if c.bang then ["!"] else []) + [")"];
    AfterMark(s, "(", ChainTokens(c.names, c.arrows) + end);
    var t, start := Accept(s, "(").value, AliasParts([], [], false);
    AfterAppend(t, ChainTokens(c.names, c.arrows), end);
    var mid := After(t, ChainTokens(c.names, c.arrows)).value;
    EndHead(mid, c.bang, rest);
    AliasLoopComplete(t, start, c.names, c.arrows, mid);
    AliasEnd(mid, AliasLoop(t, start).value, c.bang, rest);
    AliasMeaning(c);
  }

  lemma EndHead(mid: string, bang: bool, rest: string)
    requires Skip(mid) == mid && After(mid, (if bang then ["!"] else []) + [")"]) == Some(rest)
    ensures mid != "" && (mid[0] == '!' || mid[0] == ')')
  {
    if bang {
      AfterMark(mid, "!", [")"]);
    } else {
      assert [] + [")"] == [")"];
      AfterMark(mid, ")", []);
    }
  }

  // ----- types -----

  /** A `?`, or brackets with the digits of a size or nothing between them. */
  datatype Wrap = Maybe | Sized(digits: string)
  {
    predicate Valid() {
      Sized? ==> AllDigits(digits)
    }

    function Tokens(): (toks: seq<string>) {
      if Maybe? then ["?"] else ["["] + [digits, "]"]
    }

    function Around(t: SchemaType): (r: SchemaType)
      requires Valid()
    {
      if Maybe? then OptionalType(t) else ListType(t, if digits == "" then None else Some(NatOf(digits)))
    }
  }

  predicate AreWraps(ws: seq<Wrap>) {
    forall i :: 0 <= i < |ws| ==> ws[i].Valid()
  }

  function WrapsTokens(ws: seq<Wrap>): (toks: seq<string>) {
    if ws == [] then [] else ws[0].Tokens() + WrapsTokens(ws[1..])
  }

  /** The first wrapper is the innermost. */
  function Wrapped(t: SchemaType, ws: seq<Wrap>): (r: SchemaType)
    requires AreWraps(ws)
    decreases |ws|
  {
    if ws == [] then t else Wrapped(ws[0].Around(t), ws[1..])
  }

  /** A way to write a type with its annotation. */
  datatype TypeSpelling = TypeSpelling(word: string, base: Base, alias: Option<AliasSpelling>, wraps: seq<Wrap>)
  {
    predicate Valid() {
      && (word == BaseName(base) || (word == "int64_t" && base == IntT))
      && (alias.Some? ==> alias.value.Valid()) && AreWraps(wraps)
    }

    function Tokens(): (toks: seq<string>)
      requires Valid()
    {
      [word] + ((if alias.Some? then alias.value.Tokens() else []) + WrapsTokens(wraps))
    }

    ghost function Type(): (t: SchemaType)
      requires Valid()
    {
      Wrapped(BaseType(base), wraps)
    }

    ghost function Alias(): (a: Option<AliasInfo>)
      requires Valid()
    {
      if alias.Some? then Some(alias.value.Meaning()) else None
    }
  }

  /** The base names: one spelling each, and one more for `int`. */
  lemma BaseNamesExactly(w: string, b: Base)
    ensures LookupBase(w) == Some(b) <==> w == BaseName(b) || (w == "int64_t" && b == IntT)
  {
  }

  lemma BaseNameIsWord(w: string, b: Base)
    requires w == BaseName(b) || (w == "int64_t" && b == IntT)
    ensures IsIdent(w)
  {
  }

  lemma WordEnds(d: string, u: string)
    requires d != "" && AllDigits(d) && Fits(d, u)
    ensures SpanLen(IsDigit, u) == |d|
  {
    assert IsIdent(d);
    assert u == d + u[|d|..];
    SpanLenOfPrefix(IsDigit, d, u[|d|..]);
  }

  lemma CloserEnds(r: string)
    requires Accept(r, "]").Some?
    ensures EndsIdent(r) && (r == Skip(r) ==> r[0] == ']')
  {
  }

  lemma AfterDigits(s: string, d: string)
    ensures After(s, [d, "]"])
         == if Fits(d, Skip(s)) then Then(Accept(Skip(s)[|d|..], "]"), []) else None
  {
    assert [d, "]"][1..] == ["]"] && ["]"] + [] == ["]"];
    if Fits(d, Skip(s)) { AfterMark(Skip(s)[|d|..], "]", []); }
  }

  lemma DigitsFit(d: string, u: string)
    requires AllDigits(d)
    ensures Fits(d, u) && Accept(u[|d|..], "]").Some? <==>
            d == u[..SpanLen(IsDigit, u)] && Accept(u[SpanLen(IsDigit, u)..], "]").Some?
  {
    var n := SpanLen(IsDigit, u);
    if d == "" {
      assert u[0..] == u;
      if Accept(u, "]").Some? { CloserEnds(u); }
    } else if Fits(d, u) {
      WordEnds(d, u);
    } else if Accept(u[n..], "]").Some? {
      CloserEnds(u[n..]);
    }
  }

  lemma SizeExactly(s: string, d: string, rest: string)
    requires AllDigits(d)
    ensures After(s, [d, "]"]) == Some(rest) <==>
            ParseSize(s).Ok? && Skip(ParseSize(s).rest) == rest && d == Skip(s)[..SpanLen(IsDigit, Skip(s))]
    ensures ParseSize(s).Ok? && d == Skip(s)[..SpanLen(IsDigit, Skip(s))] ==>
            ParseSize(s).value == if d == "" then None else Some(NatOf(d))
  {
    AfterDigits(s, d);
    DigitsFit(d, Skip(s));
  }

  lemma WrapThen(s: string, w: Wrap, toks: seq<string>)
    ensures After(s, w.Tokens() + toks) == Then(After(s, w.Tokens()), toks)
    ensures w.Maybe? ==> After(s, w.Tokens() + toks) == Then(Accept(s, "?"), toks)
    ensures w.Sized? ==> After(s, w.Tokens()) == Then(Accept(s, "["), [w.digits, "]"])
  {
    AfterAppend(s, w.Tokens(), toks);
    if w.Maybe? { AfterMark(s, "?", toks); } else { AfterMark(s, "[", [w.digits, "]"]); }
  }

  lemma {:induction false} SuffixSound(s: string, t: SchemaType, size: Option<nat>) returns (ws: seq<Wrap>)
    requires TypeSuffix(s, t, size).Ok?
    ensures AreWraps(ws) && TypeSuffix(s, t, size).value.0 == Wrapped(t, ws)
    ensures After(s, WrapsTokens(ws)) == Some(Skip(TypeSuffix(s, t, size).rest))
    decreases |s|
  {
    var opt, list := Accept(s, "?"), Accept(s, "[");
    if opt.Some? {
      var more := SuffixSound(opt.value, OptionalType(t), size);
      WrapThen(s, Maybe, WrapsTokens(more));
      ws := PrependWrap(Maybe, more, t);
    } else if list.Some? {
      var n := ParseSize(list.value);
      var d := Skip(list.value)[..SpanLen(IsDigit, Skip(list.value))];
      SizeExactly(list.value, d, Skip(n.rest));
      var more := SuffixSound(n.rest, ListType(t, n.value), n.value);
      WrapThen(s, Sized(d), WrapsTokens(more));
      AfterSkip(n.rest, WrapsTokens(more));
      ws := PrependWrap(Sized(d), more, t);
    } else {
      ws := [];
      SkipTwice(s);
    }
  }

  lemma PrependWrap(w: Wrap, more: seq<Wrap>, t: SchemaType) returns (ws: seq<Wrap>)
    requires w.Valid() && AreWraps(more)
    ensures AreWraps(ws) && WrapsTokens(ws) == w.Tokens() + WrapsTokens(more)
    ensures Wrapped(t, ws) == Wrapped(w.Around(t), more)
  {
    ws := [w] + more;
    assert ws[1..] == more;
  }

  /** What may follow a type. */
  predicate StopsType(rest: string) {
    rest == "" || (rest[0] != '(' && rest[0] != '?' && rest[0] != '[')
  }

  lemma SizedStep(s: string, digits: string, toks: seq<string>, rest: string)
    requires AllDigits(digits) && After(s, Sized(digits).Tokens() + toks) == Some(rest)
    ensures Accept(s, "?").None? && Accept(s, "[").Some? && ParseSize(Accept(s, "[").value).Ok?
    ensures ParseSize(Accept(s, "[").value).value == if digits == "" then None else Some(NatOf(digits))
    ensures After(ParseSize(Accept(s, "[").value).rest, toks) == Some(rest)
  {
    WrapThen(s, Sized(digits), toks);
    var inner := Accept(s, "[").value;
    HeadDecides(s, Skip(s), "?");
    SizeExactly(inner, digits, After(s, Sized(digits).Tokens()).value);
    AfterSkip(ParseSize(inner).rest, toks);
  }

  lemma {:induction false} SuffixComplete(s: string, t: SchemaType, size: Option<nat>, ws: seq<Wrap>, rest: string)
    requires AreWraps(ws) && After(s, WrapsTokens(ws)) == Some(rest) && StopsType(rest)
    ensures TypeSuffix(s, t, size).Ok? && TypeSuffix(s, t, size).value.0 == Wrapped(t, ws)
    ensures TypeSuffix(s, t, size).rest == rest
    decreases |ws|
  {
    if ws == [] {
      HeadDecides(s, rest, "?");
      HeadDecides(s, rest, "[");
    } else if ws[0].Maybe? {
      WrapThen(s, ws[0], WrapsTokens(ws[1..]));
      SuffixComplete(Accept(s, "?").value, OptionalType(t), size, ws[1..], rest);
    } else {
      SizedStep(s, ws[0].digits, WrapsTokens(ws[1..]), rest);
      var n := ParseSize(Accept(s, "[").value);
      SuffixComplete(n.rest, ws[0].Around(t), n.value, ws[1..], rest);
    }
  }

  /** What follows the base name does not open an annotation when wrappers come next, or nothing. */
  lemma NoAnnotation(s: string, ws: seq<Wrap>, rest: string)
    requires After(s, WrapsTokens(ws)) == Some(rest) && StopsType(rest)
    ensures Accept(s, "(").None?
  {
    if ws == [] {
      HeadDecides(s, rest, "(");
    } else {
      WrapThen(s, ws[0], WrapsTokens(ws[1..]));
      HeadDecides(s, Skip(s), "(");
    }
  }

  lemma TypeSound(s: string) returns (c: TypeSpelling)
    requires ParseType(s).Ok?
    ensures c.Valid() && c.Type() == ParseType(s).value.typ && c.Alias() == ParseType(s).value.alias
    ensures After(s, c.Tokens()) == Some(Skip(ParseType(s).rest))
  {
    var id := ReadIdent(s);
    var b := LookupBase(id.value).value;
    BaseNamesExactly(id.value, b);
    var ann := ParseAnnotation(id.rest);
    var ws := SuffixSound(ann.rest, BaseType(b), None);
    AfterWord(s, id.value, WrapsTokens(ws));
    if Accept(id.rest, "(").Some? {
      var a := AliasSound(id.rest);
      c := TypeSpelling(id.value, b, Some(a), ws);
      AfterWord(s, id.value, a.Tokens() + WrapsTokens(ws));
      AfterAppend(id.rest, a.Tokens(), WrapsTokens(ws));
      AfterSkip(ann.rest, WrapsTokens(ws));
    } else {
      c := TypeSpelling(id.value, b, None, ws);
      assert [] + WrapsTokens(ws) == WrapsTokens(ws);
      AfterSkip(id.rest, WrapsTokens(ws));
    }
  }

  lemma TypeComplete(s: string, c: TypeSpelling, rest: string)
    requires c.Valid() && After(s, c.Tokens()) == Some(rest) && StopsType(rest)
    ensures ParseType(s).Ok? && ParseType(s).value.typ == c.Type() && ParseType(s).value.alias == c.Alias()
    ensures ParseType(s).rest == rest
  {
    var tail := (if c.alias.Some? then c.alias.value.Tokens() else []) + WrapsTokens(c.wraps);
    BaseNamesExactly(c.word, c.base);
    BaseNameIsWord(c.word, c.base);
    AfterWord(s, c.word, tail);
    var s1 := ReadIdent(s).rest;
    if c.alias.Some? {
      AfterAppend(s1, c.alias.value.Tokens(), WrapsTokens(c.wraps));
      AliasComplete(s1, c.alias.value, After(s1, c.alias.value.Tokens()).value);
    } else {
      assert [] + WrapsTokens(c.wraps) == WrapsTokens(c.wraps);
      NoAnnotation(s1, c.wraps, rest);
    }
    var s2 := ParseAnnotation(s1).rest;
    AfterSkip(s2, WrapsTokens(c.wraps));
    AfterSkip(s1, WrapsTokens(c.wraps));
    SuffixComplete(s2, BaseType(c.base), None, c.wraps, rest);
  }
}
