/**
 The language of operator schemas: every way to write a schema as a tree of its parts, the
 tokens of that tree, and the schema it stands for. The reader accepts a text exactly when it
 consists of the tokens of some such tree, and then yields what the tree stands for.
 */
module SchemaLanguage {
  import opened Text
  import opened Spellings
  import opened SchemaModel
  import opened SchemaGrammar
  import opened SchemaPrinted
  import opened SchemaRoundTrip
  import opened SchemaLiterals
  import opened SchemaTokens

  // ----- default values -----

  lemma AfterOne(s: string, tok: string)
    ensures After(s, [tok]) == if Fits(tok, Skip(s)) then Some(Skip(Skip(s)[|tok|..])) else None
  {
    assert [tok][1..] == [];
  }

  /** A token before any text, where a word is not followed by more of it. */
  lemma TokenBefore(s: string, tok: string, r: string)
    requires Skip(s) == tok + r && (IsIdent(tok) ==> EndsIdent(r))
    ensures After(s, [tok]) == Some(Skip(r))
  {
    AfterOne(s, tok);
    assert (tok + r)[|tok|..] == r;
  }

  lemma Enclosed(open: string, inner: string, close: string, r: string)
    ensures (open + (inner + close)) + r == open + (inner + (close + r))
  {
    Associate(open, inner + close, r);
    Associate(inner, close, r);
  }

  lemma QuotedToken(s: string, q: char, e: string, r: string)
    requires Skip(s) == [q] + (e + ([q] + r)) && !IsIdentChar(q)
    ensures After(s, [[q] + (e + [q])]) == Some(Skip(r))
  {
    Enclosed([q], e, [q], r);
    TokenBefore(s, [q] + (e + [q]), r);
  }

  lemma QuotedSound(s: string, t: string) returns (d: DefaultSpelling)
    requires Skip(s) == t && t != "" && (t[0] == '"' || t[0] == '\'') && ParseQuoted(t).Ok?
    ensures d.Valid() && d.Value() == ParseQuoted(t).value
    ensures After(s, [d.Text()]) == Some(Skip(ParseQuoted(t).rest))
  {
    var ps := FindQuoted(t);
    d := Quoted(t[0], ps);
    QuotedToken(s, t[0], PiecesText(ps), ParseQuoted(t).rest);
    QuotedRead(t[0], ps, ParseQuoted(t).rest);
  }

  lemma ListSound(s: string, t: string) returns (d: DefaultSpelling)
    requires Skip(s) == t && t != "" && t[0] == '[' && ParseList(t).rest != ""
    ensures d.Valid() && d.Value() == ParseList(t).value
    ensures After(s, [d.Text()]) == Some(Skip(ParseList(t).rest))
  {
    d := FindList(t);
    Enclosed("[", d.inner, "]", ParseList(t).rest);
    TokenBefore(s, d.Text(), ParseList(t).rest);
  }

  lemma DefaultSound(s: string) returns (d: DefaultSpelling)
    requires ParseDefault(s).Ok? && EndsDefault(Skip(ParseDefault(s).rest))
    ensures d.Valid() && d.Value() == ParseDefault(s).value
    ensures After(s, [d.Text()]) == Some(Skip(ParseDefault(s).rest))
  {
    var t := Skip(s);
    if t[0] == '"' || t[0] == '\'' {
      d := QuotedSound(s, t);
    } else if t[0] == '[' {
      d := ListSound(s, t);
    } else {
      d := BareSound(s, t, ParseDefault(s).rest);
    }
  }

  lemma BareStops(t: string, r: string)
    requires r == ParseBare(t).rest && EndsDefault(Skip(r))
    ensures EndsDefault(r)
  {
    BareParts(t, SpanLen(NotCloser, t));
    assert r != "" && !NotCloser(r[0]);
  }

  lemma BlankThen(b: string, r: string)
    requires Blank(b) && EndsDefault(r)
    ensures EndsIdent(b + r) && Skip(b + r) == r && Skip(r) == r
  {
    SkipBlank(b, r);
    SkipFixed(r);
    if b != "" { assert IsSpace(b[0]) && (b + r)[0] == b[0]; }
  }

  lemma BareSound(s: string, t: string, r: string) returns (d: DefaultSpelling)
    requires Skip(s) == t && t != "" && t[0] != '"' && t[0] != '\'' && t[0] != '['
    requires r == ParseBare(t).rest && EndsDefault(Skip(r))
    ensures d.Valid() && d.Value() == ParseBare(t).value && After(s, [d.Text()]) == Some(Skip(r))
  {
    var w, b := FindBare(t);
    d := Bare(w, ParseBare(t).value);
    BareStops(t, r);
    BlankThen(b, r);
    TokenBefore(s, w, b + r);
  }

  lemma TokenCut(s: string, tok: string, rest: string) returns (r: string)
    requires After(s, [tok]) == Some(rest)
    ensures Skip(s) == tok + r && Skip(r) == rest
  {
    AfterOne(s, tok);
    r := Skip(s)[|tok|..];
  }

  lemma DefaultComplete(s: string, d: DefaultSpelling, rest: string)
    requires d.Valid() && After(s, [d.Text()]) == Some(rest) && EndsDefault(rest)
    ensures ParseDefault(s).Ok? && ParseDefault(s).value == d.Value() && Skip(ParseDefault(s).rest) == rest
  {
    var r := TokenCut(s, d.Text(), rest);
    match d
    case Quoted(q, ps) =>
      Enclosed([q], PiecesText(ps), [q], r);
      QuotedRead(q, ps, r);
    case Listed(inner, _, _) =>
      Enclosed("[", inner, "]", r);
      ListRead(d, r);
    case Bare(w, v) => BareComplete(s, w, v, r, rest);
  }

  lemma IsBare(s: string, t: string)
    requires Skip(s) == t && t != "" && t[0] != '"' && t[0] != '\'' && t[0] != '['
    ensures ParseDefault(s) == ParseBare(t)
  {
  }

  lemma BareComplete(s: string, w: string, v: Value, r: string, rest: string)
    requires IsBareWord(w) && Denotes(w, v) && Skip(s) == w + r && Skip(r) == rest && EndsDefault(rest)
    ensures ParseDefault(s) == Ok(v, rest)
  {
    var b := SkipCut(r);
    if w == "" {
      assert w + r == r;
      SkipTwice(s);
    }
    assert (w + r)[0] == if w == "" then rest[0] else w[0];
    IsBare(s, w + r);
    BareRead(w, v, b, rest);
  }

  // ----- arguments -----

  /** A way to write an argument. */
  datatype ArgumentSpelling = ArgumentSpelling(typ: TypeSpelling, name: string, default: Option<DefaultSpelling>)
  {
    ghost predicate Valid() {
      typ.Valid() && IsIdent(name) && (default.Some? ==> default.value.Valid())
    }

    function Tokens(): (toks: seq<string>)
      requires typ.Valid()
    {
      typ.Tokens() + ([name] + (if default.Some? then ["="] + [default.value.Text()] else []))
    }

    /** Only a keyword-only argument can be an output. */
    ghost function Meaning(kwargOnly: bool): (a: Argument)
      requires Valid()
    {
      var value := if default.Some? then default.value.Value() else NoneV;
      var isOut := kwargOnly && typ.Alias().Some? && typ.Alias().value.isWrite;
      Argument(name, typ.Type(), value, default.Some?, kwargOnly, typ.Alias(), isOut, OutermostSize(typ.Type()))
    }
  }

  function DefaultTokens(d: Option<DefaultSpelling>): (toks: seq<string>) {
    if d.Some? then ["="] + [d.value.Text()] else []
  }

  lemma OptionalDefaultSound(s: string) returns (d: Option<DefaultSpelling>)
    requires ParseOptionalDefault(s).Ok? && EndsDefault(Skip(ParseOptionalDefault(s).rest))
    ensures d.Some? ==> d.value.Valid()
    ensures ParseOptionalDefault(s).value == if d.Some? then Some(d.value.Value()) else None
    ensures After(s, DefaultTokens(d)) == Some(Skip(ParseOptionalDefault(s).rest))
  {
    if Accept(s, "=").Some? {
      var v := DefaultSound(Accept(s, "=").value);
      d := Some(v);
      AfterMark(s, "=", [v.Text()]);
    } else {
      d := None;
      SkipTwice(s);
    }
  }

  lemma OptionalDefaultComplete(s: string, d: Option<DefaultSpelling>, rest: string)
    requires d.Some? ==> d.value.Valid()
    requires After(s, DefaultTokens(d)) == Some(rest) && EndsDefault(rest)
    ensures ParseOptionalDefault(s).Ok? && Skip(ParseOptionalDefault(s).rest) == rest
    ensures ParseOptionalDefault(s).value == if d.Some? then Some(d.value.Value()) else None
  {
    if d.Some? {
      AfterMark(s, "=", [d.value.Text()]);
      DefaultComplete(Accept(s, "=").value, d.value, rest);
    } else {
      HeadDecides(s, rest, "=");
      SkipTwice(s);
    }
  }

  lemma ArgumentSound(s: string, kwargOnly: bool) returns (c: ArgumentSpelling)
    requires ParseArgument(s, kwargOnly).Ok? && EndsDefault(Skip(ParseArgument(s, kwargOnly).rest))
    ensures c.Valid() && c.Meaning(kwargOnly) == ParseArgument(s, kwargOnly).value
    ensures After(s, c.Tokens()) == Some(Skip(ParseArgument(s, kwargOnly).rest))
  {
    ParseTypeImage(s);
    var t := TypeSound(s);
    var s1 := ParseType(s).rest;
    var id := ReadIdent(s1);
    var d := OptionalDefaultSound(id.rest);
    c := ArgumentSpelling(t, id.value, d);
    AfterAppend(s, t.Tokens(), [id.value] + DefaultTokens(d));
    AfterSkip(s1, [id.value] + DefaultTokens(d));
    AfterWord(s1, id.value, DefaultTokens(d));
  }

  lemma WordStops(t: string, w: string, toks: seq<string>)
    requires IsIdent(w) && Skip(t) == t && After(t, [w] + toks).Some?
    ensures StopsType(t) && t != "" && t[0] != '*' && t[0] != ')' && t[0] != ','
  {
    AfterWord(t, w, toks);
    assert IsIdentChar(t[0]);
  }

  lemma ArgumentRest(s: string, kwargOnly: bool, c: ArgumentSpelling, s1: string, rest: string)
    requires c.Valid() && After(s, c.typ.Tokens()) == Some(s1) && EndsDefault(rest)
    requires After(s1, [c.name] + DefaultTokens(c.default)) == Some(rest)
    ensures ParseArgument(s, kwargOnly).Ok? && ParseArgument(s, kwargOnly).value == c.Meaning(kwargOnly)
    ensures Skip(ParseArgument(s, kwargOnly).rest) == rest
  {
    WordStops(s1, c.name, DefaultTokens(c.default));
    TypeComplete(s, c.typ, s1);
    ParseTypeImage(s);
    AfterWord(s1, c.name, DefaultTokens(c.default));
    OptionalDefaultComplete(ReadIdent(s1).rest, c.default, rest);
  }

  lemma ArgumentComplete(s: string, kwargOnly: bool, c: ArgumentSpelling, rest: string)
    requires c.Valid() && After(s, c.Tokens()) == Some(rest) && EndsDefault(rest)
    ensures ParseArgument(s, kwargOnly).Ok? && ParseArgument(s, kwargOnly).value == c.Meaning(kwargOnly)
    ensures Skip(ParseArgument(s, kwargOnly).rest) == rest
  {
    AfterAppend(s, c.typ.Tokens(), [c.name] + DefaultTokens(c.default));
    ArgumentRest(s, kwargOnly, c, After(s, c.typ.Tokens()).value, rest);
  }

  // ----- argument lists -----

  /** One place of an argument list: the star, or an argument. */
  datatype Item = Star | Arg(spelling: ArgumentSpelling)
  {
    ghost predicate Valid() {
      Arg? ==> spelling.Valid()
    }

    function Tokens(): (toks: seq<string>)
      requires Arg? ==> spelling.typ.Valid()
    {
      if Star? then ["*"] else spelling.Tokens()
    }
  }

  ghost predicate ValidItems(items: seq<Item>) {
    forall i :: 0 <= i < |items| ==> items[i].Valid()
  }

  /** Items with a comma between any two, and the closing parenthesis. */
  ghost function ItemsTokens(items: seq<Item>): (toks: seq<string>)
    requires items != [] && ValidItems(items)
    decreases |items|, 0
  {
    items[0].Tokens() + MoreItems(items[1..])
  }

  ghost function MoreItems(items: seq<Item>): (toks: seq<string>)
    requires ValidItems(items)
    decreases |items|, 1
  {
    if items == [] then [")"] else [","] + ItemsTokens(items)
  }

  /** The arguments in order; those behind a star are keyword-only. */
  ghost function Arguments(items: seq<Item>, kwargOnly: bool): (args: seq<Argument>)
    requires ValidItems(items)
  {
    if items == [] then []
    else if items[0].Star? then Arguments(items[1..], true)
    else [items[0].spelling.Meaning(kwargOnly)] + Arguments(items[1..], kwargOnly)
  }

  ghost function ListTokens(items: seq<Item>): (toks: seq<string>)
    requires ValidItems(items)
  {
    ["("] + (if items == [] then [")"] else ItemsTokens(items))
  }

  /** What comes behind an item. */
  lemma MoreItemsHead(s: string, items: seq<Item>)
    requires ValidItems(items) && Skip(s) == s && After(s, MoreItems(items)).Some?
    ensures EndsDefault(s)
  {
    if items == [] { AfterMark(s, ")", []); } else { AfterMark(s, ",", ItemsTokens(items)); }
  }

  lemma PrependItem(x: Item, more: seq<Item>, kwargOnly: bool) returns (items: seq<Item>)
    requires x.Valid() && ValidItems(more)
    ensures items != [] && ValidItems(items) && ItemsTokens(items) == x.Tokens() + MoreItems(more)
    ensures x.Star? ==> Arguments(items, kwargOnly) == Arguments(more, true)
    ensures x.Arg? ==> Arguments(items, kwargOnly) == [x.spelling.Meaning(kwargOnly)] + Arguments(more, kwargOnly)
  {
    items := [x] + more;
    assert items[1..] == more;
  }

  lemma {:induction false} ArgLoopSound(s: string, kwargOnly: bool) returns (items: seq<Item>)
    requires ArgLoop(s, kwargOnly).Ok?
    ensures items != [] && ValidItems(items) && Arguments(items, kwargOnly) == ArgLoop(s, kwargOnly).value
    ensures After(s, ItemsTokens(items)) == Some(Skip(ArgLoop(s, kwargOnly).rest))
    decreases |s|, 1
  {
    var star := Accept(s, "*");
    if star.Some? {
      var more := ArgNextSound(star.value, true);
      items := PrependItem(Star, more, kwargOnly);
      AfterMark(s, "*", MoreItems(more));
    } else {
      var r := ParseArgument(s, kwargOnly).rest;
      var more := ArgNextSound(r, kwargOnly);
      AfterSkip(r, MoreItems(more));
      SkipTwice(r);
      MoreItemsHead(Skip(r), more);
      var a := ArgumentSound(s, kwargOnly);
      items := PrependItem(Arg(a), more, kwargOnly);
      AfterAppend(s, a.Tokens(), MoreItems(more));
    }
  }

  lemma {:induction false} ArgNextSound(s: string, kwargOnly: bool) returns (items: seq<Item>)
    requires ArgNext(s, kwargOnly).Ok?
    ensures ValidItems(items) && Arguments(items, kwargOnly) == ArgNext(s, kwargOnly).value
    ensures After(s, MoreItems(items)) == Some(Skip(ArgNext(s, kwargOnly).rest))
    decreases |s|, 0
  {
    if Accept(s, ")").Some? {
      items := [];
      AfterMark(s, ")", []);
    } else {
      items := ArgLoopSound(Accept(s, ",").value, kwargOnly);
      AfterMark(s, ",", ItemsTokens(items));
    }
  }

  lemma ArgumentHead(s: string, c: ArgumentSpelling, toks: seq<string>)
    requires c.Valid() && After(s, c.Tokens() + toks).Some?
    ensures Accept(s, "*").None? && Accept(s, ")").None?
  {
    AfterAppend(s, c.Tokens(), toks);
    AfterAppend(s, c.typ.Tokens(), [c.name] + DefaultTokens(c.default));
    TypeHead(s, c.typ);
  }

  lemma TypeHead(s: string, c: TypeSpelling)
    requires c.Valid() && After(s, c.Tokens()).Some?
    ensures Accept(s, "*").None? && Accept(s, ")").None? && Accept(s, "(").None?
  {
    var tail := (if c.alias.Some? then c.alias.value.Tokens() else []) + WrapsTokens(c.wraps);
    BaseNameIsWord(c.word, c.base);
    AfterWord(s, c.word, tail);
    assert IsIdentChar(Skip(s)[0]);
    HeadDecides(s, Skip(s), "*");
    HeadDecides(s, Skip(s), ")");
    HeadDecides(s, Skip(s), "(");
  }

  lemma {:induction false} ArgLoopComplete(s: string, kwargOnly: bool, items: seq<Item>, rest: string)
    requires items != [] && ValidItems(items) && After(s, ItemsTokens(items)) == Some(rest)
    ensures ArgLoop(s, kwargOnly).Ok? && ArgLoop(s, kwargOnly).value == Arguments(items, kwargOnly)
    ensures Skip(ArgLoop(s, kwargOnly).rest) == rest
    decreases |items|, 0
  {
    var more := MoreItems(items[1..]);
    if items[0].Star? {
      AfterMark(s, "*", more);
      ArgNextComplete(Accept(s, "*").value, true, items[1..], rest);
    } else {
      var c := items[0].spelling;
      ArgumentHead(s, c, more);
      AfterAppend(s, c.Tokens(), more);
      var s1 := After(s, c.Tokens()).value;
      MoreItemsHead(s1, items[1..]);
      ArgumentComplete(s, kwargOnly, c, s1);
      var r := ParseArgument(s, kwargOnly).rest;
      AfterSkip(r, more);
      ArgNextComplete(r, kwargOnly, items[1..], rest);
    }
  }

  lemma {:induction false} ArgNextComplete(s: string, kwargOnly: bool, items: seq<Item>, rest: string)
    requires ValidItems(items) && After(s, MoreItems(items)) == Some(rest)
    ensures ArgNext(s, kwargOnly).Ok? && ArgNext(s, kwargOnly).value == Arguments(items, kwargOnly)
    ensures Skip(ArgNext(s, kwargOnly).rest) == rest
    decreases |items|, 1
  {
    if items == [] {
      AfterMark(s, ")", []);
    } else {
      AfterMark(s, ",", ItemsTokens(items));
      HeadDecides(s, Skip(s), ")");
      ArgLoopComplete(Accept(s, ",").value, kwargOnly, items, rest);
    }
  }

  lemma ArgumentsSound(s: string) returns (items: seq<Item>)
    requires ParseArguments(s).Ok?
    ensures ValidItems(items) && Arguments(items, false) == ParseArguments(s).value
    ensures After(s, ListTokens(items)) == Some(Skip(ParseArguments(s).rest))
  {
    var s1 := Accept(s, "(").value;
    if Accept(s1, ")").Some? {
      items := [];
      AfterMark(s1, ")", []);
      AfterMark(s, "(", [")"]);
    } else {
      items := ArgLoopSound(s1, false);
      AfterMark(s, "(", ItemsTokens(items));
    }
  }

  lemma FirstItemHead(s: string, items: seq<Item>)
    requires items != [] && ValidItems(items) && After(s, ItemsTokens(items)).Some?
    ensures Accept(s, ")").None?
  {
    if items[0].Star? {
      AfterMark(s, "*", MoreItems(items[1..]));
      HeadDecides(s, Skip(s), ")");
    } else {
      ArgumentHead(s, items[0].spelling, MoreItems(items[1..]));
    }
  }

  lemma ArgumentsComplete(s: string, items: seq<Item>, rest: string)
    requires ValidItems(items) && After(s, ListTokens(items)) == Some(rest)
    ensures ParseArguments(s).Ok? && ParseArguments(s).value == Arguments(items, false)
    ensures Skip(ParseArguments(s).rest) == rest
  {
    if items == [] {
      AfterMark(s, "(", [")"]);
      AfterMark(Accept(s, "(").value, ")", []);
    } else {
      AfterMark(s, "(", ItemsTokens(items));
      FirstItemHead(Accept(s, "(").value, items);
      ArgLoopComplete(Accept(s, "(").value, false, items, rest);
    }
  }

  // ----- results -----

  /** A way to write a result; the name may be missing. */
  datatype ResultSpelling = ResultSpelling(typ: TypeSpelling, name: string)
  {
    predicate Valid() {
      typ.Valid() && (name == "" || IsIdent(name))
    }

    function Tokens(): (toks: seq<string>)
      requires Valid()
    {
      typ.Tokens() + (if name == "" then [] else [name])
    }

    ghost function Meaning(): (a: Argument)
      requires Valid()
    {
      Argument(name, typ.Type(), NoneV, false, false, typ.Alias(), false, OutermostSize(typ.Type()))
    }
  }

  predicate AreResults(rs: seq<ResultSpelling>) {
    forall i :: 0 <= i < |rs| ==> rs[i].Valid()
  }

  function ResultsTokens(rs: seq<ResultSpelling>): (toks: seq<string>)
    requires rs != [] && AreResults(rs)
    decreases |rs|, 0
  {
    rs[0].Tokens() + MoreResults(rs[1..])
  }

  function MoreResults(rs: seq<ResultSpelling>): (toks: seq<string>)
    requires AreResults(rs)
    decreases |rs|, 1
  {
    if rs == [] then [")"] else [","] + ResultsTokens(rs)
  }

  ghost function Meanings(rs: seq<ResultSpelling>): (results: seq<Argument>)
    requires AreResults(rs)
  {
    if rs == [] then [] else [rs[0].Meaning()] + Meanings(rs[1..])
  }

  /** One bare result, or any number in parentheses. */
  datatype ResultsSpelling = One(result: ResultSpelling) | Many(results: seq<ResultSpelling>)
  {
    predicate Valid() {
      if One? then result.Valid() else AreResults(results)
    }

    function Tokens(): (toks: seq<string>)
      requires Valid()
    {
      if One? then result.Tokens()
      else ["("] + (if results == [] then [")"] else ResultsTokens(results))
    }

    ghost function Meaning(): (rets: seq<Argument>)
      requires Valid()
    {
      if One? then [result.Meaning()] else Meanings(results)
    }
  }

  /** What may come behind a result. */
  predicate EndsResult(rest: string) {
    rest == "" || rest[0] == ',' || rest[0] == ')'
  }

  lemma UnnamedSound(s: string, t: TypeSpelling, s1: string)
    requires t.Valid() && ParseType(s).Ok? && ParseType(s).rest == s1 && After(s, t.Tokens()) == Some(Skip(s1))
    requires t.Type() == ParseType(s).value.typ && t.Alias() == ParseType(s).value.alias
    requires Skip(s1) == "" || Accept(s1, ",").Some? || Accept(s1, ")").Some?
    ensures ResultSpelling(t, "").Meaning() == ParseReturn(s).value
    ensures After(s, ResultSpelling(t, "").Tokens()) == Some(Skip(ParseReturn(s).rest))
  {
    ParseTypeImage(s);
    SkipTwice(s1);
    assert t.Tokens() + [] == t.Tokens();
  }

  lemma NamedSound(s: string, t: TypeSpelling, s1: string, name: string, s2: string)
    requires t.Valid() && ParseType(s).Ok? && ParseType(s).rest == s1 && After(s, t.Tokens()) == Some(Skip(s1))
    requires t.Type() == ParseType(s).value.typ && t.Alias() == ParseType(s).value.alias
    requires Skip(s1) != "" && Accept(s1, ",").None? && Accept(s1, ")").None? && ReadIdent(s1) == Ok(name, s2)
    ensures ResultSpelling(t, name).Meaning() == ParseReturn(s).value
    ensures After(s, ResultSpelling(t, name).Tokens()) == Some(Skip(ParseReturn(s).rest))
  {
    ParseTypeImage(s);
    AfterAppend(s, t.Tokens(), [name]);
    AfterSkip(s1, [name]);
    assert [name] == [name] + [];
    AfterWord(s1, name, []);
  }

  lemma ResultSound(s: string) returns (c: ResultSpelling)
    requires ParseReturn(s).Ok?
    ensures c.Valid() && c.Meaning() == ParseReturn(s).value
    ensures After(s, c.Tokens()) == Some(Skip(ParseReturn(s).rest))
  {
    var t := TypeSound(s);
    var s1 := ParseType(s).rest;
    if Skip(s1) == "" || Accept(s1, ",").Some? || Accept(s1, ")").Some? {
      c := ResultSpelling(t, "");
      UnnamedSound(s, t, s1);
    } else {
      c := ResultSpelling(t, ReadIdent(s1).value);
      NamedSound(s, t, s1, ReadIdent(s1).value, ReadIdent(s1).rest);
    }
  }

  lemma UnnamedComplete(s: string, t: TypeSpelling, rest: string)
    requires t.Valid() && After(s, t.Tokens()) == Some(rest) && EndsResult(rest)
    ensures ParseReturn(s).Ok? && Skip(ParseReturn(s).rest) == rest
    ensures ParseReturn(s).value == ResultSpelling(t, "").Meaning()
  {
    ParseTypeImage(s);
    TypeComplete(s, t, rest);
    EndsResultAccepts(rest);
  }

  lemma NamedComplete(s: string, t: TypeSpelling, s1: string, name: string, rest: string)
    requires t.Valid() && IsIdent(name) && After(s, t.Tokens()) == Some(s1) && After(s1, [name]) == Some(rest)
    ensures ParseReturn(s).Ok? && Skip(ParseReturn(s).rest) == rest
    ensures ParseReturn(s).value == ResultSpelling(t, name).Meaning()
  {
    ParseTypeImage(s);
    assert [name] == [name] + [];
    WordStops(s1, name, []);
    TypeComplete(s, t, s1);
    AfterWord(s1, name, []);
    HeadDecides(s1, s1, ",");
    HeadDecides(s1, s1, ")");
  }

  lemma ResultComplete(s: string, c: ResultSpelling, rest: string)
    requires c.Valid() && After(s, c.Tokens()) == Some(rest) && EndsResult(rest)
    ensures ParseReturn(s).Ok? && ParseReturn(s).value == c.Meaning() && Skip(ParseReturn(s).rest) == rest
  {
    if c.name == "" {
      assert c.typ.Tokens() + [] == c.typ.Tokens();
      UnnamedComplete(s, c.typ, rest);
    } else {
      AfterAppend(s, c.typ.Tokens(), [c.name]);
      NamedComplete(s, c.typ, After(s, c.typ.Tokens()).value, c.name, rest);
    }
  }

  lemma EndsResultAccepts(rest: string)
    requires EndsResult(rest)
    ensures rest == "" || Accept(rest, ",").Some? || Accept(rest, ")").Some?
    ensures Skip(rest) == rest
  {
  }

  lemma MoreResultsHead(s: string, rs: seq<ResultSpelling>)
    requires AreResults(rs) && Skip(s) == s && After(s, MoreResults(rs)).Some?
    ensures EndsResult(s)
  {
    if rs == [] { AfterMark(s, ")", []); } else { AfterMark(s, ",", ResultsTokens(rs)); }
  }

  lemma {:induction false} ReturnLoopSound(s: string) returns (rs: seq<ResultSpelling>)
    requires ReturnLoop(s).Ok?
    ensures rs != [] && AreResults(rs) && Meanings(rs) == ReturnLoop(s).value
    ensures After(s, ResultsTokens(rs)) == Some(Skip(ReturnLoop(s).rest))
    decreases |s|, 1
  {
    var c := ResultSound(s);
    var r := ParseReturn(s).rest;
    var more := ReturnNextSound(r);
    rs := [c] + more;
    assert rs[1..] == more;
    AfterSkip(r, MoreResults(more));
    AfterAppend(s, c.Tokens(), MoreResults(more));
  }

  lemma {:induction false} ReturnNextSound(s: string) returns (rs: seq<ResultSpelling>)
    requires ReturnNext(s).Ok?
    ensures AreResults(rs) && Meanings(rs) == ReturnNext(s).value
    ensures After(s, MoreResults(rs)) == Some(Skip(ReturnNext(s).rest))
    decreases |s|, 0
  {
    if Accept(s, ",").Some? {
      rs := ReturnLoopSound(Accept(s, ",").value);
      AfterMark(s, ",", ResultsTokens(rs));
    } else {
      rs := [];
      AfterMark(s, ")", []);
    }
  }

  lemma {:induction false} ReturnLoopComplete(s: string, rs: seq<ResultSpelling>, rest: string)
    requires rs != [] && AreResults(rs) && After(s, ResultsTokens(rs)) == Some(rest)
    ensures ReturnLoop(s).Ok? && ReturnLoop(s).value == Meanings(rs) && Skip(ReturnLoop(s).rest) == rest
    decreases |rs|, 0
  {
    var more := MoreResults(rs[1..]);
    AfterAppend(s, rs[0].Tokens(), more);
    var s1 := After(s, rs[0].Tokens()).value;
    MoreResultsHead(s1, rs[1..]);
    ResultComplete(s, rs[0], s1);
    var r := ParseReturn(s).rest;
    AfterSkip(r, more);
    ReturnNextComplete(r, rs[1..], rest);
  }

  lemma {:induction false} ReturnNextComplete(s: string, rs: seq<ResultSpelling>, rest: string)
    requires AreResults(rs) && After(s, MoreResults(rs)) == Some(rest)
    ensures ReturnNext(s).Ok? && ReturnNext(s).value == Meanings(rs) && Skip(ReturnNext(s).rest) == rest
    decreases |rs|, 1
  {
    if rs == [] {
      AfterMark(s, ")", []);
      HeadDecides(s, Skip(s), ",");
    } else {
      AfterMark(s, ",", ResultsTokens(rs));
      ReturnLoopComplete(Accept(s, ",").value, rs, rest);
    }
  }

  lemma ReturnsSound(s: string) returns (c: ResultsSpelling)
    requires ParseReturns(s).Ok?
    ensures c.Valid() && c.Meaning() == ParseReturns(s).value
    ensures After(s, c.Tokens()) == Some(Skip(ParseReturns(s).rest))
  {
    if Accept(s, "(").Some? {
      var s1 := Accept(s, "(").value;
      if Accept(s1, ")").Some? {
        c := Many([]);
        AfterMark(s, "(", [")"]);
        AfterMark(s1, ")", []);
      } else {
        var rs := ReturnLoopSound(s1);
        c := Many(rs);
        AfterMark(s, "(", ResultsTokens(rs));
      }
    } else {
      var r := ResultSound(s);
      c := One(r);
    }
  }

  lemma ResultHead(s: string, c: ResultSpelling, toks: seq<string>)
    requires c.Valid() && After(s, c.Tokens() + toks).Some?
    ensures Accept(s, "(").None? && Accept(s, ")").None?
  {
    AfterAppend(s, c.Tokens(), toks);
    AfterAppend(s, c.typ.Tokens(), if c.name == "" then [] else [c.name]);
    TypeHead(s, c.typ);
  }

  /** The results of a schema are the last thing in it. */
  lemma ReturnsComplete(s: string, c: ResultsSpelling)
    requires c.Valid() && After(s, c.Tokens()) == Some("")
    ensures ParseReturns(s).Ok? && ParseReturns(s).value == c.Meaning() && Skip(ParseReturns(s).rest) == ""
  {
    if c.One? {
      assert c.result.Tokens() + [] == c.result.Tokens();
      ResultHead(s, c.result, []);
      ResultComplete(s, c.result, "");
    } else if c.results == [] {
      AfterMark(s, "(", [")"]);
      AfterMark(Accept(s, "(").value, ")", []);
    } else {
      AfterMark(s, "(", ResultsTokens(c.results));
      ResultHead(Accept(s, "(").value, c.results[0], MoreResults(c.results[1..]));
      ReturnLoopComplete(Accept(s, "(").value, c.results, "");
    }
  }

  // ----- schemas -----

  predicate ColonsAt(w: string, k: int) {
    0 <= k < |w| - 1 && w[k] == ':' && w[k + 1] == ':'
  }

  predicate HasColons(w: string) {
    exists k :: 0 <= k < |w| - 1 && ColonsAt(w, k)
  }

  /** A way to write a schema. */
  datatype SchemaSpelling = SchemaSpelling(
    qualifier: Option<string>,
    name: string,
    overload: string,
    items: seq<Item>,
    results: ResultsSpelling)
  {
    function HeadWord(): (w: string) {
      if qualifier.Some? then qualifier.value + ("::" + name) else name
    }

    /** The first `::` ends the qualifier. */
    ghost predicate Valid() {
      && IsIdent(HeadWord())
      && (if qualifier.Some? then !HasColons(qualifier.value + ":") else !HasColons(name))
      && (overload == "" || IsIdent(overload)) && ValidItems(items) && results.Valid()
    }

    ghost function Tokens(): (toks: seq<string>)
      requires Valid()
    {
      [HeadWord()] + (OverloadTokens(overload) + (ListTokens(items) + (["->"] + results.Tokens())))
    }

    ghost function Meaning(ns: string): (s: FunctionSchema)
      requires Valid()
    {
      FunctionSchema(name, overload, Arguments(items, false), results.Meaning(),
                     if qualifier.Some? then qualifier.value else ns)
    }
  }

  function OverloadTokens(overload: string): (toks: seq<string>) {
    if overload == "" then [] else ["."] + [overload]
  }

  lemma {:induction false} QualifierFirst(w: string)
    ensures QualifierLen(w) < |w| ==> ColonsAt(w, QualifierLen(w))
    ensures forall k :: 0 <= k < QualifierLen(w) ==> !ColonsAt(w, k)
    decreases |w|
  {
    if |w| >= 2 && !(w[0] == ':' && w[1] == ':') {
      QualifierFirst(w[1..]);
      forall k | 0 <= k < QualifierLen(w) ensures !ColonsAt(w, k) {
        if k > 0 { assert !ColonsAt(w[1..], k - 1); }
      }
    }
  }

  lemma QualifiedAt(q: string, name: string)
    requires !HasColons(q + ":")
    ensures QualifierLen(q + ("::" + name)) == |q|
  {
    var w := q + ("::" + name);
    QualifierFirst(w);
    assert ColonsAt(w, |q|);
    forall k | 0 <= k < |q| ensures !ColonsAt(w, k) {
      assert !ColonsAt(q + ":", k);
    }
  }

  lemma QualifyComplete(c: SchemaSpelling, ns: string)
    requires c.Valid()
    ensures Qualify(c.HeadWord(), ns) == (if c.qualifier.Some? then c.qualifier.value else ns, c.name)
  {
    var w := c.HeadWord();
    if c.qualifier.Some? {
      var q := c.qualifier.value;
      QualifiedAt(q, c.name);
      assert w[..|q|] == q && w[|q| + 2..] == c.name;
    } else {
      QualifierFirst(w);
    }
  }

  lemma NoEarlierColons(w: string, n: nat)
    requires n < |w| && ColonsAt(w, n) && forall k :: 0 <= k < n ==> !ColonsAt(w, k)
    ensures !HasColons(w[..n] + ":") && w == w[..n] + ("::" + w[n + 2..])
  {
    forall k | 0 <= k < n ensures !ColonsAt(w[..n] + ":", k) {
      assert !ColonsAt(w, k);
    }
  }

  lemma QualifySound(w: string, ns: string) returns (qualifier: Option<string>, name: string)
    ensures w == if qualifier.Some? then qualifier.value + ("::" + name) else name
    ensures if qualifier.Some? then !HasColons(qualifier.value + ":") else !HasColons(name)
    ensures Qualify(w, ns) == (if qualifier.Some? then qualifier.value else ns, name)
  {
    var n := QualifierLen(w);
    QualifierFirst(w);
    if n < |w| {
      NoEarlierColons(w, n);
      qualifier, name := Some(w[..n]), w[n + 2..];
    } else {
      qualifier, name := None, w;
    }
  }

  lemma OverloadSound(s: string)
    requires ParseOverload(s).Ok?
    ensures After(s, OverloadTokens(ParseOverload(s).value)) == Some(Skip(ParseOverload(s).rest))
    ensures ParseOverload(s).value == "" || IsIdent(ParseOverload(s).value)
  {
    if Accept(s, ".").Some? {
      var s1 := Accept(s, ".").value;
      var w := ReadIdent(s1).value;
      assert [w] == [w] + [];
      AfterMark(s, ".", [w]);
      AfterWord(s1, w, []);
    } else {
      SkipTwice(s);
    }
  }

  lemma OverloadComplete(s: string, overload: string, rest: string)
    requires overload == "" || IsIdent(overload)
    requires After(s, OverloadTokens(overload)) == Some(rest) && rest != "" && rest[0] == '('
    ensures ParseOverload(s).Ok? && ParseOverload(s).value == overload && Skip(ParseOverload(s).rest) == rest
  {
    if overload == "" {
      HeadDecides(s, rest, ".");
      SkipTwice(s);
    } else {
      assert [overload] == [overload] + [];
      AfterMark(s, ".", [overload]);
      AfterWord(Accept(s, ".").value, overload, []);
    }
  }

  /** The places between the parts of a schema. */
  lemma FourParts(s: string, a: seq<string>, b: seq<string>, c: seq<string>, d: seq<string>)
    ensures After(s, a + (b + (c + d))) == Then(Then(Then(After(s, a), b), c), d)
  {
    AfterAppend(s, a, b + (c + d));
    if After(s, a).Some? {
      var s1 := After(s, a).value;
      AfterAppend(s1, b, c + d);
      if After(s1, b).Some? { AfterAppend(After(s1, b).value, c, d); }
    }
  }

  lemma SchemaSound(text: string, ns: string) returns (c: SchemaSpelling)
    requires ParseSchema(text, ns).Ok?
    ensures c.Valid() && c.Meaning(ns) == ParseSchema(text, ns).value
    ensures After(text, c.Tokens()) == Some("")
  {
    var w, s1, s2, s3, s4, s5 := ParseSchemaStages(text, ns);
    var qualifier, name := QualifySound(w, ns);
    var overload := ParseOverload(s1).value;
    OverloadSound(s1);
    var items := ArgumentsSound(s2);
    var results := ReturnsSound(s4);
    c := SchemaSpelling(qualifier, name, overload, items, results);
    AfterParts(text, c, s1, s2, s3, s4, "");
  }

  predicate Reads(s: string, toks: seq<string>, rest: string) {
    After(s, toks) == Some(Skip(rest))
  }

  lemma AfterParts(text: string, c: SchemaSpelling, s1: string, s2: string, s3: string, s4: string, s5: string)
    requires c.Valid() && ReadIdent(text) == Ok(c.HeadWord(), s1)
    requires Reads(s1, OverloadTokens(c.overload), s2) && Reads(s2, ListTokens(c.items), s3)
    requires Accept(s3, "->") == Some(s4) && Reads(s4, c.results.Tokens(), s5)
    ensures After(text, c.Tokens()) == Some(Skip(s5))
  {
    var a, b, d := OverloadTokens(c.overload), ListTokens(c.items), c.results.Tokens();
    AfterWord(text, c.HeadWord(), a + (b + (["->"] + d)));
    FourParts(s1, a, b, ["->"], d);
    AfterSkip(s2, b);
    AfterSkip(s3, ["->"]);
    AfterMark(s3, "->", []);
    AfterSkip(s4, d);
  }

  lemma ListHead(s: string, items: seq<Item>)
    requires ValidItems(items) && Skip(s) == s && After(s, ListTokens(items)).Some?
    ensures s != "" && s[0] == '('
  {
    AfterMark(s, "(", if items == [] then [")"] else ItemsTokens(items));
  }

  lemma SchemaComplete(text: string, ns: string, c: SchemaSpelling)
    requires c.Valid() && After(text, c.Tokens()) == Some("")
    ensures ParseSchema(text, ns) == Ok(c.Meaning(ns), "")
  {
    var a, b, d := OverloadTokens(c.overload), ListTokens(c.items), c.results.Tokens();
    AfterWord(text, c.HeadWord(), a + (b + (["->"] + d)));
    QualifyComplete(c, ns);
    var s1 := ReadIdent(text).rest;
    FourParts(s1, a, b, ["->"], d);
    var t2 := After(s1, a).value;
    var t3 := After(t2, b).value;
    ListHead(t2, c.items);
    OverloadComplete(s1, c.overload, t2);
    var s2 := ParseOverload(s1).rest;
    AfterSkip(s2, b);
    ArgumentsComplete(s2, c.items, t3);
    var s3 := ParseArguments(s2).rest;
    SignatureComplete(s2, s3, t3, c);
  }

  lemma SignatureComplete(s2: string, s3: string, t3: string, c: SchemaSpelling)
    requires c.Valid() && ParseArguments(s2) == Ok(Arguments(c.items, false), s3) && Skip(s3) == t3
    requires Then(After(t3, ["->"]), c.results.Tokens()) == Some("")
    ensures ParseSignature(s2) == Ok((Arguments(c.items, false), c.results.Meaning()), "")
  {
    AfterSkip(s3, ["->"]);
    AfterMark(s3, "->", []);
    var s4 := Accept(s3, "->").value;
    AfterSkip(s4, c.results.Tokens());
    ReturnsComplete(s4, c.results);
  }

  /** The text is a spelling of the schema. */
  ghost predicate Spells(text: string, ns: string, s: FunctionSchema) {
    exists c: SchemaSpelling :: c.Valid() && After(text, c.Tokens()) == Some("") && c.Meaning(ns) == s
  }

  /** The reader accepts a text exactly when it is a spelling of some schema, and yields that
      schema. */
  lemma AcceptsExactly(text: string, ns: string, s: FunctionSchema)
    ensures ParseSchema(text, ns) == Ok(s, "") <==> Spells(text, ns, s)
  {
    if ParseSchema(text, ns) == Ok(s, "") {
      var c := SchemaSound(text, ns);
    }
    if Spells(text, ns, s) {
      var c: SchemaSpelling :| c.Valid() && After(text, c.Tokens()) == Some("") && c.Meaning(ns) == s;
      SchemaComplete(text, ns, c);
    }
  }
}
