/**
 What the schema reader computes, as functions of the text still to be read.
 Each reader returns a value and the text left after it. `SchemaReader` holds the
 cursor-based implementation that is proved equal to these functions.
 */
module SchemaGrammar {
  import opened Text
  import opened SchemaModel

  /** How reading can fail: the schema error itself, reading past the end of the
      text after `=`, a malformed string literal, and the escapes not modelled. */
  datatype Failure = SchemaParseError | IndexError | SyntaxError | UnsupportedEscape

  datatype Parsed<+T> = Ok(value: T, rest: string) | Err(error: Failure)
  {
    predicate IsFailure() { Err? }

    function PropagateFailure<U>(): Parsed<U>
      requires Err?
    {
      Err(error)
    }

    function Extract(): (T, string)
      requires Ok?
    {
      (value, rest)
    }
  }

  // ----- tokens -----

  /** The text after `tok` when it comes next, spaces aside. */
  function Accept(s: string, tok: string): (r: Option<string>)
    ensures r.Some? ==> |r.value| <= |s| - |tok|
  {
    var t := Skip(s);
    if tok <= t then Some(t[|tok|..]) else None
  }

  function Expect(s: string, tok: string): (r: Parsed<()>)
    ensures r.Ok? ==> |r.rest| <= |s| - |tok|
  {
    match Accept(s, tok)
    case Some(rest) => Ok((), rest)
    case None => Err(SchemaParseError)
  }

  predicate IsIdent(w: string) {
    w != "" && forall i :: 0 <= i < |w| ==> IsIdentChar(w[i])
  }

  function ReadIdent(s: string): (r: Parsed<string>)
    ensures r.Ok? ==> IsIdent(r.value) && |r.rest| < |s|
  {
    var t := Skip(s);
    var n := SpanLen(IsIdentChar, t);
    if n == 0 then Err(SchemaParseError) else Ok(t[..n], t[n..])
  }

  // ----- alias annotations -----

  datatype AliasParts = AliasParts(before: seq<string>, after: seq<string>, inAfter: bool)

  function PushName(p: AliasParts, name: string): (r: AliasParts) {
    if p.inAfter then p.(after := p.after + [name]) else p.(before := p.before + [name])
  }

  function AliasName(s: string): (r: Parsed<string>)
    ensures r.Ok? ==> IsAliasName(r.value) && |r.rest| < |s|
  {
    match Accept(s, "*")
    case Some(rest) => Ok("*", rest)
    case None => ReadIdent(s)
  }

  predicate IsAliasName(w: string) {
    w == "*" || IsIdent(w)
  }

  function AliasLoop(s: string, p: AliasParts): (r: Parsed<AliasParts>)
    ensures r.Ok? ==> |r.rest| < |s|
    decreases |s|, 1
  {
    var (name, rest) :- AliasName(s);
    AliasNext(rest, PushName(p, name))
  }

  /** After a name: another name of the same set, the start of the after-set, or the end. */
  function AliasNext(s: string, p: AliasParts): (r: Parsed<AliasParts>)
    ensures r.Ok? ==> |r.rest| <= |s|
    decreases |s|, 0
  {
    match Accept(s, "|")
    case Some(rest) => AliasLoop(rest, p)
    case None =>
      match Accept(s, "->")
      case Some(rest) => AliasLoop(rest, p.(inAfter := true))
      case None => Ok(p, Skip(s))
  }

  function NameSet(names: seq<string>): (r: set<string>) {
    set x | x in names
  }

  function AliasOf(p: AliasParts, isWrite: bool): (r: AliasInfo) {
    AliasInfo(NameSet(p.before), if p.after == [] then NameSet(p.before) else NameSet(p.after), isWrite)
  }

  /** What follows the opening parenthesis of an annotation. */
  function ParseAlias(s: string): (r: Parsed<AliasInfo>)
    ensures r.Ok? ==> |r.rest| < |s|
  {
    var (p, s1) :- AliasLoop(s, AliasParts([], [], false));
    ParseAliasEnd(s1, p)
  }

  function ParseAliasEnd(s: string, p: AliasParts): (r: Parsed<AliasInfo>)
    ensures r.Ok? ==> |r.rest| < |s|
  {
    var bang := Accept(s, "!");
    var (_, rest) :- Expect(if bang.Some? then bang.value else s, ")");
    Ok(AliasOf(p, bang.Some?), rest)
  }

  // ----- types -----

  datatype Typed = Typed(typ: SchemaType, alias: Option<AliasInfo>, size: Option<nat>)

  /** The digits of a list size and its closing bracket. */
  function ParseSize(s: string): (r: Parsed<Option<nat>>)
    ensures r.Ok? ==> |r.rest| < |s|
  {
    var u := Skip(s);
    var n := SpanLen(IsDigit, u);
    var (_, rest) :- Expect(u[n..], "]");
    Ok(if n == 0 then None else Some(NatOf(u[..n])), rest)
  }

  function TypeSuffix(s: string, t: SchemaType, size: Option<nat>): (r: Parsed<(SchemaType, Option<nat>)>)
    ensures r.Ok? ==> |r.rest| <= |s|
    decreases |s|
  {
    match Accept(s, "?")
    case Some(rest) => TypeSuffix(rest, OptionalType(t), size)
    case None =>
      match Accept(s, "[")
      case Some(inner) =>
        var (n, rest) :- ParseSize(inner);
        TypeSuffix(rest, ListType(t, n), n)
      case None => Ok((t, size), Skip(s))
  }

  function ParseAnnotation(s: string): (r: Parsed<Option<AliasInfo>>)
    ensures r.Ok? ==> |r.rest| <= |s|
  {
    match Accept(s, "(")
    case Some(inner) =>
      var (a, rest) :- ParseAlias(inner);
      Ok(Some(a), rest)
    case None => Ok(None, Skip(s))
  }

  function ParseType(s: string): (r: Parsed<Typed>)
    ensures r.Ok? ==> |r.rest| < |s|
  {
    var (name, s1) :- ReadIdent(s);
    match LookupBase(name)
    case None => Err(SchemaParseError)
    case Some(b) =>
      var (alias, s2) :- ParseAnnotation(s1);
      var (ts, s3) :- TypeSuffix(s2, BaseType(b), None);
      Ok(Typed(ts.0, alias, ts.1), s3)
  }

  // ----- defaults -----

  function IsHex(c: char): (r: bool) {
    IsDigit(c) || 'a' <= c <= 'f' || 'A' <= c <= 'F'
  }

  function HexValue(c: char): (d: nat)
    requires IsHex(c)
    ensures d < 16
  {
    if IsDigit(c) then c as int - 48
    else if 'a' <= c then c as int - 87
    else c as int - 55
  }

  /** Escapes that stand for one fixed character. */
  function SimpleEscape(c: char): (r: Option<char>) {
    if c == '\\' || c == '\'' || c == '"' then Some(c)
    else if c == 'n' then Some('\n')
    else if c == 'r' then Some('\r')
    else if c == 't' then Some('\t')
    else if c == 'a' then Some(7 as char)
    else if c == 'b' then Some(8 as char)
    else if c == 'f' then Some(12 as char)
    else if c == 'v' then Some(11 as char)
    else None
  }

  predicate IsUnsupportedEscape(c: char) {
    '0' <= c <= '7' || c == 'N' || c == 'u' || c == 'U' || c == '\n' || c == '\r'
  }

  datatype Decoded = Chars(chars: string) | Bad(error: Failure)

  function Prepend(prefix: string, t: Decoded): (r: Decoded) {
    if t.Chars? then Chars(prefix + t.chars) else t
  }

  /** `ast.literal_eval` on what stands between the quotes. */
  function Unescape(b: string): (r: Decoded)
    decreases |b|
  {
    if b == "" then Chars("")
    else if b[0] == '\n' || b[0] == '\r' || b[0] as int == 0 then Bad(SyntaxError)
    else if b[0] != '\\' then Prepend([b[0]], Unescape(b[1..]))
    else if |b| == 1 then Bad(SyntaxError)
    else if SimpleEscape(b[1]).Some? then Prepend([SimpleEscape(b[1]).value], Unescape(b[2..]))
    else if IsUnsupportedEscape(b[1]) then Bad(UnsupportedEscape)
    else if b[1] as int == 0 then Bad(SyntaxError)
    else if b[1] == 'x' then
      if |b| >= 4 && IsHex(b[2]) && IsHex(b[3])
      then Prepend([(HexValue(b[2]) * 16 + HexValue(b[3])) as char], Unescape(b[4..]))
      else Bad(SyntaxError)
    else Prepend(['\\', b[1]], Unescape(b[2..]))
  }

  /** Characters before the closing quote, an escaped character counting as two;
      past the end of `b` when there is none. */
  function QuoteLen(b: string, q: char): (n: nat)
    decreases |b|
  {
    if b == "" then 0
    else if b[0] == '\\' then if |b| == 1 then 2 else 2 + QuoteLen(b[2..], q)
    else if b[0] == q then 0
    else 1 + QuoteLen(b[1..], q)
  }

  function From(s: string, n: nat): (r: string)
    ensures |r| <= |s|
  {
    if n <= |s| then s[n..] else ""
  }

  /** A quoted default, `t` starting at its opening quote. */
  function ParseQuoted(t: string): (r: Parsed<Value>)
    requires t != ""
    ensures r.Ok? ==> |r.rest| < |t|
  {
    var n := QuoteLen(t[1..], t[0]);
    if n + 1 >= |t| then Err(SyntaxError)
    else
      match Unescape(t[1..n + 1])
      case Bad(e) => Err(e)
      case Chars(w) => Ok(StrV(w), t[n + 2..])
  }

  /** Characters before the bracket that closes depth `depth`, all of them when none does. */
  function ListLen(t: string, depth: int): (n: nat)
    ensures n <= |t|
  {
    if t == "" then 0
    else if t[0] == '[' then 1 + ListLen(t[1..], depth + 1)
    else if t[0] == ']' then if depth == 1 then 0 else 1 + ListLen(t[1..], depth - 1)
    else 1 + ListLen(t[1..], depth)
  }

  function NamedDefault(token: string): (r: Option<Value>) {
    match token
    case "None" => Some(NoneV)
    case "True" => Some(BoolV(true))
    case "False" => Some(BoolV(false))
    case "true" => Some(BoolV(true))
    case "false" => Some(BoolV(false))
    case _ => None
  }

  /** A bare token: a named constant, an integer, a float, or itself. */
  function Literal(token: string): (v: Value)
    ensures !v.ListV?
  {
    if NamedDefault(token).Some? then NamedDefault(token).value
    else if IntValue(token).Some? then IntV(IntValue(token).value)
    else if IsFloatSpelling(token) then FloatV(token)
    else StrV(token)
  }

  function Literals(tokens: seq<string>): (r: seq<Value>)
    ensures |r| == |tokens|
    ensures forall i :: 0 <= i < |r| ==> r[i] == Literal(Strip(tokens[i]))
  {
    if tokens == [] then [] else [Literal(Strip(tokens[0]))] + Literals(tokens[1..])
  }

  function ListItems(inner: string): (r: seq<Value>) {
    if Strip(inner) == "" then [] else Literals(SplitComma(Strip(inner)))
  }

  /** A bracketed default, `t` starting at its opening bracket. */
  function ParseList(t: string): (r: Parsed<Value>)
    requires t != "" && t[0] == '['
    ensures r.Ok? && |r.rest| < |t|
  {
    var n := ListLen(t, 0);
    Ok(ListV(ListItems(t[1..n])), From(t, n + 1))
  }

  predicate NotCloser(c: char) { c != ',' && c != ')' }

  function ParseBare(t: string): (r: Parsed<Value>)
    ensures r.Ok? && |r.rest| <= |t|
  {
    var n := SpanLen(NotCloser, t);
    Ok(Literal(Strip(t[..n])), t[n..])
  }

  function ParseDefault(s: string): (r: Parsed<Value>)
    ensures r.Ok? ==> |r.rest| <= |s|
  {
    var t := Skip(s);
    if t == "" then Err(IndexError)
    else if t[0] == '"' || t[0] == '\'' then ParseQuoted(t)
    else if t[0] == '[' then ParseList(t)
    else ParseBare(t)
  }

  // ----- arguments -----

  /** `=default`, when an equals sign follows. */
  function ParseOptionalDefault(s: string): (r: Parsed<Option<Value>>)
    ensures r.Ok? ==> |r.rest| <= |s|
  {
    match Accept(s, "=")
    case Some(inner) =>
      var (v, rest) :- ParseDefault(inner);
      Ok(Some(v), rest)
    case None => Ok(None, Skip(s))
  }

  function MakeArgument(t: Typed, name: string, d: Option<Value>, kwargOnly: bool): (a: Argument) {
    Argument(name, t.typ, if d.Some? then d.value else NoneV, d.Some?, kwargOnly, t.alias,
             kwargOnly && t.alias.Some? && t.alias.value.isWrite, t.size)
  }

  function ParseArgument(s: string, kwargOnly: bool): (r: Parsed<Argument>)
    ensures r.Ok? ==> |r.rest| < |s|
  {
    var (t, s1) :- ParseType(s);
    var (name, s2) :- ReadIdent(s1);
    var (d, s3) :- ParseOptionalDefault(s2);
    Ok(MakeArgument(t, name, d, kwargOnly), s3)
  }

  function Cons<T>(x: T, r: Parsed<seq<T>>): (r': Parsed<seq<T>>) {
    if r.Ok? then Ok([x] + r.value, r.rest) else r
  }

  /** The argument list from the next argument on, up to its closing parenthesis. */
  function ArgLoop(s: string, kwargOnly: bool): (r: Parsed<seq<Argument>>)
    ensures r.Ok? ==> |r.rest| < |s|
    decreases |s|, 1
  {
    match Accept(s, "*")
    case Some(rest) => ArgNext(rest, true)
    case None =>
      var (a, rest) :- ParseArgument(s, kwargOnly);
      Cons(a, ArgNext(rest, kwargOnly))
  }

  function ArgNext(s: string, kwargOnly: bool): (r: Parsed<seq<Argument>>)
    ensures r.Ok? ==> |r.rest| < |s|
    decreases |s|, 0
  {
    match Accept(s, ")")
    case Some(rest) => Ok([], rest)
    case None =>
      var (_, rest) :- Expect(s, ",");
      ArgLoop(rest, kwargOnly)
  }

  function ParseArguments(s: string): (r: Parsed<seq<Argument>>)
    ensures r.Ok? ==> |r.rest| < |s|
  {
    var (_, s1) :- Expect(s, "(");
    match Accept(s1, ")")
    case Some(rest) => Ok([], rest)
    case None => ArgLoop(s1, false)
  }

  // ----- returns -----

  function ParseReturn(s: string): (r: Parsed<Argument>)
    ensures r.Ok? ==> |r.rest| < |s|
  {
    var (t, s1) :- ParseType(s);
    if Skip(s1) == "" || Accept(s1, ",").Some? || Accept(s1, ")").Some?
    then Ok(MakeReturn(t, ""), Skip(s1))
    else
      var (name, s2) :- ReadIdent(s1);
      Ok(MakeReturn(t, name), s2)
  }

  function MakeReturn(t: Typed, name: string): (a: Argument) {
    Argument(name, t.typ, NoneV, false, false, t.alias, false, t.size)
  }

  /** A parenthesised list of returns, from its first return on. */
  function ReturnLoop(s: string): (r: Parsed<seq<Argument>>)
    ensures r.Ok? ==> |r.rest| < |s|
    decreases |s|, 1
  {
    var (a, s1) :- ParseReturn(s);
    Cons(a, ReturnNext(s1))
  }

  function ReturnNext(s: string): (r: Parsed<seq<Argument>>)
    ensures r.Ok? ==> |r.rest| < |s|
    decreases |s|, 0
  {
    match Accept(s, ",")
    case Some(rest) => ReturnLoop(rest)
    case None =>
      var (_, rest) :- Expect(s, ")");
      Ok([], rest)
  }

  function ParseReturns(s: string): (r: Parsed<seq<Argument>>)
    ensures r.Ok? ==> |r.rest| < |s|
  {
    match Accept(s, "(")
    case Some(s1) =>
      match Accept(s1, ")") {
        case Some(rest) => Ok([], rest)
        case None => ReturnLoop(s1)
      }
    case None =>
      var (a, rest) :- ParseReturn(s);
      Ok([a], rest)
  }

  // ----- schemas -----

  /** Where `::` first occurs, or the length of `w`. */
  function QualifierLen(w: string): (n: nat)
    ensures n <= |w|
    ensures n < |w| ==> n + 2 <= |w|
  {
    if |w| < 2 then |w|
    else if w[0] == ':' && w[1] == ':' then 0
    else 1 + QualifierLen(w[1..])
  }

  function ParseOverload(s: string): (r: Parsed<string>)
    ensures r.Ok? ==> |r.rest| <= |s|
  {
    match Accept(s, ".")
    case Some(rest) => ReadIdent(rest)
    case None => Ok("", Skip(s))
  }

  function Qualify(w: string, ns: string): (r: (string, string)) {
    var n := QualifierLen(w);
    if n < |w| then (w[..n], w[n + 2..]) else (ns, w)
  }

  /** The arguments, the arrow, the returns, and nothing after them. */
  function ParseSignature(s: string): (r: Parsed<(seq<Argument>, seq<Argument>)>)
    ensures r.Ok? ==> r.rest == ""
  {
    var (args, s1) :- ParseArguments(s);
    var (_, s2) :- Expect(s1, "->");
    var (rets, s3) :- ParseReturns(s2);
    if Skip(s3) != "" then Err(SchemaParseError) else Ok((args, rets), "")
  }

  /** The whole schema; `Ok` only when nothing but spaces is left. */
  function ParseSchema(text: string, ns: string): (r: Parsed<FunctionSchema>)
    ensures r.Ok? ==> r.rest == ""
  {
    var (qualified, s1) :- ReadIdent(text);
    var (overload, s2) :- ParseOverload(s1);
    var (signature, _) :- ParseSignature(s2);
    var q := Qualify(qualified, ns);
    Ok(FunctionSchema(q.1, overload, signature.0, signature.1, q.0), "")
  }
}
