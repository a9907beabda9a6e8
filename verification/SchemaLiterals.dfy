/**
 The ways to write a default value, and what each denotes: bare words, quoted text put
 together from pieces, bracketed lists. The reader's functions accept exactly these.
 */
module SchemaLiterals {
  import opened Text
  import opened Spellings
  import opened SchemaModel
  import opened SchemaGrammar
  import opened SchemaPrinted

  // ----- bare words -----

  predicate IsConstant(w: string) {
    w in ["None", "True", "False", "true", "false"]
  }

  ghost predicate SpellsSomeInt(w: string) {
    exists n :: SpellsInt(w, n)
  }

  /** What a bare word stands for. */
  ghost predicate Denotes(w: string, v: Value) {
    match v
    case NoneV => w == "None"
    case BoolV(b) => w in (if b then ["True", "true"] else ["False", "false"])
    case IntV(n) => SpellsInt(w, n)
    case FloatV(x) => x == w && SpellsFloat(w) && !SpellsSomeInt(w)
    case StrV(x) => x == w && !IsConstant(w) && !SpellsSomeInt(w) && !SpellsFloat(w)
    case ListV(_) => false
  }

  lemma SomeInt(w: string)
    ensures IntValue(w).Some? <==> SpellsSomeInt(w)
  {
    if IntValue(w).Some? { IntValueExactly(w, IntValue(w).value); }
    forall n | SpellsInt(w, n) ensures IntValue(w).Some? { IntValueExactly(w, n); }
  }

  lemma NamedExactly(w: string, v: Value)
    ensures NamedDefault(w) == Some(v) <==> (v.NoneV? || v.BoolV?) && Denotes(w, v)
    ensures NamedDefault(w).Some? <==> IsConstant(w)
  {
  }

  /** A bare word is read as the value it denotes, and as no other. */
  lemma LiteralExactly(w: string, v: Value)
    ensures Literal(w) == v <==> Denotes(w, v)
  {
    SomeInt(w);
    FloatExactly(w);
    NamedExactly(w, v);
    if v.IntV? { IntValueExactly(w, v.number); }
    if IntValue(w).Some? || IsFloatSpelling(w) { NumbersAreNotNamed(w); }
  }

  // ----- quoted text -----

  /** The escapes that stand for one character. */
  const ESCAPES: map<char, char> := map[
    '\\' := '\\', '\'' := '\'', '"' := '"', 'n' := '\n', 'r' := '\r', 't' := '\t',
    'a' := 7 as char, 'b' := 8 as char, 'f' := 12 as char, 'v' := 11 as char]

  const HEX := "0123456789abcdef"
  const HEX_UPPER := "0123456789ABCDEF"

  /** A hexadecimal digit in either case. */
  predicate IsHexOf(c: char, d: nat) {
    d < 16 && (c == HEX[d] || c == HEX_UPPER[d])
  }

  datatype Piece =
    | Plain(c: char)
    | Escape(c: char)
    | Code(high: char, low: char, code: nat)
  {
    /** Between quotes `q`: no bare quote, backslash, line break or null, and no octal, named or
        Unicode escape. */
    ghost predicate Valid(q: char) {
      match this
      case Plain(c) => c != q && c != '\\' && c != '\n' && c != '\r' && c as int != 0
      case Escape(c) => c != 'x' && c as int != 0 && !IsUnsupportedEscape(c)
      case Code(a, b, n) => exists i: nat, j: nat :: IsHexOf(a, i) && IsHexOf(b, j) && n == 16 * i + j
    }

    function Text(): (w: string) {
      match this
      case Plain(c) => [c]
      case Escape(c) => ['\\', c]
      case Code(a, b, _) => ['\\', 'x', a, b]
    }

    /** An escape without a meaning keeps its backslash. */
    function Chars(): (w: string) {
      match this
      case Plain(c) => [c]
      case Escape(c) => if c in ESCAPES then [ESCAPES[c]] else ['\\', c]
      case Code(_, _, n) => if n < 256 then [n as char] else ""
    }
  }

  ghost predicate AreValid(ps: seq<Piece>, q: char) {
    forall i :: 0 <= i < |ps| ==> ps[i].Valid(q)
  }

  function PiecesText(ps: seq<Piece>): (w: string) {
    if ps == [] then "" else ps[0].Text() + PiecesText(ps[1..])
  }

  function PiecesChars(ps: seq<Piece>): (w: string) {
    if ps == [] then "" else ps[0].Chars() + PiecesChars(ps[1..])
  }

  lemma HexExactly(c: char, d: nat)
    ensures IsHexOf(c, d) <==> IsHex(c) && HexValue(c) == d
  {
    if IsHex(c) {
      HexPlace(c);
    }
  }

  lemma HexPlace(c: char)
    requires IsHex(c)
    ensures IsHexOf(c, HexValue(c))
  {
    var d := HexValue(c);
    if IsDigit(c) {
      assert HEX[d] == (48 + d) as char;
    } else if 'a' <= c {
      assert HEX[d] == (87 + d) as char;
    } else {
      assert HEX_UPPER[d] == (55 + d) as char;
    }
  }

  lemma EscapesExactly(c: char)
    ensures SimpleEscape(c).Some? <==> c in ESCAPES
    ensures c in ESCAPES ==> SimpleEscape(c) == Some(ESCAPES[c])
    ensures c in ESCAPES ==> c != 'x' && c as int != 0 && !IsUnsupportedEscape(c)
  {
  }

  /** A piece before `r` is decoded to its characters and hides no closing quote. */
  predicate PieceReads(p: Piece, q: char, r: string) {
    && Unescape(p.Text() + r) == Prepend(p.Chars(), Unescape(r))
    && QuoteLen(p.Text() + r, q) == |p.Text()| + QuoteLen(r, q)
  }

  lemma UnknownEscape(c: char, r: string)
    requires c != 'x' && c as int != 0 && !IsUnsupportedEscape(c) && SimpleEscape(c).None?
    ensures Unescape(['\\', c] + r) == Prepend(['\\', c], Unescape(r))
  {
    var s := ['\\', c] + r;
    assert s[0] == '\\' && s[1] == c && s[2..] == r;
  }

  lemma PieceRead(p: Piece, q: char, r: string)
    requires p.Valid(q) && (q == '\'' || q == '"')
    ensures PieceReads(p, q, r)
  {
    match p
    case Plain(c) => PlainCharRead(c, q, r);
    case Escape(c) =>
      EscapesExactly(c);
      QuoteLenPair(c, q, r);
      if c in ESCAPES { EscapePairRead(c, q, r); } else { UnknownEscape(c, r); }
    case Code(a, b, n) =>
      var i: nat, j: nat :| IsHexOf(a, i) && IsHexOf(b, j) && n == 16 * i + j;
      HexExactly(a, i);
      HexExactly(b, j);
      HexUnescape(a, b, n, r);
      HexQuoteLen(a, b, q, r);
  }

  lemma {:induction false} PiecesDecode(ps: seq<Piece>, q: char)
    requires AreValid(ps, q) && (q == '\'' || q == '"')
    ensures Unescape(PiecesText(ps)) == Chars(PiecesChars(ps))
    decreases |ps|
  {
    if ps != [] {
      PiecesDecode(ps[1..], q);
      PieceRead(ps[0], q, PiecesText(ps[1..]));
    }
  }

  lemma {:induction false} PiecesEnd(ps: seq<Piece>, q: char, r: string)
    requires AreValid(ps, q) && (q == '\'' || q == '"')
    ensures QuoteLen(PiecesText(ps) + ([q] + r), q) == |PiecesText(ps)|
    decreases |ps|
  {
    if ps == [] {
      assert PiecesText(ps) + ([q] + r) == [q] + r;
    } else {
      var more := PiecesText(ps[1..]);
      PiecesEnd(ps[1..], q, r);
      PieceRead(ps[0], q, more + ([q] + r));
      Associate(ps[0].Text(), more, [q] + r);
    }
  }

  /** The first piece of a text that can be decoded. */
  lemma PlainFirst(b: string, q: char)
    requires b != "" && Unescape(b).Chars? && b[0] != '\\' && b[0] != q
    ensures Plain(b[0]).Valid(q) && Unescape(b[1..]).Chars? && b == Plain(b[0]).Text() + b[1..]
  {
  }

  lemma EscapeFirst(e: char, r: string)
    requires Unescape(['\\', e] + r).Chars? && e != 'x'
    ensures Unescape(r).Chars? && e as int != 0 && !IsUnsupportedEscape(e)
  {
    var b := ['\\', e] + r;
    EscapesExactly(e);
    assert b[0] == '\\' && b[1] == e && b[2..] == r;
  }

  lemma NoLoneBackslash(b: string)
    requires b != "" && Unescape(b).Chars? && b[0] == '\\'
    ensures |b| > 1 && b == ['\\', b[1]] + b[2..]
  {
  }

  lemma CodeFirst(b: string) returns (n: nat)
    requires |b| > 1 && Unescape(b).Chars? && b[0] == '\\' && b[1] == 'x'
    ensures |b| >= 4 && IsHex(b[2]) && IsHex(b[3]) && n == 16 * HexValue(b[2]) + HexValue(b[3])
    ensures Unescape(b[4..]).Chars? && b == ['\\', 'x', b[2], b[3]] + b[4..]
  {
    assert SimpleEscape('x').None? && !IsUnsupportedEscape('x');
    n := 16 * HexValue(b[2]) + HexValue(b[3]);
  }

  lemma FirstPiece(b: string, q: char) returns (p: Piece, r: string)
    requires b != "" && Unescape(b).Chars? && b[0] != q
    ensures p.Valid(q) && b == p.Text() + r && Unescape(r).Chars?
  {
    if b[0] != '\\' {
      PlainFirst(b, q);
      p, r := Plain(b[0]), b[1..];
    } else if |b| > 1 && b[1] == 'x' {
      var n := CodeFirst(b);
      HexPlace(b[2]);
      HexPlace(b[3]);
      p, r := Code(b[2], b[3], n), b[4..];
    } else {
      NoLoneBackslash(b);
      EscapeFirst(b[1], b[2..]);
      p, r := Escape(b[1]), b[2..];
    }
  }

  lemma FirstIsNoQuote(b: string, q: char)
    requires b != "" && QuoteLen(b, q) >= |b| && q != '\\'
    ensures b[0] != q
  {
  }

  /** The first piece of a text that can be decoded and holds no bare quote, and the text after it. */
  lemma NextPiece(b: string, q: char) returns (p: Piece, r: string)
    requires b != "" && Unescape(b).Chars? && QuoteLen(b, q) >= |b| && (q == '\'' || q == '"')
    ensures p.Valid(q) && b == p.Text() + r && |r| < |b|
    ensures Unescape(r).Chars? && QuoteLen(r, q) >= |r|
  {
    FirstIsNoQuote(b, q);
    p, r := FirstPiece(b, q);
    PieceRead(p, q, r);
  }

  lemma PrependPiece(b: string, p: Piece, r: string, more: seq<Piece>, q: char) returns (ps: seq<Piece>)
    requires p.Valid(q) && b == p.Text() + r && Spells(more, r, q)
    ensures Spells(ps, b, q)
  {
    ps := [p] + more;
    assert ps[1..] == more;
  }

  ghost predicate Spells(ps: seq<Piece>, b: string, q: char) {
    AreValid(ps, q) && PiecesText(ps) == b
  }



  ghost predicate Splits(b: string, p: Piece, r: string, q: char) {
    p.Valid(q) && b == p.Text() + r && |r| < |b|
  }

  /** A text that can be split again and again is a row of pieces. */
  lemma {:induction false} ChainPieces(b: string, q: char, good: string -> bool) returns (ps: seq<Piece>)
    requires good(b)
    requires forall x :: good(x) && x != "" ==> exists p, r :: Splits(x, p, r, q) && good(r)
    ensures Spells(ps, b, q)
    decreases |b|
  {
    ps := [];
    if b != "" {
      var p, r :| Splits(b, p, r, q) && good(r);
      ps := ChainPieces(r, q, good);
      ps := PrependPiece(b, p, r, ps, q);
    }
  }

  predicate Decodes(b: string, q: char) {
    Unescape(b).Chars? && QuoteLen(b, q) >= |b|
  }

  lemma FindPieces(b: string, q: char) returns (ps: seq<Piece>)
    requires Decodes(b, q) && (q == '\'' || q == '"')
    ensures Spells(ps, b, q)
  {
    var good := (x: string) => Decodes(x, q);
    forall x | good(x) && x != "" ensures exists p, r :: Splits(x, p, r, q) && good(r) {
      var p, r := NextPiece(x, q);
      assert Splits(x, p, r, q);
    }
    ps := ChainPieces(b, q, good);
  }

  lemma {:induction false} QuoteLenCut(b: string, q: char)
    requires QuoteLen(b, q) < |b|
    ensures b[QuoteLen(b, q)] == q
    ensures QuoteLen(b[..QuoteLen(b, q)], q) == QuoteLen(b, q)
    decreases |b|
  {
    var n := QuoteLen(b, q);
    if b[0] == '\\' && |b| > 1 {
      QuoteLenCut(b[2..], q);
      assert b[..n][2..] == b[2..][..n - 2];
    } else if b[0] != '\\' && b[0] != q {
      QuoteLenCut(b[1..], q);
      assert b[..n][1..] == b[1..][..n - 1];
    }
  }

  // ----- bracketed lists -----

  /** Opened and not yet closed brackets. */
  function Depth(w: string): (d: int) {
    if w == "" then 0
    else Depth(w[..|w| - 1]) + (if w[|w| - 1] == '[' then 1 else if w[|w| - 1] == ']' then -1 else 0)
  }

  /** Every closing bracket closes an earlier one, and none stays open. */
  predicate IsClosed(w: string) {
    Depth(w) == 0 && forall i :: 0 <= i < |w| && w[i] == ']' ==> Depth(w[..i]) > 0
  }

  /** The scan passes any text in which the depth it counts does not fall to 0. */
  lemma {:induction false} ScanPasses(t: string, depth: int, k: nat)
    requires k <= |t|
    requires forall i :: 0 <= i < k && t[i] == ']' ==> depth + Depth(t[..i]) != 1
    ensures ListLen(t, depth) == k + ListLen(t[k..], depth + Depth(t[..k]))
    decreases k
  {
    if k == 0 {
      assert t[0..] == t;
    } else {
      ScanPasses(t, depth, k - 1);
      assert t[k - 1..][1..] == t[k..];
      assert t[..k][..k - 1] == t[..k - 1];
    }
  }

  lemma ClosedPrefix(t: string, n: nat)
    requires n <= |t|
    ensures IsClosed(t[..n]) <==>
            Depth(t[..n]) == 0 && forall i :: 0 <= i < n && t[i] == ']' ==> Depth(t[..i]) > 0
  {
    forall i | 0 <= i < n ensures t[..n][..i] == t[..i] && t[..n][i] == t[i] {}
  }

  lemma ScanClosed(w: string, r: string)
    requires IsClosed(w)
    ensures ListLen(w + ("]" + r), 1) == |w|
  {
    var t, n := w + ("]" + r), |w|;
    assert t[..n] == w && t[n..] == "]" + r;
    ClosedPrefix(t, n);
    ScanPasses(t, 1, n);
    ClosingBracket(r);
  }

  /** Where the scan stops, the text before it is closed. */
  lemma {:induction false} ScanStops(t: string, k: nat)
    requires k <= |t| && k <= ListLen(t, 1) < |t|
    ensures forall i :: 0 <= i < k && t[i] == ']' ==> Depth(t[..i]) > 0
    ensures Depth(t[..k]) >= 0 && ListLen(t, 1) == k + ListLen(t[k..], 1 + Depth(t[..k]))
    decreases k
  {
    if k > 0 {
      ScanStops(t, k - 1);
      assert t[..k][..k - 1] == t[..k - 1];
      assert t[k - 1..][1..] == t[k..];
    } else {
      assert t[0..] == t;
    }
  }

  lemma ScanFindsClosed(t: string, n: nat)
    requires n == ListLen(t, 1) < |t|
    ensures t[n] == ']' && IsClosed(t[..n])
  {
    assert ListLen(t[n..], 1 + Depth(t[..n])) == 0 by { ScanStops(t, n); }
    StopsHere(t[n..], 1 + Depth(t[..n]));
    assert IsClosed(t[..n]) by {
      ScanStops(t, n);
      ClosedPrefix(t, n);
    }
  }

  lemma StopsHere(s: string, depth: int)
    requires s != "" && ListLen(s, depth) == 0
    ensures s[0] == ']' && depth == 1
  {
  }

  predicate CommaFree(parts: seq<string>) {
    forall k, i :: 0 <= k < |parts| && 0 <= i < |parts[k]| ==> parts[k][i] != ','
  }

  lemma JoinCons(p: string, rest: seq<string>)
    requires rest != []
    ensures Join(",", [p] + rest) == p + "," + Join(",", rest)
    ensures (forall i :: 0 <= i < |p| ==> p[i] != ',') && CommaFree(rest) ==> CommaFree([p] + rest)
  {
    assert ([p] + rest)[1..] == rest;
  }

  lemma CommaAt(s: string, n: nat)
    requires n < |s| && s[n] == ','
    ensures s == s[..n] + "," + s[n + 1..]
  {
  }

  lemma {:induction false} JoinSplit(s: string)
    ensures CommaFree(SplitComma(s)) && Join(",", SplitComma(s)) == s
    decreases |s|
  {
    var n := SpanLen(NotComma, s);
    if n < |s| {
      JoinSplit(s[n + 1..]);
      CommaAt(s, n);
      JoinCons(s[..n], SplitComma(s[n + 1..]));
    }
  }

  // ----- default values -----

  /** A way to write a default value. */
  datatype DefaultSpelling =
    | Quoted(quote: char, pieces: seq<Piece>)
    | Listed(inner: string, parts: seq<string>, values: seq<Value>)
    | Bare(word: string, value: Value)
  {
    /** List items are what stands between the commas, whatever brackets they hold; a list with
        nothing but spaces in it has none. */
    ghost predicate Valid() {
      match this
      case Quoted(q, ps) => (q == '\'' || q == '"') && AreValid(ps, q)
      case Listed(inner, parts, vs) =>
        && IsClosed(inner) && CommaFree(parts) && parts != [] && Join(",", parts) == Strip(inner)
        && (if Strip(inner) == "" then vs == []
            else |vs| == |parts| && forall i :: 0 <= i < |vs| ==> Denotes(Strip(parts[i]), vs[i]))
      case Bare(w, v) => IsBareWord(w) && Denotes(w, v)
    }

    function Text(): (w: string) {
      match this
      case Quoted(q, ps) => [q] + (PiecesText(ps) + [q])
      case Listed(inner, _, _) => "[" + (inner + "]")
      case Bare(w, _) => w
    }

    function Value(): (v: Value) {
      match this
      case Quoted(_, ps) => StrV(PiecesChars(ps))
      case Listed(_, _, vs) => ListV(vs)
      case Bare(_, v) => v
    }
  }

  /** No comma, no closing parenthesis, no spaces around it, and no quote or bracket first. */
  predicate IsBareWord(w: string) {
    && Solid(w) && (forall i :: 0 <= i < |w| ==> NotCloser(w[i]))
    && (w == "" || (w[0] != '"' && w[0] != '\'' && w[0] != '['))
  }

  lemma QuotedRead(q: char, ps: seq<Piece>, r: string)
    requires (q == '\'' || q == '"') && AreValid(ps, q)
    ensures ParseQuoted([q] + (PiecesText(ps) + ([q] + r))) == Ok(StrV(PiecesChars(ps)), r)
  {
    PiecesDecode(ps, q);
    PiecesEnd(ps, q, r);
    ParseQuotedStep(q, PiecesText(ps), r);
  }

  lemma CutTwice(t: string, n: nat)
    requires n + 1 < |t|
    ensures t == [t[0]] + (t[1..n + 1] + ([t[n + 1]] + t[n + 2..]))
    ensures t[1..n + 1] == t[1..][..n]
  {
  }

  lemma FindQuoted(t: string) returns (ps: seq<Piece>)
    requires t != "" && (t[0] == '\'' || t[0] == '"') && ParseQuoted(t).Ok?
    ensures AreValid(ps, t[0]) && t == [t[0]] + (PiecesText(ps) + ([t[0]] + ParseQuoted(t).rest))
  {
    var n := QuoteLen(t[1..], t[0]);
    QuoteLenCut(t[1..], t[0]);
    CutTwice(t, n);
    ps := FindPieces(t[1..n + 1], t[0]);
  }

  lemma ItemsDenoted(parts: seq<string>, values: seq<Value>)
    requires |parts| == |values|
    ensures Literals(parts) == values <==> forall i :: 0 <= i < |values| ==> Denotes(Strip(parts[i]), values[i])
  {
    forall i | 0 <= i < |values| ensures Literals(parts)[i] == values[i] <==> Denotes(Strip(parts[i]), values[i]) {
      LiteralExactly(Strip(parts[i]), values[i]);
    }
  }

  lemma ListedItems(d: DefaultSpelling)
    requires d.Listed? && d.Valid()
    ensures ListItems(d.inner) == d.values
  {
    SplitJoin(d.parts);
    if Strip(d.inner) != "" { ItemsDenoted(d.parts, d.values); }
  }

  lemma ClosedRead(inner: string, r: string)
    requires IsClosed(inner)
    ensures ParseList("[" + (inner + ("]" + r))) == Ok(ListV(ListItems(inner)), r)
  {
    var body := inner + ("]" + r);
    ScanClosed(inner, r);
    ParseListCut(body, |inner|);
    assert body[..|inner|] == inner && body[|inner| + 1..] == r;
  }

  lemma ListRead(d: DefaultSpelling, r: string)
    requires d.Listed? && d.Valid()
    ensures ParseList("[" + (d.inner + ("]" + r))) == Ok(d.Value(), r)
  {
    ClosedRead(d.inner, r);
    ListedItems(d);
  }

  lemma FindList(t: string) returns (d: DefaultSpelling)
    requires t != "" && t[0] == '[' && ParseList(t).rest != ""
    ensures d.Listed? && d.Valid() && d.Value() == ParseList(t).value
    ensures t == "[" + (d.inner + ("]" + ParseList(t).rest))
  {
    var body, n := t[1..], ListLen(t[1..], 1);
    assert t == "[" + body;
    ParseListCut(body, n);
    ScanFindsClosed(body, n);
    CutAt(body, n);
    d := ListOf(body[..n]);
  }

  lemma ListOf(inner: string) returns (d: DefaultSpelling)
    requires IsClosed(inner)
    ensures d.Listed? && d.Valid() && d.Value() == ListV(ListItems(inner)) && d.inner == inner
  {
    JoinSplit(Strip(inner));
    d := Listed(inner, SplitComma(Strip(inner)), ListItems(inner));
    if Strip(inner) != "" { ItemsDenoted(d.parts, d.values); }
  }

  lemma BareAt(u: string, r: string)
    requires (forall i :: 0 <= i < |u| ==> NotCloser(u[i])) && EndsDefault(r)
    ensures ParseBare(u + r) == Ok(Literal(Strip(u)), r)
  {
    SpanLenOfPrefix(NotCloser, u, r);
  }

  lemma BareChars(w: string, b: string)
    requires IsBareWord(w) && Blank(b)
    ensures Strip(w + b) == w && forall i :: 0 <= i < |w + b| ==> NotCloser((w + b)[i])
  {
    StripBlank("", w, b);
    assert "" + (w + b) == w + b;
  }

  lemma BareRead(w: string, v: Value, b: string, r: string)
    requires IsBareWord(w) && Denotes(w, v) && Blank(b) && EndsDefault(r)
    ensures ParseBare(w + (b + r)) == Ok(v, r)
  {
    Associate(w, b, r);
    BareChars(w, b);
    BareAt(w + b, r);
    LiteralExactly(w, v);
  }

  /** A text without spaces before it, cut before the spaces behind it. */
  lemma BareOf(u: string) returns (w: string, b: string)
    requires (u == "" || !IsSpace(u[0])) && forall i :: 0 <= i < |u| ==> NotCloser(u[i])
    requires u == "" || (u[0] != '"' && u[0] != '\'' && u[0] != '[')
    ensures w == Strip(u) && Blank(b) && u == w + b && IsBareWord(w)
  {
    SkipFixed(u);
    w := Strip(u);
    b := StripRightCut(u);
  }

  lemma BareParts(t: string, n: nat)
    requires n == SpanLen(NotCloser, t)
    ensures ParseBare(t) == Ok(Literal(Strip(t[..n])), t[n..])
  {
  }

  lemma FindBare(t: string) returns (w: string, b: string)
    requires t != "" && !IsSpace(t[0]) && t[0] != '"' && t[0] != '\'' && t[0] != '['
    ensures Blank(b) && t == w + (b + ParseBare(t).rest)
    ensures IsBareWord(w) && Denotes(w, ParseBare(t).value)
  {
    var n := SpanLen(NotCloser, t);
    BareParts(t, n);
    w, b := BareOf(t[..n]);
    LiteralExactly(w, Literal(w));
    CutJoins(t, n, w, b);
  }

  lemma CutJoins(t: string, n: nat, w: string, b: string)
    requires n <= |t| && t[..n] == w + b
    ensures t == w + (b + t[n..])
  {
    Associate(w, b, t[n..]);
  }
}
