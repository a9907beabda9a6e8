/**
 Text primitives shared by the operator-schema reader and the compile-identifier
 reader: ASCII character classes, maximal spans, stripping, joining and splitting,
 and the decimal spelling of integers.
 */
module Text {

  datatype Option<+T> = None | Some(value: T)

  // ----- character classes (the ASCII part of the runtime's classes) -----

  predicate IsSpace(c: char) {
    var n := c as int;
    n == 32 || 9 <= n <= 13 || 28 <= n <= 31
  }

  predicate IsDigit(c: char) {
    '0' <= c <= '9'
  }

  predicate IsAlnum(c: char) {
    IsDigit(c) || 'a' <= c <= 'z' || 'A' <= c <= 'Z'
  }

  predicate IsIdentChar(c: char) {
    IsAlnum(c) || c == '_' || c == ':'
  }

  predicate NotComma(c: char) {
    c != ','
  }

  // ----- maximal spans -----

  /** Length of the longest prefix of `s` whose characters all satisfy `p`. */
  function SpanLen(p: char -> bool, s: string): (n: nat)
    ensures n <= |s|
    ensures forall i :: 0 <= i < n ==> p(s[i])
    ensures n < |s| ==> !p(s[n])
  {
    if s == "" || !p(s[0]) then 0 else 1 + SpanLen(p, s[1..])
  }

  /** A span is decided by where the class ends, so it is found again after printing. */
  lemma {:induction false} SpanLenOfPrefix(p: char -> bool, w: string, r: string)
    requires forall i :: 0 <= i < |w| ==> p(w[i])
    requires r == "" || !p(r[0])
    ensures SpanLen(p, w + r) == |w|
    ensures (w + r)[..|w|] == w && (w + r)[|w|..] == r
  {
    assert forall i :: 0 <= i < |w| ==> p((w + r)[i]);
    assert r != "" ==> !p((w + r)[|w|]);
  }

  /** The text from the first non-space character on. */
  function Skip(s: string): (r: string)
    ensures r == "" || !IsSpace(r[0])
    ensures |r| <= |s|
  {
    if s != "" && IsSpace(s[0]) then Skip(s[1..]) else s
  }

  lemma SkipFixed(s: string)
    requires s == "" || !IsSpace(s[0])
    ensures Skip(s) == s
  {
  }

  lemma SkipOneSpace(s: string)
    ensures Skip(" " + s) == Skip(s)
  {
    assert (" " + s)[1..] == s;
  }

  function StripRight(s: string): (r: string)
    ensures r <= s
    ensures r != "" ==> !IsSpace(r[|r| - 1])
  {
    if s != "" && IsSpace(s[|s| - 1]) then StripRight(s[..|s| - 1]) else s
  }

  function Strip(s: string): (r: string)
    ensures |r| <= |s|
  {
    StripRight(Skip(s))
  }

  lemma StripFixed(s: string)
    requires s == "" || (!IsSpace(s[0]) && !IsSpace(s[|s| - 1]))
    ensures Strip(s) == s
  {
    SkipFixed(s);
  }

  // ----- joining and splitting -----

  lemma Associate(a: string, b: string, c: string)
    ensures (a + b) + c == a + (b + c)
  {
  }

  function Join(sep: string, parts: seq<string>): (r: string)
  {
    if parts == [] then ""
    else if |parts| == 1 then parts[0]
    else parts[0] + sep + Join(sep, parts[1..])
  }

  function SplitComma(s: string): (parts: seq<string>)
    ensures parts != []
    ensures parts[0] == s[..SpanLen(NotComma, s)]
  {
    var n := SpanLen(NotComma, s);
    if n == |s| then [s] else [s[..n]] + SplitComma(s[n + 1..])
  }

  /** Every piece of the text up to the first comma, and the rest, split on. */
  lemma SplitCommaStep(w: string, r: string)
    requires forall i :: 0 <= i < |w| ==> w[i] != ','
    ensures SplitComma(w) == [w]
    ensures SplitComma(w + "," + r) == [w] + SplitComma(r)
  {
    SpanLenOfPrefix(NotComma, w, "");
    assert w + "" == w;
    SpanLenOfPrefix(NotComma, w, "," + r);
    assert w + "," + r == w + ("," + r);
    assert ("," + r)[1..] == r;
    var s := w + "," + r;
    assert s[|w| + 1..] == r;
  }

  lemma {:induction false} SplitJoin(parts: seq<string>)
    requires parts != []
    requires forall k, i :: 0 <= k < |parts| && 0 <= i < |parts[k]| ==> parts[k][i] != ','
    ensures SplitComma(Join(",", parts)) == parts
  {
    if |parts| == 1 {
      SplitCommaStep(parts[0], "");
    } else {
      SplitCommaStep(parts[0], Join(",", parts[1..]));
      SplitJoin(parts[1..]);
    }
  }

  // ----- decimal spelling -----

  function DigitChar(d: nat): (c: char)
    requires d < 10
    ensures IsDigit(c)
  {
    (d + 48) as char
  }

  function DigitValue(c: char): (d: nat)
    requires IsDigit(c)
    ensures d < 10
  {
    c as int - 48
  }

  predicate AllDigits(s: string) {
    forall i :: 0 <= i < |s| ==> IsDigit(s[i])
  }

  /** `str(n)` for a natural number. */
  function NatText(n: nat): (s: string)
    ensures s != "" && AllDigits(s)
  {
    if n < 10 then [DigitChar(n)] else NatText(n / 10) + [DigitChar(n % 10)]
  }

  /** `int(s)` for a run of digits. */
  function NatOf(s: string): (n: nat)
    requires AllDigits(s)
  {
    if s == "" then 0 else NatOf(s[..|s| - 1]) * 10 + DigitValue(s[|s| - 1])
  }

  lemma {:induction false} NatRoundTrip(n: nat)
    ensures NatOf(NatText(n)) == n
  {
    if n < 10 {
      assert NatText(n)[..0] == "";
    } else {
      NatRoundTrip(n / 10);
      var s := NatText(n);
      assert s[..|s| - 1] == NatText(n / 10);
      assert s[|s| - 1] == DigitChar(n % 10);
    }
  }

  /** `str(n)` for an integer. */
  function IntText(n: int): (s: string)
    ensures s != ""
    ensures forall i :: 0 <= i < |s| ==> IsDigit(s[i]) || s[i] == '-'
  {
    if n < 0 then "-" + NatText(-n) else NatText(n)
  }

  lemma NatTextInjective(m: nat, n: nat)
    requires NatText(m) == NatText(n)
    ensures m == n
  {
    NatRoundTrip(m);
    NatRoundTrip(n);
  }

  lemma IntTextInjective(m: int, n: int)
    requires IntText(m) == IntText(n)
    ensures m == n
  {
    assert forall k: int :: IntText(k)[0] == '-' <==> k < 0;
    if m < 0 {
      assert IntText(m)[1..] == NatText(-m) && IntText(n)[1..] == NatText(-n);
      NatTextInjective(-m, -n);
    } else {
      NatTextInjective(m, n);
    }
  }

  // ----- spellings accepted by int() and float() -----

  /** Digits with single underscores between them. */
  predicate IsDigitPart(s: string) {
    && s != "" && IsDigit(s[0]) && IsDigit(s[|s| - 1])
    && (forall i :: 0 <= i < |s| ==> IsDigit(s[i]) || s[i] == '_')
    && (forall i :: 0 <= i < |s| - 1 ==> s[i] != '_' || s[i + 1] != '_')
  }

  function DropUnderscores(s: string): (r: string)
    requires forall i :: 0 <= i < |s| ==> IsDigit(s[i]) || s[i] == '_'
    ensures AllDigits(r)
  {
    if s == "" then ""
    else if s[0] == '_' then DropUnderscores(s[1..])
    else [s[0]] + DropUnderscores(s[1..])
  }

  lemma {:induction false} DropUnderscoresFixed(s: string)
    requires AllDigits(s)
    ensures DropUnderscores(s) == s
  {
    if s != "" {
      DropUnderscoresFixed(s[1..]);
    }
  }

  function Unsigned(s: string): (r: string)
    ensures |r| <= |s|
  {
    if s != "" && (s[0] == '+' || s[0] == '-') then s[1..] else s
  }

  /** `int(token)` on a stripped token, `None` where it raises `ValueError`. */
  function IntValue(token: string): (r: Option<int>)
    ensures r.Some? <==> IsDigitPart(Unsigned(token))
  {
    var u := Unsigned(token);
    if !IsDigitPart(u) then None
    else
      var n: int := NatOf(DropUnderscores(u));
      Some(if token[0] == '-' then -n else n)
  }

  lemma IntValueOfIntText(n: int)
    ensures IntValue(IntText(n)) == Some(n)
  {
    var m: nat := if n < 0 then -n else n;
    NatIsDigitPart(m);
    DropUnderscoresFixed(NatText(m));
    NatRoundTrip(m);
    IntTextParts(n);
  }

  lemma NatIsDigitPart(n: nat)
    ensures IsDigitPart(NatText(n))
  {
    var s := NatText(n);
    assert IsDigit(s[0]) && IsDigit(s[|s| - 1]);
  }

  lemma IntTextParts(n: int)
    ensures Unsigned(IntText(n)) == NatText(if n < 0 then -n else n)
    ensures IntText(n)[0] == '-' <==> n < 0
  {
    if n < 0 {
      assert IntText(n)[1..] == NatText(-n);
    } else {
      assert IsDigit(NatText(n)[0]);
    }
  }

  function LowerChar(c: char): (r: char) {
    if 'A' <= c <= 'Z' then (c as int + 32) as char else c
  }

  function Lower(s: string): (r: string)
    ensures |r| == |s|
    ensures forall i :: 0 <= i < |s| ==> r[i] == LowerChar(s[i])
  {
    seq(|s|, i requires 0 <= i < |s| => LowerChar(s[i]))
  }

  predicate NotPoint(c: char) { c != '.' }

  predicate NotExponent(c: char) { c != 'e' && c != 'E' }

  predicate IsMantissa(s: string) {
    var k := SpanLen(NotPoint, s);
    if k == |s| then IsDigitPart(s)
    else
      && |s| > 1
      && (k == 0 || IsDigitPart(s[..k]))
      && (k + 1 == |s| || IsDigitPart(s[k + 1..]))
  }

  /** Whether `float(token)` accepts the (stripped) token. */
  predicate IsFloatSpelling(token: string) {
    IsFloatWord(Unsigned(token)) || IsFloatNumber(Unsigned(token))
  }

  predicate IsFloatWord(u: string) {
    Lower(u) == "inf" || Lower(u) == "infinity" || Lower(u) == "nan"
  }

  predicate IsFloatNumber(u: string) {
    var k := SpanLen(NotExponent, u);
    if k == |u| then IsMantissa(u)
    else IsMantissa(u[..k]) && IsDigitPart(Unsigned(u[k + 1..]))
  }

  predicate IsNumberChar(c: char) {
    IsAlnum(c) || c == '_' || c == '.' || c == '+' || c == '-'
  }

  predicate AllNumberChars(s: string) {
    forall i :: 0 <= i < |s| ==> IsNumberChar(s[i])
  }

  lemma MantissaChars(s: string)
    requires IsMantissa(s)
    ensures s != "" && AllNumberChars(s)
  {
    var k := SpanLen(NotPoint, s);
    if k < |s| {
      assert s == s[..k] + "." + s[k + 1..];
    }
  }

  lemma UnsignedChars(s: string)
    requires Unsigned(s) != "" && AllNumberChars(Unsigned(s))
    ensures s != "" && AllNumberChars(s)
  {
    if Unsigned(s) != s {
      assert s == [s[0]] + Unsigned(s);
    }
  }

  lemma WordChars(u: string)
    requires IsFloatWord(u)
    ensures u != "" && AllNumberChars(u)
  {
    forall i | 0 <= i < |u| ensures IsNumberChar(u[i]) {
      assert Lower(u)[i] == LowerChar(u[i]);
      assert IsAlnum(Lower(u)[i]);
    }
  }

  lemma NumberCharsAppend(a: string, b: string)
    requires AllNumberChars(a) && AllNumberChars(b)
    ensures AllNumberChars(a + b)
  {
  }

  lemma CutAt(u: string, k: nat)
    requires k < |u|
    ensures u == u[..k] + ([u[k]] + u[k + 1..])
  {
  }

  lemma FloatNumberChars(u: string)
    requires IsFloatNumber(u)
    ensures u != "" && AllNumberChars(u)
  {
    var k := SpanLen(NotExponent, u);
    if k == |u| {
      MantissaChars(u);
    } else {
      MantissaChars(u[..k]);
      UnsignedChars(u[k + 1..]);
      NumberCharsAppend([u[k]], u[k + 1..]);
      NumberCharsAppend(u[..k], [u[k]] + u[k + 1..]);
      CutAt(u, k);
    }
  }

  /** No spelling of a number holds a space, a quote, a bracket or a separator. */
  lemma FloatSpellingChars(token: string)
    requires IsFloatSpelling(token)
    ensures token != "" && AllNumberChars(token)
  {
    if IsFloatWord(Unsigned(token)) {
      WordChars(Unsigned(token));
    } else {
      FloatNumberChars(Unsigned(token));
    }
    UnsignedChars(token);
  }
}
