/**
 The ways to write a number: what stripping, `int` and `float` accept, said by putting the
 spelling together instead of taking it apart.
 */
module Spellings {
  import opened Text

  // ----- spaces -----

  predicate Blank(s: string) {
    forall i :: 0 <= i < |s| ==> IsSpace(s[i])
  }

  predicate Solid(w: string) {
    w == "" || (!IsSpace(w[0]) && !IsSpace(w[|w| - 1]))
  }

  lemma {:induction false} SkipBlank(a: string, w: string)
    requires Blank(a) && (w == "" || !IsSpace(w[0]))
    ensures Skip(a + w) == w
  {
    if a == "" {
      assert a + w == w;
      SkipFixed(w);
    } else {
      assert (a + w)[1..] == a[1..] + w;
      SkipBlank(a[1..], w);
    }
  }

  lemma {:induction false} SkipCut(s: string) returns (a: string)
    ensures Blank(a) && s == a + Skip(s)
  {
    if s != "" && IsSpace(s[0]) {
      var b := SkipCut(s[1..]);
      a := [s[0]] + b;
    } else {
      a := "";
    }
  }

  lemma {:induction false} StripRightBlank(w: string, b: string)
    requires Blank(b) && (w == "" || !IsSpace(w[|w| - 1]))
    ensures StripRight(w + b) == w
    decreases |b|
  {
    var n := |b| - 1;
    if b == "" {
      assert w + b == w;
    } else {
      assert (w + b)[..|w + b| - 1] == w + b[..n];
      StripRightBlank(w, b[..n]);
    }
  }

  lemma {:induction false} StrippedAreSpaces(s: string)
    ensures forall i :: |StripRight(s)| <= i < |s| ==> IsSpace(s[i])
  {
    var n := |s| - 1;
    if s != "" && IsSpace(s[n]) {
      StrippedAreSpaces(s[..n]);
      forall i | |StripRight(s)| <= i < n ensures IsSpace(s[i]) {
        assert s[..n][i] == s[i];
      }
    }
  }

  lemma StripRightCut(s: string) returns (b: string)
    ensures Blank(b) && s == StripRight(s) + b
  {
    StrippedAreSpaces(s);
    b := s[|StripRight(s)|..];
  }

  lemma StripCut(s: string) returns (a: string, b: string)
    ensures Blank(a) && Blank(b) && s == a + (Strip(s) + b) && Solid(Strip(s))
  {
    a := SkipCut(s);
    b := StripRightCut(Skip(s));
    assert Strip(s) != "" ==> Strip(s)[0] == Skip(s)[0];
  }

  lemma StripBlank(a: string, w: string, b: string)
    requires Blank(a) && Blank(b) && Solid(w)
    ensures Strip(a + (w + b)) == w
  {
    if w == "" {
      assert w + b == b && a + b == (a + b) + "";
      SkipBlank(a + b, "");
    } else {
      SkipBlank(a, w + b);
      StripRightBlank(w, b);
    }
  }

  /** Stripping removes the spaces around a text and nothing else. */
  lemma StripExactly(s: string, w: string)
    ensures Strip(s) == w <==> Solid(w) && exists a, b :: Blank(a) && Blank(b) && s == a + (w + b)
  {
    var a, b := StripCut(s);
    if Solid(w) {
      forall a, b | Blank(a) && Blank(b) && s == a + (w + b) ensures Strip(s) == w {
        StripBlank(a, w, b);
      }
    }
  }

  // ----- integers -----

  /** Groups of digits, to be written with single underscores between them. */
  predicate Groups(g: seq<string>) {
    g != [] && forall i :: 0 <= i < |g| ==> g[i] != "" && AllDigits(g[i])
  }

  function Concat(g: seq<string>): (r: string) {
    if g == [] then "" else g[0] + Concat(g[1..])
  }

  lemma {:induction false} DropUnderscoresAppend(a: string, b: string)
    requires forall i :: 0 <= i < |a| ==> IsDigit(a[i]) || a[i] == '_'
    requires forall i :: 0 <= i < |b| ==> IsDigit(b[i]) || b[i] == '_'
    ensures DropUnderscores(a + b) == DropUnderscores(a) + DropUnderscores(b)
  {
    if a == "" {
      assert a + b == b;
    } else {
      assert (a + b)[1..] == a[1..] + b;
      DropUnderscoresAppend(a[1..], b);
    }
  }

  lemma DigitsThen(w: string, r: string)
    requires w != "" && AllDigits(w) && IsDigitPart(r)
    ensures IsDigitPart(w + "_" + r)
  {
    var s := w + "_" + r;
    assert s[0] == w[0] && s[|s| - 1] == r[|r| - 1];
  }

  lemma DropOneUnderscore(w: string, r: string)
    requires AllDigits(w) && IsDigitPart(r)
    ensures DropUnderscores(w + "_" + r) == w + DropUnderscores(r)
  {
    Associate(w, "_", r);
    DropUnderscoresAppend(w, "_" + r);
    DropUnderscoresFixed(w);
    assert ("_" + r)[1..] == r;
  }

  lemma {:induction false} GroupsAreDigitPart(g: seq<string>)
    requires Groups(g)
    ensures IsDigitPart(Join("_", g)) && DropUnderscores(Join("_", g)) == Concat(g)
  {
    if |g| == 1 {
      DropUnderscoresFixed(g[0]);
      assert g[1..] == [];
    } else {
      GroupsAreDigitPart(g[1..]);
      DigitsThen(g[0], Join("_", g[1..]));
      DropOneUnderscore(g[0], Join("_", g[1..]));
    }
  }

  lemma {:induction false} DigitPartGroups(s: string) returns (g: seq<string>)
    requires IsDigitPart(s)
    ensures Groups(g) && Join("_", g) == s
  {
    var k := SpanLen(IsDigit, s);
    if k == |s| {
      g := [s];
    } else {
      assert s[k] == '_';
      var h := DigitPartGroups(s[k + 1..]);
      g := [s[..k]] + h;
      assert g[1..] == h;
      assert s == s[..k] + "_" + s[k + 1..];
    }
  }

  predicate IsSign(sign: string) {
    sign == "" || sign == "+" || sign == "-"
  }

  /** A way to write an integer. */
  datatype IntSpelling = IntSpelling(sign: string, groups: seq<string>)
  {
    predicate Valid() {
      IsSign(sign) && Groups(groups)
    }

    function Text(): (w: string) {
      sign + Join("_", groups)
    }

    function Number(): (n: int)
      requires Valid()
    {
      GroupsAreDigitPart(groups);
      var n: int := NatOf(Concat(groups));
      if sign == "-" then -n else n
    }
  }

  ghost predicate SpellsInt(w: string, n: int) {
    exists c: IntSpelling :: c.Valid() && c.Text() == w && c.Number() == n
  }

  lemma UnsignedOf(sign: string, u: string)
    requires IsSign(sign) && u != "" && u[0] != '+' && u[0] != '-'
    ensures Unsigned(sign + u) == u
    ensures (sign + u)[0] == '-' <==> sign == "-"
  {
    assert sign == "" ==> sign + u == u;
    assert sign != "" ==> (sign + u)[1..] == u;
  }

  lemma SignOf(w: string) returns (sign: string)
    ensures IsSign(sign) && w == sign + Unsigned(w)
    ensures w != "" ==> (sign == "-" <==> w[0] == '-')
  {
    sign := if w != "" && (w[0] == '+' || w[0] == '-') then [w[0]] else "";
  }

  lemma IntSpelt(c: IntSpelling)
    requires c.Valid()
    ensures IntValue(c.Text()) == Some(c.Number())
  {
    var u := Join("_", c.groups);
    GroupsAreDigitPart(c.groups);
    assert IsDigit(u[0]);
    UnsignedOf(c.sign, u);
  }

  lemma FindIntSpelling(w: string) returns (c: IntSpelling)
    requires IntValue(w).Some?
    ensures c.Valid() && c.Text() == w && c.Number() == IntValue(w).value
  {
    var sign := SignOf(w);
    var g := DigitPartGroups(Unsigned(w));
    c := IntSpelling(sign, g);
    IntSpelt(c);
  }

  /** A token is read as an integer exactly when it is a sign and groups of digits, and then as
      the number all the digits together denote. */
  lemma IntValueExactly(w: string, n: int)
    ensures IntValue(w) == Some(n) <==> SpellsInt(w, n)
  {
    if IntValue(w) == Some(n) {
      var c := FindIntSpelling(w);
      assert SpellsInt(w, n);
    }
    if SpellsInt(w, n) {
      var c: IntSpelling :| c.Valid() && c.Text() == w && c.Number() == n;
      IntSpelt(c);
    }
  }

  lemma NatOfSnoc(s: string, c: char)
    requires AllDigits(s) && IsDigit(c)
    ensures NatOf(s + [c]) == NatOf(s) * 10 + DigitValue(c)
  {
    var t := s + [c];
    assert t[..|t| - 1] == s && t[|t| - 1] == c;
  }

  /** Leading zeros do not count, and without them a number is written in one way. */
  lemma {:induction false} NatOfExactly(s: string)
    requires AllDigits(s)
    ensures NatOf("0" + s) == NatOf(s)
    ensures s != "" && s[0] != '0' ==> NatOf(s) > 0 && NatText(NatOf(s)) == s
    decreases |s|
  {
    if s == "" {
      NatOfSnoc("", '0');
      assert "" + "0" == "0" && "0" + s == "0";
    } else {
      var t, c := s[..|s| - 1], s[|s| - 1];
      NatOfExactly(t);
      assert s == t + [c];
      LeadingZero(t, c);
      if t == "" {
        assert s == [c];
        if c != '0' { FirstDigit(c); }
      } else if s[0] != '0' {
        LastDigit(t, c);
      }
    }
  }

  lemma LeadingZero(t: string, c: char)
    requires AllDigits(t) && IsDigit(c) && NatOf("0" + t) == NatOf(t)
    ensures NatOf("0" + (t + [c])) == NatOf(t + [c])
  {
    NatOfSnoc(t, c);
    NatOfSnoc("0" + t, c);
    Associate("0", t, [c]);
  }

  lemma FirstDigit(c: char)
    requires IsDigit(c) && c != '0'
    ensures NatOf([c]) > 0 && NatText(NatOf([c])) == [c]
  {
    NatOfSnoc("", c);
    assert "" + [c] == [c] && DigitChar(DigitValue(c)) == c;
  }

  lemma LastDigit(t: string, c: char)
    requires AllDigits(t) && IsDigit(c) && NatOf(t) > 0 && NatText(NatOf(t)) == t
    ensures NatOf(t + [c]) > 0 && NatText(NatOf(t + [c])) == t + [c]
  {
    NatOfSnoc(t, c);
    NatTextStep(NatOf(t), DigitValue(c));
    assert DigitChar(DigitValue(c)) == c;
  }

  lemma NatTextStep(m: nat, d: nat)
    requires m > 0 && d < 10
    ensures NatText(m * 10 + d) == NatText(m) + [DigitChar(d)]
  {
    assert (m * 10 + d) / 10 == m && (m * 10 + d) % 10 == d;
  }

  // ----- floats -----

  /** No digits at all, or groups of them. */
  predicate MaybeGroups(g: seq<string>) {
    g == [] || Groups(g)
  }

  /** `whole . fraction`, or the whole part alone. */
  datatype Mantissa = Mantissa(whole: seq<string>, point: bool, fraction: seq<string>)
  {
    predicate Valid() {
      MaybeGroups(whole) && MaybeGroups(fraction) && (whole != [] || fraction != []) && (point || fraction == [])
    }

    function Text(): (w: string) {
      Join("_", whole) + (if point then "." + Join("_", fraction) else "")
    }
  }

  /** Nothing, or an `e` and an integer. */
  datatype Exponent = NoExponent | Exponent(e: char, power: IntSpelling)
  {
    predicate Valid() {
      NoExponent? || ((e == 'e' || e == 'E') && power.Valid())
    }

    function Text(): (w: string) {
      if NoExponent? then "" else [e] + power.Text()
    }
  }

  datatype FloatSpelling =
    | Word(sign: string, word: string)
    | Number(sign: string, mantissa: Mantissa, exponent: Exponent)
  {
    predicate Valid() {
      IsSign(sign)
      && match this
         case Word(_, w) => Lower(w) == "inf" || Lower(w) == "infinity" || Lower(w) == "nan"
         case Number(_, m, e) => m.Valid() && e.Valid()
    }

    function Text(): (w: string) {
      match this
      case Word(s, w) => s + w
      case Number(s, m, e) => s + (m.Text() + e.Text())
    }
  }

  ghost predicate SpellsFloat(w: string) {
    exists c: FloatSpelling :: c.Valid() && c.Text() == w
  }

  lemma NoDigits(g: seq<string>)
    requires MaybeGroups(g)
    ensures Join("_", g) == "" <==> g == []
    ensures g != [] ==> IsDigitPart(Join("_", g))
  {
    if g != [] { GroupsAreDigitPart(g); }
  }

  lemma MaybeDigitPart(s: string) returns (g: seq<string>)
    requires s == "" || IsDigitPart(s)
    ensures MaybeGroups(g) && Join("_", g) == s && (g == [] <==> s == "")
  {
    if s == "" { g := []; } else { g := DigitPartGroups(s); }
  }

  lemma DigitsHaveNoPoint(s: string)
    requires s == "" || IsDigitPart(s)
    ensures forall i :: 0 <= i < |s| ==> NotPoint(s[i])
  {
  }

  lemma PointAt(a: string, b: string)
    requires a == "" || IsDigitPart(a)
    ensures SpanLen(NotPoint, a + ("." + b)) == |a|
    ensures (a + ("." + b))[..|a|] == a && (a + ("." + b))[|a| + 1..] == b
  {
    DigitsHaveNoPoint(a);
    SpanLenOfPrefix(NotPoint, a, "." + b);
  }

  lemma MantissaSpelt(c: Mantissa)
    requires c.Valid()
    ensures IsMantissa(c.Text())
  {
    var a, b := Join("_", c.whole), Join("_", c.fraction);
    NoDigits(c.whole);
    NoDigits(c.fraction);
    if c.point {
      PointAt(a, b);
    } else {
      DigitsHaveNoPoint(a);
      assert a + "" == a;
      SpanLenOfPrefix(NotPoint, a, "");
    }
  }

  lemma FindMantissa(s: string) returns (c: Mantissa)
    requires IsMantissa(s)
    ensures c.Valid() && c.Text() == s
  {
    var k := SpanLen(NotPoint, s);
    var a := MaybeDigitPart(s[..k]);
    if k == |s| {
      assert s[..k] == s;
      c := Mantissa(a, false, []);
    } else {
      var b := MaybeDigitPart(s[k + 1..]);
      assert s == s[..k] + ("." + s[k + 1..]);
      c := Mantissa(a, true, b);
    }
  }

  lemma DigitsHaveNoExponent(s: string)
    requires s == "" || IsDigitPart(s)
    ensures forall i :: 0 <= i < |s| ==> NotExponent(s[i])
  {
  }

  lemma MantissaHasNoExponent(s: string)
    requires IsMantissa(s)
    ensures forall i :: 0 <= i < |s| ==> NotExponent(s[i])
  {
    var k := SpanLen(NotPoint, s);
    if k == |s| {
      DigitsHaveNoExponent(s);
    } else {
      var a, b := s[..k], s[k + 1..];
      DigitsHaveNoExponent(a);
      DigitsHaveNoExponent(b);
      forall i | 0 <= i < |s| ensures NotExponent(s[i]) {
        if i < k { assert s[i] == a[i]; } else if i > k { assert s[i] == b[i - k - 1]; }
      }
    }
  }

  lemma ExponentAt(a: string, c: char, x: string)
    requires IsMantissa(a) && (c == 'e' || c == 'E') && IsDigitPart(Unsigned(x))
    ensures IsFloatNumber(a + ([c] + x))
  {
    MantissaHasNoExponent(a);
    SpanLenOfPrefix(NotExponent, a, [c] + x);
    var u := a + ([c] + x);
    assert u[|a| + 1..] == x;
  }

  lemma NoExponentAt(a: string)
    requires IsMantissa(a)
    ensures IsFloatNumber(a)
  {
    MantissaHasNoExponent(a);
    SpanLenOfPrefix(NotExponent, a, "");
    assert a + "" == a;
  }

  lemma ExponentSpelt(a: string, e: Exponent)
    requires IsMantissa(a) && e.Valid()
    ensures IsFloatNumber(a + e.Text())
  {
    if e.Exponent? {
      IntSpelt(e.power);
      ExponentAt(a, e.e, e.power.Text());
    } else {
      NoExponentAt(a);
      assert a + e.Text() == a;
    }
  }

  lemma NumberSpelt(m: Mantissa, e: Exponent)
    requires m.Valid() && e.Valid()
    ensures IsFloatNumber(m.Text() + e.Text())
  {
    MantissaSpelt(m);
    ExponentSpelt(m.Text(), e);
  }

  lemma FindNumber(u: string) returns (m: Mantissa, e: Exponent)
    requires IsFloatNumber(u)
    ensures m.Valid() && e.Valid() && m.Text() + e.Text() == u
  {
    var k := SpanLen(NotExponent, u);
    if k == |u| {
      m := FindMantissa(u);
      e := NoExponent;
    } else {
      m := FindMantissa(u[..k]);
      var power := FindIntSpelling(u[k + 1..]);
      e := Exponent(u[k], power);
      CutAt(u, k);
    }
  }

  lemma WordIsUnsigned(w: string)
    requires Lower(w) == "inf" || Lower(w) == "infinity" || Lower(w) == "nan"
    ensures w != "" && w[0] != '+' && w[0] != '-'
  {
    assert Lower(w)[0] == LowerChar(w[0]);
  }

  lemma NumberIsUnsigned(u: string)
    requires IsFloatNumber(u)
    ensures u != "" && u[0] != '+' && u[0] != '-'
  {
    var m, e := FindNumber(u);
    NoDigits(m.whole);
    assert u[0] == m.Text()[0];
  }

  lemma FloatSpelt(c: FloatSpelling)
    requires c.Valid()
    ensures IsFloatSpelling(c.Text())
  {
    match c
    case Word(s, w) =>
      WordIsUnsigned(w);
      UnsignedOf(s, w);
    case Number(s, m, e) =>
      NumberSpelt(m, e);
      NumberIsUnsigned(m.Text() + e.Text());
      UnsignedOf(s, m.Text() + e.Text());
  }

  lemma FindFloat(w: string) returns (c: FloatSpelling)
    requires IsFloatSpelling(w)
    ensures c.Valid() && c.Text() == w
  {
    var sign := SignOf(w);
    if IsFloatWord(Unsigned(w)) {
      c := Word(sign, Unsigned(w));
    } else {
      var m, e := FindNumber(Unsigned(w));
      c := Number(sign, m, e);
    }
  }

  /** A token is read as a float exactly when it is a sign and one of the words for infinity and
      not-a-number, or a sign, a mantissa and an exponent. */
  lemma FloatExactly(w: string)
    ensures IsFloatSpelling(w) <==> SpellsFloat(w)
  {
    if IsFloatSpelling(w) {
      var c := FindFloat(w);
    }
    if SpellsFloat(w) {
      var c: FloatSpelling :| c.Valid() && c.Text() == w;
      FloatSpelt(c);
    }
  }
}
