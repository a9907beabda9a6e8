/**
 Compile identifiers: the compact written form reads back as the identifier it was, and
 distinct identifiers or attempts are written differently.
 */
module CompileIds {
  import opened Text

  datatype CompileId = CompileId(frame: Option<int>, build: Option<int>, autograd: Option<int>)

  datatype TraceId = TraceId(compileId: CompileId, attempt: int)

  datatype Outcome<+T> = Done(value: T) | AssertionError | ValueError

  // ----- writing -----

  function FrameText(frame: int, build: int): (s: string) {
    IntText(frame) + "/" + IntText(build)
  }

  function Written(id: CompileId): (r: Outcome<string>)
    ensures r.Done? || r.AssertionError?
  {
    if id.autograd.Some? then
      if id.frame.None? != id.build.None? then AssertionError
      else if id.frame.Some? then
        Done("!" + IntText(id.autograd.value) + "/" + FrameText(id.frame.value, id.build.value))
      else Done("!" + IntText(id.autograd.value))
    else if id.frame.None? || id.build.None? then AssertionError
    else Done(FrameText(id.frame.value, id.build.value))
  }

  function TraceText(t: TraceId): (r: Outcome<string>) {
    var w := Written(t.compileId);
    if w.Done? && t.attempt != 0 then Done(w.value + "_" + IntText(t.attempt)) else w
  }

  // ----- reading -----

  /** The matched groups of a pattern, as text. */
  datatype Groups = Groups(frame: Option<string>, build: Option<string>, autograd: Option<string>)

  datatype Pattern = FramePattern | AutogradPattern

  /** The end anchor also matches before one final line break. */
  function DropNewline(s: string): (t: string) {
    if s != "" && s[|s| - 1] == '\n' then s[..|s| - 1] else s
  }

  /** Digits, a slash, digits. */
  function SplitFrame(t: string): (r: Option<(string, string)>)
    ensures r.Some? ==> AllDigits(r.value.0) && AllDigits(r.value.1) && r.value.0 != "" && r.value.1 != ""
    ensures r.Some? ==> t == r.value.0 + "/" + r.value.1
  {
    var k := SpanLen(IsDigit, t);
    if 0 < k < |t| && t[k] == '/' && k + 1 < |t| && AllDigits(t[k + 1..]) then Some((t[..k], t[k + 1..])) else None
  }

  function MatchFrame(t: string): (r: Option<Groups>) {
    var f := SplitFrame(t);
    if f.Some? then Some(Groups(Some(f.value.0), Some(f.value.1), None)) else None
  }

  function MatchAutograd(t: string): (r: Option<Groups>) {
    if t == "" || t[0] != '!' then None
    else
      var u := t[1..];
      var k := SpanLen(IsDigit, u);
      if k == 0 then None
      else if k == |u| then Some(Groups(None, None, Some(u)))
      else if u[k] != '/' then None
      else
        var f := SplitFrame(u[k + 1..]);
        if f.Some? then Some(Groups(Some(f.value.0), Some(f.value.1), Some(u[..k]))) else None
  }

  function Match(p: Pattern, s: string): (r: Option<Groups>)
    ensures r.Some? ==> Numeric(r.value)
  {
    if p.FramePattern? then MatchFrame(DropNewline(s)) else MatchAutograd(DropNewline(s))
  }

  predicate Numeric(g: Groups) {
    && (g.frame.Some? ==> AllDigits(g.frame.value)) && (g.build.Some? ==> AllDigits(g.build.value))
    && (g.autograd.Some? ==> AllDigits(g.autograd.value))
  }

  function Number(v: Option<string>): (n: Option<int>)
    requires v.Some? ==> AllDigits(v.value)
  {
    if v.Some? then Some(NatOf(v.value)) else None
  }

  function Built(g: Groups): (id: CompileId)
    requires Numeric(g)
  {
    CompileId(Number(g.frame), Number(g.build), Number(g.autograd))
  }

  function Read(s: string): (r: Outcome<CompileId>) {
    if Match(FramePattern, s).Some? then Done(Built(Match(FramePattern, s).value))
    else if Match(AutogradPattern, s).Some? then Done(Built(Match(AutogradPattern, s).value))
    else ValueError
  }

  method FromString(s: Option<string>) returns (r: Outcome<Option<CompileId>>)
    ensures s.None? ==> r == Done(None)
    ensures s.Some? ==> r == if Read(s.value).Done? then Done(Some(Read(s.value).value)) else ValueError
  {
    if s.None? { return Done(None); }
    var patterns := [FramePattern, AutogradPattern];
    for k := 0 to |patterns|
      invariant forall i :: 0 <= i < k ==> Match(patterns[i], s.value).None?
    {
      var g := Match(patterns[k], s.value);
      if g.Some? {
        assert k == 1 ==> Match(patterns[0], s.value).None?;
        return Done(Some(Built(g.value)));
      }
    }
    assert Match(patterns[0], s.value).None? && Match(patterns[1], s.value).None?;
    r := ValueError;
  }

  // ----- reading back -----

  predicate NonNegative(id: CompileId) {
    && (id.frame.Some? ==> id.frame.value >= 0) && (id.build.Some? ==> id.build.value >= 0)
    && (id.autograd.Some? ==> id.autograd.value >= 0)
  }

  lemma NatTextDigits(n: nat)
    ensures IntText(n) == NatText(n) && AllDigits(IntText(n)) && IntText(n) != "" && NatOf(IntText(n)) == n
  {
    NatRoundTrip(n);
  }

  lemma SplitFrameText(f: nat, b: nat)
    ensures SplitFrame(FrameText(f, b)) == Some((IntText(f), IntText(b)))
  {
    NatTextDigits(f);
    NatTextDigits(b);
    var w, r := IntText(f), "/" + IntText(b);
    assert FrameText(f, b) == w + r;
    SpanLenOfPrefix(IsDigit, w, r);
    assert r[1..] == IntText(b);
    assert (w + r)[|w| + 1..] == r[1..];
  }

  lemma NoNewline(s: string)
    requires s != "" && s[|s| - 1] != '\n'
    ensures DropNewline(s) == s
  {
  }

  lemma IntTextEnd(n: int)
    ensures IntText(n)[|IntText(n)| - 1] != '\n'
  {
  }

  lemma FrameReadsBack(f: nat, b: nat)
    ensures Read(FrameText(f, b)) == Done(CompileId(Some(f), Some(b), None))
  {
    SplitFrameText(f, b);
    var t := FrameText(f, b);
    IntTextEnd(b);
    assert t[|t| - 1] == IntText(b)[|IntText(b)| - 1];
    NoNewline(t);
    NatTextDigits(f);
    NatTextDigits(b);
  }

  lemma BangIsNoFrame(u: string)
    ensures SplitFrame("!" + u) == None
  {
    assert ("!" + u)[0] == '!';
  }

  lemma AutogradReadsBack(c: nat)
    ensures Read("!" + IntText(c)) == Done(CompileId(None, None, Some(c)))
  {
    var u := IntText(c);
    var t := "!" + u;
    NatTextDigits(c);
    IntTextEnd(c);
    assert t[|t| - 1] == u[|u| - 1] && t[1..] == u;
    NoNewline(t);
    BangIsNoFrame(u);
    SpanLenOfPrefix(IsDigit, u, "");
    assert u + "" == u;
  }

  lemma MatchBoth(w: string, t: string)
    requires AllDigits(w) && w != "" && SplitFrame(t).Some?
    ensures MatchAutograd("!" + (w + ("/" + t)))
         == Some(Groups(Some(SplitFrame(t).value.0), Some(SplitFrame(t).value.1), Some(w)))
  {
    var r := "/" + t;
    var u := w + r;
    assert ("!" + u)[1..] == u;
    SpanLenOfPrefix(IsDigit, w, r);
    assert u[|w| + 1..] == r[1..] == t;
  }

  lemma BothReadBack(c: nat, f: nat, b: nat)
    ensures Read("!" + IntText(c) + "/" + FrameText(f, b)) == Done(CompileId(Some(f), Some(b), Some(c)))
  {
    var w, t := IntText(c), FrameText(f, b);
    var s := "!" + w + "/" + t;
    assert s == "!" + (w + ("/" + t));
    EndOfFrame("!" + w + "/", f, b);
    NoNewline(s);
    BangIsNoFrame(w + ("/" + t));
    NatTextDigits(c);
    SplitFrameText(f, b);
    MatchBoth(w, t);
    NatTextDigits(f);
    NatTextDigits(b);
  }

  lemma EndOfFrame(s: string, f: int, b: int)
    ensures (s + FrameText(f, b))[|s + FrameText(f, b)| - 1] != '\n'
  {
    IntTextEnd(b);
  }

  // ----- negative parts -----

  predicate HasMinus(s: string) {
    exists i :: 0 <= i < |s| && s[i] == '-'
  }

  lemma MinusEither(a: string, b: string)
    ensures HasMinus(a + b) <==> HasMinus(a) || HasMinus(b)
  {
    if HasMinus(a) {
      var i :| 0 <= i < |a| && a[i] == '-';
      assert (a + b)[i] == '-';
    } else if HasMinus(b) {
      var i :| 0 <= i < |b| && b[i] == '-';
      assert (a + b)[|a| + i] == '-';
    }
  }

  lemma FrameNoMinus(t: string)
    requires SplitFrame(t).Some?
    ensures !HasMinus(t)
  {
    var f := SplitFrame(t).value;
    MinusEither(f.0, "/");
    MinusEither(f.0 + "/", f.1);
  }

  lemma AutogradParts(t: string, u: string, k: nat)
    requires t != "" && t[0] == '!' && u == t[1..] && k < |u| && u[k] == '/'
    ensures t == "!" + (u[..k] + ("/" + u[k + 1..]))
  {
  }

  lemma BangNoMinus(w: string, r: string)
    requires AllDigits(w) && !HasMinus(r)
    ensures !HasMinus("!" + (w + ("/" + r))) && !HasMinus("!" + w)
  {
    MinusEither("/", r);
    MinusEither(w, "/" + r);
    MinusEither("!", w + ("/" + r));
    MinusEither("!", w);
  }

  lemma AutogradNoMinus(t: string)
    requires MatchAutograd(t).Some?
    ensures !HasMinus(t)
  {
    var u := t[1..];
    var k := SpanLen(IsDigit, u);
    if k < |u| {
      FrameNoMinus(u[k + 1..]);
      BangNoMinus(u[..k], u[k + 1..]);
      AutogradParts(t, u, k);
    } else {
      BangNoMinus(u, "");
      assert t == "!" + u;
    }
  }

  /** No text with a minus sign is an identifier. */
  lemma MinusNeverReads(s: string)
    requires HasMinus(s)
    ensures Read(s) == ValueError
  {
    var t := DropNewline(s);
    assert HasMinus(t) by {
      var i :| 0 <= i < |s| && s[i] == '-';
      assert t[i] == '-';
    }
    if SplitFrame(t).Some? { FrameNoMinus(t); }
    if MatchAutograd(t).Some? { AutogradNoMinus(t); }
  }

  lemma NegativeMinus(n: int)
    requires n < 0
    ensures HasMinus(IntText(n))
  {
    IntTextParts(n);
    assert IntText(n)[0] == '-';
  }

  lemma NegativeFrame(f: int, b: int)
    ensures HasMinus(IntText(f)) || HasMinus(IntText(b)) ==> HasMinus(FrameText(f, b))
  {
    MinusEither(IntText(f), "/");
    MinusEither(IntText(f) + "/", IntText(b));
  }

  lemma NegativeHasMinus(id: CompileId)
    requires Written(id).Done? && !NonNegative(id)
    ensures HasMinus(Written(id).value)
  {
    if id.frame.Some? {
      if id.frame.value < 0 { NegativeMinus(id.frame.value); }
      if id.build.value < 0 { NegativeMinus(id.build.value); }
      NegativeFrame(id.frame.value, id.build.value);
    }
    if id.autograd.Some? {
      var c := IntText(id.autograd.value);
      if id.autograd.value < 0 { NegativeMinus(id.autograd.value); }
      MinusEither("!", c);
      if id.frame.Some? {
        MinusEither("!" + c, "/");
        MinusEither("!" + c + "/", FrameText(id.frame.value, id.build.value));
      }
    }
  }

  /** A written identifier reads back as itself exactly when none of its parts is negative. */
  lemma ReadsBackExactly(id: CompileId)
    requires Written(id).Done?
    ensures Read(Written(id).value) == if NonNegative(id) then Done(id) else ValueError
  {
    if !NonNegative(id) {
      NegativeHasMinus(id);
      MinusNeverReads(Written(id).value);
    } else if id.autograd.None? {
      FrameReadsBack(id.frame.value, id.build.value);
    } else if id.frame.None? {
      AutogradReadsBack(id.autograd.value);
    } else {
      BothReadBack(id.autograd.value, id.frame.value, id.build.value);
    }
  }

  /** Every accepted text denotes an identifier that can be written and read again. */
  lemma ReadIsWritable(s: string)
    requires Read(s).Done?
    ensures Written(Read(s).value).Done? && Read(Written(Read(s).value).value) == Read(s)
  {
    ReadsBackExactly(Read(s).value);
  }

  // ----- uniqueness -----

  predicate NotSlash(c: char) { c != '/' }

  predicate NotUnderscore(c: char) { c != '_' }

  lemma IntTextChars(n: int)
    ensures forall i :: 0 <= i < |IntText(n)| ==>
              NotSlash(IntText(n)[i]) && NotUnderscore(IntText(n)[i]) && IntText(n)[i] != '!'
  {
  }

  lemma CutUnique(p: char -> bool, a: string, r: string, b: string, t: string)
    requires (forall i :: 0 <= i < |a| ==> p(a[i])) && (forall i :: 0 <= i < |b| ==> p(b[i]))
    requires (r == "" || !p(r[0])) && (t == "" || !p(t[0]))
    requires a + r == b + t
    ensures a == b && r == t
  {
    SpanLenOfPrefix(p, a, r);
    SpanLenOfPrefix(p, b, t);
  }

  lemma SlashCut(a: string, r: string, b: string, t: string)
    requires (forall i :: 0 <= i < |a| ==> NotSlash(a[i])) && (forall i :: 0 <= i < |b| ==> NotSlash(b[i]))
    requires a + "/" + r == b + "/" + t
    ensures a == b && r == t
  {
    assert a + "/" + r == a + ("/" + r) && b + "/" + t == b + ("/" + t);
    CutUnique(NotSlash, a, "/" + r, b, "/" + t);
    assert ("/" + r)[1..] == r && ("/" + t)[1..] == t;
  }

  lemma FrameTextInjective(f: int, b: int, g: int, c: int)
    requires FrameText(f, b) == FrameText(g, c)
    ensures f == g && b == c
  {
    IntTextChars(f);
    IntTextChars(g);
    SlashCut(IntText(f), IntText(b), IntText(g), IntText(c));
    IntTextInjective(f, g);
    IntTextInjective(b, c);
  }

  /** The part after the autograd number. */
  function FrameSuffix(id: CompileId): (s: string) {
    if id.frame.Some? && id.build.Some? then "/" + FrameText(id.frame.value, id.build.value) else ""
  }

  lemma WrittenParts(id: CompileId)
    requires Written(id).Done?
    ensures id.autograd.Some? ==> Written(id).value == "!" + (IntText(id.autograd.value) + FrameSuffix(id))
    ensures id.autograd.None? ==> Written(id).value[0] != '!' && FrameSuffix(id) == "/" + Written(id).value
  {
    if id.autograd.Some? {
      assert IntText(id.autograd.value) + "" == IntText(id.autograd.value);
    } else {
      IntTextChars(id.frame.value);
      assert Written(id).value[0] == IntText(id.frame.value)[0];
    }
  }

  lemma SuffixInjective(a: CompileId, b: CompileId)
    requires Written(a).Done? && Written(b).Done? && FrameSuffix(a) == FrameSuffix(b)
    ensures a.frame == b.frame && a.build == b.build
  {
    if FrameSuffix(a) != "" {
      assert FrameSuffix(a)[1..] == FrameText(a.frame.value, a.build.value);
      assert FrameSuffix(b)[1..] == FrameText(b.frame.value, b.build.value);
      FrameTextInjective(a.frame.value, a.build.value, b.frame.value, b.build.value);
    }
  }

  /** Distinct identifiers are written differently, negative parts included. */
  lemma WrittenInjective(a: CompileId, b: CompileId)
    requires Written(a).Done? && Written(a) == Written(b)
    ensures a == b
  {
    WrittenParts(a);
    WrittenParts(b);
    if a.autograd.Some? && b.autograd.Some? {
      var c, d := IntText(a.autograd.value), IntText(b.autograd.value);
      assert ("!" + (c + FrameSuffix(a)))[1..] == c + FrameSuffix(a);
      assert ("!" + (d + FrameSuffix(b)))[1..] == d + FrameSuffix(b);
      IntTextChars(a.autograd.value);
      IntTextChars(b.autograd.value);
      CutUnique(NotSlash, c, FrameSuffix(a), d, FrameSuffix(b));
      IntTextInjective(a.autograd.value, b.autograd.value);
    }
    SuffixInjective(a, b);
  }

  lemma WrittenChars(id: CompileId)
    requires Written(id).Done?
    ensures forall i :: 0 <= i < |Written(id).value| ==> NotUnderscore(Written(id).value[i])
  {
    if id.autograd.Some? { IntTextChars(id.autograd.value); }
    if id.frame.Some? { IntTextChars(id.frame.value); }
    if id.build.Some? { IntTextChars(id.build.value); }
  }

  function AttemptSuffix(n: int): (s: string) {
    if n == 0 then "" else "_" + IntText(n)
  }

  /** Distinct builds, and distinct attempts at one build, are written differently. */
  lemma TraceInjective(a: TraceId, b: TraceId)
    requires TraceText(a).Done? && TraceText(a) == TraceText(b)
    ensures a == b
  {
    var v, w := Written(a.compileId).value, Written(b.compileId).value;
    assert TraceText(a).value == v + AttemptSuffix(a.attempt) && TraceText(b).value == w + AttemptSuffix(b.attempt);
    WrittenChars(a.compileId);
    WrittenChars(b.compileId);
    CutUnique(NotUnderscore, v, AttemptSuffix(a.attempt), w, AttemptSuffix(b.attempt));
    WrittenInjective(a.compileId, b.compileId);
    if a.attempt != 0 {
      assert AttemptSuffix(a.attempt)[1..] == IntText(a.attempt) && AttemptSuffix(b.attempt)[1..] == IntText(b.attempt);
      IntTextInjective(a.attempt, b.attempt);
    }
  }

  // ----- the texts that are read -----

  predicate IsNumber(w: string) {
    w != "" && AllDigits(w)
  }

  /** A way to write an identifier: runs of digits in their places, and one line break at most
      at the end. */
  datatype Spelling =
    | Frame(frame: string, build: string, end: string)
    | Autograd(autograd: string, end: string)
    | Both(autograd: string, frame: string, build: string, end: string)
  {
    predicate Valid() {
      (end == "" || end == "\n")
      && match this
         case Frame(f, b, _) => IsNumber(f) && IsNumber(b)
         case Autograd(c, _) => IsNumber(c)
         case Both(c, f, b, _) => IsNumber(c) && IsNumber(f) && IsNumber(b)
    }

    function Body(): (w: string) {
      match this
      case Frame(f, b, _) => f + "/" + b
      case Autograd(c, _) => "!" + c
      case Both(c, f, b, _) => "!" + (c + ("/" + (f + "/" + b)))
    }

    function Meaning(): (id: CompileId)
      requires Valid()
    {
      match this
      case Frame(f, b, _) => CompileId(Some(NatOf(f)), Some(NatOf(b)), None)
      case Autograd(c, _) => CompileId(None, None, Some(NatOf(c)))
      case Both(c, f, b, _) => CompileId(Some(NatOf(f)), Some(NatOf(b)), Some(NatOf(c)))
    }
  }

  ghost predicate Spells(s: string, id: CompileId) {
    exists c: Spelling :: c.Valid() && s == c.Body() + c.end && c.Meaning() == id
  }

  lemma LineCut(s: string) returns (end: string)
    ensures (end == "" || end == "\n") && s == DropNewline(s) + end
  {
    end := if s != "" && s[|s| - 1] == '\n' then "\n" else "";
  }

  lemma LineAdded(t: string, end: string)
    requires t != "" && t[|t| - 1] != '\n' && (end == "" || end == "\n")
    ensures DropNewline(t + end) == t
  {
    assert end == "" ==> t + end == t;
    assert end == "\n" ==> (t + end)[..|t + end| - 1] == t;
  }

  lemma FrameRead(f: string, b: string)
    requires IsNumber(f) && IsNumber(b)
    ensures SplitFrame(f + "/" + b) == Some((f, b))
  {
    var r := "/" + b;
    Associate(f, "/", b);
    SpanLenOfPrefix(IsDigit, f, r);
    assert (f + r)[|f| + 1..] == r[1..] == b;
  }

  lemma LastIsDigit(a: string, w: string)
    requires IsNumber(w)
    ensures a + w != "" && (a + w)[|a + w| - 1] != '\n'
  {
    assert (a + w)[|a + w| - 1] == w[|w| - 1];
  }

  lemma BodySplit(c: Spelling) returns (a: string, w: string)
    requires c.Valid()
    ensures IsNumber(w) && c.Body() == a + w
  {
    match c
    case Frame(f, b, _) => a, w := f + "/", b;
    case Autograd(d, _) => a, w := "!", d;
    case Both(d, f, b, _) =>
      a, w := "!" + (d + ("/" + (f + "/"))), b;
      assert c.Body() == a + w;
  }

  lemma BodyEnds(c: Spelling)
    requires c.Valid()
    ensures DropNewline(c.Body() + c.end) == c.Body()
  {
    var a, w := BodySplit(c);
    LastIsDigit(a, w);
    LineAdded(c.Body(), c.end);
  }

  lemma AutogradAlone(d: string)
    requires IsNumber(d)
    ensures MatchAutograd("!" + d) == Some(Groups(None, None, Some(d)))
  {
    assert ("!" + d)[1..] == d && d + "" == d;
    SpanLenOfPrefix(IsDigit, d, "");
  }

  lemma BodyMatched(c: Spelling)
    requires c.Valid()
    ensures c.Frame? ==> MatchFrame(c.Body()) == Some(Groups(Some(c.frame), Some(c.build), None))
    ensures !c.Frame? ==> MatchFrame(c.Body()) == None
    ensures c.Autograd? ==> MatchAutograd(c.Body()) == Some(Groups(None, None, Some(c.autograd)))
    ensures c.Both? ==> MatchAutograd(c.Body()) == Some(Groups(Some(c.frame), Some(c.build), Some(c.autograd)))
  {
    match c
    case Frame(f, b, _) => FrameRead(f, b);
    case Autograd(d, _) =>
      BangIsNoFrame(d);
      AutogradAlone(d);
    case Both(d, f, b, _) =>
      FrameRead(f, b);
      BangIsNoFrame(d + ("/" + (f + "/" + b)));
      MatchBoth(d, f + "/" + b);
  }

  lemma ReadsAs(s: string, t: string, g: Groups)
    requires DropNewline(s) == t
    requires MatchFrame(t) == Some(g) || (MatchFrame(t) == None && MatchAutograd(t) == Some(g))
    ensures Numeric(g) && Read(s) == Done(Built(g))
  {
    assert Match(FramePattern, s) == MatchFrame(t) && Match(AutogradPattern, s) == MatchAutograd(t);
  }

  lemma SpellingRead(c: Spelling)
    requires c.Valid()
    ensures Read(c.Body() + c.end) == Done(c.Meaning())
  {
    BodyEnds(c);
    BodyMatched(c);
    match c
    case Frame(f, b, end) => ReadsAs(c.Body() + end, c.Body(), Groups(Some(f), Some(b), None));
    case Autograd(d, end) => ReadsAs(c.Body() + end, c.Body(), Groups(None, None, Some(d)));
    case Both(d, f, b, end) => ReadsAs(c.Body() + end, c.Body(), Groups(Some(f), Some(b), Some(d)));
  }

  /** What matches the second pattern: a number, and a frame behind it or not. */
  lemma MatchedParts(t: string, u: string, k: nat)
    requires t != "" && u == t[1..] && k == SpanLen(IsDigit, u) && MatchAutograd(t).Some?
    ensures t[0] == '!' && k > 0
    ensures k == |u| ==> MatchAutograd(t).value == Groups(None, None, Some(u))
    ensures k < |u| ==> u[k] == '/' && SplitFrame(u[k + 1..]).Some?
    ensures k < |u| ==> var f := SplitFrame(u[k + 1..]).value;
                        MatchAutograd(t).value == Groups(Some(f.0), Some(f.1), Some(u[..k]))
  {
  }

  lemma FindAutograd(t: string, end: string) returns (c: Spelling)
    requires (end == "" || end == "\n") && MatchAutograd(t).Some?
    ensures c.Valid() && c.Body() == t && c.end == end && c.Meaning() == Built(MatchAutograd(t).value)
  {
    var u := t[1..];
    var k := SpanLen(IsDigit, u);
    MatchedParts(t, u, k);
    if k == |u| {
      c := Autograd(u, end);
      assert t == "!" + u;
    } else {
      c := FindBoth(t, u, k, SplitFrame(u[k + 1..]).value, end);
    }
  }

  lemma FindBoth(t: string, u: string, k: nat, f: (string, string), end: string) returns (c: Spelling)
    requires (end == "" || end == "\n") && t != "" && t[0] == '!' && u == t[1..] && 0 < k < |u| && u[k] == '/'
    requires AllDigits(u[..k]) && IsNumber(f.0) && IsNumber(f.1) && u[k + 1..] == f.0 + "/" + f.1
    ensures c.Valid() && c.Body() == t && c.end == end
    ensures c.Meaning() == Built(Groups(Some(f.0), Some(f.1), Some(u[..k])))
  {
    AutogradParts(t, u, k);
    c := Both(u[..k], f.0, f.1, end);
  }

  lemma FindSpelling(t: string, end: string) returns (c: Spelling)
    requires end == "" || end == "\n"
    requires MatchFrame(t).Some? || MatchAutograd(t).Some?
    ensures c.Valid() && c.Body() == t && c.end == end
    ensures c.Meaning() == if MatchFrame(t).Some? then Built(MatchFrame(t).value) else Built(MatchAutograd(t).value)
  {
    if MatchFrame(t).Some? {
      var f := SplitFrame(t).value;
      c := Frame(f.0, f.1, end);
    } else {
      c := FindAutograd(t, end);
    }
  }

  /** A text is read exactly when it is one of the three forms, with a line break behind it or
      not, and then as the numbers in their places. */
  lemma ReadExactly(s: string, id: CompileId)
    ensures Read(s) == Done(id) <==> Spells(s, id)
  {
    if Read(s) == Done(id) {
      var end := LineCut(s);
      var c := FindSpelling(DropNewline(s), end);
      assert Spells(s, id);
    }
    if Spells(s, id) {
      var c: Spelling :| c.Valid() && s == c.Body() + c.end && c.Meaning() == id;
      SpellingRead(c);
    }
  }

  /** What can be written: frame and build number together, alone or behind an autograd number. */
  lemma WrittenExactly(id: CompileId)
    ensures Written(id).Done? <==> id.frame.Some? == id.build.Some? && (id.frame.Some? || id.autograd.Some?)
    ensures TraceText(TraceId(id, 0)) == Written(id)
  {
  }

  lemma WrittenSamples()
    ensures Written(CompileId(Some(1), Some(2), None)) == Done("1/2")
    ensures Written(CompileId(None, None, Some(3))) == Done("!3")
    ensures Written(CompileId(Some(1), Some(2), Some(3))) == Done("!3/1/2")
    ensures TraceText(TraceId(CompileId(Some(1), Some(2), None), 4)) == Done("1/2_4")
  {
    assert IntText(1) == "1" && IntText(2) == "2" && IntText(3) == "3" && IntText(4) == "4";
    assert FrameText(1, 2) == "1/2";
    assert "!" + IntText(3) == "!3" && "!3" + "/" + FrameText(1, 2) == "!3/1/2";
    assert "1/2" + "_" + IntText(4) == "1/2_4";
  }
}
