/**
 How the schema reader fails: with its own error, unless the default value behind some equals
 sign cannot be read. Along the way every reader is shown to leave a tail of its text.
 */
module SchemaFailures {
  import opened Text
  import opened SchemaModel
  import opened SchemaGrammar

  predicate IsTail(r: string, s: string) {
    |r| <= |s| && r == s[|s| - |r|..]
  }

  /** Behind an equals sign at `k`, no default value can be read. */
  predicate DefaultFailsAt(s: string, e: Failure, k: int) {
    0 < k <= |s| && s[k - 1] == '=' && ParseDefault(s[k..]) == Err(e)
  }

  ghost predicate DefaultFails(s: string, e: Failure) {
    exists k :: DefaultFailsAt(s, e, k)
  }

  ghost predicate Fine<T>(s: string, r: Parsed<T>) {
    match r
    case Ok(_, rest) => IsTail(rest, s)
    case Err(e) => e == SchemaParseError || DefaultFails(s, e)
  }

  lemma TailOfTail(q: string, r: string, s: string)
    requires IsTail(q, r) && IsTail(r, s)
    ensures IsTail(q, s)
  {
  }

  lemma TailAt(r: string, s: string, k: nat)
    requires IsTail(r, s) && k <= |r|
    ensures s[|s| - |r| + k..] == r[k..]
    ensures k > 0 ==> s[|s| - |r| + k - 1] == r[k - 1]
  {
  }

  lemma FailsInTail(r: string, s: string, e: Failure)
    requires IsTail(r, s) && DefaultFails(r, e)
    ensures DefaultFails(s, e)
  {
    var k :| DefaultFailsAt(r, e, k);
    TailAt(r, s, k);
    assert DefaultFailsAt(s, e, |s| - |r| + k);
  }

  /** What is fine for a tail is fine for the whole. */
  lemma FineInTail<T>(s1: string, s: string, r: Parsed<T>)
    requires IsTail(s1, s) && Fine(s1, r)
    ensures Fine(s, r)
  {
    if r.Ok? {
      TailOfTail(r.rest, s1, s);
    } else if r.error != SchemaParseError {
      FailsInTail(s1, s, r.error);
    }
  }

  // ----- tokens -----

  lemma CutIsTail(s: string, n: nat)
    requires n <= |s|
    ensures IsTail(s[n..], s)
  {
  }

  lemma {:induction false} SkipTail(s: string)
    ensures IsTail(Skip(s), s)
  {
    if s != "" && IsSpace(s[0]) {
      SkipTail(s[1..]);
    }
  }

  lemma AcceptTail(s: string, tok: string)
    ensures Accept(s, tok).Some? ==> IsTail(Accept(s, tok).value, s)
    ensures Fine(s, Expect(s, tok))
  {
    SkipTail(s);
    var t := Skip(s);
    if tok <= t {
      CutIsTail(t, |tok|);
      TailOfTail(t[|tok|..], t, s);
    }
  }

  lemma SpanTail(p: char -> bool, s: string)
    ensures IsTail(Skip(s)[SpanLen(p, Skip(s))..], s)
  {
    SkipTail(s);
    var t := Skip(s);
    CutIsTail(t, SpanLen(p, t));
    TailOfTail(t[SpanLen(p, t)..], t, s);
  }

  lemma ReadIdentFine(s: string)
    ensures Fine(s, ReadIdent(s))
  {
    SpanTail(IsIdentChar, s);
  }

  // ----- annotations and types -----

  lemma {:induction false} AliasLoopFine(s: string, p: AliasParts)
    ensures Fine(s, AliasLoop(s, p))
    decreases |s|, 1
  {
    AcceptTail(s, "*");
    ReadIdentFine(s);
    var w := AliasName(s);
    if w.Ok? {
      AliasNextFine(w.rest, PushName(p, w.value));
      FineInTail(w.rest, s, AliasNext(w.rest, PushName(p, w.value)));
    }
  }

  lemma {:induction false} AliasNextFine(s: string, p: AliasParts)
    ensures Fine(s, AliasNext(s, p))
    decreases |s|, 0
  {
    AcceptTail(s, "|");
    AcceptTail(s, "->");
    SkipTail(s);
    var bar, arrow := Accept(s, "|"), Accept(s, "->");
    if bar.Some? {
      AliasLoopFine(bar.value, p);
      FineInTail(bar.value, s, AliasLoop(bar.value, p));
    } else if arrow.Some? {
      AliasLoopFine(arrow.value, p.(inAfter := true));
      FineInTail(arrow.value, s, AliasLoop(arrow.value, p.(inAfter := true)));
    }
  }

  lemma ParseAliasFine(s: string)
    ensures Fine(s, ParseAlias(s))
  {
    var start := AliasParts([], [], false);
    AliasLoopFine(s, start);
    var r := AliasLoop(s, start);
    if r.Ok? {
      AliasEndFine(r.rest, r.value);
      FineInTail(r.rest, s, ParseAliasEnd(r.rest, r.value));
    }
  }

  lemma AliasEndFine(s: string, p: AliasParts)
    ensures Fine(s, ParseAliasEnd(s, p))
  {
    var bang := Accept(s, "!");
    AcceptTail(s, "!");
    AcceptTail(s, ")");
    if bang.Some? {
      AcceptTail(bang.value, ")");
      FineInTail(bang.value, s, Expect(bang.value, ")"));
    }
  }

  lemma ParseSizeFine(s: string)
    ensures Fine(s, ParseSize(s))
  {
    var r := Skip(s)[SpanLen(IsDigit, Skip(s))..];
    assert IsTail(r, s) by { SpanTail(IsDigit, s); }
    AcceptTail(r, "]");
    FineInTail(r, s, Expect(r, "]"));
  }

  lemma {:induction false} TypeSuffixFine(s: string, t: SchemaType, size: Option<nat>)
    ensures Fine(s, TypeSuffix(s, t, size))
    decreases |s|
  {
    AcceptTail(s, "?");
    AcceptTail(s, "[");
    SkipTail(s);
    var opt, list := Accept(s, "?"), Accept(s, "[");
    if opt.Some? {
      TypeSuffixFine(opt.value, OptionalType(t), size);
      FineInTail(opt.value, s, TypeSuffix(opt.value, OptionalType(t), size));
    } else if list.Some? {
      ParseSizeFine(list.value);
      FineInTail(list.value, s, ParseSize(list.value));
      var n := ParseSize(list.value);
      if n.Ok? {
        TypeSuffixFine(n.rest, ListType(t, n.value), n.value);
        FineInTail(n.rest, s, TypeSuffix(n.rest, ListType(t, n.value), n.value));
      }
    }
  }

  lemma AnnotationFine(s: string)
    ensures Fine(s, ParseAnnotation(s))
  {
    AcceptTail(s, "(");
    SkipTail(s);
    var open := Accept(s, "(");
    if open.Some? {
      ParseAliasFine(open.value);
      FineInTail(open.value, s, ParseAlias(open.value));
    }
  }

  lemma ParseTypeFine(s: string)
    ensures Fine(s, ParseType(s))
  {
    ReadIdentFine(s);
    var id := ReadIdent(s);
    if id.Ok? && LookupBase(id.value).Some? {
      var t := BaseType(LookupBase(id.value).value);
      AnnotationFine(id.rest);
      FineInTail(id.rest, s, ParseAnnotation(id.rest));
      var ann := ParseAnnotation(id.rest);
      if ann.Ok? {
        TypeSuffixFine(ann.rest, t, None);
        FineInTail(ann.rest, s, TypeSuffix(ann.rest, t, None));
      }
    }
  }

  // ----- default values and arguments -----

  lemma QuotedTail(t: string)
    requires t != "" && ParseQuoted(t).Ok?
    ensures IsTail(ParseQuoted(t).rest, t)
  {
    CutIsTail(t, QuoteLen(t[1..], t[0]) + 2);
  }

  lemma ListTail(t: string)
    requires t != "" && t[0] == '['
    ensures IsTail(ParseList(t).rest, t)
  {
    if ListLen(t, 0) + 1 <= |t| { CutIsTail(t, ListLen(t, 0) + 1); }
  }

  lemma BareTail(t: string)
    ensures IsTail(ParseBare(t).rest, t)
  {
    CutIsTail(t, SpanLen(NotCloser, t));
  }

  lemma ParseDefaultTail(s: string)
    requires ParseDefault(s).Ok?
    ensures IsTail(ParseDefault(s).rest, s)
  {
    SkipTail(s);
    var t := Skip(s);
    if t[0] == '"' || t[0] == '\'' {
      QuotedTail(t);
    } else if t[0] == '[' {
      ListTail(t);
    } else {
      BareTail(t);
    }
    TailOfTail(ParseDefault(s).rest, t, s);
  }

  lemma OptionalDefaultFine(s: string)
    ensures Fine(s, ParseOptionalDefault(s))
  {
    AcceptTail(s, "=");
    SkipTail(s);
    var equals := Accept(s, "=");
    if equals.Some? {
      var r := equals.value;
      if ParseDefault(r).Ok? {
        ParseDefaultTail(r);
        TailOfTail(ParseDefault(r).rest, r, s);
      } else {
        BehindEquals(s, r);
        assert DefaultFailsAt(s, ParseDefault(r).error, |s| - |r|);
      }
    }
  }

  lemma BehindEquals(s: string, r: string)
    requires Accept(s, "=") == Some(r)
    ensures |r| < |s| && s[|s| - |r| - 1] == '=' && s[|s| - |r|..] == r
  {
    SkipTail(s);
    AcceptTail(s, "=");
    assert Skip(s)[0] == '=';
  }

  lemma ParseArgumentFine(s: string, kwargOnly: bool)
    ensures Fine(s, ParseArgument(s, kwargOnly))
  {
    ParseTypeFine(s);
    var t := ParseType(s);
    if t.Ok? {
      ReadIdentFine(t.rest);
      FineInTail(t.rest, s, ReadIdent(t.rest));
      var name := ReadIdent(t.rest);
      if name.Ok? {
        OptionalDefaultFine(name.rest);
        FineInTail(name.rest, s, ParseOptionalDefault(name.rest));
      }
    }
  }

  lemma {:induction false} ArgLoopFine(s: string, kwargOnly: bool)
    ensures Fine(s, ArgLoop(s, kwargOnly))
    decreases |s|, 1
  {
    AcceptTail(s, "*");
    ParseArgumentFine(s, kwargOnly);
    var star, a := Accept(s, "*"), ParseArgument(s, kwargOnly);
    if star.Some? {
      ArgNextFine(star.value, true);
      FineInTail(star.value, s, ArgNext(star.value, true));
    } else if a.Ok? {
      ArgNextFine(a.rest, kwargOnly);
      FineInTail(a.rest, s, ArgNext(a.rest, kwargOnly));
    }
  }

  lemma {:induction false} ArgNextFine(s: string, kwargOnly: bool)
    ensures Fine(s, ArgNext(s, kwargOnly))
    decreases |s|, 0
  {
    AcceptTail(s, ")");
    AcceptTail(s, ",");
    var comma := Accept(s, ",");
    if Accept(s, ")").None? && comma.Some? {
      ArgLoopFine(comma.value, kwargOnly);
      FineInTail(comma.value, s, ArgLoop(comma.value, kwargOnly));
    }
  }

  lemma ParseArgumentsFine(s: string)
    ensures Fine(s, ParseArguments(s))
  {
    AcceptTail(s, "(");
    var open := Accept(s, "(");
    if open.Some? {
      AcceptTail(open.value, ")");
      FineInTail(open.value, s, Expect(open.value, ")"));
      ArgLoopFine(open.value, false);
      FineInTail(open.value, s, ArgLoop(open.value, false));
    }
  }

  // ----- results -----

  lemma ParseReturnFine(s: string)
    ensures Fine(s, ParseReturn(s))
  {
    ParseTypeFine(s);
    var t := ParseType(s);
    if t.Ok? {
      SkipTail(t.rest);
      TailOfTail(Skip(t.rest), t.rest, s);
      ReadIdentFine(t.rest);
      FineInTail(t.rest, s, ReadIdent(t.rest));
    }
  }

  lemma {:induction false} ReturnLoopFine(s: string)
    ensures Fine(s, ReturnLoop(s))
    decreases |s|, 1
  {
    ParseReturnFine(s);
    var a := ParseReturn(s);
    if a.Ok? {
      ReturnNextFine(a.rest);
      FineInTail(a.rest, s, ReturnNext(a.rest));
    }
  }

  lemma {:induction false} ReturnNextFine(s: string)
    ensures Fine(s, ReturnNext(s))
    decreases |s|, 0
  {
    AcceptTail(s, ",");
    AcceptTail(s, ")");
    var comma := Accept(s, ",");
    if comma.Some? {
      ReturnLoopFine(comma.value);
      FineInTail(comma.value, s, ReturnLoop(comma.value));
    }
  }

  lemma ParseReturnsFine(s: string)
    ensures Fine(s, ParseReturns(s))
  {
    AcceptTail(s, "(");
    ParseReturnFine(s);
    var open := Accept(s, "(");
    if open.Some? {
      AcceptTail(open.value, ")");
      FineInTail(open.value, s, Expect(open.value, ")"));
      ReturnLoopFine(open.value);
      FineInTail(open.value, s, ReturnLoop(open.value));
    }
  }

  // ----- schemas -----

  lemma OverloadFine(s: string)
    ensures Fine(s, ParseOverload(s))
  {
    AcceptTail(s, ".");
    SkipTail(s);
    var dot := Accept(s, ".");
    if dot.Some? {
      ReadIdentFine(dot.value);
      FineInTail(dot.value, s, ReadIdent(dot.value));
    }
  }

  lemma SignatureFails(s: string)
    requires ParseSignature(s).Err? && ParseSignature(s).error != SchemaParseError
    ensures DefaultFails(s, ParseSignature(s).error)
  {
    ParseArgumentsFine(s);
    var args := ParseArguments(s);
    if args.Ok? {
      AcceptTail(args.rest, "->");
      var arrow := Expect(args.rest, "->");
      if arrow.Ok? {
        ParseReturnsFine(arrow.rest);
        TailOfTail(arrow.rest, args.rest, s);
        FineInTail(arrow.rest, s, ParseReturns(arrow.rest));
      }
    }
  }

  /** A refused text is refused with the reader's own error, or with the error of a default value
      that cannot be read behind one of its equals signs. */
  lemma FailsExactly(text: string, ns: string)
    requires ParseSchema(text, ns).Err? && ParseSchema(text, ns).error != SchemaParseError
    ensures DefaultFails(text, ParseSchema(text, ns).error)
  {
    ReadIdentFine(text);
    var s1 := ReadIdent(text).rest;
    OverloadFine(s1);
    FineInTail(s1, text, ParseOverload(s1));
    var s2 := ParseOverload(s1).rest;
    SignatureFails(s2);
    FailsInTail(s2, text, ParseSignature(s2).error);
  }

  /** A default value is missing at the end of the text, or is quoted text that is not closed or
      cannot be decoded; everything else can be read. */
  lemma DefaultFailsExactly(s: string)
    ensures ParseDefault(s) == Err(IndexError) <==> Skip(s) == ""
    ensures ParseDefault(s).Err? && Skip(s) != "" ==> Skip(s)[0] == '"' || Skip(s)[0] == '\''
    ensures ParseDefault(s) != Err(SchemaParseError)
    ensures (Skip(s) != "" && (Skip(s)[0] == '"' || Skip(s)[0] == '\'')
             && QuoteLen(Skip(s)[1..], Skip(s)[0]) >= |Skip(s)| - 1) ==> ParseDefault(s) == Err(SyntaxError)
  {
    var t := Skip(s);
    if t != "" && (t[0] == '"' || t[0] == '\'') && QuoteLen(t[1..], t[0]) < |t| - 1 {
      DecodingFails(t[1..QuoteLen(t[1..], t[0]) + 1]);
    }
  }

  lemma {:induction false} DecodingFails(b: string)
    ensures Unescape(b).Bad? ==> Unescape(b).error == SyntaxError || Unescape(b).error == UnsupportedEscape
    decreases |b|
  {
    if b != "" {
      DecodingFails(b[1..]);
      if |b| >= 2 { DecodingFails(b[2..]); }
      if |b| >= 4 { DecodingFails(b[4..]); }
    }
  }
}
