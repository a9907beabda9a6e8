/**
 The main theorems about operator schemas: a printed schema reads back as itself
 exactly when it is printable, and printing what was read is canonical.
 */
module SchemaTheorems {
  import opened Text
  import opened SchemaModel
  import opened SchemaGrammar
  import opened SchemaPrinted
  import opened SchemaRoundTrip

  // ----- argument lists -----

  lemma ParseTypeSpace(s: string)
    ensures ParseType(" " + s) == ParseType(s)
  {
    SkipOneSpace(s);
    assert ReadIdent(" " + s) == ReadIdent(s);
  }

  lemma ArgLoopSpace(s: string, kwargOnly: bool)
    ensures ArgLoop(" " + s, kwargOnly) == ArgLoop(s, kwargOnly)
  {
    SkipOneSpace(s);
    ParseTypeSpace(s);
    assert Accept(" " + s, "*") == Accept(s, "*");
    assert ParseArgument(" " + s, kwargOnly) == ParseArgument(s, kwargOnly);
  }

  /** Between two parts: the comma and its space. */
  lemma ArgNextComma(s: string, kwargOnly: bool)
    ensures ArgNext(", " + s, kwargOnly) == ArgLoop(s, kwargOnly)
  {
    var t := " " + s;
    assert ", " + s == "," + t;
    HeadOf(',', t);
    AcceptMiss("," + t, ")");
    AcceptToken(",", t);
    ArgLoopSpace(s, kwargOnly);
  }

  lemma ArgNextClose(tail: string, kwargOnly: bool)
    ensures ArgNext(")" + tail, kwargOnly) == Ok([], tail)
  {
    AcceptToken(")", tail);
  }

  lemma TypeTextHead(t: SchemaType, alias: Option<AliasInfo>, r: string)
    ensures TypeText(t, alias) + r != "" && IsAlnum((TypeText(t, alias) + r)[0])
  {
    TypeTextParts(t, alias, r);
    assert IsAlnum(BaseName(BaseOf(t))[0]);
  }

  lemma ArgumentTextHead(a: Argument, r: string)
    ensures ArgumentText(a) + r != "" && IsAlnum((ArgumentText(a) + r)[0])
  {
    TypeTextHead(a.typ, a.alias, "");
    assert TypeText(a.typ, a.alias) + "" == TypeText(a.typ, a.alias);
  }

  lemma NotAlnum(s: string, c: char)
    requires s != "" && IsAlnum(s[0]) && !IsAlnum(c)
    ensures !Heads(s, c)
  {
    SkipFixed(s);
  }

  lemma ArgLoopStar(r: string, kwargOnly: bool)
    ensures ArgLoop("*" + r, kwargOnly) == ArgNext(r, true)
  {
    AcceptToken("*", r);
  }

  lemma ArgLoopArgument(s: string, kwargOnly: bool)
    requires s != "" && IsAlnum(s[0])
    ensures var a := ParseArgument(s, kwargOnly);
            ArgLoop(s, kwargOnly) == if a.Ok? then Cons(a.value, ArgNext(a.rest, kwargOnly)) else Err(a.error)
  {
    NotAlnum(s, '*');
    AcceptMiss(s, "*");
  }

  /** The text of an argument list from its next part to past its closing parenthesis. */
  function ListText(args: seq<Argument>, star: bool, tail: string): string {
    Join(", ", ArgumentParts(args, star)) + (")" + tail)
  }

  /** What stands after the first argument. */
  function MoreText(args: seq<Argument>, star: bool, tail: string): string
    requires args != []
  {
    if |args| == 1 then ")" + tail else ", " + ListText(args[1..], star, tail)
  }

  lemma ListTextStar(args: seq<Argument>, tail: string)
    requires args != [] && args[0].kwargOnly
    ensures ListText(args, false, tail) == "*" + (", " + ListText(args, true, tail))
  {
    var parts := ArgumentParts(args, false);
    assert parts[1..] == ArgumentParts(args, true);
    JoinStep(", ", parts, ")" + tail);
  }

  lemma ListTextStep(args: seq<Argument>, star: bool, tail: string)
    requires args != [] && (args[0].kwargOnly ==> star)
    ensures ListText(args, star, tail) == ArgumentText(args[0]) + MoreText(args, star, tail)
    ensures EndsDefault(MoreText(args, star, tail))
  {
    var parts := ArgumentParts(args, star);
    assert parts[1..] == ArgumentParts(args[1..], star);
    JoinStep(", ", parts, ")" + tail);
  }

  lemma MoreTextNext(args: seq<Argument>, star: bool, tail: string)
    requires args != []
    ensures |args| == 1 ==> ArgNext(MoreText(args, star, tail), star) == Ok([], tail)
    ensures |args| > 1 ==> ArgNext(MoreText(args, star, tail), star) == ArgLoop(ListText(args[1..], star, tail), star)
  {
    if |args| == 1 {
      ArgNextClose(tail, star);
    } else {
      ArgNextComma(ListText(args[1..], star, tail), star);
    }
  }

  predicate ReadsAsArgs(r: Parsed<seq<Argument>>, args: seq<Argument>, tail: string) {
    if AllReadable(args) then r == Ok(args, tail) else r.Ok? ==> r.value != args
  }

  lemma ReadsAsCons(a: Argument, more: Parsed<seq<Argument>>, args: seq<Argument>, tail: string)
    requires args != [] && a == args[0] && ReadableArgument(a)
    requires ReadsAsArgs(more, args[1..], tail)
    ensures ReadsAsArgs(Cons(a, more), args, tail)
  {
    assert args == [a] + args[1..];
    assert AllReadable(args) <==> AllReadable(args[1..]) by {
      assert forall i :: 1 <= i < |args| ==> args[i] == args[1..][i - 1];
      assert forall i :: 0 <= i < |args| - 1 ==> args[1..][i] == args[i + 1];
    }
    if more.Ok? {
      assert ([a] + more.value)[1..] == more.value;
    }
  }

  /** A printed argument list reads back argument by argument; the first default that
      cannot be read back spoils the list. */
  lemma {:induction false} ArgLoopPrinted(args: seq<Argument>, star: bool, tail: string)
    requires args != [] && WellFormedArguments(args) && KwargSuffix(args)
    requires star ==> AllKwarg(args)
    ensures ReadsAsArgs(ArgLoop(ListText(args, star, tail), star), args, tail)
    decreases |args|, !star
  {
    if args[0].kwargOnly && !star {
      ListTextStar(args, tail);
      var more := ListText(args, true, tail);
      ArgLoopStar(", " + more, false);
      ArgNextComma(more, true);
      ArgLoopPrinted(args, true, tail);
    } else {
      if |args| > 1 {
        ArgLoopPrinted(args[1..], star, tail);
      }
      ArgLoopStep(args, star, tail);
    }
  }

  /** The first argument is read, then the rest as the rest is read. */
  lemma ArgLoopStep(args: seq<Argument>, star: bool, tail: string)
    requires args != [] && WellFormedArguments(args) && args[0].kwargOnly == star
    requires |args| > 1 ==> ReadsAsArgs(ArgLoop(ListText(args[1..], star, tail), star), args[1..], tail)
    ensures ReadsAsArgs(ArgLoop(ListText(args, star, tail), star), args, tail)
  {
    var more := MoreText(args, star, tail);
    ListTextStep(args, star, tail);
    MoreTextNext(args, star, tail);
    OneArgument(args[0], more, star);
    var r := ParseArgument(ArgumentText(args[0]) + more, star);
    if ReadableArgument(args[0]) {
      ReadsAsCons(args[0], ArgNext(more, star), args, tail);
    } else {
      MisreadFirst(args[0], r, ArgLoop(ListText(args, star, tail), star), args, tail);
    }
  }

  /** The loop at one argument: read, or refused, or read as another. */
  lemma OneArgument(a: Argument, more: string, star: bool)
    requires WellFormedArgument(a) && a.kwargOnly == star && EndsDefault(more)
    ensures var r := ParseArgument(ArgumentText(a) + more, star);
            && (ReadableArgument(a) ==> r == Ok(a, more))
            && (!ReadableArgument(a) && r.Ok? ==> r.value != a)
            && ArgLoop(ArgumentText(a) + more, star)
               == if r.Ok? then Cons(r.value, ArgNext(r.rest, star)) else Err(r.error)
  {
    ArgumentTextHead(a, more);
    ArgLoopArgument(ArgumentText(a) + more, star);
    ArgumentRead(a, more);
  }

  lemma MisreadFirst(a: Argument, r: Parsed<Argument>, loop: Parsed<seq<Argument>>, args: seq<Argument>, tail: string)
    requires args != [] && a == args[0] && !ReadableArgument(a) && (r.Ok? ==> r.value != a)
    requires loop.Ok? ==> r.Ok? && loop.value != [] && loop.value[0] == r.value
    ensures ReadsAsArgs(loop, args, tail)
  {
    assert !AllReadable(args);
  }

  lemma ListTextHead(args: seq<Argument>, tail: string)
    requires args != []
    ensures var t := ListText(args, false, tail); t != "" && (t[0] == '*' || IsAlnum(t[0]))
  {
    if args[0].kwargOnly {
      ListTextStar(args, tail);
    } else {
      ListTextStep(args, false, tail);
      ArgumentTextHead(args[0], MoreText(args, false, tail));
    }
  }

  lemma ParseArgumentsPrinted(args: seq<Argument>, tail: string)
    requires WellFormedArguments(args) && KwargSuffix(args)
    ensures ReadsAsArgs(ParseArguments("(" + ListText(args, false, tail)), args, tail)
  {
    var t := ListText(args, false, tail);
    AcceptToken("(", t);
    if args == [] {
      assert t == ")" + tail;
      AcceptToken(")", tail);
    } else {
      ListTextHead(args, tail);
      SkipFixed(t);
      AcceptMiss(t, ")");
      ArgLoopPrinted(args, false, tail);
    }
  }

  // ----- returns -----

  lemma ReturnText(a: Argument)
    requires WellFormedReturn(a)
    ensures ArgumentText(a) == TypeText(a.typ, a.alias) + (if a.name == "" then "" else " " + a.name)
  {
    var u := TypeText(a.typ, a.alias) + (if a.name == "" then "" else " " + a.name);
    assert u + "" == u;
  }

  lemma ReturnTextParts(a: Argument, r: string)
    requires WellFormedReturn(a)
    ensures ArgumentText(a) + r == TypeText(a.typ, a.alias) + (if a.name == "" then r else " " + (a.name + r))
  {
    var t := TypeText(a.typ, a.alias);
    ReturnText(a);
    if a.name == "" {
      assert t + "" == t;
    } else {
      Associate(t, " " + a.name, r);
      Associate(" ", a.name, r);
    }
  }

  predicate EndsReturn(r: string) {
    r == "" || r[0] == ',' || r[0] == ')'
  }

  lemma ReturnRead(a: Argument, r: string)
    requires WellFormedReturn(a) && EndsReturn(r)
    ensures ParseReturn(ArgumentText(a) + r) == Ok(a, r)
  {
    ReturnTextParts(a, r);
    SkipFixed(r);
    if a.name == "" {
      ParseTypePrinted(a.typ, a.alias, r);
      if r != "" {
        AcceptToken([r[0]], r[1..]);
        assert r == [r[0]] + r[1..];
      }
    } else {
      NameEndsType(a.name, r);
      ParseTypePrinted(a.typ, a.alias, " " + (a.name + r));
      NamedReturnRead(a.name, r);
    }
  }

  lemma NamedReturnRead(w: string, r: string)
    requires IsIdent(w) && EndsReturn(r)
    ensures ReadIdent(w + r) == Ok(w, r)
    ensures Skip(w + r) != "" && Accept(w + r, ",").None? && Accept(w + r, ")").None?
  {
    ReadIdentPrinted(w, r);
    assert IsIdentChar(w[0]);
    SkipFixed(w + r);
    AcceptMiss(w + r, ",");
    AcceptMiss(w + r, ")");
  }

  lemma ReturnLoopSpace(s: string)
    ensures ReturnLoop(" " + s) == ReturnLoop(s)
  {
    ParseTypeSpace(s);
    assert ParseReturn(" " + s) == ParseReturn(s);
  }

  lemma LastReturn(a: Argument)
    requires WellFormedReturn(a)
    ensures ReturnLoop(ArgumentText(a) + ")") == Ok([a], "")
  {
    ReturnRead(a, ")");
    ReturnNextClose();
    assert [a] + [] == [a];
  }

  lemma ReturnNextClose()
    ensures ReturnNext(")") == Ok([], "")
  {
    AcceptToken(")", "");
    HeadOf(')', "");
    AcceptMiss(")", ",");
  }

  lemma NextReturn(a: Argument, t: string)
    requires WellFormedReturn(a)
    ensures ReturnLoop(ArgumentText(a) + (", " + t)) == Cons(a, ReturnLoop(t))
  {
    ReturnRead(a, ", " + t);
    ReturnNextComma(t);
  }

  lemma ReturnNextComma(t: string)
    ensures ReturnNext(", " + t) == ReturnLoop(t)
  {
    AcceptToken(",", " " + t);
    assert ", " + t == "," + (" " + t);
    ReturnLoopSpace(t);
  }

  function ReturnListText(rets: seq<Argument>): string {
    Join(", ", ArgumentTexts(rets)) + ")"
  }

  lemma ReturnListStep(rets: seq<Argument>)
    requires rets != []
    ensures |rets| == 1 ==> ReturnListText(rets) == ArgumentText(rets[0]) + ")"
    ensures |rets| > 1 ==> ReturnListText(rets) == ArgumentText(rets[0]) + (", " + ReturnListText(rets[1..]))
  {
    var texts := ArgumentTexts(rets);
    assert texts[1..] == ArgumentTexts(rets[1..]);
    JoinStep(", ", texts, ")");
  }

  lemma {:induction false} ReturnLoopPrinted(rets: seq<Argument>)
    requires rets != [] && WellFormedReturns(rets)
    ensures ReturnLoop(ReturnListText(rets)) == Ok(rets, "")
    decreases |rets|
  {
    ReturnListStep(rets);
    if |rets| == 1 {
      LastReturn(rets[0]);
      assert rets == [rets[0]];
    } else {
      NextReturn(rets[0], ReturnListText(rets[1..]));
      ReturnLoopPrinted(rets[1..]);
      HeadAndTail(rets);
    }
  }

  lemma HeadAndTail(rets: seq<Argument>)
    requires rets != []
    ensures rets == [rets[0]] + rets[1..]
  {
  }

  lemma ParseReturnsPrinted(rets: seq<Argument>)
    requires WellFormedReturns(rets)
    ensures ParseReturns(" " + ReturnsText(rets)) == Ok(rets, "")
  {
    var s := ReturnsText(rets);
    SkipOneSpace(s);
    if |rets| == 1 && rets[0].name == "" {
      assert s + "" == s && rets == [rets[0]];
      ArgumentTextHead(rets[0], "");
      NotAlnum(s, '(');
      AcceptMiss(" " + s, "(");
      ReturnRead(rets[0], "");
      ParseTypeSpace(s);
      assert ParseReturn(" " + s) == ParseReturn(s);
    } else {
      ParenthesisedReturns(rets);
    }
  }

  lemma NoReturns(t: string)
    requires t == ")"
    ensures ParseReturns(" " + ("(" + t)) == Ok([], "")
  {
    SkipOneSpace("(" + t);
    AcceptToken("(", t);
    AcceptToken(")", "");
    assert ")" + "" == t;
  }

  lemma OpenedReturns(t: string)
    requires t != "" && IsAlnum(t[0])
    ensures ParseReturns(" " + ("(" + t)) == ReturnLoop(t)
  {
    SkipOneSpace("(" + t);
    AcceptToken("(", t);
    NotAlnum(t, ')');
    AcceptMiss(t, ")");
  }

  lemma ParenthesisedReturns(rets: seq<Argument>)
    requires WellFormedReturns(rets) && !(|rets| == 1 && rets[0].name == "")
    ensures ParseReturns(" " + ReturnsText(rets)) == Ok(rets, "")
  {
    var t := ReturnListText(rets);
    assert ReturnsText(rets) == "(" + t;
    if rets == [] {
      assert t == ")";
      NoReturns(t);
    } else {
      ReturnListStep(rets);
      ArgumentTextHead(rets[0], if |rets| == 1 then ")" else ", " + ReturnListText(rets[1..]));
      OpenedReturns(t);
      ReturnLoopPrinted(rets);
    }
  }

  // ----- whole schemas -----

  function OverloadText(overload: string, r: string): string {
    if overload == "" then r else "." + (overload + r)
  }

  lemma SchemaTextParts(s: FunctionSchema)
    ensures SchemaText(s) == s.name + OverloadText(s.overload,
                             "(" + ListText(s.arguments, false, " ->" + (" " + ReturnsText(s.results))))
  {
    var j, rets := Join(", ", ArgumentParts(s.arguments, false)), ReturnsText(s.results);
    SchemaTextRegroup(s.name, if s.overload != "" then "." + s.overload else "", j, rets);
    OverloadRegroup(s.overload, "(" + (j + (")" + (" ->" + (" " + rets)))));
  }

  lemma OverloadRegroup(overload: string, r: string)
    ensures (if overload != "" then "." + overload else "") + r == OverloadText(overload, r)
  {
    assert overload != "" ==> ("." + overload) + r == "." + (overload + r);
  }

  lemma SchemaTextRegroup(n: string, o: string, j: string, rets: string)
    ensures (n + o) + "(" + j + ") -> " + rets == n + (o + ("(" + (j + (")" + (" ->" + (" " + rets))))))
  {
    assert ")" + (" ->" + (" " + rets)) == ") -> " + rets;
    assert ((((n + o) + "(") + j) + ") -> ") + rets == n + (o + ("(" + (j + (") -> " + rets))));
  }

  lemma OverloadRead(overload: string, r: string)
    requires overload == "" || IsIdent(overload)
    requires r != "" && r[0] == '('
    ensures EndsIdent(OverloadText(overload, r))
    ensures ParseOverload(OverloadText(overload, r)) == Ok(overload, r)
  {
    SkipFixed(r);
    if overload == "" {
      AcceptMiss(r, ".");
    } else {
      AcceptToken(".", overload + r);
      ReadIdentPrinted(overload, r);
    }
  }

  lemma ArrowRead(r: string)
    ensures Expect(" ->" + r, "->") == Ok((), r)
  {
    assert " ->" + r == " " + ("->" + r);
    SkipOneSpace("->" + r);
    AcceptToken("->", r);
  }

  lemma QualifyPrintable(w: string, ns: string)
    requires PrintableName(w)
    ensures Qualify(w, ns) == (ns, w)
  {
  }

  /** Reading the printed form of a printable schema under its own namespace gives it back. */
  lemma PrintableReadsBack(s: FunctionSchema)
    requires Printable(s)
    ensures ParseSchema(SchemaText(s), s.ns) == Ok(s, "")
  {
    var rets := " " + ReturnsText(s.results);
    var args := "(" + ListText(s.arguments, false, " ->" + rets);
    var over := OverloadText(s.overload, args);
    SchemaTextParts(s);
    OverloadRead(s.overload, args);
    ReadIdentPrinted(s.name, over);
    ParseArgumentsPrinted(s.arguments, " ->" + rets);
    ArrowRead(rets);
    ParseReturnsPrinted(s.results);
    QualifyPrintable(s.name, s.ns);
    StagesParse(SchemaText(s), s.ns, s, s.name, over, args, " ->" + rets, rets, "");
  }

  // ----- and no other schema does -----

  lemma QualifyChars(w: string, ns: string)
    requires IsIdent(w)
    ensures forall i :: 0 <= i < |Qualify(w, ns).1| ==> IsIdentChar(Qualify(w, ns).1[i])
    ensures QualifierLen(w) < |w| ==> |Qualify(w, ns).1| < |w|
  {
  }

  lemma NoIdentifier(t: string)
    requires t != "" && !IsSpace(t[0]) && !IsIdentChar(t[0])
    ensures ReadIdent(t).Err?
  {
    SkipFixed(t);
  }

  lemma UnnamedIsRejected(s: FunctionSchema)
    requires s.name == ""
    ensures ReadIdent(SchemaText(s)).Err?
  {
    SchemaTextParts(s);
    var rest := OverloadText(s.overload, "(" + ListText(s.arguments, false, " ->" + (" " + ReturnsText(s.results))));
    assert "" + rest == rest;
    assert rest[0] == '.' || rest[0] == '(';
    NoIdentifier(rest);
  }

  lemma NameIsPrintable(s: FunctionSchema)
    requires ParseSchema(SchemaText(s), s.ns) == Ok(s, "")
    requires s.overload == "" || IsIdent(s.overload)
    ensures PrintableName(s.name)
  {
    var q, s1, s2, s3, s4, s5 := ParseSchemaStages(SchemaText(s), s.ns);
    QualifyChars(q, s.ns);
    if s.name == "" {
      UnnamedIsRejected(s);
    } else {
      var args := "(" + ListText(s.arguments, false, " ->" + (" " + ReturnsText(s.results)));
      SchemaTextParts(s);
      OverloadRead(s.overload, args);
      ReadIdentPrinted(s.name, OverloadText(s.overload, args));
      assert q == s.name;
    }
  }

  lemma DefaultsAreReadable(s: FunctionSchema)
    requires ParseSchema(SchemaText(s), s.ns) == Ok(s, "")
    requires WellFormed(s) && PrintableName(s.name)
    ensures AllReadable(s.arguments)
  {
    var q, s1, s2, s3, s4, s5 := ParseSchemaStages(SchemaText(s), s.ns);
    var tail := " ->" + (" " + ReturnsText(s.results));
    var args := "(" + ListText(s.arguments, false, tail);
    SchemaTextParts(s);
    OverloadRead(s.overload, args);
    ReadIdentPrinted(s.name, OverloadText(s.overload, args));
    assert s2 == args;
    ParseArgumentsPrinted(s.arguments, tail);
  }

  /** The round trip, exactly: a schema reads back from its printed form if and only if
      it is printable. */
  lemma RoundTripExactly(s: FunctionSchema)
    ensures ParseSchema(SchemaText(s), s.ns) == Ok(s, "") <==> Printable(s)
  {
    if Printable(s) {
      PrintableReadsBack(s);
    }
    if ParseSchema(SchemaText(s), s.ns) == Ok(s, "") {
      ParserImage(SchemaText(s), s.ns);
      NameIsPrintable(s);
      DefaultsAreReadable(s);
    }
  }

  /** Print-after-parse is canonical: for every accepted text whose operator name and
      defaults are printable, the printed form reads as the same schema, so printing
      again changes nothing. */
  lemma PrintAfterParseIsCanonical(text: string, ns: string)
    requires ParseSchema(text, ns).Ok?
    ensures var s := ParseSchema(text, ns).value;
            ParseSchema(SchemaText(s), s.ns) == Ok(s, "") <==> PrintableName(s.name) && AllReadable(s.arguments)
  {
    ParserImage(text, ns);
    RoundTripExactly(ParseSchema(text, ns).value);
  }

  /** Two printable schemas of one namespace print alike only when they are equal. */
  lemma PrintIsInjective(s: FunctionSchema, t: FunctionSchema)
    requires Printable(s) && Printable(t) && s.ns == t.ns
    requires SchemaText(s) == SchemaText(t)
    ensures s == t
  {
    PrintableReadsBack(s);
    PrintableReadsBack(t);
  }

  /** Types compare by spelling, and that is the same as comparing their structure. */
  lemma TypesCompareBySpelling(t: SchemaType, u: SchemaType)
    ensures TypeName(t) == TypeName(u) <==> t == u
  {
    ParseTypePrinted(t, None, "");
    ParseTypePrinted(u, None, "");
    assert TypeName(t) + "" == TypeName(t) && TypeName(u) + "" == TypeName(u);
  }
}
