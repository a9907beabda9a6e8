/**
 Operator schemas as values (types, alias annotations, arguments, whole schemas)
 and their printed form.
 */
module SchemaModel {
  import opened Text

  // ----- types -----

  datatype Base =
    | TensorT | IntT | SymIntT | SymBoolT | SymFloatT | FloatT | BoolT | ScalarT
    | StrT | DeviceT | ScalarTypeT | LayoutT | MemoryFormatT | GeneratorT | StorageT

  datatype SchemaType =
    | BaseType(base: Base)
    | OptionalType(element: SchemaType)
    | ListType(element: SchemaType, size: Option<nat>)

  function BaseName(b: Base): (r: string)
    ensures r != "" && forall i :: 0 <= i < |r| ==> IsAlnum(r[i])
  {
    match b
    case TensorT => "Tensor"
    case IntT => "int"
    case SymIntT => "SymInt"
    case SymBoolT => "SymBool"
    case SymFloatT => "SymFloat"
    case FloatT => "float"
    case BoolT => "bool"
    case ScalarT => "Scalar"
    case StrT => "str"
    case DeviceT => "Device"
    case ScalarTypeT => "ScalarType"
    case LayoutT => "Layout"
    case MemoryFormatT => "MemoryFormat"
    case GeneratorT => "Generator"
    case StorageT => "Storage"
  }

  /** The base-type table, with its one extra spelling `int64_t`. */
  function LookupBase(name: string): (r: Option<Base>)
  {
    match name
    case "Tensor" => Some(TensorT)
    case "int" => Some(IntT)
    case "int64_t" => Some(IntT)
    case "SymInt" => Some(SymIntT)
    case "SymBool" => Some(SymBoolT)
    case "SymFloat" => Some(SymFloatT)
    case "float" => Some(FloatT)
    case "bool" => Some(BoolT)
    case "Scalar" => Some(ScalarT)
    case "str" => Some(StrT)
    case "Device" => Some(DeviceT)
    case "ScalarType" => Some(ScalarTypeT)
    case "Layout" => Some(LayoutT)
    case "MemoryFormat" => Some(MemoryFormatT)
    case "Generator" => Some(GeneratorT)
    case "Storage" => Some(StorageT)
    case _ => None
  }

  lemma LookupBaseName(b: Base)
    ensures LookupBase(BaseName(b)) == Some(b)
  {
  }

  function BaseOf(t: SchemaType): (b: Base) {
    match t
    case BaseType(b) => b
    case OptionalType(e) => BaseOf(e)
    case ListType(e, _) => BaseOf(e)
  }

  function SizeText(size: Option<nat>): (r: string) {
    if size.None? then "" else NatText(size.value)
  }

  /** `str(t)`: the element's spelling followed by `?` or `[size]`. */
  function TypeName(t: SchemaType): (r: string) {
    match t
    case BaseType(b) => BaseName(b)
    case OptionalType(e) => TypeName(e) + "?"
    case ListType(e, n) => TypeName(e) + "[" + SizeText(n) + "]"
  }

  /** The outermost `?` or `[size]` of a type. */
  function WrapperText(t: SchemaType): (r: string)
    requires !t.BaseType?
  {
    if t.OptionalType? then "?" else "[" + SizeText(t.size) + "]"
  }

  /** What follows the base name in `str(t)`. */
  function SuffixText(t: SchemaType): (r: string) {
    if t.BaseType? then "" else SuffixText(t.element) + WrapperText(t)
  }

  lemma {:induction false} TypeNameParts(t: SchemaType)
    ensures TypeName(t) == BaseName(BaseOf(t)) + SuffixText(t)
  {
    if !t.BaseType? {
      var e := t.element;
      TypeNameParts(e);
      assert TypeName(t) == TypeName(e) + WrapperText(t) by {
        if t.ListType? {
          Associate(TypeName(e), "[", SizeText(t.size));
          Associate(TypeName(e), "[" + SizeText(t.size), "]");
        }
      }
      Associate(BaseName(BaseOf(e)), SuffixText(e), WrapperText(t));
    }
  }

  /** The declared length carried by an argument: that of the outermost list. */
  function OutermostSize(t: SchemaType): (r: Option<nat>) {
    match t
    case BaseType(_) => None
    case OptionalType(e) => OutermostSize(e)
    case ListType(_, n) => n
  }

  // ----- values -----

  /** Default values. A float is kept as the token that spells it. */
  datatype Value =
    | NoneV
    | BoolV(flag: bool)
    | IntV(number: int)
    | FloatV(spelling: string)
    | StrV(chars: string)
    | ListV(items: seq<Value>)

  datatype AliasInfo = AliasInfo(before: set<string>, after: set<string>, isWrite: bool)

  datatype Argument = Argument(
    name: string,
    typ: SchemaType,
    default: Value,
    hasDefault: bool,
    kwargOnly: bool,
    alias: Option<AliasInfo>,
    isOut: bool,
    size: Option<nat>)

  datatype FunctionSchema = FunctionSchema(
    name: string,
    overload: string,
    arguments: seq<Argument>,
    results: seq<Argument>,
    ns: string)

  // ----- ordering of alias names -----

  /** Code-point order on strings, the order `sorted` uses. */
  predicate LexLe(a: string, b: string) {
    a == "" || (b != "" && (a[0] < b[0] || (a[0] == b[0] && LexLe(a[1..], b[1..]))))
  }

  lemma LexTotal(a: string, b: string)
    ensures LexLe(a, b) || LexLe(b, a)
  {
  }

  lemma {:induction false} LexAntisymmetric(a: string, b: string)
    requires LexLe(a, b) && LexLe(b, a)
    ensures a == b
  {
    if a != "" && b != "" {
      LexAntisymmetric(a[1..], b[1..]);
      assert a == [a[0]] + a[1..] && b == [b[0]] + b[1..];
    }
  }

  lemma {:induction false} LexTransitive(a: string, b: string, c: string)
    requires LexLe(a, b) && LexLe(b, c)
    ensures LexLe(a, c)
  {
    if a != "" && b != "" && c != "" && a[0] == b[0] == c[0] {
      LexTransitive(a[1..], b[1..], c[1..]);
    }
  }

  predicate IsLeast(m: string, s: set<string>) {
    m in s && forall y :: y in s ==> LexLe(m, y)
  }

  lemma {:induction false} LeastExists(s: set<string>)
    requires s != {}
    ensures exists m :: IsLeast(m, s)
    decreases |s|
  {
    var x :| x in s;
    LexTotal(x, x);
    if s == {x} {
      assert IsLeast(x, s);
    } else {
      var rest := s - {x};
      assert s == rest + {x};
      LeastExists(rest);
      var m :| IsLeast(m, rest);
      LexTotal(x, m);
      if LexLe(m, x) {
        assert IsLeast(m, s);
      } else {
        forall y | y in s ensures LexLe(x, y) {
          if y in rest { LexTransitive(x, m, y); }
        }
        assert IsLeast(x, s);
      }
    }
  }

  lemma LeastUnique(s: set<string>)
    ensures forall m, k :: IsLeast(m, s) && IsLeast(k, s) ==> m == k
  {
    forall m, k | IsLeast(m, s) && IsLeast(k, s) ensures m == k {
      LexAntisymmetric(m, k);
    }
  }

  function Least(s: set<string>): (m: string)
    requires s != {}
    ensures IsLeast(m, s)
  {
    LeastExists(s);
    LeastUnique(s);
    var m :| IsLeast(m, s);
    m
  }

  /** `sorted(s)`: every element once, each before all later ones. */
  function SortedNames(s: set<string>): (r: seq<string>)
    ensures forall x :: x in s <==> x in r
    ensures forall i, j :: 0 <= i < j < |r| ==> LexLe(r[i], r[j])
  {
    if s == {} then [] else
      var m := Least(s);
      [m] + SortedNames(s - {m})
  }

  /** No name is listed twice. */
  lemma {:induction false} SortedOnce(s: set<string>)
    ensures |SortedNames(s)| == |s|
  {
    if s != {} { SortedOnce(s - {Least(s)}); }
  }

  // ----- printing -----

  predicate IsControl(c: char) {
    (c as int) < 32 || c as int == 127
  }

  function HexDigit(d: nat): (c: char)
    requires d < 16
    ensures IsAlnum(c)
  {
    if d < 10 then (d + 48) as char else (d + 87) as char
  }

  /** One character as `repr` writes it between quotes `q`. */
  function EscapeChar(c: char, q: char): (r: string)
    ensures r != ""
  {
    if c == '\\' || c == q then ['\\', c]
    else if c == '\n' then ['\\', 'n']
    else if c == '\r' then ['\\', 'r']
    else if c == '\t' then ['\\', 't']
    else if IsControl(c) then ['\\', 'x', HexDigit(c as int / 16), HexDigit(c as int % 16)]
    else [c]
  }

  function Escaped(s: string, q: char): (r: string) {
    if s == "" then "" else EscapeChar(s[0], q) + Escaped(s[1..], q)
  }

  /** `repr` prefers single quotes unless only they occur in the text. */
  function QuoteFor(s: string): (q: char)
    ensures q == '\'' || q == '"'
  {
    if '\'' in s && '"' !in s then '"' else '\''
  }

  function Repr(s: string): (r: string) {
    [QuoteFor(s)] + Escaped(s, QuoteFor(s)) + [QuoteFor(s)]
  }

  function DefaultText(v: Value): (r: string)
    decreases v, 0
  {
    match v
    case NoneV => "None"
    case BoolV(b) => if b then "True" else "False"
    case IntV(n) => IntText(n)
    case FloatV(w) => w
    case StrV(s) => Repr(s)
    case ListV(items) => "[" + Join(",", DefaultTexts(items)) + "]"
  }

  function DefaultTexts(vs: seq<Value>): (r: seq<string>)
    ensures |r| == |vs|
    ensures forall i :: 0 <= i < |vs| ==> r[i] == DefaultText(vs[i])
    decreases vs
  {
    if vs == [] then [] else [DefaultText(vs[0])] + DefaultTexts(vs[1..])
  }

  function NamesText(s: set<string>): (r: string) {
    Join("|", SortedNames(s))
  }

  function AliasText(a: AliasInfo): (r: string) {
    "(" + NamesText(a.before)
    + (if a.after != {} && a.after != a.before then " -> " + NamesText(a.after) else "")
    + (if a.isWrite then "!" else "") + ")"
  }

  /** A type with its alias annotation written after the base name. */
  function TypeText(t: SchemaType, alias: Option<AliasInfo>): (r: string) {
    if alias.None? then TypeName(t)
    else BaseName(BaseOf(t)) + AliasText(alias.value) + SuffixText(t)
  }

  function ArgumentText(a: Argument): (r: string) {
    TypeText(a.typ, a.alias)
    + (if a.name != "" then " " + a.name else "")
    + (if a.hasDefault then "=" + DefaultText(a.default) else "")
  }

  /** The comma-separated parts of an argument list, with one `*` before the first
      keyword-only argument (`star` says it has been written). */
  function ArgumentParts(args: seq<Argument>, star: bool): (r: seq<string>)
    ensures args != [] ==> r != []
  {
    if args == [] then []
    else if args[0].kwargOnly && !star then
      ["*", ArgumentText(args[0])] + ArgumentParts(args[1..], true)
    else [ArgumentText(args[0])] + ArgumentParts(args[1..], star)
  }

  function ArgumentTexts(args: seq<Argument>): (r: seq<string>)
    ensures |r| == |args|
  {
    if args == [] then [] else [ArgumentText(args[0])] + ArgumentTexts(args[1..])
  }

  function ReturnsText(rets: seq<Argument>): (r: string) {
    if |rets| == 1 && rets[0].name == "" then ArgumentText(rets[0])
    else "(" + Join(", ", ArgumentTexts(rets)) + ")"
  }

  function HeadText(name: string, overload: string): (r: string) {
    name + (if overload != "" then "." + overload else "")
  }

  /** `str(schema)`. The namespace is not written. */
  function SchemaText(s: FunctionSchema): (r: string) {
    HeadText(s.name, s.overload) + "(" + Join(", ", ArgumentParts(s.arguments, false)) + ") -> "
    + ReturnsText(s.results)
  }

  lemma SuffixStep(t: SchemaType, suffix: string)
    requires !t.BaseType?
    ensures SuffixText(t) + suffix == SuffixText(t.element) + (WrapperText(t) + suffix)
  {
    Associate(SuffixText(t.element), WrapperText(t), suffix);
  }

  /** The printer of a type: peels the wrappers off one by one, outermost first. */
  method RenderType(t: SchemaType, alias: Option<AliasInfo>) returns (text: string)
    ensures text == TypeText(t, alias)
  {
    if alias.None? {
      return TypeName(t);
    }
    var base := t;
    var suffix := "";
    while !base.BaseType?
      invariant BaseOf(base) == BaseOf(t)
      invariant SuffixText(base) + suffix == SuffixText(t)
      decreases base
    {
      SuffixStep(base, suffix);
      suffix := WrapperText(base) + suffix;
      base := base.element;
    }
    assert suffix == SuffixText(t);
    text := TypeName(base) + AliasText(alias.value) + suffix;
  }

  /** The printer of a schema: one pass over the arguments that writes `*` once. */
  method RenderSchema(s: FunctionSchema) returns (text: string)
    ensures text == SchemaText(s)
  {
    var parts: seq<string> := [];
    var star := false;
    var i := 0;
    assert s.arguments[0..] == s.arguments;
    while i < |s.arguments|
      invariant 0 <= i <= |s.arguments|
      invariant parts + ArgumentParts(s.arguments[i..], star) == ArgumentParts(s.arguments, false)
    {
      var a := s.arguments[i];
      ghost var left := s.arguments[i..];
      assert left[0] == a && left[1..] == s.arguments[i + 1..];
      if a.kwargOnly && !star {
        parts := parts + ["*"];
        star := true;
      }
      parts := parts + [ArgumentText(a)];
      i := i + 1;
    }
    assert parts == ArgumentParts(s.arguments, false);
    text := HeadText(s.name, s.overload) + "(" + Join(", ", parts) + ") -> "
    + ReturnsText(s.results);
  }
}
