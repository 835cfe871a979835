/** Format strings: `Fmt::emit_rtlil` and `Fmt::parse_rtlil` (`kernel/fmt.cc`). */
module FormatStrings {
  datatype PartType = Literal | Integer | Str | Unichar | VlogTime
  datatype Justify = Right | Left | Numeric
  datatype Sign = Minus | PlusMinus | SpaceMinus

  /** A `FmtPart`; the bits of `sig` are opaque. */
  datatype Part = Part(kind: PartType, str: string, sig: seq<int>, justify: Justify, padding: char, width: nat,
                       base: nat, signed: bool, sign: Sign, hexUpper: bool, showBase: bool, group: bool, realtime: bool)

  const BLANK := Part(Literal, "", [], Right, '\0', 0, 10, false, Minus, false, false, false, false)

  datatype Result<+T> = Ok(value: T) | Fail

  // ----- Numbers

  function Digit(d: nat): char
    requires d < 10
  {
    '0' + d as char
  }

  predicate IsDigit(c: char) {
    '0' <= c <= '9'
  }

  function DigitValue(c: char): nat
    requires IsDigit(c)
  {
    (c - '0') as nat
  }

  /** Decimal digits without leading zeros. */
  function ToString(n: nat): string {
    if n < 10 then [Digit(n)] else ToString(n / 10) + [Digit(n % 10)]
  }

  // ----- Printing

  /** What `emit_rtlil` demands of a part. */
  predicate Printable(p: Part) {
    match p.kind
    case Literal => true
    case Unichar => |p.sig| <= 32
    case VlogTime => |p.sig| == 0 && PaddingOk(p)
    case Str => |p.sig| % 8 == 0 && PaddingOk(p)
    case Integer => p.base in {2, 8, 10, 16} && PaddingOk(p)
  }

  predicate PaddingOk(p: Part) {
    p.width == 0 || p.padding != '\0'
  }

  /** The texts of all elements, one after the other. */
  function Gather<S, T>(f: S -> seq<T>, s: seq<S>): seq<T> {
    if |s| == 0 then [] else f(s[0]) + Gather(f, s[1..])
  }

  function EscapeChar(c: char): string {
    if c == '{' then "{{" else if c == '}' then "}}" else [c]
  }

  function Escape(s: string): string {
    Gather(EscapeChar, s)
  }

  function JustifyChar(j: Justify): char {
    match j
    case Right => '>'
    case Left => '<'
    case Numeric => '='
  }

  function PaddingChar(p: Part): char {
    if p.padding != '\0' then p.padding else ' '
  }

  function WidthText(w: nat): string {
    if w > 0 then ToString(w) else ""
  }

  function BaseChar(base: nat, upper: bool): char {
    if base == 2 then 'b' else if base == 8 then 'o' else if base == 10 then 'd' else if upper then 'H' else 'h'
  }

  function SignChar(s: Sign): char {
    match s
    case Minus => '-'
    case PlusMinus => '+'
    case SpaceMinus => ' '
  }

  function FlagsText(p: Part): string {
    [SignChar(p.sign)] + (if p.showBase then "#" else "") + (if p.group then "_" else "") +
        [if p.signed then 's' else 'u']
  }

  function TypeText(p: Part): string {
    match p.kind
    case Integer => [BaseChar(p.base, p.hexUpper)] + FlagsText(p)
    case Str => "c"
    case _ => if p.realtime then "r" else "t"
  }

  /** Everything after the opening brace. */
  function FieldText(p: Part): string {
    ToString(|p.sig|) + [':'] + [JustifyChar(p.justify), PaddingChar(p)] + WidthText(p.width) + TypeText(p) + ['}']
  }

  function PartText(p: Part): string {
    match p.kind
    case Literal => Escape(p.str)
    case Unichar => "{U}"
    case _ => "{" + FieldText(p)
  }

  function PartArgs(p: Part): seq<int> {
    if p.kind == Literal || p.kind == Unichar then [] else p.sig
  }

  function Text(parts: seq<Part>): string {
    Gather(PartText, parts)
  }

  function Args(parts: seq<Part>): seq<int> {
    Gather(PartArgs, parts)
  }

  // ----- Parsing, on what is left of the string

  function At(s: string): char {
    if |s| > 0 then s[0] else '\0'
  }

  /** Digits up to a colon that is not the last character. */
  function ParseSize(s: string, acc: nat): (r: Result<(nat, string)>)
    ensures r.Ok? ==> |r.value.1| < |s|
  {
    if s == "" then Fail
    else if IsDigit(s[0]) then ParseSize(s[1..], 10 * acc + DigitValue(s[0]))
    else if s[0] == ':' && |s| > 1 then Ok((acc, s[1..]))
    else Fail
  }

  function ParseWidth(s: string, acc: nat): (r: (nat, string))
    ensures |r.1| <= |s|
  {
    if s != "" && IsDigit(s[0]) then ParseWidth(s[1..], 10 * acc + DigitValue(s[0])) else (acc, s)
  }

  datatype Field = Field(part: Part, rest: string)

  function ParseType(p: Part, c: char): Result<Part> {
    match c
    case 'b' => Ok(p.(kind := Integer, base := 2))
    case 'o' => Ok(p.(kind := Integer, base := 8))
    case 'd' => Ok(p.(kind := Integer, base := 10))
    case 'h' => Ok(p.(kind := Integer, base := 16))
    case 'H' => Ok(p.(kind := Integer, base := 16, hexUpper := true))
    case 'c' => Ok(p.(kind := Str))
    case 't' => Ok(p.(kind := VlogTime))
    case 'r' => Ok(p.(kind := VlogTime, realtime := true))
    case _ => Fail
  }

  /** The sign character may be missing. */
  function ParseSign(p: Part, s: string): (f: Field)
    ensures |f.rest| <= |s|
  {
    if At(s) == '-' then Field(p.(sign := Minus), s[1..])
    else if At(s) == '+' then Field(p.(sign := PlusMinus), s[1..])
    else if At(s) == ' ' then Field(p.(sign := SpaceMinus), s[1..])
    else Field(p, s)
  }

  function ParseBaseFlag(f: Field): Field {
    if At(f.rest) == '#' then Field(f.part.(showBase := true), f.rest[1..]) else f
  }

  function ParseGroupFlag(f: Field): Field {
    if At(f.rest) == '_' then Field(f.part.(group := true), f.rest[1..]) else f
  }

  function ParseSigned(f: Field): Result<Field> {
    if At(f.rest) == 'u' && |f.rest| > 1 then Ok(Field(f.part.(signed := false), f.rest[1..]))
    else if At(f.rest) == 's' && |f.rest| > 1 then Ok(Field(f.part.(signed := true), f.rest[1..]))
    else Fail
  }

  function ParseFlags(p: Part, s: string): (r: Result<Field>)
    ensures r.Ok? ==> |r.value.rest| <= |s|
  {
    var f := ParseSign(p, s);
    if f.rest == "" then Fail else ParseSigned(ParseGroupFlag(ParseBaseFlag(f)))
  }

  function ParseJustify(c: char): Result<Justify> {
    match c
    case '>' => Ok(Right)
    case '<' => Ok(Left)
    case '=' => Ok(Numeric)
    case _ => Fail
  }

  /** The type and, for integers, the flags. */
  function ParseKind(p: Part, t: string): (r: Result<Field>)
    ensures r.Ok? ==> |r.value.rest| <= |t|
  {
    if |t| < 2 then Fail
    else match ParseType(p, t[0]) {
      case Fail => Fail
      case Ok(q) => if q.kind == Integer then ParseFlags(q, t[1..]) else Ok(Field(q, t[1..]))
    }
  }

  /** Width, type and, for integers, the flags. */
  function ParseTail(p: Part, s: string): (r: Result<Field>)
    ensures r.Ok? ==> |r.value.rest| <= |s|
  {
    var (width, t) := ParseWidth(s, 0);
    ParseKind(p.(width := width), t)
  }

  /** From the justification to before the closing brace. */
  function ParseFormat(p: Part, s: string): (r: Result<Field>)
    ensures r.Ok? ==> |r.value.rest| <= |s|
  {
    if At(s) == 'U' then Ok(Field(p.(kind := Unichar), s[1..]))
    else match ParseJustify(At(s)) {
      case Fail => Fail
      case Ok(j) => if |s| < 3 then Fail else ParseTail(p.(justify := j, padding := s[1]), s[2..])
    }
  }

  datatype Parsed = Parsed(part: Part, rest: string, args: seq<int>)

  /** The closing brace. */
  function Closed(r: Result<Field>, args: seq<int>): Result<Parsed> {
    match r
    case Fail => Fail
    case Ok(f) => if At(f.rest) == '}' then Ok(Parsed(f.part, f.rest[1..], args)) else Fail
  }

  /** From after the size to after the closing brace. */
  function ParseBody(n: nat, t: string, args: seq<int>): (r: Result<Parsed>)
    ensures r.Ok? ==> |r.value.rest| < |t|
  {
    if |args| < n then Fail
    else Closed(ParseFormat(BLANK.(sig := args[..n]), t), args[n..])
  }

  /** From after the opening brace to after the closing one. */
  function ParseField(s: string, args: seq<int>): (r: Result<Parsed>)
    ensures r.Ok? ==> |r.value.rest| < |s|
  {
    match ParseSize(s, 0) {
      case Fail => Fail
      case Ok((n, t)) => ParseBody(n, t, args)
    }
  }

  function Flush(lit: string): seq<Part> {
    if lit == "" then [] else [BLANK.(str := lit)]
  }

  function Prepend(parts: seq<Part>, r: Result<seq<Part>>): Result<seq<Part>> {
    match r
    case Fail => Fail
    case Ok(more) => Ok(parts + more)
  }

  /** The parts of the rest of a format string, after `lit` of a literal. */
  function ParseText(s: string, args: seq<int>, lit: string): Result<seq<Part>>
    decreases |s|
  {
    if s == "" then Ok(Flush(lit))
    else if |s| > 1 && s[..2] == "}}" then ParseText(s[2..], args, lit + "}")
    else if |s| > 1 && s[..2] == "{{" then ParseText(s[2..], args, lit + "{")
    else if s[0] == '}' then Fail
    else if s[0] == '{' then
      match ParseField(s[1..], args) {
        case Fail => Fail
        case Ok(p) => Prepend(Flush(lit) + [p.part], ParseText(p.rest, p.args, ""))
      }
    else ParseText(s[1..], args, lit + [s[0]])
  }

  // ----- Round trip

  /** A substitution as the parser returns it: fields the text does not show are blank. */
  function NormalField(p: Part): Part {
    var q := BLANK.(kind := p.kind, sig := p.sig, justify := p.justify, padding := PaddingChar(p), width := p.width);
    match p.kind
    case Integer =>
      q.(base := p.base, signed := p.signed, sign := p.sign, hexUpper := p.base == 16 && p.hexUpper,
         showBase := p.showBase, group := p.group)
    case VlogTime => q.(realtime := p.realtime)
    case _ => q
  }

  /** Adjacent literals merged, empty ones dropped, substitutions in normal form. */
  function Normal(parts: seq<Part>, lit: string): seq<Part> {
    if |parts| == 0 then Flush(lit)
    else if parts[0].kind == Literal then Normal(parts[1..], lit + parts[0].str)
    else Flush(lit) + [NormalField(parts[0])] + Normal(parts[1..], "")
  }

  predicate AllPrintable(parts: seq<Part>) {
    forall i :: 0 <= i < |parts| ==> Printable(parts[i])
  }

  predicate HasUnichar(parts: seq<Part>) {
    exists i :: 0 <= i < |parts| && parts[i].kind == Unichar
  }

  /** Decimal digits are read back as the number they print. */
  lemma {:induction false} SizeOfDigits(n: nat, t: string)
    ensures ParseSize(ToString(n) + t, 0) == ParseSize(t, n)
  {
    if n >= 10 {
      var d := [Digit(n % 10)];
      assert ToString(n) + t == ToString(n / 10) + (d + t);
      SizeOfDigits(n / 10, d + t);
      assert (d + t)[1..] == t;
    } else {
      assert ([Digit(n)] + t)[1..] == t;
    }
  }

  lemma {:induction false} WidthOfDigits(n: nat, t: string)
    ensures ParseWidth(ToString(n) + t, 0) == ParseWidth(t, n)
  {
    if n >= 10 {
      var d := [Digit(n % 10)];
      assert ToString(n) + t == ToString(n / 10) + (d + t);
      WidthOfDigits(n / 10, d + t);
      assert (d + t)[1..] == t;
    } else {
      assert ([Digit(n)] + t)[1..] == t;
    }
  }

  lemma {:induction false} WidthRead(w: nat, t: string)
    requires t != "" && !IsDigit(t[0])
    ensures ParseWidth(WidthText(w) + t, 0) == (w, t)
  {
    if w > 0 {
      WidthOfDigits(w, t);
    } else {
      assert WidthText(w) + t == t;
    }
  }

  lemma {:induction false} SignRead(q: Part, sign: Sign, t: string)
    requires q.sign == Minus
    ensures ParseSign(q, [SignChar(sign)] + t) == Field(q.(sign := sign), t)
  {
    assert ([SignChar(sign)] + t)[1..] == t;
  }

  lemma {:induction false} BaseFlagRead(q: Part, on: bool, t: string)
    requires !q.showBase && At(t) != '#'
    ensures ParseBaseFlag(Field(q, (if on then "#" else "") + t)) == Field(q.(showBase := on), t)
  {
    assert ("#" + t)[1..] == t && "" + t == t;
  }

  lemma {:induction false} GroupFlagRead(q: Part, on: bool, t: string)
    requires !q.group && At(t) != '_'
    ensures ParseGroupFlag(Field(q, (if on then "_" else "") + t)) == Field(q.(group := on), t)
  {
    assert ("_" + t)[1..] == t && "" + t == t;
  }

  lemma {:induction false} SignedRead(q: Part, signed: bool, t: string)
    requires t != ""
    ensures ParseSigned(Field(q, [if signed then 's' else 'u'] + t)) == Ok(Field(q.(signed := signed), t))
  {
    assert ([if signed then 's' else 'u'] + t)[1..] == t;
  }

  lemma {:induction false} FlagsRead(p: Part, q: Part, t: string)
    requires t != "" && q.sign == Minus && !q.showBase && !q.group
    ensures ParseFlags(q, FlagsText(p) + t) ==
            Ok(Field(q.(sign := p.sign, showBase := p.showBase, group := p.group, signed := p.signed), t))
  {
    var u := [if p.signed then 's' else 'u'] + t;
    var g := (if p.group then "_" else "") + u;
    var b := (if p.showBase then "#" else "") + g;
    var q1 := q.(sign := p.sign);
    var q2 := q1.(showBase := p.showBase);
    assert FlagsText(p) + t == [SignChar(p.sign)] + b;
    SignRead(q, p.sign, b);
    BaseFlagRead(q1, p.showBase, g);
    GroupFlagRead(q2, p.group, u);
    SignedRead(q2.(group := p.group), p.signed, t);
  }

  lemma {:induction false} TypeRead(p: Part, q: Part)
    requires Printable(p) && p.kind != Literal && p.kind != Unichar && !q.hexUpper && !q.realtime && q.base == 10
    ensures ParseType(q, TypeText(p)[0]) == Ok(
              if p.kind == Integer then q.(kind := Integer, base := p.base, hexUpper := p.base == 16 && p.hexUpper)
              else if p.kind == Str then q.(kind := Str) else q.(kind := VlogTime, realtime := p.realtime))
    ensures !IsDigit(TypeText(p)[0])
  {
  }

  lemma {:induction false} TailRead(p: Part, q: Part, t: string)
    requires Printable(p) && p.kind != Literal && p.kind != Unichar && t != ""
    requires q == BLANK.(sig := p.sig, justify := p.justify, padding := PaddingChar(p))
    ensures ParseTail(q, WidthText(p.width) + TypeText(p) + t) == Ok(Field(NormalField(p), t))
  {
    var u := TypeText(p) + t;
    assert WidthText(p.width) + TypeText(p) + t == WidthText(p.width) + u;
    WidthRead(p.width, u);
    TypeRead(p, q.(width := p.width));
    if p.kind == Integer {
      DropHead(BaseChar(p.base, p.hexUpper), FlagsText(p), t);
      FlagsRead(p, q.(width := p.width, kind := Integer, base := p.base, hexUpper := p.base == 16 && p.hexUpper), t);
    } else {
      assert u[1..] == t;
    }
  }

  lemma {:induction false} DropHead(c: char, s: string, t: string)
    ensures (([c] + s) + t)[1..] == s + t
  {
  }

  lemma {:induction false} FormatRead(p: Part, t: string)
    requires Printable(p) && p.kind != Literal && p.kind != Unichar && t != ""
    ensures ParseFormat(BLANK.(sig := p.sig),
            [JustifyChar(p.justify), PaddingChar(p)] + (WidthText(p.width) + TypeText(p) + t))
         == Ok(Field(NormalField(p), t))
  {
    TailRead(p, BLANK.(sig := p.sig, justify := p.justify, padding := PaddingChar(p)), t);
    FormatFrom(BLANK.(sig := p.sig), p.justify, PaddingChar(p), WidthText(p.width) + TypeText(p) + t);
  }

  lemma {:induction false} FormatFrom(q: Part, j: Justify, padding: char, tail: string)
    requires |tail| > 0
    ensures ParseFormat(q, [JustifyChar(j), padding] + tail) == ParseTail(q.(justify := j, padding := padding), tail)
  {
    assert ([JustifyChar(j), padding] + tail)[2..] == tail;
  }

  /** A printed substitution is read back in normal form, taking exactly its own arguments. */
  lemma {:induction false} FieldRead(p: Part, t: string, more: seq<int>)
    requires Printable(p) && p.kind != Literal && p.kind != Unichar
    ensures ParseField(FieldText(p) + t, p.sig + more) == Ok(Parsed(NormalField(p), t, more))
  {
    var close := ['}'] + t;
    var body := [JustifyChar(p.justify), PaddingChar(p)] + (WidthText(p.width) + TypeText(p) + close);
    FieldTextParts(p, t);
    SizeOfDigits(|p.sig|, [':'] + body);
    FormatRead(p, close);
    FieldFrom(FieldText(p) + t, p.sig, more, body, NormalField(p), t);
  }

  lemma {:induction false} FieldTextParts(p: Part, t: string)
    ensures FieldText(p) + t ==
            ToString(|p.sig|) +
                ([':'] + ([JustifyChar(p.justify), PaddingChar(p)] + (WidthText(p.width) + TypeText(p) + (['}'] + t))))
  {
  }

  lemma {:induction false} FieldFrom(s: string, sig: seq<int>, more: seq<int>, body: string, p: Part, t: string)
    requires body != "" && ParseSize(s, 0) == ParseSize([':'] + body, |sig|)
    requires ParseFormat(BLANK.(sig := sig), body) == Ok(Field(p, ['}'] + t))
    ensures ParseField(s, sig + more) == Ok(Parsed(p, t, more))
  {
    assert ([':'] + body)[1..] == body && (['}'] + t)[1..] == t;
    assert (sig + more)[..|sig|] == sig && (sig + more)[|sig|..] == more;
  }

  /** Escaped text is read back into the current literal. */
  lemma {:induction false} EscapeRead(str: string, t: string, args: seq<int>, lit: string)
    ensures ParseText(Escape(str) + t, args, lit) == ParseText(t, args, lit + str)
  {
    if str == "" {
      assert Escape(str) + t == t && lit + str == lit;
    } else {
      var c, u := [str[0]], Escape(str[1..]) + t;
      EscapeRead(str[1..], t, args, lit + c);
      assert lit + str == lit + c + str[1..];
      EscapedChar(str[0], u, args, lit);
      assert Escape(str) + t == EscapeChar(str[0]) + u;
    }
  }

  lemma {:induction false} EscapedChar(c: char, t: string, args: seq<int>, lit: string)
    ensures ParseText(EscapeChar(c) + t, args, lit) == ParseText(t, args, lit + [c])
  {
    var s := EscapeChar(c) + t;
    if c == '{' || c == '}' {
      assert s[..2] == EscapeChar(c) && s[2..] == t;
    } else {
      assert s[0] == c && s[1..] == t;
    }
  }

  /** The parser returns the normal form of what was printed. */
  lemma {:induction false} TextRead(parts: seq<Part>, lit: string)
    requires AllPrintable(parts) && !HasUnichar(parts)
    ensures ParseText(Text(parts), Args(parts), lit) == Ok(Normal(parts, lit))
    decreases |parts|
  {
    if |parts| > 0 {
      var p, rest := parts[0], parts[1..];
      if p.kind == Literal {
        EscapeRead(p.str, Text(rest), Args(parts), lit);
        assert Args(parts) == Args(rest);
        TextRead(rest, lit + p.str);
      } else {
        FieldRead(p, Text(rest), Args(rest));
        TextRead(rest, "");
        SubstitutionRead(p, Text(rest), Args(rest), lit);
      }
    }
  }

  /** A substitution ends the current literal. */
  lemma {:induction false} SubstitutionRead(p: Part, t: string, more: seq<int>, lit: string)
    requires Printable(p) && p.kind != Literal && p.kind != Unichar
    ensures ParseText(PartText(p) + t, PartArgs(p) + more, lit) ==
            Prepend(Flush(lit) + [NormalField(p)], ParseText(t, more, ""))
  {
    var f := FieldText(p) + t;
    FieldRead(p, t, more);
    FieldStart(p, t);
    OpenBrace(f, PartArgs(p) + more, lit, Parsed(NormalField(p), t, more));
  }

  lemma {:induction false} FieldStart(p: Part, t: string)
    requires p.kind != Literal && p.kind != Unichar
    ensures PartText(p) + t == "{" + (FieldText(p) + t)
    ensures |FieldText(p) + t| > 0 && IsDigit((FieldText(p) + t)[0])
  {
    StartsWithDigit(|p.sig|);
    FieldTextParts(p, t);
  }

  lemma {:induction false} OpenBrace(f: string, args: seq<int>, lit: string, p: Parsed)
    requires |f| > 0 && IsDigit(f[0]) && ParseField(f, args) == Ok(p)
    ensures ParseText("{" + f, args, lit) == Prepend(Flush(lit) + [p.part], ParseText(p.rest, p.args, ""))
  {
    var s := "{" + f;
    assert s[0] == '{' && s[1] == f[0] && s[1..] == f;
  }

  lemma {:induction false} StartsWithDigit(n: nat)
    ensures |ToString(n)| > 0 && IsDigit(ToString(n)[0])
  {
    if n >= 10 {
      StartsWithDigit(n / 10);
    }
  }

  /** The printed form of a `UNICHAR` part is rejected. */
  lemma {:induction false} UnicharRejected(t: string, args: seq<int>, lit: string)
    ensures ParseText("{U}" + t, args, lit) == Fail
  {
    var s := "{U}" + t;
    assert s[0] == '{' && s[1] == 'U';
    assert s[1..][0] == 'U';
  }

  lemma {:induction false} TextRejected(parts: seq<Part>, lit: string)
    requires AllPrintable(parts) && HasUnichar(parts)
    ensures ParseText(Text(parts), Args(parts), lit) == Fail
    decreases |parts|
  {
    var p, rest := parts[0], parts[1..];
    if p.kind == Unichar {
      UnicharRejected(Text(rest), Args(parts), lit);
    } else {
      var i :| 0 <= i < |parts| && parts[i].kind == Unichar;
      assert rest[i - 1].kind == Unichar;
      if p.kind == Literal {
        EscapeRead(p.str, Text(rest), Args(parts), lit);
        assert Args(parts) == Args(rest);
        TextRejected(rest, lit + p.str);
      } else {
        SubstitutionRead(p, Text(rest), Args(rest), lit);
        TextRejected(rest, "");
      }
    }
  }

  /** Parsing inverts printing, up to normal form, exactly when no part is `UNICHAR`. */
  lemma {:induction false} RoundTrip(parts: seq<Part>)
    requires AllPrintable(parts)
    ensures ParseText(Text(parts), Args(parts), "") == if HasUnichar(parts) then Fail else Ok(Normal(parts, ""))
  {
    if HasUnichar(parts) {
      TextRejected(parts, "");
    } else {
      TextRead(parts, "");
    }
  }

  // ----- The normal form

  /** A literal with nothing else set, or a substitution with only what its text shows. */
  predicate IsPlain(p: Part) {
    if p.kind == Literal then p.str != "" && p == BLANK.(str := p.str) else NormalField(p) == Padded(p)
  }

  /** Plain parts, and no two literals side by side. */
  predicate IsNormal(parts: seq<Part>) {
    && (forall i :: 0 <= i < |parts| ==> IsPlain(parts[i]))
    && (forall i :: 0 < i < |parts| ==> parts[i - 1].kind != Literal || parts[i].kind != Literal)
  }

  /** An unset padding is printed as a space. */
  function Padded(p: Part): Part {
    if p.kind == Literal then p else p.(padding := PaddingChar(p))
  }

  function AllPadded(parts: seq<Part>): seq<Part> {
    seq(|parts|, i requires 0 <= i < |parts| => Padded(parts[i]))
  }

  lemma {:induction false} NormalSplit(lit: string, p: Part, rest: seq<Part>)
    requires p.kind != Literal && IsPlain(p) && IsNormal(rest)
    ensures IsNormal(Flush(lit) + [p] + rest)
    ensures AllPadded(Flush(lit) + [p] + rest) == Flush(lit) + [Padded(p)] + AllPadded(rest)
  {
  }

  /** The normal form is one. */
  lemma {:induction false} NormalIsNormal(parts: seq<Part>, lit: string)
    ensures IsNormal(Normal(parts, lit)) && AllPadded(Normal(parts, lit)) == Normal(parts, lit)
    decreases |parts|
  {
    if |parts| > 0 {
      if parts[0].kind == Literal {
        NormalIsNormal(parts[1..], lit + parts[0].str);
      } else {
        NormalIsNormal(parts[1..], "");
        NormalSplit(lit, NormalField(parts[0]), Normal(parts[1..], ""));
      }
    }
  }

  lemma {:induction false} NormalAfter(parts: seq<Part>, lit: string)
    requires |parts| > 0 ==> parts[0].kind != Literal
    ensures Normal(parts, lit) == Flush(lit) + Normal(parts, "")
  {
    if |parts| > 0 {
      EmptyLeft([NormalField(parts[0])]);
      Assoc(Flush(lit), [NormalField(parts[0])], Normal(parts[1..], ""));
    }
  }

  /** On parts in normal form only unset paddings change. */
  lemma {:induction false} NormalFixed(parts: seq<Part>)
    requires IsNormal(parts)
    ensures Normal(parts, "") == AllPadded(parts)
    decreases |parts|
  {
    if |parts| > 0 {
      var p, rest := parts[0], parts[1..];
      NormalFixed(rest);
      assert AllPadded(parts) == [Padded(p)] + AllPadded(rest);
      assert IsPlain(p);
      if p.kind == Literal {
        assert |rest| > 0 ==> parts[1 - 1].kind != Literal || parts[1].kind != Literal;
        EmptyLeft(p.str);
        NormalAfter(rest, p.str);
      } else {
        EmptyLeft([NormalField(p)]);
      }
    }
  }

  /** Joining literals twice is joining them once. */
  lemma {:induction false} NormalStable(parts: seq<Part>)
    ensures Normal(Normal(parts, ""), "") == Normal(parts, "")
  {
    NormalIsNormal(parts, "");
    NormalFixed(Normal(parts, ""));
  }

  predicate IsPlainInteger(p: Part) {
    p.kind == Integer && IsPlain(p)
  }

  lemma {:induction false} SignPlain(p: Part, s: string)
    requires IsPlainInteger(p)
    ensures IsPlainInteger(ParseSign(p, s).part)
  {
  }

  lemma {:induction false} MarksPlain(f: Field)
    requires IsPlainInteger(f.part)
    ensures IsPlainInteger(ParseBaseFlag(f).part) && IsPlainInteger(ParseGroupFlag(f).part)
  {
  }

  lemma {:induction false} SignedPlain(f: Field)
    requires IsPlainInteger(f.part) && ParseSigned(f).Ok?
    ensures IsPlainInteger(ParseSigned(f).value.part)
  {
  }

  lemma {:induction false} FlagsPlain(p: Part, s: string)
    requires IsPlainInteger(p) && ParseFlags(p, s).Ok?
    ensures IsPlainInteger(ParseFlags(p, s).value.part)
  {
    var f := ParseSign(p, s);
    SignPlain(p, s);
    MarksPlain(f);
    MarksPlain(ParseBaseFlag(f));
    SignedPlain(ParseGroupFlag(ParseBaseFlag(f)));
  }

  /** What is set before the type is read. */
  predicate IsUntyped(p: Part) {
    p == BLANK.(sig := p.sig, justify := p.justify, padding := p.padding, width := p.width)
  }

  lemma {:induction false} TypePlain(p: Part, c: char)
    requires IsUntyped(p) && ParseType(p, c).Ok?
    ensures ParseType(p, c).value.kind != Literal && IsPlain(ParseType(p, c).value)
  {
  }

  lemma {:induction false} KindPlain(p: Part, t: string)
    requires IsUntyped(p) && ParseKind(p, t).Ok?
    ensures var q := ParseKind(p, t).value.part; q.kind != Literal && IsPlain(q)
  {
    TypePlain(p, t[0]);
    var q := ParseType(p, t[0]).value;
    if q.kind == Integer {
      FlagsPlain(q, t[1..]);
    }
  }

  lemma {:induction false} FormatPlain(sig: seq<int>, s: string)
    requires ParseFormat(BLANK.(sig := sig), s).Ok?
    ensures var p := ParseFormat(BLANK.(sig := sig), s).value.part; p.kind != Literal && IsPlain(p)
  {
    if At(s) != 'U' {
      var j := ParseJustify(At(s)).value;
      var (width, t) := ParseWidth(s[2..], 0);
      KindPlain(BLANK.(sig := sig, justify := j, padding := s[1], width := width), t);
    }
  }

  /** The parser returns parts in normal form. */
  lemma {:induction false} ParsedIsNormal(s: string, args: seq<int>, lit: string)
    requires ParseText(s, args, lit).Ok?
    ensures IsNormal(ParseText(s, args, lit).value)
    decreases |s|
  {
    if s == "" {
    } else if |s| > 1 && s[..2] == "}}" {
      ParsedIsNormal(s[2..], args, lit + "}");
    } else if |s| > 1 && s[..2] == "{{" {
      ParsedIsNormal(s[2..], args, lit + "{");
    } else if s[0] == '{' {
      var p := ParseField(s[1..], args).value;
      FieldPlain(s[1..], args);
      ParsedIsNormal(p.rest, p.args, "");
      NormalSplit(lit, p.part, ParseText(p.rest, p.args, "").value);
    } else {
      ParsedIsNormal(s[1..], args, lit + [s[0]]);
    }
  }

  lemma {:induction false} FieldPlain(s: string, args: seq<int>)
    requires ParseField(s, args).Ok?
    ensures var p := ParseField(s, args).value.part; p.kind != Literal && IsPlain(p)
  {
    var (n, t) := ParseSize(s, 0).value;
    FormatPlain(args[..n], t);
  }

  /** No substitution has a NUL as its padding. */
  predicate PaddingsSet(parts: seq<Part>) {
    forall i :: 0 <= i < |parts| && parts[i].kind != Literal ==> parts[i].padding != '\0'
  }

  /** Printing what was parsed and parsing it again gives the same parts exactly when none is `UNICHAR`
      and no padding is a NUL, which is printed as a space. */
  lemma {:induction false} Reparse(s: string, args: seq<int>)
    requires ParseText(s, args, "").Ok? && AllPrintable(ParseText(s, args, "").value)
    ensures var ps := ParseText(s, args, "").value;
            ParseText(Text(ps), Args(ps), "") == Ok(ps) <==> !HasUnichar(ps) && PaddingsSet(ps)
  {
    var ps := ParseText(s, args, "").value;
    ParsedIsNormal(s, args, "");
    RoundTrip(ps);
    NormalFixed(ps);
    if PaddingsSet(ps) {
      assert AllPadded(ps) == ps;
    } else {
      var i :| 0 <= i < |ps| && ps[i].kind != Literal && ps[i].padding == '\0';
      assert AllPadded(ps)[i] != ps[i];
    }
  }

  lemma {:induction false} GatherConcat<S, T>(f: S -> seq<T>, a: seq<S>, b: seq<S>)
    ensures Gather(f, a + b) == Gather(f, a) + Gather(f, b)
  {
    if |a| == 0 {
      assert a + b == b;
      EmptyLeft(Gather(f, b));
    } else {
      GatherConcat(f, a[1..], b);
      assert (a + b)[1..] == a[1..] + b;
      Assoc(f(a[0]), Gather(f, a[1..]), Gather(f, b));
    }
  }

  lemma {:induction false} GatherOne<S, T>(f: S -> seq<T>, x: S)
    ensures Gather(f, [x]) == f(x)
  {
    assert [x][1..] == [];
    assert f(x) + [] == f(x);
  }

  lemma {:induction false} GatherHead<S, T>(f: S -> seq<T>, s: seq<S>)
    requires |s| > 0
    ensures Gather(f, s) == f(s[0]) + Gather(f, s[1..])
  {
  }

  lemma {:induction false} EmptyLeft<T>(s: seq<T>)
    ensures [] + s == s
  {
  }

  lemma {:induction false} Assoc<T>(x: seq<T>, y: seq<T>, z: seq<T>)
    ensures (x + y) + z == x + (y + z)
  {
  }

  /** A list of parts prints as these characters and passes these arguments. */
  predicate PrintsAs(parts: seq<Part>, text: string, args: seq<int>) {
    Text(parts) == text && Args(parts) == args
  }

  lemma {:induction false} FlushText(lit: string)
    ensures PrintsAs(Flush(lit), Escape(lit), [])
  {
    if lit != "" {
      GatherOne(PartText, BLANK.(str := lit));
      GatherOne(PartArgs, BLANK.(str := lit));
    }
  }

  lemma {:induction false} PrintsConcat(a: seq<Part>, b: seq<Part>, s: string, t: string, x: seq<int>, y: seq<int>)
    requires PrintsAs(a, s, x) && PrintsAs(b, t, y)
    ensures PrintsAs(a + b, s + t, x + y)
  {
    GatherConcat(PartText, a, b);
    GatherConcat(PartArgs, a, b);
  }

  lemma {:induction false} NormalFieldText(p: Part)
    requires Printable(p) && p.kind != Literal
    ensures PrintsAs([NormalField(p)], PartText(p), PartArgs(p))
  {
    var n := NormalField(p);
    assert PartText(n) == PartText(p);
    GatherOne(PartText, n);
    GatherOne(PartArgs, n);
  }

  /** The normal form prints as the original does. */
  lemma {:induction false} NormalText(parts: seq<Part>, lit: string)
    requires AllPrintable(parts)
    ensures PrintsAs(Normal(parts, lit), Escape(lit) + Text(parts), Args(parts))
    decreases |parts|
  {
    FlushText(lit);
    if |parts| == 0 {
      assert Escape(lit) + Text(parts) == Escape(lit);
    } else {
      var p, rest := parts[0], parts[1..];
      GatherHead(PartText, parts);
      GatherHead(PartArgs, parts);
      if p.kind == Literal {
        NormalText(rest, lit + p.str);
        LiteralStep(lit, p, Normal(rest, lit + p.str), rest);
      } else {
        NormalText(rest, "");
        FieldStep(lit, p, Normal(rest, ""), rest);
      }
    }
  }

  lemma {:induction false} LiteralStep(lit: string, p: Part, n: seq<Part>, rest: seq<Part>)
    requires p.kind == Literal && PrintsAs(n, Escape(lit + p.str) + Text(rest), Args(rest))
    ensures PrintsAs(n, Escape(lit) + (PartText(p) + Text(rest)), PartArgs(p) + Args(rest))
  {
    GatherConcat(EscapeChar, lit, p.str);
    Assoc(Escape(lit), Escape(p.str), Text(rest));
    EmptyLeft(Args(rest));
  }

  lemma {:induction false} FieldStep(lit: string, p: Part, n: seq<Part>, rest: seq<Part>)
    requires Printable(p) && p.kind != Literal && PrintsAs(n, Escape("") + Text(rest), Args(rest))
    ensures PrintsAs(Flush(lit) + [NormalField(p)] + n, Escape(lit) + (PartText(p) + Text(rest)),
            PartArgs(p) + Args(rest))
  {
    FlushText(lit);
    NormalFieldText(p);
    PrintsConcat(Flush(lit), [NormalField(p)], Escape(lit), PartText(p), [], PartArgs(p));
    EmptyLeft(Text(rest));
    EmptyLeft(PartArgs(p));
    PrintsConcat(Flush(lit) + [NormalField(p)], n, Escape(lit) + PartText(p), Text(rest), PartArgs(p), Args(rest));
    Assoc(Escape(lit), PartText(p), Text(rest));
  }

  // ----- The printer and the parser, by index

  lemma {:induction false} SuffixStep(s: string, i: nat)
    requires i < |s|
    ensures s[i..] != "" && s[i..][0] == s[i] && s[i..][1..] == s[i + 1..] && |s[i..]| == |s| - i
  {
  }

  method ReadSize(fmt: string, start: nat) returns (ok: bool, n: nat, i: nat)
    requires start <= |fmt|
    ensures ok == ParseSize(fmt[start..], 0).Ok?
    ensures ok ==> start < i < |fmt| && ParseSize(fmt[start..], 0) == Ok((n, fmt[i..]))
  {
    i, n := start, 0;
    while i < |fmt|
      invariant start <= i <= |fmt| && ParseSize(fmt[start..], 0) == ParseSize(fmt[i..], n)
    {
      SuffixStep(fmt, i);
      if IsDigit(fmt[i]) {
        n := 10 * n + DigitValue(fmt[i]);
      } else if fmt[i] == ':' {
        i := i + 1;
        break;
      } else {
        return false, n, i;
      }
      i := i + 1;
    }
    ok := i < |fmt|;
  }

  method ReadWidth(fmt: string, start: nat) returns (n: nat, i: nat)
    requires start <= |fmt|
    ensures start <= i <= |fmt| && ParseWidth(fmt[start..], 0) == (n, fmt[i..])
  {
    i, n := start, 0;
    while i < |fmt| && IsDigit(fmt[i])
      invariant start <= i <= |fmt| && ParseWidth(fmt[start..], 0) == ParseWidth(fmt[i..], n)
    {
      SuffixStep(fmt, i);
      n := 10 * n + DigitValue(fmt[i]);
      i := i + 1;
    }
    if i < |fmt| {
      SuffixStep(fmt, i);
    }
  }

  /** The character at `i`, or the terminator at the end. */
  function CharAt(s: string, i: nat): (c: char)
    requires i <= |s|
    ensures c == At(s[i..])
  {
    if i < |s| then s[i] else '\0'
  }

  method ReadSign(fmt: string, start: nat, p: Part) returns (part: Part, i: nat)
    requires start < |fmt|
    ensures start <= i <= |fmt| && ParseSign(p, fmt[start..]) == Field(part, fmt[i..])
  {
    part, i := p, start;
    SuffixStep(fmt, i);
    if fmt[i] == '-' {
      part, i := part.(sign := Minus), i + 1;
    } else if fmt[i] == '+' {
      part, i := part.(sign := PlusMinus), i + 1;
    } else if fmt[i] == ' ' {
      part, i := part.(sign := SpaceMinus), i + 1;
    }
  }

  method ReadMarks(fmt: string, start: nat, p: Part) returns (part: Part, i: nat)
    requires start <= |fmt|
    ensures start <= i <= |fmt| && ParseGroupFlag(ParseBaseFlag(Field(p, fmt[start..]))) == Field(part, fmt[i..])
  {
    part, i := p, start;
    if CharAt(fmt, i) == '#' {
      SuffixStep(fmt, i);
      part, i := part.(showBase := true), i + 1;
    }
    if CharAt(fmt, i) == '_' {
      SuffixStep(fmt, i);
      part, i := part.(group := true), i + 1;
    }
  }

  method ReadSigned(fmt: string, start: nat, p: Part) returns (ok: bool, part: Part, i: nat)
    requires start <= |fmt|
    ensures ok == ParseSigned(Field(p, fmt[start..])).Ok?
    ensures ok ==> start < i < |fmt| && ParseSigned(Field(p, fmt[start..])) == Ok(Field(part, fmt[i..]))
  {
    ok, part, i := false, p, start;
    if CharAt(fmt, i) == 'u' {
      part := part.(signed := false);
    } else if CharAt(fmt, i) == 's' {
      part := part.(signed := true);
    } else {
      return;
    }
    SuffixStep(fmt, i);
    i := i + 1;
    ok := i < |fmt|;
  }

  method ReadFlags(fmt: string, start: nat, p: Part) returns (ok: bool, part: Part, i: nat)
    requires start < |fmt|
    ensures ok == ParseFlags(p, fmt[start..]).Ok?
    ensures ok ==> start < i < |fmt| && ParseFlags(p, fmt[start..]) == Ok(Field(part, fmt[i..]))
  {
    ok := false;
    part, i := ReadSign(fmt, start, p);
    if i == |fmt| {
      return;
    }
    SuffixStep(fmt, i);
    part, i := ReadMarks(fmt, i, part);
    ok, part, i := ReadSigned(fmt, i, part);
  }

  method ReadType(c: char, p: Part) returns (ok: bool, part: Part)
    ensures ok == ParseType(p, c).Ok? && (ok ==> ParseType(p, c) == Ok(part))
  {
    ok, part := true, p;
    match c {
      case 'b' => part := part.(kind := Integer, base := 2);
      case 'o' => part := part.(kind := Integer, base := 8);
      case 'd' => part := part.(kind := Integer, base := 10);
      case 'h' => part := part.(kind := Integer, base := 16);
      case 'H' => part := part.(kind := Integer, base := 16, hexUpper := true);
      case 'c' => part := part.(kind := Str);
      case 't' => part := part.(kind := VlogTime);
      case 'r' => part := part.(kind := VlogTime, realtime := true);
      case _ => ok := false;
    }
  }

  method ReadKind(fmt: string, start: nat, p: Part) returns (ok: bool, part: Part, i: nat)
    requires start < |fmt|
    ensures ok == ParseKind(p, fmt[start..]).Ok?
    ensures ok ==> start < i < |fmt| && ParseKind(p, fmt[start..]) == Ok(Field(part, fmt[i..]))
  {
    SuffixStep(fmt, start);
    ok, part := ReadType(fmt[start], p);
    i := start + 1;
    if !ok || i == |fmt| {
      return false, part, i;
    }
    if part.kind == Integer {
      ok, part, i := ReadFlags(fmt, i, part);
    }
  }

  method ReadTail(fmt: string, start: nat, p: Part) returns (ok: bool, part: Part, i: nat)
    requires start < |fmt|
    ensures ok == ParseTail(p, fmt[start..]).Ok?
    ensures ok ==> start < i < |fmt| && ParseTail(p, fmt[start..]) == Ok(Field(part, fmt[i..]))
  {
    ok, part := false, p;
    var width;
    width, i := ReadWidth(fmt, start);
    part := part.(width := width);
    if i == |fmt| {
      return;
    }
    ok, part, i := ReadKind(fmt, i, part);
  }

  method ReadJustify(c: char) returns (ok: bool, j: Justify)
    ensures ok == ParseJustify(c).Ok? && (ok ==> ParseJustify(c) == Ok(j))
  {
    ok, j := true, Right;
    if c == '>' {
      j := Right;
    } else if c == '<' {
      j := Left;
    } else if c == '=' {
      j := Numeric;
    } else {
      ok := false;
    }
  }

  method ReadFormat(fmt: string, start: nat, p: Part) returns (ok: bool, part: Part, i: nat)
    requires start < |fmt|
    ensures ok == ParseFormat(p, fmt[start..]).Ok?
    ensures ok ==> start < i <= |fmt| && ParseFormat(p, fmt[start..]) == Ok(Field(part, fmt[i..]))
  {
    ok, part, i := false, p, start;
    SuffixStep(fmt, i);
    if fmt[i] == 'U' {
      return true, part.(kind := Unichar), i + 1;
    }
    var j;
    ok, j := ReadJustify(fmt[i]);
    if !ok {
      return;
    }
    part := part.(justify := j);
    i := i + 1;
    if i == |fmt| {
      return false, part, i;
    }
    SuffixStep(fmt, i);
    part := part.(padding := fmt[i]);
    i := i + 1;
    if i == |fmt| {
      return false, part, i;
    }
    assert fmt[start..][2..] == fmt[i..] && fmt[start..][1] == fmt[start + 1];
    ok, part, i := ReadTail(fmt, i, part);
  }

  method ReadField(fmt: string, start: nat, args: seq<int>) returns (ok: bool, part: Part, i: nat, rest: seq<int>)
    requires start <= |fmt|
    ensures ok == ParseField(fmt[start..], args).Ok?
    ensures ok ==> start < i <= |fmt| && ParseField(fmt[start..], args) == Ok(Parsed(part, fmt[i..], rest))
  {
    ok, part, i, rest := false, BLANK, start, args;
    if i == |fmt| {
      return;
    }
    var argSize;
    ok, argSize, i := ReadSize(fmt, i);
    if ok {
      ok, part, i, rest := ReadBody(fmt, i, argSize, args);
    }
  }

  method ReadBody(fmt: string, start: nat, argSize: nat, args: seq<int>)
      returns (ok: bool, part: Part, i: nat, rest: seq<int>)
    requires start < |fmt|
    ensures ok == ParseBody(argSize, fmt[start..], args).Ok?
    ensures ok ==> start < i <= |fmt| && ParseBody(argSize, fmt[start..], args) == Ok(Parsed(part, fmt[i..], rest))
  {
    ok, part, i, rest := false, BLANK, start, args;
    if |args| < argSize {
      return;
    }
    rest := args[argSize..];
    ok, part, i := ReadClosed(fmt, i, BLANK.(sig := args[..argSize]), rest);
  }

  /** The format of a field and its closing brace. */
  method ReadClosed(fmt: string, start: nat, p: Part, ghost rest: seq<int>) returns (ok: bool, part: Part, i: nat)
    requires start < |fmt|
    ensures ok == Closed(ParseFormat(p, fmt[start..]), rest).Ok?
    ensures ok ==> start < i <= |fmt| && Closed(ParseFormat(p, fmt[start..]), rest) == Ok(Parsed(part, fmt[i..], rest))
  {
    ok, part, i := ReadFormat(fmt, start, p);
    if ok {
      ok := CharAt(fmt, i) == '}';
      ClosedAt(part, fmt, i, rest);
      i := i + 1;
    }
  }

  lemma {:induction false} ClosedAt(part: Part, fmt: string, i: nat, rest: seq<int>)
    requires i <= |fmt|
    ensures Closed(Ok(Field(part, fmt[i..])), rest) ==
            if i < |fmt| && fmt[i] == '}' then Ok(Parsed(part, fmt[i + 1..], rest)) else Fail
  {
  }

  class Fmt {
    var parts: seq<Part>

    constructor (parts: seq<Part>)
      ensures this.parts == parts
    {
      this.parts := parts;
    }

    /** The format string and argument vector of the parts. */
    method EmitRtlil() returns (fmt: string, args: seq<int>)
      requires AllPrintable(parts)
      ensures fmt == Text(parts) && args == Args(parts)
    {
      fmt, args := "", [];
      for k := 0 to |parts|
        invariant PrintsAs(parts[..k], fmt, args)
      {
        var p := parts[k];
        ghost var f, a := fmt, args;
        if p.kind == Literal {
          var text := EmitLiteral(p.str);
          fmt := fmt + text;
        } else if p.kind == Unichar {
          fmt := fmt + "{U}";
        } else {
          args := args + p.sig;
          var text := EmitField(p);
          fmt := fmt + text;
        }
        PrintsOneMore(parts, k, f, a);
      }
      assert parts[..|parts|] == parts;
    }

    /** The parts are read from the format string and the arguments, or the string is rejected. */
    method ParseRtlil(fmt: string, argsIn: seq<int>) returns (ok: bool)
      modifies this
      ensures ok == ParseText(fmt, argsIn, "").Ok?
      ensures ok ==> parts == ParseText(fmt, argsIn, "").value
    {
      ok, parts := true, [];
      var args, str, i := argsIn, "", 0;
      assert fmt[0..] == fmt;
      PrependNone(ParseText(fmt, argsIn, ""));
      while i < |fmt|
        invariant 0 <= i <= |fmt|
        invariant ParseText(fmt, argsIn, "") == Prepend(parts, ParseText(fmt[i..], args, str))
      {
        SuffixStep(fmt, i);
        ghost var s := fmt[i..];
        if i + 1 < |fmt| && fmt[i] == '}' && fmt[i + 1] == '}' {
          BracePair(s, args, str, fmt[i + 2..]);
          str := str + "}";
          i := i + 2;
        } else if i + 1 < |fmt| && fmt[i] == '{' && fmt[i + 1] == '{' {
          BracePair(s, args, str, fmt[i + 2..]);
          str := str + "{";
          i := i + 2;
        } else if fmt[i] == '}' {
          return false;
        } else if fmt[i] == '{' {
          ghost var was, before := parts, args;
          var part;
          ok, part, i, args := ReadField(fmt, i + 1, args);
          if !ok {
            return;
          }
          Substitution(s, before, str, Parsed(part, fmt[i..], args));
          PrependTwice(was, Flush(str) + [part], ParseText(fmt[i..], args, ""));
          PushPart(str, part);
          str := "";
        } else {
          str := str + [fmt[i]];
          i := i + 1;
        }
      }
      if str != "" {
        parts := parts + [BLANK.(str := str)];
      }
    }

    /** A substitution, after the literal before it unless that is empty. */
    method PushPart(str: string, part: Part)
      modifies this
      ensures parts == old(parts) + (Flush(str) + [part])
    {
      if str != "" {
        parts := parts + [BLANK.(str := str)];
      }
      parts := parts + [part];
    }
  }

  lemma {:induction false} BracePair(s: string, args: seq<int>, lit: string, t: string)
    requires |s| > 1 && s[0] == s[1] && (s[0] == '{' || s[0] == '}') && s[2..] == t
    ensures ParseText(s, args, lit) == ParseText(t, args, lit + [s[0]])
  {
    assert s[..2] == [s[0], s[1]];
  }

  lemma {:induction false} Substitution(s: string, args: seq<int>, lit: string, p: Parsed)
    requires |s| > 0 && s[0] == '{' && !(|s| > 1 && s[1] == '{') && ParseField(s[1..], args) == Ok(p)
    ensures ParseText(s, args, lit) == Prepend(Flush(lit) + [p.part], ParseText(p.rest, p.args, ""))
  {
  }

  lemma {:induction false} PrependNone(r: Result<seq<Part>>)
    ensures Prepend([], r) == r
  {
    if r.Ok? {
      EmptyLeft(r.value);
    }
  }

  lemma {:induction false} PrependTwice(a: seq<Part>, b: seq<Part>, r: Result<seq<Part>>)
    ensures Prepend(a, Prepend(b, r)) == Prepend(a + b, r)
  {
    if r.Ok? {
      Assoc(a, b, r.value);
    }
  }

  lemma {:induction false} PrintsOneMore(parts: seq<Part>, k: nat, fmt: string, args: seq<int>)
    requires k < |parts| && PrintsAs(parts[..k], fmt, args)
    ensures PrintsAs(parts[..k + 1], fmt + PartText(parts[k]), args + PartArgs(parts[k]))
  {
    assert parts[..k + 1] == parts[..k] + [parts[k]];
    GatherConcat(PartText, parts[..k], [parts[k]]);
    GatherConcat(PartArgs, parts[..k], [parts[k]]);
    GatherOne(PartText, parts[k]);
    GatherOne(PartArgs, parts[k]);
  }

  method EmitLiteral(str: string) returns (fmt: string)
    ensures fmt == Escape(str)
  {
    fmt := "";
    for i := 0 to |str|
      invariant fmt == Escape(str[..i])
    {
      assert str[..i + 1] == str[..i] + [str[i]];
      GatherConcat(EscapeChar, str[..i], [str[i]]);
      GatherOne(EscapeChar, str[i]);
      if str[i] == '{' {
        fmt := fmt + "{{";
      } else if str[i] == '}' {
        fmt := fmt + "}}";
      } else {
        fmt := fmt + [str[i]];
      }
    }
    assert str[..|str|] == str;
  }

  /** The size, the alignment, the padding and the width of a field. */
  method EmitLayout(p: Part) returns (fmt: string)
    requires Printable(p) && p.kind != Literal && p.kind != Unichar
    ensures fmt == "{" + ToString(|p.sig|) + [':'] + [JustifyChar(p.justify), PaddingChar(p)] + WidthText(p.width)
  {
    fmt := "{" + ToString(|p.sig|) + [':'];
    match p.justify {
      case Right => fmt := fmt + ['>'];
      case Left => fmt := fmt + ['<'];
      case Numeric => fmt := fmt + ['='];
    }
    fmt := fmt + [if p.padding != '\0' then p.padding else ' '];
    if p.width > 0 {
      fmt := fmt + ToString(p.width);
    }
  }

  method EmitField(p: Part) returns (fmt: string)
    requires Printable(p) && p.kind != Literal && p.kind != Unichar
    ensures fmt == PartText(p)
  {
    fmt := EmitLayout(p);
    var kind := EmitType(p);
    fmt := fmt + kind + ['}'];
  }

  method EmitFlags(p: Part) returns (fmt: string)
    ensures fmt == FlagsText(p)
  {
    match p.sign {
      case Minus => fmt := "-";
      case PlusMinus => fmt := "+";
      case SpaceMinus => fmt := " ";
    }
    fmt := fmt + (if p.showBase then "#" else "");
    fmt := fmt + (if p.group then "_" else "");
    fmt := fmt + [if p.signed then 's' else 'u'];
  }

  method EmitType(p: Part) returns (fmt: string)
    requires Printable(p) && p.kind != Literal && p.kind != Unichar
    ensures fmt == TypeText(p)
  {
    if p.kind == Integer {
      match p.base {
        case 2 => fmt := "b";
        case 8 => fmt := "o";
        case 10 => fmt := "d";
        case _ => fmt := if p.hexUpper then "H" else "h";
      }
      var flags := EmitFlags(p);
      fmt := fmt + flags;
    } else if p.kind == Str {
      fmt := "c";
    } else {
      fmt := if p.realtime then "r" else "t";
    }
  }
}
