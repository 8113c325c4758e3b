/** The format language of printf.c: directives, their arguments, and the text they
    stand for. */
module Format {
  import opened Basics
  import opened Chars
  import opened Numerals
  import opened Printf

  const PERCENT: byte := 37
  const STAR: byte := 42
  const DOT: byte := 46

  /** The characters before a terminating NUL. */
  type cstring = s: seq<byte> | NUL !in s

  datatype Arg = Int(v: int) | Str(s: cstring)

  /** What a caller pushes: a 32-bit word or a pointer to a NUL-terminated string. */
  type arg = a: Arg | a.Int? ==> -0x8000_0000 <= a.v < 0x8000_0000
    witness Int(0)

  /** The length modifiers: none, hh, h, l or z, ll or j. */
  datatype Size = Usual | Char | Short | Long | LongLong

  datatype Spec = Spec(fl: Flags, width: nat, prec: nat, size: Size, conv: byte)

  const NoFlags := Flags(false, false, false, false, false, false, false)

  // ---- reading a directive ----

  predicate IsFlag(c: byte) {
    c == DIGIT0 || c == MINUS || c == PLUS || c == SPACE || c == '#' as int
  }

  function SetFlag(fl: Flags, c: byte): Flags
    requires IsFlag(c)
  {
    if c == DIGIT0 then fl.(zeropad := true)
    else if c == MINUS then fl.(left := true)
    else if c == PLUS then fl.(plus := true)
    else if c == SPACE then fl.(space := true)
    else fl.(hash := true)
  }

  function ReadFlags(f: seq<byte>, fl: Flags): (r: (seq<byte>, Flags))
    ensures |r.0| <= |f|
  {
    if f == [] || !IsFlag(f[0]) then (f, fl) else ReadFlags(f[1..], SetFlag(fl, f[0]))
  }

  predicate Leads(f: seq<byte>, c: byte) {
    f != [] && f[0] == c
  }

  predicate LeadsDigit(f: seq<byte>) {
    f != [] && IsNum(f[0])
  }

  /** _atoi, in 32-bit arithmetic. */
  function ReadNumber(f: seq<byte>, n: nat): (r: (seq<byte>, nat))
    ensures |r.0| <= |f|
  {
    if LeadsDigit(f) then ReadNumber(f[1..], (n * 10 + DigitOf(f[0])) % TWO32) else (f, n)
  }

  /** A run of digits is read as its number modulo 2^32. */
  lemma {:induction false} ReadNumberEvals(s: seq<byte>, rest: seq<byte>, done: seq<byte>)
    requires !LeadsDigit(rest) && forall i :: 0 <= i < |s| ==> IsNum(s[i])
    ensures ReadNumber(s + rest, Eval(done, 10) % TWO32) == (rest, Eval(done + s, 10) % TWO32)
    decreases |s|
  {
    hide Eval;
    hide DigitOf;
    hide ReadNumber;
    ReadNumberStep(s + rest, Eval(done, 10) % TWO32);
    if s == [] {
      assert s + rest == rest && done + s == done;
    } else {
      ReadNumberEvals(s[1..], rest, done + [s[0]]);
      EvalSnoc(done, s[0], 10);
      assert (s + rest)[1..] == s[1..] + rest;
      assert done + [s[0]] + s[1..] == done + s;
      ModStep(Eval(done, 10), DigitOf(s[0]));
    }
  }

  lemma ReadNumberStep(f: seq<byte>, n: nat)
    ensures ReadNumber(f, n) == if LeadsDigit(f) then ReadNumber(f[1..], (n * 10 + DigitOf(f[0])) % TWO32) else (f, n)
  {
  }

  lemma ModStep(x: nat, d: nat)
    ensures ((x % TWO32) * 10 + d) % TWO32 == (x * 10 + d) % TWO32
  {
    var q := x / TWO32;
    assert x == TWO32 * q + x % TWO32;
    assert x * 10 + d == TWO32 * (10 * q) + ((x % TWO32) * 10 + d);
  }

  datatype Field = Field(format: seq<byte>, args: seq<arg>, fl: Flags, n: nat)

  /** The width: digits, or a star for an argument; a negative one justifies left. */
  function ReadWidth(f: seq<byte>, args: seq<arg>, fl: Flags): (r: Option<Field>)
    ensures r.Some? ==> |r.value.format| <= |f|
  {
    if LeadsDigit(f) then
      var (rest, n) := ReadNumber(f, 0);
      Some(Field(rest, args, fl, n))
    else if Leads(f, STAR) then
      if args == [] || !args[0].Int? then None
      else if args[0].v < 0 then Some(Field(f[1..], args[1..], fl.(left := true), -args[0].v))
      else Some(Field(f[1..], args[1..], fl, args[0].v))
    else Some(Field(f, args, fl, 0))
  }

  function ReadPrecision(f: seq<byte>, args: seq<arg>, fl: Flags): (r: Option<Field>)
    ensures r.Some? ==> |r.value.format| <= |f|
  {
    if !Leads(f, DOT) then Some(Field(f, args, fl, 0))
    else
      var g := f[1..];
      if LeadsDigit(g) then
        var (rest, n) := ReadNumber(g, 0);
        Some(Field(rest, args, fl.(precision := true), n))
      else if Leads(g, STAR) then
        if args == [] || !args[0].Int? then None
        else Some(Field(g[1..], args[1..], fl.(precision := true), if args[0].v > 0 then args[0].v else 0))
      else Some(Field(g, args, fl.(precision := true), 0))
  }

  function ReadSize(f: seq<byte>): (r: (seq<byte>, Size))
    ensures |r.0| <= |f|
  {
    if Leads(f, 'l' as int) then
      if Leads(f[1..], 'l' as int) then (f[2..], LongLong) else (f[1..], Long)
    else if Leads(f, 'h' as int) then
      if Leads(f[1..], 'h' as int) then (f[2..], Char) else (f[1..], Short)
    else if Leads(f, 'j' as int) then (f[1..], LongLong)
    else if Leads(f, 'z' as int) then (f[1..], Long)
    else (f, Usual)
  }

  /** The text of the directive after its %, the arguments read so far and what is
      left of both; nothing when the format ends inside the directive or an
      argument is missing. */
  function ReadSpec(f: seq<byte>, args: seq<arg>): (r: Option<(seq<byte>, seq<arg>, Spec)>)
    ensures r.Some? ==> |r.value.0| < |f|
  {
    var (f1, fl) := ReadFlags(f, NoFlags);
    match ReadWidth(f1, args, fl)
    case None => None
    case Some(w) =>
      match ReadPrecision(w.format, w.args, w.fl)
      case None => None
      case Some(p) =>
        var (f2, size) := ReadSize(p.format);
        if f2 == [] then None else Some((f2[1..], p.args, Spec(p.fl, w.n, p.n, size, f2[0])))
  }

  // ---- converting an argument ----

  predicate IsSigned(conv: byte) {
    conv == 'd' as int || conv == 'i' as int
  }

  predicate IsHex(conv: byte) {
    conv == 'x' as int || conv == 'X' as int
  }

  predicate IsInteger(conv: byte) {
    IsSigned(conv) || IsHex(conv) || conv == 'u' as int || conv == 'o' as int || conv == 'b' as int
  }

  function BaseOf(conv: byte): (base: nat)
    ensures base in {2, 8, 10, 16}
  {
    if IsHex(conv) then 16 else if conv == 'o' as int then 8 else if conv == 'b' as int then 2 else 10
  }

  /** No prefix for decimals, no sign for the unsigned, no zeros with a precision. */
  function FlagsOf(spec: Spec): Flags {
    spec.fl.(hash := spec.fl.hash && BaseOf(spec.conv) != 10,
             upper := spec.fl.upper || spec.conv == 'X' as int,
             plus := spec.fl.plus && IsSigned(spec.conv),
             space := spec.fl.space && IsSigned(spec.conv),
             zeropad := spec.fl.zeropad && !spec.fl.precision)
  }

  /** The argument as the type the directive names. */
  function Cast(v: int, size: Size, signed: bool): (r: int)
    requires -0x8000_0000 <= v < 0x8000_0000
    ensures -0x8000_0000 <= r < 0x1_0000_0000 && (r < 0 ==> signed)
    ensures size.Char? ==> (r - v) % 256 == 0 && if signed then -128 <= r < 128 else 0 <= r < 256
    ensures size.Short? ==> (r - v) % 0x1_0000 == 0 && if signed then -0x8000 <= r < 0x8000 else 0 <= r < 0x1_0000
    ensures !size.Char? && !size.Short? ==> (r - v) % TWO32 == 0 && (signed ==> r == v)
  {
    if size.Char? then AsChar(v, signed)
    else if size.Short? then AsShort(v, signed)
    else if signed then v
    else v % TWO32
  }

  function AsChar(v: int, signed: bool): (r: int)
    ensures (r - v) % 256 == 0 && if signed then -128 <= r < 128 else 0 <= r < 256
  {
    if signed then (v + 128) % 256 - 128 else v % 256
  }

  function AsShort(v: int, signed: bool): (r: int)
    ensures (r - v) % 0x1_0000 == 0 && if signed then -0x8000 <= r < 0x8000 else 0 <= r < 0x1_0000
  {
    if signed then (v + 0x8000) % 0x1_0000 - 0x8000 else v % 0x1_0000
  }

  function Abs(v: int): nat {
    if v < 0 then -v else v
  }

  function IntegerText(spec: Spec, v: int): seq<byte>
    requires -0x8000_0000 <= v < 0x8000_0000
  {
    var value := Cast(v, spec.size, IsSigned(spec.conv));
    Ntoa(Abs(value), value < 0, BaseOf(spec.conv), spec.prec, spec.width, FlagsOf(spec))
  }

  /** %p prints eight digits. */
  function PointerText(spec: Spec, v: int): seq<byte>
    requires -0x8000_0000 <= v < 0x8000_0000
  {
    Ntoa(v % TWO32, false, 16, spec.prec, 8, spec.fl.(zeropad := true, upper := true))
  }

  /** Blanks on one side of a string or a character. */
  function Blanked(s: seq<byte>, width: nat, left: bool): seq<byte> {
    if left then s + Fill(SPACE, width - |s|) else Fill(SPACE, width - |s|) + s
  }

  /** As many characters as the precision lets through. */
  function Clipped(s: seq<byte>, spec: Spec): seq<byte> {
    if spec.fl.precision && spec.prec < |s| then s[..spec.prec] else s
  }

  predicate TakesInt(spec: Spec) {
    IsInteger(spec.conv) || spec.conv == 'p' as int || spec.conv == 'c' as int
  }

  /** The text of one directive and the arguments after it. A long long prints
      nothing and takes no argument; a letter that is no conversion prints itself. */
  function Convert(spec: Spec, args: seq<arg>): Option<(seq<byte>, seq<arg>)> {
    if IsInteger(spec.conv) && spec.size.LongLong? then Some(([], args))
    else if TakesInt(spec) then
      if args == [] || !args[0].Int? then None
      else if IsInteger(spec.conv) then Some((IntegerText(spec, args[0].v), args[1..]))
      else if spec.conv == 'p' as int then Some((PointerText(spec, args[0].v), args[1..]))
      else Some((Blanked([args[0].v % 256], spec.width, spec.fl.left), args[1..]))
    else if spec.conv == 's' as int then
      if args == [] || !args[0].Str? then None
      else Some((Blanked(Clipped(args[0].s, spec), spec.width, spec.fl.left), args[1..]))
    else Some(([spec.conv], args))
  }

  /** Everything a format and its arguments print. */
  function Render(f: seq<byte>, args: seq<arg>): Option<seq<byte>>
    decreases |f|
  {
    if f == [] then Some([])
    else if f[0] != PERCENT then Join([f[0]], Render(f[1..], args))
    else
      match ReadSpec(f[1..], args)
      case None => None
      case Some(d) =>
        match Convert(d.2, d.1)
        case None => None
        case Some(c) => Join(c.0, Render(d.0, c.1))
  }

  function Join(s: seq<byte>, rest: Option<seq<byte>>): Option<seq<byte>> {
    if rest.None? then None else Some(s + rest.value)
  }

  // ---- what the conversions mean ----

  /** An integer directive without # prints what ISO C asks of the cast argument
      exactly when the field fits, and its digits always evaluate back to it. */
  lemma IntegerStandard(spec: Spec, v: int)
    requires IsInteger(spec.conv) && -0x8000_0000 <= v < 0x8000_0000 && !FlagsOf(spec).hash
    requires !spec.fl.precision ==> spec.prec == 0
    ensures var value := Cast(v, spec.size, IsSigned(spec.conv));
      var base := BaseOf(spec.conv);
      var fl := FlagsOf(spec);
      && (IntegerText(spec, v) == Standard(Abs(value), value < 0, base, spec.prec, spec.width, fl)
          <==> Fits(|Shown(Abs(value), base, fl)|, value < 0, spec.prec, spec.width, fl))
      && Eval(Body(Abs(value), value < 0, base, spec.prec, spec.width, fl), base) == Abs(value)
  {
    hide Ntoa;
    hide Standard;
    hide Shown;
    hide Fits;
    hide Body;
    hide Loses;
    var value := Cast(v, spec.size, IsSigned(spec.conv));
    NtoaStandard(Abs(value), value < 0, BaseOf(spec.conv), spec.prec, spec.width, FlagsOf(spec));
    NumeralSurvives(Abs(value), value < 0, BaseOf(spec.conv), spec.prec, spec.width, FlagsOf(spec));
    NoLoss(|Shown(Abs(value), BaseOf(spec.conv), FlagsOf(spec))|, Abs(value), BaseOf(spec.conv), spec.width, FlagsOf(spec));
  }

  lemma NoLoss(n: nat, value: nat, base: nat, width: nat, fl: Flags)
    requires !fl.hash
    ensures !Loses(n, value, base, width, fl)
  {
  }

  /** A plain %d of a number from 0 on prints its numeral. */
  lemma PlainDecimal(v: nat)
    requires v < 0x8000_0000
    ensures IntegerText(Spec(NoFlags, 0, 0, Usual, 'd' as int), v) == Numeral(v, 10, false)
  {
    var spec := Spec(NoFlags, 0, 0, Usual, 'd' as int);
    assert FlagsOf(spec) == NoFlags;
    hide Ntoa;
    hide Numeral;
    NumeralFits(v, 10, false);
    NtoaStandard(v, false, 10, 0, 0, NoFlags);
    assert Standard(v, false, 10, 0, 0, NoFlags) == Numeral(v, 10, false);
  }
}
