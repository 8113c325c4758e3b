/** What printf's directives print, character by character: which letter means what, on
    which side the blanks go, and which flag wins. */
module Printing {
  import opened Basics
  import opened Chars
  import opened Numerals
  import opened Printf
  import opened Format
  import A = Alternate

  function Repeat(c: byte, n: int): seq<byte> {
    seq(if n > 0 then n else 0, i => c)
  }

  // ---- the case of digits ----

  /** The digits beyond 9 are capitals exactly when asked for. */
  lemma {:induction false} DigitCase(v: nat, base: nat, upper: bool)
    requires Radix(base)
    ensures forall i :: 0 <= i < |Numeral(v, base, upper)| ==>
      var c := Numeral(v, base, upper)[i]; (48 <= c <= 57) || (if upper then 65 <= c <= 90 else 97 <= c <= 122)
    decreases v
  {
    hide Quot;
    hide Rem;
    if v >= base {
      DigitCase(Quot(v, base), base, upper);
    }
  }

  // ---- what a directive's letters mean ----

  /** Signed or not, the base, and whether its digits are capitals. */
  datatype Meaning = Meaning(signed: bool, base: nat, capitals: bool)

  predicate IntegerLetter(letter: char) {
    letter in {'d', 'i', 'u', 'x', 'X', 'o', 'b'}
  }

  function MeaningOf(letter: char): (m: Meaning)
    requires IntegerLetter(letter)
    ensures m.base in {2, 8, 10, 16}
  {
    match letter
    case 'd' => Meaning(true, 10, false)
    case 'i' => Meaning(true, 10, false)
    case 'u' => Meaning(false, 10, false)
    case 'x' => Meaning(false, 16, false)
    case 'X' => Meaning(false, 16, true)
    case 'o' => Meaning(false, 8, false)
    case 'b' => Meaning(false, 2, false)
  }

  datatype Length = NoLength | HH | H | L | Z

  function LengthLetters(l: Length): seq<byte> {
    match l
    case NoLength => []
    case HH => ['h' as int, 'h' as int]
    case H => ['h' as int]
    case L => ['l' as int]
    case Z => ['z' as int]
  }

  /** The argument, in 8 or 16 bits if so asked, with or without a sign. */
  function Narrowed(v: int, l: Length, signed: bool): int {
    match l
    case HH => if signed then (v + 128) % 256 - 128 else v % 256
    case H => if signed then (v + 32768) % 65536 - 32768 else v % 65536
    case _ => if signed then v else v % 0x1_0000_0000
  }

  /** Any of - 0 + and blank, in any order. */
  predicate PlainFlags(flags: seq<byte>) {
    forall i :: 0 <= i < |flags| ==> flags[i] in {45, 48, 43, 32}
  }

  /** A minus sign, or for signed numbers a + or else a blank if there is such a flag. */
  function SignOf(value: int, flags: seq<byte>, signed: bool): seq<byte> {
    if value < 0 then [45]
    else if signed && 43 in flags then [43]
    else if signed && 32 in flags then [32]
    else []
  }

  /** The number in its field: blanks behind it with a - flag or a negative width, zeros
      behind its sign with a 0 flag, and blanks before it otherwise. */
  function NumberField(value: int, m: Meaning, flags: seq<byte>, w: int): seq<byte>
    requires Radix(m.base)
  {
    var sign := SignOf(value, flags, m.signed);
    var digits := Numeral(if value < 0 then -value else value, m.base, m.capitals);
    var room := (if w < 0 then -w else w) - |sign| - |digits|;
    if 45 in flags || w < 0 then sign + digits + Repeat(32, room)
    else if 48 in flags then sign + Repeat(48, room) + digits
    else Repeat(32, room) + sign + digits
  }

  /** % flags * length letter */
  function IntegerFormat(flags: seq<byte>, l: Length, letter: char): seq<byte>
    requires IntegerLetter(letter)
  {
    [37] + flags + [42] + LengthLetters(l) + [letter as int]
  }

  /** An integer directive prints the number its letter means in the field its flags and
      width mean; zeros may fill up to 32 places. */
  lemma IntegerPrinted(flags: seq<byte>, l: Length, letter: char, w: arg, v: arg)
    requires PlainFlags(flags) && IntegerLetter(letter) && w.Int? && v.Int?
    requires 48 in flags && 45 !in flags && w.v >= 0 ==> w.v <= 32
    ensures var m := MeaningOf(letter);
      Render(IntegerFormat(flags, l, letter), [w, v])
      == Some(NumberField(Narrowed(v.v, l, m.signed), m, flags, w.v))
  {
    hide Render;
    hide NumberField;
    hide IntegerText;
    hide Narrowed;
    var spec := SpecOf(flags, w.v, l, letter as int);
    SpecRead(flags, l, letter, [w, v]);
    IntegerConverts(spec, letter, v);
    WholeFormat(IntegerFormat(flags, l, letter), [w, v], spec, [v], IntegerText(spec, v.v));
    IntegerSpecText(flags, l, letter, w.v, v.v);
  }

  // ---- reading such a directive ----

  function SizeOf(l: Length): Size {
    match l
    case NoLength => Usual
    case HH => Char
    case H => Short
    case L => Long
    case Z => Long
  }

  function FlagsFrom(flags: seq<byte>, fl: Flags): Flags {
    fl.(zeropad := fl.zeropad || 48 in flags, left := fl.left || 45 in flags, plus := fl.plus || 43 in flags,
        space := fl.space || 32 in flags)
  }

  function SpecOf(flags: seq<byte>, w: int, l: Length, letter: byte): Spec {
    var fl := FlagsFrom(flags, NoFlags);
    Spec(fl.(left := fl.left || w < 0), if w < 0 then -w else w, 0, SizeOf(l), letter)
  }

  lemma {:induction false} FlagsRead(flags: seq<byte>, rest: seq<byte>, fl: Flags)
    requires PlainFlags(flags) && (rest == [] || !IsFlag(rest[0]))
    ensures ReadFlags(flags + rest, fl) == (rest, FlagsFrom(flags, fl))
    decreases |flags|
  {
    if flags == [] {
      assert flags + rest == rest;
    } else {
      assert (flags + rest)[1..] == flags[1..] + rest;
      FlagsRead(flags[1..], rest, SetFlag(fl, flags[0]));
      assert flags == [flags[0]] + flags[1..];
    }
  }

  lemma SizeRead(l: Length, letter: byte)
    requires letter != 'h' as int && letter != 'l' as int && letter != 'j' as int && letter != 'z' as int
    ensures ReadSize(LengthLetters(l) + [letter]) == ([letter], SizeOf(l))
  {
    var f := LengthLetters(l) + [letter];
    match l
    case NoLength => assert f == [letter];
    case HH => assert f[2..] == [letter];
    case H => assert f[1..] == [letter];
    case L => assert f[1..] == [letter];
    case Z => assert f[1..] == [letter];
  }

  lemma SpecRead(flags: seq<byte>, l: Length, letter: char, args: seq<arg>)
    requires PlainFlags(flags) && IntegerLetter(letter) && args != [] && args[0].Int?
    ensures ReadSpec(IntegerFormat(flags, l, letter)[1..], args)
      == Some(([], args[1..], SpecOf(flags, args[0].v, l, letter as int)))
  {
    hide ReadSpec;
    hide ReadAfter;
    hide LengthLetters;
    hide SizeOf;
    hide PlainFlags;
    var c: byte := letter as int;
    var tail := LengthLetters(l) + [c];
    assert IntegerFormat(flags, l, letter)[1..] == flags + ([42] + tail);
    StarRead(flags, tail, args);
    AfterPlain(l, c, args[1..], SpecOf(flags, args[0].v, NoLength, c));
  }

  /** What follows a width: precision, length and letter. */
  function ReadAfter(f: seq<byte>, args: seq<arg>, fl: Flags, width: nat): Option<(seq<byte>, seq<arg>, Spec)> {
    match ReadPrecision(f, args, fl)
    case None => None
    case Some(p) =>
      var (f2, size) := ReadSize(p.format);
      if f2 == [] then None else Some((f2[1..], p.args, Spec(p.fl, width, p.n, size, f2[0])))
  }

  lemma StarRead(flags: seq<byte>, tail: seq<byte>, args: seq<arg>)
    requires PlainFlags(flags) && args != [] && args[0].Int?
    ensures var fl := FlagsFrom(flags, NoFlags); var w := args[0].v;
      ReadSpec(flags + ([42] + tail), args)
      == ReadAfter(tail, args[1..], fl.(left := fl.left || w < 0), if w < 0 then -w else w)
  {
    var rest := [42] + tail;
    FlagsRead(flags, rest, NoFlags);
    assert rest[1..] == tail;
    hide ReadFlags;
    hide ReadSize;
    hide ReadPrecision;
    hide FlagsFrom;
  }

  lemma AfterPlain(l: Length, c: byte, args: seq<arg>, spec: Spec)
    requires c != 'h' as int && c != 'l' as int && c != 'j' as int && c != 'z' as int && c != 46
    requires spec.prec == 0
    ensures ReadAfter(LengthLetters(l) + [c], args, spec.fl, spec.width)
      == Some(([], args, spec.(size := SizeOf(l), conv := c)))
  {
    SizeRead(l, c);
    assert [c][1..] == [];
    assert !Leads(LengthLetters(l) + [c], DOT);
    hide ReadSize;
  }

  lemma AfterPrecision(c: byte, args: seq<arg>, spec: Spec)
    requires c != 'h' as int && c != 'l' as int && c != 'j' as int && c != 'z' as int
    requires args != [] && args[0].Int? && args[0].v >= 0
    ensures ReadAfter([46, 42] + [c], args, spec.fl, spec.width)
      == Some(([], args[1..], spec.(fl := spec.fl.(precision := true), prec := args[0].v, size := Usual, conv := c)))
  {
    var f: seq<byte> := [46, 42] + [c];
    assert f[1..] == [42, c] && f[1..][1..] == [c] && [c][1..] == [];
  }

  lemma IntegerConverts(spec: Spec, letter: char, v: arg)
    requires IntegerLetter(letter) && spec.conv == letter as int && !spec.size.LongLong? && v.Int?
    ensures IsInteger(spec.conv) && Convert(spec, [v]) == Some((IntegerText(spec, v.v), []))
  {
    hide IntegerText;
    assert [v][1..] == [];
  }

  /** A format that is one directive. */
  lemma WholeFormat(f: seq<byte>, args: seq<arg>, spec: Spec, left: seq<arg>, text: seq<byte>)
    requires f != [] && f[0] == PERCENT && ReadSpec(f[1..], args) == Some(([], left, spec))
    requires Convert(spec, left).Some? && Convert(spec, left).value.0 == text
    ensures Render(f, args) == Some(text)
  {
    hide ReadSpec;
    hide Convert;
    assert Render([], Convert(spec, left).value.1) == Some([]);
    assert text + [] == text;
  }

  // ---- its text ----

  lemma IntegerSpecText(flags: seq<byte>, l: Length, letter: char, w: int, v: int)
    requires PlainFlags(flags) && IntegerLetter(letter)
    requires -0x8000_0000 <= w < 0x8000_0000 && -0x8000_0000 <= v < 0x8000_0000
    requires 48 in flags && 45 !in flags && w >= 0 ==> w <= 32
    ensures var m := MeaningOf(letter);
      IntegerText(SpecOf(flags, w, l, letter as int), v) == NumberField(Narrowed(v, l, m.signed), m, flags, w)
  {
    hide IntegerText;
    hide NumberField;
    hide Standard;
    hide Fits;
    hide Shown;
    var spec := SpecOf(flags, w, l, letter as int);
    var m := MeaningOf(letter);
    LettersMean(spec, letter, l, v);
    IntegerStandard(spec, v);
    var value := Narrowed(v, l, m.signed);
    FieldFits(flags, w, letter, Abs(value), value < 0, FlagsOf(spec));
    StandardField(flags, w, letter, value, FlagsOf(spec));
  }

  lemma LettersMean(spec: Spec, letter: char, l: Length, v: int)
    requires IntegerLetter(letter) && spec.conv == letter as int && spec.size == SizeOf(l)
    requires -0x8000_0000 <= v < 0x8000_0000
    ensures var m := MeaningOf(letter);
      && IsInteger(spec.conv) && IsSigned(spec.conv) == m.signed && BaseOf(spec.conv) == m.base
      && Cast(v, spec.size, m.signed) == Narrowed(v, l, m.signed)
      && (spec.conv == 'X' as int <==> m.capitals)
  {
  }

  /** The flags a directive ends up with. */
  ghost predicate Final(fl: Flags, flags: seq<byte>, w: int, m: Meaning) {
    && !fl.hash && !fl.precision && fl.upper == m.capitals
    && fl.left == (45 in flags || w < 0) && fl.zeropad == (48 in flags)
    && fl.plus == (m.signed && 43 in flags) && fl.space == (m.signed && 32 in flags)
  }

  lemma FieldFits(flags: seq<byte>, w: int, letter: char, value: nat, negative: bool, fl: Flags)
    requires IntegerLetter(letter) && value < TWO32 && Final(fl, flags, w, MeaningOf(letter))
    requires negative ==> MeaningOf(letter).signed
    requires 48 in flags && 45 !in flags && w >= 0 ==> w <= 32
    ensures Fits(|Shown(value, MeaningOf(letter).base, fl)|, negative, 0, if w < 0 then -w else w, fl)
  {
    var m := MeaningOf(letter);
    ShownPlain(value, m.base, fl);
    if m.signed {
      TenDigits(value, fl);
    }
    hide Shown;
    hide NonBlanks;
  }

  lemma TenDigits(value: nat, fl: Flags)
    requires value < TWO32
    ensures |Shown(value, 10, fl)| < 31
  {
    hide Numeral;
    hide Pow;
    NumeralNeeds(value, 10, fl.upper);
    var n := |Numeral(value, 10, fl.upper)|;
    if n > 10 {
      BigTen(n - 1);
    }
  }

  lemma BigTen(n: nat)
    requires n >= 10
    ensures Pow(10, n) >= TWO32
    decreases n
  {
    if n == 10 {
      assert Pow(10, 5) == 100000;
      assert Pow(10, 10) == 100000 * Pow(10, 5);
    } else {
      BigTen(n - 1);
    }
  }

  /** The standard's field, spelled out. */
  lemma StandardField(flags: seq<byte>, w: int, letter: char, value: int, fl: Flags)
    requires IntegerLetter(letter) && -0x8000_0000 <= value < TWO32 && Final(fl, flags, w, MeaningOf(letter))
    ensures var m := MeaningOf(letter);
      Standard(Abs(value), value < 0, m.base, 0, if w < 0 then -w else w, fl) == NumberField(value, m, flags, w)
  {
    hide Numeral;
    hide Sign;
    hide SignOf;
    hide Digits;
    hide Fill;
    hide Repeat;
    var m := MeaningOf(letter);
    var width := if w < 0 then -w else w;
    var sign := SignOf(value, flags, m.signed);
    var num := Numeral(Abs(value), m.base, m.capitals);
    SignsAgree(value, flags, m, w, fl);
    DigitsPlain(Abs(value), m.base, fl);
    FillIsRepeat(SPACE, width - |sign| - |num|);
    FillIsRepeat(DIGIT0, width - |sign| - |num|);
  }

  lemma FillIsRepeat(c: byte, n: int)
    ensures Fill(c, n) == Repeat(c, n)
  {
  }

  lemma SignsAgree(value: int, flags: seq<byte>, m: Meaning, w: int, fl: Flags)
    requires Final(fl, flags, w, m)
    ensures Sign(fl, value < 0) == SignOf(value, flags, m.signed)
  {
  }

  lemma DigitsPlain(value: nat, base: nat, fl: Flags)
    requires Radix(base) && !fl.precision
    ensures Digits(value, base, 0, fl) == Numeral(value, base, fl.upper)
  {
    hide Numeral;
    assert Fill(DIGIT0, 0 - |Numeral(value, base, fl.upper)|) == [];
  }

  // ---- strings, characters and the rest ----

  /** % flags * and a precision or none, then s */
  function StringFormat(flags: seq<byte>, precision: bool): seq<byte> {
    [37] + flags + [42] + (if precision then [46, 42] else []) + ['s' as int]
  }

  function StringField(s: seq<byte>, flags: seq<byte>, w: int): seq<byte> {
    var room := (if w < 0 then -w else w) - |s|;
    if 45 in flags || w < 0 then s + Repeat(32, room) else Repeat(32, room) + s
  }

  /** A string is printed whole, or its first characters with a precision, with blanks
      before it, or behind it with a - flag or a negative width. */
  lemma StringPrinted(flags: seq<byte>, w: arg, s: arg)
    requires PlainFlags(flags) && w.Int? && s.Str?
    ensures Render(StringFormat(flags, false), [w, s]) == Some(StringField(s.s, flags, w.v))
  {
    hide Render;
    hide StringField;
    hide ReadSpec;
    hide ReadAfter;
    hide FlagsFrom;
    var c: byte := 's' as int;
    var spec := SpecOf(flags, w.v, NoLength, c);
    assert StringFormat(flags, false)[1..] == flags + ([42] + (LengthLetters(NoLength) + [c]));
    assert [w, s][1..] == [s];
    StarRead(flags, LengthLetters(NoLength) + [c], [w, s]);
    AfterPlain(NoLength, c, [s], spec);
    StringConverts(spec, s);
    SpecLeft(flags, w.v, c);
    BlanksPlaced(s.s, flags, w.v);
    WholeFormat(StringFormat(flags, false), [w, s], spec, [s], StringField(s.s, flags, w.v));
  }

  lemma SpecLeft(flags: seq<byte>, w: int, c: byte)
    ensures var spec := SpecOf(flags, w, NoLength, c);
      && spec.fl.left == (45 in flags || w < 0) && spec.width == (if w < 0 then -w else w)
      && !spec.fl.precision && spec.conv == c && spec.prec == 0
  {
  }

  lemma StringConverts(spec: Spec, s: arg)
    requires spec.conv == 's' as int && s.Str?
    ensures Convert(spec, [s]) == Some((Blanked(Clipped(s.s, spec), spec.width, spec.fl.left), []))
  {
    assert [s][1..] == [];
  }

  lemma CharConverts(spec: Spec, v: arg)
    requires spec.conv == 'c' as int && v.Int?
    ensures Convert(spec, [v]) == Some((Blanked([v.v % 256], spec.width, spec.fl.left), []))
  {
    assert [v][1..] == [];
  }

  lemma BlanksPlaced(s: seq<byte>, flags: seq<byte>, w: int)
    ensures Blanked(s, if w < 0 then -w else w, 45 in flags || w < 0) == StringField(s, flags, w)
  {
    var room := (if w < 0 then -w else w) - |s|;
    assert Fill(SPACE, room) == Repeat(32, room);
  }

  lemma ClippedStringPrinted(flags: seq<byte>, w: arg, p: arg, s: arg)
    requires PlainFlags(flags) && w.Int? && p.Int? && p.v >= 0 && s.Str?
    ensures Render(StringFormat(flags, true), [w, p, s])
      == Some(StringField(if p.v < |s.s| then s.s[..p.v] else s.s, flags, w.v))
  {
    hide Render;
    hide StringField;
    hide ReadSpec;
    hide ReadAfter;
    hide FlagsFrom;
    var c: byte := 's' as int;
    var args := [w, p, s];
    var spec := SpecOf(flags, w.v, NoLength, c);
    var clipped := spec.(fl := spec.fl.(precision := true), prec := p.v);
    assert StringFormat(flags, true)[1..] == flags + ([42] + ([46, 42] + [c]));
    assert args[1..] == [p, s] && args[1..][1..] == [s];
    StarRead(flags, [46, 42] + [c], args);
    AfterPrecision(c, [p, s], spec);
    StringConverts(clipped, s);
    SpecLeft(flags, w.v, c);
    var t := if p.v < |s.s| then s.s[..p.v] else s.s;
    BlanksPlaced(t, flags, w.v);
    WholeFormat(StringFormat(flags, true), args, clipped, [s], StringField(t, flags, w.v));
  }

  /** A character in its field, a percent sign, and a letter that is no conversion. */
  lemma CharactersPrinted(flags: seq<byte>, w: arg, v: arg)
    requires PlainFlags(flags) && w.Int? && v.Int?
    ensures Render([37] + flags + [42, 'c' as int], [w, v]) == Some(StringField([v.v % 256], flags, w.v))
    ensures Render([37, 37], []) == Some([37]) && Render([37, 'k' as int], []) == Some(['k' as int])
  {
    LetterPrinted(37);
    LetterPrinted('k' as int);
    CharPrinted(flags, w, v);
  }

  lemma CharPrinted(flags: seq<byte>, w: arg, v: arg)
    requires PlainFlags(flags) && w.Int? && v.Int?
    ensures Render([37] + flags + [42, 'c' as int], [w, v]) == Some(StringField([v.v % 256], flags, w.v))
  {
    hide Render;
    hide StringField;
    hide ReadSpec;
    hide ReadAfter;
    hide FlagsFrom;
    var c: byte := 'c' as int;
    var f := [37] + flags + [42, c];
    var spec := SpecOf(flags, w.v, NoLength, c);
    assert f[1..] == flags + ([42] + (LengthLetters(NoLength) + [c]));
    assert [w, v][1..] == [v];
    StarRead(flags, LengthLetters(NoLength) + [c], [w, v]);
    AfterPlain(NoLength, c, [v], spec);
    CharConverts(spec, v);
    SpecLeft(flags, w.v, c);
    BlanksPlaced([v.v % 256], flags, w.v);
    WholeFormat(f, [w, v], spec, [v], StringField([v.v % 256], flags, w.v));
  }

  /** Every other character prints itself. */
  lemma LetterPrinted(c: byte)
    requires !Special(c)
    ensures Render([37, c], []) == Some([c])
  {
    assert [37, c][1..] == [c] && [c][1..] == [];
    assert ReadSpec([c], []) == Some(([], [], Spec(NoFlags, 0, 0, Usual, c)));
    hide ReadSpec;
    WholeFormat([37, c], [], Spec(NoFlags, 0, 0, Usual, c), [], [c]);
  }

  /** The letters of conversions and lengths, the flags, the digits, star and point. */
  predicate Special(c: byte) {
    || c == 'd' as int || c == 'i' as int || c == 'x' as int || c == 'X' as int || c == 'o' as int || c == 'b' as int
    || c == 'u' as int || c == 'c' as int || c == 's' as int || c == 'p' as int || c == 'h' as int || c == 'l' as int
    || c == 'j' as int || c == 'z' as int || c == '.' as int || c == '*' as int || c == '#' as int || c == '+' as int
    || c == '-' as int || c == ' ' as int || '0' as int <= c <= '9' as int
  }

  /** As the library is compiled, an integer of length ll or j prints nothing, and takes
      no argument but its width. */
  lemma LongLongPrinted(flags: seq<byte>, j: bool, letter: char, w: arg)
    requires PlainFlags(flags) && IntegerLetter(letter) && w.Int?
    ensures Render([37] + flags + [42] + (if j then ['j' as int] else ['l' as int, 'l' as int]) + [letter as int], [w])
      == Some([])
  {
    hide ReadSpec;
    hide Render;
    hide ReadAfter;
    hide PlainFlags;
    var c: byte := letter as int;
    var tail: seq<byte> := (if j then ['j' as int] else ['l' as int, 'l' as int]) + [c];
    var f := [37] + flags + [42] + (if j then ['j' as int] else ['l' as int, 'l' as int]) + [c];
    assert f[1..] == flags + ([42] + tail);
    StarRead(flags, tail, [w]);
    var spec := SpecOf(flags, w.v, NoLength, c);
    AfterLong(j, c, [w][1..], spec);
    assert [w][1..] == [];
    WholeFormat(f, [w], spec.(size := LongLong), [], []);
  }

  lemma AfterLong(j: bool, c: byte, args: seq<arg>, spec: Spec)
    requires spec.prec == 0
    ensures ReadAfter((if j then ['j' as int] else ['l' as int, 'l' as int]) + [c], args, spec.fl, spec.width)
      == Some(([], args, spec.(size := LongLong, conv := c)))
  {
    var f: seq<byte> := (if j then ['j' as int] else ['l' as int, 'l' as int]) + [c];
    if j {
      assert f[1..] == [c];
    } else {
      assert f[1..][0] == 'l' as int && f[2..] == [c];
    }
    assert [c][1..] == [];
  }

  /** A pointer is printed as eight capital hexadecimal digits. */
  lemma PointerPrinted(v: arg)
    requires v.Int?
    ensures var digits := Numeral(v.v % 0x1_0000_0000, 16, true);
      Render([37, 'p' as int], [v]) == Some(Repeat(48, 8 - |digits|) + digits)
  {
    hide Ntoa;
    hide Numeral;
    PointerRead(v);
    PointerField(v.v);
    hide ReadSpec;
    hide Render;
    hide PointerText;
    var c: byte := 'p' as int;
    var spec := Spec(NoFlags, 0, 0, Usual, c);
    assert [37, c][1..] == [c];
    WholeFormat([37, c], [v], spec, [v], PointerText(spec, v.v));
  }

  lemma PointerRead(v: arg)
    requires v.Int?
    ensures var spec := Spec(NoFlags, 0, 0, Usual, 'p' as int);
      && ReadSpec(['p' as int], [v]) == Some(([], [v], spec))
      && Convert(spec, [v]) == Some((PointerText(spec, v.v), []))
  {
    hide PointerText;
    var c: byte := 'p' as int;
    assert [c][1..] == [] && [v][1..] == [];
  }

  lemma PointerField(v: int)
    requires -0x8000_0000 <= v < 0x8000_0000
    ensures var digits := Numeral(v % 0x1_0000_0000, 16, true);
      PointerText(Spec(NoFlags, 0, 0, Usual, 'p' as int), v) == Repeat(48, 8 - |digits|) + digits
  {
    hide Ntoa;
    hide Numeral;
    hide Standard;
    hide Fill;
    hide Repeat;
    hide Fits;
    hide Shown;
    var fl := NoFlags.(zeropad := true, upper := true);
    var n := v % TWO32;
    NtoaStandard(n, false, 16, 0, 8, fl);
    PointerFits(n, fl);
    PointerStandard(n, fl);
    FillIsRepeat(DIGIT0, 8 - |Numeral(n, 16, true)|);
  }

  lemma PointerFits(n: nat, fl: Flags)
    requires n < TWO32 && fl == NoFlags.(zeropad := true, upper := true)
    ensures Fits(|Shown(n, 16, fl)|, false, 0, 8, fl)
  {
    hide Numeral;
    NumeralFits(n, 16, true);
  }

  lemma PointerStandard(n: nat, fl: Flags)
    requires fl == NoFlags.(zeropad := true, upper := true)
    ensures var digits := Numeral(n, 16, true);
      Standard(n, false, 16, 0, 8, fl) == Fill(DIGIT0, 8 - |digits|) + digits
  {
    hide Numeral;
    hide Digits;
    hide Fill;
    DigitsPlain(n, 16, fl);
    var digits := Numeral(n, 16, true);
    assert [] + Fill(DIGIT0, 8 - |digits|) + digits == Fill(DIGIT0, 8 - |digits|) + digits;
  }

  // ---- precision and the # flag ----

  /** % flags * . * length letter */
  function PreciseFormat(flags: seq<byte>, l: Length, letter: char): seq<byte>
    requires IntegerLetter(letter)
  {
    [37] + flags + [42, 46, 42] + LengthLetters(l) + [letter as int]
  }

  /** At least p digits, with zeros in front; none for 0 with p = 0. */
  function PreciseDigits(value: nat, m: Meaning, p: nat): seq<byte>
    requires Radix(m.base)
  {
    var digits := if value == 0 && p == 0 then [] else Numeral(value, m.base, m.capitals);
    Repeat(48, p - |digits|) + digits
  }

  function PreciseField(value: int, m: Meaning, flags: seq<byte>, w: nat, p: nat): seq<byte>
    requires Radix(m.base)
  {
    var sign := SignOf(value, flags, m.signed);
    var digits := PreciseDigits(if value < 0 then -value else value, m, p);
    Repeat(32, w - |sign| - |digits|) + sign + digits
  }

  /** With a precision of up to 31 a right-justified number has at least so many digits;
      the 0 flag does not count. */
  lemma PrecisePrinted(flags: seq<byte>, l: Length, letter: char, w: arg, p: arg, v: arg)
    requires PlainFlags(flags) && 45 !in flags && IntegerLetter(letter)
    requires w.Int? && w.v >= 0 && p.Int? && 0 <= p.v <= 31 && v.Int?
    ensures var m := MeaningOf(letter);
      Render(PreciseFormat(flags, l, letter), [w, p, v])
      == Some(PreciseField(Narrowed(v.v, l, m.signed), m, flags, w.v, p.v))
  {
    hide Render;
    hide PreciseField;
    hide IntegerText;
    hide Narrowed;
    hide ReadSpec;
    hide ReadAfter;
    hide FlagsFrom;
    var c: byte := letter as int;
    var tail := [46, 42] + (LengthLetters(l) + [c]);
    var args := [w, p, v];
    var f := PreciseFormat(flags, l, letter);
    var spec := PreciseSpec(flags, w.v, p.v, l, c);
    assert f[1..] == flags + ([42] + tail);
    assert args[1..] == [p, v] && args[1..][1..] == [v];
    StarRead(flags, tail, args);
    AfterLongPrecision(l, c, [p, v], SpecOf(flags, w.v, NoLength, c));
    IntegerConverts(spec, letter, v);
    PreciseSpecText(flags, l, letter, w.v, p.v, v.v);
    WholeFormat(f, args, spec, [v], IntegerText(spec, v.v));
  }

  function PreciseSpec(flags: seq<byte>, w: int, p: nat, l: Length, c: byte): Spec {
    var spec := SpecOf(flags, w, l, c);
    spec.(fl := spec.fl.(precision := true), prec := p)
  }

  lemma AfterLongPrecision(l: Length, c: byte, args: seq<arg>, spec: Spec)
    requires c != 'h' as int && c != 'l' as int && c != 'j' as int && c != 'z' as int
    requires args != [] && args[0].Int? && args[0].v >= 0
    ensures ReadAfter([46, 42] + (LengthLetters(l) + [c]), args, spec.fl, spec.width)
      == Some(([], args[1..], spec.(fl := spec.fl.(precision := true), prec := args[0].v, size := SizeOf(l), conv := c)))
  {
    var after := LengthLetters(l) + [c];
    var f: seq<byte> := [46, 42] + after;
    SizeRead(l, c);
    assert f[1..][1..] == after && [c][1..] == [];
    hide ReadSize;
  }

  lemma PreciseSpecText(flags: seq<byte>, l: Length, letter: char, w: int, p: nat, v: int)
    requires PlainFlags(flags) && 45 !in flags && IntegerLetter(letter) && 0 <= w < 0x8000_0000 && p <= 31
    requires -0x8000_0000 <= v < 0x8000_0000
    ensures var m := MeaningOf(letter);
      IntegerText(PreciseSpec(flags, w, p, l, letter as int), v)
      == PreciseField(Narrowed(v, l, m.signed), m, flags, w, p)
  {
    hide IntegerText;
    hide PreciseField;
    hide Standard;
    hide Fits;
    hide Shown;
    var spec := PreciseSpec(flags, w, p, l, letter as int);
    var m := MeaningOf(letter);
    LettersMean(spec, letter, l, v);
    IntegerStandard(spec, v);
    var value := Narrowed(v, l, m.signed);
    PreciseFits(Abs(value), value < 0, m, w, p, FlagsOf(spec));
    PreciseStandard(flags, w, p, m, value, FlagsOf(spec));
  }

  ghost predicate PreciseFlags(fl: Flags, flags: seq<byte>, m: Meaning) {
    && !fl.hash && fl.precision && fl.upper == m.capitals && !fl.left && !fl.zeropad
    && fl.plus == (m.signed && 43 in flags) && fl.space == (m.signed && 32 in flags)
  }

  lemma PreciseFits(value: nat, negative: bool, m: Meaning, w: nat, p: nat, fl: Flags)
    requires m.base in {2, 8, 10, 16} && value < TWO32 && p <= 31 && !fl.left && !fl.zeropad
    requires Signed(fl, negative) ==> m.base == 10
    ensures Fits(|Shown(value, m.base, fl)|, negative, p, w, fl)
  {
    ShownPlain(value, m.base, fl);
    if m.base == 10 {
      TenDigits(value, fl);
    }
    hide Shown;
    hide NonBlanks;
  }

  lemma PreciseStandard(flags: seq<byte>, w: nat, p: nat, m: Meaning, value: int, fl: Flags)
    requires Radix(m.base) && PreciseFlags(fl, flags, m)
    ensures Standard(Abs(value), value < 0, m.base, p, w, fl) == PreciseField(value, m, flags, w, p)
  {
    hide Numeral;
    hide Fill;
    hide Repeat;
    hide Sign;
    hide SignOf;
    PreciseSigns(value, flags, m, fl);
    DigitsPrecise(Abs(value), m, p, fl);
    hide Digits;
    hide PreciseDigits;
    FillIsRepeat(SPACE, w - |SignOf(value, flags, m.signed)| - |PreciseDigits(Abs(value), m, p)|);
  }

  lemma PreciseSigns(value: int, flags: seq<byte>, m: Meaning, fl: Flags)
    requires PreciseFlags(fl, flags, m)
    ensures Sign(fl, value < 0) == SignOf(value, flags, m.signed)
  {
  }

  lemma DigitsPrecise(value: nat, m: Meaning, p: nat, fl: Flags)
    requires Radix(m.base) && fl.precision && fl.upper == m.capitals
    ensures Digits(value, m.base, p, fl) == PreciseDigits(value, m, p)
  {
    hide Numeral;
    hide Fill;
    hide Repeat;
    FillIsRepeat(DIGIT0, p - |Numeral(value, m.base, fl.upper)|);
    FillIsRepeat(DIGIT0, p);
    FillIsRepeat(DIGIT0, p - 0);
    if value == 0 {
      ZeroNumeral(m.base, fl.upper);
      if p > 0 {
        ZerosAndOne(p);
      } else {
        assert Fill(DIGIT0, 0) + [] == Fill(DIGIT0, 0);
      }
    }
  }

  lemma ZeroNumeral(base: nat, upper: bool)
    requires Radix(base)
    ensures Numeral(0, base, upper) == [48]
  {
  }

  lemma ZerosAndOne(p: nat)
    requires p > 0
    ensures Repeat(48, p) == Repeat(48, p - 1) + [48]
  {
  }

  /** With # a hexadecimal number other than 0 begins with 0x, or 0X with capitals, and
      an octal one with a 0. */
  lemma HashPrinted(letter: char, v: arg)
    requires letter in {'x', 'X', 'o'} && v.Int? && v.v != 0
    ensures var n := v.v % 0x1_0000_0000;
      Render([37, 35, letter as int], [v]) == Some(
        if letter == 'x' then [48, 120] + Numeral(n, 16, false)
        else if letter == 'X' then [48, 88] + Numeral(n, 16, true)
        else [48] + Numeral(n, 8, false))
  {
    hide Numeral;
    hide IntegerText;
    var c: byte := letter as int;
    var spec := Spec(NoFlags.(hash := true), 0, 0, Usual, c);
    HashRead(c, v);
    HashText(spec, v.v);
    IntegerConverts(spec, letter, v);
    hide ReadSpec;
    hide Render;
    assert [37, 35, c][1..] == [35, c];
    WholeFormat([37, 35, c], [v], spec, [v], IntegerText(spec, v.v));
  }

  lemma HashRead(c: byte, v: arg)
    requires c in {'x' as int, 'X' as int, 'o' as int}
    ensures ReadSpec([35, c], [v]) == Some(([], [v], Spec(NoFlags.(hash := true), 0, 0, Usual, c)))
  {
    assert [35, c][1..] == [c] && [c][1..] == [];
    assert ReadFlags([c], NoFlags.(hash := true)) == ([c], NoFlags.(hash := true));
  }

  lemma HashText(spec: Spec, v: int)
    requires spec == Spec(NoFlags.(hash := true), 0, 0, Usual, spec.conv)
    requires spec.conv in {'x' as int, 'X' as int, 'o' as int}
    requires -0x8000_0000 <= v < 0x8000_0000 && v != 0
    ensures var n := v % 0x1_0000_0000;
      IntegerText(spec, v) ==
        if spec.conv == 'x' as int then [48, 120] + Numeral(n, 16, false)
        else if spec.conv == 'X' as int then [48, 88] + Numeral(n, 16, true)
        else [48] + Numeral(n, 8, false)
  {
    hide Numeral;
    hide Ntoa;
    hide IntegerText;
    var n := v % TWO32;
    var base := BaseOf(spec.conv);
    var fl := FlagsOf(spec);
    assert n != 0;
    A.DirectiveExact(spec, v);
    HashFits(n, base, fl);
    hide A.FitsAlt;
    HashStandard(n, base, fl);
    hide A.StandardAlt;
  }

  lemma HashFits(n: nat, base: nat, fl: Flags)
    requires (base == 8 || base == 16) && 0 < n < TWO32 && fl.hash && !fl.precision && !fl.zeropad && !fl.left
    ensures A.FitsAlt(|Shown(n, base, fl)|, n, base, 0, 0, fl)
  {
    hide Numeral;
  }

  lemma HashStandard(n: nat, base: nat, fl: Flags)
    requires (base == 8 || base == 16) && 0 < n < TWO32 && fl.hash && !fl.precision && !fl.zeropad && !fl.left
    ensures A.StandardAlt(n, base, 0, 0, fl) ==
      if base == 16 then [48, if fl.upper then 88 else 120] + Numeral(n, base, fl.upper)
      else [48] + Numeral(n, base, fl.upper)
  {
    hide Numeral;
    DigitsPlain(n, base, fl);
    NumeralLeads(n, base, fl.upper);
    assert DigitOf(48) == 0;
    FillIsRepeat(SPACE, -1);
    var digits := A.AltDigits(n, base, 0, fl);
    var prefix := A.AltPrefix(n, base, fl);
    assert Fill(SPACE, 0 - |prefix| - |digits|) == [];
    assert [] + prefix + digits == prefix + digits;
  }
}
