/** Whole integer directives, from the characters after the % to the printed text: what
    ISO C asks for, and exactly when the library prints it. */
module Directives {
  import opened Basics
  import opened Chars
  import opened Numerals
  import opened Printf
  import opened Format
  import opened Alternate

  // ---- reading as section 7.19.6.1 asks: a negative precision is none ----

  /** The precision comes from a star, and its argument is negative. */
  predicate StarBelowZero(f: seq<byte>, args: seq<arg>) {
    Leads(f, DOT) && Leads(f[1..], STAR) && args != [] && args[0].Int? && args[0].v < 0
  }

  function StandardPrecision(f: seq<byte>, args: seq<arg>, fl: Flags): (r: Option<Field>)
    ensures r.Some? ==> |r.value.format| <= |f|
  {
    if StarBelowZero(f, args) then Some(Field(f[2..], args[1..], fl, 0)) else ReadPrecision(f, args, fl)
  }

  function StandardSpec(f: seq<byte>, args: seq<arg>): Option<(seq<byte>, seq<arg>, Spec)> {
    var (f1, fl) := ReadFlags(f, NoFlags);
    match ReadWidth(f1, args, fl)
    case None => None
    case Some(w) =>
      match StandardPrecision(w.format, w.args, w.fl)
      case None => None
      case Some(p) =>
        var (f2, size) := ReadSize(p.format);
        if f2 == [] then None else Some((f2[1..], p.args, Spec(p.fl, w.n, p.n, size, f2[0])))
  }

  /** The directive gives its precision as a star with a negative argument. */
  predicate NegativeStar(f: seq<byte>, args: seq<arg>) {
    var (f1, fl) := ReadFlags(f, NoFlags);
    var w := ReadWidth(f1, args, fl);
    w.Some? && StarBelowZero(w.value.format, w.value.args)
  }

  lemma {:induction false} FlagsOnly(f: seq<byte>, fl: Flags)
    ensures ReadFlags(f, fl).1.precision == fl.precision
    decreases |f|
  {
    if f != [] && IsFlag(f[0]) {
      FlagsOnly(f[1..], SetFlag(fl, f[0]));
    }
  }

  /** The library and the standard read the same, but for a negative star: that sets
      the library's precision flag, with precision 0. */
  lemma ReadingsDiffer(f: seq<byte>, args: seq<arg>)
    requires ReadSpec(f, args).Some?
    ensures StandardSpec(f, args).Some?
    ensures var r, s := ReadSpec(f, args).value, StandardSpec(f, args).value;
      && r.0 == s.0 && r.1 == s.1
      && (!NegativeStar(f, args) ==> r.2 == s.2)
      && (NegativeStar(f, args) ==>
            !s.2.fl.precision && s.2.prec == 0 && r.2 == s.2.(fl := s.2.fl.(precision := true)))
      && (!s.2.fl.precision ==> s.2.prec == 0)
  {
    hide ReadNumber;
    hide ReadSize;
    FlagsOnly(f, NoFlags);
    hide ReadFlags;
  }

  // ---- what is asked for, and when it comes out ----

  /** The standard's text for a directive and its argument. */
  function Meant(spec: Spec, v: int): seq<byte>
    requires -0x8000_0000 <= v < 0x8000_0000
  {
    var value := Cast(v, spec.size, IsSigned(spec.conv));
    var fl := FlagsOf(spec);
    var base := BaseOf(spec.conv);
    if fl.hash then StandardAlt(Abs(value), base, spec.prec, spec.width, fl)
    else Standard(Abs(value), value < 0, base, spec.prec, spec.width, fl)
  }

  /** The condition when the precision is not negative. */
  predicate Printable(spec: Spec, v: int)
    requires -0x8000_0000 <= v < 0x8000_0000
  {
    var value := Cast(v, spec.size, IsSigned(spec.conv));
    var fl := FlagsOf(spec);
    var base := BaseOf(spec.conv);
    var n := |Shown(Abs(value), base, fl)|;
    if !fl.hash then Fits(n, value < 0, spec.prec, spec.width, fl)
    else if value == 0 then
      Fits(n, false, spec.prec, spec.width, fl) && !(base == 8 && fl.precision && spec.prec == 0)
    else FitsAlt(n, value, base, spec.prec, spec.width, fl)
  }

  /** The characters of a number without padding. */
  function BareLength(spec: Spec, v: int): nat
    requires -0x8000_0000 <= v < 0x8000_0000
  {
    var value := Cast(v, spec.size, IsSigned(spec.conv));
    var fl := FlagsOf(spec);
    var base := BaseOf(spec.conv);
    if fl.hash then |AltPrefix(Abs(value), base, fl)| + |AltDigits(Abs(value), base, 0, fl)|
    else |Sign(fl, value < 0)| + |Numeral(Abs(value), base, fl.upper)|
  }

  /** The condition when it is: the value is not 0, which would be left out, and the
      0 flag, which is dropped, has nothing to fill. */
  predicate StarHarmless(spec: Spec, v: int)
    requires -0x8000_0000 <= v < 0x8000_0000
  {
    && Cast(v, spec.size, IsSigned(spec.conv)) != 0
    && !(spec.fl.zeropad && !spec.fl.left && spec.width > BareLength(spec, v))
  }

  predicate PrintsInteger(spec: Spec, args: seq<arg>) {
    && IsInteger(spec.conv) && !spec.size.LongLong? && args != [] && args[0].Int?
    && (spec.fl.hash ==> spec.conv != 'b' as int)
  }

  /** An integer directive of any form, with its arguments: the library prints what the
      standard asks for if and only if, with a negative star for a precision, the value
      is not 0 and no zeros are due, and otherwise the field fits. */
  lemma IntegerDirectiveExact(f: seq<byte>, args: seq<arg>)
    requires ReadSpec(f, args).Some? && PrintsInteger(ReadSpec(f, args).value.2, ReadSpec(f, args).value.1)
    ensures StandardSpec(f, args).Some?
    ensures var (rest, left, read) := ReadSpec(f, args).value;
      var meant := StandardSpec(f, args).value.2;
      var v := left[0].v;
      && Convert(read, left) == Some((IntegerText(read, v), left[1..]))
      && (IntegerText(read, v) == Meant(meant, v)
          <==> if NegativeStar(f, args) then StarHarmless(meant, v) else Printable(meant, v))
  {
    hide ReadSpec;
    hide StandardSpec;
    hide NegativeStar;
    ReadingsDiffer(f, args);
    var (rest, left, read) := ReadSpec(f, args).value;
    var meant := StandardSpec(f, args).value.2;
    if NegativeStar(f, args) {
      StarExact(meant, left[0].v);
    } else {
      PlainExact(meant, left[0].v);
    }
  }

  lemma PlainExact(spec: Spec, v: int)
    requires IsInteger(spec.conv) && -0x8000_0000 <= v < 0x8000_0000 && (!spec.fl.precision ==> spec.prec == 0)
    requires spec.fl.hash ==> spec.conv != 'b' as int
    ensures IntegerText(spec, v) == Meant(spec, v) <==> Printable(spec, v)
  {
    hide Ntoa;
    hide Standard;
    hide StandardAlt;
    hide Shown;
    hide Fits;
    hide FitsAlt;
    if FlagsOf(spec).hash {
      DirectiveExact(spec, v);
    } else {
      IntegerStandard(spec, v);
    }
  }

  lemma StarExact(spec: Spec, v: int)
    requires IsInteger(spec.conv) && -0x8000_0000 <= v < 0x8000_0000 && !spec.fl.precision && spec.prec == 0
    requires spec.fl.hash ==> spec.conv != 'b' as int
    ensures IntegerText(spec.(fl := spec.fl.(precision := true)), v) == Meant(spec, v) <==> StarHarmless(spec, v)
  {
    hide Ntoa;
    hide Standard;
    hide StandardAlt;
    hide Numeral;
    hide Sign;
    hide AltDigits;
    hide AltPrefix;
    var value := Cast(v, spec.size, IsSigned(spec.conv));
    var fl := FlagsOf(spec);
    assert FlagsOf(spec.(fl := spec.fl.(precision := true))) == fl.(precision := true, zeropad := false);
    if fl.hash {
      StarAlternate(Abs(value), BaseOf(spec.conv), spec.width, fl);
    } else {
      StarPlain(Abs(value), value < 0, BaseOf(spec.conv), spec.width, fl);
    }
  }

  // ---- a precision of 0 in place of none ----

  lemma StarPlain(value: nat, negative: bool, base: nat, width: nat, fl: Flags)
    requires Radix(base) && value < TWO32 && !fl.hash && !fl.precision && (Signed(fl, negative) ==> base == 10)
    ensures Ntoa(value, negative, base, 0, width, fl.(precision := true, zeropad := false))
      == Standard(value, negative, base, 0, width, fl)
      <==> value != 0 && !(fl.zeropad && !fl.left && width > |Sign(fl, negative)| + |Numeral(value, base, fl.upper)|)
  {
    hide Ntoa;
    hide Standard;
    hide Layout;
    hide NonBlanks;
    var bare := fl.(precision := true, zeropad := false);
    var num, sign := Numeral(value, base, fl.upper), Sign(fl, negative);
    var shown := if value == 0 then [] else num;
    assert Shown(value, base, bare) == shown && Shown(value, base, fl) == num && Sign(bare, negative) == sign;
    ShownPlain(value, base, fl);
    ShownPlain(value, base, bare);
    if Signed(fl, negative) {
      DecimalFits(value, fl);
    }
    hide Numeral;
    hide Sign;
    NtoaLayout(value, negative, base, 0, width, bare);
    StandardLayout(value, negative, base, 0, width, fl);
    StarKept(|shown|, negative, width, fl);
    var m := Wanted(|num|, negative, 0, width, fl);
    if value == 0 || (fl.zeropad && !fl.left && width > |sign| + |num|) {
      LayoutBlanks(sign, |shown|, shown, width, bare);
      LayoutBlanks(sign, m, num, width, fl);
    } else {
      SameLayout(sign, num, width, fl);
    }
  }

  lemma DecimalFits(value: nat, fl: Flags)
    requires value < TWO32
    ensures |Shown(value, 10, fl)| < NTOA_SIZE
  {
    hide Numeral;
    hide Pow;
    NumeralFits(value, 10, fl.upper);
    NumeralNeeds(value, 10, fl.upper);
    TenPower();
  }

  lemma TenPower()
    ensures Pow(10, 31) >= TWO32
  {
    PowMonotone(2, 10, 30);
    PowersOfTwo();
    assert Pow(2, 32) == 2 * Pow(2, 31) && Pow(2, 31) == 2 * Pow(2, 30);
    assert Pow(10, 31) == 10 * Pow(10, 30);
  }

  /** With precision 0 and no 0 flag the digits and the sign are all that is kept. */
  lemma StarKept(n: nat, negative: bool, width: nat, fl: Flags)
    requires n <= NTOA_SIZE && (Signed(fl, negative) ==> n < NTOA_SIZE)
    ensures var bare := fl.(precision := true, zeropad := false);
      && Kept(n, negative, 0, width, bare) == n
      && KeptSign(n, negative, 0, width, bare) == Sign(fl, negative)
    ensures var m := Wanted(n, negative, 0, width, fl); var s := |Sign(fl, negative)|;
      m == if fl.zeropad && !fl.left && width > s + n then width - s else n
  {
  }

  lemma SameLayout(sign: seq<byte>, num: seq<byte>, width: nat, fl: Flags)
    requires !(fl.zeropad && !fl.left && width > |sign| + |num|)
    ensures Layout(sign, |num|, num, width, fl.(precision := true, zeropad := false)) == Layout(sign, |num|, num, width, fl)
  {
    LayoutCases(sign, |num|, num, width, fl);
    LayoutCases(sign, |num|, num, width, fl.(precision := true, zeropad := false));
    FillJoins(SPACE, width - |sign| - |num|, 0);
    hide Fill;
    hide Layout;
    assert [] + sign + (Fill(DIGIT0, 0) + num) == sign + (Fill(DIGIT0, 0) + num);
  }

  lemma StarAlternate(value: nat, base: nat, width: nat, fl: Flags)
    requires (base == 8 || base == 16) && value < TWO32 && fl.hash && !fl.plus && !fl.space && !fl.precision
    ensures Ntoa(value, false, base, 0, width, fl.(precision := true, zeropad := false))
      == StandardAlt(value, base, 0, width, fl)
      <==> value != 0 &&
           !(fl.zeropad && !fl.left && width > |AltPrefix(value, base, fl)| + |AltDigits(value, base, 0, fl)|)
  {
    if value == 0 {
      StarZero(base, width, fl);
    } else {
      StarPrefixed(value, base, width, fl);
    }
  }

  lemma StarZero(base: nat, width: nat, fl: Flags)
    requires (base == 8 || base == 16) && fl.hash && !fl.plus && !fl.space && !fl.precision
    ensures Ntoa(0, false, base, 0, width, fl.(precision := true, zeropad := false))
      != StandardAlt(0, base, 0, width, fl)
  {
    var plain := fl.(hash := false);
    assert Ntoa(0, false, base, 0, width, fl.(precision := true, zeropad := false))
        == Ntoa(0, false, base, 0, width, plain.(precision := true, zeropad := false));
    hide Ntoa;
    ZeroDigits(base, 0, fl);
    assert Digits(0, base, 0, fl) == Digits(0, base, 0, plain);
    SameStandard(base, 0, width, fl);
    StarPlain(0, false, base, width, plain);
  }

  lemma StarPrefixed(value: nat, base: nat, width: nat, fl: Flags)
    requires (base == 8 || base == 16) && 0 < value < TWO32 && fl.hash && !fl.plus && !fl.space && !fl.precision
    ensures Ntoa(value, false, base, 0, width, fl.(precision := true, zeropad := false))
      == StandardAlt(value, base, 0, width, fl)
      <==> !(fl.zeropad && !fl.left && width > |AltPrefix(value, base, fl)| + |AltDigits(value, base, 0, fl)|)
  {
    hide Ntoa;
    hide StandardAlt;
    hide NonBlanks;
    hide AltDigits;
    hide Justified;
    var bare := fl.(precision := true, zeropad := false);
    var num := Shown(value, base, fl);
    assert Shown(value, base, bare) == num;
    ShownFits(value, base, fl);
    ShownPlain(value, base, fl);
    hide Shown;
    AltDigitsRead(value, base, 0, fl);
    CodeText(value, base, 0, width, bare);
    StandardText(value, base, 0, width, fl);
    StarBody(num, base, width, fl);
    var zeros := ZerosWanted(|num|, base, 0, width, fl);
    var t := Prefix(|num|, fl, base) + num;
    var u := AltPrefix(value, base, fl) + Fill(DIGIT0, zeros) + num;
    assert Prefix(|num|, bare, base) == Prefix(|num|, fl, base);
    StarTexts(value, num, base, width, fl);
    JustifiedBlanks(t, width, bare);
    JustifiedBlanks(u, width, fl);
    PlainTexts(0, zeros, num, 0, value, base, fl);
    assert (Fill(DIGIT0, 0) + num)[0..] == num;
    if !(fl.zeropad && !fl.left && width > |t|) {
      SameJustified(t, width, fl);
    }
  }

  lemma StarBody(num: seq<byte>, base: nat, width: nat, fl: Flags)
    requires |num| <= NTOA_SIZE
    ensures var bare := fl.(precision := true, zeropad := false);
      && Kept(|num|, false, 0, width, bare) == |num| && Taken(|num|, base, 0, width, bare) == 0
      && (Fill(DIGIT0, |num| - |num|) + num)[0..] == num
  {
  }

  /** Without zeros to fill the two texts are the same; otherwise one is longer. */
  lemma StarTexts(value: nat, num: seq<byte>, base: nat, width: nat, fl: Flags)
    requires (base == 8 || base == 16) && value != 0 && fl.hash && !fl.precision && 1 <= |num| <= 11
    ensures var zeros := ZerosWanted(|num|, base, 0, width, fl);
      var t := Prefix(|num|, fl, base) + num;
      var u := AltPrefix(value, base, fl) + Fill(DIGIT0, zeros) + num;
      && |t| == |AltPrefix(value, base, fl)| + (if base == 8 then |num| + 1 else |num|)
      && (if fl.zeropad && !fl.left && width > |t| then |u| == width else t == u)
  {
    FillJoins(DIGIT0, 0, 0);
    assert Fill(DIGIT0, 1) == [DIGIT0];
    FillLength(ZerosWanted(|num|, base, 0, width, fl));
  }

  lemma SameJustified(t: seq<byte>, width: nat, fl: Flags)
    requires !(fl.zeropad && !fl.left && width > |t|)
    ensures Justified(t, width, fl.(precision := true, zeropad := false)) == Justified(t, width, fl)
  {
    FillJoins(SPACE, width - |t|, 0);
  }

  // ---- strings ----

  /** A string directive prints what the standard asks for, unless a negative star for
      a precision clips the string to nothing: then exactly if blanks were due anyway. */
  lemma StringDirectiveExact(f: seq<byte>, args: seq<arg>)
    requires ReadSpec(f, args).Some?
    requires var (_, left, read) := ReadSpec(f, args).value;
      read.conv == 's' as int && left != [] && left[0].Str?
    ensures StandardSpec(f, args).Some?
    ensures var (_, left, read) := ReadSpec(f, args).value;
      var meant := StandardSpec(f, args).value.2;
      var s := left[0].s;
      && Convert(read, left).Some?
      && (Convert(read, left).value.0 == Blanked(Clipped(s, meant), meant.width, meant.fl.left)
          <==> !NegativeStar(f, args) || (|s| <= meant.width && forall i :: 0 <= i < |s| ==> s[i] == SPACE))
  {
    hide ReadSpec;
    hide StandardSpec;
    hide NegativeStar;
    ReadingsDiffer(f, args);
    var (_, left, read) := ReadSpec(f, args).value;
    if NegativeStar(f, args) {
      assert Clipped(left[0].s, read) == [];
      BlanksOnly(left[0].s, read.width, read.fl.left);
    }
  }

  lemma BlanksOnly(s: seq<byte>, width: nat, left: bool)
    ensures Blanked([], width, left) == Blanked(s, width, left)
      <==> |s| <= width && forall i :: 0 <= i < |s| ==> s[i] == SPACE
  {
    var a, b := Blanked([], width, left), Blanked(s, width, left);
    assert a == Fill(SPACE, width);
    if a == b {
      var from := if left then 0 else width - |s|;
      forall i | 0 <= i < |s|
        ensures s[i] == SPACE
      {
        assert b[from + i] == s[i];
      }
    }
  }

  // ---- concrete directives ----

  /** "%05.*d" of -1 and 7 prints four blanks and 7, where 00007 is meant. */
  lemma DroppedZeroFlag()
    ensures var f := [DIGIT0, '5' as int, DOT, STAR, 'd' as int];
      var args: seq<arg> := [Int(-1), Int(7)];
      && NegativeStar(f, args) && ReadSpec(f, args).Some? && StandardSpec(f, args).Some?
      && IntegerText(ReadSpec(f, args).value.2, 7) != Meant(StandardSpec(f, args).value.2, 7)
  {
    hide Convert;
    hide Ntoa;
    hide Standard;
    hide StandardAlt;
    var f := [DIGIT0, '5' as int, DOT, STAR, 'd' as int];
    var args: seq<arg> := [Int(-1), Int(7)];
    var spec := Spec(NoFlags.(zeropad := true), 5, 0, Usual, 'd' as int);
    assert f[1..] == ['5' as int, DOT, STAR, 'd' as int];
    assert f[1..][1..] == [DOT, STAR, 'd' as int] && f[1..][1..][1..] == [STAR, 'd' as int];
    assert f[1..][1..][2..] == ['d' as int] && ['d' as int][1..] == [];
    assert ReadFlags(f[1..], NoFlags.(zeropad := true)) == (f[1..], NoFlags.(zeropad := true));
    assert ReadNumber(f[1..][1..], 5) == (f[1..][1..], 5);
    assert ReadNumber(f[1..], 0) == (f[1..][1..], 5);
    assert args[1..] == [Int(7)];
    assert StandardSpec(f, args) == Some(([], args[1..], spec));
    assert NegativeStar(f, args);
    assert ReadSpec(f, args).Some?;
    ReadingsDiffer(f, args);
    hide ReadSpec;
    hide StandardSpec;
    assert Numeral(7, 10, false) == ['7' as int];
    StarExact(spec, 7);
  }
}
