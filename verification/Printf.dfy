/** The integer conversions of printf.c: how a number is laid out in a field, what
    ISO C asks for, and exactly when the two agree. */
module Printf {
  import opened Basics
  import opened Chars
  import opened Numerals

  const NTOA_SIZE := 32

  datatype Flags = Flags(zeropad: bool, left: bool, plus: bool, space: bool, hash: bool,
                         upper: bool, precision: bool)

  const DIGIT0: byte := 48
  const MINUS: byte := 45
  const PLUS: byte := 43

  function Cap(n: nat): nat {
    if n < NTOA_SIZE then n else NTOA_SIZE
  }

  function Fill(c: byte, n: int): (s: seq<byte>)
    ensures |s| == if n > 0 then n else 0
    ensures forall i :: 0 <= i < |s| ==> s[i] == c
  {
    seq(if n > 0 then n else 0, i => c)
  }

  // ---- as printf.c does it: the buffer holds the field reversed ----

  /** Appends zeros up to length n. */
  function Pad(b: seq<byte>, n: nat): (r: seq<byte>)
    ensures |r| == Max(|b|, n)
  {
    b + Fill(DIGIT0, n - |b|)
  }

  /** The digits, last one first; a zero with precision 0 has none. */
  function DigitBuffer(value: nat, base: nat, fl: Flags): seq<byte>
    requires Radix(base)
  {
    if fl.precision && value == 0 then [] else Reverse(Numeral(value, base, fl.upper))
  }

  function Signed(fl: Flags, negative: bool): bool {
    negative || fl.plus || fl.space
  }

  /** A zero-padded field gives one place to the sign. */
  function FieldWidth(fl: Flags, negative: bool, width: nat): nat {
    if !fl.left && width > 0 && fl.zeropad && Signed(fl, negative) then width - 1 else width
  }

  function Padded(b: seq<byte>, fl: Flags, prec: nat, width: nat): seq<byte> {
    if fl.left then b else Pad(Pad(b, Cap(prec)), if fl.zeropad then Cap(width) else 0)
  }

  /** Makes room for the base prefix in a field that is already full. */
  function Stripped(b: seq<byte>, fl: Flags, base: nat, prec: nat, width: nat): seq<byte> {
    if fl.hash && !fl.precision && |b| > 0 && (|b| == prec || |b| == width) then
      if |b| > 1 && base == 16 then b[..|b| - 2] else b[..|b| - 1]
    else b
  }

  function Append(b: seq<byte>, c: byte): seq<byte> {
    if |b| < NTOA_SIZE then b + [c] else b
  }

  function Prefixed(b: seq<byte>, fl: Flags, base: nat): seq<byte> {
    if !fl.hash then b
    else
      var letter := if base == 16 then Append(b, if fl.upper then 'X' as int else 'x' as int)
                    else if base == 2 then Append(b, 'b' as int) else b;
      Append(letter, DIGIT0)
  }

  function WithSign(b: seq<byte>, fl: Flags, negative: bool): seq<byte> {
    if negative then Append(b, MINUS)
    else if fl.plus then Append(b, PLUS)
    else if fl.space then Append(b, SPACE)
    else b
  }

  /** _out_rev */
  function OutRev(b: seq<byte>, fl: Flags, width: nat): seq<byte> {
    (if !fl.left && !fl.zeropad then Fill(SPACE, width - |b|) else []) + Reverse(b) +
    (if fl.left then Fill(SPACE, width - |b|) else [])
  }

  /** _ntoa_long and _ntoa_format */
  function Ntoa(value: nat, negative: bool, base: nat, prec: nat, width: nat, flags: Flags): seq<byte>
    requires Radix(base)
  {
    var fl := if value == 0 then flags.(hash := false) else flags;
    var w := FieldWidth(fl, negative, width);
    var digits := Padded(DigitBuffer(value, base, fl), fl, prec, w);
    OutRev(WithSign(Prefixed(Stripped(digits, fl, base, prec, w), fl, base), fl, negative), fl, w)
  }

  // ---- as ISO/IEC 9899:1999, section 7.19.6.1, asks, without the # flag ----

  function Digits(value: nat, base: nat, prec: nat, fl: Flags): seq<byte>
    requires Radix(base)
  {
    if fl.precision && value == 0 then Fill(DIGIT0, prec)
    else Fill(DIGIT0, prec - |Numeral(value, base, fl.upper)|) + Numeral(value, base, fl.upper)
  }

  function Sign(fl: Flags, negative: bool): seq<byte> {
    if negative then [MINUS] else if fl.plus then [PLUS] else if fl.space then [SPACE] else []
  }

  /** The sign and the precision's digits; zeros between them or spaces around them
      fill the field. */
  function Standard(value: nat, negative: bool, base: nat, prec: nat, width: nat, fl: Flags): seq<byte>
    requires Radix(base)
  {
    var sign := Sign(fl, negative);
    var digits := Digits(value, base, prec, fl);
    var room := width - |sign| - |digits|;
    if fl.left then sign + digits + Fill(SPACE, room)
    else if fl.zeropad then sign + Fill(DIGIT0, room) + digits
    else Fill(SPACE, room) + sign + digits
  }

  // ---- the two agree exactly when the field fits the library's buffer ----

  /** The number of digits and zeros the standard asks for. */
  function Wanted(n: nat, negative: bool, prec: nat, width: nat, fl: Flags): nat {
    if fl.left || !fl.zeropad then Max(n, prec)
    else Max(Max(n, prec), Max(width, |Sign(fl, negative)|) - |Sign(fl, negative)|)
  }

  /** The digits of the value, if any are due. */
  function Shown(value: nat, base: nat, fl: Flags): seq<byte>
    requires Radix(base)
  {
    if fl.precision && value == 0 then [] else Numeral(value, base, fl.upper)
  }

  /** A left-justified precision pads nothing, and at most 32 digits and zeros have
      room, 31 of them with a sign; but a blank for a sign is as good as padding. */
  predicate Fits(n: nat, negative: bool, prec: nat, width: nat, fl: Flags) {
    var m := Wanted(n, negative, prec, width, fl);
    && (fl.left ==> m == n)
    && m <= NTOA_SIZE
    && (m == NTOA_SIZE && Signed(fl, negative) ==>
        Sign(fl, negative) == [SPACE] && !fl.zeropad && !fl.left && width > NTOA_SIZE)
  }

  /** Without the # flag the library prints what the standard asks for exactly when
      the digits, the zeros and the sign fit its 32-byte buffer. */
  lemma NtoaStandard(value: nat, negative: bool, base: nat, prec: nat, width: nat, fl: Flags)
    requires Radix(base) && value < 0x1_0000_0000 && !fl.hash
    ensures Ntoa(value, negative, base, prec, width, fl) == Standard(value, negative, base, prec, width, fl)
      <==> Fits(|Shown(value, base, fl)|, negative, prec, width, fl)
  {
    hide Ntoa;
    hide Standard;
    hide Shown;
    hide Wanted;
    var num := Shown(value, base, fl);
    ShownPlain(value, base, fl);
    var m := Wanted(|num|, negative, prec, width, fl);
    var sign := Sign(fl, negative);
    NtoaLayout(value, negative, base, prec, width, fl);
    StandardLayout(value, negative, base, prec, width, fl);
    KeptIsCapped(|num|, negative, prec, width, fl);
    LayoutsDiffer(KeptSign(|num|, negative, prec, width, fl), Kept(|num|, negative, prec, width, fl),
                  sign, m, num, width, fl);
  }

  /** Blanks, sign, zeros, digits and blanks. */
  function Shape(before: int, sign: seq<byte>, zeros: int, num: seq<byte>, after: int): seq<byte> {
    Fill(SPACE, before) + sign + Fill(DIGIT0, zeros) + num + Fill(SPACE, after)
  }

  /** A field with m zeros and digits. */
  function Layout(sign: seq<byte>, m: nat, num: seq<byte>, width: nat, fl: Flags): seq<byte> {
    Shape(if !fl.left && !fl.zeropad then width - |sign| - m else 0, sign, m - |num|, num,
          if fl.left then width - |sign| - m else 0)
  }

  /** The zeros and digits that _ntoa_format keeps. */
  function Kept(n: nat, negative: bool, prec: nat, width: nat, fl: Flags): nat {
    if fl.left then n
    else Max(Max(n, Cap(prec)), if fl.zeropad then Cap(FieldWidth(fl, negative, width)) else 0)
  }

  function KeptSign(n: nat, negative: bool, prec: nat, width: nat, fl: Flags): seq<byte> {
    if Kept(n, negative, prec, width, fl) < NTOA_SIZE then Sign(fl, negative) else []
  }

  lemma KeptIsCapped(n: nat, negative: bool, prec: nat, width: nat, fl: Flags)
    requires n <= NTOA_SIZE
    ensures Wanted(n, negative, prec, width, fl) >= n
    ensures Kept(n, negative, prec, width, fl) ==
      if fl.left then n else Cap(Wanted(n, negative, prec, width, fl))
  {
  }

  lemma ShownPlain(value: nat, base: nat, fl: Flags)
    requires Radix(base) && value < 0x1_0000_0000
    ensures |Shown(value, base, fl)| <= NTOA_SIZE
    ensures NonBlanks(Shown(value, base, fl)) == |Shown(value, base, fl)|
  {
    NumeralFits(value, base, fl.upper);
    NumeralPlain(value, base, fl.upper);
  }

  lemma ReversePad(b: seq<byte>, n: nat)
    ensures Reverse(Pad(b, n)) == Fill(DIGIT0, n - |b|) + Reverse(b)
  {
  }

  lemma ReverseTwice(s: seq<byte>)
    ensures Reverse(Reverse(s)) == s
  {
  }

  /** The padded digits, read from the left. */
  lemma PaddedReads(value: nat, negative: bool, base: nat, prec: nat, width: nat, fl: Flags)
    requires Radix(base)
    ensures var num := Shown(value, base, fl);
      var b := Padded(DigitBuffer(value, base, fl), fl, prec, FieldWidth(fl, negative, width));
      && |b| == Kept(|num|, negative, prec, width, fl)
      && Reverse(b) == Fill(DIGIT0, |b| - |num|) + num
  {
    hide Numeral;
    var num := Shown(value, base, fl);
    var d := DigitBuffer(value, base, fl);
    ReverseTwice(num);
    assert d == Reverse(num);
    var w := if fl.zeropad then Cap(FieldWidth(fl, negative, width)) else 0;
    ReversePad(d, Cap(prec));
    ReversePad(Pad(d, Cap(prec)), w);
  }

  lemma NtoaLayout(value: nat, negative: bool, base: nat, prec: nat, width: nat, fl: Flags)
    requires Radix(base) && !fl.hash && |Shown(value, base, fl)| <= NTOA_SIZE
    ensures var num := Shown(value, base, fl);
      Ntoa(value, negative, base, prec, width, fl)
      == Layout(KeptSign(|num|, negative, prec, width, fl), Kept(|num|, negative, prec, width, fl), num, width, fl)
  {
    hide Shown;
    hide DigitBuffer;
    hide Padded;
    hide Reverse;
    hide WithSign;
    hide OutRev;
    hide Layout;
    var num := Shown(value, base, fl);
    PaddedReads(value, negative, base, prec, width, fl);
    var w := FieldWidth(fl, negative, width);
    var b := Padded(DigitBuffer(value, base, fl), fl, prec, w);
    assert fl.(hash := false) == fl;
    assert Ntoa(value, negative, base, prec, width, fl) == OutRev(WithSign(b, fl, negative), fl, w);
    SignReads(b, fl, negative);
    OutRevLayout(WithSign(b, fl, negative), KeptSign(|num|, negative, prec, width, fl), num, negative, width, fl);
  }

  lemma OutRevLayout(b: seq<byte>, sign: seq<byte>, num: seq<byte>, negative: bool, width: nat, fl: Flags)
    requires |sign| + |num| <= |b|
    requires Reverse(b) == sign + (Fill(DIGIT0, |b| - |sign| - |num|) + num)
    ensures OutRev(b, fl, FieldWidth(fl, negative, width)) == Layout(sign, |b| - |sign|, num, width, fl)
  {
    hide Reverse;
    hide Fill;
    var before := Fill(SPACE, if !fl.left && !fl.zeropad then width - |b| else 0);
    var after := Fill(SPACE, if fl.left then width - |b| else 0);
    var zeros := Fill(DIGIT0, |b| - |sign| - |num|);
    assert OutRev(b, fl, FieldWidth(fl, negative, width)) == before + Reverse(b) + after;
    assert before + (sign + (zeros + num)) + after == before + sign + zeros + num + after;
  }

  lemma SignReads(b: seq<byte>, fl: Flags, negative: bool)
    ensures Reverse(WithSign(b, fl, negative)) ==
      (if |b| < NTOA_SIZE then Sign(fl, negative) else []) + Reverse(b)
  {
    ReverseSnoc(b, MINUS);
    ReverseSnoc(b, PLUS);
    ReverseSnoc(b, SPACE);
  }

  lemma StandardLayout(value: nat, negative: bool, base: nat, prec: nat, width: nat, fl: Flags)
    requires Radix(base)
    ensures var num := Shown(value, base, fl);
      Standard(value, negative, base, prec, width, fl)
      == Layout(Sign(fl, negative), Wanted(|num|, negative, prec, width, fl), num, width, fl)
  {
    hide Shown;
    hide Sign;
    hide Fill;
    hide Layout;
    hide Digits;
    var num := Shown(value, base, fl);
    var sign := Sign(fl, negative);
    var m := Wanted(|num|, negative, prec, width, fl);
    DigitsRead(value, base, prec, fl);
    LayoutCases(sign, m, num, width, fl);
    if !fl.left && fl.zeropad {
      ZerosJoin(sign, width - |sign| - Max(|num|, prec), prec - |num|, num);
    } else {
      FillClamped(DIGIT0, prec - |num|, m - |num|);
    }
  }

  lemma ZerosJoin(sign: seq<byte>, a: int, b: int, num: seq<byte>)
    ensures sign + Fill(DIGIT0, a) + (Fill(DIGIT0, b) + num) == sign + (Fill(DIGIT0, Max(a, 0) + Max(b, 0)) + num)
  {
    FillJoins(DIGIT0, a, b);
    hide Fill;
    assert sign + Fill(DIGIT0, a) + (Fill(DIGIT0, b) + num) == sign + ((Fill(DIGIT0, a) + Fill(DIGIT0, b)) + num);
  }

  lemma FillClamped(c: byte, a: int, b: int)
    requires Max(a, 0) == Max(b, 0)
    ensures Fill(c, a) == Fill(c, b)
  {
  }

  lemma DigitsRead(value: nat, base: nat, prec: nat, fl: Flags)
    requires Radix(base)
    ensures var num := Shown(value, base, fl);
      && Digits(value, base, prec, fl) == Fill(DIGIT0, prec - |num|) + num
      && |Digits(value, base, prec, fl)| == Max(|num|, prec)
  {
    hide Numeral;
  }

  lemma LayoutCases(sign: seq<byte>, m: nat, num: seq<byte>, width: nat, fl: Flags)
    ensures var digits := Fill(DIGIT0, m - |num|) + num; var room := width - |sign| - m;
      Layout(sign, m, num, width, fl) ==
        if fl.left then sign + digits + Fill(SPACE, room)
        else if fl.zeropad then sign + digits
        else Fill(SPACE, room) + sign + digits
  {
    FillJoins(SPACE, 0, 0);
    hide Fill;
    var zeros := Fill(DIGIT0, m - |num|);
    var room := Fill(SPACE, width - |sign| - m);
    assert [] + sign + zeros + num + room == sign + (zeros + num) + room;
    assert [] + sign + zeros + num + [] == sign + (zeros + num);
    assert room + sign + zeros + num + [] == room + sign + (zeros + num);
  }

  lemma FillJoins(c: byte, a: int, b: int)
    ensures Fill(c, a) + Fill(c, b) == Fill(c, Max(a, 0) + Max(b, 0))
    ensures a <= 0 ==> Fill(c, a) == []
    ensures b <= 0 ==> Fill(c, b) == []
  {
  }

  // ---- telling two fields apart by their first character, length and blanks ----

  function NonBlanks(s: seq<byte>): nat {
    if s == [] then 0 else (if s[0] == SPACE then 0 else 1) + NonBlanks(s[1..])
  }

  lemma {:induction false} NonBlanksJoin(s: seq<byte>, t: seq<byte>)
    ensures NonBlanks(s + t) == NonBlanks(s) + NonBlanks(t)
    decreases |s|
  {
    if s == [] {
      assert s + t == t;
    } else {
      NonBlanksJoin(s[1..], t);
      assert (s + t)[1..] == s[1..] + t;
    }
  }

  lemma {:induction false} NonBlanksFill(c: byte, n: int)
    ensures NonBlanks(Fill(c, n)) == if c == SPACE || n < 0 then 0 else n
  {
    if n > 0 {
      NonBlanksFill(c, n - 1);
      assert Fill(c, n)[1..] == Fill(c, n - 1);
    }
  }

  lemma {:induction false} NumeralPlain(v: nat, base: nat, upper: bool)
    requires Radix(base)
    ensures NonBlanks(Numeral(v, base, upper)) == |Numeral(v, base, upper)|
    decreases v
  {
    hide Quot;
    hide Rem;
    if v >= base {
      NumeralPlain(Quot(v, base), base, upper);
      NonBlanksJoin(Numeral(Quot(v, base), base, upper), [DigitChar(Rem(v, base), upper)]);
    }
  }

  lemma ShapeBlanks(before: int, sign: seq<byte>, zeros: nat, num: seq<byte>, after: int)
    ensures NonBlanks(Shape(before, sign, zeros, num, after)) == NonBlanks(sign) + zeros + NonBlanks(num)
  {
    hide Fill;
    var a, z := Fill(SPACE, before), Fill(DIGIT0, zeros);
    NonBlanksFill(SPACE, before);
    NonBlanksFill(DIGIT0, zeros);
    NonBlanksFill(SPACE, after);
    NonBlanksJoin(a + sign + z + num, Fill(SPACE, after));
    NonBlanksJoin(a + sign + z, num);
    NonBlanksJoin(a + sign, z);
    NonBlanksJoin(a, sign);
  }

  /** Two fields of the same digits and width, one perhaps with fewer zeros or
      without its sign. */
  lemma LayoutsDiffer(sign': seq<byte>, m': nat, sign: seq<byte>, m: nat, num: seq<byte>, width: nat, fl: Flags)
    requires |num| <= m' <= m && |sign| <= 1 && (sign' == sign || (sign' == [] && m' == NTOA_SIZE))
    requires NonBlanks(num) == |num|
    ensures Layout(sign', m', num, width, fl) == Layout(sign, m, num, width, fl)
      <==> m' == m && (sign' == sign || (sign == [SPACE] && !fl.zeropad && !fl.left && width > m))
  {
    var l', l := Layout(sign', m', num, width, fl), Layout(sign, m, num, width, fl);
    if m' != m || (sign' != sign && sign != [SPACE]) {
      hide Layout;
      hide NonBlanks;
      assert NonBlanks(l') != NonBlanks(l) by {
        LayoutBlanks(sign', m', num, width, fl);
        LayoutBlanks(sign, m, num, width, fl);
        SignBlanks(sign);
        SignBlanks(sign');
      }
    } else if sign' != sign {
      BlankSign(m, num, width, fl);
    }
  }

  lemma SignBlanks(sign: seq<byte>)
    requires |sign| <= 1
    ensures NonBlanks(sign) == if sign == [] || sign == [SPACE] then 0 else 1
  {
  }

  lemma LayoutBlanks(sign: seq<byte>, m: nat, num: seq<byte>, width: nat, fl: Flags)
    requires |num| <= m && NonBlanks(num) == |num|
    ensures NonBlanks(Layout(sign, m, num, width, fl)) == NonBlanks(sign) + m
  {
    hide Shape;
    hide NonBlanks;
    ShapeBlanks(if !fl.left && !fl.zeropad then width - |sign| - m else 0, sign, m - |num|, num,
                if fl.left then width - |sign| - m else 0);
  }

  lemma {:induction false} Plain(s: seq<byte>)
    ensures NonBlanks(s) <= |s|
    ensures NonBlanks(s) == |s| > 0 ==> s[0] != SPACE
  {
    if s != [] {
      Plain(s[1..]);
    }
  }

  /** A blank for a sign can be told from no sign unless blanks fill the field. */
  lemma BlankSign(m: nat, num: seq<byte>, width: nat, fl: Flags)
    requires |num| <= m && NonBlanks(num) == |num| && m == NTOA_SIZE
    ensures Layout([], m, num, width, fl) == Layout([SPACE], m, num, width, fl)
      <==> !fl.zeropad && !fl.left && width > m
  {
    hide NonBlanks;
    var body := Fill(DIGIT0, m - |num|) + num;
    Plain(num);
    assert body[0] != SPACE && |body| == m;
    BlankLayouts(m, num, width, fl);
    hide Layout;
    hide Fill;
    var l', l := Layout([], m, num, width, fl), Layout([SPACE], m, num, width, fl);
    if fl.left {
      assert l[0] == SPACE && l'[0] == body[0];
    } else if fl.zeropad || width <= m {
      assert |l'| == m && |l| == m + 1;
    } else {
      FillJoins(SPACE, width - 1 - m, 1);
      assert Fill(SPACE, 1) == [SPACE];
    }
  }

  lemma BlankLayouts(m: nat, num: seq<byte>, width: nat, fl: Flags)
    requires |num| <= m
    ensures var body := Fill(DIGIT0, m - |num|) + num;
      var l', l := Layout([], m, num, width, fl), Layout([SPACE], m, num, width, fl);
      && (fl.left ==> l' == body + Fill(SPACE, width - m) && l == [SPACE] + body + Fill(SPACE, width - 1 - m))
      && (!fl.left && fl.zeropad ==> l' == body && l == [SPACE] + body)
      && (!fl.left && !fl.zeropad ==>
            l' == Fill(SPACE, width - m) + body && l == Fill(SPACE, width - 1 - m) + [SPACE] + body)
  {
    assert Fill(SPACE, 0) == [];
  }

  // ---- with the # flag: which values survive ----

  /** The digits that end up in the field, read from the left. */
  function Body(value: nat, negative: bool, base: nat, prec: nat, width: nat, fl: Flags): seq<byte>
    requires Radix(base)
  {
    var w := FieldWidth(fl, negative, width);
    Reverse(Stripped(Padded(DigitBuffer(value, base, fl), fl, prec, w), fl, base, prec, w))
  }

  /** As much of the base prefix as the buffer has room for. */
  function Prefix(n: nat, fl: Flags, base: nat): seq<byte> {
    if !fl.hash then []
    else
      (if n + 1 < NTOA_SIZE || (n < NTOA_SIZE && base != 16 && base != 2) then [DIGIT0] else []) +
      (if n < NTOA_SIZE && base == 16 then [if fl.upper then 'X' as int else 'x' as int]
       else if n < NTOA_SIZE && base == 2 then ['b' as int] else [])
  }

  /** Blanks fill the field before the text or after it; with zeros there are none. */
  function Justified(text: seq<byte>, width: nat, fl: Flags): seq<byte> {
    Fill(SPACE, if !fl.left && !fl.zeropad then width - |text| else 0) + text +
    Fill(SPACE, if fl.left then width - |text| else 0)
  }

  /** A field is blanks, sign, prefix, digits and blanks. */
  lemma NtoaReads(value: nat, negative: bool, base: nat, prec: nat, width: nat, fl: Flags)
    requires Radix(base) && (value == 0 ==> !fl.hash)
    ensures var body := Body(value, negative, base, prec, width, fl);
      var prefix := Prefix(|body|, fl, base);
      var sign := if |body| + |prefix| < NTOA_SIZE then Sign(fl, negative) else [];
      Ntoa(value, negative, base, prec, width, fl) == Justified(sign + prefix + body, width, fl)
  {
    hide DigitBuffer;
    hide Padded;
    hide Stripped;
    hide Prefixed;
    hide Prefix;
    hide WithSign;
    hide Sign;
    hide Reverse;
    hide OutRev;
    hide Justified;
    var w := FieldWidth(fl, negative, width);
    var b := Stripped(Padded(DigitBuffer(value, base, fl), fl, prec, w), fl, base, prec, w);
    var c := WithSign(Prefixed(b, fl, base), fl, negative);
    PrefixReads(b, fl, base);
    SignReads(Prefixed(b, fl, base), fl, negative);
    JustifiedReads(c, negative, width, fl);
    var sign := if |b| + |Prefix(|b|, fl, base)| < NTOA_SIZE then Sign(fl, negative) else [];
    assert Reverse(c) == sign + Prefix(|b|, fl, base) + Reverse(b);
  }

  lemma JustifiedReads(c: seq<byte>, negative: bool, width: nat, fl: Flags)
    ensures OutRev(c, fl, FieldWidth(fl, negative, width)) == Justified(Reverse(c), width, fl)
  {
    assert Fill(SPACE, 0) == [];
  }

  lemma PrefixReads(b: seq<byte>, fl: Flags, base: nat)
    ensures Reverse(Prefixed(b, fl, base)) == Prefix(|b|, fl, base) + Reverse(b)
  {
    var letter: byte := if base == 2 then 'b' as int else if fl.upper then 'X' as int else 'x' as int;
    ReverseSnoc(b, letter);
    ReverseSnoc(b, DIGIT0);
    ReverseSnoc(b + [letter], DIGIT0);
  }

  /** The field is just as wide as its digits, and the room the prefix needs is
      taken from them. */
  predicate Loses(n: nat, value: nat, base: nat, width: nat, fl: Flags) {
    && fl.hash && value != 0 && !fl.precision
    && (n == width || (n + 1 == width && base == 16 && fl.zeropad && !fl.left))
  }

  /** The digits printed evaluate back to the value exactly when no prefix takes
      the place of a digit; such a prefix always makes the number smaller. */
  lemma NumeralSurvives(value: nat, negative: bool, base: nat, prec: nat, width: nat, fl: Flags)
    requires base in {2, 8, 10, 16} && value < 0x1_0000_0000
    requires (fl.hash ==> !Signed(fl, negative)) && (!fl.precision ==> prec == 0)
    requires value == 0 ==> !fl.hash
    ensures var body := Body(value, negative, base, prec, width, fl);
      && Eval(body, base) <= value
      && (Eval(body, base) == value <==> !Loses(|Shown(value, base, fl)|, value, base, width, fl))
  {
    hide DigitBuffer;
    hide Padded;
    hide Shown;
    hide Eval;
    hide Fill;
    var num := Shown(value, base, fl);
    ShownPlain(value, base, fl);
    ShownEvals(value, base, fl);
    PaddedReads(value, negative, base, prec, width, fl);
    var w := FieldWidth(fl, negative, width);
    var b := Padded(DigitBuffer(value, base, fl), fl, prec, w);
    var k := |b| - |Stripped(b, fl, base, prec, w)|;
    ReverseFront(b, k);
    HexFits(value, fl);
    StripCount(value, negative, base, prec, width, fl);
    EvalDrop(|b| - |num|, num, k, base);
  }

  lemma ShownEvals(value: nat, base: nat, fl: Flags)
    requires Radix(base)
    ensures Eval(Shown(value, base, fl), base) == value
    ensures value != 0 ==> |Shown(value, base, fl)| > 0 && DigitOf(Shown(value, base, fl)[0]) != 0
  {
    EvalNumeral(value, base, fl.upper);
    if value != 0 {
      NumeralLeads(value, base, fl.upper);
    }
  }

  lemma HexFits(value: nat, fl: Flags)
    requires value < 0x1_0000_0000
    ensures |Shown(value, 16, fl)| < NTOA_SIZE
  {
    hide Numeral;
    hide Pow;
    HexPower();
    NumeralFits(value, 16, fl.upper);
    NumeralNeeds(value, 16, fl.upper);
  }

  lemma HexPower()
    ensures Pow(16, 31) >= 0x1_0000_0000
  {
    PowMonotone(2, 16, 30);
    PowersOfTwo();
    assert Pow(2, 32) == 2 * Pow(2, 31) && Pow(2, 31) == 2 * Pow(2, 30);
    assert Pow(16, 31) == 16 * Pow(16, 30);
  }

  lemma ReverseFront(b: seq<byte>, k: nat)
    requires k <= |b|
    ensures Reverse(b[..|b| - k]) == Reverse(b)[k..]
  {
  }

  /** More is stripped than the padding zeros exactly when a digit is lost. */
  lemma StripCount(value: nat, negative: bool, base: nat, prec: nat, width: nat, fl: Flags)
    requires base in {2, 8, 10, 16} && |Shown(value, base, fl)| <= NTOA_SIZE
    requires base == 16 ==> |Shown(value, base, fl)| < NTOA_SIZE
    requires (fl.hash ==> !Signed(fl, negative)) && (!fl.precision ==> prec == 0)
    requires value == 0 ==> !fl.hash
    requires value != 0 ==> |Shown(value, base, fl)| > 0
    ensures var n := |Shown(value, base, fl)|;
      var w := FieldWidth(fl, negative, width);
      var b := Padded(DigitBuffer(value, base, fl), fl, prec, w);
      var k := |b| - |Stripped(b, fl, base, prec, w)|;
      && 0 <= k <= |b| && Stripped(b, fl, base, prec, w) == b[..|b| - k] && |b| >= n
      && (k > |b| - n <==> Loses(n, value, base, width, fl))
      && (k > |b| - n ==> value != 0)
  {
    hide DigitBuffer;
    hide Shown;
    hide Padded;
    hide Fill;
    PaddedReads(value, negative, base, prec, width, fl);
  }

  lemma EvalCons(c: byte, s: seq<byte>, base: nat)
    ensures Eval([c] + s, base) == DigitOf(c) * Pow(base, |s|) + Eval(s, base)
    decreases |s|
  {
    if s == [] {
      assert [c] + s == [] + [c];
      EvalSnoc([], c, base);
    } else {
      var t, d := s[..|s| - 1], s[|s| - 1];
      EvalCons(c, t, base);
      assert ([c] + t) + [d] == [c] + s && t + [d] == s;
      EvalSnoc([c] + t, d, base);
      EvalSnoc(t, d, base);
      MulShift(DigitOf(c), Pow(base, |t|), Eval(t, base), base);
    }
  }

  lemma MulShift(d: nat, p: nat, e: nat, base: nat)
    ensures (d * p + e) * base == d * (base * p) + e * base
  {
  }

  /** Dropping k characters in front of a numeral padded with z zeros. */
  lemma EvalDrop(z: nat, num: seq<byte>, k: nat, base: nat)
    requires k <= z + |num| && k <= z + 2 && base >= 2
    requires k > z ==> DigitOf(num[0]) != 0
    ensures var rest := (Fill(DIGIT0, z) + num)[k..];
      && Eval(rest, base) <= Eval(num, base)
      && (Eval(rest, base) == Eval(num, base) <==> k <= z)
  {
    var all := Fill(DIGIT0, z) + num;
    if k <= z {
      assert all[k..] == Fill(DIGIT0, z - k) + num;
      EvalZeros(z - k, num, base);
    } else {
      assert all[k..] == num[k - z..];
      DropFirst(num, base);
      if k == z + 2 {
        DropFirst(num[1..], base);
        assert num[1..][1..] == num[2..];
      }
    }
  }

  lemma {:induction false} EvalZeros(z: nat, s: seq<byte>, base: nat)
    ensures Eval(Fill(DIGIT0, z) + s, base) == Eval(s, base)
  {
    if z == 0 {
      assert Fill(DIGIT0, 0) + s == s;
    } else {
      EvalZeros(z - 1, s, base);
      assert Fill(DIGIT0, z) + s == [DIGIT0] + (Fill(DIGIT0, z - 1) + s);
      EvalCons(DIGIT0, Fill(DIGIT0, z - 1) + s, base);
    }
  }

  lemma DropFirst(s: seq<byte>, base: nat)
    requires s != [] && base >= 2
    ensures Eval(s[1..], base) <= Eval(s, base)
    ensures DigitOf(s[0]) != 0 ==> Eval(s[1..], base) < Eval(s, base)
  {
    assert s == [s[0]] + s[1..];
    EvalCons(s[0], s[1..], base);
    PowMonotone(1, base, |s| - 1);
    var d, p := DigitOf(s[0]), Pow(base, |s| - 1);
    if d != 0 {
      MulMonotone(p, 1, d);
    }
  }

  /** printf("%#4x", 0xABCD) prints 0xCD. */
  lemma PrefixEatsDigits()
    ensures var fl := Flags(false, false, false, false, true, false, false);
      && Ntoa(0xABCD, false, 16, 0, 4, fl) == [DIGIT0, 'x' as int, 'c' as int, 'd' as int]
      && Eval(Body(0xABCD, false, 16, 0, 4, fl), 16) == 0xCD
  {
    var fl := Flags(false, false, false, false, true, false, false);
    var b := DigitBuffer(0xABCD, 16, fl);
    assert Numeral(0xA, 16, false) == ['a' as int];
    assert Numeral(0xAB, 16, false) == ['a' as int, 'b' as int];
    assert Numeral(0xABC, 16, false) == ['a' as int, 'b' as int, 'c' as int];
    assert Numeral(0xABCD, 16, false) == ['a' as int, 'b' as int, 'c' as int, 'd' as int];
    assert b == ['d' as int, 'c' as int, 'b' as int, 'a' as int];
    assert Padded(b, fl, 0, 4) == b;
    assert Stripped(b, fl, 16, 0, 4) == ['d' as int, 'c' as int];
    assert Prefixed(b[..2], fl, 16) == ['d' as int, 'c' as int, 'x' as int, DIGIT0];
    var body := Body(0xABCD, false, 16, 0, 4, fl);
    assert body == ['c' as int, 'd' as int];
    assert body[..1][..0] == [] && body[..1] == ['c' as int];
    assert Eval(body[..1], 16) == 12;
  }

  // ---- what does not fit, on concrete fields ----

  /** "%-5.3d" of 7 lacks its two zeros, "%.33d" of 7 one of its 32, and "%+.32d" of 7
      its sign. */
  lemma DroppedZerosAndSign()
    ensures var fl := Flags(false, true, false, false, false, false, true);
      Ntoa(7, false, 10, 3, 5, fl) != Standard(7, false, 10, 3, 5, fl)
    ensures var fl := Flags(false, false, false, false, false, false, true);
      Ntoa(7, false, 10, 33, 0, fl) != Standard(7, false, 10, 33, 0, fl)
    ensures var fl := Flags(false, false, true, false, false, false, true);
      Ntoa(7, false, 10, 32, 0, fl) != Standard(7, false, 10, 32, 0, fl)
  {
    hide Ntoa;
    hide Standard;
    assert Numeral(7, 10, false) == ['7' as int];
    NtoaStandard(7, false, 10, 3, 5, Flags(false, true, false, false, false, false, true));
    NtoaStandard(7, false, 10, 33, 0, Flags(false, false, false, false, false, false, true));
    NtoaStandard(7, false, 10, 32, 0, Flags(false, false, true, false, false, false, true));
  }
}
