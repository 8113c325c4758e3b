/** printf's alternate form, the # flag of the x, X and o conversions: what ISO C asks
    for, and exactly when the library prints it. */
module Alternate {
  import opened Basics
  import opened Chars
  import opened Numerals
  import opened Printf
  import F = Format

  // ---- as section 7.19.6.1 asks ----

  /** An octal number begins with a zero, which the precision may already give. */
  function AltDigits(value: nat, base: nat, prec: nat, fl: Flags): seq<byte>
    requires Radix(base)
  {
    var digits := Digits(value, base, prec, fl);
    if base == 8 && (digits == [] || digits[0] != DIGIT0) then [DIGIT0] + digits else digits
  }

  /** A hexadecimal number other than 0 begins with 0x or 0X. */
  function AltPrefix(value: nat, base: nat, fl: Flags): seq<byte> {
    if base == 16 && value != 0 then [DIGIT0, HexLetter(fl)] else []
  }

  function HexLetter(fl: Flags): byte {
    if fl.upper then 'X' as int else 'x' as int
  }

  function StandardAlt(value: nat, base: nat, prec: nat, width: nat, fl: Flags): seq<byte>
    requires Radix(base)
  {
    Arranged(AltPrefix(value, base, fl), AltDigits(value, base, prec, fl), width, fl)
  }

  /** Zeros between prefix and digits or blanks around them fill the field. */
  function Arranged(prefix: seq<byte>, digits: seq<byte>, width: nat, fl: Flags): seq<byte> {
    var room := width - |prefix| - |digits|;
    if fl.left then prefix + digits + Fill(SPACE, room)
    else if fl.zeropad then prefix + Fill(DIGIT0, room) + digits
    else Fill(SPACE, room) + prefix + digits
  }

  // ---- exactly when the library agrees ----

  /** What the directives x, X and o pass on with #. */
  predicate Passed(value: nat, prec: nat, base: nat, fl: Flags) {
    && (base == 8 || base == 16) && value < TWO32 && fl.hash && !fl.plus && !fl.space
    && (fl.precision ==> !fl.zeropad) && (!fl.precision ==> prec == 0)
  }

  /** n is the number of digits of a value other than 0. With a precision: prefix,
      zeros and digits fit the buffer, a left-justified number needs no zeros, and an
      octal one gets no second leading zero. Without: no digit is lost to the prefix,
      and zeros do not fill more than the buffer. */
  predicate FitsAlt(n: nat, value: nat, base: nat, prec: nat, width: nat, fl: Flags) {
    if !fl.precision then !Loses(n, value, base, width, fl) && !(fl.zeropad && !fl.left && width > NTOA_SIZE)
    else if base == 16 then if fl.left then prec <= n else Max(n, prec) <= NTOA_SIZE - 2
    else if fl.left then prec <= n + 1
    else prec <= n || prec == NTOA_SIZE
  }

  /** With # the library prints what the standard asks for exactly when: for 0, the
      field fits as without #, and it is not an octal one that precision 0 leaves
      without the zero; and for other values FitsAlt holds. */
  lemma AlternateExact(value: nat, base: nat, prec: nat, width: nat, fl: Flags)
    requires Passed(value, prec, base, fl)
    ensures var n := |Shown(value, base, fl)|;
      Ntoa(value, false, base, prec, width, fl) == StandardAlt(value, base, prec, width, fl)
      <==>
      if value == 0 then Fits(n, false, prec, width, fl) && !(base == 8 && fl.precision && prec == 0)
      else FitsAlt(n, value, base, prec, width, fl)
  {
    hide Ntoa;
    hide StandardAlt;
    hide Shown;
    hide Fits;
    hide FitsAlt;
    if value == 0 {
      ZeroExact(base, prec, width, fl);
    } else {
      NonZeroExact(value, base, prec, width, fl);
    }
  }

  // ---- telling two justified texts apart ----

  /** A text without blanks. */
  ghost predicate Solid(t: seq<byte>) {
    NonBlanks(t) == |t|
  }

  lemma PlainJoin(s: seq<byte>, t: seq<byte>)
    requires Solid(s) && Solid(t)
    ensures Solid(s + t)
  {
    NonBlanksJoin(s, t);
  }

  /** Blanks around two texts without any do not hide a difference. */
  lemma JustifiedExact(t: seq<byte>, u: seq<byte>, width: nat, fl: Flags)
    requires Solid(t) && Solid(u)
    ensures Justified(t, width, fl) == Justified(u, width, fl) <==> t == u
  {
    JustifiedBlanks(t, width, fl);
    JustifiedBlanks(u, width, fl);
    if Justified(t, width, fl) == Justified(u, width, fl) {
      assert |t| == |u|;
      var before := |Fill(SPACE, if !fl.left && !fl.zeropad then width - |t| else 0)|;
      hide Fill;
      hide NonBlanks;
      assert t == Justified(t, width, fl)[before..before + |t|];
      assert u == Justified(u, width, fl)[before..before + |u|];
    }
  }

  lemma JustifiedBlanks(t: seq<byte>, width: nat, fl: Flags)
    ensures NonBlanks(Justified(t, width, fl)) == NonBlanks(t)
  {
    hide Fill;
    hide NonBlanks;
    var a := if !fl.left && !fl.zeropad then width - |t| else 0;
    var b := if fl.left then width - |t| else 0;
    NonBlanksFill(SPACE, a);
    NonBlanksFill(SPACE, b);
    NonBlanksJoin(Fill(SPACE, a) + t, Fill(SPACE, b));
    NonBlanksJoin(Fill(SPACE, a), t);
  }

  // ---- zero ----

  lemma ZeroExact(base: nat, prec: nat, width: nat, fl: Flags)
    requires Passed(0, prec, base, fl)
    ensures Ntoa(0, false, base, prec, width, fl) == StandardAlt(0, base, prec, width, fl)
      <==> Fits(|Shown(0, base, fl)|, false, prec, width, fl) && !(base == 8 && fl.precision && prec == 0)
  {
    var plain := fl.(hash := false);
    assert Ntoa(0, false, base, prec, width, fl) == Ntoa(0, false, base, prec, width, plain);
    NtoaStandard(0, false, base, prec, width, plain);
    assert Shown(0, base, plain) == Shown(0, base, fl);
    assert Numeral(0, base, fl.upper) == [DIGIT0];
    assert Digits(0, base, prec, plain) == Digits(0, base, prec, fl);
    assert Fits(|Shown(0, base, fl)|, false, prec, width, plain) == Fits(|Shown(0, base, fl)|, false, prec, width, fl);
    hide Ntoa;
    hide Standard;
    hide StandardAlt;
    hide Digits;
    hide Fits;
    hide Shown;
    hide Numeral;
    if base == 8 && fl.precision && prec == 0 {
      NothingOrZero(width, fl);
    } else {
      ZeroDigits(base, prec, fl);
      SameStandard(base, prec, width, fl);
    }
  }

  lemma ZeroDigits(base: nat, prec: nat, fl: Flags)
    requires Passed(0, prec, base, fl) && !(base == 8 && fl.precision && prec == 0)
    ensures AltDigits(0, base, prec, fl) == Digits(0, base, prec, fl)
  {
    assert Numeral(0, base, fl.upper) == [DIGIT0];
  }

  /** %#.0o of 0 prints nothing, where a zero is due. */
  lemma NothingOrZero(width: nat, fl: Flags)
    requires fl.precision && !fl.zeropad && !fl.plus && !fl.space
    ensures Standard(0, false, 8, 0, width, fl.(hash := false)) != StandardAlt(0, 8, 0, width, fl)
  {
    var plain := fl.(hash := false);
    assert Digits(0, 8, 0, plain) == [] && AltDigits(0, 8, 0, fl) == [DIGIT0];
    assert Fill(SPACE, 0) == [];
    assert Standard(0, false, 8, 0, width, plain) == Justified([], width, fl);
    assert StandardAlt(0, 8, 0, width, fl) == Justified([DIGIT0], width, fl);
    assert NonBlanks([DIGIT0]) == 1;
    JustifiedExact([], [DIGIT0], width, fl);
  }

  lemma SameStandard(base: nat, prec: nat, width: nat, fl: Flags)
    requires Radix(base) && !fl.plus && !fl.space
    requires AltDigits(0, base, prec, fl) == Digits(0, base, prec, fl.(hash := false))
    ensures StandardAlt(0, base, prec, width, fl) == Standard(0, false, base, prec, width, fl.(hash := false))
  {
    hide AltDigits;
    hide Digits;
    hide Fill;
    var plain := fl.(hash := false);
    var digits := Digits(0, base, prec, plain);
    assert Sign(plain, false) == [] && AltPrefix(0, base, fl) == [];
    var room := width - |digits|;
    assert [] + digits == digits;
    assert [] + Fill(DIGIT0, room) == Fill(DIGIT0, room);
    assert Fill(SPACE, room) + [] == Fill(SPACE, room);
  }

  // ---- other values ----

  /** The zeros before the digits that the standard asks for. */
  function ZerosWanted(n: nat, base: nat, prec: nat, width: nat, fl: Flags): nat {
    var least := if base == 8 then Max(n + 1, prec) else Max(n, prec);
    var room := if fl.zeropad && !fl.left then Max(0, width - least - if base == 16 then 2 else 0) else 0;
    least - n + room
  }

  /** The digits _ntoa_format takes away for the prefix. */
  function Taken(length: nat, base: nat, prec: nat, width: nat, fl: Flags): nat {
    if fl.hash && !fl.precision && length > 0 && (length == prec || length == width) then
      if length > 1 && base == 16 then 2 else 1
    else 0
  }

  lemma NonZeroExact(value: nat, base: nat, prec: nat, width: nat, fl: Flags)
    requires Passed(value, prec, base, fl) && value != 0
    ensures Ntoa(value, false, base, prec, width, fl) == StandardAlt(value, base, prec, width, fl)
      <==> FitsAlt(|Shown(value, base, fl)|, value, base, prec, width, fl)
  {
    hide Shown;
    hide Fill;
    hide NonBlanks;
    hide FitsAlt;
    hide ZerosWanted;
    hide Kept;
    hide Taken;
    hide Ntoa;
    hide StandardAlt;
    hide Justified;
    hide Prefix;
    var num := Shown(value, base, fl);
    ShownPlain(value, base, fl);
    var length := Kept(|num|, false, prec, width, fl);
    var k := Taken(length, base, prec, width, fl);
    KeptBounds(|num|, base, prec, width, fl);
    var body := (Fill(DIGIT0, length - |num|) + num)[k..];
    var t := Prefix(|body|, fl, base) + body;
    var zeros := ZerosWanted(|num|, base, prec, width, fl);
    var u := AltPrefix(value, base, fl) + Fill(DIGIT0, zeros) + num;
    CodeText(value, base, prec, width, fl);
    StandardText(value, base, prec, width, fl);
    PlainTexts(length - |num|, zeros, num, k, value, base, fl);
    JustifiedExact(t, u, width, fl);
    ShownFits(value, base, fl);
    SameText(value, base, num, prec, width, fl);
  }

  lemma ShownFits(value: nat, base: nat, fl: Flags)
    requires value < TWO32 && value != 0 && (base == 8 || base == 16)
    ensures 1 <= |Shown(value, base, fl)| <= 11
    ensures DigitOf(Shown(value, base, fl)[0]) != 0
  {
    hide Pow;
    hide Numeral;
    NumeralNeeds(value, base, fl.upper);
    NumeralLeads(value, base, fl.upper);
    var n := |Numeral(value, base, fl.upper)|;
    if n > 11 {
      PowMonotone(8, base, n - 1);
      EightPowers(n - 1);
    }
  }

  lemma EightPowers(n: nat)
    requires n >= 11
    ensures Pow(8, n) >= TWO32
    decreases n
  {
    if n == 11 {
      assert Pow(8, 4) == 4096 && Pow(8, 8) == 0x100_0000;
      assert Pow(8, 11) == 512 * Pow(8, 8);
    } else {
      EightPowers(n - 1);
    }
  }

  lemma KeptBounds(n: nat, base: nat, prec: nat, width: nat, fl: Flags)
    requires n <= NTOA_SIZE
    ensures n <= Kept(n, false, prec, width, fl) <= NTOA_SIZE
    ensures Taken(Kept(n, false, prec, width, fl), base, prec, width, fl) <= Kept(n, false, prec, width, fl)
  {
  }

  /** What the library prints. */
  lemma CodeText(value: nat, base: nat, prec: nat, width: nat, fl: Flags)
    requires Passed(value, prec, base, fl) && value != 0
    ensures var num := Shown(value, base, fl);
      var length := Kept(|num|, false, prec, width, fl);
      var k := Taken(length, base, prec, width, fl);
      && |num| <= length && k <= length
      && var body := (Fill(DIGIT0, length - |num|) + num)[k..];
      Ntoa(value, false, base, prec, width, fl) == Justified(Prefix(|body|, fl, base) + body, width, fl)
  {
    hide Shown;
    hide Fill;
    hide Kept;
    hide DigitBuffer;
    hide Padded;
    hide Justified;
    hide Prefix;
    hide Ntoa;
    hide Reverse;
    var num := Shown(value, base, fl);
    ShownPlain(value, base, fl);
    KeptBounds(|num|, base, prec, width, fl);
    PaddedReads(value, false, base, prec, width, fl);
    var b := Padded(DigitBuffer(value, base, fl), fl, prec, width);
    var k := Taken(|b|, base, prec, width, fl);
    assert FieldWidth(fl, false, width) == width;
    assert Stripped(b, fl, base, prec, width) == b[..|b| - k];
    ReverseFront(b, k);
    NtoaReads(value, false, base, prec, width, fl);
    var body := Body(value, false, base, prec, width, fl);
    assert body == (Fill(DIGIT0, |b| - |num|) + num)[k..];
    assert Sign(fl, false) == [];
    assert [] + Prefix(|body|, fl, base) + body == Prefix(|body|, fl, base) + body;
  }

  /** What the standard asks for. */
  lemma StandardText(value: nat, base: nat, prec: nat, width: nat, fl: Flags)
    requires Passed(value, prec, base, fl) && value != 0
    ensures var num := Shown(value, base, fl);
      StandardAlt(value, base, prec, width, fl) ==
      Justified(AltPrefix(value, base, fl) + Fill(DIGIT0, ZerosWanted(|num|, base, prec, width, fl)) + num, width, fl)
  {
    hide Shown;
    hide Fill;
    hide Justified;
    hide Arranged;
    hide AltDigits;
    hide AltPrefix;
    hide ZerosWanted;
    var num := Shown(value, base, fl);
    var least := if base == 8 then Max(|num| + 1, prec) else Max(|num|, prec);
    AltDigitsRead(value, base, prec, fl);
    PrefixLength(value, base, fl);
    ZerosCases(|num|, base, prec, width, fl);
    ArrangedText(AltPrefix(value, base, fl), least - |num|, num, width, fl);
  }

  lemma ArrangedText(prefix: seq<byte>, lead: nat, num: seq<byte>, width: nat, fl: Flags)
    ensures var room := width - |prefix| - lead - |num|;
      var zeros := if fl.zeropad && !fl.left then Max(0, room) + lead else lead;
      Arranged(prefix, Fill(DIGIT0, lead) + num, width, fl) == Justified(prefix + Fill(DIGIT0, zeros) + num, width, fl)
  {
    hide Fill;
    hide Justified;
    var room := width - |prefix| - lead - |num|;
    FillLength(lead);
    FillLength(Max(0, room) + lead);
    Regroup(prefix, room, lead, num, Fill(SPACE, room));
    JustifiedCases(prefix + Fill(DIGIT0, lead) + num, width, fl);
    JustifiedCases(prefix + Fill(DIGIT0, Max(0, room) + lead) + num, width, fl);
  }

  lemma ZerosCases(n: nat, base: nat, prec: nat, width: nat, fl: Flags)
    ensures var least := if base == 8 then Max(n + 1, prec) else Max(n, prec);
      ZerosWanted(n, base, prec, width, fl) ==
        if fl.zeropad && !fl.left then Max(0, width - (if base == 16 then 2 else 0) - least) + (least - n)
        else least - n
  {
  }

  lemma PrefixLength(value: nat, base: nat, fl: Flags)
    requires value != 0 && (base == 8 || base == 16)
    ensures |AltPrefix(value, base, fl)| == if base == 16 then 2 else 0
  {
  }

  lemma FillLength(n: nat)
    ensures |Fill(DIGIT0, n)| == n
  {
  }

  lemma JustifiedCases(text: seq<byte>, width: nat, fl: Flags)
    ensures Justified(text, width, fl) ==
      if fl.left then text + Fill(SPACE, width - |text|)
      else if fl.zeropad then text
      else Fill(SPACE, width - |text|) + text
  {
    FillJoins(SPACE, 0, 0);
  }

  /** The zeros of the field and of the precision are one run. */
  lemma Regroup(prefix: seq<byte>, room: int, lead: nat, num: seq<byte>, blanks: seq<byte>)
    ensures prefix + Fill(DIGIT0, room) + (Fill(DIGIT0, lead) + num) == prefix + Fill(DIGIT0, Max(0, room) + lead) + num
    ensures prefix + (Fill(DIGIT0, lead) + num) + blanks == prefix + Fill(DIGIT0, lead) + num + blanks
    ensures blanks + prefix + (Fill(DIGIT0, lead) + num) == blanks + (prefix + Fill(DIGIT0, lead) + num)
  {
    FillJoins(DIGIT0, room, lead);
    FillClamped(DIGIT0, Max(0, room) + lead, Max(room, 0) + Max(lead, 0));
    hide Fill;
    assert prefix + Fill(DIGIT0, room) + (Fill(DIGIT0, lead) + num)
        == prefix + (Fill(DIGIT0, room) + Fill(DIGIT0, lead)) + num;
  }

  lemma AltDigitsRead(value: nat, base: nat, prec: nat, fl: Flags)
    requires Passed(value, prec, base, fl) && value != 0
    ensures var num := Shown(value, base, fl);
      var least := if base == 8 then Max(|num| + 1, prec) else Max(|num|, prec);
      && AltDigits(value, base, prec, fl) == Fill(DIGIT0, least - |num|) + num
      && |AltDigits(value, base, prec, fl)| == least
  {
    hide Shown;
    hide Digits;
    var num := Shown(value, base, fl);
    ShownFits(value, base, fl);
    DigitsRead(value, base, prec, fl);
    var digits := Digits(value, base, prec, fl);
    assert prec <= |num| ==> digits == num && num[0] != DIGIT0;
    assert prec > |num| ==> digits[0] == DIGIT0;
    assert Fill(DIGIT0, 1) == [DIGIT0];
  }

  lemma PlainTexts(padding: nat, zeros: nat, num: seq<byte>, k: nat, value: nat, base: nat, fl: Flags)
    requires Solid(num) && k <= padding + |num|
    ensures var body := (Fill(DIGIT0, padding) + num)[k..];
      Solid(Prefix(|body|, fl, base) + body)
    ensures Solid(AltPrefix(value, base, fl) + Fill(DIGIT0, zeros) + num)
  {
    var whole := Fill(DIGIT0, padding) + num;
    var body := whole[k..];
    NonBlanksFill(DIGIT0, padding);
    NonBlanksFill(DIGIT0, zeros);
    PlainJoin(Fill(DIGIT0, padding), num);
    PlainRest(whole, k);
    PlainPrefix(|body|, value, base, fl);
    hide Fill;
    hide NonBlanks;
    PlainJoin(Prefix(|body|, fl, base), body);
    PlainJoin(AltPrefix(value, base, fl), Fill(DIGIT0, zeros));
    PlainJoin(AltPrefix(value, base, fl) + Fill(DIGIT0, zeros), num);
  }

  lemma PlainRest(s: seq<byte>, k: nat)
    requires Solid(s) && k <= |s|
    ensures Solid(s[k..])
  {
    assert s == s[..k] + s[k..];
    NonBlanksJoin(s[..k], s[k..]);
    Plain(s[..k]);
    Plain(s[k..]);
  }

  lemma PlainPrefix(n: nat, value: nat, base: nat, fl: Flags)
    ensures Solid(Prefix(n, fl, base)) && Solid(AltPrefix(value, base, fl))
  {
    var p := Prefix(n, fl, base);
    assert |p| <= 2 && forall i :: 0 <= i < |p| ==> p[i] != SPACE;
    TwoPlain(p);
    TwoPlain(AltPrefix(value, base, fl));
  }

  lemma TwoPlain(p: seq<byte>)
    requires |p| <= 2 && forall i :: 0 <= i < |p| ==> p[i] != SPACE
    ensures Solid(p)
  {
    assert NonBlanks([]) == 0;
    if |p| == 2 {
      assert p[1..][1..] == [];
      assert NonBlanks(p[1..]) == 1;
    } else if |p| == 1 {
      assert p[1..] == [];
    } else {
      assert p == [];
    }
  }

  /** The two texts are the same exactly when the field fits; otherwise even their
      lengths differ. */
  lemma SameText(value: nat, base: nat, num: seq<byte>, prec: nat, width: nat, fl: Flags)
    requires Passed(value, prec, base, fl) && value != 0 && 1 <= |num| <= 11
    ensures var length := Kept(|num|, false, prec, width, fl);
      var k := Taken(length, base, prec, width, fl);
      && |num| <= length && k <= length
      && var body := (Fill(DIGIT0, length - |num|) + num)[k..];
      Prefix(|body|, fl, base) + body
      == AltPrefix(value, base, fl) + Fill(DIGIT0, ZerosWanted(|num|, base, prec, width, fl)) + num
      <==> FitsAlt(|num|, value, base, prec, width, fl)
  {
    var n := |num|;
    var length := Kept(n, false, prec, width, fl);
    var k := Taken(length, base, prec, width, fl);
    var zeros := ZerosWanted(n, base, prec, width, fl);
    KeptBounds(n, base, prec, width, fl);
    FitsByLength(n, value, base, prec, width, fl);
    hide Kept;
    hide Taken;
    hide ZerosWanted;
    hide FitsAlt;
    hide Prefix;
    hide AltPrefix;
    hide Fill;
    FillLength(length - n);
    FillLength(zeros);
    if FitsAlt(n, value, base, prec, width, fl) {
      TextsMeet(value, base, num, length - n, k, zeros, fl);
    }
  }

  lemma TextsMeet(value: nat, base: nat, num: seq<byte>, padding: nat, k: nat, zeros: nat, fl: Flags)
    requires fl.hash && value != 0 && (base == 8 || base == 16) && k <= padding
    requires var length := padding - k + |num|;
      if base == 16 then length <= NTOA_SIZE - 2 && zeros == padding - k
      else zeros == padding - k + if length < NTOA_SIZE then 1 else 0
    ensures var body := (Fill(DIGIT0, padding) + num)[k..];
      Prefix(|body|, fl, base) + body == AltPrefix(value, base, fl) + Fill(DIGIT0, zeros) + num
  {
    hide Prefix;
    hide AltPrefix;
    hide Fill;
    DropZeros(padding, k, num);
    FillLength(padding - k);
    var n := padding - k + |num|;
    PrefixesMeet(n, value, base, padding - k, fl);
    var prefix := Prefix(n, fl, base);
    assert prefix + (Fill(DIGIT0, padding - k) + num) == (prefix + Fill(DIGIT0, padding - k)) + num;
  }

  lemma DropZeros(z: nat, k: nat, num: seq<byte>)
    requires k <= z
    ensures (Fill(DIGIT0, z) + num)[k..] == Fill(DIGIT0, z - k) + num
  {
  }

  /** The library's prefix is the standard's, or the leading zero of an octal number. */
  lemma PrefixesMeet(n: nat, value: nat, base: nat, zeros: nat, fl: Flags)
    requires fl.hash && value != 0 && (base == 8 || base == 16) && (base == 16 ==> n <= NTOA_SIZE - 2)
    ensures base == 16 || n >= NTOA_SIZE ==> Prefix(n, fl, base) == AltPrefix(value, base, fl)
    ensures base == 8 && n < NTOA_SIZE ==>
      Prefix(n, fl, base) + Fill(DIGIT0, zeros) == AltPrefix(value, base, fl) + Fill(DIGIT0, zeros + 1)
  {
    FillJoins(DIGIT0, 1, zeros);
    assert Fill(DIGIT0, 1) == [DIGIT0];
  }

  /** The arithmetic of it. */
  lemma FitsByLength(n: nat, value: nat, base: nat, prec: nat, width: nat, fl: Flags)
    requires Passed(value, prec, base, fl) && value != 0 && 1 <= n <= 11
    ensures var length := Kept(n, false, prec, width, fl);
      var k := Taken(length, base, prec, width, fl);
      var zeros := ZerosWanted(n, base, prec, width, fl);
      && n <= length <= NTOA_SIZE && k <= length
      && (FitsAlt(n, value, base, prec, width, fl) ==>
            && k <= length - n
            && if base == 16 then length - k <= NTOA_SIZE - 2 && zeros == length - n - k
               else zeros == length - n - k + if length - k < NTOA_SIZE then 1 else 0)
      && (!FitsAlt(n, value, base, prec, width, fl) ==>
            |Prefix(length - k, fl, base)| + length - k != |AltPrefix(value, base, fl)| + zeros + n)
  {
  }

  // ---- the directives ----

  /** A #x, #X or #o directive prints its cast argument as the standard asks exactly
      under that condition. */
  lemma DirectiveExact(spec: F.Spec, v: int)
    requires (F.IsHex(spec.conv) || spec.conv == 'o' as int) && spec.fl.hash
    requires -0x8000_0000 <= v < 0x8000_0000 && (!spec.fl.precision ==> spec.prec == 0)
    ensures var value := F.Cast(v, spec.size, false);
      var base := F.BaseOf(spec.conv);
      var fl := F.FlagsOf(spec);
      var n := |Shown(F.Abs(value), base, fl)|;
      F.IntegerText(spec, v) == StandardAlt(F.Abs(value), base, spec.prec, spec.width, fl)
      <==>
      if value == 0 then Fits(n, false, spec.prec, spec.width, fl) && !(base == 8 && fl.precision && spec.prec == 0)
      else FitsAlt(n, value, base, spec.prec, spec.width, fl)
  {
    hide Ntoa;
    hide StandardAlt;
    hide Shown;
    hide Fits;
    hide FitsAlt;
    AlternateExact(F.Cast(v, spec.size, false), F.BaseOf(spec.conv), spec.prec, spec.width, F.FlagsOf(spec));
  }

  /** A negative precision from an argument counts as none in the standard; the
      library takes it for 0, so "%.*d" of -1 and 0 prints nothing. */
  lemma NegativePrecisionIsZero()
    ensures F.Render([F.PERCENT, F.DOT, F.STAR, 'd' as int], [F.Int(-1), F.Int(0)]) == Some([])
    ensures Standard(0, false, 10, 0, 0, F.NoFlags) == [DIGIT0]
  {
    var f := [F.PERCENT, F.DOT, F.STAR, 'd' as int];
    var args: seq<F.arg> := [F.Int(-1), F.Int(0)];
    var fl := F.NoFlags.(precision := true);
    var spec := F.Spec(fl, 0, 0, F.Usual, 'd' as int);
    assert f[1..] == [F.DOT, F.STAR, 'd' as int] && f[1..][1..] == [F.STAR, 'd' as int];
    assert f[1..][1..][1..] == ['d' as int] && ['d' as int][1..] == [];
    assert args[1..] == [F.Int(0)] && args[1..][1..] == [];
    assert F.ReadSpec(f[1..], args) == Some(([], args[1..], spec));
    NothingPrinted(spec);
    hide F.ReadSpec;
    hide F.IntegerText;
    assert F.Convert(spec, args[1..]) == Some(([], []));
    var none: seq<byte> := [];
    assert none + none == none;
    assert Numeral(0, 10, false) == [DIGIT0];
  }

  lemma NothingPrinted(spec: F.Spec)
    requires spec == F.Spec(F.NoFlags.(precision := true), 0, 0, F.Usual, 'd' as int)
    ensures F.IntegerText(spec, 0) == []
  {
    var fl := F.FlagsOf(spec);
    assert fl == F.NoFlags.(precision := true);
    hide Ntoa;
    NtoaStandard(0, false, 10, 0, 0, fl);
    assert Standard(0, false, 10, 0, 0, fl) == [];
  }
}
