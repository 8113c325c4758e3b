/** Numbers and numerals: itoa, atoi and strrev of lib.c, and the digits that
    printf prints. */
module Numerals {
  import opened Basics
  import opened Chars

  predicate Radix(base: nat) {
    2 <= base <= 36
  }

  function DigitChar(d: nat, upper: bool): (ch: byte)
    requires d < 36
    ensures DigitOf(ch) == d && ch != NUL
  {
    if d < 10 then '0' as int + d else (if upper then 'A' as int else 'a' as int) + d - 10
  }

  /** atoi's reading of one character. */
  function DigitOf(ch: byte): nat {
    if '0' as int <= ch <= '9' as int then ch - '0' as int
    else if 'a' as int <= ch <= 'z' as int then ch - 'a' as int + 10
    else if 'A' as int <= ch <= 'Z' as int then ch - 'A' as int + 10
    else 0
  }

  /** The number atoi makes of a string. */
  function Eval(s: seq<byte>, base: nat): nat {
    if s == [] then 0 else Eval(s[..|s| - 1], base) * base + DigitOf(s[|s| - 1])
  }

  function Quot(v: nat, base: nat): (q: nat)
    requires base >= 2
    ensures v >= base ==> 0 < q < v
    ensures v < base ==> q == 0
  {
    DivFacts(v, base);
    v / base
  }

  function Rem(v: nat, base: nat): (r: nat)
    requires base >= 2
    ensures r < base
    ensures v < base ==> r == v
  {
    v % base
  }

  lemma DivFacts(v: nat, base: nat)
    requires base >= 2
    ensures v / base >= 0 && (v >= base ==> 0 < v / base < v) && (v < base ==> v / base == 0)
  {
    var q, r := v / base, v % base;
    assert v == base * q + r;
    if q >= 1 {
      MulMonotone(q, 2, base);
      MulMonotone(base, 1, q);
    } else {
      assert base * q <= 0;
    }
  }

  lemma DivMod(v: nat, base: nat)
    requires base >= 2
    ensures Quot(v, base) * base + Rem(v, base) == v
  {
    var q, r := v / base, v % base;
    assert v == base * q + r;
  }

  /** The digits of v, most significant first, without leading zeros. */
  function Numeral(v: nat, base: nat, upper: bool): (s: seq<byte>)
    requires Radix(base)
    ensures |s| >= 1 && NUL !in s
    decreases v
  {
    if v < base then [DigitChar(v, upper)]
    else Numeral(Quot(v, base), base, upper) + [DigitChar(Rem(v, base), upper)]
  }

  function Reverse(s: seq<byte>): (r: seq<byte>)
    ensures |r| == |s|
    ensures forall i :: 0 <= i < |s| ==> r[i] == s[|s| - 1 - i]
  {
    seq(|s|, i requires 0 <= i < |s| => s[|s| - 1 - i])
  }

  /** Reading a numeral back gives its number. */
  lemma {:induction false} EvalNumeral(v: nat, base: nat, upper: bool)
    requires Radix(base)
    ensures Eval(Numeral(v, base, upper), base) == v
    decreases v
  {
    var s := Numeral(v, base, upper);
    if v < base {
      assert s[..0] == [];
    } else {
      hide Quot;
      hide Rem;
      EvalNumeral(Quot(v, base), base, upper);
      EvalSnoc(Numeral(Quot(v, base), base, upper), DigitChar(Rem(v, base), upper), base);
      DivMod(v, base);
    }
  }

  lemma EvalSnoc(s: seq<byte>, c: byte, base: nat)
    ensures Eval(s + [c], base) == Eval(s, base) * base + DigitOf(c)
  {
    assert (s + [c])[..|s|] == s;
  }

  lemma {:induction false} NumeralLeads(v: nat, base: nat, upper: bool)
    requires Radix(base) && v > 0
    ensures DigitOf(Numeral(v, base, upper)[0]) != 0
    decreases v
  {
    hide Quot;
    hide Rem;
    if v >= base {
      NumeralLeads(Quot(v, base), base, upper);
    }
  }

  function Pow(b: nat, n: nat): nat {
    if n == 0 then 1 else b * Pow(b, n - 1)
  }

  /** n base-b digits, the first of them not 0, need a number of at least b^(n-1). */
  lemma {:induction false} NumeralNeeds(v: nat, base: nat, upper: bool)
    requires Radix(base)
    ensures |Numeral(v, base, upper)| > 1 ==> v >= Pow(base, |Numeral(v, base, upper)| - 1)
    decreases v
  {
    if v >= base {
      hide Quot;
      hide Rem;
      DivMod(v, base);
      var q := Quot(v, base);
      NumeralNeeds(q, base, upper);
      var n := |Numeral(q, base, upper)|;
      assert |Numeral(v, base, upper)| == n + 1;
      NeedsStep(v, base, q, n);
    }
  }

  lemma NeedsStep(v: nat, base: nat, q: nat, n: nat)
    requires base >= 2 && n >= 1 && q >= 1 && v >= q * base
    requires n > 1 ==> q >= Pow(base, n - 1)
    ensures v >= Pow(base, n)
  {
    MulMonotone(base, Pow(base, n - 1), q);
    assert Pow(base, n) == base * Pow(base, n - 1);
  }

  lemma MulMonotone(b: nat, x: nat, y: nat)
    requires x <= y
    ensures b * x <= b * y
  {
  }

  lemma {:induction false} PowMonotone(b: nat, c: nat, n: nat)
    requires 1 <= b <= c
    ensures 1 <= Pow(b, n) <= Pow(c, n)
  {
    if n > 0 {
      PowMonotone(b, c, n - 1);
      MulMonotone(b, Pow(b, n - 1), Pow(c, n - 1));
      assert b * Pow(c, n - 1) <= c * Pow(c, n - 1);
    }
  }

  lemma {:induction false} PowGrows(n: nat, m: nat)
    requires n <= m
    ensures Pow(2, n) <= Pow(2, m)
  {
    if n < m {
      PowGrows(n, m - 1);
    }
  }

  lemma PowersOfTwo()
    ensures Pow(2, 32) == 0x1_0000_0000
  {
    assert Pow(2, 4) == 16;
    assert Pow(2, 8) == 256;
    assert Pow(2, 12) == 4096;
    assert Pow(2, 16) == 65536;
    assert Pow(2, 20) == 0x10_0000;
    assert Pow(2, 24) == 0x100_0000;
    assert Pow(2, 28) == 0x1000_0000;
  }

  /** A 32-bit number has at most 32 digits in any base. */
  lemma NumeralFits(v: nat, base: nat, upper: bool)
    requires Radix(base) && v < 0x1_0000_0000
    ensures |Numeral(v, base, upper)| <= 32
  {
    var n := |Numeral(v, base, upper)|;
    if n > 32 {
      NumeralNeeds(v, base, upper);
      PowMonotone(2, base, n - 1);
      PowGrows(32, n - 1);
      PowersOfTwo();
    }
  }

  // ---- the loops of lib.c ----

  /** s[..len] is a NUL-terminated string in the buffer. */
  ghost predicate CString(s: seq<byte>, len: nat) {
    len < |s| && s[len] == NUL && forall i :: 0 <= i < len ==> s[i] != NUL
  }

  method Strlen(s: array<byte>, ghost len: nat) returns (n: nat)
    requires CString(s[..], len)
    ensures n == len
  {
    n := 0;
    while s[n] != NUL
      invariant n <= len
      decreases len - n
    {
      assert s[..][n] == s[n];
      n := n + 1;
    }
    assert s[..][n] == NUL;
  }

  method Strrev(s: array<byte>, ghost len: nat)
    requires CString(s[..], len)
    modifies s
    ensures s[..] == Reverse(old(s[..len])) + old(s[len..])
  {
    var beg := 0;
    var end := Strlen(s, len);
    end := end - 1;
    while beg < end
      invariant 0 <= beg && beg + end == len - 1 && -1 <= end
      invariant forall k :: 0 <= k < beg ==> s[k] == old(s[len - 1 - k]) && s[len - 1 - k] == old(s[k])
      invariant forall k :: beg <= k < len - beg ==> s[k] == old(s[k])
      invariant forall k :: len <= k < s.Length ==> s[k] == old(s[k])
    {
      s[beg], s[end] := s[end], s[beg];
      beg := beg + 1;
      end := end - 1;
    }
    forall k | 0 <= k < s.Length
      ensures s[k] == (Reverse(old(s[..len])) + old(s[len..]))[k]
    {
      if beg <= k < len {
        assert k < len - beg ==> k == len - 1 - k;
        assert k >= len - beg ==> s[len - 1 - (len - 1 - k)] == old(s[len - 1 - k]);
      }
    }
  }

  /** itoa leaves the numeral of its value in the buffer. */
  method Itoa(value: nat, buf: array<byte>, radix: nat)
    requires Radix(radix) && value < TWO32
    requires |Numeral(value, radix, true)| < buf.Length && buf.Length >= 2
    modifies buf
    ensures var n := |Numeral(value, radix, true)|;
      CString(buf[..], n) && buf[..n] == Numeral(value, radix, true)
  {
    if value == 0 {
      buf[0] := '0' as int;
      buf[1] := NUL;
      assert buf[..1] == ['0' as int];
      return;
    }
    ghost var n := DigitsInto(value, buf, radix);
    Strrev(buf, n);
    assert buf[..n] == Numeral(value, radix, true);
  }

  /** The digits of a positive value, least significant first, and a NUL. */
  method DigitsInto(value: nat, buf: array<byte>, radix: nat) returns (n: nat)
    requires Radix(radix) && value > 0 && |Numeral(value, radix, true)| < buf.Length
    modifies buf
    ensures n == |Numeral(value, radix, true)| && CString(buf[..], n)
    ensures buf[..n] == Reverse(Numeral(value, radix, true))
  {
    hide Quot;
    hide Rem;
    hide Numeral;
    hide DigitChar;
    var newval := value;
    n := 0;
    ghost var whole := Numeral(value, radix, true);
    while newval > 0
      invariant n <= |whole|
      invariant Written(whole, newval, radix, true, buf[..n])
      decreases newval
    {
      var i := Rem(newval, radix);
      DigitStep(whole, newval, radix, true, buf[..n]);
      buf[n] := DigitChar(i, true);
      assert buf[..n + 1] == buf[..n] + [DigitChar(i, true)];
      n := n + 1;
      newval := Quot(newval, radix);
    }
    AllWritten(whole, radix, true, buf[..n]);
    hide Written;
    hide Reverse;
    buf[n] := NUL;
  }

  lemma AllWritten(whole: seq<byte>, base: nat, upper: bool, done: seq<byte>)
    requires Radix(base) && Written(whole, 0, base, upper, done) && NUL !in whole
    ensures |done| == |whole| && done == Reverse(whole) && forall k :: 0 <= k < |done| ==> done[k] != NUL
  {
    assert whole == Reverse(done);
    forall k | 0 <= k < |done|
      ensures done[k] == whole[|done| - 1 - k]
    {
    }
  }

  lemma ReverseSnoc(s: seq<byte>, c: byte)
    ensures Reverse(s + [c]) == [c] + Reverse(s)
  {
  }

  /** done holds the digits of whole that are below those of v. */
  ghost predicate Written(whole: seq<byte>, v: nat, base: nat, upper: bool, done: seq<byte>)
    requires Radix(base)
  {
    whole == (if v > 0 then Numeral(v, base, upper) else []) + Reverse(done)
  }

  lemma DigitStep(whole: seq<byte>, v: nat, base: nat, upper: bool, done: seq<byte>)
    requires Radix(base) && whole == Numeral(v, base, upper) + Reverse(done)
    ensures |done| < |whole|
    ensures Written(whole, Quot(v, base), base, upper, done + [DigitChar(Rem(v, base), upper)])
  {
    hide Quot;
    hide Rem;
    ReverseSnoc(done, DigitChar(Rem(v, base), upper));
  }

  /** A number as an int32_t keeps it. */
  function Signed32(v: int): (r: int)
    ensures -0x8000_0000 <= r < 0x8000_0000
  {
    (v + 0x8000_0000) % TWO32 - 0x8000_0000
  }

  lemma Signed32Congruent(x: int, m: int)
    ensures Signed32(x + m * TWO32) == Signed32(x)
  {
  }

  lemma Signed32Parts(v: int) returns (m: int)
    ensures Signed32(v) == v + m * TWO32
    ensures -0x8000_0000 <= v < 0x8000_0000 ==> m == 0
  {
    m := -((v + 0x8000_0000) / TWO32);
  }

  /** Reducing before a multiplication and an addition, or after, is the same. */
  lemma Signed32Step(e: int, radix: nat, d: nat)
    ensures Signed32(Signed32(Signed32(e) * radix) + d) == Signed32(e * radix + d)
  {
    var m := Signed32Parts(e);
    var n := Signed32Parts(Signed32(e) * radix);
    Distribute(e, m, radix);
    assert Signed32(e) * radix + n * TWO32 + d == e * radix + d + (m * radix + n) * TWO32;
    Signed32Congruent(e * radix + d, m * radix + n);
  }

  lemma Distribute(e: int, m: int, radix: nat)
    ensures (e + m * TWO32) * radix == e * radix + (m * radix) * TWO32
  {
  }

  /** An int32_t holds exactly the numbers below 2^31, and loses only multiples of
      2^32. */
  lemma Signed32Exact(v: nat)
    ensures Signed32(v) == v <==> v < 0x8000_0000
    ensures Signed32(v) % 256 == v % 256
    ensures v < TWO32 && v >= 0x8000_0000 ==> Signed32(v) == v - TWO32
  {
    var m := Signed32Parts(v);
    assert Signed32(v) == v + 256 * (m * 0x100_0000);
  }

  /** What atoi makes of the numeral of a 32-bit value: the value, exactly below
      2^31, and otherwise a negative number. */
  lemma ReadBackExact(v: nat, base: nat, upper: bool)
    requires Radix(base) && v < TWO32
    ensures Signed32(Eval(Numeral(v, base, upper), base)) == v <==> v < 0x8000_0000
    ensures v >= 0x8000_0000 ==> Signed32(Eval(Numeral(v, base, upper), base)) == v - TWO32 < 0
  {
    EvalNumeral(v, base, upper);
    Signed32Exact(v);
  }

  /** 4294967295 is read back as -1. */
  lemma LargestReadsMinusOne()
    ensures Signed32(Eval(Numeral(0xFFFF_FFFF, 10, true), 10)) == -1
  {
    ReadBackExact(0xFFFF_FFFF, 10, true);
  }

  /** The arithmetic is int32_t; the number the characters stand for comes out
      exactly if it is below 2^31. */
  method Atoi(buf: array<byte>, radix: nat, ghost len: nat) returns (res: int)
    requires CString(buf[..], len)
    ensures res == Signed32(Eval(buf[..len], radix))
    ensures res == Eval(buf[..len], radix) <==> Eval(buf[..len], radix) < 0x8000_0000
  {
    hide Signed32;
    res := 0;
    var i := 0;
    Signed32Exact(0);
    while buf[i] != NUL
      invariant i <= len && res == Signed32(Eval(buf[..i], radix))
      decreases len - i
    {
      assert buf[..][i] == buf[i];
      assert buf[..i + 1][..i] == buf[..i];
      var digit := 0;
      if '0' as int <= buf[i] <= '9' as int {
        digit := buf[i] - '0' as int;
      } else if 'a' as int <= buf[i] <= 'z' as int {
        digit := buf[i] - 'a' as int + 10;
      } else if 'A' as int <= buf[i] <= 'Z' as int {
        digit := buf[i] - 'A' as int + 10;
      }
      Signed32Step(Eval(buf[..i], radix), radix, digit);
      res := Signed32(res * radix);
      res := Signed32(res + digit);
      i := i + 1;
    }
    assert buf[..][i] == NUL;
    Signed32Exact(Eval(buf[..len], radix));
  }

  /** What itoa writes, atoi reads back exactly below 2^31. */
  method PrintThenRead(value: nat, buf: array<byte>, radix: nat) returns (res: int)
    requires Radix(radix) && value < TWO32
    requires |Numeral(value, radix, true)| < buf.Length && buf.Length >= 2
    modifies buf
    ensures res == value <==> value < 0x8000_0000
    ensures value >= 0x8000_0000 ==> res == value - TWO32
  {
    Itoa(value, buf, radix);
    ReadBackExact(value, radix, true);
    res := Atoi(buf, radix, |Numeral(value, radix, true)|);
  }
}
