/** Formats piece by piece: what a format prints is what its pieces print, and a width
    or precision in digits is one in an argument. */
module Formats {
  import opened Basics
  import opened Chars
  import opened Numerals
  import opened Printf
  import opened Format

  /** The format prints with these arguments and with none fewer. */
  ghost predicate UsesUp(f: seq<byte>, a: seq<arg>) {
    Render(f, a).Some? && forall n :: 0 <= n < |a| ==> Render(f, a[..n]) == None
  }

  /** One format after another prints the one text after the other. */
  lemma {:induction false} FormatsJoin(f: seq<byte>, a: seq<arg>, g: seq<byte>, b: seq<arg>)
    requires UsesUp(f, a)
    ensures Render(f + g, a + b) ==
      match Render(g, b)
      case None => None
      case Some(t) => Some(Render(f, a).value + t)
    decreases |f|
  {
    hide Render;
    hide ReadSpec;
    hide Convert;
    hide Join;
    if f == [] {
      EmptyFirst(f, a, g, b);
    } else if f[0] != PERCENT {
      CharacterStep(f, a);
      FormatsJoin(f[1..], a, g, b);
      assert (f + g)[1..] == f[1..] + g;
      CharacterFirst(f, a);
      CharacterFirst(f + g, a + b);
      Joins([f[0]], Render(f[1..], a), Render(g, b));
    } else {
      Found(f, a);
      var d := ReadSpec(f[1..], a).value;
      var c := Convert(d.2, d.1).value;
      RestUsesUp(f, a, d, c);
      FormatsJoin(d.0, c.1, g, b);
      DirectiveJoin(f, a, d, c, g, b);
      Joins(c.0, Render(d.0, c.1), Render(g, b));
    }
  }

  lemma EmptyFirst(f: seq<byte>, a: seq<arg>, g: seq<byte>, b: seq<arg>)
    requires f == [] && UsesUp(f, a)
    ensures Render(f, a) == Some([]) && f + g == g && a + b == b
    ensures Render(g, b).Some? ==> [] + Render(g, b).value == Render(g, b).value
  {
    assert |a| > 0 ==> Render(f, a[..0]) == None;
  }

  lemma Found(f: seq<byte>, a: seq<arg>)
    requires f != [] && f[0] == PERCENT && Render(f, a).Some?
    ensures ReadSpec(f[1..], a).Some?
    ensures var d := ReadSpec(f[1..], a).value;
      Convert(d.2, d.1).Some? && Render(f, a) == Join(Convert(d.2, d.1).value.0, Render(d.0, Convert(d.2, d.1).value.1))
  {
    hide ReadSpec;
    hide Convert;
  }

  /** The directive at the front of both formats. */
  lemma DirectiveJoin(f: seq<byte>, a: seq<arg>, d: (seq<byte>, seq<arg>, Spec), c: (seq<byte>, seq<arg>),
                      g: seq<byte>, b: seq<arg>)
    requires f != [] && f[0] == PERCENT
    requires ReadSpec(f[1..], a) == Some(d) && Convert(d.2, d.1) == Some(c)
    ensures Render(f + g, a + b) == Join(c.0, Render(d.0 + g, c.1 + b))
  {
    hide Render;
    hide ReadSpec;
    hide Convert;
    DirectiveFirst(f, a, g, c.1 + b);
    var k := |a| - |c.1|;
    assert a[..k] + (c.1 + b) == a + b;
  }

  lemma Joins(s: seq<byte>, first: Option<seq<byte>>, second: Option<seq<byte>>)
    requires first.Some?
    ensures Join(s, if second.None? then None else Some(first.value + second.value))
      == if second.None? then None else Some(Join(s, first).value + second.value)
  {
    if second.Some? {
      assert s + (first.value + second.value) == s + first.value + second.value;
    }
  }

  lemma CharacterFirst(f: seq<byte>, a: seq<arg>)
    requires f != [] && f[0] != PERCENT
    ensures Render(f, a) == Join([f[0]], Render(f[1..], a))
  {
  }

  lemma CharacterStep(f: seq<byte>, a: seq<arg>)
    requires f != [] && f[0] != PERCENT && UsesUp(f, a)
    ensures UsesUp(f[1..], a)
  {
    forall n | 0 <= n < |a|
      ensures Render(f[1..], a[..n]) == None
    {
      assert Render(f, a[..n]) == None;
      CharacterFirst(f, a[..n]);
    }
  }

  /** A directive at the front, with exactly its own arguments before others. */
  lemma DirectiveFirst(f: seq<byte>, a: seq<arg>, g: seq<byte>, x: seq<arg>)
    requires f != [] && f[0] == PERCENT && ReadSpec(f[1..], a).Some?
    requires var d := ReadSpec(f[1..], a).value; Convert(d.2, d.1).Some?
    ensures var d := ReadSpec(f[1..], a).value; var c := Convert(d.2, d.1).value;
      && |c.1| <= |a| && c.1 == a[|a| - |c.1|..]
      && Render(f + g, a[..|a| - |c.1|] + x) == Join(c.0, Render(d.0 + g, x))
  {
    hide ReadSpec;
    hide Convert;
    var d := ReadSpec(f[1..], a).value;
    var c := Convert(d.2, d.1).value;
    ConvertLocal(d.2, d.1, x);
    var j := |d.1| - |c.1|;
    SpecLocal(f[1..], a, g, d.1[..j] + x);
    var i := |a| - |d.1|;
    assert a[i..][..j] == a[i..i + j];
    assert a[..i] + (d.1[..j] + x) == a[..i + j] + x;
    assert a[i..][j..] == a[i + j..];
    assert (f + g)[1..] == f[1..] + g;
  }

  lemma RestUsesUp(f: seq<byte>, a: seq<arg>, d: (seq<byte>, seq<arg>, Spec), c: (seq<byte>, seq<arg>))
    requires f != [] && f[0] == PERCENT && UsesUp(f, a)
    requires ReadSpec(f[1..], a) == Some(d) && Convert(d.2, d.1) == Some(c)
    ensures UsesUp(d.0, c.1)
  {
    hide ReadSpec;
    hide Convert;
    var k := |a| - |c.1|;
    forall n | 0 <= n < |c.1|
      ensures Render(d.0, c.1[..n]) == None
    {
      DirectiveFirst(f, a, [], c.1[..n]);
      assert f + [] == f && d.0 + [] == d.0;
      assert a[..k] + c.1[..n] == a[..k + n];
      assert Render(f, a[..k + n]) == None;
    }
  }

  // ---- reading looks no further than the directive ----

  lemma ConvertLocal(spec: Spec, a: seq<arg>, x: seq<arg>)
    requires Convert(spec, a).Some?
    ensures var c := Convert(spec, a).value; var i := |a| - |c.1|;
      i >= 0 && c.1 == a[i..] && Convert(spec, a[..i] + x) == Some((c.0, x))
  {
    hide IntegerText;
    hide PointerText;
    hide Blanked;
    hide Clipped;
    var c := Convert(spec, a).value;
    if |c.1| < |a| {
      assert (a[..1] + x)[1..] == x;
    } else {
      assert a[..0] + x == x;
    }
  }

  lemma {:induction false} FlagsLocal(f: seq<byte>, fl: Flags, g: seq<byte>)
    requires ReadFlags(f, fl).0 != []
    ensures ReadFlags(f + g, fl) == (ReadFlags(f, fl).0 + g, ReadFlags(f, fl).1)
    decreases |f|
  {
    if IsFlag(f[0]) {
      FlagsLocal(f[1..], SetFlag(fl, f[0]), g);
      assert (f + g)[1..] == f[1..] + g;
    }
  }

  lemma {:induction false} NumberLocal(f: seq<byte>, n: nat, g: seq<byte>)
    requires ReadNumber(f, n).0 != []
    ensures ReadNumber(f + g, n) == (ReadNumber(f, n).0 + g, ReadNumber(f, n).1)
    decreases |f|
  {
    hide DigitOf;
    if LeadsDigit(f) {
      NumberLocal(f[1..], (n * 10 + DigitOf(f[0])) % TWO32, g);
      assert (f + g)[1..] == f[1..] + g;
    }
  }

  lemma WidthLocal(f: seq<byte>, a: seq<arg>, fl: Flags, g: seq<byte>, x: seq<arg>)
    requires ReadWidth(f, a, fl).Some? && ReadWidth(f, a, fl).value.format != []
    ensures var w := ReadWidth(f, a, fl).value; var i := |a| - |w.args|;
      i >= 0 && w.args == a[i..] && ReadWidth(f + g, a[..i] + x, fl) == Some(w.(format := w.format + g, args := x))
  {
    hide ReadNumber;
    if LeadsDigit(f) {
      NumberLocal(f, 0, g);
    } else if Leads(f, STAR) {
      assert (f + g)[1..] == f[1..] + g;
      assert (a[..1] + x)[1..] == x;
    }
    assert a[..0] + x == x;
  }

  lemma PrecisionLocal(f: seq<byte>, a: seq<arg>, fl: Flags, g: seq<byte>, x: seq<arg>)
    requires ReadPrecision(f, a, fl).Some? && ReadPrecision(f, a, fl).value.format != []
    ensures var p := ReadPrecision(f, a, fl).value; var i := |a| - |p.args|;
      i >= 0 && p.args == a[i..] && ReadPrecision(f + g, a[..i] + x, fl) == Some(p.(format := p.format + g, args := x))
  {
    hide ReadNumber;
    assert a[..0] + x == x;
    if Leads(f, DOT) {
      assert (f + g)[1..] == f[1..] + g;
      if LeadsDigit(f[1..]) {
        NumberLocal(f[1..], 0, g);
      } else if Leads(f[1..], STAR) {
        assert (f[1..] + g)[1..] == f[1..][1..] + g;
        assert (a[..1] + x)[1..] == x;
      }
    }
  }

  lemma SizeLocal(f: seq<byte>, g: seq<byte>)
    requires ReadSize(f).0 != []
    ensures ReadSize(f + g) == (ReadSize(f).0 + g, ReadSize(f).1)
  {
    assert (f + g)[1..] == f[1..] + g;
    if |f| >= 2 {
      assert (f + g)[2..] == f[2..] + g;
    }
  }

  lemma SpecLocal(f: seq<byte>, a: seq<arg>, g: seq<byte>, x: seq<arg>)
    requires ReadSpec(f, a).Some?
    ensures var d := ReadSpec(f, a).value; var i := |a| - |d.1|;
      i >= 0 && d.1 == a[i..] && ReadSpec(f + g, a[..i] + x) == Some((d.0 + g, x, d.2))
  {
    hide ReadFlags;
    hide ReadWidth;
    hide ReadPrecision;
    hide ReadSize;
    var (f1, fl) := ReadFlags(f, NoFlags);
    var w := ReadWidth(f1, a, fl).value;
    var p := ReadPrecision(w.format, w.args, w.fl).value;
    var (f2, size) := ReadSize(p.format);
    NothingFollows(f1, a, fl, w, p);
    FlagsLocal(f, NoFlags, g);
    SizeLocal(p.format, g);
    PrecisionLocal(w.format, w.args, w.fl, g, x);
    var j := |w.args| - |p.args|;
    WidthLocal(f1, a, fl, g, w.args[..j] + x);
    var i := |a| - |w.args|;
    assert a[i..][..j] == a[i..i + j];
    assert a[..i] + (w.args[..j] + x) == a[..i + j] + x;
    assert a[i..][j..] == a[i + j..];
    assert (f2 + g)[1..] == f2[1..] + g;
  }

  /** The letter comes last, so nothing before it ends the format. */
  lemma NothingFollows(f: seq<byte>, a: seq<arg>, fl: Flags, w: Field, p: Field)
    requires ReadWidth(f, a, fl) == Some(w) && ReadPrecision(w.format, w.args, w.fl) == Some(p)
    requires ReadSize(p.format).0 != []
    ensures p.format != [] && w.format != [] && f != []
  {
    hide ReadWidth;
    hide ReadPrecision;
    hide ReadSize;
  }

  // ---- widths and precisions in digits ----

  ghost predicate AllFlags(flags: seq<byte>) {
    forall i :: 0 <= i < |flags| ==> IsFlag(flags[i])
  }

  /** A width in digits prints what the same width in an argument prints. */
  lemma WidthWritten(flags: seq<byte>, n: nat, tail: seq<byte>, args: seq<arg>)
    requires AllFlags(flags) && 1 <= n < 0x8000_0000 && !LeadsDigit(tail)
    ensures Render([37] + flags + Numeral(n, 10, false) + tail, args)
      == Render([37] + flags + [42] + tail, [Int(n)] + args)
  {
    var num := Numeral(n, 10, false);
    var f, g := [37] + flags + num + tail, [37] + flags + [42] + tail;
    assert f[1..] == flags + (num + tail) && g[1..] == flags + ([42] + tail);
    NumeralReads(n, tail);
    WidthLeads(n);
    FlagsRun(flags, num + tail, NoFlags);
    FlagsRun(flags, [42] + tail, NoFlags);
    var fl := ReadFlags(f[1..], NoFlags).1;
    WidthRead(num, n, tail, args, fl);
    SameSpec(f[1..], args, g[1..], [Int(n)] + args);
    SameRender(f, args, g, [Int(n)] + args);
  }

  /** A precision in digits, without a width or after one in an argument, prints what
      the same precision in an argument prints. */
  lemma PrecisionWritten(flags: seq<byte>, width: seq<arg>, n: nat, tail: seq<byte>, args: seq<arg>)
    requires AllFlags(flags) && |width| <= 1 && (width != [] ==> width[0].Int?)
    requires n < 0x8000_0000 && !LeadsDigit(tail)
    ensures var star := if width == [] then [] else [42];
      Render([37] + flags + star + [46] + Numeral(n, 10, false) + tail, width + args)
      == Render([37] + flags + star + [46, 42] + tail, width + [Int(n)] + args)
  {
    NumeralReads(n, tail);
    SamePrecision(flags, width, Numeral(n, 10, false), n, tail, args);
  }

  /** A point alone is precision 0. */
  lemma PointAlone(flags: seq<byte>, width: seq<arg>, tail: seq<byte>, args: seq<arg>)
    requires AllFlags(flags) && |width| <= 1 && (width != [] ==> width[0].Int?)
    requires !LeadsDigit(tail) && !Leads(tail, 42)
    ensures var star := if width == [] then [] else [42];
      Render([37] + flags + star + [46] + tail, width + args)
      == Render([37] + flags + star + [46, 42] + tail, width + [Int(0)] + args)
  {
    assert [] + tail == tail;
    SamePrecision(flags, width, [], 0, tail, args);
    var star: seq<byte> := if width == [] then [] else [42];
    assert [37] + flags + star + [46] + [] == [37] + flags + star + [46];
  }

  lemma SamePrecision(flags: seq<byte>, width: seq<arg>, num: seq<byte>, n: nat, tail: seq<byte>, args: seq<arg>)
    requires AllFlags(flags) && |width| <= 1 && (width != [] ==> width[0].Int?)
    requires n < 0x8000_0000 && ReadNumber(num + tail, 0) == (tail, n)
    requires LeadsDigit(num + tail) || (num == [] && n == 0 && !Leads(tail, 42))
    ensures var star := if width == [] then [] else [42];
      Render([37] + flags + star + [46] + num + tail, width + args)
      == Render([37] + flags + star + [46, 42] + tail, width + [Int(n)] + args)
  {
    hide ReadFlags;
    hide ReadWidth;
    hide ReadPrecision;
    hide ReadNumber;
    hide Render;
    hide ReadSpec;
    var star: seq<byte> := if width == [] then [] else [42];
    var f, g := [37] + flags + star + [46] + num + tail, [37] + flags + star + [46, 42] + tail;
    var a, b := width + args, width + [Int(n)] + args;
    var p, q := [46] + (num + tail), [46, 42] + tail;
    assert f[1..] == flags + (star + p) && g[1..] == flags + (star + q);
    FlagsRun(flags, star + p, NoFlags);
    FlagsRun(flags, star + q, NoFlags);
    var fl := ReadFlags(f[1..], NoFlags).1;
    StarOrNone(width, p, args, fl);
    StarOrNone(width, q, [Int(n)] + args, fl);
    assert width + [Int(n)] + args == width + ([Int(n)] + args);
    var w := ReadWidth(star + p, a, fl).value;
    PrecisionRead(num, n, tail, args, w.fl);
    SameSpec(f[1..], a, g[1..], b);
    SameRender(f, a, g, b);
  }

  /** A width that is a star or missing, before a point. */
  lemma StarOrNone(width: seq<arg>, p: seq<byte>, args: seq<arg>, fl: Flags)
    requires |width| <= 1 && (width != [] ==> width[0].Int?) && Leads(p, 46)
    ensures var star := if width == [] then [] else [42];
      var v := if width == [] then 0 else width[0].v;
      ReadWidth(star + p, width + args, fl)
      == Some(Field(p, args, fl.(left := fl.left || v < 0), if v < 0 then -v else v))
  {
    if width == [] {
      assert [] + p == p && width + args == args;
    } else {
      assert ([42] + p)[1..] == p && (width + args)[1..] == args;
    }
  }

  lemma WidthRead(num: seq<byte>, n: nat, tail: seq<byte>, args: seq<arg>, fl: Flags)
    requires LeadsDigit(num + tail) && n < 0x8000_0000 && ReadNumber(num + tail, 0) == (tail, n)
    ensures ReadWidth(num + tail, args, fl) == Some(Field(tail, args, fl, n))
    ensures ReadWidth([42] + tail, [Int(n)] + args, fl) == Some(Field(tail, args, fl, n))
  {
    hide ReadNumber;
    assert ([42] + tail)[1..] == tail && ([Int(n)] + args)[1..] == args;
  }

  lemma PrecisionRead(num: seq<byte>, n: nat, tail: seq<byte>, args: seq<arg>, fl: Flags)
    requires n < 0x8000_0000 && ReadNumber(num + tail, 0) == (tail, n)
    requires LeadsDigit(num + tail) || (num == [] && n == 0 && !Leads(tail, 42))
    ensures ReadPrecision([46] + (num + tail), args, fl) == Some(Field(tail, args, fl.(precision := true), n))
    ensures ReadPrecision([46, 42] + tail, [Int(n)] + args, fl) == Some(Field(tail, args, fl.(precision := true), n))
  {
    hide ReadNumber;
    assert ([46] + (num + tail))[1..] == num + tail;
    assert ([46, 42] + tail)[1..] == [42] + tail && ([42] + tail)[1..] == tail;
    assert ([Int(n)] + args)[1..] == args;
    assert num == [] ==> num + tail == tail;
  }

  lemma {:induction false} FlagsRun(flags: seq<byte>, rest: seq<byte>, fl: Flags)
    requires AllFlags(flags) && (rest == [] || !IsFlag(rest[0]))
    ensures ReadFlags(flags + rest, fl) == (rest, ReadFlags(flags, fl).1)
    decreases |flags|
  {
    if flags == [] {
      assert flags + rest == rest;
    } else {
      assert (flags + rest)[1..] == flags[1..] + rest;
      FlagsRun(flags[1..], rest, SetFlag(fl, flags[0]));
    }
  }

  /** The reader of numbers takes a whole numeral. */
  lemma NumeralReads(n: nat, tail: seq<byte>)
    requires n < TWO32 && !LeadsDigit(tail)
    ensures ReadNumber(Numeral(n, 10, false) + tail, 0) == (tail, n)
    ensures LeadsDigit(Numeral(n, 10, false) + tail)
  {
    hide Numeral;
    hide Eval;
    hide ReadNumber;
    hide LeadsDigit;
    hide IsNum;
    DecimalDigits(n);
    EvalNumeral(n, 10, false);
    DigitsRead(Numeral(n, 10, false), tail, n);
  }

  lemma DigitsRead(num: seq<byte>, tail: seq<byte>, n: nat)
    requires !LeadsDigit(tail) && num != [] && (forall i :: 0 <= i < |num| ==> IsNum(num[i]))
    requires Eval(num, 10) == n < TWO32
    ensures ReadNumber(num + tail, 0) == (tail, n) && LeadsDigit(num + tail)
  {
    hide Eval;
    hide ReadNumber;
    NothingEvals();
    ReadNumberEvals(num, tail, []);
    assert [] + num == num;
  }

  lemma NothingEvals()
    ensures Eval([], 10) == 0
  {
  }

  lemma {:induction false} DecimalDigits(n: nat)
    ensures forall i :: 0 <= i < |Numeral(n, 10, false)| ==> IsNum(Numeral(n, 10, false)[i])
    decreases n
  {
    hide Quot;
    hide Rem;
    DivMod(n, 10);
    if n >= 10 {
      DecimalDigits(Quot(n, 10));
    }
  }

  /** A numeral that is not 0 begins with no flag. */
  lemma WidthLeads(n: nat)
    requires n > 0
    ensures !IsFlag(Numeral(n, 10, false)[0])
  {
    hide Numeral;
    NumeralLeads(n, 10, false);
    DecimalDigits(n);
    assert IsNum(Numeral(n, 10, false)[0]);
  }

  lemma SameSpec(f: seq<byte>, a: seq<arg>, g: seq<byte>, b: seq<arg>)
    requires ReadFlags(f, NoFlags).1 == ReadFlags(g, NoFlags).1
    requires var (f1, fl) := ReadFlags(f, NoFlags); var (g1, _) := ReadFlags(g, NoFlags);
      && ReadWidth(f1, a, fl).Some? && ReadWidth(g1, b, fl).Some?
      && var w, v := ReadWidth(f1, a, fl).value, ReadWidth(g1, b, fl).value;
      && w.fl == v.fl && w.n == v.n
      && ReadPrecision(w.format, w.args, w.fl) == ReadPrecision(v.format, v.args, v.fl)
    ensures ReadSpec(f, a) == ReadSpec(g, b)
  {
    hide ReadFlags;
    hide ReadWidth;
    hide ReadPrecision;
    hide ReadSize;
  }

  lemma SameRender(f: seq<byte>, a: seq<arg>, g: seq<byte>, b: seq<arg>)
    requires f != [] && g != [] && f[0] == g[0] == PERCENT
    requires ReadSpec(f[1..], a) == ReadSpec(g[1..], b)
    ensures Render(f, a) == Render(g, b)
  {
    hide ReadSpec;
    hide Convert;
  }
}
