/** printf.c's loops: a sink that takes one character at a time, and _vsnprintf. */
module Vsnprintf {
  import opened Basics
  import opened Chars
  import opened Numerals
  import opened Printf
  import opened Format

  /** The characters a terminal would show. */
  function Visible(s: seq<byte>): seq<byte> {
    if s == [] then []
    else if s[|s| - 1] == NUL then Visible(s[..|s| - 1])
    else Visible(s[..|s| - 1]) + [s[|s| - 1]]
  }

  lemma VisibleSnoc(s: seq<byte>, c: byte)
    ensures Visible(s + [c]) == if c == NUL then Visible(s) else Visible(s) + [c]
  {
    assert (s + [c])[..|s|] == s;
  }

  lemma PutKeeps(full: seq<byte>, before: seq<byte>, maxlen: nat, c: byte)
    requires maxlen <= |before|
    ensures var n := |full|; var m := Min(n + 1, maxlen);
      var now := full[..Min(n, maxlen)] + before[Min(n, maxlen)..];
      (if n < maxlen then now[n := c] else now) == (full + [c])[..m] + before[m..]
  {
  }

  /** Where the output goes: _out_buffer into memory or _out_char to the terminal. */
  class Sink {
    const toBuffer: bool
    const buffer: array<byte>
    const maxlen: nat
    var console: seq<byte>
    var idx: nat
    ghost const before: seq<byte>
    ghost var full: seq<byte>

    /** full is everything put so far; the buffer has as much of it as fits. */
    ghost predicate Valid()
      reads this, buffer
    {
      && idx == |full| && maxlen <= buffer.Length == |before|
      && (toBuffer ==> buffer[..] == full[..Min(idx, maxlen)] + before[Min(idx, maxlen)..] && console == [])
      && (!toBuffer ==> console == Visible(full) && buffer[..] == before)
    }

    constructor (toBuffer: bool, buffer: array<byte>, maxlen: nat)
      requires maxlen <= buffer.Length
      ensures Valid() && full == [] && before == buffer[..]
      ensures this.toBuffer == toBuffer && this.buffer == buffer && this.maxlen == maxlen
    {
      this.toBuffer, this.buffer, this.maxlen := toBuffer, buffer, maxlen;
      console, idx := [], 0;
      before, full := buffer[..], [];
    }

    method Put(c: byte)
      requires Valid()
      modifies this, buffer
      ensures Valid() && full == old(full) + [c]
    {
      hide Visible;
      ghost var was := buffer[..];
      PutKeeps(full, before, maxlen, c);
      VisibleSnoc(full, c);
      if toBuffer {
        if idx < maxlen {
          buffer[idx] := c;
          assert buffer[..] == was[idx := c];
        }
      } else if c != NUL {
        console := console + [c];
      }
      full := full + [c];
      idx := idx + 1;
    }

    /** The terminating NUL, over the last character if the buffer is full. */
    method Finish()
      requires Valid()
      modifies buffer
      ensures toBuffer && maxlen > 0 ==>
        var k := Min(idx, maxlen - 1);
        buffer[..] == full[..k] + [NUL] + before[k + 1..]
      ensures !toBuffer || maxlen == 0 ==> buffer[..] == before
    {
      if toBuffer && maxlen > 0 {
        Terminated(full, before, maxlen);
        ghost var was := buffer[..];
        var k := if idx < maxlen then idx else maxlen - 1;
        buffer[k] := NUL;
        assert buffer[..] == was[k := NUL];
      }
    }

    method Spaces(from: nat, width: nat)
      requires Valid()
      modifies this, buffer
      ensures Valid() && full == old(full) + Fill(SPACE, width - from)
    {
      var i := from;
      while i < width
        invariant Valid() && from <= i && (i <= width || i == from)
        invariant full == old(full) + Fill(SPACE, i - from)
      {
        Put(SPACE);
        FillJoins(SPACE, i - from, 1);
        assert Fill(SPACE, 1) == [SPACE];
        i := i + 1;
      }
    }

    /** _out_rev */
    method OutReversed(buf: array<byte>, length: nat, width: nat, fl: Flags)
      requires Valid() && buf != buffer && length <= buf.Length
      modifies this, buffer
      ensures Valid() && full == old(full) + OutRev(buf[..length], fl, width)
    {
      hide Valid;
      if !fl.left && !fl.zeropad {
        Spaces(length, width);
      }
      ghost var ahead := full;
      var len: nat := length;
      while len > 0
        invariant Valid() && len <= length
        invariant full == ahead + Reverse(buf[len..length])
        invariant buf[..length] == old(buf[..length])
      {
        len := len - 1;
        Put(buf[len]);
        assert buf[len..length] == [buf[len]] + buf[len + 1..length];
        ReverseCons(buf[len], buf[len + 1..length]);
      }
      assert buf[0..length] == old(buf[..length]);
      if fl.left {
        Spaces(length, width);
      }
    }

    method Text(s: seq<byte>)
      requires Valid()
      modifies this, buffer
      ensures Valid() && full == old(full) + s
    {
      hide Valid;
      var p := 0;
      while p < |s|
        invariant Valid() && p <= |s|
        invariant full == old(full) + s[..p]
      {
        Put(s[p]);
        p := p + 1;
      }
    }

    /** %s and %c: the text with blanks before or after it. */
    method Blank(s: seq<byte>, width: nat, left: bool)
      requires Valid()
      modifies this, buffer
      ensures Valid() && full == old(full) + Blanked(s, width, left)
    {
      hide Valid;
      if !left {
        Spaces(|s|, width);
      }
      Text(s);
      if left {
        Spaces(|s|, width);
      }
    }

    /** _ntoa_long and _ntoa_format, over a 32-byte buffer. */
    method Number(value: nat, negative: bool, base: nat, prec: nat, width: nat, flags: Flags)
      requires Valid() && Radix(base) && value < TWO32
      modifies this, buffer
      ensures Valid() && full == old(full) + Ntoa(value, negative, base, prec, width, flags)
    {
      hide Valid;
      hide DigitBuffer;
      hide OutRev;
      hide Padded;
      hide Stripped;
      hide Prefixed;
      hide WithSign;
      var fl := if value == 0 then flags.(hash := false) else flags;
      var buf := new byte[32];
      var len := 0;
      len := DigitLoop(buf, value, base, fl);
      var w := FieldWidth(fl, negative, width);
      len := PadLoops(buf, len, fl, prec, w);
      len := HashPart(buf, len, fl, base, prec, w);
      len := SignPart(buf, len, fl, negative);
      OutReversed(buf, len, w, fl);
    }
  }

  lemma ReverseCons(c: byte, s: seq<byte>)
    ensures Reverse([c] + s) == Reverse(s) + [c]
  {
  }

  /** The digits, the last one first, before the buffer can fill up. */
  method DigitLoop(buf: array<byte>, value: nat, base: nat, fl: Flags) returns (len: nat)
    requires Radix(base) && value < TWO32 && buf.Length == NTOA_SIZE
    modifies buf
    ensures len <= NTOA_SIZE && buf[..len] == DigitBuffer(value, base, fl)
  {
    hide Numeral;
    hide DigitChar;
    hide Quot;
    hide Rem;
    hide Reverse;
    len := 0;
    if fl.precision && value == 0 {
      return;
    }
    var v := value;
    var more := true;
    ghost var whole := Numeral(value, base, fl.upper);
    NumeralFits(value, base, fl.upper);
    ReverseNothing(whole);
    assert buf[..0] == [];
    while more
      invariant len <= |whole| <= NTOA_SIZE
      invariant more ==> whole == Numeral(v, base, fl.upper) + Reverse(buf[..len])
      invariant !more ==> Written(whole, 0, base, fl.upper, buf[..len])
      decreases more, v
    {
      DigitStep(whole, v, base, fl.upper, buf[..len]);
      buf[len] := DigitChar(Rem(v, base), fl.upper);
      assert buf[..len + 1] == buf[..len] + [DigitChar(Rem(v, base), fl.upper)];
      len := len + 1;
      RoomLeft(whole, Quot(v, base), base, fl.upper, buf[..len]);
      v := Quot(v, base);
      more := v != 0 && len < NTOA_SIZE;
    }
    AllWritten(whole, base, fl.upper, buf[..len]);
  }

  lemma ReverseNothing(s: seq<byte>)
    ensures s + Reverse([]) == s
  {
  }

  lemma RoomLeft(whole: seq<byte>, v: nat, base: nat, upper: bool, done: seq<byte>)
    requires Radix(base) && Written(whole, v, base, upper, done)
    ensures |done| <= |whole| && (v > 0 ==> |done| < |whole|)
  {
  }

  /** The two loops that append zeros. */
  method PadLoops(buf: array<byte>, digits: nat, fl: Flags, prec: nat, width: nat) returns (len: nat)
    requires digits <= buf.Length == NTOA_SIZE
    modifies buf
    ensures len <= NTOA_SIZE && buf[..len] == Padded(old(buf[..digits]), fl, prec, width)
  {
    len := digits;
    if !fl.left {
      len := PadTo(buf, len, prec);
      if fl.zeropad {
        len := PadTo(buf, len, width);
      }
    }
  }

  method PadTo(buf: array<byte>, from: nat, n: nat) returns (len: nat)
    requires from <= buf.Length == NTOA_SIZE
    modifies buf
    ensures len <= NTOA_SIZE && buf[..len] == Pad(old(buf[..from]), Cap(n))
  {
    len := from;
    while len < n && len < NTOA_SIZE
      invariant from <= len <= NTOA_SIZE && (len <= n || len == from)
      invariant buf[..len] == old(buf[..from]) + Fill(DIGIT0, len - from)
    {
      buf[len] := DIGIT0;
      assert buf[..len + 1] == buf[..len] + [DIGIT0];
      FillJoins(DIGIT0, len - from, 1);
      assert Fill(DIGIT0, 1) == [DIGIT0];
      len := len + 1;
    }
  }

  method PutAt(buf: array<byte>, len: nat, c: byte) returns (len': nat)
    requires len <= buf.Length == NTOA_SIZE
    modifies buf
    ensures len' <= NTOA_SIZE && buf[..len'] == Append(old(buf[..len]), c)
  {
    len' := len;
    if len < NTOA_SIZE {
      buf[len] := c;
      len' := len + 1;
    }
  }

  method HashPart(buf: array<byte>, digits: nat, fl: Flags, base: nat, prec: nat, width: nat) returns (len: nat)
    requires digits <= buf.Length == NTOA_SIZE
    modifies buf
    ensures len <= NTOA_SIZE
    ensures buf[..len] == Prefixed(Stripped(old(buf[..digits]), fl, base, prec, width), fl, base)
  {
    len := digits;
    if !fl.hash {
      return;
    }
    if !fl.precision && len > 0 && (len == prec || len == width) {
      len := len - 1;
      if len > 0 && base == 16 {
        len := len - 1;
      }
    }
    assert buf[..len] == Stripped(old(buf[..digits]), fl, base, prec, width);
    hide Stripped;
    if base == 16 && !fl.upper {
      len := PutAt(buf, len, 'x' as int);
    } else if base == 16 && fl.upper {
      len := PutAt(buf, len, 'X' as int);
    } else if base == 2 {
      len := PutAt(buf, len, 'b' as int);
    }
    len := PutAt(buf, len, DIGIT0);
  }

  method SignPart(buf: array<byte>, from: nat, fl: Flags, negative: bool) returns (len: nat)
    requires from <= buf.Length == NTOA_SIZE
    modifies buf
    ensures len <= NTOA_SIZE && buf[..len] == WithSign(old(buf[..from]), fl, negative)
  {
    len := from;
    if negative {
      len := PutAt(buf, len, MINUS);
    } else if fl.plus {
      len := PutAt(buf, len, PLUS);
    } else if fl.space {
      len := PutAt(buf, len, SPACE);
    }
  }

  // ---- the format pointer's loops: format[1..] is format++ ----

  method FlagLoop(f: seq<byte>) returns (rest: seq<byte>, fl: Flags)
    ensures (rest, fl) == ReadFlags(f, NoFlags)
  {
    rest, fl := f, NoFlags;
    while rest != [] && IsFlag(rest[0])
      invariant ReadFlags(rest, fl) == ReadFlags(f, NoFlags)
      decreases |rest|
    {
      rest, fl := rest[1..], SetFlag(fl, rest[0]);
    }
  }

  method NumberLoop(f: seq<byte>) returns (rest: seq<byte>, n: nat)
    ensures (rest, n) == ReadNumber(f, 0)
  {
    rest, n := f, 0;
    while LeadsDigit(rest)
      invariant ReadNumber(rest, n) == ReadNumber(f, 0)
      decreases |rest|
    {
      rest, n := rest[1..], (n * 10 + DigitOf(rest[0])) % TWO32;
    }
  }

  /** The width field, or with its dot the precision field. */
  method FieldNumber(f: seq<byte>, args: seq<arg>) returns (rest: seq<byte>, args': seq<arg>, star: bool, v: int)
    requires Leads(f, STAR) ==> args != [] && args[0].Int?
    ensures LeadsDigit(f) ==> (rest, v) == ReadNumber(f, 0) && args' == args && !star
    ensures Leads(f, STAR) ==> rest == f[1..] && args' == args[1..] && star && v == args[0].v
    ensures !LeadsDigit(f) && !Leads(f, STAR) ==> rest == f && args' == args && !star && v == 0
  {
    rest, args', star, v := f, args, false, 0;
    if LeadsDigit(f) {
      rest, v := NumberLoop(f);
    } else if Leads(f, STAR) {
      rest, args', star, v := f[1..], args[1..], true, args[0].v;
    }
  }

  method Directive(f: seq<byte>, args: seq<arg>) returns (rest: seq<byte>, args': seq<arg>, spec: Spec)
    requires ReadSpec(f, args).Some?
    ensures Some((rest, args', spec)) == ReadSpec(f, args)
  {
    var v: int;
    var star: bool;
    var fl: Flags;
    rest, fl := FlagLoop(f);
    args' := args;
    rest, args', star, v := FieldNumber(rest, args');
    if star && v < 0 {
      fl := fl.(left := true);
      v := -v;
    }
    var width := v;
    var prec := 0;
    if Leads(rest, DOT) {
      fl := fl.(precision := true);
      rest := rest[1..];
      rest, args', star, v := FieldNumber(rest, args');
      prec := if v > 0 then v else 0;
    }
    var (tail, size) := ReadSize(rest);
    rest := tail[1..];
    spec := Spec(fl, width, prec, size, tail[0]);
  }

  /** One conversion: what it prints goes to the sink. */
  method Conversion(out: Sink, spec: Spec, args: seq<arg>) returns (args': seq<arg>)
    requires out.Valid() && Convert(spec, args).Some?
    modifies out, out.buffer
    ensures out.Valid() && out.full == old(out.full) + Convert(spec, args).value.0
    ensures args' == Convert(spec, args).value.1
  {
    args' := args;
    if IsInteger(spec.conv) {
      if !spec.size.LongLong? {
        var value := Cast(args[0].v, spec.size, IsSigned(spec.conv));
        out.Number(Abs(value), value < 0, BaseOf(spec.conv), spec.prec, spec.width, FlagsOf(spec));
        args' := args[1..];
      }
    } else if spec.conv == 'c' as int {
      out.Blank([args[0].v % 256], spec.width, spec.fl.left);
      args' := args[1..];
    } else if spec.conv == 's' as int {
      out.Blank(Clipped(args[0].s, spec), spec.width, spec.fl.left);
      args' := args[1..];
    } else if spec.conv == 'p' as int {
      out.Number(args[0].v % TWO32, false, 16, spec.prec, 8, spec.fl.(zeropad := true, upper := true));
      args' := args[1..];
    } else {
      out.Put(spec.conv);
    }
  }

  /** The loop of _vsnprintf. */
  method Characters(out: Sink, format: cstring, va: seq<arg>)
    requires out.Valid() && Render(format, va).Some?
    modifies out, out.buffer
    ensures out.Valid() && out.full == old(out.full) + Render(format, va).value
  {
    hide Convert;
    hide ReadSpec;
    var f: seq<byte>, args := format, va;
    while f != []
      invariant out.Valid() && Render(f, args).Some?
      invariant out.full + Render(f, args).value == old(out.full) + Render(format, va).value
      decreases |f|
    {
      if f[0] != PERCENT {
        out.Put(f[0]);
        f := f[1..];
      } else {
        var spec: Spec;
        f, args, spec := Directive(f[1..], args);
        args := Conversion(out, spec, args);
      }
    }
  }

  method Vsnprintf(out: Sink, format: cstring, va: seq<arg>) returns (n: nat)
    requires out.Valid() && out.full == [] && Render(format, va).Some?
    modifies out, out.buffer
    ensures n == |Render(format, va).value|
    ensures out.toBuffer && out.maxlen > 0 ==>
      var k := Min(n, out.maxlen - 1);
      out.buffer[..] == Render(format, va).value[..k] + [NUL] + out.before[k + 1..]
    ensures !out.toBuffer || out.maxlen == 0 ==> out.buffer[..] == out.before
    ensures !out.toBuffer ==> out.console == Visible(Render(format, va).value)
  {
    hide Render;
    hide Visible;
    Characters(out, format, va);
    assert out.full == Render(format, va).value;
    n := out.idx;
    out.Finish();
  }

  /** snprintf: with room for at least one character, as much of the output as fits
      and a NUL; what it returns is the length of the whole output. */
  method Snprintf(buffer: array<byte>, count: nat, format: cstring, va: seq<arg>) returns (n: nat)
    requires count <= buffer.Length && Render(format, va).Some?
    modifies buffer
    ensures n == |Render(format, va).value|
    ensures count == 0 ==> buffer[..] == old(buffer[..])
    ensures count > 0 ==>
      var k := Min(n, count - 1);
      buffer[..] == Render(format, va).value[..k] + [NUL] + old(buffer[..])[k + 1..]
  {
    hide Render;
    hide Min;
    hide Visible;
    var out := new Sink(true, buffer, count);
    n := Vsnprintf(out, format, va);
  }

  lemma Terminated(full: seq<byte>, before: seq<byte>, maxlen: nat)
    requires 0 < maxlen <= |before|
    ensures var m, k := Min(|full|, maxlen), Min(|full|, maxlen - 1);
      (full[..m] + before[m..])[k := NUL] == full[..k] + [NUL] + before[k + 1..]
  {
  }

  /** printf: everything but NULs reaches the terminal. */
  method PrintfTo(format: cstring, va: seq<arg>) returns (console: seq<byte>, n: nat)
    requires Render(format, va).Some?
    ensures console == Visible(Render(format, va).value) && n == |Render(format, va).value|
  {
    hide Render;
    hide Visible;
    var buffer := new byte[1];
    var out := new Sink(false, buffer, 1);
    n := Vsnprintf(out, format, va);
    console := out.console;
  }
}
