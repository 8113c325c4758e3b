/** printf in a program and the escape parser in the kernel: the cursor lands where
    the program said, exactly when the position is on the screen. */
module RoundTrip {
  import opened Basics
  import opened Chars
  import opened Numerals
  import opened Screen
  import opened Escape
  import F = Format

  /** What feeding bytes to a terminal does besides moving its parser. */
  datatype Deed = Drawn(b: byte) | Called(f: byte, args: seq<byte>)

  function DeedOf(b: byte, action: Action): Deed
    requires !action.Swallow?
  {
    match action
    case Draw => Drawn(b)
    case Call(f, args) => Called(f, args)
  }

  function Feed(p: Parser, bytes: seq<byte>): (r: (Parser, seq<Deed>))
    requires p.Ok()
    ensures r.0.Ok()
    decreases |bytes|
  {
    if bytes == [] then (p, [])
    else
      var (q, action) := EscParse(p, bytes[0]);
      var rest := Feed(q, bytes[1..]);
      if action.Swallow? then rest else (rest.0, [DeedOf(bytes[0], action)] + rest.1)
  }

  function Perform(c: Console, deeds: seq<Deed>): (r: Console)
    requires c.Ok()
    ensures r.Ok()
    decreases |deeds|
  {
    if deeds == [] then c else Perform(PerformOne(c, deeds[0]), deeds[1..])
  }

  function PerformOne(c: Console, deed: Deed): (r: Console)
    requires c.Ok()
    ensures r.Ok()
  {
    match deed
    case Drawn(b) => WithScreen(c, Putc(c.tty.scr, b))
    case Called(f, args) => EscFuncs(c, f, args)
  }

  /** term_write is its parser's run and the deeds that come out of it. */
  lemma {:induction false} WritePerforms(c: Console, bytes: seq<byte>)
    requires c.Ok()
    ensures Write(c, bytes) == Perform(c, Feed(c.parser, bytes).1).(parser := Feed(c.parser, bytes).0)
    decreases |bytes|
  {
    hide EscParse;
    hide PerformOne;
    if bytes != [] {
      var (q, action) := EscParse(c.parser, bytes[0]);
      var rest := Feed(q, bytes[1..]);
      WritePerforms(WriteByte(c, bytes[0]), bytes[1..]);
      ByteDeed(c, bytes[0]);
      if action.Swallow? {
        PerformParser(c, q, rest.1);
      } else {
        var deed := DeedOf(bytes[0], action);
        assert ([deed] + rest.1)[1..] == rest.1;
        PerformParser(PerformOne(c, deed), q, rest.1);
      }
    }
  }

  lemma ByteDeed(c: Console, b: byte)
    requires c.Ok()
    ensures var (q, action) := EscParse(c.parser, b);
      WriteByte(c, b) == (if action.Swallow? then c else PerformOne(c, DeedOf(b, action))).(parser := q)
  {
    hide EscParse;
    hide EscFuncs;
  }

  /** Deeds do not look at the parser. */
  lemma {:induction false} PerformParser(c: Console, p: Parser, deeds: seq<Deed>)
    requires c.Ok() && p.Ok()
    ensures Perform(c.(parser := p), deeds) == Perform(c, deeds).(parser := p)
    decreases |deeds|
  {
    hide PerformOne;
    if deeds != [] {
      DeedParser(c, p, deeds[0]);
      PerformParser(PerformOne(c, deeds[0]), p, deeds[1..]);
    }
  }

  lemma DeedParser(c: Console, p: Parser, deed: Deed)
    requires c.Ok() && p.Ok()
    ensures PerformOne(c.(parser := p), deed) == PerformOne(c, deed).(parser := p)
  {
  }

  lemma {:induction false} FeedJoin(p: Parser, a: seq<byte>, b: seq<byte>)
    requires p.Ok()
    ensures var first := Feed(p, a); var second := Feed(first.0, b);
      Feed(p, a + b) == (second.0, first.1 + second.1)
    decreases |a|
  {
    hide EscParse;
    if a == [] {
      assert a + b == b && [] + Feed(p, b).1 == Feed(p, b).1;
    } else {
      var (q, action) := EscParse(p, a[0]);
      FeedJoin(q, a[1..], b);
      assert (a + b)[1..] == a[1..] + b;
      if !action.Swallow? {
        var first := Feed(q, a[1..]);
        var deed := DeedOf(a[0], action);
        assert [deed] + (first.1 + Feed(first.0, b).1) == ([deed] + first.1) + Feed(first.0, b).1;
      }
    }
  }

  /** buf holds three characters. */
  function FirstThree(s: seq<byte>): seq<byte> {
    if |s| <= 3 then s else s[..3]
  }

  predicate AllDigits(s: seq<byte>) {
    forall i :: 0 <= i < |s| ==> IsNum(s[i])
  }

  lemma {:induction false} FeedDigits(p: Parser, s: seq<byte>)
    requires p.Ok() && p.state == ArgParse && AllDigits(s)
    ensures Feed(p, s) == (p.(digits := FirstThree(p.digits + s)), [])
    decreases |s|
  {
    if s == [] {
      assert p.digits + s == p.digits;
    } else {
      var (q, action) := EscParse(p, s[0]);
      FeedDigits(q, s[1..]);
      assert p.digits + [s[0]] + s[1..] == p.digits + s;
    }
  }

  /** The number the parser makes of the digits of v. */
  function Heard(v: nat): byte {
    Eval(FirstThree(Numeral(v, 10, false)), 10) % 256
  }

  lemma {:induction false} NumeralDigits(v: nat)
    ensures AllDigits(Numeral(v, 10, false))
    decreases v
  {
    hide Quot;
    hide Rem;
    if v >= 10 {
      NumeralDigits(Quot(v, 10));
    }
  }

  /** A number survives the parser's three digits and one byte exactly up to 255. */
  lemma HeardExact(v: nat)
    ensures Heard(v) == v <==> v <= 255
  {
    hide Numeral;
    EvalNumeral(v, 10, false);
    NumeralNeeds(v, 10, false);
    if v <= 255 && |Numeral(v, 10, false)| > 3 {
      TenPowers(|Numeral(v, 10, false)| - 1);
    }
  }

  lemma TenPowers(n: nat)
    requires n >= 3
    ensures Pow(10, n) >= 1000
    decreases n
  {
    if n == 3 {
      assert Pow(10, 1) == 10 && Pow(10, 2) == 100 && Pow(10, 3) == 1000;
    } else {
      TenPowers(n - 1);
    }
  }

  const MoveTo: byte := 'p' as int

  /** ESC [ row ; col p */
  function Sequence(row: nat, col: nat): seq<byte> {
    [ESC, BRACKET] + Numeral(row, 10, false) + [SEMI] + Numeral(col, 10, false) + [MoveTo]
  }

  const MoveFormat: F.cstring :=
    [ESC, BRACKET, F.PERCENT, 'd' as int, SEMI, F.PERCENT, 'd' as int, MoveTo]

  /** What printf makes of the format with two numbers. */
  lemma PrintedSequence(row: nat, col: nat)
    requires row < 0x8000_0000 && col < 0x8000_0000
    ensures F.Render(MoveFormat, [F.Int(row), F.Int(col)]) == Some(Sequence(row, col))
  {
    hide Numeral;
    hide F.Render;
    hide F.ReadSpec;
    hide F.Convert;
    var args: seq<F.arg> := [F.Int(row), F.Int(col)];
    var f := MoveFormat;
    assert args[1..] == [F.Int(col)] && args[1..][1..] == [];
    EmptyFormat();
    var last := Numeral(col, 10, false) + [MoveTo];
    var tail := Numeral(row, 10, false) + ([SEMI] + last);
    LiteralStep(f[7..], []);
    assert f[7..][1..] == [] && [MoveTo] + [] == [MoveTo];
    DecimalStep(f[5..], args[1..]);
    assert f[5..][2..] == f[7..];
    LiteralStep(f[4..], args[1..]);
    assert f[4..][1..] == f[5..];
    DecimalStep(f[2..], args);
    assert f[2..][2..] == f[4..];
    LiteralStep(f[1..], args);
    assert f[1..][1..] == f[2..];
    LiteralStep(f, args);
    assert [ESC] + ([BRACKET] + tail) == Sequence(row, col);
  }

  lemma EmptyFormat()
    ensures F.Render([], []) == Some([])
  {
  }

  lemma LiteralStep(f: seq<byte>, args: seq<F.arg>)
    requires f != [] && f[0] != F.PERCENT
    ensures F.Render(f, args) == F.Join([f[0]], F.Render(f[1..], args))
  {
  }

  /** A format that begins with a plain %d. */
  lemma DecimalStep(f: seq<byte>, args: seq<F.arg>)
    requires |f| >= 2 && f[0] == F.PERCENT && f[1] == 'd' as int
    requires args != [] && args[0].Int? && args[0].v >= 0
    ensures F.Render(f, args) == F.Join(Numeral(args[0].v, 10, false), F.Render(f[2..], args[1..]))
  {
    hide F.IntegerText;
    hide Numeral;
    hide F.Render;
    F.PlainDecimal(args[0].v);
    var spec := F.Spec(F.NoFlags, 0, 0, F.Usual, 'd' as int);
    assert f[1..][1..] == f[2..];
    assert F.ReadSpec(f[1..], args) == Some((f[2..], args, spec));
    assert F.Convert(spec, args) == Some((Numeral(args[0].v, 10, false), args[1..]));
    DirectiveStep(f, args);
  }

  lemma DirectiveStep(f: seq<byte>, args: seq<F.arg>)
    requires f != [] && f[0] == F.PERCENT && F.ReadSpec(f[1..], args).Some?
    requires F.Convert(F.ReadSpec(f[1..], args).value.2, F.ReadSpec(f[1..], args).value.1).Some?
    ensures var d := F.ReadSpec(f[1..], args).value; var c := F.Convert(d.2, d.1).value;
      F.Render(f, args) == F.Join(c.0, F.Render(d.0, c.1))
  {
    hide F.ReadSpec;
    hide F.Convert;
  }

  /** From any state the parser draws nothing, makes one call, and ends idle. */
  lemma SequenceFeeds(p: Parser, row: nat, col: nat)
    requires p.Ok()
    ensures Feed(p, Sequence(row, col)) == (IdleParser(), [Called(MoveTo, [Heard(row), Heard(col)])])
  {
    hide Eval;
    hide Numeral;
    var r, c := Numeral(row, 10, false), Numeral(col, 10, false);
    NumeralDigits(row);
    NumeralDigits(col);
    var p1 := EscParse(p, ESC).0;
    var p2 := EscParse(p1, BRACKET).0;
    assert p2.state == ABracket;
    var p3 := Parser(ArgParse, FirstThree(r), []);
    FeedFirst(p2, r);
    FeedJoin(p2, r, [SEMI] + c + [MoveTo]);
    FeedSecond(p3, c);
    assert [] + Feed(p3, [SEMI] + c + [MoveTo]).1 == Feed(p3, [SEMI] + c + [MoveTo]).1;
    assert Feed(p2, r + ([SEMI] + c + [MoveTo])) == (IdleParser(), [Called(MoveTo, [Heard(row), Heard(col)])]);
    var s := Sequence(row, col);
    assert s[1..][1..] == r + ([SEMI] + c + [MoveTo]);
    FeedHead(p, s);
    FeedHead(p1, s[1..]);
  }

  lemma FeedHead(p: Parser, s: seq<byte>)
    requires p.Ok() && s != [] && EscParse(p, s[0]).1 == Swallow
    ensures Feed(p, s) == Feed(EscParse(p, s[0]).0, s[1..])
  {
    hide EscParse;
  }

  /** After the bracket the first digit starts afresh. */
  lemma FeedFirst(p: Parser, s: seq<byte>)
    requires p.Ok() && p.state == ABracket && s != [] && AllDigits(s)
    ensures Feed(p, s) == (Parser(ArgParse, FirstThree(s), []), [])
  {
    FeedHead(p, s);
    var q := EscParse(p, s[0]).0;
    assert q == Parser(ArgParse, [s[0]], []);
    FeedDigits(q, s[1..]);
    assert [s[0]] + s[1..] == s;
  }

  /** The second number and the letter. */
  lemma FeedSecond(p: Parser, s: seq<byte>)
    requires p.Ok() && p.state == ArgParse && p.args == [] && AllDigits(s)
    ensures Feed(p, [SEMI] + s + [MoveTo]) ==
      (IdleParser(), [Called(MoveTo, [Eval(p.digits, 10) % 256, Eval(FirstThree(s), 10) % 256])])
  {
    hide Eval;
    var t := [SEMI] + s + [MoveTo];
    FeedHead(p, t);
    assert t[1..] == s + [MoveTo];
    var q := EscParse(p, SEMI).0;
    FeedDigits(q, s);
    assert q == Parser(ArgParse, [], [Eval(p.digits, 10) % 256]);
    assert q.digits + s == s;
    FeedJoin(q, s, [MoveTo]);
    var q' := q.(digits := FirstThree(s));
    assert [MoveTo][1..] == [];
    var end := EscParse(q', MoveTo);
    assert q'.args + [Eval(q'.digits, 10) % 256] == [Eval(p.digits, 10) % 256, Eval(FirstThree(s), 10) % 256];
    assert end == (IdleParser(), Call(MoveTo, [Eval(p.digits, 10) % 256, Eval(FirstThree(s), 10) % 256]));
    assert [DeedOf(MoveTo, end.1)] + [] == [DeedOf(MoveTo, end.1)];
    assert Feed(q', [MoveTo]) == (end.0, [DeedOf(MoveTo, end.1)]);
    assert [] + Feed(q', [MoveTo]).1 == Feed(q', [MoveTo]).1;
  }

  /** The whole way, from any state of the terminal: one call with the two numbers,
      if they are at most 255, and nothing changed but the cursor. It is where the
      program put it exactly when that is on the screen. */
  lemma CursorRoundTrip(c: Console, row: nat, col: nat)
    requires c.Ok() && row < 0x8000_0000 && col < 0x8000_0000
    ensures var printed := F.Render(MoveFormat, [F.Int(row), F.Int(col)]);
      && printed.Some?
      && Feed(c.parser, printed.value) == (IdleParser(), [Called(MoveTo, [Heard(row), Heard(col)])])
      && (Heard(row) == row && Heard(col) == col <==> row <= 255 && col <= 255)
      && var c' := Write(c, printed.value);
      && c' == WithScreen(c, SetPos(c.tty.scr, Heard(col) - 1, Heard(row) - 1)).(parser := IdleParser())
      && (c'.tty.scr.x == col - 1 && c'.tty.scr.y == row - 1 <==> 1 <= row <= 25 && 1 <= col <= 80)
  {
    PrintedSequence(row, col);
    SequenceFeeds(c.parser, row, col);
    WritePerforms(c, Sequence(row, col));
    HeardExact(row);
    HeardExact(col);
    hide Heard;
    hide Write;
    hide Feed;
    hide Sequence;
    var deeds := [Called(MoveTo, [Heard(row), Heard(col)])];
    assert deeds[1..] == [];
    assert Perform(c, deeds) == EscFuncs(c, MoveTo, [Heard(row), Heard(col)]);
  }

  /** Over all 32-bit numbers, negative ones included, the format prints something,
      and the cursor ends where the program put it exactly when that is on the
      screen. */
  lemma CursorExact(c: Console, row: int, col: int)
    requires c.Ok() && -0x8000_0000 <= row < 0x8000_0000 && -0x8000_0000 <= col < 0x8000_0000
    ensures F.Render(MoveFormat, [F.Int(row), F.Int(col)]).Some?
    ensures var c' := Write(c, F.Render(MoveFormat, [F.Int(row), F.Int(col)]).value);
      c'.tty.scr.x == col - 1 && c'.tty.scr.y == row - 1 <==> 1 <= row <= 25 && 1 <= col <= 80
  {
    if row >= 0 && col >= 0 {
      CursorRoundTrip(c, row, col);
    } else {
      AlwaysPrints([F.Int(row), F.Int(col)]);
      hide F.Render;
      var c' := Write(c, F.Render(MoveFormat, [F.Int(row), F.Int(col)]).value);
      assert c'.tty.scr.Valid();
    }
  }

  lemma AlwaysPrints(args: seq<F.arg>)
    requires |args| == 2 && args[0].Int? && args[1].Int?
    ensures F.Render(MoveFormat, args).Some?
  {
    hide F.IntegerText;
    var f := MoveFormat;
    EmptyFormat();
    assert args[1..][1..] == [];
    assert f[7..][1..] == [] && f[5..][2..] == f[7..] && f[4..][1..] == f[5..];
    assert f[2..][2..] == f[4..] && f[1..][1..] == f[2..];
    hide F.Render;
    hide F.ReadSpec;
    hide F.Convert;
    LiteralStep(f[7..], []);
    AnyDecimalStep(f[5..], args[1..]);
    LiteralStep(f[4..], args[1..]);
    AnyDecimalStep(f[2..], args);
    LiteralStep(f[1..], args);
    LiteralStep(f, args);
  }

  lemma AnyDecimalStep(f: seq<byte>, args: seq<F.arg>)
    requires |f| >= 2 && f[0] == F.PERCENT && f[1] == 'd' as int && args != [] && args[0].Int?
    requires F.Render(f[2..], args[1..]).Some?
    ensures F.Render(f, args).Some?
  {
    hide F.IntegerText;
    hide F.Render;
    var spec := F.Spec(F.NoFlags, 0, 0, F.Usual, 'd' as int);
    assert f[1..][1..] == f[2..];
    assert F.ReadSpec(f[1..], args) == Some((f[2..], args, spec));
    assert F.Convert(spec, args).Some? && F.Convert(spec, args).value.1 == args[1..];
    DirectiveStep(f, args);
  }
}
