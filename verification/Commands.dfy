/** What programs get from the escape sequences: each command, written as its bytes from
    any state of the parser, and plain text between them. */
module Commands {
  import opened Chars
  import opened Numerals
  import opened Screen
  import opened Editor
  import opened Escape
  import opened RoundTrip

  /** ESC [ and a letter. */
  function Command(letter: char): seq<byte>
    requires letter < 128 as char
  {
    [27, 91, letter as int]
  }

  /** ESC [, a number and a letter. */
  function NumberCommand(n: nat, letter: char): seq<byte>
    requires letter < 128 as char
  {
    [27, 91] + Numeral(n, 10, false) + [letter as int]
  }

  /** A terminal after a command: its modes, attribute and cells changed as said, its
      parser idle, the line and the read untouched. */
  ghost predicate Becomes(c: Console, d: Console, scr: Screen, noecho: bool, canon: bool) {
    d == c.(tty := c.tty.(scr := scr, noecho := noecho, canon := canon), parser := Parser(Idle, [], []))
  }

  lemma CommandCalls(c: Console, letter: byte)
    requires c.Ok() && !IsNum(letter) && letter != ESC && letter != BRACKET
    ensures Write(c, [27, 91, letter]) == EscFuncs(c, letter, []).(parser := Parser(Idle, [], []))
  {
    hide EscFuncs;
    var s := [27, 91, letter];
    var p1 := EscParse(c.parser, 27).0;
    var p2 := EscParse(p1, 91).0;
    FeedHead(c.parser, s);
    assert s[1..] == [91, letter] && s[1..][1..] == [letter] && [letter][1..] == [];
    FeedHead(p1, s[1..]);
    LastByte(p2, letter);
    WritePerforms(c, s);
    OneDeed(c, letter, []);
  }

  lemma LastByte(p: Parser, letter: byte)
    requires p.Ok() && p.state == ABracket && !IsNum(letter) && letter != ESC
    ensures Feed(p, [letter]) == (IdleParser(), [Called(letter, [])])
  {
    assert [letter][1..] == [];
    assert [Called(letter, [])] + [] == [Called(letter, [])];
  }

  lemma OneDeed(c: Console, letter: byte, args: seq<byte>)
    requires c.Ok()
    ensures Perform(c, [Called(letter, args)]) == EscFuncs(c, letter, args)
  {
    assert [Called(letter, args)][1..] == [];
  }

  lemma NumberCalls(c: Console, n: nat, letter: byte)
    requires c.Ok() && n <= 255 && !IsNum(letter) && letter != ESC && letter != SEMI
    ensures Write(c, [27, 91] + Numeral(n, 10, false) + [letter])
      == EscFuncs(c, letter, [n]).(parser := Parser(Idle, [], []))
  {
    hide EscFuncs;
    hide Numeral;
    hide Feed;
    NumberFeeds(c.parser, n, letter);
    WritePerforms(c, [27, 91] + Numeral(n, 10, false) + [letter]);
    OneDeed(c, letter, [n]);
  }

  lemma NumberFeeds(p: Parser, n: nat, letter: byte)
    requires p.Ok() && n <= 255 && !IsNum(letter) && letter != ESC && letter != SEMI
    ensures Feed(p, [27, 91] + Numeral(n, 10, false) + [letter]) == (IdleParser(), [Called(letter, [n])])
  {
    hide Numeral;
    hide Eval;
    var num := Numeral(n, 10, false);
    var s := [27, 91] + num + [letter];
    var p1 := EscParse(p, 27).0;
    var p2 := EscParse(p1, 91).0;
    assert p2.state == ABracket;
    FeedHead(p, s);
    FeedHead(p1, s[1..]);
    hide EscParse;
    hide Feed;
    assert s[1..][1..] == num + [letter];
    NumeralDigits(n);
    FeedFirst(p2, num);
    FeedJoin(p2, num, [letter]);
    HeardExact(n);
    NumberEnds(FirstThree(num), letter);
    assert [] + [Called(letter, [n])] == [Called(letter, [n])];
  }

  lemma NumberEnds(digits: seq<byte>, letter: byte)
    requires |digits| <= 3 && AllDigits(digits) && !IsNum(letter) && letter != ESC && letter != SEMI
    ensures Feed(Parser(ArgParse, digits, []), [letter])
      == (IdleParser(), [Called(letter, [Eval(digits, 10) % 256])])
  {
    hide Eval;
    assert [letter][1..] == [];
    var n: byte := Eval(digits, 10) % 256;
    assert [] + [n] == [n];
    assert [Called(letter, [n])] + [] == [Called(letter, [n])];
  }

  // ---- text ----

  /** Without an escape, and with the parser idle, output is what putc makes of it. */
  lemma {:induction false} TextIsDrawn(c: Console, t: seq<byte>)
    requires c.Ok() && c.parser.state == Idle && ESC !in t
    ensures Write(c, t) == c.(tty := c.tty.(scr := PutAll(c.tty.scr, t)))
    decreases |t|
  {
    hide Putc;
    if t != [] {
      var d := WriteByte(c, t[0]);
      assert d == c.(tty := c.tty.(scr := Putc(c.tty.scr, t[0])));
      TextIsDrawn(d, t[1..]);
    }
  }

  /** After an escape, too, characters are drawn until a bracket comes. */
  lemma {:induction false} EscapeWaits(c: Console, t: seq<byte>)
    requires c.Ok() && c.parser.state == AEscape && ESC !in t && BRACKET !in t
    ensures Write(c, t) == c.(tty := c.tty.(scr := PutAll(c.tty.scr, t)))
    decreases |t|
  {
    hide Putc;
    if t != [] {
      var d := WriteByte(c, t[0]);
      assert d == c.(tty := c.tty.(scr := Putc(c.tty.scr, t[0])));
      EscapeWaits(d, t[1..]);
    }
  }

  // ---- the commands ----

  /** The low half of the attribute is the colour of the text, the high half that of its
      background; each command sets its own half, and without a number to the default. */
  lemma Colours(c: Console, n: nat)
    requires c.Ok() && n <= 255
    ensures var s := c.tty.scr;
      var f, f0 := Write(c, NumberCommand(n, 'f')), Write(c, Command('f'));
      var b, b0 := Write(c, NumberCommand(n, 'b')), Write(c, Command('b'));
      && Becomes(c, f, s.(attr := f.tty.scr.attr), c.tty.noecho, c.tty.canon)
      && f.tty.scr.attr % 16 == n % 16 && f.tty.scr.attr / 16 == s.attr / 16
      && Becomes(c, f0, s.(attr := f0.tty.scr.attr), c.tty.noecho, c.tty.canon)
      && f0.tty.scr.attr % 16 == 15 && f0.tty.scr.attr / 16 == s.attr / 16
      && Becomes(c, b, s.(attr := b.tty.scr.attr), c.tty.noecho, c.tty.canon)
      && b.tty.scr.attr / 16 == n % 16 && b.tty.scr.attr % 16 == s.attr % 16
      && Becomes(c, b0, s.(attr := b0.tty.scr.attr), c.tty.noecho, c.tty.canon)
      && b0.tty.scr.attr / 16 == 0 && b0.tty.scr.attr % 16 == s.attr % 16
  {
    hide Write;
    hide NumberCommand;
    hide Command;
    TextColour(c, n);
    BackgroundColour(c, n);
  }

  lemma TextColour(c: Console, n: nat)
    requires c.Ok() && n <= 255
    ensures var s := c.tty.scr;
      var f, f0 := Write(c, NumberCommand(n, 'f')), Write(c, Command('f'));
      && Becomes(c, f, s.(attr := f.tty.scr.attr), c.tty.noecho, c.tty.canon)
      && f.tty.scr.attr % 16 == n % 16 && f.tty.scr.attr / 16 == s.attr / 16
      && Becomes(c, f0, s.(attr := f0.tty.scr.attr), c.tty.noecho, c.tty.canon)
      && f0.tty.scr.attr % 16 == 15 && f0.tty.scr.attr / 16 == s.attr / 16
  {
    hide Write;
    hide Numeral;
    NumberCalls(c, n, 'f' as int);
    CommandCalls(c, 'f' as int);
    Halves(c.tty.scr.attr, n);
    Halves(c.tty.scr.attr, 15);
    hide Foreground;
  }

  lemma BackgroundColour(c: Console, n: nat)
    requires c.Ok() && n <= 255
    ensures var s := c.tty.scr;
      var b, b0 := Write(c, NumberCommand(n, 'b')), Write(c, Command('b'));
      && Becomes(c, b, s.(attr := b.tty.scr.attr), c.tty.noecho, c.tty.canon)
      && b.tty.scr.attr / 16 == n % 16 && b.tty.scr.attr % 16 == s.attr % 16
      && Becomes(c, b0, s.(attr := b0.tty.scr.attr), c.tty.noecho, c.tty.canon)
      && b0.tty.scr.attr / 16 == 0 && b0.tty.scr.attr % 16 == s.attr % 16
  {
    hide Write;
    hide Numeral;
    NumberCalls(c, n, 'b' as int);
    CommandCalls(c, 'b' as int);
    Halves(c.tty.scr.attr, n);
    Halves(c.tty.scr.attr, 0);
    hide Background;
  }

  lemma Halves(attr: byte, color: byte)
    ensures Foreground(attr, color) % 16 == color % 16 && Foreground(attr, color) / 16 == attr / 16
    ensures Background(attr, color) / 16 == color % 16 && Background(attr, color) % 16 == attr % 16
  {
  }

  /** Clearing blanks all 2000 cells in the attribute in force; the cursor stays. */
  lemma Clears(c: Console)
    requires c.Ok()
    ensures var s := c.tty.scr;
      Becomes(c, Write(c, Command('c')), s.(cells := seq(2000, i => Cell(32, s.attr))), c.tty.noecho, c.tty.canon)
  {
    CommandCalls(c, 'c' as int);
    hide Write;
  }

  /** A mode command changes one mode: 1 is no echo, 2 is canonical; s sets it and S
      takes it back. */
  lemma Modes(c: Console)
    requires c.Ok()
    ensures var s, t := c.tty.scr, c.tty;
      && Becomes(c, Write(c, NumberCommand(1, 's')), s, true, t.canon)
      && Becomes(c, Write(c, NumberCommand(1, 'S')), s, false, t.canon)
      && Becomes(c, Write(c, NumberCommand(2, 's')), s, t.noecho, true)
      && Becomes(c, Write(c, NumberCommand(2, 'S')), s, t.noecho, false)
  {
    hide Write;
    hide NumberCommand;
    ModeCommand(c, 1, 's');
    ModeCommand(c, 1, 'S');
    ModeCommand(c, 2, 's');
    ModeCommand(c, 2, 'S');
  }

  lemma ModeCommand(c: Console, n: nat, letter: char)
    requires c.Ok() && 1 <= n <= 2 && (letter == 's' || letter == 'S')
    ensures Becomes(c, Write(c, NumberCommand(n, letter)), c.tty.scr,
                    if n == 1 then letter == 's' else c.tty.noecho, if n == 2 then letter == 's' else c.tty.canon)
  {
    hide Write;
    hide Numeral;
    NumberCalls(c, n, letter as int);
  }

  /** The cursor is saved, text is drawn, and the cursor comes back: the screen is as the
      text left it, with the cursor where it was. */
  lemma SaveAndRestore(c: Console, t: seq<byte>)
    requires c.Ok() && ESC !in t
    ensures var s := c.tty.scr;
      var d := Write(Write(Write(c, Command('e')), t), Command('r'));
      d.tty == c.tty.(scr := PutAll(s, t).(x := s.x, y := s.y)) && d.parser == Parser(Idle, [], [])
  {
    hide PutAll;
    CommandCalls(c, 'e' as int);
    var saved := Write(c, Command('e'));
    assert saved.tty == c.tty && saved.storeX == c.tty.scr.x && saved.storeY == c.tty.scr.y;
    TextIsDrawn(saved, t);
    var drawn := Write(saved, t);
    CommandCalls(drawn, 'r' as int);
    hide Write;
    assert Clamp(c.tty.scr.x, COLS) == c.tty.scr.x && Clamp(c.tty.scr.y, ROWS) == c.tty.scr.y;
  }
}
