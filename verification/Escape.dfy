/** The resumable escape-sequence parser of term.c, and what the sequences do. */
module Escape {
  import opened Chars
  import opened Screen
  import opened Editor
  import Numerals

  datatype EscState = Idle | AEscape | ABracket | ArgParse

  /** digits is buf[..buf_len] and args is args[..arg_len]. */
  datatype Parser = Parser(state: EscState, digits: seq<byte>, args: seq<byte>)
  {
    ghost predicate Ok() {
      |digits| <= 3 && |args| <= 3 && forall i :: 0 <= i < |digits| ==> IsNum(digits[i])
    }
  }

  /** What one byte leads to: it is drawn, swallowed, or completes a sequence. */
  datatype Action = Draw | Swallow | Call(f: byte, args: seq<byte>)

  function IdleParser(): Parser {
    Parser(Idle, [], [])
  }

  function ParseArg(p: Parser, c: byte): (r: (Parser, Action))
    requires p.Ok()
    ensures r.0.Ok()
  {
    if IsNum(c) then
      (p.(digits := if |p.digits| < 3 then p.digits + [c] else p.digits), Swallow)
    else
      var args := if |p.args| < 3 then p.args + [Numerals.Eval(p.digits, 10) % 256] else p.args;
      if c != SEMI then (IdleParser(), Call(c, args))
      else (p.(args := args, digits := []), Swallow)
  }

  /** buf_len and arg_len stay at most 3 whatever is fed in. */
  function EscParse(p: Parser, c: byte): (r: (Parser, Action))
    requires p.Ok()
    ensures r.0.Ok()
  {
    if c == ESC then (p.(state := AEscape), Swallow)
    else if p.state == AEscape && c == BRACKET then (p.(state := ABracket), Swallow)
    else if p.state == ABracket then
      if IsNum(c) then ParseArg(Parser(ArgParse, [], []), c)
      else (IdleParser(), Call(c, []))
    else if p.state == ArgParse then ParseArg(p, c)
    else (p, Draw)
  }

  /** A terminal with its parser and stored cursor. */
  datatype Console = Console(tty: Tty, storeX: int, storeY: int, parser: Parser)
  {
    ghost predicate Ok() {
      tty.Ok() && parser.Ok()
    }
  }

  function WithScreen(c: Console, s: Screen): Console {
    c.(tty := c.tty.(scr := s))
  }

  function Foreground(attr: byte, color: byte): byte {
    attr / 16 * 16 + color % 16
  }

  function Background(attr: byte, color: byte): byte {
    attr % 16 + color % 16 * 16
  }

  function EscFuncs(c: Console, f: byte, args: seq<byte>): (r: Console)
    requires c.Ok()
    ensures r.Ok() && r.parser == c.parser
  {
    var s := c.tty.scr;
    if f == 'f' as int then
      WithScreen(c, s.(attr := Foreground(s.attr, if args != [] then args[0] else DEF_ATTR % 16)))
    else if f == 'b' as int then
      WithScreen(c, s.(attr := Background(s.attr, if args != [] then args[0] else DEF_ATTR / 16)))
    else if f == 'p' as int then
      if |args| > 1 then WithScreen(c, SetPos(s, args[1] as int - 1, args[0] as int - 1)) else c
    else if f == 'e' as int then
      if args == [] then c.(storeX := s.x, storeY := s.y) else c
    else if f == 'r' as int then
      if args == [] then WithScreen(c, SetPos(s, c.storeX, c.storeY)) else c
    else if f == 'c' as int then
      if args == [] then WithScreen(c, Clear(s)) else c
    else if (f == 's' as int || f == 'S' as int) && args != [] then
      if args[0] == 1 then c.(tty := c.tty.(noecho := f == 's' as int))
      else if args[0] == 2 then c.(tty := c.tty.(canon := f == 's' as int))
      else c
    else c
  }

  /** One byte of term_write. */
  function WriteByte(c: Console, b: byte): (r: Console)
    requires c.Ok()
    ensures r.Ok()
  {
    var (p, action) := EscParse(c.parser, b);
    match action
    case Draw => WithScreen(c, Putc(c.tty.scr, b)).(parser := p)
    case Swallow => c.(parser := p)
    case Call(f, args) => EscFuncs(c, f, args).(parser := p)
  }

  function Write(c: Console, bytes: seq<byte>): (r: Console)
    requires c.Ok()
    ensures r.Ok()
    decreases |bytes|
  {
    if bytes == [] then c else Write(WriteByte(c, bytes[0]), bytes[1..])
  }
}
