/** The terminals of term.c, updated in place: the line buffer, the screen memory
    and the parser are arrays, and every operation is proved to act as the
    functions of Screen, Editor and Escape say. */
module Terminal {
  import opened Chars
  import S = Screen
  import E = Editor
  import P = Escape
  import Numerals

  method CopyCells(from: array<S.Cell>, to: array<S.Cell>)
    requires from.Length == S.SIZE && to.Length == S.SIZE && from != to
    modifies to
    ensures to[..] == from[..]
  {
    for i := 0 to S.SIZE
      invariant to[..i] == from[..i]
    {
      to[i] := from[i];
    }
    assert to[..] == to[..S.SIZE] && from[..] == from[..S.SIZE];
  }

  class Term {
    const termBuf: array<byte>
    var count: nat
    var curpos: nat
    var readDone: bool
    var reading: bool
    var noecho: bool
    var canon: bool

    var videoMem: array<S.Cell>
    const videoBuffer: array<S.Cell>
    var curX: int
    var curY: int
    var storeX: int
    var storeY: int
    var attr: byte

    var state: P.EscState
    const buf: array<byte>
    var bufLen: nat
    const args: array<byte>
    var argLen: nat

    /** One terminal of init_term, on the given screen or on its own buffer. */
    constructor (screen: array?<S.Cell>)
      requires screen != null ==> screen.Length == S.SIZE
      ensures Valid()
      ensures videoMem == if screen != null then screen else videoBuffer
      ensures fresh(termBuf) && fresh(buf) && fresh(args) && fresh(videoBuffer)
      ensures Now() == Fresh()
      modifies screen
    {
      termBuf := new byte[128];
      buf := new byte[4];
      args := new byte[4];
      var own := new S.Cell[S.SIZE];
      videoBuffer := own;
      videoMem := if screen != null then screen else own;
      count, curpos, bufLen, argLen := 0, 0, 0, 0;
      readDone, reading, noecho, canon := false, false, false, false;
      curX, curY, storeX, storeY := 0, 0, 0, 0;
      attr := S.DEF_ATTR;
      state := P.Idle;
      new;
      Clear();
    }

    static function Fresh(): P.Console {
      P.Console(E.Tty(S.Screen(seq(S.SIZE, i => S.BLANK), 0, 0, S.DEF_ATTR), [], 0, false, false, false, false),
                0, 0, P.IdleParser())
    }

    ghost predicate Sized()
      reads this
    {
      && termBuf.Length == 128 && buf.Length == 4 && args.Length == 4
      && termBuf != buf && termBuf != args && buf != args
      && videoMem.Length == S.SIZE && videoBuffer.Length == S.SIZE
      && count <= E.TERM_BUF_SIZE && curpos <= count && bufLen <= 3 && argLen <= 3
    }

    ghost function Scr(): S.Screen
      reads this, videoMem
    {
      S.Screen(videoMem[..], curX, curY, attr)
    }

    ghost function Tty(): E.Tty
      requires Sized()
      reads this, videoMem, termBuf
    {
      E.Tty(Scr(), termBuf[..count], curpos, noecho, canon, reading, readDone)
    }

    ghost function Parser(): P.Parser
      requires Sized()
      reads this, buf, args
    {
      P.Parser(state, buf[..bufLen], args[..argLen])
    }

    ghost function Now(): P.Console
      requires Sized()
      reads this, videoMem, termBuf, buf, args
    {
      P.Console(Tty(), storeX, storeY, Parser())
    }

    ghost predicate Editable()
      reads this, videoMem, termBuf
    {
      Sized() && Tty().Ok()
    }

    ghost predicate Valid()
      reads this, videoMem, termBuf, buf, args
    {
      Sized() && Now().Ok()
    }

    // ---- drawing ----

    method SetPos(x: int, y: int)
      modifies `curX, `curY
      ensures Scr() == S.SetPos(old(Scr()), x, y)
    {
      var cx, cy := x, y;
      if x < 0 {
        cx := 0;
      } else if x >= S.COLS {
        cx := S.COLS - 1;
      }
      if y < 0 {
        cy := 0;
      } else if y >= S.ROWS {
        cy := S.ROWS - 1;
      }
      curX := cx;
      curY := cy;
    }

    method SetVidChar(x: int, y: int, ch: byte)
      requires videoMem.Length == S.SIZE
      modifies videoMem
      ensures videoMem[..] ==
        if 0 <= x < S.COLS && 0 <= y < S.ROWS
        then old(videoMem[..])[S.COLS * y + x := S.Cell(ch, attr)]
        else old(videoMem[..])
    {
      if x < 0 || x >= S.COLS || y < 0 || y >= S.ROWS {
        return;
      }
      videoMem[S.COLS * y + x] := S.Cell(ch, attr);
    }

    /** The inner loop of scroll: row y takes the characters and attributes of
        the row below it. */
    method RaiseRow(y: nat)
      requires videoMem.Length == S.SIZE && y < S.ROWS - 1
      modifies `attr, videoMem
      ensures forall k :: 0 <= k < S.SIZE ==>
        videoMem[k] == if S.COLS * y <= k < S.COLS * (y + 1) then old(videoMem[k + S.COLS]) else old(videoMem[k])
    {
      for x := 0 to S.COLS
        invariant forall k :: 0 <= k < S.SIZE ==>
          videoMem[k] == if S.COLS * y <= k < S.COLS * y + x then old(videoMem[k + S.COLS]) else old(videoMem[k])
      {
        ghost var before := videoMem[..];
        var next := videoMem[S.COLS * (y + 1) + x];
        attr := next.attr;
        SetVidChar(x, y, next.ch);
        assert forall k :: 0 <= k < S.SIZE ==> videoMem[..][k] == before[S.COLS * y + x := next][k];
      }
    }

    method BlankLastRow()
      requires videoMem.Length == S.SIZE && attr == S.DEF_ATTR
      modifies videoMem
      ensures forall k :: 0 <= k < S.SIZE ==>
        videoMem[k] == if S.SIZE - S.COLS <= k then S.BLANK else old(videoMem[k])
    {
      for x := 0 to S.COLS
        invariant forall k :: 0 <= k < S.SIZE ==>
          videoMem[k] == if S.SIZE - S.COLS <= k < S.SIZE - S.COLS + x then S.BLANK else old(videoMem[k])
      {
        ghost var before := videoMem[..];
        SetVidChar(x, S.ROWS - 1, SPACE);
        assert forall k :: 0 <= k < S.SIZE ==> videoMem[..][k] == before[S.SIZE - S.COLS + x := S.BLANK][k];
      }
    }

    method Scroll()
      requires videoMem.Length == S.SIZE
      modifies `curX, `curY, `attr, videoMem
      ensures Scr() == S.Scroll(old(Scr()))
    {
      var oldAttr := attr;
      for y := 0 to S.ROWS - 1
        invariant curX == old(curX) && curY == old(curY) && videoMem == old(videoMem)
        invariant forall k :: 0 <= k < S.SIZE ==>
          videoMem[k] == if k < S.COLS * y then old(videoMem[k + S.COLS]) else old(videoMem[k])
      {
        RaiseRow(y);
      }
      attr := S.DEF_ATTR;
      BlankLastRow();
      SetPos(curX, curY - 1);
      attr := oldAttr;
      assert videoMem[..] == S.Scroll(old(Scr())).cells;
    }

    method Back()
      modifies `curX, `curY
      requires 0 <= curX < S.COLS
      ensures Scr() == S.Back(old(Scr()))
    {
      curX := curX - 1;
      if curX < 0 {
        curX := curX + S.COLS;
        curY := curY - 1;
      }
      SetPos(curX, curY);
    }

    method Forward()
      modifies `curX, `curY
      requires 0 <= curX < S.COLS
      ensures Scr() == S.Forward(old(Scr()))
    {
      curX := curX + 1;
      if curX >= S.COLS {
        curX := curX - S.COLS;
        curY := curY + 1;
      }
      SetPos(curX, curY);
    }

    method Clear()
      requires videoMem.Length == S.SIZE
      modifies videoMem
      ensures Scr() == S.Clear(old(Scr()))
    {
      for i := 0 to S.SIZE
        invariant forall k :: 0 <= k < i ==> videoMem[k] == S.Cell(SPACE, attr)
      {
        videoMem[i] := S.Cell(SPACE, attr);
      }
      assert videoMem[..] == S.Clear(old(Scr())).cells;
    }

    method Putc(c: byte)
      requires Scr().Valid()
      modifies `curX, `curY, `attr, videoMem
      ensures Scr() == S.Putc(old(Scr()), c)
    {
      if c == LF {
        curY := curY + 1;
        curX := 0;
        if curY >= S.ROWS {
          Scroll();
          curY := S.ROWS - 1;
        }
      } else if c == CR {
        curX := 0;
      } else if c == BS {
        Back();
        SetVidChar(curX, curY, SPACE);
      } else {
        SetVidChar(curX, curY, c);
        curX := curX + 1;
        if curX >= S.COLS {
          curX := curX - S.COLS;
          curY := curY + 1;
        }
        if curY >= S.ROWS {
          Scroll();
          curY := S.ROWS - 1;
        }
      }
      SetPos(curX, curY);
    }

    // ---- moving between the hardware screen and the terminal's own buffer ----

    method SaveScreen()
      requires Valid() && videoMem != videoBuffer
      modifies `videoMem, videoBuffer
      ensures Valid() && Now() == old(Now()) && videoMem == videoBuffer
    {
      CopyCells(videoMem, videoBuffer);
      videoMem := videoBuffer;
    }

    method ShowOn(hw: array<S.Cell>)
      requires Valid() && videoMem == videoBuffer && hw != videoBuffer && hw.Length == S.SIZE
      modifies `videoMem, `curX, `curY, hw
      ensures Valid() && Now() == old(Now()) && videoMem == hw
    {
      videoMem := hw;
      SetPos(curX, curY);
      CopyCells(videoBuffer, hw);
    }

    // ---- the line editor ----

    method PutText(from: nat, to: nat)
      requires Sized() && Scr().Valid() && from <= to <= 128
      modifies `curX, `curY, `attr, videoMem
      ensures Scr() == S.PutAll(old(Scr()), termBuf[from..to])
    {
      var i := from;
      while i < to
        invariant from <= i <= to && Scr().Valid() && videoMem == old(videoMem)
        invariant S.PutAll(Scr(), termBuf[i..to]) == S.PutAll(old(Scr()), termBuf[from..to])
      {
        assert termBuf[i..to][1..] == termBuf[i + 1..to];
        Putc(termBuf[i]);
        i := i + 1;
      }
    }

    method BackSteps(n: nat)
      requires Scr().Valid()
      modifies `curX, `curY
      ensures Scr() == S.BackBy(old(Scr()), n)
    {
      for i := 0 to n
        invariant Scr().Valid() && S.BackBy(Scr(), n - i) == S.BackBy(old(Scr()), n)
      {
        Back();
      }
    }

    method ForwardSteps(n: nat)
      requires Scr().Valid()
      modifies `curX, `curY
      ensures Scr() == S.ForwardBy(old(Scr()), n)
    {
      for i := 0 to n
        invariant Scr().Valid() && S.ForwardBy(Scr(), n - i) == S.ForwardBy(old(Scr()), n)
      {
        Forward();
      }
    }

    method ScrollSteps(n: nat)
      requires Scr().Valid()
      modifies `curX, `curY, `attr, videoMem
      ensures Scr() == S.ScrollBy(old(Scr()), n)
    {
      for i := 0 to n
        invariant videoMem == old(videoMem)
        invariant Scr().Valid() && S.ScrollBy(Scr(), n - i) == S.ScrollBy(old(Scr()), n)
      {
        Scroll();
      }
    }

    /** Opens a gap at curpos and puts ch into it. */
    method InsertAt(ch: byte)
      requires Sized() && count < E.TERM_BUF_SIZE
      modifies `count, `curpos, termBuf
      ensures count == old(count) + 1 && curpos == old(curpos) + 1
      ensures termBuf[..count] == old(termBuf[..curpos] + [ch] + termBuf[curpos..count])
    {
      ghost var was := termBuf[..];
      OpenGap();
      termBuf[curpos] := ch;
      GapFilled(was, termBuf[..], curpos, count, ch);
      curpos := curpos + 1;
      count := count + 1;
    }

    /** Moves the characters from curpos on up by one. */
    method OpenGap()
      requires Sized() && count < E.TERM_BUF_SIZE
      modifies termBuf
      ensures forall k {:trigger termBuf[k]} :: 0 <= k <= curpos ==> termBuf[k] == old(termBuf[k])
      ensures forall k {:trigger termBuf[k]} :: curpos < k <= count ==> termBuf[k] == old(termBuf[k - 1])
    {
      var i := count;
      while i > curpos
        invariant curpos <= i <= count
        invariant forall k {:trigger termBuf[k]} :: 0 <= k <= i ==> termBuf[k] == old(termBuf[k])
        invariant forall k {:trigger termBuf[k]} :: i < k <= count ==> termBuf[k] == old(termBuf[k - 1])
      {
        termBuf[i] := termBuf[i - 1];
        i := i - 1;
      }
    }

    static lemma GapFilled(was: seq<byte>, now: seq<byte>, cur: nat, count: nat, ch: byte)
      requires |was| == |now| && cur <= count < |was| && now[cur] == ch
      requires forall k {:trigger now[k]} :: 0 <= k < cur ==> now[k] == was[k]
      requires forall k {:trigger now[k]} :: cur < k <= count ==> now[k] == was[k - 1]
      ensures now[..count + 1] == was[..cur] + [ch] + was[cur..count]
    {
    }

    /** Closes the gap left by the character before curpos. */
    method RemoveBefore()
      requires Sized() && curpos > 0
      modifies `count, `curpos, termBuf
      ensures count == old(count) - 1 && curpos == old(curpos) - 1
      ensures termBuf[..count] == old(termBuf[..curpos - 1] + termBuf[curpos..count])
    {
      var i := curpos - 1;
      while i < count - 1
        invariant curpos - 1 <= i <= count - 1 && curpos == old(curpos) && count == old(count)
        invariant forall k {:trigger termBuf[k]} :: curpos - 1 <= k < i ==> termBuf[k] == old(termBuf[k + 1])
        invariant forall k {:trigger termBuf[k]} :: 0 <= k < termBuf.Length && !(curpos - 1 <= k < i) ==>
          termBuf[k] == old(termBuf[k])
      {
        termBuf[i] := termBuf[i + 1];
        i := i + 1;
      }
      curpos := curpos - 1;
      count := count - 1;
    }

    /** Draws ch and the line behind it, and steps back behind ch. */
    method DrawInserted(ch: byte)
      requires Sized() && Scr().Valid()
      modifies `curX, `curY, `attr, videoMem
      ensures Scr() == S.BackBy(S.PutAll(old(Scr()), [ch] + termBuf[curpos..count]), count - curpos)
    {
      assert ([ch] + termBuf[curpos..count])[1..] == termBuf[curpos..count];
      Putc(ch);
      PutText(curpos, count);
      BackSteps(count - curpos);
    }

    method AddCh(ch: byte)
      requires Editable()
      modifies `count, `curpos, `curX, `curY, `attr, termBuf, videoMem
      ensures Editable() && Tty() == E.AddCh(old(Tty()), ch)
    {
      hide S.PutAll;
      hide S.BackBy;
      if count < E.TERM_BUF_SIZE && reading {
        ghost var tail := termBuf[curpos..count];
        InsertAt(ch);
        assert termBuf[curpos..count] == tail;
        if !noecho {
          DrawInserted(ch);
        }
      }
    }

    /** Steps back and redraws the line from there, blanking its old last cell. */
    method RedrawTail()
      requires Sized() && Scr().Valid()
      modifies `curX, `curY, `attr, videoMem
      ensures var b := S.Back(old(Scr()));
        Scr() == S.SetPos(S.PutAll(b, termBuf[curpos..count] + [SPACE]), b.x, b.y)
    {
      Back();
      var oldX, oldY := curX, curY;
      ghost var b := Scr();
      PutText(curpos, count);
      Putc(SPACE);
      S.PutAllConcat(b, termBuf[curpos..count], [SPACE]);
      S.PutAllOne(S.PutAll(b, termBuf[curpos..count]), SPACE);
      SetPos(oldX, oldY);
    }

    method DelCh()
      requires Editable()
      modifies `count, `curpos, `curX, `curY, `attr, termBuf, videoMem
      ensures Editable() && Tty() == E.DelCh(old(Tty()))
    {
      if curpos > 0 {
        ghost var tail := termBuf[curpos..count];
        RemoveBefore();
        assert termBuf[curpos..count] == tail;
        hide S.PutAll;
        hide S.Back;
        if !canon {
          RedrawTail();
        }
      }
    }

    method CharBack()
      requires Editable() && curpos > 0
      modifies `curpos, `curX, `curY
      ensures Editable() && Tty() == E.CharBack(old(Tty()))
    {
      curpos := curpos - 1;
      Back();
    }

    method CharForward()
      requires Editable() && curpos < count
      modifies `curpos, `curX, `curY
      ensures Editable() && Tty() == E.CharForward(old(Tty()))
    {
      curpos := curpos + 1;
      Forward();
    }

    method MoveLeft(r: E.Run)
      requires Editable()
      modifies `curpos, `curX, `curY
      ensures Editable() && Tty() == E.MoveLeft(old(Tty()), r)
    {
      while curpos > 0 && E.In(r, termBuf[curpos - 1])
        invariant Editable() && E.MoveLeft(Tty(), r) == E.MoveLeft(old(Tty()), r)
        decreases curpos
      {
        CharBack();
      }
    }

    method MoveRight(r: E.Run)
      requires Editable()
      modifies `curpos, `curX, `curY
      ensures Editable() && Tty() == E.MoveRight(old(Tty()), r)
    {
      while curpos < count && E.In(r, termBuf[curpos])
        invariant Editable() && E.MoveRight(Tty(), r) == E.MoveRight(old(Tty()), r)
        decreases count - curpos
      {
        CharForward();
      }
    }

    method KillLeft(r: E.Run)
      requires Editable()
      modifies `count, `curpos, `curX, `curY, `attr, termBuf, videoMem
      ensures Editable() && Tty() == E.KillLeft(old(Tty()), r)
    {
      while curpos > 0 && E.In(r, termBuf[curpos - 1])
        invariant Editable() && videoMem == old(videoMem)
        invariant E.KillLeft(Tty(), r) == E.KillLeft(old(Tty()), r)
        decreases curpos
      {
        DelCh();
      }
    }

    method LineToTop()
      requires Editable()
      modifies `curX, `curY, `attr, videoMem
      ensures Editable() && Tty() == E.LineToTop(old(Tty()))
    {
      BackSteps(curpos);
      ScrollSteps(curY);
      ForwardSteps(curpos);
    }

    method CtrlKey(k: byte)
      requires Editable()
      modifies `count, `curpos, `readDone, `curX, `curY, `attr, termBuf, videoMem
      ensures Editable() && Tty() == E.CtrlKey(old(Tty()), k)
    {
      if k == 'l' as int {
        LineToTop();
      } else if k == 'b' as int {
        if curpos > 0 {
          CharBack();
        }
      } else if k == 'f' as int {
        if curpos < count {
          CharForward();
        }
      } else if k == 'a' as int {
        MoveLeft(E.Any);
      } else if k == 'e' as int {
        MoveRight(E.Any);
      } else if k == 'w' as int {
        if curpos > 0 {
          KillLeft(E.RunOf(termBuf[curpos - 1]));
        }
      } else if k == 'u' as int {
        KillLeft(E.Any);
      } else if k == 'h' as int {
        DelCh();
      } else if k == 'c' as int {
        ghost var s := Scr();
        Putc('^' as int);
        Putc('C' as int);
        S.PutAllConcat(s, ['^' as int], ['C' as int]);
        S.PutAllOne(s, '^' as int);
        S.PutAllOne(S.Putc(s, '^' as int), 'C' as int);
      } else if k == 'm' as int {
        readDone := true;
      }
    }

    method AltKey(k: byte)
      requires Editable()
      modifies `curpos, `curX, `curY
      ensures Editable() && Tty() == E.AltKey(old(Tty()), k)
    {
      if k == 'b' as int {
        if curpos > 0 {
          MoveLeft(E.RunOf(termBuf[curpos - 1]));
        }
      } else if k == 'f' as int {
        if curpos < count {
          MoveRight(E.RunOf(termBuf[curpos]));
        }
      }
    }

    /** term_key_handler, but for the switch to another terminal. */
    method HandleKey(k: E.Key)
      requires Editable()
      modifies `count, `curpos, `readDone, `curX, `curY, `attr, termBuf, videoMem
      ensures Editable() && Tty() == E.HandleKey(old(Tty()), k)
    {
      if canon && !E.SwitchesTerminal(k) {
        curpos := count;
        AddCh(k.key);
      } else if k.modifiers == E.MOD_CTRL {
        CtrlKey(k.key);
      } else if k.modifiers == E.MOD_ALT {
        AltKey(k.key);
      } else if k.key == E.KEY_ENTER {
        CtrlKey('m' as int);
      } else if k.key == E.KEY_BACK {
        CtrlKey('h' as int);
      } else if k.key == E.KEY_LEFT {
        CtrlKey('b' as int);
      } else if k.key == E.KEY_RIGHT {
        CtrlKey('f' as int);
      } else if E.KEY_F1 <= k.key <= E.KEY_F12 {
      } else {
        AddCh(k.key);
      }
    }

    /** term_read up to its wait. */
    method BeginRead()
      requires Editable()
      modifies `reading
      ensures Editable() && Tty() == E.BeginRead(old(Tty()))
    {
      reading := true;
    }

    /** term_read from the end of its wait, outside canonical mode. */
    method EndRead(out: array<byte>, nbytes: nat) returns (copied: nat)
      requires Editable() && !canon && readDone
      requires out != termBuf && out != buf && out != args && nbytes <= out.Length
      modifies `reading, `count, `curpos, `readDone, `curX, `curY, `attr, termBuf, videoMem, out
      ensures Editable() && Tty() == E.EndRead(old(Tty()))
      ensures copied <= out.Length && out[..copied] == E.ReadLine(old(Tty()), nbytes)
    {
      hide S.Putc;
      reading := false;
      if !noecho {
        Putc(LF);
      }
      copied := TakeLine(out, nbytes);
      readDone := false;
    }

    /** Copies the line and its line feed out, and empties the buffer. */
    method TakeLine(out: array<byte>, nbytes: nat) returns (copied: nat)
      requires Sized() && out != termBuf && nbytes <= out.Length
      modifies `count, `curpos, termBuf, out
      ensures count == 0 && curpos == 0
      ensures copied <= out.Length
      ensures out[..copied] == old(termBuf[..count] + [LF])[..if nbytes < old(count) + 1 then nbytes else old(count) + 1]
    {
      termBuf[count] := LF;
      var n := count + 1;
      assert termBuf[..n] == old(termBuf[..count]) + [LF];
      copied := if nbytes < n then nbytes else n;
      CopyOut(out, copied);
      assert termBuf[..copied] == termBuf[..n][..copied];
      count := 0;
      curpos := 0;
    }

    method CopyOut(out: array<byte>, n: nat)
      requires out != termBuf && n <= out.Length && n <= termBuf.Length
      modifies out
      ensures out[..n] == termBuf[..n]
    {
      for i := 0 to n
        invariant out[..i] == termBuf[..i]
      {
        out[i] := termBuf[i];
      }
    }

    /** term_read from the end of its wait, in canonical mode: the oldest key. */
    method EndReadCanonical() returns (ch: byte)
      requires Editable() && canon && count > 0
      modifies `reading, `count, `curpos, `curX, `curY, `attr, termBuf, videoMem
      ensures Editable() && ch == old(Tty()).text[0]
      ensures Tty() == old(Tty()).(reading := false, text := old(Tty()).text[1..], cur := 0)
    {
      reading := false;
      ch := termBuf[0];
      curpos := 1;
      DelCh();
    }

    // ---- output ----

    method ParseArg(c: byte) returns (action: P.Action)
      requires Valid() && state == P.ArgParse
      modifies `state, `bufLen, `argLen, buf, args
      ensures Sized() && (Parser(), action) == P.ParseArg(old(Parser()), c)
    {
      if IsNum(c) {
        if bufLen < 3 {
          buf[bufLen] := c;
          bufLen := bufLen + 1;
          assert buf[..bufLen] == old(buf[..bufLen]) + [c];
        }
        return P.Swallow;
      }
      if argLen < 3 {
        ghost var digits := buf[..bufLen];
        buf[bufLen] := NUL;
        assert buf[..bufLen] == digits;
        assert Numerals.CString(buf[..], bufLen) by {
          assert forall i :: 0 <= i < bufLen ==> IsNum(digits[i]) && buf[i] == digits[i];
        }
        var v := Numerals.Atoi(buf, 10, bufLen);
        Numerals.Signed32Exact(Numerals.Eval(buf[..bufLen], 10));
        args[argLen] := v % 256;
        argLen := argLen + 1;
        assert args[..argLen] == old(args[..argLen]) + [v % 256];
      }
      bufLen := 0;
      if c != SEMI {
        action := P.Call(c, args[..argLen]);
        state := P.Idle;
        bufLen, argLen := 0, 0;
        return action;
      }
      return P.Swallow;
    }

    /** esc_parse; the caller runs the completed sequence that a Call reports. */
    method EscParse(c: byte) returns (action: P.Action)
      requires Valid()
      modifies `state, `bufLen, `argLen, buf, args
      ensures Sized() && (Parser(), action) == P.EscParse(old(Parser()), c)
    {
      if c == ESC {
        state := P.AEscape;
        return P.Swallow;
      }
      if state == P.AEscape && c == BRACKET {
        state := P.ABracket;
        return P.Swallow;
      }
      if state == P.ABracket {
        argLen := 0;
        bufLen := 0;
        state := P.ArgParse;
        if !IsNum(c) {
          state := P.Idle;
          return P.Call(c, []);
        }
      }
      if state == P.ArgParse {
        action := ParseArg(c);
        return action;
      }
      return P.Draw;
    }

    method EscFuncs(f: byte, a: seq<byte>)
      requires Valid()
      modifies `curX, `curY, `attr, `storeX, `storeY, `noecho, `canon, videoMem
      ensures Sized() && Now() == P.EscFuncs(old(Now()), f, a)
    {
      if f == 'f' as int {
        attr := P.Foreground(attr, if |a| > 0 then a[0] else S.DEF_ATTR % 16);
      } else if f == 'b' as int {
        attr := P.Background(attr, if |a| > 0 then a[0] else S.DEF_ATTR / 16);
      } else if f == 'p' as int {
        if |a| > 1 {
          SetPos(a[1] as int - 1, a[0] as int - 1);
        }
      } else if f == 'e' as int {
        if |a| == 0 {
          storeX, storeY := curX, curY;
        }
      } else if f == 'r' as int {
        if |a| == 0 {
          SetPos(storeX, storeY);
        }
      } else if f == 'c' as int {
        if |a| == 0 {
          Clear();
        }
      } else if f == 's' as int || f == 'S' as int {
        var setting := f == 's' as int;
        if |a| > 0 {
          if a[0] == 1 {
            noecho := setting;
          } else if a[0] == 2 {
            canon := setting;
          }
        }
      }
    }

    method WriteByte(b: byte)
      requires Valid()
      modifies this, videoMem, buf, args
      ensures Valid() && Now() == P.WriteByte(old(Now()), b) && videoMem == old(videoMem)
    {
      hide P.EscParse;
      hide S.Putc;
      var action := EscParse(b);
      match action
      case Draw => Putc(b);
      case Swallow =>
      case Call(f, a) => EscFuncs(f, a);
    }

    method Write(bytes: seq<byte>)
      requires Valid()
      modifies this, videoMem, buf, args
      ensures Valid() && Now() == P.Write(old(Now()), bytes) && videoMem == old(videoMem)
    {
      for i := 0 to |bytes|
        invariant Valid() && videoMem == old(videoMem)
        invariant P.Write(Now(), bytes[i..]) == P.Write(old(Now()), bytes)
      {
        assert bytes[i..][1..] == bytes[i + 1..];
        WriteByte(bytes[i]);
      }
    }
  }
}
