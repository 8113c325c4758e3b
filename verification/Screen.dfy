/** One 80x25 text screen with its cursor: the drawing primitives of term.c as
    functions, and what they do to a stretch of text. */
module Screen {
  import opened Chars

  const COLS := 80
  const ROWS := 25
  const SIZE := 2000
  const DEF_ATTR: byte := 15

  datatype Cell = Cell(ch: byte, attr: byte)

  const BLANK := Cell(SPACE, DEF_ATTR)

  datatype Screen = Screen(cells: seq<Cell>, x: int, y: int, attr: byte)
  {
    ghost predicate Valid() {
      |cells| == SIZE && 0 <= x < COLS && 0 <= y < ROWS
    }

    /** The cursor as an index into the cells. */
    function Pos(): int {
      COLS * y + x
    }
  }

  function Clamp(v: int, n: int): int {
    if v < 0 then 0 else if v >= n then n - 1 else v
  }

  function SetPos(s: Screen, x: int, y: int): Screen {
    s.(x := Clamp(x, COLS), y := Clamp(y, ROWS))
  }

  function Scroll(s: Screen): Screen
    requires |s.cells| == SIZE
  {
    SetPos(s.(cells := s.cells[COLS..] + seq(COLS, i => BLANK)), s.x, s.y - 1)
  }

  function Back(s: Screen): Screen {
    if s.x == 0 then SetPos(s, s.x - 1 + COLS, s.y - 1) else SetPos(s, s.x - 1, s.y)
  }

  function Forward(s: Screen): Screen {
    if s.x + 1 >= COLS then SetPos(s, s.x + 1 - COLS, s.y + 1) else SetPos(s, s.x + 1, s.y)
  }

  function Draw(s: Screen, c: byte): Screen
    requires s.Valid()
  {
    s.(cells := s.cells[s.Pos() := Cell(c, s.attr)])
  }

  /** Onto the bottom row, with a scroll, when y has run off the screen. */
  function Settle(s: Screen): Screen
    requires |s.cells| == SIZE
  {
    if s.y >= ROWS then Scroll(s).(y := ROWS - 1) else s
  }

  function Putc(s: Screen, c: byte): (r: Screen)
    requires s.Valid()
    ensures r.Valid()
  {
    if c == LF then Settle(s.(x := 0, y := s.y + 1))
    else if c == CR then s.(x := 0)
    else if c == BS then Draw(Back(s), SPACE)
    else
      var d := Draw(s, c);
      Settle(if s.x + 1 >= COLS then d.(x := s.x + 1 - COLS, y := s.y + 1) else d.(x := s.x + 1))
  }

  function Clear(s: Screen): Screen {
    s.(cells := seq(SIZE, i => Cell(SPACE, s.attr)))
  }

  function PutAll(s: Screen, t: seq<byte>): (r: Screen)
    requires s.Valid()
    ensures r.Valid()
    decreases |t|
  {
    if t == [] then s else PutAll(Putc(s, t[0]), t[1..])
  }

  function BackBy(s: Screen, n: nat): (r: Screen)
    requires s.Valid()
    ensures r.Valid()
    decreases n
  {
    if n == 0 then s else BackBy(Back(s), n - 1)
  }

  function ForwardBy(s: Screen, n: nat): (r: Screen)
    requires s.Valid()
    ensures r.Valid()
    decreases n
  {
    if n == 0 then s else ForwardBy(Forward(s), n - 1)
  }

  function ScrollBy(s: Screen, n: nat): (r: Screen)
    requires s.Valid()
    ensures r.Valid()
    decreases n
  {
    if n == 0 then s else ScrollBy(Scroll(s), n - 1)
  }

  // ---- text on a screen ----

  /** putc draws this character instead of moving the cursor. */
  predicate Plain(c: byte) {
    c != LF && c != CR && c != BS
  }

  ghost predicate AllPlain(t: seq<byte>) {
    forall i :: 0 <= i < |t| ==> Plain(t[i])
  }

  /** The cells from o on show text. */
  ghost predicate Shows(s: Screen, o: int, text: seq<byte>) {
    && |s.cells| == SIZE && 0 <= o && o + |text| <= SIZE
    && forall i :: 0 <= i < |text| ==> s.cells[o + i].ch == text[i]
  }

  lemma ShowsConcat(s: Screen, o: int, t: seq<byte>, u: seq<byte>)
    requires Shows(s, o, t) && Shows(s, o + |t|, u)
    ensures Shows(s, o, t + u)
  {
    forall i | 0 <= i < |t + u|
      ensures s.cells[o + i].ch == (t + u)[i]
    {
      if i >= |t| {
        assert s.cells[o + |t| + (i - |t|)].ch == u[i - |t|];
      }
    }
  }

  lemma BackMoves(s: Screen)
    requires s.Valid() && s.Pos() > 0
    ensures Back(s).Pos() == s.Pos() - 1 && Back(s).cells == s.cells && Back(s).attr == s.attr
  {
  }

  lemma ForwardMoves(s: Screen)
    requires s.Valid() && s.Pos() < SIZE - 1
    ensures Forward(s).Pos() == s.Pos() + 1 && Forward(s).cells == s.cells && Forward(s).attr == s.attr
  {
  }

  lemma {:induction false} BackByMoves(s: Screen, n: nat)
    requires s.Valid() && n <= s.Pos()
    ensures BackBy(s, n).Pos() == s.Pos() - n && BackBy(s, n).cells == s.cells && BackBy(s, n).attr == s.attr
    decreases n
  {
    if n > 0 {
      BackMoves(s);
      BackByMoves(Back(s), n - 1);
    }
  }

  lemma {:induction false} ForwardByMoves(s: Screen, n: nat)
    requires s.Valid() && s.Pos() + n < SIZE
    ensures ForwardBy(s, n).Pos() == s.Pos() + n && ForwardBy(s, n).cells == s.cells && ForwardBy(s, n).attr == s.attr
    decreases n
  {
    if n > 0 {
      ForwardMoves(s);
      ForwardByMoves(Forward(s), n - 1);
    }
  }

  lemma PutcPlain(s: Screen, c: byte)
    requires s.Valid() && Plain(c)
    ensures s.Pos() < SIZE - 1 ==>
      && Putc(s, c).Pos() == s.Pos() + 1
      && Putc(s, c).cells == s.cells[s.Pos() := Cell(c, s.attr)]
    ensures s.Pos() == SIZE - 1 ==>
      && Putc(s, c).Pos() == SIZE - COLS
      && Putc(s, c).cells == s.cells[s.Pos() := Cell(c, s.attr)][COLS..] + seq(COLS, i => BLANK)
    ensures Putc(s, c).attr == s.attr
  {
  }

  /** Text that ends before the last cell is drawn without a scroll. */
  lemma {:induction false} PutAllInside(s: Screen, t: seq<byte>)
    requires s.Valid() && AllPlain(t) && s.Pos() + |t| < SIZE
    ensures PutAll(s, t).Pos() == s.Pos() + |t|
    ensures Shows(PutAll(s, t), s.Pos(), t)
    ensures forall i :: 0 <= i < SIZE && !(s.Pos() <= i < s.Pos() + |t|) ==> PutAll(s, t).cells[i] == s.cells[i]
    decreases |t|
  {
    if t != [] {
      PutcPlain(s, t[0]);
      PutAllInside(Putc(s, t[0]), t[1..]);
    }
  }

  lemma {:induction false} PutAllConcat(s: Screen, t: seq<byte>, u: seq<byte>)
    requires s.Valid()
    ensures PutAll(s, t + u) == PutAll(PutAll(s, t), u)
    decreases |t|
  {
    if t == [] {
      assert t + u == u;
    } else {
      assert (t + u)[1..] == t[1..] + u;
      PutAllConcat(Putc(s, t[0]), t[1..], u);
    }
  }

  lemma PutAllOne(s: Screen, c: byte)
    requires s.Valid()
    ensures PutAll(s, [c]) == Putc(s, c)
  {
    assert PutAll(Putc(s, c), [c][1..]) == Putc(s, c);
  }

  /** Text that fills the last cell scrolls exactly once, after its last character. */
  lemma PutAllToTheEnd(s: Screen, t: seq<byte>)
    requires s.Valid() && AllPlain(t) && t != [] && s.Pos() + |t| == SIZE
    ensures PutAll(s, t).Pos() == SIZE - COLS
    ensures |t| <= SIZE - COLS ==> Shows(PutAll(s, t), s.Pos() - COLS, t)
    ensures forall i :: COLS <= i < s.Pos() ==> PutAll(s, t).cells[i - COLS] == s.cells[i]
  {
    var u, c := t[..|t| - 1], t[|t| - 1];
    assert t == u + [c];
    PutAllConcat(s, u, [c]);
    PutAllInside(s, u);
    var m := PutAll(s, u);
    PutAllOne(m, c);
    PutcPlain(m, c);
    hide PutAll;
    hide Putc;
    ScrolledUp(m, Putc(m, c), s.Pos(), u, c);
  }

  /** Drawing c into the last cell moves everything above up by one row. */
  lemma ScrolledUp(m: Screen, r: Screen, o: int, u: seq<byte>, c: byte)
    requires Shows(m, o, u) && o + |u| == SIZE - 1
    requires r.cells == m.cells[SIZE - 1 := Cell(c, m.attr)][COLS..] + seq(COLS, i => BLANK)
    ensures o >= COLS ==> Shows(r, o - COLS, u + [c])
    ensures forall i :: COLS <= i < SIZE - 1 ==> r.cells[i - COLS] == m.cells[i]
  {
    if o >= COLS {
      forall i | 0 <= i < |u + [c]|
        ensures r.cells[o - COLS + i].ch == (u + [c])[i]
      {
        if i < |u| {
          assert r.cells[o - COLS + i] == m.cells[o + i];
        }
      }
    }
  }

  lemma {:induction false} ScrollByShifts(s: Screen, n: nat)
    requires s.Valid() && n <= s.y
    ensures ScrollBy(s, n).x == s.x && ScrollBy(s, n).y == s.y - n && ScrollBy(s, n).attr == s.attr
    ensures forall i :: COLS * n <= i < SIZE ==> ScrollBy(s, n).cells[i - COLS * n] == s.cells[i]
    decreases n
  {
    if n > 0 {
      ScrollByShifts(Scroll(s), n - 1);
      forall i | COLS * n <= i < SIZE
        ensures ScrollBy(s, n).cells[i - COLS * n] == s.cells[i]
      {
        assert Scroll(s).cells[i - COLS] == s.cells[i];
      }
    }
  }
}
