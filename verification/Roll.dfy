/** Output as on a roll of paper: what any text with line feeds, returns and backspaces
    looks like, and the screen as the window on the roll's end. */
module Roll {
  import opened Chars
  import opened Screen

  /** Cells are numbered along the roll, 80 to a row; top is the first row on the
      screen. */
  datatype Roll = Roll(cells: map<nat, Cell>, pos: nat, top: nat)

  function Put(r: Roll, c: byte, attr: byte): Roll {
    if c == LF then Follow(r.(pos := 80 * (r.pos / 80 + 1)))
    else if c == CR then r.(pos := 80 * (r.pos / 80))
    else if c == BS then
      var p := if r.pos > 80 * r.top then r.pos - 1 else r.pos + 79;
      r.(cells := r.cells[p := Cell(SPACE, attr)], pos := p)
    else Follow(r.(cells := r.cells[r.pos := Cell(c, attr)], pos := r.pos + 1))
  }

  /** The window moves down just far enough to keep the cursor on its 25 rows. */
  function Follow(r: Roll): Roll {
    if r.pos >= 80 * (r.top + 25) then r.(top := r.pos / 80 - 24) else r
  }

  function PutText(r: Roll, t: seq<byte>, attr: byte): Roll
    decreases |t|
  {
    if t == [] then r else PutText(Put(r, t[0], attr), t[1..], attr)
  }

  /** What stands at a place of the roll. */
  function At(r: Roll, i: nat): Cell {
    if i in r.cells then r.cells[i] else Cell(SPACE, 15)
  }

  /** The screen is the window: cell by cell, and with its cursor. */
  ghost predicate Window(s: Screen, r: Roll) {
    && s.Valid() && r.pos == 80 * r.top + 80 * s.y + s.x
    && (forall i :: i in r.cells ==> i < 80 * r.top + 2000)
    && forall i :: 0 <= i < 2000 ==> s.cells[i] == At(r, 80 * r.top + i)
  }

  // ---- the screen follows the roll ----

  lemma DrawAt(s: Screen, r: Roll, c: byte)
    requires Window(s, r)
    ensures Window(Draw(s, c), r.(cells := r.cells[r.pos := Cell(c, s.attr)]))
  {
  }

  lemma ScrolledWindow(s: Screen, r: Roll)
    requires |s.cells| == SIZE && 0 <= s.x < COLS && s.y == ROWS
    requires forall i :: i in r.cells ==> i < 80 * r.top + 2000
    requires forall i :: 0 <= i < 2000 ==> s.cells[i] == At(r, 80 * r.top + i)
    requires r.pos == 80 * r.top + 2000 + s.x
    ensures Window(Settle(s), Follow(r)) && Follow(r).top == r.top + 1
  {
    var s', r' := Settle(s), Follow(r);
    assert r.pos / 80 == r.top + 25;
    forall i | 0 <= i < 2000
      ensures s'.cells[i] == At(r', 80 * r'.top + i)
    {
      if i < 1920 {
        assert s'.cells[i] == s.cells[i + 80];
      }
    }
  }

  lemma RowOf(r: Roll, y: int, x: int)
    requires 0 <= x < 80 && y >= 0 && r.pos == 80 * r.top + 80 * y + x
    ensures r.pos / 80 == r.top + y
  {
  }

  lemma PutFollows(s: Screen, r: Roll, c: byte)
    requires Window(s, r)
    ensures Window(Putc(s, c), Put(r, c, s.attr)) && Putc(s, c).attr == s.attr
  {
    RowOf(r, s.y, s.x);
    if c == LF {
      var s', r' := s.(x := 0, y := s.y + 1), r.(pos := 80 * (r.pos / 80 + 1));
      if s'.y == ROWS {
        ScrolledWindow(s', r');
      }
    } else if c == CR {
    } else if c == BS {
      BackFollows(s, r);
    } else {
      PlainFollows(s, r, c);
    }
  }

  lemma BackFollows(s: Screen, r: Roll)
    requires Window(s, r)
    ensures Window(Putc(s, BS), Put(r, BS, s.attr))
  {
    var b := Back(s);
    var p := if r.pos > 80 * r.top then r.pos - 1 else r.pos + 79;
    DrawAt(b, r.(pos := p), SPACE);
  }

  lemma PlainFollows(s: Screen, r: Roll, c: byte)
    requires Window(s, r) && Plain(c)
    ensures Window(Putc(s, c), Put(r, c, s.attr))
  {
    DrawAt(s, r, c);
    hide At;
    var d := Draw(s, c);
    var r' := r.(cells := r.cells[r.pos := Cell(c, s.attr)]);
    if s.x == COLS - 1 {
      if s.y == ROWS - 1 {
        ScrolledWindow(d.(x := 0, y := ROWS), r'.(pos := r'.pos + 1));
      }
    }
  }

  /** After any output the screen is the window on the roll. */
  lemma {:induction false} TextFollows(s: Screen, r: Roll, t: seq<byte>)
    requires s.Valid() && Window(s, r)
    ensures Window(PutAll(s, t), PutText(r, t, s.attr))
    decreases |t|
  {
    hide Window;
    hide Putc;
    hide Put;
    if t != [] {
      PutFollows(s, r, t[0]);
      TextFollows(Putc(s, t[0]), Put(r, t[0], s.attr), t[1..]);
    }
  }

  /** Any screen is the window on the roll that starts with it. */
  function Start(s: Screen): Roll
    requires s.Valid()
  {
    Roll(map i: nat | i < 2000 :: s.cells[i], 80 * s.y + s.x, 0)
  }

  lemma StartWindow(s: Screen)
    requires s.Valid()
    ensures Window(s, Start(s))
  {
  }

  // ---- lines ----

  /** Where the line behind a line that starts at p starts. */
  function NextStart(p: nat, line: seq<byte>): nat {
    80 * ((p + |line|) / 80 + 1)
  }

  /** Where line i starts when the first starts at p. */
  function LineStart(p: nat, lines: seq<seq<byte>>, i: nat): nat
    requires i <= |lines|
  {
    if i == 0 then p else NextStart(LineStart(p, lines, i - 1), lines[i - 1])
  }

  function Joined(lines: seq<seq<byte>>): seq<byte> {
    if lines == [] then [] else Joined(lines[..|lines| - 1]) + lines[|lines| - 1] + [LF]
  }

  lemma {:induction false} PutTextJoin(r: Roll, a: seq<byte>, b: seq<byte>, attr: byte)
    ensures PutText(r, a + b, attr) == PutText(PutText(r, a, attr), b, attr)
    decreases |a|
  {
    if a == [] {
      assert a + b == b;
    } else {
      PutTextJoin(Put(r, a[0], attr), a[1..], b, attr);
      assert (a + b)[1..] == a[1..] + b;
    }
  }

  /** Plain text lies on the roll from the cursor on, and nothing else changes. */
  lemma {:induction false} PlainText(r: Roll, t: seq<byte>, attr: byte)
    requires AllPlain(t)
    ensures var q := PutText(r, t, attr);
      && q.pos == r.pos + |t| && q.top >= r.top
      && (forall i :: 0 <= i < |t| ==> At(q, r.pos + i) == Cell(t[i], attr))
      && (forall i: nat :: !(r.pos <= i < r.pos + |t|) ==> At(q, i) == At(r, i))
    decreases |t|
  {
    if t != [] {
      var q := Put(r, t[0], attr);
      assert forall i: nat :: i != r.pos ==> At(q, i) == At(r, i);
      assert At(q, r.pos) == Cell(t[0], attr);
      PlainText(q, t[1..], attr);
    }
  }

  /** Lines with line feeds: each lies where the one before it says, from column 0, and
      earlier text stays. */
  lemma {:induction false} LinesOnRoll(r: Roll, lines: seq<seq<byte>>, attr: byte)
    requires forall k :: 0 <= k < |lines| ==> AllPlain(lines[k])
    ensures var q := PutText(r, Joined(lines), attr);
      && q.pos == LineStart(r.pos, lines, |lines|) && q.top >= r.top
      && (forall k, i :: 0 <= k < |lines| && 0 <= i < |lines[k]| ==>
            At(q, LineStart(r.pos, lines, k) + i) == Cell(lines[k][i], attr))
      && (forall i: nat :: i < r.pos ==> At(q, i) == At(r, i))
    decreases |lines|
  {
    hide At;
    hide PutText;
    hide LineStart;
    NothingPut(r, lines, attr);
    if lines != [] {
      var n := |lines| - 1;
      var before, last := lines[..n], lines[n];
      LinesOnRoll(r, before, attr);
      StartsAgree(r.pos, lines, n);
      StartsGrow(r.pos, lines, n);
      NextLine(r.pos, lines);
      var q := PutText(r, Joined(before), attr);
      PutTextJoin(r, Joined(before), last, attr);
      PutTextJoin(r, Joined(before) + last, [LF], attr);
      PlainText(q, last, attr);
      var u := PutText(q, last, attr);
      LineFeedMoves(u, attr);
      OneLine(r, q, u, before, last, lines, attr);
      SameCells(u, PutText(u, [LF], attr));
    }
  }

  lemma NothingPut(r: Roll, lines: seq<seq<byte>>, attr: byte)
    ensures PutText(r, [], attr) == r && LineStart(r.pos, lines, 0) == r.pos
  {
  }

  lemma NextLine(p: nat, lines: seq<seq<byte>>)
    requires lines != []
    ensures var n := |lines| - 1; LineStart(p, lines, n + 1) == NextStart(LineStart(p, lines, n), lines[n])
  {
  }

  lemma SameCells(r: Roll, q: Roll)
    requires q.cells == r.cells
    ensures forall i: nat :: At(q, i) == At(r, i)
  {
  }

  lemma LineFeedMoves(r: Roll, attr: byte)
    ensures var q := PutText(r, [LF], attr);
      q.cells == r.cells && q.pos == 80 * (r.pos / 80 + 1) && q.top >= r.top
  {
    assert [LF][1..] == [];
  }

  lemma {:induction false} StartsAgree(p: nat, lines: seq<seq<byte>>, n: nat)
    requires n <= |lines|
    ensures forall k :: 0 <= k <= n ==> LineStart(p, lines[..n], k) == LineStart(p, lines, k)
  {
    forall k | 0 <= k <= n
      ensures LineStart(p, lines[..n], k) == LineStart(p, lines, k)
    {
      StartAgrees(p, lines, n, k);
    }
  }

  lemma {:induction false} StartAgrees(p: nat, lines: seq<seq<byte>>, n: nat, k: nat)
    requires k <= n <= |lines|
    ensures LineStart(p, lines[..n], k) == LineStart(p, lines, k)
    decreases k
  {
    if k > 0 {
      StartAgrees(p, lines, n, k - 1);
    }
  }

  /** No line reaches into a later one. */
  lemma StartsGrow(p: nat, lines: seq<seq<byte>>, n: nat)
    requires n <= |lines|
    ensures LineStart(p, lines, n) >= p
    ensures forall k :: 0 <= k < n ==> LineStart(p, lines, k) + |lines[k]| < LineStart(p, lines, n)
    decreases n
  {
    hide LineStart;
    hide NextStart;
    StartUnfolded(p, lines, n);
    if n > 0 {
      StartsGrow(p, lines, n - 1);
      StartAfter(LineStart(p, lines, n - 1), lines[n - 1]);
    }
  }

  lemma StartUnfolded(p: nat, lines: seq<seq<byte>>, n: nat)
    requires n <= |lines|
    ensures LineStart(p, lines, n) == if n == 0 then p else NextStart(LineStart(p, lines, n - 1), lines[n - 1])
  {
  }

  lemma StartAfter(p: nat, line: seq<byte>)
    ensures NextStart(p, line) > p + |line|
  {
  }

  lemma OneLine(r: Roll, q: Roll, u: Roll, before: seq<seq<byte>>, last: seq<byte>, lines: seq<seq<byte>>, attr: byte)
    requires lines != [] && before == lines[..|lines| - 1] && last == lines[|lines| - 1]
    requires forall k :: 0 <= k <= |before| ==> LineStart(r.pos, before, k) == LineStart(r.pos, lines, k)
    requires LineStart(r.pos, lines, |before|) >= r.pos && q.pos == LineStart(r.pos, lines, |before|)
    requires forall k :: 0 <= k < |before| ==> LineStart(r.pos, lines, k) + |lines[k]| < q.pos
    requires forall k, i :: 0 <= k < |before| && 0 <= i < |before[k]| ==>
      At(q, LineStart(r.pos, before, k) + i) == Cell(before[k][i], attr)
    requires forall i: nat :: i < r.pos ==> At(q, i) == At(r, i)
    requires forall i :: 0 <= i < |last| ==> At(u, q.pos + i) == Cell(last[i], attr)
    requires forall i: nat :: !(q.pos <= i < q.pos + |last|) ==> At(u, i) == At(q, i)
    ensures forall k, i :: 0 <= k < |lines| && 0 <= i < |lines[k]| ==>
      At(u, LineStart(r.pos, lines, k) + i) == Cell(lines[k][i], attr)
    ensures forall i: nat :: i < r.pos ==> At(u, i) == At(r, i)
  {
    hide At;
    hide LineStart;
    forall k, i | 0 <= k < |lines| && 0 <= i < |lines[k]|
      ensures At(u, LineStart(r.pos, lines, k) + i) == Cell(lines[k][i], attr)
    {
      if k < |before| {
        assert before[k] == lines[k];
        assert At(q, LineStart(r.pos, before, k) + i) == Cell(before[k][i], attr);
      }
    }
  }

  /** Lines printed from the start of row y stand on the screen one below another, each
      from column 0, moved up by as many rows as the last line feed ran off the bottom;
      a line that has not been moved off is there whole, and so is what stood above. */
  lemma LinesAppear(s: Screen, lines: seq<seq<byte>>)
    requires s.Valid() && s.x == 0 && forall k :: 0 <= k < |lines| ==> AllPlain(lines[k])
    ensures var p := LineStart(80 * s.y, lines, |lines|);
      var up := if p / 80 > 24 then p / 80 - 24 else 0;
      var q := PutAll(s, Joined(lines));
      && q.x == 0 && q.y == p / 80 - up
      && (forall k, i :: 0 <= k < |lines| && 0 <= i < |lines[k]| && LineStart(80 * s.y, lines, k) >= 80 * up ==>
            var at := LineStart(80 * s.y, lines, k) - 80 * up + i;
            0 <= at < 2000 && q.cells[at] == Cell(lines[k][i], s.attr))
      && (forall i :: 80 * up <= i < 80 * s.y ==> q.cells[i - 80 * up] == s.cells[i])
  {
    hide LineStart;
    hide PutText;
    hide PutAll;
    hide Window;
    hide At;
    hide Joined;
    var w := LinesRolled(s, lines);
    WindowLines(s, PutAll(s, Joined(lines)), w, lines);
  }

  lemma LinesRolled(s: Screen, lines: seq<seq<byte>>) returns (w: Roll)
    requires s.Valid() && s.x == 0 && forall k :: 0 <= k < |lines| ==> AllPlain(lines[k])
    ensures var q := PutAll(s, Joined(lines)); var p := LineStart(80 * s.y, lines, |lines|);
      && Window(q, w) && w.pos == p && w.top == (if p / 80 > 24 then p / 80 - 24 else 0)
      && q.x == 0 && q.y == p / 80 - w.top
    ensures forall k, i :: 0 <= k < |lines| && 0 <= i < |lines[k]| ==>
      At(w, LineStart(80 * s.y, lines, k) + i) == Cell(lines[k][i], s.attr)
    ensures forall i: nat :: i < 80 * s.y ==> At(w, i) == At(Start(s), i)
    ensures w.pos >= 80 * s.y
    ensures forall k :: 0 <= k < |lines| ==> LineStart(80 * s.y, lines, k) + |lines[k]| < w.pos
  {
    hide LineStart;
    hide PutText;
    hide PutAll;
    hide Window;
    hide At;
    hide Tight;
    hide Joined;
    var r := Start(s);
    w := PutText(r, Joined(lines), s.attr);
    StartWindow(s);
    TextFollows(s, r, Joined(lines));
    LinesOnRoll(r, lines, s.attr);
    StartsWhole(80 * s.y, lines, |lines|);
    StartsGrow(80 * s.y, lines, |lines|);
    JoinedPlain(lines);
    StartTight(s);
    TopFollows(r, Joined(lines), s.attr);
    WindowTop(PutAll(s, Joined(lines)), w);
  }

  /** What lies on the roll inside the window is on the screen. */
  lemma WindowLines(s: Screen, q: Screen, w: Roll, lines: seq<seq<byte>>)
    requires s.Valid() && s.x == 0 && Window(q, w)
    requires forall k, i :: 0 <= k < |lines| && 0 <= i < |lines[k]| ==>
      At(w, LineStart(80 * s.y, lines, k) + i) == Cell(lines[k][i], s.attr)
    requires forall i: nat :: i < 80 * s.y ==> At(w, i) == At(Start(s), i)
    requires 80 * s.y <= w.pos
    requires forall k :: 0 <= k < |lines| ==> LineStart(80 * s.y, lines, k) + |lines[k]| < w.pos
    ensures |q.cells| == 2000
    ensures forall k, i :: 0 <= k < |lines| && 0 <= i < |lines[k]| && LineStart(80 * s.y, lines, k) >= 80 * w.top ==>
      var at := LineStart(80 * s.y, lines, k) - 80 * w.top + i;
      0 <= at < 2000 && q.cells[at] == Cell(lines[k][i], s.attr)
    ensures forall i :: 80 * w.top <= i < 80 * s.y ==> q.cells[i - 80 * w.top] == s.cells[i]
  {
    hide LineStart;
    hide Window;
    hide At;
    WindowEnd(q, w);
    forall k, i | 0 <= k < |lines| && 0 <= i < |lines[k]| && LineStart(80 * s.y, lines, k) >= 80 * w.top
      ensures var at := LineStart(80 * s.y, lines, k) - 80 * w.top + i;
        0 <= at < 2000 && q.cells[at] == Cell(lines[k][i], s.attr)
    {
      var j := LineStart(80 * s.y, lines, k) + i;
      assert At(w, j) == Cell(lines[k][i], s.attr);
      WindowAt(q, w, j);
    }
    WindowAbove(s, q, w);
  }

  lemma WindowAbove(s: Screen, q: Screen, w: Roll)
    requires s.Valid() && Window(q, w) && 80 * s.y <= w.pos
    requires forall i: nat :: i < 80 * s.y ==> At(w, i) == At(Start(s), i)
    ensures |q.cells| == 2000
    ensures forall i :: 80 * w.top <= i < 80 * s.y ==> q.cells[i - 80 * w.top] == s.cells[i]
  {
    hide Window;
    hide At;
    WindowEnd(q, w);
    forall i | 80 * w.top <= i < 80 * s.y
      ensures q.cells[i - 80 * w.top] == s.cells[i]
    {
      WindowAt(q, w, i);
      StartAt(s, i);
    }
  }

  lemma StartAt(s: Screen, i: nat)
    requires s.Valid() && i < 2000
    ensures At(Start(s), i) == s.cells[i]
  {
  }

  lemma WindowEnd(q: Screen, w: Roll)
    requires Window(q, w)
    ensures w.pos < 80 * w.top + 2000 && |q.cells| == 2000
  {
  }

  lemma WindowAt(q: Screen, w: Roll, j: nat)
    requires Window(q, w) && 80 * w.top <= j < 80 * w.top + 2000
    ensures |q.cells| == 2000 && q.cells[j - 80 * w.top] == At(w, j)
  {
  }

  lemma StartTight(s: Screen)
    requires s.Valid()
    ensures Tight(Start(s), Start(s).pos / 80)
  {
  }

  lemma {:induction false} JoinedPlain(lines: seq<seq<byte>>)
    requires forall k :: 0 <= k < |lines| ==> AllPlain(lines[k])
    ensures BS !in Joined(lines)
    decreases |lines|
  {
    if lines != [] {
      JoinedPlain(lines[..|lines| - 1]);
    }
  }

  lemma {:induction false} StartsWhole(p: nat, lines: seq<seq<byte>>, n: nat)
    requires n <= |lines| && p % 80 == 0
    ensures LineStart(p, lines, n) % 80 == 0
  {
    if n > 0 {
      WholeStart(LineStart(p, lines, n - 1), lines[n - 1]);
    }
  }

  lemma WholeStart(p: nat, line: seq<byte>)
    ensures NextStart(p, line) % 80 == 0
  {
  }

  /** The window starts at row 0, and afterwards ends at the lowest row reached. */
  ghost predicate Tight(r: Roll, high: nat) {
    r.pos / 80 <= high && r.top == if high > 24 then high - 24 else 0
  }

  /** Without backspaces and with the cursor at column 0 the window is where the last
      line is. */
  lemma WindowTop(q: Screen, w: Roll)
    requires Window(q, w) && w.pos % 80 == 0 && Tight(w, w.pos / 80)
    ensures var p := w.pos / 80; q.x == 0 && q.y == p - w.top && w.top == if p > 24 then p - 24 else 0
    ensures w.pos < 80 * w.top + 2000
  {
  }

  lemma {:induction false} TopFollows(r: Roll, t: seq<byte>, attr: byte)
    requires BS !in t && Tight(r, r.pos / 80)
    ensures var q := PutText(r, t, attr); Tight(q, q.pos / 80)
    decreases |t|
  {
    if t != [] {
      TopFollows(Put(r, t[0], attr), t[1..], attr);
    }
  }

  // ---- the control characters ----

  /** A return goes to the start of the row; a backspace blanks exactly the cell before
      the cursor and stays on it; a line feed goes to the start of the next row, and on
      the last row moves everything up by one. */
  lemma ControlCharacters(s: Screen)
    requires s.Valid()
    ensures var r := Putc(s, 13); r.cells == s.cells && r.x == 0 && r.y == s.y
    ensures var r := Putc(s, 8); var p := 80 * s.y + s.x;
      p > 0 ==> r.cells == s.cells[p - 1 := Cell(32, s.attr)] && 80 * r.y + r.x == p - 1
    ensures var r := Putc(s, 10);
      && r.x == 0
      && (s.y < 24 ==> r.cells == s.cells && r.y == s.y + 1)
      && (s.y == 24 ==> r.y == 24 && |r.cells| == 2000)
      && (s.y == 24 ==>
            forall i :: 0 <= i < 2000 ==> r.cells[i] == if i < 1920 then s.cells[i + 80] else Cell(32, 15))
  {
  }

  /** After a return text overwrites its row from the start and leaves the rest of it. */
  lemma ReturnOverwrites(s: Screen, t: seq<byte>)
    requires s.Valid() && AllPlain(t) && |t| < 80
    ensures var r := PutAll(s, [CR] + t);
      && r.x == |t| && r.y == s.y
      && forall i :: 0 <= i < 2000 ==>
           r.cells[i] == if 80 * s.y <= i < 80 * s.y + |t| then Cell(t[i - 80 * s.y], s.attr) else s.cells[i]
  {
    hide PutText;
    hide PutAll;
    hide Window;
    hide At;
    hide Tight;
    var r := Start(s);
    var c := r.(pos := 80 * s.y);
    StartWindow(s);
    TextFollows(s, r, [CR] + t);
    ReturnPut(s, t);
    PlainText(c, t, s.attr);
    ReturnTight(s, c);
    PlainHasNoBackspace(t);
    TopFollows(c, t, s.attr);
    SameCells(r, c);
    ReturnWindow(s, PutAll(s, [CR] + t), PutText(c, t, s.attr), t);
  }

  lemma PlainHasNoBackspace(t: seq<byte>)
    requires AllPlain(t)
    ensures BS !in t
  {
  }

  lemma ReturnTight(s: Screen, c: Roll)
    requires s.Valid() && c == Start(s).(pos := 80 * s.y)
    ensures Tight(c, c.pos / 80)
  {
  }

  lemma ReturnPut(s: Screen, t: seq<byte>)
    requires s.Valid()
    ensures PutText(Start(s), [CR] + t, s.attr) == PutText(Start(s).(pos := 80 * s.y), t, s.attr)
  {
    hide PutText;
    PutFirst(Start(s), CR, t, s.attr);
    RowOf(Start(s), s.y, s.x);
  }

  lemma PutFirst(r: Roll, c: byte, t: seq<byte>, attr: byte)
    ensures PutText(r, [c] + t, attr) == PutText(Put(r, c, attr), t, attr)
  {
    hide Put;
    assert ([c] + t)[1..] == t;
  }

  lemma ReturnWindow(s: Screen, q: Screen, w: Roll, t: seq<byte>)
    requires s.Valid() && Window(q, w) && |t| < 80 && w.pos == 80 * s.y + |t| && Tight(w, w.pos / 80)
    requires forall i :: 0 <= i < |t| ==> At(w, 80 * s.y + i) == Cell(t[i], s.attr)
    requires forall i: nat :: !(80 * s.y <= i < 80 * s.y + |t|) ==> At(w, i) == At(Start(s), i)
    ensures q.x == |t| && q.y == s.y
    ensures forall i :: 0 <= i < 2000 ==>
      q.cells[i] == if 80 * s.y <= i < 80 * s.y + |t| then Cell(t[i - 80 * s.y], s.attr) else s.cells[i]
  {
    assert w.top == 0;
    forall i | 0 <= i < 2000
      ensures q.cells[i] == if 80 * s.y <= i < 80 * s.y + |t| then Cell(t[i - 80 * s.y], s.attr) else s.cells[i]
    {
      WindowAt(q, w, i);
      if 80 * s.y <= i < 80 * s.y + |t| {
        assert At(w, 80 * s.y + (i - 80 * s.y)) == Cell(t[i - 80 * s.y], s.attr);
      }
    }
  }
}
