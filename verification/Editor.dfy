/** The line editor of term.c as a function of a terminal's state, and the proof
    that the incrementally redrawn screen agrees with the edited line. */
module Editor {
  import opened Chars
  import opened Screen

  const TERM_BUF_SIZE := 127

  const MOD_CTRL: byte := 0x80
  const MOD_ALT: byte := 0x20

  const KEY_BACK: byte := 0x82
  const KEY_ENTER: byte := 0x83
  const KEY_LEFT: byte := 0x86
  const KEY_RIGHT: byte := 0x87
  const KEY_F1: byte := 0x8A
  const KEY_F3: byte := 0x8C
  const KEY_F12: byte := 0x95

  datatype Key = Key(modifiers: byte, key: byte)

  /** text is term_buf[..term_buf_count], cur is term_curpos. */
  datatype Tty = Tty(scr: Screen, text: seq<byte>, cur: nat,
                     noecho: bool, canon: bool, reading: bool, done: bool)
  {
    ghost predicate Ok() {
      scr.Valid() && |text| <= TERM_BUF_SIZE && cur <= |text|
    }
  }

  /** The characters a word or line command runs over. */
  datatype Run = Any | Alnum | Other

  predicate In(r: Run, ch: byte) {
    match r case Any => true case Alnum => IsAlnum(ch) case Other => !IsAlnum(ch)
  }

  function RunOf(ch: byte): Run {
    if IsAlnum(ch) then Alnum else Other
  }

  ghost predicate SameModes(t: Tty, t': Tty) {
    t'.noecho == t.noecho && t'.canon == t.canon && t'.reading == t.reading
  }

  function AddCh(t: Tty, ch: byte): (r: Tty)
    requires t.Ok()
    ensures r.Ok() && SameModes(t, r)
  {
    if |t.text| < TERM_BUF_SIZE && t.reading then
      var tail := t.text[t.cur..];
      t.(text := t.text[..t.cur] + [ch] + tail,
         cur := t.cur + 1,
         scr := if t.noecho then t.scr else BackBy(PutAll(t.scr, [ch] + tail), |tail|))
    else t
  }

  function DelCh(t: Tty): (r: Tty)
    requires t.Ok()
    ensures r.Ok() && SameModes(t, r)
  {
    if t.cur > 0 then
      var tail := t.text[t.cur..];
      var b := Back(t.scr);
      t.(text := t.text[..t.cur - 1] + tail,
         cur := t.cur - 1,
         scr := if t.canon then t.scr else SetPos(PutAll(b, tail + [SPACE]), b.x, b.y))
    else t
  }

  function CharBack(t: Tty): (r: Tty)
    requires t.Ok()
    ensures r.Ok() && SameModes(t, r)
  {
    if t.cur > 0 then t.(cur := t.cur - 1, scr := Back(t.scr)) else t
  }

  function CharForward(t: Tty): (r: Tty)
    requires t.Ok()
    ensures r.Ok() && SameModes(t, r)
  {
    if t.cur < |t.text| then t.(cur := t.cur + 1, scr := Forward(t.scr)) else t
  }

  function MoveLeft(t: Tty, r: Run): (t': Tty)
    requires t.Ok()
    ensures t'.Ok() && SameModes(t, t')
    decreases t.cur
  {
    if t.cur > 0 && In(r, t.text[t.cur - 1]) then MoveLeft(CharBack(t), r) else t
  }

  function MoveRight(t: Tty, r: Run): (t': Tty)
    requires t.Ok()
    ensures t'.Ok() && SameModes(t, t')
    decreases |t.text| - t.cur
  {
    if t.cur < |t.text| && In(r, t.text[t.cur]) then MoveRight(CharForward(t), r) else t
  }

  function KillLeft(t: Tty, r: Run): (t': Tty)
    requires t.Ok()
    ensures t'.Ok() && SameModes(t, t')
    decreases t.cur
  {
    if t.cur > 0 && In(r, t.text[t.cur - 1]) then KillLeft(DelCh(t), r) else t
  }

  /** C-L: scroll until the line starts on the top row. */
  function LineToTop(t: Tty): (r: Tty)
    requires t.Ok()
    ensures r.Ok() && SameModes(t, r)
  {
    var s := BackBy(t.scr, t.cur);
    t.(scr := ForwardBy(ScrollBy(s, s.y), t.cur))
  }

  function CtrlKey(t: Tty, k: byte): (r: Tty)
    requires t.Ok()
    ensures r.Ok() && SameModes(t, r)
  {
    if k == 'l' as int then LineToTop(t)
    else if k == 'b' as int then CharBack(t)
    else if k == 'f' as int then CharForward(t)
    else if k == 'a' as int then MoveLeft(t, Any)
    else if k == 'e' as int then MoveRight(t, Any)
    else if k == 'w' as int then if t.cur == 0 then t else KillLeft(t, RunOf(t.text[t.cur - 1]))
    else if k == 'u' as int then KillLeft(t, Any)
    else if k == 'h' as int then DelCh(t)
    else if k == 'c' as int then t.(scr := PutAll(t.scr, ['^' as int, 'C' as int]))
    else if k == 'm' as int then t.(done := true)
    else t
  }

  function AltKey(t: Tty, k: byte): (r: Tty)
    requires t.Ok()
    ensures r.Ok() && SameModes(t, r)
  {
    if k == 'b' as int then if t.cur == 0 then t else MoveLeft(t, RunOf(t.text[t.cur - 1]))
    else if k == 'f' as int then if t.cur >= |t.text| then t else MoveRight(t, RunOf(t.text[t.cur]))
    else t
  }

  predicate SwitchesTerminal(k: Key) {
    k.modifiers == MOD_ALT && KEY_F1 <= k.key <= KEY_F3
  }

  /** What a key does to the terminal it is typed on. */
  function HandleKey(t: Tty, k: Key): (r: Tty)
    requires t.Ok()
    ensures r.Ok() && SameModes(t, r)
  {
    if t.canon && !SwitchesTerminal(k) then AddCh(t.(cur := |t.text|), k.key)
    else if k.modifiers == MOD_CTRL then CtrlKey(t, k.key)
    else if k.modifiers == MOD_ALT then AltKey(t, k.key)
    else if k.key == KEY_ENTER then CtrlKey(t, 'm' as int)
    else if k.key == KEY_BACK then CtrlKey(t, 'h' as int)
    else if k.key == KEY_LEFT then CtrlKey(t, 'b' as int)
    else if k.key == KEY_RIGHT then CtrlKey(t, 'f' as int)
    else if KEY_F1 <= k.key <= KEY_F12 then t
    else AddCh(t, k.key)
  }

  // ---- the screen agrees with the line ----

  /** With the line's first character at cell o, the cells show the line, the
      cursor is on its current position, and one cell stays free behind it. */
  ghost predicate Agrees(t: Tty, o: int) {
    && t.Ok() && AllPlain(t.text)
    && o + |t.text| < SIZE
    && Shows(t.scr, o, t.text)
    && t.scr.Pos() == o + t.cur
  }

  lemma AddChAgrees(t: Tty, ch: byte, o: int)
    requires Agrees(t, o) && !t.noecho && Plain(ch)
    ensures Agrees(AddCh(t, ch), if o + |AddCh(t, ch).text| == SIZE then o - COLS else o)
  {
    if |t.text| < TERM_BUF_SIZE && t.reading {
      var drawn := [ch] + t.text[t.cur..];
      var p := PutAll(t.scr, drawn);
      InsertShows(t, ch, o);
      hide Shows;
      hide PutAll;
      BackByMoves(p, |drawn| - 1);
    }
  }

  /** Redrawing from the cursor shows the whole line with ch inserted. */
  lemma InsertShows(t: Tty, ch: byte, o: int)
    requires Agrees(t, o) && Plain(ch) && |t.text| < TERM_BUF_SIZE
    ensures var tail := t.text[t.cur..];
      var p := PutAll(t.scr, [ch] + tail);
      var o' := if o + |t.text| + 1 == SIZE then o - COLS else o;
      Shows(p, o', t.text[..t.cur] + [ch] + tail) && p.Pos() == o' + |t.text| + 1
  {
    var tail := t.text[t.cur..];
    var drawn := [ch] + tail;
    var p := PutAll(t.scr, drawn);
    var o' := if o + |t.text| + 1 == SIZE then o - COLS else o;
    if o' != o {
      PutAllToTheEnd(t.scr, drawn);
    } else {
      PutAllInside(t.scr, drawn);
    }
    hide PutAll;
    forall i | 0 <= i < t.cur
      ensures p.cells[o' + i].ch == t.text[i]
    {
      assert t.scr.cells[o + i].ch == t.text[i];
      assert o' != o ==> p.cells[o + i - COLS] == t.scr.cells[o + i];
    }
    assert Shows(p, o', t.text[..t.cur]);
    ShowsConcat(p, o', t.text[..t.cur], drawn);
    assert t.text[..t.cur] + drawn == t.text[..t.cur] + [ch] + tail;
  }

  lemma DelChAgrees(t: Tty, o: int)
    requires Agrees(t, o) && !t.canon
    ensures Agrees(DelCh(t), o)
  {
    if t.cur > 0 {
      var b := Back(t.scr);
      var tail := t.text[t.cur..];
      BackMoves(t.scr);
      PutAllInside(b, tail + [SPACE]);
      var p := PutAll(b, tail + [SPACE]);
      forall i | 0 <= i < |tail|
        ensures p.cells[b.Pos() + i].ch == tail[i]
      {
        assert p.cells[b.Pos() + i].ch == (tail + [SPACE])[i];
      }
    }
  }

  lemma {:induction false} MoveLeftAgrees(t: Tty, r: Run, o: int)
    requires Agrees(t, o)
    ensures Agrees(MoveLeft(t, r), o)
    decreases t.cur
  {
    if t.cur > 0 && In(r, t.text[t.cur - 1]) {
      BackMoves(t.scr);
      MoveLeftAgrees(CharBack(t), r, o);
    }
  }

  lemma {:induction false} MoveRightAgrees(t: Tty, r: Run, o: int)
    requires Agrees(t, o)
    ensures Agrees(MoveRight(t, r), o)
    decreases |t.text| - t.cur
  {
    if t.cur < |t.text| && In(r, t.text[t.cur]) {
      ForwardMoves(t.scr);
      MoveRightAgrees(CharForward(t), r, o);
    }
  }

  lemma {:induction false} KillLeftAgrees(t: Tty, r: Run, o: int)
    requires Agrees(t, o) && !t.canon
    ensures Agrees(KillLeft(t, r), o)
    decreases t.cur
  {
    if t.cur > 0 && In(r, t.text[t.cur - 1]) {
      DelChAgrees(t, o);
      KillLeftAgrees(DelCh(t), r, o);
    }
  }

  lemma LineToTopAgrees(t: Tty, o: int)
    requires Agrees(t, o)
    ensures Agrees(LineToTop(t), o % COLS)
  {
    var s := BackBy(t.scr, t.cur);
    BackByMoves(t.scr, t.cur);
    var u := ScrollBy(s, s.y);
    ScrollByShifts(s, s.y);
    assert o == COLS * s.y + s.x;
    assert o % COLS == s.x;
    ForwardByMoves(u, t.cur);
    forall i | 0 <= i < |t.text|
      ensures u.cells[s.x + i].ch == t.text[i]
    {
      assert u.cells[o + i - COLS * s.y] == s.cells[o + i];
    }
  }

  /** An editing key: anything but C-C, and what it types is drawn by putc as is.
      The key maps of kb.c contain no line feed, carriage return or backspace. */
  predicate Editing(k: Key) {
    Plain(k.key) && !(k.modifiers == MOD_CTRL && k.key == 'c' as int)
  }

  /** Where the line starts after a key: C-L moves it to the top row, and only a
      scroll by a character typed into the last cell moves it up, by one row. */
  function NewOrigin(t: Tty, k: Key, o: int): int
    requires t.Ok()
  {
    if k.modifiers == MOD_CTRL && k.key == 'l' as int then o % COLS
    else if o + |HandleKey(t, k).text| == SIZE then o - COLS
    else o
  }

  lemma CtrlKeyAgrees(t: Tty, k: byte, o: int)
    requires Agrees(t, o) && !t.canon && k != 'c' as int
    ensures Agrees(CtrlKey(t, k), if k == 'l' as int then o % COLS else o)
  {
    hide KillLeft;
    hide MoveLeft;
    hide MoveRight;
    hide LineToTop;
    hide DelCh;
    DelChAgrees(t, o);
    LineToTopAgrees(t, o);
    MoveLeftAgrees(t, Any, o);
    MoveRightAgrees(t, Any, o);
    KillLeftAgrees(t, Any, o);
    if t.cur > 0 {
      BackMoves(t.scr);
      KillLeftAgrees(t, RunOf(t.text[t.cur - 1]), o);
    }
    if t.cur < |t.text| {
      ForwardMoves(t.scr);
    }
  }

  lemma AltKeyAgrees(t: Tty, k: byte, o: int)
    requires Agrees(t, o)
    ensures Agrees(AltKey(t, k), o)
  {
    if t.cur > 0 {
      MoveLeftAgrees(t, RunOf(t.text[t.cur - 1]), o);
    }
    if t.cur < |t.text| {
      MoveRightAgrees(t, RunOf(t.text[t.cur]), o);
    }
    hide Agrees;
  }

  lemma KeyAgrees(t: Tty, k: Key, o: int)
    requires Agrees(t, o) && !t.noecho && !t.canon && Editing(k)
    ensures Agrees(HandleKey(t, k), NewOrigin(t, k, o))
  {
    hide CtrlKey;
    hide AltKey;
    hide AddCh;
    AltKeyAgrees(t, k.key, o);
    AddChAgrees(t, k.key, o);
    CtrlKeyAgrees(t, 'm' as int, o);
    CtrlKeyAgrees(t, 'h' as int, o);
    CtrlKeyAgrees(t, 'b' as int, o);
    CtrlKeyAgrees(t, 'f' as int, o);
    if k.modifiers == MOD_CTRL {
      CtrlKeyAgrees(t, k.key, o);
    }
  }

  // ---- what the word and line commands do to the text ----

  /** Start of the longest stretch of r-characters that ends before cur. */
  function RunStart(text: seq<byte>, cur: nat, r: Run): (k: nat)
    requires cur <= |text|
    ensures k <= cur && (forall i :: k <= i < cur ==> In(r, text[i]))
    ensures k == 0 || !In(r, text[k - 1])
  {
    if cur > 0 && In(r, text[cur - 1]) then RunStart(text, cur - 1, r) else cur
  }

  /** End of the longest stretch of r-characters that starts at cur. */
  function RunEnd(text: seq<byte>, cur: nat, r: Run): (k: nat)
    requires cur <= |text|
    ensures cur <= k <= |text| && (forall i :: cur <= i < k ==> In(r, text[i]))
    ensures k == |text| || !In(r, text[k])
    decreases |text| - cur
  {
    if cur < |text| && In(r, text[cur]) then RunEnd(text, cur + 1, r) else cur
  }

  lemma {:induction false} KillLeftCutsRun(t: Tty, r: Run)
    requires t.Ok()
    ensures var k := RunStart(t.text, t.cur, r);
      KillLeft(t, r).text == t.text[..k] + t.text[t.cur..] && KillLeft(t, r).cur == k
    decreases t.cur
  {
    if t.cur > 0 && In(r, t.text[t.cur - 1]) {
      var d := DelCh(t);
      assert d.cur == t.cur - 1 && d.text == t.text[..t.cur - 1] + t.text[t.cur..];
      hide DelCh;
      KillLeftCutsRun(d, r);
      RunStartPrefix(t.text, d.text, d.cur, r);
      CutTwice(t.text, t.cur, RunStart(t.text, d.cur, r));
      hide RunStart;
      hide In;
    } else {
      assert t.text == t.text[..t.cur] + t.text[t.cur..];
    }
  }

  lemma CutTwice(text: seq<byte>, cur: nat, k: nat)
    requires k < cur <= |text|
    ensures var d := text[..cur - 1] + text[cur..]; d[..k] + d[cur - 1..] == text[..k] + text[cur..]
  {
  }

  lemma {:induction false} RunStartPrefix(a: seq<byte>, b: seq<byte>, cur: nat, r: Run)
    requires cur <= |a| && cur <= |b| && a[..cur] == b[..cur]
    ensures RunStart(a, cur, r) == RunStart(b, cur, r)
  {
    if cur > 0 {
      assert a[cur - 1] == a[..cur][cur - 1] == b[..cur][cur - 1] == b[cur - 1];
      assert a[..cur - 1] == a[..cur][..cur - 1] == b[..cur - 1];
      RunStartPrefix(a, b, cur - 1, r);
    }
  }

  lemma {:induction false} MoveLeftFindsRun(t: Tty, r: Run)
    requires t.Ok()
    ensures MoveLeft(t, r).text == t.text && MoveLeft(t, r).cur == RunStart(t.text, t.cur, r)
    decreases t.cur
  {
    if t.cur > 0 && In(r, t.text[t.cur - 1]) {
      MoveLeftFindsRun(CharBack(t), r);
    }
  }

  lemma {:induction false} MoveRightFindsRun(t: Tty, r: Run)
    requires t.Ok()
    ensures MoveRight(t, r).text == t.text && MoveRight(t, r).cur == RunEnd(t.text, t.cur, r)
    decreases |t.text| - t.cur
  {
    if t.cur < |t.text| && In(r, t.text[t.cur]) {
      MoveRightFindsRun(CharForward(t), r);
    }
  }

  // ---- whole sessions: programs print and read, the user types ----

  /** term_read outside canonical mode, up to its wait and from its wait on; the
      wait ends once Return has been typed. */
  function BeginRead(t: Tty): Tty {
    t.(reading := true)
  }

  function EndRead(t: Tty): (r: Tty)
    requires t.Ok()
    ensures r.Ok()
  {
    t.(reading := false, scr := if t.noecho then t.scr else Putc(t.scr, LF), text := [], cur := 0, done := false)
  }

  /** The bytes a read of nbytes returns. */
  function ReadLine(t: Tty, nbytes: nat): seq<byte> {
    var line := t.text + [LF];
    line[..if nbytes < |line| then nbytes else |line|]
  }

  lemma EmptyLineAgrees(t: Tty)
    requires t.Ok() && t.text == []
    ensures Agrees(t, t.scr.Pos())
  {
  }

  /** Without a read in progress no key puts anything into the line. */
  lemma IdleKey(t: Tty, k: Key)
    requires t.Ok() && !t.reading && t.text == []
    ensures HandleKey(t, k).text == []
  {
  }
}
