/** The line editor as its user sees it: the characters left and right of the cursor.
    The terminal's key handler does to its buffer what this editor says. */
module LineEditor {
  import opened Chars
  import opened Screen
  import opened Editor

  /** done says that Return has been typed. */
  datatype Line = Line(left: seq<byte>, right: seq<byte>, done: bool)

  predicate WordChar(c: byte) {
    (48 <= c <= 57) || (65 <= c <= 90) || (97 <= c <= 122)
  }

  /** Length of the longest end of s whose characters are all in words, or all not. */
  function EndRun(s: seq<byte>, word: bool): (n: nat)
    ensures n <= |s|
  {
    if s == [] || WordChar(s[|s| - 1]) != word then 0 else 1 + EndRun(s[..|s| - 1], word)
  }

  /** The same for the beginning of s. */
  function StartRun(s: seq<byte>, word: bool): (n: nat)
    ensures n <= |s|
  {
    if s == [] || WordChar(s[0]) != word then 0 else 1 + StartRun(s[1..], word)
  }

  function LastRun(s: seq<byte>): (n: nat)
    ensures n <= |s|
  {
    if s == [] then 0 else EndRun(s, WordChar(s[|s| - 1]))
  }

  function FirstRun(s: seq<byte>): (n: nat)
    ensures n <= |s|
  {
    if s == [] then 0 else StartRun(s, WordChar(s[0]))
  }

  /** A typed character goes left of the cursor, while a read waits and the line has
      fewer than 127 characters. */
  function Insert(l: Line, c: byte, reading: bool): Line {
    if reading && |l.left| + |l.right| < 127 then l.(left := l.left + [c]) else l
  }

  function Rubout(l: Line): Line {
    if l.left == [] then l else l.(left := l.left[..|l.left| - 1])
  }

  /** n characters to the other side of the cursor. */
  function Leftwards(l: Line, n: nat): Line
    requires n <= |l.left|
  {
    var k := |l.left| - n;
    l.(left := l.left[..k], right := l.left[k..] + l.right)
  }

  function Rightwards(l: Line, n: nat): Line
    requires n <= |l.right|
  {
    l.(left := l.left + l.right[..n], right := l.right[n..])
  }

  function AtMostOne(s: seq<byte>): (n: nat)
    ensures n <= |s|
  {
    if s == [] then 0 else 1
  }

  /** Control and a letter. */
  function Control(l: Line, letter: byte): Line {
    if letter == 'b' as int then Leftwards(l, AtMostOne(l.left))
    else if letter == 'f' as int then Rightwards(l, AtMostOne(l.right))
    else if letter == 'a' as int then Leftwards(l, |l.left|)
    else if letter == 'e' as int then Rightwards(l, |l.right|)
    else if letter == 'h' as int then Rubout(l)
    else if letter == 'u' as int then l.(left := [])
    else if letter == 'w' as int then l.(left := l.left[..|l.left| - LastRun(l.left)])
    else if letter == 'm' as int then l.(done := true)
    else l
  }

  /** One key, by its modifiers and code, in line mode or in canonical mode. */
  function Typed(l: Line, k: Key, reading: bool, canon: bool): Line {
    if canon then
      if k.modifiers == 0x20 && 0x8A <= k.key <= 0x8C then l
      else Insert(Line(l.left + l.right, [], l.done), k.key, reading)
    else if k.modifiers == 0x80 then Control(l, k.key)
    else if k.modifiers == 0x20 then
      if k.key == 'b' as int then Leftwards(l, LastRun(l.left))
      else if k.key == 'f' as int then Rightwards(l, FirstRun(l.right))
      else l
    else if k.key == 0x83 then l.(done := true)
    else if k.key == 0x82 then Rubout(l)
    else if k.key == 0x86 then Leftwards(l, AtMostOne(l.left))
    else if k.key == 0x87 then Rightwards(l, AtMostOne(l.right))
    else if 0x8A <= k.key <= 0x95 then l
    else Insert(l, k.key, reading)
  }

  function TypedAll(l: Line, keys: seq<Key>, reading: bool, canon: bool): Line
    decreases |keys|
  {
    if keys == [] then l else TypedAll(Typed(l, keys[0], reading, canon), keys[1..], reading, canon)
  }

  /** The line of a terminal. */
  function LineOf(t: Tty): Line
    requires t.Ok()
  {
    Line(t.text[..t.cur], t.text[t.cur..], t.done)
  }

  function HandleKeys(t: Tty, keys: seq<Key>): (r: Tty)
    requires t.Ok()
    ensures r.Ok() && SameModes(t, r)
    decreases |keys|
  {
    if keys == [] then t else HandleKeys(HandleKey(t, keys[0]), keys[1..])
  }

  // ---- the handler does what the editor says ----

  lemma AddChLine(t: Tty, c: byte)
    requires t.Ok()
    ensures LineOf(AddCh(t, c)) == Insert(LineOf(t), c, t.reading)
  {
  }

  lemma DelChLine(t: Tty)
    requires t.Ok()
    ensures LineOf(DelCh(t)) == Rubout(LineOf(t))
  {
  }

  lemma CharBackLine(t: Tty)
    requires t.Ok()
    ensures LineOf(CharBack(t)) == Leftwards(LineOf(t), AtMostOne(LineOf(t).left))
  {
    if t.cur > 0 {
      assert t.text[t.cur - 1..] == t.text[..t.cur][t.cur - 1..] + t.text[t.cur..];
    }
  }

  lemma CharForwardLine(t: Tty)
    requires t.Ok()
    ensures LineOf(CharForward(t)) == Rightwards(LineOf(t), AtMostOne(LineOf(t).right))
  {
    if t.cur < |t.text| {
      assert t.text[..t.cur + 1] == t.text[..t.cur] + t.text[t.cur..][..1];
    }
  }

  lemma {:induction false} EndRunIsRunStart(text: seq<byte>, cur: nat, word: bool)
    requires cur <= |text|
    ensures RunStart(text, cur, if word then Alnum else Other) == cur - EndRun(text[..cur], word)
  {
    if cur > 0 {
      assert text[..cur][..cur - 1] == text[..cur - 1];
      EndRunIsRunStart(text, cur - 1, word);
    }
  }

  lemma {:induction false} StartRunIsRunEnd(text: seq<byte>, cur: nat, word: bool)
    requires cur <= |text|
    ensures RunEnd(text, cur, if word then Alnum else Other) == cur + StartRun(text[cur..], word)
    decreases |text| - cur
  {
    if cur < |text| {
      assert text[cur..][1..] == text[cur + 1..];
      StartRunIsRunEnd(text, cur + 1, word);
    }
  }

  lemma {:induction false} AnyRunIsAll(text: seq<byte>, cur: nat)
    requires cur <= |text|
    ensures RunStart(text, cur, Any) == 0
  {
    if cur > 0 {
      AnyRunIsAll(text, cur - 1);
    }
  }

  lemma {:induction false} AnyEndIsAll(text: seq<byte>, cur: nat)
    requires cur <= |text|
    ensures RunEnd(text, cur, Any) == |text|
    decreases |text| - cur
  {
    if cur < |text| {
      AnyEndIsAll(text, cur + 1);
    }
  }

  lemma {:induction false} MovesKeepDone(t: Tty, r: Run)
    requires t.Ok()
    ensures MoveLeft(t, r).done == t.done
    decreases t.cur
  {
    if t.cur > 0 && In(r, t.text[t.cur - 1]) {
      MovesKeepDone(CharBack(t), r);
    }
  }

  lemma {:induction false} MovesRightKeepDone(t: Tty, r: Run)
    requires t.Ok()
    ensures MoveRight(t, r).done == t.done
    decreases |t.text| - t.cur
  {
    if t.cur < |t.text| && In(r, t.text[t.cur]) {
      MovesRightKeepDone(CharForward(t), r);
    }
  }

  lemma {:induction false} KillsKeepDone(t: Tty, r: Run)
    requires t.Ok()
    ensures KillLeft(t, r).done == t.done
    decreases t.cur
  {
    if t.cur > 0 && In(r, t.text[t.cur - 1]) {
      KillsKeepDone(DelCh(t), r);
    }
  }

  /** Moving the cursor to k, left or right of where it is. */
  lemma MovedLine(t: Tty, u: Tty, k: nat)
    requires t.Ok() && u.Ok() && u.text == t.text && u.cur == k <= |t.text| && u.done == t.done
    ensures k <= t.cur ==> LineOf(u) == Leftwards(LineOf(t), t.cur - k)
    ensures k >= t.cur ==> LineOf(u) == Rightwards(LineOf(t), k - t.cur)
  {
    if k <= t.cur {
      assert t.text[k..] == t.text[..t.cur][k..] + t.text[t.cur..];
    }
    if k >= t.cur {
      assert t.text[..k] == t.text[..t.cur] + t.text[t.cur..][..k - t.cur];
    }
  }

  lemma MoveLeftLine(t: Tty, r: Run)
    requires t.Ok()
    ensures LineOf(MoveLeft(t, r)) == Leftwards(LineOf(t), t.cur - RunStart(t.text, t.cur, r))
  {
    MoveLeftFindsRun(t, r);
    MovesKeepDone(t, r);
    MovedLine(t, MoveLeft(t, r), RunStart(t.text, t.cur, r));
  }

  lemma MoveRightLine(t: Tty, r: Run)
    requires t.Ok()
    ensures LineOf(MoveRight(t, r)) == Rightwards(LineOf(t), RunEnd(t.text, t.cur, r) - t.cur)
  {
    MoveRightFindsRun(t, r);
    MovesRightKeepDone(t, r);
    MovedLine(t, MoveRight(t, r), RunEnd(t.text, t.cur, r));
  }

  lemma KillLeftLine(t: Tty, r: Run)
    requires t.Ok()
    ensures LineOf(KillLeft(t, r)) == LineOf(t).(left := t.text[..RunStart(t.text, t.cur, r)])
  {
    KillLeftCutsRun(t, r);
    KillsKeepDone(t, r);
    var k, u := RunStart(t.text, t.cur, r), KillLeft(t, r);
    assert u.text == t.text[..k] + t.text[t.cur..] && u.cur == k;
    assert u.text[..k] == t.text[..k] && u.text[k..] == t.text[t.cur..];
  }

  lemma ControlLine(t: Tty, k: byte)
    requires t.Ok()
    ensures LineOf(CtrlKey(t, k)) == Control(LineOf(t), k)
  {
    hide MoveLeft;
    hide MoveRight;
    hide KillLeft;
    hide DelCh;
    hide CharBack;
    hide CharForward;
    hide LastRun;
    hide Leftwards;
    hide Rightwards;
    hide Rubout;
    if k == 'b' as int {
      CharBackLine(t);
    } else if k == 'f' as int {
      CharForwardLine(t);
    } else if k == 'a' as int {
      MoveLeftLine(t, Any);
      AnyRunIsAll(t.text, t.cur);
    } else if k == 'e' as int {
      MoveRightLine(t, Any);
      AnyEndIsAll(t.text, t.cur);
    } else if k == 'w' as int {
      WordKilled(t);
    } else if k == 'u' as int {
      KillLeftLine(t, Any);
      AnyRunIsAll(t.text, t.cur);
    } else if k == 'h' as int {
      DelChLine(t);
    }
  }

  lemma WordKilled(t: Tty)
    requires t.Ok()
    ensures var l := LineOf(t);
      LineOf(if t.cur == 0 then t else KillLeft(t, RunOf(t.text[t.cur - 1])))
      == l.(left := l.left[..|l.left| - LastRun(l.left)])
  {
    hide KillLeft;
    hide EndRun;
    if t.cur > 0 {
      var word := WordChar(t.text[t.cur - 1]);
      KillLeftLine(t, RunOf(t.text[t.cur - 1]));
      EndRunIsRunStart(t.text, t.cur, word);
      LastRunIs(t.text[..t.cur]);
      var n := LastRun(t.text[..t.cur]);
      assert t.text[..t.cur][..t.cur - n] == t.text[..t.cur - n];
    }
  }

  lemma LastRunIs(s: seq<byte>)
    requires s != []
    ensures LastRun(s) == EndRun(s, WordChar(s[|s| - 1]))
  {
  }

  lemma StayedPut(l: Line)
    ensures l.left == [] ==> LastRun(l.left) == 0
    ensures l.right == [] ==> FirstRun(l.right) == 0
    ensures Leftwards(l, 0) == l && Rightwards(l, 0) == l
  {
  }

  lemma WordBack(t: Tty)
    requires t.Ok()
    ensures LineOf(if t.cur == 0 then t else MoveLeft(t, RunOf(t.text[t.cur - 1])))
      == Leftwards(LineOf(t), LastRun(LineOf(t).left))
  {
    hide MoveLeft;
    hide EndRun;
    hide Leftwards;
    if t.cur > 0 {
      MoveLeftLine(t, RunOf(t.text[t.cur - 1]));
      EndRunIsRunStart(t.text, t.cur, WordChar(t.text[t.cur - 1]));
      LastRunIs(t.text[..t.cur]);
    } else {
      StayedPut(LineOf(t));
    }
  }

  lemma WordForward(t: Tty)
    requires t.Ok()
    ensures LineOf(if t.cur >= |t.text| then t else MoveRight(t, RunOf(t.text[t.cur])))
      == Rightwards(LineOf(t), FirstRun(LineOf(t).right))
  {
    hide MoveRight;
    hide StartRun;
    hide Rightwards;
    if t.cur < |t.text| {
      MoveRightLine(t, RunOf(t.text[t.cur]));
      StartRunIsRunEnd(t.text, t.cur, WordChar(t.text[t.cur]));
    } else {
      StayedPut(LineOf(t));
    }
  }

  lemma AltLine(t: Tty, k: byte)
    requires t.Ok()
    ensures LineOf(AltKey(t, k)) ==
      if k == 'b' as int then Leftwards(LineOf(t), LastRun(LineOf(t).left))
      else if k == 'f' as int then Rightwards(LineOf(t), FirstRun(LineOf(t).right))
      else LineOf(t)
  {
    hide MoveLeft;
    hide MoveRight;
    hide LastRun;
    hide FirstRun;
    WordBack(t);
    WordForward(t);
  }

  /** Every key does to the terminal's line what the editor says. */
  lemma KeyRefines(t: Tty, k: Key)
    requires t.Ok()
    ensures LineOf(HandleKey(t, k)) == Typed(LineOf(t), k, t.reading, t.canon)
  {
    hide AddCh;
    hide CtrlKey;
    hide AltKey;
    hide Insert;
    if t.canon && !SwitchesTerminal(k) {
      AddChLine(t.(cur := |t.text|), k.key);
      assert t.text[..|t.text|] == LineOf(t).left + LineOf(t).right;
      assert t.text[|t.text|..] == [];
    } else if k.modifiers == MOD_CTRL {
      ControlLine(t, k.key);
    } else if k.modifiers == MOD_ALT {
      AltLine(t, k.key);
    } else if k.key == KEY_ENTER {
      ControlLine(t, 'm' as int);
    } else if k.key == KEY_BACK {
      ControlLine(t, 'h' as int);
    } else if k.key == KEY_LEFT {
      ControlLine(t, 'b' as int);
    } else if k.key == KEY_RIGHT {
      ControlLine(t, 'f' as int);
    } else if !(KEY_F1 <= k.key <= KEY_F12) {
      AddChLine(t, k.key);
    }
  }

  /** And so does every sequence of keys. */
  lemma {:induction false} KeysRefine(t: Tty, keys: seq<Key>)
    requires t.Ok()
    ensures LineOf(HandleKeys(t, keys)) == TypedAll(LineOf(t), keys, t.reading, t.canon)
    decreases |keys|
  {
    hide HandleKey;
    hide Typed;
    hide LineOf;
    if keys != [] {
      KeyRefines(t, keys[0]);
      KeysRefine(HandleKey(t, keys[0]), keys[1..]);
    }
  }

  /** A line read returns the line that was typed and a line feed, cut to what was asked
      for, and leaves an empty line. */
  lemma ReadReturnsTyped(t: Tty, keys: seq<Key>, nbytes: nat)
    requires t.Ok() && t.text == [] && !t.done && !t.canon
    ensures var l := TypedAll(Line([], [], false), keys, true, false);
      var line := l.left + l.right + [10];
      var u := HandleKeys(BeginRead(t), keys);
      && u.done == l.done
      && ReadLine(u, nbytes) == (if nbytes < |line| then line[..nbytes] else line)
      && LineOf(EndRead(u)) == Line([], [], false)
  {
    var b := BeginRead(t);
    KeysRefine(b, keys);
    assert LineOf(b) == Line([], [], false);
    var u := HandleKeys(b, keys);
    assert u.text == u.text[..u.cur] + u.text[u.cur..];
  }

  // ---- what is shown of it ----

  /** A character without Ctrl or Alt. */
  predicate Character(k: Key) {
    && k.modifiers != MOD_CTRL && k.modifiers != MOD_ALT && !(KEY_F1 <= k.key <= KEY_F12)
    && k.key != KEY_ENTER && k.key != KEY_BACK && k.key != KEY_LEFT && k.key != KEY_RIGHT
  }

  /** Characters typed without echo, and the end of their read, leave the screen alone. */
  lemma {:induction false} NothingShown(t: Tty, keys: seq<Key>)
    requires t.Ok() && t.noecho && forall i :: 0 <= i < |keys| ==> Character(keys[i])
    ensures HandleKeys(t, keys).scr == t.scr && EndRead(HandleKeys(t, keys)).scr == t.scr
    decreases |keys|
  {
    if keys != [] {
      NothingShown(HandleKey(t, keys[0]), keys[1..]);
    }
  }

  /** With echo the end of a read moves to the next line. */
  lemma ReadEndsLine(t: Tty)
    requires t.Ok() && !t.noecho
    ensures EndRead(t).scr == PutAll(t.scr, [10])
  {
    assert [10 as byte][1..] == [];
    assert PutAll(Putc(t.scr, 10), []) == Putc(t.scr, 10);
  }

  /** The interrupt key shows as ^C, which is no part of the line. */
  lemma InterruptShown(t: Tty)
    requires t.Ok() && !t.canon
    ensures HandleKey(t, Key(0x80, 'c' as int)) == t.(scr := PutAll(t.scr, [94, 67]))
  {
  }

  /** In canonical mode every key but those that switch terminals is a character for the
      end of the line, and is drawn at the cursor when it is echoed. */
  lemma CanonicalKey(t: Tty, k: Key)
    requires t.Ok() && t.canon && !SwitchesTerminal(k)
    ensures var u := HandleKey(t, k); var taken := t.reading && |t.text| < 127;
      && u.text == (if taken then t.text + [k.key] else t.text) && u.cur == |u.text|
      && u.scr == (if taken && !t.noecho then Putc(t.scr, k.key) else t.scr)
  {
    hide Putc;
    assert t.text[..|t.text|] == t.text && t.text[|t.text|..] == [];
    assert [k.key] + [] == [k.key] && [k.key][1..] == [];
    var d := Putc(t.scr, k.key);
    assert PutAll(d, []) == d && BackBy(d, 0) == d;
    assert PutAll(t.scr, [k.key]) == d;
  }

  lemma NoKeys(t: Tty)
    requires t.Ok()
    ensures HandleKeys(t, []) == t
  {
  }

  lemma {:induction false} OneMoreKey(t: Tty, keys: seq<Key>, i: nat)
    requires t.Ok() && i < |keys|
    ensures HandleKeys(t, keys[..i + 1]) == HandleKey(HandleKeys(t, keys[..i]), keys[i])
    decreases i
  {
    hide HandleKey;
    if i == 0 {
      assert keys[..1] == [keys[0]] && [keys[0]][1..] == [] && keys[..0] == [];
    } else {
      OneMoreKey(HandleKey(t, keys[0]), keys[1..], i - 1);
      assert keys[..i + 1][1..] == keys[1..][..i] && keys[..i][1..] == keys[1..][..i - 1];
    }
  }
}
