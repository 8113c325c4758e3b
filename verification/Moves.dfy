/** What one key does to a game of 2048, said of the lines and cells of the board. */
module Moves {
  import opened Slide
  import opened Game

  /** The blank cells before cell n. */
  function BlanksBefore(b: seq<int>, n: nat): nat
    requires n <= |b|
  {
    if n == 0 then 0 else BlanksBefore(b, n - 1) + if b[n - 1] == 0 then 1 else 0
  }

  /** The lines run from the wall that the tiles slide to. */
  lemma LinesFromTheWall(b: Board, line: nat, k: nat)
    requires line < 4 && k < 4
    ensures LineOf(b, Left, line)[k] == b[4 * line + k]
    ensures LineOf(b, Right, line)[k] == b[4 * line + 3 - k]
    ensures LineOf(b, Up, line)[k] == b[4 * k + line]
    ensures LineOf(b, Down, line)[k] == b[4 * (3 - k) + line]
  {
  }

  /** No line changes under the slide. */
  ghost predicate NothingSlides(b: Board, d: Dir) {
    forall line :: 0 <= line < 4 ==> SlideLine(LineOf(b, d, line)) == LineOf(b, d, line)
  }

  function GainOfLines(b: Board, d: Dir): int {
    LineGain(LineOf(b, d, 0)) + LineGain(LineOf(b, d, 1)) + LineGain(LineOf(b, d, 2)) + LineGain(LineOf(b, d, 3))
  }

  /** slid holds the slide of each line of b. */
  ghost predicate Slid(b: Board, slid: Board, d: Dir) {
    forall line :: 0 <= line < 4 ==> LineOf(slid, d, line) == SlideLine(LineOf(b, d, line))
  }

  /** b with a new tile: 4 for every tenth random number and 2 otherwise, in the blank
      cell that has as many blanks before it as the other number says. */
  ghost predicate NewTileIn(b: Board, b': Board, r1: nat, r2: nat) {
    && BlanksBefore(b, 16) > 0
    && exists e :: 0 <= e < 16 && TileAt(b, b', e, r1) && BlanksBefore(b, e) == r2 % BlanksBefore(b, 16)
  }

  ghost predicate TileAt(b: Board, b': Board, e: nat, r1: nat)
    requires e < 16
  {
    && b[e] == 0 && b'[e] == (if r1 % 10 == 0 then 4 else 2)
    && forall i :: 0 <= i < 16 && i != e ==> b'[i] == b[i]
  }

  /** A move that slides nothing leaves everything as it was. Any other move slides
      every line, adds what the lines earn, and places one new tile. */
  lemma MoveExact(s: State, d: Dir, r1: nat, r2: nat)
    requires !Stuck(s.board)
    ensures NothingSlides(s.board, d) ==> Step(s, Move(d, r1, r2)) == s
    ensures !NothingSlides(s.board, d) ==>
      var s' := Step(s, Move(d, r1, r2));
      && s'.score == s.score + GainOfLines(s.board, d)
      && s'.fours == s.fours + (if r1 % 10 == 0 then 1 else 0)
      && exists slid: Board :: Slid(s.board, slid, d) && NewTileIn(slid, s'.board, r1, r2)
  {
    hide SlideLine;
    hide LineGain;
    hide Stuck;
    var slid := SlideBoard(s.board, d);
    SlidBoard(s.board, d);
    hide SlideBoard;
    assert BoardGain(s.board, d) == GainOfLines(s.board, d);
    hide Placed;
    hide Empties;
    if NothingSlides(s.board, d) {
      LinesDetermineBoard(slid, s.board, d);
      NothingEarned(s.board, d);
    } else {
      assert slid != s.board;
      ChangeLeavesRoom(s.board, d);
      TilePlaced(slid, r1, r2);
    }
  }

  lemma SlidBoard(b: Board, d: Dir)
    ensures Slid(b, SlideBoard(b, d), d)
  {
    forall line | 0 <= line < 4
      ensures LineOf(SlideBoard(b, d), d, line) == SlideLine(LineOf(b, d, line))
    {
      LineOfSlide(b, d, line);
    }
  }

  lemma NothingEarned(b: Board, d: Dir)
    requires NothingSlides(b, d)
    ensures GainOfLines(b, d) == 0
  {
    hide SlideLine;
    hide LineGain;
    FixedLine(LineOf(b, d, 0));
    FixedLine(LineOf(b, d, 1));
    FixedLine(LineOf(b, d, 2));
    FixedLine(LineOf(b, d, 3));
  }

  /** A line that does not change has merged nothing. */
  lemma FixedLine(l: Line)
    requires SlideLine(l) == l
    ensures LineGain(l) == 0
  {
    hide Compress;
    hide Merge;
    hide MergeGain;
    var c := Compress(l);
    CompressNonBlank(l);
    MergeNonBlank(c);
    StuckSlide(Merge(c));
    CompressConcat(Merge(c), Blanks(4 - |Merge(c)|));
    BlanksCompressAway(Blanks(4 - |Merge(c)|));
    assert Merge(c) + [] == Merge(c);
    FixedMerge(c);
  }

  lemma {:induction false} MergeNonBlank(c: seq<int>)
    requires Full(c)
    ensures Full(Merge(c))
  {
    if |c| >= 2 {
      if c[0] == c[1] {
        MergeNonBlank(c[2..]);
      } else {
        MergeNonBlank(c[1..]);
      }
    }
  }

  lemma {:induction false} FixedMerge(c: seq<int>)
    requires Full(c) && Merge(c) == c
    ensures MergeGain(c) == 0
  {
    MergeStep(c);
    if |c| >= 2 && c[0] != c[1] {
      assert Merge(c)[1..] == Merge(c[1..]);
      FixedMerge(c[1..]);
    }
  }

  /** The blanks collected by place_tile are as many, and in the order, of the board. */
  lemma {:induction false} EmptiesCounted(b: seq<int>, n: nat)
    requires n <= |b|
    ensures |Empties(b, n)| == BlanksBefore(b, n)
    ensures forall k :: 0 <= k < |Empties(b, n)| ==> BlanksBefore(b, Empties(b, n)[k]) == k
  {
    if n > 0 {
      EmptiesCounted(b, n - 1);
    }
  }

  lemma TilePlaced(b: Board, r1: nat, r2: nat)
    requires !Full(b)
    ensures Empties(b, 16) != []
    ensures NewTileIn(b, Placed(b, r1, r2), r1, r2)
  {
    hide BlanksBefore;
    EmptiesCounted(b, 16);
    var e := Empties(b, 16);
    var i :| 0 <= i < 16 && b[i] == 0;
    assert i in e;
    var at := e[r2 % |e|];
    assert TileAt(b, Placed(b, r1, r2), at, r1);
  }

  /** A new game has no score and two tiles, each 2 or 4, on an otherwise blank board. */
  lemma RestartExact(s: State, r1: nat, r2: nat, r3: nat, r4: nat)
    ensures var s' := Step(s, Restart(r1, r2, r3, r4));
      && s'.score == 0 && s'.fours == (if r1 % 10 == 0 then 1 else 0) + (if r3 % 10 == 0 then 1 else 0)
      && exists first: Board :: NewTileIn(seq(16, i => 0), first, r1, r2) && NewTileIn(first, s'.board, r3, r4)
  {
    hide NewTileIn;
    hide Spawn;
    var blank: Board := seq(16, i => 0);
    var start := State(Blanks(16), 0, 0);
    assert Blanks(16) == blank;
    assert blank[0] == 0;
    SpawnExact(start, r1, r2);
    var one := Spawn(start, r1, r2);
    OneTileLeavesRoom(blank, one.board, r1, r2);
    SpawnExact(one, r3, r4);
  }

  /** A new tile on a board with room. */
  lemma SpawnExact(s: State, r1: nat, r2: nat)
    requires !Full(s.board)
    ensures var s' := Spawn(s, r1, r2);
      && NewTileIn(s.board, s'.board, r1, r2) && s'.score == s.score
      && s'.fours == s.fours + (if r1 % 10 == 0 then 1 else 0)
  {
    hide Empties;
    hide NewTileIn;
    TilePlaced(s.board, r1, r2);
  }

  lemma OneTileLeavesRoom(b: Board, first: Board, r1: nat, r2: nat)
    requires NewTileIn(b, first, r1, r2) && forall i :: 0 <= i < 16 ==> b[i] == 0
    ensures !Full(first)
  {
    var e :| 0 <= e < 16 && TileAt(b, first, e, r1) && BlanksBefore(b, e) == r2 % BlanksBefore(b, 16);
    assert first[if e == 0 then 1 else 0] == 0;
  }

  /** When no move is left, and for any other key, nothing happens. */
  lemma OtherKeysExact(s: State, d: Dir, r1: nat, r2: nat)
    ensures Stuck(s.board) ==> Step(s, Move(d, r1, r2)) == s
    ensures Step(s, Other) == s
  {
  }
}
