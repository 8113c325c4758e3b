/** Whole games of 2048: the board never overflows, the score is what the board
    says it is, and the end of the game is recognised exactly. */
module Game {
  import opened Slide
  import opened Tiles

  // ---- tiles and totals ----

  predicate AllTiles(s: seq<int>) {
    forall i :: 0 <= i < |s| ==> s[i] == 0 || Tile(s[i])
  }

  function Total(s: seq<int>, f: int -> int): int {
    if s == [] then 0 else f(s[0]) + Total(s[1..], f)
  }

  function Id(v: int): int { v }

  lemma {:induction false} TotalConcat(s: seq<int>, t: seq<int>, f: int -> int)
    ensures Total(s + t, f) == Total(s, f) + Total(t, f)
  {
    if s == [] {
      assert s + t == t;
    } else {
      assert (s + t)[1..] == s[1..] + t;
      TotalConcat(s[1..], t, f);
    }
  }

  lemma TotalOfFour(l: seq<int>, f: int -> int)
    requires |l| == 4
    ensures Total(l, f) == f(l[0]) + f(l[1]) + f(l[2]) + f(l[3])
  {
    assert l[1..][1..] == l[2..] && l[2..][1..] == l[3..] && l[3..][1..] == [];
    assert Total(l[3..], f) == f(l[3]);
    assert Total(l[2..], f) == f(l[2]) + f(l[3]);
  }

  /** A board total is the sum of its line totals, in every direction. */
  lemma TotalByLines(b: Board, d: Dir, f: int -> int)
    ensures Total(b, f) == Total(LineOf(b, d, 0), f) + Total(LineOf(b, d, 1), f) +
                           Total(LineOf(b, d, 2), f) + Total(LineOf(b, d, 3), f)
  {
    assert b == b[..4] + (b[4..8] + (b[8..12] + b[12..]));
    TotalConcat(b[..4], b[4..8] + (b[8..12] + b[12..]), f);
    TotalConcat(b[4..8], b[8..12] + b[12..], f);
    TotalConcat(b[8..12], b[12..], f);
    TotalOfFour(b[..4], f);
    TotalOfFour(b[4..8], f);
    TotalOfFour(b[8..12], f);
    TotalOfFour(b[12..], f);
    TotalOfFour(LineOf(b, d, 0), f);
    TotalOfFour(LineOf(b, d, 1), f);
    TotalOfFour(LineOf(b, d, 2), f);
    TotalOfFour(LineOf(b, d, 3), f);
  }

  lemma {:induction false} TotalOfCompress(s: seq<int>, f: int -> int)
    requires f(0) == 0
    ensures Total(Compress(s), f) == Total(s, f)
  {
    if s != [] {
      TotalOfCompress(s[1..], f);
      if s[0] != 0 {
        assert Compress(s)[1..] == Compress(s[1..]);
      }
    }
  }

  lemma {:induction false} TotalOfBlanks(n: nat, f: int -> int)
    requires f(0) == 0
    ensures Total(Blanks(n), f) == 0
  {
    if n > 0 {
      assert Blanks(n)[1..] == Blanks(n - 1);
      TotalOfBlanks(n - 1, f);
    }
  }

  /** Merging x with x gains 2x: a total that counts a merged pair as its two
      halves, plus the gain when asked, follows the merge. */
  lemma {:induction false} TotalOfMerge(s: seq<int>, f: int -> int, withGain: bool)
    requires forall i :: 0 <= i < |s| ==> f(2 * s[i]) == 2 * f(s[i]) + if withGain then 2 * s[i] else 0
    ensures Total(Merge(s), f) == Total(s, f) + if withGain then MergeGain(s) else 0
  {
    if |s| >= 2 {
      if s[0] == s[1] {
        TotalOfMerge(s[2..], f, withGain);
        assert Merge(s)[1..] == Merge(s[2..]);
        assert s[1..][1..] == s[2..];
      } else {
        TotalOfMerge(s[1..], f, withGain);
        assert Merge(s)[1..] == Merge(s[1..]);
      }
    }
  }

  lemma {:induction false} CompressSubset(s: seq<int>)
    ensures forall i :: 0 <= i < |Compress(s)| ==> Compress(s)[i] in s && Compress(s)[i] != 0
  {
    if s != [] {
      CompressSubset(s[1..]);
    }
  }

  lemma {:induction false} MergeKeepsTiles(s: seq<int>)
    requires forall i :: 0 <= i < |s| ==> Tile(s[i])
    ensures forall i :: 0 <= i < |Merge(s)| ==> Tile(Merge(s)[i])
  {
    hide Tile;
    hide Merge;
    MergeStep(s);
    if |s| >= 2 {
      if s[0] == s[1] {
        MergeKeepsTiles(s[2..]);
        EvenTile(s[0]);
        WorthDoubled(s[0]);
      } else {
        MergeKeepsTiles(s[1..]);
      }
    }
  }

  lemma MergeStep(s: seq<int>)
    ensures Merge(s) ==
      if |s| < 2 then s
      else if s[0] == s[1] then [2 * s[0]] + Merge(s[2..])
      else [s[0]] + Merge(s[1..])
  {
  }

  /** Doubling x doubles f, with the gain 2x on top when asked. */
  ghost predicate Additive(f: int -> int, withGain: bool) {
    f(0) == 0 && forall x :: x == 0 || Tile(x) ==> f(2 * x) == 2 * f(x) + if withGain then 2 * x else 0
  }

  lemma SlideLineTotal(l: Line, f: int -> int, withGain: bool)
    requires AllTiles(l) && Additive(f, withGain)
    ensures AllTiles(SlideLine(l))
    ensures Total(SlideLine(l), f) == Total(l, f) + if withGain then LineGain(l) else 0
  {
    var c := Compress(l);
    var m := Merge(c);
    CompressSubset(l);
    MergeKeepsTiles(c);
    TotalOfCompress(l, f);
    TotalOfMerge(c, f, withGain);
    TotalConcat(m, Blanks(4 - |m|), f);
    TotalOfBlanks(4 - |m|, f);
  }

  lemma IndexOfCell(d: Dir, line: nat, k: nat)
    requires line < 4 && k < 4
    ensures LineIndex(d, Cell(d, line, k)) == line && PosIndex(d, Cell(d, line, k)) == k
  {
  }

  lemma LineOfSlide(b: Board, d: Dir, line: nat)
    requires line < 4
    ensures LineOf(SlideBoard(b, d), d, line) == SlideLine(LineOf(b, d, line))
  {
    hide SlideLine;
    forall k | 0 <= k < 4
      ensures LineOf(SlideBoard(b, d), d, line)[k] == SlideLine(LineOf(b, d, line))[k]
    {
      IndexOfCell(d, line, k);
    }
  }

  lemma SlideTotalOnLine(b: Board, d: Dir, line: nat, f: int -> int, withGain: bool)
    requires AllTiles(b) && Additive(f, withGain) && line < 4
    ensures Total(LineOf(SlideBoard(b, d), d, line), f) ==
      Total(LineOf(b, d, line), f) + if withGain then LineGain(LineOf(b, d, line)) else 0
  {
    LineOfSlide(b, d, line);
    SlideLineTotal(LineOf(b, d, line), f, withGain);
  }

  lemma SlideTotal(b: Board, d: Dir, f: int -> int, withGain: bool)
    requires AllTiles(b) && Additive(f, withGain)
    ensures Total(SlideBoard(b, d), f) == Total(b, f) + if withGain then BoardGain(b, d) else 0
  {
    TotalByLines(b, d, f);
    TotalByLines(SlideBoard(b, d), d, f);
    SlideTotalOnLine(b, d, 0, f, withGain);
    SlideTotalOnLine(b, d, 1, f, withGain);
    SlideTotalOnLine(b, d, 2, f, withGain);
    SlideTotalOnLine(b, d, 3, f, withGain);
  }

  lemma SlideTiles(b: Board, d: Dir)
    requires AllTiles(b)
    ensures AllTiles(SlideBoard(b, d))
  {
    forall i | 0 <= i < 16
      ensures SlideBoard(b, d)[i] == 0 || Tile(SlideBoard(b, d)[i])
    {
      SlideLineTotal(LineOf(b, d, LineIndex(d, i)), Zero, false);
    }
  }

  function Zero(v: int): int { 0 }

  lemma AdditiveTotals()
    ensures Additive(Id, false) && Additive(Worth, true)
  {
    forall x | x == 0 || Tile(x)
      ensures Worth(2 * x) == 2 * Worth(x) + 2 * x
    {
      assert (2 * x) / 2 == x;
    }
  }

  /** A move keeps the sum of the board, and turns its gain into worth. */
  lemma SlideTotals(b: Board, d: Dir)
    requires AllTiles(b)
    ensures AllTiles(SlideBoard(b, d))
    ensures Total(SlideBoard(b, d), Id) == Total(b, Id)
    ensures Total(SlideBoard(b, d), Worth) == Total(b, Worth) + BoardGain(b, d)
  {
    SlideTiles(b, d);
    AdditiveTotals();
    SlideTotal(b, d, Id, false);
    SlideTotal(b, d, Worth, true);
  }

  // ---- the bound: a board of n powers of two has a sum with at most n ones ----

  lemma {:induction false} OnesOfBoard(s: seq<int>)
    requires AllTiles(s)
    ensures Total(s, Id) >= 0 && Total(s, Id) % 2 == 0
    ensures Ones(Total(s, Id)) <= |Compress(s)|
  {
    hide Ones;
    NoOnes();
    if s != [] {
      OnesOfBoard(s[1..]);
      if s[0] != 0 {
        EvenTile(s[0]);
        hide Tile;
        OnesOfTile(s[0]);
        OnesOfSum(s[0], Total(s[1..], Id));
      }
    }
  }

  lemma NoOnes()
    ensures Ones(0) == 0
  {
  }

  lemma EvenTile(v: int)
    requires Tile(v)
    ensures v >= 2 && v % 2 == 0
  {
  }

  lemma {:induction false} CompressShorter(s: seq<int>, i: nat)
    requires i < |s| && s[i] == 0
    ensures |Compress(s)| < |s|
  {
    if i > 0 {
      CompressShorter(s[1..], i - 1);
    }
  }

  lemma {:induction false} TotalUpdate(s: seq<int>, i: nat, v: int, f: int -> int)
    requires i < |s|
    ensures Total(s[i := v], f) == Total(s, f) - f(s[i]) + f(v)
  {
    if i == 0 {
      assert s[i := v][1..] == s[1..];
    } else {
      assert s[i := v][1..] == s[1..][i - 1 := v];
      TotalUpdate(s[1..], i - 1, v, f);
    }
  }

  /** Room for a new tile means the sum is at most 2^18 - 8, so the new tile
      cannot push it over 2^18 - 4. */
  lemma SpawnStaysBelow(b: Board, i: nat, v: int)
    requires AllTiles(b) && Total(b, Id) <= MAX_SUM
    requires i < 16 && b[i] == 0 && (v == 2 || v == 4)
    ensures AllTiles(b[i := v]) && Total(b[i := v], Id) <= MAX_SUM
  {
    hide Ones;
    hide Compress;
    OnesOfBoard(b);
    CompressShorter(b, i);
    FullSums();
    TotalUpdate(b, i, v, Id);
    assert Tile(4);
  }

  // ---- the end of the game ----

  ghost predicate Full(s: seq<int>) {
    forall i :: 0 <= i < |s| ==> s[i] != 0
  }

  ghost predicate NoPair(s: seq<int>) {
    forall i :: 0 <= i < |s| - 1 ==> s[i] != s[i + 1]
  }

  /** Two orthogonally adjacent cells are equal. */
  ghost predicate HasColumnPair(b: Board) {
    exists i :: 0 <= i < 12 && b[i] == b[i + 4]
  }

  ghost predicate HasRowPair(b: Board) {
    exists i :: 0 <= i < 15 && i % 4 != 3 && b[i] == b[i + 1]
  }

  ghost predicate HasPair(b: Board, d: Dir) {
    if d.Up? || d.Down? then HasColumnPair(b) else HasRowPair(b)
  }

  /** The board is full and no two neighbours are equal. */
  ghost predicate Stuck(b: Board) {
    Full(b) && !HasColumnPair(b) && !HasRowPair(b)
  }

  lemma {:induction false} StuckSlide(s: seq<int>)
    requires Full(s)
    ensures Compress(s) == s
    ensures NoPair(s) ==> Merge(s) == s
    ensures !NoPair(s) ==> |Merge(s)| < |s|
  {
    if s != [] {
      StuckSlide(s[1..]);
      if |s| >= 2 {
        if s[0] == s[1] {
          assert !NoPair(s);
        } else if NoPair(s) {
          assert NoPair(s[1..]);
        } else {
          var i :| 0 <= i < |s| - 1 && s[i] == s[i + 1];
          assert s[1..][i - 1] == s[1..][i];
        }
      }
    }
  }

  lemma LinePair(b: Board, d: Dir)
    ensures HasPair(b, d) <==> exists line :: 0 <= line < 4 && !NoPair(LineOf(b, d, line))
  {
    if d.Up? || d.Down? {
      ColumnLinePair(b, d);
    } else {
      RowLinePair(b, d);
    }
  }

  lemma ColumnLinePair(b: Board, d: Dir)
    requires d.Up? || d.Down?
    ensures HasColumnPair(b) <==> exists line :: 0 <= line < 4 && !NoPair(LineOf(b, d, line))
  {
    if HasColumnPair(b) {
      var i :| 0 <= i < 12 && b[i] == b[i + 4];
      ColumnNeighbours(b, d, i);
      assert !NoPair(LineOf(b, d, i % 4));
    }
    if line :| 0 <= line < 4 && !NoPair(LineOf(b, d, line)) {
      ColumnPairFromLine(b, d, line);
    }
  }

  lemma ColumnNeighbours(b: Board, d: Dir, i: nat)
    requires (d.Up? || d.Down?) && i < 12
    ensures var k := if d.Up? then i / 4 else 2 - i / 4; var l := LineOf(b, d, i % 4);
      0 <= k < 3 && (l[k] == l[k + 1] <==> b[i] == b[i + 4])
  {
  }

  lemma ColumnPairFromLine(b: Board, d: Dir, line: nat)
    requires (d.Up? || d.Down?) && line < 4 && !NoPair(LineOf(b, d, line))
    ensures HasColumnPair(b)
  {
    var l := LineOf(b, d, line);
    var k :| 0 <= k < 3 && l[k] == l[k + 1];
    var i := if d.Up? then 4 * k + line else 4 * (2 - k) + line;
    ColumnNeighbours(b, d, i);
  }

  lemma RowNeighbours(b: Board, d: Dir, i: nat)
    requires (d.Left? || d.Right?) && i < 15 && i % 4 != 3
    ensures var k := if d.Left? then i % 4 else 2 - i % 4; var l := LineOf(b, d, i / 4);
      if d.Left? then l[k] == b[i] && l[k + 1] == b[i + 1] else l[k] == b[i + 1] && l[k + 1] == b[i]
  {
    assert i == 4 * (i / 4) + i % 4;
  }

  lemma RowLinePair(b: Board, d: Dir)
    requires d.Left? || d.Right?
    ensures HasRowPair(b) <==> exists line :: 0 <= line < 4 && !NoPair(LineOf(b, d, line))
  {
    if HasRowPair(b) {
      var i :| 0 <= i < 15 && i % 4 != 3 && b[i] == b[i + 1];
      RowNeighbours(b, d, i);
      assert !NoPair(LineOf(b, d, i / 4));
    }
    if line :| 0 <= line < 4 && !NoPair(LineOf(b, d, line)) {
      RowPairFromLine(b, d, line);
    }
  }

  lemma RowPairFromLine(b: Board, d: Dir, line: nat)
    requires (d.Left? || d.Right?) && line < 4 && !NoPair(LineOf(b, d, line))
    ensures HasRowPair(b)
  {
    var l := LineOf(b, d, line);
    var k :| 0 <= k < 3 && l[k] == l[k + 1];
    var i := if d.Left? then 4 * line + k else 4 * line + 2 - k;
    assert i / 4 == line && i % 4 != 3;
    RowNeighbours(b, d, i);
    assert b[i] == b[i + 1];
  }

  lemma CellInLine(b: Board, d: Dir, i: nat)
    requires i < 16
    ensures b[i] == LineOf(b, d, LineIndex(d, i))[PosIndex(d, i)]
  {
    CellOfIndex(d, i);
  }

  lemma FullLine(b: Board, d: Dir, line: nat)
    requires Full(b) && line < 4
    ensures Full(LineOf(b, d, line))
  {
  }

  lemma FullLines(b: Board, d: Dir)
    ensures Full(b) <==> forall line :: 0 <= line < 4 ==> Full(LineOf(b, d, line))
  {
    if Full(b) {
      forall line | 0 <= line < 4
        ensures Full(LineOf(b, d, line))
      {
        FullLine(b, d, line);
      }
    } else {
      var i :| 0 <= i < 16 && b[i] == 0;
      CellInLine(b, d, i);
    }
  }

  lemma LinesDetermineBoard(b: Board, b': Board, d: Dir)
    requires forall line :: 0 <= line < 4 ==> LineOf(b, d, line) == LineOf(b', d, line)
    ensures b == b'
  {
    forall i | 0 <= i < 16
      ensures b[i] == b'[i]
    {
      CellInLine(b, d, i);
      CellInLine(b', d, i);
    }
  }

  /** On a full line without a pair the slide does nothing; otherwise it leaves
      the cell furthest from the wall blank. */
  lemma SlideLineCases(l: Line)
    ensures Full(l) && NoPair(l) ==> SlideLine(l) == l
    ensures !(Full(l) && NoPair(l)) ==> SlideLine(l)[3] == 0
  {
    if Full(l) {
      StuckSlide(l);
    } else {
      var i :| 0 <= i < 4 && l[i] == 0;
      CompressShorter(l, i);
    }
  }

  lemma FullWithoutPairStays(b: Board, d: Dir)
    requires Full(b) && !HasPair(b, d)
    ensures SlideBoard(b, d) == b
  {
    LinePair(b, d);
    forall line | 0 <= line < 4
      ensures LineOf(SlideBoard(b, d), d, line) == LineOf(b, d, line)
    {
      LineOfSlide(b, d, line);
      FullLine(b, d, line);
      SlideLineCases(LineOf(b, d, line));
    }
    LinesDetermineBoard(SlideBoard(b, d), b, d);
  }

  lemma OtherwiseABlank(b: Board, d: Dir)
    requires !(Full(b) && !HasPair(b, d))
    ensures !Full(SlideBoard(b, d))
  {
    FullLines(b, d);
    LinePair(b, d);
    var line :| 0 <= line < 4 && !(Full(LineOf(b, d, line)) && NoPair(LineOf(b, d, line)));
    LineOfSlide(b, d, line);
    SlideLineCases(LineOf(b, d, line));
    if Full(SlideBoard(b, d)) {
      FullLine(SlideBoard(b, d), d, line);
    }
  }

  /** A full board without a pair along the move stays; any other board has a
      blank after the move. */
  lemma SlideCases(b: Board, d: Dir)
    ensures Full(b) && !HasPair(b, d) ==> SlideBoard(b, d) == b
    ensures !(Full(b) && !HasPair(b, d)) ==> !Full(SlideBoard(b, d))
  {
    if Full(b) && !HasPair(b, d) {
      FullWithoutPairStays(b, d);
    } else {
      OtherwiseABlank(b, d);
    }
  }

  /** A move that changes the board always leaves room for the new tile. */
  lemma ChangeLeavesRoom(b: Board, d: Dir)
    requires SlideBoard(b, d) != b
    ensures !Full(SlideBoard(b, d))
  {
    SlideCases(b, d);
  }

  function FourMoves(b: Board): Board {
    SlideBoard(SlideBoard(SlideBoard(SlideBoard(b, Up), Down), Right), Left)
  }

  /** The four trial moves of check_end leave a full board alone exactly when it
      is stuck: the first that merges makes a blank, and no later one fills it. */
  lemma TrialMoves(b: Board)
    requires Full(b)
    ensures FourMoves(b) == b <==> Stuck(b)
  {
    var u := SlideBoard(b, Up);
    var ud := SlideBoard(u, Down);
    var udr := SlideBoard(ud, Right);
    SlideCases(b, Up);
    SlideCases(u, Down);
    SlideCases(ud, Right);
    SlideCases(udr, Left);
  }

  method TryAllMoves(tile: array<int>)
    requires tile.Length == 16
    modifies tile
    ensures tile[..] == FourMoves(old(tile[..]))
  {
    var gain := MoveTile(tile, Up);
    gain := MoveTile(tile, Down);
    gain := MoveTile(tile, Right);
    gain := MoveTile(tile, Left);
  }

  method IsFull(tile: array<int>) returns (full: bool)
    ensures full <==> Full(tile[..])
  {
    for i := 0 to tile.Length
      invariant forall k :: 0 <= k < i ==> tile[k] != 0
    {
      if tile[i] == 0 {
        assert tile[..][i] == 0;
        return false;
      }
    }
    return true;
  }

  method CheckEnd(tile: array<int>) returns (over: bool)
    requires tile.Length == 16
    modifies tile
    ensures tile[..] == old(tile[..])
    ensures over <==> Stuck(old(tile[..]))
  {
    var full := IsFull(tile);
    if !full {
      return false;
    }
    var bak := new int[16];
    Copy(tile, bak);
    TrialMoves(tile[..]);
    TryAllMoves(tile);
    var changed := Differs(bak, tile);
    if changed {
      Copy(bak, tile);
      return false;
    }
    return true;
  }

  method Copy(from: array<int>, to: array<int>)
    requires from.Length == 16 && to.Length == 16 && from != to
    modifies to
    ensures to[..] == from[..]
  {
    for i := 0 to 16
      invariant forall k :: 0 <= k < i ==> to[k] == from[k]
    {
      to[i] := from[i];
    }
  }

  method Differs(bak: array<int>, tile: array<int>) returns (changed: bool)
    requires bak.Length == 16 && tile.Length == 16
    ensures changed <==> bak[..] != tile[..]
  {
    changed := false;
    for i := 0 to 16
      invariant changed <==> exists k :: 0 <= k < i && bak[k] != tile[k]
    {
      if bak[i] != tile[i] {
        changed := true;
      }
    }
    if !changed {
      assert bak[..] == tile[..];
    } else {
      var k :| 0 <= k < 16 && bak[k] != tile[k];
      assert bak[..][k] != tile[..][k];
    }
  }

  // ---- whole games ----

  /** The blank cells among the first n, in order, as place_tile collects them. */
  function Empties(b: seq<int>, n: nat): (r: seq<nat>)
    requires n <= |b|
    ensures |r| <= n
    ensures forall k :: 0 <= k < |r| ==> r[k] < n && b[r[k]] == 0
    ensures forall k, m :: 0 <= k < m < |r| ==> r[k] < r[m]
    ensures forall i :: 0 <= i < n && b[i] == 0 ==> i in r
  {
    if n == 0 then [] else Empties(b, n - 1) + if b[n - 1] == 0 then [n - 1] else []
  }

  /** r1 and r2 are the two results of random(). */
  function NewTile(r1: nat): int {
    if r1 % 10 != 0 then 2 else 4
  }

  function Placed(b: Board, r1: nat, r2: nat): Board {
    var e := Empties(b, 16);
    if e == [] then b else b[e[r2 % |e|] := NewTile(r1)]
  }

  datatype State = State(board: Board, score: int, fours: nat)

  function Spawn(s: State, r1: nat, r2: nat): State {
    s.(board := Placed(s.board, r1, r2),
       fours := s.fours + if Empties(s.board, 16) != [] && r1 % 10 == 0 then 1 else 0)
  }

  function NewGame(r1: nat, r2: nat, r3: nat, r4: nat): State {
    Spawn(Spawn(State(Blanks(16), 0, 0), r1, r2), r3, r4)
  }

  function Turn(s: State, d: Dir, r1: nat, r2: nat): State {
    var moved := Moved(s, d);
    if moved.board == s.board then moved else Spawn(moved, r1, r2)
  }

  function Moved(s: State, d: Dir): State {
    State(SlideBoard(s.board, d), s.score + BoardGain(s.board, d), s.fours)
  }

  /** One key of main's loop: a move, a restart, or a key that does nothing. */
  datatype Event =
    | Move(d: Dir, r1: nat, r2: nat)
    | Restart(r1: nat, r2: nat, r3: nat, r4: nat)
    | Other

  ghost function Step(s: State, e: Event): State {
    match e
    case Move(d, r1, r2) => if Stuck(s.board) then s else Turn(s, d, r1, r2)
    case Restart(r1, r2, r3, r4) => NewGame(r1, r2, r3, r4)
    case Other => s
  }

  ghost function Run(s: State, events: seq<Event>): State {
    if events == [] then s else Step(Run(s, events[..|events| - 1]), events[|events| - 1])
  }

  /** The board holds only powers of two summing to at most 2^18 - 4, and the
      score with 4 for every 4 placed is what the tiles are worth. */
  ghost predicate Lawful(s: State) {
    && AllTiles(s.board)
    && Total(s.board, Id) <= MAX_SUM
    && s.score >= 0
    && s.score + 4 * s.fours == Total(s.board, Worth)
  }

  lemma SpawnLawful(s: State, r1: nat, r2: nat)
    requires Lawful(s)
    ensures Lawful(Spawn(s, r1, r2))
  {
    var e := Empties(s.board, 16);
    if e != [] {
      var i := e[r2 % |e|];
      var v := NewTile(r1);
      SpawnStaysBelow(s.board, i, v);
      TotalUpdate(s.board, i, v, Worth);
      assert Worth(4) == 4 && Worth(2) == 0;
    }
  }

  lemma NewGameLawful(r1: nat, r2: nat, r3: nat, r4: nat)
    ensures Lawful(NewGame(r1, r2, r3, r4))
  {
    hide Spawn;
    hide Lawful;
    var zero := State(Blanks(16), 0, 0);
    BlankLawful();
    SpawnLawful(zero, r1, r2);
    SpawnLawful(Spawn(zero, r1, r2), r3, r4);
  }

  lemma BlankLawful()
    ensures Lawful(State(Blanks(16), 0, 0))
  {
    TotalOfBlanks(16, Id);
    TotalOfBlanks(16, Worth);
  }

  lemma {:induction false} GainNonNegative(s: seq<int>)
    requires forall i :: 0 <= i < |s| ==> s[i] >= 0
    ensures MergeGain(s) >= 0
  {
    if |s| >= 2 {
      if s[0] == s[1] {
        GainNonNegative(s[2..]);
      } else {
        GainNonNegative(s[1..]);
      }
    }
  }

  lemma BoardGainNonNegative(b: Board, d: Dir)
    requires AllTiles(b)
    ensures BoardGain(b, d) >= 0
  {
    TileBelowTotal(b);
    forall line | 0 <= line < 4
      ensures LineGain(LineOf(b, d, line)) >= 0
    {
      CompressSubset(LineOf(b, d, line));
      GainNonNegative(Compress(LineOf(b, d, line)));
    }
  }

  lemma TurnLawful(s: State, d: Dir, r1: nat, r2: nat)
    requires Lawful(s)
    ensures Lawful(Turn(s, d, r1, r2))
  {
    SlideTotals(s.board, d);
    BoardGainNonNegative(s.board, d);
    SpawnLawful(Moved(s, d), r1, r2);
  }

  lemma StepLawful(s: State, e: Event)
    requires Lawful(s)
    ensures Lawful(Step(s, e))
  {
    match e
    case Move(d, r1, r2) =>
      TurnLawful(s, d, r1, r2);
    case Restart(r1, r2, r3, r4) =>
      NewGameLawful(r1, r2, r3, r4);
    case Other =>
  }

  /** Every state of every game is lawful. */
  lemma {:induction false} GamesLawful(r1: nat, r2: nat, r3: nat, r4: nat, events: seq<Event>)
    ensures Lawful(Run(NewGame(r1, r2, r3, r4), events))
  {
    if events == [] {
      NewGameLawful(r1, r2, r3, r4);
    } else {
      GamesLawful(r1, r2, r3, r4, events[..|events| - 1]);
      StepLawful(Run(NewGame(r1, r2, r3, r4), events[..|events| - 1]), events[|events| - 1]);
    }
  }

  lemma {:induction false} TileBelowTotal(s: seq<int>)
    requires AllTiles(s)
    ensures Total(s, Id) >= 0
    ensures forall i :: 0 <= i < |s| ==> 0 <= s[i] <= Total(s, Id)
    ensures Total(s, Id) <= MAX_SUM ==> 0 <= Total(s, Worth) <= 16 * Total(s, Id)
  {
    if s != [] {
      TileBelowTotal(s[1..]);
      if Total(s, Id) <= MAX_SUM && s[0] != 0 {
        TileWorth(s[0]);
      }
    }
  }

  /** No tile, and no score, ever leaves the range of a 32-bit int. */
  lemma NoOverflow(s: State)
    requires Lawful(s)
    ensures forall i :: 0 <= i < 16 ==> 0 <= s.board[i] <= 131072
    ensures 0 <= s.score <= 16 * MAX_SUM < 0x8000_0000
  {
    TileBelowTotal(s.board);
    forall i | 0 <= i < 16
      ensures 0 <= s.board[i] <= 131072
    {
      if s.board[i] != 0 {
        TileWorth(s.board[i]);
      }
    }
  }

  method CollectEmpties(tile: array<int>) returns (empty: array<nat>, emptyNum: nat)
    requires tile.Length == 16
    ensures fresh(empty) && emptyNum <= empty.Length
    ensures empty[..emptyNum] == Empties(tile[..], 16)
  {
    empty := new nat[16];
    emptyNum := 0;
    for i := 0 to 16
      invariant emptyNum <= i
      invariant empty[..emptyNum] == Empties(tile[..], i)
      invariant tile[..] == old(tile[..])
    {
      if tile[i] == 0 {
        empty[emptyNum] := i;
        emptyNum := emptyNum + 1;
      }
    }
  }

  method PlaceTile(tile: array<int>, r1: nat, r2: nat)
    requires tile.Length == 16
    modifies tile
    ensures tile[..] == Placed(old(tile[..]), r1, r2)
  {
    var empty, emptyNum := CollectEmpties(tile);
    if emptyNum > 0 {
      var tileNum := if r1 % 10 != 0 then 2 else 4;
      var emptyLoc := r2 % emptyNum;
      assert empty[emptyLoc] == empty[..emptyNum][emptyLoc];
      tile[empty[emptyLoc]] := tileNum;
    }
  }

  class Game {
    const tile: array<int>
    var score: int
    ghost var fours: nat

    ghost predicate Valid()
      reads this
    {
      tile.Length == 16
    }

    ghost function Now(): State
      requires Valid()
      reads this, tile
    {
      State(tile[..], score, fours)
    }

    constructor (r1: nat, r2: nat, r3: nat, r4: nat)
      ensures Valid() && fresh(tile) && Now() == NewGame(r1, r2, r3, r4)
    {
      tile := new int[16];
      score := 0;
      fours := 0;
      new;
      Start(r1, r2, r3, r4);
    }

    method Start(r1: nat, r2: nat, r3: nat, r4: nat)
      requires Valid()
      modifies this, tile
      ensures Valid() && Now() == NewGame(r1, r2, r3, r4)
    {
      for i := 0 to 16
        invariant forall k :: 0 <= k < i ==> tile[k] == 0
      {
        tile[i] := 0;
      }
      score := 0;
      fours := 0;
      assert tile[..] == Blanks(16);
      AddTile(r1, r2);
      AddTile(r3, r4);
    }

    /** place_tile, counting the 4s it places. */
    method AddTile(r1: nat, r2: nat)
      requires Valid()
      modifies tile, `fours
      ensures Valid() && Now() == Spawn(old(Now()), r1, r2)
    {
      fours := fours + if Empties(tile[..], 16) != [] && r1 % 10 == 0 then 1 else 0;
      PlaceTile(tile, r1, r2);
    }

    method ScoreMove(d: Dir)
      requires Valid()
      modifies `score, tile
      ensures Valid() && Now() == Moved(old(Now()), d)
    {
      hide SlideBoard;
      hide BoardGain;
      var delta := MoveTile(tile, d);
      score := score + delta;
    }

    method PlayMove(d: Dir, r1: nat, r2: nat)
      requires Valid()
      modifies this, tile
      ensures Valid() && Now() == Turn(old(Now()), d, r1, r2)
    {
      var bak := new int[16];
      Copy(tile, bak);
      ScoreMove(d);
      var changed := Differs(bak, tile);
      if changed {
        AddTile(r1, r2);
      }
    }

    /** One key: the end of the game is checked before it is obeyed. */
    method Press(e: Event)
      requires Valid()
      modifies this, tile
      ensures Valid() && Now() == Step(old(Now()), e)
    {
      hide Turn;
      hide NewGame;
      hide Stuck;
      var over := CheckEnd(tile);
      match e {
        case Move(d, r1, r2) =>
          if !over {
            PlayMove(d, r1, r2);
          }
        case Restart(r1, r2, r3, r4) =>
          Start(r1, r2, r3, r4);
        case Other =>
      }
    }

    /** main's loop over the keys of a game. */
    method Play(events: seq<Event>)
      requires Valid()
      modifies this, tile
      ensures Valid() && Now() == Run(old(Now()), events)
    {
      hide Step;
      for n := 0 to |events|
        invariant Valid() && Now() == Run(old(Now()), events[..n])
      {
        assert events[..n + 1][..n] == events[..n];
        Press(events[n]);
      }
      assert events[..|events|] == events;
    }
  }
}
