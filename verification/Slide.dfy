/** The 2048 engine: the in-place slide of `move_tile`, against the usual
    compress / merge / compress reading of a slide. */
module Slide {

  datatype Dir = Up | Down | Left | Right

  type Board = b: seq<int> | |b| == 16 witness seq(16, i => 0)

  type Line = l: seq<int> | |l| == 4 witness [0, 0, 0, 0]

  /** Cell k, counted from the wall, of a line. */
  function Cell(d: Dir, line: nat, k: nat): (i: nat)
    requires line < 4 && k < 4
    ensures i < 16
  {
    match d
    case Up => 4 * k + line
    case Down => 4 * (3 - k) + line
    case Left => 4 * line + k
    case Right => 4 * line + (3 - k)
  }

  function LineOf(b: Board, d: Dir, line: nat): Line
    requires line < 4
  {
    [b[Cell(d, line, 0)], b[Cell(d, line, 1)], b[Cell(d, line, 2)], b[Cell(d, line, 3)]]
  }

  /** What a slide means: drop the blanks, merge equal neighbours once from
      the wall, and fill up with blanks. */
  function Compress(s: seq<int>): (r: seq<int>)
    ensures |r| <= |s|
  {
    if s == [] then [] else if s[0] == 0 then Compress(s[1..]) else [s[0]] + Compress(s[1..])
  }

  function Merge(s: seq<int>): (r: seq<int>)
    ensures |r| <= |s|
  {
    if |s| < 2 then s
    else if s[0] == s[1] then [2 * s[0]] + Merge(s[2..])
    else [s[0]] + Merge(s[1..])
  }

  function MergeGain(s: seq<int>): int {
    if |s| < 2 then 0
    else if s[0] == s[1] then 2 * s[0] + MergeGain(s[2..])
    else MergeGain(s[1..])
  }

  function Blanks(n: nat): seq<int> {
    seq(n, i => 0)
  }

  function SlideLine(l: Line): Line {
    var m := Merge(Compress(l));
    m + Blanks(4 - |m|)
  }

  function LineGain(l: Line): int {
    MergeGain(Compress(l))
  }

  function LineIndex(d: Dir, i: nat): (line: nat)
    requires i < 16
    ensures line < 4
  {
    if d.Up? || d.Down? then i % 4 else i / 4
  }

  function PosIndex(d: Dir, i: nat): (k: nat)
    requires i < 16
    ensures k < 4
  {
    match d
    case Up => i / 4
    case Down => 3 - i / 4
    case Left => i % 4
    case Right => 3 - i % 4
  }

  function SlideBoard(b: Board, d: Dir): Board {
    seq(16, i requires 0 <= i < 16 => SlideLine(LineOf(b, d, LineIndex(d, i)))[PosIndex(d, i)])
  }

  function BoardGain(b: Board, d: Dir): int {
    LineGain(LineOf(b, d, 0)) + LineGain(LineOf(b, d, 1)) +
    LineGain(LineOf(b, d, 2)) + LineGain(LineOf(b, d, 3))
  }

  // ---- one sweep over a line, as the inner loops do it ----

  function ShiftSteps(l: Line, n: nat): Line
    requires n <= 3
  {
    if n == 0 then l else
      var m := ShiftSteps(l, n - 1);
      if m[n - 1] == 0 then m[n - 1 := m[n]][n := 0] else m
  }

  function MergeSteps(l: Line, n: nat): Line
    requires n <= 3
  {
    if n == 0 then l else
      var m := MergeSteps(l, n - 1);
      if m[n - 1] == m[n] then m[n - 1 := 2 * m[n - 1]][n := 0] else m
  }

  function StepGain(l: Line, n: nat): int
    requires n <= 3
  {
    if n == 0 then 0 else
      var m := MergeSteps(l, n - 1);
      StepGain(l, n - 1) + if m[n - 1] == m[n] then 2 * m[n - 1] else 0
  }

  function Shifts(l: Line, passes: nat): Line {
    if passes == 0 then l else ShiftSteps(Shifts(l, passes - 1), 3)
  }

  lemma ShiftUnrolled(l: Line)
    ensures ShiftSteps(l, 3) ==
      var a := if l[0] == 0 then [l[1], 0, l[2], l[3]] else l;
      var b := if a[1] == 0 then [a[0], a[2], 0, a[3]] else a;
      if b[2] == 0 then [b[0], b[1], b[3], 0] else b
  {
    assert ShiftSteps(l, 1) == if l[0] == 0 then [l[1], 0, l[2], l[3]] else l;
    var a := ShiftSteps(l, 1);
    assert ShiftSteps(l, 2) == if a[1] == 0 then [a[0], a[2], 0, a[3]] else a;
  }

  /** No tile stands behind a blank. */
  ghost predicate Packed(s: seq<int>) {
    forall i, j :: 0 <= i < j < |s| && s[i] == 0 ==> s[j] == 0
  }

  lemma {:induction false} BlanksCompressAway(s: seq<int>)
    requires forall i :: 0 <= i < |s| ==> s[i] == 0
    ensures Compress(s) == []
  {
    if s != [] {
      BlanksCompressAway(s[1..]);
    }
  }

  lemma {:induction false} PackedIsCompressed(s: seq<int>)
    requires Packed(s)
    ensures s == Compress(s) + Blanks(|s| - |Compress(s)|)
  {
    if s != [] {
      PackedIsCompressed(s[1..]);
      if s[0] == 0 {
        BlanksCompressAway(s);
      }
    }
  }

  lemma {:induction false} CompressConcat(s: seq<int>, t: seq<int>)
    ensures Compress(s + t) == Compress(s) + Compress(t)
  {
    if s == [] {
      assert s + t == t;
    } else {
      assert (s + t)[1..] == s[1..] + t;
      CompressConcat(s[1..], t);
    }
  }

  lemma CompressSwapsBlank(s: seq<int>, k: nat)
    requires k + 1 < |s| && s[k] == 0
    ensures Compress(s[k := s[k + 1]][k + 1 := 0]) == Compress(s)
  {
    var x := s[k + 1];
    assert s == s[..k] + ([0, x] + s[k + 2..]);
    assert s[k := x][k + 1 := 0] == s[..k] + ([x, 0] + s[k + 2..]);
    CompressConcat(s[..k], [0, x] + s[k + 2..]);
    CompressConcat(s[..k], [x, 0] + s[k + 2..]);
    CompressConcat([0, x], s[k + 2..]);
    CompressConcat([x, 0], s[k + 2..]);
    assert [0, x][1..] == [x] && [x, 0][1..] == [0];
    assert [x][1..] == [] && [0][1..] == [];
  }

  lemma {:induction false} ShiftKeepsTiles(l: Line, n: nat)
    requires n <= 3
    ensures Compress(ShiftSteps(l, n)) == Compress(l)
  {
    if n > 0 {
      ShiftKeepsTiles(l, n - 1);
      var m := ShiftSteps(l, n - 1);
      if m[n - 1] == 0 {
        CompressSwapsBlank(m, n - 1);
      }
    }
  }

  /** Four sweeps pack any line: the "j != 4" passes before the merge suffice. */
  lemma FourShiftsPack(l: Line)
    ensures Shifts(l, 4) == Compress(l) + Blanks(4 - |Compress(l)|)
  {
    hide Compress;
    hide Packed;
    FourShiftsPacked(l);
    PackedIsCompressed(Shifts(l, 4));
    ShiftsKeepTiles(l, 4);
  }

  lemma {:induction false} ShiftsKeepTiles(l: Line, passes: nat)
    ensures Compress(Shifts(l, passes)) == Compress(l)
  {
    hide Compress;
    hide ShiftSteps;
    if passes > 0 {
      ShiftsKeepTiles(l, passes - 1);
      ShiftKeepsTiles(Shifts(l, passes - 1), 3);
    }
  }

  lemma FourShiftsPacked(l: Line)
    ensures Packed(Shifts(l, 4))
  {
    hide ShiftSteps;
    hide Compress;
    var a := Shifts(l, 1);
    var b := Shifts(l, 2);
    var c := Shifts(l, 3);
    assert a == ShiftSteps(Shifts(l, 0), 3);
    ShiftUnrolled(l);
    ShiftUnrolled(a);
    ShiftUnrolled(b);
    ShiftUnrolled(c);
  }

  lemma MergeUnrolled(l: Line)
    ensures MergeSteps(l, 3) ==
      var a := if l[0] == l[1] then [2 * l[0], 0, l[2], l[3]] else l;
      var b := if a[1] == a[2] then [a[0], 2 * a[1], 0, a[3]] else a;
      if b[2] == b[3] then [b[0], b[1], 2 * b[2], 0] else b
    ensures StepGain(l, 3) ==
      var a := MergeSteps(l, 1);
      var b := MergeSteps(l, 2);
      (if l[0] == l[1] then 2 * l[0] else 0) + (if a[1] == a[2] then 2 * a[1] else 0) + (if b[2] == b[3] then 2 * b[2] else 0)
    ensures MergeSteps(l, 1) == if l[0] == l[1] then [2 * l[0], 0, l[2], l[3]] else l
    ensures MergeSteps(l, 2) ==
      var a := if l[0] == l[1] then [2 * l[0], 0, l[2], l[3]] else l;
      if a[1] == a[2] then [a[0], 2 * a[1], 0, a[3]] else a
  {
    assert MergeSteps(l, 1) == if l[0] == l[1] then [2 * l[0], 0, l[2], l[3]] else l;
    var a := MergeSteps(l, 1);
    assert MergeSteps(l, 2) == if a[1] == a[2] then [a[0], 2 * a[1], 0, a[3]] else a;
    assert StepGain(l, 1) == if l[0] == l[1] then 2 * l[0] else 0;
    assert StepGain(l, 2) == StepGain(l, 1) + if a[1] == a[2] then 2 * a[1] else 0;
  }

  /** On a packed line, one merging sweep and one more shift merge each tile at
      most once, starting from the wall. */
  lemma MergeSweep(c: seq<int>, p: Line)
    requires |c| <= 4 && p == c + Blanks(4 - |c|)
    requires forall i :: 0 <= i < |c| ==> c[i] != 0
    ensures ShiftSteps(MergeSteps(p, 3), 3) == Merge(c) + Blanks(4 - |Merge(c)|)
    ensures StepGain(p, 3) == MergeGain(c)
  {
    MergeUnrolled(p);
    ShiftUnrolled(MergeSteps(p, 3));
    MergeOfFour(c);
    hide ShiftSteps;
    hide MergeSteps;
    hide StepGain;
    hide Merge;
    hide MergeGain;
  }

  lemma MergeOfTwo(c: seq<int>)
    requires |c| <= 2
    ensures |c| < 2 ==> Merge(c) == c && MergeGain(c) == 0
    ensures |c| == 2 ==> Merge(c) == if c[0] == c[1] then [2 * c[0]] else c
    ensures |c| == 2 ==> MergeGain(c) == if c[0] == c[1] then 2 * c[0] else 0
  {
    if |c| == 2 {
      assert c[2..] == [] && |c[1..]| == 1;
    }
  }

  lemma MergeOfThree(c: seq<int>)
    requires |c| == 3
    ensures Merge(c) == if c[0] == c[1] then [2 * c[0], c[2]] else if c[1] == c[2] then [c[0], 2 * c[1]] else c
    ensures MergeGain(c) == if c[0] == c[1] then 2 * c[0] else if c[1] == c[2] then 2 * c[1] else 0
  {
    MergeOfTwo(c[1..]);
    MergeOfTwo(c[2..]);
  }

  lemma MergeOfFour(c: seq<int>)
    requires |c| <= 4
    ensures |c| < 2 ==> Merge(c) == c && MergeGain(c) == 0
    ensures |c| == 2 ==> Merge(c) == if c[0] == c[1] then [2 * c[0]] else c
    ensures |c| == 2 ==> MergeGain(c) == if c[0] == c[1] then 2 * c[0] else 0
    ensures |c| == 3 ==>
      && Merge(c) == (if c[0] == c[1] then [2 * c[0], c[2]] else if c[1] == c[2] then [c[0], 2 * c[1]] else c)
      && MergeGain(c) == if c[0] == c[1] then 2 * c[0] else if c[1] == c[2] then 2 * c[1] else 0
    ensures |c| == 4 ==>
      && Merge(c) == (
        if c[0] == c[1] then (if c[2] == c[3] then [2 * c[0], 2 * c[2]] else [2 * c[0], c[2], c[3]])
        else if c[1] == c[2] then [c[0], 2 * c[1], c[3]]
        else if c[2] == c[3] then [c[0], c[1], 2 * c[2]] else c)
      && MergeGain(c) ==
        if c[0] == c[1] then 2 * c[0] + (if c[2] == c[3] then 2 * c[2] else 0)
        else if c[1] == c[2] then 2 * c[1]
        else if c[2] == c[3] then 2 * c[2] else 0
  {
    if |c| == 4 {
      MergeOfTwo(c[2..]);
      MergeOfThree(c[1..]);
    } else if |c| == 3 {
      MergeOfThree(c);
    } else {
      MergeOfTwo(c);
    }
  }

  lemma {:induction false} CompressNonBlank(s: seq<int>)
    ensures forall i :: 0 <= i < |Compress(s)| ==> Compress(s)[i] != 0
  {
    if s != [] {
      CompressNonBlank(s[1..]);
    }
  }

  /** The six passes over a line are the specified slide, and the merging pass
      earns exactly the merged tiles. */
  lemma PassesSlideLine(l: Line)
    ensures ShiftSteps(MergeSteps(Shifts(l, 4), 3), 3) == SlideLine(l)
    ensures StepGain(Shifts(l, 4), 3) == LineGain(l)
  {
    FourShiftsPack(l);
    CompressNonBlank(l);
    MergeSweep(Compress(l), Shifts(l, 4));
  }

  // ---- move_tile on the array ----

  /** Number of iterations of an inner loop. */
  function Rounds(d: Dir): nat {
    if d.Up? || d.Down? then 12 else 15
  }

  /** The loop counter i of iteration n: upward for U and L, downward for D and R. */
  function Counter(d: Dir, n: nat): (i: nat)
    requires n < Rounds(d)
  {
    if d.Up? || d.Left? then n else Rounds(d) - 1 - n
  }

  predicate Skipped(d: Dir, i: nat) {
    (d.Left? || d.Right?) && (i == 3 || i == 7 || i == 11)
  }

  /** The cell an iteration pulls towards the wall, and where it pulls it. */
  function Near(d: Dir, i: nat): nat {
    match d case Up => i case Down => i + 4 case Left => i case Right => i + 1
  }

  function Far(d: Dir, i: nat): nat {
    match d case Up => i + 4 case Down => i case Left => i + 1 case Right => i
  }

  /** How many steps of a line the first n iterations perform. */
  function Done(d: Dir, line: nat, n: nat): (k: nat)
    requires line < 4 && n <= Rounds(d)
    ensures k <= 3
  {
    match d
    case Up => (n + 3 - line) / 4
    case Down => (n + line) / 4
    case Left => if n < 4 * line then 0 else if n >= 4 * line + 3 then 3 else n - 4 * line
    case Right => if n + 4 * line < 12 then 0 else if n + 4 * line >= 15 then 3 else n + 4 * line - 12
  }

  lemma SkippedRound(d: Dir, n: nat, line: nat)
    requires n < Rounds(d) && line < 4
    requires Skipped(d, Counter(d, n))
    ensures Done(d, line, n + 1) == Done(d, line, n)
  {
  }

  /** Every other iteration performs the next step of exactly one line. */
  ghost predicate OnTarget(d: Dir, n: nat, line: nat)
    requires n < Rounds(d) && line < 4
  {
    var near, far := Near(d, Counter(d, n)), Far(d, Counter(d, n));
    && near < 16 && far < 16
    && (LineIndex(d, near) == line ==>
      && Done(d, line, n) < 3
      && near == Cell(d, line, Done(d, line, n))
      && far == Cell(d, line, Done(d, line, n) + 1)
      && Done(d, line, n + 1) == Done(d, line, n) + 1)
    && (LineIndex(d, near) != line ==> Done(d, line, n + 1) == Done(d, line, n))
  }

  lemma UpTarget(n: nat, line: nat)
    requires n < 12 && line < 4
    ensures OnTarget(Up, n, line)
  {
    var q, r := n / 4, n % 4;
    assert n == 4 * q + r && q < 3;
    assert (n + 4) % 4 == r;
    assert Done(Up, line, n) == if line < r then q + 1 else q;
  }

  lemma DownTarget(n: nat, line: nat)
    requires n < 12 && line < 4
    ensures OnTarget(Down, n, line)
  {
    var q, r := n / 4, n % 4;
    assert n == 4 * q + r && q < 3;
    assert 15 - n == 4 * (3 - q) + (3 - r);
    assert LineIndex(Down, 15 - n) == 3 - r;
    assert Done(Down, line, n) == if line > 3 - r then q + 1 else q;
  }

  lemma RowTarget(d: Dir, n: nat, line: nat)
    requires (d.Left? || d.Right?) && n < Rounds(d) && line < 4
    requires !Skipped(d, Counter(d, n))
    ensures OnTarget(d, n, line)
  {
  }

  lemma RoundTarget(d: Dir, n: nat, line: nat)
    requires n < Rounds(d) && line < 4
    requires !Skipped(d, Counter(d, n))
    ensures OnTarget(d, n, line)
  {
    match d
    case Up => UpTarget(n, line);
    case Down => DownTarget(n, line);
    case _ => RowTarget(d, n, line);
  }

  lemma HomeLine(d: Dir, n: nat) returns (home: nat, k: nat)
    requires n < Rounds(d) && !Skipped(d, Counter(d, n))
    ensures Near(d, Counter(d, n)) < 16 && home == LineIndex(d, Near(d, Counter(d, n))) && home < 4
    ensures k < 3 && Done(d, home, n) == k && Done(d, home, n + 1) == k + 1
    ensures Near(d, Counter(d, n)) == Cell(d, home, k) && Far(d, Counter(d, n)) == Cell(d, home, k + 1)
  {
    RoundTarget(d, n, 0);
    home := LineIndex(d, Near(d, Counter(d, n)));
    RoundTarget(d, n, home);
    k := Done(d, home, n);
  }

  lemma CellsApart(d: Dir, line: nat, k: nat, line': nat, k': nat)
    requires line < 4 && k < 4 && line' < 4 && k' < 4
    ensures Cell(d, line, k) == Cell(d, line', k') <==> line == line' && k == k'
  {
  }

  lemma CellOfIndex(d: Dir, i: nat)
    requires i < 16
    ensures Cell(d, LineIndex(d, i), PosIndex(d, i)) == i
  {
  }

  /** One iteration of the shifting inner loop. */
  function ShiftRound(b: Board, d: Dir, n: nat): Board
    requires n < Rounds(d)
  {
    var i := Counter(d, n);
    if Skipped(d, i) || b[Near(d, i)] != 0 then b
    else b[Near(d, i) := b[Far(d, i)]][Far(d, i) := 0]
  }

  /** One iteration of the merging inner loop. */
  function MergeRound(b: Board, d: Dir, n: nat): Board
    requires n < Rounds(d)
  {
    var i := Counter(d, n);
    if Skipped(d, i) || b[Near(d, i)] != b[Far(d, i)] then b
    else b[Near(d, i) := 2 * b[Near(d, i)]][Far(d, i) := 0]
  }

  function RoundGain(b: Board, d: Dir, n: nat): int
    requires n < Rounds(d)
  {
    var i := Counter(d, n);
    if Skipped(d, i) || b[Near(d, i)] != b[Far(d, i)] then 0 else 2 * b[Near(d, i)]
  }

  /** Every line has had the steps of the first n iterations. */
  ghost predicate Shifted(b0: Board, b: Board, d: Dir, n: nat)
    requires n <= Rounds(d)
  {
    forall line :: 0 <= line < 4 ==> LineOf(b, d, line) == ShiftSteps(LineOf(b0, d, line), Done(d, line, n))
  }

  ghost predicate Merged(b0: Board, b: Board, d: Dir, n: nat)
    requires n <= Rounds(d)
  {
    forall line :: 0 <= line < 4 ==> LineOf(b, d, line) == MergeSteps(LineOf(b0, d, line), Done(d, line, n))
  }

  ghost function PassGain(b: Board, d: Dir, n: nat): int
    requires n <= Rounds(d)
  {
    StepGain(LineOf(b, d, 0), Done(d, 0, n)) + StepGain(LineOf(b, d, 1), Done(d, 1, n)) +
    StepGain(LineOf(b, d, 2), Done(d, 2, n)) + StepGain(LineOf(b, d, 3), Done(d, 3, n))
  }

  lemma ShiftRoundStep(b0: Board, b: Board, d: Dir, n: nat)
    requires n < Rounds(d) && Shifted(b0, b, d, n)
    ensures Shifted(b0, ShiftRound(b, d, n), d, n + 1)
  {
    forall line | 0 <= line < 4
      ensures LineOf(ShiftRound(b, d, n), d, line) == ShiftSteps(LineOf(b0, d, line), Done(d, line, n + 1))
    {
      ShiftRoundLine(b0, b, d, n, line);
    }
  }

  lemma ShiftRoundLine(b0: Board, b: Board, d: Dir, n: nat, line: nat)
    requires n < Rounds(d) && line < 4
    requires LineOf(b, d, line) == ShiftSteps(LineOf(b0, d, line), Done(d, line, n))
    ensures LineOf(ShiftRound(b, d, n), d, line) == ShiftSteps(LineOf(b0, d, line), Done(d, line, n + 1))
  {
    if Skipped(d, Counter(d, n)) {
      SkippedRound(d, n, line);
    } else {
      hide Rounds;
      hide Counter;
      hide Skipped;
      hide Near;
      hide Far;
      hide Done;
      hide Cell;
      hide LineIndex;
      hide LineOf;
      hide ShiftSteps;
      var home, k := HomeLine(d, n);
      RoundTarget(d, n, line);
      hide OnTarget;
      if line == home {
        ShiftPair(LineOf(b0, d, line), b, ShiftRound(b, d, n), d, line, k);
      } else {
        PairWritten(b, ShiftRound(b, d, n), d, home, k, line);
      }
    }
  }

  lemma ShiftPair(l0: Line, b: Board, b': Board, d: Dir, line: nat, k: nat)
    requires line < 4 && k < 3 && LineOf(b, d, line) == ShiftSteps(l0, k)
    requires var near, far := Cell(d, line, k), Cell(d, line, k + 1);
      b' == if b[near] == 0 then b[near := b[far]][far := 0] else b
    ensures LineOf(b', d, line) == ShiftSteps(l0, k + 1)
  {
    PairWritten(b, b', d, line, k, line);
    CellsApart(d, line, k, line, k + 1);
    LineCells(b, d, line, k);
  }

  lemma MergePair(l0: Line, b: Board, b': Board, d: Dir, line: nat, k: nat)
    requires line < 4 && k < 3 && LineOf(b, d, line) == MergeSteps(l0, k)
    requires var near, far := Cell(d, line, k), Cell(d, line, k + 1);
      b' == if b[near] == b[far] then b[near := 2 * b[near]][far := 0] else b
    ensures LineOf(b', d, line) == MergeSteps(l0, k + 1)
    ensures StepGain(l0, k + 1) == StepGain(l0, k) +
      if b[Cell(d, line, k)] == b[Cell(d, line, k + 1)] then 2 * b[Cell(d, line, k)] else 0
  {
    PairWritten(b, b', d, line, k, line);
    CellsApart(d, line, k, line, k + 1);
    LineCells(b, d, line, k);
  }

  lemma LineCells(b: Board, d: Dir, line: nat, k: nat)
    requires line < 4 && k < 3
    ensures LineOf(b, d, line)[k] == b[Cell(d, line, k)] && LineOf(b, d, line)[k + 1] == b[Cell(d, line, k + 1)]
  {
  }

  lemma MergeRoundStep(b0: Board, b: Board, d: Dir, n: nat)
    requires n < Rounds(d) && Merged(b0, b, d, n)
    ensures Merged(b0, MergeRound(b, d, n), d, n + 1)
    ensures PassGain(b0, d, n + 1) == PassGain(b0, d, n) + RoundGain(b, d, n)
  {
    forall line | 0 <= line < 4
      ensures LineOf(MergeRound(b, d, n), d, line) == MergeSteps(LineOf(b0, d, line), Done(d, line, n + 1))
      ensures StepGain(LineOf(b0, d, line), Done(d, line, n + 1)) ==
        StepGain(LineOf(b0, d, line), Done(d, line, n)) + LineShare(b, d, n, line)
    {
      MergeRoundLine(b0, b, d, n, line);
    }
    assert LineShare(b, d, n, 0) + LineShare(b, d, n, 1) + LineShare(b, d, n, 2) + LineShare(b, d, n, 3) ==
      RoundGain(b, d, n);
  }

  /** What one iteration earns on one line. */
  ghost function LineShare(b: Board, d: Dir, n: nat, line: nat): int
    requires n < Rounds(d) && line < 4
  {
    if !Skipped(d, Counter(d, n)) && line == LineIndex(d, Near(d, Counter(d, n))) then RoundGain(b, d, n) else 0
  }

  lemma MergeRoundLine(b0: Board, b: Board, d: Dir, n: nat, line: nat)
    requires n < Rounds(d) && line < 4
    requires LineOf(b, d, line) == MergeSteps(LineOf(b0, d, line), Done(d, line, n))
    ensures LineOf(MergeRound(b, d, n), d, line) == MergeSteps(LineOf(b0, d, line), Done(d, line, n + 1))
    ensures StepGain(LineOf(b0, d, line), Done(d, line, n + 1)) ==
      StepGain(LineOf(b0, d, line), Done(d, line, n)) + LineShare(b, d, n, line)
  {
    if Skipped(d, Counter(d, n)) {
      SkippedRound(d, n, line);
    } else {
      hide Rounds;
      hide Counter;
      hide Skipped;
      hide Near;
      hide Far;
      hide Done;
      hide Cell;
      hide LineIndex;
      hide LineOf;
      hide MergeSteps;
      hide StepGain;
      var home, k := HomeLine(d, n);
      RoundTarget(d, n, line);
      hide OnTarget;
      if line == home {
        MergePair(LineOf(b0, d, line), b, MergeRound(b, d, n), d, line, k);
      } else {
        PairWritten(b, MergeRound(b, d, n), d, home, k, line);
      }
    }
  }

  /** Writing cells k and k + 1 of one line changes nothing else. */
  lemma PairWritten(b: Board, b': Board, d: Dir, home: nat, k: nat, line: nat)
    requires home < 4 && k < 3 && line < 4
    requires forall i :: 0 <= i < 16 && i != Cell(d, home, k) && i != Cell(d, home, k + 1) ==> b'[i] == b[i]
    ensures line != home ==> LineOf(b', d, line) == LineOf(b, d, line)
    ensures line == home ==>
      LineOf(b', d, line) == LineOf(b, d, line)[k := b'[Cell(d, line, k)]][k + 1 := b'[Cell(d, line, k + 1)]]
  {
    forall j | 0 <= j < 4
      ensures Cell(d, line, j) == Cell(d, home, k) <==> line == home && j == k
      ensures Cell(d, line, j) == Cell(d, home, k + 1) <==> line == home && j == k + 1
    {
      CellsApart(d, line, j, home, k);
      CellsApart(d, line, j, home, k + 1);
    }
  }

  lemma NothingDone(b: Board, d: Dir)
    ensures Shifted(b, b, d, 0) && Merged(b, b, d, 0) && PassGain(b, d, 0) == 0
  {
    forall line | 0 <= line < 4
      ensures Done(d, line, 0) == 0
    {
    }
  }

  method ShiftPass(tile: array<int>, d: Dir)
    requires tile.Length == 16
    modifies tile
    ensures Shifted(old(tile[..]), tile[..], d, Rounds(d))
  {
    hide Shifted;
    NothingDone(tile[..], d);
    for n := 0 to Rounds(d)
      invariant Shifted(old(tile[..]), tile[..], d, n)
    {
      ghost var b := tile[..];
      ShiftRoundStep(old(tile[..]), b, d, n);
      var i := Counter(d, n);
      if Skipped(d, i) {
        continue;
      }
      if tile[Near(d, i)] == 0 {
        tile[Near(d, i)] := tile[Far(d, i)];
        tile[Far(d, i)] := 0;
      }
      assert tile[..] == ShiftRound(b, d, n);
    }
  }

  method MergePass(tile: array<int>, d: Dir) returns (delta: int)
    requires tile.Length == 16
    modifies tile
    ensures Merged(old(tile[..]), tile[..], d, Rounds(d))
    ensures delta == PassGain(old(tile[..]), d, Rounds(d))
  {
    hide Merged;
    hide PassGain;
    NothingDone(tile[..], d);
    delta := 0;
    for n := 0 to Rounds(d)
      invariant Merged(old(tile[..]), tile[..], d, n)
      invariant delta == PassGain(old(tile[..]), d, n)
    {
      ghost var b := tile[..];
      MergeRoundStep(old(tile[..]), b, d, n);
      var i := Counter(d, n);
      if Skipped(d, i) {
        continue;
      }
      if tile[Near(d, i)] == tile[Far(d, i)] {
        tile[Near(d, i)] := 2 * tile[Near(d, i)];
        tile[Far(d, i)] := 0;
        delta := delta + tile[Near(d, i)];
      }
      assert tile[..] == MergeRound(b, d, n);
    }
  }

  /** Every line has had the first j of the six passes. */
  ghost predicate Passed(b0: Board, b: Board, d: Dir, j: nat)
    requires j <= 6
  {
    forall line :: 0 <= line < 4 ==> LineOf(b, d, line) == AfterPasses(LineOf(b0, d, line), j)
  }

  ghost function AfterPasses(l: Line, j: nat): Line
    requires j <= 6
  {
    if j <= 4 then Shifts(l, j)
    else if j == 5 then MergeSteps(Shifts(l, 4), 3)
    else ShiftSteps(MergeSteps(Shifts(l, 4), 3), 3)
  }

  lemma ShiftPassStep(b0: Board, b: Board, b': Board, d: Dir, j: nat)
    requires j < 6 && j != 4 && Passed(b0, b, d, j) && Shifted(b, b', d, Rounds(d))
    ensures Passed(b0, b', d, j + 1)
  {
    forall line | 0 <= line < 4
      ensures LineOf(b', d, line) == AfterPasses(LineOf(b0, d, line), j + 1)
    {
      assert Done(d, line, Rounds(d)) == 3;
    }
  }

  lemma MergePassStep(b0: Board, b: Board, b': Board, d: Dir)
    requires Passed(b0, b, d, 4) && Merged(b, b', d, Rounds(d))
    ensures Passed(b0, b', d, 5)
    ensures PassGain(b, d, Rounds(d)) == BoardGain(b0, d)
  {
    forall line | 0 <= line < 4
      ensures LineOf(b', d, line) == AfterPasses(LineOf(b0, d, line), 5)
      ensures StepGain(LineOf(b, d, line), Done(d, line, Rounds(d))) == LineGain(LineOf(b0, d, line))
    {
      assert Done(d, line, Rounds(d)) == 3;
      PassesSlideLine(LineOf(b0, d, line));
    }
  }

  lemma PassedIsSlid(b0: Board, b: Board, d: Dir)
    requires Passed(b0, b, d, 6)
    ensures b == SlideBoard(b0, d)
  {
    forall i | 0 <= i < 16
      ensures b[i] == SlideBoard(b0, d)[i]
    {
      CellOfIndex(d, i);
      var line, k := LineIndex(d, i), PosIndex(d, i);
      PassesSlideLine(LineOf(b0, d, line));
      assert b[i] == LineOf(b, d, line)[k];
    }
  }

  /** The six in-place passes are the specified slide of all four lines. */
  method MoveTile(tile: array<int>, d: Dir) returns (delta: int)
    requires tile.Length == 16
    modifies tile
    ensures tile[..] == SlideBoard(old(tile[..]), d)
    ensures delta == BoardGain(old(tile[..]), d)
  {
    delta := 0;
    for j := 0 to 6
      invariant Passed(old(tile[..]), tile[..], d, j)
      invariant delta == if j <= 4 then 0 else BoardGain(old(tile[..]), d)
    {
      ghost var b := tile[..];
      if j != 4 {
        ShiftPass(tile, d);
        ShiftPassStep(old(tile[..]), b, tile[..], d, j);
      } else {
        delta := MergePass(tile, d);
        MergePassStep(old(tile[..]), b, tile[..], d);
      }
    }
    PassedIsSlid(old(tile[..]), tile[..], d);
  }
}
