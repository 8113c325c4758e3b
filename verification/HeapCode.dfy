/** syscall_malloc and syscall_free as written, against the intended heap. */
module HeapCode {
  import opened Heap

  /** The table's memory: OBJ_NUM entries, and the four bytes behind them, which
      already belong to the heap. */
  const MEMORY := OBJ_NUM + 2

  type Memory = m: seq<Obj> | |m| == MEMORY && forall k :: 0 <= k < |m| ==> m[k].size < 0x8000
    witness seq(MEMORY, i => Obj(false, 0))

  datatype State = State(m: Memory, count: nat)
  {
    function Live(): seq<Obj>
      requires count <= OBJ_NUM
    {
      m[..count]
    }
  }

  // ---- as written ----

  /** The split moves entries i..count, one more than there are. */
  function MallocWritten(s: State, size: nat): (r: (State, int))
    requires s.count <= OBJ_NUM
    ensures r.0.count <= OBJ_NUM
  {
    var i := FirstFit(s.Live(), size, 0);
    if i == s.count then (s, NULL)
    else if size < BLOCK * s.m[i].size then
      if s.count == OBJ_NUM then (s, NULL)
      else
        var split := [Obj(true, Need(size)), Obj(false, s.m[i].size - Need(size))];
        (State(s.m[..i] + split + s.m[i + 1..s.count + 1] + s.m[s.count + 2..], s.count + 1), Offset(s.Live(), i))
    else (s.(m := s.m[i := Obj(true, s.m[i].size)]), Offset(s.Live(), i))
  }

  /** Both neighbours' cases read entry i + 1, live or not. */
  function FreeWritten(s: State, ptr: int): (r: (State, int))
    requires s.count <= OBJ_NUM
    ensures r.0.count <= OBJ_NUM
  {
    var i := Find(s.Live(), ptr, 0);
    if ptr == NULL then (s, 0)
    else if Offset(s.Live(), i) != ptr then (s, -1)
    else (FreeEntry(s, i), 0)
  }

  function FreeEntry(s: State, i: nat): (r: State)
    requires i <= s.count <= OBJ_NUM
    ensures r.count <= OBJ_NUM
  {
    var right := i < s.count && !s.m[i + 1].used;
    var left := i > 0 && !s.m[i - 1].used;
    var move := (if right then 1 else 0) + (if left then 1 else 0);
    var at := if left then i - 1 else i;
    var count := s.count - move;
    State(seq(MEMORY, k requires 0 <= k < MEMORY =>
            if k == at then Obj(false, EmptySize(s.m[i].size, s.m[i + 1].size, right, left))
            else if at < k < count then s.m[k + move]
            else s.m[k]), count)
  }

  /** empty_size, a uint16_t, as it ends up in 15 bits. */
  function EmptySize(own: nat, next: nat, right: bool, left: bool): (size: nat)
    ensures size < 0x8000
    ensures var sum := own + (if right then next else 0) + (if left then next else 0);
      && (sum < 0x8000 ==> size == sum)
      && (sum < 0x10000 ==> size == sum || size == sum - 0x8000)
  {
    (own + (if right then next else 0) + (if left then next else 0)) % 0x10000 % 0x8000
  }

  // ---- malloc agrees unless the split leaves an empty entry ----

  /** The request takes all blocks of the entry it splits. */
  predicate EmptySplit(t: seq<Obj>, size: nat) {
    Splits(t, size) && |t| < OBJ_NUM && Need(size) == t[FirstFit(t, size, 0)].size
  }

  lemma MallocShape(s: State, size: nat)
    requires s.count <= OBJ_NUM
    ensures var i := FirstFit(s.Live(), size, 0); var r := MallocWritten(s, size);
      r.0.Live() ==
        if Splits(s.Live(), size) && s.count < OBJ_NUM then Split(s.Live(), i, Need(size))
        else Alloc(s.Live(), size).0
  {
    hide FirstFit;
    hide Offset;
    var t := s.Live();
    var i := FirstFit(t, size, 0);
    if Splits(t, size) && s.count < OBJ_NUM {
      var split := [Obj(true, Need(size)), Obj(false, t[i].size - Need(size))];
      SplitPrefix(s.m, i, split, s.count);
      assert s.m[..i] == t[..i] && s.m[i + 1..s.count] == t[i + 1..];
    } else if i < |t| && BLOCK * t[i].size == size {
      assert s.m[i := Obj(true, s.m[i].size)][..s.count] == t[i := t[i].(used := true)];
    }
  }

  lemma SplitPrefix(m: seq<Obj>, i: nat, split: seq<Obj>, count: nat)
    requires i < count && count + 2 <= |m| && |split| == 2
    ensures (m[..i] + split + m[i + 1..count + 1] + m[count + 2..])[..count + 1] == m[..i] + split + m[i + 1..count]
  {
  }

  /** malloc does what is intended, and leaves a tiled heap, if and only if it
      does not split a whole entry off. */
  lemma MallocAgrees(s: State, size: nat)
    requires s.count <= OBJ_NUM && Tiled(s.Live())
    ensures MallocWritten(s, size).1 == Alloc(s.Live(), size).1
    ensures MallocWritten(s, size).0.Live() == Alloc(s.Live(), size).0 <==> !EmptySplit(s.Live(), size)
    ensures Tiled(MallocWritten(s, size).0.Live()) <==> !EmptySplit(s.Live(), size)
  {
    var t := s.Live();
    var i := FirstFit(t, size, 0);
    MallocShape(s, size);
    AllocAdds(t, size);
    hide MallocWritten;
    hide Blocks;
    hide Objects;
    if EmptySplit(t, size) {
      assert Split(t, i, Need(size))[i + 1].size == 0;
      assert |Split(t, i, Need(size))| == |t| + 1;
    }
  }

  /** The split writes behind the table exactly when it fills its last entry. */
  lemma MallocOverruns(s: State, size: nat)
    requires s.count <= OBJ_NUM
    ensures MallocWritten(s, size).0.m[OBJ_NUM] ==
      if Splits(s.Live(), size) && s.count == OBJ_NUM - 1 then s.m[OBJ_NUM - 1] else s.m[OBJ_NUM]
  {
  }

  // ---- free agrees under a guard on the neighbouring entries ----

  /** A free left neighbour is as large as entry i + 1, and an entry behind the
      live ones is not taken for a free neighbour. */
  predicate Guard(s: State, i: nat)
    requires i < s.count <= OBJ_NUM
  {
    && (i + 1 < s.count || s.m[i + 1].used)
    && (FreeLeft(s.Live(), i) ==> s.m[i - 1].size == s.m[i + 1].size)
  }

  lemma FreeShape(s: State, i: nat)
    requires i < s.count <= OBJ_NUM && Tiled(s.Live()) && s.m[i].used
    ensures FreeWritten(s, Offset(s.Live(), i)).1 == 0
    ensures FreeWritten(s, Offset(s.Live(), i)).0.Live() == Remaining(s.Live(), i, s.m[i + 1])
  {
    FindExact(s.Live(), i);
    EntryShape(s, i);
    hide FreeEntry;
    hide Remaining;
    hide Tiled;
  }

  lemma EntryShape(s: State, i: nat)
    requires i < s.count <= OBJ_NUM
    ensures FreeEntry(s, i).Live() == Remaining(s.Live(), i, s.m[i + 1])
  {
    hide EmptySize;
    var l, r := FreeEntry(s, i).Live(), Remaining(s.Live(), i, s.m[i + 1]);
    forall k | 0 <= k < |l|
      ensures |l| == |r| && l[k] == r[k]
    {
      RemainingAt(s.Live(), i, s.m[i + 1], k);
      hide Remaining;
    }
    RemainingSize(s.Live(), i, s.m[i + 1]);
  }

  lemma RemainingSize(t: seq<Obj>, i: nat, next: Obj)
    requires i < |t|
    ensures |Remaining(t, i, next)| == |t| - (if next.used then 0 else 1) - (if FreeLeft(t, i) then 1 else 0)
  {
  }

  lemma RemainingAt(t: seq<Obj>, i: nat, next: Obj, k: nat)
    requires i < |t| && k < |t| - (if next.used then 0 else 1) - (if FreeLeft(t, i) then 1 else 0)
    ensures var left, right := FreeLeft(t, i), !next.used;
      var at := if left then i - 1 else i;
      var r := Remaining(t, i, next);
      && |r| == |t| - (if right then 1 else 0) - (if left then 1 else 0)
      && r[k] == if k == at then Obj(false, EmptySize(t[i].size, next.size, right, left))
                 else if k < at then t[k]
                 else t[k + (if right then 1 else 0) + (if left then 1 else 0)]
  {
    hide EmptySize;
  }

  /** The live entries free leaves when entry i + 1 of the table is next. */
  function Remaining(t: seq<Obj>, i: nat, next: Obj): seq<Obj>
    requires i < |t|
  {
    var left := FreeLeft(t, i);
    var right := !next.used;
    var at := if left then i - 1 else i;
    if i + 1 == |t| && right then t[..at]
    else t[..at] + [Obj(false, EmptySize(t[i].size, next.size, right, left))] +
         if right && i + 2 <= |t| then t[i + 2..] else t[i + 1..]
  }

  /** free keeps the heap tiled, and then frees exactly the object, if and only if
      the guard holds. */
  lemma FreeAgrees(s: State, i: nat)
    requires i < s.count <= OBJ_NUM && Tiled(s.Live()) && s.m[i].used
    ensures FreeWritten(s, Offset(s.Live(), i)).1 == 0
    ensures Guard(s, i) <==> Tiled(FreeWritten(s, Offset(s.Live(), i)).0.Live())
    ensures Guard(s, i) ==> FreeWritten(s, Offset(s.Live(), i)).0.Live() == Free(s.Live(), Offset(s.Live(), i)).0
  {
    FreeShape(s, i);
    FindExact(s.Live(), i);
    CoalesceRemoves(s.Live(), i);
    hide FreeWritten;
    if Guard(s, i) {
      GuardedShape(s.Live(), i, s.m[i + 1]);
    } else {
      FreeMiscounts(s, i);
    }
    hide Coalesce;
    hide Guard;
  }

  lemma GuardedShape(t: seq<Obj>, i: nat, next: Obj)
    requires i < |t| && Tiled(t) && t[i].used
    requires if i + 1 < |t| then next == t[i + 1] else next.used
    requires FreeLeft(t, i) ==> t[i - 1].size == next.size
    ensures Remaining(t, i, next) == Coalesce(t, i)
  {
    NeighboursFit(t, i);
    assert Blocks(t) == HEAP_BLOCKS;
    hide Blocks;
    hide Tiled;
    hide EmptySize;
  }

  lemma BlocksFrom(t: seq<Obj>, k: nat)
    requires k < |t|
    ensures Blocks(t) == Blocks(t[..k]) + t[k].size + Blocks(t[k + 1..])
    ensures Blocks(t[k..]) == t[k].size + Blocks(t[k + 1..])
  {
    assert t == t[..k] + t[k..];
    BlocksConcat(t[..k], t[k..]);
    assert t[k..][1..] == t[k + 1..];
  }

  /** Entry i and its neighbours together are no larger than the heap. */
  lemma NeighboursFit(t: seq<Obj>, i: nat)
    requires i < |t|
    ensures (if i > 0 then t[i - 1].size else 0) + t[i].size + (if i + 1 < |t| then t[i + 1].size else 0) <= Blocks(t)
  {
    BlocksFrom(t, i);
    if i > 0 {
      BlocksFrom(t, i - 1);
    }
    if i + 1 < |t| {
      BlocksFrom(t, i + 1);
    }
  }

  lemma FreeMiscounts(s: State, i: nat)
    requires i < s.count <= OBJ_NUM && Tiled(s.Live()) && s.m[i].used && !Guard(s, i)
    ensures Blocks(FreeWritten(s, Offset(s.Live(), i)).0.Live()) != HEAP_BLOCKS
  {
    FreeShape(s, i);
    hide FreeWritten;
    if i + 1 == s.count && !s.m[i + 1].used {
      LastEntryLost(s.Live(), i, if FreeLeft(s.Live(), i) then i - 1 else i);
    } else {
      WrongLeftSize(s.Live(), i, s.m[i + 1]);
    }
  }

  /** A table cut off before its last entries has fewer blocks. */
  lemma LastEntryLost(t: seq<Obj>, i: nat, n: nat)
    requires Tiled(t) && n <= i < |t|
    ensures Blocks(t[..n]) < HEAP_BLOCKS
  {
    assert t == t[..n] + t[n..];
    BlocksConcat(t[..n], t[n..]);
  }

  lemma BlocksWith(a: seq<Obj>, x: Obj, c: seq<Obj>)
    ensures Blocks(a + [x] + c) == Blocks(a) + x.size + Blocks(c)
  {
    Parts(a, [x], c);
    BlocksOfOne(x);
  }

  lemma WrongLeftSize(t: seq<Obj>, i: nat, next: Obj)
    requires i < |t| && Tiled(t) && t[i].used && next.size < 0x8000
    requires if i + 1 < |t| then next == t[i + 1] else next.used
    requires FreeLeft(t, i) && t[i - 1].size != next.size
    ensures Blocks(Remaining(t, i, next)) != HEAP_BLOCKS
  {
    assert Blocks(t) == HEAP_BLOCKS;
    hide Blocks;
    hide Tiled;
    hide EmptySize;
    NeighboursFit(t, i);
    BlocksFrom(t, i - 1);
    BlocksFrom(t, i);
    var size := EmptySize(t[i].size, next.size, !next.used, true);
    if next.used {
      BlocksWith(t[..i - 1], Obj(false, size), t[i + 1..]);
    } else {
      BlocksFrom(t, i + 1);
      BlocksWith(t[..i - 1], Obj(false, size), t[i + 2..]);
    }
  }

  // ---- free of any pointer ----

  /** What free checks nowhere: the entry found, if any, is live and used, and its
      neighbours satisfy the guard. */
  predicate Freeable(s: State, i: nat)
    requires i <= s.count <= OBJ_NUM
  {
    i < s.count && s.m[i].used && Guard(s, i)
  }

  /** When free leaves the table in order: a live object's neighbours satisfy the
      guard, a free entry is not last or the entry behind it reads as used, and the
      end of the heap comes after a used entry. */
  predicate Harmless(s: State, i: nat)
    requires i <= s.count <= OBJ_NUM
  {
    if i == s.count then i == 0 || s.m[i - 1].used
    else if s.m[i].used then Guard(s, i)
    else i + 1 < s.count || s.m[i + 1].used
  }

  /** free of a pointer that is the offset of entry i, or for i == count of the
      heap's end: what it returns, when the heap stays tiled and the table is the
      intended one, and when the result is too. */
  lemma FreeExact(s: State, ptr: int, i: nat)
    requires i <= s.count <= OBJ_NUM && Tiled(s.Live()) && Offset(s.Live(), i) == ptr
    ensures FreeWritten(s, ptr).1 == 0
    ensures Tiled(FreeWritten(s, ptr).0.Live()) <==> Harmless(s, i)
    ensures FreeWritten(s, ptr).0.Live() == Free(s.Live(), ptr).0 <==> Harmless(s, i)
    ensures Free(s.Live(), ptr).1 == 0 <==> i < s.count && s.m[i].used
  {
    FindExact(s.Live(), i);
    if i < s.count && s.m[i].used {
      FreeAgrees(s, i);
      CoalesceRemoves(s.Live(), i);
    } else {
      assert FreeWritten(s, ptr) == (FreeEntry(s, i), 0);
      hide FreeWritten;
      if i < s.count {
        UnusedFreed(s, i);
      } else {
        EndFreed(s);
      }
    }
  }

  /** Freeing a free entry: nothing happens, or the last entry is lost. */
  lemma UnusedFreed(s: State, i: nat)
    requires i < s.count <= OBJ_NUM && Tiled(s.Live()) && !s.m[i].used
    ensures Harmless(s, i) ==> FreeEntry(s, i).Live() == s.Live()
    ensures !Harmless(s, i) ==> !Tiled(FreeEntry(s, i).Live())
  {
    var t := s.Live();
    EntryShape(s, i);
    NeighboursFit(t, i);
    assert !FreeLeft(t, i);
    assert i + 1 < |t| ==> t[i + 1].used;
    if Harmless(s, i) {
      assert t == t[..i] + [t[i]] + t[i + 1..];
    } else {
      assert Remaining(t, i, s.m[i + 1]) == t[..i];
      LastEntryLost(t, i, i);
    }
  }

  /** Freeing the end of the heap: nothing happens, or the last entry is lost. */
  lemma EndFreed(s: State)
    requires s.count <= OBJ_NUM && Tiled(s.Live())
    ensures Harmless(s, s.count) ==> FreeEntry(s, s.count).Live() == s.Live()
    ensures !Harmless(s, s.count) ==> !Tiled(FreeEntry(s, s.count).Live())
  {
    var t := s.Live();
    var l := FreeEntry(s, s.count).Live();
    hide EmptySize;
    if Harmless(s, s.count) {
      assert l == t;
    } else {
      assert l == t[..s.count - 1];
      LastEntryLost(t, s.count - 1, s.count - 1);
    }
  }

  /** free of any pointer returns what is intended and leaves the intended table if
      and only if it is null, or no entry and not the end lies there, or a live
      object does whose neighbours satisfy the guard. */
  lemma FreeAgreesExactly(s: State, ptr: int)
    requires s.count <= OBJ_NUM && Tiled(s.Live())
    ensures var (s', r) := FreeWritten(s, ptr);
      (s'.Live(), r) == Free(s.Live(), ptr)
      <==> ptr == NULL || forall i :: 0 <= i <= s.count && Offset(s.Live(), i) == ptr ==> Freeable(s, i)
    ensures Tiled(FreeWritten(s, ptr).0.Live())
      <==> ptr == NULL || forall i :: 0 <= i <= s.count && Offset(s.Live(), i) == ptr ==> Harmless(s, i)
  {
    var t := s.Live();
    var f := Find(t, ptr, 0);
    forall i | 0 <= i <= s.count && Offset(t, i) == ptr
      ensures i == f && ptr != NULL
    {
      FindExact(t, i);
    }
    if Offset(t, f) == ptr {
      FreeExact(s, ptr, f);
    }
    hide FreeEntry;
  }

  // ---- each slip, on a concrete heap ----

  function Table(live: seq<Obj>): State
    requires |live| <= OBJ_NUM && forall k :: 0 <= k < |live| ==> live[k].size < 0x8000
  {
    State(seq(MEMORY, k requires 0 <= k < MEMORY => if k < |live| then live[k] else Obj(false, 0)), |live|)
  }

  /** Merging to the left counts the right neighbour's size instead: freeing the
      second of these entries leaves a heap that is 4 blocks too long. */
  lemma LeftMergeSlip()
    ensures var s := Table([Obj(false, 1), Obj(true, 1), Obj(true, 5), Obj(false, 8185)]);
      Tiled(s.Live()) && !Tiled(FreeWritten(s, BLOCK).0.Live())
  {
    var t := [Obj(false, 1), Obj(true, 1), Obj(true, 5), Obj(false, 8185)];
    var s := Table(t);
    assert s.Live() == t;
    FourBlocks(t);
    OffsetStep(t, 0);
    FreeAgrees(s, 1);
  }

  /** A last entry in use merges with the stale entry behind the table's live end:
      freeing a heap that is one object leaves no entry at all. */
  lemma RightMergeSlip()
    ensures var s := Table([Obj(true, 8192)]);
      Tiled(s.Live()) && FreeWritten(s, 0).0.Live() == []
  {
    var t := [Obj(true, 8192)];
    var s := Table(t);
    assert s.Live() == t;
    BlocksOfOne(t[0]);
    FreeShape(s, 0);
  }

  /** A request for all but the last byte of a free entry leaves an empty one. */
  lemma EmptySplitSlip()
    ensures var s := Table([Obj(false, 8192)]);
      Tiled(s.Live()) && !Tiled(MallocWritten(s, BLOCK * 8192 - 1).0.Live())
  {
    var t := [Obj(false, 8192)];
    var s := Table(t);
    assert s.Live() == t;
    BlocksOfOne(t[0]);
    MallocAgrees(s, BLOCK * 8192 - 1);
  }

  /** free accepts the offset of a free entry, where the intended free refuses, and
      here merges it with the stale entry behind the table's live end. */
  lemma FreeTwiceSlip()
    ensures var s := Table([Obj(true, 1), Obj(false, 8191)]);
      && Tiled(s.Live()) && Free(s.Live(), BLOCK).1 == -1
      && FreeWritten(s, BLOCK).1 == 0 && !Tiled(FreeWritten(s, BLOCK).0.Live())
  {
    var t := TwoEntries();
    OffsetStep(t, 0);
    FreeExact(Table(t), BLOCK, 1);
  }

  /** free accepts the end of the heap, and merges it with a free last entry, which
      is then lost. */
  lemma FreeEndSlip()
    ensures var s := Table([Obj(true, 1), Obj(false, 8191)]);
      && Tiled(s.Live()) && Free(s.Live(), BLOCK * 8192).1 == -1
      && FreeWritten(s, BLOCK * 8192).1 == 0 && !Tiled(FreeWritten(s, BLOCK * 8192).0.Live())
  {
    var t := TwoEntries();
    assert t[..2] == t;
    FreeExact(Table(t), BLOCK * 8192, 2);
  }

  lemma TwoEntries() returns (t: seq<Obj>)
    ensures t == [Obj(true, 1), Obj(false, 8191)] && Tiled(t) && Table(t).Live() == t
  {
    t := [Obj(true, 1), Obj(false, 8191)];
    assert Table(t).Live() == t;
    BlocksOfTwo(t[0], t[1]);
  }

  lemma FourBlocks(t: seq<Obj>)
    requires |t| == 4
    ensures Blocks(t) == t[0].size + t[1].size + t[2].size + t[3].size
  {
    BlocksFrom(t, 0);
    BlocksFrom(t, 1);
    BlocksFrom(t, 2);
    BlocksFrom(t, 3);
    assert t[0..] == t;
  }

  // ---- whole runs ----

  datatype Call = Malloc(size: nat) | Release(ptr: int)

  /** The table after a call, and what the call returns. */
  function Step(t: seq<Obj>, c: Call): (seq<Obj>, int) {
    match c
    case Malloc(size) => Alloc(t, size)
    case Release(ptr) => Free(t, ptr)
  }

  function Run(t: seq<Obj>, calls: seq<Call>): seq<Obj> {
    if calls == [] then t else Step(Run(t, calls[..|calls| - 1]), calls[|calls| - 1]).0
  }

  const WHOLE_HEAP := [Obj(false, HEAP_BLOCKS)]

  ghost predicate Disjoint(objects: set<(nat, nat)>) {
    forall o, p :: o in objects && p in objects && o != p ==> o.0 + BLOCK * o.1 <= p.0 || p.0 + BLOCK * p.1 <= o.0
  }

  /** The intended heap stays tiled, with disjoint objects, through any calls. */
  lemma {:induction false} RunsTiled(calls: seq<Call>)
    ensures Tiled(Run(WHOLE_HEAP, calls))
    ensures Disjoint(Objects(Run(WHOLE_HEAP, calls), 0))
    ensures forall o :: o in Objects(Run(WHOLE_HEAP, calls), 0) ==> o.0 + BLOCK * o.1 <= BLOCK * HEAP_BLOCKS
  {
    hide Objects;
    hide Disjoint;
    hide Alloc;
    if calls == [] {
      BlocksOfOne(WHOLE_HEAP[0]);
    } else {
      var t := Run(WHOLE_HEAP, calls[..|calls| - 1]);
      RunsTiled(calls[..|calls| - 1]);
      match calls[|calls| - 1]
      case Malloc(size) => AllocAdds(t, size);
      case Release(ptr) =>
        if ptr != NULL {
          FreeRemoves(t, ptr);
        }
    }
    TiledDisjoint(Run(WHOLE_HEAP, calls));
  }

  lemma TiledDisjoint(t: seq<Obj>)
    requires Tiled(t)
    ensures Disjoint(Objects(t, 0))
    ensures forall o :: o in Objects(t, 0) ==> o.0 + BLOCK * o.1 <= BLOCK * HEAP_BLOCKS
  {
    hide Objects;
    ObjectsInside(t, 0);
    forall o, p | o in Objects(t, 0) && p in Objects(t, 0) && o != p
      ensures o.0 + BLOCK * o.1 <= p.0 || p.0 + BLOCK * p.1 <= o.0
    {
      ObjectsDisjoint(t, 0, o, p);
    }
  }

  /** What was asked for each live object: the last request its address was returned
      for, unless it has been released. */
  ghost function Requests(calls: seq<Call>): map<int, nat> {
    if calls == [] then map[]
    else
      var before := calls[..|calls| - 1];
      var result := Step(Run(WHOLE_HEAP, before), calls[|calls| - 1]).1;
      match calls[|calls| - 1]
      case Malloc(size) => if result == NULL then Requests(before) else Requests(before)[result := size]
      case Release(ptr) => if ptr == NULL || result != 0 then Requests(before) else Requests(before) - {ptr}
  }

  /** The live objects are those asked for, and each is as large as was asked. */
  ghost predicate Held(t: seq<Obj>, requests: map<int, nat>) {
    && (forall o :: o in Objects(t, 0) ==> o.0 in requests && requests[o.0] <= BLOCK * o.1)
    && (forall p :: p in requests ==> exists o :: o in Objects(t, 0) && o.0 == p)
  }

  /** Through any calls every live object holds what was asked for it. */
  lemma {:induction false} RequestsHeld(calls: seq<Call>)
    ensures Held(Run(WHOLE_HEAP, calls), Requests(calls))
  {
    if calls == [] {
      BlocksOfOne(WHOLE_HEAP[0]);
    } else {
      var before := calls[..|calls| - 1];
      RequestsHeld(before);
      RunsTiled(before);
      match calls[|calls| - 1]
      case Malloc(size) => MallocHeld(Run(WHOLE_HEAP, before), Requests(before), size);
      case Release(ptr) => ReleaseHeld(Run(WHOLE_HEAP, before), Requests(before), ptr);
    }
  }

  lemma MallocHeld(t: seq<Obj>, requests: map<int, nat>, size: nat)
    requires Tiled(t) && Held(t, requests)
    ensures var (t', ptr) := Alloc(t, size);
      Held(t', if ptr == NULL then requests else requests[ptr := size])
  {
    AllocAdds(t, size);
    hide Tiled;
    hide Objects;
    var (t', ptr) := Alloc(t, size);
    if ptr != NULL {
      var o := (ptr as nat, Grant(t, size, FirstFit(t, size, 0)));
      hide Alloc;
      hide Grant;
      assert o in Objects(t', 0);
      var requests' := requests[ptr := size];
      forall p | p in requests'
        ensures exists o' :: o' in Objects(t', 0) && o'.0 == p
      {
        if p != ptr {
          var q :| q in Objects(t, 0) && q.0 == p;
          assert q in Objects(t', 0);
        }
      }
    }
  }

  lemma ReleaseHeld(t: seq<Obj>, requests: map<int, nat>, ptr: int)
    requires Tiled(t) && Held(t, requests)
    ensures Held(Free(t, ptr).0, if ptr == NULL || Free(t, ptr).1 != 0 then requests else requests - {ptr})
  {
    hide Tiled;
    hide Objects;
    if ptr != NULL {
      FreeRemoves(t, ptr);
      var t' := Free(t, ptr).0;
      if Free(t, ptr).1 == 0 {
        hide Free;
        var requests' := requests - {ptr};
        forall p | p in requests'
          ensures exists o :: o in Objects(t', 0) && o.0 == p
        {
          var q :| q in Objects(t, 0) && q.0 == p;
          assert q in Objects(t', 0);
        }
      }
    }
  }

  /** A call the code handles as intended: no empty split, and no release of a free
      entry, of the heap's end, or of an object without the guard. */
  ghost predicate Sound(s: State, c: Call)
    requires s.count <= OBJ_NUM
  {
    match c
    case Malloc(size) => !EmptySplit(s.Live(), size)
    case Release(ptr) =>
      ptr == NULL || forall i :: 0 <= i <= s.count && Offset(s.Live(), i) == ptr ==> Freeable(s, i)
  }

  function StepWritten(s: State, c: Call): (r: (State, int))
    requires s.count <= OBJ_NUM
    ensures r.0.count <= OBJ_NUM
  {
    match c
    case Malloc(size) => MallocWritten(s, size)
    case Release(ptr) => FreeWritten(s, ptr)
  }

  /** The code does what is intended exactly on sound calls. */
  lemma SoundStep(s: State, c: Call)
    requires s.count <= OBJ_NUM && Tiled(s.Live())
    ensures (StepWritten(s, c).0.Live(), StepWritten(s, c).1) == Step(s.Live(), c) <==> Sound(s, c)
  {
    hide Tiled;
    hide MallocWritten;
    hide FreeWritten;
    match c
    case Malloc(size) => MallocAgrees(s, size);
    case Release(ptr) => FreeAgreesExactly(s, ptr);
  }

  /** A run of the code on a fresh heap, with what each call returns. Between calls
      the program may change what lies behind the table. */
  ghost predicate IsRun(trace: seq<State>, results: seq<int>, calls: seq<Call>) {
    && |trace| == |calls| + 1 && |results| == |calls|
    && trace[0].count <= OBJ_NUM && trace[0].Live() == WHOLE_HEAP
    && forall i :: 0 <= i < |calls| ==> Follows(trace[i], calls[i], results[i], trace[i + 1])
  }

  ghost predicate Follows(s: State, c: Call, result: int, s': State) {
    && s.count <= OBJ_NUM
    && s'.count == StepWritten(s, c).0.count && s'.m[..OBJ_NUM] == StepWritten(s, c).0.m[..OBJ_NUM]
    && result == StepWritten(s, c).1
  }

  /** The first n calls were sound. */
  ghost predicate SoundUpTo(trace: seq<State>, calls: seq<Call>, n: nat)
    requires n <= |calls| <= |trace|
  {
    forall i :: 0 <= i < n ==> trace[i].count <= OBJ_NUM && Sound(trace[i], calls[i])
  }

  /** The code's tables and results are the intended ones through n calls. */
  ghost predicate AgreesUpTo(trace: seq<State>, results: seq<int>, calls: seq<Call>, n: nat)
    requires n <= |calls| == |results| && |calls| < |trace|
  {
    forall i :: 0 <= i < n ==> Agreed(trace[i + 1], results[i], calls[..i], calls[i])
  }

  ghost predicate Agreed(s': State, result: int, before: seq<Call>, c: Call) {
    s'.count <= OBJ_NUM && (s'.Live(), result) == Step(Run(WHOLE_HEAP, before), c)
  }

  /** A run of the code is the intended run, results and all, exactly as long as its
      calls are sound; and then its heap is tiled with disjoint objects. */
  lemma {:induction false} RunAgreesExactly(trace: seq<State>, results: seq<int>, calls: seq<Call>, n: nat)
    requires IsRun(trace, results, calls) && n <= |calls|
    ensures AgreesUpTo(trace, results, calls, n) <==> SoundUpTo(trace, calls, n)
    ensures SoundUpTo(trace, calls, n) ==> trace[n].count <= OBJ_NUM && trace[n].Live() == Run(WHOLE_HEAP, calls[..n])
  {
    hide StepWritten;
    hide Sound;
    hide Step;
    hide Agreed;
    if n > 0 {
      var p := n - 1;
      RunAgreesExactly(trace, results, calls, p);
      if SoundUpTo(trace, calls, p) {
        LastCallAgrees(trace, results, calls, p);
      }
      assert AgreesUpTo(trace, results, calls, n) <==>
        AgreesUpTo(trace, results, calls, p) && Agreed(trace[p + 1], results[p], calls[..p], calls[p]);
      assert trace[p].count <= OBJ_NUM by {
        assert Follows(trace[p], calls[p], results[p], trace[p + 1]);
      }
      assert SoundUpTo(trace, calls, n) <==> SoundUpTo(trace, calls, p) && Sound(trace[p], calls[p]);
    }
  }

  lemma LastCallAgrees(trace: seq<State>, results: seq<int>, calls: seq<Call>, p: nat)
    requires IsRun(trace, results, calls) && p < |calls|
    requires trace[p].count <= OBJ_NUM && trace[p].Live() == Run(WHOLE_HEAP, calls[..p])
    ensures Agreed(trace[p + 1], results[p], calls[..p], calls[p]) <==> Sound(trace[p], calls[p])
    ensures Sound(trace[p], calls[p]) ==>
      trace[p + 1].count <= OBJ_NUM && trace[p + 1].Live() == Run(WHOLE_HEAP, calls[..p + 1])
  {
    hide StepWritten;
    hide Sound;
    hide Step;
    var c := calls[p];
    RunsTiled(calls[..p]);
    assert Follows(trace[p], c, results[p], trace[p + 1]);
    SoundStep(trace[p], c);
    var s' := StepWritten(trace[p], c).0;
    assert trace[p + 1].Live() == s'.m[..OBJ_NUM][..s'.count] == s'.Live();
    assert calls[..p + 1][..p] == calls[..p];
  }

  // ---- the table in place ----

  class HeapTable {
    const objs: array<Obj>
    /** malloc_obj_count */
    var count: nat

    ghost predicate Valid()
      reads this, objs
    {
      objs.Length == MEMORY && count <= OBJ_NUM && forall k :: 0 <= k < MEMORY ==> objs[k].size < 0x8000
    }

    ghost function Now(): State
      requires Valid()
      reads this, objs
    {
      State(objs[..], count)
    }

    method Probe(size: nat) returns (i: nat, ptr: nat)
      requires Valid()
      ensures i == FirstFit(objs[..count], size, 0) && ptr == Offset(objs[..count], i)
    {
      i := 0;
      ptr := 0;
      ghost var t := objs[..count];
      while i < count && (objs[i].used || size > BLOCK * objs[i].size)
        invariant i <= count && FirstFit(t, size, i) == FirstFit(t, size, 0) && ptr == Offset(t, i)
      {
        OffsetStep(t, i);
        ptr := ptr + BLOCK * objs[i].size;
        i := i + 1;
      }
    }

    /** Copies entries i..count one place up. */
    method ShiftUp(i: nat)
      requires Valid() && i < count < OBJ_NUM
      modifies objs
      ensures Valid() && objs[..] == old(objs[..i + 1] + objs[i..count + 1] + objs[count + 2..])
    {
      var j := count + 1;
      while j > i
        invariant i <= j <= count + 1
        invariant forall k :: 0 <= k <= j ==> objs[k] == old(objs[k])
        invariant forall k {:trigger objs[k]} :: j < k <= count + 1 ==> objs[k] == old(objs[k - 1])
        invariant forall k :: count + 1 < k < MEMORY ==> objs[k] == old(objs[k])
      {
        objs[j] := objs[j - 1];
        j := j - 1;
      }
    }

    /** Entry i becomes a used entry of need blocks and a free rest. */
    method SplitEntry(i: nat, need: nat)
      requires Valid() && i < count < OBJ_NUM && !objs[i].used && need <= objs[i].size
      modifies this, objs
      ensures Valid() && count == old(count) + 1
      ensures objs[..] == old(objs[..i] + [Obj(true, need), Obj(false, objs[i].size - need)] +
                              objs[i + 1..count + 1] + objs[count + 2..])
    {
      var blocks := objs[i].size;
      ShiftUp(i);
      objs[i] := Obj(true, need);
      objs[i + 1] := objs[i + 1].(size := blocks - objs[i].size);
      count := count + 1;
    }

    method Malloc(size: nat) returns (ptr: int)
      requires Valid()
      modifies this, objs
      ensures Valid() && (Now(), ptr) == MallocWritten(old(Now()), size)
    {
      var i, at := Probe(size);
      if i == count {
        return NULL;
      }
      var blocks := objs[i].size;
      if size < BLOCK * blocks {
        if count == OBJ_NUM {
          return NULL;
        }
        SplitEntry(i, size / BLOCK + 1);
        return at;
      }
      objs[i] := objs[i].(used := true);
      return at;
    }

    method Free(ptr: int) returns (result: int)
      requires Valid()
      modifies this, objs
      ensures Valid() && (Now(), result) == FreeWritten(old(Now()), ptr)
    {
      if ptr == NULL {
        return 0;
      }
      var i, at := Scan(ptr);
      if at != ptr {
        return -1;
      }
      Release(i);
      return 0;
    }

    method Scan(ptr: int) returns (i: nat, at: nat)
      requires Valid()
      ensures i == Find(objs[..count], ptr, 0) && at == Offset(objs[..count], i)
    {
      i := 0;
      at := 0;
      ghost var t := objs[..count];
      while i < count && ptr > at
        invariant i <= count && Find(t, ptr, i) == Find(t, ptr, 0) && at == Offset(t, i)
      {
        OffsetStep(t, i);
        at := at + BLOCK * objs[i].size;
        i := i + 1;
      }
    }

    method Release(i: nat)
      requires Valid() && i <= count
      modifies this, objs
      ensures Valid() && Now() == FreeEntry(old(Now()), i)
    {
      hide FreeEntry;
      hide Closed;
      hide EmptySize;
      ghost var was := Now();
      EntryClosed(was, i);
      var size := objs[i].size;
      var next := objs[i + 1].size;
      var right := i < count && !objs[i + 1].used;
      if right {
        size := size + next;
      }
      var left := i > 0 && !objs[i - 1].used;
      if left {
        size := size + next;
      }
      var move := (if right then 1 else 0) + (if left then 1 else 0);
      var at := if left then i - 1 else i;
      EmptySizeIs(objs[i].size, next, right, left);
      count := count - move;
      ShiftDown(at + 1, move);
      objs[at] := Obj(false, size % 0x10000 % 0x8000);
      SizesFit(FreeEntry(was, i), objs[..]);
    }

    method ShiftDown(from: nat, move: nat)
      requires objs.Length == MEMORY && from + move <= MEMORY && count + move <= MEMORY
      modifies objs
      ensures objs[..] == Closed(old(objs[..]), from, move, count)
    {
      var j := from;
      while j < count
        invariant from <= j && j + move <= MEMORY && (j <= count || j == from)
        invariant objs[..] == Closed(old(objs[..]), from, move, j)
      {
        ClosedStep(old(objs[..]), from, move, j);
        objs[j] := objs[j + move];
        j := j + 1;
      }
    }
  }

  lemma EmptySizeIs(own: nat, next: nat, right: bool, left: bool)
    ensures EmptySize(own, next, right, left)
      == (own + (if right then next else 0) + (if left then next else 0)) % 0x10000 % 0x8000
  {
  }

  lemma SizesFit(s: State, m: seq<Obj>)
    requires m == s.m
    ensures forall k :: 0 <= k < |m| ==> m[k].size < 0x8000
  {
  }

  /** Releasing an entry closes the gap behind it and then overwrites it. */
  lemma EntryClosed(s: State, i: nat)
    requires i <= s.count <= OBJ_NUM
    ensures var right, left := i < s.count && !s.m[i + 1].used, i > 0 && !s.m[i - 1].used;
      var move := (if right then 1 else 0) + (if left then 1 else 0);
      var at := if left then i - 1 else i;
      && s.count - move >= 0
      && FreeEntry(s, i).count == s.count - move
      && FreeEntry(s, i).m == Closed(s.m, at + 1, move, s.count - move)
           [at := Obj(false, EmptySize(s.m[i].size, s.m[i + 1].size, right, left))]
  {
    hide EmptySize;
  }

  /** The table with entries from..to taken from move entries further up. */
  function Closed(t: seq<Obj>, from: nat, move: nat, to: nat): (r: seq<Obj>)
    requires to + move <= |t|
    ensures |r| == |t|
    ensures forall k :: 0 <= k < |t| ==> r[k] == if from <= k < to then t[k + move] else t[k]
  {
    seq(|t|, k requires 0 <= k < |t| => if from <= k < to then t[k + move] else t[k])
  }

  lemma ClosedStep(t: seq<Obj>, from: nat, move: nat, j: nat)
    requires from <= j && j + 1 + move <= |t|
    ensures Closed(t, from, move, j + 1) == Closed(t, from, move, j)[j := t[j + move]]
    ensures Closed(t, from, move, j)[j + move] == t[j + move]
  {
  }
}
