/** The first-fit heap of a process: the intended allocator over its compacted
    table, what the code does instead, and exactly when the two agree. */
module Heap {

  const HEAP_BLOCKS := 8192
  const OBJ_NUM := 2048
  const BLOCK := 32

  /** Pointers are byte offsets from HEAP_START, which comes after a page's PCB and
      the table; the null pointer is that far below it. */
  const PCB_SIZE := 204
  const HEAP_START := 0x800_0000 + PCB_SIZE + 4096
  const NULL := -HEAP_START

  /** One entry of malloc_objs. */
  datatype Obj = Obj(used: bool, size: nat)

  // ---- the intended table ----

  function Blocks(t: seq<Obj>): nat {
    if t == [] then 0 else t[0].size + Blocks(t[1..])
  }

  /** Byte offset of entry i from HEAP_START. */
  function Offset(t: seq<Obj>, i: nat): nat
    requires i <= |t|
  {
    BLOCK * Blocks(t[..i])
  }

  /** The entries tile the heap, none is empty, and no two neighbours are free. */
  ghost predicate Tiled(t: seq<Obj>) {
    && 1 <= |t| <= OBJ_NUM
    && Blocks(t) == HEAP_BLOCKS
    && (forall i :: 0 <= i < |t| ==> t[i].size >= 1)
    && Apart(t)
  }

  /** No two neighbours are free. */
  ghost predicate Apart(t: seq<Obj>) {
    forall i, j :: 0 <= i && j == i + 1 && j < |t| ==> t[i].used || t[j].used
  }

  /** The allocated objects as (offset, blocks) pairs; base is the first offset. */
  ghost function Objects(t: seq<Obj>, base: nat): set<(nat, nat)> {
    if t == [] then {}
    else (if t[0].used then {(base, t[0].size)} else {}) + Objects(t[1..], base + BLOCK * t[0].size)
  }

  /** First free entry from i on with room for size bytes, or |t|. */
  function FirstFit(t: seq<Obj>, size: nat, i: nat): (r: nat)
    requires i <= |t|
    ensures i <= r <= |t|
    ensures r < |t| ==> !t[r].used && size <= BLOCK * t[r].size
    ensures forall k :: i <= k < r ==> t[k].used || BLOCK * t[k].size < size
    decreases |t| - i
  {
    if i == |t| || (!t[i].used && size <= BLOCK * t[i].size) then i else FirstFit(t, size, i + 1)
  }

  /** The blocks malloc gives an object it carves out of a larger free entry. */
  function Need(size: nat): nat {
    size / BLOCK + 1
  }

  /** The chosen entry is larger than the request, so malloc splits it. */
  predicate Splits(t: seq<Obj>, size: nat) {
    var i := FirstFit(t, size, 0);
    i < |t| && size < BLOCK * t[i].size
  }

  function Split(t: seq<Obj>, i: nat, need: nat): seq<Obj>
    requires i < |t| && need <= t[i].size
  {
    t[..i] + [Obj(true, need), Obj(false, t[i].size - need)] + t[i + 1..]
  }

  /** The intended malloc: no split that would leave nothing behind. */
  function Alloc(t: seq<Obj>, size: nat): (r: (seq<Obj>, int))
  {
    var i := FirstFit(t, size, 0);
    if i == |t| then (t, NULL)
    else if size < BLOCK * t[i].size && |t| == OBJ_NUM then (t, NULL)
    else if size < BLOCK * t[i].size && Need(size) < t[i].size then (Split(t, i, Need(size)), Offset(t, i))
    else (t[i := t[i].(used := true)], Offset(t, i))
  }

  /** First entry whose offset is not below ptr, or |t|. */
  function Find(t: seq<Obj>, ptr: int, i: nat): (r: nat)
    requires i <= |t|
    ensures i <= r <= |t|
    ensures forall k :: i <= k < r ==> Offset(t, k) < ptr
    ensures r < |t| ==> Offset(t, r) >= ptr
    decreases |t| - i
  {
    if i == |t| || Offset(t, i) >= ptr then i else Find(t, ptr, i + 1)
  }

  predicate FreeLeft(t: seq<Obj>, i: nat)
    requires i < |t|
  {
    i > 0 && !t[i - 1].used
  }

  predicate FreeRight(t: seq<Obj>, i: nat)
    requires i < |t|
  {
    i + 1 < |t| && !t[i + 1].used
  }

  /** Entry i becomes free and swallows its free neighbours. */
  function Coalesce(t: seq<Obj>, i: nat): seq<Obj>
    requires i < |t|
  {
    var left := if FreeLeft(t, i) then t[i - 1].size else 0;
    var right := if FreeRight(t, i) then t[i + 1].size else 0;
    t[..if FreeLeft(t, i) then i - 1 else i] + [Obj(false, left + t[i].size + right)] +
    t[if FreeRight(t, i) then i + 2 else i + 1..]
  }

  /** The intended free: only a pointer to a live object is accepted. */
  function Free(t: seq<Obj>, ptr: int): (r: (seq<Obj>, int))
  {
    if ptr == NULL then (t, 0)
    else
      var i := Find(t, ptr, 0);
      if i < |t| && Offset(t, i) == ptr && t[i].used then (Coalesce(t, i), 0) else (t, -1)
  }

  // ---- laws of tables ----

  lemma {:induction false} BlocksConcat(a: seq<Obj>, b: seq<Obj>)
    ensures Blocks(a + b) == Blocks(a) + Blocks(b)
  {
    if a == [] {
      assert a + b == b;
    } else {
      assert (a + b)[1..] == a[1..] + b;
      BlocksConcat(a[1..], b);
    }
  }

  lemma {:induction false} ObjectsConcat(a: seq<Obj>, b: seq<Obj>, base: nat)
    ensures Objects(a + b, base) == Objects(a, base) + Objects(b, base + BLOCK * Blocks(a))
  {
    if a == [] {
      assert a + b == b;
    } else {
      assert (a + b)[1..] == a[1..] + b;
      ObjectsConcat(a[1..], b, base + BLOCK * a[0].size);
    }
  }

  /** Every object lies inside the stretch its table covers. */
  lemma {:induction false} ObjectsInside(t: seq<Obj>, base: nat)
    ensures forall o :: o in Objects(t, base) ==> base <= o.0 && o.0 + BLOCK * o.1 <= base + BLOCK * Blocks(t)
    ensures (forall i :: 0 <= i < |t| ==> t[i].size >= 1) ==> forall o :: o in Objects(t, base) ==> o.1 >= 1
  {
    if t != [] {
      ObjectsInside(t[1..], base + BLOCK * t[0].size);
    }
  }

  /** Two objects of a tiled table never overlap. */
  lemma {:induction false} ObjectsDisjoint(t: seq<Obj>, base: nat, o: (nat, nat), p: (nat, nat))
    requires forall i :: 0 <= i < |t| ==> t[i].size >= 1
    requires o in Objects(t, base) && p in Objects(t, base) && o != p
    ensures o.0 + BLOCK * o.1 <= p.0 || p.0 + BLOCK * p.1 <= o.0
  {
    var rest := base + BLOCK * t[0].size;
    ObjectsInside(t[1..], rest);
    if o in Objects(t[1..], rest) && p in Objects(t[1..], rest) {
      ObjectsDisjoint(t[1..], rest, o, p);
    }
  }

  lemma BlocksOfOne(x: Obj)
    ensures Blocks([x]) == x.size
    ensures forall base: nat :: Objects([x], base) == if x.used then {(base, x.size)} else {}
  {
    assert [x][1..] == [];
  }

  lemma BlocksOfTwo(x: Obj, y: Obj)
    ensures Blocks([x, y]) == x.size + y.size
    ensures forall base: nat :: Objects([x, y], base) == Objects([x], base) + Objects([y], base + BLOCK * x.size)
  {
    BlocksOfOne(x);
    BlocksOfOne(y);
    assert [x, y][1..] == [y];
  }

  /** A table falls into the parts before, at and after some entries. */
  lemma Parts(a: seq<Obj>, m: seq<Obj>, c: seq<Obj>)
    ensures Blocks(a + m + c) == Blocks(a) + Blocks(m) + Blocks(c)
    ensures var base := BLOCK * Blocks(a);
      Objects(a + m + c, 0) == Objects(a, 0) + Objects(m, base) + Objects(c, base + BLOCK * Blocks(m))
  {
    BlocksConcat(a + m, c);
    BlocksConcat(a, m);
    ObjectsConcat(a + m, c, 0);
    ObjectsConcat(a, m, 0);
  }

  /** The blocks malloc hands out for a request, in entry i. */
  function Grant(t: seq<Obj>, size: nat, i: nat): nat
    requires i < |t|
  {
    if size < BLOCK * t[i].size && Need(size) < t[i].size then Need(size) else t[i].size
  }

  /** malloc adds one object that holds the request, and touches no other. */
  lemma AllocAdds(t: seq<Obj>, size: nat)
    requires Tiled(t)
    ensures var (t', ptr) := Alloc(t, size);
      Tiled(t') && (ptr == NULL ==> t' == t)
    ensures Alloc(t, size).1 == NULL <==> FirstFit(t, size, 0) == |t| || (Splits(t, size) && |t| == OBJ_NUM)
    ensures var (t', ptr) := Alloc(t, size); var i := FirstFit(t, size, 0);
      ptr != NULL ==>
        && i < |t| && size <= BLOCK * Grant(t, size, i)
        && (forall o :: o in Objects(t, 0) ==> o.0 != ptr)
        && Objects(t', 0) == Objects(t, 0) + {(ptr, Grant(t, size, i))}
  {
    var i := FirstFit(t, size, 0);
    var (t', ptr) := Alloc(t, size);
    if ptr != NULL {
      var n := Grant(t, size, i);
      var m' := if n == t[i].size then [Obj(true, n)] else [Obj(true, n), Obj(false, t[i].size - n)];
      assert t' == t[..i] + m' + t[i + 1..];
      Claim(t, i, n);
    }
  }

  /** Where an object goes and how large it is: into the free stretch with the lowest
      address that is large enough, and with no more than a block to spare. */
  lemma AllocExact(t: seq<Obj>, size: nat)
    requires Tiled(t)
    ensures var (t', ptr) := Alloc(t, size);
      ptr != NULL ==> exists i :: 0 <= i < |t| && Takes(t, t', i, size) && ptr == Offset(t, i)
    ensures Alloc(t, size).1 == NULL ==>
      (forall i :: 0 <= i < |t| ==> t[i].used || 32 * t[i].size < size) || |t| == 2048
  {
    var (t', ptr) := Alloc(t, size);
    var i := FirstFit(t, size, 0);
    if ptr != NULL {
      TakesGrant(t, size, i);
      assert Takes(t, t', i, size);
    }
  }

  lemma TakesGrant(t: seq<Obj>, size: nat, i: nat)
    requires i == FirstFit(t, size, 0) && i < |t| && Alloc(t, size).1 != NULL && t[i].size >= 1
    ensures Takes(t, Alloc(t, size).0, i, size)
  {
    hide FirstFit;
    hide Offset;
    var n := Grant(t, size, i);
    NeedTight(size);
    var rest := if n < t[i].size then [Obj(false, t[i].size - n)] else [];
    var t' := Alloc(t, size).0;
    if n < t[i].size {
      assert t' == t[..i] + [Obj(true, n)] + rest + t[i + 1..];
    } else {
      assert t' == t[..i] + [Obj(true, n)] + [] + t[i + 1..];
    }
  }

  lemma NeedTight(size: nat)
    ensures 32 * Need(size) - 32 <= size < 32 * Need(size)
  {
  }

  /** Entry i is the first free one with room, and becomes an object of just enough
      blocks, followed by what is left of it. */
  ghost predicate Takes(t: seq<Obj>, t': seq<Obj>, i: nat, size: nat)
    requires i < |t|
  {
    && !t[i].used && size <= 32 * t[i].size
    && (forall k :: 0 <= k < i ==> t[k].used || 32 * t[k].size < size)
    && exists n: nat, rest: seq<Obj> ::
         && n <= t[i].size && 32 * n - 32 <= size <= 32 * n
         && rest == (if n < t[i].size then [Obj(false, t[i].size - n)] else [])
         && t' == t[..i] + [Obj(true, n)] + rest + t[i + 1..]
  }

  /** Turning the first n blocks of free entry i into an object. */
  lemma Claim(t: seq<Obj>, i: nat, n: nat)
    requires Tiled(t) && i < |t| && !t[i].used && 1 <= n <= t[i].size && (n < t[i].size ==> |t| < OBJ_NUM)
    ensures var m' := if n == t[i].size then [Obj(true, n)] else [Obj(true, n), Obj(false, t[i].size - n)];
      var t' := t[..i] + m' + t[i + 1..];
      Tiled(t') && Objects(t', 0) == Objects(t, 0) + {(Offset(t, i), n)}
    ensures forall o :: o in Objects(t, 0) ==> o.0 != Offset(t, i)
  {
    hide Objects;
    hide Blocks;
    var a, c := t[..i], t[i + 1..];
    var m' := if n == t[i].size then [Obj(true, n)] else [Obj(true, n), Obj(false, t[i].size - n)];
    assert t == a + [t[i]] + c;
    BlocksOfOne(t[i]);
    BlocksOfOne(Obj(true, n));
    BlocksOfOne(Obj(false, t[i].size - n));
    BlocksOfTwo(Obj(true, n), Obj(false, t[i].size - n));
    Parts(a, [t[i]], c);
    Parts(a, m', c);
    TiledAround(t, i, m');
    ObjectsInside(a, 0);
    ObjectsInside(c, BLOCK * Blocks(a) + BLOCK * t[i].size);
  }

  /** Putting a used entry first, and a free one last, keeps free entries apart. */
  lemma TiledAround(t: seq<Obj>, i: nat, m: seq<Obj>)
    requires Tiled(t) && i < |t| && !t[i].used
    requires |m| == 1 || (|m| == 2 && |t| < OBJ_NUM)
    requires m[0].used && (forall k :: 0 <= k < |m| ==> m[k].size >= 1)
    requires Blocks(t[..i] + m + t[i + 1..]) == Blocks(t)
    ensures Tiled(t[..i] + m + t[i + 1..])
  {
    var t' := t[..i] + m + t[i + 1..];
    forall k, j | 0 <= k && j == k + 1 && j < |t'|
      ensures t'[k].used || t'[j].used
    {
      if k + 1 < i {
        assert t[k].used || t[k + 1].used;
      } else if k >= i + |m| {
        assert t[k - |m| + 1].used || t[k - |m| + 2].used;
      } else if k + 1 == i + |m| {
        assert t[i].used || t[i + 1].used;
      }
    }
  }

  lemma OffsetStep(t: seq<Obj>, i: nat)
    requires i < |t|
    ensures Offset(t, i + 1) == Offset(t, i) + BLOCK * t[i].size
  {
    assert t[..i + 1] == t[..i] + [t[i]];
    BlocksConcat(t[..i], [t[i]]);
    BlocksOfOne(t[i]);
  }

  lemma {:induction false} OffsetsGrow(t: seq<Obj>, i: nat, j: nat)
    requires i < j <= |t| && forall k :: 0 <= k < |t| ==> t[k].size >= 1
    ensures Offset(t, i) < Offset(t, j)
  {
    OffsetStep(t, j - 1);
    if i < j - 1 {
      OffsetsGrow(t, i, j - 1);
    }
  }

  /** free's scan finds an entry by its offset. */
  lemma FindExact(t: seq<Obj>, i: nat)
    requires i <= |t| && forall k :: 0 <= k < |t| ==> t[k].size >= 1
    ensures Find(t, Offset(t, i), 0) == i
  {
    var r := Find(t, Offset(t, i), 0);
    assert r <= i;
    if r < i {
      OffsetsGrow(t, r, i);
    }
  }

  lemma EntryIsObject(t: seq<Obj>, i: nat)
    requires i < |t| && t[i].used
    ensures (Offset(t, i), t[i].size) in Objects(t, 0)
  {
    assert t == t[..i] + [t[i]] + t[i + 1..];
    Parts(t[..i], [t[i]], t[i + 1..]);
    BlocksOfOne(t[i]);
  }

  lemma {:induction false} ObjectIsEntry(t: seq<Obj>, base: nat, o: (nat, nat)) returns (i: nat)
    requires o in Objects(t, base)
    ensures i < |t| && t[i] == Obj(true, o.1) && base + Offset(t, i) == o.0
  {
    if o == (base, t[0].size) && t[0].used {
      i := 0;
    } else {
      var j := ObjectIsEntry(t[1..], base + BLOCK * t[0].size, o);
      i := j + 1;
      assert t[..i] == [t[0]] + t[1..][..j];
      BlocksConcat([t[0]], t[1..][..j]);
      BlocksOfOne(t[0]);
    }
  }

  /** Freeing an entry removes its object and no other, and leaves no two free
      neighbours. */
  lemma CoalesceRemoves(t: seq<Obj>, i: nat)
    requires Tiled(t) && i < |t| && t[i].used
    ensures Tiled(Coalesce(t, i))
    ensures Objects(Coalesce(t, i), 0) == Objects(t, 0) - {(Offset(t, i), t[i].size)}
  {
    hide Objects;
    hide Blocks;
    hide Coalesce;
    var a, l, r, c := CoalesceParts(t, i);
    CoalesceApart(t, i);
    MiddleFreed(a, l, t[i], r, c);
  }

  lemma MiddleFreed(a: seq<Obj>, l: seq<Obj>, x: Obj, r: seq<Obj>, c: seq<Obj>)
    requires |l| <= 1 && |r| <= 1 && x.used && x.size >= 1
    requires (l != [] ==> !l[0].used) && (r != [] ==> !r[0].used)
    ensures var t := a + (l + [x] + r) + c;
      var t' := a + [Obj(false, Blocks(l) + x.size + Blocks(r))] + c;
      Blocks(t') == Blocks(t) && Objects(t', 0) == Objects(t, 0) - {(BLOCK * Blocks(a + l), x.size)}
  {
    hide Objects;
    hide Blocks;
    var end := BLOCK * (Blocks(a) + Blocks(l) + x.size + Blocks(r));
    BlocksConcat(a, l);
    var o := (BLOCK * Blocks(a + l), x.size);
    MiddleBefore(a, l, x, r, c);
    MiddleAfter(a, l, x, r, c);
    Outside(a, c, o, end);
    Removed(Objects(a + (l + [x] + r) + c, 0), Objects(a + [Obj(false, Blocks(l) + x.size + Blocks(r))] + c, 0),
            Objects(a, 0), o, Objects(c, end));
  }

  lemma MiddleBefore(a: seq<Obj>, l: seq<Obj>, x: Obj, r: seq<Obj>, c: seq<Obj>)
    requires |l| <= 1 && |r| <= 1 && x.used && (l != [] ==> !l[0].used) && (r != [] ==> !r[0].used)
    ensures var t := a + (l + [x] + r) + c; var sum := Blocks(l) + x.size + Blocks(r);
      && Blocks(t) == Blocks(a) + sum + Blocks(c)
      && Objects(t, 0) == Objects(a, 0) + {(BLOCK * (Blocks(a) + Blocks(l)), x.size)} + Objects(c, BLOCK * (Blocks(a) + sum))
  {
    hide Objects;
    hide Blocks;
    Merged(l, x, r, BLOCK * Blocks(a));
    Parts(a, l + [x] + r, c);
  }

  lemma MiddleAfter(a: seq<Obj>, l: seq<Obj>, x: Obj, r: seq<Obj>, c: seq<Obj>)
    requires |l| <= 1 && |r| <= 1 && x.used && (l != [] ==> !l[0].used) && (r != [] ==> !r[0].used)
    ensures var sum := Blocks(l) + x.size + Blocks(r); var t := a + [Obj(false, sum)] + c;
      && Blocks(t) == Blocks(a) + sum + Blocks(c)
      && Objects(t, 0) == Objects(a, 0) + {} + Objects(c, BLOCK * (Blocks(a) + sum))
  {
    hide Objects;
    hide Blocks;
    Merged(l, x, r, BLOCK * Blocks(a));
    Parts(a, [Obj(false, Blocks(l) + x.size + Blocks(r))], c);
  }

  lemma Removed(whole: set<(nat, nat)>, less: set<(nat, nat)>, a: set<(nat, nat)>, o: (nat, nat), c: set<(nat, nat)>)
    requires whole == a + {o} + c && less == a + {} + c && o !in a && o !in c
    ensures less == whole - {o}
  {
  }

  /** An object between two parts of the heap is in neither. */
  lemma Outside(a: seq<Obj>, c: seq<Obj>, o: (nat, nat), from: nat)
    requires BLOCK * Blocks(a) <= o.0 < o.0 + BLOCK * o.1 <= from
    ensures o !in Objects(a, 0) && o !in Objects(c, from)
  {
    hide Objects;
    hide Blocks;
    ObjectsInside(a, 0);
    ObjectsInside(c, from);
  }

  lemma CoalesceParts(t: seq<Obj>, i: nat) returns (a: seq<Obj>, l: seq<Obj>, r: seq<Obj>, c: seq<Obj>)
    requires i < |t|
    ensures t == a + (l + [t[i]] + r) + c && t[..i] == a + l
    ensures |l| <= 1 && |r| <= 1 && (l != [] ==> !l[0].used) && (r != [] ==> !r[0].used)
    ensures Coalesce(t, i) == a + [Obj(false, Blocks(l) + t[i].size + Blocks(r))] + c
  {
    l := if FreeLeft(t, i) then [t[i - 1]] else [];
    r := if FreeRight(t, i) then [t[i + 1]] else [];
    a := t[..if FreeLeft(t, i) then i - 1 else i];
    c := t[if FreeRight(t, i) then i + 2 else i + 1..];
    if FreeLeft(t, i) {
      BlocksOfOne(t[i - 1]);
    }
    if FreeRight(t, i) {
      BlocksOfOne(t[i + 1]);
    }
  }

  lemma Merged(l: seq<Obj>, x: Obj, r: seq<Obj>, base: nat)
    requires |l| <= 1 && |r| <= 1 && x.used
    requires (l != [] ==> !l[0].used) && (r != [] ==> !r[0].used)
    ensures Blocks(l + [x] + r) == Blocks(l) + x.size + Blocks(r)
    ensures Objects(l + [x] + r, base) == {(base + BLOCK * Blocks(l), x.size)}
    ensures Blocks([Obj(false, Blocks(l) + x.size + Blocks(r))]) == Blocks(l) + x.size + Blocks(r)
    ensures Objects([Obj(false, Blocks(l) + x.size + Blocks(r))], base) == {}
  {
    BlocksConcat(l + [x], r);
    BlocksConcat(l, [x]);
    ObjectsConcat(l + [x], r, base);
    ObjectsConcat(l, [x], base);
    BlocksOfOne(x);
    BlocksOfOne(Obj(false, Blocks(l) + x.size + Blocks(r)));
    if l != [] {
      BlocksOfOne(l[0]);
      assert l == [l[0]];
    }
    if r != [] {
      BlocksOfOne(r[0]);
      assert r == [r[0]];
    }
  }

  lemma CoalesceApart(t: seq<Obj>, i: nat)
    requires Tiled(t) && i < |t| && t[i].used
    ensures var t' := Coalesce(t, i);
      && 1 <= |t'| <= |t|
      && (forall k :: 0 <= k < |t'| ==> t'[k].size >= 1)
      && Apart(t')
  {
    var t' := Coalesce(t, i);
    var p := if FreeLeft(t, i) then i - 1 else i;
    var d := |t| - |t'|;
    assert forall k :: 0 <= k < p ==> t'[k] == t[k];
    assert forall k :: p < k < |t'| ==> t'[k] == t[k + d];
    forall k, j | 0 <= k && j == k + 1 && j < |t'|
      ensures t'[k].used || t'[j].used
    {
      if k + 1 < p {
        assert t[k].used || t[k + 1].used;
      } else if k + 1 == p {
        if FreeLeft(t, i) {
          assert t[k].used;
        }
      } else if k == p {
        if FreeRight(t, i) {
          assert t[i + 2].used;
        }
      } else {
        assert t[k + d].used || t[k + d + 1].used;
      }
    }
  }

  /** free of a live object removes exactly that object; any other pointer is
      refused and changes nothing. */
  lemma FreeRemoves(t: seq<Obj>, ptr: int)
    requires Tiled(t) && ptr != NULL
    ensures Tiled(Free(t, ptr).0)
    ensures Free(t, ptr).1 == 0 <==> exists o :: o in Objects(t, 0) && o.0 == ptr
    ensures Free(t, ptr).1 == 0 || Free(t, ptr) == (t, -1)
    ensures Free(t, ptr).1 == 0 ==> Objects(Free(t, ptr).0, 0) == set o | o in Objects(t, 0) && o.0 != ptr
  {
    var i := Find(t, ptr, 0);
    if o :| o in Objects(t, 0) && o.0 == ptr {
      var k := ObjectIsEntry(t, 0, o);
      FindExact(t, k);
    }
    if Free(t, ptr).1 == 0 {
      EntryIsObject(t, i);
      CoalesceRemoves(t, i);
      forall o | o in Objects(t, 0) && o.0 == ptr
        ensures o == (Offset(t, i), t[i].size)
      {
        var k := ObjectIsEntry(t, 0, o);
        FindExact(t, k);
      }
    }
  }
}
