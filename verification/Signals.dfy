/** Signal delivery and sigreturn: contexts pushed on the user stack and popped from
    it, however deeply handlers are themselves interrupted. */
module Signals {
  import opened Basics
  import opened Chars

  type word = x: int | 0 <= x < TWO32

  const SIG_SIZE := 5
  const USER_CS: word := 0x23
  const EAX := 6
  const PAGE_END: word := 0x840_0000
  const ENTRY_FIELD := 0x804_8000 + 24

  /** Words of a saved context, and bytes of a whole signal frame. */
  const CONTEXT_WORDS := 17
  const CONTEXT_BYTES := 68
  const FRAME := 76

  // ---- words in memory ----

  function Bytes(v: word): (b: seq<byte>)
    ensures |b| == 4
  {
    var q := v / 256;
    var r := q / 256;
    [v % 256, q % 256, r % 256, r / 256]
  }

  function FromBytes(b0: byte, b1: byte, b2: byte, b3: byte): word {
    b0 + 256 * (b1 + 256 * (b2 + 256 * b3))
  }

  function WordAt(mem: seq<byte>, a: nat): word
    requires a + 4 <= |mem|
  {
    FromBytes(mem[a], mem[a + 1], mem[a + 2], mem[a + 3])
  }

  function Store(mem: seq<byte>, a: nat, v: word): (m: seq<byte>)
    requires a + 4 <= |mem|
    ensures |m| == |mem|
    ensures forall j :: 0 <= j < |mem| && !(a <= j < a + 4) ==> m[j] == mem[j]
  {
    mem[..a] + Bytes(v) + mem[a + 4..]
  }

  lemma StoreLoads(mem: seq<byte>, a: nat, v: word)
    requires a + 4 <= |mem|
    ensures WordAt(Store(mem, a, v), a) == v
  {
    hide Bytes;
    hide FromBytes;
    var m, b := Store(mem, a, v), Bytes(v);
    assert m[a] == b[0] && m[a + 1] == b[1] && m[a + 2] == b[2] && m[a + 3] == b[3];
    BytesBack(v);
  }

  lemma BytesBack(v: word)
    ensures var b := Bytes(v); FromBytes(b[0], b[1], b[2], b[3]) == v
  {
    var q := v / 256;
    assert v == 256 * q + v % 256 && q == 256 * (q / 256) + q % 256;
  }

  function StoreAll(mem: seq<byte>, a: nat, ws: seq<word>): (m: seq<byte>)
    requires a + 4 * |ws| <= |mem|
    ensures |m| == |mem|
    ensures forall j :: 0 <= j < |mem| && !(a <= j < a + 4 * |ws|) ==> m[j] == mem[j]
    decreases |ws|
  {
    if ws == [] then mem else StoreAll(Store(mem, a, ws[0]), a + 4, ws[1..])
  }

  lemma {:induction false} StoreAllLoads(mem: seq<byte>, a: nat, ws: seq<word>, k: nat)
    requires a + 4 * |ws| <= |mem| && k < |ws|
    ensures WordAt(StoreAll(mem, a, ws), a + 4 * k) == ws[k]
    decreases |ws|
  {
    hide FromBytes;
    hide Store;
    if k == 0 {
      StoreLoads(mem, a, ws[0]);
      WordKept(Store(mem, a, ws[0]), StoreAll(mem, a, ws), a);
    } else {
      StoreAllLoads(Store(mem, a, ws[0]), a + 4, ws[1..], k - 1);
    }
  }

  lemma WordKept(m: seq<byte>, m': seq<byte>, a: nat)
    requires a + 4 <= |m| == |m'| && forall j :: a <= j < a + 4 ==> m'[j] == m[j]
    ensures WordAt(m', a) == WordAt(m, a)
  {
  }

  // ---- contexts ----

  /** hw_context_t: ebx, ecx, edx, esi, edi, ebp, eax, ds, es and fs, and what the
      processor pushes. */
  datatype Context = Context(regs: seq<word>, irqNum: word, error: word, addr: word,
                             cs: word, eflags: word, esp: word, ss: word)

  function Words(c: Context): (ws: seq<word>)
    requires |c.regs| == 10
    ensures |ws| == CONTEXT_WORDS
  {
    c.regs + [c.irqNum, c.error, c.addr, c.cs, c.eflags, c.esp, c.ss]
  }

  /** A process about to return to user mode: its context, its memory up to the end
      of its page, its pending signals and its handlers. root says that it has no
      parent. */
  datatype Task = Task(ctx: Context, mem: seq<byte>, pending: seq<bool>, handlers: seq<word>, root: bool)
  {
    ghost predicate Ok() {
      |ctx.regs| == 10 && |mem| == PAGE_END && |pending| == |handlers| == SIG_SIZE
    }

    /** The stack has room for a frame. */
    ghost predicate Room() {
      FRAME <= ctx.esp <= PAGE_END
    }
  }

  datatype Outcome = Resume(task: Task) | Halted

  /** Pushes the frame of signal i and enters its handler. The linkage is the address
      of sigreturn_linkage. */
  function Deliver(t: Task, i: nat, linkage: word): (r: Task)
    requires t.Ok() && t.Room() && i < SIG_SIZE
    ensures r.Ok()
  {
    var esp := t.ctx.esp;
    var saved := StoreAll(t.mem, esp - CONTEXT_BYTES, Words(t.ctx));
    var mem := Store(Store(saved, esp - CONTEXT_BYTES - 4, i), esp - FRAME, linkage);
    t.(mem := mem, ctx := t.ctx.(esp := esp - FRAME, addr := t.handlers[i]))
  }

  /** _syscall_halt of a process without a parent starts its program again. */
  function Restart(t: Task): (r: Task)
    requires t.Ok()
    ensures r.Ok() && r.Room()
  {
    t.(ctx := t.ctx.(addr := WordAt(t.mem, ENTRY_FIELD), esp := PAGE_END))
  }

  function Clear(t: Task, i: nat): (r: Task)
    requires t.Ok() && i < SIG_SIZE
    ensures r.Ok()
  {
    t.(pending := t.pending[i := false])
  }

  /** The loop of check_signals from signal i on. */
  function CheckFrom(t: Task, i: nat, linkage: word): (r: Outcome)
    requires t.Ok() && t.Room() && i <= SIG_SIZE
    ensures r.Resume? ==> r.task.Ok()
    decreases SIG_SIZE - i
  {
    if i == SIG_SIZE then Resume(t)
    else if !t.pending[i] then CheckFrom(t, i + 1, linkage)
    else if t.handlers[i] != 0 then Resume(Deliver(Clear(t, i), i, linkage))
    else if i < 3 then if t.root then CheckFrom(Restart(Clear(t, i)), i + 1, linkage) else Halted
    else CheckFrom(Clear(t, i), i + 1, linkage)
  }

  function Check(t: Task, linkage: word): (r: Outcome)
    requires t.Ok() && t.Room()
    ensures r.Resume? ==> r.task.Ok()
  {
    if t.ctx.cs != USER_CS then Resume(t) else CheckFrom(t, 0, linkage)
  }

  // ---- which signal wins ----

  /** The first true entry from i on, or the length. */
  function First(s: seq<bool>, i: nat): (k: nat)
    requires i <= |s|
    ensures i <= k <= |s|
    ensures k < |s| ==> s[k]
    ensures forall j :: i <= j < k ==> !s[j]
    decreases |s| - i
  {
    if i == |s| || s[i] then i else First(s, i + 1)
  }

  function Handled(t: Task): (s: seq<bool>)
    requires t.Ok()
    ensures |s| == SIG_SIZE
  {
    seq(SIG_SIZE, i requires 0 <= i < SIG_SIZE => t.pending[i] && t.handlers[i] != 0)
  }

  /** Division by zero, a bad access or an interrupt key without a handler. */
  function Fatal(t: Task): (s: seq<bool>)
    requires t.Ok()
    ensures |s| == SIG_SIZE
  {
    seq(SIG_SIZE, i requires 0 <= i < SIG_SIZE => i < 3 && t.pending[i] && t.handlers[i] == 0)
  }

  function ClearRange(s: seq<bool>, from: nat, to: nat): (r: seq<bool>)
    ensures |r| == |s|
  {
    seq(|s|, i requires 0 <= i < |s| => s[i] && !(from <= i < to))
  }

  /** What the signals from i on lead to: the lowest one with a handler gets it unless
      a fatal one comes first, which ends the process or, without a parent, starts
      its program again; signals above the delivered one stay pending. */
  function Verdict(t: Task, i: nat, linkage: word): Outcome
    requires t.Ok() && t.Room() && i <= SIG_SIZE
  {
    var h, u := First(Handled(t), i), First(Fatal(t), i);
    if u < h && !t.root then Halted
    else
      var base := if u < h then Restart(t) else t;
      var cleared := base.(pending := ClearRange(t.pending, i, h + 1));
      Resume(if h < SIG_SIZE then Deliver(cleared, h, linkage) else cleared)
  }

  lemma CheckExact(t: Task, linkage: word)
    requires t.Ok() && t.Room()
    ensures Check(t, linkage) == if t.ctx.cs == USER_CS then Verdict(t, 0, linkage) else Resume(t)
  {
    if t.ctx.cs == USER_CS {
      CheckFromExact(t, 0, linkage);
    }
  }

  lemma {:induction false} CheckFromExact(t: Task, i: nat, linkage: word)
    requires t.Ok() && t.Room() && i <= SIG_SIZE
    ensures CheckFrom(t, i, linkage) == Verdict(t, i, linkage)
    decreases SIG_SIZE - i
  {
    hide Deliver;
    hide Restart;
    hide First;
    hide ClearRange;
    if i == SIG_SIZE {
      EndStep(t);
    } else {
      FirstStep(Handled(t), i);
      FirstStep(Fatal(t), i);
      if t.pending[i] && t.handlers[i] != 0 {
        ClearedOne(t.pending, i);
      } else if i >= 3 || !t.pending[i] {
        CheckFromExact(Clear(t, i), i + 1, linkage);
        SkipStep(t, i, linkage);
        assert !t.pending[i] ==> Clear(t, i) == t;
      } else if t.root {
        CheckFromExact(Restart(Clear(t, i)), i + 1, linkage);
        RestartStep(t, i, linkage);
      }
    }
  }

  lemma EndStep(t: Task)
    requires t.Ok()
    ensures First(Handled(t), SIG_SIZE) == First(Fatal(t), SIG_SIZE) == SIG_SIZE
    ensures ClearRange(t.pending, SIG_SIZE, SIG_SIZE + 1) == t.pending
  {
  }

  lemma FirstStep(s: seq<bool>, i: nat)
    requires i < |s|
    ensures First(s, i) == if s[i] then i else First(s, i + 1)
    ensures First(s, i) >= i && First(s, i + 1) > i
  {
  }

  lemma ClearedOne(s: seq<bool>, i: nat)
    requires i < |s|
    ensures ClearRange(s, i, i + 1) == s[i := false]
  {
  }

  /** A signal that is not pending, or that is ignored. */
  lemma SkipStep(t: Task, i: nat, linkage: word)
    requires t.Ok() && t.Room() && i < SIG_SIZE && !Handled(t)[i] && !Fatal(t)[i]
    ensures Verdict(t, i, linkage) == Verdict(Clear(t, i), i + 1, linkage)
  {
    hide Deliver;
    hide First;
    hide ClearRange;
    var t' := Clear(t, i);
    FirstStep(Handled(t), i);
    FirstStep(Fatal(t), i);
    FirstAgrees(Handled(t), Handled(t'), i + 1);
    FirstAgrees(Fatal(t), Fatal(t'), i + 1);
    var h := First(Handled(t), i);
    ClearedFrom(t.pending, t'.pending, i, h + 1);
  }

  /** A fatal signal of a process without a parent. */
  lemma RestartStep(t: Task, i: nat, linkage: word)
    requires t.Ok() && t.Room() && i < SIG_SIZE && Fatal(t)[i] && t.root
    ensures Verdict(t, i, linkage) == Verdict(Restart(Clear(t, i)), i + 1, linkage)
  {
    hide Deliver;
    hide First;
    hide ClearRange;
    hide WordAt;
    var t' := Restart(Clear(t, i));
    FirstStep(Handled(t), i);
    FirstStep(Fatal(t), i);
    FirstAgrees(Handled(t), Handled(t'), i + 1);
    FirstAgrees(Fatal(t), Fatal(t'), i + 1);
    var h := First(Handled(t), i);
    ClearedFrom(t.pending, t'.pending, i, h + 1);
  }

  lemma FirstAgrees(a: seq<bool>, b: seq<bool>, i: nat)
    requires |a| == |b| && i <= |a| && forall j :: i <= j < |a| ==> a[j] == b[j]
    ensures First(a, i) == First(b, i)
  {
  }

  lemma ClearedFrom(s: seq<bool>, s': seq<bool>, i: nat, to: nat)
    requires i < |s| == |s'| && s' == s[i := false] && i < to
    ensures ClearRange(s, i, to) == ClearRange(s', i + 1, to)
  {
  }

  // ---- the frame, and the way back ----

  /** Everything at and above an address is the same in both memories. */
  ghost predicate SameAbove(m: seq<byte>, m': seq<byte>, a: int) {
    |m| == |m'| && forall j :: 0 <= j < |m| && a <= j ==> m'[j] == m[j]
  }

  /** The frame, from the bottom: the return address for the handler, its argument
      and the interrupted context; nothing above the old stack pointer is touched. */
  lemma DeliverFrame(t: Task, i: nat, linkage: word)
    requires t.Ok() && t.Room() && i < SIG_SIZE
    ensures var r := Deliver(t, i, linkage); var esp := r.ctx.esp;
      && esp == t.ctx.esp - FRAME && r.ctx.addr == t.handlers[i] && r.ctx.regs == t.ctx.regs
      && r.ctx.cs == t.ctx.cs
      && WordAt(r.mem, esp) == linkage && WordAt(r.mem, esp + 4) == i
      && (forall k :: 0 <= k < CONTEXT_WORDS ==> WordAt(r.mem, esp + 8 + 4 * k) == Words(t.ctx)[k])
      && SameAbove(t.mem, r.mem, t.ctx.esp)
  {
    hide WordAt;
    hide Store;
    hide StoreAll;
    hide Words;
    var r := Deliver(t, i, linkage);
    var esp := r.ctx.esp;
    var saved := StoreAll(t.mem, esp + 8, Words(t.ctx));
    var mid := Store(saved, esp + 4, i);
    StoreLoads(saved, esp + 4, i);
    StoreLoads(mid, esp, linkage);
    WordKept(mid, r.mem, esp + 4);
    forall k | 0 <= k < CONTEXT_WORDS
      ensures WordAt(r.mem, esp + 8 + 4 * k) == Words(t.ctx)[k]
    {
      StoreAllLoads(t.mem, esp + 8, Words(t.ctx), k);
      WordKept(saved, r.mem, esp + 8 + 4 * k);
    }
  }

  /** _syscall_sigreturn. The system call's result is the restored eax, so storing
      it in the frame changes nothing. */
  function SigReturn(t: Task): (r: Task)
    requires t.Ok() && t.ctx.esp + CONTEXT_BYTES <= PAGE_END
    ensures r.Ok() && r.mem == t.mem
  {
    var a := t.ctx.esp;
    t.(ctx := t.ctx.(esp := WordAt(t.mem, a + 60),
                     addr := WordAt(t.mem, a + 48),
                     regs := seq(10, k requires 0 <= k < 10 => WordAt(t.mem, a + 4 * k))))
  }

  /** The end of a handler: its ret takes the return address off the stack, and
      sigreturn_linkage drops the argument and asks for system call 10. */
  function Ret(t: Task): Task
    requires t.Ok() && t.ctx.esp + 8 <= PAGE_END
  {
    t.(ctx := t.ctx.(addr := WordAt(t.mem, t.ctx.esp), esp := t.ctx.esp + 4))
  }

  function Linkage(t: Task): Task
    requires t.Ok() && t.ctx.esp + 4 < 0x1_0000_0000
  {
    t.(ctx := t.ctx.(esp := t.ctx.esp + 4, regs := t.ctx.regs[EAX := 10]))
  }

  /** A handler that leaves its entry frame alone and returns with the stack pointer
      it was given gets to the linkage, and from there to sigreturn with the saved
      context on top of the stack. */
  lemma HandlerReturns(t: Task, i: nat, linkage: word, end: Task)
    requires t.Ok() && t.Room() && i < SIG_SIZE && end.Ok()
    requires end.ctx.esp == t.ctx.esp - FRAME
    requires SameAbove(Deliver(t, i, linkage).mem, end.mem, t.ctx.esp - FRAME)
    ensures Ret(end).ctx.addr == linkage
    ensures var r := SigReturn(Linkage(Ret(end)));
      r.ctx.regs == t.ctx.regs && r.ctx.esp == t.ctx.esp && r.ctx.addr == t.ctx.addr
  {
    hide WordAt;
    hide Deliver;
    DeliverFrame(t, i, linkage);
    WordKept(Deliver(t, i, linkage).mem, end.mem, end.ctx.esp);
    SavedBack(t, Deliver(t, i, linkage).mem, Linkage(Ret(end)));
  }

  /** Where the saved context lies unchanged on the stack, sigreturn restores it. */
  lemma SavedBack(t: Task, mem: seq<byte>, end: Task)
    requires t.Ok() && t.Room() && end.Ok() && |mem| == PAGE_END
    requires end.ctx.esp == t.ctx.esp - CONTEXT_BYTES && SameAbove(mem, end.mem, end.ctx.esp)
    requires forall k :: 0 <= k < CONTEXT_WORDS ==> WordAt(mem, end.ctx.esp + 4 * k) == Words(t.ctx)[k]
    ensures var r := SigReturn(end);
      r.ctx.regs == t.ctx.regs && r.ctx.esp == t.ctx.esp && r.ctx.addr == t.ctx.addr
  {
    hide WordAt;
    var ws := Words(t.ctx);
    forall k | 0 <= k < CONTEXT_WORDS
      ensures WordAt(end.mem, end.ctx.esp + 4 * k) == ws[k]
    {
      WordKept(mem, end.mem, end.ctx.esp + 4 * k);
    }
    assert forall k :: 0 <= k < 10 ==> ws[k] == t.ctx.regs[k];
    assert ws[12] == t.ctx.addr && ws[15] == t.ctx.esp;
  }

  // ---- runs: user code, interrupted by signals whose handlers are runs themselves ----

  /** A run of one level: user code leads to a new state, or a signal is delivered,
      its handler runs, and sigreturn comes back. */
  datatype Run =
    | Done
    | Work(task: Task, rest: Run)
    | Signal(handler: Run, rest: Run)

  /** Whether a check delivers a signal. */
  ghost predicate Delivers(t: Task, linkage: word)
    requires t.Ok() && t.Room()
  {
    && t.ctx.cs == USER_CS
    && First(Handled(t), 0) < SIG_SIZE
    && First(Fatal(t), 0) > First(Handled(t), 0)
  }

  lemma DeliversLowest(t: Task, linkage: word)
    requires t.Ok() && t.Room() && Delivers(t, linkage)
    ensures var h := First(Handled(t), 0);
      var cleared := t.(pending := ClearRange(t.pending, 0, h + 1));
      Check(t, linkage) == Resume(Deliver(cleared, h, linkage))
  {
    hide Deliver;
    CheckExact(t, linkage);
  }

  /** The state a run ends in, if it is properly nested: its own code leaves memory
      from limit on alone, signals arrive with the stack pointer at or below limit,
      and each handler's run ends in sigreturn with the stack it was given. */
  ghost function Exec(run: Run, t: Task, limit: int, linkage: word): (r: Option<Task>)
    requires t.Ok()
    ensures r.Some? ==> r.value.Ok()
  {
    match run
    case Done => Some(t)
    case Work(t', rest) =>
      if t'.Ok() && SameAbove(t.mem, t'.mem, limit) then Exec(rest, t', limit, linkage) else None
    case Signal(handler, rest) =>
      if !(t.Room() && t.ctx.esp <= limit && Delivers(t, linkage)) then None
      else if Check(t, linkage).Halted? then None
      else
        var start := Check(t, linkage).task;
        var end := Exec(handler, start, t.ctx.esp - CONTEXT_BYTES, linkage);
        if end.None? || end.value.ctx.esp != t.ctx.esp - CONTEXT_BYTES then None
        else Exec(rest, SigReturn(end.value), limit, linkage)
  }

  /** However deeply it is interrupted, a run leaves memory from its limit on alone. */
  lemma {:induction false} RunKeepsAbove(run: Run, t: Task, limit: int, linkage: word)
    requires t.Ok()
    ensures var r := Exec(run, t, limit, linkage); r.Some? ==> SameAbove(t.mem, r.value.mem, limit)
  {
    hide WordAt;
    hide Words;
    hide Check;
    hide SigReturn;
    hide Delivers;
    match run
    case Done =>
    case Work(t', rest) =>
      if t'.Ok() {
        RunKeepsAbove(rest, t', limit, linkage);
      }
    case Signal(handler, rest) =>
      if t.Room() && t.ctx.esp <= limit && Delivers(t, linkage) {
        Delivered(t, linkage);
        var start := Check(t, linkage).task;
        var low := t.ctx.esp - CONTEXT_BYTES;
        RunKeepsAbove(handler, start, low, linkage);
        var end := Exec(handler, start, low, linkage);
        if end.Some? && end.value.ctx.esp == low {
          RunKeepsAbove(rest, SigReturn(end.value), limit, linkage);
        }
      }
  }

  /** What a check that delivers leaves, whichever signal it is. */
  lemma Delivered(t: Task, linkage: word)
    requires t.Ok() && t.Room() && Delivers(t, linkage)
    ensures Check(t, linkage).Resume?
    ensures var r := Check(t, linkage).task; var low := t.ctx.esp - CONTEXT_BYTES;
      && SameAbove(t.mem, r.mem, t.ctx.esp)
      && forall k :: 0 <= k < CONTEXT_WORDS ==> WordAt(r.mem, low + 4 * k) == Words(t.ctx)[k]
  {
    hide Check;
    hide Deliver;
    hide WordAt;
    DeliversLowest(t, linkage);
    var h := First(Handled(t), 0);
    var cleared := t.(pending := ClearRange(t.pending, 0, h + 1));
    DeliverFrame(cleared, h, linkage);
    assert cleared.ctx.esp - FRAME + 8 == t.ctx.esp - CONTEXT_BYTES;
  }

  /** Last in, first out: after a delivered signal, whatever its handler's run, nested
      deliveries and all, sigreturn restores the ten registers, the stack pointer and
      the address, and the interrupted code finds its stack as it left it; the flags
      are those the handler ended with. */
  lemma NestedReturn(t: Task, handler: Run, linkage: word)
    requires t.Ok() && t.Room() && Delivers(t, linkage) && Check(t, linkage).Resume?
    ensures var low := t.ctx.esp - CONTEXT_BYTES;
      var end := Exec(handler, Check(t, linkage).task, low, linkage);
      end.Some? && end.value.ctx.esp == low ==>
        var r := SigReturn(end.value);
        && r.ctx.regs == t.ctx.regs && r.ctx.esp == t.ctx.esp && r.ctx.addr == t.ctx.addr
        && r.ctx.eflags == end.value.ctx.eflags
        && SameAbove(t.mem, r.mem, t.ctx.esp)
  {
    hide Check;
    hide WordAt;
    hide Exec;
    Delivered(t, linkage);
    var low := t.ctx.esp - CONTEXT_BYTES;
    var start := Check(t, linkage).task;
    var end := Exec(handler, start, low, linkage);
    if end.Some? && end.value.ctx.esp == low {
      RunKeepsAbove(handler, start, low, linkage);
      SavedBack(t, start.mem, end.value);
    }
  }

  // ---- what the interrupted program sees ----

  /** What a program goes by: its registers, its place, its stack from the stack
      pointer up, and the other memory it keeps its data in. */
  datatype View = View(regs: seq<word>, addr: word, esp: word, stack: seq<byte>, data: map<nat, byte>)

  function Seen(t: Task, own: set<nat>): View {
    View(t.ctx.regs, t.ctx.addr, t.ctx.esp, if t.ctx.esp <= |t.mem| then t.mem[t.ctx.esp..] else [],
         map j | j in own && j < |t.mem| :: t.mem[j])
  }

  ghost predicate SameOn(m: seq<byte>, m': seq<byte>, own: set<nat>) {
    |m| == |m'| && forall j :: j in own && j < |m| ==> m'[j] == m[j]
  }

  /** No frame and no code of the run, nested handlers included, touches the program's
      own data. */
  ghost predicate Spares(run: Run, t: Task, limit: int, linkage: word, own: set<nat>)
    requires t.Ok() && Exec(run, t, limit, linkage).Some?
  {
    match run
    case Done => true
    case Work(t', rest) => SameOn(t.mem, t'.mem, own) && Spares(rest, t', limit, linkage, own)
    case Signal(handler, rest) =>
      var start, low := Check(t, linkage).task, t.ctx.esp - CONTEXT_BYTES;
      var end := Exec(handler, start, low, linkage);
      && MissesFrame(own, t.ctx.esp)
      && Spares(handler, start, low, linkage, own)
      && Spares(rest, SigReturn(end.value), limit, linkage, own)
  }

  /** None of the data lies where a frame is pushed. */
  ghost predicate MissesFrame(own: set<nat>, esp: int) {
    forall j :: j in own ==> !(esp - FRAME <= j < esp)
  }

  lemma {:induction false} SparedKeeps(run: Run, t: Task, limit: int, linkage: word, own: set<nat>)
    requires t.Ok() && Exec(run, t, limit, linkage).Some? && Spares(run, t, limit, linkage, own)
    ensures SameOn(t.mem, Exec(run, t, limit, linkage).value.mem, own)
  {
    hide Check;
    hide SigReturn;
    hide Delivers;
    match run
    case Done =>
    case Work(t', rest) =>
      SparedKeeps(rest, t', limit, linkage, own);
    case Signal(handler, rest) =>
      var start, low := Check(t, linkage).task, t.ctx.esp - CONTEXT_BYTES;
      DeliveryKeeps(t, linkage, own);
      SparedKeeps(handler, start, low, linkage, own);
      SparedKeeps(rest, SigReturn(Exec(handler, start, low, linkage).value), limit, linkage, own);
  }

  /** A delivery writes its frame and nothing else. */
  lemma DeliveryKeeps(t: Task, linkage: word, own: set<nat>)
    requires t.Ok() && t.Room() && Delivers(t, linkage) && Check(t, linkage).Resume? && MissesFrame(own, t.ctx.esp)
    ensures SameOn(t.mem, Check(t, linkage).task.mem, own)
  {
    hide Check;
    hide Store;
    hide StoreAll;
    hide Words;
    DeliversLowest(t, linkage);
  }

  /** Every stretch of the level's own code is one step of the program, and handlers
      spare its data. */
  ghost predicate Follows(run: Run, t: Task, limit: int, linkage: word, step: View -> View, own: set<nat>)
    requires t.Ok() && Exec(run, t, limit, linkage).Some?
  {
    match run
    case Done => true
    case Work(t', rest) =>
      Seen(t', own) == step(Seen(t, own)) && Follows(rest, t', limit, linkage, step, own)
    case Signal(handler, rest) =>
      var start, low := Check(t, linkage).task, t.ctx.esp - CONTEXT_BYTES;
      var end := Exec(handler, start, low, linkage);
      && MissesFrame(own, t.ctx.esp)
      && Spares(handler, start, low, linkage, own)
      && Follows(rest, SigReturn(end.value), limit, linkage, step, own)
  }

  function Steps(run: Run): nat {
    match run
    case Done => 0
    case Work(_, rest) => 1 + Steps(rest)
    case Signal(_, rest) => Steps(rest)
  }

  function Iterate(step: View -> View, n: nat, v: View): View {
    if n == 0 then v else Iterate(step, n - 1, step(v))
  }

  /** Signals are transparent: a program interrupted at any points, by handlers that
      may be interrupted themselves, gets to where it would have got uninterrupted,
      its registers, its stack and any data the handlers spare alike. */
  lemma {:induction false} SignalsTransparent(run: Run, t: Task, limit: int, linkage: word, step: View -> View,
                                              own: set<nat>)
    requires t.Ok() && Exec(run, t, limit, linkage).Some? && Follows(run, t, limit, linkage, step, own)
    ensures Seen(Exec(run, t, limit, linkage).value, own) == Iterate(step, Steps(run), Seen(t, own))
  {
    hide Check;
    hide SigReturn;
    hide Delivers;
    hide Seen;
    match run
    case Done =>
    case Work(t', rest) =>
      SignalsTransparent(rest, t', limit, linkage, step, own);
    case Signal(handler, rest) =>
      var start, low := Check(t, linkage).task, t.ctx.esp - CONTEXT_BYTES;
      var end := Exec(handler, start, low, linkage);
      NestedReturn(t, handler, linkage);
      DeliveryKeeps(t, linkage, own);
      SparedKeeps(handler, start, low, linkage, own);
      SeenSame(t, SigReturn(end.value), own);
      SignalsTransparent(rest, SigReturn(end.value), limit, linkage, step, own);
  }

  lemma SeenSame(t: Task, r: Task, own: set<nat>)
    requires t.Ok() && t.Room()
    requires r.ctx.regs == t.ctx.regs && r.ctx.esp == t.ctx.esp && r.ctx.addr == t.ctx.addr
    requires SameAbove(t.mem, r.mem, t.ctx.esp) && SameOn(t.mem, r.mem, own)
    ensures Seen(r, own) == Seen(t, own)
  {
    assert r.mem[r.ctx.esp..] == t.mem[t.ctx.esp..];
  }

  /** The processor's flags are saved in the frame but not restored from it: a handler
      can return with any flags it likes, and the interrupted code gets them. */
  lemma FlagsNotRestored(t: Task, flags: word, linkage: word) returns (handler: Run)
    requires t.Ok() && t.Room() && Delivers(t, linkage) && Check(t, linkage).Resume?
    ensures var low := t.ctx.esp - CONTEXT_BYTES;
      var end := Exec(handler, Check(t, linkage).task, low, linkage);
      end.Some? && end.value.ctx.esp == low && SigReturn(end.value).ctx.eflags == flags
  {
    hide Check;
    var start := Check(t, linkage).task;
    var last := start.(ctx := start.ctx.(esp := t.ctx.esp - CONTEXT_BYTES, eflags := flags));
    handler := Work(last, Done);
    assert Exec(Done, last, t.ctx.esp - CONTEXT_BYTES, linkage) == Some(last);
  }
}
