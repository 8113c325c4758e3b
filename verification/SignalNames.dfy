/** The five signals by name: what each does to a process that is about to return to its
    program. */
module SignalNames {
  import opened Basics
  import opened Chars
  import opened Signals

  datatype Name = DivideByZero | SegmentFault | KeyboardInterrupt | Alarm | User

  /** Signal numbers. */
  function Number(s: Name): (i: nat)
    ensures i < 5
  {
    match s
    case DivideByZero => 0
    case SegmentFault => 1
    case KeyboardInterrupt => 2
    case Alarm => 3
    case User => 4
  }

  /** The four bytes at a hold v, the lowest first. */
  ghost predicate Stored(mem: seq<byte>, a: nat, v: word)
    requires a + 4 <= |mem|
  {
    v as int == mem[a] as int + 0x100 * mem[a + 1] as int + 0x1_0000 * mem[a + 2] as int + 0x100_0000 * mem[a + 3] as int
  }

  lemma WordStored(mem: seq<byte>, a: nat)
    requires a + 4 <= |mem|
    ensures Stored(mem, a, WordAt(mem, a))
  {
  }

  /** Exactly this signal is pending. */
  ghost predicate Only(t: Task, s: Name)
    requires t.Ok()
  {
    t.ctx.cs == 0x23 && t.pending == seq(5, i => i == Number(s))
  }

  /** A process that is about to return to its program with one signal pending. With a
      handler, the handler is entered, with the signal's number as its argument and the
      interrupted context behind it. Without one, a division by zero, a segment fault or
      the interrupt key ends the process, or, when it has no parent, starts its program
      again at the entry word of the image at 0x8048000, on an empty stack; an alarm and
      the user's signal do nothing. In each case the signal is no longer pending. */
  lemma OneSignal(t: Task, s: Name, linkage: word)
    requires t.Ok() && t.Room() && Only(t, s)
    ensures var out := Check(t, linkage);
      && (t.handlers[Number(s)] != 0 ==>
            && out.Resume? && out.task.pending == seq(5, i => false)
            && out.task.ctx.addr == t.handlers[Number(s)] && out.task.ctx.esp == t.ctx.esp - 76
            && out.task.ctx.regs == t.ctx.regs
            && Stored(out.task.mem, t.ctx.esp - 76, linkage)
            && Stored(out.task.mem, t.ctx.esp - 72, Number(s)))
      && (t.handlers[Number(s)] == 0 ==>
            match s
            case DivideByZero => Ended(t, out)
            case SegmentFault => Ended(t, out)
            case KeyboardInterrupt => Ended(t, out)
            case Alarm => Ignored(t, out)
            case User => Ignored(t, out))
  {
    hide Deliver;
    hide Restart;
    hide WordAt;
    hide Stored;
    CheckExact(t, linkage);
    hide Check;
    var i := Number(s);
    var cleared := t.(pending := seq(5, k => false));
    FirstOnly(Handled(t), i);
    FirstOnly(Fatal(t), i);
    assert ClearRange(t.pending, 0, i + 1) == seq(5, k => false);
    assert ClearRange(t.pending, 0, 6) == seq(5, k => false);
    if t.handlers[i] != 0 {
      DeliverFrame(cleared, i, linkage);
      DeliverKeepsPending(cleared, i, linkage);
      WordStored(Deliver(cleared, i, linkage).mem, t.ctx.esp - 76);
      WordStored(Deliver(cleared, i, linkage).mem, t.ctx.esp - 72);
    } else if i < 3 {
      RestartIs(t);
      WordStored(t.mem, 0x8048018);
    }
  }

  ghost predicate Ended(t: Task, out: Outcome)
    requires t.Ok()
  {
    if t.root then
      && out.Resume? && out.task.pending == seq(5, i => false)
      && Stored(t.mem, 0x8048018, out.task.ctx.addr)
      && out.task.ctx == t.ctx.(addr := out.task.ctx.addr, esp := 0x8400000)
      && out.task.mem == t.mem && out.task.handlers == t.handlers
    else out.Halted?
  }

  ghost predicate Ignored(t: Task, out: Outcome)
    requires t.Ok()
  {
    out == Resume(t.(pending := seq(5, i => false)))
  }

  lemma {:induction false} FirstOnly(b: seq<bool>, i: nat)
    requires |b| == 5 && i < 5 && forall k :: 0 <= k < 5 && k != i ==> !b[k]
    ensures First(b, 0) == if b[i] then i else 5
  {
  }

  lemma DeliverKeepsPending(t: Task, i: nat, linkage: word)
    requires t.Ok() && t.Room() && i < 5
    ensures Deliver(t, i, linkage).pending == t.pending
  {
  }

  lemma RestartIs(t: Task)
    requires t.Ok()
    ensures Restart(t).ctx == t.ctx.(addr := WordAt(t.mem, 0x8048018), esp := 0x8400000)
    ensures Restart(t) == t.(ctx := Restart(t).ctx)
  {
  }

  /** Where a handler finds the context it interrupted. */
  lemma FrameFields(t: Task, s: Name, linkage: word)
    requires t.Ok() && t.Room()
    ensures var mem := Deliver(t, Number(s), linkage).mem; var esp := t.ctx.esp;
      && Stored(mem, esp - 76, linkage) && Stored(mem, esp - 72, Number(s))
      && (forall k :: 0 <= k < 10 ==> Stored(mem, esp - 68 + 4 * k, t.ctx.regs[k]))
      && Stored(mem, esp - 28, t.ctx.irqNum) && Stored(mem, esp - 24, t.ctx.error)
      && Stored(mem, esp - 20, t.ctx.addr) && Stored(mem, esp - 16, t.ctx.cs)
      && Stored(mem, esp - 12, t.ctx.eflags) && Stored(mem, esp - 8, t.ctx.esp) && Stored(mem, esp - 4, t.ctx.ss)
  {
    hide WordAt;
    hide Stored;
    hide Deliver;
    DeliverFrame(t, Number(s), linkage);
    var mem := Deliver(t, Number(s), linkage).mem;
    var a := t.ctx.esp - 76;
    WordStored(mem, a);
    WordStored(mem, a + 4);
    forall k | 0 <= k < 17
      ensures Stored(mem, a + 8 + 4 * k, Words(t.ctx)[k])
    {
      WordStored(mem, a + 8 + 4 * k);
    }
    assert Stored(mem, a + 8 + 4 * 10, Words(t.ctx)[10]) && Stored(mem, a + 8 + 4 * 11, Words(t.ctx)[11]);
    assert Stored(mem, a + 8 + 4 * 12, Words(t.ctx)[12]) && Stored(mem, a + 8 + 4 * 13, Words(t.ctx)[13]);
    assert Stored(mem, a + 8 + 4 * 14, Words(t.ctx)[14]) && Stored(mem, a + 8 + 4 * 15, Words(t.ctx)[15]);
    assert Stored(mem, a + 8 + 4 * 16, Words(t.ctx)[16]);
    forall k | 0 <= k < 10
      ensures Stored(mem, t.ctx.esp - 68 + 4 * k, t.ctx.regs[k])
    {
      assert Stored(mem, a + 8 + 4 * k, Words(t.ctx)[k]);
    }
  }

  /** sigreturn takes ten registers, address and stack pointer from the saved context,
      also where a handler has changed it, and nothing else. */
  lemma ReturnReads(t: Task)
    requires t.Ok() && t.ctx.esp + 68 <= 0x8400000
    ensures var r := SigReturn(t); var a := t.ctx.esp;
      && (forall k :: 0 <= k < 10 ==> Stored(t.mem, a + 4 * k, r.ctx.regs[k]))
      && Stored(t.mem, a + 48, r.ctx.addr) && Stored(t.mem, a + 60, r.ctx.esp)
      && r == t.(ctx := t.ctx.(regs := r.ctx.regs, addr := r.ctx.addr, esp := r.ctx.esp))
  {
    hide WordAt;
    hide Stored;
    var a := t.ctx.esp;
    forall k | 0 <= k < 10
      ensures Stored(t.mem, a + 4 * k, SigReturn(t).ctx.regs[k])
    {
      WordStored(t.mem, a + 4 * k);
    }
    WordStored(t.mem, a + 48);
    WordStored(t.mem, a + 60);
  }

  /** Signals are not looked at on the way back into the kernel. */
  lemma NotFromKernel(t: Task, linkage: word)
    requires t.Ok() && t.Room() && t.ctx.cs != 0x23
    ensures Check(t, linkage) == Resume(t)
  {
  }
}
