/** signals.c and sigreturn as they change a process in place. */
module Delivery {
  import opened Chars
  import opened Signals

  class UserTask {
    const regs: array<word>
    var irqNum: word
    var error: word
    var addr: word
    var cs: word
    var eflags: word
    var esp: word
    var ss: word
    const mem: array<byte>
    const pending: array<bool>
    const handlers: array<word>
    const root: bool

    ghost predicate Valid()
      reads this
    {
      && regs.Length == 10 && mem.Length == PAGE_END
      && pending.Length == handlers.Length == SIG_SIZE
      && regs != handlers
    }

    ghost function Now(): (t: Task)
      reads this, regs, mem, pending, handlers
      requires Valid()
      ensures t.Ok()
    {
      Task(Context(regs[..], irqNum, error, addr, cs, eflags, esp, ss), mem[..], pending[..], handlers[..], root)
    }

    constructor (regs: array<word>, mem: array<byte>, handlers: array<word>, cs: word, addr: word, esp: word,
                 root: bool)
      requires regs.Length == 10 && mem.Length == PAGE_END && handlers.Length == SIG_SIZE && regs != handlers
      ensures Valid() && fresh(pending)
      ensures this.regs == regs && this.mem == mem && this.handlers == handlers
      ensures Now().pending == seq(SIG_SIZE, i => false) && Now().root == root
      ensures this.cs == cs && this.addr == addr && this.esp == esp
    {
      this.regs, this.mem, this.handlers, this.root := regs, mem, handlers, root;
      this.cs, this.addr, this.esp := cs, addr, esp;
      irqNum, error, eflags, ss := 0, 0, 0, 0;
      pending := new bool[SIG_SIZE](i => false);
    }

    method StoreWord(a: nat, v: word)
      requires Valid() && a + 4 <= PAGE_END
      modifies mem
      ensures mem[..] == Store(old(mem[..]), a, v)
    {
      var q := v / 256;
      var r := q / 256;
      mem[a], mem[a + 1], mem[a + 2], mem[a + 3] := v % 256, q % 256, r % 256, r / 256;
      assert mem[a..a + 4] == Bytes(v);
      assert mem[..] == mem[..a] + mem[a..a + 4] + mem[a + 4..];
    }

    method LoadWord(a: nat) returns (v: word)
      requires Valid() && a + 4 <= PAGE_END
      ensures v == WordAt(mem[..], a)
    {
      v := FromBytes(mem[a], mem[a + 1], mem[a + 2], mem[a + 3]);
    }

    /** *saved_context = *context */
    method SaveContext(a: nat)
      requires Valid() && a + CONTEXT_BYTES <= PAGE_END
      modifies mem
      ensures mem[..] == StoreAll(old(mem[..]), a, Words(old(Now()).ctx))
    {
      hide Store;
      hide Words;
      var ws := Words(Context(regs[..], irqNum, error, addr, cs, eflags, esp, ss));
      for k := 0 to CONTEXT_WORDS
        invariant StoreAll(mem[..], a + 4 * k, ws[k..]) == StoreAll(old(mem[..]), a, ws)
      {
        StoreWord(a + 4 * k, ws[k]);
        assert ws[k..][1..] == ws[k + 1..];
      }
    }

    /** Pushes the frame and points the context at the handler. */
    method PushFrame(i: nat, linkage: word)
      requires Valid() && i < SIG_SIZE && Now().Room()
      modifies this, mem
      ensures Valid() && Now() == Deliver(old(Now()), i, linkage)
    {
      hide Store;
      hide StoreAll;
      var userEsp := esp - CONTEXT_BYTES;
      SaveContext(userEsp);
      userEsp := userEsp - 4;
      StoreWord(userEsp, i);
      userEsp := userEsp - 4;
      StoreWord(userEsp, linkage);
      esp := userEsp;
      addr := handlers[i];
    }

    /** check_signals; halted says that the process is gone. */
    method CheckSignals(linkage: word) returns (halted: bool)
      requires Valid() && Now().Room()
      modifies this, mem, pending
      ensures Valid()
      ensures if halted then Check(old(Now()), linkage).Halted? else Check(old(Now()), linkage) == Resume(Now())
    {
      hide Deliver;
      hide Restart;
      if cs != USER_CS {
        return false;
      }
      for i := 0 to SIG_SIZE
        invariant Valid() && Now().Room()
        invariant CheckFrom(Now(), i, linkage) == Check(old(Now()), linkage)
      {
        if pending[i] {
          ClearBit(i);
          if handlers[i] != 0 {
            PushFrame(i, linkage);
            return false;
          }
          if i < 3 {
            if !root {
              return true;
            }
            StartAgain();
          }
        }
      }
      return false;
    }

    method ClearBit(i: nat)
      requires Valid() && i < SIG_SIZE
      modifies pending
      ensures Valid() && Now() == Clear(old(Now()), i)
    {
      pending[i] := false;
    }

    method StartAgain()
      requires Valid()
      modifies this
      ensures Valid() && Now() == Restart(old(Now()))
    {
      hide WordAt;
      addr := LoadWord(ENTRY_FIELD);
      esp := PAGE_END;
    }

    /** _syscall_sigreturn */
    method Return()
      requires Valid() && esp + CONTEXT_BYTES <= PAGE_END
      modifies this, regs
      ensures Valid() && Now() == SigReturn(old(Now()))
    {
      hide WordAt;
      var saved := esp;
      esp := LoadWord(saved + 60);
      addr := LoadWord(saved + 48);
      for i := 0 to 10
        invariant Valid() && mem[..] == old(mem[..])
        invariant Now() == old(Now()).(ctx := Now().ctx)
        invariant esp == WordAt(mem[..], saved + 60) && addr == WordAt(mem[..], saved + 48)
        invariant irqNum == old(irqNum) && error == old(error) && cs == old(cs)
        invariant eflags == old(eflags) && ss == old(ss)
        invariant forall k :: 0 <= k < i ==> regs[k] == WordAt(mem[..], saved + 4 * k)
      {
        regs[i] := LoadWord(saved + 4 * i);
      }
    }
  }
}
