/** The system calls and the timer interrupt on the kernel's own tables, in place. */
module Kernel {
  import opened Process

  lemma EventFacts(s: Sys, a: Stacks, e: Event)
    requires Sound(s, a) && Possible(s, e)
    ensures Sound(Step(s, e), StackStep(a, e))
    ensures Step(s, e).Sized() && Step(s, e).term[Step(s, e).running] < TERM_NUM
    ensures s.running != 0 ==> s.parent[s.running] < MAX_PROC
  {
    hide Step;
    hide Possible;
    StepSound(s, a, e);
    if s.running != 0 {
      HeadIsRunning(s, a);
    }
  }

  class Kernel {
    const pidUsed: array<bool>
    const parent: array<nat>
    const termInd: array<nat>
    /** terms[].cur_pid */
    const curPid: array<nat>
    /** open_files, eight per process */
    const openFiles: array<Desc>
    const rtcFiles: array<int>
    var running: nat
    var page: nat
    var esp0: nat
    var rotor: nat

    ghost predicate Wired()
      reads this
    {
      && pidUsed.Length == MAX_PROC && parent.Length == MAX_PROC && termInd.Length == MAX_PROC
      && curPid.Length == TERM_NUM && openFiles.Length == MAX_PROC * MAX_FILES && rtcFiles.Length == MAX_PROC
      && parent != termInd && parent != curPid && termInd != curPid
      && rtcFiles as object !in {parent, termInd, curPid}
    }

    ghost function Tables(): set<object>
    {
      {pidUsed as object, parent, termInd, curPid, openFiles, rtcFiles}
    }

    ghost function Now(): Sys
      reads this, Tables()
    {
      Sys(pidUsed[..], parent[..], termInd[..], curPid[..], running, page, esp0, rotor, openFiles[..], rtcFiles[..])
    }

    ghost predicate Valid()
      reads this, Tables()
    {
      Wired() && Now().Sized() && termInd[running] < TERM_NUM
    }

    constructor ()
      ensures Valid() && Booted(Now()) && fresh(Tables())
    {
      pidUsed := new bool[MAX_PROC](_ => false);
      parent := new nat[MAX_PROC](_ => 0);
      termInd := new nat[MAX_PROC](_ => 0);
      curPid := new nat[TERM_NUM](_ => 0);
      openFiles := new Desc[MAX_PROC * MAX_FILES](_ => Desc(false, Other));
      rtcFiles := new int[MAX_PROC](_ => -1);
      running, page, esp0, rotor := 0, 0, 0, 0;
    }

    /** One event, on tables that refine stacks. */
    method Do(e: Event, ghost a: Stacks)
      requires Valid() && Sound(Now(), a) && Possible(Now(), e)
      modifies this, Tables()
      ensures Valid() && Now() == Step(old(Now()), e) && Sound(Now(), StackStep(a, e))
    {
      hide Process.Execute;
      hide Process.Halt;
      hide Process.Tick;
      hide Process.Open;
      hide Process.Close;
      hide Sound;
      hide StackStep;
      EventFacts(Now(), a, e);
      match e {
        case DoExecute(loads) =>
          var _ := Execute(loads);
        case DoHalt =>
          Halt();
        case DoTick =>
          Tick();
        case DoOpen(kind) =>
          var _ := Open(kind);
        case DoClose(fd) =>
          var _ := Close(fd);
      }
    }

    /** Any run from boot, in place: the tables go through its states, which refine
        the three stacks. */
    method DoAll(events: seq<Event>, ghost trace: seq<Sys>)
      requires Valid() && Booted(Now()) && IsRun(trace, events) && trace[0] == Now()
      modifies this, Tables()
      ensures Valid() && Now() == trace[|events|]
      ensures Sound(Now(), StackRun(NO_PROCESSES, events))
    {
      hide Sound;
      hide Step;
      hide Booted;
      RunsRefineStacks(trace, events, 0);
      for i := 0 to |events|
        invariant Valid() && Now() == trace[i]
        invariant Sound(Now(), StackRun(NO_PROCESSES, events[..i]))
      {
        assert events[..i + 1][..i] == events[..i];
        Do(events[i], StackRun(NO_PROCESSES, events[..i]));
      }
      assert events[..|events|] == events;
    }

    method FindPid() returns (pid: nat)
      requires Valid()
      ensures pid == FreePid(pidUsed[..], 1)
    {
      pid := 1;
      while pid < MAX_PROC && pidUsed[pid]
        invariant 1 <= pid <= MAX_PROC && FreePid(pidUsed[..], pid) == FreePid(pidUsed[..], 1)
      {
        pid := pid + 1;
      }
    }

    /** The set-up of a new process's PCB and the switch to it; term is -1 for a
        process executed by another. */
    method SetUp(pid: nat, term: int)
      requires Valid() && pid < MAX_PROC && -1 <= term < TERM_NUM && (term == -1 ==> running != 0)
      modifies this, Tables()
      ensures Valid()
      ensures Now() == Launch(old(Now()), pid, term != -1, if term != -1 then term else old(termInd[running]))
    {
      hide FreshDesc;
      page := pid;
      FreshFiles(pid);
      var t := if term != -1 then term else termInd[running];
      parent[pid] := if running != 0 && term == -1 then running else 0;
      termInd[pid] := t;
      curPid[t] := pid;
      esp0 := pid;
      pidUsed[pid] := true;
      running := pid;
    }

    /** Standard input and output, and no other open file. */
    method FreshFiles(pid: nat)
      requires openFiles.Length == MAX_PROC * MAX_FILES && pid < MAX_PROC
      modifies openFiles
      ensures openFiles[..] == FreshDesc(old(openFiles[..]), pid)
    {
      openFiles[8 * pid] := Desc(true, TermFile);
      openFiles[8 * pid + 1] := Desc(true, TermFile);
      for i := 2 to MAX_FILES
        invariant forall x :: 0 <= x < openFiles.Length ==>
          openFiles[x] == if x < 8 * pid + i then FreshDesc(old(openFiles[..]), pid)[x] else old(openFiles[x])
      {
        openFiles[8 * pid + i] := openFiles[8 * pid + i].(used := false);
      }
      assert openFiles[..] == FreshDesc(old(openFiles[..]), pid);
    }

    /** execute by the running process; -1 leaves everything as it was. */
    method Execute(loads: bool) returns (pid: int)
      requires Valid() && running != 0
      modifies this, Tables()
      ensures Valid() && Now() == Process.Execute(old(Now()), loads)
      ensures pid == if loads && FreePid(old(pidUsed[..]), 1) < MAX_PROC then FreePid(old(pidUsed[..]), 1) else -1
    {
      var free := FindPid();
      if free == MAX_PROC {
        return -1;
      }
      if !loads {
        return -1;
      }
      SetUp(free, -1);
      return free;
    }

    /** rtc_close as far as the slots go. */
    method Unregister(x: int)
      requires Wired()
      modifies rtcFiles
      ensures rtcFiles[..] == Drop(old(rtcFiles[..]), x)
    {
      for i := 0 to MAX_PROC
        invariant forall k :: 0 <= k < MAX_PROC ==>
          rtcFiles[k] == if k < i then Drop(old(rtcFiles[..]), x)[k] else old(rtcFiles[k])
      {
        if rtcFiles[i] == x {
          rtcFiles[i] := -1;
        }
      }
    }

    /** The loop of halt that closes the open files of p. */
    method CloseAll(p: nat)
      requires Wired() && p < MAX_PROC
      modifies rtcFiles
      ensures rtcFiles[..] == DropProcess(openFiles[..], old(rtcFiles[..]), p)
    {
      for fd := 2 to MAX_FILES
        invariant forall k :: 0 <= k < MAX_PROC ==>
          rtcFiles[k] == if old(rtcFiles[k]) < 8 * p + fd then DropProcess(openFiles[..], old(rtcFiles[..]), p)[k] else old(rtcFiles[k])
      {
        var x := 8 * p + fd;
        if openFiles[x].used {
          if openFiles[x].kind == RtcFile {
            Unregister(x);
          }
        }
      }
    }

    method Halt()
      requires Valid() && parent[running] < MAX_PROC
      modifies this, Tables()
      ensures Wired() && Now() == Process.Halt(old(Now()))
    {
      var up := parent[running];
      if up == 0 {
        return;
      }
      CloseAll(running);
      page := up;
      esp0 := up;
      pidUsed[running] := false;
      curPid[termInd[running]] := up;
      running := up;
    }

    /** pit_isr; the source leaves the next pid unset when a root shell is due and
        cannot be started. */
    method Tick()
      requires Valid()
      requires curPid[(rotor + 1) % TERM_NUM] == 0 ==> FreePid(pidUsed[..], 1) < MAX_PROC
      modifies this, Tables()
      ensures Wired() && Now() == Process.Tick(old(Now()))
    {
      rotor := (rotor + 1) % TERM_NUM;
      if curPid[rotor] == 0 {
        var pid := FindPid();
        SetUp(pid, rotor);
        return;
      }
      var next := curPid[rotor];
      if next == running {
        return;
      }
      page := next;
      esp0 := next;
      running := next;
    }

    method Open(kind: Kind) returns (fd: int)
      requires Valid() && kind != TermFile
      requires kind == RtcFile ==> FreeSlot(rtcFiles[..], 0) < MAX_PROC
      modifies openFiles, rtcFiles
      ensures Valid() && Now() == Process.Open(old(Now()), kind)
      ensures fd == var f := FreeFd(old(openFiles[..]), running, 2); if f < MAX_FILES then f else -1
    {
      var i := 2;
      while i < MAX_FILES && openFiles[8 * running + i].used
        invariant 2 <= i <= MAX_FILES
        invariant FreeFd(openFiles[..], running, i) == FreeFd(openFiles[..], running, 2)
      {
        i := i + 1;
      }
      if i == MAX_FILES {
        return -1;
      }
      if kind == RtcFile {
        Register(8 * running + i);
      }
      openFiles[8 * running + i] := Desc(true, kind);
      return i;
    }

    /** The registration in rtc_open. */
    method Register(x: nat)
      requires Wired() && FreeSlot(rtcFiles[..], 0) < MAX_PROC
      modifies rtcFiles
      ensures rtcFiles[..] == old(rtcFiles[..])[FreeSlot(old(rtcFiles[..]), 0) := x]
    {
      var i := 0;
      while rtcFiles[i] != -1
        invariant 0 <= i < MAX_PROC && FreeSlot(rtcFiles[..], i) == FreeSlot(rtcFiles[..], 0)
        invariant rtcFiles[..] == old(rtcFiles[..])
        decreases MAX_PROC - i
      {
        i := i + 1;
      }
      rtcFiles[i] := x;
    }

    method Close(fd: int) returns (result: int)
      requires Valid()
      modifies openFiles, rtcFiles
      ensures Valid() && Now() == Process.Close(old(Now()), fd)
      ensures result == 0 <==> Now() != old(Now())
      ensures result == 0 || result == -1
    {
      if fd < 0 || fd >= MAX_FILES {
        return -1;
      }
      var x := 8 * running + fd;
      if !openFiles[x].used {
        return -1;
      }
      if openFiles[x].kind == TermFile {
        return -1;
      }
      if openFiles[x].kind == RtcFile {
        Unregister(x);
      }
      openFiles[x] := openFiles[x].(used := false);
      assert !Now().desc[x].used;
      return 0;
    }
  }
}
