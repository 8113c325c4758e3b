/** A program that executes another is resumed by exactly that one's halt, whatever
    runs in between, and finds its terminal's processes as it left them. */
module Calls {
  import opened Process

  /** The part of a stack below pid. */
  function Below(stack: seq<nat>, pid: nat): seq<nat> {
    if stack == [] then [] else if stack[0] == pid then stack[1..] else Below(stack[1..], pid)
  }

  /** pid is on terminal r's stack only, with under below it. */
  ghost predicate Rests(a: Stacks, r: nat, pid: nat, under: seq<nat>) {
    && |a.of| == TERM_NUM && a.rotor < TERM_NUM && r < TERM_NUM
    && pid in a.of[r] && Below(a.of[r], pid) == under
    && forall t :: 0 <= t < TERM_NUM && t != r ==> pid !in a.of[t]
  }

  lemma {:induction false} UnstackedIsOff(a: Stacks, n: nat)
    requires n <= MAX_PROC
    ensures Unstacked(a, n) < MAX_PROC ==> !OnStack(a, Unstacked(a, n))
    decreases MAX_PROC - n
  {
    if n < MAX_PROC {
      UnstackedIsOff(a, n + 1);
    }
  }

  lemma PushRests(a: Stacks, r: nat, pid: nat, under: seq<nat>, q: nat)
    requires Rests(a, r, pid, under) && q != pid
    ensures Rests(Push(a, q), r, pid, under)
  {
    assert ([q] + a.of[r])[1..] == a.of[r];
  }

  lemma PopRests(a: Stacks, r: nat, pid: nat, under: seq<nat>)
    requires Rests(a, r, pid, under) && pid !in under && OnStack(Pop(a), pid)
    ensures Rests(Pop(a), r, pid, under)
  {
    var t :| 0 <= t < TERM_NUM && pid in Pop(a).of[t];
    assert t == r;
  }

  /** A step that does not take pid off the stacks leaves what is below it alone. */
  lemma StepRests(a: Stacks, e: Event, r: nat, pid: nat, under: seq<nat>)
    requires Rests(a, r, pid, under) && pid !in under && pid < MAX_PROC
    requires OnStack(StackStep(a, e), pid)
    ensures Rests(StackStep(a, e), r, pid, under)
  {
    UnstackedIsOff(a, 1);
    assert OnStack(a, pid);
    hide Unstacked;
    hide OnStack;
    hide Below;
    match e
    case DoExecute(loads) =>
      if loads && Unstacked(a, 1) < MAX_PROC {
        PushRests(a, r, pid, under, Unstacked(a, 1));
      }
    case DoHalt => PopRests(a, r, pid, under);
    case DoTick =>
      if a.of[Turn(a).rotor] == [] {
        PushRests(Turn(a), r, pid, under, Unstacked(a, 1));
      }
    case DoOpen(_) =>
    case DoClose(_) =>
  }

  ghost function StacksAt(events: seq<Event>, n: nat): (a: Stacks)
    requires n <= |events|
    ensures |a.of| == TERM_NUM && a.rotor < TERM_NUM
  {
    StackRun(NO_PROCESSES, events[..n])
  }

  lemma StacksNext(events: seq<Event>, n: nat)
    requires n < |events|
    ensures StacksAt(events, n + 1) == StackStep(StacksAt(events, n), events[n])
  {
    assert events[..n + 1][..n] == events[..n];
  }

  /** Event k started a program, which got this pid and has been live ever since. */
  ghost predicate Started(trace: seq<Sys>, events: seq<Event>, k: nat, n: nat, pid: nat) {
    && IsRun(trace, events) && Booted(trace[0]) && k < n < |trace|
    && events[k] == DoExecute(true) && pid == FreePid(trace[k].used, 1) < MAX_PROC
    && forall i :: k < i <= n ==> trace[i].used[pid]
  }

  /** Through every state since, the program rests on the stack that called it. */
  lemma {:induction false} CalleeRests(trace: seq<Sys>, events: seq<Event>, k: nat, n: nat, pid: nat)
    requires Started(trace, events, k, n, pid)
    ensures Rests(StacksAt(events, n), trace[k].rotor, pid, StacksAt(events, k).of[trace[k].rotor])
    ensures pid !in StacksAt(events, k).of[trace[k].rotor]
    decreases n
  {
    hide StackStep;
    hide Rests;
    hide StacksAt;
    hide Booted;
    hide Step;
    hide Possible;
    hide OnStack;
    if n == k + 1 {
      CalleePushed(trace, events, k, pid);
    } else {
      CalleeRests(trace, events, k, n - 1, pid);
      StacksNext(events, n - 1);
      LiveIsStacked(trace, events, n, pid);
      StepRests(StacksAt(events, n - 1), events[n - 1], trace[k].rotor, pid, StacksAt(events, k).of[trace[k].rotor]);
    }
  }

  lemma LiveIsStacked(trace: seq<Sys>, events: seq<Event>, n: nat, pid: nat)
    requires IsRun(trace, events) && Booted(trace[0]) && n < |trace|
    requires pid < MAX_PROC && trace[n].used[pid]
    ensures OnStack(StacksAt(events, n), pid)
  {
    hide Registered;
    hide StdStreams;
    hide Scheduled;
    RunsRefineStacks(trace, events, n);
    assert pid in StacksAt(events, n).of[trace[n].term[pid]];
  }

  lemma CalleePushed(trace: seq<Sys>, events: seq<Event>, k: nat, pid: nat)
    requires Started(trace, events, k, k + 1, pid)
    ensures Rests(StacksAt(events, k + 1), trace[k].rotor, pid, StacksAt(events, k).of[trace[k].rotor])
    ensures pid !in StacksAt(events, k).of[trace[k].rotor]
  {
    hide Registered;
    hide StdStreams;
    var s, a := trace[k], StacksAt(events, k);
    RunsRefineStacks(trace, events, k);
    StacksNext(events, k);
    UnstackedIsFree(s, a, 1);
    hide Unstacked;
    forall t | 0 <= t < TERM_NUM
      ensures pid !in a.of[t]
    {
      assert !s.used[pid];
    }
    hide Refines;
    assert StacksAt(events, k + 1) == Push(a, pid);
    assert ([pid] + a.of[s.rotor])[1..] == a.of[s.rotor];
  }

  /** When the program halts, the caller runs again and its terminal's stack is what
      it was at the execute. */
  lemma HaltReturns(trace: seq<Sys>, events: seq<Event>, k: nat, n: nat, pid: nat)
    requires Started(trace, events, k, n, pid) && n < |events|
    requires events[n] == DoHalt && trace[n].running == pid
    ensures trace[n].rotor == trace[k].rotor
    ensures StacksAt(events, n + 1).of[trace[k].rotor] == StacksAt(events, k).of[trace[k].rotor]
    ensures trace[n + 1].running == trace[k].running != 0
  {
    hide Registered;
    hide StdStreams;
    var r := trace[k].rotor;
    var under := StacksAt(events, k).of[r];
    RunsRefineStacks(trace, events, k);
    RunsRefineStacks(trace, events, n);
    CalleeRests(trace, events, k, n, pid);
    StacksNext(events, n);
    hide StacksAt;
    assert Possible(trace[k], events[k]);
    HeadIsRunning(trace[k], StacksAt(events, k));
    HeadIsRunning(trace[n], StacksAt(events, n));
    HaltRefines(trace[n], StacksAt(events, n));
    hide Refines;
    hide Scheduled;
    var b := StacksAt(events, n);
    assert b.rotor == trace[n].rotor == r;
    assert under == b.of[r][1..];
    assert trace[n + 1] == Halt(trace[n]);
    assert b.of[r][1] == under[0];
  }
}
