/** The process table as execute, halt, open, close and the timer tick change it:
    it refines three stacks of processes and a rotor, and the RTC registrations
    agree with the open descriptors. */
module Process {

  const MAX_PROC := 10
  const TERM_NUM := 3
  const MAX_FILES := 8

  datatype Kind = TermFile | RtcFile | Other

  datatype Desc = Desc(used: bool, kind: Kind)

  /** pids index used, parent and term; parent 0 is the null pointer, and pid 0 is
      the boot context, which is never in use. Descriptor fd of process p is
      desc[8 * p + fd]; rtc holds such indices, or -1 for an empty slot. */
  datatype Sys = Sys(used: seq<bool>, parent: seq<nat>, term: seq<nat>, cur: seq<nat>,
                     running: nat, page: nat, esp0: nat, rotor: nat,
                     desc: seq<Desc>, rtc: seq<int>)
  {
    ghost predicate Sized() {
      && |used| == MAX_PROC && |parent| == MAX_PROC && |term| == MAX_PROC && |cur| == TERM_NUM
      && running < MAX_PROC && rotor < TERM_NUM
      && (forall t :: 0 <= t < TERM_NUM ==> cur[t] < MAX_PROC)
      && |desc| == MAX_PROC * MAX_FILES && |rtc| == MAX_PROC
    }
  }

  // ---- what the code does ----

  /** The first free pid from n on, or MAX_PROC. */
  function FreePid(used: seq<bool>, n: nat): (pid: nat)
    requires n <= |used| == MAX_PROC
    ensures n <= pid <= MAX_PROC
    ensures pid < MAX_PROC ==> !used[pid]
    ensures forall q :: n <= q < pid ==> used[q]
    decreases MAX_PROC - n
  {
    if n == MAX_PROC || !used[n] then n else FreePid(used, n + 1)
  }

  /** The descriptors of a new process: stdin, stdout, and nothing else. */
  function FreshDesc(desc: seq<Desc>, pid: nat): (r: seq<Desc>)
    requires |desc| == MAX_PROC * MAX_FILES && pid < MAX_PROC
    ensures |r| == |desc|
  {
    seq(|desc|, x requires 0 <= x < |desc| =>
      if x == 8 * pid || x == 8 * pid + 1 then Desc(true, TermFile)
      else if 8 * pid <= x < 8 * pid + 8 then desc[x].(used := false)
      else desc[x])
  }

  /** The new process replaces the running one; onTerm is the terminal of a root
      shell, and None for a process executed by another. */
  function Launch(s: Sys, pid: nat, root: bool, t: nat): Sys
    requires s.Sized() && pid < MAX_PROC && t < TERM_NUM
  {
    s.(used := s.used[pid := true],
       parent := s.parent[pid := if root then 0 else s.running],
       term := s.term[pid := t],
       cur := s.cur[t := pid],
       running := pid, page := pid, esp0 := pid,
       desc := FreshDesc(s.desc, pid))
  }

  /** execute by the running process; loads says whether the file is a program. */
  function Execute(s: Sys, loads: bool): Sys
    requires s.Sized() && s.term[s.running] < TERM_NUM
  {
    var pid := FreePid(s.used, 1);
    if pid == MAX_PROC || !loads then s else Launch(s, pid, false, s.term[s.running])
  }

  /** The slots after the open files of pid, from descriptor 2 on, are closed. */
  function DropProcess(desc: seq<Desc>, rtc: seq<int>, pid: nat): (r: seq<int>)
    requires |desc| == MAX_PROC * MAX_FILES && pid < MAX_PROC
    ensures |r| == |rtc|
  {
    seq(|rtc|, i requires 0 <= i < |rtc| =>
      if 8 * pid + 2 <= rtc[i] < 8 * pid + 8 && desc[rtc[i]] == Desc(true, RtcFile) then -1 else rtc[i])
  }

  /** A root shell starts over; any other process gives way to its parent. */
  function Halt(s: Sys): Sys
    requires s.Sized() && s.term[s.running] < TERM_NUM
  {
    var p := s.running;
    var up := s.parent[p];
    if up == 0 then s
    else s.(used := s.used[p := false],
            cur := s.cur[s.term[p] := up],
            running := up, page := up, esp0 := up,
            rtc := DropProcess(s.desc, s.rtc, p))
  }

  function Tick(s: Sys): Sys
    requires s.Sized()
  {
    var next := s.(rotor := (s.rotor + 1) % TERM_NUM);
    var pid := s.cur[next.rotor];
    if pid == 0 then
      var free := FreePid(s.used, 1);
      if free < MAX_PROC then Launch(next, free, true, next.rotor) else next
    else if pid == s.running then next
    else next.(running := pid, page := pid, esp0 := pid)
  }

  /** The first empty slot from i on, or the length. */
  function FreeSlot(rtc: seq<int>, i: nat): (r: nat)
    requires i <= |rtc|
    ensures i <= r <= |rtc| && (r < |rtc| ==> rtc[r] == -1)
    decreases |rtc| - i
  {
    if i == |rtc| || rtc[i] == -1 then i else FreeSlot(rtc, i + 1)
  }

  /** The first unused descriptor of pid from fd on, or MAX_FILES. */
  function FreeFd(desc: seq<Desc>, pid: nat, fd: nat): (r: nat)
    requires |desc| == MAX_PROC * MAX_FILES && pid < MAX_PROC && fd <= MAX_FILES
    ensures fd <= r <= MAX_FILES && (r < MAX_FILES ==> !desc[8 * pid + r].used)
    decreases MAX_FILES - fd
  {
    if fd == MAX_FILES || !desc[8 * pid + fd].used then fd else FreeFd(desc, pid, fd + 1)
  }

  function Open(s: Sys, kind: Kind): Sys
    requires s.Sized()
  {
    var fd := FreeFd(s.desc, s.running, 2);
    if fd == MAX_FILES then s
    else
      var x := 8 * s.running + fd;
      var slot := FreeSlot(s.rtc, 0);
      s.(desc := s.desc[x := Desc(true, kind)],
         rtc := if kind == RtcFile && slot < |s.rtc| then s.rtc[slot := x] else s.rtc)
  }

  function Drop(rtc: seq<int>, x: int): (r: seq<int>)
    ensures |r| == |rtc|
  {
    seq(|rtc|, i requires 0 <= i < |rtc| => if rtc[i] == x then -1 else rtc[i])
  }

  /** term_close always fails, so stdin and stdout stay open. */
  function Close(s: Sys, fd: int): Sys
    requires s.Sized()
  {
    if fd < 0 || fd >= MAX_FILES then s
    else
      var x := 8 * s.running + fd;
      var d := s.desc[x];
      if !d.used || d.kind == TermFile then s
      else s.(desc := s.desc[x := d.(used := false)],
              rtc := if d.kind == RtcFile then Drop(s.rtc, x) else s.rtc)
  }

  // ---- what it means: three stacks and a rotor ----

  /** Each terminal's processes, the newest first. */
  datatype Stacks = Stacks(of: seq<seq<nat>>, rotor: nat)

  /** stack is the chain of parent pointers from pid. */
  ghost predicate Chain(parent: seq<nat>, pid: nat, stack: seq<nat>)
    decreases |stack|
  {
    if stack == [] then pid == 0
    else 1 <= pid < |parent| && stack[0] == pid && Chain(parent, parent[pid], stack[1..])
  }

  ghost predicate NoDup(s: seq<nat>) {
    forall i, j :: 0 <= i < j < |s| ==> s[i] != s[j]
  }

  ghost predicate Refines(s: Sys, a: Stacks) {
    && s.Sized() && |a.of| == TERM_NUM && a.rotor == s.rotor
    && !s.used[0]
    && (forall t :: 0 <= t < TERM_NUM ==> Chain(s.parent, s.cur[t], a.of[t]) && NoDup(a.of[t]))
    && (forall t, k :: 0 <= t < TERM_NUM && 0 <= k < |a.of[t]| ==>
         a.of[t][k] < MAX_PROC && s.used[a.of[t][k]] && s.term[a.of[t][k]] == t)
    && (forall p :: 0 <= p < MAX_PROC && s.used[p] ==> s.term[p] < TERM_NUM && p in a.of[s.term[p]])
  }

  /** Once the first tick has come, the head of the rotor's stack runs, on its own
      page and kernel stack. */
  ghost predicate Scheduled(s: Sys) {
    s.Sized() && s.running != 0 && s.running == s.cur[s.rotor] && s.page == s.running && s.esp0 == s.running
  }

  function Push(a: Stacks, pid: nat): Stacks
    requires a.rotor < |a.of|
  {
    a.(of := a.of[a.rotor := [pid] + a.of[a.rotor]])
  }

  function Pop(a: Stacks): Stacks
    requires a.rotor < |a.of|
  {
    if |a.of[a.rotor]| <= 1 then a else a.(of := a.of[a.rotor := a.of[a.rotor][1..]])
  }

  function Turn(a: Stacks): Stacks {
    a.(rotor := (a.rotor + 1) % TERM_NUM)
  }

  lemma {:induction false} ChainFrame(parent: seq<nat>, i: nat, v: nat, pid: nat, stack: seq<nat>)
    requires i < |parent| && i !in stack && Chain(parent, pid, stack)
    ensures Chain(parent[i := v], pid, stack)
    decreases |stack|
  {
    if stack != [] {
      ChainFrame(parent, i, v, parent[pid], stack[1..]);
    }
  }

  lemma LaunchRefines(s: Sys, a: Stacks, pid: nat, root: bool)
    requires Refines(s, a) && 1 <= pid < MAX_PROC && !s.used[pid]
    requires if root then a.of[s.rotor] == [] else Scheduled(s)
    ensures Refines(Launch(s, pid, root, s.rotor), Push(a, pid)) && Scheduled(Launch(s, pid, root, s.rotor))
  {
    var s' := Launch(s, pid, root, s.rotor);
    var a' := Push(a, pid);
    forall t | 0 <= t < TERM_NUM
      ensures pid !in a.of[t]
      ensures Chain(s'.parent, s'.cur[t], a'.of[t]) && NoDup(a'.of[t])
    {
      assert pid !in a.of[t];
      ChainFrame(s.parent, pid, s'.parent[pid], s.cur[t], a.of[t]);
      if t == s.rotor {
        assert a'.of[t][1..] == a.of[t];
      }
    }
  }

  /** execute pushes the first free pid onto the running process's stack, or
      changes nothing. */
  lemma ExecuteRefines(s: Sys, a: Stacks, loads: bool)
    requires Refines(s, a) && Scheduled(s)
    ensures s.term[s.running] == s.rotor
    ensures Scheduled(Execute(s, loads))
    ensures FreePid(s.used, 1) == MAX_PROC || !loads ==> Execute(s, loads) == s
    ensures FreePid(s.used, 1) < MAX_PROC && loads ==> Refines(Execute(s, loads), Push(a, FreePid(s.used, 1)))
  {
    assert a.of[s.rotor][0] == s.running;
    if FreePid(s.used, 1) < MAX_PROC {
      LaunchRefines(s, a, FreePid(s.used, 1), false);
    }
  }

  /** halt pops the running process off its stack, and its parent runs again; a
      root shell stays. */
  lemma HaltRefines(s: Sys, a: Stacks)
    requires Refines(s, a) && Scheduled(s)
    ensures s.term[s.running] == s.rotor
    ensures Refines(Halt(s), Pop(a)) && Scheduled(Halt(s))
    ensures |a.of[s.rotor]| >= 2 ==> Halt(s).running == a.of[s.rotor][1]
  {
    hide NoDup;
    var stack := a.of[s.rotor];
    assert stack[0] == s.running;
    assert Chain(s.parent, s.parent[s.running], stack[1..]);
    if |stack| >= 2 {
      assert stack[1..][0] == stack[1] == s.parent[s.running];
      PopRefines(s, a);
    }
  }

  lemma PopRefines(s: Sys, a: Stacks)
    requires Refines(s, a) && Scheduled(s) && |a.of[s.rotor]| >= 2
    requires a.of[s.rotor][0] == s.running && s.term[s.running] == s.rotor
    requires a.of[s.rotor][1] == s.parent[s.running] && Chain(s.parent, s.parent[s.running], a.of[s.rotor][1..])
    ensures Refines(Halt(s), Pop(a)) && Scheduled(Halt(s))
  {
    var s' := Halt(s);
    var a' := Pop(a);
    forall p | 0 <= p < MAX_PROC && s'.used[p]
      ensures p in a'.of[s'.term[p]]
    {
      assert p in a.of[s.term[p]];
      assert p != a.of[s.rotor][0];
    }
  }

  /** A tick moves to the next terminal and runs the head of its stack, after
      starting a root shell there if it has none. */
  lemma TickRefines(s: Sys, a: Stacks)
    requires Refines(s, a)
    requires s.cur[Turn(a).rotor] == 0 ==> FreePid(s.used, 1) < MAX_PROC
    requires s.running == 0 || Scheduled(s)
    ensures Scheduled(Tick(s))
    ensures a.of[Turn(a).rotor] == [] ==> Refines(Tick(s), Push(Turn(a), FreePid(s.used, 1)))
    ensures a.of[Turn(a).rotor] != [] ==> Refines(Tick(s), Turn(a))
  {
    var next := s.(rotor := (s.rotor + 1) % TERM_NUM);
    assert Chain(s.parent, s.cur[next.rotor], a.of[next.rotor]);
    if s.cur[next.rotor] == 0 {
      assert a.of[next.rotor] == [];
      assert Refines(next, Turn(a));
      LaunchRefines(next, Turn(a), FreePid(s.used, 1), true);
    } else {
      assert a.of[next.rotor] != [];
    }
  }

  lemma {:induction false} ChainLinks(parent: seq<nat>, pid: nat, stack: seq<nat>, k: nat)
    requires Chain(parent, pid, stack) && k < |stack|
    ensures stack[k] < |parent|
    ensures parent[stack[k]] == if k + 1 < |stack| then stack[k + 1] else 0
    decreases |stack|
  {
    if k == 0 {
      assert |stack| > 1 ==> stack[1..][0] == stack[1];
    } else {
      ChainLinks(parent, parent[pid], stack[1..], k - 1);
    }
  }

  /** No live process has a dead parent, or one on another terminal. */
  lemma ParentsLive(s: Sys, a: Stacks, p: nat)
    requires Refines(s, a) && p < MAX_PROC && s.used[p] && s.parent[p] != 0
    ensures s.parent[p] < MAX_PROC && s.used[s.parent[p]] && s.term[s.parent[p]] == s.term[p]
  {
    var t := s.term[p];
    var k :| 0 <= k < |a.of[t]| && a.of[t][k] == p;
    ChainLinks(s.parent, s.cur[t], a.of[t], k);
  }

  // ---- registrations ----

  /** Descriptor x is an open RTC descriptor of a live process. */
  ghost predicate Live(s: Sys, x: int)
    requires s.Sized()
  {
    0 <= x < MAX_PROC * MAX_FILES && s.used[x / 8] && s.desc[x].used && s.desc[x].kind == RtcFile
  }

  /** The slots hold exactly the open RTC descriptors of live processes, each once. */
  ghost predicate Registered(s: Sys) {
    && s.Sized()
    && (forall i :: 0 <= i < MAX_PROC && s.rtc[i] != -1 ==> Live(s, s.rtc[i]))
    && (forall i, j :: 0 <= i < j < MAX_PROC && s.rtc[i] != -1 ==> s.rtc[i] != s.rtc[j])
    && (forall x :: Live(s, x) ==> x in s.rtc)
  }

  /** Descriptors 0 and 1 of a live process are its terminal. */
  ghost predicate StdStreams(s: Sys) {
    s.Sized() && forall p :: 0 <= p < MAX_PROC && s.used[p] ==>
      s.desc[8 * p].kind == TermFile && s.desc[8 * p + 1].kind == TermFile
  }

  lemma StepStdStreams(s: Sys, e: Event)
    requires StdStreams(s) && Possible(s, e) && s.term[s.running] < TERM_NUM
    ensures Step(s, e).Sized() ==> StdStreams(Step(s, e))
  {
    var s' := Step(s, e);
    if s'.Sized() {
      forall p | 0 <= p < MAX_PROC && s'.used[p]
        ensures s'.desc[8 * p].kind == TermFile && s'.desc[8 * p + 1].kind == TermFile
      {
      }
    }
  }

  lemma LaunchRegistered(s: Sys, pid: nat, root: bool, t: nat)
    requires Registered(s) && 1 <= pid < MAX_PROC && !s.used[pid] && t < TERM_NUM
    ensures Registered(Launch(s, pid, root, t))
  {
    var s' := Launch(s, pid, root, t);
    forall x: int
      ensures Live(s', x) <==> Live(s, x)
    {
      if 0 <= x < MAX_PROC * MAX_FILES && x / 8 == pid {
        assert 8 * pid <= x < 8 * pid + 8;
      }
    }
  }

  lemma HaltLive(s: Sys, x: int)
    requires StdStreams(s) && s.used[s.running] && s.term[s.running] < TERM_NUM && 1 <= s.parent[s.running] < MAX_PROC
    ensures Live(Halt(s), x) <==> Live(s, x) && !(8 * s.running + 2 <= x < 8 * s.running + 8)
    ensures Live(s, x) ==> s.desc[x] == Desc(true, RtcFile)
  {
    if 0 <= x < MAX_PROC * MAX_FILES && x / 8 == s.running {
      assert x == 8 * s.running || x == 8 * s.running + 1 || 8 * s.running + 2 <= x < 8 * s.running + 8;
    }
  }

  lemma HaltRegistered(s: Sys)
    requires Registered(s) && StdStreams(s) && s.used[s.running] && s.term[s.running] < TERM_NUM && s.parent[s.running] < MAX_PROC
    ensures Registered(Halt(s))
  {
    var p := s.running;
    if s.parent[p] != 0 {
      var s' := Halt(s);
      forall x: int
        ensures Live(s', x) <==> Live(s, x) && !(8 * p + 2 <= x < 8 * p + 8)
      {
        HaltLive(s, x);
      }
      hide Live;
      forall x | Live(s', x)
        ensures x in s'.rtc
      {
        var i :| 0 <= i < MAX_PROC && s.rtc[i] == x;
        assert s'.rtc[i] == x;
      }
    }
  }

  lemma OpenLive(s: Sys, kind: Kind, y: int)
    requires s.Sized() && s.used[s.running] && FreeFd(s.desc, s.running, 2) < MAX_FILES
    ensures var x := 8 * s.running + FreeFd(s.desc, s.running, 2);
      !Live(s, x) && (Live(Open(s, kind), y) <==> if y == x then kind == RtcFile else Live(s, y))
  {
  }

  lemma OpenRegistered(s: Sys, kind: Kind)
    requires Registered(s) && s.used[s.running] && kind != TermFile
    requires kind == RtcFile ==> FreeSlot(s.rtc, 0) < MAX_PROC
    ensures Registered(Open(s, kind))
  {
    var fd := FreeFd(s.desc, s.running, 2);
    if fd < MAX_FILES {
      var x := 8 * s.running + fd;
      var s' := Open(s, kind);
      forall y: int
        ensures !Live(s, x) && (Live(s', y) <==> if y == x then kind == RtcFile else Live(s, y))
      {
        OpenLive(s, kind, y);
      }
      var slot := FreeSlot(s.rtc, 0);
      hide Live;
      forall y | Live(s', y)
        ensures y in s'.rtc
      {
        if y == x {
          assert s'.rtc[slot] == x;
        } else {
          var i :| 0 <= i < MAX_PROC && s.rtc[i] == y;
          assert s'.rtc[i] == y;
        }
      }
    }
  }

  lemma CloseRegistered(s: Sys, fd: int)
    requires Registered(s) && s.used[s.running]
    ensures Registered(Close(s, fd))
  {
    if 0 <= fd < MAX_FILES {
      var x := 8 * s.running + fd;
      var s' := Close(s, fd);
      if s' != s {
        forall y: int
          ensures Live(s', y) <==> y != x && Live(s, y)
        {
        }
        forall y | Live(s', y)
          ensures y in s'.rtc
        {
          var i :| 0 <= i < MAX_PROC && s.rtc[i] == y;
          assert s'.rtc[i] == y;
        }
      }
    }
  }

  // ---- whole runs ----

  datatype Event =
    | DoExecute(loads: bool)
    | DoHalt
    | DoTick
    | DoOpen(kind: Kind)
    | DoClose(fd: int)

  /** A tick that has to start a root shell finds a pid for it, and an RTC that is
      opened finds a slot; only a running process makes system calls. */
  predicate Possible(s: Sys, e: Event)
    requires s.Sized()
  {
    match e
    case DoTick => s.cur[(s.rotor + 1) % TERM_NUM] == 0 ==> FreePid(s.used, 1) < MAX_PROC
    case DoOpen(kind) => s.running != 0 && kind != TermFile && (kind == RtcFile ==> FreeSlot(s.rtc, 0) < MAX_PROC)
    case _ => s.running != 0
  }

  function Step(s: Sys, e: Event): Sys
    requires s.Sized() && s.term[s.running] < TERM_NUM
  {
    match e
    case DoExecute(loads) => Execute(s, loads)
    case DoHalt => Halt(s)
    case DoTick => Tick(s)
    case DoOpen(kind) => Open(s, kind)
    case DoClose(fd) => Close(s, fd)
  }

  /** The three stacks as a machine of their own: a new process gets the first pid
      that is on no stack. */
  ghost predicate OnStack(a: Stacks, pid: nat) {
    exists t :: 0 <= t < |a.of| && pid in a.of[t]
  }

  ghost function Unstacked(a: Stacks, n: nat): (pid: nat)
    requires n <= MAX_PROC
    ensures n <= pid <= MAX_PROC
    decreases MAX_PROC - n
  {
    if n == MAX_PROC || !OnStack(a, n) then n else Unstacked(a, n + 1)
  }

  ghost function StackStep(a: Stacks, e: Event): (r: Stacks)
    requires |a.of| == TERM_NUM && a.rotor < TERM_NUM
    ensures |r.of| == TERM_NUM && r.rotor < TERM_NUM
  {
    match e
    case DoExecute(loads) =>
      if loads && Unstacked(a, 1) < MAX_PROC then Push(a, Unstacked(a, 1)) else a
    case DoHalt => Pop(a)
    case DoTick =>
      if a.of[Turn(a).rotor] == [] then Push(Turn(a), Unstacked(a, 1)) else Turn(a)
    case _ => a
  }

  lemma {:induction false} UnstackedIsFree(s: Sys, a: Stacks, n: nat)
    requires Refines(s, a) && n <= MAX_PROC
    ensures Unstacked(a, n) == FreePid(s.used, n)
    decreases MAX_PROC - n
  {
    if n < MAX_PROC {
      assert s.used[n] <==> OnStack(a, n) by {
        if s.used[n] {
          assert n in a.of[s.term[n]];
        }
      }
      UnstackedIsFree(s, a, n + 1);
    }
  }

  /** The state right after boot, or a scheduled one. */
  ghost predicate Sound(s: Sys, a: Stacks) {
    && Refines(s, a) && Registered(s) && StdStreams(s)
    && (if s.running == 0 then forall t :: 0 <= t < TERM_NUM ==> a.of[t] == [] else Scheduled(s))
    && s.term[s.running] < TERM_NUM
  }

  /** Opening and closing files does not touch the processes. */
  lemma FilesRefine(s: Sys, s': Sys, a: Stacks)
    requires Refines(s, a) && Scheduled(s)
    requires s' == s.(desc := s'.desc, rtc := s'.rtc) && |s'.desc| == |s.desc| && |s'.rtc| == |s.rtc|
    ensures Refines(s', a) && Scheduled(s')
  {
  }

  lemma CallSound(s: Sys, a: Stacks, e: Event)
    requires Refines(s, a) && Registered(s) && StdStreams(s) && Scheduled(s) && Possible(s, e) && !e.DoTick?
    ensures s.term[s.running] < TERM_NUM
    ensures Refines(Step(s, e), StackStep(a, e)) && Registered(Step(s, e)) && Scheduled(Step(s, e))
  {
    HeadIsRunning(s, a);
    hide Refines;
    hide Registered;
    hide Scheduled;
    hide Unstacked;
    match e
    case DoExecute(loads) =>
      ExecuteSound(s, a, loads);
    case DoHalt =>
      HaltRefines(s, a);
      HaltRegistered(s);
    case DoOpen(kind) =>
      OpenRegistered(s, kind);
      FilesRefine(s, Open(s, kind), a);
    case DoClose(fd) =>
      CloseRegistered(s, fd);
      FilesRefine(s, Close(s, fd), a);
  }

  lemma ExecuteSound(s: Sys, a: Stacks, loads: bool)
    requires Refines(s, a) && Registered(s) && Scheduled(s) && s.running != 0
    ensures var e := DoExecute(loads);
      s.term[s.running] < TERM_NUM && Refines(Step(s, e), StackStep(a, e)) && Registered(Step(s, e)) && Scheduled(Step(s, e))
  {
    UnstackedIsFree(s, a, 1);
    HeadIsRunning(s, a);
    hide Refines;
    hide Registered;
    hide Scheduled;
    hide Unstacked;
    ExecuteRefines(s, a, loads);
    if FreePid(s.used, 1) < MAX_PROC {
      LaunchRegistered(s, FreePid(s.used, 1), false, s.rotor);
    }
  }

  lemma TickSound(s: Sys, a: Stacks)
    requires Refines(s, a) && Registered(s) && Possible(s, DoTick) && (s.running == 0 || Scheduled(s))
    ensures Refines(Tick(s), StackStep(a, DoTick)) && Registered(Tick(s)) && Scheduled(Tick(s))
  {
    TickRegistered(s, a);
    TickStacks(s, a);
  }

  lemma TickHasPid(s: Sys, a: Stacks)
    requires Refines(s, a) && Possible(s, DoTick)
    ensures Unstacked(a, 1) == FreePid(s.used, 1)
    ensures a.rotor == s.rotor && |a.of| == TERM_NUM
    ensures s.cur[Turn(a).rotor] == 0 ==> FreePid(s.used, 1) < MAX_PROC
  {
    hide Unstacked;
    hide Chain;
    hide NoDup;
    UnstackedIsFree(s, a, 1);
  }

  lemma TickStacks(s: Sys, a: Stacks)
    requires Refines(s, a) && Possible(s, DoTick) && (s.running == 0 || Scheduled(s))
    ensures Refines(Tick(s), StackStep(a, DoTick)) && Scheduled(Tick(s))
  {
    TickHasPid(s, a);
    hide Refines;
    hide Scheduled;
    hide Tick;
    TickRefines(s, a);
  }

  lemma StepSound(s: Sys, a: Stacks, e: Event)
    requires Sound(s, a) && Possible(s, e)
    ensures Sound(Step(s, e), StackStep(a, e))
  {
    if e.DoTick? {
      TickSound(s, a);
    } else {
      HeadIsRunning(s, a);
      CallSound(s, a, e);
    }
    StepStdStreams(s, e);
    HeadIsRunning(Step(s, e), StackStep(a, e));
    hide Refines;
    hide Registered;
  }

  lemma HeadIsRunning(s: Sys, a: Stacks)
    requires Refines(s, a) && Scheduled(s)
    ensures a.of[s.rotor] != [] && a.of[s.rotor][0] == s.running && s.used[s.running]
    ensures s.term[s.running] == s.rotor && s.parent[s.running] < MAX_PROC
  {
    var stack := a.of[s.rotor];
    assert Chain(s.parent, s.cur[s.rotor], stack);
    ChainLinks(s.parent, s.cur[s.rotor], stack, 0);
  }

  lemma SameFiles(s: Sys, s': Sys)
    requires Registered(s) && s'.Sized()
    requires s'.used == s.used && s'.desc == s.desc && s'.rtc == s.rtc
    ensures Registered(s')
  {
    assert forall x: int :: Live(s', x) <==> Live(s, x);
  }

  lemma TickRegistered(s: Sys, a: Stacks)
    requires Registered(s) && Refines(s, a)
    requires s.cur[Turn(a).rotor] == 0 ==> FreePid(s.used, 1) < MAX_PROC
    ensures Registered(Tick(s))
  {
    var next := s.(rotor := (s.rotor + 1) % TERM_NUM);
    SameFiles(s, next);
    var pid := s.cur[next.rotor];
    assert pid < MAX_PROC;
    hide Registered;
    hide Refines;
    if pid == 0 {
      LaunchRegistered(next, FreePid(s.used, 1), true, next.rotor);
    } else {
      SameFiles(s, Tick(s));
    }
  }

  ghost predicate IsRun(trace: seq<Sys>, events: seq<Event>) {
    && |trace| == |events| + 1
    && (forall i :: 0 <= i < |trace| ==> trace[i].Sized() && trace[i].term[trace[i].running] < TERM_NUM)
    && forall i :: 0 <= i < |events| ==> Possible(trace[i], events[i]) && trace[i + 1] == Step(trace[i], events[i])
  }

  ghost function StackRun(a: Stacks, events: seq<Event>): (r: Stacks)
    requires |a.of| == TERM_NUM && a.rotor < TERM_NUM
    ensures |r.of| == TERM_NUM && r.rotor < TERM_NUM
  {
    if events == [] then a else StackStep(StackRun(a, events[..|events| - 1]), events[|events| - 1])
  }

  const NO_PROCESSES := Stacks([[], [], []], 0)

  /** Before the first tick no pid is in use and nothing is open. */
  ghost predicate Booted(s: Sys) {
    && s.Sized() && s.running == 0 && s.rotor == 0 && s.term[0] < TERM_NUM
    && (forall p :: 0 <= p < MAX_PROC ==> !s.used[p])
    && (forall t :: 0 <= t < TERM_NUM ==> s.cur[t] == 0)
    && (forall i :: 0 <= i < MAX_PROC ==> s.rtc[i] == -1)
  }

  /** Every reachable process table refines the stack machine run on the same
      events, and keeps its RTC registrations exact. */
  lemma {:induction false} RunsRefineStacks(trace: seq<Sys>, events: seq<Event>, n: nat)
    requires IsRun(trace, events) && Booted(trace[0]) && n < |trace|
    ensures Sound(trace[n], StackRun(NO_PROCESSES, events[..n]))
  {
    if n > 0 {
      RunsRefineStacks(trace, events, n - 1);
      assert events[..n][..n - 1] == events[..n - 1];
      StepSound(trace[n - 1], StackRun(NO_PROCESSES, events[..n - 1]), events[n - 1]);
    }
  }

  // ---- what follows for the stack machine ----

  function Ticks(events: seq<Event>): nat {
    if events == [] then 0
    else Ticks(events[..|events| - 1]) + if events[|events| - 1].DoTick? then 1 else 0
  }

  lemma StepRotor(a: Stacks, e: Event)
    requires |a.of| == TERM_NUM && a.rotor < TERM_NUM
    ensures StackStep(a, e).rotor == if e.DoTick? then (a.rotor + 1) % TERM_NUM else a.rotor
  {
  }

  lemma NextTerminal(n: nat)
    ensures (n % TERM_NUM + 1) % TERM_NUM == (n + 1) % TERM_NUM
  {
  }

  /** Round robin: only ticks move the rotor, each by one terminal. */
  lemma {:induction false} RotorCountsTicks(a: Stacks, events: seq<Event>)
    requires |a.of| == TERM_NUM && a.rotor < TERM_NUM
    ensures StackRun(a, events).rotor == (a.rotor + Ticks(events)) % TERM_NUM
  {
    hide StackStep;
    if events != [] {
      RotorCountsTicks(a, events[..|events| - 1]);
      StepRotor(StackRun(a, events[..|events| - 1]), events[|events| - 1]);
      NextTerminal(a.rotor + Ticks(events[..|events| - 1]));
    }
  }
}
