/** The open files of each process, as a table from descriptor to kind of file, and
    what every event does to them. */
module Descriptors {
  import opened Process

  type FileTable = map<nat, Kind>

  /** Descriptor fd of process p. */
  function Descriptor(desc: seq<Desc>, p: nat, fd: nat): Desc
    requires |desc| == 80 && p < 10 && fd < 8
  {
    desc[8 * p + fd]
  }

  /** Descriptors 0 to 7 of process p that are in use. */
  function Files(s: Sys, p: nat): FileTable
    requires |s.desc| == 80 && p < 10
  {
    map fd: nat | fd < 8 && Descriptor(s.desc, p, fd).used :: Descriptor(s.desc, p, fd).kind
  }

  /** The descriptors of two tables are the same but perhaps for one of them. */
  ghost predicate SameBut(desc: seq<Desc>, desc': seq<Desc>, p: nat, fd: nat) {
    && |desc| == |desc'| == 80
    && forall q: nat, g: nat :: q < 10 && g < 8 && !(q == p && g == fd) ==> Descriptor(desc', q, g) == Descriptor(desc, q, g)
  }

  lemma OneWritten(desc: seq<Desc>, p: nat, fd: nat, d: Desc)
    requires |desc| == 80 && p < 10 && fd < 8
    ensures var desc' := desc[8 * p + fd := d];
      SameBut(desc, desc', p, fd) && Descriptor(desc', p, fd) == d
  {
  }

  lemma SameFilesBut(s: Sys, s': Sys, p: nat, fd: nat)
    requires SameBut(s.desc, s'.desc, p, fd) && p < 10 && fd < 8
    ensures forall q: nat :: q < 10 && q != p ==> Files(s', q) == Files(s, q)
    ensures var d := Descriptor(s'.desc, p, fd);
      Files(s', p) == if d.used then Files(s, p)[fd := d.kind] else Files(s, p) - {fd}
  {
    hide Descriptor;
  }

  /** Descriptor fd is the first free one from 2 on. */
  ghost predicate FirstFree(files: FileTable, fd: nat) {
    2 <= fd < 8 && fd !in files && forall g :: 2 <= g < fd ==> g in files
  }

  /** What open returns: the descriptor, or -1. */
  function OpenResult(s: Sys): int
    requires s.Sized()
  {
    var fd := FreeFd(s.desc, s.running, 2);
    if fd < MAX_FILES then fd else -1
  }

  lemma {:induction false} FreeFdIsFirst(desc: seq<Desc>, p: nat, fd: nat)
    requires |desc| == 80 && p < 10 && fd <= 8
    ensures var r := FreeFd(desc, p, fd);
      && fd <= r <= 8 && (r < 8 ==> !Descriptor(desc, p, r).used)
      && forall g: nat :: fd <= g < r ==> Descriptor(desc, p, g).used
    decreases 8 - fd
  {
    if fd < 8 && Descriptor(desc, p, fd).used {
      FreeFdIsFirst(desc, p, fd + 1);
    }
  }

  /** An open takes the first free descriptor of the running process for the file,
      whatever its kind, and touches no other descriptor of any process; it fails
      exactly when all six are taken, and then changes nothing. */
  lemma OpenExact(s: Sys, kind: Kind)
    requires s.Sized()
    ensures var fd := OpenResult(s); var s' := Open(s, kind);
      && (fd >= 0 ==>
            && FirstFree(Files(s, s.running), fd)
            && Files(s', s.running) == Files(s, s.running)[fd := kind])
      && (fd < 0 ==> fd == -1 && s' == s && forall g :: 2 <= g < 8 ==> g in Files(s, s.running))
      && (forall p :: 0 <= p < 10 && p != s.running ==> Files(s', p) == Files(s, p))
      && s' == s.(desc := s'.desc, rtc := s'.rtc)
  {
    hide FreeFd;
    hide FreeSlot;
    FreeFdIsFirst(s.desc, s.running, 2);
    var fd := FreeFd(s.desc, s.running, 2);
    if fd < 8 {
      OneWritten(s.desc, s.running, fd, Desc(true, kind));
      SameFilesBut(s, Open(s, kind), s.running, fd);
    }
    hide Descriptor;
  }

  /** A close takes exactly the named file away, and fails, changing nothing, for a
      descriptor that is not open or that is the terminal. */
  lemma CloseExact(s: Sys, fd: int)
    requires s.Sized()
    ensures var files := Files(s, s.running); var s' := Close(s, fd);
      && (if 0 <= fd && fd in files && files[fd] != TermFile then Files(s', s.running) == files - {fd} else s' == s)
      && (forall p :: 0 <= p < 10 && p != s.running ==> Files(s', p) == Files(s, p))
      && s' == s.(desc := s'.desc, rtc := s'.rtc)
  {
    hide Drop;
    if 0 <= fd < 8 {
      var d := Descriptor(s.desc, s.running, fd);
      OneWritten(s.desc, s.running, fd, d.(used := false));
      if d.used && d.kind != TermFile {
        SameFilesBut(s, Close(s, fd), s.running, fd);
      }
    }
  }

  /** Closing what an open returned gives back the files there were before. */
  lemma CloseUndoesOpen(s: Sys, kind: Kind, p: nat)
    requires s.Sized() && OpenResult(s) >= 0 && kind != TermFile && p < 10
    ensures Open(s, kind).Sized()
    ensures Files(Close(Open(s, kind), OpenResult(s)), p) == Files(s, p)
  {
    OpenExact(s, kind);
    CloseExact(Open(s, kind), OpenResult(s));
    hide Files;
    hide Open;
    hide Close;
    var fd := OpenResult(s);
    assert Files(s, s.running)[fd := kind] - {fd} == Files(s, s.running);
  }

  /** Opens in a row. */
  function OpenAll(s: Sys, kinds: seq<Kind>): (r: Sys)
    requires s.Sized()
    ensures r.Sized() && r.running == s.running
  {
    if kinds == [] then s else Open(OpenAll(s, kinds[..|kinds| - 1]), kinds[|kinds| - 1])
  }

  /** Without a close in between each open returns a descriptor that none before it
      returned, as long as there are any. */
  lemma {:induction false} OpensDistinct(s: Sys, kinds: seq<Kind>, i: nat, j: nat)
    requires s.Sized() && i < j <= |kinds|
    ensures var fd, fd' := OpenResult(OpenAll(s, kinds[..i])), OpenResult(OpenAll(s, kinds[..j]));
      && (fd >= 0 ==> fd in Files(OpenAll(s, kinds[..j]), s.running) && fd' != fd)
      && (fd < 0 ==> fd' < 0)
    decreases j
  {
    hide Open;
    hide OpenResult;
    var before, after := OpenAll(s, kinds[..j - 1]), OpenAll(s, kinds[..j]);
    assert kinds[..j][..j - 1] == kinds[..j - 1];
    assert after == Open(before, kinds[j - 1]);
    OpenExact(before, kinds[j - 1]);
    OpenExact(after, Other);
    if i < j - 1 {
      OpensDistinct(s, kinds, i, j - 1);
    }
  }

  /** A new process has the terminal as descriptors 0 and 1 and no other file. */
  lemma LaunchFiles(s: Sys, pid: nat, root: bool, t: nat)
    requires s.Sized() && pid < 10 && t < 3
    ensures Launch(s, pid, root, t).Sized()
    ensures Files(Launch(s, pid, root, t), pid) == map[0 := TermFile, 1 := TermFile]
    ensures forall p :: 0 <= p < 10 && p != pid ==> Files(Launch(s, pid, root, t), p) == Files(s, p)
  {
    var s' := Launch(s, pid, root, t);
    forall p: nat, g: nat | p < 10 && g < 8
      ensures p != pid ==> Descriptor(s'.desc, p, g) == Descriptor(s.desc, p, g)
      ensures p == pid ==> (Descriptor(s'.desc, p, g).used <==> g < 2)
      ensures p == pid && g < 2 ==> Descriptor(s'.desc, p, g).kind == TermFile
    {
    }
    hide Descriptor;
  }

  /** What an event does to the open files of process p. */
  ghost predicate FilesAfter(s: Sys, e: Event, s': Sys, p: nat)
    requires |s.desc| == 80 == |s'.desc| && |s.used| == 10 == |s'.used| && p < 10
  {
    match e
    case DoOpen(kind) =>
      if p == s.running && exists fd :: FirstFree(Files(s, p), fd) then
        exists fd :: FirstFree(Files(s, p), fd) && Files(s', p) == Files(s, p)[fd := kind]
      else Files(s', p) == Files(s, p)
    case DoClose(fd) =>
      Files(s', p) == if p == s.running && fd >= 0 && fd in Files(s, p) && Files(s, p)[fd] != TermFile
        then Files(s, p) - {fd} else Files(s, p)
    case DoHalt => Files(s', p) == Files(s, p)
    case _ =>
      Files(s', p) == if !s.used[p] && s'.used[p] then map[0 := TermFile, 1 := TermFile] else Files(s, p)
  }

  /** Over any event: opens and closes concern the running process, a process that is
      started gets its two terminal descriptors, and nobody else's files change. */
  lemma FilesStep(s: Sys, e: Event, p: nat)
    requires s.Sized() && s.term[s.running] < 3 && Possible(s, e) && p < 10
    ensures |Step(s, e).desc| == 80 && |Step(s, e).used| == 10 && FilesAfter(s, e, Step(s, e), p)
  {
    hide Files;
    match e
    case DoOpen(kind) => OpenExact(s, kind);
    case DoClose(fd) => CloseExact(s, fd);
    case DoExecute(loads) =>
      if FreePid(s.used, 1) < MAX_PROC && loads {
        LaunchFiles(s, FreePid(s.used, 1), false, s.term[s.running]);
      }
    case DoHalt => HaltFiles(s, p);
    case DoTick => TickFiles(s, p);
  }

  lemma HaltFiles(s: Sys, p: nat)
    requires s.Sized() && s.term[s.running] < 3 && p < 10
    ensures |Halt(s).desc| == 80 && Files(Halt(s), p) == Files(s, p)
  {
  }

  lemma TickFiles(s: Sys, p: nat)
    requires s.Sized() && Possible(s, DoTick) && p < 10
    ensures |Tick(s).desc| == 80
    ensures Files(Tick(s), p) == if !s.used[p] && Tick(s).used[p] then map[0 := TermFile, 1 := TermFile] else Files(s, p)
  {
    var next := s.(rotor := (s.rotor + 1) % TERM_NUM);
    assert Files(next, p) == Files(s, p);
    if s.cur[next.rotor] == 0 {
      LaunchFiles(next, FreePid(s.used, 1), true, next.rotor);
    } else {
      assert Files(Tick(s), p) == Files(s, p);
    }
  }
}
