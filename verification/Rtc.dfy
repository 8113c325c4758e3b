/** The virtual RTC: many per-file frequencies on one hardware rate. */
module Rtc {
  import opened Basics

  // ---- the bit fields of inode, as div and mod ----

  function GetFreq(inode: nat): nat { inode % 32 }

  function GetRatio(inode: nat): nat { inode / 32 % 32 }

  function GetCount(inode: nat): nat { inode / 1024 % 1024 }

  function SetFreq(inode: nat, v: nat): nat { inode - GetFreq(inode) + v % 32 }

  function SetRatio(inode: nat, v: nat): (r: int) { inode - GetRatio(inode) * 32 + v % 32 * 32 }

  function SetCount(inode: nat, v: nat): (r: int) { inode - GetCount(inode) * 1024 + v % 1024 * 1024 }

  function Pack(high: nat, count: nat, ratio: nat, freq: nat): nat {
    high * 0x10_0000 + count * 1024 + ratio * 32 + freq
  }

  lemma PackFields(high: nat, count: nat, ratio: nat, freq: nat)
    requires count < 1024 && ratio < 32 && freq < 32
    ensures var i := Pack(high, count, ratio, freq);
      GetFreq(i) == freq && GetRatio(i) == ratio && GetCount(i) == count
  {
    var i := Pack(high, count, ratio, freq);
    assert i == 32 * (high * 0x8000 + count * 32 + ratio) + freq;
    assert i / 32 == 32 * (high * 1024 + count) + ratio;
    assert i == 1024 * (high * 1024 + count) + (ratio * 32 + freq);
    assert i / 1024 == 1024 * high + count;
  }

  lemma QuotientTwice(n: nat, a: nat, b: nat)
    requires (a == 32 && b == 32) || (a == 1024 && b == 1024)
    ensures n == a * (n / a) + n % a && n / a == b * (n / (a * b)) + n / a % b
  {
    if a == 32 {
      assert n / 32 / 32 == n / 1024;
    } else {
      assert n / 1024 / 1024 == n / 0x10_0000;
    }
  }

  lemma Unpack(inode: nat)
    ensures inode == Pack(inode / 0x10_0000, GetCount(inode), GetRatio(inode), GetFreq(inode))
  {
    QuotientTwice(inode, 32, 32);
    QuotientTwice(inode, 1024, 1024);
  }

  /** A setter changes its own field and no other. */
  lemma SetterLaws(inode: nat, v: nat)
    requires v < 32
    ensures GetFreq(SetFreq(inode, v)) == v && GetRatio(SetFreq(inode, v)) == GetRatio(inode)
      && GetCount(SetFreq(inode, v)) == GetCount(inode)
    ensures SetRatio(inode, v) >= 0 && GetFreq(SetRatio(inode, v)) == GetFreq(inode) && GetRatio(SetRatio(inode, v)) == v
      && GetCount(SetRatio(inode, v)) == GetCount(inode)
  {
    var h, c, r, f := inode / 0x10_0000, GetCount(inode), GetRatio(inode), GetFreq(inode);
    Unpack(inode);
    hide GetFreq;
    hide GetRatio;
    hide GetCount;
    assert v % 32 == v;
    assert SetFreq(inode, v) == Pack(h, c, r, v);
    assert SetRatio(inode, v) == Pack(h, c, v, f);
    PackFields(h, c, r, v);
    PackFields(h, c, v, f);
  }

  lemma SetCountLaws(inode: nat, v: nat)
    requires v < 1024
    ensures SetCount(inode, v) >= 0 && GetFreq(SetCount(inode, v)) == GetFreq(inode)
      && GetRatio(SetCount(inode, v)) == GetRatio(inode) && GetCount(SetCount(inode, v)) == v
  {
    var h, c, r, f := inode / 0x10_0000, GetCount(inode), GetRatio(inode), GetFreq(inode);
    Unpack(inode);
    hide GetFreq;
    hide GetRatio;
    hide GetCount;
    assert v % 1024 == v;
    assert SetCount(inode, v) == Pack(h, v, r, f);
    PackFields(h, v, r, f);
  }

  // ---- the driver's state ----

  const SYS_MAX_FREQ := 8192
  const USER_MAX_FREQ := 1024
  const COUNTER_MAX := 81920
  const SLOTS := 10
  const CAP := 32

  datatype File = File(inode: nat, pos: int)

  /** slots is rtc_files, as indices into files, with -1 for NULL; step is
      sys_counter_step. */
  datatype Driver = Driver(freq: int, pow: nat, step: nat, slots: seq<int>, elapsed: seq<nat>, files: seq<File>)

  /** reset_rtc_info for a system rate of 2^pow. */
  function ResetInfo(pow: nat, freqPow: nat): File
    requires freqPow <= pow
  {
    var inode := SetCount(SetRatio(SetFreq(0, freqPow), pow - freqPow), 0);
    File(inode, Pow2(GetRatio(inode)))
  }

  /** The exponent the search loops stop at: the first fp >= n with freq <= 2^fp. */
  function FreqPow(freq: int, n: nat): (fp: nat)
    ensures n <= fp && freq <= Pow2(fp)
    ensures fp > n ==> freq > Pow2(fp - 1)
    decreases if freq > Pow2(n) then freq - Pow2(n) else 0
  {
    if freq > Pow2(n) then FreqPow(freq, n + 1) else n
  }

  ghost predicate Sized(d: Driver) {
    && |d.slots| == SLOTS && |d.elapsed| == SLOTS
    && forall i :: 0 <= i < SLOTS ==> d.slots[i] == -1 || 0 <= d.slots[i] < |d.files|
  }

  lemma ResetFields(pow: nat, freqPow: nat)
    requires freqPow <= pow < 32
    ensures var f := ResetInfo(pow, freqPow);
      GetFreq(f.inode) == freqPow && GetRatio(f.inode) == pow - freqPow && GetCount(f.inode) == 0
      && f.pos == Pow2(pow - freqPow)
  {
    SetterLaws(0, freqPow);
    SetterLaws(SetFreq(0, freqPow), pow - freqPow);
    SetCountLaws(SetRatio(SetFreq(0, freqPow), pow - freqPow), 0);
  }

  // ---- one file ----

  /** A registered file under a system rate of 2^pow. */
  ghost predicate Good(f: File, pow: nat) {
    && 1 <= GetFreq(f.inode) <= pow < 32
    && GetRatio(f.inode) == pow - GetFreq(f.inode)
    && 1 <= f.pos <= Pow2(GetRatio(f.inode))
    && GetCount(f.inode) <= CAP
  }

  /** This tick ends a period of the file. */
  predicate Ends(f: File) {
    f.pos <= 1
  }

  /** One tick of rtc_isr for one file. */
  function TickFile(f: File): File {
    if !Ends(f) then f.(pos := f.pos - 1)
    else
      var count := if GetCount(f.inode) + 1 > CAP then CAP else GetCount(f.inode) + 1;
      CountFits(f, count);
      File(SetCount(f.inode, count), Pow2(GetRatio(f.inode)))
  }

  lemma CountFits(f: File, count: nat)
    requires count <= CAP
    ensures SetCount(f.inode, count) >= 0
  {
    SetCountLaws(f.inode, count);
  }

  /** The end of rtc_read, with the count its wait loop last saw. */
  function ReadFile(f: File, seen: nat): File
    requires 1 <= seen <= CAP
  {
    CountFits(f, seen - 1);
    f.(inode := SetCount(f.inode, seen - 1))
  }

  /** What happened to a file since its last reset. */
  datatype Ledger = Ledger(ticks: nat, taken: nat, dropped: nat)

  const NEW_LEDGER := Ledger(0, 0, 0)

  /** The ticks of n whole periods. */
  function Whole(n: nat, period: nat): nat {
    n * period
  }

  /** Ticks are whole periods plus the part of the current one; every period is
      pending, read, or dropped at the cap. */
  ghost predicate Balanced(f: File, l: Ledger) {
    l.ticks == Whole(GetCount(f.inode) + l.taken + l.dropped, Pow2(GetRatio(f.inode))) + Pow2(GetRatio(f.inode)) - f.pos
  }

  function TickLedger(f: File, l: Ledger): Ledger {
    l.(ticks := l.ticks + 1, dropped := l.dropped + if Ends(f) && GetCount(f.inode) == CAP then 1 else 0)
  }

  lemma ResetGood(pow: nat, freqPow: nat)
    requires 1 <= freqPow <= pow < 32
    ensures Good(ResetInfo(pow, freqPow), pow) && Balanced(ResetInfo(pow, freqPow), NEW_LEDGER)
    ensures GetFreq(ResetInfo(pow, freqPow).inode) == freqPow
  {
    hide GetFreq;
    hide GetRatio;
    hide GetCount;
    hide ResetInfo;
    hide Whole;
    hide Pow2;
    ResetFields(pow, freqPow);
    NextPeriod(0, Pow2(pow - freqPow));
  }

  lemma TickGood(f: File, l: Ledger, pow: nat)
    requires Good(f, pow) && Balanced(f, l)
    ensures Good(TickFile(f), pow) && Balanced(TickFile(f), TickLedger(f, l))
    ensures GetFreq(TickFile(f).inode) == GetFreq(f.inode)
  {
    hide Whole;
    hide GetFreq;
    hide GetRatio;
    hide GetCount;
    hide SetCount;
    hide Pow2;
    if Ends(f) {
      var count := if GetCount(f.inode) + 1 > CAP then CAP else GetCount(f.inode) + 1;
      SetCountLaws(f.inode, count);
      NextPeriod(GetCount(f.inode) + l.taken + l.dropped, Pow2(GetRatio(f.inode)));
    }
  }

  lemma NextPeriod(n: nat, period: nat)
    ensures Whole(0, period) == 0 && Whole(n + 1, period) == Whole(n, period) + period
  {
  }

  lemma ReadGood(f: File, l: Ledger, pow: nat)
    requires Good(f, pow) && Balanced(f, l) && GetCount(f.inode) >= 1
    ensures Good(ReadFile(f, GetCount(f.inode)), pow)
    ensures Balanced(ReadFile(f, GetCount(f.inode)), l.(taken := l.taken + 1))
    ensures GetFreq(ReadFile(f, GetCount(f.inode)).inode) == GetFreq(f.inode)
  {
    hide Whole;
    hide GetFreq;
    hide GetRatio;
    hide GetCount;
    hide SetCount;
    hide Pow2;
    SetCountLaws(f.inode, GetCount(f.inode) - 1);
  }

  // ---- reads that are interrupted between the check and the decrement ----

  datatype ReadStep =
    | Tick
    | Reset(pow: nat, freqPow: nat)
    | Check
    | Commit

  /** seen is the count a read in progress has cached, and 0 without one. */
  datatype Reader = Reader(f: File, seen: nat, taken: nat, periods: nat)

  predicate Enabled(r: Reader, e: ReadStep) {
    match e
    case Tick => true
    case Reset(pow, freqPow) => freqPow <= pow < 32
    case Check => r.seen == 0 && GetCount(r.f.inode) > 0
    case Commit => 1 <= r.seen <= CAP
  }

  function Interleave(r: Reader, e: ReadStep): Reader
    requires Enabled(r, e)
  {
    match e
    case Tick => r.(f := TickFile(r.f), periods := r.periods + if Ends(r.f) then 1 else 0)
    case Reset(pow, freqPow) => r.(f := ResetInfo(pow, freqPow))
    case Check => r.(seen := GetCount(r.f.inode))
    case Commit => r.(f := ReadFile(r.f, r.seen), seen := 0, taken := r.taken + 1)
  }

  ghost predicate IsInterleaving(trace: seq<Reader>, events: seq<ReadStep>) {
    && |trace| == |events| + 1
    && forall i :: 0 <= i < |events| ==> Enabled(trace[i], events[i]) && trace[i + 1] == Interleave(trace[i], events[i])
  }

  /** Reads returned, with those still pending or about to return, never exceed the
      periods that have ended. */
  ghost predicate NotSpurious(r: Reader) {
    r.taken + GetCount(r.f.inode) <= r.periods && r.taken + r.seen <= r.periods
  }

  lemma InterleaveStep(r: Reader, e: ReadStep)
    requires Enabled(r, e) && NotSpurious(r)
    ensures NotSpurious(Interleave(r, e))
  {
    match e
    case Tick =>
      if Ends(r.f) {
        SetCountLaws(r.f.inode, if GetCount(r.f.inode) + 1 > CAP then CAP else GetCount(r.f.inode) + 1);
      }
    case Reset(pow, freqPow) =>
      ResetFields(pow, freqPow);
    case Check =>
    case Commit =>
      SetCountLaws(r.f.inode, r.seen - 1);
  }

  /** However ticks and rate changes fall between a read's check and its decrement,
      no read returns without a period of its own. */
  lemma {:induction false} NoSpuriousWakeup(trace: seq<Reader>, events: seq<ReadStep>, n: nat)
    requires IsInterleaving(trace, events) && n < |trace| && NotSpurious(trace[0])
    ensures NotSpurious(trace[n])
  {
    if n > 0 {
      NoSpuriousWakeup(trace, events, n - 1);
      InterleaveStep(trace[n - 1], events[n - 1]);
    }
  }

  /** The interruption can lose a period: a tick that ends one between check and
      decrement is overwritten. */
  lemma TickCanBeLost(f: File)
    requires GetCount(f.inode) == 1 && Ends(f)
    ensures var r := Interleave(Interleave(Reader(f, 1, 0, 1), Tick), Commit);
      r.periods == 2 && r.taken == 1 && GetCount(r.f.inode) == 0
  {
    SetCountLaws(f.inode, 2);
    SetCountLaws(TickFile(f).inode, 0);
    hide GetCount;
    hide SetCount;
  }

  // ---- exactly when an interrupted read loses periods ----

  /** Periods a step gives up by design: at the cap, or at a rate change. */
  function Dropped(r: Reader, e: ReadStep): nat {
    match e
    case Tick => if Ends(r.f) && GetCount(r.f.inode) == CAP then 1 else 0
    case Reset(_, _) => GetCount(r.f.inode)
    case _ => 0
  }

  /** Periods a step loses: those that ended since the read looked. A rate change in
      between makes it negative, as the read then brings periods back. */
  function Overwritten(r: Reader, e: ReadStep): int {
    if e.Commit? then GetCount(r.f.inode) - r.seen else 0
  }

  ghost function DroppedBy(trace: seq<Reader>, events: seq<ReadStep>, n: nat): nat
    requires n <= |events| < |trace|
  {
    if n == 0 then 0 else DroppedBy(trace, events, n - 1) + Dropped(trace[n - 1], events[n - 1])
  }

  ghost function OverwrittenBy(trace: seq<Reader>, events: seq<ReadStep>, n: nat): int
    requires n <= |events| < |trace|
  {
    if n == 0 then 0 else OverwrittenBy(trace, events, n - 1) + Overwritten(trace[n - 1], events[n - 1])
  }

  /** Every period that has ended is read, pending, or dropped by design. */
  ghost predicate Accounted(trace: seq<Reader>, events: seq<ReadStep>, n: nat)
    requires n <= |events| < |trace|
  {
    trace[n].taken + GetCount(trace[n].f.inode) + DroppedBy(trace, events, n) == trace[n].periods
  }

  lemma AccountStep(r: Reader, e: ReadStep)
    requires Enabled(r, e) && GetCount(r.f.inode) <= CAP
    ensures var r' := Interleave(r, e);
      && GetCount(r'.f.inode) <= CAP
      && r'.taken + GetCount(r'.f.inode) + Dropped(r, e) + Overwritten(r, e) - r'.periods
         == r.taken + GetCount(r.f.inode) - r.periods
      && (r.seen <= GetCount(r.f.inode) && !e.Reset? ==> r'.seen <= GetCount(r'.f.inode))
  {
    match e
    case Tick =>
      if Ends(r.f) {
        SetCountLaws(r.f.inode, if GetCount(r.f.inode) + 1 > CAP then CAP else GetCount(r.f.inode) + 1);
      }
    case Reset(pow, freqPow) =>
      ResetFields(pow, freqPow);
    case Check =>
    case Commit =>
      SetCountLaws(r.f.inode, r.seen - 1);
    hide GetCount;
    hide SetCount;
  }

  /** A read's decrement keeps reads plus pending periods exactly when the count is
      still the one it looked at. */
  lemma CommitExact(r: Reader)
    requires Enabled(r, Commit)
    ensures var r' := Interleave(r, Commit);
      r'.taken + GetCount(r'.f.inode) == r.taken + GetCount(r.f.inode) <==> r.seen == GetCount(r.f.inode)
  {
    SetCountLaws(r.f.inode, r.seen - 1);
    hide GetCount;
    hide SetCount;
  }

  ghost predicate Starts(r: Reader) {
    r.seen == 0 && GetCount(r.f.inode) <= CAP && r.taken + GetCount(r.f.inode) == r.periods
  }

  lemma {:induction false} PeriodBalance(trace: seq<Reader>, events: seq<ReadStep>, n: nat)
    requires IsInterleaving(trace, events) && n <= |events| && Starts(trace[0])
    ensures GetCount(trace[n].f.inode) <= CAP
    ensures trace[n].taken + GetCount(trace[n].f.inode) + DroppedBy(trace, events, n) + OverwrittenBy(trace, events, n)
      == trace[n].periods
  {
    hide GetCount;
    hide Interleave;
    hide Dropped;
    hide Overwritten;
    if n > 0 {
      PeriodBalance(trace, events, n - 1);
      AccountStep(trace[n - 1], events[n - 1]);
    }
  }

  /** In every state of a run all ended periods are accounted for, if and only if no
      decrement meets a count other than the one its read looked at. */
  lemma NoPeriodLostExactly(trace: seq<Reader>, events: seq<ReadStep>)
    requires IsInterleaving(trace, events) && Starts(trace[0])
    ensures (forall n :: 0 <= n <= |events| ==> Accounted(trace, events, n))
      <==> forall i :: 0 <= i < |events| && events[i].Commit? ==> trace[i].seen == GetCount(trace[i].f.inode)
  {
    hide GetCount;
    hide Enabled;
    hide Interleave;
    forall n | 0 <= n <= |events|
      ensures Accounted(trace, events, n) <==> OverwrittenBy(trace, events, n) == 0
    {
      PeriodBalance(trace, events, n);
    }
    if forall n :: 0 <= n <= |events| ==> Accounted(trace, events, n) {
      forall i | 0 <= i < |events| && events[i].Commit?
        ensures trace[i].seen == GetCount(trace[i].f.inode)
      {
        assert Accounted(trace, events, i) && Accounted(trace, events, i + 1);
      }
    }
    if forall i :: 0 <= i < |events| && events[i].Commit? ==> trace[i].seen == GetCount(trace[i].f.inode) {
      forall n | 0 <= n <= |events|
        ensures Accounted(trace, events, n)
      {
        NothingOverwritten(trace, events, n);
      }
    }
  }

  lemma {:induction false} NothingOverwritten(trace: seq<Reader>, events: seq<ReadStep>, n: nat)
    requires n <= |events| < |trace|
    requires forall i :: 0 <= i < |events| && events[i].Commit? ==> trace[i].seen == GetCount(trace[i].f.inode)
    ensures OverwrittenBy(trace, events, n) == 0
  {
    hide GetCount;
    if n > 0 {
      NothingOverwritten(trace, events, n - 1);
    }
  }

  /** Without rate changes nothing is brought back, so a lost period stays lost: after
      n steps all are accounted for if and only if no decrement so far has met a
      count above the one its read looked at. */
  lemma LossIsFinal(trace: seq<Reader>, events: seq<ReadStep>, n: nat)
    requires IsInterleaving(trace, events) && n <= |events| && Starts(trace[0])
    requires forall i :: 0 <= i < |events| ==> !events[i].Reset?
    ensures Accounted(trace, events, n)
      <==> forall i :: 0 <= i < n && events[i].Commit? ==> GetCount(trace[i].f.inode) <= trace[i].seen
  {
    hide GetCount;
    hide Enabled;
    hide Interleave;
    PeriodBalance(trace, events, n);
    LossGrows(trace, events, n);
  }

  lemma {:induction false} LossGrows(trace: seq<Reader>, events: seq<ReadStep>, n: nat)
    requires IsInterleaving(trace, events) && n <= |events| && Starts(trace[0])
    requires forall i :: 0 <= i < |events| ==> !events[i].Reset?
    ensures trace[n].seen <= GetCount(trace[n].f.inode) && OverwrittenBy(trace, events, n) >= 0
    ensures OverwrittenBy(trace, events, n) == 0
      <==> forall i :: 0 <= i < n && events[i].Commit? ==> GetCount(trace[i].f.inode) <= trace[i].seen
  {
    hide GetCount;
    hide Interleave;
    hide Enabled;
    if n > 0 {
      LossGrows(trace, events, n - 1);
      PeriodBalance(trace, events, n - 1);
      assert Enabled(trace[n - 1], events[n - 1]);
      AccountStep(trace[n - 1], events[n - 1]);
    }
  }

  /** A tick that ends a period, below the cap, between a read's check and decrement. */
  predicate Late(r: Reader, e: ReadStep) {
    e.Tick? && r.seen > 0 && Ends(r.f) && GetCount(r.f.inode) < CAP
  }

  /** A late tick whose read has not returned. */
  ghost predicate Unreturned(trace: seq<Reader>, events: seq<ReadStep>, n: nat)
    requires n <= |events| < |trace|
  {
    exists i :: 0 <= i < n && Late(trace[i], events[i]) && NoCommit(events, i, n)
  }

  ghost predicate NoCommit(events: seq<ReadStep>, i: nat, n: nat)
    requires n <= |events|
  {
    forall j :: i < j < n ==> !events[j].Commit?
  }

  /** A late tick whose read has returned. */
  ghost predicate Returned(trace: seq<Reader>, events: seq<ReadStep>, n: nat)
    requires n <= |events| < |trace|
  {
    exists i :: 0 <= i < n && Late(trace[i], events[i]) && !NoCommit(events, i, n)
  }

  lemma LateStep(r: Reader, e: ReadStep)
    requires Enabled(r, e) && !e.Reset? && GetCount(r.f.inode) <= CAP && r.seen <= GetCount(r.f.inode)
    ensures var r' := Interleave(r, e);
      (r'.seen > 0 && GetCount(r'.f.inode) > r'.seen
       <==> (!e.Commit? && r.seen > 0 && GetCount(r.f.inode) > r.seen) || Late(r, e))
  {
    match e
    case Tick =>
      if Ends(r.f) {
        SetCountLaws(r.f.inode, if GetCount(r.f.inode) + 1 > CAP then CAP else GetCount(r.f.inode) + 1);
      }
    case Check =>
    case Commit =>
      SetCountLaws(r.f.inode, r.seen - 1);
    hide GetCount;
    hide SetCount;
  }

  /** The steps so far decide it: without rate changes no period has been lost if and
      only if no read that has returned had a late tick. */
  lemma {:induction false} LostByLateTicks(trace: seq<Reader>, events: seq<ReadStep>, n: nat)
    requires IsInterleaving(trace, events) && n <= |events| && Starts(trace[0])
    requires forall i :: 0 <= i < |events| ==> !events[i].Reset?
    ensures Accounted(trace, events, n) <==> !Returned(trace, events, n)
    ensures trace[n].seen > 0 && GetCount(trace[n].f.inode) > trace[n].seen <==> Unreturned(trace, events, n)
  {
    hide GetCount;
    hide Enabled;
    hide Interleave;
    hide Late;
    hide Accounted;
    hide Returned;
    hide Unreturned;
    LossIsFinal(trace, events, n);
    if n == 0 {
      NothingLate(trace, events);
    } else {
      var p := n - 1;
      LostByLateTicks(trace, events, p);
      LossIsFinal(trace, events, p);
      LossGrows(trace, events, p);
      PeriodBalance(trace, events, p);
      assert Enabled(trace[p], events[p]) && trace[n] == Interleave(trace[p], events[p]);
      LateStep(trace[p], events[p]);
      LateSplit(trace, events, p);
      EnabledCommit(trace[p], events[p]);
    }
  }

  lemma EnabledCommit(r: Reader, e: ReadStep)
    requires Enabled(r, e)
    ensures e.Commit? ==> r.seen > 0 && !Late(r, e)
  {
  }

  lemma NothingLate(trace: seq<Reader>, events: seq<ReadStep>)
    requires |events| < |trace|
    ensures !Returned(trace, events, 0) && !Unreturned(trace, events, 0)
  {
  }

  /** A decrement turns the late ticks before it into returned ones. */
  lemma LateSplit(trace: seq<Reader>, events: seq<ReadStep>, p: nat)
    requires p < |events| < |trace|
    ensures events[p].Commit? ==>
      && (Returned(trace, events, p + 1) <==> Returned(trace, events, p) || Unreturned(trace, events, p))
      && (Unreturned(trace, events, p + 1) <==> Late(trace[p], events[p]))
    ensures !events[p].Commit? ==>
      && (Returned(trace, events, p + 1) <==> Returned(trace, events, p))
      && (Unreturned(trace, events, p + 1) <==> Unreturned(trace, events, p) || Late(trace[p], events[p]))
  {
    hide Late;
    forall i | 0 <= i < p
      ensures NoCommit(events, i, p + 1) <==> NoCommit(events, i, p) && !events[p].Commit?
    {
    }
    assert NoCommit(events, p, p + 1);
  }

  // ---- the same told from the steps, rate changes included ----

  /** The last rate change strictly between steps i and j, or i. */
  function LastReset(events: seq<ReadStep>, i: nat, j: nat): (k: nat)
    requires i < j <= |events|
    ensures i <= k < j
    decreases j
  {
    if j == i + 1 then i else if events[j - 1].Reset? then j - 1 else LastReset(events, i, j - 1)
  }

  /** The steps from first up to last that end a period below the cap. */
  ghost function Ended(trace: seq<Reader>, events: seq<ReadStep>, first: nat, last: nat): nat
    requires first <= last <= |events| < |trace|
    decreases last
  {
    if first == last then 0
    else
      Ended(trace, events, first, last - 1) +
      if events[last - 1].Tick? && Ends(trace[last - 1].f) && GetCount(trace[last - 1].f.inode) < CAP then 1 else 0
  }

  /** A read looks at the count in step i and decrements it in step j. */
  predicate Reads(events: seq<ReadStep>, i: nat, j: nat)
    requires i < j < |events|
  {
    events[i].Check? && events[j].Commit? && Quiet(events, i, j)
  }

  predicate Quiet(events: seq<ReadStep>, i: nat, j: nat)
    requires j <= |events|
  {
    forall k :: i < k < j ==> !events[k].Check? && !events[k].Commit?
  }

  /** The periods that a read that looked in step i finds in step j: those it saw and
      those that ended since, or after a rate change those that ended since that. */
  ghost function Found(trace: seq<Reader>, events: seq<ReadStep>, i: nat, j: nat): nat
    requires i < j <= |events| < |trace|
  {
    var k := LastReset(events, i, j);
    (if k == i then GetCount(trace[i].f.inode) else 0) + Ended(trace, events, k + 1, j)
  }

  lemma FoundStep(r: Reader, e: ReadStep)
    requires Enabled(r, e) && GetCount(r.f.inode) <= CAP && !e.Commit?
    ensures GetCount(Interleave(r, e).f.inode) ==
      if e.Reset? then 0
      else GetCount(r.f.inode) + if e.Tick? && Ends(r.f) && GetCount(r.f.inode) < CAP then 1 else 0
  {
    hide GetCount;
    hide SetCount;
    match e
    case Tick =>
      if Ends(r.f) {
        SetCountLaws(r.f.inode, if GetCount(r.f.inode) + 1 > CAP then CAP else GetCount(r.f.inode) + 1);
      }
    case Reset(pow, freqPow) =>
      ResetFields(pow, freqPow);
    case Check =>
  }

  lemma {:induction false} CountIsFound(trace: seq<Reader>, events: seq<ReadStep>, i: nat, j: nat)
    requires IsInterleaving(trace, events) && Starts(trace[0])
    requires i < j <= |events| && events[i].Check? && Quiet(events, i, j)
    ensures GetCount(trace[j].f.inode) == Found(trace, events, i, j)
    ensures trace[j].seen == GetCount(trace[i].f.inode)
    decreases j
  {
    hide GetCount;
    hide Enabled;
    hide Interleave;
    PeriodBalance(trace, events, j - 1);
    var r, e := trace[j - 1], events[j - 1];
    assert Enabled(r, e) && trace[j] == Interleave(r, e);
    FoundStep(r, e);
    SeenStep(r, e);
    if i < j - 1 {
      CountIsFound(trace, events, i, j - 1);
    }
  }

  lemma SeenStep(r: Reader, e: ReadStep)
    requires Enabled(r, e)
    ensures Interleave(r, e).seen == if e.Check? then GetCount(r.f.inode) else if e.Commit? then 0 else r.seen
    ensures e.Check? ==> r.seen == 0
    ensures e.Commit? ==> r.seen > 0
  {
    hide GetCount;
  }

  /** A read in progress has looked in some step. */
  lemma {:induction false} LookedBefore(trace: seq<Reader>, events: seq<ReadStep>, j: nat) returns (i: nat)
    requires IsInterleaving(trace, events) && Starts(trace[0]) && j <= |events| && trace[j].seen > 0
    ensures i < j && events[i].Check? && Quiet(events, i, j)
  {
    hide GetCount;
    hide Enabled;
    hide Interleave;
    assert Enabled(trace[j - 1], events[j - 1]) && trace[j] == Interleave(trace[j - 1], events[j - 1]);
    SeenStep(trace[j - 1], events[j - 1]);
    if events[j - 1].Check? {
      i := j - 1;
    } else {
      i := LookedBefore(trace, events, j - 1);
    }
  }

  /** Without a rate change in between no period has ended since the read looked, and
      after one as many have ended since the last as the read saw. */
  ghost predicate ReadMeets(trace: seq<Reader>, events: seq<ReadStep>, i: nat, j: nat)
    requires i < j <= |events| < |trace|
  {
    var k := LastReset(events, i, j);
    Ended(trace, events, k + 1, j) == if k == i then 0 else GetCount(trace[i].f.inode)
  }

  /** Over any run, rate changes included, all ended periods are accounted for in every
      state if and only if the periods between each read's look and its decrement
      meet. */
  lemma NoPeriodLostBySteps(trace: seq<Reader>, events: seq<ReadStep>)
    requires IsInterleaving(trace, events) && Starts(trace[0])
    ensures (forall n :: 0 <= n <= |events| ==> Accounted(trace, events, n))
      <==> forall i, j :: 0 <= i < j < |events| && Reads(events, i, j) ==> ReadMeets(trace, events, i, j)
  {
    hide GetCount;
    hide Enabled;
    hide Interleave;
    hide Accounted;
    hide LastReset;
    hide Ended;
    hide Starts;
    NoPeriodLostExactly(trace, events);
    if forall i, j :: 0 <= i < j < |events| && Reads(events, i, j) ==> ReadMeets(trace, events, i, j) {
      forall j | 0 <= j < |events| && events[j].Commit?
        ensures trace[j].seen == GetCount(trace[j].f.inode)
      {
        assert Enabled(trace[j], events[j]);
        SeenStep(trace[j], events[j]);
        var i := LookedBefore(trace, events, j);
        assert Reads(events, i, j) && ReadMeets(trace, events, i, j);
        CountIsFound(trace, events, i, j);
      }
    }
    forall i, j | 0 <= i < j < |events| && Reads(events, i, j)
      ensures ReadMeets(trace, events, i, j) <==> trace[j].seen == GetCount(trace[j].f.inode)
    {
      CountIsFound(trace, events, i, j);
    }
  }

  // ---- the driver ----

  predicate In(slots: seq<int>, x: int) {
    exists i :: 0 <= i < |slots| && slots[i] == x
  }

  /** f applied to the files in the slots from i on, in slot order, as the loops of
      rtc_set_pi_freq and rtc_isr do. */
  function MapSlots(f: File -> File, slots: seq<int>, files: seq<File>, i: nat): (r: seq<File>)
    requires i <= |slots| && forall k :: 0 <= k < |slots| ==> slots[k] == -1 || 0 <= slots[k] < |files|
    ensures |r| == |files|
    decreases |slots| - i
  {
    if i == |slots| then files
    else if slots[i] == -1 then MapSlots(f, slots, files, i + 1)
    else MapSlots(f, slots, files[slots[i] := f(files[slots[i]])], i + 1)
  }

  ghost predicate Distinct(slots: seq<int>) {
    forall i, j :: 0 <= i < j < |slots| && slots[i] != -1 ==> slots[i] != slots[j]
  }

  /** With distinct slots every registered file is changed once. */
  lemma {:induction false} MapSlotsAt(f: File -> File, slots: seq<int>, files: seq<File>, i: nat, x: nat)
    requires i <= |slots| && forall k :: 0 <= k < |slots| ==> slots[k] == -1 || 0 <= slots[k] < |files|
    requires Distinct(slots) && x < |files|
    ensures MapSlots(f, slots, files, i)[x] == if In(slots[i..], x) then f(files[x]) else files[x]
    decreases |slots| - i
  {
    if i < |slots| {
      var rest := if slots[i] == -1 then files else files[slots[i] := f(files[slots[i]])];
      MapSlotsAt(f, slots, rest, i + 1, x);
      if slots[i] == x {
        assert slots[i..][0] == x;
        assert !In(slots[i + 1..], x);
      } else {
        if In(slots[i..], x) {
          var k :| 0 <= k < |slots[i..]| && slots[i..][k] == x;
          assert slots[i + 1..][k - 1] == x;
        }
        if In(slots[i + 1..], x) {
          var k :| 0 <= k < |slots[i + 1..]| && slots[i + 1..][k] == x;
          assert slots[i..][k + 1] == x;
        }
      }
    }
  }

  /** reset_rtc_info for a file's own frequency. */
  function Renew(pow: nat): File -> File {
    (f: File) => if GetFreq(f.inode) <= pow then ResetInfo(pow, GetFreq(f.inode)) else f
  }

  function ShiftRight(v: nat, n: nat): nat
    decreases n
  {
    if n == 0 then v else ShiftRight(v / 2, n - 1)
  }

  /** sys_counter_step at 2^fp. */
  function StepFor(fp: nat): nat {
    ShiftRight(SYS_MAX_FREQ, fp)
  }

  /** rtc_set_pi_freq at 2^fp. */
  function AtRate(d: Driver, fp: nat): Driver
    requires Sized(d)
  {
    d.(pow := fp, freq := Pow2(fp), step := StepFor(fp), files := MapSlots(Renew(fp), d.slots, d.files, 0))
  }

  /** The branch of rtc_write for a file that needs a higher rate. */
  function Raise(d: Driver, x: nat, fp: nat): Driver
    requires Sized(d) && x < |d.files|
  {
    AtRate(d.(files := d.files[x := d.files[x].(inode := SetFreq(d.files[x].inode, fp))]), fp)
  }

  /** rtc_write: the file's frequency, and a higher system rate if it needs one. */
  function Write(d: Driver, x: nat, freq: nat): (r: (Driver, int))
    requires Sized(d) && x < |d.files|
  {
    if freq > USER_MAX_FREQ then (d, -1)
    else
      var fp := FreqPow(freq, 1);
      if freq != Pow2(fp) then (d, -1)
      else if freq > d.freq then (Raise(d, x, fp), 0)
      else if fp <= d.pow then (d.(files := d.files[x := ResetInfo(d.pow, fp)]), 0)
      else (d, 0)
  }

  function TickElapsed(e: nat, step: nat): nat {
    if e + step >= COUNTER_MAX then 0 else e + step
  }

  /** rtc_isr: the drivers' clocks and the alarm accumulators. */
  function Isr(d: Driver): Driver
    requires Sized(d)
  {
    d.(elapsed := seq(SLOTS, i requires 0 <= i < SLOTS => TickElapsed(d.elapsed[i], d.step)),
       files := MapSlots(f => TickFile(f), d.slots, d.files, 0))
  }

  /** The alarm of some slot goes off on this tick. */
  predicate Alarm(d: Driver)
    requires Sized(d)
  {
    exists i :: 0 <= i < SLOTS && d.elapsed[i] + d.step >= COUNTER_MAX
  }

  function FirstEmpty(slots: seq<int>, i: nat): (r: nat)
    requires i <= |slots|
    ensures i <= r <= |slots| && (r < |slots| ==> slots[r] == -1)
    decreases |slots| - i
  {
    if i == |slots| || slots[i] == -1 then i else FirstEmpty(slots, i + 1)
  }

  /** rtc_open at the default 2 Hz; without a slot the source never returns. */
  function Open(d: Driver, x: nat): Driver
    requires Sized(d) && x < |d.files| && d.pow >= 1 && FirstEmpty(d.slots, 0) < SLOTS
  {
    var i := FirstEmpty(d.slots, 0);
    d.(files := d.files[x := ResetInfo(d.pow, 1)], slots := d.slots[i := x], elapsed := d.elapsed[i := 0])
  }

  function Close(d: Driver, x: nat): Driver
    requires Sized(d)
  {
    d.(slots := seq(SLOTS, i requires 0 <= i < SLOTS => if d.slots[i] == x then -1 else d.slots[i]))
  }

  function Read(d: Driver, x: nat): Driver
    requires Sized(d) && x < |d.files| && 1 <= GetCount(d.files[x].inode) <= CAP
  {
    d.(files := d.files[x := ReadFile(d.files[x], GetCount(d.files[x].inode))])
  }

  /** 2^n divides e, by halving. */
  predicate Multiple(e: nat, n: nat)
    decreases n
  {
    n == 0 || (e % 2 == 0 && Multiple(e / 2, n - 1))
  }

  /** The system rate is 2^pow and at least every registered file's; the alarm
      accumulators are multiples of the step below the 10-second mark. */
  ghost predicate Sound(d: Driver) {
    && Sized(d) && Distinct(d.slots)
    && 1 <= d.pow <= 10 && d.freq == Pow2(d.pow)
    && d.step == Pow2(13 - d.pow)
    && (forall i :: 0 <= i < SLOTS ==> d.elapsed[i] < COUNTER_MAX && Multiple(d.elapsed[i], 13 - d.pow))
    && (forall x :: 0 <= x < |d.files| && In(d.slots, x) ==> Good(d.files[x], d.pow))
  }

  ghost predicate AllBalanced(d: Driver, books: seq<Ledger>) {
    Sized(d) && |books| == |d.files|
    && forall x :: 0 <= x < |d.files| && In(d.slots, x) ==> Balanced(d.files[x], books[x])
  }

  lemma {:induction false} MultipleMeans(e: nat, n: nat) returns (q: nat)
    requires Multiple(e, n)
    ensures e == q * Pow2(n)
  {
    if n == 0 {
      q := e;
    } else {
      q := MultipleMeans(e / 2, n - 1);
      assert e == 2 * (q * Pow2(n - 1));
    }
  }

  /** Below a common multiple there is room for one more step. */
  lemma {:induction false} NextMultiple(e: nat, n: nat, limit: nat)
    requires Multiple(e, n) && Multiple(limit, n) && e < limit
    ensures e + Pow2(n) <= limit && Multiple(e + Pow2(n), n)
    decreases n
  {
    if n > 0 {
      NextMultiple(e / 2, n - 1, limit / 2);
      assert (e + Pow2(n)) / 2 == e / 2 + Pow2(n - 1);
    }
  }

  /** A smaller power divides what a larger one does. */
  lemma {:induction false} SmallerDivides(e: nat, n: nat, m: nat)
    requires Multiple(e, n) && m <= n
    ensures Multiple(e, m)
    decreases m
  {
    if m > 0 {
      SmallerDivides(e / 2, n - 1, m - 1);
    }
  }

  lemma {:induction false} ZeroDivides(n: nat)
    ensures Multiple(0, n)
  {
    if n > 0 {
      ZeroDivides(n - 1);
    }
  }

  lemma LimitDivides(n: nat)
    requires n <= 13
    ensures Multiple(COUNTER_MAX, n)
  {
    assert Multiple(80, 1) && Multiple(160, 2) && Multiple(320, 3) && Multiple(640, 4) && Multiple(1280, 5);
    assert Multiple(2560, 6) && Multiple(5120, 7) && Multiple(10240, 8) && Multiple(20480, 9);
    assert Multiple(40960, 10) && Multiple(COUNTER_MAX, 13);
    SmallerDivides(COUNTER_MAX, 13, n);
  }

  lemma {:induction false} ShiftOfPower(n: nat, m: nat)
    requires m <= n
    ensures ShiftRight(Pow2(n), m) == Pow2(n - m)
    decreases m
  {
    if m > 0 {
      assert Pow2(n) / 2 == Pow2(n - 1);
      ShiftOfPower(n - 1, m - 1);
    }
  }

  /** The shift that gives the step of a rate. */
  lemma StepOfRate(pow: nat)
    requires pow <= 13
    ensures StepFor(pow) == Pow2(13 - pow)
  {
    assert Pow2(5) == 32 && Pow2(10) == 1024 && Pow2(13) == 8192;
    ShiftOfPower(13, pow);
  }

  /** An accumulator reaches the 10-second mark exactly, and never passes it. */
  lemma AlarmExact(d: Driver, i: nat)
    requires Sound(d) && i < SLOTS
    ensures d.elapsed[i] + d.step <= COUNTER_MAX
    ensures Isr(d).elapsed[i] == if d.elapsed[i] + d.step == COUNTER_MAX then 0 else d.elapsed[i] + d.step
    ensures Isr(d).elapsed[i] < COUNTER_MAX && Multiple(Isr(d).elapsed[i], 13 - d.pow)
  {
    hide Multiple;
    hide Good;
    LimitDivides(13 - d.pow);
    ZeroDivides(13 - d.pow);
    NextMultiple(d.elapsed[i], 13 - d.pow, COUNTER_MAX);
  }

  // ---- every operation keeps the driver sound ----

  lemma InSlot(slots: seq<int>, i: nat, x: int)
    requires i < |slots|
    ensures forall y: int :: In(slots[i := x], y) ==> y == x || In(slots, y)
    ensures In(slots[i := x], x)
    ensures slots[i] == -1 ==> forall y: int :: In(slots, y) && y != -1 ==> In(slots[i := x], y)
  {
    assert slots[i := x][i] == x;
    forall y: int | In(slots, y) && slots[i] == -1 && y != -1
      ensures In(slots[i := x], y)
    {
      var k :| 0 <= k < |slots| && slots[k] == y;
      assert slots[i := x][k] == y;
    }
  }

  lemma OpenSound(d: Driver, books: seq<Ledger>, x: nat)
    requires Sound(d) && AllBalanced(d, books) && x < |d.files| && !In(d.slots, x)
    requires FirstEmpty(d.slots, 0) < SLOTS
    ensures Sound(Open(d, x)) && AllBalanced(Open(d, x), books[x := NEW_LEDGER])
  {
    NotIn(d.slots, x);
    hide Good;
    hide Balanced;
    hide In;
    hide Multiple;
    hide ResetInfo;
    hide FirstEmpty;
    ResetGood(d.pow, 1);
    ZeroDivides(13 - d.pow);
    InSlot(d.slots, FirstEmpty(d.slots, 0), x);
  }

  lemma NotIn(slots: seq<int>, x: int)
    requires !In(slots, x)
    ensures forall i :: 0 <= i < |slots| ==> slots[i] != x
  {
  }

  lemma InClosed(d: Driver, x: nat, y: int)
    requires Sized(d) && y >= 0
    ensures In(Close(d, x).slots, y) <==> In(d.slots, y) && y != x
  {
    if In(d.slots, y) && y != x {
      var k :| 0 <= k < SLOTS && d.slots[k] == y;
      assert Close(d, x).slots[k] == y;
    }
    if In(Close(d, x).slots, y) {
      var k :| 0 <= k < SLOTS && Close(d, x).slots[k] == y;
      assert d.slots[k] == y;
    }
  }

  lemma CloseSound(d: Driver, books: seq<Ledger>, x: nat)
    requires Sound(d) && AllBalanced(d, books)
    ensures Sound(Close(d, x)) && AllBalanced(Close(d, x), books)
  {
    hide Good;
    hide Balanced;
    hide In;
    forall y | 0 <= y < |d.files|
      ensures In(Close(d, x).slots, y) <==> In(d.slots, y) && y != x
    {
      InClosed(d, x, y);
    }
  }

  lemma ReadSound(d: Driver, books: seq<Ledger>, x: nat)
    requires Sound(d) && AllBalanced(d, books) && x < |d.files| && In(d.slots, x)
    requires GetCount(d.files[x].inode) >= 1
    ensures GetCount(d.files[x].inode) <= CAP
    ensures Sound(Read(d, x)) && AllBalanced(Read(d, x), books[x := books[x].(taken := books[x].taken + 1)])
  {
    hide Balanced;
    hide In;
    hide ReadFile;
    hide Multiple;
    hide GetCount;
    hide GetFreq;
    hide GetRatio;
    hide Pow2;
    hide Distinct;
    ReadGood(d.files[x], books[x], d.pow);
  }

  function TickBooks(d: Driver, books: seq<Ledger>): seq<Ledger>
    requires |books| == |d.files|
  {
    seq(|books|, x requires 0 <= x < |books| =>
      if In(d.slots, x) then TickLedger(d.files[x], books[x]) else books[x])
  }

  /** A tick of the whole driver is a tick of each registered file. */
  lemma IsrAt(d: Driver, x: nat)
    requires Sized(d) && Distinct(d.slots) && x < |d.files|
    ensures Isr(d).files[x] == if In(d.slots, x) then TickFile(d.files[x]) else d.files[x]
  {
    MapSlotsAt(f => TickFile(f), d.slots, d.files, 0, x);
    assert d.slots[0..] == d.slots;
  }

  lemma IsrSound(d: Driver, books: seq<Ledger>)
    requires Sound(d) && AllBalanced(d, books)
    ensures Sound(Isr(d)) && AllBalanced(Isr(d), TickBooks(d, books))
  {
    hide Good;
    hide Balanced;
    hide In;
    hide TickFile;
    hide TickLedger;
    forall x | 0 <= x < |d.files| && In(d.slots, x)
      ensures Good(Isr(d).files[x], d.pow) && Balanced(Isr(d).files[x], TickBooks(d, books)[x])
    {
      IsrAt(d, x);
      TickGood(d.files[x], books[x], d.pow);
    }
    forall i | 0 <= i < SLOTS
      ensures Isr(d).elapsed[i] < COUNTER_MAX && Multiple(Isr(d).elapsed[i], 13 - d.pow)
    {
      AlarmExact(d, i);
    }
  }

  lemma RaisedAt(d: Driver, x: nat, fp: nat, y: nat)
    requires Sound(d) && x < |d.files| && y < |d.files| && In(d.slots, y) && d.pow < fp <= 10
    ensures Raise(d, x, fp).files[y] == ResetInfo(fp, if y == x then fp else GetFreq(d.files[y].inode))
    ensures 1 <= (if y == x then fp else GetFreq(d.files[y].inode)) <= fp
  {
    hide In;
    hide Multiple;
    var files := d.files[x := d.files[x].(inode := SetFreq(d.files[x].inode, fp))];
    MapSlotsAt(Renew(fp), d.slots, files, 0, y);
    assert d.slots[0..] == d.slots;
    SetterLaws(d.files[x].inode, fp);
    hide GetFreq;
    hide SetFreq;
    hide ResetInfo;
  }

  /** A write that needs a higher rate renews every registered file at it. */
  lemma RaiseSound(d: Driver, books: seq<Ledger>, x: nat, fp: nat)
    requires Sound(d) && AllBalanced(d, books) && x < |d.files| && In(d.slots, x)
    requires d.pow < fp <= 10
    ensures Sound(Raise(d, x, fp))
    ensures AllBalanced(Raise(d, x, fp), seq(|books|, y requires 0 <= y < |books| => NEW_LEDGER))
  {
    hide Good;
    hide Balanced;
    hide In;
    hide Multiple;
    hide ResetInfo;
    hide GetFreq;
    var d' := Raise(d, x, fp);
    forall y | 0 <= y < |d.files| && In(d.slots, y)
      ensures Good(d'.files[y], fp) && Balanced(d'.files[y], NEW_LEDGER)
    {
      RaisedAt(d, x, fp, y);
      ResetGood(fp, if y == x then fp else GetFreq(d.files[y].inode));
    }
    StepOfRate(fp);
    forall i | 0 <= i < SLOTS
      ensures Multiple(d.elapsed[i], 13 - fp)
    {
      SmallerDivides(d.elapsed[i], 13 - d.pow, 13 - fp);
    }
  }

  /** A requested frequency names one power: the search finds it, and whether it is
      above the system's is whether its exponent is. */
  lemma WriteCases(d: Driver, freq: nat)
    requires Sound(d) && freq <= USER_MAX_FREQ && freq == Pow2(FreqPow(freq, 1))
    ensures 1 <= FreqPow(freq, 1) <= 10
    ensures freq > d.freq <==> FreqPow(freq, 1) > d.pow
  {
    hide Good;
    hide Multiple;
    var fp := FreqPow(freq, 1);
    assert Pow2(5) == 32 && Pow2(10) == 1024;
    if fp > 10 {
      Pow2Monotone(10, fp);
    }
    if fp > d.pow {
      Pow2Monotone(d.pow, fp);
    } else if fp < d.pow {
      Pow2Monotone(fp, d.pow);
    }
  }

  /** The books after a write: everything registered starts over when the system
      rate changes, and only the file itself otherwise. */
  function WriteBooks(d: Driver, books: seq<Ledger>, x: nat, freq: nat): seq<Ledger>
    requires Sized(d) && x < |d.files| == |books|
  {
    if Write(d, x, freq).1 != 0 then books
    else if freq > d.freq then seq(|books|, y requires 0 <= y < |books| => NEW_LEDGER)
    else books[x := NEW_LEDGER]
  }

  /** rtc_write accepts exactly the powers of two from 2 to 1024, gives the file
      that frequency, and keeps the rate at or above every file's. */
  lemma WriteSound(d: Driver, books: seq<Ledger>, x: nat, freq: nat)
    requires Sound(d) && AllBalanced(d, books) && x < |d.files| && In(d.slots, x)
    ensures Write(d, x, freq).1 == 0 <==> exists fp :: 1 <= fp <= 10 && freq == Pow2(fp)
    ensures Write(d, x, freq).1 == 0 ==> freq == Pow2(GetFreq(Write(d, x, freq).0.files[x].inode))
    ensures Write(d, x, freq).1 != 0 ==> Write(d, x, freq) == (d, -1)
    ensures Write(d, x, freq).0.pow >= d.pow
    ensures Sound(Write(d, x, freq).0) && AllBalanced(Write(d, x, freq).0, WriteBooks(d, books, x, freq))
  {
    hide Good;
    hide Balanced;
    hide In;
    hide Multiple;
    hide ResetInfo;
    hide GetFreq;
    hide Raise;
    var fp := FreqPow(freq, 1);
    if freq <= USER_MAX_FREQ && freq == Pow2(fp) {
      WriteCases(d, freq);
      if freq > d.freq {
        RaiseSound(d, books, x, fp);
        RaisedAt(d, x, fp, x);
        ResetGood(fp, fp);
        assert Raise(d, x, fp).pow == fp by {
          RaisedPow(d, x, fp);
        }
      } else {
        ResetGood(d.pow, fp);
      }
    } else {
      NoPower(freq);
    }
  }

  lemma RaisedPow(d: Driver, x: nat, fp: nat)
    requires Sized(d) && x < |d.files|
    ensures Raise(d, x, fp).pow == fp
  {
  }

  lemma NoPower(freq: nat)
    requires freq > USER_MAX_FREQ || freq != Pow2(FreqPow(freq, 1))
    ensures forall fp :: 1 <= fp <= 10 ==> freq != Pow2(fp)
  {
    forall fp | 1 <= fp <= 10
      ensures freq != Pow2(fp)
    {
      if freq == Pow2(fp) {
        PowerFound(fp);
      }
    }
  }

  /** The search finds the exponent of a power. */
  lemma PowerFound(fp: nat)
    requires 1 <= fp <= 10
    ensures FreqPow(Pow2(fp), 1) == fp && Pow2(fp) <= USER_MAX_FREQ
  {
    hide Pow2;
    hide FreqPow;
    TenthPower();
    Pow2Monotone(fp, 10);
    var g := FreqPow(Pow2(fp), 1);
    if g > fp {
      Pow2Monotone(fp, g - 1);
    }
    if g < fp {
      Pow2Monotone(g, fp);
    }
  }

  lemma TenthPower()
    ensures Pow2(10) == 1024
  {
    assert Pow2(5) == 32;
  }

  // ---- whole runs ----

  datatype Event =
    | DoOpen(x: nat)
    | DoWrite(x: nat, freq: nat)
    | DoClose(x: nat)
    | DoRead(x: nat)
    | DoTick

  /** A file is opened once, into a free slot, and used while open; a read returns
      when a period is pending. */
  predicate Possible(d: Driver, e: Event)
    requires Sized(d)
  {
    match e
    case DoOpen(x) => x < |d.files| && !In(d.slots, x) && FirstEmpty(d.slots, 0) < SLOTS
    case DoWrite(x, _) => x < |d.files| && In(d.slots, x)
    case DoClose(x) => x < |d.files| && In(d.slots, x)
    case DoRead(x) => x < |d.files| && In(d.slots, x) && 1 <= GetCount(d.files[x].inode) <= CAP
    case DoTick => true
  }

  function Step(d: Driver, e: Event): Driver
    requires Sized(d) && Possible(d, e) && d.pow >= 1
  {
    match e
    case DoOpen(x) => Open(d, x)
    case DoWrite(x, freq) => Write(d, x, freq).0
    case DoClose(x) => Close(d, x)
    case DoRead(x) => Read(d, x)
    case DoTick => Isr(d)
  }

  /** The books of a step: ticks and reads are entered, a reset opens a new page. */
  function StepBooks(d: Driver, books: seq<Ledger>, e: Event): seq<Ledger>
    requires Sized(d) && Possible(d, e) && |books| == |d.files|
  {
    match e
    case DoOpen(x) => books[x := NEW_LEDGER]
    case DoWrite(x, freq) => WriteBooks(d, books, x, freq)
    case DoClose(x) => books
    case DoRead(x) => books[x := books[x].(taken := books[x].taken + 1)]
    case DoTick => TickBooks(d, books)
  }

  lemma StepSound(d: Driver, books: seq<Ledger>, e: Event)
    requires Sound(d) && AllBalanced(d, books) && Possible(d, e)
    ensures Sound(Step(d, e)) && AllBalanced(Step(d, e), StepBooks(d, books, e))
    ensures Step(d, e).pow >= d.pow
  {
    hide Sound;
    hide AllBalanced;
    match e
    case DoOpen(x) => OpenSound(d, books, x);
    case DoWrite(x, freq) => WriteSound(d, books, x, freq);
    case DoClose(x) => CloseSound(d, books, x);
    case DoRead(x) => ReadSound(d, books, x);
    case DoTick => IsrSound(d, books);
  }

  ghost predicate IsRun(trace: seq<Driver>, books: seq<seq<Ledger>>, events: seq<Event>) {
    && |trace| == |books| == |events| + 1
    && (forall i :: 0 <= i < |trace| ==> Sized(trace[i]) && trace[i].pow >= 1 && |books[i]| == |trace[i].files|)
    && forall i {:trigger events[i]} :: 0 <= i < |events| ==> Follows(trace[i], books[i], events[i], trace[i + 1], books[i + 1])
  }

  ghost predicate Follows(d: Driver, books: seq<Ledger>, e: Event, d': Driver, books': seq<Ledger>)
    requires Sized(d) && d.pow >= 1 && |books| == |d.files|
  {
    Possible(d, e) && d' == Step(d, e) && books' == StepBooks(d, books, e)
  }

  /** init_rtc: 2 Hz, nothing open. */
  ghost predicate Initial(d: Driver) {
    Sized(d) && d.pow == 1 && d.freq == 2 && d.step == 4096
    && (forall i :: 0 <= i < SLOTS ==> d.slots[i] == -1 && d.elapsed[i] == 0)
  }

  /** In every state of every run the rates are consistent, the ticks of every open
      file are accounted for, and the system rate has never fallen. */
  lemma {:induction false} RunsSound(trace: seq<Driver>, books: seq<seq<Ledger>>, events: seq<Event>, n: nat)
    requires IsRun(trace, books, events) && n < |trace| && Initial(trace[0])
    ensures Sound(trace[n]) && AllBalanced(trace[n], books[n])
    ensures forall m :: 0 <= m <= n ==> trace[m].pow <= trace[n].pow
  {
    if n == 0 {
      InitialSound(trace[0], books[0]);
    } else {
      RunsSound(trace, books, events, n - 1);
      assert Follows(trace[n - 1], books[n - 1], events[n - 1], trace[n], books[n]);
      StepSound(trace[n - 1], books[n - 1], events[n - 1]);
    }
  }

  lemma InitialSound(d: Driver, books: seq<Ledger>)
    requires Initial(d) && |books| == |d.files|
    ensures Sound(d) && AllBalanced(d, books)
  {
    ZeroDivides(12);
    assert Pow2(1) == 2 && Pow2(5) == 32 && Pow2(10) == 1024 && Pow2(12) == 4096;
  }
}
