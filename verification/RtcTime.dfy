/** The alarm in time: with a tick at f Hz counted as 8192 / f units of 1/8192 second,
    every slot's alarm goes off exactly 10 seconds after its last restart, through any
    changes of the rate. */
module RtcTime {
  import opened Basics
  import opened Rtc

  /** The units one tick lasts. */
  function TickTime(freq: int): int
    requires freq > 0
  {
    8192 / freq
  }

  /** The time of the ticks among steps first up to last. */
  ghost function Time(trace: seq<Driver>, events: seq<Event>, first: nat, last: nat): int
    requires first <= last <= |events| < |trace|
    requires forall k :: 0 <= k < |trace| ==> trace[k].freq > 0
    decreases last
  {
    if first == last then 0
    else Time(trace, events, first, last - 1) + if events[last - 1].DoTick? then TickTime(trace[last - 1].freq) else 0
  }

  /** Slot i counts from 0 again: it has just rung, or a file is opened in it. */
  ghost predicate Restarts(d: Driver, e: Event, i: nat)
    requires Sized(d) && i < 10
  {
    || (e.DoTick? && Rings(d, i))
    || (e.DoOpen? && FirstEmpty(d.slots, 0) == i)
  }

  /** Slot i rings on this tick. */
  predicate Rings(d: Driver, i: nat)
    requires Sized(d) && i < 10
  {
    d.elapsed[i] + d.step >= 81920
  }

  lemma StepIsTickTime(d: Driver)
    requires Sound(d)
    ensures d.freq > 0 && d.step == TickTime(d.freq)
  {
    assert Pow2(1) == 2 && Pow2(2) == 4 && Pow2(3) == 8 && Pow2(4) == 16 && Pow2(5) == 32;
    assert Pow2(6) == 64 && Pow2(7) == 128 && Pow2(8) == 256 && Pow2(9) == 512 && Pow2(10) == 1024;
    assert Pow2(11) == 2048 && Pow2(12) == 4096;
    hide Pow2;
    hide Multiple;
    hide Good;
    hide In;
    hide Distinct;
  }

  /** What an event does to the count of slot i. */
  lemma StepElapsed(d: Driver, e: Event, i: nat)
    requires Sound(d) && Possible(d, e) && i < 10
    ensures var d' := Step(d, e);
      && |d'.elapsed| == 10
      && d'.elapsed[i] == if Restarts(d, e, i) then 0 else d.elapsed[i] + if e.DoTick? then d.step else 0
  {
    hide Good;
    hide In;
    hide Multiple;
    hide ResetInfo;
    hide FirstEmpty;
    hide FreqPow;
    hide Pow2;
    hide StepFor;
    hide MapSlots;
  }

  /** The interrupt reports the alarm exactly when some slot rings. */
  lemma AlarmIsRing(d: Driver)
    requires Sized(d)
    ensures Alarm(d) <==> exists i :: 0 <= i < 10 && Rings(d, i)
  {
    if Alarm(d) {
      var i :| 0 <= i < SLOTS && d.elapsed[i] + d.step >= COUNTER_MAX;
      assert Rings(d, i);
    }
  }

  lemma {:induction false} RunFreqs(trace: seq<Driver>, books: seq<seq<Ledger>>, events: seq<Event>)
    requires IsRun(trace, books, events) && Initial(trace[0])
    ensures forall k :: 0 <= k < |trace| ==> trace[k].freq > 0
  {
    hide IsRun;
    hide Initial;
    forall k | 0 <= k < |trace|
      ensures trace[k].freq > 0
    {
      RunsSound(trace, books, events, k);
      StepIsTickTime(trace[k]);
    }
  }

  /** Since step m, when it was at 0 and since which it has not restarted, slot i has
      counted exactly the time. */
  lemma {:induction false} CountsTime(trace: seq<Driver>, books: seq<seq<Ledger>>, events: seq<Event>,
                                      i: nat, m: nat, n: nat)
    requires IsRun(trace, books, events) && Initial(trace[0]) && i < 10 && m <= n <= |events|
    requires forall k :: 0 <= k < |trace| ==> trace[k].freq > 0
    requires trace[m].elapsed[i] == 0
    requires forall k :: m <= k < n ==> !Restarts(trace[k], events[k], i)
    ensures trace[n].elapsed[i] == Time(trace, events, m, n)
    decreases n
  {
    hide IsRun;
    hide Initial;
    hide Restarts;
    hide Sized;
    RunSize(trace, books, events);
    if m < n {
      CountsTime(trace, books, events, i, m, n - 1);
      RunCounts(trace, books, events, n - 1, i);
      assert !Restarts(trace[n - 1], events[n - 1], i);
    }
  }

  lemma RunSize(trace: seq<Driver>, books: seq<seq<Ledger>>, events: seq<Event>)
    requires IsRun(trace, books, events)
    ensures |trace| == |events| + 1 && forall k :: 0 <= k < |trace| ==> Sized(trace[k])
  {
  }

  /** One step of a run, for slot i. */
  lemma RunCounts(trace: seq<Driver>, books: seq<seq<Ledger>>, events: seq<Event>, p: nat, i: nat)
    requires IsRun(trace, books, events) && Initial(trace[0]) && p < |events| && i < 10
    ensures |trace| == |events| + 1 && Sound(trace[p]) && trace[p].freq > 0
    ensures |trace[p].elapsed| == 10 == |trace[p + 1].elapsed|
    ensures trace[p + 1].elapsed[i] ==
      if Restarts(trace[p], events[p], i) then 0
      else trace[p].elapsed[i] + if events[p].DoTick? then TickTime(trace[p].freq) else 0
  {
    hide Initial;
    hide Step;
    hide Restarts;
    hide Possible;
    hide StepBooks;
    RunsSound(trace, books, events, p);
    assert Follows(trace[p], books[p], events[p], trace[p + 1], books[p + 1]);
    StepElapsed(trace[p], events[p], i);
    StepIsTickTime(trace[p]);
    hide Sound;
    hide IsRun;
  }

  /** A tick rings slot i exactly when, with it, 10 seconds have passed since the slot
      last restarted. */
  lemma RingsAfterTenSeconds(trace: seq<Driver>, books: seq<seq<Ledger>>, events: seq<Event>, i: nat, m: nat, n: nat)
    requires IsRun(trace, books, events) && Initial(trace[0]) && i < 10 && m <= n < |events| && events[n].DoTick?
    requires forall k :: 0 <= k < |trace| ==> trace[k].freq > 0
    requires trace[m].elapsed[i] == 0
    requires forall k :: m <= k < n ==> !Restarts(trace[k], events[k], i)
    ensures Rings(trace[n], i) <==> Time(trace, events, m, n + 1) == 10 * 8192
    ensures Time(trace, events, m, n + 1) <= 10 * 8192
  {
    hide IsRun;
    hide Initial;
    hide Restarts;
    RunSize(trace, books, events);
    CountsTime(trace, books, events, i, m, n);
    RunsSound(trace, books, events, n);
    StepIsTickTime(trace[n]);
    AlarmExact(trace[n], i);
    hide Sound;
  }

  /** No more than 32 periods are ever pending. */
  lemma AtMost32Pending(d: Driver, x: nat)
    requires Sound(d) && x < |d.files| && In(d.slots, x)
    ensures GetCount(d.files[x].inode) <= 32
    ensures GetCount(d.files[x].inode) < 32 && Ends(d.files[x]) ==>
      GetCount(TickFile(d.files[x]).inode) == GetCount(d.files[x].inode) + 1
    ensures GetCount(d.files[x].inode) == 32 && Ends(d.files[x]) ==> GetCount(TickFile(d.files[x]).inode) == 32
  {
    hide GetCount;
    hide SetCount;
    hide In;
    hide Multiple;
    var f := d.files[x];
    if Ends(f) {
      SetCountLaws(f.inode, if GetCount(f.inode) + 1 > 32 then 32 else GetCount(f.inode) + 1);
    }
  }
}
