/** The rate the RTC driver keeps, told from the calls so far, and when it is the one
    its design asks for: the largest of the open files. */
module RtcRates {
  import opened Basics
  import opened Rtc

  /** Some open file asks for the system rate itself, which is then the largest. */
  ghost predicate RateWanted(d: Driver)
    requires Sized(d)
  {
    exists x :: 0 <= x < |d.files| && Asks(d, x) == d.pow
  }

  /** The exponent an open file asks for, and 0 for one that is not open. */
  function Asks(d: Driver, x: nat): nat
    requires x < |d.files|
  {
    if In(d.slots, x) then GetFreq(d.files[x].inode) else 0
  }

  lemma WantedMeansLargest(d: Driver)
    requires Sound(d)
    ensures forall x :: 0 <= x < |d.files| ==> Asks(d, x) <= d.pow
    ensures RateWanted(d) <==> exists x :: 0 <= x < |d.files| && In(d.slots, x) && GetFreq(d.files[x].inode) == d.pow
  {
    hide Multiple;
    hide GetFreq;
    hide In;
    if x :| 0 <= x < |d.files| && In(d.slots, x) && GetFreq(d.files[x].inode) == d.pow {
      assert Asks(d, x) == d.pow;
    }
  }

  /** After a close the rate, which stays, is still the largest open one if and only
      if another open file asks for it. */
  lemma CloseExact(d: Driver, x: nat)
    requires Sound(d) && x < |d.files|
    ensures Close(d, x).freq == d.freq && Close(d, x).pow == d.pow
    ensures RateWanted(Close(d, x)) <==> exists y :: 0 <= y < |d.files| && y != x && Asks(d, y) == d.pow
  {
    var d' := Close(d, x);
    forall y | 0 <= y < |d.files|
      ensures Asks(d', y) == if y == x then 0 else Asks(d, y)
    {
      InClosed(d, x, y);
    }
    hide Asks;
    hide Close;
    assert d'.pow == d.pow >= 1 && |d'.files| == |d.files|;
    if RateWanted(d') {
      var y :| 0 <= y < |d.files| && Asks(d', y) == d.pow;
      assert y != x;
    }
  }

  // ---- rates and frequencies told from the calls ----

  /** The frequencies rtc_write accepts. */
  predicate IsRate(freq: nat) {
    freq <= USER_MAX_FREQ && freq == Pow2(FreqPow(freq, 1))
  }

  function NextHighest(high: nat, e: Event): nat {
    if e.DoWrite? && IsRate(e.freq) && FreqPow(e.freq, 1) > high then FreqPow(e.freq, 1) else high
  }

  /** What file x asks for after a call: 2 Hz when opened, and then what was last
      written to it. */
  function NextAsked(asked: nat, e: Event, x: nat): nat {
    match e
    case DoOpen(y) => if y == x then 1 else asked
    case DoWrite(y, freq) => if y == x && IsRate(freq) then FreqPow(freq, 1) else asked
    case DoClose(y) => if y == x then 0 else asked
    case _ => asked
  }

  /** The highest exponent accepted so far, and at least that of 2 Hz. */
  function Highest(events: seq<Event>): nat {
    if events == [] then 1 else NextHighest(Highest(events[..|events| - 1]), events[|events| - 1])
  }

  function Asked(events: seq<Event>, x: nat): nat {
    if events == [] then 0 else NextAsked(Asked(events[..|events| - 1], x), events[|events| - 1], x)
  }

  /** One call, for one file. */
  lemma StepRates(d: Driver, books: seq<Ledger>, e: Event, x: nat)
    requires Sound(d) && AllBalanced(d, books) && Possible(d, e) && x < |d.files|
    ensures |Step(d, e).files| == |d.files|
    ensures Step(d, e).pow == NextHighest(d.pow, e)
    ensures Asks(Step(d, e), x) == NextAsked(Asks(d, x), e, x)
  {
    match e
    case DoOpen(y) => OpenAsks(d, y, x);
    case DoWrite(y, freq) => WriteAsks(d, y, freq, x);
    case DoClose(y) => InClosed(d, y, x);
    case DoRead(y) => ReadAsks(d, y, x);
    case DoTick => TickAsks(d, books, x);
  }

  lemma OpenAsks(d: Driver, y: nat, x: nat)
    requires Sound(d) && Possible(d, DoOpen(y)) && x < |d.files|
    ensures Asks(Open(d, y), x) == if x == y then 1 else Asks(d, x)
  {
    hide In;
    hide GetFreq;
    hide ResetInfo;
    hide FirstEmpty;
    hide Multiple;
    ResetGood(d.pow, 1);
    InSlot(d.slots, FirstEmpty(d.slots, 0), y);
  }

  lemma WriteAsks(d: Driver, y: nat, freq: nat, x: nat)
    requires Sound(d) && y < |d.files| && In(d.slots, y) && x < |d.files|
    ensures var d' := Write(d, y, freq).0;
      && |d'.files| == |d.files| && d'.slots == d.slots
      && d'.pow == NextHighest(d.pow, DoWrite(y, freq))
      && Asks(d', x) == NextAsked(Asks(d, x), DoWrite(y, freq), x)
  {
    hide In;
    hide GetFreq;
    hide ResetInfo;
    hide Multiple;
    hide Raise;
    var fp := FreqPow(freq, 1);
    if IsRate(freq) {
      WriteCases(d, freq);
      if freq > d.freq {
        RaiseAsks(d, y, fp, x);
      } else {
        ResetGood(d.pow, fp);
      }
    }
  }

  lemma RaiseAsks(d: Driver, y: nat, fp: nat, x: nat)
    requires Sound(d) && y < |d.files| && In(d.slots, y) && x < |d.files| && d.pow < fp <= 10
    ensures var d' := Raise(d, y, fp);
      && |d'.files| == |d.files| && d'.slots == d.slots && d'.pow == fp
      && Asks(d', x) == if x == y then fp else Asks(d, x)
  {
    hide In;
    hide GetFreq;
    hide ResetInfo;
    hide Multiple;
    assert Raise(d, y, fp).slots == d.slots && |Raise(d, y, fp).files| == |d.files| && Raise(d, y, fp).pow == fp;
    hide Raise;
    if In(d.slots, x) {
      RaisedAt(d, y, fp, x);
      ResetGood(fp, if x == y then fp else GetFreq(d.files[x].inode));
    }
  }

  lemma ReadAsks(d: Driver, y: nat, x: nat)
    requires Sound(d) && Possible(d, DoRead(y)) && x < |d.files|
    ensures Asks(Read(d, y), x) == Asks(d, x)
  {
    hide In;
    SetCountLaws(d.files[y].inode, GetCount(d.files[y].inode) - 1);
    hide GetFreq;
    hide GetCount;
    hide SetCount;
  }

  lemma TickAsks(d: Driver, books: seq<Ledger>, x: nat)
    requires Sound(d) && AllBalanced(d, books) && x < |d.files|
    ensures |Isr(d).files| == |d.files| && Isr(d).slots == d.slots && Asks(Isr(d), x) == Asks(d, x)
  {
    hide In;
    hide GetFreq;
    hide TickFile;
    hide Balanced;
    hide Good;
    IsrAt(d, x);
    if In(d.slots, x) {
      TickGood(d.files[x], books[x], d.pow);
    }
  }

  /** Over any run the system rate is the highest ever accepted, and each open file
      asks for what was last written to it since it was opened, or 2 Hz. */
  lemma {:induction false} RunRates(trace: seq<Driver>, books: seq<seq<Ledger>>, events: seq<Event>, n: nat, x: nat)
    requires IsRun(trace, books, events) && n < |trace| && Initial(trace[0]) && x < |trace[0].files|
    ensures |trace[n].files| == |trace[0].files|
    ensures trace[n].pow == Highest(events[..n])
    ensures Asks(trace[n], x) == Asked(events[..n], x)
  {
    hide Asks;
    hide Step;
    hide NextHighest;
    hide NextAsked;
    if n == 0 {
      NothingAsked(trace[0], x);
    } else {
      RunRates(trace, books, events, n - 1, x);
      RunsSound(trace, books, events, n - 1);
      assert Follows(trace[n - 1], books[n - 1], events[n - 1], trace[n], books[n]);
      StepRates(trace[n - 1], books[n - 1], events[n - 1], x);
      assert events[..n][..n - 1] == events[..n - 1];
    }
  }

  lemma NothingAsked(d: Driver, x: nat)
    requires Initial(d) && x < |d.files|
    ensures Asks(d, x) == 0
  {
  }

  /** The system rate is the largest open one exactly when some file that is open now
      was last asked for the highest rate ever accepted. */
  lemma RateIsLargestExactly(trace: seq<Driver>, books: seq<seq<Ledger>>, events: seq<Event>, n: nat)
    requires IsRun(trace, books, events) && n < |trace| && Initial(trace[0])
    ensures |trace[n].files| == |trace[0].files|
    ensures RateWanted(trace[n])
      <==> exists x :: 0 <= x < |trace[0].files| && Asked(events[..n], x) == Highest(events[..n])
  {
    hide Asks;
    hide Asked;
    hide Highest;
    SizeKept(trace, books, events, n);
    if RateWanted(trace[n]) {
      var x :| 0 <= x < |trace[n].files| && Asks(trace[n], x) == trace[n].pow;
      RunRates(trace, books, events, n, x);
    }
    if x :| 0 <= x < |trace[0].files| && Asked(events[..n], x) == Highest(events[..n]) {
      RunRates(trace, books, events, n, x);
      assert Asks(trace[n], x) == trace[n].pow;
    }
  }

  lemma {:induction false} SizeKept(trace: seq<Driver>, books: seq<seq<Ledger>>, events: seq<Event>, n: nat)
    requires IsRun(trace, books, events) && n < |trace| && Initial(trace[0])
    ensures |trace[n].files| == |trace[0].files|
  {
    if n > 0 {
      SizeKept(trace, books, events, n - 1);
      assert Follows(trace[n - 1], books[n - 1], events[n - 1], trace[n], books[n]);
    }
  }

  /** Such a close: a system raised to 1024 Hz by a file that is then closed keeps
      interrupting at 1024 Hz for a file that wants 2 Hz. */
  lemma RateStaysHigh(d: Driver, x: nat, y: nat)
    requires Sound(d) && d.pow == 10 && x < |d.files| && y < |d.files| && x != y
    requires Asks(d, x) == 10 && Asks(d, y) == 1
    requires forall z :: 0 <= z < |d.files| && z != x && z != y ==> Asks(d, z) == 0
    ensures RateWanted(d) && Close(d, x).freq == 1024 && !RateWanted(Close(d, x))
  {
    assert Pow2(5) == 32 && Pow2(10) == 1024;
    CloseExact(d, x);
  }

  // ---- a run that gets there ----

  /** A file is opened and raised to 1024 Hz, another is opened, the first is closed. */
  function HighRateEvents(x: nat, y: nat): seq<Event> {
    [DoOpen(x), DoWrite(x, 1024), DoOpen(y), DoClose(x)]
  }

  /** From the driver's start that is possible, and leaves 1024 Hz, which no open file
      asks for. */
  lemma HighRateReached(d: Driver, x: nat, y: nat) returns (trace: seq<Driver>, books: seq<seq<Ledger>>)
    requires Initial(d) && x < |d.files| && y < |d.files| && x != y
    ensures IsRun(trace, books, HighRateEvents(x, y)) && trace[0] == d
    ensures trace[4].freq == 1024 && RateWanted(trace[3]) && !RateWanted(trace[4])
  {
    hide IsRun;
    hide Initial;
    hide Asked;
    hide Highest;
    hide RateWanted;
    trace, books := HighRateRun(d, x, y);
    var events := HighRateEvents(x, y);
    RunLength(trace, books, events);
    RateIsLargestExactly(trace, books, events, 3);
    RateIsLargestExactly(trace, books, events, 4);
    RunRates(trace, books, events, 4, x);
    RunsSound(trace, books, events, 4);
    HighRateAsked(x, y);
    RateOf(trace[4]);
  }

  lemma RunLength(trace: seq<Driver>, books: seq<seq<Ledger>>, events: seq<Event>)
    requires IsRun(trace, books, events)
    ensures |trace| == |events| + 1
  {
  }

  lemma RateOf(d: Driver)
    requires Sound(d) && d.pow == 10
    ensures d.freq == 1024
  {
    TenthPower();
  }

  lemma HighRateRun(d: Driver, x: nat, y: nat) returns (trace: seq<Driver>, books: seq<seq<Ledger>>)
    requires Initial(d) && x < |d.files| && y < |d.files| && x != y
    ensures IsRun(trace, books, HighRateEvents(x, y)) && trace[0] == d
  {
    hide Sound;
    hide AllBalanced;
    hide Follows;
    var b := seq(|d.files|, z => NEW_LEDGER);
    InitialSound(d, b);
    var d1, b1, d2, b2 := FirstRaised(d, b, x, y);
    var d3, b3, d4, b4 := SecondAndClose(d2, b2, x, y);
    trace, books := [d, d1, d2, d3, d4], [b, b1, b2, b3, b4];
    RunOfFour(trace, books, HighRateEvents(x, y));
  }

  lemma FirstRaised(d: Driver, b: seq<Ledger>, x: nat, y: nat)
    returns (d1: Driver, b1: seq<Ledger>, d2: Driver, b2: seq<Ledger>)
    requires Initial(d) && Sound(d) && AllBalanced(d, b) && x < |d.files| && x != y
    ensures Ready(d, b) && Ready(d1, b1) && Ready(d2, b2) && |d2.files| == |d.files|
    ensures Follows(d, b, DoOpen(x), d1, b1) && Follows(d1, b1, DoWrite(x, 1024), d2, b2)
    ensures Sound(d2) && AllBalanced(d2, b2) && d2.slots == d.slots[0 := x]
    ensures !In(d2.slots, y) && FirstEmpty(d2.slots, 0) == 1
  {
    hide Sound;
    hide AllBalanced;
    hide In;
    hide FirstEmpty;
    hide Open;
    hide Write;
    FirstOpens(d, x, y);
    d1, b1 := Taken(d, b, DoOpen(x));
    d2, b2 := Taken(d1, b1, DoWrite(x, 1024));
    WriteAsks(d1, x, 1024, x);
  }

  lemma SecondAndClose(d2: Driver, b2: seq<Ledger>, x: nat, y: nat)
    returns (d3: Driver, b3: seq<Ledger>, d4: Driver, b4: seq<Ledger>)
    requires Sound(d2) && AllBalanced(d2, b2) && Ready(d2, b2) && x < |d2.files| && y < |d2.files|
    requires d2.slots[0] == x && !In(d2.slots, y) && FirstEmpty(d2.slots, 0) == 1
    ensures Ready(d3, b3) && Ready(d4, b4)
    ensures Follows(d2, b2, DoOpen(y), d3, b3) && Follows(d3, b3, DoClose(x), d4, b4)
  {
    hide Sound;
    hide AllBalanced;
    hide In;
    hide FirstEmpty;
    hide Open;
    hide Close;
    SecondOpens(d2.slots, x, y);
    OpenSlots(d2, y);
    d3, b3 := Taken(d2, b2, DoOpen(y));
    d4, b4 := Taken(d3, b3, DoClose(x));
  }

  ghost predicate Ready(d: Driver, books: seq<Ledger>) {
    Sized(d) && d.pow >= 1 && |books| == |d.files|
  }

  lemma OpenSlots(d: Driver, y: nat)
    requires Sized(d) && y < |d.files| && d.pow >= 1 && FirstEmpty(d.slots, 0) < SLOTS
    ensures Open(d, y).slots == d.slots[FirstEmpty(d.slots, 0) := y]
  {
  }

  lemma Taken(d: Driver, books: seq<Ledger>, e: Event) returns (d': Driver, books': seq<Ledger>)
    requires Sound(d) && AllBalanced(d, books) && Possible(d, e) && |d.files| > 0
    ensures Ready(d, books) && Follows(d, books, e, d', books')
    ensures d' == Step(d, e) && Sound(d') && AllBalanced(d', books') && Ready(d', books')
    ensures |d'.files| == |d.files|
  {
    hide Step;
    hide StepBooks;
    hide Possible;
    d', books' := Step(d, e), StepBooks(d, books, e);
    StepSound(d, books, e);
    StepRates(d, books, e, 0);
  }

  lemma FirstOpens(d: Driver, x: nat, y: nat)
    requires Initial(d) && x < |d.files| && x != y
    ensures Possible(d, DoOpen(x)) && Open(d, x).slots == d.slots[0 := x]
    ensures In(Open(d, x).slots, x)
    ensures !In(d.slots[0 := x], y) && FirstEmpty(d.slots[0 := x], 0) == 1
  {
    assert d.slots[0] == -1;
    assert Open(d, x).slots[0] == x;
  }

  /** After the first file the second slot is free, and holds the next one. */
  lemma SecondOpens(slots: seq<int>, x: nat, y: nat)
    requires |slots| == SLOTS && slots[0] == x && FirstEmpty(slots, 0) == 1
    ensures In(slots[1 := y], x)
  {
    assert slots[1 := y][0] == x;
  }

  lemma RunOfFour(trace: seq<Driver>, books: seq<seq<Ledger>>, events: seq<Event>)
    requires |trace| == |books| == 5 && |events| == 4
    requires Ready(trace[0], books[0]) && Ready(trace[1], books[1]) && Ready(trace[2], books[2])
    requires Ready(trace[3], books[3]) && Ready(trace[4], books[4])
    requires Follows(trace[0], books[0], events[0], trace[1], books[1])
    requires Follows(trace[1], books[1], events[1], trace[2], books[2])
    requires Follows(trace[2], books[2], events[2], trace[3], books[3])
    requires Follows(trace[3], books[3], events[3], trace[4], books[4])
    ensures IsRun(trace, books, events)
  {
    hide Follows;
    hide Sized;
  }

  /** Before the close x asks for the highest rate; after it nobody does. */
  lemma HighRateAsked(x: nat, y: nat)
    requires x != y
    ensures var e := HighRateEvents(x, y);
      && Highest(e[..3]) == Highest(e[..4]) == 10 && Asked(e[..3], x) == 10
      && forall z: nat :: Asked(e[..4], z) < 10
  {
    var e := HighRateEvents(x, y);
    Accepted1024();
    hide IsRate;
    hide FreqPow;
    assert e[..4][..3] == e[..3] && e[..3][..2] == e[..2] && e[..2][..1] == e[..1] && e[..1][..0] == [];
    assert Highest(e[..1]) == 1 && Highest(e[..2]) == 10;
    forall z: nat
      ensures Asked(e[..3], z) == (if z == x then 10 else if z == y then 1 else 0)
    {
      assert Asked(e[..1], z) == if z == x then 1 else 0;
      assert Asked(e[..2], z) == if z == x then 10 else 0;
    }
    forall z: nat
      ensures Asked(e[..4], z) < 10
    {
      assert Asked(e[..4], z) == NextAsked(Asked(e[..3], z), e[3], z);
    }
  }

  lemma Accepted1024()
    ensures IsRate(1024) && FreqPow(1024, 1) == 10
  {
    TenthPower();
    PowerFound(10);
  }
}
