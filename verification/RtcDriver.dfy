/** The RTC driver on its own variables, in place. */
module RtcDriver {
  import opened Basics
  import opened Rtc

  class RtcDriver {
    var sysFreq: int
    var sysFreqPow: nat
    var sysCounterStep: nat
    /** rtc_files, as indices of descriptors, with -1 for NULL */
    const rtcFiles: array<int>
    const timeElapsed: array<nat>
    /** the inode and pos of every descriptor */
    const files: array<File>

    ghost predicate Valid()
      reads this, rtcFiles
    {
      && rtcFiles.Length == SLOTS && timeElapsed.Length == SLOTS && rtcFiles as object != timeElapsed as object
      && forall i :: 0 <= i < SLOTS ==> rtcFiles[i] == -1 || 0 <= rtcFiles[i] < files.Length
    }

    ghost function Now(): (d: Driver)
      reads this, rtcFiles, timeElapsed, files
    {
      Driver(sysFreq, sysFreqPow, sysCounterStep, rtcFiles[..], timeElapsed[..], files[..])
    }

    constructor (descriptors: nat)
      ensures Valid() && Initial(Now()) && files.Length == descriptors
      ensures fresh(rtcFiles) && fresh(timeElapsed) && fresh(files)
    {
      sysFreq := 2;
      sysFreqPow := 1;
      sysCounterStep := SYS_MAX_FREQ / 2;
      rtcFiles := new int[SLOTS](_ => -1);
      timeElapsed := new nat[SLOTS](_ => 0);
      files := new File[descriptors](_ => File(0, 0));
    }

    method Search(freq: int) returns (fp: nat)
      ensures fp == FreqPow(freq, 1)
    {
      fp := 1;
      while freq > Pow2(fp)
        invariant FreqPow(freq, fp) == FreqPow(freq, 1)
        decreases freq - Pow2(fp)
      {
        fp := fp + 1;
      }
    }

    method ResetFile(x: nat, freqPow: nat)
      requires Valid() && x < files.Length && freqPow <= sysFreqPow
      modifies files
      ensures files[..] == old(files[..])[x := ResetInfo(sysFreqPow, freqPow)]
    {
      files[x] := ResetInfo(sysFreqPow, freqPow);
    }

    /** rtc_set_pi_freq after its checks. */
    method SetRate(fp: nat)
      requires Valid() && FrequenciesBelow(Now(), fp) && fp < 32
      modifies this, files
      ensures Valid() && Now() == AtRate(old(Now()), fp)
    {
      sysFreqPow := fp;
      sysFreq := Pow2(fp);
      sysCounterStep := StepFor(fp);
      RenewAll(fp);
    }

    method RenewAll(fp: nat)
      requires Valid() && FrequenciesBelow(Now(), fp) && fp < 32 && sysFreqPow == fp
      modifies files
      ensures files[..] == MapSlots(Renew(fp), rtcFiles[..], old(files[..]), 0)
    {
      hide Renew;
      hide GetFreq;
      for i := 0 to SLOTS
        invariant FrequenciesBelow(Now(), fp)
        invariant MapSlots(Renew(fp), rtcFiles[..], files[..], i) == MapSlots(Renew(fp), rtcFiles[..], old(files[..]), 0)
      {
        if rtcFiles[i] != -1 {
          RenewFile(rtcFiles[i], fp);
        }
      }
    }

    method RenewFile(x: nat, fp: nat)
      requires Valid() && x < files.Length && GetFreq(files[x].inode) <= fp == sysFreqPow < 32
      modifies files
      ensures files[..] == old(files[..])[x := Renew(fp)(old(files[x]))]
      ensures GetFreq(files[x].inode) == old(GetFreq(files[x].inode))
    {
      ResetFields(fp, GetFreq(files[x].inode));
      ResetFile(x, GetFreq(files[x].inode));
    }

    /** No registered file is faster than 2^fp. */
    static ghost predicate FrequenciesBelow(d: Driver, fp: nat)
      requires Sized(d)
    {
      forall i :: 0 <= i < SLOTS && d.slots[i] != -1 ==> GetFreq(d.files[d.slots[i]].inode) <= fp
    }

    method Write(x: nat, freq: nat) returns (result: int)
      requires Valid() && Sound(Now()) && x < files.Length && In(rtcFiles[..], x)
      modifies this, files
      ensures Valid() && (Now(), result) == Rtc.Write(old(Now()), x, freq)
    {
      if freq > USER_MAX_FREQ {
        return -1;
      }
      var fp := Search(freq);
      if freq != Pow2(fp) {
        return -1;
      }
      WriteCases(Now(), freq);
      hide Good;
      if freq > sysFreq {
        RaisedBelow(Now(), x, fp);
        files[x] := files[x].(inode := SetFreq(files[x].inode, fp));
        SetRate(fp);
      } else {
        ResetFile(x, fp);
      }
      return 0;
    }

    static lemma RaisedBelow(d: Driver, x: nat, fp: nat)
      requires Sound(d) && x < |d.files| && d.pow < fp <= 10
      ensures FrequenciesBelow(d.(files := d.files[x := d.files[x].(inode := SetFreq(d.files[x].inode, fp))]), fp)
    {
      SetterLaws(d.files[x].inode, fp);
      hide SetFreq;
      forall i | 0 <= i < SLOTS && d.slots[i] != -1
        ensures GetFreq(d.files[d.slots[i]].inode) <= fp
      {
        assert In(d.slots, d.slots[i]);
      }
    }

    method Isr() returns (alarm: bool)
      requires Valid()
      modifies timeElapsed, files
      ensures Valid() && Now() == Rtc.Isr(old(Now())) && alarm == Alarm(old(Now()))
    {
      alarm := false;
      for i := 0 to SLOTS
        invariant forall k :: 0 <= k < SLOTS ==>
          timeElapsed[k] == if k < i then TickElapsed(old(timeElapsed[k]), sysCounterStep) else old(timeElapsed[k])
        invariant MapSlots(f => TickFile(f), rtcFiles[..], files[..], i) ==
          MapSlots(f => TickFile(f), rtcFiles[..], old(files[..]), 0)
        invariant alarm <==> exists k :: 0 <= k < i && old(timeElapsed[k]) + sysCounterStep >= COUNTER_MAX
      {
        timeElapsed[i] := timeElapsed[i] + sysCounterStep;
        if timeElapsed[i] >= COUNTER_MAX {
          timeElapsed[i] := 0;
          alarm := true;
        }
        if rtcFiles[i] != -1 {
          CountDown(rtcFiles[i]);
        }
      }
      assert timeElapsed[..] == Rtc.Isr(old(Now())).elapsed;
    }

    method CountDown(x: nat)
      requires x < files.Length
      modifies files
      ensures files[..] == old(files[..])[x := TickFile(old(files[x]))]
    {
      hide GetCount;
      hide SetCount;
      hide GetRatio;
      hide Pow2;
      var f := files[x];
      files[x] := f.(pos := f.pos - 1);
      if files[x].pos <= 0 {
        var count := GetCount(f.inode) + 1;
        if count > CAP {
          count := CAP;
        }
        SetCountLaws(f.inode, count);
        files[x] := File(SetCount(f.inode, count), Pow2(GetRatio(f.inode)));
      }
    }

    /** rtc_read from the end of its wait on. */
    method FinishRead(x: nat)
      requires Valid() && x < files.Length && 1 <= GetCount(files[x].inode) <= CAP
      modifies files
      ensures Valid() && Now() == Rtc.Read(old(Now()), x)
    {
      var count := GetCount(files[x].inode);
      files[x] := ReadFile(files[x], count);
    }

    method Open(x: nat)
      requires Valid() && x < files.Length && sysFreqPow >= 1 && FirstEmpty(rtcFiles[..], 0) < SLOTS
      modifies rtcFiles, timeElapsed, files
      ensures Valid() && Now() == Rtc.Open(old(Now()), x)
    {
      ResetFile(x, 1);
      var i := 0;
      while rtcFiles[i] != -1
        invariant i < SLOTS && FirstEmpty(rtcFiles[..], i) == FirstEmpty(rtcFiles[..], 0)
        decreases SLOTS - i
      {
        i := i + 1;
      }
      rtcFiles[i] := x;
      timeElapsed[i] := 0;
    }

    /** The second loop looks for a frequency above the largest unsigned number, so
        the rate stays as it is. */
    method Close(x: nat) returns (result: int)
      requires Valid() && x < files.Length
      modifies rtcFiles
      ensures Valid() && Now() == Rtc.Close(old(Now()), x) && result == 0
    {
      for i := 0 to SLOTS
        invariant forall k :: 0 <= k < SLOTS ==>
          rtcFiles[k] == if k < i && old(rtcFiles[k]) == x then -1 else old(rtcFiles[k])
      {
        if rtcFiles[i] == x {
          rtcFiles[i] := -1;
        }
      }
      var maxFreq := 0xFFFF_FFFF;
      var found := false;
      for i := 0 to SLOTS
        invariant !found && maxFreq == 0xFFFF_FFFF
      {
        if rtcFiles[i] != -1 && GetFreq(files[rtcFiles[i]].inode) > maxFreq {
          maxFreq := GetFreq(files[rtcFiles[i]].inode);
          found := true;
        }
      }
      return 0;
    }
  }
}
