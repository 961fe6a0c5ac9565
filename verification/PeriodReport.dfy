/** The two-second timer of a client: rates, the activity flag, period traffic and its reports. */
module PeriodReport {
  import opened Common

  datatype Counters = Counters(up: nat, down: nat, upPkts: nat, downPkts: nat)

  const ZERO := Counters(0, 0, 0, 0)

  predicate AtMost(a: Counters, b: Counters) {
    a.up <= b.up && a.down <= b.down && a.upPkts <= b.upPkts && a.downPkts <= b.downPkts
  }

  datatype Rates = Rates(up: nat, down: nat, upPkts: nat, downPkts: nat)

  /** A report that went out: kilobytes as 32-bit numbers and the activity flag. */
  datatype Report = Report(upKb: U32, downKb: U32, active: bool)

  datatype State = State(last: Counters, periodUp: nat, periodDown: nat, rates: Rates, active: bool,
                         activeTime: nat, inactiveTime: nat, timerCount: nat)

  const FRESH := State(ZERO, 0, 0, Rates(0, 0, 0, 0), false, 0, 0, 0)

  /** One tick: the counters it samples, and whether building the report (if one is due) succeeds. */
  datatype Tick = Tick(sample: Counters, reportOk: bool)

  predicate Due(s: State) { s.timerCount >= 30 }

  predicate Emits(s: State, t: Tick) { Due(s) && t.reportOk }

  function ReportOf(s: State): Report {
    Report(s.periodUp / 1024 % WORD, s.periodDown / 1024 % WORD, s.active)
  }

  /** A tick is high when at least 42 packets came down since the tick before. */
  predicate High(before: Counters, sample: Counters) { sample.downPkts - before.downPkts >= 42 }

  /** The state after a tick. */
  function Next(s: State, t: Tick): State
    requires AtMost(s.last, t.sample)
  {
    var up, down := if Emits(s, t) then 0 else s.periodUp, if Emits(s, t) then 0 else s.periodDown;
    var high := High(s.last, t.sample);
    State(t.sample,
          if s.last.up > 0 then up + (t.sample.up - s.last.up) else up,
          if s.last.down > 0 then down + (t.sample.down - s.last.down) else down,
          Rates((t.sample.up - s.last.up) / 2, (t.sample.down - s.last.down) / 2,
                (t.sample.upPkts - s.last.upPkts) / 2, (t.sample.downPkts - s.last.downPkts) / 2),
          high || (s.active && s.inactiveTime + 1 <= 30),
          if high then s.activeTime + 1 else 0,
          if high then 0 else s.inactiveTime + 1,
          (if Due(s) then 0 else s.timerCount) + 1)
  }

  class ClientTimer {
    var last: Counters
    var periodUp: nat
    var periodDown: nat
    var rates: Rates
    var active: bool
    var activeTime: nat
    var inactiveTime: nat
    var timerCount: nat
    var reports: seq<Report>

    function Value(): State
      reads this
    {
      State(last, periodUp, periodDown, rates, active, activeTime, inactiveTime, timerCount)
    }

    constructor ()
      ensures Value() == FRESH && reports == []
    {
      last, rates := ZERO, Rates(0, 0, 0, 0);
      periodUp, periodDown, activeTime, inactiveTime, timerCount := 0, 0, 0, 0, 0;
      active, reports := false, [];
    }

    /** Builds and sends a report; the period counters are cleared only when that succeeded. */
    method SendReport(ok: bool)
      modifies this`periodUp, this`periodDown, this`reports
      ensures reports == old(reports) + (if ok then [ReportOf(old(Value()))] else [])
      ensures if ok then periodUp == periodDown == 0 else periodUp == old(periodUp) && periodDown == old(periodDown)
    {
      if !ok {
        return;
      }
      reports := reports + [Report(periodUp / 1024 % WORD, periodDown / 1024 % WORD, active)];
      periodUp, periodDown := 0, 0;
    }

    method UpdateStatus(flow: Counters)
      requires AtMost(last, flow)
      modifies this
      ensures Value() == Next(old(Value()).(timerCount := 0), Tick(flow, false)).(timerCount := old(timerCount))
      ensures reports == old(reports)
    {
      if last.down > 0 {
        periodDown := periodDown + (flow.down - last.down);
      }
      if last.up > 0 {
        periodUp := periodUp + (flow.up - last.up);
      }
      rates := Rates((flow.up - last.up) / 2, (flow.down - last.down) / 2,
                     (flow.upPkts - last.upPkts) / 2, (flow.downPkts - last.downPkts) / 2);
      last := flow;
      if rates.downPkts > 20 {
        activeTime := activeTime + 1;
        inactiveTime := 0;
        active := true;
      } else {
        inactiveTime := inactiveTime + 1;
        activeTime := 0;
        if active && inactiveTime > 30 {
          active := false;
        }
      }
    }

    method Handler(t: Tick)
      requires AtMost(last, t.sample)
      modifies this
      ensures Value() == Next(old(Value()), t)
      ensures reports == old(reports) + if Emits(old(Value()), t) then [ReportOf(old(Value()))] else []
    {
      if timerCount >= 30 {
        SendReport(t.reportOk);
        timerCount := 0;
      }
      UpdateStatus(t.sample);
      timerCount := timerCount + 1;
    }
  }

  // ---------------------------------------------------------------- runs

  function LastSample(ts: seq<Tick>): Counters { if |ts| == 0 then ZERO else ts[|ts| - 1].sample }

  /** Counters never go back. */
  predicate Rising(ts: seq<Tick>) {
    |ts| == 0 || (Rising(ts[..|ts| - 1]) && AtMost(LastSample(ts[..|ts| - 1]), ts[|ts| - 1].sample))
  }

  function After(ts: seq<Tick>): (s: State)
    requires Rising(ts)
    ensures s.last == LastSample(ts)
  {
    if |ts| == 0 then FRESH else Next(After(ts[..|ts| - 1]), ts[|ts| - 1])
  }

  /** The first sampled counter that is not zero, 0 while there is none. */
  function FirstUp(ts: seq<Tick>): nat {
    if |ts| == 0 then 0
    else if FirstUp(ts[..|ts| - 1]) > 0 then FirstUp(ts[..|ts| - 1])
    else ts[|ts| - 1].sample.up
  }

  function FirstDown(ts: seq<Tick>): nat {
    if |ts| == 0 then 0
    else if FirstDown(ts[..|ts| - 1]) > 0 then FirstDown(ts[..|ts| - 1])
    else ts[|ts| - 1].sample.down
  }

  /** The bytes that all emitted reports stood for. */
  function SentUp(ts: seq<Tick>): nat
    requires Rising(ts)
  {
    if |ts| == 0 then 0
    else
      var s := After(ts[..|ts| - 1]);
      SentUp(ts[..|ts| - 1]) + if Emits(s, ts[|ts| - 1]) then s.periodUp else 0
  }

  function SentDown(ts: seq<Tick>): nat
    requires Rising(ts)
  {
    if |ts| == 0 then 0
    else
      var s := After(ts[..|ts| - 1]);
      SentDown(ts[..|ts| - 1]) + if Emits(s, ts[|ts| - 1]) then s.periodDown else 0
  }

  /** What was reported and what is still pending add up to the growth since the first sample that was not zero,
      whichever reports failed in between. */
  lemma {:induction false} PeriodConserved(ts: seq<Tick>)
    requires Rising(ts)
    ensures SentUp(ts) + After(ts).periodUp == LastSample(ts).up - FirstUp(ts)
    ensures SentDown(ts) + After(ts).periodDown == LastSample(ts).down - FirstDown(ts)
    ensures LastSample(ts).up > 0 <==> FirstUp(ts) > 0
    ensures LastSample(ts).down > 0 <==> FirstDown(ts) > 0
  {
    if |ts| == 0 {
    } else {
      PeriodConserved(ts[..|ts| - 1]);
    }
  }

  /** The kilobytes that the reports say, and how many reports there were. */
  function SentKb(ts: seq<Tick>): (kb: (nat, nat))
    requires Rising(ts)
  {
    if |ts| == 0 then (0, 0)
    else
      var (up, down) := SentKb(ts[..|ts| - 1]);
      var s := After(ts[..|ts| - 1]);
      if Emits(s, ts[|ts| - 1]) then (up + ReportOf(s).upKb, down + ReportOf(s).downKb) else (up, down)
  }

  function Reports(ts: seq<Tick>): nat
    requires Rising(ts)
  {
    if |ts| == 0 then 0
    else Reports(ts[..|ts| - 1]) + if Emits(After(ts[..|ts| - 1]), ts[|ts| - 1]) then 1 else 0
  }

  /** No report of the run stands for 2^42 bytes or more: the kilobyte numbers are not cut to 32 bits. */
  predicate KbFit(ts: seq<Tick>)
    requires Rising(ts)
  {
    |ts| == 0 ||
    (KbFit(ts[..|ts| - 1]) && var s := After(ts[..|ts| - 1]); s.periodUp < 1024 * WORD && s.periodDown < 1024 * WORD)
  }

  /** Rounding to kilobytes loses less than 1024 bytes a report in each direction. */
  lemma {:induction false} KilobyteLoss(ts: seq<Tick>)
    requires Rising(ts) && KbFit(ts)
    ensures 0 <= SentUp(ts) - 1024 * SentKb(ts).0 <= 1023 * Reports(ts)
    ensures 0 <= SentDown(ts) - 1024 * SentKb(ts).1 <= 1023 * Reports(ts)
  {
    if |ts| == 0 {
    } else {
      KilobyteLoss(ts[..|ts| - 1]);
      KilobytesOf(After(ts[..|ts| - 1]).periodUp);
      KilobytesOf(After(ts[..|ts| - 1]).periodDown);
    }
  }

  /** In one report the loss is below 1024 exactly when the number fits. */
  lemma KilobytesOf(bytes: nat)
    ensures 0 <= bytes - 1024 * (bytes / 1024 % WORD) < 1024 <==> bytes < 1024 * WORD
  {
    var kb := bytes / 1024;
    assert kb == WORD * (kb / WORD) + kb % WORD;
  }

  // ---------------------------------------------------------------- when reports fall due

  /** The tick number n + 1 is due for a report exactly when n is 30, 60, 90, ...: ticks 31, 61, 91, ... */
  lemma {:induction false} DueTicks(ts: seq<Tick>)
    requires Rising(ts)
    ensures Due(After(ts)) <==> |ts| > 0 && |ts| % 30 == 0
    ensures After(ts).timerCount == if |ts| == 0 then 0 else (|ts| - 1) % 30 + 1
  {
    if |ts| == 0 {
    } else {
      hide Next;
      DueTicks(ts[..|ts| - 1]);
      CountStep(|ts| - 1);
    }
  }

  lemma CountStep(n: nat)
    ensures var c := if n == 0 then 0 else (n - 1) % 30 + 1;
            n % 30 + 1 == (if c >= 30 then 0 else c) + 1 && (n % 30 + 1 >= 30 <==> (n + 1) % 30 == 0)
  {
  }

  // ---------------------------------------------------------------- activity

  predicate HighAt(ts: seq<Tick>, k: nat)
    requires k < |ts|
  {
    ts[k].sample.downPkts - (if k == 0 then 0 else ts[k - 1].sample.downPkts) >= 42
  }

  predicate LastHigh(ts: seq<Tick>)
    requires |ts| > 0
  {
    HighAt(ts, |ts| - 1)
  }

  predicate SomeHigh(ts: seq<Tick>) { |ts| > 0 && (LastHigh(ts) || SomeHigh(ts[..|ts| - 1])) }

  /** The low ticks since the last high one, or all of them. */
  function LowTail(ts: seq<Tick>): nat {
    if |ts| == 0 || LastHigh(ts) then 0 else 1 + LowTail(ts[..|ts| - 1])
  }

  function HighTail(ts: seq<Tick>): nat {
    if |ts| == 0 || !LastHigh(ts) then 0 else 1 + HighTail(ts[..|ts| - 1])
  }

  /** A client is active exactly when some tick was high and at most 30 low ticks followed the last such tick. */
  lemma {:induction false} Activity(ts: seq<Tick>)
    requires Rising(ts)
    ensures After(ts).active <==> SomeHigh(ts) && LowTail(ts) <= 30
    ensures After(ts).activeTime == HighTail(ts) && After(ts).inactiveTime == LowTail(ts)
    ensures |ts| > 0 ==> (After(ts).activeTime > 0) != (After(ts).inactiveTime > 0)
  {
    if |ts| == 0 {
    } else {
      Activity(ts[..|ts| - 1]);
    }
  }

  /** The same without recursion: some tick was high, and at most 30 ticks came after it. */
  lemma ActiveWhen(ts: seq<Tick>)
    requires Rising(ts)
    ensures After(ts).active <==> exists k :: 0 <= k < |ts| && HighAt(ts, k) && |ts| - 1 - k <= 30
  {
    Activity(ts);
    LowTailPositions(ts);
    if SomeHigh(ts) {
      assert HighAt(ts, |ts| - 1 - LowTail(ts));
    }
  }

  lemma {:induction false} LowTailPositions(ts: seq<Tick>)
    ensures LowTail(ts) <= |ts| && (SomeHigh(ts) <==> LowTail(ts) < |ts|)
    ensures SomeHigh(ts) ==> HighAt(ts, |ts| - 1 - LowTail(ts))
    ensures forall k :: |ts| - LowTail(ts) <= k < |ts| ==> !HighAt(ts, k)
  {
    if |ts| == 0 {
    } else {
      var front := ts[..|ts| - 1];
      LowTailPositions(front);
      forall k | 0 <= k < |front| ensures HighAt(front, k) == HighAt(ts, k) {
      }
    }
  }

  // ---------------------------------------------------------------- rates and reports by their numbers

  /** After any run the rates are half of what each counter grew by in the last tick. */
  lemma {:induction false} RatesOfRun(ts: seq<Tick>)
    requires Rising(ts) && |ts| > 0
    ensures var now := ts[|ts| - 1].sample; var was := if |ts| == 1 then ZERO else ts[|ts| - 2].sample;
            && After(ts).rates.up == (now.up - was.up) / 2 && After(ts).rates.down == (now.down - was.down) / 2
            && After(ts).rates.upPkts == (now.upPkts - was.upPkts) / 2 && After(ts).rates.downPkts == (now.downPkts - was.downPkts) / 2
  {
    assert |ts| > 1 ==> ts[..|ts| - 1][|ts| - 2] == ts[|ts| - 2];
  }

  /** A report says the whole kilobytes of the period, up before down, as 32-bit numbers, and whether the client is active. */
  lemma ReportLaw(s: State)
    ensures var r := ReportOf(s);
            && (s.periodUp < 0x400_0000_0000 ==> 1024 * r.upKb <= s.periodUp < 1024 * r.upKb + 1024)
            && (s.periodDown < 0x400_0000_0000 ==> 1024 * r.downKb <= s.periodDown < 1024 * r.downKb + 1024)
            && r.active == s.active
  {
  }
}
