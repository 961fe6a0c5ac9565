/** The dashboard's window of traffic samples: rates, the last 30 points, and the padded answer. */
module TrafficWindow {
  import opened Common

  const MAX_INTERFACE_TRAFFIC_POINTS := 30

  /** One reading: the interface counters, the wall clock in seconds, and whether a node can be allocated. */
  datatype Reading = Reading(up: nat, down: nat, time: U32, allocOk: bool)

  datatype Point = Point(up: nat, down: nat, upRate: U32, downRate: U32, time: U32)

  /** What the next rate is computed from. */
  datatype Last = Last(up: nat, down: nat, time: U32)

  const NEVER := Last(0, 0, 0)

  function PerSecond(bytes: nat, seconds: nat): nat
    requires seconds > 0
  {
    bytes / seconds
  }

  /** Bytes per second since the last reading, as a 32-bit number; 0 without one, when the clock did not go on,
      and when the counter fell. */
  function Rate(bytes: nat, lastBytes: nat, now: U32, lastTime: U32): U32 {
    if lastTime > 0 && now > lastTime && bytes > lastBytes then PerSecond(bytes - lastBytes, now - lastTime) % WORD else 0
  }

  function PointOf(last: Last, r: Reading): Point {
    Point(r.up, r.down, Rate(r.up, last.up, r.time, last.time), Rate(r.down, last.down, r.time, last.time), r.time)
  }

  function LastOf(r: Reading): Last { Last(r.up, r.down, r.time) }

  /** All points of a history, the oldest first; a reading without memory leaves no trace. */
  function Points(rs: seq<Reading>): seq<Point> {
    if |rs| == 0 then []
    else if rs[|rs| - 1].allocOk then Points(rs[..|rs| - 1]) + [PointOf(LastAfter(rs[..|rs| - 1]), rs[|rs| - 1])]
    else Points(rs[..|rs| - 1])
  }

  function LastAfter(rs: seq<Reading>): Last {
    if |rs| == 0 then NEVER
    else if rs[|rs| - 1].allocOk then LastOf(rs[|rs| - 1])
    else LastAfter(rs[..|rs| - 1])
  }

  lemma HistoryStep(rs: seq<Reading>, r: Reading)
    ensures Points(rs + [r]) == if r.allocOk then Points(rs) + [PointOf(LastAfter(rs), r)] else Points(rs)
    ensures LastAfter(rs + [r]) == if r.allocOk then LastOf(r) else LastAfter(rs)
  {
    assert (rs + [r])[..|rs|] == rs;
  }

  /** The n newest points, the newest first. */
  function Newest(ps: seq<Point>, n: nat): seq<Point> {
    Reverse(if |ps| > n then ps[|ps| - n..] else ps)
  }

  lemma NewestAppend(ps: seq<Point>, p: Point, n: nat)
    requires n >= 1
    ensures Newest(ps + [p], n) == First([p] + Newest(ps, n), n)
  {
    var old' := if |ps| > n then ps[|ps| - n..] else ps;
    var all := old' + [p];
    assert all[..|old'|] == old';
    if |old'| == n {
      assert (ps + [p])[|ps| + 1 - n..] == all[1..];
      ReverseTail(all);
    } else {
      assert ps + [p] == all;
    }
  }

  lemma {:induction false} ReverseTail<T>(s: seq<T>)
    requires |s| > 0
    ensures Reverse(s[1..]) == Reverse(s)[..|s| - 1]
  {
    if |s| == 1 {
    } else {
      ReverseTail(s[..|s| - 1]);
      assert s[1..][..|s| - 2] == s[..|s| - 1][1..];
    }
  }

  class Window {
    var list: seq<Point>
    var count: nat
    var lastUp: nat
    var lastDown: nat
    var lastTime: U32
    ghost var history: seq<Reading>

    /** The list is the newest 30 points of the history, and the count is its length. */
    ghost predicate Valid()
      reads this
    {
      && list == Newest(Points(history), MAX_INTERFACE_TRAFFIC_POINTS) && count == |list|
      && Last(lastUp, lastDown, lastTime) == LastAfter(history)
    }

    constructor ()
      ensures Valid() && history == []
    {
      list, count, lastUp, lastDown, lastTime := [], 0, 0, 0, 0;
      history := [];
    }

    method AddPoint(r: Reading)
      requires Valid()
      modifies this
      ensures Valid() && history == old(history) + [r]
    {
      hide PerSecond, Newest, Points, LastAfter;
      ZeroPerSecond();
      HistoryStep(history, r);
      history := history + [r];
      var upRate, downRate := 0, 0;
      if lastTime > 0 && r.time > lastTime {
        var upDiff := if r.up > lastUp then r.up - lastUp else 0;
        var downDiff := if r.down > lastDown then r.down - lastDown else 0;
        var timeDiff := r.time - lastTime;
        if timeDiff > 0 {
          upRate := PerSecond(upDiff, timeDiff) % WORD;
          downRate := PerSecond(downDiff, timeDiff) % WORD;
        }
      }
      if !r.allocOk {
        return;
      }
      var node := Point(r.up, r.down, upRate, downRate, r.time);
      NewestAppend(Points(old(history)), node, MAX_INTERFACE_TRAFFIC_POINTS);
      NewestAt(Points(old(history)), MAX_INTERFACE_TRAFFIC_POINTS);
      assert node == PointOf(LastAfter(old(history)), r);
      list := [node] + list;
      count := count + 1;
      if count > MAX_INTERFACE_TRAFFIC_POINTS {
        list := list[..|list| - 1];
        count := count - 1;
      }
      lastUp := r.up;
      lastDown := r.down;
      lastTime := r.time;
    }

    /** The answer to the dashboard: the rates from the oldest point on, padded with zeros to 30 pairs. */
    method Dashboard() returns (pairs: seq<(U32, U32)>)
      requires Valid()
      ensures |pairs| == MAX_INTERFACE_TRAFFIC_POINTS
      ensures var ps := Points(history); var n := if |ps| > 30 then 30 else |ps|;
              && (forall i :: 0 <= i < n ==> pairs[i] == (ps[|ps| - n + i].upRate, ps[|ps| - n + i].downRate))
              && (forall i :: n <= i < 30 ==> pairs[i] == (0, 0))
    {
      pairs := [];
      ghost var ps := Points(history);
      ghost var n := if |ps| > 30 then 30 else |ps|;
      NewestAt(ps, 30);
      assert |list| == n;
      var i := |list|;
      while i > 0
        invariant 0 <= i <= |list| == n && |pairs| == n - i
        invariant forall k :: 0 <= k < |pairs| ==> pairs[k] == (ps[|ps| - n + k].upRate, ps[|ps| - n + k].downRate)
      {
        i := i - 1;
        assert list[i] == ps[|ps| - 1 - i];
        pairs := pairs + [(list[i].upRate, list[i].downRate)];
      }
      var current := count;
      while current < MAX_INTERFACE_TRAFFIC_POINTS
        invariant n <= current <= MAX_INTERFACE_TRAFFIC_POINTS && |pairs| == current
        invariant forall k :: 0 <= k < n ==> pairs[k] == (ps[|ps| - n + k].upRate, ps[|ps| - n + k].downRate)
        invariant forall k :: n <= k < current ==> pairs[k] == (0, 0)
      {
        pairs := pairs + [(0, 0)];
        current := current + 1;
      }
    }
  }

  lemma NewestAt(ps: seq<Point>, n: nat)
    ensures |Newest(ps, n)| == if |ps| > n then n else |ps|
    ensures forall i :: 0 <= i < |Newest(ps, n)| ==> Newest(ps, n)[i] == ps[|ps| - 1 - i]
  {
    var tail := if |ps| > n then ps[|ps| - n..] else ps;
    forall i | 0 <= i < |tail| ensures Reverse(tail)[i] == ps[|ps| - 1 - i] {
      ReverseAt(tail, i);
    }
  }

  lemma ZeroPerSecond()
    ensures forall t: nat :: t > 0 ==> PerSecond(0, t) == 0
  {
  }

  // ---------------------------------------------------------------- rates and bytes

  /** Two readings of a working interface: the clock went on, the counters did not fall, and the rates fit 32 bits. */
  predicate Steady(a: Reading, b: Reading) {
    && 0 < a.time < b.time && a.up <= b.up && a.down <= b.down
    && PerSecond(b.up - a.up, b.time - a.time) < WORD
    && PerSecond(b.down - a.down, b.time - a.time) < WORD
  }

  function KeptOne(r: Reading): Option<Reading> { if r.allocOk then Some(r) else None }

  /** The readings that found memory. */
  function Kept(rs: seq<Reading>): seq<Reading> { Gather(rs, KeptOne) }

  /** The other readings leave no trace. */
  lemma {:induction false} OnlyKeptCount(rs: seq<Reading>)
    ensures AllKept(Kept(rs)) && Points(Kept(rs)) == Points(rs) && LastAfter(Kept(rs)) == LastAfter(rs)
  {
    if |rs| == 0 {
    } else {
      var front, last := rs[..|rs| - 1], rs[|rs| - 1];
      OnlyKeptCount(front);
      if last.allocOk {
        HistoryStep(Kept(front), last);
      }
    }
  }

  predicate AllKept(rs: seq<Reading>) { forall i :: 0 <= i < |rs| ==> rs[i].allocOk }

  predicate AllSteady(rs: seq<Reading>) { forall i :: 0 < i < |rs| ==> Steady(rs[i - 1], rs[i]) }

  /** What a rate stands for over an interval. */
  function RatedBytes(rate: U32, from: U32, to: U32): int { rate * (to as int - from) }

  /** The bytes that the rates from the second point on stand for. */
  function RatedUp(ps: seq<Point>): int {
    if |ps| <= 1 then 0
    else RatedUp(ps[..|ps| - 1]) + RatedBytes(ps[|ps| - 1].upRate, ps[|ps| - 2].time, ps[|ps| - 1].time)
  }

  function RatedDown(ps: seq<Point>): int {
    if |ps| <= 1 then 0
    else RatedDown(ps[..|ps| - 1]) + RatedBytes(ps[|ps| - 1].downRate, ps[|ps| - 2].time, ps[|ps| - 1].time)
  }

  lemma {:induction false} PointsOfKept(rs: seq<Reading>)
    requires AllKept(rs)
    ensures |Points(rs)| == |rs| && LastAfter(rs) == (if |rs| == 0 then NEVER else LastOf(rs[|rs| - 1]))
    ensures |rs| > 0 ==> Points(rs)[..|rs| - 1] == Points(rs[..|rs| - 1])
    ensures |rs| > 0 ==> Points(rs)[|rs| - 1] == PointOf(LastAfter(rs[..|rs| - 1]), rs[|rs| - 1])
  {
    if |rs| == 0 {
    } else {
      PointsOfKept(rs[..|rs| - 1]);
    }
  }

  /** The rates never stand for more bytes than the counters grew by between the first and the last reading that
      was kept, and for fewer by at most one byte less than the seconds of each interval. */
  lemma RatesNearGrowth(rs: seq<Reading>)
    requires AllSteady(Kept(rs)) && |Kept(rs)| > 0
    ensures var ks := Kept(rs); var n := |ks| - 1; var slack := ks[n].time - ks[0].time - n;
            && 0 <= ks[n].up - ks[0].up - RatedUp(Points(rs)) <= slack
            && 0 <= ks[n].down - ks[0].down - RatedDown(Points(rs)) <= slack
  {
    hide Points, LastAfter, Kept, RatedUp, RatedDown, Steady;
    OnlyKeptCount(rs);
    KeptNearGrowth(Kept(rs));
  }

  lemma {:induction false} KeptNearGrowth(rs: seq<Reading>)
    requires AllKept(rs) && AllSteady(rs) && |rs| > 0
    ensures var n := |rs| - 1; var slack := rs[n].time - rs[0].time - n;
            && 0 <= rs[n].up - rs[0].up - RatedUp(Points(rs)) <= slack
            && 0 <= rs[n].down - rs[0].down - RatedDown(Points(rs)) <= slack
  {
    hide RatedBytes, Steady, Rate, Points, LastAfter;
    PointsOfKept(rs);
    if |rs| == 1 {
    } else {
      var n := |rs| - 1;
      var front := rs[..n];
      assert AllSteady(front);
      KeptNearGrowth(front);
      PointsOfKept(front);
      assert Points(rs)[n - 1] == Points(front)[n - 1];
      StepNearGrowth(rs[n - 1], rs[n]);
    }
  }

  lemma StepNearGrowth(a: Reading, b: Reading)
    requires Steady(a, b)
    ensures 0 <= b.up - a.up - RatedBytes(Rate(b.up, a.up, b.time, a.time), a.time, b.time) <= b.time - a.time - 1
    ensures 0 <= b.down - a.down - RatedBytes(Rate(b.down, a.down, b.time, a.time), a.time, b.time) <= b.time - a.time - 1
  {
    RateTimesInterval(b.up, a.up, b.time, a.time);
    RateTimesInterval(b.down, a.down, b.time, a.time);
  }

  lemma RateTimesInterval(bytes: nat, before: nat, now: U32, since: U32)
    requires 0 < since < now && before <= bytes && PerSecond(bytes - before, now - since) < WORD
    ensures 0 <= bytes - before - RatedBytes(Rate(bytes, before, now, since), since, now) <= now - since - 1
  {
    hide PerSecond;
    var d, t := bytes - before, now - since;
    var q := PerSecond(d, t);
    Quotient(d, t);
    SmallMod(q, WORD);
    ZeroPerSecond();
    assert Rate(bytes, before, now, since) == q;
  }

  lemma Quotient(d: nat, t: nat)
    requires t > 0
    ensures 0 <= d - PerSecond(d, t) * t <= t - 1
  {
  }

  // ---------------------------------------------------------------- rates by their numbers

  /** A rate is 0 for the first reading, when the clock did not go on and when the counter did not grow; else it is the
      whole bytes per second of the growth, as a 32-bit number. */
  lemma RateLaw(bytes: nat, lastBytes: nat, now: U32, lastTime: U32)
    ensures lastTime == 0 || now <= lastTime || bytes <= lastBytes ==> Rate(bytes, lastBytes, now, lastTime) == 0
    ensures 0 < lastTime < now && lastBytes < bytes ==>
              Rate(bytes, lastBytes, now, lastTime) == ((bytes - lastBytes) / (now - lastTime)) % 0x1_0000_0000
  {
  }

  /** A point carries the counters and the time of its reading, and the rates of the two counters against the last
      reading that was kept. */
  lemma PointLaw(rs: seq<Reading>, r: Reading)
    requires r.allocOk
    ensures var ps := Points(rs + [r]); var p, last := ps[|ps| - 1], LastAfter(rs);
            && |ps| == |Points(rs)| + 1 && p.up == r.up && p.down == r.down && p.time == r.time
            && p.upRate == Rate(r.up, last.up, r.time, last.time) && p.downRate == Rate(r.down, last.down, r.time, last.time)
            && LastAfter(rs + [r]) == Last(r.up, r.down, r.time)
  {
    HistoryStep(rs, r);
  }
}
