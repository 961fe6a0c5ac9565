/** Which applications a client report names: the records are zeroed before they are sorted by their counts. */
module VisitReport {
  import opened Common
  import PeriodReport

  datatype Info = Info(appId: U32, totalNum: nat, connCount: nat, isHttp: bool, latestAction: bool)

  /** The two limits can be set at run time to any integers, also negative ones; both start as 3. */
  datatype Limits = Limits(maxAppReport: int, minHttpMatch: int)

  /** The record was used since the last report and is not a web application with few connections. */
  predicate Eligible(i: Info, limits: Limits) {
    i.totalNum > 0 && !(i.isHttp && i.connCount <= limits.minHttpMatch)
  }

  function Cleared(i: Info): Info { i.(totalNum := 0) }

  function Zeroed(infos: seq<Info>): seq<Info> { MapSeq(infos, Cleared) }

  function EligibleOne(limits: Limits): Info -> Option<Info> {
    (i: Info) => if Eligible(i, limits) then Some(i) else None
  }

  function EligibleOnes(infos: seq<Info>, limits: Limits): seq<Info> { Gather(infos, EligibleOne(limits)) }

  /** The kernel's sort compares by count, largest first. */
  function CountOf(i: Info): int { i.totalNum }

  /** How many records are reported; a negative limit reports none. */
  function ReportCount(limits: Limits, n: nat): nat {
    if limits.maxAppReport < 0 then 0 else if n > limits.maxAppReport then limits.maxAppReport else n
  }

  /** Builds the list of reported applications and clears the counts of all records of the table. */
  method BuildList(infos: seq<Info>, limits: Limits, sort: Sorter<Info>) returns (after: seq<Info>, reported: seq<Info>)
    requires forall s :: SortResult(s, sort(s), CountOf)
    ensures |after| == |infos| && forall k :: 0 <= k < |infos| ==> after[k] == Cleared(infos[k])
    ensures |sort(Zeroed(EligibleOnes(infos, limits)))| == |EligibleOnes(infos, limits)|
    ensures reported == sort(Zeroed(EligibleOnes(infos, limits)))[..ReportCount(limits, |EligibleOnes(infos, limits)|)]
  {
    hide Gather, MapSeq;
    NothingPicked(limits);
    after, reported := infos, [];
    var picked: seq<Info> := [];
    for i := 0 to |infos|
      invariant |after| == |infos|
      invariant forall k :: 0 <= k < |infos| ==> after[k] == if k < i then Cleared(infos[k]) else infos[k]
      invariant picked == Zeroed(EligibleOnes(infos[..i], limits))
    {
      ghost var before := EligibleOnes(infos[..i], limits);
      assert infos[..i + 1] == infos[..i] + [infos[i]];
      GatherAppend(infos[..i], infos[i], EligibleOne(limits));
      var info := after[i];
      if info.totalNum == 0 {
        continue;
      }
      if info.isHttp && info.connCount <= limits.minHttpMatch {
        after := after[i := info.(totalNum := 0)];
        continue;
      }
      after := after[i := info.(totalNum := 0)];
      picked := picked + [after[i]];
    }
    assert infos[..|infos|] == infos;
    var count := 0;
    var sorted := sort(picked);
    assert SortResult(picked, sorted, CountOf);
    assert |sorted| == |multiset(sorted)| == |multiset(picked)| == |picked|;
    if |picked| > 0 {
      count := if |picked| > limits.maxAppReport then limits.maxAppReport else |picked|;
    }
    reported := [];
    var i := 0;
    while i < count
      invariant 0 <= i <= |sorted| && (i == 0 || i <= count) && reported == sorted[..i]
    {
      reported := reported + [sorted[i]];
      i := i + 1;
    }
  }

  lemma NothingPicked(limits: Limits)
    ensures Zeroed(EligibleOnes([], limits)) == []
  {
  }

  // ---------------------------------------------------------------- the whole report

  /** How building the report ends: without memory for its object, without memory for its text, or sent. */
  datatype Outcome = NoObject | NoText | Sent

  /** The visit records afterwards: only a failure before the loop leaves their counts. */
  function InfosAfter(infos: seq<Info>, outcome: Outcome): seq<Info> {
    if outcome == NoObject then infos else Zeroed(infos)
  }

  /** A client with its visit records and its period counters. */
  class ReportingClient {
    var infos: seq<Info>
    const timer: PeriodReport.ClientTimer

    constructor ()
      ensures infos == [] && fresh(timer) && timer.Value() == PeriodReport.FRESH
    {
      infos := [];
      timer := new PeriodReport.ClientTimer();
    }

    /** The report: the visit counts are cleared before the text is built, the period counters after it was sent. */
    method Report(limits: Limits, sort: Sorter<Info>, outcome: Outcome) returns (reported: seq<Info>)
      requires forall s :: SortResult(s, sort(s), CountOf)
      modifies this, timer
      ensures infos == InfosAfter(old(infos), outcome)
      ensures outcome != Sent ==> reported == [] && timer.Value() == old(timer.Value()) && timer.reports == old(timer.reports)
      ensures outcome == Sent ==>
                && timer.periodUp == timer.periodDown == 0
                && timer.reports == old(timer.reports) + [PeriodReport.ReportOf(old(timer.Value()))]
                && |sort(Zeroed(EligibleOnes(old(infos), limits)))| == |EligibleOnes(old(infos), limits)|
                && reported == sort(Zeroed(EligibleOnes(old(infos), limits)))[..ReportCount(limits, |EligibleOnes(old(infos), limits)|)]
    {
      if outcome == NoObject {
        return [];
      }
      var after, list := BuildList(infos, limits, sort);
      assert after == Zeroed(infos);
      infos := after;
      timer.SendReport(outcome == Sent);
      reported := if outcome == Sent then list else [];
    }
  }

  /** After a report that was not sent, the visits it was about wait for the next one exactly when it failed before
      the loop; when its text could not be built they are lost, while the period bytes wait in both cases. */
  lemma VisitsCarried(infos: seq<Info>, limits: Limits, outcome: Outcome)
    ensures EligibleOnes(InfosAfter(infos, outcome), limits) == EligibleOnes(infos, limits) <==>
            outcome == NoObject || EligibleOnes(infos, limits) == []
    ensures outcome != NoObject ==> EligibleOnes(InfosAfter(infos, outcome), limits) == []
  {
    GatherNothing(Zeroed(infos), EligibleOne(limits));
  }

  // ---------------------------------------------------------------- which lists can come out

  /** Since all counts are zero by then, every order of the eligible records is a correct result of the sort. */
  lemma AnyOrderSorts(eligible: seq<Info>, order: seq<Info>)
    requires multiset(order) == multiset(eligible)
    ensures SortResult(Zeroed(eligible), Zeroed(order), CountOf)
  {
    ZeroedSet(order, eligible);
    assert Descending(Zeroed(order), CountOf);
  }

  lemma {:induction false} ZeroedSet(a: seq<Info>, b: seq<Info>)
    requires multiset(a) == multiset(b)
    ensures multiset(Zeroed(a)) == multiset(Zeroed(b))
  {
    hide Zeroed;
    assert |a| == |multiset(a)| == |multiset(b)| == |b|;
    if |a| == 0 {
      assert a == b;
    } else {
      var n := |a| - 1;
      assert a[n] in multiset(b);
      var i :| 0 <= i < |b| && b[i] == a[n];
      RemoveOne(b, i);
      RemoveOne(a, n);
      assert a[..n] + a[n + 1..] == a[..n];
      ZeroedSet(a[..n], b[..i] + b[i + 1..]);
      ZeroedRemove(b, i);
      ZeroedRemove(a, n);
    }
  }

  lemma ZeroedRemove(s: seq<Info>, i: nat)
    requires i < |s|
    ensures multiset(Zeroed(s)) == multiset(Zeroed(s[..i] + s[i + 1..])) + multiset{Cleared(s[i])}
  {
    assert s == s[..i] + [s[i]] + s[i + 1..];
    ZeroedConcat(s[..i] + [s[i]], s[i + 1..]);
    ZeroedConcat(s[..i], [s[i]]);
    ZeroedConcat(s[..i], s[i + 1..]);
    assert Zeroed([s[i]]) == [Cleared(s[i])];
  }

  lemma {:induction false} ZeroedConcat(a: seq<Info>, b: seq<Info>)
    ensures Zeroed(a + b) == Zeroed(a) + Zeroed(b)
  {
    if |b| == 0 {
      assert a + b == a;
    } else {
      ZeroedConcat(a, b[..|b| - 1]);
      assert (a + b)[..|a + b| - 1] == a + b[..|b| - 1];
    }
  }

  /** The first n records of an order are a list of the n most used: none of the others was used more. */
  predicate TopN(order: seq<Info>, n: nat) {
    forall i, j :: 0 <= i < n && n <= j < |order| ==> order[i].totalNum >= order[j].totalNum
  }

  /** "The report names the most used applications" does not hold: it holds for every correct sort exactly when
      nothing is reported, all eligible records fit into the report, or all were used equally often. */
  lemma TopNCertain(eligible: seq<Info>, n: nat)
    ensures (forall order: seq<Info> :: multiset(order) == multiset(eligible) ==> TopN(order, n)) <==>
            n == 0 || |eligible| <= n ||
            forall i, j :: 0 <= i < |eligible| && 0 <= j < |eligible| ==> eligible[i].totalNum == eligible[j].totalNum
  {
    if |eligible| > n > 0 && exists i, j :: 0 <= i < |eligible| && 0 <= j < |eligible| && eligible[i].totalNum < eligible[j].totalNum {
      var i, j :| 0 <= i < |eligible| && 0 <= j < |eligible| && eligible[i].totalNum < eligible[j].totalNum;
      var order := WrongOrder(eligible, i, j);
      assert order[0].totalNum < order[|order| - 1].totalNum;
      assert !TopN(order, n);
    }
    forall order: seq<Info> | multiset(order) == multiset(eligible) &&
                   (n == 0 || |eligible| <= n || forall i, j :: 0 <= i < |eligible| && 0 <= j < |eligible| ==> eligible[i].totalNum == eligible[j].totalNum)
      ensures TopN(order, n)
    {
      assert |order| == |multiset(order)| == |multiset(eligible)| == |eligible|;
      forall i, j | 0 <= i < n && n <= j < |order| ensures order[i].totalNum >= order[j].totalNum {
        assert order[i] in multiset(eligible) && order[j] in multiset(eligible);
      }
    }
  }

  /** An order with the less used record first and the more used one last. */
  lemma WrongOrder(s: seq<Info>, i: nat, j: nat) returns (order: seq<Info>)
    requires i < |s| && j < |s| && i != j
    ensures multiset(order) == multiset(s) && |order| == |s| && order[0] == s[i] && order[|order| - 1] == s[j]
  {
    if i < j {
      SplitAt(s, i, j);
      order := EndsMoved(s[..i], s[i], s[i + 1..j], s[j], s[j + 1..]).0;
    } else {
      SplitAt(s, j, i);
      order := EndsMoved(s[..j], s[j], s[j + 1..i], s[i], s[i + 1..]).1;
    }
  }

  lemma SplitAt(s: seq<Info>, i: nat, j: nat)
    requires i < j < |s|
    ensures s == s[..i] + [s[i]] + s[i + 1..j] + [s[j]] + s[j + 1..]
  {
  }

  /** The rest between x and y, and between y and x. */
  function EndsMoved(a: seq<Info>, x: Info, m: seq<Info>, y: Info, c: seq<Info>): (r: (seq<Info>, seq<Info>))
    ensures multiset(r.0) == multiset(r.1) == multiset(a + [x] + m + [y] + c)
    ensures |r.0| == |r.1| == |a + [x] + m + [y] + c|
    ensures r.0[0] == r.1[|r.1| - 1] == x && r.1[0] == r.0[|r.0| - 1] == y
  {
    ([x] + (a + m + c) + [y], [y] + (a + m + c) + [x])
  }

  // ---------------------------------------------------------------- limits by their numbers

  /** A record is reported about exactly when it was used and is not a web application with too few connections; its
      count is cleared, and nothing else. */
  lemma {:induction false} EligibleLaw(infos: seq<Info>, limits: Limits, i: Info)
    ensures i in EligibleOnes(infos, limits) <==>
            i in infos && i.totalNum > 0 && (i.isHttp ==> i.connCount > limits.minHttpMatch)
    ensures Cleared(i) == Info(i.appId, 0, i.connCount, i.isHttp, i.latestAction)
  {
    if |infos| == 0 {
    } else {
      EligibleLaw(infos[..|infos| - 1], limits, i);
      assert infos == infos[..|infos| - 1] + [infos[|infos| - 1]];
    }
  }

  /** As many are reported as there are, but no more than the limit allows. */
  lemma CountLaw(limits: Limits, n: nat)
    ensures var c := ReportCount(limits, n);
            && c <= n && (c <= limits.maxAppReport || c == 0) && (c < n ==> c == limits.maxAppReport || limits.maxAppReport < 0)
  {
  }
}
