/** The daemon's list of the most used applications of a client: bounded aggregation, then the top of a sort. */
module Aggregation {
  import opened Common

  /** At least one place in the visible list. */
  type Places = n: nat | n >= 1 witness 1
  const MAX_APP_STAT_NUM: Places

  datatype Stat = Stat(app: int, time: nat)

  function AppOf(s: Stat): int { s.app }

  function Apps(stats: seq<Stat>): (apps: seq<int>)
    ensures |apps| == |stats| && forall i :: 0 <= i < |apps| ==> apps[i] == stats[i].app
  {
    MapSeq(stats, AppOf)
  }

  /** The exact total of an application. */
  function TotalOf(stats: seq<Stat>, app: int): nat {
    if |stats| == 0 then 0
    else TotalOf(stats[..|stats| - 1], app) + if stats[|stats| - 1].app == app then stats[|stats| - 1].time else 0
  }

  /** The applications with time, in the order in which they first have some. */
  function FirstSeen(stats: seq<Stat>): seq<int> {
    if |stats| == 0 then []
    else
      var front, s := FirstSeen(stats[..|stats| - 1]), stats[|stats| - 1];
      if s.time == 0 || s.app in front then front else front + [s.app]
  }

  function TimeSum(stats: seq<Stat>): nat {
    if |stats| == 0 then 0 else TimeSum(stats[..|stats| - 1]) + stats[|stats| - 1].time
  }

  /** The bounded table: exact totals of the first applications that found a place. */
  ghost predicate IsTable(table: seq<Stat>, stats: seq<Stat>, cap: nat) {
    Apps(table) == First(FirstSeen(stats), cap) &&
    forall i :: 0 <= i < |table| ==> table[i].time == TotalOf(stats, table[i].app)
  }

  lemma {:induction false} FirstSeenFacts(stats: seq<Stat>)
    ensures forall i, j :: 0 <= i < j < |FirstSeen(stats)| ==> FirstSeen(stats)[i] != FirstSeen(stats)[j]
    ensures forall a :: a in FirstSeen(stats) <==> TotalOf(stats, a) > 0
  {
    if |stats| == 0 {
    } else {
      FirstSeenFacts(stats[..|stats| - 1]);
    }
  }

  /** The first place of an application, the length when it has none. */
  ghost function PlaceOf(table: seq<Stat>, app: int): (i: nat)
    ensures i <= |table| && (i < |table| ==> table[i].app == app)
    ensures forall j :: 0 <= j < i ==> table[j].app != app
  {
    if |table| == 0 || table[0].app == app then 0 else 1 + PlaceOf(table[1..], app)
  }

  /** What the loop body does with one more record, having searched up to position i. */
  ghost predicate TableUpdate(table: seq<Stat>, s: Stat, cap: nat, i: nat, next: seq<Stat>) {
    && i <= |table| <= cap
    && (i < |table| ==> table[i].app == s.app)
    && (i == |table| ==> forall j :: 0 <= j < |table| ==> table[j].app != s.app)
    && next == if s.time == 0 then table
               else if i < |table| then table[i := Stat(s.app, table[i].time + s.time)]
               else if |table| < cap then table + [s]
               else table
  }

  /** One more record: it changes nothing without time, adds to the place of its application, opens a place while
      there is room, and is dropped otherwise.  The table stays exact. */
  lemma TableStep(table: seq<Stat>, stats: seq<Stat>, s: Stat, cap: nat, i: nat, next: seq<Stat>)
    requires IsTable(table, stats, cap) && TableUpdate(table, s, cap, i, next)
    ensures IsTable(next, stats + [s], cap)
  {
    var more, seen := stats + [s], FirstSeen(stats);
    assert more[..|stats|] == stats;
    FirstSeenFacts(stats);
    TablePlaces(table, seen, s.app, cap, i);
    TableApps(table, seen, s, cap, i, next, FirstSeen(more));
    forall k | 0 <= k < |next| ensures next[k].time == TotalOf(more, next[k].app) {
      TableTime(table, stats, s, cap, i, next, k);
    }
  }

  /** While there is room every application with time has its place. */
  lemma TablePlaces(table: seq<Stat>, seen: seq<int>, app: int, cap: nat, i: nat)
    requires Apps(table) == First(seen, cap) && i <= |table|
    requires i < |table| ==> table[i].app == app
    requires i == |table| ==> forall j :: 0 <= j < |table| ==> table[j].app != app
    ensures app in seen && |seen| <= cap ==> i < |table|
    ensures i < |table| ==> app in seen
  {
    forall k | 0 <= k < |table| ensures table[k].app == seen[k] {
      assert Apps(table)[k] == seen[k];
    }
  }

  lemma TableTime(table: seq<Stat>, stats: seq<Stat>, s: Stat, cap: nat, i: nat, next: seq<Stat>, k: nat)
    requires IsTable(table, stats, cap) && TableUpdate(table, s, cap, i, next) && k < |next|
    ensures next[k].time == TotalOf(stats + [s], next[k].app)
  {
    assert (stats + [s])[..|stats|] == stats;
    FirstSeenFacts(stats);
    TablePlaces(table, FirstSeen(stats), s.app, cap, i);
    if k < |table| && k != i {
      DistinctPlaces(table, stats, cap, i, k);
    }
  }

  lemma DistinctPlaces(table: seq<Stat>, stats: seq<Stat>, cap: nat, i: nat, k: nat)
    requires IsTable(table, stats, cap) && i <= |table| && k < |table| && k != i
    ensures i < |table| ==> table[i].app != table[k].app
  {
    FirstSeenFacts(stats);
    if i < |table| {
      assert Apps(table)[i] == FirstSeen(stats)[i] && Apps(table)[k] == FirstSeen(stats)[k];
    }
  }

  lemma TableApps(table: seq<Stat>, seen: seq<int>, s: Stat, cap: nat, i: nat, next: seq<Stat>, seen': seq<int>)
    requires Apps(table) == First(seen, cap) && i <= |table| <= cap
    requires i < |table| ==> table[i].app == s.app
    requires i == |table| ==> forall j :: 0 <= j < |table| ==> table[j].app != s.app
    requires seen' == if s.time == 0 || s.app in seen then seen else seen + [s.app]
    requires s.app in seen && |seen| <= cap ==> i < |table|
    requires i < |table| ==> s.app in seen
    requires next == if s.time == 0 then table
                     else if i < |table| then table[i := Stat(s.app, table[i].time + s.time)]
                     else if |table| < cap then table + [s]
                     else table
    ensures Apps(next) == First(seen', cap)
  {
    if s.time > 0 && i < |table| {
      assert Apps(next) == Apps(table);
    } else if s.time > 0 && |table| < cap {
      assert Apps(next) == Apps(table) + [s.app];
    } else if s.time > 0 {
      assert First(seen', cap) == First(seen, cap);
    }
  }

  // ---------------------------------------------------------------- the method

  /** `qsort` compares by time, largest first. */
  function TimeOf(s: Stat): int { s.time }

  lemma TableStarts(cap: nat)
    ensures IsTable([], [], cap)
  {
  }

  /** The loop over a client's records. */
  method Collect(stats: seq<Stat>) returns (appStats: array<Stat>, appCount: nat)
    ensures appStats.Length == 2 * MAX_APP_STAT_NUM && appCount <= appStats.Length
    ensures IsTable(appStats[..appCount], stats, 2 * MAX_APP_STAT_NUM)
  {
    hide IsTable;
    appStats := new Stat[2 * MAX_APP_STAT_NUM](_ => Stat(0, 0));
    appCount := 0;
    TableStarts(2 * MAX_APP_STAT_NUM);
    for k := 0 to |stats|
      invariant appCount <= appStats.Length && fresh(appStats)
      invariant IsTable(appStats[..appCount], stats[..k], 2 * MAX_APP_STAT_NUM)
    {
      assert stats[..k + 1] == stats[..k] + [stats[k]];
      ghost var before := appStats[..appCount];
      var s := stats[k];
      if s.time == 0 {
        TableStep(before, stats[..k], s, 2 * MAX_APP_STAT_NUM, PlaceOf(before, s.app), before);
        continue;
      }
      var i := FindApp(appStats, appCount, s.app);
      if i < appCount {
        appStats[i] := Stat(s.app, appStats[i].time + s.time);
        assert appStats[..appCount] == before[i := Stat(s.app, before[i].time + s.time)];
      } else if appCount < appStats.Length {
        appStats[appCount] := s;
        appCount := appCount + 1;
        assert appStats[..appCount] == before + [s];
      }
      TableStep(before, stats[..k], s, 2 * MAX_APP_STAT_NUM, i, appStats[..appCount]);
    }
    assert stats[..|stats|] == stats;
  }

  /** The inner search. */
  method FindApp(appStats: array<Stat>, appCount: nat, app: int) returns (i: nat)
    requires appCount <= appStats.Length
    ensures i <= appCount && (i < appCount ==> appStats[i].app == app)
    ensures forall j :: 0 <= j < i ==> appStats[j].app != app
  {
    i := 0;
    while i < appCount
      invariant i <= appCount && forall j :: 0 <= j < i ==> appStats[j].app != app
    {
      if appStats[i].app == app {
        return;
      }
      i := i + 1;
    }
  }

  /** The visible list: the first places of the sorted table. */
  method UpdateVisitTimeList(stats: seq<Stat>, qsort: Sorter<Stat>) returns (visible: seq<Stat>)
    requires forall s :: SortResult(s, qsort(s), TimeOf)
    ensures exists table :: IsTable(table, stats, 2 * MAX_APP_STAT_NUM) && IsTop(visible, table)
  {
    var appStats, appCount := Collect(stats);
    ghost var table := appStats[..appCount];
    if appCount > 0 {
      var sorted := qsort(appStats[..appCount]);
      assert SortResult(table, sorted, TimeOf);
      assert |sorted| == |multiset(sorted)| == |multiset(table)| == appCount;
      var topCount := if appCount < MAX_APP_STAT_NUM then appCount else MAX_APP_STAT_NUM;
      visible := sorted[..topCount];
      assert First(sorted, MAX_APP_STAT_NUM) == visible;
    } else {
      visible := [];
      assert SortResult(table, [], TimeOf) && First<Stat>([], MAX_APP_STAT_NUM) == [];
    }
    assert IsTop(visible, table);
  }

  ghost predicate IsTop(visible: seq<Stat>, table: seq<Stat>) {
    exists sorted :: SortResult(table, sorted, TimeOf) && visible == First(sorted, MAX_APP_STAT_NUM)
  }

  // ---------------------------------------------------------------- what the list means

  /** The visible totals are exact, descending, of distinct applications, and no tracked application that is not
      visible has more. */
  lemma VisibleIsTopOfTracked(visible: seq<Stat>, table: seq<Stat>, stats: seq<Stat>)
    requires IsTable(table, stats, 2 * MAX_APP_STAT_NUM) && IsTop(visible, table)
    ensures |visible| == if |table| < MAX_APP_STAT_NUM then |table| else MAX_APP_STAT_NUM
    ensures Descending(visible, TimeOf)
    ensures forall i :: 0 <= i < |visible| ==> visible[i] in table && visible[i].time == TotalOf(stats, visible[i].app) > 0
    ensures forall i, j :: 0 <= i < j < |visible| ==> visible[i].app != visible[j].app
    ensures forall s, i :: s in table && 0 <= i < |visible| && s !in visible ==> s.time <= visible[i].time
  {
    hide FirstSeen, TotalOf, Apps, IsTable, Descending;
    var sorted :| SortResult(table, sorted, TimeOf) && visible == First(sorted, MAX_APP_STAT_NUM);
    SortKeeps(table, sorted, TimeOf);
    assert visible == sorted[..|visible|];
    DescendingPrefix(sorted, |visible|, TimeOf);
    forall i | 0 <= i < |visible| ensures visible[i] in table && visible[i].time == TotalOf(stats, visible[i].app) > 0 {
      assert visible[i] == sorted[i] && sorted[i] in table;
      TrackedHasTime(table, stats, visible[i]);
    }
    forall i, j | 0 <= i < j < |visible| ensures visible[i].app != visible[j].app {
      assert visible[i] == sorted[i] && visible[j] == sorted[j];
      SortedDistinct(table, sorted, stats, i, j);
    }
    forall s, i | s in table && 0 <= i < |visible| && s !in visible ensures s.time <= visible[i].time {
      HiddenIsSmaller(table, sorted, |visible|, s, i);
    }
  }

  lemma HiddenIsSmaller(table: seq<Stat>, sorted: seq<Stat>, n: nat, s: Stat, i: nat)
    requires SortResult(table, sorted, TimeOf) && i < n <= |sorted| && s in table && s !in sorted[..n]
    ensures s.time <= sorted[i].time
  {
    assert s in multiset(sorted);
    var j :| 0 <= j < |sorted| && sorted[j] == s;
    assert sorted == sorted[..n] + sorted[n..];
  }

  lemma TrackedHasTime(table: seq<Stat>, stats: seq<Stat>, s: Stat)
    requires IsTable(table, stats, 2 * MAX_APP_STAT_NUM) && s in table
    ensures s.time == TotalOf(stats, s.app) > 0
  {
    FirstSeenFacts(stats);
    var i :| 0 <= i < |table| && table[i] == s;
    assert Apps(table)[i] == FirstSeen(stats)[i];
  }

  /** A sort neither repeats nor merges entries, so different places hold different applications. */
  lemma SortedDistinct(table: seq<Stat>, sorted: seq<Stat>, stats: seq<Stat>, i: nat, j: nat)
    requires IsTable(table, stats, 2 * MAX_APP_STAT_NUM) && multiset(sorted) == multiset(table) && i < j < |sorted|
    ensures sorted[i].app != sorted[j].app
  {
    assert sorted[i] in multiset(table) && sorted[j] in multiset(table);
    var p :| 0 <= p < |table| && table[p] == sorted[i];
    var q :| 0 <= q < |table| && table[q] == sorted[j];
    if p != q {
      DistinctPlaces(table, stats, 2 * MAX_APP_STAT_NUM, p, q);
    } else {
      Twice(sorted, i, j);
      Once(table, stats, p);
      assert false;
    }
  }

  lemma Twice(s: seq<Stat>, i: nat, j: nat)
    requires i < j < |s| && s[i] == s[j]
    ensures multiset(s)[s[i]] >= 2
  {
    assert s == s[..i] + [s[i]] + s[i + 1..j] + [s[j]] + s[j + 1..];
  }

  lemma Once(table: seq<Stat>, stats: seq<Stat>, p: nat)
    requires IsTable(table, stats, 2 * MAX_APP_STAT_NUM) && p < |table|
    ensures multiset(table)[table[p]] == 1
  {
    assert table == table[..p] + [table[p]] + table[p + 1..];
    forall k | 0 <= k < |table| && k != p ensures table[k] != table[p] {
      DistinctPlaces(table, stats, 2 * MAX_APP_STAT_NUM, p, k);
    }
    assert table[p] !in table[..p] && table[p] !in table[p + 1..];
  }

  function SumOver(apps: seq<int>, stats: seq<Stat>): nat {
    if |apps| == 0 then 0 else SumOver(apps[..|apps| - 1], stats) + TotalOf(stats, apps[|apps| - 1])
  }

  lemma {:induction false} SumOverAppend(apps: seq<int>, stats: seq<Stat>, s: Stat)
    requires forall i, j :: 0 <= i < j < |apps| ==> apps[i] != apps[j]
    ensures SumOver(apps, stats + [s]) == SumOver(apps, stats) + if s.app in apps then s.time else 0
  {
    assert (stats + [s])[..|stats|] == stats;
    if |apps| == 0 {
    } else {
      SumOverAppend(apps[..|apps| - 1], stats, s);
    }
  }

  lemma {:induction false} SumOfFirstSeen(stats: seq<Stat>)
    ensures SumOver(FirstSeen(stats), stats) == TimeSum(stats)
  {
    if |stats| == 0 {
    } else {
      var front, s := stats[..|stats| - 1], stats[|stats| - 1];
      assert stats == front + [s];
      SumOfFirstSeen(front);
      FirstSeenFacts(front);
      FirstSeenFacts(stats);
      SumOverAppend(FirstSeen(front), front, s);
      if s.time > 0 && s.app !in FirstSeen(front) {
        assert FirstSeen(stats)[..|FirstSeen(front)|] == FirstSeen(front);
      }
    }
  }

  lemma {:induction false} SumOfTable(table: seq<Stat>, stats: seq<Stat>)
    requires forall i :: 0 <= i < |table| ==> table[i].time == TotalOf(stats, table[i].app)
    ensures TimeSum(table) == SumOver(Apps(table), stats)
  {
    if |table| == 0 {
    } else {
      SumOfTable(table[..|table| - 1], stats);
    }
  }

  /** No time is lost exactly when every application found a place. */
  lemma NoTimeLost(table: seq<Stat>, stats: seq<Stat>, cap: nat)
    requires IsTable(table, stats, cap)
    ensures TimeSum(table) == TimeSum(stats) <==> |FirstSeen(stats)| <= cap
  {
    hide FirstSeen, TotalOf, TimeSum;
    var seen := FirstSeen(stats);
    FirstSeenFacts(stats);
    SumOfTable(table, stats);
    SumOfFirstSeen(stats);
    assert seen == First(seen, cap) + seen[|First(seen, cap)|..];
    SumOverConcat(First(seen, cap), seen[|First(seen, cap)|..], stats);
    SumOverPositive(seen[|First(seen, cap)|..], stats);
  }

  lemma {:induction false} SumOverConcat(a: seq<int>, b: seq<int>, stats: seq<Stat>)
    ensures SumOver(a + b, stats) == SumOver(a, stats) + SumOver(b, stats)
  {
    if |b| == 0 {
      assert a + b == a;
    } else {
      SumOverConcat(a, b[..|b| - 1], stats);
      assert (a + b)[..|a + b| - 1] == a + b[..|b| - 1];
    }
  }

  lemma SumOverPositive(apps: seq<int>, stats: seq<Stat>)
    requires forall a :: a in apps ==> TotalOf(stats, a) > 0
    ensures SumOver(apps, stats) > 0 <==> |apps| > 0
  {
  }

  // ---------------------------------------------------------------- the top of all applications

  /** No application outside the visible list has more than one inside. */
  ghost predicate TopOfAll(visible: seq<Stat>, stats: seq<Stat>) {
    forall a, i :: 0 <= i < |visible| && a !in Apps(visible) ==> TotalOf(stats, a) <= visible[i].time
  }

  /** How many of the applications have a total of at least t. */
  function AtLeast(apps: seq<int>, stats: seq<Stat>, t: nat): nat {
    if |apps| == 0 then 0
    else AtLeast(apps[..|apps| - 1], stats, t) + if TotalOf(stats, apps[|apps| - 1]) >= t then 1 else 0
  }

  /** Against every application that found no place, enough of those that did have a total no smaller. */
  ghost predicate Outweighed(stats: seq<Stat>) {
    var seen, cap := FirstSeen(stats), 2 * MAX_APP_STAT_NUM;
    forall k :: cap <= k < |seen| ==> AtLeast(First(seen, cap), stats, TotalOf(stats, seen[k])) >= MAX_APP_STAT_NUM
  }

  function Reaching(s: seq<Stat>, t: nat): nat {
    if |s| == 0 then 0 else Reaching(s[..|s| - 1], t) + if s[|s| - 1].time >= t then 1 else 0
  }

  lemma {:induction false} ReachingConcat(a: seq<Stat>, b: seq<Stat>, t: nat)
    ensures Reaching(a + b, t) == Reaching(a, t) + Reaching(b, t)
  {
    if |b| == 0 {
      assert a + b == a;
    } else {
      ReachingConcat(a, b[..|b| - 1], t);
      assert (a + b)[..|a + b| - 1] == a + b[..|b| - 1];
    }
  }

  lemma ReachingRemove(s: seq<Stat>, i: nat, t: nat)
    requires i < |s|
    ensures Reaching(s, t) == Reaching(s[..i] + s[i + 1..], t) + if s[i].time >= t then 1 else 0
  {
    assert s == s[..i] + [s[i]] + s[i + 1..];
    ReachingConcat(s[..i] + [s[i]], s[i + 1..], t);
    ReachingConcat(s[..i], [s[i]], t);
    ReachingConcat(s[..i], s[i + 1..], t);
  }

  /** Sorting does not change how many reach t. */
  lemma {:induction false} ReachingSorted(a: seq<Stat>, b: seq<Stat>, t: nat)
    requires multiset(a) == multiset(b)
    ensures Reaching(a, t) == Reaching(b, t)
  {
    hide Reaching;
    assert |a| == |multiset(a)| == |multiset(b)| == |b|;
    if |a| == 0 {
      assert a == b;
    } else {
      var n := |a| - 1;
      assert a[n] in multiset(b);
      var i :| 0 <= i < |b| && b[i] == a[n];
      RemoveOne(b, i);
      RemoveOne(a, n);
      assert a[..n] + a[n + 1..] == a[..n];
      ReachingSorted(a[..n], b[..i] + b[i + 1..], t);
      ReachingRemove(b, i, t);
      ReachingRemove(a, n, t);
    }
  }

  lemma {:induction false} ReachingAll(s: seq<Stat>, t: nat)
    ensures Reaching(s, t) <= |s| && (Reaching(s, t) == |s| <==> forall i :: 0 <= i < |s| ==> s[i].time >= t)
  {
    if |s| == 0 {
    } else {
      ReachingAll(s[..|s| - 1], t);
    }
  }

  /** In a descending list at least n entries reach t exactly when entry n does. */
  lemma {:induction false} ReachingDescending(s: seq<Stat>, n: nat, t: nat)
    requires Descending(s, TimeOf) && 1 <= n <= |s|
    ensures Reaching(s, t) >= n <==> s[n - 1].time >= t
  {
    if |s| == n {
      ReachingAll(s, t);
    } else {
      ReachingDescending(s[..|s| - 1], n, t);
    }
  }

  lemma {:induction false} ReachingOfTable(table: seq<Stat>, stats: seq<Stat>, t: nat)
    requires forall i :: 0 <= i < |table| ==> table[i].time == TotalOf(stats, table[i].app)
    ensures Reaching(table, t) == AtLeast(Apps(table), stats, t)
  {
    if |table| == 0 {
    } else {
      ReachingOfTable(table[..|table| - 1], stats, t);
    }
  }

  /** Where some application found no place, the last visible entry reaches t exactly when enough tracked ones do. */
  lemma LastVisible(visible: seq<Stat>, table: seq<Stat>, stats: seq<Stat>, t: nat)
    requires IsTable(table, stats, 2 * MAX_APP_STAT_NUM) && IsTop(visible, table)
    requires |FirstSeen(stats)| > 2 * MAX_APP_STAT_NUM
    ensures |visible| == MAX_APP_STAT_NUM
    ensures visible[MAX_APP_STAT_NUM - 1].time >= t <==>
            AtLeast(First(FirstSeen(stats), 2 * MAX_APP_STAT_NUM), stats, t) >= MAX_APP_STAT_NUM
  {
    hide FirstSeen, TotalOf, AtLeast, Reaching;
    var sorted :| SortResult(table, sorted, TimeOf) && visible == First(sorted, MAX_APP_STAT_NUM);
    assert |sorted| == |multiset(sorted)| == |multiset(table)| == |table| == |Apps(table)|;
    ReachingSorted(table, sorted, t);
    ReachingDescending(sorted, MAX_APP_STAT_NUM, t);
    ReachingOfTable(table, stats, t);
  }

  lemma PlaceOfTracked(table: seq<Stat>, stats: seq<Stat>, a: int) returns (k: nat)
    requires IsTable(table, stats, 2 * MAX_APP_STAT_NUM) && |table| <= |FirstSeen(stats)|
    requires TotalOf(stats, a) > 0 && a !in FirstSeen(stats)[|table|..]
    ensures k < |table| && table[k].app == a && table[k].time == TotalOf(stats, a)
  {
    hide FirstSeen, TotalOf;
    var seen := FirstSeen(stats);
    FirstSeenFacts(stats);
    assert seen == seen[..|table|] + seen[|table|..];
    assert a in seen[..|table|];
    k :| 0 <= k < |table| && seen[..|table|][k] == a;
    assert Apps(table)[k] == seen[k];
  }

  /** An application that found a place, or never had time, has no more than the visible ones unless it is visible. */
  lemma SmallUnlessDropped(visible: seq<Stat>, table: seq<Stat>, stats: seq<Stat>, a: int, i: nat)
    requires IsTable(table, stats, 2 * MAX_APP_STAT_NUM) && IsTop(visible, table) && |table| <= |FirstSeen(stats)|
    requires i < |visible| && a !in Apps(visible) && a !in FirstSeen(stats)[|table|..]
    ensures TotalOf(stats, a) <= visible[i].time
  {
    hide FirstSeen, TotalOf, IsTop, IsTable, Apps;
    VisibleIsTopOfTracked(visible, table, stats);
    if TotalOf(stats, a) > 0 {
      var k := PlaceOfTracked(table, stats, a);
      assert table[k] in table;
      if table[k] in visible {
      }
    }
  }

  /** What found no place is not visible. */
  lemma DroppedIsHidden(visible: seq<Stat>, table: seq<Stat>, stats: seq<Stat>, k: nat)
    requires IsTable(table, stats, 2 * MAX_APP_STAT_NUM) && IsTop(visible, table)
    requires 2 * MAX_APP_STAT_NUM <= k < |FirstSeen(stats)|
    ensures FirstSeen(stats)[k] !in Apps(visible)
  {
    hide FirstSeen, TotalOf, IsTop;
    FirstSeenFacts(stats);
    VisibleIsTopOfTracked(visible, table, stats);
    forall i | 0 <= i < |visible| ensures Apps(visible)[i] != FirstSeen(stats)[k] {
      var j :| 0 <= j < |table| && table[j] == visible[i];
      assert Apps(table)[j] == FirstSeen(stats)[j];
    }
  }

  lemma TopNeedsWeight(visible: seq<Stat>, table: seq<Stat>, stats: seq<Stat>, k: nat)
    requires IsTable(table, stats, 2 * MAX_APP_STAT_NUM) && IsTop(visible, table) && TopOfAll(visible, stats)
    requires 2 * MAX_APP_STAT_NUM <= k < |FirstSeen(stats)|
    ensures AtLeast(First(FirstSeen(stats), 2 * MAX_APP_STAT_NUM), stats, TotalOf(stats, FirstSeen(stats)[k])) >= MAX_APP_STAT_NUM
  {
    hide FirstSeen, TotalOf, AtLeast, Apps, IsTable, IsTop;
    LastVisible(visible, table, stats, TotalOf(stats, FirstSeen(stats)[k]));
    DroppedIsHidden(visible, table, stats, k);
  }

  lemma WeightMakesTop(visible: seq<Stat>, table: seq<Stat>, stats: seq<Stat>, a: int, i: nat)
    requires IsTable(table, stats, 2 * MAX_APP_STAT_NUM) && IsTop(visible, table) && Outweighed(stats)
    requires i < |visible| && a !in Apps(visible)
    ensures TotalOf(stats, a) <= visible[i].time
  {
    hide FirstSeen, TotalOf, AtLeast, Apps, IsTable, IsTop;
    var seen := FirstSeen(stats);
    TableSize(table, stats);
    if a in seen[|table|..] {
      var k :| |table| <= k < |seen| && seen[k] == a;
      LastVisible(visible, table, stats, TotalOf(stats, a));
      VisibleIsTopOfTracked(visible, table, stats);
      assert visible[i].time >= visible[MAX_APP_STAT_NUM - 1].time;
    } else {
      SmallUnlessDropped(visible, table, stats, a, i);
    }
  }

  /** The visible list is the top of all applications exactly when every application that found no place is
      outweighed by enough of those that did; in particular when all found one. */
  lemma TopOfAllExactly(visible: seq<Stat>, table: seq<Stat>, stats: seq<Stat>)
    requires IsTable(table, stats, 2 * MAX_APP_STAT_NUM) && IsTop(visible, table)
    ensures TopOfAll(visible, stats) <==> Outweighed(stats)
    ensures |FirstSeen(stats)| <= 2 * MAX_APP_STAT_NUM ==> TopOfAll(visible, stats)
  {
    hide FirstSeen, TotalOf, AtLeast, Apps, IsTable, IsTop;
    if TopOfAll(visible, stats) {
      forall k | 2 * MAX_APP_STAT_NUM <= k < |FirstSeen(stats)|
        ensures AtLeast(First(FirstSeen(stats), 2 * MAX_APP_STAT_NUM), stats, TotalOf(stats, FirstSeen(stats)[k])) >= MAX_APP_STAT_NUM
      {
        TopNeedsWeight(visible, table, stats, k);
      }
    }
    if Outweighed(stats) {
      forall a, i | 0 <= i < |visible| && a !in Apps(visible) ensures TotalOf(stats, a) <= visible[i].time {
        WeightMakesTop(visible, table, stats, a, i);
      }
    }
  }

  lemma TableSize(table: seq<Stat>, stats: seq<Stat>)
    requires IsTable(table, stats, 2 * MAX_APP_STAT_NUM)
    ensures |table| == |First(FirstSeen(stats), 2 * MAX_APP_STAT_NUM)| <= |FirstSeen(stats)|
  {
    assert |table| == |Apps(table)|;
  }

  /** n applications with one second each. */
  function Ones(n: nat): seq<Stat> { if n == 0 then [] else Ones(n - 1) + [Stat(n - 1, 1)] }

  lemma {:induction false} OnesFacts(n: nat)
    ensures |Ones(n)| == n && |FirstSeen(Ones(n))| == n
    ensures forall a :: a in FirstSeen(Ones(n)) <==> 0 <= a < n
    ensures forall a :: TotalOf(Ones(n), a) == if 0 <= a < n then 1 else 0
  {
    if n == 0 {
    } else {
      OnesFacts(n - 1);
    }
  }

  /** One more application, with two seconds, behind n applications with one second each. */
  function OneTooMany(n: nat): seq<Stat> { Ones(n) + [Stat(n, 2)] }

  lemma OneTooManyFacts(n: nat)
    ensures First(FirstSeen(OneTooMany(n)), n) == FirstSeen(Ones(n)) && |FirstSeen(OneTooMany(n))| == n + 1
    ensures TotalOf(OneTooMany(n), n) == 2 && forall a :: 0 <= a < n ==> TotalOf(OneTooMany(n), a) == 1
  {
    OnesFacts(n);
    assert OneTooMany(n)[..n] == Ones(n);
    assert First(FirstSeen(Ones(n)) + [n], n) == FirstSeen(Ones(n));
  }

  /** With one application more than there are places the visible list can miss the most used one: whatever the
      sort does, the last application has two seconds and every visible one has one. */
  lemma OverflowMissesTop(visible: seq<Stat>, table: seq<Stat>)
    requires IsTable(table, OneTooMany(2 * MAX_APP_STAT_NUM), 2 * MAX_APP_STAT_NUM) && IsTop(visible, table)
    ensures |visible| == MAX_APP_STAT_NUM
    ensures forall i :: 0 <= i < |visible| ==> visible[i].time < TotalOf(OneTooMany(2 * MAX_APP_STAT_NUM), 2 * MAX_APP_STAT_NUM)
  {
    hide FirstSeen, TotalOf, Apps, OneTooMany, Ones, IsTop;
    var n := 2 * MAX_APP_STAT_NUM;
    OneTooManyFacts(n);
    OnesFacts(n);
    assert |table| == |Apps(table)| == n;
    VisibleIsTopOfTracked(visible, table, OneTooMany(n));
    forall i | 0 <= i < |visible| ensures visible[i].time < TotalOf(OneTooMany(n), n) {
      var k :| 0 <= k < |table| && table[k] == visible[i];
      assert table[k].app == Apps(table)[k];
      assert table[k].app in FirstSeen(Ones(n));
    }
  }
}
