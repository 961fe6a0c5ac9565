/** The two paged queries of the daemon: records filtered while they are streamed, and two sorted lists paged as one. */
module Paging {
  import opened Common

  // ---------------------------------------------------------------- pages of a list

  type Size = n: nat | n >= 1 witness 1

  function TotalPages(total: nat, size: Size): (n: nat)
    ensures n >= 1
  {
    var n := (total + size - 1) / size;
    if n < 1 then 1 else n
  }

  /** The page that is shown for a requested one: the last one when the request is beyond it. */
  function ClampPage(page: Size, total: nat, size: Size): (p: Size)
    ensures p <= TotalPages(total, size) && (page <= TotalPages(total, size) ==> p == page)
  {
    if page > TotalPages(total, size) then TotalPages(total, size) else page
  }

  function Min(a: nat, b: nat): nat { if a < b then a else b }

  /** The index of the first item of a page. */
  function StartOf(page: Size, size: Size): nat { (page - 1) * size }

  /** The items from the start of the page on, as many as a page holds, cut at the end. */
  function Page<T>(items: seq<T>, page: Size, size: Size): seq<T> {
    items[Min(StartOf(page, size), |items|)..Min(StartOf(page, size) + size, |items|)]
  }

  /** The page arithmetic both queries share. */
  method PageFrame(total: nat, page': Size, size: Size) returns (totalPage: nat, page: Size, start: nat)
    ensures totalPage == TotalPages(total, size) && page == ClampPage(page', total, size)
    ensures start == StartOf(page, size) <= total
  {
    page := page';
    totalPage := (total + size - 1) / size;
    if totalPage < 1 {
      totalPage := 1;
    }
    if page > totalPage {
      page := totalPage;
    }
    PageStart(page, total, size);
    start := (page - 1) * size;
  }

  /** The pages 1 to n, one after another. */
  function Pages<T>(items: seq<T>, n: nat, size: Size): seq<T> {
    if n == 0 then [] else Pages(items, n - 1, size) + Page(items, n, size)
  }

  lemma {:induction false} PagesArePrefix<T>(items: seq<T>, n: nat, size: Size)
    ensures Pages(items, n, size) == items[..Min(StartOf(n + 1, size), |items|)]
  {
    if n > 0 {
      PagesArePrefix(items, n - 1, size);
      NextStart(n, size);
      PageJoin(items, StartOf(n, size), size);
    } else {
      FirstStart(size);
    }
  }

  lemma FirstStart(size: Size)
    ensures StartOf(1, size) == 0
  {
  }

  lemma NextStart(page: Size, size: Size)
    ensures StartOf(page + 1, size) == StartOf(page, size) + size
  {
  }

  lemma PageJoin<T>(items: seq<T>, start: nat, size: nat)
    ensures var a, b := Min(start, |items|), Min(start + size, |items|); a <= b && items[..a] + items[a..b] == items[..b]
  {
  }

  /** There are just enough pages: the last one is the first that reaches the end. */
  lemma EnoughPages(total: nat, size: Size)
    ensures TotalPages(total, size) * size >= total
    ensures total > 0 ==> (TotalPages(total, size) - 1) * size < total
  {
    var n := (total + size - 1) / size;
    DivBounds(total + size - 1, size);
    if total > 0 {
      AtLeastOne(total + size - 1, size);
    } else {
      SmallDiv(size - 1, size);
    }
  }

  lemma DivBounds(a: nat, m: Size)
    ensures a / m * m <= a < a / m * m + m
  {
  }

  lemma AtLeastOne(a: nat, m: Size)
    requires a >= m
    ensures a / m >= 1 && (a / m - 1) * m == a / m * m - m
  {
    if a / m < 1 {
      assert a / m == 0;
      DivBounds(a, m);
    }
  }

  lemma SmallDiv(a: nat, m: Size)
    requires a < m
    ensures a / m == 0
  {
  }

  /** Going through all pages gives every item once, in order. */
  lemma AllPages<T>(items: seq<T>, size: Size)
    ensures Pages(items, TotalPages(|items|, size), size) == items
  {
    hide Pages;
    PagesArePrefix(items, TotalPages(|items|, size), size);
    EnoughPages(|items|, size);
  }

  // ---------------------------------------------------------------- record query

  datatype Record = Record(mac: string, timestamp: U32, payload: int)

  /** The request; an absent or empty address filter and a time of 0 do not filter. */
  datatype Query = Query(mac: Option<string>, startTime: U32, endTime: U32, page: Option<int>, pageSize: Option<int>)

  predicate StandsAt(s: string, t: string, i: int) { 0 <= i <= |s| - |t| && s[i..i + |t|] == t }

  predicate Contains(s: string, t: string) { exists i :: 0 <= i <= |s| && StandsAt(s, t, i) }

  predicate Selected(q: Query, r: Record) {
    && (q.mac.Some? && |q.mac.value| > 0 ==> Contains(r.mac, q.mac.value))
    && (q.startTime > 0 ==> r.timestamp >= q.startTime)
    && (q.endTime > 0 ==> r.timestamp <= q.endTime)
  }

  function PageOf(q: Query): Size { if q.page.Some? && q.page.value >= 1 then q.page.value else 1 }

  function SizeOf(q: Query): Size {
    if q.pageSize.None? || q.pageSize.value < 1 then 15
    else if q.pageSize.value > 200 then 200
    else q.pageSize.value
  }

  function Selector(q: Query): Record -> Option<Record> {
    (r: Record) => if Selected(q, r) then Some(r) else None
  }

  function Filtered(q: Query, records: seq<Record>): seq<Record> { Gather(records, Selector(q)) }

  lemma FilteredAppend(q: Query, records: seq<Record>, r: Record)
    ensures Filtered(q, records + [r]) == if Selected(q, r) then Filtered(q, records) + [r] else Filtered(q, records)
  {
    GatherAppend(records, r, Selector(q));
  }

  lemma FilteredPrefix(q: Query, records: seq<Record>, k: nat)
    requires k <= |records|
    ensures Filtered(q, records[..k]) <= Filtered(q, records)
  {
    GatherPrefix(records, k, Selector(q));
  }

  /** The answer: the total numbers, the page shown, and its records. */
  datatype Answer<T> = Answer(totalNum: nat, totalPage: nat, page: nat, list: seq<T>)

  /** A clamped page of a list. */
  function AnswerFrom<T>(items: seq<T>, page: Size, size: Size): Answer<T> {
    var shown := ClampPage(page, |items|, size);
    Answer(|items|, TotalPages(|items|, size), shown, Page(items, shown, size))
  }

  function RecordAnswer(q: Query, records: seq<Record>): Answer<Record> {
    AnswerFrom(Filtered(q, records), PageOf(q), SizeOf(q))
  }

  /** Two passes over the records: one counts, one collects, and neither keeps the filtered list. */
  method GetUserRecords(q: Query, records: seq<Record>) returns (a: Answer<Record>)
    ensures a == RecordAnswer(q, records)
  {
    hide Selected, TotalPages, ClampPage, StartOf, PageOf, SizeOf;
    var page, size := PageOf(q), SizeOf(q);
    var total: nat := 0;
    for k := 0 to |records|
      invariant total == |Filtered(q, records[..k])|
    {
      assert records[..k + 1] == records[..k] + [records[k]];
      FilteredAppend(q, records[..k], records[k]);
      if !Selected(q, records[k]) {
        continue;
      }
      total := total + 1;
    }
    assert records[..|records|] == records;
    var totalPage, shown, start := PageFrame(total, page, size);
    var list := CollectRecords(q, records, start, start + size);
    a := Answer(total, totalPage, shown, list);
  }

  /** The second pass: skips the selected records before `start` and stops at `end`. */
  method CollectRecords(q: Query, records: seq<Record>, start: nat, end: nat) returns (list: seq<Record>)
    requires start <= end
    ensures var all := Filtered(q, records); list == all[Min(start, |all|)..Min(end, |all|)]
  {
    hide Selected, Filtered, Min;
    ghost var all := Filtered(q, records);
    FilteredNone(q);
    SliceStart(all, start, end);
    var idx := 0;
    list := [];
    var k := 0;
    while k < |records|
      invariant k <= |records| && idx <= |all| && Min(start, idx) <= Min(end, idx) <= |all|
      invariant list == all[Min(start, idx)..Min(end, idx)]
      invariant Filtered(q, records[..k]) == all[..idx]
    {
      assert records[..k + 1] == records[..k] + [records[k]];
      FilteredAppend(q, records[..k], records[k]);
      FilteredPrefix(q, records, k + 1);
      if !Selected(q, records[k]) {
        k := k + 1;
        continue;
      }
      assert all[idx] == records[k];
      SliceStep(all, start, end, idx);
      if idx < start {
        idx := idx + 1;
        k := k + 1;
        continue;
      }
      if idx >= end {
        break;
      }
      list := list + [records[k]];
      idx := idx + 1;
      k := k + 1;
    }
    assert k == |records| ==> records[..k] == records;
    SliceEnd(all, start, end, idx);
  }

  lemma FilteredNone(q: Query)
    ensures Filtered(q, []) == []
  {
  }

  lemma SliceStart<T>(all: seq<T>, start: nat, end: nat)
    requires start <= end
    ensures Min(start, 0) == Min(end, 0) == 0 && Min(start, |all|) <= Min(end, |all|) <= |all|
  {
  }

  /** What one more item adds to the slice of the items so far. */
  lemma SliceStep<T>(all: seq<T>, start: nat, end: nat, idx: nat)
    requires start <= end && idx < |all|
    ensures Min(start, idx) <= Min(end, idx) <= idx && Min(start, idx + 1) <= Min(end, idx + 1) <= idx + 1
    ensures all[Min(start, idx + 1)..Min(end, idx + 1)] ==
            all[Min(start, idx)..Min(end, idx)] + if start <= idx < end then [all[idx]] else []
  {
  }

  lemma SliceEnd<T>(all: seq<T>, start: nat, end: nat, idx: nat)
    requires start <= end && idx <= |all| && (idx == |all| || idx >= end)
    ensures Min(start, idx) == Min(start, |all|) && Min(end, idx) == Min(end, |all|)
  {
  }

  // ---------------------------------------------------------------- visits of a device

  function DevPageOf(page: Option<int>): Size { if page.Some? && page.value >= 1 then page.value else 1 }

  function DevSizeOf(size: Option<int>): Size { if size.Some? && size.value >= 1 then size.value else 15 }

  /** The item loop: index i of the joined list, looked up in one list or the other. */
  method CollectPage<T>(online: seq<T>, offline: seq<T>, start: nat, end: nat) returns (list: seq<T>)
    requires start <= end <= |online| + |offline|
    ensures list == (online + offline)[start..end]
  {
    ghost var all := online + offline;
    list := [];
    var i := start;
    while i < end
      invariant start <= i <= end && list == all[start..i]
    {
      var item := if i < |online| then online[i] else offline[i - |online|];
      assert item == all[i];
      list := list + [item];
      i := i + 1;
    }
  }

  function VisitAnswer<T>(online: seq<T>, offline: seq<T>, page: Option<int>, size: Option<int>): Answer<T> {
    AnswerFrom(online + offline, DevPageOf(page), DevSizeOf(size))
  }

  /** Pages the online list followed by the offline list, without joining them. */
  method DevVisitList<T>(online: seq<T>, offline: seq<T>, page': Option<int>, size': Option<int>) returns (a: Answer<T>)
    ensures a == VisitAnswer(online, offline, page', size')
  {
    hide TotalPages, ClampPage, StartOf, DevPageOf, DevSizeOf;
    var page, size := DevPageOf(page'), DevSizeOf(size');
    var total := |online| + |offline|;
    var totalPage, shown, start := PageFrame(total, page, size);
    var end := start + size;
    if end > total {
      end := total;
    }
    var list := CollectPage(online, offline, start, end);
    a := Answer(total, totalPage, shown, list);
  }

  /** A page that is shown starts inside the list, or at its end when the list is empty. */
  lemma PageStart(page: Size, total: nat, size: Size)
    requires page <= TotalPages(total, size)
    ensures (page - 1) * size <= total
  {
    EnoughPages(total, size);
    var last := TotalPages(total, size);
    assert (page - 1) * size <= (last - 1) * size by {
      MulMonotone(page - 1, last - 1, size);
    }
    if total == 0 {
      SmallDiv(size - 1, size);
    }
  }

  lemma MulMonotone(a: nat, b: nat, m: nat)
    requires a <= b
    ensures a * m <= b * m
  {
  }

  // ---------------------------------------------------------------- going through all pages

  /** The lists of the answers to the same query for the pages 1 to n, one after another. */
  function RecordPages(q: Query, records: seq<Record>, n: nat): seq<Record> {
    if n == 0 then [] else RecordPages(q, records, n - 1) + RecordAnswer(q.(page := Some(n)), records).list
  }

  function VisitPages<T>(online: seq<T>, offline: seq<T>, size: Option<int>, n: nat): seq<T> {
    if n == 0 then [] else VisitPages(online, offline, size, n - 1) + VisitAnswer(online, offline, Some(n), size).list
  }

  /** The page asked for has no influence on what is selected. */
  lemma {:induction false} FilteredForPage(q: Query, records: seq<Record>, page: Option<int>)
    ensures Filtered(q.(page := page), records) == Filtered(q, records)
  {
    if |records| == 0 {
    } else {
      FilteredForPage(q, records[..|records| - 1], page);
    }
  }

  lemma {:induction false} RecordPagesArePages(q: Query, records: seq<Record>, n: nat)
    requires n <= TotalPages(|Filtered(q, records)|, SizeOf(q))
    ensures RecordPages(q, records, n) == Pages(Filtered(q, records), n, SizeOf(q))
  {
    hide Filtered, TotalPages, Page;
    if n == 0 {
    } else {
      RecordPagesArePages(q, records, n - 1);
      FilteredForPage(q, records, Some(n));
    }
  }

  /** Asking the record query for the pages 1 to the number of pages it reports gives every selected record once,
      in order, whichever page was asked for first. */
  lemma RecordsOnceInOrder(q: Query, records: seq<Record>)
    ensures RecordPages(q, records, RecordAnswer(q, records).totalPage) == Filtered(q, records)
  {
    hide Filtered, Pages, RecordPages, TotalPages;
    RecordPagesArePages(q, records, RecordAnswer(q, records).totalPage);
    AllPages(Filtered(q, records), SizeOf(q));
  }

  lemma {:induction false} VisitPagesArePages<T>(online: seq<T>, offline: seq<T>, size: Option<int>, n: nat)
    requires n <= TotalPages(|online + offline|, DevSizeOf(size))
    ensures VisitPages(online, offline, size, n) == Pages(online + offline, n, DevSizeOf(size))
  {
    hide TotalPages, Page;
    if n == 0 {
    } else {
      VisitPagesArePages(online, offline, size, n - 1);
    }
  }

  /** The same for the visits of a device: the online ones, then the offline ones. */
  lemma VisitsOnceInOrder<T>(online: seq<T>, offline: seq<T>, page: Option<int>, size: Option<int>)
    ensures VisitPages(online, offline, size, VisitAnswer(online, offline, page, size).totalPage) == online + offline
  {
    hide Pages, VisitPages, TotalPages;
    VisitPagesArePages(online, offline, size, VisitAnswer(online, offline, page, size).totalPage);
    AllPages(online + offline, DevSizeOf(size));
  }

  // ---------------------------------------------------------------- requests by their numbers

  /** The record is from a device whose address contains the filter, not before the start and not after the end; an
      absent or empty filter and a time of 0 ask for nothing. */
  predicate Wanted(q: Query, r: Record) {
    && (q.mac.None? || q.mac.value == "" || exists i :: 0 <= i <= |r.mac| && PlacedAt(r.mac, q.mac.value, i))
    && (q.startTime == 0 || q.startTime <= r.timestamp)
    && (q.endTime == 0 || r.timestamp <= q.endTime)
  }

  predicate PlacedAt(s: string, t: string, i: nat) {
    i + |t| <= |s| && forall k :: 0 <= k < |t| ==> s[i + k] == t[k]
  }

  lemma WantedIsSelected(q: Query, r: Record)
    ensures Selected(q, r) <==> Wanted(q, r)
  {
    if q.mac.Some? {
      var t := q.mac.value;
      forall i | 0 <= i <= |r.mac| ensures StandsAt(r.mac, t, i) <==> PlacedAt(r.mac, t, i) {
        if i + |t| <= |r.mac| {
          var piece := r.mac[i..i + |t|];
          assert forall k :: 0 <= k < |t| ==> piece[k] == r.mac[i + k];
        }
      }
    }
  }

  /** The filtered list holds the records that are asked for, in their order. */
  lemma {:induction false} FilteredLaw(q: Query, records: seq<Record>, r: Record)
    ensures r in Filtered(q, records) <==> r in records && Wanted(q, r)
    ensures Filtered(q, records + [r]) == Filtered(q, records) + if Wanted(q, r) then [r] else []
  {
    hide Selected, Wanted;
    WantedIsSelected(q, r);
    FilteredAppend(q, records, r);
    if |records| == 0 {
    } else {
      FilteredLaw(q, records[..|records| - 1], r);
      assert records == records[..|records| - 1] + [records[|records| - 1]];
    }
  }

  /** Page and size of a record query: 1 and 15 unless asked for something else, at least 1 and at most 200. */
  lemma RecordSizes(q: Query)
    ensures PageOf(q) == if q.page.Some? && q.page.value > 1 then q.page.value else 1
    ensures q.pageSize.None? ==> SizeOf(q) == 15
    ensures q.pageSize.Some? ==>
              SizeOf(q) == if q.pageSize.value <= 0 then 15 else if q.pageSize.value >= 200 then 200 else q.pageSize.value
  {
  }

  /** The device query has no upper limit. */
  lemma VisitSizes(page: Option<int>, size: Option<int>)
    ensures DevPageOf(page) == if page.Some? && page.value > 1 then page.value else 1
    ensures DevSizeOf(size) == if size.Some? && size.value > 0 then size.value else 15
  {
  }

  /** An answer in numbers: the page asked for or the last one, and of the list the items that belong on it. */
  lemma AnswerLaw<T>(items: seq<T>, page: Size, size: Size)
    ensures var a := AnswerFrom(items, page, size);
            && a.totalNum == |items| && a.page == (if page <= a.totalPage then page else a.totalPage)
            && (items == [] ==> a.totalPage == 1) && (a.totalPage - 1) * size <= |items| <= a.totalPage * size
            && forall i :: 0 <= i < size ==>
                 if (a.page - 1) * size + i < |items| then i < |a.list| && a.list[i] == items[(a.page - 1) * size + i] else i >= |a.list|
  {
    hide TotalPages;
    EnoughPages(|items|, size);
    SmallDiv(size - 1, size);
    var shown := ClampPage(page, |items|, size);
    PageStart(shown, |items|, size);
    PageStart(TotalPages(|items|, size), |items|, size);
  }
}
