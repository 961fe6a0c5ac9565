/** Schedule strings such as `08:00-12:00-1,2,3 20:00-23:59-0,6`: parsing, printing, and back. */
module TimeSpec {
  import opened Common
  import opened CText
  import opened Words

  /** Capacities from a header that is not part of the repository. */
  const MAX_WEEKDAYS: nat
  const TIME_LEN: nat

  datatype Period = Period(startTime: string, endTime: string, weekdays: seq<nat>)

  function Space(): Blank { (c: char) => c == ' ' }

  function Comma(): Blank { (c: char) => c == ',' }

  /** A word of the weekday list; one that is no number reads as 0. */
  function DayOf(w: string): Option<nat> {
    if 0 <= Atoi(w) <= 6 then Some(Atoi(w)) else None
  }

  function Weekdays(text: string): seq<nat> {
    First(Gather(WordsFrom(text, 0, Comma()), DayOf), MAX_WEEKDAYS)
  }

  /** One period: start, end and, behind a second minus sign, the weekdays.  Without a minus sign it is skipped. */
  function PeriodOf(token: string): Option<Period> {
    var d1 := NextSep(token, '-', 0);
    if d1 == |token| then None
    else
      var d2 := NextSep(token, '-', d1 + 1);
      if d2 < |token| then
        Some(Period(Clip(token[..d1], TIME_LEN), Clip(token[d1 + 1..d2], TIME_LEN), Weekdays(Clip(token[d2 + 1..], 63))))
      else
        Some(Period(Clip(token[..d1], TIME_LEN), Clip(Clip(token[d1 + 1..], 15), TIME_LEN), []))
  }

  /** Start and end, as far as they are copied without a bound, fit their buffers of 16 bytes. */
  predicate TokenFits(token: string) {
    var d1 := NextSep(token, '-', 0);
    d1 < |token| ==>
      var d2 := NextSep(token, '-', d1 + 1);
      d1 <= 15 && (d2 < |token| ==> d2 - d1 - 1 <= 15)
  }

  /** The weekday loop. */
  method ParseWeekdays(text: string) returns (days: seq<nat>)
    ensures days == Weekdays(text)
  {
    hide WordsFrom, Atoi;
    days := [];
    ghost var done: seq<string> := [];
    CutStarts(text, Comma());
    var word, next := NextWord(text, 0, Comma());
    ghost var p := 0;
    while word.Some? && |days| < MAX_WEEKDAYS
      invariant Cut(text, Comma(), done, p) && days == Gather(done, DayOf) && |days| <= MAX_WEEKDAYS
      invariant p <= next <= |text|
      invariant word.None? ==> Skip(text, p, Comma(), true) == |text|
      invariant word.Some? ==> var b := Skip(text, p, Comma(), true);
                               b < |text| && next == Skip(text, b, Comma(), false) > b && word.value == text[b..next]
      decreases |text| - p
    {
      ghost var b := Skip(text, p, Comma(), true);
      CutStep(text, Comma(), done, p, b, next);
      GatherAppend(done, word.value, DayOf);
      var day := Atoi(word.value);
      if day >= 0 && day <= 6 {
        days := days + [day];
      }
      done := done + [word.value];
      p := next;
      word, next := NextWord(text, next, Comma());
    }
    if word.None? {
      CutEnds(text, Comma(), done, p);
    } else {
      CutPrefix(text, Comma(), done, p);
      GatherPrefix(WordsFrom(text, 0, Comma()), |done|, DayOf);
    }
  }

  lemma CutPrefix(text: string, blank: Blank, done: seq<string>, p: nat)
    requires Cut(text, blank, done, p)
    ensures var ws := WordsFrom(text, 0, blank); |done| <= |ws| && ws[..|done|] == done
  {
  }

  /** A word counts as a day exactly when it reads as 0 to 6 or has no number at all; then it is day 0, as `Mon` is. */
  lemma WordWithoutNumber(w: string)
    ensures DayOf(w).Some? <==> ScanInt(w).None? || 0 <= ScanInt(w).value.0 <= 6
    ensures ScanInt(w).None? ==> DayOf(w) == Some(0)
    ensures DayOf(w).Some? && DayOf(w).value > 0 ==> ScanInt(w).Some? && ScanInt(w).value.0 == DayOf(w).value
    ensures Weekdays("Mon") == First([0], MAX_WEEKDAYS)
  {
    assert IsWord("Mon", Comma());
    LastWord("Mon", 0, Comma());
    assert WordsFrom("Mon", 0, Comma()) == ["Mon"];
    assert !StartsWithDigit("Mon", 10) && TrimLeft("Mon") == "Mon";
    assert DayOf("Mon") == Some(0);
  }

  method ParsePeriod(token: string) returns (r: Option<Period>, fault: bool)
    ensures r == PeriodOf(token) && (fault <==> !TokenFits(token))
  {
    hide NextSep, Weekdays;
    var d1 := NextSep(token, '-', 0);
    if d1 == |token| {
      return None, false;
    }
    fault := d1 > 15;
    var start, end, weekdays := token[..d1], "", "";
    var d2 := NextSep(token, '-', d1 + 1);
    if d2 < |token| {
      end := token[d1 + 1..d2];
      fault := fault || |end| > 15;
      weekdays := Clip(token[d2 + 1..], 63);
    } else {
      end := Clip(token[d1 + 1..], 15);
    }
    var days := [];
    if |weekdays| > 0 {
      days := ParseWeekdays(weekdays);
    } else {
      NoDays();
    }
    r := Some(Period(Clip(start, TIME_LEN), Clip(end, TIME_LEN), days));
  }

  lemma NoDays()
    ensures Weekdays("") == []
  {
    assert Skip("", 0, Comma(), true) == 0;
    assert WordsFrom("", 0, Comma()) == [];
  }

  function TimePeriods(text: string): seq<Period> {
    Gather(WordsFrom(Clip(text, 511), 0, Space()), PeriodOf)
  }

  /** Every word that is read, those before which there is room for another period, fits. */
  ghost predicate WordsFit(words: seq<string>, maxPeriods: int) {
    forall k {:trigger words[k]} :: 0 <= k < |words| && |Gather(words[..k], PeriodOf)| < maxPeriods ==> TokenFits(words[k])
  }

  ghost predicate TextFits(text: string, maxPeriods: int) {
    WordsFit(WordsFrom(Clip(text, 511), 0, Space()), maxPeriods)
  }

  /** One more word that is read. */
  lemma WordsFitAppend(done: seq<string>, word: string, maxPeriods: int)
    requires |Gather(done, PeriodOf)| < maxPeriods
    ensures WordsFit(done + [word], maxPeriods) <==> WordsFit(done, maxPeriods) && TokenFits(word)
  {
    hide PeriodOf, TokenFits;
    var all := done + [word];
    assert all[|done|] == word && all[..|done|] == done;
    forall k | 0 <= k < |done| ensures all[k] == done[k] && all[..k] == done[..k] {
    }
  }

  /** The words that are not read do not matter. */
  lemma WordsFitPrefix(words: seq<string>, n: nat, maxPeriods: int)
    requires n <= |words| && (n == |words| || |Gather(words[..n], PeriodOf)| >= maxPeriods)
    ensures WordsFit(words, maxPeriods) <==> WordsFit(words[..n], maxPeriods)
  {
    hide PeriodOf, TokenFits;
    forall k | 0 <= k < |words|
      ensures k < n ==> words[..n][k] == words[k] && words[..n][..k] == words[..k]
      ensures k >= n ==> |Gather(words[..k], PeriodOf)| >= maxPeriods
    {
      if k >= n {
        GatherPrefix(words[..k], n, PeriodOf);
        assert words[..k][..n] == words[..n];
      }
    }
  }

  /** The periods of the text, as many as the caller has room for. */
  method ParseTimeStr(timeStr: string, maxPeriods: int) returns (r: Option<seq<Period>>, fault: bool)
    ensures r == if maxPeriods <= 0 then None else Some(First(TimePeriods(timeStr), maxPeriods))
    ensures fault <==> !TextFits(timeStr, maxPeriods)
  {
    hide WordsFrom, PeriodOf, TokenFits, WordsFit, Gather, Skip, Cut;
    fault := false;
    if maxPeriods <= 0 {
      NoneRead(WordsFrom(Clip(timeStr, 511), 0, Space()), maxPeriods);
      return None, false;
    }
    var text := Clip(timeStr, 511);
    var periods: seq<Period> := [];
    ghost var done: seq<string> := [];
    NothingRead(text, maxPeriods);
    var word, next := NextWord(text, 0, Space());
    ghost var p := 0;
    while word.Some? && |periods| < maxPeriods
      invariant Cut(text, Space(), done, p) && periods == Gather(done, PeriodOf) && |periods| <= maxPeriods
      invariant fault <==> !WordsFit(done, maxPeriods)
      invariant p <= next <= |text|
      invariant word.None? ==> Skip(text, p, Space(), true) == |text|
      invariant word.Some? ==> var b := Skip(text, p, Space(), true);
                               b < |text| && next == Skip(text, b, Space(), false) > b && word.value == text[b..next]
      decreases |text| - p
    {
      ghost var b := Skip(text, p, Space(), true);
      CutStep(text, Space(), done, p, b, next);
      GatherAppend(done, word.value, PeriodOf);
      WordsFitAppend(done, word.value, maxPeriods);
      var period, overrun := ParsePeriod(word.value);
      fault := fault || overrun;
      if period.Some? {
        periods := periods + [period.value];
      }
      done := done + [word.value];
      p := next;
      word, next := NextWord(text, next, Space());
    }
    ReadingEnds(text, done, p, maxPeriods);
    r := Some(periods);
  }

  lemma NothingRead(text: string, maxPeriods: int)
    ensures Cut(text, Space(), [], 0) && Gather([], PeriodOf) == [] && WordsFit([], maxPeriods)
  {
    CutStarts(text, Space());
  }

  /** When the words or the room are used up, the words read so far have given all that is asked for. */
  lemma ReadingEnds(text: string, done: seq<string>, p: nat, maxPeriods: nat)
    requires Cut(text, Space(), done, p) && |Gather(done, PeriodOf)| <= maxPeriods
    requires Skip(text, p, Space(), true) == |text| || |Gather(done, PeriodOf)| == maxPeriods
    ensures var words := WordsFrom(text, 0, Space());
            && Gather(done, PeriodOf) == First(Gather(words, PeriodOf), maxPeriods)
            && (WordsFit(done, maxPeriods) <==> WordsFit(words, maxPeriods))
  {
    hide WordsFrom, PeriodOf, TokenFits, WordsFit;
    var words := WordsFrom(text, 0, Space());
    if Skip(text, p, Space(), true) == |text| {
      CutEnds(text, Space(), done, p);
      assert words[..|done|] == words;
    } else {
      CutPrefix(text, Space(), done, p);
      GatherPrefix(words, |done|, PeriodOf);
    }
    WordsFitPrefix(words, |done|, maxPeriods);
  }

  lemma NoneRead(words: seq<string>, maxPeriods: int)
    requires maxPeriods <= 0
    ensures WordsFit(words, maxPeriods)
  {
  }

  // ---------------------------------------------------------------- printing

  function PrintDay(d: nat): string { Decimal(d) }

  function PrintPeriod(p: Period): string {
    p.startTime + "-" + p.endTime + if |p.weekdays| == 0 then "" else "-" + Join(MapSeq(p.weekdays, PrintDay), ',')
  }

  function PrintPeriods(ps: seq<Period>): string {
    if |ps| == 0 then "" else Join(MapSeq(ps, PrintPeriod), ' ')
  }

  predicate TimeText(t: string) { |t| <= TIME_LEN && |t| <= 15 && '-' !in t && ' ' !in t }

  predicate WellFormed(p: Period) {
    && TimeText(p.startTime) && TimeText(p.endTime)
    && |p.weekdays| <= MAX_WEEKDAYS && |p.weekdays| <= 32
    && forall i :: 0 <= i < |p.weekdays| ==> p.weekdays[i] <= 6
  }

  lemma DigitText(d: nat)
    requires d <= 6
    ensures |Decimal(d)| == 1 && '0' <= Decimal(d)[0] <= '6' && DayOf(Decimal(d)) == Some(d)
  {
    ScanOfDecimal(d, "");
    assert Decimal(d) + "" == Decimal(d);
  }

  lemma {:induction false} JoinLength(ws: seq<string>, sep: char)
    requires |ws| > 0 && forall i :: 0 <= i < |ws| ==> |ws[i]| == 1
    ensures |Join(ws, sep)| == 2 * |ws| - 1
  {
    if |ws| == 1 {
    } else {
      JoinLength(ws[1..], sep);
    }
  }

  lemma WeekdaysRoundTrip(days: seq<nat>)
    requires 0 < |days| <= MAX_WEEKDAYS && |days| <= 32 && forall i :: 0 <= i < |days| ==> days[i] <= 6
    ensures var text := Join(MapSeq(days, PrintDay), ','); 0 < |text| <= 63 && Weekdays(text) == days
  {
    hide DayOf, WordsFrom, Join;
    var ws := MapSeq(days, PrintDay);
    forall i | 0 <= i < |ws| ensures |ws[i]| == 1 && IsWord(ws[i], Comma()) && DayOf(PrintDay(days[i])) == Some(days[i]) {
      DigitText(days[i]);
    }
    JoinLength(ws, ',');
    WordsOfJoined("", ws, ',', Comma());
    assert "" + Join(ws, ',') == Join(ws, ',');
    GatherPrinted(days, PrintDay, DayOf);
  }

  /** Where the separators of `a-b` and `a-b-c` are. */
  lemma DashPlaces(a: string, b: string, c: string)
    requires '-' !in a && '-' !in b
    ensures var s := a + "-" + b; NextSep(s, '-', 0) == |a| && NextSep(s, '-', |a| + 1) == |s| && s[..|a|] == a && s[|a| + 1..] == b
    ensures var s := a + "-" + b + ("-" + c); var d := |a| + 1 + |b|;
            NextSep(s, '-', 0) == |a| && NextSep(s, '-', |a| + 1) == d < |s| &&
            s[..|a|] == a && s[|a| + 1..d] == b && s[d + 1..] == c
  {
    var s, t := a + "-" + b, a + "-" + b + ("-" + c);
    assert forall j :: 0 <= j < |a| ==> s[j] == a[j] && t[j] == a[j];
    assert s[|a|] == '-' && t[|a|] == '-';
    assert forall j :: |a| < j <= |a| + |b| ==> s[j] == b[j - |a| - 1] && t[j] == b[j - |a| - 1];
    assert t[|a| + 1 + |b|] == '-';
  }

  /** Printing a period and parsing it gives the period, within the buffers. */
  lemma PeriodRoundTrip(p: Period)
    requires WellFormed(p)
    ensures PeriodOf(PrintPeriod(p)) == Some(p) && TokenFits(PrintPeriod(p))
  {
    hide NextSep, Weekdays, Join;
    if |p.weekdays| == 0 {
      DashPlaces(p.startTime, p.endTime, "");
      assert PrintPeriod(p) == p.startTime + "-" + p.endTime;
    } else {
      DashPlaces(p.startTime, p.endTime, Join(MapSeq(p.weekdays, PrintDay), ','));
      WeekdaysRoundTrip(p.weekdays);
    }
  }

  lemma PrintedIsWord(p: Period)
    requires WellFormed(p)
    ensures IsWord(PrintPeriod(p), Space())
  {
    hide Join;
    var head := p.startTime + "-" + p.endTime;
    assert forall j :: 0 <= j < |head| ==> head[j] != ' ';
    if |p.weekdays| > 0 {
      var ws := MapSeq(p.weekdays, PrintDay);
      forall i | 0 <= i < |ws| ensures ' ' !in ws[i] {
        DigitText(p.weekdays[i]);
      }
      NoSpaceInJoin(ws);
    }
  }

  lemma {:induction false} NoSpaceInJoin(ws: seq<string>)
    requires |ws| > 0 && forall i :: 0 <= i < |ws| ==> ' ' !in ws[i]
    ensures ' ' !in Join(ws, ',')
  {
    if |ws| == 1 {
    } else {
      NoSpaceInJoin(ws[1..]);
    }
  }

  /** Printing periods and parsing the text gives the periods, within the limits of the buffer and of the caller. */
  lemma TimeRoundTrip(ps: seq<Period>)
    requires |PrintPeriods(ps)| <= 511 && forall i :: 0 <= i < |ps| ==> WellFormed(ps[i])
    ensures TimePeriods(PrintPeriods(ps)) == ps && forall max :: TextFits(PrintPeriods(ps), max)
  {
    hide PeriodOf, PrintPeriod, Join, WellFormed, TokenFits;
    if |ps| == 0 {
    } else {
      var ws := MapSeq(ps, PrintPeriod);
      forall i | 0 <= i < |ps| ensures IsWord(ws[i], Space()) && PeriodOf(PrintPeriod(ps[i])) == Some(ps[i]) && TokenFits(ws[i]) {
        PrintedIsWord(ps[i]);
        PeriodRoundTrip(ps[i]);
      }
      WordsOfJoined("", ws, ' ', Space());
      assert "" + Join(ws, ' ') == Join(ws, ' ');
      GatherPrinted(ps, PrintPeriod, PeriodOf);
    }
  }

  /** The text `08:00-12:00-1,2 20:00-23:59` is these two periods. */
  lemma TimeExample()
    requires TIME_LEN >= 5 && MAX_WEEKDAYS >= 2
    ensures TimePeriods("08:00-12:00-1,2 20:00-23:59") == [Period("08:00", "12:00", [1, 2]), Period("20:00", "23:59", [])]
  {
    hide TimePeriods, PrintPeriods;
    var ps := [Period("08:00", "12:00", [1, 2]), Period("20:00", "23:59", [])];
    TextOfExample();
    TimeRoundTrip(ps);
  }

  lemma TextOfExample()
    ensures PrintPeriods([Period("08:00", "12:00", [1, 2]), Period("20:00", "23:59", [])]) == "08:00-12:00-1,2 20:00-23:59"
  {
    hide PrintPeriod;
    var a, b := Period("08:00", "12:00", [1, 2]), Period("20:00", "23:59", []);
    var ts := MapSeq([a, b], PrintPeriod);
    TextOfPeriods();
    JoinTwo(ts, ' ');
  }

  lemma TextOfPeriods()
    ensures PrintPeriod(Period("08:00", "12:00", [1, 2])) == "08:00-12:00-1,2"
    ensures PrintPeriod(Period("20:00", "23:59", [])) == "20:00-23:59"
  {
    var days: seq<nat> := [1, 2];
    var ts := MapSeq(days, PrintDay);
    assert PrintDay(1) == "1" && PrintDay(2) == "2";
    assert ts == ["1", "2"];
    JoinTwo(ts, ',');
  }

  /** A token by its parts: start, end and weekdays are cut to the room there is for them, and start and an end that
      weekdays follow overrun their buffers from 16 characters on.  Without a minus sign there is no period. */
  lemma PeriodLaw(a: string, b: string, c: string)
    requires '-' !in a && '-' !in b
    ensures PeriodOf(a + "-" + b + ("-" + c)) == Some(Period(Clip(a, TIME_LEN), Clip(b, TIME_LEN), Weekdays(Clip(c, 63))))
    ensures PeriodOf(a + "-" + b) == Some(Period(Clip(a, TIME_LEN), Clip(Clip(b, 15), TIME_LEN), []))
    ensures TokenFits(a + "-" + b + ("-" + c)) <==> |a| < 16 && |b| < 16
    ensures TokenFits(a + "-" + b) <==> |a| < 16
    ensures PeriodOf(a) == None && TokenFits(a)
  {
    hide NextSep, Weekdays;
    DashPlaces(a, b, c);
    assert NextSep(a, '-', 0) == |a|;
  }

  /** Only the first 511 characters of a text are read. */
  lemma LongTimeText(text: string, maxPeriods: int)
    requires |text| > 511
    ensures TimePeriods(text) == TimePeriods(text[..511]) && (TextFits(text, maxPeriods) <==> TextFits(text[..511], maxPeriods))
  {
  }
}
