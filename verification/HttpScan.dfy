/** The HTTP request scanner: one pass over the payload that notes the request line, the host line and the body. */
module HttpScan {
  import opened Common

  const CR: Byte := 0x0d
  const LF: Byte := 0x0a
  const MIN_HTTP_DATA_LEN: nat

  const POST: Bytes := ['P' as int, 'O' as int, 'S' as int, 'T' as int, ' ' as int]
  const GET: Bytes := ['G' as int, 'E' as int, 'T' as int, ' ' as int]
  const HOST: Bytes := ['H' as int, 'o' as int, 's' as int, 't' as int, ':' as int]

  /** The payload of n bytes with the four bytes behind it that the scanner may look at. */
  predicate Readable(buf: Bytes, n: nat) { n + 4 <= |buf| }

  predicate Crlf(buf: Bytes, i: nat) { i + 1 < |buf| && buf[i] == CR && buf[i + 1] == LF }

  // ---------------------------------------------------------------- the text cut into lines

  /** A line from `start` up to the line break at `end`. */
  datatype Line = Line(start: nat, end: nat)

  function NextCrlf(buf: Bytes, n: nat, from: nat): (i: nat)
    requires Readable(buf, n)
    ensures i >= n || (from <= i < n && Crlf(buf, i))
    ensures forall j :: from <= j < i && j < n ==> !Crlf(buf, j)
    decreases n - from
  {
    if from >= n then from else if Crlf(buf, from) then from else NextCrlf(buf, n, from + 1)
  }

  /** The lines from `start` on, through the first one that a blank line follows. */
  function Lines(buf: Bytes, n: nat, start: nat): seq<Line>
    requires Readable(buf, n)
    decreases n - start
  {
    var i := NextCrlf(buf, n, start);
    if i >= n then []
    else if Crlf(buf, i + 2) then [Line(start, i)]
    else [Line(start, i)] + Lines(buf, n, i + 2)
  }

  predicate LineOf(buf: Bytes, n: nat, l: Line) {
    Readable(buf, n) && l.start <= l.end < n && Crlf(buf, l.end) && forall j :: l.start <= j < l.end ==> !Crlf(buf, j)
  }

  function Content(buf: Bytes, l: Line): Bytes {
    if l.start <= l.end <= |buf| then buf[l.start..l.end] else []
  }

  lemma {:induction false} LinesAreLines(buf: Bytes, n: nat, start: nat)
    requires Readable(buf, n)
    ensures forall l :: l in Lines(buf, n, start) ==> LineOf(buf, n, l)
    decreases n - start
  {
    var i := NextCrlf(buf, n, start);
    if i < n && !Crlf(buf, i + 2) {
      LinesAreLines(buf, n, i + 2);
    }
  }

  predicate IsPost(buf: Bytes, l: Line) { POST <= Content(buf, l) }

  predicate IsGet(buf: Bytes, l: Line) { GET <= Content(buf, l) }

  predicate IsRequest(buf: Bytes, l: Line) { IsPost(buf, l) || IsGet(buf, l) }

  predicate IsHost(buf: Bytes, l: Line) { HOST <= Content(buf, l) }

  function RequestKind(buf: Bytes): Line -> bool { (l: Line) => IsRequest(buf, l) }

  function HostKind(buf: Bytes): Line -> bool { (l: Line) => IsHost(buf, l) }

  /** The last line of a kind. */
  function LastSuch(ls: seq<Line>, kind: Line -> bool): Option<Line> {
    if |ls| == 0 then None
    else if kind(ls[|ls| - 1]) then Some(ls[|ls| - 1])
    else LastSuch(ls[..|ls| - 1], kind)
  }

  lemma LastSuchAppend(ls: seq<Line>, l: Line, kind: Line -> bool)
    ensures LastSuch(ls + [l], kind) == if kind(l) then Some(l) else LastSuch(ls, kind)
  {
    assert (ls + [l])[..|ls|] == ls;
  }

  /** Position and length; the length may be -1 for a host line that is nothing but `Host:`. */
  datatype Slice = Slice(pos: nat, len: int)

  datatype Http = Http(matched: bool, post: bool, url: Option<Slice>, host: Option<Slice>, body: Option<Slice>)

  const NOTHING := Http(false, false, None, None, None)

  /** What the lines of a request say. */
  function Summary(buf: Bytes, ls: seq<Line>): Http {
    var request, host := LastSuch(ls, RequestKind(buf)), LastSuch(ls, HostKind(buf));
    Http(request.Some?, request.Some? && IsPost(buf, request.value),
         match request
         case None => None
         case Some(l) =>
           var skip := if IsPost(buf, l) then 5 else 4;
           Some(Slice(l.start + skip, l.end as int - l.start - skip)),
         match host case None => None case Some(l) => Some(Slice(l.start + 6, l.end as int - l.start - 6)),
         None)
  }

  /** The body starts behind the blank line, when there is one. */
  function BodyOf(buf: Bytes, n: nat, ls: seq<Line>): Option<Slice> {
    if |ls| == 0 || !Crlf(buf, ls[|ls| - 1].end + 2) then None
    else Some(Slice(ls[|ls| - 1].end + 4, n - ls[|ls| - 1].end - 4))
  }

  function Scanned(buf: Bytes, n: nat): Http
    requires Readable(buf, n)
  {
    var ls := Lines(buf, n, 0);
    Summary(buf, ls).(body := BodyOf(buf, n, ls))
  }

  /** What a flow knows after the scan: nothing, unless it is a TCP payload of the least length. */
  function Result(buf: Bytes, n: nat, tcp: bool): Http
    requires Readable(buf, n)
  {
    if tcp && n >= MIN_HTTP_DATA_LEN then Scanned(buf, n) else NOTHING
  }

  // ---------------------------------------------------------------- the one-pass scan

  /** The comparisons look at a fixed number of bytes, but what they find is within the line. */
  lemma CompareIsPrefix(buf: Bytes, n: nat, l: Line, word: Bytes)
    requires LineOf(buf, n, l) && |word| <= 5 && CR !in word
    ensures buf[l.start..l.start + |word|] == word <==> word <= Content(buf, l)
  {
    var piece := buf[l.start..l.start + |word|];
    assert l.end < l.start + |word| ==> piece[l.end - l.start] == CR;
    if l.end >= l.start + |word| {
      assert buf[l.start..l.end][..|word|] == piece;
    }
  }

  /** What one line adds to the summary of the lines before it. */
  function WithLine(h: Http, buf: Bytes, l: Line): Http {
    if IsPost(buf, l) then h.(matched := true, post := true, url := Some(Slice(l.start + 5, l.end - l.start - 5)))
    else if IsGet(buf, l) then h.(matched := true, post := false, url := Some(Slice(l.start + 4, l.end - l.start - 4)))
    else if IsHost(buf, l) then h.(host := Some(Slice(l.start + 6, l.end as int - l.start - 6)))
    else h
  }

  /** No line is of two kinds. */
  lemma KindsDiffer(buf: Bytes, l: Line)
    ensures !(IsPost(buf, l) && IsGet(buf, l)) && !(IsPost(buf, l) && IsHost(buf, l)) && !(IsGet(buf, l) && IsHost(buf, l))
  {
    var c := Content(buf, l);
    assert IsPost(buf, l) ==> c[0] == POST[0];
    assert IsGet(buf, l) ==> c[0] == GET[0];
    assert IsHost(buf, l) ==> c[0] == HOST[0];
  }

  lemma SummaryAppend(buf: Bytes, ls: seq<Line>, l: Line)
    ensures Summary(buf, ls + [l]) == WithLine(Summary(buf, ls), buf, l)
  {
    hide IsPost, IsGet, IsHost, LastSuch;
    KindsDiffer(buf, l);
    LastSuchAppend(ls, l, RequestKind(buf));
    LastSuchAppend(ls, l, HostKind(buf));
  }

  /** The http part of a flow; it starts out empty for every packet. */
  class HttpFlow {
    var http: Http

    constructor ()
      ensures http == NOTHING
    {
      http := NOTHING;
    }

    /** Notes what one line says. */
    method Note(buf: Bytes, n: nat, l: Line)
      requires LineOf(buf, n, l)
      modifies this
      ensures http == WithLine(old(http), buf, l)
    {
      CompareIsPrefix(buf, n, l, POST);
      CompareIsPrefix(buf, n, l, GET);
      CompareIsPrefix(buf, n, l, HOST);
      var start, i := l.start, l.end;
      if buf[start..start + 5] == POST {
        http := http.(matched := true, post := true, url := Some(Slice(start + 5, i - start - 5)));
      } else if buf[start..start + 4] == GET {
        http := http.(matched := true, post := false, url := Some(Slice(start + 4, i - start - 4)));
      } else if buf[start..start + 5] == HOST {
        http := http.(host := Some(Slice(start + 6, i as int - start - 6)));
      }
    }

    /** The scan of a TCP payload of n bytes.  Looking past the end is limited to the four readable bytes. */
    method Scan(buf: Bytes, n: nat, tcp: bool)
      requires Readable(buf, n) && http == NOTHING
      modifies this
      ensures http == Result(buf, n, tcp)
      ensures !tcp || n < MIN_HTTP_DATA_LEN ==> http == NOTHING
    {
      hide Lines, Summary, WithLine;
      if !tcp {
        return;
      }
      if n < MIN_HTTP_DATA_LEN {
        return;
      }
      SummaryEmpty(buf);
      CuttingStarts(buf, n);
      ghost var ls: seq<Line> := [];
      var i, start := 0, 0;
      while i < n
        invariant Cutting(buf, n, ls, start, i)
        invariant http == Summary(buf, ls) && http.body == None
      {
        if buf[i] == CR && buf[i + 1] == LF {
          CuttingBreak(buf, n, ls, start, i, i + 1);
          Note(buf, n, Line(start, i));
          SummaryAppend(buf, ls, Line(start, i));
          SummaryNoBody(buf, ls + [Line(start, i)]);
          ls := ls + [Line(start, i)];
          if buf[i + 2] == CR && buf[i + 3] == LF {
            http := http.(body := Some(Slice(i + 4, n - i - 4)));
            return;
          }
          start := i + 2;
        } else {
          CuttingQuiet(buf, n, ls, start, i, i + 1);
        }
        i := i + 1;
      }
      CuttingEnds(buf, n, ls, start);
    }
  }

  /** The invariant of the scan: the lines so far, and no line break between `start` and i. */
  ghost predicate Cutting(buf: Bytes, n: nat, ls: seq<Line>, start: nat, i: nat) {
    && Readable(buf, n) && start <= i + 1 && i <= n
    && (forall j :: start <= j < i ==> !Crlf(buf, j))
    && (start == i + 1 ==> buf[i] == LF)
    && Lines(buf, n, 0) == ls + Lines(buf, n, start)
    && (ls == [] || !Crlf(buf, ls[|ls| - 1].end + 2))
  }

  lemma SummaryEmpty(buf: Bytes)
    ensures Summary(buf, []) == NOTHING
  {
  }

  lemma SummaryNoBody(buf: Bytes, ls: seq<Line>)
    ensures Summary(buf, ls).body == None
  {
  }

  lemma CuttingStarts(buf: Bytes, n: nat)
    requires Readable(buf, n)
    ensures Cutting(buf, n, [], 0, 0)
  {
    assert [] + Lines(buf, n, 0) == Lines(buf, n, 0);
  }

  lemma CuttingQuiet(buf: Bytes, n: nat, ls: seq<Line>, start: nat, i: nat, next: nat)
    requires Cutting(buf, n, ls, start, i) && i < n && next == i + 1 && !Crlf(buf, i)
    ensures Cutting(buf, n, ls, start, next)
  {
  }

  lemma CuttingBreak(buf: Bytes, n: nat, ls: seq<Line>, start: nat, i: nat, next: nat)
    requires Cutting(buf, n, ls, start, i) && i < n && next == i + 1 && Crlf(buf, i)
    ensures start <= i && LineOf(buf, n, Line(start, i))
    ensures if Crlf(buf, i + 2) then Lines(buf, n, 0) == ls + [Line(start, i)]
            else Cutting(buf, n, ls + [Line(start, i)], next + 1, next)
  {
    assert NextCrlf(buf, n, start) == i;
    assert ls + ([Line(start, i)] + Lines(buf, n, i + 2)) == (ls + [Line(start, i)]) + Lines(buf, n, i + 2);
  }

  lemma CuttingEnds(buf: Bytes, n: nat, ls: seq<Line>, start: nat)
    requires Cutting(buf, n, ls, start, n)
    ensures Lines(buf, n, 0) == ls && BodyOf(buf, n, ls) == None
  {
    assert NextCrlf(buf, n, start) >= n;
  }

  // ---------------------------------------------------------------- what the slices can be

  /** A URL slice has no negative length and ends before the payload does; a host slice is at least -1 long. */
  lemma SliceBounds(buf: Bytes, n: nat)
    requires Readable(buf, n)
    ensures var h := Scanned(buf, n);
            && (h.url.Some? ==> 0 <= h.url.value.len && h.url.value.pos + h.url.value.len < n)
            && (h.host.Some? ==> -1 <= h.host.value.len && h.host.value.pos + h.host.value.len < n)
            && (h.body.Some? ==> -3 <= h.body.value.len && h.body.value.pos + h.body.value.len == n)
  {
    LinesAreLines(buf, n, 0);
    var ls := Lines(buf, n, 0);
    LastSuchMember(ls, RequestKind(buf));
    LastSuchMember(ls, HostKind(buf));
    if |ls| > 0 {
      assert ls[|ls| - 1] in ls;
    }
  }

  lemma {:induction false} LastSuchMember(ls: seq<Line>, kind: Line -> bool)
    ensures var l := LastSuch(ls, kind); l.Some? ==> l.value in ls && kind(l.value)
    ensures LastSuch(ls, kind).None? ==> forall l :: l in ls ==> !kind(l)
  {
    if |ls| == 0 {
    } else {
      LastSuchMember(ls[..|ls| - 1], kind);
    }
  }

  // ---------------------------------------------------------------- rendered messages, section 3 of RFC 9112

  const BREAK: Bytes := [CR, LF]

  /** The lines of a message head, each with its line break. */
  function RenderLines(ls: seq<Bytes>): Bytes {
    if |ls| == 0 then [] else ls[0] + BREAK + RenderLines(ls[1..])
  }

  predicate Unbroken(t: Bytes) { forall j :: 0 <= j < |t| - 1 ==> !(t[j] == CR && t[j + 1] == LF) }

  predicate IsLineText(t: Bytes) { |t| > 0 && Unbroken(t) }

  /** Where the lines of a head lie when it starts at `at`. */
  function Places(ls: seq<Bytes>, at: nat): seq<Line> {
    if |ls| == 0 then [] else [Line(at, at + |ls[0]|)] + Places(ls[1..], at + |ls[0]| + 2)
  }

  /** Behind any prefix, cutting a rendered head that a blank line ends gives back its lines. */
  lemma {:induction false} LinesOfRendered(pre: Bytes, ls: seq<Bytes>, tail: Bytes, n: nat)
    requires |ls| > 0 && Crlf(tail, 0) && forall i :: 0 <= i < |ls| ==> IsLineText(ls[i])
    requires |pre + RenderLines(ls)| + 2 <= n && n + 4 <= |pre + RenderLines(ls) + tail|
    ensures Lines(pre + RenderLines(ls) + tail, n, |pre|) == Places(ls, |pre|)
    decreases |ls|
  {
    hide NextCrlf, RenderLines, Crlf;
    var buf, next := pre + RenderLines(ls) + tail, pre + ls[0] + BREAK;
    RenderStep(pre, ls, tail);
    FirstLine(pre, ls[0], RenderLines(ls[1..]) + tail, n);
    assert next + (RenderLines(ls[1..]) + tail) == buf;
    if |ls| > 1 {
      LinesOfRendered(next, ls[1..], tail, n);
      NoBlankLine(next, ls[1..], tail);
    } else {
      BlankLine(next, tail);
      assert Places(ls[1..], |next|) == [];
    }
  }

  lemma BlankLine(next: Bytes, tail: Bytes)
    requires Crlf(tail, 0)
    ensures Crlf(next + RenderLines([]) + tail, |next|)
  {
  }

  lemma FirstLine(pre: Bytes, t: Bytes, tail: Bytes, n: nat)
    requires IsLineText(t) && |pre| + |t| + 2 <= n && n + 4 <= |pre| + |t| + 2 + |tail|
    ensures var buf := pre + t + BREAK + tail; NextCrlf(buf, n, |pre|) == |pre| + |t|
  {
    var buf, k := pre + t + BREAK + tail, |pre| + |t|;
    assert forall j :: |pre| <= j < k ==> buf[j] == t[j - |pre|];
    assert buf[k] == CR && buf[k + 1] == LF;
    forall j | |pre| <= j < k ensures !Crlf(buf, j) {
      if j + 1 < k {
        assert !(t[j - |pre|] == CR && t[j - |pre| + 1] == LF);
        assert buf[j + 1] == t[j - |pre| + 1];
      }
    }
    assert Crlf(buf, k);
  }

  /** A line that is not empty does not look like a blank line. */
  lemma NoBlankLine(next: Bytes, rest: seq<Bytes>, tail: Bytes)
    requires |rest| > 0 && IsLineText(rest[0])
    ensures !Crlf(next + RenderLines(rest) + tail, |next|)
  {
    var t, buf := rest[0], next + RenderLines(rest) + tail;
    RenderStep(next, rest, tail);
    assert buf[|next|] == t[0];
    assert buf[|next| + 1] == (if |t| > 1 then t[1] else CR);
  }

  /** The places hold the texts. */
  lemma {:induction false} ContentsOfRendered(pre: Bytes, ls: seq<Bytes>, tail: Bytes)
    ensures |Places(ls, |pre|)| == |ls|
    ensures forall k :: 0 <= k < |ls| ==> Content(pre + RenderLines(ls) + tail, Places(ls, |pre|)[k]) == ls[k]
    decreases |ls|
  {
    if |ls| == 0 {
    } else {
      var next := pre + ls[0] + BREAK;
      ContentsOfRendered(next, ls[1..], tail);
      RenderStep(pre, ls, tail);
    }
  }

  lemma RenderStep(pre: Bytes, ls: seq<Bytes>, tail: Bytes)
    requires |ls| > 0
    ensures pre + RenderLines(ls) + tail == pre + ls[0] + BREAK + RenderLines(ls[1..]) + tail
    ensures (pre + RenderLines(ls) + tail)[|pre|..|pre| + |ls[0]|] == ls[0]
  {
  }

  /** A message whose first line is a method and some text, and in which one header line is `Host:` and some text. */
  function RenderRequest(post: bool, line: Bytes, before: seq<Bytes>, field: Bytes, after: seq<Bytes>, body: Bytes): Bytes {
    RenderLines(RequestLines(post, line, before, field, after)) + BREAK + body
  }

  function RequestLines(post: bool, line: Bytes, before: seq<Bytes>, field: Bytes, after: seq<Bytes>): seq<Bytes> {
    [(if post then POST else GET) + line] + before + [HOST + field] + after
  }

  /** A header line that is neither a request line nor a host line. */
  predicate OtherHeader(t: Bytes) { IsLineText(t) && !(POST <= t) && !(GET <= t) && !(HOST <= t) }

  lemma {:induction false} LastSuchAt(ls: seq<Line>, kind: Line -> bool, k: nat)
    requires k < |ls| && kind(ls[k]) && forall j :: k < j < |ls| ==> !kind(ls[j])
    ensures LastSuch(ls, kind) == Some(ls[k])
    decreases |ls|
  {
    if k == |ls| - 1 {
    } else {
      LastSuchAt(ls[..|ls| - 1], kind, k);
    }
  }

  lemma WordLine(word: Bytes, t: Bytes)
    requires |word| > 0 && CR !in word && Unbroken(t)
    ensures IsLineText(word + t)
  {
    var s := word + t;
    forall j | 0 <= j < |s| - 1 ensures !(s[j] == CR && s[j + 1] == LF) {
      if j < |word| {
        assert s[j] == word[j] && word[j] in word;
      } else {
        assert s[j] == t[j - |word|] && s[j + 1] == t[j + 1 - |word|];
      }
    }
  }

  /** In a request only the first line is a request line, and only the one between the headers is a host line. */
  lemma RequestKinds(post: bool, line: Bytes, before: seq<Bytes>, field: Bytes, after: seq<Bytes>)
    requires Unbroken(line) && Unbroken(field)
    requires forall t :: t in before + after ==> OtherHeader(t)
    ensures var ls := RequestLines(post, line, before, field, after); var h := |before| + 1;
            && h < |ls| && ls[0] == (if post then POST else GET) + line && ls[h] == HOST + field
            && (forall k :: 0 <= k < |ls| ==> IsLineText(ls[k]))
            && (forall k :: 0 < k < |ls| ==> !(POST <= ls[k]) && !(GET <= ls[k]))
            && (forall k :: h < k < |ls| ==> !(HOST <= ls[k]))
  {
    var ls, h := RequestLines(post, line, before, field, after), |before| + 1;
    WordLine(if post then POST else GET, line);
    WordLine(HOST, field);
    assert ls[h][0] == HOST[0];
    forall k | 0 < k < |ls| && k != h ensures OtherHeader(ls[k]) {
      if k < h {
        assert ls[k] == before[k - 1];
        assert ls[k] in before + after;
      } else {
        assert ls[k] == after[k - h - 1];
        assert ls[k] in before + after;
      }
    }
  }

  function Cut(buf: Bytes, s: Slice): Bytes {
    if 0 <= s.len && s.pos + s.len <= |buf| then buf[s.pos..s.pos + s.len] else []
  }

  /** The scanned lines of a rendered message are its lines, in their places. */
  lemma PlacesOfMessage(ls: seq<Bytes>, body: Bytes, slack: Bytes)
    requires |ls| > 0 && |slack| >= 4 && forall i :: 0 <= i < |ls| ==> IsLineText(ls[i])
    ensures var text := RenderLines(ls) + BREAK + body; var places := Places(ls, 0);
            && |places| == |ls| && Lines(text + slack, |text|, 0) == places
            && (forall k :: 0 <= k < |ls| ==> Content(text + slack, places[k]) == ls[k])
            && BodyOf(text + slack, |text|, places) == Some(Slice(|RenderLines(ls)| + 2, |body|))
  {
    hide Lines, RenderLines;
    var text, tail := RenderLines(ls) + BREAK + body, BREAK + body + slack;
    assert text + slack == [] + RenderLines(ls) + tail;
    assert [] + RenderLines(ls) == RenderLines(ls);
    LinesOfRendered([], ls, tail, |text|);
    ContentsOfRendered([], ls, tail);
    LastPlace(ls, 0);
    assert Crlf(text + slack, |RenderLines(ls)|);
  }

  /** What the lines of a rendered message say: everything behind the method, and everything behind `Host:` but the
      first byte. */
  lemma ScannedRequest(post: bool, line: Bytes, before: seq<Bytes>, field: Bytes, after: seq<Bytes>, body: Bytes, slack: Bytes)
    requires Unbroken(line) && Unbroken(field) && |slack| >= 4
    requires forall t :: t in before + after ==> OtherHeader(t)
    ensures var text := RenderRequest(post, line, before, field, after, body);
            var buf := text + slack; var h := Scanned(buf, |text|);
            && h.matched && h.post == post && h.url.Some? && h.host.Some? && h.body.Some?
            && Cut(buf, h.url.value) == line && Cut(buf, h.body.value) == body
            && Cut(buf, h.host.value) == if |field| > 0 then field[1..] else []
  {
    hide Lines, RenderLines, RequestLines, Places, Summary, BodyOf, IsLineText, OtherHeader, LastSuch, IsPost, Content;
    var ls, at := RequestLines(post, line, before, field, after), |before| + 1;
    var text := RenderRequest(post, line, before, field, after, body);
    var buf, places := text + slack, Places(ls, 0);
    RequestKinds(post, line, before, field, after);
    PlacesOfMessage(ls, body, slack);
    KindsOfPlaces(buf, places, ls, post, at);
    SummaryOf(buf, places, post, places[0], places[at]);
    LinesAreLines(buf, |text|, 0);
    assert places[0] in places && places[at] in places;
    var word := if post then POST else GET;
    WordSlice(buf, places[0], word, line);
    WordSlice(buf, places[at], HOST, field);
    var h := Scanned(buf, |text|);
    assert h.url == Some(Slice(places[0].start + |word|, |line|));
    assert h.host == Some(Slice(places[at].start + 6, |field| as int - 1));
    assert |field| > 0 ==> buf[places[at].start + 6..places[at].end] == buf[places[at].start + 5..places[at].end][1..];
    assert buf[|RenderLines(ls)| + 2..|text|] == body;
  }

  // ---------------------------------------------------------------- requests as they are written

  /** A request in the syntax of sections 3 and 5 of RFC 9112: the request line is method, target and version with
      single spaces, the host line may have blanks around its value. */
  datatype Request = Request(
    post: bool, target: Bytes, version: Bytes, before: seq<Bytes>, pad: Bytes, host: Bytes, trail: Bytes,
    after: seq<Bytes>, body: Bytes)

  const SPACE: Byte := ' ' as int

  predicate Blank(b: Byte) { b == SPACE || b == 9 }

  predicate Blanks(t: Bytes) { forall i :: 0 <= i < |t| ==> Blank(t[i]) }

  /** `HTTP/`, a digit, a dot and a digit. */
  predicate HttpVersion(v: Bytes) {
    && |v| == 8 && v[..5] == ['H' as int, 'T' as int, 'T' as int, 'P' as int, '/' as int] && v[6] == '.' as int
    && '0' as int <= v[5] <= '9' as int && '0' as int <= v[7] <= '9' as int
  }

  predicate WellFormed(r: Request) {
    && CR !in r.target && HttpVersion(r.version)
    && Blanks(r.pad) && Blanks(r.trail) && CR !in r.host
    && (|r.host| > 0 ==> !Blank(r.host[0]) && !Blank(r.host[|r.host| - 1]))
    && forall t :: t in r.before + r.after ==> OtherHeader(t)
  }

  function RequestLine(r: Request): Bytes { r.target + [SPACE] + r.version }

  function HostField(r: Request): Bytes { r.pad + r.host + r.trail }

  function RequestText(r: Request): Bytes {
    RenderRequest(r.post, RequestLine(r), r.before, HostField(r), r.after, r.body)
  }

  lemma WithoutBreak(r: Request)
    requires WellFormed(r)
    ensures Unbroken(RequestLine(r)) && Unbroken(HostField(r))
  {
    assert forall i :: 0 <= i < |r.version| ==> r.version[i] != CR by { VersionBytes(r.version); }
    assert CR !in RequestLine(r);
    assert CR !in HostField(r);
  }

  lemma VersionBytes(v: Bytes)
    requires HttpVersion(v)
    ensures forall i :: 0 <= i < |v| ==> v[i] != CR
  {
    assert forall i :: 0 <= i < 5 ==> v[i] == v[..5][i];
  }

  /** Skipping one byte gives the value exactly when there is one blank before it and none behind it; an empty value
      allows for one blank less or elsewhere. */
  lemma SkipOne(pad: Bytes, host: Bytes, trail: Bytes)
    requires Blanks(pad) && Blanks(trail) && (|host| > 0 ==> !Blank(host[0]) && !Blank(host[|host| - 1]))
    ensures var field := pad + host + trail;
            (if |field| > 0 then field[1..] else []) == host <==>
            (|pad| == 1 && trail == []) || (host == [] && |pad| + |trail| <= 1)
  {
    var field := pad + host + trail;
    if |host| > 0 && |pad| == 0 && |trail| == 1 {
      assert field[1..][|host| - 1] == trail[0];
    }
    if |host| > 0 && |pad| == 1 && |trail| == 0 {
      assert field[1..] == host;
    }
  }

  /** Scanning a request of the least length gives back its method and its body, but with the target the version, and
      the host exactly when one blank precedes it and none follows.  A shorter request is ignored. */
  lemma RequestRoundTrip(r: Request, slack: Bytes)
    requires WellFormed(r) && |slack| >= 4
    ensures var buf := RequestText(r) + slack; var h := Result(buf, |RequestText(r)|, true);
            if |RequestText(r)| < MIN_HTTP_DATA_LEN then h == NOTHING
            else
              && h.matched && h.post == r.post && h.url.Some? && h.host.Some? && h.body.Some?
              && Cut(buf, h.url.value) == r.target + [SPACE] + r.version != r.target
              && Cut(buf, h.body.value) == r.body
              && (Cut(buf, h.host.value) == r.host <==>
                  (|r.pad| == 1 && r.trail == []) || (r.host == [] && |r.pad| + |r.trail| <= 1))
  {
    hide Scanned, RenderRequest, Cut, OtherHeader, HttpVersion, Blanks, Blank, Unbroken;
    WithoutBreak(r);
    ScannedRequest(r.post, RequestLine(r), r.before, HostField(r), r.after, r.body, slack);
    SkipOne(r.pad, r.host, r.trail);
    assert |RequestLine(r)| > |r.target|;
  }

  /** The host line `Host:ab` is a correct one, and is read as `b`. */
  lemma HostWithoutBlank(r: Request, slack: Bytes)
    requires WellFormed(r) && |slack| >= 4 && |RequestText(r)| >= MIN_HTTP_DATA_LEN
    requires r.pad == r.trail == [] && r.host == ['a' as int, 'b' as int]
    ensures var buf := RequestText(r) + slack; var h := Result(buf, |RequestText(r)|, true);
            h.host.Some? && Cut(buf, h.host.value) == ['b' as int]
  {
    hide Scanned, RenderRequest, Cut, OtherHeader, HttpVersion, Blanks, Blank, Unbroken;
    WithoutBreak(r);
    ScannedRequest(r.post, RequestLine(r), r.before, HostField(r), r.after, r.body, slack);
    assert HostField(r) == r.host;
  }

  lemma {:induction false} LastPlace(ls: seq<Bytes>, at: nat)
    requires |ls| > 0
    ensures |Places(ls, at)| == |ls| && Places(ls, at)[|ls| - 1].end + 2 == at + |RenderLines(ls)|
  {
    if |ls| == 1 {
    } else {
      LastPlace(ls[1..], at + |ls[0]| + 2);
    }
  }

  lemma WordSlice(buf: Bytes, l: Line, word: Bytes, t: Bytes)
    requires l.start <= l.end <= |buf| && Content(buf, l) == word + t
    ensures l.end == l.start + |word| + |t| && buf[l.start + |word|..l.end] == t
  {
    assert buf[l.start + |word|..l.end] == Content(buf, l)[|word|..];
  }

  lemma KindsOfPlaces(buf: Bytes, places: seq<Line>, ls: seq<Bytes>, post: bool, at: nat)
    requires |places| == |ls| && 0 < at < |ls|
    requires forall k :: 0 <= k < |ls| ==> Content(buf, places[k]) == ls[k]
    requires (if post then POST else GET) <= ls[0] && HOST <= ls[at]
    requires forall k :: 0 < k < |ls| ==> !(POST <= ls[k]) && !(GET <= ls[k])
    requires forall k :: at < k < |ls| ==> !(HOST <= ls[k])
    ensures LastSuch(places, RequestKind(buf)) == Some(places[0]) && IsPost(buf, places[0]) == post
    ensures LastSuch(places, HostKind(buf)) == Some(places[at])
  {
    KindsDiffer(buf, places[0]);
    LastSuchAt(places, RequestKind(buf), 0);
    LastSuchAt(places, HostKind(buf), at);
  }

  lemma SummaryOf(buf: Bytes, places: seq<Line>, post: bool, l: Line, m: Line)
    requires LastSuch(places, RequestKind(buf)) == Some(l) && IsPost(buf, l) == post
    requires LastSuch(places, HostKind(buf)) == Some(m)
    ensures var h := Summary(buf, places); var skip := if post then 5 else 4;
            && h.matched && h.post == post
            && h.url == Some(Slice(l.start + skip, l.end as int - l.start - skip))
            && h.host == Some(Slice(m.start + 6, m.end as int - m.start - 6))
  {
    hide IsPost, LastSuch, RequestKind, HostKind;
  }

  /** The words and the line break by their codes. */
  lemma WordBytes()
    ensures GET == [71, 69, 84, 32] && POST == [80, 79, 83, 84, 32] && HOST == [72, 111, 115, 116, 58] && BREAK == [13, 10]
  {
  }
}
