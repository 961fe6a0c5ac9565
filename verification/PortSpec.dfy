/** Port expressions of a signature, such as `80|!443|8000-9000`: parsing and matching. */
module PortSpec {
  import opened Common
  import opened CText

  datatype Range = Range(neg: bool, lo: int, hi: int)

  /** The capacity of `range_list`, from a header that is not part of the repository; any value is allowed. */
  const MAX_PORT_RANGES: nat

  predicate ValidChar(c: char) { c == ' ' || c == '!' || c == '-' || '0' <= c <= '9' }

  predicate ValidRangeText(s: string) { forall i :: 0 <= i < |s| ==> ValidChar(s[i]) }

  method ValidateRangeValue(s: string) returns (ok: bool)
    ensures ok <==> ValidRangeText(s)
  {
    var p := 0;
    while p < |s|
      invariant p <= |s| && forall i :: 0 <= i < p ==> ValidChar(s[i])
    {
      if s[p] == ' ' || s[p] == '!' || s[p] == '-' || ('0' <= s[p] && s[p] <= '9') {
        p := p + 1;
        continue;
      } else {
        return false;
      }
    }
    return true;
  }

  /** A single number or two numbers around a minus sign. */
  function Bounds(s: string): Option<(int, int)> {
    match ScanInt(s)
    case None => None
    case Some((lo, rest)) =>
      if '-' !in s then Some((lo, lo))
      else if |rest| == 0 || rest[0] != '-' then None
      else match ScanInt(rest[1..])
           case None => None
           case Some((hi, _)) => Some((lo, hi))
  }

  predicate Negated(token: string) {
    var t := Trim(token);
    |t| > 0 && t[0] == '!'
  }

  /** The element without its `!` and without blanks around it. */
  function Core(token: string): string {
    Trim(if Negated(token) then Trim(token)[1..] else Trim(token))
  }

  /** One element; None is a malformed one. */
  function RangeOf(token: string): Option<Range> {
    if !ValidRangeText(token) then None
    else
      match Bounds(Core(token))
      case None => None
      case Some((lo, hi)) => Some(Range(Negated(token), lo, hi))
  }

  method ParseRangeValue(token: string) returns (r: Option<Range>)
    ensures r == RangeOf(token)
  {
    var valid := ValidateRangeValue(token);
    if !valid {
      return None;
    }
    var trimmed := Trim(token);
    var neg, pure := false, trimmed;
    if At(trimmed, 0) == '!' {
      neg := true;
      pure := trimmed[1..];
    }
    pure := Trim(pure);
    var first := ScanInt(pure);
    if '-' in pure {
      if first == None || |first.value.1| == 0 || first.value.1[0] != '-' {
        return None;
      }
      var second := ScanInt(first.value.1[1..]);
      if second == None {
        return None;
      }
      return Some(Range(neg, first.value.0, second.value.0));
    } else {
      if first == None {
        return None;
      }
      return Some(Range(neg, first.value.0, first.value.0));
    }
  }

  /** The well-formed elements of a port expression, in order; malformed ones contribute nothing. */
  function PortRanges(text: string): seq<Range> {
    var t := Trim(text);
    if |t| == 0 then [] else Gather(Tokens(t, '|'), RangeOf)
  }

  /** Each element fits its copy buffer of 128 bytes, and finds a place in the array if it is written there. */
  predicate ElementsFit(tokens: seq<string>) {
    |tokens| == 0 ||
    var front, last := tokens[..|tokens| - 1], tokens[|tokens| - 1];
    ElementsFit(front) && ElementFits(last, |Gather(front, RangeOf)|)
  }

  predicate ElementFits(token: string, num: nat) {
    |token| <= 127 && (ValidRangeText(token) ==> num < MAX_PORT_RANGES)
  }

  lemma ElementsFitAppend(tokens: seq<string>, token: string)
    ensures ElementsFit(tokens + [token]) <==> ElementsFit(tokens) && ElementFits(token, |Gather(tokens, RangeOf)|)
  {
    assert (tokens + [token])[..|tokens|] == tokens;
  }

  predicate PortsFit(text: string) { |Trim(text)| == 0 || ElementsFit(Tokens(Trim(text), '|')) }

  /** The single pass over the text; every read is at or before the terminator.  It faults when it writes behind one
      of its two buffers. */
  method ParsePortInfo(text: CString) returns (info: seq<Range>, fault: bool)
    ensures info == PortRanges(text) && (fault <==> !PortsFit(text))
  {
    hide ElementsFit, ElementFits, Tokens, Pieces, RangeOf, Trim, Gather;
    info, fault := [], false;
    var s := Trim(text);
    if |s| == 0 {
      return;
    }
    TrimKeeps(text);
    NothingRead();
    TokenStart(s, '|');
    ghost var tokens: seq<string> := [];
    var p, begin := 0, 0;
    while At(s, p) != NUL
      invariant Tokenizing(s, '|', tokens, begin, p)
      invariant info == Gather(tokens, RangeOf) && (fault <==> !ElementsFit(tokens))
      decreases |s| - p
    {
      TokenStep(s, '|', tokens, begin, p, p + 1);
      p := p + 1;
      if At(s, p) != '|' {
        continue;
      }
      ElementsFitAppend(tokens, s[begin..p]);
      GatherAppend(tokens, s[begin..p], RangeOf);
      var r, overrun := StoreRange(s[begin..p], |info|);
      fault := fault || overrun;
      if r.Some? {
        info := info + [r.value];
      }
      tokens := tokens + [s[begin..p]];
      begin := p + 1;
    }
    TokenEnd(s, '|', tokens, begin);
    ElementsFitAppend(tokens, s[begin..]);
    GatherAppend(tokens, s[begin..], RangeOf);
    var r, overrun := StoreRange(s[begin..], |info|);
    fault := fault || overrun;
    if r.Some? {
      info := info + [r.value];
    }
  }

  lemma NothingRead()
    ensures ElementsFit([]) && Gather([], RangeOf) == []
  {
  }

  /** Copies one element and reads it into the next place of the array. */
  method StoreRange(token: string, num: nat) returns (r: Option<Range>, overrun: bool)
    ensures r == RangeOf(token) && (overrun <==> !ElementFits(token, num))
  {
    r := ParseRangeValue(token);
    var valid := ValidateRangeValue(token);
    overrun := |token| > 127 || (valid && num >= MAX_PORT_RANGES);
  }

  lemma TrimKeeps(s: string)
    ensures forall c :: c in Trim(s) ==> c in s
  {
    TrimLeftKeeps(s);
    TrimRightKeeps(TrimLeft(s));
  }

  lemma {:induction false} TrimLeftKeeps(s: string)
    ensures forall c :: c in TrimLeft(s) ==> c in s
  {
    if |s| > 0 && IsSpace(s[0]) {
      TrimLeftKeeps(s[1..]);
    }
  }

  lemma {:induction false} TrimRightKeeps(s: string)
    ensures forall c :: c in TrimRight(s) ==> c in s
  {
    if |s| > 0 && IsSpace(s[|s| - 1]) {
      TrimRightKeeps(s[..|s| - 1]);
    }
  }

  // ---------------------------------------------------------------- which elements are malformed

  predicate IsNumber(s: string) {
    var u := if |s| > 0 && s[0] == '-' then s[1..] else s;
    |u| > 0 && forall i :: 0 <= i < |u| ==> '0' <= u[i] <= '9'
  }

  /** Two numbers: one in front of a minus sign, and one that at least starts behind it. */
  ghost predicate TwoNumbers(c: string) {
    exists k :: 0 <= k < |c| && c[k] == '-' && IsNumber(c[..k]) && ScanNumber(c[k + 1..]).Some?
  }

  /** The digits at the start of a text. */
  function DigitRun(s: string): (k: nat)
    ensures k <= |s| && (k < |s| ==> !IsDigit(s[k], 10)) && forall i :: 0 <= i < k ==> '0' <= s[i] <= '9'
  {
    if StartsWithDigit(s, 10) then 1 + DigitRun(s[1..]) else 0
  }

  lemma {:induction false} DigitsStop(s: string, acc: nat)
    ensures Digits(s, 10, acc).1 == s[DigitRun(s)..]
    decreases |s|
  {
    if StartsWithDigit(s, 10) {
      DigitsStop(s[1..], acc * 10 + DigitValue(s[0]));
    }
  }

  function Unsigned(c: string): string { if |c| > 0 && c[0] == '-' then c[1..] else c }

  /** Where the number at the start of a text ends. */
  function NumberEnd(c: string): (n: nat)
    ensures n <= |c| && c[n..] == Unsigned(c)[DigitRun(Unsigned(c))..]
  {
    DigitRun(Unsigned(c)) + if |c| > 0 && c[0] == '-' then 1 else 0
  }

  /** In a text of the allowed characters without a blank in front, the first number ends there. */
  lemma FirstNumber(c: string)
    requires ValidRangeText(c) && (|c| > 0 ==> !IsSpace(c[0]))
    ensures ScanInt(c).Some? <==> DigitRun(Unsigned(c)) > 0
    ensures ScanInt(c).Some? ==> ScanInt(c).value.1 == c[NumberEnd(c)..]
  {
    assert TrimLeft(c) == c;
    assert |c| > 0 ==> ValidChar(c[0]);
    DigitsStop(Unsigned(c), 0);
  }

  lemma NumberUpToEnd(c: string)
    requires DigitRun(Unsigned(c)) > 0
    ensures IsNumber(c[..NumberEnd(c)])
  {
    assert Unsigned(c[..NumberEnd(c)]) == Unsigned(c)[..DigitRun(Unsigned(c))];
  }

  lemma NumberEndsAt(c: string, k: nat)
    requires k < |c| && c[k] == '-' && IsNumber(c[..k])
    ensures k == NumberEnd(c) && DigitRun(Unsigned(c)) > 0
  {
    var u := Unsigned(c);
    assert forall i :: 0 <= i < |Unsigned(c[..k])| ==> u[i] == Unsigned(c[..k])[i];
    assert u[|Unsigned(c[..k])|] == '-';
  }

  lemma ReadableBounds(c: string)
    requires ValidRangeText(c) && (|c| > 0 ==> !IsSpace(c[0]))
    ensures Bounds(c).Some? <==> if '-' in c then TwoNumbers(c) else |c| > 0 && '0' <= c[0] <= '9'
  {
    hide ValidRangeText, DigitRun, IsNumber, ScanNumber;
    FirstNumber(c);
    if '-' in c {
      var n := NumberEnd(c);
      if Bounds(c).Some? {
        NumberUpToEnd(c);
        assert c[n] == '-' && c[n + 1..] == c[n..][1..];
      }
      if k :| 0 <= k < |c| && c[k] == '-' && IsNumber(c[..k]) && ScanNumber(c[k + 1..]).Some? {
        NumberEndsAt(c, k);
        assert c[n + 1..] == c[n..][1..];
      }
    } else {
    }
  }

  /** An element is well-formed exactly when it has only allowed characters and, without `!` and outer blanks,
      starts with a digit or, if it has a minus sign, consists of two numbers around one. */
  lemma ReadableElement(token: string)
    ensures RangeOf(token).Some? <==>
            ValidRangeText(token) && var c := Core(token); if '-' in c then TwoNumbers(c) else |c| > 0 && '0' <= c[0] <= '9'
  {
    if ValidRangeText(token) {
      CoreFacts(token);
      ReadableBounds(Core(token));
    }
  }

  lemma CoreFacts(token: string)
    requires ValidRangeText(token)
    ensures ValidRangeText(Core(token)) && (|Core(token)| > 0 ==> !IsSpace(Core(token)[0]))
  {
    TrimKeeps(token);
    var t := if Negated(token) then Trim(token)[1..] else Trim(token);
    TrimKeeps(t);
    forall c | c in Core(token) ensures ValidChar(c) {
      assert c in token;
    }
    TrimStartsSolid(t);
  }

  lemma TrimStartsSolid(s: string)
    ensures |Trim(s)| > 0 ==> !IsSpace(Trim(s)[0])
  {
    TrimLeftStarts(s);
    TrimRightStarts(TrimLeft(s));
  }

  lemma {:induction false} TrimLeftStarts(s: string)
    ensures |TrimLeft(s)| > 0 ==> !IsSpace(TrimLeft(s)[0])
  {
    if |s| > 0 && IsSpace(s[0]) {
      TrimLeftStarts(s[1..]);
    }
  }

  lemma {:induction false} TrimRightStarts(s: string)
    ensures TrimRight(s) <= s
  {
    if |s| > 0 && IsSpace(s[|s| - 1]) {
      TrimRightStarts(s[..|s| - 1]);
    }
  }

  // ---------------------------------------------------------------- meaning

  predicate Within(port: int, r: Range) { r.lo <= port <= r.hi }

  /** The set of ports an expression stands for: everything when it is empty, everything outside the negated
      ranges when there is one, and otherwise the union of the ranges. */
  predicate Accepts(info: seq<Range>, port: int) {
    if |info| == 0 then true
    else if exists r :: r in info && r.neg then forall r :: r in info && r.neg ==> !Within(port, r)
    else exists r :: r in info && Within(port, r)
  }

  method MatchPort(info: seq<Range>, port: int) returns (b: bool)
    ensures b == Accepts(info, port)
  {
    if |info| == 0 {
      return true;
    }
    var withNot := false;
    for i := 0 to |info|
      invariant !withNot && forall j :: 0 <= j < i ==> !info[j].neg
    {
      if info[i].neg {
        withNot := true;
        break;
      }
    }
    assert withNot == exists r :: r in info && r.neg;
    for i := 0 to |info|
      invariant withNot ==> forall j :: 0 <= j < i && info[j].neg ==> !Within(port, info[j])
      invariant !withNot ==> forall j :: 0 <= j < i ==> !Within(port, info[j])
    {
      if withNot {
        if info[i].neg && port >= info[i].lo && port <= info[i].hi {
          return false;
        }
      } else {
        if port >= info[i].lo && port <= info[i].hi {
          assert info[i] in info && Within(port, info[i]);
          return true;
        }
      }
    }
    return withNot;
  }

  /** A text has no range exactly when it is blank or all its elements are malformed. */
  lemma NoRanges(text: string)
    ensures PortRanges(text) == [] <==>
            |Trim(text)| == 0 || forall i :: 0 <= i < |Tokens(Trim(text), '|')| ==> RangeOf(Tokens(Trim(text), '|')[i]) == None
  {
    GatherNothing(Tokens(Trim(text), '|'), RangeOf);
  }

  /** So a text can be malformed throughout and still accept every port. */
  lemma MalformedAcceptsAll(text: string, port: int)
    requires forall i :: 0 <= i < |Tokens(Trim(text), '|')| ==> RangeOf(Tokens(Trim(text), '|')[i]) == None
    ensures Accepts(PortRanges(text), port)
    ensures PortRanges("abc") == [] && Accepts(PortRanges("abc"), port)
  {
    NoRanges(text);
    TrimSolid("abc");
    assert Tokens("abc", '|') == ["abc"];
    assert !ValidChar("abc"[0]);
    NoRanges("abc");
  }

  /** Parsing a text and matching a port against it: the element texts decide, malformed ones do not count. */
  method ParseAndMatch(text: CString, port: int) returns (b: bool, fault: bool)
    ensures b == Accepts(PortRanges(text), port) && (fault <==> !PortsFit(text))
  {
    var info;
    info, fault := ParsePortInfo(text);
    b := MatchPort(info, port);
  }

  // ---------------------------------------------------------------- printing

  /** Bounds are signed 32-bit numbers, and a minus sign would be read as the one between them. */
  predicate Printable(r: Range) { 0 <= r.lo < 0x8000_0000 && 0 <= r.hi < 0x8000_0000 }

  /** One or two printed numbers. */
  function PrintBounds(lo: int, hi: int): string {
    if lo == hi then Decimal(lo) else Decimal(lo) + "-" + Decimal(hi)
  }

  /** `!` for a negated element, then `lo` or `lo-hi`. */
  function PrintRange(r: Range): string {
    if r.neg then "!" + PrintBounds(r.lo, r.hi) else PrintBounds(r.lo, r.hi)
  }

  function PrintRanges(rs: seq<Range>): seq<string> { MapSeq(rs, PrintRange) }

  function PrintPorts(rs: seq<Range>): string {
    var ts := PrintRanges(rs);
    if |ts| == 0 then "" else Join(ts, '|')
  }

  predicate BoundsChar(c: char) { c == '-' || '0' <= c <= '9' }

  lemma PrintedBoundsChars(lo: nat, hi: nat)
    ensures var t := PrintBounds(lo, hi);
            && (forall i :: 0 <= i < |t| ==> BoundsChar(t[i])) && |t| > 0
            && ('-' in t <==> lo != hi) && t[|t| - 1] != '-'
  {
    var t := PrintBounds(lo, hi);
    if lo != hi {
      assert t[|Decimal(lo)|] == '-';
      assert t[|t| - 1] == Decimal(hi)[|Decimal(hi)| - 1];
    }
  }

  lemma BoundsOfPrinted(lo: nat, hi: nat)
    requires IsInt32(lo) && IsInt32(hi)
    ensures Bounds(PrintBounds(lo, hi)) == Some((lo, hi))
  {
    PrintedBoundsChars(lo, hi);
    if lo == hi {
      assert Decimal(lo) + "" == Decimal(lo);
      ScanOfDecimal(lo, "");
    } else {
      var rest := "-" + Decimal(hi);
      assert PrintBounds(lo, hi) == Decimal(lo) + rest;
      ScanOfDecimal(lo, rest);
      assert rest[1..] == Decimal(hi) + "";
      ScanOfDecimal(hi, "");
    }
  }

  /** A printed element is read back, and it can neither be cut by a separator nor shortened by trimming. */
  lemma PrintedRange(r: Range)
    requires Printable(r)
    ensures RangeOf(PrintRange(r)) == Some(r)
    ensures '|' !in PrintRange(r) && |PrintRange(r)| > 0
    ensures !IsSpace(PrintRange(r)[0]) && !IsSpace(PrintRange(r)[|PrintRange(r)| - 1])
  {
    hide Bounds, PrintBounds;
    var t, s := PrintBounds(r.lo, r.hi), PrintRange(r);
    PrintedBoundsChars(r.lo, r.hi);
    BoundsOfPrinted(r.lo, r.hi);
    assert t[0] != '!' && !IsSpace(t[0]) && !IsSpace(t[|t| - 1]);
    TrimSolid(t);
    if r.neg {
      assert s == "!" + t;
      assert s[1..] == t;
      assert forall i :: 0 < i < |s| ==> s[i] == t[i - 1];
    } else {
      assert s == t;
    }
    TrimSolid(s);
  }

  lemma RangesOfPrinted(rs: seq<Range>)
    requires forall r :: r in rs ==> Printable(r)
    ensures Gather(PrintRanges(rs), RangeOf) == rs
  {
    forall i | 0 <= i < |rs| ensures RangeOf(PrintRange(rs[i])) == Some(rs[i]) {
      assert rs[i] in rs;
      PrintedRange(rs[i]);
    }
    GatherPrinted(rs, PrintRange, RangeOf);
  }

  lemma PrintedTokens(rs: seq<Range>)
    requires forall r :: r in rs ==> Printable(r)
    ensures SepFree(PrintRanges(rs), '|')
  {
    forall i | 0 <= i < |rs| ensures '|' !in PrintRanges(rs)[i] {
      PrintedRange(rs[i]);
    }
  }

  /** Joined printed elements neither start nor end with a blank. */
  lemma JoinSolid(rs: seq<Range>)
    requires |rs| > 0 && forall r :: r in rs ==> Printable(r)
    ensures var s := Join(PrintRanges(rs), '|'); |s| > 0 && !IsSpace(s[0]) && !IsSpace(s[|s| - 1])
  {
    PrintedRange(rs[0]);
    PrintedRange(rs[|rs| - 1]);
    JoinLast(PrintRanges(rs), '|');
  }

  lemma {:induction false} JoinLast(ps: seq<string>, sep: char)
    requires |ps| > 0 && |ps[|ps| - 1]| > 0
    ensures var s := Join(ps, sep); var last := ps[|ps| - 1]; |s| > 0 && s[|s| - 1] == last[|last| - 1]
  {
    if |ps| == 1 {
    } else {
      var rest := ps[1..];
      assert rest[|rest| - 1] == ps[|ps| - 1];
      JoinLast(rest, sep);
      assert Join(ps, sep) == ps[0] + [sep] + Join(rest, sep);
    }
  }

  /** A printed element is short. */
  lemma PrintedLength(r: Range)
    requires Printable(r)
    ensures |PrintRange(r)| <= 22
  {
    Int32Length(r.lo);
    Int32Length(r.hi);
  }

  lemma {:induction false} PrintedElementsFit(rs: seq<Range>)
    requires |rs| <= MAX_PORT_RANGES && forall r :: r in rs ==> Printable(r)
    ensures ElementsFit(PrintRanges(rs))
  {
    hide PrintRange, RangeOf, ValidRangeText, Printable;
    if |rs| == 0 {
    } else {
      var front, last := rs[..|rs| - 1], rs[|rs| - 1];
      PrintedElementsFit(front);
      PrintedLength(last);
      RangesOfPrinted(front);
      assert PrintRanges(rs)[..|rs| - 1] == PrintRanges(front);
    }
  }

  /** Printed ranges that find a place in the array do not fault. */
  lemma PrintedPortsFit(rs: seq<Range>)
    requires |rs| <= MAX_PORT_RANGES && forall r :: r in rs ==> Printable(r)
    ensures PortsFit(PrintPorts(rs))
  {
    hide PrintRange, ElementsFit, Join, Tokens, Trim;
    if |rs| == 0 {
      TrimSolid("");
    } else {
      PrintedTokens(rs);
      PrintedRange(rs[0]);
      JoinSolid(rs);
      TrimSolid(PrintPorts(rs));
      TokensOfJoin(PrintRanges(rs), '|');
      PrintedElementsFit(rs);
    }
  }

  /** Printing an expression and parsing it gives the same ranges, so parsing then matching the printed text is
      membership in the set the expression stands for. */
  lemma PortsRoundTrip(rs: seq<Range>)
    requires forall r :: r in rs ==> Printable(r)
    ensures PortRanges(PrintPorts(rs)) == rs
  {
    hide RangeOf, PrintRange, Printable, Join, Tokens, Trim;
    if |rs| == 0 {
      TrimSolid("");
    } else {
      RangesOfPrinted(rs);
      PrintedTokens(rs);
      PrintedRange(rs[0]);
      JoinSolid(rs);
      TrimSolid(PrintPorts(rs));
      TokensOfJoin(PrintRanges(rs), '|');
    }
  }

  // ---------------------------------------------------------------- limits by their numbers

  /** An element fits up to 127 characters, and when it has only allowed characters it needs a place in the array. */
  lemma ElementLimits(token: string, num: nat)
    ensures ElementFits(token, num) <==>
            |token| < 128 && ((exists i :: 0 <= i < |token| && token[i] !in " !-0123456789") || num < MAX_PORT_RANGES)
  {
    forall i | 0 <= i < |token| ensures ValidChar(token[i]) <==> token[i] in " !-0123456789" {
    }
  }

}
