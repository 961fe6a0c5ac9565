/** Printing signatures, and reading back what was printed. */
module FeaturePrint {
  import opened Common
  import opened CText
  import opened PortSpec
  import opened FeatureSyntax
  import FeatureMatch

  /** A position is a signed 32-bit number, and so is the value, which is printed without a sign. */
  predicate PosFits(p: PosInfo) { IsInt32(p.pos) && 0 <= p.value < 0x8000_0000 }

  function PrintPos(p: PosInfo): string { Decimal(p.pos) + ":" + Numeral(if p.value < 0 then 0 else p.value, 16) }

  function PrintDict(ds: seq<PosInfo>): string {
    if |ds| == 0 then "" else Join(MapSeq(ds, PrintPos), '|')
  }

  function PrintProto(p: Proto): string { if p == Tcp then "tcp" else "udp" }

  /** The eight fields of a record. */
  function PrintFields(r: Record): (fs: seq<string>)
    ensures |fs| == 8
  {
    [PrintProto(r.proto), Decimal(r.sport), PrintPorts(r.ports), r.host, r.request, PrintDict(r.dict), r.search, Decimal(r.ignore)]
  }

  function PrintRecord(r: Record): string { Join(PrintFields(r), ';') }

  /** `id name:[f1,f2,...]`, the blank being part of the name text. */
  function PrintLine(id: int, name: string, rs: seq<Record>): string
    requires |rs| > 0
  {
    Decimal(id) + name + ":" + "[" + Join(MapSeq(rs, PrintRecord), ',') + "]"
  }

  /** Characters without a role in the line syntax. */
  predicate Plain(c: char) { c != ';' && c != ',' && c != '[' && c != ']' && c != '#' && c != NUL }

  predicate PlainText(s: string) { forall i :: 0 <= i < |s| ==> Plain(s[i]) }

  /** The fields fit the buffers they are copied to, with their terminators: 16 bytes for the ports, 32 for the
      host, 128 for the request, the dictionary and the search text.  Numbers fit 32 bits. */
  predicate WellFormed(r: Record) {
    && PlainText(r.host) && PlainText(r.request) && PlainText(r.search)
    && (forall p :: p in r.ports ==> Printable(p))
    && (forall p :: p in r.dict ==> PosFits(p))
    && IsInt32(r.sport) && IsInt32(r.ignore)
    && |PrintPorts(r.ports)| <= 15 && |r.host| <= 31 && |r.request| <= 127 && |PrintDict(r.dict)| <= 127 && |r.search| <= 127
    && |r.dict| < MAX_POS_INFO_PER_FEATURE && |r.ports| <= MAX_PORT_RANGES
    && MIN_FEATURE_STR_LEN <= |PrintRecord(r)| < MAX_FEATURE_STR_LEN
  }

  /** A name fits its buffer of 128 bytes and cannot be taken for a part of the id or of the rest of the line. */
  predicate NameText(name: string) {
    0 < |name| <= 127 && !IsDigit(name[0], 10) && ':' !in name && '#' !in name && NUL !in name
  }

  // ---------------------------------------------------------------- dictionary

  lemma ScanOfPos(p: PosInfo, cur: PosInfo)
    requires PosFits(p)
    ensures ScanPos(PrintPos(p), cur) == (2, p)
  {
    var rest := ":" + Numeral(p.value, 16);
    assert PrintPos(p) == Decimal(p.pos) + rest;
    ScanOfDecimal(p.pos, rest);
    assert rest[1..] == Numeral(p.value, 16);
    ScanOfHex(p.value);
  }

  lemma {:induction false} PushedPrinted(ds: seq<PosInfo>)
    requires forall p :: p in ds ==> PosFits(p)
    ensures Pushed(MapSeq(ds, PrintPos)).0 == ds
  {
    hide ScanPos, PrintPos;
    if |ds| == 0 {
    } else {
      var front, last := ds[..|ds| - 1], ds[|ds| - 1];
      PushedPrinted(front);
      var before := MapSeq(front, PrintPos);
      PushedAppend(before, PrintPos(last));
      ScanOfPos(last, Pushed(before).1);
    }
  }

  lemma PosText(p: PosInfo)
    ensures PlainText(PrintPos(p)) && '|' !in PrintPos(p) && |PrintPos(p)| > 0
  {
  }

  lemma DictTokens(ds: seq<PosInfo>)
    requires |ds| > 0
    ensures Tokens(PrintDict(ds), '|') == MapSeq(ds, PrintPos)
  {
    var ts := MapSeq(ds, PrintPos);
    forall i | 0 <= i < |ts| ensures '|' !in ts[i] && |ts[i]| > 0 {
      PosText(ds[i]);
    }
    TokensOfJoin(ts, '|');
  }

  lemma DictRoundTripSome(ds: seq<PosInfo>)
    requires |ds| > 0 && forall p :: p in ds ==> PosFits(p)
    ensures DictOf(PrintDict(ds)) == ds
  {
    hide ScanPos, PrintPos, Pushed, PrintDict, Tokens;
    var front, last := ds[..|ds| - 1], ds[|ds| - 1];
    DictTokens(ds);
    PushedPrinted(front);
    assert MapSeq(ds, PrintPos)[..|ds| - 1] == MapSeq(front, PrintPos);
    ScanOfPos(last, Pushed(MapSeq(front, PrintPos)).1);
    assert ds == front + [last];
  }

  /** Reading back a printed dictionary. */
  lemma DictRoundTrip(ds: seq<PosInfo>)
    requires forall p :: p in ds ==> PosFits(p)
    ensures DictOf(PrintDict(ds)) == ds
  {
    if |ds| == 0 {
      assert Tokens("", '|') == [""];
    } else {
      DictRoundTripSome(ds);
    }
  }

  // ---------------------------------------------------------------- records

  lemma {:induction false} PlainJoin(ps: seq<string>, sep: char)
    requires |ps| > 0 && Plain(sep) && forall i :: 0 <= i < |ps| ==> PlainText(ps[i])
    ensures PlainText(Join(ps, sep))
  {
    if |ps| == 1 {
    } else {
      PlainJoin(ps[1..], sep);
    }
  }

  lemma PlainDict(ds: seq<PosInfo>)
    ensures PlainText(PrintDict(ds))
  {
    if |ds| > 0 {
      var ts := MapSeq(ds, PrintPos);
      forall i | 0 <= i < |ts| ensures PlainText(ts[i]) {
        PosText(ds[i]);
      }
      PlainJoin(ts, '|');
    }
  }

  lemma PlainRange(r: Range)
    requires Printable(r)
    ensures PlainText(PrintRange(r))
  {
    PrintedBoundsChars(r.lo, r.hi);
    var t := PrintBounds(r.lo, r.hi);
    assert PlainText(t) by {
      forall i | 0 <= i < |t| ensures Plain(t[i]) {
        assert BoundsChar(t[i]);
      }
    }
  }

  lemma PlainPorts(rs: seq<Range>)
    requires forall r :: r in rs ==> Printable(r)
    ensures PlainText(PrintPorts(rs))
  {
    if |rs| > 0 {
      var ts := PrintRanges(rs);
      forall i | 0 <= i < |ts| ensures PlainText(ts[i]) {
        assert rs[i] in rs;
        PlainRange(rs[i]);
      }
      PlainJoin(ts, '|');
    }
  }

  lemma PlainDecimal(n: int)
    ensures PlainText(Decimal(n))
  {
  }

  lemma PlainFields(r: Record)
    requires WellFormed(r)
    ensures forall i :: 0 <= i < 8 ==> PlainText(PrintFields(r)[i])
  {
    hide Decimal, PrintPorts, PrintDict;
    PlainDecimal(r.sport);
    PlainPorts(r.ports);
    PlainDict(r.dict);
    PlainDecimal(r.ignore);
  }

  /** The text of the first n fields. */
  function PrintUpto(r: Record, n: nat): string
    requires 1 <= n <= 8
  {
    Join(PrintFields(r)[..n], ';')
  }

  lemma FieldsOfPrinted(r: Record, n: nat)
    requires WellFormed(r) && 1 <= n <= 8
    ensures Tokens(PrintUpto(r, n), ';') == PrintFields(r)[..n]
  {
    hide PrintFields, WellFormed;
    PlainFields(r);
    var fs := PrintFields(r)[..n];
    forall i | 0 <= i < n ensures ';' !in fs[i] {
      assert PlainText(PrintFields(r)[i]);
    }
    assert |fs[0]| > 0 by { FirstField(r); }
    TokensOfJoin(fs, ';');
  }

  lemma AtoiOfDecimal(n: int)
    requires IsInt32(n)
    ensures Atoi(Decimal(n)) == n
  {
    assert Decimal(n) + "" == Decimal(n);
    ScanOfDecimal(n, "");
  }

  /** How many of n pieces are stored: the last piece only as field 5 or field 7. */
  function KeptPieces(n: nat): nat
    requires n >= 1
  {
    if n == 6 || n == 8 then n else n - 1
  }

  /** The first n fields of a record, and nothing in the others. */
  function Upto(r: Record, n: nat): Record {
    Record(r.proto, if n > 1 then r.sport else 0, if n > 2 then r.ports else [], if n > 3 then r.host else "",
           if n > 4 then r.request else "", if n > 5 then r.dict else [], if n > 6 then r.search else "",
           if n > 7 then r.ignore else 0)
  }

  /** Each printed field is read back, and an empty field is read as nothing. */
  lemma FieldValues(r: Record)
    requires WellFormed(r)
    ensures Atoi(Decimal(r.sport)) == r.sport && Atoi(Decimal(r.ignore)) == r.ignore && Atoi("") == 0
    ensures PortRanges(PrintPorts(r.ports)) == r.ports && PortRanges("") == []
    ensures DictOf(PrintDict(r.dict)) == r.dict && DictOf("") == []
  {
    hide Atoi, DictOf, PortRanges;
    AtoiOfDecimal(r.sport);
    AtoiOfDecimal(r.ignore);
    AtoiOfNothing();
    PortsRoundTrip(r.ports);
    PortsRoundTrip([]);
    DictRoundTrip(r.dict);
    DictRoundTrip([]);
  }

  lemma AtoiOfNothing()
    ensures Atoi("") == 0
  {
  }

  lemma FieldsKept(fs: seq<string>, n: nat)
    requires 1 <= n <= |fs| == 8
    ensures forall k :: 0 <= k < 8 ==> Field(fs[..n], k) == if k < KeptPieces(n) then fs[k] else ""
  {
  }

  /** Reading the first n fields of a printed record gives the fields that were stored. */
  lemma RecordOfPieces(r: Record, n: nat)
    requires WellFormed(r) && 1 <= n <= 8
    ensures RecordOf(PrintUpto(r, n)) ==
            if |PrintUpto(r, n)| < MIN_FEATURE_STR_LEN || n == 1 then None else Some(Upto(r, KeptPieces(n)))
  {
    hide Tokens, Field, Atoi, DictOf, PortRanges, PrintPorts, PrintDict, Decimal, Join, WellFormed;
    FieldsOfPrinted(r, n);
    FieldsKept(PrintFields(r), n);
    FieldValues(r);
  }

  /** The last of n non-empty pieces is kept exactly when it is number 6 or number 8; so a record printed with
      exactly six `;` loses its search text. */
  lemma LastPieceKept(r: Record, n: nat)
    requires WellFormed(r) && 1 <= n <= 8
    ensures |PrintUpto(r, n)| >= MIN_FEATURE_STR_LEN ==>
              (RecordOf(PrintUpto(r, n)) == Some(Upto(r, n)) <==> n == 6 || n == 8 || (n > 1 && Upto(r, n) == Upto(r, n - 1)))
    ensures |PrintUpto(r, 7)| >= MIN_FEATURE_STR_LEN ==>
              RecordOf(PrintUpto(r, 7)) == Some(r.(search := "", ignore := 0))
  {
    hide RecordOf, PrintUpto, WellFormed;
    RecordOfPieces(r, n);
    RecordOfPieces(r, 7);
  }

  lemma PrintedPosLength(p: PosInfo)
    requires PosFits(p)
    ensures |PrintPos(p)| <= 63
  {
    Int32Length(if p.pos < 0 then -p.pos else p.pos);
    Int32Length(p.value);
  }

  lemma PrintedDictFits(ds: seq<PosInfo>)
    requires |ds| < MAX_POS_INFO_PER_FEATURE && forall p :: p in ds ==> PosFits(p)
    ensures EntriesFit(PrintDict(ds))
  {
    hide PrintPos;
    if |ds| == 0 {
      assert Tokens("", '|') == [""];
    } else {
      DictTokens(ds);
      forall i | 0 <= i < |ds| ensures |MapSeq(ds, PrintPos)[i]| <= 63 {
        PrintedPosLength(ds[i]);
      }
    }
  }

  lemma PrintedFieldsFit(r: Record)
    requires WellFormed(r)
    ensures forall k :: 0 <= k < 8 ==> |PrintFields(r)[k]| < FieldSize(k)
  {
    hide PrintPorts, PrintDict, Decimal;
    DecimalLength(r.sport);
    DecimalLength(r.ignore);
  }

  /** Reading back a printed record of eight fields: it gives the record, and no buffer is overrun. */
  lemma RecordRoundTrip(r: Record)
    requires WellFormed(r)
    ensures RecordOf(PrintRecord(r)) == Some(r) && !Faults(PrintRecord(r))
  {
    hide RecordOf, Tokens, Field, EntriesFit, PortsFit, Join, PrintPorts, PrintDict;
    RecordOfPieces(r, 8);
    assert PrintFields(r)[..8] == PrintFields(r);
    FieldsOfPrinted(r, 8);
    FieldsKept(PrintFields(r), 8);
    PrintedFieldsFit(r);
    PrintedPortsFit(r.ports);
    PrintedDictFits(r.dict);
  }

  /** A feature whose dictionary has more elements than there is room for, with any text in the request field. */
  function CrowdedFeature(request: string): string {
    Join(["tcp", "", "", "", request, Join(Zeros(MAX_POS_INFO_PER_FEATURE + 1), '|')], ';')
  }

  function Zeros(n: nat): (zs: seq<string>)
    ensures |zs| == n && forall i :: 0 <= i < n ==> zs[i] == "0"
  {
    if n == 0 then [] else Zeros(n - 1) + ["0"]
  }

  /** It faults, provided that it is long enough to be read. */
  lemma CrowdedFeatureFaults(request: string)
    requires ';' !in request && |CrowdedFeature(request)| >= MIN_FEATURE_STR_LEN
    ensures !DictFits(CrowdedFeature(request)) && Faults(CrowdedFeature(request))
  {
    hide FieldsFit, PortsFit, DictOf, PortRanges, Atoi;
    var dict := Join(Zeros(MAX_POS_INFO_PER_FEATURE + 1), '|');
    var fs := ["tcp", "", "", "", request, dict];
    TokensOfJoin(Zeros(MAX_POS_INFO_PER_FEATURE + 1), '|');
    NoSemicolon(Zeros(MAX_POS_INFO_PER_FEATURE + 1));
    TokensOfJoin(fs, ';');
    assert Field(fs, 0) == "tcp" && Field(fs, 5) == dict;
  }

  lemma {:induction false} NoSemicolon(ps: seq<string>)
    requires |ps| > 0 && forall i :: 0 <= i < |ps| ==> ps[i] == "0"
    ensures ';' !in Join(ps, '|')
  {
    if |ps| == 1 {
    } else {
      NoSemicolon(ps[1..]);
    }
  }

  // ---------------------------------------------------------------- lines

  /** Over text without brackets the search keeps what it has found. */
  lemma {:induction false} BracketsQuiet(s: string, m: nat, n: nat)
    requires m <= n <= |s|
    requires forall j :: m < j <= n ==> At(s, j) != '[' && At(s, j) != ']'
    ensures Brackets(s, n) == Brackets(s, m)
  {
    if m == n {
    } else {
      BracketsQuiet(s, m, n - 1);
    }
  }

  /** The body is what stands between the last brackets, whatever precedes them. */
  lemma BodyOfWrapped(pre: string, body: string)
    requires |pre| > 0 && forall j :: 0 <= j < |body| ==> BodyChar(body[j])
    ensures BodyOf(pre + "[" + body + "]") == body
    ensures Brackets(pre + "[" + body + "]", |pre + "[" + body + "]"|).1 == |body|
  {
    var s := pre + "[" + body + "]";
    var open, close := |pre|, |pre| + 1 + |body|;
    assert s[open] == '[' && s[close] == ']';
    assert forall j :: open < j < close ==> s[j] == body[j - open - 1];
    var before := Brackets(s, open - 1);
    assert Brackets(s, open) == (Some(open + 1), before.1);
    BracketsQuiet(s, open, close - 1);
    assert Brackets(s, close) == (Some(open + 1), |body|);
    BracketsQuiet(s, close, |s|);
    assert s[open + 1..close] == body;
  }

  lemma HeaderOfPrinted(id: int, name: string, rest: string, stack: int)
    requires |name| > 0 && !IsDigit(name[0], 10) && ':' !in name
    ensures HeaderOf(Decimal(id) + name + ":" + rest, stack) == (ToInt32(id), name)
  {
    var tail := name + ":" + rest;
    assert Decimal(id) + name + ":" + rest == Decimal(id) + tail;
    ScanOfDecimal(id, tail);
    FirstPiece("", name, ':', rest, 0);
    assert tail[|name|] == ':';
    assert forall j :: 0 <= j < |name| ==> tail[j] == name[j];
    assert NextSep(tail, ':', 0) == |name|;
    assert tail[..|name|] == name;
  }

  /** A name of 128 characters or more overruns its buffer, and a body its own as long as a whole line may be. */
  lemma HeadAndBodyLimits(id: int, name: string, rest: string, pre: string, body: string)
    requires |name| > 0 && !IsDigit(name[0], 10) && ':' !in name
    requires |pre| > 0 && forall j :: 0 <= j < |body| ==> BodyChar(body[j])
    ensures NameFits(Decimal(id) + name + ":" + rest) <==> |name| < 128
    ensures BodyBufferFits(pre + "[" + body + "]") <==> |body| < MAX_FEATURE_LINE_LEN
  {
    hide Decimal, HeaderOf, Brackets;
    HeaderOfPrinted(id, name, rest, 0);
    BodyOfWrapped(pre, body);
  }

  lemma {:induction false} AllTaken(ts: seq<string>)
    requires forall i :: 0 <= i < |ts| ==> |ts[i]| < MAX_FEATURE_STR_LEN
    ensures Taken(ts) == ts
  {
    if |ts| <= 1 {
    } else {
      AllTaken(ts[1..]);
    }
  }

  /** The printed records, joined, contain no bracket and no comment sign, and are cut apart again. */
  lemma RecordTexts(rs: seq<Record>)
    requires |rs| > 0 && forall i :: 0 <= i < |rs| ==> WellFormed(rs[i])
    ensures var body := Join(MapSeq(rs, PrintRecord), ',');
            && Tokens(body, ',') == MapSeq(rs, PrintRecord)
            && forall j :: 0 <= j < |body| ==> BodyChar(body[j])
  {
    hide PrintRecord;
    var ts := MapSeq(rs, PrintRecord);
    forall i | 0 <= i < |ts| ensures RecordText(ts[i]) {
      PrintedRecordText(rs[i]);
    }
    forall i | 0 <= i < |ts| ensures ',' !in ts[i] && |ts[i]| > 0 {
      assert RecordText(ts[i]);
    }
    TokensOfJoin(ts, ',');
    TextJoin(ts);
  }

  predicate BodyChar(c: char) { c != '[' && c != ']' && c != '#' && c != NUL }

  predicate RecordChar(c: char) { c == ';' || Plain(c) }

  predicate RecordText(s: string) { |s| > 0 && forall i :: 0 <= i < |s| ==> RecordChar(s[i]) }

  lemma PrintedRecordText(r: Record)
    requires WellFormed(r)
    ensures RecordText(PrintRecord(r))
  {
    hide PrintFields;
    PlainFields(r);
    SemicolonJoin(PrintFields(r));
    assert PrintFields(r)[0] == PrintProto(r.proto) by { FirstField(r); }
  }

  lemma FirstField(r: Record)
    ensures PrintFields(r)[0] == PrintProto(r.proto) && |PrintProto(r.proto)| > 0
  {
  }

  lemma {:induction false} SemicolonJoin(ps: seq<string>)
    requires |ps| > 0 && forall i :: 0 <= i < |ps| ==> PlainText(ps[i])
    ensures var s := Join(ps, ';'); |s| >= |ps[0]| && forall i :: 0 <= i < |s| ==> RecordChar(s[i])
  {
    if |ps| == 1 {
    } else {
      SemicolonJoin(ps[1..]);
    }
  }

  lemma {:induction false} TextJoin(ps: seq<string>)
    requires |ps| > 0 && forall i :: 0 <= i < |ps| ==> RecordText(ps[i])
    ensures var s := Join(ps, ','); forall j :: 0 <= j < |s| ==> BodyChar(s[j])
  {
    var s := Join(ps, ',');
    assert RecordText(ps[0]);
    if |ps| == 1 {
    } else {
      TextJoin(ps[1..]);
    }
    forall j | 0 <= j < |s| ensures BodyChar(s[j]) {
      if j < |ps[0]| {
        assert s[j] == ps[0][j] && RecordChar(ps[0][j]);
      } else if j > |ps[0]| {
        assert s[j] == Join(ps[1..], ',')[j - |ps[0]| - 1];
      }
    }
  }

  /** The nodes a printed line stands for, in the order of the line. */
  function NodeFor(id: int, name: string): Record -> Node {
    (r: Record) => Node(id, name, PrintRecord(r), r)
  }

  lemma NodesOfPrinted(id: int, name: string, rs: seq<Record>)
    requires forall i :: 0 <= i < |rs| ==> WellFormed(rs[i])
    ensures Gather(MapSeq(rs, PrintRecord), NodeMaker(id, name)) == MapSeq(rs, NodeFor(id, name))
    decreases |rs|
  {
    hide RecordOf, PrintRecord, WellFormed;
    if |rs| == 0 {
    } else {
      var front, last := rs[..|rs| - 1], rs[|rs| - 1];
      NodesOfPrinted(id, name, front);
      RecordRoundTrip(last);
      GatherAppend(MapSeq(front, PrintRecord), PrintRecord(last), NodeMaker(id, name));
    }
  }

  lemma LineParts(id: int, name: string, rs: seq<Record>, stack: int)
    requires IsInt32(id) && |rs| > 0 && NameText(name) && forall i :: 0 <= i < |rs| ==> WellFormed(rs[i])
    ensures var line := PrintLine(id, name, rs);
            && HeaderOf(line, stack) == (id, name) && Tokens(BodyOf(line), ',') == MapSeq(rs, PrintRecord)
            && Brackets(line, |line|).1 < |line|
            && '#' !in line && NUL !in line
  {
    hide PrintRecord, Brackets, HeaderOf, BodyOf, Tokens, Join, Decimal, WellFormed;
    var body := Join(MapSeq(rs, PrintRecord), ',');
    var pre := Decimal(id) + name + ":";
    RecordTexts(rs);
    BodyOfWrapped(pre, body);
    HeaderOfPrinted(id, name, "[" + body + "]", stack);
    Bracketed(pre, body);
    NoComment(id, name, body);
  }

  lemma Bracketed(pre: string, body: string)
    ensures pre + "[" + body + "]" == pre + ("[" + body + "]")
  {
  }

  lemma TakenOfPrinted(rs: seq<Record>)
    requires forall i :: 0 <= i < |rs| ==> WellFormed(rs[i])
    ensures Taken(MapSeq(rs, PrintRecord)) == MapSeq(rs, PrintRecord)
  {
    hide PrintRecord;
    AllTaken(MapSeq(rs, PrintRecord));
  }

  /** Reading a printed line stays inside all buffers exactly when the last record leaves room for two terminators in
      the copy buffer; with one character less of room the second one lands behind the buffer. */
  lemma PrintedLineFits(id: int, name: string, rs: seq<Record>)
    requires IsInt32(id) && |rs| > 0 && NameText(name) && forall i :: 0 <= i < |rs| ==> WellFormed(rs[i])
    requires |PrintLine(id, name, rs)| < MAX_FEATURE_LINE_LEN
    ensures LineFits(PrintLine(id, name, rs)) <==> |PrintRecord(rs[|rs| - 1])| + 1 < MAX_FEATURE_STR_LEN
  {
    hide PrintRecord, PrintLine, HeaderOf, BodyOf, Tokens, Taken, WellFormed, Faults, Brackets;
    LineParts(id, name, rs, 0);
    TakenOfPrinted(rs);
    var line, tokens := PrintLine(id, name, rs), MapSeq(rs, PrintRecord);
    forall k | 0 <= k < |tokens| ensures !Faults(tokens[k]) && |tokens[k]| < MAX_FEATURE_STR_LEN {
      RecordRoundTrip(rs[k]);
      RecordLength(rs[k]);
    }
    assert TokenFits(tokens, |tokens| - 1) <==> |PrintRecord(rs[|rs| - 1])| + 1 < MAX_FEATURE_STR_LEN;
  }

  lemma RecordLength(r: Record)
    requires WellFormed(r)
    ensures |PrintRecord(r)| < MAX_FEATURE_STR_LEN
  {
  }

  /** Printing well-formed records into one line and reading the line gives the same records, each with the
      printed id and name, and the line is read without overrunning a buffer. */
  lemma LineRoundTrip(id: int, name: string, rs: seq<Record>, stack: int)
    requires IsInt32(id) && |rs| > 0 && NameText(name) && forall i :: 0 <= i < |rs| ==> WellFormed(rs[i])
    requires |PrintLine(id, name, rs)| < MAX_FEATURE_LINE_LEN && |PrintRecord(rs[|rs| - 1])| + 1 < MAX_FEATURE_STR_LEN
    ensures LineNodes(PrintLine(id, name, rs), stack) == MapSeq(rs, NodeFor(id, name))
    ensures NUL !in PrintLine(id, name, rs) && LineFits(PrintLine(id, name, rs))
  {
    hide PrintRecord, PrintLine, HeaderOf, BodyOf, Tokens, Taken, Gather, WellFormed, LineFits;
    LineParts(id, name, rs, stack);
    TakenOfPrinted(rs);
    NodesOfPrinted(id, name, rs);
    PrintedLineFits(id, name, rs);
  }

  function Fill(n: nat): (s: string)
    ensures |s| == n && forall i :: 0 <= i < n ==> s[i] == 'x'
  {
    if n == 0 then "" else Fill(n - 1) + "x"
  }

  /** A line with the id 1, the name ` a` and a body. */
  function ShortLine(body: string): string { Decimal(1) + " a" + ":" + "[" + body + "]" }

  lemma ShortLineFacts(body: string)
    requires forall j :: 0 <= j < |body| ==> BodyChar(body[j])
    ensures BodyOf(ShortLine(body)) == body && Brackets(ShortLine(body), |ShortLine(body)|).1 == |body|
    ensures NameFits(ShortLine(body)) && '#' !in ShortLine(body) && |ShortLine(body)| <= |body| + 16
  {
    hide Brackets, BodyOf, HeaderOf, Decimal;
    var pre := Decimal(1) + " a" + ":";
    BodyOfWrapped(pre, body);
    Bracketed(pre, body);
    HeaderOfPrinted(1, " a", "[" + body + "]", 0);
    NoComment(1, " a", body);
    DecimalLength(1);
  }

  lemma DecimalLength(n: int)
    requires IsInt32(n)
    ensures |Decimal(n)| <= 11
  {
    Int32Length(if n < 0 then -n else n);
  }

  /** The two shortest features that overrun the copy buffer although they pass the length test: the only one of a
      line with one character less than the buffer has, and one before a comma with as many.  Their lines are short
      enough for a message, and nothing else is wrong with them. */
  lemma FillingFeatureFaults()
    requires MAX_FEATURE_STR_LEN + 17 < MAX_FEATURE_LINE_LEN
    ensures var line := ShortLine(Fill(MAX_FEATURE_STR_LEN - 1));
            |line| < MAX_FEATURE_LINE_LEN && NameFits(line) && BodyBufferFits(line) && !LineFits(line)
    ensures var line := ShortLine(Fill(MAX_FEATURE_STR_LEN) + ",");
            |line| < MAX_FEATURE_LINE_LEN && NameFits(line) && BodyBufferFits(line) && !LineFits(line)
  {
    hide Brackets, BodyOf, NameFits, ShortLine, BodyFits;
    ShortLineFacts(Fill(MAX_FEATURE_STR_LEN - 1));
    ShortLineFacts(Fill(MAX_FEATURE_STR_LEN) + ",");
    OneFeature(Fill(MAX_FEATURE_STR_LEN - 1));
    TwoFeatures(Fill(MAX_FEATURE_STR_LEN));
  }

  lemma OneFeature(text: string)
    requires |text| + 1 == MAX_FEATURE_STR_LEN && forall i :: 0 <= i < |text| ==> text[i] == 'x'
    ensures !BodyFits(text)
  {
    hide Faults;
    NoSep("", text, ',', 1);
    assert "" + text == text;
    assert !TokenFits(Tokens(text, ','), 0);
  }

  lemma TwoFeatures(text: string)
    requires |text| == MAX_FEATURE_STR_LEN && forall i :: 0 <= i < |text| ==> text[i] == 'x'
    ensures !BodyFits(text + ",")
  {
    hide Faults, Tokens;
    TokensOfJoin([text, ""], ',');
    assert Join([text, ""], ',') == text + ",";
    TakenCons(text, [""]);
    assert [text] + [""] == [text, ""];
    assert !TokenFits(Tokens(text + ",", ','), 0);
  }

  /** So the message that carries a printed line adds exactly those signatures. */
  lemma MessageRoundTrip(id: int, name: string, rs: seq<Record>, stack: int)
    requires IsInt32(id) && |rs| > 0 && NameText(name) && forall i :: 0 <= i < |rs| ==> WellFormed(rs[i])
    requires |PrintLine(id, name, rs)| < MAX_FEATURE_LINE_LEN && |PrintRecord(rs[|rs| - 1])| + 1 < MAX_FEATURE_STR_LEN
    ensures NUL !in PrintLine(id, name, rs)
    ensures FeatureMatch.Added(FeatureMatch.AddFeature(PrintLine(id, name, rs), stack)) == MapSeq(rs, NodeFor(id, name))
  {
    hide PrintRecord, LineNodes, WellFormed;
    LineRoundTrip(id, name, rs, stack);
  }

  /** Pushing the nodes of a printed line leaves the last record of the line at the head of the list. */
  lemma LastRecordFirst(id: int, name: string, rs: seq<Record>, stack: int)
    requires IsInt32(id) && |rs| > 0 && NameText(name) && forall i :: 0 <= i < |rs| ==> WellFormed(rs[i])
    requires |PrintLine(id, name, rs)| < MAX_FEATURE_LINE_LEN && |PrintRecord(rs[|rs| - 1])| + 1 < MAX_FEATURE_STR_LEN
    ensures var pushed := Reverse(LineNodes(PrintLine(id, name, rs), stack));
            |pushed| == |rs| && forall i :: 0 <= i < |rs| ==> pushed[i].record == rs[|rs| - 1 - i]
  {
    hide PrintRecord, PrintLine, LineNodes, WellFormed, Reverse, NameText, MapSeq;
    LineRoundTrip(id, name, rs, stack);
    var nodes := MapSeq(rs, NodeFor(id, name));
    forall i | 0 <= i < |rs| ensures Reverse(nodes)[i].record == rs[|rs| - 1 - i] {
      ReverseAt(nodes, i);
    }
  }

  lemma NoComment(id: int, name: string, body: string)
    requires NameText(name) && forall j :: 0 <= j < |body| ==> BodyChar(body[j])
    ensures var line := Decimal(id) + name + ":" + ("[" + body + "]"); '#' !in line && NUL !in line
  {
    PlainDecimal(id);
  }

  // ---------------------------------------------------------------- the syntax by example

  lemma JoinFive(pre: string, fs: seq<string>)
    requires |fs| > 4
    ensures pre + Join(fs, ';') == pre + fs[0] + ";" + fs[1] + ";" + fs[2] + ";" + fs[3] + ";" + Join(fs[4..], ';')
  {
    hide Join;
    JoinStep(pre, fs, ';');
    JoinStep(pre + fs[0] + ";", fs[1..], ';');
    JoinStep(pre + fs[0] + ";" + fs[1] + ";", fs[2..], ';');
    JoinStep(pre + fs[0] + ";" + fs[1] + ";" + fs[2] + ";", fs[3..], ';');
    assert fs[1..][1..] == fs[2..] && fs[2..][1..] == fs[3..] && fs[3..][1..] == fs[4..];
  }

  lemma JoinEight(fs: seq<string>)
    requires |fs| == 8
    ensures Join(fs, ';') == fs[0] + ";" + fs[1] + ";" + fs[2] + ";" + fs[3] + ";" + fs[4] + ";" + fs[5] + ";" + fs[6] + ";" + fs[7]
  {
    hide Join;
    JoinFive("", fs);
    assert "" + Join(fs, ';') == Join(fs, ';') && "" + fs[0] == fs[0];
    var pre := fs[0] + ";" + fs[1] + ";" + fs[2] + ";" + fs[3] + ";";
    var last := fs[4..];
    JoinStep(pre, last, ';');
    JoinStep(pre + last[0] + ";", last[1..], ';');
    JoinStep(pre + last[0] + ";" + last[1] + ";", last[2..], ';');
    assert last[1..][1..] == last[2..] && last[2..][1..] == last[3..];
    JoinOne(last[3..], ';');
  }

  /** The texts of two records: a TCP one for a host on port 443, and a UDP one with a search text. */
  lemma ExampleRecords()
    ensures PrintRecord(Record(Tcp, 0, [Range(false, 443, 443)], "qq.com", "", [], "", 0)) == "tcp;0;443;qq.com;;;;0"
    ensures PrintRecord(Record(Udp, 0, [], "", "/a", [], "ab", 1)) == "udp;0;;;/a;;ab;1"
  {
    hide Decimal, PrintPorts, Join;
    ExampleNumbers();
    JoinEight(PrintFields(Record(Tcp, 0, [Range(false, 443, 443)], "qq.com", "", [], "", 0)));
    JoinEight(PrintFields(Record(Udp, 0, [], "", "/a", [], "ab", 1)));
  }

  lemma ExampleNumbers()
    ensures Decimal(0) == "0" && Decimal(1) == "1" && Decimal(1001) == "1001"
    ensures PrintPorts([Range(false, 443, 443)]) == "443" && PrintPorts([]) == ""
  {
    assert Numeral(44, 10) == "44" && Numeral(10, 10) == "10";
    assert Numeral(100, 10) == "100";
    JoinOne(PrintRanges([Range(false, 443, 443)]), '|');
  }

  /** The line that stands for both, under the id 1001 and the name ` QQ`. */
  lemma ExampleLine()
    ensures PrintLine(1001, " QQ", [Record(Tcp, 0, [Range(false, 443, 443)], "qq.com", "", [], "", 0),
                                    Record(Udp, 0, [], "", "/a", [], "ab", 1)]) ==
            "1001 QQ:[" + "tcp;0;443;qq.com;;;;0" + "," + "udp;0;;;/a;;ab;1" + "]"
  {
    hide PrintRecord, Join, Decimal;
    ExampleRecords();
    ExampleNumbers();
    LineOfTwo(1001, " QQ", Record(Tcp, 0, [Range(false, 443, 443)], "qq.com", "", [], "", 0), Record(Udp, 0, [], "", "/a", [], "ab", 1));
    assert "1001" + " QQ" + ":[" == "1001 QQ:[";
  }

  lemma LineOfTwo(id: int, name: string, a: Record, b: Record)
    ensures PrintLine(id, name, [a, b]) == Decimal(id) + name + ":[" + PrintRecord(a) + "," + PrintRecord(b) + "]"
  {
    hide PrintRecord, Join, Decimal;
    JoinTwo(MapSeq([a, b], PrintRecord), ',');
    var head := Decimal(id) + name;
    assert head + ":" + "[" == head + ":[";
    assert head + ":[" + (PrintRecord(a) + "," + PrintRecord(b)) + "]" == head + ":[" + PrintRecord(a) + "," + PrintRecord(b) + "]";
  }
}
