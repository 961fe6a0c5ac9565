/** Which flows a signature reports, told by the fields of the flow and of the record. */
module MatchLaws {
  import opened Common
  import opened CText
  import opened PortSpec
  import opened FeatureSyntax
  import opened FeaturePrint
  import opened FeatureMatch

  const TCP := 6
  const UDP := 17

  // ---------------------------------------------------------------- ports

  predicate Covers(r: Range, port: int) { r.lo <= port <= r.hi }

  predicate SomeNegated(info: seq<Range>) { exists i :: 0 <= i < |info| && info[i].neg }

  predicate NegatedCovers(info: seq<Range>, port: int) { exists i :: 0 <= i < |info| && info[i].neg && Covers(info[i], port) }

  predicate SomeCovers(info: seq<Range>, port: int) { exists i :: 0 <= i < |info| && Covers(info[i], port) }

  /** No range accepts every port; a negated range makes the positive ones idle and excludes its ports; without one
      the port has to be in some range. */
  lemma PortLaw(info: seq<Range>, port: int)
    ensures Accepts(info, port) <==>
            info == [] || if SomeNegated(info) then !NegatedCovers(info, port) else SomeCovers(info, port)
  {
    assert forall r :: r in info ==> exists i :: 0 <= i < |info| && info[i] == r;
    if SomeNegated(info) {
      var i :| 0 <= i < |info| && info[i].neg;
      assert info[i] in info;
      if NegatedCovers(info, port) {
        var k :| 0 <= k < |info| && info[k].neg && Covers(info[k], port);
        assert info[k] in info && Within(port, info[k]);
      }
    } else if SomeCovers(info, port) {
      var k :| 0 <= k < |info| && Covers(info[k], port);
      assert info[k] in info && Within(port, info[k]);
    }
  }

  /** The text `80-8000|!443` accepts every port but 443. */
  lemma NegatedPortText(port: int)
    ensures PrintPorts([Range(false, 80, 8000), Range(true, 443, 443)]) == "80-8000|!443"
    ensures Accepts(PortRanges("80-8000|!443"), port) <==> port != 443
  {
    hide Accepts, PortRanges, Decimal, Join;
    var rs := [Range(false, 80, 8000), Range(true, 443, 443)];
    SmallDecimals();
    JoinTwo(PrintRanges(rs), '|');
    PortsRoundTrip(rs);
    PortLaw(rs, port);
    assert SomeNegated(rs) && rs[1].neg;
    assert NegatedCovers(rs, port) <==> Covers(rs[1], port);
  }

  lemma SmallDecimals()
    ensures Decimal(80) == "80" && Decimal(443) == "443" && Decimal(8000) == "8000"
  {
    assert Numeral(44, 10) == "44" && Numeral(80, 10) == "80";
    assert Numeral(800, 10) == "800";
  }

  // ---------------------------------------------------------------- one signature

  /** A byte entry holds at the position it counts from the start, or from the end when it is negative. */
  predicate EntryHolds(data: Bytes, e: PosInfo) {
    if e.pos >= 0 then e.pos < |data| && data[e.pos] == e.value
    else -e.pos <= |data| && data[|data| + e.pos] == e.value
  }

  /** The text stands somewhere in the payload. */
  predicate TextIn(data: Bytes, text: string) {
    exists i :: 0 <= i <= |data| && StandsIn(data, text, i)
  }

  predicate StandsIn(data: Bytes, text: string, i: nat) {
    i + |text| <= |data| && forall k :: 0 <= k < |text| ==> data[i + k] as int == text[k] as int % 256
  }

  /** The numbers of the two protocols. */
  predicate SameProtocol(f: Flow, r: Record) { f.l4Protocol == if r.proto == Tcp then TCP else UDP }

  lemma TextInLaw(data: Bytes, text: string)
    ensures (exists j :: OccursAt(data, BytesOf(text), j)) <==> TextIn(data, text)
  {
    forall i: int ensures OccursAt(data, BytesOf(text), i) <==> 0 <= i <= |data| && StandsIn(data, text, i) {
      if 0 <= i <= |data| - |text| {
        var piece := data[i..i + |text|];
        assert forall k :: 0 <= k < |text| ==> piece[k] == data[i + k];
        assert |BytesOf(text)| == |text|;
      }
    }
  }

  /** When a record with ports matches: its protocol, a payload, its source port unless that is 0, a destination port
      that its ports accept; then the URL test if it has a host or a request, else its dictionary and its search text,
      the search text counting only beside a dictionary. */
  lemma MatchLaw(f: Flow, r: Record, url: UrlTest)
    ensures Matches(f, r, url) <==>
            SameProtocol(f, r) && f.data != [] && (r.sport != 0 ==> f.sport == r.sport) && Accepts(r.ports, f.dport) &&
            if r.host != "" || r.request != "" then url(f, r)
            else r.dict != [] ==>
                   (forall i :: 0 <= i < |r.dict| ==> EntryHolds(f.data, r.dict[i])) && (r.search != "" ==> TextIn(f.data, r.search))
  {
    TextInLaw(f.data, r.search);
    forall i | 0 <= i < |r.dict| ensures PosHolds(f.data, r.dict[i]) <==> EntryHolds(f.data, r.dict[i]) {
    }
  }

  /** Without a source port in the record, the source port of the flow does not matter. */
  lemma SourcePortFree(f: Flow, sport: int, r: Record, url: UrlTest)
    requires r.sport == 0 && url(f.(sport := sport), r) == url(f, r)
    ensures Matches(f.(sport := sport), r, url) <==> Matches(f, r, url)
  {
    hide DictHolds, Accepts;
  }

  /** With a host or a request, dictionary and search text do not matter. */
  lemma DictionaryIdle(f: Flow, r: Record, dict: seq<PosInfo>, search: string, url: UrlTest)
    requires r.host != "" || r.request != ""
    requires url(f, r.(dict := dict, search := search)) == url(f, r)
    ensures Matches(f, r.(dict := dict, search := search), url) <==> Matches(f, r, url)
  {
    hide DictHolds, Accepts;
  }

  /** On bytes: of a payload 16 03 ff the record asks for 16 at the start and ff at the end. */
  lemma BytesExample(f: Flow, r: Record, url: UrlTest, first: Byte, last: Byte)
    requires f == Flow(TCP, 50000, 443, [first, 3, last])
    requires r == Record(Tcp, 0, [Range(false, 443, 443)], "", "", [PosInfo(0, 0x16), PosInfo(-1, 0xff)], "", 0)
    ensures Matches(f, r, url) <==> first == 0x16 && last == 0xff
  {
    MatchLaw(f, r, url);
    PortLaw(r.ports, 443);
    assert Covers(r.ports[0], 443);
    assert EntryHolds(f.data, r.dict[0]) <==> first == 0x16;
    assert EntryHolds(f.data, r.dict[1]) <==> last == 0xff;
  }

  // ---------------------------------------------------------------- one message, then a flow

  /** A flow right after the message with one printed record of a single port: it is reported as that signature exactly
      when protocol, payload and ports fit and then the URL test or the bytes do; so never for another destination
      port, another source port than the record names, or the other protocol. */
  method ReportOne(id: int, name: string, r: Record, q: int, stack: int, f: Flow, url: UrlTest) returns (m: Match)
    requires IsInt32(id) && NameText(name) && FeaturePrint.WellFormed(r) && r.ports == [Range(false, q, q)] && LengthFits(f.data)
    requires |PrintLine(id, name, [r])| < MAX_FEATURE_LINE_LEN && |PrintRecord(r)| + 1 < MAX_FEATURE_STR_LEN
    ensures m.Signature? <==>
            SameProtocol(f, r) && f.data != [] && (r.sport != 0 ==> f.sport == r.sport) && f.dport == q &&
            if r.host != "" || r.request != "" then url(f, r)
            else r.dict != [] ==>
                   (forall i :: 0 <= i < |r.dict| ==> EntryHolds(f.data, r.dict[i])) && (r.search != "" ==> TextIn(f.data, r.search))
    ensures m.Signature? ==> m.node.appId == id && m.node.appName == name && m.node.record == r
    ensures m == Quic <==> !m.Signature? && IsQuic(f)
  {
    hide Matches, PrintLine, PrintRecord, LineNodes, IsQuic, FeaturePrint.WellFormed, NameText, Accepts, EntryHolds, TextIn, LineFits, SinceClean;
    var receiver := new Receiver();
    LineRoundTrip(id, name, [r], stack);
    MessageRoundTrip(id, name, [r], stack);
    var fault := receiver.Handle(AddFeature(PrintLine(id, name, [r]), stack));
    assert receiver.history == [AddFeature(PrintLine(id, name, [r]), stack)];
    OneAdded(id, name, r, stack);
    m := receiver.Lookup(f, url);
    OnePort(r.ports, q, f.dport);
    MatchLaw(f, r, url);
  }

  lemma OnePort(ports: seq<Range>, q: int, port: int)
    requires ports == [Range(false, q, q)]
    ensures Accepts(ports, port) <==> port == q
  {
    PortLaw(ports, port);
    assert Covers(ports[0], port) <==> port == q;
    assert SomeCovers(ports, port) <==> port == q;
  }

  lemma OneAdded(id: int, name: string, r: Record, stack: int)
    requires IsInt32(id) && NameText(name) && FeaturePrint.WellFormed(r)
    requires |PrintLine(id, name, [r])| < MAX_FEATURE_LINE_LEN && |PrintRecord(r)| + 1 < MAX_FEATURE_STR_LEN
    requires NUL !in PrintLine(id, name, [r])
    ensures SinceClean([AddFeature(PrintLine(id, name, [r]), stack)]) == [Node(id, name, PrintRecord(r), r)]
  {
    hide PrintLine, PrintRecord, LineNodes, FeaturePrint.WellFormed, NameText, Added;
    var m := AddFeature(PrintLine(id, name, [r]), stack);
    MessageRoundTrip(id, name, [r], stack);
    assert [m][..0] == [];
    assert SinceClean([m]) == [] + Added(m);
    assert MapSeq([r], NodeFor(id, name)) == [Node(id, name, PrintRecord(r), r)];
  }

  // ---------------------------------------------------------------- messages

  /** After a clean message and any messages behind it that are no clean message, the list is what those added, in order;
      a message that is empty or too long adds nothing. */
  lemma {:induction false} AfterClean(before: seq<Message>, ms: seq<Message>)
    requires forall i :: 0 <= i < |ms| ==> ms[i] != CleanFeature
    ensures SinceClean(before + [CleanFeature] + ms) == AllAdded(ms)
  {
    hide LineNodes;
    var all := before + [CleanFeature] + ms;
    if |ms| == 0 {
      assert all[|all| - 1] == CleanFeature;
    } else {
      AfterClean(before, ms[..|ms| - 1]);
      assert all[..|all| - 1] == before + [CleanFeature] + ms[..|ms| - 1];
    }
  }

  function AllAdded(ms: seq<Message>): seq<Node> {
    if |ms| == 0 then []
    else
      AllAdded(ms[..|ms| - 1]) +
      match ms[|ms| - 1]
      case AddFeature(line, stack) => if |line| > 0 && |line| < MAX_FEATURE_LINE_LEN then LineNodes(line, stack) else []
      case CleanFeature => []
      case Other => []
  }

  // ---------------------------------------------------------------- QUIC

  /** The built-in test on bytes: a UDP payload of eight bytes or more whose first byte has its top bit set is QUIC
      exactly when the next four bytes are 0, 1, 6b3343cf or begin with ff, or the port is 443. */
  lemma QuicLaw(f: Flow)
    ensures IsQuic(f) <==>
            f.l4Protocol == UDP && |f.data| >= 8 && f.data[0] >= 128 &&
            (f.data[1..5] in [[0, 0, 0, 0], [0, 0, 0, 1], [0x6b, 0x33, 0x43, 0xcf]] || f.data[1] == 0xff || f.dport == 443)
  {
    if |f.data| >= 8 {
      var v := f.data[1..5];
      FourBytes(v);
      assert v == [v[0], v[1], v[2], v[3]];
    }
  }

  lemma FourBytes(v: Bytes)
    requires |v| == 4
    ensures BigEndian(v) == ((v[0] as int * 256 + v[1]) * 256 + v[2]) * 256 + v[3]
  {
    assert v[..3][..2] == v[..2] && v[..2][..1] == v[..1] && v[..1][..0] == [];
    assert BigEndian(v[..1]) == v[0] as int;
    assert BigEndian(v[..2]) == v[0] as int * 256 + v[1];
    assert BigEndian(v[..3]) == (v[0] as int * 256 + v[1]) * 256 + v[2];
  }
}
