/** Matching a flow against the signature list, and the messages that change the list. */
module FeatureMatch {
  import opened Common
  import opened CText
  import opened PortSpec
  import opened FeatureSyntax

  const IPPROTO_TCP := 6
  const IPPROTO_UDP := 17

  /** A flow as the matcher sees it.  The length is a signed 32-bit number that is not negative. */
  datatype Flow = Flow(l4Protocol: nat, sport: int, dport: int, data: Bytes)

  predicate LengthFits(data: Bytes) { |data| < 0x8000_0000 }

  // ---------------------------------------------------------------- substring search

  predicate OccursAt(data: Bytes, str: Bytes, i: int) {
    0 <= i <= |data| - |str| && data[i..i + |str|] == str
  }

  /** The first occurrence exactly when there is one. */
  method MemStr(data: Bytes, str: Bytes) returns (found: Option<nat>)
    ensures found.Some? ==> OccursAt(data, str, found.value) && forall j :: 0 <= j < found.value ==> !OccursAt(data, str, j)
    ensures found.None? ==> forall j :: !OccursAt(data, str, j)
  {
    var p := 0;
    while p <= |data| - |str|
      invariant p >= 0 && forall j :: 0 <= j < p ==> !OccursAt(data, str, j)
      decreases |data| - |str| - p
    {
      if data[p..p + |str|] == str {
        return Some(p);
      }
      p := p + 1;
    }
    return None;
  }

  // ---------------------------------------------------------------- byte positions

  /** The entry holds: its position counts from the end when negative, and must be inside the payload. */
  predicate PosHolds(data: Bytes, p: PosInfo) {
    var i := if p.pos < 0 then |data| + p.pos else p.pos;
    0 <= i < |data| && data[i] == p.value
  }

  predicate DictHolds(data: Bytes, dict: seq<PosInfo>) {
    forall i :: 0 <= i < |dict| ==> PosHolds(data, dict[i])
  }

  /** Latin-1 bytes of a search text. */
  function BytesOf(s: string): Bytes { seq(|s|, i requires 0 <= i < |s| => s[i] as int % 256) }

  /** The matcher computes positions as unsigned 32-bit numbers and compares those with the length. */
  method MatchByPos(data: Bytes, dict: seq<PosInfo>, search: string) returns (b: bool)
    requires LengthFits(data) && NodeFits(dict)
    ensures b <==> |dict| > 0 && DictHolds(data, dict) && (|search| > 0 ==> exists j :: OccursAt(data, BytesOf(search), j))
  {
    if |dict| == 0 {
      return false;
    }
    var i := 0;
    while i < |dict| && i < MAX_POS_INFO_PER_FEATURE
      invariant i <= |dict| && forall j :: 0 <= j < i ==> PosHolds(data, dict[j])
    {
      assert dict[i] in dict;
      var pos := 0;
      if dict[i].pos < 0 {
        pos := (|data| + dict[i].pos) % WORD;
      } else {
        pos := dict[i].pos;
      }
      if pos >= |data| {
        assert !PosHolds(data, dict[i]);
        return false;
      }
      if data[pos] != dict[i].value {
        assert !PosHolds(data, dict[i]);
        return false;
      }
      i := i + 1;
    }
    if |search| > 0 {
      var hit := MemStr(data, BytesOf(search));
      return hit != None;
    }
    return true;
  }

  // ---------------------------------------------------------------- one signature

  /** The URL comparison stays uninterpreted: it is decided by the regular-expression library. */
  type UrlTest = (Flow, Record) -> bool

  ghost predicate Matches(f: Flow, r: Record, url: UrlTest) {
    && f.l4Protocol == (if r.proto == Tcp then IPPROTO_TCP else IPPROTO_UDP)
    && |f.data| > 0
    && (r.sport == 0 || f.sport == r.sport)
    && Accepts(r.ports, f.dport)
    && if |r.request| > 0 || |r.host| > 0 then url(f, r)
       else |r.dict| > 0 ==>
              DictHolds(f.data, r.dict) && (|r.search| > 0 ==> exists j :: OccursAt(f.data, BytesOf(r.search), j))
  }

  method MatchOne(f: Flow, r: Record, url: UrlTest) returns (b: bool)
    requires LengthFits(f.data) && NodeFits(r.dict)
    ensures b == Matches(f, r, url)
  {
    var proto := if r.proto == Tcp then IPPROTO_TCP else IPPROTO_UDP;
    if proto > 0 && f.l4Protocol != proto {
      return false;
    }
    if |f.data| == 0 {
      return false;
    }
    if r.sport != 0 && f.sport != r.sport {
      return false;
    }
    var port := MatchPort(r.ports, f.dport);
    if !port {
      return false;
    }
    if |r.request| > 0 || |r.host| > 0 {
      b := url(f, r);
    } else if |r.dict| > 0 {
      b := MatchByPos(f.data, r.dict, r.search);
    } else {
      b := true;
    }
  }

  function BigEndian(b: Bytes): nat {
    if |b| == 0 then 0 else BigEndian(b[..|b| - 1]) * 256 + b[|b| - 1]
  }

  /** The built-in test for QUIC: a long header, and a known version or port 443. */
  predicate IsQuic(f: Flow) {
    && f.l4Protocol == IPPROTO_UDP && |f.data| >= 8 && f.data[0] >= 0x80
    && var version := BigEndian(f.data[1..5]);
       version == 1 || version == 0 || version == 0x6b3343cf || version >= 0xff00_0000 || f.dport == 443
  }

  /** What the search reports: the node found, or the fixed QUIC id. */
  datatype Match = NoMatch | Signature(node: Node) | Quic

  /** The first matching node of the list, and QUIC only when there is none. */
  ghost predicate IsFirst(nodes: seq<Node>, f: Flow, url: UrlTest, m: Match) {
    if m.Signature? then
      exists i :: 0 <= i < |nodes| && m.node == nodes[i] && Matches(f, nodes[i].record, url) &&
                  forall j :: 0 <= j < i ==> !Matches(f, nodes[j].record, url)
    else
      (forall i :: 0 <= i < |nodes| ==> !Matches(f, nodes[i].record, url)) && (m == Quic <==> IsQuic(f))
  }

  /** The most recent matching node of a log, and QUIC only when there is none. */
  ghost predicate IsLatest(log: seq<Node>, f: Flow, url: UrlTest, m: Match) {
    if m.Signature? then
      exists i :: 0 <= i < |log| && m.node == log[i] && Matches(f, log[i].record, url) &&
                  forall j :: i < j < |log| ==> !Matches(f, log[j].record, url)
    else
      (forall i :: 0 <= i < |log| ==> !Matches(f, log[i].record, url)) && (m == Quic <==> IsQuic(f))
  }

  lemma FirstIsLatest(log: seq<Node>, f: Flow, url: UrlTest, m: Match)
    requires IsFirst(Reverse(log), f, url, m)
    ensures IsLatest(log, f, url, m)
  {
    hide Matches, IsQuic;
    var nodes := Reverse(log);
    forall i | 0 <= i < |log| ensures nodes[|log| - 1 - i] == log[i] {
      ReverseAt(log, |log| - 1 - i);
    }
    if m.Signature? {
      var i :| 0 <= i < |nodes| && m.node == nodes[i] && Matches(f, nodes[i].record, url) &&
               forall j :: 0 <= j < i ==> !Matches(f, nodes[j].record, url);
      var k := |log| - 1 - i;
      assert nodes[|log| - 1 - k] == log[k];
      forall j | k < j < |log| ensures !Matches(f, log[j].record, url) {
        assert nodes[|log| - 1 - j] == log[j];
      }
    } else {
      forall i | 0 <= i < |log| ensures !Matches(f, log[i].record, url) {
        assert nodes[|log| - 1 - i] == log[i];
      }
    }
  }

  method MatchFeature(nodes: seq<Node>, f: Flow, url: UrlTest) returns (m: Match)
    requires LengthFits(f.data) && forall n :: n in nodes ==> NodeFits(n.record.dict)
    ensures IsFirst(nodes, f, url, m)
  {
    hide Matches;
    for i := 0 to |nodes|
      invariant forall j :: 0 <= j < i ==> !Matches(f, nodes[j].record, url)
    {
      var hit := MatchOne(f, nodes[i].record, url);
      if hit {
        return Signature(nodes[i]);
      }
    }
    m := if IsQuic(f) then Quic else NoMatch;
  }

  // ---------------------------------------------------------------- messages

  datatype Message = AddFeature(line: CString, stack: int) | CleanFeature | Other

  /** The signatures a message adds, in order. */
  function Added(m: Message): seq<Node> {
    if m.AddFeature? && 0 < |m.line| < MAX_FEATURE_LINE_LEN then LineNodes(m.line, m.stack) else []
  }

  /** Everything that was added since the last clean message, oldest first. */
  function SinceClean(ms: seq<Message>): seq<Node> {
    if |ms| == 0 then []
    else
      var m := ms[|ms| - 1];
      if m.CleanFeature? then [] else SinceClean(ms[..|ms| - 1]) + Added(m)
  }

  ghost predicate AllFit(nodes: seq<Node>) { forall n :: n in nodes ==> NodeFits(n.record.dict) }

  lemma AllFitNone()
    ensures Reverse<Node>([]) == [] && AllFit([])
  {
  }

  lemma AllFitAdded(line: string, stack: int, base: seq<Node>)
    requires LineFits(line) && AllFit(base)
    ensures AllFit(Reverse(LineNodes(line, stack)) + base)
  {
    hide LineNodes, NodeFits, LineFits;
    forall n | n in Reverse(LineNodes(line, stack)) ensures NodeFits(n.record.dict) {
      ReverseMember(LineNodes(line, stack), n);
      LineNodesFit(line, stack, n);
    }
  }

  /** The receiver of the messages, with the history it has seen. */
  class Receiver {
    const table: FeatureTable
    ghost var history: seq<Message>

    ghost predicate Valid()
      reads this, table
    {
      table.nodes == Reverse(SinceClean(history)) && AllFit(table.nodes)
    }

    constructor ()
      ensures Valid() && history == [] && fresh(table)
    {
      table := new FeatureTable();
      history := [];
      AllFitNone();
    }

    /** A message whose line faults leaves nothing that could be relied on; every other one keeps the table. */
    method Handle(m: Message) returns (fault: bool)
      requires Valid()
      modifies this, table
      ensures fault <==> m.AddFeature? && 0 < |m.line| < MAX_FEATURE_LINE_LEN && !LineFits(m.line)
      ensures !fault ==> Valid() && history == old(history) + [m]
    {
      hide LineNodes, AllFit, LineFits, Reverse;
      fault := false;
      ghost var before := SinceClean(history);
      history := history + [m];
      assert history[..|history| - 1] == old(history);
      match m {
        case AddFeature(line, stack) =>
          if |line| <= 0 || |line| >= MAX_FEATURE_LINE_LEN {
            assert before + [] == before;
            return false;
          }
          fault := table.InitFeature(line, stack);
          if !fault {
            ReverseConcat(before, LineNodes(line, stack));
            AllFitAdded(line, stack, old(table.nodes));
          }
        case CleanFeature =>
          table.Clean();
          AllFitNone();
        case Other =>
          assert before + [] == before;
      }
    }

    /** A flow is reported as the most recently added signature since the last clean message that matches it,
        and as QUIC only when none does. */
    method Lookup(f: Flow, url: UrlTest) returns (m: Match)
      requires Valid() && LengthFits(f.data)
      ensures IsLatest(SinceClean(history), f, url, m)
    {
      m := MatchFeature(table.nodes, f, url);
      FirstIsLatest(SinceClean(history), f, url, m);
    }
  }

  lemma {:induction false} ReverseConcat<T>(a: seq<T>, b: seq<T>)
    ensures Reverse(a + b) == Reverse(b) + Reverse(a)
  {
    if |b| == 0 {
      assert a + b == a;
    } else {
      var last := b[|b| - 1];
      ReverseConcat(a, b[..|b| - 1]);
      assert (a + b)[..|a + b| - 1] == a + b[..|b| - 1] && (a + b)[|a + b| - 1] == last;
      assert [last] + (Reverse(b[..|b| - 1]) + Reverse(a)) == ([last] + Reverse(b[..|b| - 1])) + Reverse(a);
    }
  }
}
