/**
 The signature language: a line `id name:[f1,f2,...]` whose features are `;`-separated records, with a
 `pos:hex|...` dictionary and a port expression inside.
 */
module FeatureSyntax {
  import opened Common
  import opened CText
  import opened PortSpec

  /** A capacity of at least one. */
  type Capacity = n: nat | n >= 1 witness 1
  const MAX_POS_INFO_PER_FEATURE: Capacity
  const MIN_FEATURE_STR_LEN: nat
  const MAX_FEATURE_STR_LEN: Capacity
  const MAX_FEATURE_LINE_LEN: Capacity

  datatype Proto = Tcp | Udp

  /** A byte position, from the end when negative, and the value expected there. */
  datatype PosInfo = PosInfo(pos: int, value: int)

  datatype Record = Record(
    proto: Proto, sport: int, ports: seq<Range>, host: string, request: string,
    dict: seq<PosInfo>, search: string, ignore: int)

  datatype Node = Node(appId: int, appName: string, feature: string, record: Record)

  // ---------------------------------------------------------------- dictionary

  /** `%d:%x`: how many numbers were read, and the two variables afterwards. */
  function ScanPos(t: string, cur: PosInfo): (nat, PosInfo) {
    match ScanInt(t)
    case None => (0, cur)
    case Some((i, rest)) =>
      if |rest| == 0 || rest[0] != ':' then (1, cur.(pos := i))
      else match ScanHex(rest[1..])
           case None => (1, cur.(pos := i))
           case Some((v, _)) => (2, PosInfo(i, v))
  }

  /** The entries of the terminated elements; a malformed one repeats what the variables still hold. */
  function Pushed(tokens: seq<string>): (seq<PosInfo>, PosInfo) {
    if |tokens| == 0 then ([], PosInfo(0, 0))
    else
      var (entries, cur) := Pushed(tokens[..|tokens| - 1]);
      var next := ScanPos(tokens[|tokens| - 1], cur).1;
      (entries + [next], next)
  }

  /** The last element counts only when it is complete. */
  function DictOf(dict: string): seq<PosInfo> {
    var tokens := Tokens(dict, '|');
    var (entries, cur) := Pushed(tokens[..|tokens| - 1]);
    var (read, last) := ScanPos(tokens[|tokens| - 1], cur);
    if read == 2 then entries + [last] else entries
  }

  lemma PushedAppend(tokens: seq<string>, t: string)
    ensures var (entries, cur) := Pushed(tokens); var next := ScanPos(t, cur).1;
            Pushed(tokens + [t]) == (entries + [next], next)
  {
    assert (tokens + [t])[..|tokens|] == tokens;
  }

  /** There is room for an entry per element, with one place to spare, and for each element in its buffer of 64 bytes. */
  predicate EntriesFit(dict: string) {
    var tokens := Tokens(dict, '|');
    (|tokens| == 1 || |tokens| < MAX_POS_INFO_PER_FEATURE) && AllShort(tokens)
  }

  predicate AllShort(tokens: seq<string>) { forall i :: 0 <= i < |tokens| ==> |tokens[i]| <= 63 }

  lemma AllShortNone()
    ensures AllShort([])
  {
  }

  lemma AllShortAppend(tokens: seq<string>, t: string)
    ensures AllShort(tokens + [t]) <==> AllShort(tokens) && |t| <= 63
  {
    assert forall i :: 0 <= i < |tokens| ==> (tokens + [t])[i] == tokens[i];
    assert (tokens + [t])[|tokens|] == t;
  }

  /** The dictionary loop.  With as many separators as MAX_POS_INFO_PER_FEATURE - 1 the loop is left early and the
      length of the last element is computed as negative; an element of 64 characters or more is not terminated in
      its buffer.  From there on nothing is promised, and None says so. */
  method ParseDict(dict: CString) returns (result: Option<seq<PosInfo>>)
    ensures result == if EntriesFit(dict) then Some(DictOf(dict)) else None
  {
    hide ScanPos, Tokens, Pieces, AllShort;
    var info, overrun := [], false;
    assert AllShort([]) by { AllShortNone(); }
    var cur := PosInfo(0, 0);
    TokenStart(dict, '|');
    ghost var tokens: seq<string> := [];
    var p, begin := 0, 0;
    while At(dict, p) != NUL
      invariant Tokenizing(dict, '|', tokens, begin, p)
      invariant (info, cur) == Pushed(tokens) && |info| == |tokens| && (overrun <==> !AllShort(tokens))
      invariant info == [] || |info| < MAX_POS_INFO_PER_FEATURE - 1
      decreases |dict| - p
    {
      TokenStep(dict, '|', tokens, begin, p, p + 1);
      p := p + 1;
      if At(dict, p) == '|' {
        PushedAppend(tokens, dict[begin..p]);
        AllShortAppend(tokens, dict[begin..p]);
        overrun := overrun || p - begin > 63;
        tokens := tokens + [dict[begin..p]];
        cur := ScanPos(dict[begin..p], cur).1;
        begin := p + 1;
        info := info + [cur];
        if |info| >= MAX_POS_INFO_PER_FEATURE - 1 {
          return None;
        }
      }
    }
    TokenEnd(dict, '|', tokens, begin);
    assert Tokens(dict, '|')[..|tokens|] == tokens;
    AllShortAppend(tokens, dict[begin..]);
    if overrun || |dict| - begin > 63 {
      return None;
    }
    var (read, last) := ScanPos(dict[begin..], cur);
    if read == 2 {
      info := info + [last];
    }
    return Some(info);
  }

  /** The entries fit the array of a node, and its signed fields. */
  predicate NodeFits(dict: seq<PosInfo>) {
    |dict| <= MAX_POS_INFO_PER_FEATURE && forall p :: p in dict ==> IsInt32(p.pos)
  }

  lemma ScanPosFits(t: string, cur: PosInfo)
    requires IsInt32(cur.pos)
    ensures IsInt32(ScanPos(t, cur).1.pos)
  {
    hide ToInt32;
  }

  lemma {:induction false} PushedFits(tokens: seq<string>)
    ensures |Pushed(tokens).0| == |tokens| && IsInt32(Pushed(tokens).1.pos)
    ensures forall p :: p in Pushed(tokens).0 ==> IsInt32(p.pos)
  {
    hide ScanPos;
    if |tokens| == 0 {
    } else {
      PushedFits(tokens[..|tokens| - 1]);
      ScanPosFits(tokens[|tokens| - 1], Pushed(tokens[..|tokens| - 1]).1);
    }
  }

  lemma DictOfFits(dict: string)
    requires EntriesFit(dict)
    ensures NodeFits(DictOf(dict))
  {
    hide ScanPos, Pieces, Pushed;
    var tokens := Tokens(dict, '|');
    PushedFits(tokens[..|tokens| - 1]);
    ScanPosFits(tokens[|tokens| - 1], Pushed(tokens[..|tokens| - 1]).1);
  }

  // ---------------------------------------------------------------- records

  /** The text that lands in field k: a piece is stored when a `;` ends it, and the last piece only when it is
      number 5 (dictionary) or number 7 (ignore flag). */
  function Field(tokens: seq<string>, k: nat): string
    requires |tokens| >= 1
  {
    if k < |tokens| - 1 || (k == |tokens| - 1 && (k == 5 || k == 7)) then tokens[k] else ""
  }

  function RecordOf(feature: string): Option<Record> {
    var fs := Tokens(feature, ';');
    var proto := Field(fs, 0);
    if |feature| < MIN_FEATURE_STR_LEN || (proto != "tcp" && proto != "udp") then None
    else Some(Record(if proto == "tcp" then Tcp else Udp, Atoi(Field(fs, 1)), PortRanges(Field(fs, 2)), Field(fs, 3),
                     Field(fs, 4), DictOf(Field(fs, 5)), Field(fs, 6), Atoi(Field(fs, 7))))
  }

  predicate DictFits(feature: string) {
    EntriesFit(Field(Tokens(feature, ';'), 5))
  }

  /** The buffers of the fields: 16 bytes for the protocol and the ports, 32 for the host, 128 for the others. */
  function FieldSize(k: nat): nat { if k < 3 then 16 else if k == 3 then 32 else 128 }

  predicate FieldsFit(fs: seq<string>)
    requires |fs| >= 1
  {
    forall k :: 0 <= k < 8 ==> |Field(fs, k)| < FieldSize(k)
  }

  /** The same for the pieces that a `;` ended. */
  predicate StoredFit(fs: seq<string>) { forall k :: 0 <= k < |fs| && k < 8 ==> |fs[k]| < FieldSize(k) }

  /** A feature is long enough to be cut into fields, and one of them does not fit its buffer; or it is a record whose
      ports or dictionary do not fit theirs. */
  predicate Faults(feature: string) {
    var fs := Tokens(feature, ';');
    |feature| >= MIN_FEATURE_STR_LEN &&
    (!FieldsFit(fs) || (RecordOf(feature).Some? && (!PortsFit(Field(fs, 2)) || !DictFits(feature))))
  }

  /** Field k as long as only terminated pieces have been seen. */
  function Stored(tokens: seq<string>, k: nat): string {
    if k < |tokens| then tokens[k] else ""
  }

  lemma {:induction false} PieceMembers(s: string, sep: char, begin: nat, from: nat)
    requires begin <= |s| && begin <= from
    ensures forall t, c :: t in Pieces(s, sep, begin, from) && c in t ==> c in s
    decreases |s| - begin
  {
    var i := NextSep(s, sep, from);
    if i == |s| {
    } else {
      PieceMembers(s, sep, i + 1, i + 1);
    }
  }

  /** The field loop: a switch on the number of separators met so far. */
  method ReadFields(feature: CString)
    returns (protoStr: string, srcPortStr: string, dstPortStr: string, hostUrl: string,
             requestUrl: string, dict: string, searchStr: string, ignoreStr: string, overrun: bool)
    ensures overrun <==> !FieldsFit(Tokens(feature, ';'))
    ensures var fs := Tokens(feature, ';');
            && protoStr == Field(fs, 0) && srcPortStr == Field(fs, 1) && dstPortStr == Field(fs, 2)
            && hostUrl == Field(fs, 3) && requestUrl == Field(fs, 4) && dict == Field(fs, 5)
            && searchStr == Field(fs, 6) && ignoreStr == Field(fs, 7)
  {
    hide StoredFit, FieldsFit, Pieces;
    StoredFitNone();
    protoStr, srcPortStr, dstPortStr, hostUrl := "", "", "", "";
    requestUrl, dict, searchStr, ignoreStr, overrun := "", "", "", "", false;
    var paramNum := 0;
    ghost var fs: seq<string> := [];
    var p, begin := 0, 0;
    while At(feature, p) != NUL
      invariant Tokenizing(feature, ';', fs, begin, p) && paramNum == |fs|
      invariant overrun <==> !StoredFit(fs)
      invariant protoStr == Stored(fs, 0) && srcPortStr == Stored(fs, 1) && dstPortStr == Stored(fs, 2)
      invariant hostUrl == Stored(fs, 3) && requestUrl == Stored(fs, 4) && dict == Stored(fs, 5)
      invariant searchStr == Stored(fs, 6) && ignoreStr == Stored(fs, 7)
      decreases |feature| - p
    {
      TokenStep(feature, ';', fs, begin, p, p + 1);
      p := p + 1;
      if At(feature, p) != ';' {
        continue;
      }
      var piece := feature[begin..p];
      if paramNum == 0 { protoStr := piece; }
      else if paramNum == 1 { srcPortStr := piece; }
      else if paramNum == 2 { dstPortStr := piece; }
      else if paramNum == 3 { hostUrl := piece; }
      else if paramNum == 4 { requestUrl := piece; }
      else if paramNum == 5 { dict := piece; }
      else if paramNum == 6 { searchStr := piece; }
      else if paramNum == 7 { ignoreStr := piece; }
      overrun := overrun || (paramNum < 8 && |piece| >= FieldSize(paramNum));
      StoredFitAppend(fs, piece);
      fs := fs + [piece];
      paramNum := paramNum + 1;
      begin := p + 1;
    }
    TokenEnd(feature, ';', fs, begin);
    LastField(fs, feature[begin..]);
    if paramNum == 5 {
      dict := feature[begin..];
      overrun := overrun || |dict| >= 128;
    }
    if paramNum == 7 {
      ignoreStr := feature[begin..];
      overrun := overrun || |ignoreStr| >= 128;
    }
  }

  lemma StoredFitAppend(fs: seq<string>, piece: string)
    ensures StoredFit(fs + [piece]) <==> StoredFit(fs) && (|fs| < 8 ==> |piece| < FieldSize(|fs|))
  {
    var all := fs + [piece];
    assert forall k :: 0 <= k < |fs| ==> all[k] == fs[k];
    assert all[|fs|] == piece;
  }

  lemma StoredFitNone()
    ensures StoredFit([])
  {
  }

  lemma LastField(fs: seq<string>, last: string)
    ensures FieldsFit(fs + [last]) <==> StoredFit(fs) && (|fs| == 5 || |fs| == 7 ==> |last| < FieldSize(|fs|))
  {
    var all := fs + [last];
    assert forall k :: 0 <= k < |fs| ==> Field(all, k) == fs[k];
    assert forall k :: |fs| <= k < 8 ==> Field(all, k) == if k == |fs| && (k == 5 || k == 7) then last else "";
  }

  method ParseRecord(feature: CString) returns (r: Option<Record>, fault: bool)
    ensures fault <==> Faults(feature)
    ensures !fault ==> r == RecordOf(feature)
  {
    if |feature| < MIN_FEATURE_STR_LEN {
      return None, false;
    }
    hide FieldsFit, PortsFit, EntriesFit;
    var protoStr, srcPortStr, dstPortStr, hostUrl, requestUrl, dict, searchStr, ignoreStr, overrun := ReadFields(feature);
    if overrun {
      return None, true;
    }
    var proto;
    if protoStr == "tcp" {
      proto := Tcp;
    } else if protoStr == "udp" {
      proto := Udp;
    } else {
      return None, false;
    }
    PieceMembers(feature, ';', 0, 1);
    assert NUL !in dstPortStr && NUL !in dict;
    var ports;
    ports, fault := ParsePortInfo(dstPortStr);
    if fault {
      return None, true;
    }
    var info := ParseDict(dict);
    if info.None? {
      return None, true;
    }
    return Some(Record(proto, Atoi(srcPortStr), ports, hostUrl, requestUrl, info.value, searchStr, Atoi(ignoreStr))), false;
  }

  // ---------------------------------------------------------------- lines

  function UpTo(s: string, c: char): string {
    s[..NextSep(s, c, 0)]
  }

  /** `%d%[^:]`; without a number the id keeps whatever the stack held. */
  function HeaderOf(line: string, stack: int): (int, string) {
    match ScanInt(line)
    case None => (stack, "")
    case Some((id, rest)) => (id, UpTo(rest, ':'))
  }

  /** The bracket search after the positions 1..n were tested: start of the body and its length so far. */
  function Brackets(s: string, n: nat): (b: (Option<nat>, nat))
    requires n <= |s|
    ensures b.0.Some? ==> b.0.value <= |s|
  {
    if n == 0 then (None, 0)
    else
      var (pos, len) := Brackets(s, n - 1);
      if At(s, n) == '[' then (Some(n + 1), len)
      else if At(s, n) == ']' && pos.Some? && pos.value <= n then (pos, n - pos.value)
      else (pos, len)
  }

  function BodyOf(line: string): string {
    var (pos, len) := Brackets(line, |line|);
    if pos.Some? && len > 0 then line[pos.value..if pos.value + len <= |line| then pos.value + len else |line|] else ""
  }

  /** The feature texts of a body that are handed on: up to the first that is too long. */
  function Taken(tokens: seq<string>): seq<string> {
    if |tokens| == 0 then []
    else if |tokens| == 1 then if |tokens[0]| + 1 > MAX_FEATURE_STR_LEN then [] else tokens
    else if |tokens[0]| > MAX_FEATURE_STR_LEN then []
    else [tokens[0]] + Taken(tokens[1..])
  }

  /** The node a feature text makes, if it is a record. */
  function NodeMaker(id: int, name: string): string -> Option<Node> {
    (f: string) => match RecordOf(f) case None => None case Some(r) => Some(Node(id, name, f, r))
  }

  function LineNodes(line: string, stack: int): seq<Node> {
    var (id, name) := HeaderOf(line, stack);
    if '#' in line then [] else Gather(Taken(Tokens(BodyOf(line), ',')), NodeMaker(id, name))
  }

  lemma TakenCons(t: string, rest: seq<string>)
    requires |rest| > 0 && |t| <= MAX_FEATURE_STR_LEN
    ensures Taken([t] + rest) == [t] + Taken(rest)
  {
    assert ([t] + rest)[1..] == rest;
  }

  /** Features that are short enough pass, as long as others follow. */
  lemma {:induction false} TakenFront(front: seq<string>, rest: seq<string>)
    requires |rest| > 0 && forall t :: t in front ==> |t| <= MAX_FEATURE_STR_LEN
    ensures Taken(front + rest) == front + Taken(rest)
  {
    hide Taken;
    if |front| == 0 {
      assert front + rest == rest;
    } else {
      TakenFront(front[1..], rest);
      TakenCons(front[0], front[1..] + rest);
      assert front + rest == [front[0]] + (front[1..] + rest);
    }
  }

  /** The invariant of the feature loop: all tokens so far were short enough to be handed on. */
  ghost predicate Taking(body: string, tokens: seq<string>, begin: nat, p: nat) {
    Tokenizing(body, ',', tokens, begin, p) && forall t :: t in tokens ==> |t| <= MAX_FEATURE_STR_LEN
  }

  /** One step; a feature that is too long before a comma ends the line, with what was taken so far. */
  lemma TakingStep(body: string, tokens: seq<string>, begin: nat, p: nat, q: nat)
    requires p < |body| && q == p + 1 && Taking(body, tokens, begin, p)
    ensures begin <= q
    ensures At(body, q) != ',' ==> Taking(body, tokens, begin, q)
    ensures At(body, q) == ',' ==>
              var feature, all := body[begin..q], Tokens(body, ',');
              && |tokens| + 1 < |all| && tokens + [feature] <= all
              && if |feature| > MAX_FEATURE_STR_LEN then Taken(all) == tokens
                 else Taking(body, tokens + [feature], q + 1, q) && |tokens| < |Taken(all)|
  {
    TokenStep(body, ',', tokens, begin, p, q);
    if At(body, q) == ',' {
      var feature, rest := body[begin..q], Pieces(body, ',', q + 1, q + 1);
      assert tokens + [feature] + rest == tokens + ([feature] + rest);
      if |feature| > MAX_FEATURE_STR_LEN {
        TakenFront(tokens, [feature] + rest);
      } else {
        TakenFront(tokens + [feature], rest);
      }
    }
  }

  lemma TakingEnds(body: string, tokens: seq<string>, begin: nat)
    requires Taking(body, tokens, begin, |body|)
    ensures Tokens(body, ',') == tokens + [body[begin..|body|]]
    ensures Taken(Tokens(body, ',')) ==
            if |body| + 1 - begin <= MAX_FEATURE_STR_LEN then tokens + [body[begin..|body|]] else tokens
  {
    TokenEnd(body, ',', tokens, begin);
    TakenFront(tokens, [body[begin..]]);
    assert body[begin..] == body[begin..|body|];
  }

  /** How many bytes of the copy buffer token k takes before its terminator is written: the copy of the last token
      includes the terminator of the text. */
  function Width(tokens: seq<string>, k: nat): nat
    requires k < |tokens|
  {
    |tokens[k]| + if k == |tokens| - 1 then 1 else 0
  }

  /** The token is handed on, and neither its copy nor its record overruns a buffer. */
  ghost predicate TokenFits(tokens: seq<string>, k: nat)
    requires k < |tokens|
  {
    Width(tokens, k) < MAX_FEATURE_STR_LEN && !Faults(tokens[k])
  }

  lemma {:induction false} TakenIsPrefix(tokens: seq<string>)
    ensures Taken(tokens) <= tokens
  {
    if |tokens| <= 1 {
    } else {
      TakenIsPrefix(tokens[1..]);
    }
  }

  /** No feature that is handed on overruns a buffer.  The length test lets a feature through that fills the copy
      buffer, so that the terminator lands one byte behind it. */
  ghost predicate BodyFits(body: string) {
    var tokens := Tokens(body, ',');
    forall k :: 0 <= k < |tokens| && k < |Taken(tokens)| ==> TokenFits(tokens, k)
  }

  /** A feature that a comma ends either ends the line, or decides whether the body fits, or leaves that open. */
  lemma BodyFitsStep(body: string, tokens: seq<string>, begin: nat, p: nat, q: nat)
    requires p < |body| && q == p + 1 && Taking(body, tokens, begin, p) && At(body, q) == ','
    requires forall k :: 0 <= k < |tokens| ==> |tokens[k]| < MAX_FEATURE_STR_LEN && !Faults(tokens[k])
    ensures begin <= q
    ensures |body[begin..q]| > MAX_FEATURE_STR_LEN ==> BodyFits(body)
    ensures |body[begin..q]| == MAX_FEATURE_STR_LEN || (|body[begin..q]| < MAX_FEATURE_STR_LEN && Faults(body[begin..q])) ==> !BodyFits(body)
  {
    hide Faults, Taken, Tokens;
    TakingStep(body, tokens, begin, p, q);
    var all, feature := Tokens(body, ','), body[begin..q];
    assert forall k :: 0 <= k < |tokens| ==> all[k] == tokens[k];
    assert all[|tokens|] == feature;
    if |feature| == MAX_FEATURE_STR_LEN || (|feature| < MAX_FEATURE_STR_LEN && Faults(feature)) {
      assert !TokenFits(all, |tokens|);
    }
  }

  lemma BodyFitsEnds(body: string, tokens: seq<string>, begin: nat)
    requires Taking(body, tokens, begin, |body|)
    requires forall k :: 0 <= k < |tokens| ==> |tokens[k]| < MAX_FEATURE_STR_LEN && !Faults(tokens[k])
    ensures var last := body[begin..|body|];
            BodyFits(body) <==>
            |last| + 1 > MAX_FEATURE_STR_LEN || (|last| + 1 < MAX_FEATURE_STR_LEN && !Faults(last))
  {
    hide Faults, Taken, Tokens;
    TakingEnds(body, tokens, begin);
    var all, last := Tokens(body, ','), body[begin..|body|];
    assert forall k :: 0 <= k < |tokens| ==> all[k] == tokens[k];
    assert all[|tokens|] == last;
    if |last| + 1 <= MAX_FEATURE_STR_LEN {
      assert TokenFits(all, |tokens|) <==> |last| + 1 < MAX_FEATURE_STR_LEN && !Faults(last);
    }
  }

  predicate NameFits(line: string) { |HeaderOf(line, 0).1| <= 127 }

  predicate BodyBufferFits(line: string) { Brackets(line, |line|).1 < MAX_FEATURE_LINE_LEN }

  /** Reading the line stays inside all buffers. */
  ghost predicate LineFits(line: string) {
    '#' in line || (NameFits(line) && BodyBufferFits(line) && BodyFits(BodyOf(line)))
  }

  /** Every node of a line fits. */
  lemma LineNodesFit(line: string, stack: int, n: Node)
    requires LineFits(line) && n in LineNodes(line, stack)
    ensures NodeFits(n.record.dict)
  {
    hide Taken, Tokens, Gather, EntriesFit, DictOf, HeaderOf, BodyOf, FieldsFit, PortsFit;
    var (id, name) := HeaderOf(line, stack);
    var tokens := Tokens(BodyOf(line), ',');
    var texts := Taken(tokens);
    var i := GatherMember(texts, NodeMaker(id, name), n);
    TakenIsPrefix(tokens);
    assert TokenFits(tokens, i) && texts[i] == tokens[i];
    DictOfFits(Field(Tokens(texts[i], ';'), 5));
  }

  /** The signature list, newest node first, and the count of lines read. */
  class FeatureTable {
    var nodes: seq<Node>
    var featureCount: nat

    constructor ()
      ensures nodes == [] && featureCount == 0
    {
      nodes, featureCount := [], 0;
    }

    /** The list is `base` under the nodes of the features, the latest on top. */
    ghost predicate Stacked(id: int, name: string, features: seq<string>, base: seq<Node>)
      reads this
    {
      nodes == Reverse(Gather(features, NodeMaker(id, name))) + base
    }

    lemma StackedStart(id: int, name: string)
      ensures Stacked(id, name, [], nodes)
    {
    }

    /** Copies one feature text out of the body, `width` bytes and a terminator, and adds its node if it is a record. */
    method AddFeature(id: int, name: string, body: CString, begin: nat, end: nat, width: nat,
                      ghost features: seq<string>, ghost base: seq<Node>) returns (fault: bool)
      requires begin <= end <= |body| && Stacked(id, name, features, base)
      modifies this`nodes
      ensures fault <==> width >= MAX_FEATURE_STR_LEN || Faults(body[begin..end])
      ensures !fault ==> nodes == Pick(body[begin..end], NodeMaker(id, name)) + old(nodes)
      ensures !fault ==> Stacked(id, name, features + [body[begin..end]], base)
    {
      var feature := body[begin..end];
      if width >= MAX_FEATURE_STR_LEN {
        return true;
      }
      ReverseGather(features, feature, NodeMaker(id, name), base);
      var r: Option<Record>;
      r, fault := ParseRecord(feature);
      if !fault && r.Some? {
        nodes := [Node(id, name, feature, r.value)] + nodes;
      }
    }

    method FindBody(line: CString) returns (body: CString, overrun: bool)
      ensures body == BodyOf(line) && (overrun <==> !BodyBufferFits(line))
    {
      var pos: Option<nat>, len := None, 0;
      var p := 0;
      while At(line, p) != NUL
        invariant p <= |line| && (pos, len) == Brackets(line, p)
        invariant pos.Some? ==> pos.value <= p + 1
        invariant pos.None? ==> len == 0
        decreases |line| - p
      {
        p := p + 1;
        if At(line, p) == '[' {
          pos := Some(p + 1);
          continue;
        }
        if At(line, p) == ']' && pos != None {
          len := p - pos.value;
        }
      }
      body, overrun := "", false;
      if pos != None && len > 0 {
        overrun := len >= MAX_FEATURE_LINE_LEN;
        body := line[pos.value..if pos.value + len <= |line| then pos.value + len else |line|];
      }
    }

    /** Reads one line and pushes its features, each in front of the list. */
    method InitFeature(line: CString, stack: int) returns (fault: bool)
      modifies this
      ensures fault <==> !LineFits(line)
      ensures !fault ==> nodes == Reverse(LineNodes(line, stack)) + old(nodes)
      ensures !fault ==> featureCount == old(featureCount) + if '#' in line then 0 else 1
    {
      if '#' in line {
        return false;
      }
      var (id, name) := HeaderOf(line, stack);
      if |name| > 127 {
        return true;
      }
      var body;
      body, fault := FindBody(line);
      if fault {
        return;
      }
      fault := AddFeatures(id, name, body);
      if !fault {
        featureCount := featureCount + 1;
      }
    }

    /** The feature loop over a line's body. */
    method AddFeatures(id: int, name: string, body: CString) returns (fault: bool)
      modifies this`nodes
      ensures fault <==> !BodyFits(body)
      ensures !fault ==> Stacked(id, name, Taken(Tokens(body, ',')), old(nodes))
    {
      hide Taken, Tokens, Pieces, Gather, Reverse, NodeMaker, Faults, BodyFits;
      TokenStart(body, ',');
      ghost var tokens: seq<string> := [];
      StackedStart(id, name);
      var p, begin := 0, 0;
      while At(body, p) != NUL
        invariant Taking(body, tokens, begin, p)
        invariant Stacked(id, name, tokens, old(nodes))
        invariant forall k :: 0 <= k < |tokens| ==> |tokens[k]| < MAX_FEATURE_STR_LEN && !Faults(tokens[k])
        decreases |body| - p
      {
        TakingStep(body, tokens, begin, p, p + 1);
        p := p + 1;
        if At(body, p) == ',' {
          BodyFitsStep(body, tokens, begin, p - 1, p);
          if p - begin > MAX_FEATURE_STR_LEN {
            return false;
          }
          fault := AddFeature(id, name, body, begin, p, p - begin, tokens, old(nodes));
          if fault {
            return;
          }
          tokens := tokens + [body[begin..p]];
          begin := p + 1;
        }
      }
      TakingEnds(body, tokens, begin);
      BodyFitsEnds(body, tokens, begin);
      fault := false;
      if |body| + 1 - begin <= MAX_FEATURE_STR_LEN {
        fault := AddFeature(id, name, body, begin, |body|, |body| + 1 - begin, tokens, old(nodes));
      }
    }

    /** The clean message. */
    method Clean()
      modifies this
      ensures nodes == [] && featureCount == 0
    {
      while |nodes| > 0
        decreases |nodes|
      {
        nodes := nodes[1..];
      }
      featureCount := 0;
    }
  }

  // ---------------------------------------------------------------- limits by their numbers

  /** A feature that is too long ends its line: those before it are taken, it and those behind it are not. */
  lemma LongFeatureEnds(front: seq<string>, long: string, rest: seq<string>)
    requires forall t :: t in front ==> |t| <= MAX_FEATURE_STR_LEN
    requires if rest == [] then |long| + 1 > MAX_FEATURE_STR_LEN else |long| > MAX_FEATURE_STR_LEN
    ensures Taken(front + [long] + rest) == front
  {
    TakenFront(front, [long] + rest);
    assert front + [long] + rest == front + ([long] + rest);
    assert Taken([long] + rest) == [];
  }

  /** The fields that fit: up to 15 characters for protocol and ports, 31 for the host, 127 for the others. */
  lemma FieldLimits(fs: seq<string>)
    requires |fs| >= 1
    ensures FieldsFit(fs) <==>
            && |Field(fs, 0)| <= 15 && |Field(fs, 1)| <= 15 && |Field(fs, 2)| <= 15 && |Field(fs, 3)| <= 31
            && |Field(fs, 4)| <= 127 && |Field(fs, 5)| <= 127 && |Field(fs, 6)| <= 127 && |Field(fs, 7)| <= 127
  {
  }

  /** The elements of a dictionary that fit: up to 63 characters, and fewer separators than entries but one. */
  lemma DictLimits(dict: string)
    ensures EntriesFit(dict) <==>
            (|Tokens(dict, '|')| - 1 == 0 || |Tokens(dict, '|')| - 1 < MAX_POS_INFO_PER_FEATURE - 1) &&
            forall t :: t in Tokens(dict, '|') ==> |t| < 64
  {
    var tokens := Tokens(dict, '|');
    assert forall i :: 0 <= i < |tokens| ==> tokens[i] in tokens;
  }

  /** An overlong field, an overlong or superfluous port element or an overlong or crowded dictionary is a fault, and
      nothing else is. */
  lemma FaultLaw(feature: string)
    ensures var fs := Tokens(feature, ';'); var known := Field(fs, 0) == "tcp" || Field(fs, 0) == "udp";
            Faults(feature) <==>
            |feature| >= MIN_FEATURE_STR_LEN &&
            (!FieldsFit(fs) || (known && (!PortsFit(Field(fs, 2)) || !EntriesFit(Field(fs, 5)))))
  {
    hide FieldsFit, PortsFit, EntriesFit;
  }

  /** Of elements and not of entries: a malformed element repeats what the one before it held, and a last one that is
      incomplete is dropped. */
  lemma DictExample()
    ensures DictOf("5:1|x|7:2") == [PosInfo(5, 1), PosInfo(5, 1), PosInfo(7, 2)]
    ensures DictOf("5:1|7") == [PosInfo(5, 1)]
  {
    hide ScanPos, Pushed, Tokens;
    PosExamples();
    CutExamples();
    PushedExamples();
    assert ["5:1", "x", "7:2"][..2] == ["5:1", "x"] && ["5:1", "7"][..1] == ["5:1"];
  }

  lemma PushedExamples()
    ensures Pushed(["5:1"]) == ([PosInfo(5, 1)], PosInfo(5, 1))
    ensures Pushed(["5:1", "x"]) == ([PosInfo(5, 1), PosInfo(5, 1)], PosInfo(5, 1))
  {
    hide ScanPos, Pushed;
    PosExamples();
    PushedNone();
    PushedAppend([], "5:1");
    assert [] + ["5:1"] == ["5:1"] && [] + [PosInfo(5, 1)] == [PosInfo(5, 1)];
    PushedAppend(["5:1"], "x");
    assert ["5:1"] + ["x"] == ["5:1", "x"] && [PosInfo(5, 1)] + [PosInfo(5, 1)] == [PosInfo(5, 1), PosInfo(5, 1)];
  }

  lemma PushedNone()
    ensures Pushed([]) == ([], PosInfo(0, 0))
  {
  }

  lemma CutExamples()
    ensures Tokens("5:1|x|7:2", '|') == ["5:1", "x", "7:2"] && Tokens("5:1|7", '|') == ["5:1", "7"]
  {
    hide Tokens;
    TokensOfJoin(["5:1", "x", "7:2"], '|');
    TokensOfJoin(["5:1", "7"], '|');
    assert Join(["x", "7:2"], '|') == "x|7:2" by { assert ["x", "7:2"][1..] == ["7:2"]; }
    assert Join(["5:1", "x", "7:2"], '|') == "5:1|x|7:2" by { assert ["5:1", "x", "7:2"][1..] == ["x", "7:2"]; }
    assert Join(["5:1", "7"], '|') == "5:1|7" by { assert ["5:1", "7"][1..] == ["7"]; }
  }

  lemma PosExamples()
    ensures ScanPos("5:1", PosInfo(0, 0)) == (2, PosInfo(5, 1)) && ScanPos("x", PosInfo(5, 1)) == (0, PosInfo(5, 1))
    ensures ScanPos("7:2", PosInfo(5, 1)) == (2, PosInfo(7, 2)) && ScanPos("7", PosInfo(5, 1)).0 == 1
  {
    assert "5:1"[1..] == ":1" && ":1"[1..] == "1" && "7:2"[1..] == ":2" && ":2"[1..] == "2" && "7"[1..] == "";
    assert Digits("5:1", 10, 0) == (5, ":1") && Digits("7:2", 10, 0) == (7, ":2") && Digits("7", 10, 0) == (7, "");
    assert "1"[1..] == "" && "2"[1..] == "";
    assert Digits("1", 16, 0) == (1, "") && Digits("2", 16, 0) == (2, "");
  }

  /** The bracket search by example: a bracket at the very start is not seen, and a second opening bracket moves the
      start but leaves the length, so the text behind it is cut to the length of the first pair. */
  lemma BracketExamples()
    ensures BodyOf("x[ab][cdef") == "cd" && BodyOf("x[ab][c") == "c"
    ensures BodyOf("[ab]") == "" && BodyOf("x]ab[") == "" && BodyOf("x[ab") == ""
  {
    var s, t := "x[ab][cdef", "x[ab][c";
    assert Brackets(s, 4) == (Some(2), 2) by { assert Brackets(s, 2) == (Some(2), 0); }
    assert Brackets(s, 6) == (Some(6), 2);
    assert Brackets(s, 8) == (Some(6), 2);
    assert Brackets(s, 10) == (Some(6), 2);
    assert s[6..8] == "cd";
    assert Brackets(t, 4) == (Some(2), 2) by { assert Brackets(t, 2) == (Some(2), 0); }
    assert Brackets(t, 6) == (Some(6), 2);
    assert t[6..7] == "c";
    assert Brackets("[ab]", 2) == (None, 0);
    assert Brackets("x]ab[", 2) == (None, 0) && Brackets("x]ab[", 4) == (Some(5), 0);
    assert Brackets("x[ab", 2) == (Some(2), 0);
  }

  /** A line with a comment sign has no signatures, and one that starts neither with a blank nor with a sign nor with a
      digit has no id and no name of its own. */
  lemma LineStart(line: string, stack: int)
    ensures '#' in line ==> LineNodes(line, stack) == [] && LineFits(line)
    ensures line == "" || (!IsSpace(line[0]) && line[0] !in "+-" && !IsDigit(line[0], 10)) ==> HeaderOf(line, stack) == (stack, "")
  {
  }
}
