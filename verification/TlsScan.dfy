/** The search for a TLS server name: one pass over the payload for a byte pattern. */
module TlsScan {
  import opened Common

  /** Offsets of the length field and of the name behind a candidate position, and the host length limits. */
  const HTTPS_LEN_OFFSET: nat
  const HTTPS_URL_OFFSET: nat
  const MIN_HOST_LEN: nat
  const MAX_HOST_LEN: nat

  /** The layout the scanner relies on: two length bytes behind the pattern and before the name. */
  predicate LayoutOk() { 3 <= HTTPS_LEN_OFFSET && HTTPS_LEN_OFFSET + 2 <= HTTPS_URL_OFFSET }

  predicate DomainByte(b: Byte) {
    'a' as int <= b <= 'z' as int || 'A' as int <= b <= 'Z' as int || '0' as int <= b <= '9' as int ||
    b == '.' as int || b == '-' as int || b == ':' as int
  }

  predicate IsDomain(h: Bytes) { forall i :: 0 <= i < |h| ==> DomainByte(h[i]) }

  method CheckDomain(data: Bytes, start: nat, len: nat) returns (ok: bool)
    requires start + len <= |data|
    ensures ok <==> IsDomain(data[start..start + len])
  {
    ghost var h := data[start..start + len];
    for i := 0 to len
      invariant forall j :: 0 <= j < i ==> DomainByte(h[j])
    {
      var c := data[start + i];
      assert c == h[i];
      if ('a' as int <= c <= 'z' as int) || ('A' as int <= c <= 'Z' as int) ||
         ('0' as int <= c <= '9' as int) || c == '.' as int || c == '-' as int || c == ':' as int {
        continue;
      } else {
        assert !DomainByte(h[i]);
        return false;
      }
    }
    return true;
  }

  /** The two bytes at i as a number in network byte order. */
  function U16At(data: Bytes, i: nat): nat
    requires i + 2 <= |data|
  {
    data[i] as int * 256 + data[i + 1]
  }

  /** 00 00 00 and a byte that is not zero. */
  predicate Pattern(data: Bytes, i: nat)
    requires i + 4 <= |data|
  {
    data[i] == 0 && data[i + 1] == 0 && data[i + 2] == 0 && data[i + 3] != 0
  }

  /** A server name is accepted at position i: everything the rule asks for, the name ending before the last byte. */
  predicate Candidate(data: Bytes, i: nat) {
    LayoutOk() && i + HTTPS_URL_OFFSET < |data| && Pattern(data, i) &&
    var n := U16At(data, i + HTTPS_LEN_OFFSET);
    MIN_HOST_LEN < n <= MAX_HOST_LEN && i + HTTPS_URL_OFFSET + n < |data| &&
    IsDomain(data[i + HTTPS_URL_OFFSET..i + HTTPS_URL_OFFSET + n])
  }

  predicate FirstCandidate(data: Bytes, i: nat) {
    Candidate(data, i) && forall j :: 0 <= j < i ==> !Candidate(data, j)
  }

  /** The payload is scanned at all: it starts a handshake, or an earlier packet of the flow did. */
  predicate Scanned(data: Bytes, clientHello: bool) {
    |data| >= 16 && ((data[0] == 0x16 && data[1] == 0x03 && data[5] == 0x01) || clientHello)
  }

  /** No position of the payload is accepted. */
  ghost predicate Missed(data: Bytes) { forall i: nat :: !Candidate(data, i) }

  /** The flag after a payload: a scanned one decides it, any other leaves it. */
  ghost predicate HelloAfter(data: Bytes, clientHello: bool) {
    if Scanned(data, clientHello) then Missed(data) else clientHello
  }

  lemma NotMissed(data: Bytes, i: nat)
    requires Candidate(data, i)
    ensures !Missed(data)
  {
  }

  /** The https part of a flow. */
  class HttpsFlow {
    var clientHello: bool
    var matched: bool
    var urlPos: nat
    var urlLen: nat

    constructor (clientHello: bool)
      ensures this.clientHello == clientHello && !matched
    {
      this.clientHello := clientHello;
      matched := false;
      urlPos, urlLen := 0, 0;
    }

    /** Finds the first candidate.  A scanned payload ends either as a hit with `clientHello` cleared or as a miss
        with it set; any other payload changes nothing. */
    method Scan(data: Bytes) returns (hit: bool)
      requires LayoutOk()
      modifies this
      ensures hit ==> Scanned(data, old(clientHello)) && matched && !clientHello
      ensures hit ==> urlPos >= HTTPS_URL_OFFSET && FirstCandidate(data, urlPos - HTTPS_URL_OFFSET) &&
                      urlLen == U16At(data, urlPos - HTTPS_URL_OFFSET + HTTPS_LEN_OFFSET)
      ensures hit ==> urlPos + urlLen < |data| && MIN_HOST_LEN < urlLen <= MAX_HOST_LEN && IsDomain(data[urlPos..urlPos + urlLen])
      ensures !hit ==> matched == old(matched) && urlPos == old(urlPos) && urlLen == old(urlLen)
      ensures !hit && Scanned(data, old(clientHello)) ==> clientHello && Missed(data)
      ensures clientHello == HelloAfter(data, old(clientHello))
      ensures |data| < 16 || (!old(clientHello) && (data[0] != 22 || data[1] != 3 || data[5] != 1)) ==>
                !hit && clientHello == old(clientHello)
      ensures |data| >= 16 && (old(clientHello) || (data[0] == 22 && data[1] == 3 && data[5] == 1)) ==> hit != clientHello
    {
      if |data| < 16 {
        return false;
      }
      if !((data[0] == 0x16 && data[1] == 0x03 && data[5] == 0x01) || clientHello) {
        return false;
      }
      var i := 0;
      while i < |data|
        invariant 0 <= i < |data| && forall j :: 0 <= j < i ==> !Candidate(data, j)
        invariant unchanged(this)
        decreases |data| - i
      {
        if i + HTTPS_URL_OFFSET >= |data| {
          clientHello := true;
          return false;
        }
        if data[i] == 0 && data[i + 1] == 0 && data[i + 2] == 0 && data[i + 3] != 0 {
          var len := U16At(data, i + HTTPS_LEN_OFFSET);
          if !(len <= MIN_HOST_LEN || len > |data| || len > MAX_HOST_LEN) {
            if i + HTTPS_URL_OFFSET + len < |data| {
              var domain := CheckDomain(data, i + HTTPS_URL_OFFSET, len);
              if domain {
                NotMissed(data, i);
                matched := true;
                urlPos := i + HTTPS_URL_OFFSET;
                urlLen := len;
                clientHello := false;
                return true;
              }
            }
          }
        }
        i := i + 1;
      }
    }
  }

  // ---------------------------------------------------------------- server_name, section 3 of RFC 6066

  function U16(n: nat): Bytes
    requires n < 0x1_0000
  {
    [n / 256, n % 256]
  }

  /** The server_name extension with one host_name entry: extension type 0, extension length, list length,
      name type 0, name length, name. */
  function ServerName(name: Bytes): Bytes
    requires |name| + 5 < 0x1_0000
  {
    U16(0) + U16(|name| + 5) + U16(|name| + 3) + [0] + U16(|name|) + name
  }

  /** With the offsets of that layout, a name is accepted at a position exactly when three zero bytes and one that is
      not zero start there, its length and its characters are allowed, and at least one byte follows it. */
  lemma CandidateShape(pre: Bytes, head: Bytes, name: Bytes, post: Bytes)
    requires HTTPS_LEN_OFFSET == 7 && HTTPS_URL_OFFSET == 9 && |head| == 7 && |name| < 0x1_0000
    ensures Candidate(pre + head + U16(|name|) + name + post, |pre|) <==>
            head[0] == 0 && head[1] == 0 && head[2] == 0 && head[3] != 0 &&
            MIN_HOST_LEN < |name| <= MAX_HOST_LEN && IsDomain(name) && |post| > 0
  {
    var data, i := pre + head + U16(|name|) + name + post, |pre|;
    assert forall k :: 0 <= k < 7 ==> data[i + k] == head[k];
    assert data[i] == head[0] && data[i + 1] == head[1] && data[i + 2] == head[2] && data[i + 3] == head[3];
    assert data[i + 7] == |name| / 256 && data[i + 8] == |name| % 256;
    assert data[i + 9..i + 9 + |name|] == name;
  }

  /** Every accepted position has that shape. */
  lemma EveryCandidate(data: Bytes, i: nat)
    requires HTTPS_LEN_OFFSET == 7 && HTTPS_URL_OFFSET == 9 && Candidate(data, i)
    ensures var n := U16At(data, i + 7);
            && i + 9 + n < |data|
            && data == data[..i] + data[i..i + 7] + U16(n) + data[i + 9..i + 9 + n] + data[i + 9 + n..]
  {
    assert data[i + 7..i + 9] == U16(U16At(data, i + 7));
  }

  /** So the extension is a candidate where it starts exactly when the name has
      domain characters, its length is within the limits and below 251 (so that the high byte of the extension
      length is zero), and at least one byte follows. */
  lemma ServerNameIsCandidate(pre: Bytes, name: Bytes, post: Bytes)
    requires HTTPS_LEN_OFFSET == 7 && HTTPS_URL_OFFSET == 9 && |name| + 5 < 0x1_0000
    ensures Candidate(pre + ServerName(name) + post, |pre|) <==>
            MIN_HOST_LEN < |name| <= MAX_HOST_LEN && |name| <= 250 && IsDomain(name) && |post| > 0
  {
    hide Candidate;
    var head := U16(0) + U16(|name| + 5) + U16(|name| + 3) + [0];
    assert pre + ServerName(name) + post == pre + head + U16(|name|) + name + post;
    CandidateShape(pre, head, name, post);
  }

  /** So the scanner hits at the extension or earlier, and at the extension it reports exactly the name. */
  lemma ServerNameFound(pre: Bytes, name: Bytes, post: Bytes, i: nat)
    requires HTTPS_LEN_OFFSET == 7 && HTTPS_URL_OFFSET == 9
    requires MIN_HOST_LEN < |name| <= MAX_HOST_LEN && |name| <= 250 && IsDomain(name) && |post| > 0
    requires FirstCandidate(pre + ServerName(name) + post, i)
    ensures i <= |pre|
    ensures i == |pre| <==> forall j :: 0 <= j < |pre| ==> !Candidate(pre + ServerName(name) + post, j)
    ensures var data := pre + ServerName(name) + post;
            i == |pre| ==> U16At(data, i + 7) == |name| && data[i + 9..i + 9 + |name|] == name
  {
    ServerNameIsCandidate(pre, name, post);
    var data, ext := pre + ServerName(name) + post, ServerName(name);
    assert forall k :: 0 <= k < |ext| ==> data[|pre| + k] == ext[k];
    assert data[|pre| + 7] == ext[7] && data[|pre| + 8] == ext[8];
    assert data[|pre| + 9..|pre| + 9 + |name|] == name;
  }

  // ---------------------------------------------------------------- a handshake record with a ClientHello

  /** A record of type 22 and version 3.minor whose first message has type 1, as in sections 6.2.1 and 7.4 of RFC 5246,
      with a server name extension somewhere behind. */
  function HelloRecord(minor: Byte, len: nat, middle: Bytes, name: Bytes, post: Bytes): Bytes
    requires len < 0x1_0000 && |name| + 5 < 0x1_0000
  {
    HelloStart(minor, len, middle) + ServerName(name) + post
  }

  function HelloStart(minor: Byte, len: nat, middle: Bytes): Bytes
    requires len < 0x1_0000
  {
    [22, 3, minor] + U16(len) + [1] + middle
  }

  /** The characters of a server name by their codes: letters, digits, dot, minus and colon. */
  lemma DomainBytes(b: Byte)
    ensures DomainByte(b) <==> 97 <= b <= 122 || 65 <= b <= 90 || 48 <= b <= 58 || b == 45 || b == 46
  {
  }

  /** No three zero bytes in a row begin before position n. */
  predicate NoZerosBefore(data: Bytes, n: nat) {
    forall i :: 0 <= i < n && i + 2 < |data| ==> !(data[i] == 0 && data[i + 1] == 0 && data[i + 2] == 0)
  }

  /** Then nothing before that position can be taken for a name. */
  lemma NothingEarlier(data: Bytes, n: nat)
    requires NoZerosBefore(data, n)
    ensures forall j :: 0 <= j < n ==> !Candidate(data, j)
  {
  }

  /** Scanning such a record, the first of its connection, hits and reports exactly the name, provided that the name
      has the characters and the length for it, a byte follows, and no three zero bytes in a row begin before the
      extension. */
  method FindServerName(minor: Byte, len: nat, middle: Bytes, name: Bytes, post: Bytes) returns (found: Option<Bytes>)
    requires HTTPS_LEN_OFFSET == 7 && HTTPS_URL_OFFSET == 9 && len < 0x1_0000
    requires MIN_HOST_LEN < |name| <= MAX_HOST_LEN && |name| <= 250 && |post| > 0
    requires forall i :: 0 <= i < |name| ==>
               97 <= name[i] <= 122 || 65 <= name[i] <= 90 || 48 <= name[i] <= 58 || name[i] == 45 || name[i] == 46
    requires NoZerosBefore(HelloRecord(minor, len, middle, name, post), 6 + |middle|)
    ensures found == Some(name)
  {
    hide Candidate, HelloStart, ServerName, NoZerosBefore;
    var pre := HelloStart(minor, len, middle);
    RecordBytes(minor, len, middle, name);
    var data := pre + ServerName(name) + post;
    NothingEarlier(data, |pre|);
    ServerNameIsCandidate(pre, name, post);
    assert data[0] == pre[0] && data[1] == pre[1] && data[5] == pre[5];
    var flow := new HttpsFlow(false);
    var hit := flow.Scan(data);
    NotMissed(data, |pre|);
    ServerNameFound(pre, name, post, flow.urlPos - HTTPS_URL_OFFSET);
    found := Some(data[flow.urlPos..flow.urlPos + flow.urlLen]);
  }

  lemma RecordBytes(minor: Byte, len: nat, middle: Bytes, name: Bytes)
    requires len < 0x1_0000 && |name| + 5 < 0x1_0000
    ensures var pre := HelloStart(minor, len, middle); |pre| == 6 + |middle| && pre[0] == 22 && pre[1] == 3 && pre[5] == 1
    ensures |ServerName(name)| == 9 + |name|
  {
  }

  /** A payload that does not begin a handshake leaves everything as it is while no answer is awaited. */
  method SkipOther(data: Bytes) returns (hit: bool, hello: bool)
    requires LayoutOk()
    requires |data| < 16 || data[0] != 22 || data[1] != 3 || data[5] != 1
    ensures !hit && !hello
  {
    var flow := new HttpsFlow(false);
    hit := flow.Scan(data);
    hello := flow.clientHello;
  }
}
