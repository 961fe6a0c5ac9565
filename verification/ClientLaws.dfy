/** What a client in the table is, told by the events that reached it since it was created. */
module ClientLaws {
  import opened Common
  import opened Bits
  import opened ClientTable
  import opened ClientRuns

  // ---------------------------------------------------------------- searching

  /** A place of the table whose client satisfies p, with none before it in table order. */
  ghost predicate IsFirstPlace(b: Buckets, place: Option<(nat, nat)>, p: Client -> bool) {
    if place.None? then forall i, j :: 0 <= i < |b| && 0 <= j < |b[i]| ==> !p(b[i][j])
    else
      var (i, j) := place.value;
      && i < |b| && j < |b[i]| && p(b[i][j])
      && forall i', j' :: 0 <= i' < |b| && 0 <= j' < |b[i']| && (i' < i || (i' == i && j' < j)) ==> !p(b[i'][j'])
  }

  lemma FirstPlaceLaw(b: Buckets, p: Client -> bool)
    ensures IsFirstPlace(b, FirstPlace(b, 0, p), p)
  {
    forall i, j | 0 <= i < |b| && 0 <= j < |b[i]| && p(b[i][j])
      ensures var r := FirstPlace(b, 0, p); r.Some? && (r.value.0 < i || (r.value.0 == i && r.value.1 <= j))
    {
      FirstPlaceIsFirst(b, 0, p, i, j);
    }
  }

  /** The client of a down packet, or of a packet that the gateway hook sees, is the first one with that IPv4 address,
      or with that IPv6 address; the gateway looks at the IPv4 source when it is not 0. */
  lemma PlacesLaw(b: Buckets, addr: U32, addr6: Ip6, excluded: bool)
    ensures IsFirstPlace(b, DownPlace(b, V4(addr, excluded)), (c: Client) => c.ip == addr)
    ensures IsFirstPlace(b, DownPlace(b, V6(addr6)), (c: Client) => c.ip6 == addr6)
    ensures DownPlace(b, OtherProtocol) == None
    ensures addr != 0 ==> IsFirstPlace(b, SourcePlace(b, addr, None), (c: Client) => c.ip == addr)
    ensures addr != 0 ==> SourcePlace(b, addr, Some(addr6)) == SourcePlace(b, addr, None)
    ensures IsFirstPlace(b, SourcePlace(b, 0, Some(addr6)), (c: Client) => c.ip6 == addr6)
    ensures SourcePlace(b, 0, None) == None
  {
    hide FirstPlace;
    FirstPlaceLaw(b, HasIp(addr));
    FirstPlaceLaw(b, HasIp6(addr6));
  }

  // ---------------------------------------------------------------- the history of a client

  /** The event reaches the client m: an up packet from it, its creation, or a packet whose address belongs to it. */
  ghost predicate Reaches(b: Buckets, e: Event, m: Mac) {
    match e
    case Up(mac, _, _, _, _) => mac == m
    case AddClient(mac, _, _) => mac == m && WellFormed(b) && Lookup(b, m).None?
    case Down(p, _, _) => var place := DownPlace(b, p); place.Some? && b[place.value.0][place.value.1].mac == m
    case Refresh(src, src6, _) => var place := SourcePlace(b, src, src6); place.Some? && b[place.value.0][place.value.1].mac == m
    case Sweep(_) => false
  }

  /** The events that reached a client since it was created. */
  ghost function Since(es: seq<Event>, m: Mac): seq<Event> {
    if |es| == 0 then []
    else
      var front, e := es[..|es| - 1], es[|es| - 1];
      var before := if Lookup(After(front), m).Some? then Since(front, m) else [];
      if Reaches(After(front), e, m) then before + [e] else before
  }

  /** The IPv4 source of the last up packet that has one, 0 when there is none. */
  function LastIp(es: seq<Event>): U32 {
    if |es| == 0 then 0
    else
      var e := es[|es| - 1];
      if e.Up? && e.packet.V4? then e.packet.addr else LastIp(es[..|es| - 1])
  }

  function LastIp6(es: seq<Event>): Ip6 {
    if |es| == 0 then 0
    else
      var e := es[|es| - 1];
      if e.Up? && e.packet.V6? then e.packet.addr6 else LastIp6(es[..|es| - 1])
  }

  /** The packet is not one of the excluded IPv4 packets. */
  predicate Counts(p: Packet) { p.V4? ==> !p.excluded }

  /** Number and total length of the counted packets from the client, and of those to it. */
  function Sent(es: seq<Event>): (nat, nat) {
    if |es| == 0 then (0, 0)
    else
      var (n, bytes) := Sent(es[..|es| - 1]);
      var e := es[|es| - 1];
      if e.Up? && Counts(e.packet) then (n + 1, bytes + e.len) else (n, bytes)
  }

  function Received(es: seq<Event>): (nat, nat) {
    if |es| == 0 then (0, 0)
    else
      var (n, bytes) := Received(es[..|es| - 1]);
      var e := es[|es| - 1];
      if e.Down? && Counts(e.packet) then (n + 1, bytes + e.len) else (n, bytes)
  }

  /** What a client holds is what its events say. */
  ghost predicate Tells(es: seq<Event>, c: Client) {
    && |es| > 0 && c.updated == es[|es| - 1].jiffies
    && c.ip == LastIp(es) && c.ip6 == LastIp6(es)
    && (c.upPkts, c.up) == Sent(es) && (c.downPkts, c.down) == Received(es)
  }

  lemma TellsAppend(es: seq<Event>, e: Event, m: Mac, was: Option<Client>, c: Client)
    requires if was.Some? then Tells(es, was.value) else es == []
    requires match e
             case Up(mac, _, _, jiffies, _) => c == SeenUp(if was.Some? then was.value else NewClient(mac, jiffies), e)
             case AddClient(mac, jiffies, _) => was.None? && c == NewClient(mac, jiffies)
             case Down(_, _, _) => was.Some? && c == SeenDown(was.value, e)
             case Refresh(_, _, jiffies) => was.Some? && c == Refreshed(was.value, jiffies)
             case Sweep(_) => false
    ensures Tells(es + [e], c)
  {
    assert (es + [e])[..|es|] == es;
  }

  /** Who is reached is who is affected. */
  lemma ReachedIsAffected(b: Buckets, e: Event, m: Mac)
    requires WellFormed(b)
    ensures Reaches(b, e, m) && (e.Up? ==> Lookup(b, m).Some? || e.allocOk) && (e.AddClient? ==> e.allocOk) <==>
            !e.Sweep? && Affected(b, e) == Some(m)
    ensures (e.Down? || e.Refresh?) && Reaches(b, e, m) ==> Lookup(b, m).Some?
    ensures e.AddClient? && Reaches(b, e, m) ==> Lookup(b, m).None?
    ensures e.Sweep? ==> !Reaches(b, e, m)
  {
    hide FirstPlace, Lookup;
    if Affected(b, e).Some? {
      AffectedKnown(b, e);
    }
  }

  /** After any run, everything the table holds about a live client is told by the events that reached it since its
      creation: its addresses are the sources of its last up packets of the two families, its counters are those of
      the packets that count, and its time is that of the last event. */
  lemma {:induction false} ClientOfRun(es: seq<Event>, m: Mac)
    ensures Lookup(After(es), m).Some? ==> Tells(Since(es, m), Lookup(After(es), m).value)
  {
    hide Tells, Reaches, SeenUp, SeenDown, Lookup, WellFormed, Step;
    if |es| == 0 {
      NobodyYet(m);
    } else {
      var front, e := es[..|es| - 1], es[|es| - 1];
      var b := After(front);
      ClientOfRun(front, m);
      StepRefinesMap(b, e, m);
      ReachedIsAffected(b, e, m);
      var was := Lookup(b, m);
      var since := if was.Some? then Since(front, m) else [];
      if Lookup(After(es), m).Some? && Affected(b, e) == Some(m) {
        TellsAppend(since, e, m, was, Lookup(After(es), m).value);
      }
    }
  }

  lemma NobodyYet(m: Mac)
    ensures Lookup(After([]), m).None?
  {
  }

  /** A client is live after an event exactly when it was live and no sweep removed it, or the event created it. */
  lemma LiveAfter(b: Buckets, e: Event, m: Mac)
    requires WellFormed(b)
    ensures WellFormed(Step(b, e))
    ensures Lookup(Step(b, e), m).Some? <==>
            if e.Sweep? then Lookup(b, m).Some? && Affected(b, e) != Some(m)
            else Lookup(b, m).Some? || ((e.Up? || e.AddClient?) && e.mac == m && e.allocOk)
  {
    hide Lookup, FirstPlace, Step, WellFormed;
    StepRefinesMap(b, e, m);
    if Affected(b, e).Some? {
      AffectedKnown(b, e);
    }
  }

  /** After an up packet with an IPv4 source its client can be found by that source. */
  lemma UpSourceFound(b: Buckets, e: Event)
    requires WellFormed(b) && e.Up? && e.packet.V4? && (Lookup(b, e.mac).Some? || e.allocOk)
    ensures WellFormed(Step(b, e)) && Lookup(Step(b, e), e.mac).Some?
    ensures Lookup(Step(b, e), e.mac).value.ip == e.packet.addr && Lookup(Step(b, e), e.mac).value.updated == e.jiffies
    ensures DownPlace(Step(b, e), V4(e.packet.addr, false)).Some?
  {
    hide FirstPlace, Step;
    StepRefinesMap(b, e, e.mac);
    var b' := Step(b, e);
    var h := HashOf(e.mac);
    var j := FirstIndex(b'[h], HasMac(e.mac));
    assert b'[h][j].ip == e.packet.addr;
    FirstPlaceIsFirst(b', 0, HasIp(e.packet.addr), h, j);
  }

  // ---------------------------------------------------------------- packet counters

  function UpPackets(): Client -> int { (c: Client) => c.upPkts }

  function DownPackets(): Client -> int { (c: Client) => c.downPkts }

  /** The number of counted packets of each direction that find or make a client. */
  function CreditedPackets(es: seq<Event>): (nat, nat) {
    if |es| == 0 then (0, 0)
    else
      var (up, down) := CreditedPackets(es[..|es| - 1]);
      var b, e := After(es[..|es| - 1]), es[|es| - 1];
      if !Credited(b, e) then (up, down) else if e.Up? then (up + 1, down) else (up, down + 1)
  }

  lemma PacketGain(b: Buckets, e: Event)
    requires WellFormed(b)
    ensures Gain(b, e, UpPackets()) == if e.Up? && Credited(b, e) then 1 else 0
    ensures Gain(b, e, DownPackets()) == if e.Down? && Credited(b, e) then 1 else 0
    ensures Credited(b, e) ==> e.Up? != e.Down?
  {
    hide Lookup, WellFormed, DownPlace, SourcePlace, FirstPlace;
    if Affected(b, e).Some? {
      AffectedKnown(b, e);
    }
  }

  lemma {:induction false} GainedPackets(es: seq<Event>)
    ensures Gained(es, UpPackets()) == CreditedPackets(es).0 && Gained(es, DownPackets()) == CreditedPackets(es).1
  {
    hide Gain, Credited, Step, WellFormed;
    if |es| == 0 {
    } else {
      GainedPackets(es[..|es| - 1]);
      PacketGain(After(es[..|es| - 1]), es[|es| - 1]);
    }
  }

  /** Packets are conserved as bytes are. */
  lemma PacketsConserved(es: seq<Event>)
    ensures Total(After(es), UpPackets()) + Removed(es, UpPackets()) == CreditedPackets(es).0
    ensures Total(After(es), DownPackets()) + Removed(es, DownPackets()) == CreditedPackets(es).1
  {
    MeasureConserved(es, UpPackets());
    MeasureConserved(es, DownPackets());
    GainedPackets(es);
  }
}
