/** Byte accounting over runs of real packets: which of them count is decided by the exclusion test. */
module TrafficRuns {
  import opened Common
  import opened Bits
  import opened StatExclude
  import opened ClientTable
  import opened ClientRuns
  import ClientLaws

  /** An IPv4 packet with the exclusion settings at that moment. */
  datatype Flow = Flow(settings: Settings, saddr: U32, daddr: U32, proto: Byte, wide: U32)

  predicate Skipped(f: Flow) { Excluded(f.settings, f.saddr, f.daddr, f.proto, f.wide) }

  /** What reaches the table: IPv4 packets in either direction, and anything else. */
  datatype Traffic =
    | Sent(mac: Mac, flow: Flow, len: nat, jiffies: nat, allocOk: bool)
    | Received(flow: Flow, len: nat, jiffies: nat)
    | Other(event: Event)

  /** The client of a packet from the LAN is known by its source, that of one towards the LAN by its destination. */
  function EventOf(t: Traffic): Event {
    match t
    case Sent(mac, f, len, jiffies, ok) => Up(mac, V4(f.saddr, Skipped(f)), len, jiffies, ok)
    case Received(f, len, jiffies) => Down(V4(f.daddr, Skipped(f)), len, jiffies)
    case Other(e) => e
  }

  function Events(ts: seq<Traffic>): seq<Event> { MapSeq(ts, EventOf) }

  /** The lengths of the packets from the LAN that the settings do not exclude and that find or make a client. */
  function SentBytes(ts: seq<Traffic>): nat {
    if |ts| == 0 then 0
    else
      var front, t := ts[..|ts| - 1], ts[|ts| - 1];
      SentBytes(front) +
      match t
      case Sent(mac, f, len, _, ok) =>
        if !Skipped(f) && (ok || Lookup(After(Events(front)), mac).Some?) then len else 0
      case Received(_, _, _) => 0
      case Other(e) => if e.Up? && Credited(After(Events(front)), e) then e.len else 0
  }

  /** The lengths of the packets towards the LAN that the settings do not exclude and whose destination is a client. */
  function ReceivedBytes(ts: seq<Traffic>): nat {
    if |ts| == 0 then 0
    else
      var front, t := ts[..|ts| - 1], ts[|ts| - 1];
      ReceivedBytes(front) +
      match t
      case Received(f, len, _) =>
        if !Skipped(f) && FirstPlace(After(Events(front)), 0, HasIp(f.daddr)).Some? then len else 0
      case Sent(_, _, _, _, _) => 0
      case Other(e) => if e.Down? && Credited(After(Events(front)), e) then e.len else 0
  }

  lemma {:induction false} CreditedIsCounted(ts: seq<Traffic>)
    ensures CreditedUp(Events(ts)) == SentBytes(ts) && CreditedDown(Events(ts)) == ReceivedBytes(ts)
  {
    hide Excluded, Step, WellFormed, Lookup, FirstPlace, After;
    if |ts| == 0 {
    } else {
      var front := ts[..|ts| - 1];
      CreditedIsCounted(front);
      assert Events(ts)[..|ts| - 1] == Events(front);
    }
  }

  /** Over every interleaving, the bytes of live and removed clients are those of the packets that the exclusion
      settings let count, in each direction. */
  lemma TrafficConserved(ts: seq<Traffic>)
    ensures Total(After(Events(ts)), UpBytes()) + Removed(Events(ts), UpBytes()) == SentBytes(ts)
    ensures Total(After(Events(ts)), DownBytes()) + Removed(Events(ts), DownBytes()) == ReceivedBytes(ts)
  {
    UpConserved(Events(ts));
    DownConserved(Events(ts));
    CreditedIsCounted(ts);
  }

  /** A packet from the LAN makes its source known: right behind it, a packet towards that address is credited exactly
      when the settings let it count. */
  lemma ReplyCredited(b: Buckets, t: Traffic, reply: Traffic)
    requires WellFormed(b) && t.Sent? && (t.allocOk || Lookup(b, t.mac).Some?)
    requires reply.Received? && reply.flow.daddr == t.flow.saddr
    ensures WellFormed(Step(b, EventOf(t)))
    ensures Credited(Step(b, EventOf(t)), EventOf(reply)) <==> !Skipped(reply.flow)
  {
    hide Skipped, Lookup, FirstPlace, Step, WellFormed;
    ClientLaws.UpSourceFound(b, EventOf(t));
  }
}
