/**
 What the packets of a run decide about a connection and about the visit records, told by the rules and the
 inspection results alone.
 */
module GatewayLaws {
  import opened Common
  import opened Gateway
  import opened GatewayRuns

  // ---------------------------------------------------------------- the deciding packet

  /** The packet meets a connection that is neither classified nor blocked, within the packet budget, with a payload. */
  predicate Reaches(c: Conn, p: Packet) {
    c.appId == 0 && !c.action && p.packets.Some? && p.packets.value <= MAX_DPI_PKT_NUM && p.payloadReadable
  }

  function HitOf(c: Conn, p: Packet): Option<Feature> { p.inspect(c.status.hello).hit }

  /** Packet k of a run is inspected. */
  predicate InspectedAt(ps: seq<Packet>, k: nat)
    requires k < |ps|
  {
    Reaches(After(FRESH, ps[..k]), ps[k])
  }

  /** Packet k comes at most 30 seconds after the last rule update, in unsigned ticks, for an id from 1001 to 31999. */
  predicate RevisedAt(ps: seq<Packet>, k: nat)
    requires k < |ps|
  {
    var id := After(FRESH, ps[..k]).appId;
    1000 < id < 32000 && (ps[k].jiffies - ps[k].rules.updateJiffies) % WORD < (30 * HZ) % WORD
  }

  /** An application rule is enabled and names the client and the application, and the client is not on its white list. */
  predicate AppListed(p: Packet, app: U32) {
    p.rules.appFilter && !p.rules.appWhitelist(p.mac) && p.rules.appRule(app, p.mac)
  }

  /** The same for the rules that name only the client. */
  predicate MacListed(p: Packet) {
    p.rules.macFilter && !p.rules.macWhitelist(p.mac) && p.rules.macRule(p.mac)
  }

  /** A rule drops packet k: when it is inspected, one for the application that was found or one for the client;
      when only the action is revised, one for the application of the connection. */
  predicate RuleDropsAt(ps: seq<Packet>, k: nat)
    requires k < |ps|
  {
    var c, p := After(FRESH, ps[..k]), ps[k];
    if InspectedAt(ps, k) then (HitOf(c, p).Some? && AppListed(p, HitOf(c, p).value.appId)) || MacListed(p)
    else AppListed(p, c.appId)
  }

  lemma PrefixAt(ps: seq<Packet>, n: nat, k: nat)
    requires k < n <= |ps|
    ensures InspectedAt(ps[..n], k) == InspectedAt(ps, k) && RevisedAt(ps[..n], k) == RevisedAt(ps, k)
    ensures RuleDropsAt(ps[..n], k) == RuleDropsAt(ps, k)
    ensures ps[..n][..k] == ps[..k] && ps[..n][k] == ps[k]
  {
    assert ps[..n][..k] == ps[..k];
  }

  /** One inspected packet: a drop exactly when a rule for the application found, or one for the client, says so. */
  lemma InspectedPacket(c: Conn, p: Packet)
    requires Reaches(c, p)
    ensures Next(c, p).action <==> (HitOf(c, p).Some? && AppListed(p, HitOf(c, p).value.appId)) || MacListed(p)
    ensures Next(c, p).appId == if HitOf(c, p).Some? then HitOf(c, p).value.appId else 0
    ensures Next(c, p).status.hello == p.inspect(c.status.hello).clientHello
    ensures Next(c, p).status.ignore <==>
              c.status.ignore || (HitOf(c, p).Some? && HitOf(c, p).value.appId >= 1000 && HitOf(c, p).value.ignore)
  {
  }

  /** Any other packet changes the action alone, and only as a revision. */
  lemma OtherPacket(c: Conn, p: Packet)
    requires !Reaches(c, p)
    ensures Next(c, p).appId == c.appId && Next(c, p).status == c.status
    ensures Next(c, p).action ==
            if 1000 < c.appId < 32000 && (p.jiffies - p.rules.updateJiffies) % WORD < (30 * HZ) % WORD
            then AppListed(p, c.appId) else c.action
  {
  }

  /** The action of a run is what the rules said at the last packet that was inspected or revised. */
  predicate LastWordDrops(ps: seq<Packet>) {
    exists k :: 0 <= k < |ps| && (InspectedAt(ps, k) || RevisedAt(ps, k)) && RuleDropsAt(ps, k) &&
                forall j :: k < j < |ps| ==> !InspectedAt(ps, j) && !RevisedAt(ps, j)
  }

  lemma LastWordStep(ps: seq<Packet>)
    requires |ps| > 0
    ensures var n := |ps| - 1;
            LastWordDrops(ps) <==>
            if InspectedAt(ps, n) || RevisedAt(ps, n) then RuleDropsAt(ps, n) else LastWordDrops(ps[..n])
  {
    hide InspectedAt, RevisedAt, RuleDropsAt;
    var n := |ps| - 1;
    forall k | 0 <= k < n
      ensures InspectedAt(ps[..n], k) == InspectedAt(ps, k) && RevisedAt(ps[..n], k) == RevisedAt(ps, k)
      ensures RuleDropsAt(ps[..n], k) == RuleDropsAt(ps, k)
    {
      PrefixAt(ps, n, k);
    }
    if LastWordDrops(ps[..n]) && !InspectedAt(ps, n) && !RevisedAt(ps, n) {
      var k :| 0 <= k < n && (InspectedAt(ps[..n], k) || RevisedAt(ps[..n], k)) && RuleDropsAt(ps[..n], k) &&
               forall j :: k < j < n ==> !InspectedAt(ps[..n], j) && !RevisedAt(ps[..n], j);
      assert forall j :: k < j < |ps| ==> !InspectedAt(ps, j) && !RevisedAt(ps, j);
    }
  }

  /** After any run a connection drops exactly when a rule dropped the last packet that was inspected or revised. */
  lemma {:induction false} ActionOfRun(ps: seq<Packet>)
    ensures After(FRESH, ps).action <==> LastWordDrops(ps)
  {
    hide LastWordDrops;
    if |ps| == 0 {
      NoWord();
    } else {
      var n := |ps| - 1;
      var c := After(FRESH, ps[..n]);
      ActionOfRun(ps[..n]);
      LastWordStep(ps);
      if Reaches(c, ps[n]) {
        InspectedPacket(c, ps[n]);
      } else {
        OtherPacket(c, ps[n]);
      }
    }
  }

  lemma NoWord()
    ensures !LastWordDrops([])
  {
  }

  /** After any run a connection is classified as an application exactly when an inspected packet found it. */
  lemma {:induction false} IdOfRun(ps: seq<Packet>, id: U32)
    requires id != 0
    ensures After(FRESH, ps).appId == id <==> exists k :: 0 <= k < |ps| && FoundAt(ps, k, id)
  {
    if |ps| == 0 {
    } else {
      var n := |ps| - 1;
      var c := After(FRESH, ps[..n]);
      IdOfRun(ps[..n], id);
      forall k | 0 <= k < n ensures FoundAt(ps[..n], k, id) == FoundAt(ps, k, id) {
        PrefixAt(ps, n, k);
      }
      if Reaches(c, ps[n]) {
        InspectedPacket(c, ps[n]);
      } else {
        OtherPacket(c, ps[n]);
      }
      assert FoundAt(ps, n, id) ==> After(FRESH, ps).appId == id;
    }
  }

  /** Packet k is inspected, and what it shows is this application. */
  predicate FoundAt(ps: seq<Packet>, k: nat, id: U32)
    requires k < |ps|
  {
    var hit := HitOf(After(FRESH, ps[..k]), ps[k]);
    InspectedAt(ps, k) && hit.Some? && hit.value.appId == id
  }

  // ---------------------------------------------------------------- visit records

  /** Which packets are recorded, and as what: inspected ones as visits of a new connection, later packets of a
      connection with an id from 1001 to 31999 as further visits, ids below 1000 and ignored ones not at all. */
  lemma RecorderCall(c: Conn, p: Packet)
    ensures VisitOf(c, p).Some? <==>
            p.rules.record &&
            if Reaches(c, p) then HitOf(c, p).Some? ==> HitOf(c, p).value.appId >= 1000 && !HitOf(c, p).value.ignore
            else 1000 < c.appId < 32000 && !c.status.ignore
    ensures VisitOf(c, p).Some? ==>
              var call := VisitOf(c, p).value;
              && call.appId == Next(c, p).appId && call.drop == Next(c, p).action
              && (call.fromConntrack <==> !Reaches(c, p))
              && (call.isHttp <==> Reaches(c, p) && p.inspect(c.status.hello).isHttp)
  {
  }

  /** A call of the recorder with the packet that makes it. */
  datatype Visiting = Visiting(call: VisitCall, p: Packet)

  function VisitsAfter(vs: seq<Visiting>): Visits {
    if |vs| == 0 then map[] else Recorded(VisitsAfter(vs[..|vs| - 1]), vs[|vs| - 1].call, vs[|vs| - 1].p)
  }

  /** The number of calls for an application, those that drop, and those of a new connection. */
  function Calls(vs: seq<Visiting>, app: U32): nat {
    if |vs| == 0 then 0 else Calls(vs[..|vs| - 1], app) + if vs[|vs| - 1].call.appId == app then 1 else 0
  }

  function DropCalls(vs: seq<Visiting>, app: U32): nat {
    if |vs| == 0 then 0
    else DropCalls(vs[..|vs| - 1], app) + if vs[|vs| - 1].call.appId == app && vs[|vs| - 1].call.drop then 1 else 0
  }

  function NewCalls(vs: seq<Visiting>, app: U32): nat {
    if |vs| == 0 then 0
    else NewCalls(vs[..|vs| - 1], app) + if vs[|vs| - 1].call.appId == app && !vs[|vs| - 1].call.fromConntrack then 1 else 0
  }

  /** Whether the last new connection to an application was a web one. */
  function LastWeb(vs: seq<Visiting>, app: U32): bool {
    if |vs| == 0 then false
    else
      var call := vs[|vs| - 1].call;
      if call.appId == app && !call.fromConntrack then call.isHttp else LastWeb(vs[..|vs| - 1], app)
  }

  predicate IsLast(vs: seq<Visiting>, app: U32, k: int) {
    0 <= k < |vs| && vs[k].call.appId == app && forall j :: k < j < |vs| ==> vs[j].call.appId != app
  }

  /** The record of an application that is positive as a signed number, after any sequence of calls with memory:
      it exists once there was a call, and it counts the calls, the drops and the new connections, with the time
      and the drop of the last one. */
  lemma {:induction false} RecordOfCalls(vs: seq<Visiting>, app: U32)
    requires 0 < app < 0x8000_0000 && forall i :: 0 <= i < |vs| ==> vs[i].p.allocOk
    ensures app in VisitsAfter(vs) <==> Calls(vs, app) > 0
    ensures app in VisitsAfter(vs) ==>
              var info := VisitsAfter(vs)[app];
              && info.totalNum == Calls(vs, app) && info.dropNum == DropCalls(vs, app) && info.connCount == NewCalls(vs, app)
              && info.isHttp == LastWeb(vs, app)
              && exists k :: IsLast(vs, app, k) && info.latestTime == vs[k].p.seconds && info.latestAction == vs[k].call.drop
    ensures app !in VisitsAfter(vs) ==> DropCalls(vs, app) == NewCalls(vs, app) == 0 && !LastWeb(vs, app)
  {
    if |vs| == 0 {
    } else {
      var n := |vs| - 1;
      var front := vs[..n];
      RecordOfCalls(front, app);
      if vs[n].call.appId == app {
        assert IsLast(vs, app, n);
      } else if app in VisitsAfter(front) {
        var k :| IsLast(front, app, k) && VisitsAfter(front)[app].latestTime == front[k].p.seconds &&
                 VisitsAfter(front)[app].latestAction == front[k].call.drop;
        assert IsLast(vs, app, k);
      }
    }
  }

  /** Nothing is recorded for an id that is 0 or negative as a signed number, and without memory nothing for a new one. */
  lemma NotRecorded(v: Visits, call: VisitCall, p: Packet)
    requires call.appId == 0 || call.appId >= 0x8000_0000 || (!p.allocOk && call.appId !in v)
    ensures Recorded(v, call, p) == v
  {
  }

  /** The sweep keeps exactly the records that were used in the last 300 seconds of unsigned time. */
  lemma KeptRecords(v: Visits, seconds: U32, app: U32)
    ensures app in Unexpired(v, seconds) <==> app in v && (seconds - v[app].latestTime) % WORD <= 300
    ensures app in Unexpired(v, seconds) ==> Unexpired(v, seconds)[app] == v[app]
  {
  }

  /** With memory, an event raises a connection counter exactly when it is an inspected, recorded packet of that client
      that finds an application which is neither ignored nor below 1000 nor negative as a signed number. */
  lemma CountRises(s: System, e: Event, m: Mac, app: U32)
    requires e.Arrive? && e.p.allocOk
    ensures var c := ConnOf(s, e.conn);
            ConnCount(VisitsOf(StepSystem(s, e), m), app) == ConnCount(VisitsOf(s, m), app) + 1 <==>
            e.p.mac == m && e.p.rules.record && Reaches(c, e.p) && HitOf(c, e.p).Some? &&
            HitOf(c, e.p).value.appId == app && 1000 <= app < 0x8000_0000 && !HitOf(c, e.p).value.ignore
  {
  }

  /** An event changes its own connection and its own client only: a packet both of them, a sweep removes the idle
      records of its client, and a client that leaves takes its records along. */
  lemma EventLaw(s: System, e: Event, k: nat, m: Mac, app: U32)
    ensures ConnOf(StepSystem(s, e), k) == if e.Arrive? && e.conn == k then Next(ConnOf(s, k), e.p) else ConnOf(s, k)
    ensures (if e.Arrive? then e.p.mac else e.client) != m ==> VisitsOf(StepSystem(s, e), m) == VisitsOf(s, m)
    ensures e.Arrive? && e.p.mac == m ==> VisitsOf(StepSystem(s, e), m) == NextVisits(VisitsOf(s, m), ConnOf(s, e.conn), e.p)
    ensures e.Expire? && e.client == m ==>
              (app in VisitsOf(StepSystem(s, e), m) <==>
               app in VisitsOf(s, m) && (e.seconds - VisitsOf(s, m)[app].latestTime) % WORD <= 300)
    ensures e.Leave? && e.client == m ==> VisitsOf(StepSystem(s, e), m) == map[]
  {
  }
}
