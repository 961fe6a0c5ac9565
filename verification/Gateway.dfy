/**
 The gateway-mode verdict of the packet hook: what one packet does to the state that a
 connection keeps (application id, drop action, two status bits) and to the visit records
 of the client behind it.  The rule tables, the white lists, the payload inspection and the
 allocator are inputs of each packet.
 */
module Gateway {
  import opened Common

  /** Defined in a header that is not part of the repository; any value is allowed. */
  const MAX_DPI_PKT_NUM: nat

  datatype Verdict = Accept | Drop

  /** The two bits of `match_status` that are in use: 0x1 and 0x2. */
  datatype Status = Status(ignore: bool, hello: bool)

  /** The fields of `ct->fwx_data`. */
  datatype Conn = Conn(appId: U32, action: bool, status: Status)

  const FRESH := Conn(0, false, Status(false, false))

  /** Rules that may change from one packet to the next; the table lookups stay uninterpreted. */
  datatype Rules = Rules(
    appFilter: bool, macFilter: bool, record: bool, updateJiffies: nat,
    appWhitelist: Mac -> bool, appRule: (U32, Mac) -> bool,
    macWhitelist: Mac -> bool, macRule: Mac -> bool)

  datatype Feature = Feature(appId: U32, ignore: bool)

  /** What payload inspection and signature lookup report about one packet. */
  datatype Inspection = Inspection(clientHello: bool, isHttp: bool, hit: Option<Feature>)

  /** One packet with everything the hook reads while handling it.
      `packets` is the accounting total of the connection, None without accounting. */
  datatype Packet = Packet(
    mac: Mac, rules: Rules, jiffies: nat, seconds: U32, packets: Option<nat>,
    payloadReadable: bool, inspect: bool -> Inspection, allocOk: bool)

  predicate AppRuleDrops(p: Packet, appId: U32) {
    p.rules.appFilter && !p.rules.appWhitelist(p.mac) && p.rules.appRule(appId, p.mac)
  }

  predicate MacRuleDrops(p: Packet) {
    p.rules.macFilter && !p.rules.macWhitelist(p.mac) && p.rules.macRule(p.mac)
  }

  /** Tick counters are subtracted as unsigned 32-bit numbers. */
  predicate InRuleWindow(p: Packet) {
    (p.jiffies - p.rules.updateJiffies) % WORD < (30 * HZ) % WORD
  }

  predicate Managed(appId: U32) { 1000 < appId < 32000 }

  // ---------------------------------------------------------------- visit records

  datatype Visit = Visit(totalNum: nat, dropNum: nat, latestTime: U32, latestAction: bool, connCount: nat, isHttp: bool)

  const NO_VISIT := Visit(0, 0, 0, false, 0, false)

  type Visits = map<U32, Visit>

  function ConnCount(v: Visits, appId: U32): nat {
    if appId in v then v[appId].connCount else 0
  }

  /** A call of the visit recorder. */
  datatype VisitCall = VisitCall(appId: U32, drop: bool, fromConntrack: bool, isHttp: bool)

  /** The application id is a signed parameter: ids from 2^31 upwards arrive negative. */
  predicate Recordable(appId: U32) { 0 < appId < 0x8000_0000 }

  function Recorded(v: Visits, call: VisitCall, p: Packet): Visits {
    if !Recordable(call.appId) || (call.appId !in v && !p.allocOk) then v
    else
      var was := if call.appId in v then v[call.appId] else NO_VISIT;
      v[call.appId := Visit(was.totalNum + 1, was.dropNum + (if call.drop then 1 else 0), p.seconds, call.drop,
                            was.connCount + (if call.fromConntrack then 0 else 1),
                            if call.fromConntrack then was.isHttp else call.isHttp)]
  }

  const VISIT_TIMEOUT_SEC := 300

  /** The age of a record is an unsigned 32-bit difference. */
  predicate Idle(info: Visit, seconds: U32) {
    (seconds - info.latestTime) % WORD > VISIT_TIMEOUT_SEC
  }

  function Unexpired(v: Visits, seconds: U32): Visits {
    map a | a in v && !Idle(v[a], seconds) :: v[a]
  }

  class Client {
    var visits: Visits
    var visitingApp: U32
    var visitingTime: U32

    constructor ()
      ensures visits == map[] && visitingApp == 0
    {
      visits := map[];
      visitingApp, visitingTime := 0, 0;
    }

    /** The sweep before every status tick: drops the records that were idle for too long. */
    method CheckExpired(seconds: U32)
      modifies this`visits
      ensures visits == Unexpired(old(visits), seconds)
    {
      var todo := visits.Keys;
      while todo != {}
        invariant todo <= old(visits).Keys
        invariant visits.Keys == todo + Unexpired(old(visits), seconds).Keys
        invariant forall a | a in visits :: visits[a] == old(visits)[a]
      {
        var a :| a in todo;
        todo := todo - {a};
        if Idle(visits[a], seconds) {
          visits := visits - {a};
        }
      }
    }

    /** Adds one visit; the shown application changes at once, or from the third web connection on. */
    method UpdateAppInfo(call: VisitCall, p: Packet) returns (ok: bool)
      modifies this
      ensures visits == Recorded(old(visits), call, p)
      ensures ok == (Recordable(call.appId) && (call.appId in old(visits) || p.allocOk))
      ensures if ok && (visits[call.appId].isHttp ==> visits[call.appId].connCount >= 3)
              then visitingApp == call.appId && visitingTime == p.seconds
              else visitingApp == old(visitingApp) && visitingTime == old(visitingTime)
    {
      if !Recordable(call.appId) {
        return false;
      }
      if call.appId !in visits {
        if !p.allocOk {
          return false;
        }
        visits := visits[call.appId := NO_VISIT];
      }
      var info := visits[call.appId];
      info := info.(totalNum := info.totalNum + 1);
      if call.drop {
        info := info.(dropNum := info.dropNum + 1);
      }
      info := info.(latestTime := p.seconds, latestAction := call.drop);
      if !call.fromConntrack {
        info := info.(connCount := info.connCount + 1, isHttp := call.isHttp);
      }
      visits := visits[call.appId := info];
      if (info.isHttp && info.connCount >= 3) || !info.isHttp {
        visitingTime := p.seconds;
        visitingApp := call.appId;
      }
      return true;
    }
  }

  // ---------------------------------------------------------------- one packet

  /** The payload of this packet is inspected. */
  predicate RunsDpi(c: Conn, p: Packet) {
    c.appId == 0 && !c.action && p.packets.Some? && p.packets.value <= MAX_DPI_PKT_NUM && p.payloadReadable
  }

  /** The connection after the packet. */
  function Next(c: Conn, p: Packet): Conn {
    if RunsDpi(c, p) then
      var seen := p.inspect(c.status.hello);
      var status := c.status.(hello := seen.clientHello);
      match seen.hit
      case None => Conn(0, MacRuleDrops(p), status)
      case Some(f) =>
        Conn(f.appId, AppRuleDrops(p, f.appId) || MacRuleDrops(p),
             if f.appId >= 1000 && f.ignore then status.(ignore := true) else status)
    else if Managed(c.appId) && InRuleWindow(p) then c.(action := AppRuleDrops(p, c.appId))
    else c
  }

  /** The visit recorder call of the packet, if it makes one. */
  function VisitOf(c: Conn, p: Packet): Option<VisitCall> {
    if !p.rules.record then None
    else if RunsDpi(c, p) then
      var seen := p.inspect(c.status.hello);
      match seen.hit
      case None => Some(VisitCall(0, Next(c, p).action, false, seen.isHttp))
      case Some(f) =>
        if f.appId < 1000 || f.ignore then None
        else Some(VisitCall(f.appId, Next(c, p).action, false, seen.isHttp))
    else if Managed(c.appId) && !c.status.ignore then Some(VisitCall(c.appId, Next(c, p).action, true, false))
    else None
  }

  function NextVisits(v: Visits, c: Conn, p: Packet): Visits {
    match VisitOf(c, p)
    case None => v
    case Some(call) => Recorded(v, call, p)
  }

  /** The per-connection state, updated in place. */
  class Connection {
    var appId: U32
    var action: bool
    var matchStatus: Status

    function State(): Conn
      reads this
    {
      Conn(appId, action, matchStatus)
    }

    constructor ()
      ensures State() == FRESH
    {
      appId, action, matchStatus := 0, false, Status(false, false);
    }

    /** Whether the stored action has to be flipped to agree with the present rules. */
    method ActionChanged(ctAction: bool, app: U32, p: Packet) returns (changed: bool)
      ensures changed <==> InRuleWindow(p) && AppRuleDrops(p, app) != ctAction
    {
      changed := false;
      var interval := (p.jiffies - p.rules.updateJiffies) % WORD;
      if interval < (30 * HZ) % WORD {
        if AppRuleDrops(p, app) {
          if !ctAction {
            changed := true;
          }
        } else if ctAction {
          changed := true;
        }
      }
    }

    /** The last stage, for a connection that is neither classified nor blocked: inspection, signature
        match, the two rule tables and the records. */
    method Inspect(client: Client, p: Packet) returns (verdict: Verdict, touchApp: bool, touchHost: bool)
      requires RunsDpi(State(), p)
      modifies this, client
      ensures State() == Next(old(State()), p)
      ensures verdict == Drop <==> action
      ensures client.visits == NextVisits(old(client.visits), old(State()), p)
      ensures touchHost <==> p.rules.record
      ensures touchApp <==> touchHost && VisitOf(old(State()), p).Some? && appId > 0
    {
      var clientHello := false;
      if matchStatus.hello {
        clientHello := true;
      }
      var seen := p.inspect(clientHello);
      if seen.clientHello {
        matchStatus := matchStatus.(hello := true);
      } else {
        matchStatus := matchStatus.(hello := false);
      }
      touchApp, touchHost := false, false;
      var flowApp: U32, ignore, drop := 0, false, false;
      verdict := Accept;
      if seen.hit.Some? {
        flowApp := seen.hit.value.appId;
        appId := flowApp;
        if flowApp < 1000 {
          ignore := true;
        } else if seen.hit.value.ignore {
          matchStatus := matchStatus.(ignore := true);
          ignore := true;
        }
        if AppRuleDrops(p, flowApp) {
          drop := true;
          action := true;
          verdict := Drop;
        }
      }
      if verdict != Drop {
        if MacRuleDrops(p) {
          drop := true;
          action := true;
          verdict := Drop;
        }
      }
      if p.rules.record {
        if !ignore {
          var _ := client.UpdateAppInfo(VisitCall(flowApp, drop, false, seen.isHttp), p);
          if flowApp > 0 {
            touchApp := true;
          }
        }
        touchHost := true;
      }
    }

    /** Handles one packet whose client is known.  The verdict is a drop exactly when the action stored
        after the packet is set, whichever of the exits is taken.  `touchApp` and `touchHost` say whether
        the packet goes on to the two most-recently-used lists. */
    method Handle(client: Client, p: Packet) returns (verdict: Verdict, touchApp: bool, touchHost: bool)
      modifies this, client
      ensures State() == Next(old(State()), p)
      ensures verdict == Drop <==> action
      ensures client.visits == NextVisits(old(client.visits), old(State()), p)
      ensures touchHost <==> RunsDpi(old(State()), p) && p.rules.record
      ensures touchApp <==> touchHost && VisitOf(old(State()), p).Some? && appId > 0
    {
      if appId != 0 {
        var app := appId;
        var ctAction := action;
        var ignore := matchStatus.ignore;
        if app > 0 && app < 1000 {
          if p.rules.appFilter && ctAction {
            return Drop, false, false;
          }
        }
        if app > 1000 && app < 32000 {
          var changed := ActionChanged(ctAction, app, p);
          if changed {
            ctAction := !ctAction;
            action := ctAction;
          }
          if p.rules.record {
            if !ignore {
              var _ := client.UpdateAppInfo(VisitCall(app, ctAction, true, false), p);
            }
          }
          if p.rules.appFilter && ctAction {
            return Drop, false, false;
          }
        }
      }
      if action {
        return Drop, false, false;
      }
      if appId != 0 || p.packets == None || p.packets.value > MAX_DPI_PKT_NUM || !p.payloadReadable {
        return Accept, false, false;
      }
      verdict, touchApp, touchHost := Inspect(client, p);
    }
  }
}
