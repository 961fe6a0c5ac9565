/** What every run of packets keeps, for one connection and for all connections together. */
module GatewayRuns {
  import opened Common
  import opened Gateway

  /** The connection after a run of packets. */
  function After(c: Conn, ps: seq<Packet>): Conn {
    if |ps| == 0 then c else Next(After(c, ps[..|ps| - 1]), ps[|ps| - 1])
  }

  lemma {:induction false} AfterConcat(c: Conn, a: seq<Packet>, b: seq<Packet>)
    ensures After(c, a + b) == After(After(c, a), b)
  {
    if |b| == 0 {
      assert a + b == a;
    } else {
      AfterConcat(c, a, b[..|b| - 1]);
      assert (a + b)[..|a + b| - 1] == a + b[..|b| - 1];
    }
  }

  // ---------------------------------------------------------------- classification

  /** A classified connection keeps its application id and its status bits. */
  lemma {:induction false} ClassifiedStays(c: Conn, ps: seq<Packet>)
    requires c.appId != 0
    ensures After(c, ps).appId == c.appId && After(c, ps).status == c.status
  {
    if |ps| == 0 {
    } else {
      ClassifiedStays(c, ps[..|ps| - 1]);
    }
  }

  /** A connection that was blocked before it was classified never changes again. */
  lemma {:induction false} BlockedStays(c: Conn, ps: seq<Packet>)
    requires c.appId == 0 && c.action
    ensures After(c, ps) == c
  {
    if |ps| == 0 {
    } else {
      BlockedStays(c, ps[..|ps| - 1]);
    }
  }

  /** The packet executes the assignment that sets the ignore bit. */
  predicate SetsIgnore(c: Conn, p: Packet) {
    RunsDpi(c, p) && var hit := p.inspect(c.status.hello).hit; hit.Some? && hit.value.appId >= 1000 && hit.value.ignore
  }

  function IgnoreSets(c: Conn, ps: seq<Packet>): nat {
    if |ps| == 0 then 0
    else IgnoreSets(c, ps[..|ps| - 1]) + if SetsIgnore(After(c, ps[..|ps| - 1]), ps[|ps| - 1]) then 1 else 0
  }

  /** In the life of a connection the ignore bit is set at most once, and only together with an id from 1000 on. */
  lemma {:induction false} IgnoreSetOnce(ps: seq<Packet>)
    ensures IgnoreSets(FRESH, ps) <= 1
    ensures IgnoreSets(FRESH, ps) == 1 <==> After(FRESH, ps).status.ignore
    ensures After(FRESH, ps).status.ignore ==> After(FRESH, ps).appId >= 1000
  {
    if |ps| == 0 {
    } else {
      IgnoreSetOnce(ps[..|ps| - 1]);
    }
  }

  // ---------------------------------------------------------------- inspection budget

  /** Accounting counts every packet of the connection once more. */
  predicate Increasing(ps: seq<Packet>) {
    forall i, j :: 0 <= i < j < |ps| && ps[i].packets.Some? && ps[j].packets.Some? ==>
      ps[i].packets.value < ps[j].packets.value
  }

  function DpiRuns(c: Conn, ps: seq<Packet>): nat {
    if |ps| == 0 then 0
    else DpiRuns(c, ps[..|ps| - 1]) + if RunsDpi(After(c, ps[..|ps| - 1]), ps[|ps| - 1]) then 1 else 0
  }

  /** When the inspections so far number n > 0, some packet had an accounting total of at least n - 1 within the budget. */
  lemma {:induction false} DpiRunWitness(c: Conn, ps: seq<Packet>) returns (k: nat)
    requires Increasing(ps) && DpiRuns(c, ps) > 0
    ensures k < |ps| && ps[k].packets.Some?
    ensures DpiRuns(c, ps) - 1 <= ps[k].packets.value <= MAX_DPI_PKT_NUM
  {
    var n := |ps| - 1;
    if RunsDpi(After(c, ps[..n]), ps[n]) {
      k := n;
      if DpiRuns(c, ps[..n]) > 0 {
        var j := DpiRunWitness(c, ps[..n]);
        assert ps[..n][j] == ps[j];
      }
    } else {
      k := DpiRunWitness(c, ps[..n]);
      assert ps[..n][k] == ps[k];
    }
  }

  lemma DpiBudget(c: Conn, ps: seq<Packet>)
    requires Increasing(ps)
    ensures DpiRuns(c, ps) <= MAX_DPI_PKT_NUM + 1
  {
    if DpiRuns(c, ps) > 0 {
      var k := DpiRunWitness(c, ps);
    }
  }

  /** Once the accounting total has passed the budget, id and status bits are final. */
  lemma {:induction false} BudgetFreezes(c: Conn, ps: seq<Packet>, k: nat, n: nat)
    requires Increasing(ps) && k < n <= |ps|
    requires ps[k].packets.Some? && ps[k].packets.value > MAX_DPI_PKT_NUM
    ensures After(c, ps[..n]).appId == After(c, ps[..k]).appId
    ensures After(c, ps[..n]).status == After(c, ps[..k]).status
    decreases n
  {
    assert ps[..n][..n - 1] == ps[..n - 1];
    if k < n - 1 {
      BudgetFreezes(c, ps, k, n - 1);
    }
  }

  // ---------------------------------------------------------------- action

  /** The rule decision at the last packet inside a rule window, and `start` when there was none. */
  function LastDecision(appId: U32, ps: seq<Packet>, start: bool): bool {
    if |ps| == 0 then start
    else if InRuleWindow(ps[|ps| - 1]) then AppRuleDrops(ps[|ps| - 1], appId)
    else LastDecision(appId, ps[..|ps| - 1], start)
  }

  /** The action of a managed connection follows the application rules, but only through the rule windows;
      any other classified connection keeps the action it was classified with. */
  lemma {:induction false} ActionOfClassified(c: Conn, ps: seq<Packet>)
    requires c.appId != 0
    ensures After(c, ps).action == if Managed(c.appId) then LastDecision(c.appId, ps, c.action) else c.action
  {
    if |ps| == 0 {
    } else {
      ClassifiedStays(c, ps[..|ps| - 1]);
      ActionOfClassified(c, ps[..|ps| - 1]);
    }
  }

  /** A drop is lifted by one kind of packet only, and exactly by that kind. */
  lemma DropLifted(c: Conn, p: Packet)
    requires c.action
    ensures !Next(c, p).action <==> Managed(c.appId) && InRuleWindow(p) && !AppRuleDrops(p, c.appId)
  {
  }

  /** Over a whole run: whenever a connection that dropped accepts again, a packet in between lifted the drop. */
  lemma {:induction false} DropLiftedInRun(c: Conn, ps: seq<Packet>) returns (k: nat)
    requires c.action && !After(c, ps).action
    ensures k < |ps| && After(c, ps[..k]).action && !After(c, ps[..k + 1]).action
    ensures Managed(c.appId) && InRuleWindow(ps[k]) && !AppRuleDrops(ps[k], c.appId)
  {
    var n := |ps| - 1;
    if After(c, ps[..n]).action {
      k := n;
      if c.appId == 0 {
        BlockedStays(c, ps);
      }
      ClassifiedStays(c, ps[..n]);
      assert ps[..n + 1] == ps;
    } else {
      k := DropLiftedInRun(c, ps[..n]);
      assert ps[..n][..k] == ps[..k] && ps[..n][..k + 1] == ps[..k + 1];
    }
  }

  /** A packet in the rule window while no rule is enabled. */
  lemma LiftingPacket() returns (p: Packet)
    requires 30 * HZ % WORD > 0
    ensures InRuleWindow(p) && forall app :: !AppRuleDrops(p, app)
  {
    var noMac: Mac -> bool, noRule: (U32, Mac) -> bool := _ => false, (_, _) => false;
    var rules := Rules(false, false, false, 0, noMac, noRule, noMac, noMac);
    p := Packet([0, 0, 0, 0, 0, 0], rules, 0, 0, None, false, _ => Inspection(false, false, None), true);
  }

  /** A drop is final, over every run that can follow, exactly when the id is not a managed one (so also for an
      unclassified connection), or when the rule window is empty. */
  lemma DropFinal(c: Conn)
    requires c.action
    ensures (forall ps :: After(c, ps).action) <==> !Managed(c.appId) || 30 * HZ % WORD == 0
  {
    if Managed(c.appId) && 30 * HZ % WORD > 0 {
      var p := LiftingPacket();
      assert After(c, [p][..0]) == c;
      assert !After(c, [p]).action;
    } else {
      forall ps ensures After(c, ps).action {
        if !After(c, ps).action {
          var k := DropLiftedInRun(c, ps);
        }
      }
    }
  }

  /** Once the connection is classified, handling the same packet again leaves it as it is; but the packet makes the
      same call of the visit recorder again, so a recorded visit is counted once more. */
  lemma SecondPacketIdle(c: Conn, p: Packet)
    requires c.appId != 0
    ensures Next(Next(c, p), p) == Next(c, p) && VisitOf(Next(c, p), p) == VisitOf(c, p)
    ensures VisitOf(c, p).Some? && p.allocOk ==>
              var v := Recorded(map[], VisitOf(c, p).value, p); var w := NextVisits(v, Next(c, p), p);
              c.appId in v && c.appId in w && w[c.appId].totalNum == v[c.appId].totalNum + 1
  {
  }

  /** While less than 2^32 ticks have passed since the update, the window is the first 30 seconds and nothing else;
      in general it opens again every 2^32 ticks. */
  lemma WindowInTime(p: Packet)
    requires p.rules.updateJiffies <= p.jiffies && 30 * HZ < WORD
    ensures p.jiffies - p.rules.updateJiffies < WORD ==>
              (InRuleWindow(p) <==> p.jiffies - p.rules.updateJiffies < 30 * HZ)
    ensures InRuleWindow(p) <==>
              exists k: nat :: k * WORD <= p.jiffies - p.rules.updateJiffies < k * WORD + 30 * HZ
  {
    var d := p.jiffies - p.rules.updateJiffies;
    assert d == (d / WORD) * WORD + d % WORD;
    if k: nat :| k * WORD <= d < k * WORD + 30 * HZ {
      assert d / WORD == k;
    }
  }

  // ---------------------------------------------------------------- many connections, shared clients

  datatype Event =
    | Arrive(conn: nat, p: Packet)
    | Expire(client: Mac, seconds: U32)
    | Leave(client: Mac)

  datatype System = System(conns: map<nat, Conn>, clients: map<Mac, Visits>)

  function ConnOf(s: System, k: nat): Conn { if k in s.conns then s.conns[k] else FRESH }

  function VisitsOf(s: System, m: Mac): Visits { if m in s.clients then s.clients[m] else map[] }

  function StepSystem(s: System, e: Event): System {
    match e
    case Arrive(k, p) =>
      System(s.conns[k := Next(ConnOf(s, k), p)],
             s.clients[p.mac := NextVisits(VisitsOf(s, p.mac), ConnOf(s, k), p)])
    case Expire(m, seconds) => s.(clients := s.clients[m := Unexpired(VisitsOf(s, m), seconds)])
    case Leave(m) => s.(clients := s.clients - {m})
  }

  function Run(es: seq<Event>): System {
    if |es| == 0 then System(map[], map[]) else StepSystem(Run(es[..|es| - 1]), es[|es| - 1])
  }

  /** The event classifies a connection as `app` for the client `m`. */
  predicate Classifies(s: System, e: Event, m: Mac, app: U32) {
    e.Arrive? && e.p.mac == m && ConnOf(s, e.conn).appId == 0 && Next(ConnOf(s, e.conn), e.p).appId == app != 0
  }

  /** The connections whose classifying packet gave them this application while they belonged to this client. */
  ghost function ClassifiedAs(es: seq<Event>, m: Mac, app: U32): set<nat> {
    if |es| == 0 then {}
    else
      var before := Run(es[..|es| - 1]);
      var e := es[|es| - 1];
      ClassifiedAs(es[..|es| - 1], m, app) + if Classifies(before, e, m, app) then {e.conn} else {}
  }

  lemma {:induction false} ClassifiedForGood(es: seq<Event>, m: Mac, app: U32)
    ensures forall k | k in ClassifiedAs(es, m, app) ::
              k in Run(es).conns && Run(es).conns[k].appId == app && app != 0
  {
    if |es| == 0 {
    } else {
      ClassifiedForGood(es[..|es| - 1], m, app);
    }
  }

  /** No connection is classified twice, not even for two clients or two applications. */
  lemma {:induction false} ClassifiedOnce(es: seq<Event>, m: Mac, app: U32, m': Mac, app': U32)
    requires (m, app) != (m', app')
    ensures ClassifiedAs(es, m, app) !! ClassifiedAs(es, m', app')
  {
    if |es| == 0 {
    } else {
      ClassifiedOnce(es[..|es| - 1], m, app, m', app');
      ClassifiedForGood(es[..|es| - 1], m, app);
      ClassifiedForGood(es[..|es| - 1], m', app');
    }
  }

  /** One packet raises a connection counter by at most one, and only while it classifies its connection. */
  lemma CountStep(v: Visits, c: Conn, p: Packet, app: U32)
    ensures ConnCount(NextVisits(v, c, p), app) <= ConnCount(v, app) + 1
    ensures ConnCount(NextVisits(v, c, p), app) > ConnCount(v, app) ==> c.appId == 0 && Next(c, p).appId == app != 0
  {
  }

  /** Every event raises a counter by at most one, and only when it classifies a connection. */
  lemma EventStep(s: System, e: Event, m: Mac, app: U32)
    ensures ConnCount(VisitsOf(StepSystem(s, e), m), app) <=
            ConnCount(VisitsOf(s, m), app) + if Classifies(s, e, m, app) then 1 else 0
  {
    match e
    case Arrive(k, p) => CountStep(VisitsOf(s, p.mac), ConnOf(s, k), p, app);
    case Expire(m', seconds) =>
    case Leave(m') =>
  }

  /** In every reachable state, through expiry and removal, the connection counter of a visit record is at most
      the number of connections that were classified as that application for that client. */
  lemma {:induction false} ConnCountBound(es: seq<Event>, m: Mac, app: U32)
    ensures ConnCount(VisitsOf(Run(es), m), app) <= |ClassifiedAs(es, m, app)|
  {
    if |es| == 0 {
    } else {
      var init, e := es[..|es| - 1], es[|es| - 1];
      ConnCountBound(init, m, app);
      ClassifiedForGood(init, m, app);
      EventStep(Run(init), e, m, app);
    }
  }

  ghost function ConnsWith(s: System, app: U32): set<nat> {
    set k | k in s.conns && s.conns[k].appId == app
  }

  /** The same bound in terms of the present state alone. */
  lemma ConnCountBoundNow(es: seq<Event>, m: Mac, app: U32)
    ensures ConnCount(VisitsOf(Run(es), m), app) <= |ConnsWith(Run(es), app)|
  {
    ConnCountBound(es, m, app);
    ClassifiedForGood(es, m, app);
    SubsetSize(ClassifiedAs(es, m, app), ConnsWith(Run(es), app));
  }

  /** The packet makes the visit recorder count one more connection. */
  predicate CountsConn(c: Conn, p: Packet) {
    VisitOf(c, p).Some? && !VisitOf(c, p).value.fromConntrack && Recordable(VisitOf(c, p).value.appId)
  }

  function TimesCounted(es: seq<Event>, k: nat): nat {
    if |es| == 0 then 0
    else
      var e := es[|es| - 1];
      TimesCounted(es[..|es| - 1], k) +
      if e.Arrive? && e.conn == k && CountsConn(ConnOf(Run(es[..|es| - 1]), k), e.p) then 1 else 0
  }

  /** A connection is counted at most once in its whole life, whatever the other connections do. */
  lemma {:induction false} CountedOnce(es: seq<Event>, k: nat)
    ensures TimesCounted(es, k) <= 1
    ensures TimesCounted(es, k) == 1 ==> ConnOf(Run(es), k).appId != 0
  {
    if |es| == 0 {
    } else {
      CountedOnce(es[..|es| - 1], k);
    }
  }

  lemma {:induction false} SubsetSize<T>(a: set<T>, b: set<T>)
    requires a <= b
    ensures |a| <= |b|
  {
    if a == {} {
    } else {
      var x :| x in a;
      SubsetSize(a - {x}, b - {x});
    }
  }
}
