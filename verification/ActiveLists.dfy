/** The active-application list and the active-host list, as instances of the bounded list. */
module ActiveLists {
  import opened Common
  import opened RecentList

  const MAX_ACTIVE_APP_LIST_SIZE: Capacity
  const MAX_ACTIVE_HOST_LIST_SIZE: Capacity

  type Capacity = n: nat | n >= 1 witness 1

  /** What inspection found in a flow; a slice is None when its position was never set. */
  datatype Flow = Flow(
    appId: U32, mac: Mac, srcIp: U32, dstIp: U32, src6: Option<Ip6>, dst6: Option<Ip6>,
    srcPort: nat, dstPort: nat, l4Protocol: nat, drop: bool,
    httpMatch: bool, httpHost: Option<Bytes>, httpUrl: Option<Bytes>,
    httpsMatch: bool, httpsUrl: Option<Bytes>, time: nat, allocOk: bool)

  datatype Detail = Detail(
    mac: Mac, srcIp: U32, dstIp: U32, srcPort: nat, dstPort: nat, l4Protocol: nat, drop: bool,
    protoType: nat, host: Bytes, uri: Bytes, time: nat)

  /** A byte buffer read as a C string. */
  function CString(b: Bytes): (s: Bytes)
    ensures s <= b && 0 !in s && (|s| < |b| ==> b[|s|] == 0)
  {
    if |b| == 0 || b[0] == 0 then [] else [b[0]] + CString(b[1..])
  }

  predicate Present(slice: Option<Bytes>) { slice.Some? && |slice.value| > 0 }

  /** At most `max` bytes of a slice, stored with a terminator. */
  function Cut(slice: Option<Bytes>, max: nat): Bytes {
    if !Present(slice) then [] else CString(if |slice.value| > max then slice.value[..max] else slice.value)
  }

  function AppDetail(f: Flow): Detail {
    var d := Detail(f.mac, f.srcIp, f.dstIp, f.srcPort, f.dstPort, f.l4Protocol, f.drop, 0, [], [], f.time);
    if f.httpMatch then d.(protoType := 1, host := Cut(f.httpHost, 31), uri := Cut(f.httpUrl, 31))
    else if f.httpsMatch then d.(protoType := 2, host := Cut(f.httpsUrl, 31))
    else d
  }

  /** The host a flow is filed under. */
  function HostKey(f: Flow): Option<Bytes> {
    if f.httpMatch && Present(f.httpHost) then Some(Cut(f.httpHost, 63))
    else if f.httpsMatch && Present(f.httpsUrl) then Some(Cut(f.httpsUrl, 63))
    else None
  }

  function HostDetail(f: Flow): Detail {
    Detail(f.mac, f.srcIp, f.dstIp, f.srcPort, f.dstPort, f.l4Protocol, f.drop,
           if f.httpMatch then 1 else if f.httpsMatch then 2 else 0, [], [], f.time)
  }

  /** The sighting a flow makes in a list, if it has a key. */
  function AppSighting(f: Flow): Option<Sighting<U32, Detail>> {
    if f.appId == 0 then None else Some(Sighting(f.appId, AppDetail(f), f.src6, f.dst6, f.allocOk))
  }

  function HostSighting(f: Flow): Option<Sighting<Bytes, Detail>> {
    if HostKey(f) == None then None else Some(Sighting(HostKey(f).value, HostDetail(f), f.src6, f.dst6, f.allocOk))
  }

  class ActiveLists {
    const apps: BoundedList<U32, Detail>
    const hosts: BoundedList<Bytes, Detail>
    ghost var flowsOfApps: seq<Flow>
    ghost var flowsOfHosts: seq<Flow>

    /** Both lists are what their histories of flows make of empty lists. */
    ghost predicate Valid()
      reads this, apps, hosts
    {
      && apps.cap == MAX_ACTIVE_APP_LIST_SIZE && hosts.cap == MAX_ACTIVE_HOST_LIST_SIZE
      && apps as object != hosts as object
      && apps.list == ListAfter(apps.cap, Gather(flowsOfApps, AppSighting))
      && hosts.list == ListAfter(hosts.cap, Gather(flowsOfHosts, HostSighting))
    }

    constructor ()
      ensures Valid() && flowsOfApps == flowsOfHosts == []
      ensures fresh(apps) && fresh(hosts)
    {
      apps := new BoundedList<U32, Detail>(MAX_ACTIVE_APP_LIST_SIZE);
      hosts := new BoundedList<Bytes, Detail>(MAX_ACTIVE_HOST_LIST_SIZE);
      flowsOfApps, flowsOfHosts := [], [];
    }

    method UpdateApps(f: Flow)
      requires Valid()
      modifies this, apps
      ensures Valid() && flowsOfApps == old(flowsOfApps) + [f] && flowsOfHosts == old(flowsOfHosts)
    {
      GatherAppend(flowsOfApps, f, AppSighting);
      ghost var h := Gather(flowsOfApps, AppSighting);
      flowsOfApps := flowsOfApps + [f];
      if f.appId == 0 {
        return;
      }
      var s := Sighting(f.appId, AppDetail(f), f.src6, f.dst6, f.allocOk);
      apps.Update(s);
    }

    method UpdateHosts(f: Flow)
      requires Valid()
      modifies this, hosts
      ensures Valid() && flowsOfHosts == old(flowsOfHosts) + [f] && flowsOfApps == old(flowsOfApps)
    {
      GatherAppend(flowsOfHosts, f, HostSighting);
      ghost var h := Gather(flowsOfHosts, HostSighting);
      flowsOfHosts := flowsOfHosts + [f];
      if !f.httpMatch && !f.httpsMatch {
        return;
      }
      var host: Bytes;
      if f.httpMatch && Present(f.httpHost) {
        host := Cut(f.httpHost, 63);
      } else if f.httpsMatch && Present(f.httpsUrl) {
        host := Cut(f.httpsUrl, 63);
      } else {
        return;
      }
      var s := Sighting(host, HostDetail(f), f.src6, f.dst6, f.allocOk);
      hosts.Update(s);
    }

    /** As long as there was memory, the objects show the most recent distinct ids and hosts, latest first. */
    lemma ListsShown()
      requires Valid()
      ensures (forall f :: f in flowsOfApps ==> f.allocOk) ==>
                MostRecent(Keys(apps.list), Gather(flowsOfApps, NonzeroId), MAX_ACTIVE_APP_LIST_SIZE)
      ensures (forall f :: f in flowsOfHosts ==> f.allocOk) ==>
                MostRecent(Keys(hosts.list), Gather(flowsOfHosts, HostKey), MAX_ACTIVE_HOST_LIST_SIZE)
    {
      hide MostRecent, Gather;
      if forall f :: f in flowsOfApps ==> f.allocOk {
        ActiveAppsAreMostRecent(flowsOfApps);
      }
      if forall f :: f in flowsOfHosts ==> f.allocOk {
        ActiveHostsAreMostRecent(flowsOfHosts);
      }
    }
  }

  // ---------------------------------------------------------------- what the lists show

  function NonzeroId(f: Flow): Option<U32> { if f.appId == 0 then None else Some(f.appId) }

  /** Selecting sightings and taking their keys is selecting keys. */
  lemma {:induction false} SelectedKeys<K>(fs: seq<Flow>, pick: Flow -> Option<Sighting<K, Detail>>, key: Flow -> Option<K>)
    requires forall f :: pick(f).Some? == key(f).Some? && (pick(f).Some? ==> pick(f).value.key == key(f).value)
    requires forall f :: pick(f).Some? ==> pick(f).value.allocOk == f.allocOk
    ensures SightedKeys(Gather(fs, pick)) == Gather(fs, key)
    ensures (forall f :: f in fs ==> f.allocOk) ==>
              forall i :: 0 <= i < |Gather(fs, pick)| ==> Gather(fs, pick)[i].allocOk
  {
    if |fs| == 0 {
    } else {
      SelectedKeys(fs[..|fs| - 1], pick, key);
      var h := Gather(fs, pick);
      if pick(fs[|fs| - 1]).Some? {
        assert h[..|h| - 1] == Gather(fs[..|fs| - 1], pick);
      }
    }
  }

  /** After any run of flows the application list holds the most recent distinct nonzero ids, latest first. */
  lemma ActiveAppsAreMostRecent(fs: seq<Flow>)
    requires forall f :: f in fs ==> f.allocOk
    ensures MostRecent(Keys(ListAfter(MAX_ACTIVE_APP_LIST_SIZE, Gather(fs, AppSighting))),
                       Gather(fs, NonzeroId), MAX_ACTIVE_APP_LIST_SIZE)
  {
    SelectedKeys(fs, AppSighting, NonzeroId);
    HistoryMostRecent(MAX_ACTIVE_APP_LIST_SIZE, Gather(fs, AppSighting));
  }

  /** After any run of flows the host list holds the most recent distinct hosts, latest first. */
  lemma ActiveHostsAreMostRecent(fs: seq<Flow>)
    requires forall f :: f in fs ==> f.allocOk
    ensures MostRecent(Keys(ListAfter(MAX_ACTIVE_HOST_LIST_SIZE, Gather(fs, HostSighting))),
                       Gather(fs, HostKey), MAX_ACTIVE_HOST_LIST_SIZE)
  {
    SelectedKeys(fs, HostSighting, HostKey);
    HistoryMostRecent(MAX_ACTIVE_HOST_LIST_SIZE, Gather(fs, HostSighting));
  }

  // ---------------------------------------------------------------- keys and details by their bytes

  /** The copy is the source up to its first zero byte, and at most `max` bytes of it. */
  predicate IsCopy(copy: Bytes, source: Bytes, max: nat) {
    && copy <= source && |copy| <= max && 0 !in copy
    && (|copy| == |source| || |copy| == max || source[|copy|] == 0)
  }

  lemma CutCopies(slice: Option<Bytes>, max: nat)
    ensures if slice.Some? then IsCopy(Cut(slice, max), slice.value, max) else Cut(slice, max) == []
  {
  }

  /** The host of a web request goes before the name of a TLS handshake, and both are filed under at most 63 bytes. */
  lemma HostKeyLaw(f: Flow)
    ensures var web, tls := f.httpMatch && f.httpHost.Some? && |f.httpHost.value| > 0,
                            f.httpsMatch && f.httpsUrl.Some? && |f.httpsUrl.value| > 0;
            && (HostKey(f).Some? <==> web || tls)
            && (web ==> IsCopy(HostKey(f).value, f.httpHost.value, 63))
            && (tls && !web ==> IsCopy(HostKey(f).value, f.httpsUrl.value, 63))
  {
    hide Cut;
    CutCopies(f.httpHost, 63);
    CutCopies(f.httpsUrl, 63);
  }

  /** What both lists copy from a flow. */
  lemma DetailLaw(f: Flow)
    ensures forall d :: d in [AppDetail(f), HostDetail(f)] ==>
              && d.mac == f.mac && d.srcIp == f.srcIp && d.dstIp == f.dstIp && d.srcPort == f.srcPort
              && d.dstPort == f.dstPort && d.l4Protocol == f.l4Protocol && d.drop == f.drop && d.time == f.time
              && d.protoType == if f.httpMatch then 1 else if f.httpsMatch then 2 else 0
    ensures AppSighting(f).Some? ==> AppSighting(f).value.src6 == f.src6 && AppSighting(f).value.dst6 == f.dst6
    ensures HostSighting(f).Some? ==> HostSighting(f).value.src6 == f.src6 && HostSighting(f).value.dst6 == f.dst6
    ensures HostDetail(f).host == HostDetail(f).uri == []
  {
  }

  /** The application list also copies at most 31 bytes of the host, and of the URL of a web request. */
  lemma AppTextLaw(f: Flow)
    ensures var d := AppDetail(f);
            && (f.httpMatch && f.httpHost.Some? ==> IsCopy(d.host, f.httpHost.value, 31))
            && (f.httpMatch && f.httpUrl.Some? ==> IsCopy(d.uri, f.httpUrl.value, 31))
            && (!f.httpMatch && f.httpsMatch && f.httpsUrl.Some? ==> IsCopy(d.host, f.httpsUrl.value, 31) && d.uri == [])
            && (!f.httpMatch && !f.httpsMatch ==> d.host == d.uri == [])
  {
    hide Cut;
    CutCopies(f.httpHost, 31);
    CutCopies(f.httpUrl, 31);
    CutCopies(f.httpsUrl, 31);
  }
}
