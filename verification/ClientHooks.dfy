/** The client table as objects in bucket lists: the searches, the two packet hooks and the expiry sweep. */
module ClientHooks {
  import opened Common
  import opened Bits
  import opened ClientTable

  class ClientInfo {
    const mac: Mac
    var ip: U32
    var ip6: Ip6
    var upBytes: nat
    var downBytes: nat
    var upPkts: nat
    var downPkts: nat
    var updateJiffies: nat

    constructor (mac: Mac, jiffies: nat)
      ensures Data() == NewClient(mac, jiffies)
    {
      this.mac := mac;
      ip, ip6, updateJiffies := 0, 0, jiffies;
      upBytes, downBytes, upPkts, downPkts := 0, 0, 0, 0;
    }

    function Data(): Client
      reads this
    {
      Client(mac, ip, ip6, upBytes, downBytes, upPkts, downPkts, updateJiffies)
    }

    method SeeUp(e: Event)
      requires e.Up?
      modifies this
      ensures Data() == SeenUp(old(Data()), e)
    {
      match e.packet {
        case V4(addr, _) =>
          if ip != addr {
            ip := addr;
          }
        case V6(addr6) =>
          if ip6 != addr6 {
            ip6 := addr6;
          }
        case OtherProtocol =>
      }
      var skip := e.packet.V4? && e.packet.excluded;
      if !skip {
        upBytes := upBytes + e.len;
        upPkts := upPkts + 1;
      }
      updateJiffies := e.jiffies;
    }

    method Refresh(jiffies: nat)
      modifies this
      ensures Data() == Refreshed(old(Data()), jiffies)
    {
      updateJiffies := jiffies;
    }

    method SeeDown(e: Event)
      requires e.Down?
      modifies this
      ensures Data() == SeenDown(old(Data()), e)
    {
      var skip := e.packet.V4? && e.packet.excluded;
      if !skip {
        downBytes := downBytes + e.len;
        downPkts := downPkts + 1;
      }
      updateJiffies := e.jiffies;
    }
  }

  ghost function ViewBucket(s: seq<ClientInfo>): (v: seq<Client>)
    reads s
    ensures |v| == |s| && forall j :: 0 <= j < |s| ==> v[j] == s[j].Data()
  {
    if |s| == 0 then [] else ViewBucket(s[..|s| - 1]) + [s[|s| - 1].Data()]
  }

  ghost function Members(bs: seq<seq<ClientInfo>>): set<ClientInfo> {
    set i, j | 0 <= i < |bs| && 0 <= j < |bs[i]| :: bs[i][j]
  }

  ghost function ViewAll(bs: seq<seq<ClientInfo>>): (v: Buckets)
    reads Members(bs)
    ensures |v| == |bs| && forall i :: 0 <= i < |bs| ==> |v[i]| == |bs[i]|
    ensures forall i, j :: 0 <= i < |bs| && 0 <= j < |bs[i]| ==> v[i][j] == bs[i][j].Data()
  {
    if |bs| == 0 then []
    else
      ViewAll(bs[..|bs| - 1]) + [ViewBucket(bs[|bs| - 1])]
  }

  /** Two views with the same clients at the same places are equal. */
  lemma SameView(a: Buckets, b: Buckets)
    requires |a| == |b| && forall i :: 0 <= i < |a| ==> |a[i]| == |b[i]|
    requires forall i, j :: 0 <= i < |a| && 0 <= j < |a[i]| ==> a[i][j] == b[i][j]
    ensures a == b
  {
    forall i | 0 <= i < |a| ensures a[i] == b[i] {
    }
  }

  class Table {
    const buckets: array<seq<ClientInfo>>
    var totalClient: nat

    ghost function View(): (v: Buckets)
      reads buckets, Members(buckets[..])
      ensures |v| == buckets.Length && forall i :: 0 <= i < buckets.Length ==> |v[i]| == |buckets[i]|
      ensures forall i, j :: 0 <= i < buckets.Length && 0 <= j < |buckets[i]| ==> v[i][j] == buckets[i][j].Data()
    {
      ViewAll(buckets[..])
    }

    ghost predicate Valid()
      reads buckets, Members(buckets[..])
    {
      WellFormed(View())
    }

    constructor ()
      ensures Valid() && totalClient == 0 && fresh(buckets) && buckets.Length == Pow2(HASH_BITS)
      ensures forall i :: 0 <= i < buckets.Length ==> buckets[i] == []
    {
      buckets := new seq<ClientInfo>[Pow2(HASH_BITS)](_ => []);
      totalClient := 0;
    }

    method FindByMac(mac: Mac) returns (c: ClientInfo?, ghost j: nat)
      requires Valid()
      ensures j == FirstIndex(View()[HashOf(mac)], HasMac(mac))
      ensures c == null <==> Lookup(View(), mac).None?
      ensures if j < |buckets[HashOf(mac)]| then c == buckets[HashOf(mac)][j] else c == null
    {
      var index := HashOf(mac);
      ghost var s := View()[index];
      for k := 0 to |buckets[index]|
        invariant k <= FirstIndex(s, HasMac(mac))
      {
        var node := buckets[index][k];
        assert s[k] == node.Data();
        if node.mac == mac {
          assert HasMac(mac)(s[k]);
          return node, k;
        }
        assert !HasMac(mac)(s[k]);
      }
      return null, |buckets[index]|;
    }

    /** The first client in table order with this IPv4 address. */
    method FindByIp(ip: U32) returns (c: ClientInfo?)
      ensures var place := FirstPlace(View(), 0, HasIp(ip));
              if place.Some? then c == buckets[place.value.0][place.value.1] else c == null
    {
      hide ViewAll;
      ghost var v := View();
      for i := 0 to buckets.Length
        invariant FirstPlace(v, 0, HasIp(ip)) == FirstPlace(v, i, HasIp(ip))
      {
        for k := 0 to |buckets[i]|
          invariant k <= FirstIndex(v[i], HasIp(ip))
        {
          var node := buckets[i][k];
          assert v[i][k] == node.Data();
          if node.ip == ip {
            assert HasIp(ip)(v[i][k]);
            return node;
          }
          assert !HasIp(ip)(v[i][k]);
        }
      }
      return null;
    }

    /** The same for IPv6. */
    method FindByIp6(ip6: Ip6) returns (c: ClientInfo?)
      ensures var place := FirstPlace(View(), 0, HasIp6(ip6));
              if place.Some? then c == buckets[place.value.0][place.value.1] else c == null
    {
      hide ViewAll;
      ghost var v := View();
      for i := 0 to buckets.Length
        invariant FirstPlace(v, 0, HasIp6(ip6)) == FirstPlace(v, i, HasIp6(ip6))
      {
        for k := 0 to |buckets[i]|
          invariant k <= FirstIndex(v[i], HasIp6(ip6))
        {
          var node := buckets[i][k];
          assert v[i][k] == node.Data();
          if node.ip6 == ip6 {
            assert HasIp6(ip6)(v[i][k]);
            return node;
          }
          assert !HasIp6(ip6)(v[i][k]);
        }
      }
      return null;
    }

    /** Links a client at the front of a bucket. */
    method Link(c: ClientInfo, h: nat)
      requires h < buckets.Length
      modifies buckets
      ensures buckets[h] == [c] + old(buckets[h]) && forall i :: 0 <= i < buckets.Length && i != h ==> buckets[i] == old(buckets[i])
      ensures View() == old(View())[h := [c.Data()] + old(View())[h]]
    {
      ghost var v: Buckets := View();
      buckets[h] := [c] + buckets[h];
      ghost var w := v[h := [c.Data()] + v[h]];
      forall j | 0 <= j < |buckets[h]| ensures View()[h][j] == w[h][j] {
        assert View()[h][j] == buckets[h][j].Data();
      }
      SameView(View(), w);
    }

    /** The client of this address; a new one goes to the front of its bucket and is counted. */
    method FindAndAdd(mac: Mac, jiffies: nat, allocOk: bool) returns (c: ClientInfo?, ghost j: nat)
      requires Valid()
      modifies this, buckets
      ensures Valid() && View() == WithClient(old(View()), mac, jiffies, allocOk)
      ensures totalClient == old(totalClient) + if Lookup(old(View()), mac).None? && allocOk then 1 else 0
      ensures j == FirstIndex(View()[HashOf(mac)], HasMac(mac))
      ensures if j < |buckets[HashOf(mac)]| then c == buckets[HashOf(mac)][j] else c == null
      ensures c != null ==> c in old(Members(buckets[..])) || fresh(c)
    {
      hide HashOf, FirstIndex, DistinctMacs, BucketOk, ViewAll;
      ghost var v := View();
      c, j := FindByMac(mac);
      SameView(View(), v);
      WithClientOk(v, mac, jiffies, allocOk);
      if c == null && allocOk {
        c := new ClientInfo(mac, jiffies);
        totalClient := totalClient + 1;
        SameView(View(), v);
        Link(c, HashOf(mac));
        assert View() == WithClient(v, mac, jiffies, allocOk);
        j := 0;
        assert HasMac(mac)(View()[HashOf(mac)][0]);
      }
    }

    /** A packet reaches the client at a place of the table. */
    method Update(c: ClientInfo, e: Event, ghost i: nat, ghost j: nat)
      requires (e.Up? || e.Down? || e.Refresh?) && Valid() && i < buckets.Length && j < |buckets[i]| && c == buckets[i][j]
      modifies c
      ensures View() == Put(old(View()), i, j, if e.Up? then SeenUp(old(c.Data()), e)
                                               else if e.Down? then SeenDown(old(c.Data()), e)
                                               else Refreshed(old(c.Data()), e.jiffies))
    {
      ghost var v := View();
      if e.Up? {
        c.SeeUp(e);
      } else if e.Down? {
        c.SeeDown(e);
      } else {
        c.Refresh(e.jiffies);
      }
      OtherPlaces(v, c, i, j);
    }

    /** Where every other client still holds what a view says, the new view differs at one place. */
    lemma OtherPlaces(v: Buckets, c: ClientInfo, i: nat, j: nat)
      requires WellFormed(v) && i < buckets.Length && j < |buckets[i]| && c == buckets[i][j]
      requires |v| == buckets.Length && forall i' :: 0 <= i' < buckets.Length ==> |v[i']| == |buckets[i']|
      requires forall i', j' :: 0 <= i' < buckets.Length && 0 <= j' < |buckets[i']| ==>
                 v[i'][j'].mac == buckets[i'][j'].mac && (buckets[i'][j'] != c ==> v[i'][j'] == buckets[i'][j'].Data())
      ensures View() == Put(v, i, j, c.Data())
    {
      forall i', j' | 0 <= i' < buckets.Length && 0 <= j' < |buckets[i']| && (i', j') != (i, j)
        ensures buckets[i'][j'] != c
      {
      }
      SameView(View(), Put(v, i, j, c.Data()));
    }

    /** The hook for packets from the LAN side. */
    method UpHook(e: Event)
      requires e.Up? && Valid()
      modifies this, buckets, Members(buckets[..])
      ensures Valid() && View() == Step(old(View()), e)
      ensures totalClient == old(totalClient) + if Lookup(old(View()), e.mac).None? && e.allocOk then 1 else 0
    {
      hide HashOf, FirstIndex, DistinctMacs, BucketOk, ViewAll, SeenUp;
      StepOk(View(), e);
      WithClientOk(View(), e.mac, e.jiffies, e.allocOk);
      var c, j := FindAndAdd(e.mac, e.jiffies, e.allocOk);
      if c != null {
        assert View()[HashOf(e.mac)][j] == c.Data();
        Update(c, e, HashOf(e.mac), j);
      }
    }

    /** The hook for packets towards the LAN side. */
    method DownHook(e: Event)
      requires e.Down? && Valid()
      modifies Members(buckets[..])
      ensures Valid() && View() == Step(old(View()), e) && totalClient == old(totalClient)
    {
      hide HashOf, FirstIndex, FirstPlace, DistinctMacs, BucketOk, ViewAll, SeenDown;
      ghost var v := View();
      StepOk(v, e);
      var c: ClientInfo?;
      match e.packet {
        case V4(addr, _) => c := FindByIp(addr);
        case V6(addr6) => c := FindByIp6(addr6);
        case OtherProtocol => c := null;
      }
      SameView(View(), v);
      if c != null {
        ghost var (i, j) := DownPlace(v, e.packet).value;
        assert v[i][j] == c.Data();
        assert c == buckets[..][i][j];
        Update(c, e, i, j);
      }
    }

    /** The gateway hook finds the client behind a packet by its source address and refreshes it. */
    method RefreshHook(e: Event) returns (c: ClientInfo?)
      requires e.Refresh? && Valid()
      modifies Members(buckets[..])
      ensures Valid() && View() == Step(old(View()), e) && totalClient == old(totalClient)
      ensures c == null <==> SourcePlace(old(View()), e.src, e.src6).None?
    {
      hide HashOf, FirstIndex, FirstPlace, DistinctMacs, BucketOk, ViewAll, Refreshed;
      ghost var v := View();
      StepOk(v, e);
      c := null;
      if e.src != 0 {
        c := FindByIp(e.src);
      } else if e.src6.Some? {
        c := FindByIp6(e.src6.value);
      }
      SameView(View(), v);
      if c != null {
        ghost var (i, j) := SourcePlace(v, e.src, e.src6).value;
        assert v[i][j] == c.Data();
        assert c == buckets[..][i][j];
        Update(c, e, i, j);
      }
    }

    /** Takes a client out of its bucket. */
    method Unlink(i: nat, k: nat)
      requires i < buckets.Length && k < |buckets[i]|
      modifies buckets
      ensures View() == Drop(old(View()), i, k)
    {
      ghost var v, s := View(), buckets[i];
      buckets[i] := buckets[i][..k] + buckets[i][k + 1..];
      SameView(View(), Drop(v, i, k));
    }

    /** Removes the first expired client, if any, and stops. */
    method CheckExpire(jiffies: nat)
      requires Valid()
      modifies buckets
      ensures Valid() && View() == Step(old(View()), Sweep(jiffies)) && totalClient == old(totalClient)
    {
      hide WellFormed, Drop;
      ghost var v := View();
      StepOk(v, Sweep(jiffies));
      for i := 0 to buckets.Length
        invariant unchanged(buckets)
        invariant FirstPlace(v, 0, IsExpired(jiffies)) == FirstPlace(v, i, IsExpired(jiffies))
      {
        for k := 0 to |buckets[i]|
          invariant unchanged(buckets)
          invariant k <= FirstIndex(v[i], IsExpired(jiffies))
        {
          var node := buckets[i][k];
          assert v[i][k] == node.Data();
          if jiffies > (node.updateJiffies + MAX_CLIENT_ACTIVE_TIME * HZ) % ULONG_MODULUS {
            assert IsExpired(jiffies)(v[i][k]);
            Unlink(i, k);
            return;
          }
          assert !IsExpired(jiffies)(v[i][k]);
        }
      }
    }
  }

}
