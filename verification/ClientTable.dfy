/**
 The client table on values: hash buckets in list order, what every hook does to them, and what every
 run keeps.  The hooks themselves, on objects, are in ClientHooks.
 */
module ClientTable {
  import opened Common
  import opened Bits

  type Modulus = n: nat | n >= 1 witness 1

  /** The table has 2^HASH_BITS buckets; times are unsigned long tick counts. */
  const HASH_BITS: nat
  const MAX_CLIENT_ACTIVE_TIME: nat
  const ULONG_MODULUS: Modulus

  datatype Client = Client(mac: Mac, ip: U32, ip6: Ip6, up: nat, down: nat, upPkts: nat, downPkts: nat, updated: nat)

  type Buckets = seq<seq<Client>>

  /** The bucket of an address: its last byte under the size mask. */
  function HashOf(mac: Mac): (h: nat)
    ensures h < Pow2(HASH_BITS)
  {
    And(mac[5], Pow2(HASH_BITS) - 1)
  }

  lemma HashIsRemainder(mac: Mac)
    ensures HashOf(mac) == mac[5] % Pow2(HASH_BITS)
  {
    AndLowMask(mac[5], HASH_BITS);
    HighIsDivision(mac[5], HASH_BITS);
  }

  predicate DistinctMacs(s: seq<Client>) { forall j, k :: 0 <= j < k < |s| ==> s[j].mac != s[k].mac }

  predicate BucketOk(s: seq<Client>, i: nat) {
    DistinctMacs(s) && forall j :: 0 <= j < |s| ==> HashOf(s[j].mac) == i
  }

  /** Every client is in its bucket, and no address occurs twice. */
  predicate WellFormed(b: Buckets) {
    |b| == Pow2(HASH_BITS) && forall i :: 0 <= i < |b| ==> BucketOk(b[i], i)
  }

  // ---------------------------------------------------------------- searching

  /** The first position that satisfies a condition, the length when there is none. */
  function FirstIndex<T>(s: seq<T>, p: T -> bool): (i: nat)
    ensures i <= |s| && (i < |s| ==> p(s[i])) && forall j :: 0 <= j < i ==> !p(s[j])
  {
    if |s| == 0 || p(s[0]) then 0 else 1 + FirstIndex(s[1..], p)
  }

  /** The first place in table order, bucket by bucket. */
  function FirstPlace(b: Buckets, from: nat, p: Client -> bool): (r: Option<(nat, nat)>)
    requires from <= |b|
    ensures r.Some? ==> from <= r.value.0 < |b| && r.value.1 < |b[r.value.0]| && p(b[r.value.0][r.value.1])
    decreases |b| - from
  {
    if from == |b| then None
    else
      var j := FirstIndex(b[from], p);
      if j < |b[from]| then Some((from, j)) else FirstPlace(b, from + 1, p)
  }

  /** Nothing before the first place satisfies the condition, and nothing at all when there is no place. */
  lemma {:induction false} FirstPlaceIsFirst(b: Buckets, from: nat, p: Client -> bool, i: nat, j: nat)
    requires from <= i < |b| && j < |b[i]| && p(b[i][j])
    ensures var r := FirstPlace(b, from, p); r.Some? && (r.value.0 < i || (r.value.0 == i && r.value.1 <= j))
    decreases |b| - from
  {
    if FirstIndex(b[from], p) == |b[from]| {
      FirstPlaceIsFirst(b, from + 1, p, i, j);
    }
  }

  function HasMac(mac: Mac): Client -> bool { (c: Client) => c.mac == mac }

  function HasIp(ip: U32): Client -> bool { (c: Client) => c.ip == ip }

  function HasIp6(ip6: Ip6): Client -> bool { (c: Client) => c.ip6 == ip6 }

  /** The idle test compares tick counts without allowing for wrap-around. */
  predicate IdleTooLong(updated: nat, jiffies: nat) {
    jiffies > (updated + MAX_CLIENT_ACTIVE_TIME * HZ) % ULONG_MODULUS
  }

  function IsExpired(jiffies: nat): Client -> bool { (c: Client) => IdleTooLong(c.updated, jiffies) }

  /** The limit the test adds; it fits an unsigned long. */
  function Limit(): nat { MAX_CLIENT_ACTIVE_TIME * HZ }

  /** Adding the limit to the stored tick wraps around. */
  predicate DeadlineWraps(used: nat) { used % ULONG_MODULUS + Limit() >= ULONG_MODULUS }

  /** The stored tick counter wraps around between the last use and now. */
  predicate CounterWraps(used: nat, now: nat)
    requires used <= now
  {
    used % ULONG_MODULUS + (now - used) >= ULONG_MODULUS
  }

  /** What the test says about true ticks, less than a whole turn of the counter apart. */
  lemma IdleTest(used: nat, now: nat)
    requires used <= now < used + ULONG_MODULUS && Limit() < ULONG_MODULUS
    ensures IdleTooLong(used % ULONG_MODULUS, now % ULONG_MODULUS) <==>
            if CounterWraps(used, now) then now - used > Limit() && DeadlineWraps(used)
            else now - used > Limit() || DeadlineWraps(used)
  {
    var m := ULONG_MODULUS;
    var u := used % m;
    ModStep(used, now - used, m);
    ModOnce(u + (now - used), m);
    ModOnce(u + Limit(), m);
  }

  /** So the test is right, removing a client exactly when it was idle for longer than the limit, if and only if
      the deadline and the counter wrap around together. */
  lemma IdleTestRight(used: nat, now: nat)
    requires used <= now < used + ULONG_MODULUS && Limit() < ULONG_MODULUS
    ensures (IdleTooLong(used % ULONG_MODULUS, now % ULONG_MODULUS) <==> now - used > Limit()) <==>
            (CounterWraps(used, now) <==> DeadlineWraps(used))
  {
    IdleTest(used, now);
  }

  /** It fails in both directions: a client idle for almost a whole turn of the counter is kept, and one that was
      used in this very tick is removed. */
  lemma IdleTestFails()
    requires 0 < Limit() && 1 + Limit() < ULONG_MODULUS
    ensures !IdleTooLong(1 % ULONG_MODULUS, ULONG_MODULUS % ULONG_MODULUS) && ULONG_MODULUS - 1 > Limit()
    ensures IdleTooLong((ULONG_MODULUS - 1) % ULONG_MODULUS, (ULONG_MODULUS - 1) % ULONG_MODULUS)
  {
    var m := ULONG_MODULUS;
    SmallMod(1, m);
    SmallMod(m - 1, m);
    IdleTest(1, m);
    IdleTest(m - 1, m - 1);
  }

  lemma ModStep(a: nat, d: nat, m: Modulus)
    ensures (a + d) % m == (a % m + d) % m
  {
    DivMod(a, m);
    DivMod(a % m + d, m);
    var q := a / m + (a % m + d) / m;
    Distribute(m, a / m, (a % m + d) / m);
    DivUnique(a + d, m, q, (a % m + d) % m);
  }

  lemma Distribute(m: nat, x: nat, y: nat)
    ensures m * (x + y) == m * x + m * y
  {
  }

  lemma ModOnce(a: nat, m: Modulus)
    requires a < 2 * m
    ensures a % m == if a < m then a else a - m
  {
    if a < m {
      SmallMod(a, m);
    } else {
      WrapOnce(a, m);
    }
  }

  lemma WrapOnce(a: nat, m: nat)
    requires m <= a < 2 * m
    ensures a % m == a - m
  {
    DivUnique(a, m, 1, a - m);
  }

  function Lookup(b: Buckets, mac: Mac): Option<Client>
    requires WellFormed(b)
  {
    var s := b[HashOf(mac)];
    var j := FirstIndex(s, HasMac(mac));
    if j < |s| then Some(s[j]) else None
  }

  // ---------------------------------------------------------------- events

  datatype Packet =
    | V4(addr: U32, excluded: bool)
    | V6(addr6: Ip6)
    | OtherProtocol

  datatype Event =
    | Up(mac: Mac, packet: Packet, len: nat, jiffies: nat, allocOk: bool)
    | Down(packet: Packet, len: nat, jiffies: nat)
    | AddClient(mac: Mac, jiffies: nat, allocOk: bool)
    | Refresh(src: U32, src6: Option<Ip6>, jiffies: nat)
    | Sweep(jiffies: nat)

  predicate Counted(p: Packet) { !(p.V4? && p.excluded) }

  function NewClient(mac: Mac, jiffies: nat): Client { Client(mac, 0, 0, 0, 0, 0, 0, jiffies) }

  /** The table with the client of this address, unless it is new and there is no memory. */
  function WithClient(b: Buckets, mac: Mac, jiffies: nat, allocOk: bool): Buckets
    requires WellFormed(b)
  {
    if Lookup(b, mac).Some? || !allocOk then b
    else b[HashOf(mac) := [NewClient(mac, jiffies)] + b[HashOf(mac)]]
  }

  /** What an up packet does to its client. */
  function SeenUp(c: Client, e: Event): Client
    requires e.Up?
  {
    var d := match e.packet case V4(addr, _) => c.(ip := addr) case V6(addr6) => c.(ip6 := addr6) case OtherProtocol => c;
    if Counted(e.packet) then d.(up := c.up + e.len, upPkts := c.upPkts + 1, updated := e.jiffies)
    else d.(updated := e.jiffies)
  }

  function SeenDown(c: Client, e: Event): Client
    requires e.Down?
  {
    if Counted(e.packet) then c.(down := c.down + e.len, downPkts := c.downPkts + 1, updated := e.jiffies)
    else c.(updated := e.jiffies)
  }

  /** Replaces the client at a place. */
  function Put(b: Buckets, i: nat, j: nat, c: Client): Buckets
    requires i < |b| && j < |b[i]|
  {
    b[i := b[i][j := c]]
  }

  function Drop(b: Buckets, i: nat, j: nat): Buckets
    requires i < |b| && j < |b[i]|
  {
    b[i := b[i][..j] + b[i][j + 1..]]
  }

  /** The client a down packet belongs to: the first in table order with its destination address. */
  function DownPlace(b: Buckets, p: Packet): Option<(nat, nat)> {
    match p
    case V4(addr, _) => FirstPlace(b, 0, HasIp(addr))
    case V6(addr6) => FirstPlace(b, 0, HasIp6(addr6))
    case OtherProtocol => None
  }

  /** The client the gateway hook finds by the source of a packet. */
  function SourcePlace(b: Buckets, src: U32, src6: Option<Ip6>): Option<(nat, nat)> {
    if src != 0 then FirstPlace(b, 0, HasIp(src))
    else if src6.Some? then FirstPlace(b, 0, HasIp6(src6.value))
    else None
  }

  function Refreshed(c: Client, jiffies: nat): Client { c.(updated := jiffies) }

  function PutUp(b: Buckets, e: Event): Buckets
    requires e.Up? && WellFormed(b)
  {
    var h := HashOf(e.mac);
    var j := FirstIndex(b[h], HasMac(e.mac));
    if j < |b[h]| then Put(b, h, j, SeenUp(b[h][j], e)) else b
  }

  lemma WithClientOk(b: Buckets, mac: Mac, jiffies: nat, allocOk: bool)
    requires WellFormed(b)
    ensures WellFormed(WithClient(b, mac, jiffies, allocOk))
  {
    if Lookup(b, mac).None? && allocOk {
      var h := HashOf(mac);
      var s := [NewClient(mac, jiffies)] + b[h];
      assert forall k :: 0 <= k < |b[h]| ==> !HasMac(mac)(b[h][k]);
      assert forall k :: 0 < k < |s| ==> s[k] == b[h][k - 1];
      assert BucketOk(s, h);
    }
  }

  function Step(b: Buckets, e: Event): Buckets
    requires WellFormed(b)
  {
    match e
    case Up(mac, _, _, jiffies, allocOk) =>
      WithClientOk(b, mac, jiffies, allocOk);
      PutUp(WithClient(b, mac, jiffies, allocOk), e)
    case Down(p, _, _) =>
      (match DownPlace(b, p)
       case None => b
       case Some((i, j)) => Put(b, i, j, SeenDown(b[i][j], e)))
    case AddClient(mac, jiffies, allocOk) => WithClient(b, mac, jiffies, allocOk)
    case Refresh(src, src6, jiffies) =>
      (match SourcePlace(b, src, src6)
       case None => b
       case Some((i, j)) => Put(b, i, j, Refreshed(b[i][j], jiffies)))
    case Sweep(jiffies) =>
      (match FirstPlace(b, 0, IsExpired(jiffies)) case None => b case Some((i, j)) => Drop(b, i, j))
  }

  lemma PutOk(b: Buckets, i: nat, j: nat, c: Client)
    requires WellFormed(b) && i < |b| && j < |b[i]| && c.mac == b[i][j].mac
    ensures WellFormed(Put(b, i, j, c))
  {
    assert BucketOk(b[i], i);
    assert BucketOk(b[i][j := c], i);
  }

  lemma DropOk(b: Buckets, i: nat, j: nat)
    requires WellFormed(b) && i < |b| && j < |b[i]|
    ensures WellFormed(Drop(b, i, j))
  {
    assert BucketOk(b[i], i);
    var s := b[i][..j] + b[i][j + 1..];
    assert forall k :: 0 <= k < |s| ==> s[k] == b[i][if k < j then k else k + 1];
    assert BucketOk(s, i);
  }

  /** Every event keeps the table well formed. */
  lemma StepOk(b: Buckets, e: Event)
    requires WellFormed(b)
    ensures WellFormed(Step(b, e))
  {
    hide WellFormed, Put, Drop;
    match e
    case Up(mac, _, _, jiffies, allocOk) =>
      WithClientOk(b, mac, jiffies, allocOk);
      var b' := WithClient(b, mac, jiffies, allocOk);
      PutUpOk(b', e);
    case Down(p, _, _) =>
      var place := DownPlace(b, p);
      if place.Some? {
        PutOk(b, place.value.0, place.value.1, SeenDown(b[place.value.0][place.value.1], e));
      }
    case AddClient(mac, jiffies, allocOk) => WithClientOk(b, mac, jiffies, allocOk);
    case Refresh(src, src6, jiffies) =>
      var place := SourcePlace(b, src, src6);
      if place.Some? {
        PutOk(b, place.value.0, place.value.1, Refreshed(b[place.value.0][place.value.1], jiffies));
      }
    case Sweep(jiffies) =>
      var place := FirstPlace(b, 0, IsExpired(jiffies));
      if place.Some? {
        DropOk(b, place.value.0, place.value.1);
      }
  }

  lemma PutUpOk(b: Buckets, e: Event)
    requires e.Up? && WellFormed(b)
    ensures WellFormed(PutUp(b, e))
  {
    var h := HashOf(e.mac);
    var j := FirstIndex(b[h], HasMac(e.mac));
    if j < |b[h]| {
      PutOk(b, h, j, SeenUp(b[h][j], e));
    }
  }
}
