/** Which traffic is left out of the accounting: main LAN, protocols inside it, and configured networks. */
module StatExclude {
  import opened Common
  import opened Bits
  import opened CText

  // ---------------------------------------------------------------- addresses in either byte order

  /** The four bytes of an address or a mask in network order. */
  datatype Quad = Quad(b0: Byte, b1: Byte, b2: Byte, b3: Byte)

  datatype ByteOrder = LittleEndian | BigEndian

  /** One more byte behind a number. */
  function Append(x: nat, b: Byte): nat { 256 * x + b }

  function Word(b0: Byte, b1: Byte, b2: Byte, b3: Byte): U32 { Append(Append(Append(b0, b1), b2), b3) }

  /** The number the processor sees when the four bytes lie in memory. */
  function Load(order: ByteOrder, q: Quad): U32 {
    if order == BigEndian then Word(q.b0, q.b1, q.b2, q.b3) else Word(q.b3, q.b2, q.b1, q.b0)
  }

  /** The number an address denotes. */
  function Value(q: Quad): U32 { Word(q.b0, q.b1, q.b2, q.b3) }

  function QuadOf(x: U32): Quad {
    var y := x / 256;
    var z := y / 256;
    Quad(z / 256, z % 256, y % 256, x % 256)
  }

  /** A host number in network order, as the processor sees it. */
  function Htonl(order: ByteOrder, x: U32): U32 { Load(order, QuadOf(x)) }

  lemma QuadOfValue(x: U32)
    ensures Value(QuadOf(x)) == x
  {
  }

  function AndQuad(a: Quad, b: Quad): Quad {
    Quad(And(a.b0, b.b0), And(a.b1, b.b1), And(a.b2, b.b2), And(a.b3, b.b3))
  }

  lemma Pow2Byte()
    ensures Pow2(8) == 256
  {
    assert Pow2(4) == 16;
  }

  lemma AndByte(a: nat, x: Byte, b: nat, y: Byte)
    ensures And(Append(a, x), Append(b, y)) == Append(And(a, b), And(x, y))
  {
    hide And, Pow2;
    Pow2Byte();
    AndSplit(a, x, b, y, 8);
    Same(Pow2(8), 256, a);
    Same(Pow2(8), 256, b);
    Same(Pow2(8), 256, And(a, b));
  }

  lemma Same(p: nat, q: nat, x: nat)
    requires p == q
    ensures p * x == q * x
  {
  }

  lemma AndWord(a0: Byte, a1: Byte, a2: Byte, a3: Byte, b0: Byte, b1: Byte, b2: Byte, b3: Byte)
    ensures And(Word(a0, a1, a2, a3), Word(b0, b1, b2, b3)) == Word(And(a0, b0), And(a1, b1), And(a2, b2), And(a3, b3))
  {
    hide And, Append;
    var u, v := Append(a0, a1), Append(b0, b1);
    var x, y := Append(u, a2), Append(v, b2);
    AndByte(a0, a1, b0, b1);
    AndByte(u, a2, v, b2);
    AndByte(x, a3, y, b3);
  }

  /** AND of loaded words is AND of the bytes, in either order. */
  lemma AndLoad(order: ByteOrder, a: Quad, b: Quad)
    ensures And(Load(order, a), Load(order, b)) == Load(order, AndQuad(a, b))
  {
    AndWord(a.b0, a.b1, a.b2, a.b3, b.b0, b.b1, b.b2, b.b3);
    AndWord(a.b3, a.b2, a.b1, a.b0, b.b3, b.b2, b.b1, b.b0);
  }

  lemma LoadInjective(order: ByteOrder, a: Quad, b: Quad)
    requires Load(order, a) == Load(order, b)
    ensures a == b
  {
    if order == BigEndian {
      WordInjective(a.b0, a.b1, a.b2, a.b3, b.b0, b.b1, b.b2, b.b3);
    } else {
      WordInjective(a.b3, a.b2, a.b1, a.b0, b.b3, b.b2, b.b1, b.b0);
    }
  }

  lemma WordInjective(a0: Byte, a1: Byte, a2: Byte, a3: Byte, b0: Byte, b1: Byte, b2: Byte, b3: Byte)
    requires Word(a0, a1, a2, a3) == Word(b0, b1, b2, b3)
    ensures a0 == b0 && a1 == b1 && a2 == b2 && a3 == b3
  {
    hide Append;
    var u, v := Append(a0, a1), Append(b0, b1);
    var x, y := Append(u, a2), Append(v, b2);
    LastByte(x, a3, y, b3);
    LastByte(u, a2, v, b2);
    LastByte(a0, a1, b0, b1);
  }

  lemma LastByte(x: nat, a: Byte, y: nat, b: Byte)
    requires Append(x, a) == Append(y, b)
    ensures x == y && a == b
  {
  }

  /** Comparing under a mask gives the same answer in both byte orders. */
  lemma MaskedOrderFree(order: ByteOrder, ip: Quad, addr: Quad, mask: Quad)
    ensures And(Load(order, ip), Load(order, mask)) == And(Load(order, addr), Load(order, mask)) <==>
            And(Value(ip), Value(mask)) == And(Value(addr), Value(mask))
  {
    AndLoad(order, ip, mask);
    AndLoad(order, addr, mask);
    AndLoad(BigEndian, ip, mask);
    AndLoad(BigEndian, addr, mask);
    if Load(order, AndQuad(ip, mask)) == Load(order, AndQuad(addr, mask)) {
      LoadInjective(order, AndQuad(ip, mask), AndQuad(addr, mask));
    }
    if Value(AndQuad(ip, mask)) == Value(AndQuad(addr, mask)) {
      LoadInjective(BigEndian, AndQuad(ip, mask), AndQuad(addr, mask));
    }
  }

  // ---------------------------------------------------------------- networks

  lemma Pow2Word()
    ensures Pow2(32) == WORD
  {
    Pow2Byte();
    assert Pow2(16) == 0x1_0000 by { assert Pow2(12) == 0x1000; }
    assert Pow2(24) == 0x100_0000 by { assert Pow2(20) == 0x10_0000; }
    assert Pow2(28) == 0x1000_0000;
  }

  /** The host-order mask: none of the bits, all of them, or all but the 32 - plen lowest. */
  function HostMask(plen: int): U32 {
    if plen <= 0 then 0
    else if plen >= 32 then 0xffff_ffff
    else Pow2Word(); Monotone(32 - plen, 32); (0xffff_ffff - (Pow2(32 - plen) - 1))
  }

  function PrefixToMask(order: ByteOrder, plen: int): U32 { Htonl(order, HostMask(plen)) }

  /** An entry of the exclusion list, both numbers as the processor sees them. */
  datatype Net = Net(addr: U32, mask: U32)

  predicate AddrInNet(ip: U32, n: Net) { And(ip, n.mask) == And(n.addr, n.mask) }

  function MakeNet(order: ByteOrder, addr: Quad, plen: nat): Net { Net(Load(order, addr), PrefixToMask(order, plen)) }

  lemma HostMaskIs(plen: nat)
    requires plen <= 32
    ensures Pow2(32 - plen) <= Pow2(32) == WORD && HostMask(plen) == Pow2(32) - Pow2(32 - plen)
  {
    Pow2Word();
    Monotone(32 - plen, 32);
  }

  /** An address is in a network exactly when the leading `plen` bits agree, that is when integer division by
      2^(32 - plen) gives the same number, whatever the byte order of the machine. */
  lemma InNetIsPrefix(order: ByteOrder, ip: Quad, addr: Quad, plen: nat)
    requires plen <= 32
    ensures AddrInNet(Load(order, ip), MakeNet(order, addr, plen)) <==>
            Value(ip) / Pow2(32 - plen) == Value(addr) / Pow2(32 - plen)
  {
    hide And, Word, QuadOf;
    var k, mask := 32 - plen, QuadOf(HostMask(plen));
    MaskedOrderFree(order, ip, addr, mask);
    QuadOfValue(HostMask(plen));
    HostMaskIs(plen);
    AndHighMask(Value(ip), 32, k);
    AndHighMask(Value(addr), 32, k);
    Split(Value(ip), k);
    Split(Value(addr), k);
    HighIsDivision(Value(ip), k);
    HighIsDivision(Value(addr), k);
    SameHigh(Pow2(k), High(Value(ip), k), High(Value(addr), k));
  }

  lemma SameHigh(p: nat, a: nat, b: nat)
    requires p > 0
    ensures p * a == p * b <==> a == b
  {
    if p * a == p * b {
      Between(p, a, 0, b, 0);
    }
  }

  /** Two networks are nested or disjoint: one address in both puts the narrower inside the wider. */
  lemma NestedOrDisjoint(order: ByteOrder, a: Quad, p: nat, b: Quad, q: nat, common: Quad, ip: Quad)
    requires p <= q <= 32
    ensures AddrInNet(Load(order, common), MakeNet(order, a, p)) && AddrInNet(Load(order, common), MakeNet(order, b, q)) ==>
              AddrInNet(Load(order, ip), MakeNet(order, b, q)) ==> AddrInNet(Load(order, ip), MakeNet(order, a, p))
  {
    hide AddrInNet, MakeNet, Load, Value;
    InNetIsPrefix(order, common, a, p);
    InNetIsPrefix(order, common, b, q);
    InNetIsPrefix(order, ip, b, q);
    InNetIsPrefix(order, ip, a, p);
    Coarser(Value(common), Value(ip), q, p);
  }

  lemma Coarser(x: nat, y: nat, q: nat, p: nat)
    requires p <= q <= 32
    ensures x / Pow2(32 - q) == y / Pow2(32 - q) ==> x / Pow2(32 - p) == y / Pow2(32 - p)
  {
    HighIsDivision(x, 32 - q);
    HighIsDivision(y, 32 - q);
    HighIsDivision(x, 32 - p);
    HighIsDivision(y, 32 - p);
    HighHigh(x, 32 - q, q - p);
    HighHigh(y, 32 - q, q - p);
  }

  // ---------------------------------------------------------------- the exclusion test

  const FWX_STAT_EXCLUDE_NET_MAX := 24

  /** The settings of the module; the LAN address and mask come from the rest of the program. */
  datatype Settings = Settings(lanLan: bool, protoMask: U32, nets: seq<Net>, lanIp: U32, lanMask: U32)

  /** Both endpoints are on the configured main LAN. */
  predicate BothInMainLan(c: Settings, saddr: U32, daddr: U32) {
    c.lanIp != 0 && c.lanMask != 0 && AddrInNet(saddr, Net(c.lanIp, c.lanMask)) && AddrInNet(daddr, Net(c.lanIp, c.lanMask))
  }

  /** The bit the protocol selects.  From 32 on C leaves the value of the shift open, so it is an input. */
  function Shifted(proto: Byte, wide: U32): nat { if proto < 32 then Pow2(proto) else wide }

  predicate ProtoListed(c: Settings, proto: Byte, wide: U32) {
    if proto < 32 then High(c.protoMask, proto) % 2 == 1 else And(c.protoMask, wide) != 0
  }

  /** A packet is left out of the accounting: LAN to LAN if so configured, LAN to LAN with a listed protocol,
      or with an endpoint in a listed network. */
  predicate Excluded(c: Settings, saddr: U32, daddr: U32, proto: Byte, wide: U32) {
    || (c.lanLan && BothInMainLan(c, saddr, daddr))
    || (ProtoListed(c, proto, wide) && BothInMainLan(c, saddr, daddr))
    || exists i :: 0 <= i < |c.nets| && (AddrInNet(saddr, c.nets[i]) || AddrInNet(daddr, c.nets[i]))
  }

  lemma ExcludedSymmetric(c: Settings, saddr: U32, daddr: U32, proto: Byte, wide: U32)
    ensures Excluded(c, saddr, daddr, proto, wide) == Excluded(c, daddr, saddr, proto, wide)
  {
    hide AddrInNet, ProtoListed;
    if i :| 0 <= i < |c.nets| && (AddrInNet(saddr, c.nets[i]) || AddrInNet(daddr, c.nets[i])) {
      assert Excluded(c, daddr, saddr, proto, wide);
    }
  }

  /** A network by its address and prefix length. */
  datatype Cidr = Cidr(addr: Quad, plen: nat)

  function NetOf(order: ByteOrder): Cidr -> Net { (n: Cidr) => MakeNet(order, n.addr, n.plen) }

  /** The leading bits of the address are those of the network: their integer quotients agree. */
  predicate Agrees(ip: Quad, n: Cidr)
    requires n.plen <= 32
  {
    Value(ip) / Pow2(32 - n.plen) == Value(n.addr) / Pow2(32 - n.plen)
  }

  /** The exclusion test in numbers, for a main LAN and listed networks with prefix lengths: a packet is excluded when
      both its addresses lie in the LAN and LAN traffic is excluded or its protocol's bit is set, or when one of its
      addresses lies in a listed network.  Without a LAN address or mask only the listed networks count. */
  lemma ExcludedInNumbers(order: ByteOrder, c: Settings, lan: Cidr, listed: seq<Cidr>, s: Quad, d: Quad, proto: Byte, wide: U32)
    requires lan.plen <= 32 && forall i :: 0 <= i < |listed| ==> listed[i].plen <= 32
    requires Net(c.lanIp, c.lanMask) == MakeNet(order, lan.addr, lan.plen) && c.nets == MapSeq(listed, NetOf(order))
    requires proto < 32
    ensures Excluded(c, Load(order, s), Load(order, d), proto, wide) <==>
            (c.lanIp != 0 && c.lanMask != 0 && Agrees(s, lan) && Agrees(d, lan) &&
             (c.lanLan || (c.protoMask / Pow2(proto)) % 2 == 1)) ||
            exists i :: 0 <= i < |listed| && (Agrees(s, listed[i]) || Agrees(d, listed[i]))
  {
    hide Load, Agrees, MakeNet, AddrInNet, High, BothInMainLan;
    HighIsDivision(c.protoMask, proto);
    LanInNumbers(order, c, lan, s, d);
    ListedInNumbers(order, c.nets, listed, s, d);
  }

  lemma LanInNumbers(order: ByteOrder, c: Settings, lan: Cidr, s: Quad, d: Quad)
    requires lan.plen <= 32 && Net(c.lanIp, c.lanMask) == MakeNet(order, lan.addr, lan.plen)
    ensures BothInMainLan(c, Load(order, s), Load(order, d)) <==>
            c.lanIp != 0 && c.lanMask != 0 && Agrees(s, lan) && Agrees(d, lan)
  {
    hide Load, Value, MakeNet, AddrInNet;
    InNetIsPrefix(order, s, lan.addr, lan.plen);
    InNetIsPrefix(order, d, lan.addr, lan.plen);
  }

  lemma {:induction false} ListedInNumbers(order: ByteOrder, nets: seq<Net>, listed: seq<Cidr>, s: Quad, d: Quad)
    requires (forall i :: 0 <= i < |listed| ==> listed[i].plen <= 32) && nets == MapSeq(listed, NetOf(order))
    ensures (exists i :: 0 <= i < |nets| && (AddrInNet(Load(order, s), nets[i]) || AddrInNet(Load(order, d), nets[i]))) <==>
            exists i :: 0 <= i < |listed| && (Agrees(s, listed[i]) || Agrees(d, listed[i]))
  {
    hide Load, Agrees, MakeNet, AddrInNet, MapSeq;
    forall i | 0 <= i < |listed|
      ensures (AddrInNet(Load(order, s), nets[i]) || AddrInNet(Load(order, d), nets[i])) == (Agrees(s, listed[i]) || Agrees(d, listed[i]))
    {
      assert nets[i] == NetOf(order)(listed[i]);
      NetInNumbers(order, listed[i], s);
      NetInNumbers(order, listed[i], d);
    }
  }

  lemma NetInNumbers(order: ByteOrder, n: Cidr, ip: Quad)
    requires n.plen <= 32
    ensures AddrInNet(Load(order, ip), NetOf(order)(n)) == Agrees(ip, n)
  {
    hide Load, Value, AddrInNet;
    InNetIsPrefix(order, ip, n.addr, n.plen);
  }

  /** So with LAN traffic excluded and no listed networks, a packet that leaves the LAN is counted. */
  lemma LeavingLanCounts(order: ByteOrder, c: Settings, lan: Cidr, s: Quad, d: Quad, proto: Byte, wide: U32)
    requires lan.plen <= 32 && Net(c.lanIp, c.lanMask) == MakeNet(order, lan.addr, lan.plen) && c.nets == [] && proto < 32
    requires !Agrees(s, lan) || !Agrees(d, lan)
    ensures !Excluded(c, Load(order, s), Load(order, d), proto, wide)
  {
    hide Excluded, Agrees;
    ExcludedInNumbers(order, c, lan, [], s, d, proto, wide);
  }

  /** The LAN 192.168.1.1 with the mask 255.255.255.0 as numbers of either kind of machine. */
  lemma LanExample(lanLan: bool, host: Byte, far: Quad, order: ByteOrder)
    requires Value(far) / 256 != 0xc0a801
    ensures var lan := MakeNet(order, Quad(192, 168, 1, 1), 24);
            var c := Settings(lanLan, 0, [], lan.addr, lan.mask);
            && lan.mask == Load(order, Quad(255, 255, 255, 0))
            && (Excluded(c, Load(order, Quad(192, 168, 1, host)), Load(order, Quad(192, 168, 1, 20)), 6, 0) <==> lanLan)
            && !Excluded(c, Load(order, Quad(192, 168, 1, host)), Load(order, far), 6, 0)
  {
    hide Excluded, Load;
    var lan := Cidr(Quad(192, 168, 1, 1), 24);
    var net := MakeNet(order, lan.addr, 24);
    var c := Settings(lanLan, 0, [], net.addr, net.mask);
    LanNumbers(order);
    LanAgrees(Quad(192, 168, 1, host));
    LanAgrees(Quad(192, 168, 1, 20));
    LanAgrees(far);
    HighZero(6);
    HighIsDivision(0, 6);
    ExcludedInNumbers(order, c, lan, [], Quad(192, 168, 1, host), Quad(192, 168, 1, 20), 6, 0);
    ExcludedInNumbers(order, c, lan, [], Quad(192, 168, 1, host), far, 6, 0);
  }

  lemma LanNumbers(order: ByteOrder)
    ensures Load(order, Quad(192, 168, 1, 1)) != 0 && PrefixToMask(order, 24) == Load(order, Quad(255, 255, 255, 0)) != 0
  {
    Pow2Byte();
    assert HostMask(24) == 0xffff_ff00;
  }

  lemma LanAgrees(ip: Quad)
    ensures Agrees(ip, Cidr(Quad(192, 168, 1, 1), 24)) <==> Value(ip) / 256 == 0xc0a801
    ensures ip.b0 == 192 && ip.b1 == 168 && ip.b2 == 1 ==> Value(ip) / 256 == 0xc0a801
  {
    Pow2Byte();
  }

  /** From protocol 32 on the value of the shift decides in place of the bit. */
  lemma WideProtocol(c: Settings, saddr: U32, daddr: U32, proto: Byte, wide: U32)
    requires proto >= 32 && !c.lanLan && c.nets == [] && And(c.protoMask, wide) == 0
    ensures !Excluded(c, saddr, daddr, proto, wide)
  {
  }

  /** One entry of the configuration message. */
  datatype Item = Text(text: string) | NotText

  /** `simple_strtol` in base 10: an optional minus sign and digits; no digits read as 0. */
  function Strtol(s: string): int {
    if |s| > 0 && s[0] == '-' then -(Digits(s[1..], 10, 0).0 as int) else Digits(s, 10, 0).0
  }

  /** The library conversion of a dotted address; its answer is an input. */
  type Pton = string -> Option<Quad>

  /** An address, with or without a prefix length. */
  function CidrOf(order: ByteOrder, pton: Pton, s: string): Option<Net> {
    if |s| == 0 then None
    else
      var buf := Clip(s, 127);
      var slash := NextSep(buf, '/', 0);
      var plen := if slash < |buf| then ToInt32(Strtol(buf[slash + 1..])) else 32;
      if plen < 0 || plen > 32 || slash == 0 then None
      else match pton(buf[..slash])
           case None => None
           case Some(addr) => Some(MakeNet(order, addr, plen))
  }

  lemma StrtolOfDecimal(n: int)
    ensures Strtol(Decimal(n)) == n && '/' !in Decimal(n)
  {
    var digits := Numeral(if n < 0 then -n else n, 10);
    assert digits + "" == digits;
    DigitsOfNumeral(if n < 0 then -n else n, 10, "");
    if n < 0 {
      assert Decimal(n)[1..] == digits;
    } else {
      assert Decimal(n)[0] == digits[0];
    }
  }

  /** An address text with a printed prefix length is read as that net exactly when the length, narrowed to 32 bits,
      is 0 to 32; without one it is the single address. */
  lemma CidrOfPrinted(order: ByteOrder, pton: Pton, text: string, plen: int, addr: Quad)
    requires '/' !in text && |text| > 0 && |text| + 1 + |Decimal(plen)| <= 127 && pton(text) == Some(addr)
    ensures CidrOf(order, pton, text + "/" + Decimal(plen)) ==
            if 0 <= ToInt32(plen) <= 32 then Some(MakeNet(order, addr, ToInt32(plen))) else None
    ensures CidrOf(order, pton, text) == Some(MakeNet(order, addr, 32))
  {
    hide Decimal, Strtol, MakeNet, NextSep, ToInt32;
    var s := text + "/" + Decimal(plen);
    StrtolOfDecimal(plen);
    assert s[|text|] == '/' && forall j :: 0 <= j < |text| ==> s[j] == text[j];
    assert NextSep(s, '/', 0) == |text| && s[..|text|] == text && s[|text| + 1..] == Decimal(plen);
    assert NextSep(text, '/', 0) == |text| && text[..|text|] == text;
  }

  /** So the length 4294967304 is read as 8. */
  lemma CidrOfHugeLength(order: ByteOrder, pton: Pton, text: string, addr: Quad)
    requires '/' !in text && |text| > 0 && |text| <= 116 && pton(text) == Some(addr)
    ensures CidrOf(order, pton, text + "/" + Decimal(0x1_0000_0008)) == Some(MakeNet(order, addr, 8))
  {
    assert Power(10, 5) == 100_000 by { assert Power(10, 3) == 1000; }
    assert Power(10, 7) == 10_000_000;
    assert Power(10, 9) == 1_000_000_000;
    NumeralLength(0x1_0000_0008, 10, 10);
    CidrOfPrinted(order, pton, text, 0x1_0000_0008, addr);
  }

  function CidrMaker(order: ByteOrder, pton: Pton): string -> Option<Net> {
    (s: string) => CidrOf(order, pton, s)
  }

  function ItemMaker(order: ByteOrder, pton: Pton): Item -> Option<Net> {
    (i: Item) => match i case NotText => None case Text(t) => CidrOf(order, pton, t)
  }

  /** The configuration message; a missing entry leaves the flag or the mask as it was. */
  datatype Config = Config(lanLan: Option<bool>, protoMask: Option<U32>, nets: Option<seq<Item>>)

  class ExcludeTable {
    var lanLan: bool
    var protoMask: U32
    const nets: array<Net>
    var netCount: nat

    ghost predicate Valid()
      reads this
    {
      nets.Length == FWX_STAT_EXCLUDE_NET_MAX && netCount <= nets.Length
    }

    function State(lanIp: U32, lanMask: U32): Settings
      requires netCount <= nets.Length
      reads this, nets
    {
      Settings(lanLan, protoMask, nets[..netCount], lanIp, lanMask)
    }

    constructor ()
      ensures Valid() && !lanLan && protoMask == 0 && netCount == 0
    {
      lanLan, protoMask, netCount := false, 0, 0;
      nets := new Net[FWX_STAT_EXCLUDE_NET_MAX](_ => Net(0, 0));
    }

    /** The test in the packet path, with its shortcut for an empty configuration. */
    method FlowExcluded(saddr: U32, daddr: U32, proto: Byte, lanIp: U32, lanMask: U32, wide: U32) returns (skip: bool)
      requires Valid()
      ensures skip == Excluded(State(lanIp, lanMask), saddr, daddr, proto, wide)
    {
      hide And, AddrInNet;
      ghost var c := State(lanIp, lanMask);
      if !lanLan && protoMask == 0 && netCount == 0 {
        HighZero(proto);
        return false;
      }
      var both := lanIp != 0 && lanMask != 0 &&
                  AddrInNet(saddr, Net(lanIp, lanMask)) && AddrInNet(daddr, Net(lanIp, lanMask));
      if lanLan && both {
        return true;
      }
      if both && protoMask != 0 {
        AndOneBit(protoMask, proto);
        if And(protoMask, Shifted(proto, wide)) != 0 {
          return true;
        }
      } else if protoMask == 0 {
        HighZero(proto);
      }
      for i := 0 to netCount
        invariant forall j :: 0 <= j < i ==> !AddrInNet(saddr, nets[j]) && !AddrInNet(daddr, nets[j])
      {
        if AddrInNet(saddr, nets[i]) || AddrInNet(daddr, nets[i]) {
          assert c.nets[i] == nets[i];
          return true;
        }
      }
      return false;
    }

    /** Fills the array with the networks that can be read, in order, as many as there is room for. */
    method LoadNets(items: seq<Item>, order: ByteOrder, pton: Pton) returns (cnt: nat)
      requires Valid()
      modifies nets
      ensures cnt <= nets.Length
      ensures nets[..cnt] == First(Gather(items, ItemMaker(order, pton)), 24)
    {
      hide CidrOf;
      cnt := 0;
      var make, i := ItemMaker(order, pton), 0;
      while i < |items| && cnt < FWX_STAT_EXCLUDE_NET_MAX
        invariant i <= |items| && cnt <= FWX_STAT_EXCLUDE_NET_MAX
        invariant nets[..cnt] == Gather(items[..i], make)
      {
        assert items[..i + 1] == items[..i] + [items[i]];
        GatherAppend(items[..i], items[i], make);
        var net := make(items[i]);
        if net.Some? {
          nets[cnt] := net.value;
          cnt := cnt + 1;
        }
        i := i + 1;
      }
      GatherPrefix(items, i, make);
      assert i == |items| ==> items[..i] == items;
    }

    /** The configuration message. */
    method SetConfig(config: Config, order: ByteOrder, pton: Pton)
      requires Valid()
      modifies this, nets
      ensures Valid()
      ensures lanLan == match config.lanLan case None => old(lanLan) case Some(b) => b
      ensures protoMask == match config.protoMask case None => old(protoMask) case Some(m) => m
      ensures nets[..netCount] ==
              match config.nets
              case None => []
              case Some(items) => First(Gather(items, ItemMaker(order, pton)), 24)
    {
      hide Gather, ItemMaker;
      if config.lanLan.Some? {
        lanLan := config.lanLan.value;
      }
      if config.protoMask.Some? {
        protoMask := config.protoMask.value;
      }
      forall i | 0 <= i < nets.Length {
        nets[i] := Net(0, 0);
      }
      netCount := 0;
      if config.nets.Some? {
        netCount := LoadNets(config.nets.value, order, pton);
      }
    }
  }

  lemma {:induction false} HighZero(k: nat)
    ensures High(0, k) == 0
  {
    if k == 0 {
    } else {
      HighZero(k - 1);
    }
  }

  /** Only the first 127 characters of an entry are read, and an entry without an address is not. */
  lemma CidrLimits(order: ByteOrder, pton: Pton, s: string)
    ensures |s| > 127 ==> CidrOf(order, pton, s) == CidrOf(order, pton, s[..127])
    ensures s == "" || s[0] == '/' ==> CidrOf(order, pton, s) == None
  {
    if |s| > 0 && s[0] == '/' {
      assert NextSep(Clip(s, 127), '/', 0) == 0;
    }
  }

  /** A slash without a number behind it is read as the length 0, and that entry covers every address. */
  lemma CidrWithoutLength(order: ByteOrder, pton: Pton, text: string, rest: string, addr: Quad)
    requires '/' !in text && |text| > 0 && |text| + 1 + |rest| <= 127 && pton(text) == Some(addr)
    requires rest == "" || (rest[0] != '-' && !IsDigit(rest[0], 10))
    ensures CidrOf(order, pton, text + "/" + rest) == Some(MakeNet(order, addr, 0))
    ensures forall ip: U32 :: AddrInNet(ip, MakeNet(order, addr, 0))
  {
    hide MakeNet, NextSep, AddrInNet;
    NoMask(order, addr);
    var s := text + "/" + rest;
    assert s[|text|] == '/' && forall j :: 0 <= j < |text| ==> s[j] == text[j];
    assert NextSep(s, '/', 0) == |text| && s[..|text|] == text && s[|text| + 1..] == rest;
  }

  lemma NoMask(order: ByteOrder, addr: Quad)
    ensures forall ip: U32 :: AddrInNet(ip, MakeNet(order, addr, 0))
  {
    hide And, Load;
    ZeroMask(order);
    AndZero(Load(order, addr));
    forall ip: U32 ensures AddrInNet(ip, MakeNet(order, addr, 0)) {
      AndZero(ip);
    }
  }

  lemma ZeroMask(order: ByteOrder)
    ensures PrefixToMask(order, 0) == 0
  {
    assert QuadOf(0) == Quad(0, 0, 0, 0);
  }
}
