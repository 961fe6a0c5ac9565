/** What every interleaving of packets, additions and sweeps keeps in the client table. */
module ClientRuns {
  import opened Common
  import opened Bits
  import opened ClientTable

  // ---------------------------------------------------------------- the table as a map

  /** In a well-formed table a client is found by its address exactly where it is. */
  lemma PlaceOf(b: Buckets, i: nat, j: nat)
    requires WellFormed(b) && i < |b| && j < |b[i]|
    ensures HashOf(b[i][j].mac) == i && FirstIndex(b[i], HasMac(b[i][j].mac)) == j && Lookup(b, b[i][j].mac) == Some(b[i][j])
  {
    assert BucketOk(b[i], i);
    var k := FirstIndex(b[i], HasMac(b[i][j].mac));
    assert !HasMac(b[i][j].mac)(b[i][j]) || k <= j;
    assert HasMac(b[i][j].mac)(b[i][j]);
  }

  lemma LookupWith(b: Buckets, mac: Mac, jiffies: nat, allocOk: bool, m: Mac)
    requires WellFormed(b)
    ensures WellFormed(WithClient(b, mac, jiffies, allocOk))
    ensures Lookup(WithClient(b, mac, jiffies, allocOk), m) ==
            if m == mac && Lookup(b, m).None? && allocOk then Some(NewClient(mac, jiffies)) else Lookup(b, m)
  {
    WithClientOk(b, mac, jiffies, allocOk);
    if Lookup(b, mac).None? && allocOk && HashOf(m) == HashOf(mac) {
    }
  }

  lemma LookupPut(b: Buckets, i: nat, j: nat, c: Client, m: Mac)
    requires WellFormed(b) && i < |b| && j < |b[i]| && c.mac == b[i][j].mac
    ensures WellFormed(Put(b, i, j, c))
    ensures Lookup(Put(b, i, j, c), m) == if m == c.mac then Some(c) else Lookup(b, m)
  {
    PutOk(b, i, j, c);
    PlaceOf(Put(b, i, j, c), i, j);
    if m != c.mac && HashOf(m) == i {
      FirstIndexSame(b[i], b[i][j := c], HasMac(m));
    }
  }

  lemma {:induction false} FirstIndexSame<T>(s: seq<T>, t: seq<T>, p: T -> bool)
    requires |s| == |t| && forall k :: 0 <= k < |s| ==> p(s[k]) == p(t[k]) && (p(s[k]) ==> s[k] == t[k])
    ensures FirstIndex(s, p) == FirstIndex(t, p)
    ensures FirstIndex(s, p) < |s| ==> s[FirstIndex(s, p)] == t[FirstIndex(t, p)]
  {
    if |s| > 0 && !p(s[0]) {
      FirstIndexSame(s[1..], t[1..], p);
    }
  }

  lemma LookupDrop(b: Buckets, i: nat, j: nat, m: Mac)
    requires WellFormed(b) && i < |b| && j < |b[i]|
    ensures WellFormed(Drop(b, i, j))
    ensures Lookup(Drop(b, i, j), m) == if m == b[i][j].mac then None else Lookup(b, m)
  {
    DropOk(b, i, j);
    PlaceOf(b, i, j);
    if HashOf(m) == i {
      var s, t := b[i], b[i][..j] + b[i][j + 1..];
      assert forall k :: 0 <= k < |t| ==> t[k] == s[if k < j then k else k + 1];
      if m == s[j].mac {
        NoneLeft(b, i, j);
      } else {
        DropKeeps(b, i, j, m);
      }
    }
  }

  lemma NoneLeft(b: Buckets, i: nat, j: nat)
    requires WellFormed(b) && i < |b| && j < |b[i]|
    ensures var t := b[i][..j] + b[i][j + 1..]; FirstIndex(t, HasMac(b[i][j].mac)) == |t|
  {
    var s, t := b[i], b[i][..j] + b[i][j + 1..];
    assert BucketOk(s, i);
    forall k | 0 <= k < |t| ensures !HasMac(s[j].mac)(t[k]) {
      assert t[k] == s[if k < j then k else k + 1];
    }
  }

  lemma DropKeeps(b: Buckets, i: nat, j: nat, m: Mac)
    requires WellFormed(b) && i < |b| && j < |b[i]| && m != b[i][j].mac && HashOf(m) == i && WellFormed(Drop(b, i, j))
    ensures Lookup(Drop(b, i, j), m) == Lookup(b, m)
  {
    var s, t := b[i], b[i][..j] + b[i][j + 1..];
    var k := FirstIndex(s, HasMac(m));
    if k < |s| {
      var k' := if k < j then k else k - 1;
      assert t[k'] == s[k];
      PlaceOf(Drop(b, i, j), i, k');
    } else {
      forall n | 0 <= n < |t| ensures !HasMac(m)(t[n]) {
        assert t[n] == s[if n < j then n else n + 1];
      }
    }
  }

  /** The client an event is about: created or updated by up packets and additions, updated by down packets and
      refreshes, removed by a sweep. */
  function Affected(b: Buckets, e: Event): Option<Mac>
    requires WellFormed(b)
  {
    match e
    case Up(mac, _, _, _, ok) => if Lookup(b, mac).Some? || ok then Some(mac) else None
    case AddClient(mac, _, ok) => if Lookup(b, mac).None? && ok then Some(mac) else None
    case Down(p, _, _) =>
      (match DownPlace(b, p) case None => None case Some((i, j)) => Some(b[i][j].mac))
    case Refresh(src, src6, _) =>
      (match SourcePlace(b, src, src6) case None => None case Some((i, j)) => Some(b[i][j].mac))
    case Sweep(jiffies) =>
      (match FirstPlace(b, 0, IsExpired(jiffies)) case None => None case Some((i, j)) => Some(b[i][j].mac))
  }

  /** What the map holds for that client afterwards. */
  function Result(b: Buckets, e: Event): Option<Client>
    requires WellFormed(b) && Affected(b, e).Some?
  {
    var was := Lookup(b, Affected(b, e).value);
    match e
    case Up(mac, _, _, jiffies, _) => Some(SeenUp(if was.Some? then was.value else NewClient(mac, jiffies), e))
    case AddClient(mac, jiffies, _) => Some(NewClient(mac, jiffies))
    case Down(_, _, _) => if was.Some? then Some(SeenDown(was.value, e)) else None
    case Refresh(_, _, jiffies) => if was.Some? then Some(Refreshed(was.value, jiffies)) else None
    case Sweep(_) => None
  }

  /** The table refines a map: an event changes the entry of at most one address, as stated. */
  lemma StepRefinesMap(b: Buckets, e: Event, m: Mac)
    requires WellFormed(b)
    ensures WellFormed(Step(b, e))
    ensures Lookup(Step(b, e), m) == if Affected(b, e) == Some(m) then Result(b, e) else Lookup(b, m)
  {
    hide WellFormed, Lookup, Put, Drop;
    StepOk(b, e);
    match e
    case Up(mac, _, _, jiffies, ok) =>
      LookupWith(b, mac, jiffies, ok, m);
      LookupWith(b, mac, jiffies, ok, mac);
      LookupPutUp(WithClient(b, mac, jiffies, ok), e, m);
    case AddClient(mac, jiffies, ok) =>
      LookupWith(b, mac, jiffies, ok, m);
    case Down(p, _, _) =>
      var place := DownPlace(b, p);
      if place.Some? {
        var (i, j) := place.value;
        PlaceOf(b, i, j);
        LookupPut(b, i, j, SeenDown(b[i][j], e), m);
      }
    case Refresh(src, src6, jiffies) =>
      var place := SourcePlace(b, src, src6);
      if place.Some? {
        var (i, j) := place.value;
        PlaceOf(b, i, j);
        LookupPut(b, i, j, Refreshed(b[i][j], jiffies), m);
      }
    case Sweep(jiffies) =>
      var place := FirstPlace(b, 0, IsExpired(jiffies));
      if place.Some? {
        var (i, j) := place.value;
        LookupDrop(b, i, j, m);
      }
  }

  lemma LookupPutUp(b: Buckets, e: Event, m: Mac)
    requires e.Up? && WellFormed(b)
    ensures WellFormed(PutUp(b, e))
    ensures Lookup(PutUp(b, e), m) ==
            if m == e.mac && Lookup(b, m).Some? then Some(SeenUp(Lookup(b, m).value, e)) else Lookup(b, m)
  {
    PutUpOk(b, e);
    var h := HashOf(e.mac);
    var j := FirstIndex(b[h], HasMac(e.mac));
    if j < |b[h]| {
      LookupPut(b, h, j, SeenUp(b[h][j], e), m);
    }
  }

  // ---------------------------------------------------------------- conservation

  function Sum(s: seq<Client>, f: Client -> int): int {
    if |s| == 0 then 0 else Sum(s[..|s| - 1], f) + f(s[|s| - 1])
  }

  function Total(b: Buckets, f: Client -> int): int {
    if |b| == 0 then 0 else Total(b[..|b| - 1], f) + Sum(b[|b| - 1], f)
  }

  lemma {:induction false} SumConcat(s: seq<Client>, t: seq<Client>, f: Client -> int)
    ensures Sum(s + t, f) == Sum(s, f) + Sum(t, f)
  {
    if |t| == 0 {
      assert s + t == s;
    } else {
      SumConcat(s, t[..|t| - 1], f);
      assert (s + t)[..|s + t| - 1] == s + t[..|t| - 1];
    }
  }

  lemma SumAt(s: seq<Client>, j: nat, f: Client -> int)
    requires j < |s|
    ensures Sum(s, f) == Sum(s[..j], f) + f(s[j]) + Sum(s[j + 1..], f)
  {
    assert s == s[..j] + ([s[j]] + s[j + 1..]);
    SumConcat(s[..j], [s[j]] + s[j + 1..], f);
    SumConcat([s[j]], s[j + 1..], f);
  }

  lemma {:induction false} TotalUpdate(b: Buckets, i: nat, s: seq<Client>, f: Client -> int)
    requires i < |b|
    ensures Total(b[i := s], f) == Total(b, f) - Sum(b[i], f) + Sum(s, f)
    decreases |b|
  {
    var b' := b[i := s];
    if i < |b| - 1 {
      TotalUpdate(b[..|b| - 1], i, s, f);
      assert b'[..|b| - 1] == b[..|b| - 1][i := s];
    } else {
      assert b'[..|b| - 1] == b[..|b| - 1];
    }
  }

  lemma TotalPut(b: Buckets, i: nat, j: nat, c: Client, f: Client -> int)
    requires i < |b| && j < |b[i]|
    ensures Total(Put(b, i, j, c), f) == Total(b, f) - f(b[i][j]) + f(c)
  {
    var s := b[i][j := c];
    TotalUpdate(b, i, s, f);
    SumAt(b[i], j, f);
    SumAt(s, j, f);
    assert s[..j] == b[i][..j] && s[j + 1..] == b[i][j + 1..];
  }

  lemma TotalDrop(b: Buckets, i: nat, j: nat, f: Client -> int)
    requires i < |b| && j < |b[i]|
    ensures Total(Drop(b, i, j), f) == Total(b, f) - f(b[i][j])
  {
    TotalUpdate(b, i, b[i][..j] + b[i][j + 1..], f);
    SumAt(b[i], j, f);
    SumConcat(b[i][..j], b[i][j + 1..], f);
  }

  lemma TotalWith(b: Buckets, mac: Mac, jiffies: nat, allocOk: bool, f: Client -> int)
    requires WellFormed(b)
    ensures Total(WithClient(b, mac, jiffies, allocOk), f) ==
            Total(b, f) + if Lookup(b, mac).None? && allocOk then f(NewClient(mac, jiffies)) else 0
  {
    if Lookup(b, mac).None? && allocOk {
      var h := HashOf(mac);
      TotalUpdate(b, h, [NewClient(mac, jiffies)] + b[h], f);
      SumConcat([NewClient(mac, jiffies)], b[h], f);
    }
  }

  lemma TotalPutUp(b: Buckets, e: Event, f: Client -> int)
    requires e.Up? && WellFormed(b)
    ensures Total(PutUp(b, e), f) ==
            Total(b, f) + match Lookup(b, e.mac) case None => 0 case Some(c) => f(SeenUp(c, e)) - f(c)
  {
    hide Put, Total;
    var h := HashOf(e.mac);
    var j := FirstIndex(b[h], HasMac(e.mac));
    if j < |b[h]| {
      TotalPut(b, h, j, SeenUp(b[h][j], e), f);
    }
  }

  /** The measure of a map entry. */
  function Of(c: Option<Client>, f: Client -> int): int {
    match c case None => 0 case Some(x) => f(x)
  }

  /** The sum over all clients changes exactly by what the affected entry changes. */
  lemma StepTotal(b: Buckets, e: Event, f: Client -> int)
    requires WellFormed(b)
    ensures Total(Step(b, e), f) ==
            Total(b, f) + if Affected(b, e).None? then 0
                          else Of(Result(b, e), f) - Of(Lookup(b, Affected(b, e).value), f)
  {
    hide WellFormed, Put, Drop, Total, Lookup;
    match e
    case Up(mac, _, _, jiffies, ok) =>
      TotalWith(b, mac, jiffies, ok, f);
      LookupWith(b, mac, jiffies, ok, mac);
      TotalPutUp(WithClient(b, mac, jiffies, ok), e, f);
    case AddClient(mac, jiffies, ok) => TotalWith(b, mac, jiffies, ok, f);
    case Down(p, _, _) =>
      var place := DownPlace(b, p);
      if place.Some? {
        var (i, j) := place.value;
        PlaceOf(b, i, j);
        TotalPut(b, i, j, SeenDown(b[i][j], e), f);
      }
    case Refresh(src, src6, jiffies) =>
      var place := SourcePlace(b, src, src6);
      if place.Some? {
        var (i, j) := place.value;
        PlaceOf(b, i, j);
        TotalPut(b, i, j, Refreshed(b[i][j], jiffies), f);
      }
    case Sweep(jiffies) =>
      var place := FirstPlace(b, 0, IsExpired(jiffies));
      if place.Some? {
        var (i, j) := place.value;
        PlaceOf(b, i, j);
        TotalDrop(b, i, j, f);
      }
  }

  // ---------------------------------------------------------------- runs

  function EmptyTable(n: nat): (b: Buckets)
    ensures |b| == n && forall i :: 0 <= i < n ==> b[i] == []
  {
    if n == 0 then [] else EmptyTable(n - 1) + [[]]
  }

  /** The table after a run of events, from the empty table. */
  function After(es: seq<Event>): (b: Buckets)
    ensures WellFormed(b)
  {
    if |es| == 0 then EmptyTable(Pow2(HASH_BITS))
    else
      var b := After(es[..|es| - 1]);
      StepOk(b, es[|es| - 1]);
      Step(b, es[|es| - 1])
  }

  function UpBytes(): Client -> int { (c: Client) => c.up }

  function DownBytes(): Client -> int { (c: Client) => c.down }

  function One(): Client -> int { (_: Client) => 1 }

  /** The packet is counted: it is not excluded, and it found or created a client. */
  predicate Credited(b: Buckets, e: Event)
    requires WellFormed(b)
  {
    (e.Up? || e.Down?) && Counted(e.packet) && Affected(b, e).Some?
  }

  /** The bytes of all counted packets of one direction. */
  function CreditedUp(es: seq<Event>): nat {
    if |es| == 0 then 0
    else
      var e := es[|es| - 1];
      CreditedUp(es[..|es| - 1]) + if e.Up? && Credited(After(es[..|es| - 1]), e) then e.len else 0
  }

  function CreditedDown(es: seq<Event>): nat {
    if |es| == 0 then 0
    else
      var e := es[|es| - 1];
      CreditedDown(es[..|es| - 1]) + if e.Down? && Credited(After(es[..|es| - 1]), e) then e.len else 0
  }

  /** The event makes a new client; `total_client` counts these. */
  predicate Creates(b: Buckets, e: Event)
    requires WellFormed(b)
  {
    (e.Up? || e.AddClient?) && e.allocOk && Lookup(b, e.mac).None?
  }

  function Created(es: seq<Event>): nat {
    if |es| == 0 then 0
    else Created(es[..|es| - 1]) + if Creates(After(es[..|es| - 1]), es[|es| - 1]) then 1 else 0
  }

  /** The measure of all clients that sweeps removed. */
  function Removed(es: seq<Event>, f: Client -> int): int {
    if |es| == 0 then 0
    else
      var b, e := After(es[..|es| - 1]), es[|es| - 1];
      Removed(es[..|es| - 1], f) + if e.Sweep? && Affected(b, e).Some? then Of(Lookup(b, Affected(b, e).value), f) else 0
  }

  lemma {:induction false} EmptyTotal(n: nat, f: Client -> int)
    ensures Total(EmptyTable(n), f) == 0
  {
    if n == 0 {
    } else {
      EmptyTotal(n - 1, f);
    }
  }

  /** The affected client of an event that is not an addition is in the table, except one an up packet creates. */
  lemma AffectedKnown(b: Buckets, e: Event)
    requires WellFormed(b) && Affected(b, e).Some?
    ensures Lookup(b, Affected(b, e).value).None? ==> Creates(b, e) && e.mac == Affected(b, e).value
    ensures e.Down? || e.Refresh? || e.Sweep? ==> Lookup(b, Affected(b, e).value).Some?
  {
    match e
    case Up(_, _, _, _, _) =>
    case AddClient(_, _, _) =>
    case Down(p, _, _) =>
      var (i, j) := DownPlace(b, p).value;
      PlaceOf(b, i, j);
    case Refresh(src, src6, _) =>
      var (i, j) := SourcePlace(b, src, src6).value;
      PlaceOf(b, i, j);
    case Sweep(jiffies) =>
      var (i, j) := FirstPlace(b, 0, IsExpired(jiffies)).value;
      PlaceOf(b, i, j);
  }

  /** What one event adds to a measure, counting what a sweep takes away as kept. */
  function Gain(b: Buckets, e: Event, f: Client -> int): int
    requires WellFormed(b)
  {
    if e.Sweep? || Affected(b, e).None? then 0
    else Of(Result(b, e), f) - Of(Lookup(b, Affected(b, e).value), f)
  }

  /** In every run, what is in the table and what was removed from it is what the events have added. */
  function Gained(es: seq<Event>, f: Client -> int): int {
    if |es| == 0 then 0 else Gained(es[..|es| - 1], f) + Gain(After(es[..|es| - 1]), es[|es| - 1], f)
  }

  lemma {:induction false} MeasureConserved(es: seq<Event>, f: Client -> int)
    ensures Total(After(es), f) + Removed(es, f) == Gained(es, f)
  {
    hide Step, Total, Lookup, WellFormed;
    if |es| == 0 {
      EmptyTotal(Pow2(HASH_BITS), f);
    } else {
      var b, e := After(es[..|es| - 1]), es[|es| - 1];
      MeasureConserved(es[..|es| - 1], f);
      StepTotal(b, e, f);
    }
  }

  /** One event adds the length of the packet it credits. */
  lemma GainOfEvent(b: Buckets, e: Event)
    requires WellFormed(b)
    ensures Gain(b, e, UpBytes()) == if e.Up? && Credited(b, e) then e.len else 0
    ensures Gain(b, e, DownBytes()) == if e.Down? && Credited(b, e) then e.len else 0
    ensures Gain(b, e, One()) == if Creates(b, e) then 1 else 0
  {
    hide Lookup, WellFormed, DownPlace, FirstPlace;
    if Affected(b, e).Some? {
      AffectedKnown(b, e);
    }
  }

  /** No byte is lost or counted twice: the up bytes of the live clients and of the removed ones are the lengths
      of the counted up packets. */
  lemma UpConserved(es: seq<Event>)
    ensures Total(After(es), UpBytes()) + Removed(es, UpBytes()) == CreditedUp(es)
  {
    MeasureConserved(es, UpBytes());
    GainedIsCredited(es);
  }

  lemma DownConserved(es: seq<Event>)
    ensures Total(After(es), DownBytes()) + Removed(es, DownBytes()) == CreditedDown(es)
  {
    MeasureConserved(es, DownBytes());
    GainedIsCredited(es);
  }

  /** The counter of created clients is the number of live clients plus the number of removed ones. */
  lemma CreatedIsLiveAndRemoved(es: seq<Event>)
    ensures Created(es) == Total(After(es), One()) + Removed(es, One())
  {
    MeasureConserved(es, One());
    GainedIsCredited(es);
  }

  lemma {:induction false} GainedIsCredited(es: seq<Event>)
    ensures Gained(es, UpBytes()) == CreditedUp(es) && Gained(es, DownBytes()) == CreditedDown(es)
    ensures Gained(es, One()) == Created(es)
  {
    hide Gain, Credited, Creates, Step, WellFormed;
    if |es| == 0 {
    } else {
      GainedIsCredited(es[..|es| - 1]);
      GainOfEvent(After(es[..|es| - 1]), es[|es| - 1]);
    }
  }

  /** The bytes the table holds for an address, in both directions. */
  function BytesOf(b: Buckets, m: Mac): nat
    requires WellFormed(b)
  {
    match Lookup(b, m) case None => 0 case Some(c) => c.up + c.down
  }

  /** A counted packet is credited to exactly one address, any other packet to none. */
  lemma CreditedOnce(b: Buckets, e: Event, m: Mac)
    requires WellFormed(b) && (e.Up? || e.Down?)
    ensures WellFormed(Step(b, e))
    ensures BytesOf(Step(b, e), m) ==
            BytesOf(b, m) + if Credited(b, e) && Affected(b, e) == Some(m) then e.len else 0
  {
    StepRefinesMap(b, e, m);
    if Affected(b, e).Some? {
      AffectedKnown(b, e);
    }
  }

  /** A sweep removes the first expired client in table order, and nothing when no client is expired. */
  lemma SweepRemovesFirst(b: Buckets, jiffies: nat)
    requires WellFormed(b)
    ensures var place := FirstPlace(b, 0, IsExpired(jiffies));
            if place.None? then
              Step(b, Sweep(jiffies)) == b &&
              forall i, j :: 0 <= i < |b| && 0 <= j < |b[i]| ==> !IdleTooLong(b[i][j].updated, jiffies)
            else
              var (i, j) := place.value;
              IdleTooLong(b[i][j].updated, jiffies) && Step(b, Sweep(jiffies)) == Drop(b, i, j) &&
              forall i', j' :: 0 <= i' < |b| && 0 <= j' < |b[i']| && (i' < i || (i' == i && j' < j)) ==>
                !IdleTooLong(b[i'][j'].updated, jiffies)
  {
    var place := FirstPlace(b, 0, IsExpired(jiffies));
    forall i, j | 0 <= i < |b| && 0 <= j < |b[i]| && IdleTooLong(b[i][j].updated, jiffies)
      ensures place.Some? && (place.value.0 < i || (place.value.0 == i && place.value.1 <= j))
    {
      FirstPlaceIsFirst(b, 0, IsExpired(jiffies), i, j);
    }
  }
}
