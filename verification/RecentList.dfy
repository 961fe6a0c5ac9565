/**
 The two most-recently-used lists (active applications, active hosts): bounded lists whose
 update moves a known key to the front, or evicts the tail and inserts a new node.
 */
module RecentList {
  import opened Common

  /** One update: its key, everything the update overwrites, the IPv6 addresses when the flow has them,
      and whether the allocator would grant a new node. */
  datatype Sighting<K, D> = Sighting(key: K, detail: D, src6: Option<Ip6>, dst6: Option<Ip6>, allocOk: bool)

  datatype Node<K, D> = Node(key: K, detail: D, src6: Ip6, dst6: Ip6)

  /** A node that is updated keeps an IPv6 address the new flow does not have; a new node starts from zero. */
  function Refreshed<K, D>(n: Node<K, D>, s: Sighting<K, D>): Node<K, D> {
    Node(n.key, s.detail, if s.src6.Some? then s.src6.value else n.src6, if s.dst6.Some? then s.dst6.value else n.dst6)
  }

  function NewNode<K, D>(s: Sighting<K, D>): Node<K, D> {
    Refreshed(Node(s.key, s.detail, 0, 0), s)
  }

  function Keys<K, D>(list: seq<Node<K, D>>): (ks: seq<K>)
    ensures |ks| == |list| && forall i :: 0 <= i < |ks| ==> ks[i] == list[i].key
  {
    MapSeq(list, (n: Node<K, D>) => n.key)
  }

  /** The first position of a key, the length when it is absent. */
  function Find<K(==)>(ks: seq<K>, k: K): (i: nat)
    ensures i <= |ks| && (i < |ks| ==> ks[i] == k)
    ensures forall j :: 0 <= j < i ==> ks[j] != k
  {
    if |ks| == 0 || ks[0] == k then 0 else 1 + Find(ks[1..], k)
  }

  /** What stays behind the front: all but position i, or all but the tail when i is no position of a full list. */
  function Rest<T>(list: seq<T>, cap: nat, i: nat): (rest: seq<T>)
    ensures |rest| == if |list| > 0 && (i < |list| || |list| >= cap) then |list| - 1 else |list|
  {
    if i < |list| then list[..i] + list[i + 1..]
    else if |list| >= cap && |list| > 0 then list[..|list| - 1]
    else list
  }

  /** The list after one update. */
  function Touched<K(==), D>(list: seq<Node<K, D>>, cap: nat, s: Sighting<K, D>): seq<Node<K, D>> {
    var i := Find(Keys(list), s.key);
    if i < |list| then [Refreshed(list[i], s)] + Rest(list, cap, i)
    else if s.allocOk then [NewNode(s)] + Rest(list, cap, i)
    else Rest(list, cap, i)
  }

  class BoundedList<K(==), D> {
    var list: seq<Node<K, D>>
    const cap: nat

    constructor (cap: nat)
      requires cap >= 1
      ensures this.cap == cap && list == []
    {
      this.cap := cap;
      list := [];
    }

    method MoveToFront(i: nat)
      requires i < |list|
      modifies this
      ensures list == [old(list)[i]] + Rest(old(list), cap, i)
    {
      ghost var rest := Rest(list, cap, i);
      list := [list[i]] + list[..i] + list[i + 1..];
    }

    /** Searches for the key; a hit is refreshed and moved, a miss evicts the tail of a full list and
        inserts a new node. */
    method Update(s: Sighting<K, D>)
      modifies this
      ensures list == Touched(old(list), cap, s)
    {
      var found := false;
      var count := 0;
      var i := 0;
      while i < |list|
        invariant list == old(list) && count == i <= Find(Keys(list), s.key)
      {
        count := count + 1;
        if list[i].key == s.key {
          list := list[i := Refreshed(list[i], s)];
          MoveToFront(i);
          found := true;
          break;
        }
        i := i + 1;
      }
      if !found {
        if count >= cap {
          if |list| > 0 {
            list := list[..|list| - 1];
          }
        }
        if s.allocOk {
          list := [NewNode(s)] + list;
        }
      }
    }
  }

  /** The list after a history of updates, starting empty. */
  function ListAfter<K(==), D>(cap: nat, h: seq<Sighting<K, D>>): seq<Node<K, D>> {
    if |h| == 0 then [] else Touched(ListAfter(cap, h[..|h| - 1]), cap, h[|h| - 1])
  }

  // ---------------------------------------------------------------- the reference

  function SightedKeys<K, D>(h: seq<Sighting<K, D>>): (ks: seq<K>)
    ensures |ks| == |h| && forall i :: 0 <= i < |ks| ==> ks[i] == h[i].key
  {
    MapSeq(h, (s: Sighting<K, D>) => s.key)
  }

  /** The position of the last use of a key, -1 for a key that was never used. */
  function LastUse<K(==)>(keys: seq<K>, k: K): (i: int)
    ensures -1 <= i < |keys|
    ensures if i >= 0 then keys[i] == k else k !in keys
  {
    if |keys| == 0 then -1
    else if keys[|keys| - 1] == k then |keys| - 1
    else LastUse(keys[..|keys| - 1], k)
  }

  /** Used keys in the order of their last use, the latest first. */
  predicate InRecencyOrder<K(==)>(out: seq<K>, keys: seq<K>) {
    && (forall i :: 0 <= i < |out| ==> LastUse(keys, out[i]) >= 0)
    && (forall i, j :: 0 <= i < j < |out| ==> LastUse(keys, out[i]) > LastUse(keys, out[j]))
  }

  /** `out` lists the `cap` most recently used distinct keys, or all of them if there are fewer. */
  ghost predicate MostRecent<K(!new)>(out: seq<K>, keys: seq<K>, cap: nat) {
    && InRecencyOrder(out, keys)
    && |out| <= cap
    && (forall k :: k in keys && k !in out ==>
          |out| == cap && forall i :: 0 <= i < |out| ==> LastUse(keys, k) < LastUse(keys, out[i]))
  }

  /** The reference leaves no choice: a longer answer for a larger capacity extends the shorter one. */
  lemma {:induction false} MostRecentPrefix<K(!new)>(a: seq<K>, b: seq<K>, keys: seq<K>, cap: nat, cap': nat, n: nat)
    requires cap <= cap' && MostRecent(a, keys, cap) && MostRecent(b, keys, cap') && n <= |a|
    ensures n <= |b| && a[..n] == b[..n]
  {
    if n == 0 {
    } else {
      MostRecentPrefix(a, b, keys, cap, cap', n - 1);
      var x := a[n - 1];
      forall i | 0 <= i < n - 1 ensures b[i] == a[i] && LastUse(keys, b[i]) > LastUse(keys, x) {
        assert b[i] == b[..n - 1][i] == a[..n - 1][i];
      }
      NotLater(b, keys, cap', n, x);
      NotLater(a, keys, cap, n, b[n - 1]);
    }
  }

  /** A used key that is none of the first n - 1 entries was used no later than entry n. */
  lemma NotLater<K(!new)>(out: seq<K>, keys: seq<K>, cap: nat, n: nat, x: K)
    requires MostRecent(out, keys, cap) && LastUse(keys, x) >= 0 && 1 <= n <= cap && n - 1 <= |out|
    requires forall i :: 0 <= i < n - 1 ==> out[i] != x
    ensures n <= |out| && LastUse(keys, x) <= LastUse(keys, out[n - 1])
  {
    assert x in keys;
    if x in out {
      var j :| 0 <= j < |out| && out[j] == x;
    }
  }

  lemma MostRecentNested<K(!new)>(a: seq<K>, b: seq<K>, keys: seq<K>, cap: nat, cap': nat)
    requires cap <= cap' && MostRecent(a, keys, cap) && MostRecent(b, keys, cap')
    ensures a <= b
  {
    MostRecentPrefix(a, b, keys, cap, cap', |a|);
    assert a == a[..|a|];
  }

  lemma MostRecentUnique<K(!new)>(a: seq<K>, b: seq<K>, keys: seq<K>, cap: nat)
    requires MostRecent(a, keys, cap) && MostRecent(b, keys, cap)
    ensures a == b
  {
    MostRecentNested(a, b, keys, cap, cap);
    MostRecentNested(b, a, keys, cap, cap);
  }

  // ---------------------------------------------------------------- the lists meet the reference

  /** The details of the last update of a key. */
  function LatestDetail<K(==), D>(h: seq<Sighting<K, D>>, k: K): Option<D> {
    if |h| == 0 then None
    else if h[|h| - 1].key == k then Some(h[|h| - 1].detail)
    else LatestDetail(h[..|h| - 1], k)
  }

  ghost predicate DetailsLatest<K(!new), D(!new)>(list: seq<Node<K, D>>, h: seq<Sighting<K, D>>) {
    forall n :: n in list ==> LatestDetail(h, n.key) == Some(n.detail)
  }

  /** What every history keeps, whether or not the allocator always delivers: the bound, the order of use
      (so no key twice), and in every node the details of the last update of its key. */
  ghost predicate Kept<K(!new), D(!new)>(list: seq<Node<K, D>>, cap: nat, h: seq<Sighting<K, D>>) {
    && |list| <= cap
    && InRecencyOrder(Keys(list), SightedKeys(h))
    && DetailsLatest(list, h)
  }

  lemma OrderAppend<K>(rest: seq<K>, keys: seq<K>, k: K)
    requires InRecencyOrder(rest, keys) && k !in rest
    ensures InRecencyOrder(rest, keys + [k]) && InRecencyOrder([k] + rest, keys + [k])
  {
    forall x ensures LastUse(keys + [k], x) == if x == k then |keys| else LastUse(keys, x) {
    }
  }

  /** The keys of the updated list depend on the keys alone. */
  lemma KeysOfTouched<K, D>(list: seq<Node<K, D>>, cap: nat, s: Sighting<K, D>)
    ensures var ks := Keys(list); var rest := Rest(ks, cap, Find(ks, s.key));
            && Keys(Rest(list, cap, Find(ks, s.key))) == rest
            && Keys(Touched(list, cap, s)) == if s.key in ks || s.allocOk then [s.key] + rest else rest
  {
    var i := Find(Keys(list), s.key);
    KeysOfRest(list, cap, i);
    if i < |list| {
      KeysOfCons(Refreshed(list[i], s), Rest(list, cap, i));
    } else if s.allocOk {
      KeysOfCons(NewNode(s), Rest(list, cap, i));
    }
  }

  lemma KeysOfCons<K, D>(n: Node<K, D>, list: seq<Node<K, D>>)
    ensures Keys([n] + list) == [n.key] + Keys(list)
  {
  }

  lemma KeysOfRest<K, D>(list: seq<Node<K, D>>, cap: nat, i: nat)
    requires i <= |list|
    ensures Keys(Rest(list, cap, i)) == Rest(Keys(list), cap, i)
  {
    forall p | 0 <= p < |Rest(list, cap, i)| ensures Keys(Rest(list, cap, i))[p] == Rest(Keys(list), cap, i)[p] {
      RestAt(list, cap, i, p);
      RestAt(Keys(list), cap, i, p);
    }
  }

  /** The remainder of an ordered list is ordered, short of full and without the key. */
  lemma RestInOrder<K>(ks: seq<K>, cap: nat, k: K, keys: seq<K>)
    requires InRecencyOrder(ks, keys) && |ks| <= cap && cap >= 1
    ensures var rest := Rest(ks, cap, Find(ks, k)); InRecencyOrder(rest, keys) && k !in rest && |rest| < cap
  {
    var i := Find(ks, k);
    var rest := Rest(ks, cap, i);
    forall p | 0 <= p < |rest| ensures rest[p] == ks[Shift(i, p)] && rest[p] != k {
      RestAt(ks, cap, i, p);
      if i <= p {
        assert LastUse(keys, ks[p + 1]) < LastUse(keys, ks[i]);
      }
    }
    forall p, q | 0 <= p < q < |rest| ensures LastUse(keys, rest[p]) > LastUse(keys, rest[q]) {
      assert Shift(i, p) < Shift(i, q);
    }
  }

  function Shift(i: nat, p: nat): nat { if p < i then p else p + 1 }

  lemma RestAt<T>(list: seq<T>, cap: nat, i: nat, p: nat)
    requires p < |Rest(list, cap, i)| && i <= |list|
    ensures Shift(i, p) < |list| && Rest(list, cap, i)[p] == list[Shift(i, p)]
  {
  }

  /** What every history keeps. */
  lemma {:induction false} HistoryKept<K(!new), D(!new)>(cap: nat, h: seq<Sighting<K, D>>)
    requires cap >= 1
    ensures Kept(ListAfter(cap, h), cap, h)
  {
    if |h| == 0 {
    } else {
      var s, list, keys := h[|h| - 1], ListAfter(cap, h[..|h| - 1]), SightedKeys(h[..|h| - 1]);
      HistoryKept(cap, h[..|h| - 1]);
      KeysOfTouched(list, cap, s);
      RestInOrder(Keys(list), cap, s.key, keys);
      OrderAppend(Rest(Keys(list), cap, Find(Keys(list), s.key)), keys, s.key);
      DetailsKept(list, cap, h);
    }
  }

  lemma RestMembers<K, D>(list: seq<Node<K, D>>, cap: nat, i: nat, n: Node<K, D>)
    requires n in Rest(list, cap, i)
    ensures n in list && n.key in Keys(Rest(list, cap, i))
  {
    var rest := Rest(list, cap, i);
    var m :| 0 <= m < |rest| && rest[m] == n;
    assert Keys(rest)[m] == n.key;
  }

  lemma DetailsKept<K(!new), D(!new)>(list: seq<Node<K, D>>, cap: nat, h: seq<Sighting<K, D>>)
    requires |h| > 0 && DetailsLatest(list, h[..|h| - 1])
    requires h[|h| - 1].key !in Keys(Rest(list, cap, Find(Keys(list), h[|h| - 1].key)))
    ensures DetailsLatest(Touched(list, cap, h[|h| - 1]), h)
  {
    var s := h[|h| - 1];
    var rest := Rest(list, cap, Find(Keys(list), s.key));
    var out := Touched(list, cap, s);
    forall n | n in out ensures LatestDetail(h, n.key) == Some(n.detail) {
      if n in rest {
        RestMembers(list, cap, Find(Keys(list), s.key), n);
      } else {
        assert n == out[0];
      }
    }
  }

  /** Only position i, or the tail of a full list, is missing from the remainder. */
  lemma RestHas<T>(list: seq<T>, cap: nat, i: nat, j: nat)
    requires i <= |list| && j < |list| && j != i && (i < |list| || j < |Rest(list, cap, i)|)
    ensures list[j] in Rest(list, cap, i)
  {
    var p := if j < i then j else j - 1;
    RestAt(list, cap, i, p);
    assert Rest(list, cap, i)[p] == list[j];
  }

  /** A key that is no longer listed was used before every listed key, and the list is full. */
  lemma Forgotten<K(!new)>(ks: seq<K>, cap: nat, k: K, keys: seq<K>, gone: K)
    requires cap >= 1 && MostRecent(ks, keys, cap)
    requires gone in keys && gone != k && gone !in Rest(ks, cap, Find(ks, k))
    ensures var rest := Rest(ks, cap, Find(ks, k));
            |rest| == cap - 1 && forall i :: 0 <= i < |rest| ==> LastUse(keys, gone) < LastUse(keys, rest[i])
  {
    hide LastUse;
    var i := Find(ks, k);
    var rest := Rest(ks, cap, i);
    forall p | 0 <= p < |rest| ensures rest[p] == ks[Shift(i, p)] {
      RestAt(ks, cap, i, p);
    }
    forall j | 0 <= j < |ks| && j != i && (i < |ks| || j < |rest|) ensures ks[j] in rest {
      RestHas(ks, cap, i, j);
    }
    if gone in ks {
      var j :| 0 <= j < |ks| && ks[j] == gone;
      assert i == |ks| && j == |rest| == |ks| - 1;
      forall p | 0 <= p < |rest| ensures LastUse(keys, gone) < LastUse(keys, rest[p]) {
        assert rest[p] == ks[p];
      }
    } else {
      assert |ks| == cap;
      forall p | 0 <= p < |rest| ensures LastUse(keys, gone) < LastUse(keys, rest[p]) {
        assert rest[p] == ks[Shift(i, p)];
      }
    }
  }

  /** With an allocator that delivers, the list is the reference: the most recently used distinct keys. */
  lemma {:induction false} HistoryMostRecent<K(!new), D>(cap: nat, h: seq<Sighting<K, D>>)
    requires cap >= 1 && forall i :: 0 <= i < |h| ==> h[i].allocOk
    ensures MostRecent(Keys(ListAfter(cap, h)), SightedKeys(h), cap)
  {
    if |h| == 0 {
    } else {
      var s, list, keys := h[|h| - 1], ListAfter(cap, h[..|h| - 1]), SightedKeys(h[..|h| - 1]);
      HistoryMostRecent(cap, h[..|h| - 1]);
      KeysOfTouched(list, cap, s);
      StepMostRecent(Keys(list), cap, s.key, keys);
    }
  }

  lemma StepMostRecent<K(!new)>(ks: seq<K>, cap: nat, k: K, keys: seq<K>)
    requires cap >= 1 && MostRecent(ks, keys, cap)
    ensures MostRecent([k] + Rest(ks, cap, Find(ks, k)), keys + [k], cap)
  {
    var rest := Rest(ks, cap, Find(ks, k));
    var out := [k] + rest;
    RestInOrder(ks, cap, k, keys);
    OrderAppend(rest, keys, k);
    forall gone | gone in keys + [k] && gone !in out
      ensures |out| == cap
      ensures forall i :: 0 <= i < |out| ==> LastUse(keys + [k], gone) < LastUse(keys + [k], out[i])
    {
      assert k == out[0];
      assert gone !in rest;
      Forgotten(ks, cap, k, keys, gone);
      forall i | 0 <= i < |out| ensures LastUse(keys + [k], gone) < LastUse(keys + [k], out[i]) {
      }
    }
  }

  /** For the same history, the list of a smaller capacity is a prefix of the list of a larger one. */
  lemma SmallerIsPrefix<K(!new), D>(cap: nat, cap': nat, h: seq<Sighting<K, D>>)
    requires 1 <= cap <= cap' && forall i :: 0 <= i < |h| ==> h[i].allocOk
    ensures Keys(ListAfter(cap, h)) <= Keys(ListAfter(cap', h))
  {
    HistoryMostRecent(cap, h);
    HistoryMostRecent(cap', h);
    MostRecentNested(Keys(ListAfter(cap, h)), Keys(ListAfter(cap', h)), SightedKeys(h), cap, cap');
  }

  // ---------------------------------------------------------------- addresses

  /** The updates of a key since its node was inserted. */
  ghost function SinceInserted<K(!new), D(!new)>(cap: nat, h: seq<Sighting<K, D>>, k: K): seq<Sighting<K, D>> {
    if |h| == 0 then []
    else
      var front, s := h[..|h| - 1], h[|h| - 1];
      if s.key != k then SinceInserted(cap, front, k)
      else (if k in Keys(ListAfter(cap, front)) then SinceInserted(cap, front, k) else []) + [s]
  }

  /** The last IPv6 address among the updates that have one, 0 without one. */
  function LastSource<K, D>(us: seq<Sighting<K, D>>): Ip6 {
    if |us| == 0 then 0 else if us[|us| - 1].src6.Some? then us[|us| - 1].src6.value else LastSource(us[..|us| - 1])
  }

  function LastTarget<K, D>(us: seq<Sighting<K, D>>): Ip6 {
    if |us| == 0 then 0 else if us[|us| - 1].dst6.Some? then us[|us| - 1].dst6.value else LastTarget(us[..|us| - 1])
  }

  ghost predicate AddressesOf<K(!new), D(!new)>(n: Node<K, D>, us: seq<Sighting<K, D>>) {
    n.src6 == LastSource(us) && n.dst6 == LastTarget(us)
  }

  lemma {:induction false} AddressesAppend<K(!new), D(!new)>(n: Node<K, D>, us: seq<Sighting<K, D>>, s: Sighting<K, D>)
    requires AddressesOf(n, us)
    ensures AddressesOf(Refreshed(n, s), us + [s])
  {
    assert (us + [s])[..|us|] == us;
  }

  /** After every history a node holds the last IPv6 addresses that the updates since its insertion had. */
  lemma {:induction false} AddressesKept<K(!new), D(!new)>(cap: nat, h: seq<Sighting<K, D>>, n: Node<K, D>)
    requires cap >= 1 && n in ListAfter(cap, h)
    ensures AddressesOf(n, SinceInserted(cap, h, n.key))
    decreases |h|
  {
    hide AddressesOf, InRecencyOrder, Rest;
    var front, s := h[..|h| - 1], h[|h| - 1];
    var list := ListAfter(cap, front);
    var i := Find(Keys(list), s.key);
    HistoryKept(cap, front);
    RestInOrder(Keys(list), cap, s.key, SightedKeys(front));
    KeysOfRest(list, cap, i);
    if n in Rest(list, cap, i) {
      RestMembers(list, cap, i, n);
      AddressesKept(cap, front, n);
    } else if i < |list| {
      AddressesKept(cap, front, list[i]);
      AddressesAppend(list[i], SinceInserted(cap, front, s.key), s);
    } else {
      NoAddresses(Node(s.key, s.detail, 0, 0));
      AddressesAppend(Node(s.key, s.detail, 0, 0), [], s);
    }
  }

  lemma NoAddresses<K(!new), D(!new)>(n: Node<K, D>)
    requires n.src6 == n.dst6 == 0
    ensures AddressesOf(n, [])
  {
  }
}
