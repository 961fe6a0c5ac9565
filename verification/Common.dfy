/** Small vocabulary shared by the modules. */
module Common {

  datatype Option<+T> = None | Some(value: T)

  type U32 = n: nat | n < 0x1_0000_0000
  type Byte = n: nat | n < 256

  const WORD := 0x1_0000_0000

  /** Ticks per second; any value is allowed. */
  const HZ: nat

  type Bytes = seq<Byte>

  /** A hardware address. */
  type Mac = m: seq<Byte> | |m| == 6 witness [0, 0, 0, 0, 0, 0]

  /** An IPv6 address. */
  type Ip6 = n: nat | n < WORD * WORD * WORD * WORD

  /** A signed 32-bit number. */
  predicate IsInt32(n: int) { -0x8000_0000 <= n < 0x8000_0000 }

  /** Narrowing to a signed 32-bit number: what it takes away is a multiple of 2^32. */
  function ToInt32(n: int): (r: int)
    ensures IsInt32(r) && (IsInt32(n) <==> r == n) && (n - r) % WORD == 0
  {
    var r := n % WORD;
    if r >= 0x8000_0000 then r - WORD else r
  }

  lemma SmallMod(a: nat, m: nat)
    requires a < m
    ensures a % m == a
  {
  }

  /** The first n elements, or all of them. */
  function First<T>(s: seq<T>, n: nat): seq<T> { if |s| > n then s[..n] else s }

  /** The result of one element, as a sequence of at most one. */
  function Pick<S, T>(x: S, make: S -> Option<T>): seq<T> {
    match make(x) case None => [] case Some(y) => [y]
  }

  /** The results of those elements that have one, in order. */
  function Gather<S, T>(xs: seq<S>, make: S -> Option<T>): seq<T> {
    if |xs| == 0 then []
    else
      var front := Gather(xs[..|xs| - 1], make);
      match make(xs[|xs| - 1]) case None => front case Some(y) => front + [y]
  }

  lemma GatherAppend<S, T>(xs: seq<S>, x: S, make: S -> Option<T>)
    ensures Gather(xs + [x], make) ==
            match make(x) case None => Gather(xs, make) case Some(y) => Gather(xs, make) + [y]
  {
    assert (xs + [x])[..|xs|] == xs;
  }

  /** Everything gathered is the result of some element. */
  lemma {:induction false} GatherMember<S, T>(xs: seq<S>, make: S -> Option<T>, y: T) returns (i: nat)
    requires y in Gather(xs, make)
    ensures i < |xs| && make(xs[i]) == Some(y)
  {
    var n := |xs| - 1;
    if make(xs[n]) == Some(y) {
      i := n;
    } else {
      i := GatherMember(xs[..n], make, y);
    }
  }

  /** Nothing is gathered exactly when no element has a result. */
  lemma {:induction false} GatherNothing<S, T>(xs: seq<S>, make: S -> Option<T>)
    ensures Gather(xs, make) == [] <==> forall i :: 0 <= i < |xs| ==> make(xs[i]) == None
  {
    if |xs| == 0 {
    } else {
      GatherNothing(xs[..|xs| - 1], make);
    }
  }

  /** Gathering from a prefix gives a prefix. */
  lemma {:induction false} GatherPrefix<S, T>(xs: seq<S>, i: nat, make: S -> Option<T>)
    requires i <= |xs|
    ensures Gather(xs[..i], make) <= Gather(xs, make)
    decreases |xs|
  {
    if i == |xs| {
      assert xs[..i] == xs;
    } else {
      GatherPrefix(xs[..|xs| - 1], i, make);
      assert xs[..|xs| - 1][..i] == xs[..i];
    }
  }

  function Reverse<T>(s: seq<T>): (r: seq<T>)
    ensures |r| == |s|
  {
    if |s| == 0 then [] else [s[|s| - 1]] + Reverse(s[..|s| - 1])
  }

  lemma {:induction false} ReverseAt<T>(s: seq<T>, i: nat)
    requires i < |s|
    ensures Reverse(s)[i] == s[|s| - 1 - i]
  {
    if i == 0 {
    } else {
      ReverseAt(s[..|s| - 1], i - 1);
    }
  }

  lemma {:induction false} ReverseMember<T>(s: seq<T>, x: T)
    requires x in Reverse(s)
    ensures x in s
  {
    if x != s[|s| - 1] {
      ReverseMember(s[..|s| - 1], x);
    }
  }

  /** Pushing the result of one more element in front of a stack. */
  lemma ReverseGather<S, T>(xs: seq<S>, x: S, make: S -> Option<T>, base: seq<T>)
    ensures Reverse(Gather(xs + [x], make)) + base == Pick(x, make) + (Reverse(Gather(xs, make)) + base)
  {
    GatherAppend(xs, x, make);
    var front := Gather(xs, make);
    match make(x)
    case None =>
      assert Pick(x, make) + (Reverse(front) + base) == Reverse(front) + base;
    case Some(y) =>
      assert (front + [y])[..|front|] == front;
      assert [y] + (Reverse(front) + base) == ([y] + Reverse(front)) + base;
  }

  /** The contract of a sort by weight, largest first: a descending permutation. */
  predicate Descending<T>(s: seq<T>, weight: T -> int) {
    forall i, j :: 0 <= i < j < |s| ==> weight(s[i]) >= weight(s[j])
  }

  predicate SortResult<T(==)>(s: seq<T>, r: seq<T>, weight: T -> int) { multiset(r) == multiset(s) && Descending(r, weight) }

  /** A sort keeps the length and the members. */
  lemma SortKeeps<T>(s: seq<T>, r: seq<T>, weight: T -> int)
    requires SortResult(s, r, weight)
    ensures |r| == |s| && (forall x :: x in r <==> x in s)
  {
    assert |r| == |multiset(r)| == |multiset(s)| == |s|;
    assert forall x :: x in r <==> x in multiset(r);
  }

  lemma DescendingPrefix<T>(s: seq<T>, n: nat, weight: T -> int)
    requires Descending(s, weight) && n <= |s|
    ensures Descending(s[..n], weight)
  {
  }

  type Sorter<!T> = seq<T> -> seq<T>

  lemma RemoveOne<T>(s: seq<T>, i: nat)
    requires i < |s|
    ensures multiset(s[..i] + s[i + 1..]) == multiset(s) - multiset{s[i]}
  {
    assert s == s[..i] + [s[i]] + s[i + 1..];
  }

  function MapSeq<S, T>(xs: seq<S>, f: S -> T): (ys: seq<T>)
    ensures |ys| == |xs| && forall i :: 0 <= i < |xs| ==> ys[i] == f(xs[i])
  {
    if |xs| == 0 then [] else MapSeq(xs[..|xs| - 1], f) + [f(xs[|xs| - 1])]
  }

  /** Where reading undoes printing element by element, it does so for whole sequences. */
  lemma {:induction false} GatherPrinted<S, T>(xs: seq<S>, render: S -> T, parse: T -> Option<S>)
    requires forall i :: 0 <= i < |xs| ==> parse(render(xs[i])) == Some(xs[i])
    ensures Gather(MapSeq(xs, render), parse) == xs
  {
    if |xs| == 0 {
    } else {
      var front, last := xs[..|xs| - 1], xs[|xs| - 1];
      GatherPrinted(front, render, parse);
      GatherAppend(MapSeq(front, render), render(last), parse);
    }
  }

  /** Gathering from mapped elements is gathering from the elements. */
  lemma {:induction false} GatherMapped<R(!new), S, T>(xs: seq<R>, f: R -> S, make: S -> Option<T>, direct: R -> Option<T>)
    requires forall x :: make(f(x)) == direct(x)
    ensures Gather(MapSeq(xs, f), make) == Gather(xs, direct)
  {
    if |xs| == 0 {
    } else {
      var front, last := xs[..|xs| - 1], xs[|xs| - 1];
      GatherMapped(front, f, make, direct);
      GatherAppend(MapSeq(front, f), f(last), make);
    }
  }
}
