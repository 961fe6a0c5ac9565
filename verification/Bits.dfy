/** Bitwise AND of unsigned numbers, and what it means for the masks the program builds. */
module Bits {

  function Pow2(k: nat): (p: nat)
    ensures p >= 1
  {
    if k == 0 then 1 else 2 * Pow2(k - 1)
  }

  /** Bit by bit, from the lowest. */
  function And(a: nat, b: nat): (r: nat)
    ensures r <= a && r <= b
  {
    if a == 0 || b == 0 then 0 else 2 * And(a / 2, b / 2) + (if a % 2 == 1 && b % 2 == 1 then 1 else 0)
  }

  /** The number without its k lowest bits, and those bits. */
  function High(a: nat, k: nat): nat { if k == 0 then a else High(a / 2, k - 1) }

  function Low(a: nat, k: nat): (r: nat)
    ensures r < Pow2(k)
  {
    if k == 0 then 0 else 2 * Low(a / 2, k - 1) + a % 2
  }

  lemma {:induction false} Split(a: nat, k: nat)
    ensures a == Pow2(k) * High(a, k) + Low(a, k)
  {
    if k == 0 {
    } else {
      Split(a / 2, k - 1);
      var p, h := Pow2(k - 1), High(a / 2, k - 1);
      Double(p, h);
    }
  }

  lemma Double(p: int, h: int)
    ensures 2 * (p * h) == (2 * p) * h
  {
  }

  /** High and Low are integer division and remainder. */
  lemma HighIsDivision(a: nat, k: nat)
    ensures a / Pow2(k) == High(a, k) && a % Pow2(k) == Low(a, k)
  {
    Split(a, k);
    DivUnique(a, Pow2(k), High(a, k), Low(a, k));
  }

  lemma DivUnique(a: nat, m: nat, q: nat, r: nat)
    requires m > 0 && r < m && a == m * q + r
    ensures a / m == q && a % m == r
  {
    var q', r' := a / m, a % m;
    DivMod(a, m);
    Between(m, q, r, q', r');
  }

  lemma DivMod(a: nat, m: nat)
    requires m > 0
    ensures a == m * (a / m) + a % m && 0 <= a % m < m
  {
  }

  lemma Between(m: nat, q: nat, r: nat, q': nat, r': nat)
    requires r < m && r' < m && m * q + r == m * q' + r'
    ensures q == q' && r == r'
  {
    assert m * (q + 1) == m * q + m && m * (q' + 1) == m * q' + m;
    if q < q' {
      Grows(m, q + 1, q');
    } else if q' < q {
      Grows(m, q' + 1, q);
    }
  }

  lemma Grows(m: nat, x: nat, y: nat)
    requires x <= y
    ensures m * x <= m * y
  {
  }

  /** The lowest bit, and the others. */
  lemma AndStep(a: nat, b: nat, half: nat, bit: nat)
    requires b == 2 * half + bit && bit <= 1
    ensures And(a, b) == 2 * And(a / 2, half) + (if a % 2 == 1 && bit == 1 then 1 else 0)
  {
    assert b / 2 == half && b % 2 == bit;
  }

  lemma AndZero(a: nat)
    ensures And(a, 0) == 0
  {
  }

  /** A mask of the k lowest bits leaves those bits. */
  lemma {:induction false} AndLowMask(a: nat, k: nat)
    ensures And(a, Pow2(k) - 1) == Low(a, k)
  {
    hide And;
    if k == 0 {
      AndZero(a);
    } else {
      AndLowMask(a / 2, k - 1);
      AndStep(a, Pow2(k) - 1, Pow2(k - 1) - 1, 1);
    }
  }

  /** A mask of all but the k lowest of w bits keeps the others in place. */
  lemma {:induction false} AndHighMask(a: nat, w: nat, k: nat)
    requires k <= w && a < Pow2(w)
    ensures Pow2(k) <= Pow2(w) && And(a, Pow2(w) - Pow2(k)) == a - Low(a, k)
  {
    hide And;
    Monotone(k, w);
    if k == 0 {
      AndLowMask(a, w);
      LowWhole(a, w);
    } else {
      Monotone(k - 1, w - 1);
      AndHighMask(a / 2, w - 1, k - 1);
      AndStep(a, Pow2(w) - Pow2(k), Pow2(w - 1) - Pow2(k - 1), 0);
    }
  }

  lemma {:induction false} LowWhole(a: nat, w: nat)
    requires a < Pow2(w)
    ensures Low(a, w) == a
  {
    if w == 0 {
    } else {
      LowWhole(a / 2, w - 1);
    }
  }

  lemma {:induction false} Monotone(j: nat, k: nat)
    requires j <= k
    ensures Pow2(j) <= Pow2(k)
    decreases k
  {
    if j == k {
    } else {
      Monotone(j, k - 1);
    }
  }

  /** AND works separately on high and low parts. */
  lemma {:induction false} AndSplit(a: nat, x: nat, b: nat, y: nat, k: nat)
    requires x < Pow2(k) && y < Pow2(k)
    ensures And(Pow2(k) * a + x, Pow2(k) * b + y) == Pow2(k) * And(a, b) + And(x, y)
  {
    hide And;
    if k == 0 {
      AndZero(0);
    } else {
      var p := Pow2(k - 1);
      AndSplit(a, x / 2, b, y / 2, k - 1);
      Double(p, a);
      Double(p, b);
      Double(p, And(a, b));
      Halves(p * a, x);
      Halves(p * b, y);
      AndStep(Pow2(k) * a + x, Pow2(k) * b + y, p * b + y / 2, y % 2);
      AndStep(x, y, y / 2, y % 2);
    }
  }

  lemma Halves(n: nat, x: nat)
    ensures (2 * n + x) / 2 == n + x / 2 && (2 * n + x) % 2 == x % 2
  {
  }

  /** A single bit as a mask. */
  lemma {:induction false} AndOneBit(a: nat, k: nat)
    ensures And(a, Pow2(k)) == if High(a, k) % 2 == 1 then Pow2(k) else 0
  {
    hide And;
    if k == 0 {
      AndStep(a, 1, 0, 1);
      AndZero(a / 2);
    } else {
      AndOneBit(a / 2, k - 1);
      AndStep(a, Pow2(k), Pow2(k - 1), 0);
    }
  }

  /** Dropping j bits can be done in two steps. */
  lemma {:induction false} HighHigh(a: nat, i: nat, j: nat)
    ensures High(High(a, i), j) == High(a, i + j)
  {
    if i == 0 {
    } else {
      HighHigh(a / 2, i - 1, j);
    }
  }
}
