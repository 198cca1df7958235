/** `pow2gt`: the next power of two, by smearing the highest bit downwards. */
module JsonPow2 {
  import opened Common

  /** Bitwise or. */
  function Or(a: nat, b: nat): (c: nat)
    ensures c >= a && c >= b
  {
    if a == 0 then b
    else if b == 0 then a
    else 2 * Or(a / 2, b / 2) + if a % 2 == 1 || b % 2 == 1 then 1 else 0
  }

  /** `x >> k` */
  function Shr(x: nat, k: nat): (y: nat)
    ensures y <= x
    decreases k
  {
    if k == 0 then x else Shr(x / 2, k - 1)
  }

  function Smear(x: nat, k: nat): (y: nat)
    ensures y >= x
  {
    Or(x, Shr(x, k))
  }

  function Pow2Gt(x: nat): (r: nat)
    requires x > 0
    ensures r >= x
  {
    Smear(Smear(Smear(Smear(Smear(x - 1, 1), 2), 4), 8), 16) + 1
  }

  lemma {:induction false} OrBelow(a: nat, b: nat, k: nat)
    requires a < Pow2(k) && b < Pow2(k)
    ensures Or(a, b) < Pow2(k)
  {
    if a != 0 && b != 0 {
      OrBelow(a / 2, b / 2, k - 1);
    }
  }

  lemma {:induction false} OrShift(a: nat, b: nat, s: nat)
    ensures Shr(Or(a, b), s) == Or(Shr(a, s), Shr(b, s))
  {
    if s > 0 {
      assert Or(a, b) / 2 == Or(a / 2, b / 2);
      OrShift(a / 2, b / 2, s - 1);
    }
  }

  lemma {:induction false} ShrTwice(x: nat, a: nat, b: nat)
    ensures Shr(Shr(x, a), b) == Shr(x, a + b)
  {
    if a > 0 {
      ShrTwice(x / 2, a - 1, b);
    }
  }

  /** The highest `n - k` of the `n` bits of `x` are ones. */
  ghost predicate TopOnes(x: nat, n: nat, k: nat) {
    k <= n && Pow2(n) - Pow2(k) <= x < Pow2(n)
  }

  /** Bits shifted out from below the ones leave them. */
  lemma {:induction false} ShrTop(x: nat, s: nat, n: nat, k: nat)
    requires TopOnes(x, n + s, k + s)
    ensures TopOnes(Shr(x, s), n, k)
  {
    if s > 0 {
      ShrTop(x / 2, s - 1, n, k);
    }
  }

  lemma {:induction false} ShrOnes(y: nat, s: nat, n: nat)
    requires Shr(y, s) == Pow2(n) - 1
    ensures y >= Pow2(n + s) - Pow2(s)
  {
    if s > 0 {
      ShrOnes(y / 2, s - 1, n);
    }
  }

  /** Ones below fill what is below the ones at the top. */
  lemma {:induction false} OrOnes(x: nat, n: nat, t: nat)
    requires TopOnes(x, n, t)
    ensures Or(x, Pow2(t) - 1) == Pow2(n) - 1
  {
    if t > 0 {
      assert (Pow2(t) - 1) / 2 == Pow2(t - 1) - 1 && (Pow2(t) - 1) % 2 == 1;
      OrOnes(x / 2, n - 1, t - 1);
    }
  }

  /** The ones at the top, shifted down over as many bits or fewer, fill them. */
  lemma SmearFills(x: nat, m: nat, t: nat)
    requires t <= m && TopOnes(x, m + t, t)
    ensures Or(x, Shr(x, m)) == Pow2(m + t) - 1
  {
    Pow2Grows(t, m);
    ShrTop(x, m, t, 0);
    OrOnes(x, m + t, t);
  }

  /** A smear by as many places as there are ones at the top doubles them, or fills all. */
  lemma SmearDoubles(x: nat, n: nat, m: nat)
    requires m <= n && TopOnes(x, n, n - m)
    ensures TopOnes(Smear(x, m), n, if 2 * m <= n then n - 2 * m else 0)
  {
    hide Or, Shr;
    var t := if 2 * m <= n then m else n - m;
    var s := n - m - t;
    ShrTop(x, s, m + t, t);
    SmearFills(Shr(x, s), m, t);
    ShrTwice(x, m, s);
    ShrTwice(x, s, m);
    OrShift(x, Shr(x, m), s);
    ShrOnes(Smear(x, m), s, m + t);
    OrBelow(x, Shr(x, m), n);
  }

  /** One more smear, by `m` places or past the end. */
  lemma Again(x: nat, n: nat, m: nat)
    requires TopOnes(x, n, if m <= n then n - m else 0)
    ensures TopOnes(Smear(x, m), n, if 2 * m <= n then n - 2 * m else 0)
  {
    if m <= n {
      SmearDoubles(x, n, m);
    } else {
      OrBelow(x, Shr(x, m), n);
    }
  }

  function Bits(x: nat): (n: nat)
    ensures x < Pow2(n) && (x > 0 ==> n > 0 && Pow2(n - 1) <= x)
  {
    if x == 0 then 0 else 1 + Bits(x / 2)
  }

  lemma Filled(x: nat, n: nat)
    requires 0 < n <= 32 && TopOnes(x, n, n - 1)
    ensures Smear(Smear(Smear(Smear(Smear(x, 1), 2), 4), 8), 16) == Pow2(n) - 1
  {
    hide Smear;
    var x1 := Smear(x, 1);
    var x2 := Smear(x1, 2);
    var x3 := Smear(x2, 4);
    var x4 := Smear(x3, 8);
    Again(x, n, 1);
    Again(x1, n, 2);
    Again(x2, n, 4);
    Again(x3, n, 8);
    Again(x4, n, 16);
  }

  lemma FewBits(x: nat, n: nat)
    requires 0 < x <= Pow2(n)
    ensures Bits(x - 1) <= n
  {
    if Bits(x - 1) > n {
      Pow2Grows(n, Bits(x - 1) - 1);
    }
  }

  /** Up to two to the thirtieth, the result is the least power of two that is not less. */
  lemma Pow2GtIsLeast(x: nat) returns (k: nat)
    requires 0 < x <= Pow2(30)
    ensures k <= 30 && Pow2Gt(x) == Pow2(k) && (k > 0 ==> Pow2(k - 1) < x)
  {
    k := Bits(x - 1);
    FewBits(x, 30);
    if x > 1 {
      Filled(x - 1, k);
    }
  }
}
