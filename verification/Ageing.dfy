/** Conversion of an idle time in seconds to the hardware ageing parameters. */
module Ageing {
  const TICKS: nat := 550000000      // 10000000 * 55
  const UINT32: nat := 0x1_0000_0000

  function Pow2(n: nat): (r: nat)
    ensures r >= 1
  {
    if n == 0 then 1 else 2 * Pow2(n - 1)
  }

  function Distance(a: nat, b: nat): (d: nat) {
    if a <= b then b - a else a - b
  }

  /** normalize_idle_time(): the nearest permitted idle time. */
  function Normalize(idle: nat): (r: nat)
    ensures 15 <= r <= 3600
    ensures forall t | 15 <= t <= 3600 :: Distance(r, idle) <= Distance(t, idle)
    ensures (15 <= idle <= 3600 ==> r == idle) && (idle < 15 ==> r == 15) && (idle > 3600 ==> r == 3600)
  {
    if idle < 15 then 15 else if idle > 3600 then 3600 else idle
  }

  /** Idle times whose unit time fits the 32-bit output. */
  predicate Fits(idle: nat) {
    idle % 8 == 0 || (idle % 2 == 0 && idle <= 2000) || idle <= 499
  }

  lemma Pow2Sum(a: nat, b: nat)
    ensures Pow2(a + b) == Pow2(a) * Pow2(b)
  {
    if b > 0 {
      Pow2Sum(a, b - 1);
      assert Pow2(a + b) == 2 * Pow2(a + (b - 1));
      assert Pow2(a) * Pow2(b) == 2 * (Pow2(a) * Pow2(b - 1));
    }
  }

  lemma Pow2Values()
    ensures Pow2(3) == 8 && Pow2(6) == 64 && Pow2(7) == 128 && Pow2(8) == 256
    ensures Pow2(10) == 1024 && Pow2(12) == 4096 && Pow2(18) == 262144
  {
  }

  lemma Assoc(a: int, b: int, c: int)
    ensures (a * b) * c == a * (b * c)
  {
  }

  lemma Magnitude(z: int, d: nat)
    ensures z >= 1 ==> z * d >= d
    ensures z <= -1 ==> z * d <= 0 - d
  {
  }

  lemma Cancel(i: nat, x: nat, y: nat)
    requires i > 0 && i * x == i * y
    ensures x == y
  {
  }

  /** The remainder is determined by any decomposition with a small rest. */
  lemma RemainderIs(x: nat, q: nat, d: nat, r: nat)
    requires d > 0 && x == q * d + r && r < d
    ensures x / d == q && x % d == r
  {
    var z := x / d - q;
    assert x == (x / d) * d + x % d;
    assert z * d == r - x % d;
    Magnitude(z, d);
  }

  lemma Halves(i: nat, j: nat)
    ensures i * (2 * j) == j * (i * 2)
    ensures i * (2 * j + 1) == j * (i * 2) + i
  {
  }

  /** One turn of the loop: twice the divisor still divides exactly when the cofactor is even. */
  lemma Turn(total: nat, i: nat, k: nat)
    requires i > 0 && total == i * k
    ensures total % (i * 2) == 0 <==> k % 2 == 0
    ensures k % 2 == 0 ==> total == (i * 2) * (k / 2)
  {
    var j := k / 2;
    Halves(i, j);
    if k % 2 == 0 {
      assert k == 2 * j;
      RemainderIs(total, j, i * 2, 0);
    } else {
      assert k == 2 * j + 1;
      RemainderIs(total, j, i * 2, i);
    }
  }

  const ODD: nat := 4296875          // TICKS / 128

  /** ODD is 3 modulo 8, so it moves no factor two or eight. */
  lemma OddFactor(idle: nat)
    ensures (idle * ODD) % 2 == 1 <==> idle % 2 == 1
    ensures (idle * ODD) % 8 == 0 <==> idle % 8 == 0
  {
    assert idle * ODD == 2 * (idle * 2148437) + idle;
    assert idle * ODD == 8 * (idle * 537109) + 3 * idle;
  }

  /** ODD * 2563 == 4096 * 2688694 + 1: no idle time in range hides a factor 4096. */
  lemma NoLargePower(idle: nat, m: nat)
    requires 15 <= idle <= 3600
    ensures idle * ODD != 4096 * m
  {
    assert idle * ODD == 4096 * m ==> idle == 4096 * (2563 * m - 2688694 * idle);
  }

  ghost predicate Splits(w: nat, n: nat, k: nat) {
    w == Pow2(n) * k
  }

  /** A power of two can be split off a larger one. */
  lemma SplitPower(w: nat, n: nat, c: nat, k: nat) returns (m: nat)
    requires Splits(w, n, k) && c <= n
    ensures Splits(w, c, m)
  {
    Pow2Sum(c, n - c);
    Assoc(Pow2(c), Pow2(n - c), k);
    m := Pow2(n - c) * k;
  }

  lemma FixedPowers(w: nat, m: nat)
    ensures Splits(w, 0, m) <==> w == m
    ensures Splits(w, 1, m) <==> w == 2 * m
    ensures Splits(w, 2, m) <==> w == 4 * m
    ensures Splits(w, 3, m) <==> w == 8 * m
    ensures Splits(w, 12, m) <==> w == 4096 * m
  {
    Pow2Values();
    assert Pow2(0) == 1 && Pow2(1) == 2 && Pow2(2) == 4;
  }

  lemma SmallPower(w: nat, n: nat, k: nat)
    requires Splits(w, n, k) && k % 2 == 1 && n < 3
    ensures w % 8 != 0 && (w % 2 == 1 <==> n == 0)
  {
    FixedPowers(w, k);
    hide Splits;
    var j := k / 2;
    assert k == 2 * j + 1;
    assert w == 2 * j + 1 || w == 4 * j + 2 || w == 8 * j + 4;
  }

  /** Splitting an odd cofactor off a number shows its powers of two. */
  lemma PowerShows(w: nat, n: nat, k: nat)
    requires Splits(w, n, k) && k % 2 == 1
    ensures w % 2 == 1 <==> n == 0
    ensures w % 8 == 0 <==> n >= 3
    ensures n >= 12 ==> exists m: nat :: w == 4096 * m
  {
    hide Splits;
    if n < 3 {
      SmallPower(w, n, k);
    } else {
      var m := SplitPower(w, n, 3, k);
      FixedPowers(w, m);
    }
    if n >= 12 {
      var m := SplitPower(w, n, 12, k);
      FixedPowers(w, m);
    }
  }

  /** The total has at least seven factors two. */
  lemma AtLeastSeven(idle: nat, expo: nat, k: nat)
    requires idle * TICKS == Pow2(expo) * k && k % 2 == 1
    ensures expo >= 7
    ensures idle * ODD == Pow2(expo - 7) * k
  {
    Pow2Values();
    var w := idle * ODD;
    assert idle * TICKS == 128 * w;
    if expo < 7 {
      var n: nat := 7 - expo;
      Pow2Sum(expo, n);
      Assoc(Pow2(expo), Pow2(n), w);
      Cancel(Pow2(expo), Pow2(n) * w, k);
      Assoc(2, Pow2(n - 1), w);
    } else {
      Pow2Sum(7, expo - 7);
      Assoc(128, Pow2(expo - 7), k);
    }
  }

  /** Where the loop stops: at the power of two of the total, which the idle time decides. */
  lemma StopsAt(idle: nat, expo: nat, k: nat)
    requires 15 <= idle <= 3600 && Splits(idle * TICKS, expo, k) && k % 2 == 1
    ensures 7 <= expo <= 18
    ensures idle % 2 == 1 <==> expo == 7
    ensures idle % 8 == 0 <==> expo >= 10
  {
    AtLeastSeven(idle, expo, k);
    OddFactor(idle);
    PowerShows(idle * ODD, expo - 7, k);
    if expo - 7 >= 12 {
      var m: nat :| idle * ODD == 4096 * m;
      NoLargePower(idle, m);
    }
  }

  lemma NotLast(idle: nat, expo: nat, k: nat)
    requires 15 <= idle <= 3600 && expo <= 18 && idle * TICKS == Pow2(expo) * k && k % 2 == 0
    ensures expo < 18
  {
    if expo == 18 {
      Pow2Values();
      assert idle * TICKS == 128 * (idle * ODD);
      NoLargePower(idle, k / 2);
    }
  }

  lemma Pow2Bound(a: nat, b: nat)
    requires a <= b
    ensures Pow2(a) <= Pow2(b)
  {
  }

  /** The quotient at the final exponent, and when it needs more than 32 bits. */
  lemma QuotientFits(idle: nat, expo: nat, q: nat)
    requires 15 <= idle <= 3600 && 6 <= expo && Splits(idle * TICKS, expo, q)
    requires idle % 2 == 1 ==> expo == 6
    requires idle % 2 == 0 && idle % 8 != 0 ==> expo == 8
    requires idle % 8 == 0 ==> expo >= 10
    ensures q < UINT32 <==> Fits(idle)
  {
    Pow2Values();
    if idle % 8 == 0 {
      Pow2Bound(10, expo);
      Scale(q, 1024, Pow2(expo));
    }
  }

  lemma Scale(q: nat, a: nat, b: nat)
    requires a <= b
    ensures a * q <= b * q
  {
  }

  lemma QuotientIs(total: nat, expo: nat, k: nat)
    requires Splits(total, expo, k)
    ensures total / Pow2(expo) == k
  {
    RemainderIs(total, k, Pow2(expo), 0);
  }

  lemma OneLess(total: nat, expo: nat, k: nat)
    requires expo >= 1 && Splits(total, expo, k)
    ensures Pow2(expo) / 2 == Pow2(expo - 1) && Splits(total, expo - 1, 2 * k)
  {
    Assoc(Pow2(expo - 1), 2, k);
  }

  /** The loop of calc_aging_params(), lines 97-98, with 32-bit `i`. */
  method StripTwos(idle: nat) returns (i: nat, ageExpo: nat, ghost k: nat)
    requires 15 <= idle <= 3600
    ensures 1 <= ageExpo <= 18 && i == Pow2(ageExpo)
    ensures idle * TICKS == i * k && k % 2 == 1
  {
    var total := idle * TICKS;
    ageExpo, i, k := 1, 2, idle * 275000000;
    Turn(total, i, k);
    while total % (i * 2) == 0
      invariant 1 <= ageExpo <= 18 && i == Pow2(ageExpo) && total == i * k
      invariant i * 2 < UINT32
      invariant total % (i * 2) == 0 <==> k % 2 == 0
      decreases 18 - ageExpo
    {
      Turn(total, i, k);
      NotLast(idle, ageExpo, k);
      i, ageExpo, k := i * 2, ageExpo + 1, k / 2;
      Pow2Bound(ageExpo, 18);
      Pow2Values();
      Turn(total, i, k);
    }
  }

  /** What the last steps make of a power of two and its odd cofactor. */
  lemma EvenPower(idle: nat, total: nat, expo: nat, k: nat) returns (e: nat, q: nat)
    requires 15 <= idle <= 3600 && total == idle * TICKS && Splits(total, expo, k) && k % 2 == 1
    ensures e == (if expo % 2 == 0 then expo else expo - 1) && e % 2 == 0 && 6 <= e <= 18
    ensures Pow2(e) == if expo % 2 == 0 then Pow2(expo) else Pow2(expo) / 2
    ensures Splits(total, e, q) && total / Pow2(e) == q && (q < UINT32 <==> Fits(idle))
  {
    hide Fits, Splits, Pow2;
    StopsAt(idle, expo, k);
    e, q := expo, k;
    if expo % 2 != 0 {
      OneLess(total, expo, k);
      e, q := expo - 1, 2 * k;
    }
    QuotientFits(idle, e, q);
    QuotientIs(total, e, q);
  }

  /** calc_aging_params(). `quotient` is the 64-bit division; the output keeps its low 32 bits. */
  method CalcAgingParams(idle: nat) returns (unitTime: nat, ageExpo: nat, ghost quotient: nat)
    requires 15 <= idle <= 3600
    ensures ageExpo % 2 == 0 && 6 <= ageExpo <= 18
    ensures Pow2(ageExpo) * quotient == idle * TICKS
    ensures unitTime == quotient % UINT32
    ensures quotient < UINT32 <==> Fits(idle)
  {
    hide Pow2, Fits;
    var i: nat;
    var total := idle * TICKS;
    ghost var k: nat;
    i, ageExpo, k := StripTwos(idle);
    ghost var e: nat;
    e, quotient := EvenPower(idle, total, ageExpo, k);
    if ageExpo % 2 != 0 {
      ageExpo, i := ageExpo - 1, i / 2;
    }
    unitTime := (total / i) % UINT32;
  }
}
