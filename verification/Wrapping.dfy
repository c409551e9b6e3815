/** Which 16-bit offsets a walk in steps of `m` visits when it wraps: the multiples of the largest power
    of two in `m`, every one of them sooner or later. */
module Wrapping {
  import opened Words

  const OFFSETS := 0x1_0000

  /** The largest power of two that divides `m`. */
  function Grain(m: nat): (g: nat)
    requires m > 0
    ensures g > 0
    decreases m
  {
    if m % 2 == 1 then 1 else 2 * Grain(m / 2)
  }

  function Pow2(n: nat): nat {
    if n == 0 then 1 else 2 * Pow2(n - 1)
  }

  // ----- products -----

  lemma Distribute(a: int, b: int, c: int)
    ensures a * (b + c) == a * b + a * c
  {
  }

  lemma Double(a: int, b: int)
    ensures 2 * (a * b) == (2 * a) * b == a * (2 * b)
  {
  }

  lemma Regroup(a: int, b: int, c: int)
    ensures c * (a * b) == a * (b * c)
  {
  }

  lemma MulLess(g: nat, r: int, q: int)
    requires g > 0
    ensures g * r < g * q ==> r < q
    ensures r < q ==> g * r + g <= g * q
  {
    Distribute(g, q - r, r);
  }

  // ----- the grain -----

  /** `m` as its grain times an odd number. */
  lemma {:induction false} GrainSplits(m: nat) returns (odd: nat)
    requires m > 0
    ensures m == Grain(m) * odd && odd % 2 == 1
    decreases m
  {
    if m % 2 == 1 {
      odd := m;
    } else {
      odd := GrainSplits(m / 2);
      Double(Grain(m / 2), odd);
    }
  }

  /** The grain of a number below 2^n divides 2^n. */
  lemma {:induction false} GrainDivides(m: nat, n: nat) returns (q: nat)
    requires 0 < m < Pow2(n)
    ensures Pow2(n) == Grain(m) * q
  {
    if m % 2 == 1 {
      q := Pow2(n);
    } else {
      q := GrainDivides(m / 2, n - 1);
      Double(Grain(m / 2), q);
    }
  }

  /** An odd number has a multiple just below a multiple of 2^n. */
  lemma {:induction false} OddReaches(odd: nat, n: nat) returns (j: nat, t: nat)
    requires odd % 2 == 1
    ensures odd * j + 1 == Pow2(n) * t
  {
    if n == 0 {
      j, t := 0, 1;
    } else {
      j, t := OddReaches(odd, n - 1);
      var half := Pow2(n - 1);
      if t % 2 == 0 {
        t := t / 2;
        Double(half, t);
      } else {
        OddStep(odd, j, half, t, (t + odd) / 2);
        j, t := j + half, (t + odd) / 2;
      }
    }
  }

  lemma OddStep(odd: nat, j: nat, half: nat, t: nat, u: nat)
    requires odd * j + 1 == half * t && 2 * u == t + odd
    ensures odd * (j + half) + 1 == (2 * half) * u
  {
    Distribute(odd, j, half);
    Distribute(half, t, odd);
    Double(half, u);
  }

  lemma SixteenBits()
    ensures Pow2(16) == OFFSETS
  {
    assert Pow2(8) == 256;
  }

  // ----- the walk -----

  lemma MultipleBelow(g: nat, q: nat, a: nat)
    requires g > 0 && OFFSETS == g * q
    ensures U16(g * a) + g <= OFFSETS
  {
    var d := (g * a) / OFFSETS;
    Regroup(g, q, d);
    Distribute(g, a - q * d, q * d);
    MulLess(g, a - q * d, q);
  }

  /** Stepping by `m` from the k-th multiple of `m`, wrapping at 2^16, visits multiples of the grain only ... */
  lemma VisitsMultiples(m: u16, k: nat, i: nat)
    requires m > 0
    ensures U16(k * m + i * m) + Grain(m) <= OFFSETS
  {
    hide Grain, Pow2, U16;
    SixteenBits();
    var odd := GrainSplits(m);
    var q := GrainDivides(m, 16);
    Distribute(m, k, i);
    Regroup(Grain(m), odd, k + i);
    MultipleBelow(Grain(m), q, odd * (k + i));
  }

  lemma JustBelow(n: nat, g: nat)
    requires 0 < g <= OFFSETS
    ensures U16(OFFSETS * n - g) == OFFSETS - g
  {
  }

  lemma OddTimesGrain(g: nat, odd: nat, j: nat, t: nat)
    requires odd * j + 1 == OFFSETS * t
    ensures j * (g * odd) == OFFSETS * (g * t) - g
  {
    Regroup(g, odd, j);
    Distribute(g, odd * j, 1);
    Regroup(OFFSETS, t, g);
  }

  /** ... and in time the last of them. */
  lemma VisitsLast(m: u16, k: nat) returns (i: nat)
    requires m > 0
    ensures U16(k * m + i * m) + Grain(m) == OFFSETS
  {
    hide Grain, Pow2, U16;
    SixteenBits();
    var odd := GrainSplits(m);
    var j, t := OddReaches(odd, 16);
    i := j + (OFFSETS - 1) * k;
    OddTimesGrain(Grain(m), odd, j, t);
    VisitsMultiples(m, 0, 0);
    WholeTurns(m, k, j);
    JustBelow(Grain(m) * t + k * m, Grain(m));
  }

  lemma WholeTurns(m: nat, k: nat, j: nat)
    ensures k * m + (j + (OFFSETS - 1) * k) * m == j * m + OFFSETS * (k * m)
  {
  }
}
