/**
  The 48-bit linear congruential generator of rand48.c.  Unsigned 64-bit arithmetic is written
  out: a `uint64_t` is a natural number below `WORD` and every operation on it is reduced
  modulo `WORD`; the mask `RAND48_MASK` is reduction modulo `M48`.
 */
module Rand48 {
  import opened Powers
  import Division

  const WORD: nat := 0x1_0000_0000_0000_0000
  const M48: nat := 0x1_0000_0000_0000
  const M16: nat := 0x1_0000
  const MULT: nat := 0x5deece66d
  const ADD: nat := 0xb
  const SEED_LOW: nat := 0x330e

  // ---------------------------------------------------------------------------------------
  // The recurrence, and runs of it

  /** The state after `n` steps of x -> m x + a, over the integers. */
  function Iterate(m: nat, a: nat, x: nat, n: nat): nat {
    if n == 0 then x else m * Iterate(m, a, x, n - 1) + a
  }

  /** One step of the generator, as the header documents it. */
  function NextState(m: nat, a: nat, s: nat): (r: nat)
    ensures r < M48
  {
    (m * s + a) % 0x1_0000_0000_0000
  }

  /** The generator's state after `n` calls, starting from state `x`. */
  function StateAfter(m: nat, a: nat, x: nat, n: nat): nat {
    if n == 0 then x else NextState(m, a, StateAfter(m, a, x, n - 1))
  }

  // ---------------------------------------------------------------------------------------
  // Arithmetic

  lemma Pow2Of48()
    ensures Pow2(48) == M48
  {
    assert Pow2(12) == 0x1000;
    assert Pow2(24) == 0x1_000_000;
    assert Pow2(36) == 0x1_000_000_000;
  }

  function Times(x: int, y: int): int {
    x * y
  }

  /** x and y differ by a multiple of d. */
  ghost predicate Congruent(x: int, y: int, d: nat) {
    exists q: int :: x == y + Times(d, q)
  }

  lemma MulAdd(d: int, x: int, y: int)
    ensures Times(d, x + y) == Times(d, x) + Times(d, y)
    ensures Times(d, -x) == -Times(d, x)
    ensures Times(d, 1) == d && Times(d, 0) == 0
  {
  }

  lemma MulSwap(x: int, y: int, z: int)
    ensures Times(x, Times(y, z)) == Times(y, Times(x, z)) == Times(Times(y, x), z)
    ensures Times(x, y) == Times(y, x)
  {
  }

  lemma {:induction false} ModIsCongruent(x: int, d: nat)
    requires d > 0
    ensures Congruent(x % d, x, d)
  {
    MulAdd(d, x / d, 0);
    assert x % d == x + Times(d, -(x / d));
  }

  lemma SmallMultipleIsZero(z: int, d: nat, q: int)
    requires z < d && -z < d && z == Times(d, q)
    ensures z == 0
  {
    if q >= 1 {
      MulAdd(d, q - 1, 1);
      NonNegative(d, q - 1);
    } else if q <= -1 {
      MulAdd(d, q, 1);
      MulAdd(d, -q - 1, 0);
      NonNegative(d, -q - 1);
    }
  }

  lemma NonNegative(x: nat, y: nat)
    ensures Times(x, y) >= 0
  {
  }

  lemma SmallCongruentAreEqual(x: nat, y: nat, d: nat)
    requires x < d && y < d && Congruent(x, y, d)
    ensures x == y
  {
    var q :| x == y + Times(d, q);
    SmallMultipleIsZero(x - y, d, q);
  }

  lemma CongruentTransitive(x: int, y: int, z: int, d: nat)
    requires Congruent(x, y, d) && Congruent(y, z, d)
    ensures Congruent(x, z, d)
  {
    var q :| x == y + Times(d, q);
    var r :| y == z + Times(d, r);
    MulAdd(d, q, r);
    assert x == z + Times(d, q + r);
  }

  lemma CongruentSymmetric(x: int, y: int, d: nat)
    requires Congruent(x, y, d)
    ensures Congruent(y, x, d)
  {
    var q :| x == y + Times(d, q);
    MulAdd(d, q, 0);
    assert y == x + Times(d, -q);
  }

  lemma AffineKeepsCongruence(m: nat, a: nat, x: int, y: int, d: nat)
    requires Congruent(x, y, d)
    ensures Congruent(m * x + a, m * y + a, d)
  {
    var q :| x == y + Times(d, q);
    MulAdd(m, y, Times(d, q));
    MulSwap(m, d, q);
    assert m * x + a == (m * y + a) + Times(d, Times(m, q));
  }

  /** The masked recurrence follows the integer one. */
  lemma {:induction false} StateAfterIsIterate(m: nat, a: nat, x: nat, n: nat)
    ensures Congruent(StateAfter(m, a, x, n), Iterate(m, a, x, n), M48)
    ensures n > 0 || x < M48 ==> StateAfter(m, a, x, n) < M48
  {
    if n == 0 {
      assert x == x + Times(M48, 0);
    } else {
      StateAfterIsIterate(m, a, x, n - 1);
      var s, t := StateAfter(m, a, x, n - 1), Iterate(m, a, x, n - 1);
      AffineKeepsCongruence(m, a, s, t, M48);
      ModIsCongruent(m * s + a, M48);
      CongruentTransitive((m * s + a) % M48, m * s + a, m * t + a, M48);
    }
  }

  lemma IterateZero(m: nat, a: nat, x: nat)
    ensures Iterate(m, a, x, 0) == x
  {
  }

  lemma {:induction false} IterateAdds(m: nat, a: nat, x: nat, i: nat, j: nat)
    ensures Iterate(m, a, x, i + j) == Iterate(m, a, Iterate(m, a, x, i), j)
  {
    if j > 0 {
      IterateAdds(m, a, x, i, j - 1);
    }
  }

  // ---------------------------------------------------------------------------------------
  // 2^k steps move the state by an odd multiple of 2^k

  /** 2^k steps are one affine map A x + C; A is 1 mod 2^(k+2) and C is 2^k times an odd number. */
  lemma {:induction false} Doubling(m: nat, a: nat, k: nat) returns (A: nat, C: nat, p: nat, o: nat)
    requires m % 4 == 1 && a % 2 == 1
    ensures A == 1 + 4 * Times(Pow2(k), p) && C == Times(Pow2(k), o) && o % 2 == 1
    ensures forall x: nat :: Iterate(m, a, x, Pow2(k)) == Times(A, x) + C
  {
    hide Times, Iterate;
    if k == 0 {
      A, C, p, o := m, a, m / 4, a;
      MulOne(p);
      MulOne(o);
      forall x: nat
        ensures Iterate(m, a, x, 1) == Times(m, x) + a
      {
        IterateOnce(m, a, x);
      }
    } else {
      var B, D, r, v := Doubling(m, a, k - 1);
      var P := Pow2(k - 1);
      A, C, p, o := DoubleAffine(P, r, v, B, D);
      forall x: nat
        ensures Iterate(m, a, x, Pow2(k)) == Times(A, x) + C
      {
        IterateAdds(m, a, x, P, P);
        assert Iterate(m, a, x, P) == Times(B, x) + D;
        assert Iterate(m, a, Iterate(m, a, x, P), P) == Times(B, Times(B, x) + D) + D;
      }
    }
  }

  lemma IterateOnce(m: nat, a: nat, x: nat)
    ensures Iterate(m, a, x, 1) == Times(m, x) + a
  {
    assert Iterate(m, a, x, 0) == x;
  }

  /** Composing x -> B x + D with itself. */
  lemma DoubleAffine(P: nat, r: nat, v: nat, B: nat, D: nat) returns (A: nat, C: nat, p: nat, o: nat)
    requires B == 1 + 4 * Times(P, r) && D == Times(P, v) && v % 2 == 1
    ensures A == 1 + 4 * Times(2 * P, p) && C == Times(2 * P, o) && o % 2 == 1
    ensures forall x: nat :: Times(B, Times(B, x) + D) + D == Times(A, x) + C
  {
    hide Times;
    var u := Times(P, r);
    NonNegative(P, r);
    NonNegative(u, r);
    NonNegative(u, v);
    NonNegative(B, B);
    NonNegative(B, D);
    A, C := Times(B, B), Times(B, D) + D;
    p, o := r + 2 * Times(u, r), v + 2 * Times(u, v);
    SquareStep(P, r, u);
    ShiftStep(P, v, u);
    forall x: nat
      ensures Times(B, Times(B, x) + D) + D == Times(A, x) + C
    {
      MulAdd(B, Times(B, x), D);
      MulSwap(B, B, x);
    }
  }

  lemma SquareStep(P: nat, r: nat, u: nat)
    requires u == Times(P, r)
    ensures Times(1 + 4 * u, 1 + 4 * u) == 1 + 4 * Times(2 * P, r + 2 * Times(u, r))
  {
    assert Times(1 + 4 * u, 1 + 4 * u) == 1 + 8 * u + 16 * (u * u);
    SquareTerms(P, r, u);
  }

  lemma SquareTerms(P: nat, r: nat, u: nat)
    ensures Times(2 * P, r + 2 * Times(u, r)) == 2 * (P * r) + 4 * (u * (P * r))
  {
  }

  lemma ShiftStep(P: nat, v: nat, u: nat)
    ensures Times(1 + 4 * u, Times(P, v)) + Times(P, v) == Times(2 * P, v + 2 * Times(u, v))
  {
  }

  /** 2^k steps from `x` add an odd multiple of 2^k. */
  lemma Jump(m: nat, a: nat, k: nat, x: nat) returns (c: nat)
    requires m % 4 == 1 && a % 2 == 1
    ensures c % 2 == 1 && Iterate(m, a, x, Pow2(k)) == x + Times(Pow2(k), c)
  {
    var A, C, p, o := Doubling(m, a, k);
    c := 4 * (p * x) + o;
    JumpTerms(Pow2(k), p, o, x);
  }

  lemma JumpTerms(P: nat, p: nat, o: nat, x: nat)
    ensures Times(1 + 4 * Times(P, p), x) + Times(P, o) == x + Times(P, 4 * (p * x) + o)
  {
  }

  /** r jumps of 2^k steps move the state by 2^k times a number of the parity of r. */
  lemma {:induction false} Jumps(m: nat, a: nat, k: nat, x: nat, r: nat) returns (c: nat)
    requires m % 4 == 1 && a % 2 == 1
    ensures c % 2 == r % 2 && Iterate(m, a, x, Times(Pow2(k), r)) == x + Times(Pow2(k), c)
  {
    hide Times, Iterate, Pow2;
    var P := Pow2(k);
    if r == 0 {
      c := 0;
      MulAdd(P, 0, 0);
      IterateZero(m, a, x);
    } else {
      var d := Jumps(m, a, k, x, r - 1);
      NonNegative(P, d);
      NonNegative(P, r - 1);
      var e := Jump(m, a, k, x + Times(P, d));
      IterateAdds(m, a, x, Times(P, r - 1), P);
      MulAdd(P, r - 1, 1);
      c := d + e;
      MulAdd(P, d, e);
    }
  }

  // ---------------------------------------------------------------------------------------
  // Full period

  /** A state can repeat modulo 2^k only after a multiple of 2^k steps. */
  lemma {:induction false} ReturnsOnlyAtMultiples(m: nat, a: nat, k: nat, x: nat, n: nat) returns (r: nat)
    requires m % 4 == 1 && a % 2 == 1
    requires Congruent(Iterate(m, a, x, n), x, Pow2(k))
    ensures n == Times(Pow2(k), r)
  {
    hide Times, Iterate;
    if k == 0 {
      r := n;
      MulOne(n);
    } else {
      var P := Pow2(k - 1);
      var z :| Iterate(m, a, x, n) == x + Times(Pow2(k), z);
      HalveFactor(P, z);
      assert Congruent(Iterate(m, a, x, n), x, P);
      var h := ReturnsOnlyAtMultiples(m, a, k - 1, x, n);
      var c := Jumps(m, a, k - 1, x, h);
      Cancel(P, c, 2 * z);
      r := h / 2;
      HalveFactor(P, r);
    }
  }

  lemma MulOne(n: int)
    ensures Times(1, n) == n
  {
  }

  lemma HalveFactor(P: nat, z: int)
    ensures Times(2 * P, z) == Times(P, 2 * z)
  {
  }

  lemma Cancel(P: nat, c: int, z: int)
    requires P > 0 && Times(P, c) == Times(P, z)
    ensures c == z
  {
    MulAdd(P, c, -z);
    MulAdd(P, z, 0);
    var d := c - z;
    if d >= 1 {
      MulAdd(P, d - 1, 1);
      NonNegative(P, d - 1);
    } else if d <= -1 {
      MulAdd(P, d + 1, -1);
      MulAdd(P, -d - 1, 0);
      NonNegative(P, -d - 1);
    }
  }

  /** Every residue modulo 2^k is met within 2^k steps. */
  lemma {:induction false} Reaches(m: nat, a: nat, k: nat, x: nat, y: nat) returns (i: nat)
    requires m % 4 == 1 && a % 2 == 1
    ensures i < Pow2(k) && Congruent(Iterate(m, a, x, i), y, Pow2(k))
  {
    hide Times, Iterate;
    if k == 0 {
      i := 0;
      MulOne(x - y);
      IterateZero(m, a, x);
      assert x == y + Times(1, x - y);
    } else {
      var P := Pow2(k - 1);
      i := Reaches(m, a, k - 1, x, y);
      var here := Iterate(m, a, x, i);
      var z: int :| here == y + Times(P, z);
      if z % 2 == 0 {
        HalveFactor(P, z / 2);
        assert here == y + Times(Pow2(k), z / 2);
      } else {
        var c := Jump(m, a, k - 1, here);
        IterateAdds(m, a, x, i, P);
        i := i + P;
        MulAdd(P, z, c);
        HalveFactor(P, (z + c) / 2);
        assert Iterate(m, a, x, i) == y + Times(Pow2(k), (z + c) / 2);
      }
    }
  }

  /** Fewer than 2^48 steps lead from `x` to `y`. */
  ghost predicate Visits(m: nat, a: nat, x: nat, y: nat) {
    exists i: nat :: i < M48 && StateAfter(m, a, x, i) == y
  }

  /** From any 48-bit state every 48-bit state is reached. */
  ghost predicate ReachesEverything(m: nat, a: nat) {
    forall x: nat, y: nat :: x < M48 && y < M48 ==> Visits(m, a, x, y)
  }

  lemma ReachesWithinPeriod(m: nat, a: nat, x: nat, y: nat) returns (i: nat)
    requires m % 4 == 1 && a % 2 == 1 && x < M48 && y < M48
    ensures i < M48 && StateAfter(m, a, x, i) == y
  {
    Pow2Of48();
    i := Reaches(m, a, 48, x, y);
    StateAfterIsIterate(m, a, x, i);
    CongruentTransitive(StateAfter(m, a, x, i), Iterate(m, a, x, i), y, M48);
    SmallCongruentAreEqual(StateAfter(m, a, x, i), y, M48);
  }

  lemma {:induction false} StateAfterAdds(m: nat, a: nat, x: nat, i: nat, j: nat)
    ensures StateAfter(m, a, x, i + j) == StateAfter(m, a, StateAfter(m, a, x, i), j)
  {
    if j > 0 {
      StateAfterAdds(m, a, x, i, j - 1);
    }
  }

  /** No state occurs twice among the first 2^48. */
  lemma NoRepetition(m: nat, a: nat, x: nat, i: nat, j: nat)
    requires m % 4 == 1 && a % 2 == 1 && x < M48
    requires i < j < M48
    ensures StateAfter(m, a, x, i) != StateAfter(m, a, x, j)
  {
    var s, n := StateAfter(m, a, x, i), j - i;
    StateAfterIsIterate(m, a, x, i);
    StateAfterAdds(m, a, x, i, n);
    if StateAfter(m, a, s, n) == s {
      Pow2Of48();
      StateAfterIsIterate(m, a, s, n);
      CongruentSymmetric(StateAfter(m, a, s, n), Iterate(m, a, s, n), M48);
      var r := ReturnsOnlyAtMultiples(m, a, 48, s, n);
      SmallMultipleIsZero(n, M48, r);
    }
  }

  /** After 2^48 steps the generator is back where it started. */
  lemma ReturnsToStart(m: nat, a: nat, x: nat)
    requires m % 4 == 1 && a % 2 == 1 && x < M48
    ensures StateAfter(m, a, x, M48) == x
  {
    Pow2Of48();
    var c := Jump(m, a, 48, x);
    StateAfterIsIterate(m, a, x, M48);
    assert Iterate(m, a, x, M48) == x + Times(M48, c);
    CongruentTransitive(StateAfter(m, a, x, M48), Iterate(m, a, x, M48), x, M48);
    SmallCongruentAreEqual(StateAfter(m, a, x, M48), x, M48);
  }

  // ---------------------------------------------------------------------------------------
  // When the period is full: parameters set by lcong48 need not be the default ones

  /** The parameters of a full-period generator, by their residues modulo 4. */
  predicate FullPeriodParameters(m: nat, a: nat) {
    m % 4 == 1 && (a % 4 == 1 || a % 4 == 3)
  }

  /** The states met from 0 when the parameters are not those of a full-period generator. */
  predicate Confined(i: nat, b: nat, s: nat) {
    if b == 0 || b == 2 then s % 4 == 0 || s % 4 == 2
    else if i == 0 || i == 2 then s == 0 || s % 4 == 1 || s % 4 == 3
    else s % 4 == 0 || s % 4 == b
  }

  lemma {:induction false} ConfinedAlways(m: nat, a: nat, n: nat)
    requires !FullPeriodParameters(m, a)
    ensures Confined(m % 4, a % 4, StateAfter(m, a, 0, n))
  {
    hide NextState;
    if n > 0 {
      ConfinedAlways(m, a, n - 1);
      var s := StateAfter(m, a, 0, n - 1);
      NextMod4(m, a, s);
      ConfinedStep(m % 4, a % 4, s, NextState(m, a, s));
    }
  }

  lemma ConfinedStep(i: nat, b: nat, s: nat, t: nat)
    requires i < 4 && b < 4 && !(i == 1 && (b == 1 || b == 3))
    requires Confined(i, b, s) && t % 4 == (Times(i, s % 4) + b) % 4
    ensures Confined(i, b, t)
  {
    hide Times;
    SmallProduct(i, s % 4);
  }

  lemma SmallProduct(i: nat, j: nat)
    requires i < 4
    ensures Times(i, j) == if i == 0 then 0 else if i == 1 then j else if i == 2 then 2 * j else 3 * j
  {
  }

  lemma NextMod4(m: nat, a: nat, s: nat)
    ensures NextState(m, a, s) % 4 == (Times(m % 4, s % 4) + a % 4) % 4
  {
    hide Times;
    ProductMod4(m, s);
    ReduceMod4(Times(m, s), Times(m % 4, s % 4), a);
  }

  lemma ReduceMod4(t: int, u: int, a: nat)
    requires t % 4 == u % 4
    ensures ((t + a) % M48) % 4 == (u + a % 4) % 4
  {
    Division.ModMod(t + a, 4, 0x4000_0000_0000);
    SumMod4(t, u, a);
  }

  lemma SumMod4(t: int, u: int, a: int)
    requires t % 4 == u % 4
    ensures (t + a) % 4 == (u + a % 4) % 4
  {
  }

  lemma ProductMod4(x: nat, y: nat)
    ensures Times(x, y) % 4 == Times(x % 4, y % 4) % 4
    ensures Times(x, y) == x * y
  {
    var p, q := x / 4, y / 4;
    var i, j := x % 4, y % 4;
    ProductParts(p, q, i, j);
    FourTimes(4 * (p * q) + p * j + q * i, i * j);
  }

  lemma ProductParts(p: nat, q: nat, i: nat, j: nat)
    ensures (4 * p + i) * (4 * q + j) == 4 * (4 * (p * q) + p * j + q * i) + i * j
  {
    assert (4 * p + i) * (4 * q + j) == 16 * (p * q) + 4 * (p * j) + 4 * (i * q) + i * j;
    assert i * q == q * i;
  }

  lemma FourTimes(k: int, x: int)
    ensures (4 * k + x) % 4 == x % 4
  {
  }

  lemma MissesAState(m: nat, a: nat)
    requires !FullPeriodParameters(m, a)
    ensures !ReachesEverything(m, a)
  {
    var y := if a % 4 == 0 || a % 4 == 2 then 1 else 2;
    forall i: nat
      ensures StateAfter(m, a, 0, i) != y
    {
      ConfinedAlways(m, a, i);
    }
    assert !Visits(m, a, 0, y);
  }

  lemma Parameters(m: nat, a: nat)
    ensures FullPeriodParameters(m, a) <==> m % 4 == 1 && a % 2 == 1
  {
    Division.Split(a, 2, 2);
  }

  /**
    The generator passes through all 2^48 states exactly if the multiplier is 1 modulo 4 and the
    increment is odd.
   */
  lemma FullPeriodIff(m: nat, a: nat)
    ensures ReachesEverything(m, a) <==> m % 4 == 1 && a % 2 == 1
  {
    Parameters(m, a);
    hide FullPeriodParameters, StateAfter;
    if FullPeriodParameters(m, a) {
      forall x: nat, y: nat | x < M48 && y < M48
        ensures Visits(m, a, x, y)
      {
        var i := ReachesWithinPeriod(m, a, x, y);
      }
    } else {
      MissesAState(m, a);
    }
  }

  /** The default generator: 2^48 different states, all of them, and back to the start. */
  lemma DefaultPeriod(x: nat)
    requires x < M48
    ensures StateAfter(MULT, ADD, x, M48) == x
    ensures forall i: nat, j: nat :: i < j < M48 ==> StateAfter(MULT, ADD, x, i) != StateAfter(MULT, ADD, x, j)
    ensures forall y: nat :: y < M48 ==> Visits(MULT, ADD, x, y)
  {
    hide StateAfter, Visits;
    assert MULT % 4 == 1 && ADD % 2 == 1;
    ReturnsToStart(MULT, ADD, x);
    forall i: nat, j: nat | i < j < M48
      ensures StateAfter(MULT, ADD, x, i) != StateAfter(MULT, ADD, x, j)
    {
      NoRepetition(MULT, ADD, x, i, j);
    }
    FullPeriodIff(MULT, ADD);
  }

  // ---------------------------------------------------------------------------------------
  // The state as three 16-bit words

  predicate IsWords(w: seq<nat>) {
    |w| == 3 && w[0] < M16 && w[1] < M16 && w[2] < M16
  }

  /** The three words occupy disjoint bits, so joining them with OR is a sum. */
  function Join(w: seq<nat>): (v: nat)
    requires IsWords(w)
    ensures v < M48
  {
    w[2] * 0x1_0000_0000 + w[1] * 0x1_0000 + w[0]
  }

  function Split(v: nat): (w: seq<nat>)
    ensures IsWords(w)
  {
    [v % 0x1_0000, v / 0x1_0000 % 0x1_0000, v / 0x1_0000_0000 % 0x1_0000]
  }

  lemma JoinOfSplit(v: nat)
    ensures Join(Split(v)) == v % M48
  {
    SplitParts(v);
  }

  lemma SplitParts(v: nat)
    ensures v / 0x1_0000_0000 % 0x1_0000 * 0x1_0000_0000 + v / 0x1_0000 % 0x1_0000 * 0x1_0000 + v % 0x1_0000
         == v % 0x1_0000_0000_0000
  {
    Division.Split(v, 0x1_0000, 0x1_0000_0000);
    Division.Split(v / 0x1_0000, 0x1_0000, 0x1_0000);
    Division.Split(v, 0x1_0000, 0x1_0000);
  }

  /** The caller's array after `n` calls of nrand48. */
  function WordsAfter(m: nat, a: nat, w: seq<nat>, n: nat): (r: seq<nat>)
    requires IsWords(w)
    ensures IsWords(r)
  {
    if n == 0 then w else Split(NextState(m, a, Join(WordsAfter(m, a, w, n - 1))))
  }

  /** The array of nrand48 always holds the state lrand48 would have, so both draw the same numbers. */
  lemma {:induction false} ArrayFollowsState(m: nat, a: nat, w: seq<nat>, n: nat)
    requires IsWords(w)
    ensures Join(WordsAfter(m, a, w, n)) == StateAfter(m, a, Join(w), n)
  {
    hide NextState, Join, Split;
    if n > 0 {
      ArrayFollowsState(m, a, w, n - 1);
      var next := NextState(m, a, Join(WordsAfter(m, a, w, n - 1)));
      JoinOfSplit(next);
      Division.Small(next, M48);
    }
  }

  /** Reducing the 64-bit product and sum first does not change the masked result. */
  lemma WrapThenMask(s: nat, m: nat, a: nat)
    ensures (s * m % WORD + a) % WORD % M48 == NextState(m, a, s)
  {
    var t := s * m;
    assert t == m * s;
    WrapTwice(t, a);
  }

  lemma WrapTwice(t: nat, a: nat)
    ensures (t % WORD + a) % WORD % M48 == (t + a) % M48
  {
  }

  /** A seed of any width starts the sequence its low 32 bits start. */
  function SeedState(seed: int): (s: nat)
    ensures s < WORD
  {
    (seed % WORD * M16) % WORD + SEED_LOW
  }

  lemma SeedValue(seed: int)
    ensures SeedState(seed) == (seed % WORD * M16) % WORD + SEED_LOW
  {
  }

  lemma SeedLow(seed: int)
    ensures SeedState(seed) % M48 == seed % 0x1_0000_0000 * M16 + SEED_LOW
  {
    var s := seed % 0x1_0000_0000_0000_0000;
    var t := s % 0x1_0000_0000_0000;
    var x := t * 0x1_0000 + SEED_LOW;
    Division.Common(s, 0x1_0000, 0x1_0000_0000_0000);
    Division.Split(x, 0x1_0000, 0x1_0000_0000);
    Division.Unique(x, 0x1_0000, t, SEED_LOW);
    Division.ModMod(s, 0x1_0000_0000, 0x1_0000);
    Division.ModMod(seed, 0x1_0000_0000, 0x1_0000_0000);
  }

  lemma SeedUsesLow32Bits(seed: int, n: nat)
    requires n > 0
    ensures StateAfter(MULT, ADD, SeedState(seed), n)
         == StateAfter(MULT, ADD, seed % 0x1_0000_0000 * M16 + SEED_LOW, n)
  {
    var x, y := SeedState(seed), seed % 0x1_0000_0000 * M16 + SEED_LOW;
    SeedLow(seed);
    hide SeedState;
    if n == 1 {
      SameFirstStep(x, y);
    } else {
      SeedUsesLow32Bits(seed, n - 1);
    }
  }

  /** The first numbers after srand48(1). */
  lemma KnownDraws()
    ensures StateAfter(MULT, ADD, SeedState(1), 1) / 0x2_0000 == 89400484
    ensures StateAfter(MULT, ADD, SeedState(1), 2) / 0x2_0000 == 976015093
    ensures StateAfter(MULT, ADD, SeedState(1), 3) / 0x2_0000 == 1792756325
  {
    hide NextState;
    KnownStep(SeedState(1), 7, 11717900325121);
    KnownStep(11717900325121, 1049705143, 127928250295160);
    KnownStep(127928250295160, 11459983324, 234980157041187);
    assert StateAfter(MULT, ADD, SeedState(1), 0) == SeedState(1) == 78606;
    assert StateAfter(MULT, ADD, SeedState(1), 1) == 11717900325121;
    assert StateAfter(MULT, ADD, SeedState(1), 2) == 127928250295160;
  }

  lemma KnownStep(s: nat, q: nat, r: nat)
    requires MULT * s + ADD == M48 * q + r && r < M48
    ensures NextState(MULT, ADD, s) == r
  {
    Division.Unique(MULT * s + ADD, M48, q, r);
  }

  lemma SameFirstStep(x: nat, y: nat)
    requires x % M48 == y
    ensures StateAfter(MULT, ADD, x, 1) == StateAfter(MULT, ADD, y, 1)
  {
    assert StateAfter(MULT, ADD, x, 0) == x && StateAfter(MULT, ADD, y, 0) == y;
    ModIsCongruent(x, M48);
    AffineKeepsCongruence(MULT, ADD, y, x, M48);
    var p, q := MULT * x + ADD, MULT * y + ADD;
    ModIsCongruent(q, M48);
    ModIsCongruent(p, M48);
    CongruentSymmetric(p % M48, p, M48);
    CongruentTransitive(q % M48, q, p, M48);
    CongruentTransitive(q % M48, p, p % M48, M48);
    SmallCongruentAreEqual(q % M48, p % M48, M48);
  }

  // ---------------------------------------------------------------------------------------
  // The generator object

  /** The static variables of rand48.c. */
  class Generator {
    var state: nat
    var mult: nat
    var add: nat

    ghost predicate Valid()
      reads this
    {
      state < WORD && mult < WORD && add < WORD
    }

    constructor ()
      ensures Valid() && state == 0x1234abcd330e && mult == MULT && add == ADD
    {
      state, mult, add := 0x1234abcd330e, MULT, ADD;
    }

    method Step() returns (r: nat)
      requires Valid()
      modifies this`state
      ensures Valid() && r == state == NextState(mult, add, old(state))
    {
      WrapThenMask(state, mult, add);
      state := (state * mult % 0x1_0000_0000_0000_0000 + add) % 0x1_0000_0000_0000_0000 % 0x1_0000_0000_0000;
      r := state;
    }

    /** Draws from the internal state. */
    method Lrand48() returns (r: nat)
      requires Valid()
      modifies this`state
      ensures Valid() && state == NextState(mult, add, old(state))
      ensures r * 0x2_0000 <= state < (r + 1) * 0x2_0000 && r < 0x8000_0000
    {
      var s := Step();
      r := s / 0x2_0000;
    }

    static method ArrToU64(x: array<nat>) returns (v: nat)
      requires IsWords(x[..])
      ensures v == Join(x[..])
    {
      v := x[2] * 0x1_0000_0000 + x[1] * 0x1_0000 + x[0];
    }

    static method U64ToArr(v: nat, x: array<nat>)
      requires x.Length == 3
      modifies x
      ensures x[..] == Split(v)
    {
      x[0], x[1], x[2] := v % 0x1_0000, v / 0x1_0000 % 0x1_0000, v / 0x1_0000_0000 % 0x1_0000;
    }

    /** Draws from the caller's array; the internal state is not touched. */
    method Nrand48(x: array<nat>) returns (r: nat)
      requires Valid() && IsWords(x[..])
      modifies x
      ensures IsWords(x[..]) && Join(x[..]) == NextState(mult, add, old(Join(x[..])))
      ensures r * 0x2_0000 <= Join(x[..]) < (r + 1) * 0x2_0000 && r < 0x8000_0000
    {
      hide Join, Split, NextState;
      var v := ArrToU64(x);
      WrapThenMask(v, mult, add);
      v := (v * mult % 0x1_0000_0000_0000_0000 + add) % 0x1_0000_0000_0000_0000 % 0x1_0000_0000_0000;
      JoinOfSplit(v);
      Division.Small(v, M48);
      U64ToArr(v, x);
      r := v / 0x2_0000;
    }

    method Srand48(seed: int)
      modifies this
      ensures Valid() && state == SeedState(seed) && mult == MULT && add == ADD
    {
      SeedValue(seed);
      hide SeedState;
      state := (seed % WORD * M16) % WORD + SEED_LOW;
      mult, add := MULT, ADD;
    }

    /** Replaces the state and hands the old one back. */
    method Seed48(seed: array<nat>) returns (before: seq<nat>)
      requires Valid() && IsWords(seed[..])
      modifies this`state
      ensures Valid() && state == Join(seed[..])
      ensures IsWords(before) && Join(before) == old(state) % M48
    {
      before := [state % 0x1_0000, state / 0x1_0000 % 0x1_0000, state / 0x1_0000_0000 % 0x1_0000];
      assert before == Split(state);
      JoinOfSplit(state);
      state := ArrToU64(seed);
    }

    /** Sets state, multiplier and increment from seven 16-bit words. */
    method Lcong48(param: array<nat>)
      requires param.Length == 7 && forall i :: 0 <= i < 7 ==> param[i] < M16
      modifies this
      ensures Valid() && state == Join(param[..3]) && mult == Join(param[3..6]) && add == param[6]
    {
      state := param[2] * 0x1_0000_0000 + param[1] * 0x1_0000 + param[0];
      mult := param[5] * 0x1_0000_0000 + param[4] * 0x1_0000 + param[3];
      add := param[6];
    }
  }
}
