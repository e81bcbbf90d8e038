/**
  Machine words as lists of bits, most significant bit first, with the C operators on them and
  the conversion to and from natural numbers that array indexing needs.
 */
module BitStrings {
  import opened Powers

  type Bits = seq<bool>

  function Zeros(n: nat): (r: Bits)
    ensures |r| == n && forall i :: 0 <= i < n ==> !r[i]
  {
    seq(n, i => false)
  }

  function Or(a: Bits, b: Bits): (r: Bits)
    requires |a| == |b|
    ensures |r| == |a| && forall i :: 0 <= i < |a| ==> r[i] == (a[i] || b[i])
  {
    seq(|a|, i requires 0 <= i < |a| => a[i] || b[i])
  }

  function And(a: Bits, b: Bits): (r: Bits)
    requires |a| == |b|
    ensures |r| == |a| && forall i :: 0 <= i < |a| ==> r[i] == (a[i] && b[i])
  {
    seq(|a|, i requires 0 <= i < |a| => a[i] && b[i])
  }

  function Xor(a: Bits, b: Bits): (r: Bits)
    requires |a| == |b|
    ensures |r| == |a| && forall i :: 0 <= i < |a| ==> r[i] == (a[i] != b[i])
  {
    seq(|a|, i requires 0 <= i < |a| => a[i] != b[i])
  }

  /** a << k, keeping the width. */
  function Shl(a: Bits, k: nat): (r: Bits)
    requires k <= |a|
    ensures |r| == |a| && forall i :: 0 <= i < |a| ==> r[i] == (i + k < |a| && a[i + k])
  {
    a[k..] + Zeros(k)
  }

  /** a >> k, keeping the width. */
  function Shr(a: Bits, k: nat): (r: Bits)
    requires k <= |a|
    ensures |r| == |a| && forall i :: 0 <= i < |a| ==> r[i] == (i >= k && a[i - k])
  {
    Zeros(k) + a[..|a| - k]
  }

  /** The word of width n whose ones are the bits lo, .., hi - 1. */
  function Run(n: nat, lo: nat, hi: nat): (r: Bits)
    ensures |r| == n && forall i :: 0 <= i < n ==> r[i] == (lo <= i < hi)
  {
    seq(n, i requires 0 <= i < n => lo <= i < hi)
  }

  function Digit(b: bool): nat {
    if b then 1 else 0
  }

  /** The number a bit string denotes. */
  function ToNat(a: Bits): (n: nat)
    ensures n < Pow2(|a|)
  {
    if a == [] then 0 else 2 * ToNat(a[..|a| - 1]) + Digit(a[|a| - 1])
  }

  /** The w low-order bits of n. */
  function FromNat(n: nat, w: nat): (r: Bits)
    ensures |r| == w
  {
    if w == 0 then [] else FromNat(n / 2, w - 1) + [n % 2 == 1]
  }

  lemma {:induction false} FromNatOfToNat(a: Bits)
    ensures FromNat(ToNat(a), |a|) == a
  {
    if a != [] {
      FromNatOfToNat(a[..|a| - 1]);
      assert a == a[..|a| - 1] + [a[|a| - 1]];
    }
  }

  lemma {:induction false} ToNatOfFromNat(n: nat, w: nat)
    requires n < Pow2(w)
    ensures ToNat(FromNat(n, w)) == n
  {
    if w > 0 {
      ToNatOfFromNat(n / 2, w - 1);
      assert FromNat(n, w)[..w - 1] == FromNat(n / 2, w - 1);
    }
  }

  lemma {:induction false} ToNatOfConcat(a: Bits, b: Bits)
    ensures ToNat(a + b) == ToNat(a) * Pow2(|b|) + ToNat(b)
  {
    hide ToNat, Pow2;
    Pow2Step(|b|);
    if b == [] {
      assert a + b == a;
      ToNatStep([]);
    } else {
      var c := b[..|b| - 1];
      ToNatOfConcat(a, c);
      ToNatStep(a + b);
      ToNatStep(b);
      assert (a + b)[..|a + b| - 1] == a + c;
      Doubled(ToNat(a), Pow2(|c|));
    }
  }

  lemma ToNatStep(a: Bits)
    ensures a == [] ==> ToNat(a) == 0
    ensures a != [] ==> ToNat(a) == 2 * ToNat(a[..|a| - 1]) + Digit(a[|a| - 1])
  {
  }

  lemma Doubled(x: nat, p: nat)
    ensures x * (2 * p) == 2 * (x * p)
  {
  }

  lemma {:induction false} ToNatOfZeros(n: nat)
    ensures ToNat(Zeros(n)) == 0
  {
    if n > 0 {
      ToNatOfZeros(n - 1);
      assert Zeros(n)[..n - 1] == Zeros(n - 1);
    }
  }

  lemma ToNatLeadingZeros(n: nat, a: Bits)
    ensures ToNat(Zeros(n) + a) == ToNat(a)
  {
    hide ToNat, Pow2;
    ToNatOfConcat(Zeros(n), a);
    ToNatOfZeros(n);
  }

  /** A run of ones as a hexadecimal constant: 2^(n - lo) - 2^(n - hi). */
  lemma {:induction false} ToNatOfRun(n: nat, lo: nat, hi: nat)
    requires lo <= hi <= n
    ensures ToNat(Run(n, lo, hi)) == Pow2(n - lo) - Pow2(n - hi)
  {
    hide ToNat, Pow2;
    var r := Run(n, lo, hi);
    ToNatStep(r);
    Pow2Step(n - lo);
    Pow2Step(n - hi);
    if n > hi {
      ToNatOfRun(n - 1, lo, hi);
      assert r[..n - 1] == Run(n - 1, lo, hi);
    } else if lo == hi {
      assert r == Zeros(n);
      ToNatOfZeros(n);
    } else {
      ToNatOfRun(n - 1, lo, n - 1);
      assert r[..n - 1] == Run(n - 1, lo, n - 1);
    }
  }

  /** (a >> k) & mask, with w ones in the mask, as an array index. */
  function IndexOf(a: Bits, k: nat, w: nat): nat
    requires w + k <= |a|
  {
    ToNat(And(Shr(a, k), Run(|a|, |a| - w, |a|)))
  }

  /** That index is the number of a field of consecutive bits. */
  lemma FieldIndex(a: Bits, k: nat, w: nat)
    requires w + k <= |a|
    ensures IndexOf(a, k, w) == ToNat(a[|a| - k - w..|a| - k])
  {
    var f := a[|a| - k - w..|a| - k];
    hide ToNat;
    assert And(Shr(a, k), Run(|a|, |a| - w, |a|)) == Zeros(|a| - w) + f;
    ToNatLeadingZeros(|a| - w, f);
  }

  /** The leading field needs no mask. */
  lemma TopIndex(a: Bits, k: nat)
    requires k <= |a|
    ensures ToNat(Shr(a, k)) == ToNat(a[..|a| - k])
  {
    hide ToNat;
    ToNatLeadingZeros(k, a[..|a| - k]);
  }
}
