/** Byte-addressed memory with little-endian integers, and the bit tricks done on addresses. */
module ByteMemory {
  import opened Powers
  import opened Division

  type Byte = b: nat | b < 256

  /** Memory from address `base` up to the program break. */
  datatype Mem = Mem(base: nat, bytes: seq<Byte>) {
    function Break(): nat {
      base + |bytes|
    }
  }

  predicate InMem(m: Mem, a: nat, n: nat) {
    m.base <= a && a + n <= m.Break()
  }

  function Power(n: nat): (p: nat)
    ensures p > 0
  {
    if n == 0 then 1 else 256 * Power(n - 1)
  }

  /** The number stored least significant byte first. */
  function Decode(s: seq<Byte>): (v: nat)
    ensures v < Power(|s|)
  {
    if s == [] then 0 else s[0] + 256 * Decode(s[1..])
  }

  function Encode(v: nat, n: nat): (s: seq<Byte>)
    ensures |s| == n
  {
    if n == 0 then [] else [v % 256] + Encode(v / 256, n - 1)
  }

  lemma {:induction false} DecodeOfEncode(v: nat, n: nat)
    ensures Decode(Encode(v, n)) == v % Power(n)
  {
    if n > 0 {
      DecodeOfEncode(v / 256, n - 1);
      assert Encode(v, n)[1..] == Encode(v / 256, n - 1);
      Split(v, 256, Power(n - 1));
    } else {
      assert v % 1 == 0;
    }
  }

  function Load(m: Mem, a: nat, n: nat): nat
    requires InMem(m, a, n)
  {
    Decode(m.bytes[a - m.base..a - m.base + n])
  }

  function Store(m: Mem, a: nat, n: nat, v: nat): (r: Mem)
    requires InMem(m, a, n)
    ensures r.base == m.base && |r.bytes| == |m.bytes|
    ensures r.bytes[a - m.base..a - m.base + n] == Encode(v, n)
    ensures forall i :: 0 <= i < |m.bytes| && !(a - m.base <= i < a - m.base + n) ==> r.bytes[i] == m.bytes[i]
  {
    var o := a - m.base;
    m.(bytes := m.bytes[..o] + Encode(v, n) + m.bytes[o + n..])
  }

  lemma LoadOfStore(m: Mem, a: nat, n: nat, v: nat)
    requires InMem(m, a, n) && v < Power(n)
    ensures Load(Store(m, a, n, v), a, n) == v
  {
    DecodeOfEncode(v, n);
    Small(v, Power(n));
  }

  /** The bytes of two memories agree outside [lo, hi). */
  ghost predicate SameOutside(m: Mem, m': Mem, lo: nat, hi: nat) {
    && m'.base == m.base && |m'.bytes| >= |m.bytes|
    && forall i {:trigger m'.bytes[i]} {:trigger m.bytes[i]} ::
         0 <= i < |m.bytes| && !(lo <= m.base + i < hi) ==> m'.bytes[i] == m.bytes[i]
  }

  lemma LoadUntouched(m: Mem, m': Mem, lo: nat, hi: nat, a: nat, n: nat)
    requires SameOutside(m, m', lo, hi) && InMem(m, a, n) && (a + n <= lo || hi <= a)
    ensures InMem(m', a, n) && Load(m', a, n) == Load(m, a, n)
  {
    var o := a - m.base;
    assert m'.bytes[o..o + n] == m.bytes[o..o + n];
  }

  /** The low-order bytes of a stored number. */
  lemma {:induction false} DecodePrefix(s: seq<Byte>, k: nat)
    requires k <= |s|
    ensures Decode(s[..k]) == Decode(s) % Power(k)
  {
    if k > 0 {
      DecodePrefix(s[1..], k - 1);
      assert s[..k][1..] == s[1..][..k - 1];
      hide Power;
      DecodeStep(s);
      DecodeStep(s[..k]);
      PowerStep(k);
      Split(Decode(s), 256, Power(k - 1));
    } else {
      assert Decode(s) % 1 == 0;
    }
  }

  lemma PowerStep(k: nat)
    requires k > 0
    ensures Power(k) == 256 * Power(k - 1)
  {
  }

  lemma DecodeStep(s: seq<Byte>)
    requires s != []
    ensures Decode(s) == s[0] + 256 * Decode(s[1..])
    ensures Decode(s) % 256 == s[0] && Decode(s) / 256 == Decode(s[1..])
  {
  }

  lemma LoadLow(m: Mem, a: nat, n: nat, k: nat)
    requires InMem(m, a, n) && k <= n
    ensures Load(m, a, k) == Load(m, a, n) % Power(k)
  {
    hide Decode, Power;
    var o := a - m.base;
    DecodePrefix(m.bytes[o..o + n], k);
    assert m.bytes[o..o + n][..k] == m.bytes[o..o + k];
  }

  // ---------------------------------------------------------------------------------------
  // Bitwise AND on natural numbers

  function BitAnd(x: nat, y: nat): (r: nat)
    ensures r <= x
  {
    if x == 0 || y == 0 then 0 else 2 * BitAnd(x / 2, y / 2) + (if x % 2 == 1 && y % 2 == 1 then 1 else 0)
  }

  ghost predicate IsPowerOfTwo(a: nat) {
    exists k: nat :: a == Pow2(k)
  }

  lemma HalfIsPowerOfTwo(h: nat)
    ensures IsPowerOfTwo(2 * h) <==> h > 0 && IsPowerOfTwo(h)
    ensures !IsPowerOfTwo(2 * h + 1) || h == 0
  {
    if h > 0 && IsPowerOfTwo(h) {
      var k: nat :| h == Pow2(k);
      assert 2 * h == Pow2(k + 1);
    }
    forall k: nat
      ensures 2 * h == Pow2(k) ==> h > 0 && IsPowerOfTwo(h)
      ensures 2 * h + 1 == Pow2(k) ==> h == 0
    {
      if k > 0 {
        assert Pow2(k) == 2 * Pow2(k - 1);
      }
    }
  }

  /** a & (a - 1) is zero exactly for powers of two. */
  lemma {:induction false} PowerOfTwoTest(a: nat)
    requires a > 0
    ensures BitAnd(a, a - 1) == 0 <==> IsPowerOfTwo(a)
  {
    var h := a / 2;
    HalfIsPowerOfTwo(h);
    if a == 1 {
      assert a == Pow2(0);
    } else if a % 2 == 0 {
      PowerOfTwoTest(h);
      assert (a - 1) / 2 == h - 1;
    } else {
      assert (a - 1) / 2 == h;
      AndSelf(h);
    }
  }

  lemma {:induction false} AndSelf(x: nat)
    ensures BitAnd(x, x) == x
  {
    if x > 0 {
      AndSelf(x / 2);
    }
  }

  lemma AndStep(x: nat, y: nat)
    ensures BitAnd(x, y) == if x == 0 || y == 0 then 0 else 2 * BitAnd(x / 2, y / 2) + (if x % 2 == 1 && y % 2 == 1 then 1 else 0)
  {
  }

  /** Masks 2^n - 2^k and their halves. */
  lemma HalfMask(n: nat, k: nat)
    requires 0 < k <= n && Pow2(k - 1) <= Pow2(n - 1)
    ensures var y := Pow2(n) - Pow2(k); y >= 0 && y % 2 == 0 && y / 2 == Pow2(n - 1) - Pow2(k - 1)
  {
    Pow2Step(n);
    Pow2Step(k);
    hide Pow2;
  }

  /** x & ~(2^k - 1), on n-bit words, rounds down to a multiple of 2^k. */
  lemma {:induction false} RoundDown(x: nat, n: nat, k: nat)
    requires k <= n && x < Pow2(n)
    ensures Pow2(k) <= Pow2(n) && BitAnd(x, Pow2(n) - Pow2(k)) == x - x % Pow2(k)
  {
    hide BitAnd, Pow2;
    Pow2Step(n);
    Pow2Step(k);
    if k == 0 {
      AndOnes(x, n);
    } else {
      RoundDown(x / 2, n - 1, k - 1);
      HalfMask(n, k);
      AndStep(x, Pow2(n) - Pow2(k));
      AndStep(x / 2, 0);
      Split(x, 2, Pow2(k - 1));
    }
  }

  lemma {:induction false} AndOnes(x: nat, n: nat)
    requires x < Pow2(n)
    ensures BitAnd(x, Pow2(n) - 1) == x
  {
    hide BitAnd, Pow2;
    Pow2Step(n);
    AndStep(x, Pow2(n) - 1);
    if n > 0 && x > 0 {
      AndOnes(x / 2, n - 1);
      assert (Pow2(n) - 1) / 2 == Pow2(n - 1) - 1;
    }
  }
}
