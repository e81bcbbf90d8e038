/**
  Lemmas between the tables, bit tricks and merged S-boxes of crypt.c and the standard's
  definitions.  Each states what one expression of the code computes, in the standard's terms.
 */
module DesCircuits {
  import opened BitStrings
  import opened Powers
  import opened DesStandard
  import opened DesMasks
  import opened DesInverse

  // ---------------------------------------------------------------------------------------
  // The selection tables repeat no bit: each has a position table that inverts it

  /** The place of a key bit in permuted choice 1, 0 for a parity bit. */
  function Pc1Position(i: nat): nat {
    match i
    case 0 => 8 case 1 => 16 case 2 => 24 case 3 => 56 case 4 => 52 case 5 => 44 case 6 => 36 case 7 => 0
    case 8 => 7 case 9 => 15 case 10 => 23 case 11 => 55 case 12 => 51 case 13 => 43 case 14 => 35 case 15 => 0
    case 16 => 6 case 17 => 14 case 18 => 22 case 19 => 54 case 20 => 50 case 21 => 42 case 22 => 34 case 23 => 0
    case 24 => 5 case 25 => 13 case 26 => 21 case 27 => 53 case 28 => 49 case 29 => 41 case 30 => 33 case 31 => 0
    case 32 => 4 case 33 => 12 case 34 => 20 case 35 => 28 case 36 => 48 case 37 => 40 case 38 => 32 case 39 => 0
    case 40 => 3 case 41 => 11 case 42 => 19 case 43 => 27 case 44 => 47 case 45 => 39 case 46 => 31 case 47 => 0
    case 48 => 2 case 49 => 10 case 50 => 18 case 51 => 26 case 52 => 46 case 53 => 38 case 54 => 30 case 55 => 0
    case 56 => 1 case 57 => 9 case 58 => 17 case 59 => 25 case 60 => 45 case 61 => 37 case 62 => 29 case _ => 0
  }

  /** The place of a bit in permuted choice 2, 0 if it is not selected. */
  function Pc2Position(i: nat): nat {
    match i
    case 0 => 5 case 1 => 24 case 2 => 7 case 3 => 16 case 4 => 6 case 5 => 10 case 6 => 20
    case 7 => 18 case 8 => 0 case 9 => 12 case 10 => 3 case 11 => 15 case 12 => 23 case 13 => 1
    case 14 => 9 case 15 => 19 case 16 => 2 case 17 => 0 case 18 => 14 case 19 => 22 case 20 => 11
    case 21 => 0 case 22 => 13 case 23 => 4 case 24 => 0 case 25 => 17 case 26 => 21 case 27 => 8
    case 28 => 47 case 29 => 31 case 30 => 27 case 31 => 48 case 32 => 35 case 33 => 41 case 34 => 0
    case 35 => 46 case 36 => 28 case 37 => 0 case 38 => 39 case 39 => 32 case 40 => 25 case 41 => 44
    case 42 => 0 case 43 => 37 case 44 => 34 case 45 => 43 case 46 => 29 case 47 => 36 case 48 => 38
    case 49 => 45 case 50 => 33 case 51 => 26 case 52 => 42 case 53 => 0 case 54 => 30 case _ => 40
  }

  /** The place of a bit in P. */
  function PPosition(i: nat): nat {
    match i
    case 0 => 9 case 1 => 17 case 2 => 23 case 3 => 31 case 4 => 13 case 5 => 28 case 6 => 2 case 7 => 18
    case 8 => 24 case 9 => 16 case 10 => 30 case 11 => 6 case 12 => 26 case 13 => 20 case 14 => 10 case 15 => 1
    case 16 => 8 case 17 => 14 case 18 => 25 case 19 => 3 case 20 => 4 case 21 => 29 case 22 => 11 case 23 => 19
    case 24 => 32 case 25 => 12 case 26 => 22 case 27 => 7 case 28 => 5 case 29 => 27 case 30 => 15 case _ => 21
  }

  ghost predicate Distinct(src: seq<nat>) {
    forall i, j :: 0 <= i < j < |src| ==> src[i] != src[j]
  }

  lemma Pc1InverseLow(i: nat)
    requires i < 28
    ensures Pc1Position(Pc1Entry(i) - 1) == i + 1
  {
  }

  lemma Pc1InverseHigh(i: nat)
    requires 28 <= i < 56
    ensures Pc1Position(Pc1Entry(i) - 1) == i + 1
  {
  }

  lemma Pc2InverseLow(i: nat)
    requires i < 24
    ensures Pc2Position(Pc2Entry(i) - 1) == i + 1
  {
  }

  lemma Pc2InverseHigh(i: nat)
    requires 24 <= i < 48
    ensures Pc2Position(Pc2Entry(i) - 1) == i + 1
  {
  }

  lemma PInverse(i: nat)
    requires i < 32
    ensures PPosition(PEntry(i) - 1) == i + 1
  {
  }

  lemma Pc1SkipsParity(i: nat)
    requires i < 56
    ensures (Pc1Entry(i) - 1) % 8 < 7
  {
  }

  lemma IpDistinct()
    ensures Distinct(IP())
  {
    hide IpEntry, FpEntry;
    forall i, j | 0 <= i < j < 64
      ensures IP()[i] != IP()[j]
    {
      FpAfterIpEntry(i);
      FpAfterIpEntry(j);
    }
  }

  lemma Pc1Distinct()
    ensures Distinct(PC1())
  {
    hide Pc1Entry, Pc1Position;
    forall i, j | 0 <= i < j < 56
      ensures PC1()[i] != PC1()[j]
    {
      if i < 28 { Pc1InverseLow(i); } else { Pc1InverseHigh(i); }
      if j < 28 { Pc1InverseLow(j); } else { Pc1InverseHigh(j); }
    }
  }

  lemma Pc2Distinct()
    ensures Distinct(PC2())
  {
    hide Pc2Entry, Pc2Position;
    forall i, j | 0 <= i < j < 48
      ensures PC2()[i] != PC2()[j]
    {
      if i < 24 { Pc2InverseLow(i); } else { Pc2InverseHigh(i); }
      if j < 24 { Pc2InverseLow(j); } else { Pc2InverseHigh(j); }
    }
  }

  lemma PDistinct()
    ensures Distinct(P())
  {
    hide PEntry, PPosition;
    forall i, j | 0 <= i < j < 32
      ensures P()[i] != P()[j]
    {
      PInverse(i);
      PInverse(j);
    }
  }

  // ---------------------------------------------------------------------------------------
  // The nine mask tables

  function IpShape(right: bool): (h: Shape)
    ensures WellShaped(h) && FieldsCover(h) && At(h.rows, h.stride) == 64
  {
    Sizes();
    Shape(8, 8, 8, IP(), 0, if right then 32 else 0)
  }

  function FpShape(right: bool): (h: Shape)
    ensures WellShaped(h) && FieldsCover(h) && At(h.rows, h.stride) == 64
  {
    Sizes();
    Shape(8, 8, 8, FP(), 0, if right then 32 else 0)
  }

  function KeyShape(right: bool): (h: Shape)
    ensures WellShaped(h) && FieldsCover(h) && At(h.rows, h.stride) == 64
  {
    Sizes();
    ParitySkipped();
    Shape(8, 8, 7, PC1(), 4, if right then 28 else 0)
  }

  function CompShape(right: bool): (h: Shape)
    ensures WellShaped(h) && FieldsCover(h) && At(h.rows, h.stride) == 56
  {
    Sizes();
    Shape(8, 7, 7, PC2(), 8, if right then 24 else 0)
  }

  function PShape(): (h: Shape)
    ensures WellShaped(h) && FieldsCover(h) && At(h.rows, h.stride) == 32 && h.rows == 4
  {
    Sizes();
    Shape(4, 8, 8, P(), 0, 0)
  }

  /** The names of the nine tables. */
  datatype Table = IpLeft | IpRight | FpLeft | FpRight | KeyLeft | KeyRight | CompLeft | CompRight | PBox

  function ShapeOf(w: Table): (h: Shape)
    ensures WellShaped(h)
  {
    match w
    case IpLeft => IpShape(false)
    case IpRight => IpShape(true)
    case FpLeft => FpShape(false)
    case FpRight => FpShape(true)
    case KeyLeft => KeyShape(false)
    case KeyRight => KeyShape(true)
    case CompLeft => CompShape(false)
    case CompRight => CompShape(true)
    case PBox => PShape()
  }

  lemma Sizes()
    ensures At(8, 8) == 64 && At(8, 7) == 56 && At(4, 8) == 32
  {
    assert At(2, 8) == 16;
    assert At(4, 8) == 32;
    assert At(6, 8) == 48;
    assert At(2, 7) == 14;
    assert At(4, 7) == 28;
    assert At(6, 7) == 42;
  }

  lemma ParitySkipped()
    ensures forall v :: 0 <= v < |PC1()| ==> (PC1()[v] - 1) % 8 < 7
  {
    hide Pc1Entry;
    forall v | 0 <= v < |PC1()|
      ensures (PC1()[v] - 1) % 8 < 7
    {
      Pc1SkipsParity(v);
    }
  }

  // ---------------------------------------------------------------------------------------
  // The E expansion by masks and shifts

  /** The constants 0x1, 0xf8000000, .. of the expansion are runs of ones. */
  lemma ExpansionMasks()
    ensures ToNat(Run(32, 31, 32)) == 0x00000001 && ToNat(Run(32, 0, 5)) == 0xf8000000
    ensures ToNat(Run(32, 3, 9)) == 0x1f800000 && ToNat(Run(32, 7, 13)) == 0x01f80000
    ensures ToNat(Run(32, 11, 17)) == 0x001f8000 && ToNat(Run(32, 15, 21)) == 0x0001f800
    ensures ToNat(Run(32, 19, 25)) == 0x00001f80 && ToNat(Run(32, 23, 29)) == 0x000001f8
    ensures ToNat(Run(32, 27, 32)) == 0x0000001f && ToNat(Run(32, 0, 1)) == 0x80000000
  {
    hide ToNat, Pow2, Run;
    ToNatOfRun(32, 31, 32); ToNatOfRun(32, 0, 5);
    ToNatOfRun(32, 3, 9); ToNatOfRun(32, 7, 13);
    ToNatOfRun(32, 11, 17); ToNatOfRun(32, 15, 21);
    ToNatOfRun(32, 19, 25); ToNatOfRun(32, 23, 29);
    ToNatOfRun(32, 27, 32); ToNatOfRun(32, 0, 1);
    MaskPowers();
  }

  lemma MaskPowers()
    ensures Pow2(0) == 1 && Pow2(1) == 2 && Pow2(3) == 8 && Pow2(5) == 0x20 && Pow2(7) == 0x80
    ensures Pow2(9) == 0x200 && Pow2(11) == 0x800 && Pow2(13) == 0x2000 && Pow2(15) == 0x8000
    ensures Pow2(17) == 0x20000 && Pow2(19) == 0x80000 && Pow2(21) == 0x200000 && Pow2(23) == 0x800000
    ensures Pow2(25) == 0x2000000 && Pow2(27) == 0x8000000 && Pow2(29) == 0x20000000
    ensures Pow2(31) == 0x80000000 && Pow2(32) == 0x100000000
  {
  }

  /** r48l: the first 24 bits of E in the low-order bits of a word. */
  function ExpandLeft(r: Half): (w: Half) {
    Or(Or(Or(Or(
      Shl(And(r, Run(32, 31, 32)), 23),
      Shr(And(r, Run(32, 0, 5)), 9)),
      Shr(And(r, Run(32, 3, 9)), 11)),
      Shr(And(r, Run(32, 7, 13)), 13)),
      Shr(And(r, Run(32, 11, 17)), 15))
  }

  /** r48r: the last 24 bits. */
  function ExpandRight(r: Half): (w: Half) {
    Or(Or(Or(Or(
      Shl(And(r, Run(32, 15, 21)), 7),
      Shl(And(r, Run(32, 19, 25)), 5)),
      Shl(And(r, Run(32, 23, 29)), 3)),
      Shl(And(r, Run(32, 27, 32)), 1)),
      Shr(And(r, Run(32, 0, 1)), 31))
  }

  /** E in closed form: overlapping groups of six, the ends wrapping around. */
  lemma EForm(i: nat)
    requires i < 48
    ensures EEntry(i) == if i == 0 then 32 else if i == 47 then 1 else 4 * (i / 6) + i % 6
  {
  }

  lemma ExpandLeftBit(r: Half, i: nat)
    requires i < 32
    ensures ExpandLeft(r)[i] == (i >= 8 && r[EEntry(i - 8) - 1])
  {
    hide EEntry, Or, And, Shl, Shr, Run;
    if i >= 8 {
      EForm(i - 8);
    }
  }

  lemma ExpandRightBit(r: Half, i: nat)
    requires i < 32
    ensures ExpandRight(r)[i] == (i >= 8 && r[EEntry(i + 16) - 1])
  {
    hide EEntry, Or, And, Shl, Shr, Run;
    if i >= 8 {
      EForm(i + 16);
    }
  }

  lemma ExpandIsE(r: Half)
    ensures ExpandLeft(r) == Zeros(8) + Permute(E(), r)[..24]
    ensures ExpandRight(r) == Zeros(8) + Permute(E(), r)[24..]
  {
    hide EEntry, ExpandLeft, ExpandRight;
    var e := Permute(E(), r);
    forall i | 0 <= i < 32
      ensures ExpandLeft(r)[i] == (Zeros(8) + e[..24])[i]
      ensures ExpandRight(r)[i] == (Zeros(8) + e[24..])[i]
    {
      ExpandLeftBit(r, i);
      ExpandRightBit(r, i);
    }
  }

  // ---------------------------------------------------------------------------------------
  // Salt, round key and S-boxes

  /** The two words of a 48-bit value. */
  function LowWord(x: Bits): (w: Half)
    requires |x| == 24
  {
    Zeros(8) + x
  }

  /** Exchanging the halves under the salt and adding the key, on words. */
  lemma SaltAndKey(r: Half, k: RoundKey, salt: Salt)
    ensures var a, b := ExpandLeft(r), ExpandRight(r);
            var f := And(Xor(a, b), LowWord(salt));
            var x := Xor(SaltedE(r, salt), k);
            && Xor(a, Xor(f, LowWord(k[..24]))) == LowWord(x[..24])
            && Xor(b, Xor(f, LowWord(k[24..]))) == LowWord(x[24..])
  {
    hide ExpandLeft, ExpandRight;
    ExpandIsE(r);
    hide E;
  }

  /** The entry of u_sbox[i][j], with the reordered index written as arithmetic. */
  function Unscrambled(i: nat, j: nat): (n: Nibble)
    requires j < 64
  {
    SBox(i, j / 32 * 32 + j % 2 * 16 + j / 2 % 16)
  }

  lemma UnscrambledIsSubstitute(i: nat, b: Bits)
    requires |b| == 6
    ensures ToNat(b) < 64 && Unscrambled(i, ToNat(b)) == Substitute(i, b)
  {
    hide SBox, ToNat, Pow2;
    SixBits(b);
    SmallNumber(b[1..5]);
  }

  lemma SmallNumber(a: Bits)
    requires |a| == 4
    ensures ToNat(a) < 16
  {
    assert Pow2(4) == 16;
  }

  lemma SixBits(b: Bits)
    requires |b| == 6
    ensures ToNat(b) == 32 * Digit(b[0]) + 2 * ToNat(b[1..5]) + Digit(b[5])
  {
    var inner := b[1..5];
    assert b == [b[0]] + inner + [b[5]];
    ToNatOfConcat([b[0]] + inner, [b[5]]);
    ToNatOfConcat([b[0]], inner);
    assert ToNat([b[0]]) == Digit(b[0]) && ToNat([b[5]]) == Digit(b[5]);
    assert Pow2(1) == 2 && Pow2(4) == 16;
  }

  /** m_sbox: entry 64 i + j of array b holds the outputs of two S-boxes. */
  ghost predicate IsMergedBox(m: seq<nat>, b: nat) {
    && |m| == 4096
    && forall x :: 0 <= x < 4096 ==> m[x] == 16 * Unscrambled(2 * b, x / 64) + Unscrambled(2 * b + 1, x % 64)
  }

  /** One merged lookup is two S-boxes of the standard. */
  lemma MergedLookup(m: seq<nat>, b: nat, c: Bits)
    requires IsMergedBox(m, b) && |c| == 12
    ensures ToNat(c) < 4096
    ensures m[ToNat(c)] == ToNat(FromNat(Substitute(2 * b, c[..6]), 4) + FromNat(Substitute(2 * b + 1, c[6..]), 4))
  {
    hide SBox, Unscrambled, Substitute, FromNat, ToNat;
    var p, q := c[..6], c[6..];
    TwelveBits(c);
    UnscrambledIsSubstitute(2 * b, p);
    UnscrambledIsSubstitute(2 * b + 1, q);
    TwoNibbles(Substitute(2 * b, p), Substitute(2 * b + 1, q));
    assert ToNat(c) / 64 == ToNat(p) && ToNat(c) % 64 == ToNat(q);
  }

  lemma TwelveBits(c: Bits)
    requires |c| == 12
    ensures ToNat(c[..6]) < 64 && ToNat(c[6..]) < 64
    ensures ToNat(c) == 64 * ToNat(c[..6]) + ToNat(c[6..]) < 4096
  {
    assert c == c[..6] + c[6..];
    assert Pow2(6) == 64;
    ToNatOfConcat(c[..6], c[6..]);
  }

  lemma TwoNibbles(s: Nibble, t: Nibble)
    ensures ToNat(FromNat(s, 4) + FromNat(t, 4)) == 16 * s + t
  {
    SixteenIsPow2();
    hide FromNat, ToNat, Pow2;
    ToNatOfFromNat(s, 4);
    ToNatOfFromNat(t, 4);
    ToNatOfConcat(FromNat(s, 4), FromNat(t, 4));
  }

  lemma SixteenIsPow2()
    ensures Pow2(4) == 16
  {
  }

  lemma {:induction false} SubstitutesPrefix(x: RoundKey, n: nat, m: nat)
    requires n <= m <= 8
    ensures Substitutes(x, m)[..4 * n] == Substitutes(x, n)
  {
    hide Substitute, FromNat;
    if n < m {
      SubstitutesPrefix(x, n, m - 1);
    }
  }

  /** Byte b of the S-box output. */
  lemma SubstitutesByte(x: RoundKey, b: nat)
    requires b < 4
    ensures Substitutes(x, 8)[8 * b..8 * b + 8]
         == FromNat(Substitute(2 * b, x[12 * b..12 * b + 12][..6]), 4)
          + FromNat(Substitute(2 * b + 1, x[12 * b..12 * b + 12][6..]), 4)
  {
    hide Substitute, FromNat, Substitutes;
    var n := 2 * b;
    SubstitutesPrefix(x, n + 2, 8);
    SubstitutesStep(x, n);
    SubstitutesStep(x, n + 1);
    SixAndSix(x, 12 * b);
    ByteAtEnd(Substitutes(x, 8), Substitutes(x, n), FromNat(Substitute(n, x[12 * b..12 * b + 6]), 4),
              FromNat(Substitute(n + 1, x[12 * b + 6..12 * b + 12]), 4));
  }

  lemma SubstitutesStep(x: RoundKey, n: nat)
    requires n < 8
    ensures Substitutes(x, n + 1) == Substitutes(x, n) + FromNat(Substitute(n, x[6 * n..6 * n + 6]), 4)
  {
  }

  lemma SixAndSix(x: Bits, lo: nat)
    requires lo + 12 <= |x|
    ensures x[lo..lo + 12][..6] == x[lo..lo + 6] && x[lo..lo + 12][6..] == x[lo + 6..lo + 12]
  {
  }

  lemma ByteAtEnd(all: Bits, front: Bits, s: Bits, t: Bits)
    requires |s| == 4 && |t| == 4 && |front| + 8 <= |all| && all[..|front| + 8] == front + s + t
    ensures all[|front|..|front| + 8] == s + t
  {
    assert all[|front|..|front| + 8] == all[..|front| + 8][|front|..];
  }

  // ---------------------------------------------------------------------------------------
  // The index expressions of the table lookups

  /** The bytes of a word: w >> 24, (w >> 16) & 0xff, (w >> 8) & 0xff, w & 0xff. */
  function ByteIndices(w: Half): (r: seq<nat>)
    ensures |r| == 4
  {
    [ToNat(Shr(w, 24)), IndexOf(w, 16, 8), IndexOf(w, 8, 8), IndexOf(w, 0, 8)]
  }

  /** Seven bits of every byte: w >> 25, (w >> 17) & 0x7f, (w >> 9) & 0x7f, (w >> 1) & 0x7f. */
  function KeyIndices(w: Half): (r: seq<nat>)
    ensures |r| == 4
  {
    [ToNat(Shr(w, 25)), IndexOf(w, 17, 7), IndexOf(w, 9, 7), IndexOf(w, 1, 7)]
  }

  /** The low 28 bits in sevens: (t >> 21) & 0x7f, (t >> 14) & 0x7f, (t >> 7) & 0x7f, t & 0x7f. */
  function SevenIndices(t: Half): (r: seq<nat>)
    ensures |r| == 4
  {
    [IndexOf(t, 21, 7), IndexOf(t, 14, 7), IndexOf(t, 7, 7), IndexOf(t, 0, 7)]
  }

  lemma ByteIndicesAre(w: Half)
    ensures forall k :: 0 <= k < 4 ==> ByteIndices(w)[k] == ToNat(w[8 * k..8 * k + 8])
  {
    hide ToNat, IndexOf;
    TopIndex(w, 24);
    FieldIndex(w, 16, 8);
    FieldIndex(w, 8, 8);
    FieldIndex(w, 0, 8);
    assert w[..8] == w[0..8];
  }

  lemma KeyIndicesAre(w: Half)
    ensures forall k :: 0 <= k < 4 ==> KeyIndices(w)[k] == ToNat(w[8 * k..8 * k + 7])
  {
    hide ToNat, IndexOf;
    TopIndex(w, 25);
    FieldIndex(w, 17, 7);
    FieldIndex(w, 9, 7);
    FieldIndex(w, 1, 7);
    assert w[..7] == w[0..7];
  }

  lemma SevenIndicesAre(t: Half)
    ensures forall k :: 0 <= k < 4 ==> SevenIndices(t)[k] == ToNat(t[4 + 7 * k..11 + 7 * k])
  {
    hide ToNat, IndexOf;
    FieldIndex(t, 21, 7);
    FieldIndex(t, 14, 7);
    FieldIndex(t, 7, 7);
    FieldIndex(t, 0, 7);
  }

  lemma {:induction false} AtSeven(k: nat)
    ensures At(k, 7) == 7 * k
  {
    if k > 0 {
      AtSeven(k - 1);
    }
  }

  /** The fields of two words, one behind the other, when four fields lie in each. */
  lemma BytesAreFields(h: Shape, l: Half, r: Half)
    requires h.rows == 8 && h.stride == 8 && h.width == 8
    ensures At(8, 8) == 64 && ByteIndices(l) + ByteIndices(r) == Fields(h, l + r)
  {
    hide ToNat, ByteIndices, At, Pow2;
    Sizes();
    ByteIndicesAre(l);
    ByteIndicesAre(r);
    var x, index := l + r, ByteIndices(l) + ByteIndices(r);
    forall k | 0 <= k < 8
      ensures index[k] == ToNat(Field(h, x, k))
    {
      AtEight(k);
      FieldOfTwo(l, r, k, 8 * k, 8);
    }
  }

  lemma KeyBitsAreFields(h: Shape, l: Half, r: Half)
    requires h.rows == 8 && h.stride == 8 && h.width == 7
    ensures At(8, 8) == 64 && KeyIndices(l) + KeyIndices(r) == Fields(h, l + r)
  {
    hide ToNat, KeyIndices, At, Pow2;
    Sizes();
    KeyIndicesAre(l);
    KeyIndicesAre(r);
    var x, index := l + r, KeyIndices(l) + KeyIndices(r);
    forall k | 0 <= k < 8
      ensures index[k] == ToNat(Field(h, x, k))
    {
      AtEight(k);
      FieldOfTwo(l, r, k, 8 * k, 7);
    }
  }

  lemma FieldOfTwo(l: Half, r: Half, k: nat, at: nat, w: nat)
    requires k < 8 && at == 8 * k && w <= 8
    ensures (l + r)[at..at + w] == if k < 4 then l[at..at + w] else r[at - 32..at - 32 + w]
  {
  }

  lemma SevensAreFields(h: Shape, t0: Half, t1: Half)
    requires h.rows == 8 && h.stride == 7 && h.width == 7
    ensures At(8, 7) == 56 && SevenIndices(t0) + SevenIndices(t1) == Fields(h, t0[4..] + t1[4..])
  {
    hide ToNat, SevenIndices, At, Pow2;
    Sizes();
    SevenIndicesAre(t0);
    SevenIndicesAre(t1);
    var x, index := t0[4..] + t1[4..], SevenIndices(t0) + SevenIndices(t1);
    forall k | 0 <= k < 8
      ensures index[k] == ToNat(Field(h, x, k))
    {
      AtSeven(k);
      SevenOfTwo(t0, t1, k);
    }
  }

  lemma SevenOfTwo(t0: Half, t1: Half, k: nat)
    requires k < 8
    ensures (t0[4..] + t1[4..])[7 * k..7 * k + 7]
         == if k < 4 then t0[4 + 7 * k..11 + 7 * k] else t1[7 * k - 24..7 * k - 17]
  {
  }

  // ---------------------------------------------------------------------------------------
  // Rotating a 28-bit half key in a 32-bit word

  function KeyWord(c: Bits): (w: Half)
    requires |c| == 28
  {
    Zeros(4) + c
  }

  lemma RotateInWord(c: Bits, s: nat)
    requires |c| == 28 && s <= 28
    ensures Or(Shl(KeyWord(c), s), Shr(KeyWord(c), 28 - s))[4..] == RotateLeft(c, s)
  {
    var w := Or(Shl(KeyWord(c), s), Shr(KeyWord(c), 28 - s));
    forall i | 0 <= i < 28
      ensures w[4..][i] == RotateLeft(c, s)[i]
    {
    }
  }

  /** The round keys of round n + 1, from the two half keys held in words. */
  lemma RoundKeyWords(key: Block, n: nat, compL: Masks, compR: Masks)
    requires n < 16 && IsMaskTable(CompShape(false), compL) && IsMaskTable(CompShape(true), compR)
    ensures Shifts(n + 1) <= 28
    ensures var cd := Permute(PC1(), key);
            var s := Shifts(n + 1);
            var k0, k1 := KeyWord(cd[..28]), KeyWord(cd[28..]);
            var index := SevenIndices(Or(Shl(k0, s), Shr(k0, 28 - s))) + SevenIndices(Or(Shl(k1, s), Shr(k1, 28 - s)));
            && LooksUp(compL, index, LowWord(RoundKeyOf(key, n)[..24]))
            && LooksUp(compR, index, LowWord(RoundKeyOf(key, n)[24..]))
  {
    hide Lookup, IsMaskTable, KeyWord, Shifts, PC1, PC2, Permute, RotateLeft, Or, Shl, Shr, SevenIndices, Fields, LooksUp;
    ShiftsFit(n + 1);
    var cd := Permute(PC1(), key);
    var s := Shifts(n + 1);
    RotateInWord(cd[..28], s);
    RotateInWord(cd[28..], s);
    var x := RotateLeft(cd[..28], s) + RotateLeft(cd[28..], s);
    var k0, k1 := KeyWord(cd[..28]), KeyWord(cd[28..]);
    CompLookup(compL, compR, Or(Shl(k0, s), Shr(k0, 28 - s)), Or(Shl(k1, s), Shr(k1, 28 - s)), x);
  }

  lemma CompLookup(compL: Masks, compR: Masks, t0: Half, t1: Half, x: Bits)
    requires IsMaskTable(CompShape(false), compL) && IsMaskTable(CompShape(true), compR) && x == t0[4..] + t1[4..]
    ensures var index := SevenIndices(t0) + SevenIndices(t1);
            && LooksUp(compL, index, LowWord(Permute(PC2(), x)[..24]))
            && LooksUp(compR, index, LowWord(Permute(PC2(), x)[24..]))
  {
    hide Lookup, IsMaskTable, PC2, Permute, SevenIndices, Fields, LooksUp;
    var index := SevenIndices(t0) + SevenIndices(t1);
    SevensAreFields(CompShape(false), t0, t1);
    SevensAreFields(CompShape(true), t0, t1);
    LookupByIndex(CompShape(false), compL, x, index);
    LookupByIndex(CompShape(true), compR, x, index);
    LookupIsPermutation(CompShape(false), compL, x);
    LookupIsPermutation(CompShape(true), compR, x);
    var y := Permute(PC2(), x);
    assert Zeros(8) + y[0..24] == LowWord(y[..24]) && Zeros(8) + y[24..48] == LowWord(y[24..]);
  }

  /** The two half keys in words. */
  lemma HalfKeyWords(key: Block, keyL: Masks, keyR: Masks)
    requires IsMaskTable(KeyShape(false), keyL) && IsMaskTable(KeyShape(true), keyR)
    ensures var index := KeyIndices(key[..32]) + KeyIndices(key[32..]);
            && LooksUp(keyL, index, KeyWord(Permute(PC1(), key)[..28]))
            && LooksUp(keyR, index, KeyWord(Permute(PC1(), key)[28..]))
  {
    hide Lookup, IsMaskTable, PC1, Permute, KeyIndices, Fields, LooksUp;
    var index := KeyIndices(key[..32]) + KeyIndices(key[32..]);
    KeyBitsAreFields(KeyShape(false), key[..32], key[32..]);
    KeyBitsAreFields(KeyShape(true), key[..32], key[32..]);
    assert key[..32] + key[32..] == key;
    LookupByIndex(KeyShape(false), keyL, key, index);
    LookupByIndex(KeyShape(true), keyR, key, index);
    LookupIsPermutation(KeyShape(false), keyL, key);
    LookupIsPermutation(KeyShape(true), keyR, key);
    var y := Permute(PC1(), key);
    assert Zeros(4) + y[0..28] == KeyWord(y[..28]) && Zeros(4) + y[28..56] == KeyWord(y[28..]);
  }

  /** IP or FP of two words through its two tables. */
  lemma BlockLookup(left: Shape, right: Shape, tl: Masks, tr: Masks, l: Half, r: Half)
    requires WellShaped(left) && WellShaped(right) && IsMaskTable(left, tl) && IsMaskTable(right, tr)
    requires left.rows == 8 && left.stride == 8 && left.width == 8 && left.off == 0 && left.lo == 0 && |left.src| == 64
    requires right == left.(lo := 32)
    ensures var index := ByteIndices(l) + ByteIndices(r);
            && LooksUp(tl, index, Permute(left.src, l + r)[..32])
            && LooksUp(tr, index, Permute(left.src, l + r)[32..])
  {
    hide Lookup, IsMaskTable, Permute, ByteIndices, Fields, LooksUp, At;
    var x, index := l + r, ByteIndices(l) + ByteIndices(r);
    BytesAreFields(left, l, r);
    BytesAreFields(right, l, r);
    LookupByIndex(left, tl, x, index);
    LookupByIndex(right, tr, x, index);
    LookupIsPermutation(left, tl, x);
    LookupIsPermutation(right, tr, x);
    var y := Permute(left.src, x);
    assert Zeros(0) + y[0..32] == y[..32] && Zeros(0) + y[32..64] == y[32..];
  }

  /** The two 12-bit indices taken from a word of the expanded half. */
  lemma TwelveBitIndices(x: Bits)
    requires |x| == 24
    ensures ToNat(Shr(LowWord(x), 12)) == ToNat(x[..12])
    ensures ToNat(And(LowWord(x), Run(32, 20, 32))) == ToNat(x[12..])
  {
    hide ToNat;
    assert Shr(LowWord(x), 12) == Zeros(20) + x[..12];
    assert And(LowWord(x), Run(32, 20, 32)) == Zeros(20) + x[12..];
    ToNatLeadingZeros(20, x[..12]);
    ToNatLeadingZeros(20, x[12..]);
  }

  /** The four merged lookups give the bytes of the S-box output. */
  lemma MergedBytes(m: seq<seq<nat>>, x: RoundKey, b: nat)
    requires |m| == 4 && b < 4 && IsMergedBox(m[b], b)
    ensures ToNat(x[12 * b..12 * b + 12]) < 4096
    ensures m[b][ToNat(x[12 * b..12 * b + 12])] == Fields(PShape(), Substitutes(x, 8))[b]
  {
    hide ToNat, FromNat, Substitute, Substitutes, Unscrambled;
    MergedLookup(m[b], b, x[12 * b..12 * b + 12]);
    SubstitutesByte(x, b);
    AtEight(b);
    assert Field(PShape(), Substitutes(x, 8), b) == Substitutes(x, 8)[8 * b..8 * b + 8];
  }

  /** The P lookup of those bytes is the cipher function's output. */
  lemma PermutedBytes(psbox: Masks, x: RoundKey, v: seq<nat>)
    requires IsMaskTable(PShape(), psbox) && v == Fields(PShape(), Substitutes(x, 8))
    ensures |psbox| == 4 && forall k :: 0 <= k < 4 ==> v[k] < |psbox[k]| && |psbox[k][v[k]]| == 32
    ensures OrRows(psbox, v, 4) == Permute(P(), Substitutes(x, 8))
  {
    hide Substitutes, Fields, OrRows, IsMaskRow, P;
    var s := Substitutes(x, 8);
    LookupDefined(PShape(), psbox, s);
    LookupIsPermutation(PShape(), psbox, s);
    assert Permute(P(), s)[0..32] == Permute(P(), s);
  }
}
