/**
  The cipher with salt zero on words of named bits, so that whole encipherments can be computed.  The
  wiring of E and P is written out here; that it is the wiring of the standard is proved.
 */
module DesWords {
  import opened BitStrings
  import opened DesStandard
  import opened DesBoxes

  // ---------------------------------------------------------------------------------------
  // Words of named bits

  datatype Nib = Nib(a: bool, b: bool, c: bool, d: bool)

  datatype Six = Six(hi: bool, lo: bool, n: Nib)

  /** Half a block. */
  datatype Word = Word(n0: Nib, n1: Nib, n2: Nib, n3: Nib, n4: Nib, n5: Nib, n6: Nib, n7: Nib)

  /** A round key. */
  datatype Key = Key(k0: Six, k1: Six, k2: Six, k3: Six, k4: Six, k5: Six, k6: Six, k7: Six)

  /** The hexadecimal digits. */
  const X0 := Nib(false, false, false, false)
  const X1 := Nib(false, false, false, true)
  const X2 := Nib(false, false, true, false)
  const X3 := Nib(false, false, true, true)
  const X4 := Nib(false, true, false, false)
  const X5 := Nib(false, true, false, true)
  const X6 := Nib(false, true, true, false)
  const X7 := Nib(false, true, true, true)
  const X8 := Nib(true, false, false, false)
  const X9 := Nib(true, false, false, true)
  const XA := Nib(true, false, true, false)
  const XB := Nib(true, false, true, true)
  const XC := Nib(true, true, false, false)
  const XD := Nib(true, true, false, true)
  const XE := Nib(true, true, true, false)
  const XF := Nib(true, true, true, true)

  function Hex(n: nat): Nib {
    match n
    case 0 => X0 case 1 => X1 case 2 => X2 case 3 => X3 case 4 => X4 case 5 => X5 case 6 => X6 case 7 => X7
    case 8 => X8 case 9 => X9 case 10 => XA case 11 => XB case 12 => XC case 13 => XD case 14 => XE case _ => XF
  }

  function BitAt(n: Nib, c: nat): bool {
    match c case 0 => n.a case 1 => n.b case 2 => n.c case _ => n.d
  }

  function NibAt(w: Word, j: nat): Nib {
    match j
    case 0 => w.n0 case 1 => w.n1 case 2 => w.n2 case 3 => w.n3 case 4 => w.n4 case 5 => w.n5 case 6 => w.n6 case _ => w.n7
  }

  function SixBitAt(k: Six, c: nat): bool {
    match c case 0 => k.hi case 1 => k.lo case 2 => k.n.a case 3 => k.n.b case 4 => k.n.c case _ => k.n.d
  }

  function SixAt(k: Key, j: nat): Six {
    match j
    case 0 => k.k0 case 1 => k.k1 case 2 => k.k2 case 3 => k.k3 case 4 => k.k4 case 5 => k.k5 case 6 => k.k6 case _ => k.k7
  }

  /** Bits by number, counted from 1. */
  function BitOf(w: Word, e: nat): bool
    requires e > 0
  {
    BitAt(NibAt(w, (e - 1) / 4), (e - 1) % 4)
  }

  function KeyBit(k: Key, e: nat): bool
    requires e > 0
  {
    SixBitAt(SixAt(k, (e - 1) / 6), (e - 1) % 6)
  }

  function BitsOf(w: Word): (r: Half)
    ensures forall i :: 0 <= i < 32 ==> r[i] == BitOf(w, i + 1)
  {
    seq(32, i requires 0 <= i < 32 => BitOf(w, i + 1))
  }

  function KeyBits(k: Key): (r: RoundKey)
    ensures forall i :: 0 <= i < 48 ==> r[i] == KeyBit(k, i + 1)
  {
    seq(48, i requires 0 <= i < 48 => KeyBit(k, i + 1))
  }

  // ---------------------------------------------------------------------------------------
  // One round

  /** The row and the column looked up: four bits with a neighbour on either side, and six key bits. */
  function Outer(p: Nib, q: Nib, k: Six): nat {
    Four(false, false, p.d != k.hi, q.a != k.n.d)
  }

  function Inner(n: Nib, k: Six): nat {
    Four(n.a != k.lo, n.b != k.n.a, n.c != k.n.b, n.d != k.n.c)
  }

  function Chosen(r: Word, k: Key): Word {
    Word(Hex(S1(Outer(r.n7, r.n1, k.k0), Inner(r.n0, k.k0))), Hex(S2(Outer(r.n0, r.n2, k.k1), Inner(r.n1, k.k1))),
         Hex(S3(Outer(r.n1, r.n3, k.k2), Inner(r.n2, k.k2))), Hex(S4(Outer(r.n2, r.n4, k.k3), Inner(r.n3, k.k3))),
         Hex(S5(Outer(r.n3, r.n5, k.k4), Inner(r.n4, k.k4))), Hex(S6(Outer(r.n4, r.n6, k.k5), Inner(r.n5, k.k5))),
         Hex(S7(Outer(r.n5, r.n7, k.k6), Inner(r.n6, k.k6))), Hex(S8(Outer(r.n6, r.n0, k.k7), Inner(r.n7, k.k7))))
  }

  /** The left half with the permuted choices added. */
  function Mixed(l: Word, s: Word): Word {
    Word(Nib(l.n0.a != s.n3.d, l.n0.b != s.n1.c, l.n0.c != s.n4.d, l.n0.d != s.n5.a),
         Nib(l.n1.a != s.n7.a, l.n1.b != s.n2.d, l.n1.c != s.n6.d, l.n1.d != s.n4.a),
         Nib(l.n2.a != s.n0.a, l.n2.b != s.n3.c, l.n2.c != s.n5.c, l.n2.d != s.n6.b),
         Nib(l.n3.a != s.n1.a, l.n3.b != s.n4.b, l.n3.c != s.n7.c, l.n3.d != s.n2.b),
         Nib(l.n4.a != s.n0.b, l.n4.b != s.n1.d, l.n4.c != s.n5.d, l.n4.d != s.n3.b),
         Nib(l.n5.a != s.n7.d, l.n5.b != s.n6.c, l.n5.c != s.n0.c, l.n5.d != s.n2.a),
         Nib(l.n6.a != s.n4.c, l.n6.b != s.n3.a, l.n6.c != s.n7.b, l.n6.d != s.n1.b),
         Nib(l.n7.a != s.n5.b, l.n7.b != s.n2.c, l.n7.c != s.n0.d, l.n7.d != s.n6.a))
  }

  /** The wiring of P is that of Mixed. */
  lemma MixedBit(l: Word, s: Word, t: nat)
    requires t < 32
    ensures BitOf(Mixed(l, s), t + 1) == (BitOf(l, t + 1) != BitOf(s, PEntry(t)))
  {
    match t {
    case 0 => case 1 => case 2 => case 3 => case 4 => case 5 => case 6 => case 7 => case 8 => case 9 =>
    case 10 => case 11 => case 12 => case 13 => case 14 => case 15 =>
    case 16 => case 17 => case 18 => case 19 => case 20 => case 21 => case 22 => case 23 => case 24 => case 25 =>
    case 26 => case 27 => case 28 => case 29 => case 30 => case _ =>
    }
  }

  /** The input of the substitutions. */
  function Input(r: Word, k: Key): RoundKey {
    Xor(SaltedE(BitsOf(r), Zeros(24)), KeyBits(k))
  }

  lemma InputBit(r: Word, k: Key, i: nat, c: nat)
    requires i < 8 && c < 6
    ensures Input(r, k)[6 * i + c] == (BitOf(r, EEntry(6 * i + c)) != SixBitAt(SixAt(k, i), c))
  {
    hide EEntry, BitOf, SixAt, SixBitAt;
    var t := 6 * i + c;
    assert t / 6 == i && t % 6 == c;
    assert KeyBits(k)[t] == KeyBit(k, t + 1);
  }

  /** The wiring of E: blocks of four bits and their neighbours. */
  lemma BlockWiring(r: Word, i: nat)
    requires i < 8
    ensures var p, n, q := NibAt(r, (i + 7) % 8), NibAt(r, i), NibAt(r, (i + 1) % 8);
            && BitOf(r, EEntry(6 * i)) == p.d && BitOf(r, EEntry(6 * i + 1)) == n.a && BitOf(r, EEntry(6 * i + 2)) == n.b
            && BitOf(r, EEntry(6 * i + 3)) == n.c && BitOf(r, EEntry(6 * i + 4)) == n.d && BitOf(r, EEntry(6 * i + 5)) == q.a
  {
    match i { case 0 => case 1 => case 2 => case 3 => case 4 => case 5 => case 6 => case _ => }
  }

  lemma BlockRead(x: RoundKey, i: nat)
    requires i < 8
    ensures var b := x[6 * i..6 * i + 6];
            && Row(b) == 2 * Digit(x[6 * i]) + Digit(x[6 * i + 5])
            && Column(b) == Four(x[6 * i + 1], x[6 * i + 2], x[6 * i + 3], x[6 * i + 4])
  {
    hide Four;
  }

  lemma InputRow(r: Word, k: Key, i: nat)
    requires i < 8
    ensures Row(Input(r, k)[6 * i..6 * i + 6]) == Outer(NibAt(r, (i + 7) % 8), NibAt(r, (i + 1) % 8), SixAt(k, i))
  {
    hide EEntry, BitOf, Input, NibAt, SixAt, Row, Column;
    BlockWiring(r, i);
    BlockRead(Input(r, k), i);
    InputBit(r, k, i, 0);
    InputBit(r, k, i, 5);
  }

  lemma InputColumn(r: Word, k: Key, i: nat)
    requires i < 8
    ensures Column(Input(r, k)[6 * i..6 * i + 6]) == Inner(NibAt(r, i), SixAt(k, i))
  {
    hide EEntry, BitOf, Input, NibAt, SixAt, Row, Column;
    BlockWiring(r, i);
    BlockRead(Input(r, k), i);
    InputBit(r, k, i, 1);
    InputBit(r, k, i, 2);
    InputBit(r, k, i, 3);
    InputBit(r, k, i, 4);
  }

  lemma HexBits(v: Nibble)
    ensures var h := Hex(v); FromNat(v, 4) == [h.a, h.b, h.c, h.d]
  {
    hide FromNat;
    var a, b, c, d := FourBits(v);
    assert Hex(Four(a, b, c, d)) == Nib(a, b, c, d);
  }

  lemma ChosenAt(r: Word, k: Key, i: nat)
    requires i < 8
    ensures NibAt(Chosen(r, k), i) == Hex(Substitute(i, Input(r, k)[6 * i..6 * i + 6]))
  {
    hide S1, S2, S3, S4, S5, S6, S7, S8, Input, Hex, Substitute, Outer, Inner;
    var b := Input(r, k)[6 * i..6 * i + 6];
    InputRow(r, k, i);
    InputColumn(r, k, i);
    EntryOf(i, b);
    assert (16 * Row(b) + Column(b)) / 16 == Row(b) && (16 * Row(b) + Column(b)) % 16 == Column(b);
    hide Row, Column;
    match i { case 0 => case 1 => case 2 => case 3 => case 4 => case 5 => case 6 => case _ => }
  }

  lemma {:induction false} SubstitutesAt(x: RoundKey, n: nat, j: nat)
    requires j < n <= 8
    ensures Substitutes(x, n)[4 * j..4 * j + 4] == FromNat(Substitute(j, x[6 * j..6 * j + 6]), 4)
  {
    hide Substitute, FromNat;
    if j < n - 1 {
      SubstitutesAt(x, n - 1, j);
      assert Substitutes(x, n)[4 * j..4 * j + 4] == Substitutes(x, n - 1)[4 * j..4 * j + 4];
    }
  }

  lemma ChosenBit(r: Word, k: Key, e: nat)
    requires 1 <= e <= 32
    ensures Substitutes(Input(r, k), 8)[e - 1] == BitOf(Chosen(r, k), e)
  {
    hide Substitutes, Substitute, Input, Chosen, Hex, NibAt, FromNat;
    var j, c := (e - 1) / 4, (e - 1) % 4;
    var x := Substitutes(Input(r, k), 8);
    ChosenAt(r, k, j);
    SubstitutesAt(Input(r, k), 8, j);
    HexBits(Substitute(j, Input(r, k)[6 * j..6 * j + 6]));
    assert x[e - 1] == x[4 * j..4 * j + 4][c];
  }

  lemma FBit(r: Word, k: Key, t: nat)
    requires t < 32
    ensures F(BitsOf(r), KeyBits(k), Zeros(24))[t] == Substitutes(Input(r, k), 8)[PEntry(t) - 1] && P()[t] == PEntry(t)
  {
    hide Substitutes, PEntry;
  }

  /** One round of the standard. */
  lemma RoundIsMixed(l: Word, r: Word, k: Key)
    ensures Xor(BitsOf(l), F(BitsOf(r), KeyBits(k), Zeros(24))) == BitsOf(Mixed(l, Chosen(r, k)))
  {
    hide Substitutes, Input, Chosen, BitOf, Mixed, PEntry;
    var f := F(BitsOf(r), KeyBits(k), Zeros(24));
    forall t | 0 <= t < 32
      ensures Xor(BitsOf(l), f)[t] == BitsOf(Mixed(l, Chosen(r, k)))[t]
    {
      MixedBit(l, Chosen(r, k), t);
      ChosenBit(r, k, PEntry(t));
      FBit(r, k, t);
    }
  }

  // ---------------------------------------------------------------------------------------
  // The initial and the final permutation

  function BlockBits(a: Word, b: Word): Block {
    BitsOf(a) + BitsOf(b)
  }

  function BlockBit(a: Word, b: Word, e: nat): bool
    requires e > 0
  {
    if e <= 32 then BitOf(a, e) else BitOf(b, e - 32)
  }

  function InitialLeft(a: Word, b: Word): Word {
    Word(Nib(b.n6.b, b.n4.b, b.n2.b, b.n0.b), Nib(a.n6.b, a.n4.b, a.n2.b, a.n0.b),
         Nib(b.n6.d, b.n4.d, b.n2.d, b.n0.d), Nib(a.n6.d, a.n4.d, a.n2.d, a.n0.d),
         Nib(b.n7.b, b.n5.b, b.n3.b, b.n1.b), Nib(a.n7.b, a.n5.b, a.n3.b, a.n1.b),
         Nib(b.n7.d, b.n5.d, b.n3.d, b.n1.d), Nib(a.n7.d, a.n5.d, a.n3.d, a.n1.d))
  }

  function InitialRight(a: Word, b: Word): Word {
    Word(Nib(b.n6.a, b.n4.a, b.n2.a, b.n0.a), Nib(a.n6.a, a.n4.a, a.n2.a, a.n0.a),
         Nib(b.n6.c, b.n4.c, b.n2.c, b.n0.c), Nib(a.n6.c, a.n4.c, a.n2.c, a.n0.c),
         Nib(b.n7.a, b.n5.a, b.n3.a, b.n1.a), Nib(a.n7.a, a.n5.a, a.n3.a, a.n1.a),
         Nib(b.n7.c, b.n5.c, b.n3.c, b.n1.c), Nib(a.n7.c, a.n5.c, a.n3.c, a.n1.c))
  }

  lemma InitialLeftEarly(a: Word, b: Word, t: nat)
    requires t < 16
    ensures BitOf(InitialLeft(a, b), 1 + t) == BlockBit(a, b, IpEntry(t))
  {
    match t {
    case 0 => case 1 => case 2 => case 3 => case 4 => case 5 => case 6 => case 7 => case 8 => case 9 =>
    case 10 => case 11 => case 12 => case 13 => case 14 => case _ =>
    }
  }

  lemma InitialLeftLate(a: Word, b: Word, t: nat)
    requires t < 16
    ensures BitOf(InitialLeft(a, b), 17 + t) == BlockBit(a, b, IpEntry(16 + t))
  {
    match t {
    case 0 => case 1 => case 2 => case 3 => case 4 => case 5 => case 6 => case 7 => case 8 => case 9 =>
    case 10 => case 11 => case 12 => case 13 => case 14 => case _ =>
    }
  }

  lemma InitialRightEarly(a: Word, b: Word, t: nat)
    requires t < 16
    ensures BitOf(InitialRight(a, b), 1 + t) == BlockBit(a, b, IpEntry(32 + t))
  {
    match t {
    case 0 => case 1 => case 2 => case 3 => case 4 => case 5 => case 6 => case 7 => case 8 => case 9 =>
    case 10 => case 11 => case 12 => case 13 => case 14 => case _ =>
    }
  }

  lemma InitialRightLate(a: Word, b: Word, t: nat)
    requires t < 16
    ensures BitOf(InitialRight(a, b), 17 + t) == BlockBit(a, b, IpEntry(48 + t))
  {
    match t {
    case 0 => case 1 => case 2 => case 3 => case 4 => case 5 => case 6 => case 7 => case 8 => case 9 =>
    case 10 => case 11 => case 12 => case 13 => case 14 => case _ =>
    }
  }

  function FinalLeft(a: Word, b: Word): Word {
    Word(Nib(b.n1.d, a.n1.d, b.n3.d, a.n3.d), Nib(b.n5.d, a.n5.d, b.n7.d, a.n7.d),
         Nib(b.n1.c, a.n1.c, b.n3.c, a.n3.c), Nib(b.n5.c, a.n5.c, b.n7.c, a.n7.c),
         Nib(b.n1.b, a.n1.b, b.n3.b, a.n3.b), Nib(b.n5.b, a.n5.b, b.n7.b, a.n7.b),
         Nib(b.n1.a, a.n1.a, b.n3.a, a.n3.a), Nib(b.n5.a, a.n5.a, b.n7.a, a.n7.a))
  }

  function FinalRight(a: Word, b: Word): Word {
    Word(Nib(b.n0.d, a.n0.d, b.n2.d, a.n2.d), Nib(b.n4.d, a.n4.d, b.n6.d, a.n6.d),
         Nib(b.n0.c, a.n0.c, b.n2.c, a.n2.c), Nib(b.n4.c, a.n4.c, b.n6.c, a.n6.c),
         Nib(b.n0.b, a.n0.b, b.n2.b, a.n2.b), Nib(b.n4.b, a.n4.b, b.n6.b, a.n6.b),
         Nib(b.n0.a, a.n0.a, b.n2.a, a.n2.a), Nib(b.n4.a, a.n4.a, b.n6.a, a.n6.a))
  }

  lemma FinalLeftEarly(a: Word, b: Word, t: nat)
    requires t < 16
    ensures BitOf(FinalLeft(a, b), 1 + t) == BlockBit(a, b, FpEntry(t))
  {
    match t {
    case 0 => case 1 => case 2 => case 3 => case 4 => case 5 => case 6 => case 7 => case 8 => case 9 =>
    case 10 => case 11 => case 12 => case 13 => case 14 => case _ =>
    }
  }

  lemma FinalLeftLate(a: Word, b: Word, t: nat)
    requires t < 16
    ensures BitOf(FinalLeft(a, b), 17 + t) == BlockBit(a, b, FpEntry(16 + t))
  {
    match t {
    case 0 => case 1 => case 2 => case 3 => case 4 => case 5 => case 6 => case 7 => case 8 => case 9 =>
    case 10 => case 11 => case 12 => case 13 => case 14 => case _ =>
    }
  }

  lemma FinalRightEarly(a: Word, b: Word, t: nat)
    requires t < 16
    ensures BitOf(FinalRight(a, b), 1 + t) == BlockBit(a, b, FpEntry(32 + t))
  {
    match t {
    case 0 => case 1 => case 2 => case 3 => case 4 => case 5 => case 6 => case 7 => case 8 => case 9 =>
    case 10 => case 11 => case 12 => case 13 => case 14 => case _ =>
    }
  }

  lemma FinalRightLate(a: Word, b: Word, t: nat)
    requires t < 16
    ensures BitOf(FinalRight(a, b), 17 + t) == BlockBit(a, b, FpEntry(48 + t))
  {
    match t {
    case 0 => case 1 => case 2 => case 3 => case 4 => case 5 => case 6 => case 7 => case 8 => case 9 =>
    case 10 => case 11 => case 12 => case 13 => case 14 => case _ =>
    }
  }

  lemma InitialHalves(a: Word, b: Word)
    ensures Halves(Permute(IP(), BlockBits(a, b))) == Pair(BitsOf(InitialLeft(a, b)), BitsOf(InitialRight(a, b)))
  {
    hide IpEntry, BitOf, InitialLeft, InitialRight;
    var x := Permute(IP(), BlockBits(a, b));
    forall t | 0 <= t < 32
      ensures x[t] == BitOf(InitialLeft(a, b), t + 1)
    {
      if t < 16 {
        InitialLeftEarly(a, b, t);
      } else {
        InitialLeftLate(a, b, t - 16);
      }
    }
    forall t | 32 <= t < 64
      ensures x[t] == BitOf(InitialRight(a, b), t - 31)
    {
      if t < 48 {
        InitialRightEarly(a, b, t - 32);
      } else {
        InitialRightLate(a, b, t - 48);
      }
    }
    assert x[..32] == BitsOf(InitialLeft(a, b));
    assert x[32..] == BitsOf(InitialRight(a, b));
  }

  lemma FinalBlock(a: Word, b: Word)
    ensures Permute(FP(), BlockBits(a, b)) == BlockBits(FinalLeft(a, b), FinalRight(a, b))
  {
    hide FpEntry, BitOf, FinalLeft, FinalRight;
    var x := Permute(FP(), BlockBits(a, b));
    forall t | 0 <= t < 32
      ensures x[t] == BitOf(FinalLeft(a, b), t + 1)
    {
      if t < 16 {
        FinalLeftEarly(a, b, t);
      } else {
        FinalLeftLate(a, b, t - 16);
      }
    }
    forall t | 32 <= t < 64
      ensures x[t] == BitOf(FinalRight(a, b), t - 31)
    {
      if t < 48 {
        FinalRightEarly(a, b, t - 32);
      } else {
        FinalRightLate(a, b, t - 48);
      }
    }
  }

  // ---------------------------------------------------------------------------------------
  // The key schedule

  /** Half of the 56 key bits. */
  datatype Reg = Reg(n0: Nib, n1: Nib, n2: Nib, n3: Nib, n4: Nib, n5: Nib, n6: Nib)

  function RegBit(r: Reg, i: nat): bool {
    BitAt(RegAt(r, i / 4), i % 4)
  }

  function RegAt(r: Reg, j: nat): Nib {
    match j case 0 => r.n0 case 1 => r.n1 case 2 => r.n2 case 3 => r.n3 case 4 => r.n4 case 5 => r.n5 case _ => r.n6
  }

  function RegBits(r: Reg): (b: Bits)
    ensures |b| == 28 && forall i :: 0 <= i < 28 ==> b[i] == RegBit(r, i)
  {
    seq(28, i requires 0 <= i < 28 => RegBit(r, i))
  }

  function KeyLeft(a: Word, b: Word): Reg {
    Reg(Nib(b.n6.a, b.n4.a, b.n2.a, b.n0.a), Nib(a.n6.a, a.n4.a, a.n2.a, a.n0.a),
        Nib(b.n6.b, b.n4.b, b.n2.b, b.n0.b), Nib(a.n6.b, a.n4.b, a.n2.b, a.n0.b),
        Nib(b.n6.c, b.n4.c, b.n2.c, b.n0.c), Nib(a.n6.c, a.n4.c, a.n2.c, a.n0.c),
        Nib(b.n6.d, b.n4.d, b.n2.d, b.n0.d))
  }

  lemma KeyLeftBit(a: Word, b: Word, t: nat)
    requires t < 28
    ensures RegBit(KeyLeft(a, b), t) == BlockBit(a, b, Pc1Entry(t))
  {
    match t {
    case 0 => case 1 => case 2 => case 3 => case 4 => case 5 => case 6 => case 7 => case 8 => case 9 =>
    case 10 => case 11 => case 12 => case 13 => case 14 => case 15 =>
    case 16 => case 17 => case 18 => case 19 => case 20 => case 21 => case 22 => case 23 => case 24 => case 25 =>
    case 26 => case _ =>
    }
  }

  function KeyRight(a: Word, b: Word): Reg {
    Reg(Nib(b.n7.c, b.n5.c, b.n3.c, b.n1.c), Nib(a.n7.c, a.n5.c, a.n3.c, a.n1.c),
        Nib(b.n7.b, b.n5.b, b.n3.b, b.n1.b), Nib(a.n7.b, a.n5.b, a.n3.b, a.n1.b),
        Nib(b.n7.a, b.n5.a, b.n3.a, b.n1.a), Nib(a.n7.a, a.n5.a, a.n3.a, a.n1.a),
        Nib(a.n6.d, a.n4.d, a.n2.d, a.n0.d))
  }

  lemma KeyRightBit(a: Word, b: Word, t: nat)
    requires t < 28
    ensures RegBit(KeyRight(a, b), t) == BlockBit(a, b, Pc1Entry(28 + t))
  {
    match t {
    case 0 => case 1 => case 2 => case 3 => case 4 => case 5 => case 6 => case 7 => case 8 => case 9 =>
    case 10 => case 11 => case 12 => case 13 => case 14 => case 15 =>
    case 16 => case 17 => case 18 => case 19 => case 20 => case 21 => case 22 => case 23 => case 24 => case 25 =>
    case 26 => case _ =>
    }
  }

  function Turned1(r: Reg): Reg {
    Reg(Nib(r.n0.b, r.n0.c, r.n0.d, r.n1.a), Nib(r.n1.b, r.n1.c, r.n1.d, r.n2.a),
        Nib(r.n2.b, r.n2.c, r.n2.d, r.n3.a), Nib(r.n3.b, r.n3.c, r.n3.d, r.n4.a),
        Nib(r.n4.b, r.n4.c, r.n4.d, r.n5.a), Nib(r.n5.b, r.n5.c, r.n5.d, r.n6.a),
        Nib(r.n6.b, r.n6.c, r.n6.d, r.n0.a))
  }

  lemma Turned1Bits(r: Reg)
    ensures RegBits(Turned1(r)) == RotateLeft(RegBits(r), 1)
  {
    hide RegBit, Turned1;
    forall t | 0 <= t < 28
      ensures RegBits(Turned1(r))[t] == RotateLeft(RegBits(r), 1)[t]
    {
      Turned1Bit(r, t);
    }
  }

  lemma Turned1Bit(r: Reg, t: nat)
    requires t < 28
    ensures RegBit(Turned1(r), t) == RegBit(r, (t + 1) % 28)
  {
    match t {
    case 0 => case 1 => case 2 => case 3 => case 4 => case 5 => case 6 => case 7 => case 8 => case 9 =>
    case 10 => case 11 => case 12 => case 13 => case 14 => case 15 =>
    case 16 => case 17 => case 18 => case 19 => case 20 => case 21 => case 22 => case 23 => case 24 => case 25 =>
    case 26 => case _ =>
    }
  }

  function Turned2(r: Reg): Reg {
    Reg(Nib(r.n0.c, r.n0.d, r.n1.a, r.n1.b), Nib(r.n1.c, r.n1.d, r.n2.a, r.n2.b),
        Nib(r.n2.c, r.n2.d, r.n3.a, r.n3.b), Nib(r.n3.c, r.n3.d, r.n4.a, r.n4.b),
        Nib(r.n4.c, r.n4.d, r.n5.a, r.n5.b), Nib(r.n5.c, r.n5.d, r.n6.a, r.n6.b),
        Nib(r.n6.c, r.n6.d, r.n0.a, r.n0.b))
  }

  lemma Turned2Bits(r: Reg)
    ensures RegBits(Turned2(r)) == RotateLeft(RegBits(r), 2)
  {
    hide RegBit, Turned2;
    forall t | 0 <= t < 28
      ensures RegBits(Turned2(r))[t] == RotateLeft(RegBits(r), 2)[t]
    {
      Turned2Bit(r, t);
    }
  }

  lemma Turned2Bit(r: Reg, t: nat)
    requires t < 28
    ensures RegBit(Turned2(r), t) == RegBit(r, (t + 2) % 28)
  {
    match t {
    case 0 => case 1 => case 2 => case 3 => case 4 => case 5 => case 6 => case 7 => case 8 => case 9 =>
    case 10 => case 11 => case 12 => case 13 => case 14 => case 15 =>
    case 16 => case 17 => case 18 => case 19 => case 20 => case 21 => case 22 => case 23 => case 24 => case 25 =>
    case 26 => case _ =>
    }
  }

  function Compressed(c: Reg, d: Reg): Key {
    Key(Six(c.n3.b, c.n4.a, Nib(c.n2.c, c.n5.d, c.n0.a, c.n1.a)), Six(c.n0.c, c.n6.d, Nib(c.n3.c, c.n1.b, c.n5.a, c.n2.b)),
        Six(c.n5.c, c.n4.c, Nib(c.n2.d, c.n0.d, c.n6.b, c.n1.d)), Six(c.n3.d, c.n1.c, Nib(c.n6.c, c.n4.d, c.n3.a, c.n0.b)),
        Six(d.n3.a, d.n5.d, Nib(d.n0.c, d.n2.a, d.n4.c, d.n6.c)), Six(d.n0.b, d.n2.d, Nib(d.n5.c, d.n4.a, d.n1.a, d.n4.d)),
        Six(d.n3.d, d.n5.a, Nib(d.n2.c, d.n6.d, d.n1.b, d.n6.a)), Six(d.n4.b, d.n3.b, Nib(d.n5.b, d.n1.d, d.n0.a, d.n0.d)))
  }

  lemma CompressedLeft(c: Reg, d: Reg, t: nat)
    requires t < 24
    ensures Pc2Entry(t) <= 28 && KeyBit(Compressed(c, d), t + 1) == RegBit(c, Pc2Entry(t) - 1)
  {
    match t {
    case 0 => case 1 => case 2 => case 3 => case 4 => case 5 => case 6 => case 7 => case 8 => case 9 =>
    case 10 => case 11 => case 12 => case 13 => case 14 => case 15 =>
    case 16 => case 17 => case 18 => case 19 => case 20 => case 21 => case 22 => case _ =>
    }
  }

  lemma CompressedRight(c: Reg, d: Reg, t: nat)
    requires t < 24
    ensures 29 <= Pc2Entry(24 + t) && KeyBit(Compressed(c, d), 24 + t + 1) == RegBit(d, Pc2Entry(24 + t) - 29)
  {
    match t {
    case 0 => case 1 => case 2 => case 3 => case 4 => case 5 => case 6 => case 7 => case 8 => case 9 =>
    case 10 => case 11 => case 12 => case 13 => case 14 => case 15 =>
    case 16 => case 17 => case 18 => case 19 => case 20 => case 21 => case 22 => case _ =>
    }
  }

  /** The registers after the shifts of n rounds give the round key. */
  lemma RoundKeyIs(a: Word, b: Word, n: nat, c: Reg, d: Reg)
    requires n < 16 && Shifts(n + 1) <= 28
    requires RegBits(c) == RotateLeft(RegBits(KeyLeft(a, b)), Shifts(n + 1))
    requires RegBits(d) == RotateLeft(RegBits(KeyRight(a, b)), Shifts(n + 1))
    ensures RoundKeyOf(BlockBits(a, b), n) == KeyBits(Compressed(c, d))
  {
    hide Pc1Entry, Pc2Entry, BitOf, RegBit, KeyBit, KeyLeft, KeyRight, Compressed, Shifts, RotateLeft;
    var cd := Permute(PC1(), BlockBits(a, b));
    forall t | 0 <= t < 28
      ensures cd[t] == RegBit(KeyLeft(a, b), t)
    {
      KeyLeftBit(a, b, t);
    }
    forall t | 28 <= t < 56
      ensures cd[t] == RegBit(KeyRight(a, b), t - 28)
    {
      KeyRightBit(a, b, t - 28);
    }
    assert cd[..28] == RegBits(KeyLeft(a, b));
    assert cd[28..] == RegBits(KeyRight(a, b));
    forall t | 0 <= t < 48
      ensures Permute(PC2(), RegBits(c) + RegBits(d))[t] == KeyBit(Compressed(c, d), t + 1)
    {
      if t < 24 {
        CompressedLeft(c, d, t);
      } else {
        CompressedRight(c, d, t - 24);
      }
    }
  }

  lemma TurnedTwice(x: Bits, s: nat, k: nat)
    requires s + k <= |x|
    ensures RotateLeft(RotateLeft(x, s), k) == RotateLeft(x, s + k)
  {
    var y := RotateLeft(x, s);
    assert y[..k] == x[s..s + k];
    assert y[k..] == x[s + k..] + x[..s];
  }
}
