/**
  Two encipherments with known answers, computed round by round: the zero block under the zero key, and
  the block 0123456789ABCDEF under the key 133457799BBCDFF1.
 */
module DesKnown {
  import opened BitStrings
  import opened DesStandard
  import opened DesBoxes
  import opened DesWords

  // ---------------------------------------------------------------------------------------
  // From words to the cipher

  /** One more round. */
  lemma Advance(x: Pair, keys: Schedule, n: nat, l: Word, r: Word, k: Key, c: Word, s: Word)
    requires n < 16 && Rounds(x, keys, Zeros(24), n) == Pair(BitsOf(l), BitsOf(r)) && keys[n] == KeyBits(k)
    requires Chosen(r, k) == c && Mixed(l, c) == s
    ensures Rounds(x, keys, Zeros(24), n + 1) == Pair(BitsOf(r), BitsOf(s))
  {
    hide Chosen, Mixed, F, BitsOf, KeyBits;
    RoundIsMixed(l, r, k);
  }

  /** A number by its hexadecimal digits. */
  function Number(w: Word, high: nat): nat {
    Shifted(w.n7, Shifted(w.n6, Shifted(w.n5, Shifted(w.n4, Shifted(w.n3, Shifted(w.n2, Shifted(w.n1, Shifted(w.n0, high))))))))
  }

  function Shifted(d: Nib, high: nat): nat {
    16 * high + Four(d.a, d.b, d.c, d.d)
  }

  lemma ShiftedBits(d: Nib, high: nat, n: nat)
    ensures FromNat(Shifted(d, high), n + 4) == FromNat(high, n) + Bits4(d)
  {
    var x := Shifted(d, high);
    assert x / 2 == 8 * high + 4 * Digit(d.a) + 2 * Digit(d.b) + Digit(d.c);
    assert x / 2 / 2 == 4 * high + 2 * Digit(d.a) + Digit(d.b);
    assert x / 2 / 2 / 2 == 2 * high + Digit(d.a);
    assert FromNat(x / 2 / 2 / 2, n + 1) == FromNat(high, n) + [d.a];
    assert FromNat(x / 2 / 2, n + 2) == FromNat(high, n) + [d.a] + [d.b];
    assert FromNat(x / 2, n + 3) == FromNat(high, n) + [d.a] + [d.b] + [d.c];
  }

  lemma NumberBits(w: Word, high: nat, n: nat)
    ensures FromNat(Number(w, high), n + 32) == FromNat(high, n) + BitsOf(w)
  {
    hide FromNat, Shifted, Bits4;
    var a := Shifted(w.n0, high);
    var b := Shifted(w.n1, a);
    var c := Shifted(w.n2, b);
    var d := Shifted(w.n3, c);
    var e := Shifted(w.n4, d);
    var f := Shifted(w.n5, e);
    var g := Shifted(w.n6, f);
    ShiftedBits(w.n0, high, n);
    ShiftedBits(w.n1, a, n + 4);
    ShiftedBits(w.n2, b, n + 8);
    ShiftedBits(w.n3, c, n + 12);
    ShiftedBits(w.n4, d, n + 16);
    ShiftedBits(w.n5, e, n + 20);
    ShiftedBits(w.n6, f, n + 24);
    ShiftedBits(w.n7, g, n + 28);
    WordLaidOut(w, FromNat(high, n));
  }

  function Bits4(d: Nib): Bits {
    [d.a, d.b, d.c, d.d]
  }

  lemma DigitBit(w: Word, j: nat, c: nat)
    requires j < 8 && c < 4
    ensures BitsOf(w)[4 * j + c] == BitAt(NibAt(w, j), c)
  {
    hide NibAt, BitAt;
    assert (4 * j + c) / 4 == j && (4 * j + c) % 4 == c;
  }

  lemma FourOf(x: Bits, i: nat)
    requires i + 4 <= |x|
    ensures x[i..i + 4] == [x[i], x[i + 1], x[i + 2], x[i + 3]]
  {
  }

  lemma DigitBits(w: Word, j: nat)
    requires j < 8
    ensures BitsOf(w)[4 * j..4 * j + 4] == Bits4(NibAt(w, j))
  {
    hide NibAt, BitOf;
    DigitBit(w, j, 0);
    DigitBit(w, j, 1);
    DigitBit(w, j, 2);
    DigitBit(w, j, 3);
    FourOf(BitsOf(w), 4 * j);
  }

  lemma WordLaidOut(w: Word, x: Bits)
    ensures x + Bits4(w.n0) + Bits4(w.n1) + Bits4(w.n2) + Bits4(w.n3) + Bits4(w.n4) + Bits4(w.n5) + Bits4(w.n6) + Bits4(w.n7)
            == x + BitsOf(w)
  {
    hide BitsOf, Bits4;
    DigitBits(w, 0);
    DigitBits(w, 1);
    DigitBits(w, 2);
    DigitBits(w, 3);
    DigitBits(w, 4);
    DigitBits(w, 5);
    DigitBits(w, 6);
    DigitBits(w, 7);
    InEights(x, BitsOf(w));
  }

  lemma InEights(x: Bits, y: Bits)
    requires |y| == 32
    ensures x + y[0..4] + y[4..8] + y[8..12] + y[12..16] + y[16..20] + y[20..24] + y[24..28] + y[28..32] == x + y
  {
    assert y == y[0..4] + y[4..8] + y[8..12] + y[12..16] + y[16..20] + y[20..24] + y[24..28] + y[28..32];
  }

  /** A block by its sixteen digits. */
  lemma BlockNumber(a: Word, b: Word)
    ensures FromNat(Number(b, Number(a, 0)), 64) == BlockBits(a, b)
  {
    hide Number, FromNat, BitsOf;
    NumberBits(a, 0, 0);
    NumberBits(b, Number(a, 0), 32);
    NoDigits();
  }

  lemma NoDigits()
    ensures FromNat(0, 0) == []
  {
  }

  /** Enciphering, from the halves after sixteen rounds. */
  lemma Enciphered(a: Word, b: Word, keys: Schedule, l: Word, r: Word)
    requires Rounds(Halves(Permute(IP(), BlockBits(a, b))), keys, Zeros(24), 16) == Pair(BitsOf(l), BitsOf(r))
    ensures EncipherTimes(BlockBits(a, b), keys, Zeros(24), 1) == BlockBits(FinalLeft(r, l), FinalRight(r, l))
  {
    hide Rounds, FinalLeft, FinalRight, BitsOf, IP, FP;
    FinalBlock(r, l);
    assert EncipherTimes(BlockBits(a, b), keys, Zeros(24), 0) == BlockBits(a, b);
  }

  // ---------------------------------------------------------------------------------------
  // The zero block under the zero key

  const Z0 := Word(X0, X0, X0, X0, X0, X0, X0, X0)
  const Z1 := Word(X0, X0, X0, X0, X0, X0, X0, X0)
  const Z2 := Word(XD, X8, XD, X8, XD, XB, XB, XC)
  const Z3 := Word(XE, X7, X3, XA, XE, XD, X4, XF)
  const Z4 := Word(X5, XB, XF, XA, X6, XB, XA, X6)
  const Z5 := Word(X5, XE, X4, X5, XE, X2, X5, X7)
  const Z6 := Word(X8, XB, X1, X9, X7, XB, XE, X0)
  const Z7 := Word(XF, XD, XE, X9, X8, X9, X4, XA)
  const Z8 := Word(X1, X9, XD, XF, X0, XB, X5, XC)
  const Z9 := Word(X9, X0, X7, XA, X1, X3, XF, X0)
  const Z10 := Word(X8, X8, X1, X9, X0, XC, X5, X0)
  const Z11 := Word(X2, X5, XD, X1, X5, X1, X7, XC)
  const Z12 := Word(XF, X3, XE, XF, X9, X1, X7, XE)
  const Z13 := Word(X9, X6, XE, X3, X9, X7, X1, X2)
  const Z14 := Word(X5, XA, X5, XD, XA, X3, X4, XA)
  const Z15 := Word(X0, X5, X8, XC, XA, XD, X0, XA)
  const Z16 := Word(XB, XB, XE, XA, X0, XD, XC, X2)
  const Z17 := Word(X1, XC, X2, X0, X8, X7, XF, XC)

  const ZOut0 := Word(XE, XF, XA, X7, X2, XC, X4, XD)
  const ZOut1 := Word(X5, XB, XB, X9, X9, X7, XF, X3)
  const ZOut2 := Word(X5, X4, X0, X5, X8, X7, X1, X2)
  const ZOut3 := Word(X2, XC, XC, X3, XD, XE, X6, XB)
  const ZOut4 := Word(X9, X2, X6, XF, X0, XA, X0, X2)
  const ZOut5 := Word(XA, XD, XA, X1, XD, X7, X9, X1)
  const ZOut6 := Word(X8, X5, X2, X7, X6, XD, X1, X6)
  const ZOut7 := Word(XF, X6, X5, X4, XB, X4, X4, XF)
  const ZOut8 := Word(XA, X0, XA, X3, XC, XC, X2, X2)
  const ZOut9 := Word(XA, X9, X7, X1, XB, XE, X0, X2)
  const ZOut10 := Word(XD, X2, XA, X6, XD, XE, X7, XF)
  const ZOut11 := Word(X7, X1, X2, X9, X9, XE, X7, X6)
  const ZOut12 := Word(XA, X4, X2, X5, X9, X3, X4, XE)
  const ZOut13 := Word(X2, XC, X4, X7, XC, XF, X1, X3)
  const ZOut14 := Word(XE, X2, X4, X1, XF, X7, X6, X3)
  const ZOut15 := Word(XB, XC, X2, X8, XE, XB, X0, XD)

  const ZKey := Key(Six(false, false, X0), Six(false, false, X0), Six(false, false, X0), Six(false, false, X0),
    Six(false, false, X0), Six(false, false, X0), Six(false, false, X0), Six(false, false, X0))

  lemma ZChosen0() ensures Chosen(Z1, ZKey) == ZOut0 {}
  lemma ZMixed0() ensures Mixed(Z0, ZOut0) == Z2 {}
  lemma ZChosen1() ensures Chosen(Z2, ZKey) == ZOut1 {}
  lemma ZMixed1() ensures Mixed(Z1, ZOut1) == Z3 {}
  lemma ZChosen2() ensures Chosen(Z3, ZKey) == ZOut2 {}
  lemma ZMixed2() ensures Mixed(Z2, ZOut2) == Z4 {}
  lemma ZChosen3() ensures Chosen(Z4, ZKey) == ZOut3 {}
  lemma ZMixed3() ensures Mixed(Z3, ZOut3) == Z5 {}
  lemma ZChosen4() ensures Chosen(Z5, ZKey) == ZOut4 {}
  lemma ZMixed4() ensures Mixed(Z4, ZOut4) == Z6 {}
  lemma ZChosen5() ensures Chosen(Z6, ZKey) == ZOut5 {}
  lemma ZMixed5() ensures Mixed(Z5, ZOut5) == Z7 {}
  lemma ZChosen6() ensures Chosen(Z7, ZKey) == ZOut6 {}
  lemma ZMixed6() ensures Mixed(Z6, ZOut6) == Z8 {}
  lemma ZChosen7() ensures Chosen(Z8, ZKey) == ZOut7 {}
  lemma ZMixed7() ensures Mixed(Z7, ZOut7) == Z9 {}
  lemma ZChosen8() ensures Chosen(Z9, ZKey) == ZOut8 {}
  lemma ZMixed8() ensures Mixed(Z8, ZOut8) == Z10 {}
  lemma ZChosen9() ensures Chosen(Z10, ZKey) == ZOut9 {}
  lemma ZMixed9() ensures Mixed(Z9, ZOut9) == Z11 {}
  lemma ZChosen10() ensures Chosen(Z11, ZKey) == ZOut10 {}
  lemma ZMixed10() ensures Mixed(Z10, ZOut10) == Z12 {}
  lemma ZChosen11() ensures Chosen(Z12, ZKey) == ZOut11 {}
  lemma ZMixed11() ensures Mixed(Z11, ZOut11) == Z13 {}
  lemma ZChosen12() ensures Chosen(Z13, ZKey) == ZOut12 {}
  lemma ZMixed12() ensures Mixed(Z12, ZOut12) == Z14 {}
  lemma ZChosen13() ensures Chosen(Z14, ZKey) == ZOut13 {}
  lemma ZMixed13() ensures Mixed(Z13, ZOut13) == Z15 {}
  lemma ZChosen14() ensures Chosen(Z15, ZKey) == ZOut14 {}
  lemma ZMixed14() ensures Mixed(Z14, ZOut14) == Z16 {}
  lemma ZChosen15() ensures Chosen(Z16, ZKey) == ZOut15 {}
  lemma ZMixed15() ensures Mixed(Z15, ZOut15) == Z17 {}

  lemma ZRounds(keys: Schedule)
    requires forall i :: 0 <= i < 16 ==> keys[i] == KeyBits(ZKey)
    ensures Rounds(Pair(BitsOf(Z0), BitsOf(Z1)), keys, Zeros(24), 16) == Pair(BitsOf(Z16), BitsOf(Z17))
  {
    hide Chosen, Mixed, BitsOf, KeyBits;
    var x := Pair(BitsOf(Z0), BitsOf(Z1));
    assert Rounds(x, keys, Zeros(24), 0) == x;
    hide Rounds;
    ZChosen0(); ZMixed0();
    Advance(x, keys, 0, Z0, Z1, ZKey, ZOut0, Z2);
    ZChosen1(); ZMixed1();
    Advance(x, keys, 1, Z1, Z2, ZKey, ZOut1, Z3);
    ZChosen2(); ZMixed2();
    Advance(x, keys, 2, Z2, Z3, ZKey, ZOut2, Z4);
    ZChosen3(); ZMixed3();
    Advance(x, keys, 3, Z3, Z4, ZKey, ZOut3, Z5);
    ZChosen4(); ZMixed4();
    Advance(x, keys, 4, Z4, Z5, ZKey, ZOut4, Z6);
    ZChosen5(); ZMixed5();
    Advance(x, keys, 5, Z5, Z6, ZKey, ZOut5, Z7);
    ZChosen6(); ZMixed6();
    Advance(x, keys, 6, Z6, Z7, ZKey, ZOut6, Z8);
    ZChosen7(); ZMixed7();
    Advance(x, keys, 7, Z7, Z8, ZKey, ZOut7, Z9);
    ZChosen8(); ZMixed8();
    Advance(x, keys, 8, Z8, Z9, ZKey, ZOut8, Z10);
    ZChosen9(); ZMixed9();
    Advance(x, keys, 9, Z9, Z10, ZKey, ZOut9, Z11);
    ZChosen10(); ZMixed10();
    Advance(x, keys, 10, Z10, Z11, ZKey, ZOut10, Z12);
    ZChosen11(); ZMixed11();
    Advance(x, keys, 11, Z11, Z12, ZKey, ZOut11, Z13);
    ZChosen12(); ZMixed12();
    Advance(x, keys, 12, Z12, Z13, ZKey, ZOut12, Z14);
    ZChosen13(); ZMixed13();
    Advance(x, keys, 13, Z13, Z14, ZKey, ZOut13, Z15);
    ZChosen14(); ZMixed14();
    Advance(x, keys, 14, Z14, Z15, ZKey, ZOut14, Z16);
    ZChosen15(); ZMixed15();
    Advance(x, keys, 15, Z15, Z16, ZKey, ZOut15, Z17);
  }

  lemma ZeroWords()
    ensures BlockBits(Z0, Z0) == Zeros(64) && KeyBits(ZKey) == Zeros(48) && InitialLeft(Z0, Z0) == Z0 && InitialRight(Z0, Z0) == Z1
  {
    forall i | 0 <= i < 32
      ensures !BitsOf(Z0)[i]
    {
    }
    forall i | 0 <= i < 48
      ensures !KeyBits(ZKey)[i]
    {
    }
    hide BitOf, KeyBit;
  }

  lemma ZeroSchedule(i: nat)
    requires i < 16
    ensures KeySchedule(Zeros(64))[i] == Zeros(48)
  {
    hide Pc1Entry, Pc2Entry, Shifts;
    ShiftsFit(i + 1);
    var cd := Permute(PC1(), Zeros(64));
    assert cd[..28] == Zeros(28) && cd[28..] == Zeros(28);
    assert RotateLeft(Zeros(28), Shifts(i + 1)) == Zeros(28);
    assert Zeros(28) + Zeros(28) == Zeros(56);
    assert Permute(PC2(), Zeros(56)) == Zeros(48);
  }

  const ZLeft := Word(X8, XC, XA, X6, X4, XD, XE, X9)
  const ZRight := Word(XC, X1, XB, X1, X2, X3, XA, X7)

  lemma ZFinal() ensures FinalLeft(Z17, Z16) == ZLeft && FinalRight(Z17, Z16) == ZRight {}

  lemma ZLeftNumber() ensures Number(ZLeft, 0) == 0x8CA64DE9 {}
  lemma ZNumber() ensures Number(ZRight, 0x8CA64DE9) == 0x8CA64DE9C1B123A7 {}

  /** The answer published for the zero block under the zero key. */
  lemma ZeroKnown()
    ensures EncipherTimes(Zeros(64), KeySchedule(Zeros(64)), Zeros(24), 1) == FromNat(0x8CA64DE9C1B123A7, 64)
  {
    hide Rounds, BitsOf, KeyBits, InitialLeft, InitialRight, FinalLeft, FinalRight, EncipherTimes, FromNat, Number, IP, KeySchedule;
    var keys := KeySchedule(Zeros(64));
    ZeroWords();
    forall i | 0 <= i < 16
      ensures keys[i] == KeyBits(ZKey)
    {
      ZeroSchedule(i);
    }
    InitialHalves(Z0, Z0);
    ZRounds(keys);
    Enciphered(Z0, Z0, keys, Z16, Z17);
    ZFinal();
    BlockNumber(ZLeft, ZRight);
    ZLeftNumber();
    ZNumber();
  }

  // ---------------------------------------------------------------------------------------
  // A key schedule, round by round

  ghost predicate AfterRounds(a: Word, b: Word, n: nat, c: Reg, d: Reg) {
    && n <= 16 && Shifts(n) <= 28
    && RegBits(c) == RotateLeft(RegBits(KeyLeft(a, b)), Shifts(n)) && RegBits(d) == RotateLeft(RegBits(KeyRight(a, b)), Shifts(n))
  }

  lemma BeforeRounds(a: Word, b: Word)
    ensures AfterRounds(a, b, 0, KeyLeft(a, b), KeyRight(a, b))
  {
    hide KeyLeft, KeyRight, RegBits;
    assert RotateLeft(RegBits(KeyLeft(a, b)), 0) == RegBits(KeyLeft(a, b));
    assert RotateLeft(RegBits(KeyRight(a, b)), 0) == RegBits(KeyRight(a, b));
  }

  function Turned(r: Reg, k: nat): Reg {
    if k == 1 then Turned1(r) else Turned2(r)
  }

  lemma NextRoundKey(a: Word, b: Word, n: nat, c: Reg, d: Reg, c': Reg, d': Reg)
    requires AfterRounds(a, b, n, c, d) && n < 16 && Turned(c, Rotation(n)) == c' && Turned(d, Rotation(n)) == d'
    ensures AfterRounds(a, b, n + 1, c', d') && RoundKeyOf(BlockBits(a, b), n) == KeyBits(Compressed(c', d'))
  {
    hide KeyLeft, KeyRight, RegBits, KeyBits, Compressed, RotateLeft, Turned1, Turned2, Rotation;
    ShiftsFit(n + 1);
    var k := Rotation(n);
    if k == 1 {
      Turned1Bits(c);
      Turned1Bits(d);
    } else {
      Turned2Bits(c);
      Turned2Bits(d);
    }
    TurnedTwice(RegBits(KeyLeft(a, b)), Shifts(n), k);
    TurnedTwice(RegBits(KeyRight(a, b)), Shifts(n), k);
    RoundKeyIs(a, b, n, c', d');
  }

  // ---------------------------------------------------------------------------------------
  // The block 0123456789ABCDEF under the key 133457799BBCDFF1

  const V0 := Word(XC, XC, X0, X0, XC, XC, XF, XF)
  const V1 := Word(XF, X0, XA, XA, XF, X0, XA, XA)
  const V2 := Word(XE, XF, X4, XA, X6, X5, X4, X4)
  const V3 := Word(XC, XC, X0, X1, X7, X7, X0, X9)
  const V4 := Word(XA, X2, X5, XC, X0, XB, XF, X4)
  const V5 := Word(X7, X7, X2, X2, X0, X0, X4, X5)
  const V6 := Word(X8, XA, X4, XF, XA, X6, X3, X7)
  const V7 := Word(XE, X9, X6, X7, XC, XD, X6, X9)
  const V8 := Word(X0, X6, X4, XA, XB, XA, X1, X0)
  const V9 := Word(XD, X5, X6, X9, X4, XB, X9, X0)
  const V10 := Word(X2, X4, X7, XC, XC, X6, X7, XA)
  const V11 := Word(XB, X7, XD, X5, XD, X7, XB, X2)
  const V12 := Word(XC, X5, X7, X8, X3, XC, X7, X8)
  const V13 := Word(X7, X5, XB, XD, X1, X8, X5, X8)
  const V14 := Word(X1, X8, XC, X3, X1, X5, X5, XA)
  const V15 := Word(XC, X2, X8, XC, X9, X6, X0, XD)
  const V16 := Word(X4, X3, X4, X2, X3, X2, X3, X4)
  const V17 := Word(X0, XA, X4, XC, XD, X9, X9, X5)

  const VOut0 := Word(X5, XC, X8, X2, XB, X5, X9, X7)
  const VOut1 := Word(XF, X8, XD, X0, X3, XA, XA, XE)
  const VOut2 := Word(X2, X7, X1, X0, XE, X1, X6, XF)
  const VOut3 := Word(X2, X1, XE, XD, X9, XF, X3, XA)
  const VOut4 := Word(X5, X0, XC, X8, X3, X1, XE, XB)
  const VOut5 := Word(X4, X1, XF, X3, X4, XC, X3, XD)
  const VOut6 := Word(X1, X0, X7, X5, X4, X0, XA, XD)
  const VOut7 := Word(X6, XC, X1, X8, X7, XC, XA, XE)
  const VOut8 := Word(X1, X1, X0, XC, X5, X7, X7, X7)
  const VOut9 := Word(XD, XA, X0, X4, X5, X2, X7, X5)
  const VOut10 := Word(X7, X3, X0, X5, XD, X1, X0, X1)
  const VOut11 := Word(X7, XB, X8, XB, X2, X6, X3, X5)
  const VOut12 := Word(X9, XA, XD, X1, X8, XB, X4, XF)
  const VOut13 := Word(X6, X4, X7, X9, X9, XA, XF, X1)
  const VOut14 := Word(XB, X2, XE, X8, X8, XD, X3, XC)
  const VOut15 := Word(XA, X7, X8, X3, X2, X4, X2, X9)

  const VKey0 := Key(Six(false, false, X6), Six(true, true, X0), Six(false, false, XB), Six(true, false, XF),
    Six(true, true, XF), Six(false, false, X7), Six(false, false, X1), Six(true, true, X2))
  const VKey1 := Key(Six(false, true, XE), Six(false, true, XA), Six(true, true, XB), Six(false, true, X9),
    Six(true, true, X6), Six(true, true, XC), Six(true, false, X7), Six(true, false, X5))
  const VKey2 := Key(Six(false, true, X5), Six(false, true, XF), Six(true, true, X2), Six(false, false, XA),
    Six(false, true, X0), Six(true, false, XC), Six(true, true, XE), Six(false, true, X9))
  const VKey3 := Key(Six(false, true, XC), Six(true, false, XA), Six(true, true, X7), Six(false, true, X6),
    Six(true, true, X6), Six(true, true, X3), Six(false, true, X4), Six(false, true, XD))
  const VKey4 := Key(Six(false, true, XF), Six(false, false, XE), Six(true, true, X0), Six(false, false, X7),
    Six(true, true, XA), Six(true, true, X5), Six(false, false, XE), Six(true, false, X8))
  const VKey5 := Key(Six(false, true, X8), Six(true, true, XA), Six(false, true, X4), Six(true, true, XE),
    Six(false, true, X4), Six(false, false, X7), Six(true, false, XC), Six(true, false, XF))
  const VKey6 := Key(Six(true, true, XB), Six(false, false, X8), Six(false, true, X2), Six(true, true, X7),
    Six(true, true, XD), Six(true, false, X1), Six(true, false, X2), Six(true, true, XC))
  const VKey7 := Key(Six(true, true, XD), Six(true, true, X8), Six(true, false, X8), Six(true, true, XA),
    Six(true, true, X0), Six(false, true, X3), Six(true, false, XF), Six(true, true, XB))
  const VKey8 := Key(Six(true, true, X8), Six(false, false, XD), Six(true, false, XF), Six(true, false, XB),
    Six(true, true, XB), Six(false, true, XE), Six(false, true, XE), Six(false, false, X1))
  const VKey9 := Key(Six(true, false, XC), Six(false, true, XF), Six(false, false, XD), Six(false, false, X7),
    Six(true, false, XE), Six(true, false, X4), Six(false, true, X9), Six(false, false, XF))
  const VKey10 := Key(Six(false, false, X8), Six(false, true, X5), Six(true, true, XF), Six(false, true, X3),
    Six(true, true, X7), Six(true, false, XD), Six(false, false, XE), Six(false, false, X6))
  const VKey11 := Key(Six(false, true, XD), Six(false, true, X7), Six(false, false, X7), Six(true, true, X5),
    Six(true, false, X5), Six(false, false, X6), Six(false, true, XF), Six(true, false, X9))
  const VKey12 := Key(Six(true, false, X5), Six(true, true, XC), Six(false, true, X7), Six(false, true, X1),
    Six(true, true, XE), Six(true, false, XB), Six(true, false, X9), Six(false, false, X1))
  const VKey13 := Key(Six(false, true, X7), Six(true, true, X4), Six(false, false, XE), Six(true, true, X7),
    Six(true, true, XC), Six(true, false, XE), Six(false, true, XC), Six(true, true, XA))
  const VKey14 := Key(Six(true, false, XF), Six(true, true, X9), Six(false, false, X6), Six(false, false, XD),
    Six(false, false, XF), Six(false, true, X3), Six(true, true, XC), Six(false, false, XA))
  const VKey15 := Key(Six(true, true, X2), Six(true, true, X3), Six(true, true, X6), Six(false, false, XB),
    Six(false, false, X3), Six(true, false, X1), Six(false, true, XF), Six(true, true, X5))

  lemma VChosen0() ensures Chosen(V1, VKey0) == VOut0 {}
  lemma VMixed0() ensures Mixed(V0, VOut0) == V2 {}
  lemma VChosen1() ensures Chosen(V2, VKey1) == VOut1 {}
  lemma VMixed1() ensures Mixed(V1, VOut1) == V3 {}
  lemma VChosen2() ensures Chosen(V3, VKey2) == VOut2 {}
  lemma VMixed2() ensures Mixed(V2, VOut2) == V4 {}
  lemma VChosen3() ensures Chosen(V4, VKey3) == VOut3 {}
  lemma VMixed3() ensures Mixed(V3, VOut3) == V5 {}
  lemma VChosen4() ensures Chosen(V5, VKey4) == VOut4 {}
  lemma VMixed4() ensures Mixed(V4, VOut4) == V6 {}
  lemma VChosen5() ensures Chosen(V6, VKey5) == VOut5 {}
  lemma VMixed5() ensures Mixed(V5, VOut5) == V7 {}
  lemma VChosen6() ensures Chosen(V7, VKey6) == VOut6 {}
  lemma VMixed6() ensures Mixed(V6, VOut6) == V8 {}
  lemma VChosen7() ensures Chosen(V8, VKey7) == VOut7 {}
  lemma VMixed7() ensures Mixed(V7, VOut7) == V9 {}
  lemma VChosen8() ensures Chosen(V9, VKey8) == VOut8 {}
  lemma VMixed8() ensures Mixed(V8, VOut8) == V10 {}
  lemma VChosen9() ensures Chosen(V10, VKey9) == VOut9 {}
  lemma VMixed9() ensures Mixed(V9, VOut9) == V11 {}
  lemma VChosen10() ensures Chosen(V11, VKey10) == VOut10 {}
  lemma VMixed10() ensures Mixed(V10, VOut10) == V12 {}
  lemma VChosen11() ensures Chosen(V12, VKey11) == VOut11 {}
  lemma VMixed11() ensures Mixed(V11, VOut11) == V13 {}
  lemma VChosen12() ensures Chosen(V13, VKey12) == VOut12 {}
  lemma VMixed12() ensures Mixed(V12, VOut12) == V14 {}
  lemma VChosen13() ensures Chosen(V14, VKey13) == VOut13 {}
  lemma VMixed13() ensures Mixed(V13, VOut13) == V15 {}
  lemma VChosen14() ensures Chosen(V15, VKey14) == VOut14 {}
  lemma VMixed14() ensures Mixed(V14, VOut14) == V16 {}
  lemma VChosen15() ensures Chosen(V16, VKey15) == VOut15 {}
  lemma VMixed15() ensures Mixed(V15, VOut15) == V17 {}

  lemma VRounds(keys: Schedule)
    requires keys[0] == KeyBits(VKey0)
      && keys[1] == KeyBits(VKey1)
      && keys[2] == KeyBits(VKey2)
      && keys[3] == KeyBits(VKey3)
      && keys[4] == KeyBits(VKey4)
      && keys[5] == KeyBits(VKey5)
      && keys[6] == KeyBits(VKey6)
      && keys[7] == KeyBits(VKey7)
      && keys[8] == KeyBits(VKey8)
      && keys[9] == KeyBits(VKey9)
      && keys[10] == KeyBits(VKey10)
      && keys[11] == KeyBits(VKey11)
      && keys[12] == KeyBits(VKey12)
      && keys[13] == KeyBits(VKey13)
      && keys[14] == KeyBits(VKey14)
      && keys[15] == KeyBits(VKey15)
    ensures Rounds(Pair(BitsOf(V0), BitsOf(V1)), keys, Zeros(24), 16) == Pair(BitsOf(V16), BitsOf(V17))
  {
    hide Chosen, Mixed, BitsOf, KeyBits;
    var x := Pair(BitsOf(V0), BitsOf(V1));
    assert Rounds(x, keys, Zeros(24), 0) == x;
    hide Rounds;
    VChosen0(); VMixed0();
    Advance(x, keys, 0, V0, V1, VKey0, VOut0, V2);
    VChosen1(); VMixed1();
    Advance(x, keys, 1, V1, V2, VKey1, VOut1, V3);
    VChosen2(); VMixed2();
    Advance(x, keys, 2, V2, V3, VKey2, VOut2, V4);
    VChosen3(); VMixed3();
    Advance(x, keys, 3, V3, V4, VKey3, VOut3, V5);
    VChosen4(); VMixed4();
    Advance(x, keys, 4, V4, V5, VKey4, VOut4, V6);
    VChosen5(); VMixed5();
    Advance(x, keys, 5, V5, V6, VKey5, VOut5, V7);
    VChosen6(); VMixed6();
    Advance(x, keys, 6, V6, V7, VKey6, VOut6, V8);
    VChosen7(); VMixed7();
    Advance(x, keys, 7, V7, V8, VKey7, VOut7, V9);
    VChosen8(); VMixed8();
    Advance(x, keys, 8, V8, V9, VKey8, VOut8, V10);
    VChosen9(); VMixed9();
    Advance(x, keys, 9, V9, V10, VKey9, VOut9, V11);
    VChosen10(); VMixed10();
    Advance(x, keys, 10, V10, V11, VKey10, VOut10, V12);
    VChosen11(); VMixed11();
    Advance(x, keys, 11, V11, V12, VKey11, VOut11, V13);
    VChosen12(); VMixed12();
    Advance(x, keys, 12, V12, V13, VKey12, VOut12, V14);
    VChosen13(); VMixed13();
    Advance(x, keys, 13, V13, V14, VKey13, VOut13, V15);
    VChosen14(); VMixed14();
    Advance(x, keys, 14, V14, V15, VKey14, VOut14, V16);
    VChosen15(); VMixed15();
    Advance(x, keys, 15, V15, V16, VKey15, VOut15, V17);
  }

  const VKeyHigh := Word(X1, X3, X3, X4, X5, X7, X7, X9)
  const VKeyLow := Word(X9, XB, XB, XC, XD, XF, XF, X1)
  const VC0 := Reg(XF, X0, XC, XC, XA, XA, XF)
  const VD0 := Reg(X5, X5, X6, X6, X7, X8, XF)
  const VC1 := Reg(XE, X1, X9, X9, X5, X5, XF)
  const VD1 := Reg(XA, XA, XC, XC, XF, X1, XE)
  const VC2 := Reg(XC, X3, X3, X2, XA, XB, XF)
  const VD2 := Reg(X5, X5, X9, X9, XE, X3, XD)
  const VC3 := Reg(X0, XC, XC, XA, XA, XF, XF)
  const VD3 := Reg(X5, X6, X6, X7, X8, XF, X5)
  const VC4 := Reg(X3, X3, X2, XA, XB, XF, XC)
  const VD4 := Reg(X5, X9, X9, XE, X3, XD, X5)
  const VC5 := Reg(XC, XC, XA, XA, XF, XF, X0)
  const VD5 := Reg(X6, X6, X7, X8, XF, X5, X5)
  const VC6 := Reg(X3, X2, XA, XB, XF, XC, X3)
  const VD6 := Reg(X9, X9, XE, X3, XD, X5, X5)
  const VC7 := Reg(XC, XA, XA, XF, XF, X0, XC)
  const VD7 := Reg(X6, X7, X8, XF, X5, X5, X6)
  const VC8 := Reg(X2, XA, XB, XF, XC, X3, X3)
  const VD8 := Reg(X9, XE, X3, XD, X5, X5, X9)
  const VC9 := Reg(X5, X5, X7, XF, X8, X6, X6)
  const VD9 := Reg(X3, XC, X7, XA, XA, XB, X3)
  const VC10 := Reg(X5, X5, XF, XE, X1, X9, X9)
  const VD10 := Reg(XF, X1, XE, XA, XA, XC, XC)
  const VC11 := Reg(X5, X7, XF, X8, X6, X6, X5)
  const VD11 := Reg(XC, X7, XA, XA, XB, X3, X3)
  const VC12 := Reg(X5, XF, XE, X1, X9, X9, X5)
  const VD12 := Reg(X1, XE, XA, XA, XC, XC, XF)
  const VC13 := Reg(X7, XF, X8, X6, X6, X5, X5)
  const VD13 := Reg(X7, XA, XA, XB, X3, X3, XC)
  const VC14 := Reg(XF, XE, X1, X9, X9, X5, X5)
  const VD14 := Reg(XE, XA, XA, XC, XC, XF, X1)
  const VC15 := Reg(XF, X8, X6, X6, X5, X5, X7)
  const VD15 := Reg(XA, XA, XB, X3, X3, XC, X7)
  const VC16 := Reg(XF, X0, XC, XC, XA, XA, XF)
  const VD16 := Reg(X5, X5, X6, X6, X7, X8, XF)

  lemma VKeyRegs() ensures KeyLeft(VKeyHigh, VKeyLow) == VC0 && KeyRight(VKeyHigh, VKeyLow) == VD0 {}
  lemma VTurned0() ensures Turned(VC0, Rotation(0)) == VC1 && Turned(VD0, Rotation(0)) == VD1 {}
  lemma VCompressed0() ensures Compressed(VC1, VD1) == VKey0 {}
  lemma VTurned1() ensures Turned(VC1, Rotation(1)) == VC2 && Turned(VD1, Rotation(1)) == VD2 {}
  lemma VCompressed1() ensures Compressed(VC2, VD2) == VKey1 {}
  lemma VTurned2() ensures Turned(VC2, Rotation(2)) == VC3 && Turned(VD2, Rotation(2)) == VD3 {}
  lemma VCompressed2() ensures Compressed(VC3, VD3) == VKey2 {}
  lemma VTurned3() ensures Turned(VC3, Rotation(3)) == VC4 && Turned(VD3, Rotation(3)) == VD4 {}
  lemma VCompressed3() ensures Compressed(VC4, VD4) == VKey3 {}
  lemma VTurned4() ensures Turned(VC4, Rotation(4)) == VC5 && Turned(VD4, Rotation(4)) == VD5 {}
  lemma VCompressed4() ensures Compressed(VC5, VD5) == VKey4 {}
  lemma VTurned5() ensures Turned(VC5, Rotation(5)) == VC6 && Turned(VD5, Rotation(5)) == VD6 {}
  lemma VCompressed5() ensures Compressed(VC6, VD6) == VKey5 {}
  lemma VTurned6() ensures Turned(VC6, Rotation(6)) == VC7 && Turned(VD6, Rotation(6)) == VD7 {}
  lemma VCompressed6() ensures Compressed(VC7, VD7) == VKey6 {}
  lemma VTurned7() ensures Turned(VC7, Rotation(7)) == VC8 && Turned(VD7, Rotation(7)) == VD8 {}
  lemma VCompressed7() ensures Compressed(VC8, VD8) == VKey7 {}
  lemma VTurned8() ensures Turned(VC8, Rotation(8)) == VC9 && Turned(VD8, Rotation(8)) == VD9 {}
  lemma VCompressed8() ensures Compressed(VC9, VD9) == VKey8 {}
  lemma VTurned9() ensures Turned(VC9, Rotation(9)) == VC10 && Turned(VD9, Rotation(9)) == VD10 {}
  lemma VCompressed9() ensures Compressed(VC10, VD10) == VKey9 {}
  lemma VTurned10() ensures Turned(VC10, Rotation(10)) == VC11 && Turned(VD10, Rotation(10)) == VD11 {}
  lemma VCompressed10() ensures Compressed(VC11, VD11) == VKey10 {}
  lemma VTurned11() ensures Turned(VC11, Rotation(11)) == VC12 && Turned(VD11, Rotation(11)) == VD12 {}
  lemma VCompressed11() ensures Compressed(VC12, VD12) == VKey11 {}
  lemma VTurned12() ensures Turned(VC12, Rotation(12)) == VC13 && Turned(VD12, Rotation(12)) == VD13 {}
  lemma VCompressed12() ensures Compressed(VC13, VD13) == VKey12 {}
  lemma VTurned13() ensures Turned(VC13, Rotation(13)) == VC14 && Turned(VD13, Rotation(13)) == VD14 {}
  lemma VCompressed13() ensures Compressed(VC14, VD14) == VKey13 {}
  lemma VTurned14() ensures Turned(VC14, Rotation(14)) == VC15 && Turned(VD14, Rotation(14)) == VD15 {}
  lemma VCompressed14() ensures Compressed(VC15, VD15) == VKey14 {}
  lemma VTurned15() ensures Turned(VC15, Rotation(15)) == VC16 && Turned(VD15, Rotation(15)) == VD16 {}
  lemma VCompressed15() ensures Compressed(VC16, VD16) == VKey15 {}

  lemma VSchedule()
    ensures var keys := KeySchedule(BlockBits(VKeyHigh, VKeyLow));
      && keys[0] == KeyBits(VKey0)
      && keys[1] == KeyBits(VKey1)
      && keys[2] == KeyBits(VKey2)
      && keys[3] == KeyBits(VKey3)
      && keys[4] == KeyBits(VKey4)
      && keys[5] == KeyBits(VKey5)
      && keys[6] == KeyBits(VKey6)
      && keys[7] == KeyBits(VKey7)
      && keys[8] == KeyBits(VKey8)
      && keys[9] == KeyBits(VKey9)
      && keys[10] == KeyBits(VKey10)
      && keys[11] == KeyBits(VKey11)
      && keys[12] == KeyBits(VKey12)
      && keys[13] == KeyBits(VKey13)
      && keys[14] == KeyBits(VKey14)
      && keys[15] == KeyBits(VKey15)
  {
    hide RoundKeyOf, KeyBits, BlockBits, AfterRounds, Turned, Compressed;
    VKeyRegs();
    BeforeRounds(VKeyHigh, VKeyLow);
    VTurned0(); VCompressed0();
    NextRoundKey(VKeyHigh, VKeyLow, 0, VC0, VD0, VC1, VD1);
    VTurned1(); VCompressed1();
    NextRoundKey(VKeyHigh, VKeyLow, 1, VC1, VD1, VC2, VD2);
    VTurned2(); VCompressed2();
    NextRoundKey(VKeyHigh, VKeyLow, 2, VC2, VD2, VC3, VD3);
    VTurned3(); VCompressed3();
    NextRoundKey(VKeyHigh, VKeyLow, 3, VC3, VD3, VC4, VD4);
    VTurned4(); VCompressed4();
    NextRoundKey(VKeyHigh, VKeyLow, 4, VC4, VD4, VC5, VD5);
    VTurned5(); VCompressed5();
    NextRoundKey(VKeyHigh, VKeyLow, 5, VC5, VD5, VC6, VD6);
    VTurned6(); VCompressed6();
    NextRoundKey(VKeyHigh, VKeyLow, 6, VC6, VD6, VC7, VD7);
    VTurned7(); VCompressed7();
    NextRoundKey(VKeyHigh, VKeyLow, 7, VC7, VD7, VC8, VD8);
    VTurned8(); VCompressed8();
    NextRoundKey(VKeyHigh, VKeyLow, 8, VC8, VD8, VC9, VD9);
    VTurned9(); VCompressed9();
    NextRoundKey(VKeyHigh, VKeyLow, 9, VC9, VD9, VC10, VD10);
    VTurned10(); VCompressed10();
    NextRoundKey(VKeyHigh, VKeyLow, 10, VC10, VD10, VC11, VD11);
    VTurned11(); VCompressed11();
    NextRoundKey(VKeyHigh, VKeyLow, 11, VC11, VD11, VC12, VD12);
    VTurned12(); VCompressed12();
    NextRoundKey(VKeyHigh, VKeyLow, 12, VC12, VD12, VC13, VD13);
    VTurned13(); VCompressed13();
    NextRoundKey(VKeyHigh, VKeyLow, 13, VC13, VD13, VC14, VD14);
    VTurned14(); VCompressed14();
    NextRoundKey(VKeyHigh, VKeyLow, 14, VC14, VD14, VC15, VD15);
    VTurned15(); VCompressed15();
    NextRoundKey(VKeyHigh, VKeyLow, 15, VC15, VD15, VC16, VD16);
  }

  const VHigh := Word(X0, X1, X2, X3, X4, X5, X6, X7)
  const VLow := Word(X8, X9, XA, XB, XC, XD, XE, XF)
  const VLeft := Word(X8, X5, XE, X8, X1, X3, X5, X4)
  const VRight := Word(X0, XF, X0, XA, XB, X4, X0, X5)

  lemma VInitial() ensures InitialLeft(VHigh, VLow) == V0 && InitialRight(VHigh, VLow) == V1 {}
  lemma VFinal() ensures FinalLeft(V17, V16) == VLeft && FinalRight(V17, V16) == VRight {}
  lemma VLeftNumber() ensures Number(VLeft, 0) == 0x85E81354 {}
  lemma VNumber() ensures Number(VRight, 0x85E81354) == 0x85E813540F0AB405 {}
  lemma VHighNumber() ensures Number(VHigh, 0) == 0x01234567 {}
  lemma VBlockNumber() ensures Number(VLow, 0x01234567) == 0x0123456789ABCDEF {}
  lemma VKeyHighNumber() ensures Number(VKeyHigh, 0) == 0x13345779 {}
  lemma VKeyNumber() ensures Number(VKeyLow, 0x13345779) == 0x133457799BBCDFF1 {}

  /** The answer published for this block and key. */
  lemma BlockKnown()
    ensures EncipherTimes(FromNat(0x0123456789ABCDEF, 64), KeySchedule(FromNat(0x133457799BBCDFF1, 64)), Zeros(24), 1)
         == FromNat(0x85E813540F0AB405, 64)
  {
    hide Rounds, BitsOf, BlockBits, KeyBits, InitialLeft, InitialRight, FinalLeft, FinalRight, EncipherTimes, FromNat, Number, IP, KeySchedule;
    BlockNumber(VHigh, VLow);
    VHighNumber();
    VBlockNumber();
    BlockNumber(VKeyHigh, VKeyLow);
    VKeyHighNumber();
    VKeyNumber();
    InitialHalves(VHigh, VLow);
    VInitial();
    VSchedule();
    VRounds(KeySchedule(BlockBits(VKeyHigh, VKeyLow)));
    Enciphered(VHigh, VLow, KeySchedule(BlockBits(VKeyHigh, VKeyLow)), V16, V17);
    VFinal();
    BlockNumber(VLeft, VRight);
    VLeftNumber();
    VNumber();
  }
}
