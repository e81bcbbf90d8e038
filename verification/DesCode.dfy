/**
  The DES engine of crypt.c: thread-local tables filled once by des_init, a cached key schedule,
  a cached salt, and the table-driven cipher.  32-bit words are lists of 32 bits.  The contracts
  are stated in terms of the cipher of `DesStandard`.
 */
module DesCode {
  import opened BitStrings
  import opened DesStandard
  import opened DesMasks
  import opened DesCircuits
  import opened DesInverse

  /** Inverts a selection table: 255 marks input bits that are not selected. */
  method InvertTable(src: seq<nat>, size: nat) returns (target: seq<nat>)
    requires Selects(src, size) && Distinct(src) && |src| <= 255
    ensures |target| == size && Inverts(target, src)
  {
    target := seq(size, _ => 255);
    for i := 0 to |src|
      invariant |target| == size
      invariant forall b, v :: 0 <= b < size && 0 <= v < i ==> (target[b] == v <==> src[v] == b + 1)
      invariant forall b :: 0 <= b < size ==> target[b] == 255 || target[b] < i
    {
      target := target[src[i] - 1 := i];
    }
  }

  /** final_perm: input bit i goes to output bit IP[i]. */
  method FinalTargets() returns (target: seq<nat>)
    ensures |target| == 64 && Inverts(target, FP())
  {
    hide IpEntry, FpEntry;
    target := seq(64, i requires 0 <= i < 64 => IP()[i] - 1);
    forall b, v | 0 <= b < 64 && 0 <= v < 64
      ensures target[b] == v <==> FP()[v] == b + 1
    {
      FpAfterIpEntry(b);
      IpAfterFpEntry(v);
      assert IP()[b] == IpEntry(b) && FP()[v] == FpEntry(v);
    }
  }

  /** u_sbox: the S-boxes with the input bits in natural order. */
  method UnscrambleBoxes() returns (u: seq<seq<Nibble>>)
    ensures |u| == 8
    ensures forall i :: 0 <= i < 8 ==> |u[i]| == 64
    ensures forall i, j :: 0 <= i < 8 && 0 <= j < 64 ==> u[i][j] == Unscrambled(i, j)
  {
    hide SBox;
    u := [];
    for i := 0 to 8
      invariant |u| == i
      invariant forall k :: 0 <= k < i ==> |u[k]| == 64
      invariant forall k, j :: 0 <= k < i && 0 <= j < 64 ==> u[k][j] == Unscrambled(k, j)
    {
      var box: seq<Nibble> := [];
      for j := 0 to 64
        invariant |box| == j && forall k :: 0 <= k < j ==> box[k] == Unscrambled(i, k)
      {
        var b := j / 32 * 32 + j % 2 * 16 + j / 2 % 16;
        box := box + [SBox(i, b)];
      }
      u := u + [box];
    }
  }

  /** m_sbox: pairs of S-boxes merged into arrays of bytes indexed by 12 bits. */
  method MergeBoxes(u: seq<seq<Nibble>>) returns (m: seq<seq<nat>>)
    requires |u| == 8 && forall i :: 0 <= i < 8 ==> |u[i]| == 64
    requires forall i, j :: 0 <= i < 8 && 0 <= j < 64 ==> u[i][j] == Unscrambled(i, j)
    ensures |m| == 4 && forall b :: 0 <= b < 4 ==> IsMergedBox(m[b], b)
  {
    hide Unscrambled;
    m := [];
    for b := 0 to 4
      invariant |m| == b && forall k :: 0 <= k < b ==> IsMergedBox(m[k], k)
    {
      var box: seq<nat> := [];
      for i := 0 to 64
        invariant |box| == 64 * i && MergedSoFar(box, b)
      {
        for j := 0 to 64
          invariant |box| == 64 * i + j && MergedSoFar(box, b)
        {
          var high: nat, low: nat := u[2 * b][i], u[2 * b + 1][j];
          box := box + [high * 16 + low];
        }
      }
      m := m + [box];
    }
  }

  ghost predicate MergedSoFar(box: seq<nat>, b: nat) {
    |box| <= 4096 &&
    forall x :: 0 <= x < |box| ==> box[x] == 16 * Unscrambled(2 * b, x / 64) + Unscrambled(2 * b + 1, x % 64)
  }

  /** The bit targets from which a table is filled. */
  method TargetsOf(w: Table) returns (target: seq<nat>)
    ensures |target| == At(ShapeOf(w).rows, ShapeOf(w).stride) && Inverts(target, ShapeOf(w).src)
  {
    match w
    case IpLeft => IpDistinct(); target := InvertTable(IP(), 64);
    case IpRight => IpDistinct(); target := InvertTable(IP(), 64);
    case FpLeft => target := FinalTargets();
    case FpRight => target := FinalTargets();
    case KeyLeft => Pc1Distinct(); target := InvertTable(PC1(), 64);
    case KeyRight => Pc1Distinct(); target := InvertTable(PC1(), 64);
    case CompLeft => Pc2Distinct(); target := InvertTable(PC2(), 56);
    case CompRight => Pc2Distinct(); target := InvertTable(PC2(), 56);
    case PBox => PDistinct(); target := InvertTable(P(), 32);
  }

  /** The OR-mask tables, all of them filled from their bit targets. */
  method BuildAllMasks() returns (masks: map<Table, Masks>)
    ensures MasksReady(masks)
  {
    var order := [IpLeft, IpRight, FpLeft, FpRight, KeyLeft, KeyRight, CompLeft, CompRight, PBox];
    masks := map[];
    for i := 0 to |order|
      invariant forall k :: 0 <= k < i ==> order[k] in masks
      invariant forall w :: w in masks ==> IsMaskTable(ShapeOf(w), masks[w])
    {
      hide ShapeOf, IsMaskTable, Inverts, At;
      var target := TargetsOf(order[i]);
      var t := BuildMasks(ShapeOf(order[i]), target);
      masks := masks[order[i] := t];
    }
    forall w: Table
      ensures w in masks
    {
      var k := match w
        case IpLeft => 0 case IpRight => 1 case FpLeft => 2 case FpRight => 3 case KeyLeft => 4
        case KeyRight => 5 case CompLeft => 6 case CompRight => 7 case PBox => 8;
      assert order[k] == w;
    }
  }

  ghost predicate MasksReady(masks: map<Table, Masks>) {
    forall w: Table :: w in masks && IsMaskTable(ShapeOf(w), masks[w])
  }

  ghost predicate BoxesReady(m: seq<seq<nat>>) {
    |m| == 4 && forall b :: 0 <= b < 4 ==> IsMergedBox(m[b], b)
  }

  // ---------------------------------------------------------------------------------------
  // The engine

  /** The 24 salt bits in the order in which they control E: bit i is bit i of the number. */
  function SaltOf(salt: Half): (x: Salt) {
    seq(24, i requires 0 <= i < 24 => salt[31 - i])
  }

  /** The round keys held by two arrays of words. */
  ghost predicate HoldsKeys(kl: seq<Bits>, kr: seq<Bits>, keys: Schedule) {
    && |kl| == 16 && |kr| == 16
    && forall i :: 0 <= i < 16 ==> kl[i] == LowWord(keys[i][..24]) && kr[i] == LowWord(keys[i][24..])
  }

  /** The round keys before the first des_setkey. */
  function ZeroSchedule(): Schedule {
    seq(16, _ => Zeros(48))
  }

  /** The two bytes looked up from one word of a 48-bit value. */
  lemma TwoBytes(m: seq<seq<nat>>, w: Half, x: RoundKey, h: nat)
    requires BoxesReady(m) && h < 2 && w == LowWord(x[24 * h..24 * h + 24])
    ensures ToNat(Shr(w, 12)) < 4096 && ToNat(And(w, Run(32, 20, 32))) < 4096
    ensures |m| == 4 && |m[2 * h]| == 4096 && |m[2 * h + 1]| == 4096
    ensures m[2 * h][ToNat(Shr(w, 12))] == Fields(PShape(), Substitutes(x, 8))[2 * h]
    ensures m[2 * h + 1][ToNat(And(w, Run(32, 20, 32)))] == Fields(PShape(), Substitutes(x, 8))[2 * h + 1]
  {
    hide LowWord, Substitutes, ToNat, Unscrambled, Shr, And, Run, PShape, Fields;
    var y := x[24 * h..24 * h + 24];
    TwelveBitIndices(y);
    var b := 2 * h;
    SliceHalves(x, 24 * h, 12);
    MergedBytes(m, x, b);
    MergedBytes(m, x, b + 1);
  }

  lemma SliceHalves(x: Bits, lo: nat, n: nat)
    requires lo + 2 * n <= |x|
    ensures x[lo..lo + 2 * n][..n] == x[lo..lo + n] && x[lo..lo + 2 * n][n..] == x[lo + n..lo + 2 * n]
  {
  }

  lemma ScheduleHolds(raw: Block, el: seq<Bits>, er: seq<Bits>, dl: seq<Bits>, dr: seq<Bits>)
    requires |el| == 16 && |er| == 16 && |dl| == 16 && |dr| == 16
    requires forall i :: 0 <= i < 16 ==> el[i] == LowWord(RoundKeyOf(raw, i)[..24])
    requires forall i :: 0 <= i < 16 ==> er[i] == LowWord(RoundKeyOf(raw, i)[24..])
    requires forall i :: 0 <= i < 16 ==> dl[i] == el[15 - i] && dr[i] == er[15 - i]
    ensures HoldsKeys(el, er, KeySchedule(raw)) && HoldsKeys(dl, dr, Reversed(KeySchedule(raw)))
  {
    hide LowWord, RoundKeyOf;
  }

  class Engine {
    // tables
    var initialised: bool
    var masks: map<Table, Masks>
    var mSbox: seq<seq<nat>>
    // caches
    var saltbits: Half
    var oldSalt: Half
    var oldRawkey0: Half, oldRawkey1: Half
    var enKeysL: seq<Bits>, enKeysR: seq<Bits>
    var deKeysL: seq<Bits>, deKeysR: seq<Bits>
    // the round keys in use: those of the last des_setkey, all zero before the first
    ghost var schedule: Schedule

    ghost predicate KeysReady()
      reads this`enKeysL, this`enKeysR, this`deKeysL, this`deKeysR, this`schedule
    {
      HoldsKeys(enKeysL, enKeysR, schedule) && HoldsKeys(deKeysL, deKeysR, Reversed(schedule))
    }

    ghost predicate SaltCached()
      reads this`saltbits, this`oldSalt, this`initialised
    {
      && saltbits == LowWord(SaltOf(oldSalt))
      && (!initialised ==> oldSalt == Zeros(32))
    }

    ghost predicate KeyCached()
      reads this`schedule, this`oldRawkey0, this`oldRawkey1
      reads this`enKeysL, this`enKeysR, this`deKeysL, this`deKeysR
    {
      KeysReady() && (Join(oldRawkey0, oldRawkey1) != Zeros(64) ==> schedule == KeySchedule(Join(oldRawkey0, oldRawkey1)))
    }

    /** What holds between any two calls, whatever the history. */
    ghost predicate Valid()
      reads this
    {
      (initialised ==> MasksReady(masks) && BoxesReady(mSbox)) && SaltCached() && KeyCached()
    }

    constructor ()
      ensures Valid() && !initialised && schedule == ZeroSchedule()
    {
      initialised := false;
      masks, mSbox := map[], [];
      saltbits, oldSalt, oldRawkey0, oldRawkey1 := Zeros(32), Zeros(32), Zeros(32), Zeros(32);
      var zeros := seq(16, _ => Zeros(32));
      enKeysL, enKeysR, deKeysL, deKeysR := zeros, zeros, zeros, zeros;
      schedule := ZeroSchedule();
      new;
      ZeroState(oldSalt, oldRawkey0, oldRawkey1);
      ZeroKeys(enKeysL);
    }

    static lemma ZeroState(salt: Half, k0: Half, k1: Half)
      requires salt == Zeros(32) && k0 == Zeros(32) && k1 == Zeros(32)
      ensures Zeros(32) == LowWord(SaltOf(salt)) && Join(k0, k1) == Zeros(64) && SaltOf(salt) == Zeros(24)
    {
    }

    static lemma ZeroKeys(zeros: seq<Bits>)
      requires |zeros| == 16 && forall i :: 0 <= i < 16 ==> zeros[i] == Zeros(32)
      ensures HoldsKeys(zeros, zeros, ZeroSchedule()) && Reversed(ZeroSchedule()) == ZeroSchedule()
    {
      assert Zeros(48)[..24] == Zeros(24) == Zeros(48)[24..] && Zeros(32) == LowWord(Zeros(24));
    }

    method DesInit()
      requires KeysReady()
      modifies `initialised, `masks, `mSbox, `saltbits, `oldSalt, `oldRawkey0, `oldRawkey1
      ensures Valid() && initialised && oldSalt == Zeros(32)
    {
      hide MasksReady, KeysReady, LowWord, SaltOf, Unscrambled;
      oldRawkey0, oldRawkey1, saltbits, oldSalt := Zeros(32), Zeros(32), Zeros(32), Zeros(32);
      ZeroState(oldSalt, oldRawkey0, oldRawkey1);
      var u := UnscrambleBoxes();
      mSbox := MergeBoxes(u);
      masks := BuildAllMasks();
      initialised := true;
    }

    method SetupSalt(salt: Half)
      requires Valid() && initialised
      modifies this`oldSalt, this`saltbits
      ensures Valid() && oldSalt == salt && saltbits == LowWord(SaltOf(salt))
      ensures forall o :: 0 <= o < 32 ==> saltbits[o] == (o >= 8 && salt[39 - o])  // bit 23 - i is bit i of the salt
    {
      if salt == oldSalt {
        return;
      }
      oldSalt := salt;
      var bits := Zeros(32);
      for i := 0 to 24
        invariant |bits| == 32
        invariant forall o :: 0 <= o < 32 ==> bits[o] == (8 <= o < 8 + i && salt[31 - (o - 8)])
      {
        if salt[31 - i] {
          bits := Or(bits, One(8 + i));
        }
      }
      saltbits := bits;
      assert saltbits == LowWord(SaltOf(salt));
    }

    /** The key permutation, split into two 28-bit half keys. */
    method HalfKeys(raw: Block) returns (k0: Half, k1: Half)
      requires MasksReady(masks)
      ensures k0 == KeyWord(Permute(PC1(), raw)[..28]) && k1 == KeyWord(Permute(PC1(), raw)[28..])
    {
      hide IsMaskTable, KeyWord, PC1, Permute, KeyIndices, OrRows;
      assert IsMaskTable(ShapeOf(KeyLeft), masks[KeyLeft]) && IsMaskTable(ShapeOf(KeyRight), masks[KeyRight]);
      HalfKeyWords(raw, masks[KeyLeft], masks[KeyRight]);
      var index := KeyIndices(raw[..32]) + KeyIndices(raw[32..]);
      k0 := OrRows(masks[KeyLeft], index, 8);
      k1 := OrRows(masks[KeyRight], index, 8);
    }

    /** Rotates the two half keys and selects the round key. */
    method RoundKeyPair(k0: Half, k1: Half, shifts: nat, ghost raw: Block, ghost round: nat)
      returns (l: Bits, r: Bits)
      requires MasksReady(masks) && round < 16 && shifts == Shifts(round + 1)
      requires k0 == KeyWord(Permute(PC1(), raw)[..28]) && k1 == KeyWord(Permute(PC1(), raw)[28..])
      ensures l == LowWord(RoundKeyOf(raw, round)[..24]) && r == LowWord(RoundKeyOf(raw, round)[24..])
    {
      hide IsMaskTable, KeyWord, LowWord, RoundKeyOf, PC1, Permute, Or, Shl, Shr, Shifts, SevenIndices, OrRows;
      assert IsMaskTable(ShapeOf(CompLeft), masks[CompLeft]) && IsMaskTable(ShapeOf(CompRight), masks[CompRight]);
      RoundKeyWords(raw, round, masks[CompLeft], masks[CompRight]);
      var t0 := Or(Shl(k0, shifts), Shr(k0, 28 - shifts));
      var t1 := Or(Shl(k1, shifts), Shr(k1, 28 - shifts));
      var index := SevenIndices(t0) + SevenIndices(t1);
      l := OrRows(masks[CompLeft], index, 8);
      r := OrRows(masks[CompRight], index, 8);
    }

    /** The sixteen round keys of a key, and the same in the opposite order. */
    method ScheduleKeys(raw: Block) returns (el: seq<Bits>, er: seq<Bits>, dl: seq<Bits>, dr: seq<Bits>)
      requires MasksReady(masks)
      ensures HoldsKeys(el, er, KeySchedule(raw)) && HoldsKeys(dl, dr, Reversed(KeySchedule(raw)))
    {
      hide MasksReady, KeyWord, LowWord, RoundKeyOf, PC1, Permute, KeySchedule, Reversed, HoldsKeys;
      var k0, k1 := HalfKeys(raw);
      el, er, dl, dr := seq(16, _ => []), seq(16, _ => []), seq(16, _ => []), seq(16, _ => []);
      var shifts := 0;
      for round := 0 to 16
        invariant shifts == Shifts(round)
        invariant |el| == 16 && |er| == 16 && |dl| == 16 && |dr| == 16
        invariant Scheduled(raw, round, el, er, dl, dr)
      {
        shifts := shifts + Rotation(round);
        var l, r := RoundKeyPair(k0, k1, shifts, raw, round);
        NextScheduled(raw, round, el, er, dl, dr, l, r);
        el, dl := el[round := l], dl[15 - round := l];
        er, dr := er[round := r], dr[15 - round := r];
      }
      ScheduleHolds(raw, el, er, dl, dr);
    }

    /** The first rounds of the schedules are filled, in order and in reverse. */
    static ghost predicate Scheduled(raw: Block, round: nat, el: seq<Bits>, er: seq<Bits>, dl: seq<Bits>, dr: seq<Bits>)
      requires round <= 16 && |el| == 16 && |er| == 16 && |dl| == 16 && |dr| == 16
    {
      && (forall i :: 0 <= i < round ==> el[i] == LowWord(RoundKeyOf(raw, i)[..24]))
      && (forall i :: 0 <= i < round ==> er[i] == LowWord(RoundKeyOf(raw, i)[24..]))
      && (forall i :: 16 - round <= i < 16 ==> dl[i] == el[15 - i] && dr[i] == er[15 - i])
    }

    static lemma NextScheduled(raw: Block, round: nat, el: seq<Bits>, er: seq<Bits>, dl: seq<Bits>, dr: seq<Bits>, l: Bits, r: Bits)
      requires round < 16 && |el| == 16 && |er| == 16 && |dl| == 16 && |dr| == 16 && Scheduled(raw, round, el, er, dl, dr)
      requires l == LowWord(RoundKeyOf(raw, round)[..24]) && r == LowWord(RoundKeyOf(raw, round)[24..])
      ensures Scheduled(raw, round + 1, el[round := l], er[round := r], dl[15 - round := l], dr[15 - round := r])
    {
      hide LowWord, RoundKeyOf;
    }

    /** Whatever was cached before, the schedule afterwards is that of the given key. */
    method DesSetkey(rawkey0: Half, rawkey1: Half) returns (ret: int)
      requires Valid()
      modifies this
      ensures Valid() && initialised && schedule == KeySchedule(Join(rawkey0, rawkey1))
      ensures ret == 0 && oldSalt == old(oldSalt)
    {
      hide MasksReady, BoxesReady, KeysReady;
      if !initialised {
        DesInit();
      }
      ret := 0;
      if Or(rawkey0, rawkey1) != Zeros(32) && rawkey0 == oldRawkey0 && rawkey1 == oldRawkey1 {
        NonzeroKey(rawkey0, rawkey1);
        return;
      }
      var el, er, dl, dr := ScheduleKeys(Join(rawkey0, rawkey1));
      StoreSchedule(rawkey0, rawkey1, el, er, dl, dr);
    }

    static lemma NonzeroKey(k0: Half, k1: Half)
      ensures Or(k0, k1) != Zeros(32) ==> Join(k0, k1) != Zeros(64)
    {
      if Join(k0, k1) == Zeros(64) {
        assert k0 == (Join(k0, k1))[..32] && k1 == (Join(k0, k1))[32..];
        assert Or(k0, k1) == Zeros(32);
      }
    }

    method StoreSchedule(rawkey0: Half, rawkey1: Half, el: seq<Bits>, er: seq<Bits>, dl: seq<Bits>, dr: seq<Bits>)
      requires initialised
      requires HoldsKeys(el, er, KeySchedule(Join(rawkey0, rawkey1)))
      requires HoldsKeys(dl, dr, Reversed(KeySchedule(Join(rawkey0, rawkey1))))
      modifies this`oldRawkey0, this`oldRawkey1, this`enKeysL, this`enKeysR, this`deKeysL, this`deKeysR
      modifies this`schedule
      ensures KeyCached() && schedule == KeySchedule(Join(rawkey0, rawkey1))
    {
      hide HoldsKeys, KeySchedule, Reversed, Zeros, Join;
      oldRawkey0, oldRawkey1 := rawkey0, rawkey1;
      enKeysL, enKeysR, deKeysL, deKeysR := el, er, dl, dr;
      schedule := KeySchedule(Join(rawkey0, rawkey1));
    }

    /** The cipher function of one round: expansion, salt, key, merged S-boxes and P. */
    method CipherFunction(r: Half, kl: Bits, kr: Bits, ghost k: RoundKey) returns (f: Half)
      requires Valid() && initialised && kl == LowWord(k[..24]) && kr == LowWord(k[24..])
      ensures f == F(r, k, SaltOf(oldSalt))
    {
      hide MasksReady, BoxesReady, KeyCached, LowWord, SaltOf, ExpandLeft, ExpandRight, SaltedE, Xor, And;
      ghost var x := Xor(SaltedE(r, SaltOf(oldSalt)), k);
      var r48l, r48r := ExpandLeft(r), ExpandRight(r);
      SaltAndKey(r, k, SaltOf(oldSalt));
      f := And(Xor(r48l, r48r), saltbits);
      r48l := Xor(r48l, Xor(f, kl));
      r48r := Xor(r48r, Xor(f, kr));
      f := BoxesAndP(r48l, r48r, x);
    }

    /** The S-box and P lookups on the two words of a 48-bit value. */
    method BoxesAndP(r48l: Half, r48r: Half, ghost x: RoundKey) returns (f: Half)
      requires MasksReady(masks) && BoxesReady(mSbox)
      requires r48l == LowWord(x[..24]) && r48r == LowWord(x[24..])
      ensures f == Permute(P(), Substitutes(x, 8))
    {
      hide MasksReady, BoxesReady, LowWord, Substitutes, Fields, P;
      assert x[24 * 0..24 * 0 + 24] == x[..24] && x[24 * 1..24 * 1 + 24] == x[24..];
      var v0, v1 := BoxLookup(r48l, x, 0);
      var v2, v3 := BoxLookup(r48r, x, 1);
      f := PLookup([v0, v1, v2, v3], x);
    }

    method BoxLookup(w: Half, ghost x: RoundKey, half: nat) returns (v0: nat, v1: nat)
      requires BoxesReady(mSbox) && half < 2 && w == LowWord(x[24 * half..24 * half + 24])
      ensures v0 == Fields(PShape(), Substitutes(x, 8))[2 * half]
      ensures v1 == Fields(PShape(), Substitutes(x, 8))[2 * half + 1]
    {
      TwoBytes(mSbox, w, x, half);
      hide *;
      v0 := mSbox[2 * half][ToNat(Shr(w, 12))];
      v1 := mSbox[2 * half + 1][ToNat(And(w, Run(32, 20, 32)))];
    }

    method PLookup(v: seq<nat>, ghost x: RoundKey) returns (f: Half)
      requires MasksReady(masks) && v == Fields(PShape(), Substitutes(x, 8))
      ensures f == Permute(P(), Substitutes(x, 8))
    {
      hide IsMaskTable, Substitutes, Fields, P;
      assert IsMaskTable(ShapeOf(PBox), masks[PBox]);
      PermutedBytes(masks[PBox], x, v);
      f := OrRows(masks[PBox], v, 4);
    }

    /** Sixteen rounds and the exchange of the halves after the last. */
    method SixteenRounds(l0: Half, r0: Half, kl: seq<Bits>, kr: seq<Bits>, ghost keys: Schedule)
      returns (l: Half, r: Half)
      requires Valid() && initialised && HoldsKeys(kl, kr, keys)
      ensures Pair(l, r) == Core(Pair(l0, r0), keys, SaltOf(oldSalt))
    {
      hide Valid, F, LowWord, SaltOf;
      l, r := l0, r0;
      ghost var start := Pair(l0, r0);
      for round := 0 to 16
        invariant Pair(l, r) == Rounds(start, keys, SaltOf(oldSalt), round)
      {
        var f := CipherFunction(r, kl[round], kr[round], keys[round]);
        f := Xor(f, l);
        assert f == Xor(l, F(r, keys[round], SaltOf(oldSalt)));
        l, r := r, f;
      }
      l, r := r, l;
    }

    /** The initial permutation of a block, in two words. */
    method PermuteIn(lIn: Half, rIn: Half) returns (l: Half, r: Half)
      requires MasksReady(masks)
      ensures Pair(l, r) == Halves(Permute(IP(), Join(lIn, rIn)))
    {
      hide IsMaskTable, IP, Permute, ByteIndices, OrRows;
      assert IsMaskTable(ShapeOf(IpLeft), masks[IpLeft]) && IsMaskTable(ShapeOf(IpRight), masks[IpRight]);
      BlockLookup(IpShape(false), IpShape(true), masks[IpLeft], masks[IpRight], lIn, rIn);
      var index := ByteIndices(lIn) + ByteIndices(rIn);
      l, r := OrRows(masks[IpLeft], index, 8), OrRows(masks[IpRight], index, 8);
    }

    /** The final permutation of two words. */
    method PermuteOut(l: Half, r: Half) returns (lOut: Half, rOut: Half)
      requires MasksReady(masks)
      ensures Join(lOut, rOut) == Permute(FP(), Joined(Pair(l, r)))
    {
      hide IsMaskTable, FP, Permute, ByteIndices, OrRows;
      assert IsMaskTable(ShapeOf(FpLeft), masks[FpLeft]) && IsMaskTable(ShapeOf(FpRight), masks[FpRight]);
      BlockLookup(FpShape(false), FpShape(true), masks[FpLeft], masks[FpRight], l, r);
      var index := ByteIndices(l) + ByteIndices(r);
      lOut, rOut := OrRows(masks[FpLeft], index, 8), OrRows(masks[FpRight], index, 8);
      assert lOut + rOut == Permute(FP(), l + r);
    }

    /**
      Encrypts `count` times under the current key and salt, or decrypts when `count` is negative;
      a zero count does nothing and returns 1.
     */
    method DoDes(lIn: Half, rIn: Half, count: int) returns (ret: int, lOut: Half, rOut: Half)
      requires Valid() && initialised
      ensures ret == if count == 0 then 1 else 0
      ensures count > 0 ==> Join(lOut, rOut) == EncipherTimes(Join(lIn, rIn), schedule, SaltOf(oldSalt), count)
      ensures count < 0 ==>
                Join(lOut, rOut) == EncipherTimes(Join(lIn, rIn), Reversed(schedule), SaltOf(oldSalt), -count)
    {
      hide MasksReady, BoxesReady, SaltCached, SaltOf, KeySchedule, Reversed, HoldsKeys, Core, Halves, Joined, Permute;
      hide IP, FP, Join;
      if count == 0 {
        ret, lOut, rOut := 1, lIn, rIn;
        return;
      }
      ret := 0;
      var n, kl, kr := count, enKeysL, enKeysR;
      ghost var keys := schedule;
      if count < 0 {
        n, kl, kr := -count, deKeysL, deKeysR;
        keys := Reversed(keys);
      }
      var l, r := PermuteIn(lIn, rIn);
      ghost var start := Pair(l, r);
      for i := 0 to n
        invariant Pair(l, r) == CoreTimes(start, keys, SaltOf(oldSalt), i)
      {
        l, r := SixteenRounds(l, r, kl, kr, keys);
      }
      lOut, rOut := PermuteOut(l, r);
      PermuteOnce(Join(lIn, rIn), keys, SaltOf(oldSalt), n);
    }

    /** The public primitive: sets the salt and runs the cipher under the current round keys. */
    method DesCipher(lIn: Half, rIn: Half, salt: Half, count: int) returns (ret: int, lOut: Half, rOut: Half)
      requires Valid()
      modifies `initialised, `masks, `mSbox, `saltbits, `oldSalt, `oldRawkey0, `oldRawkey1
      ensures Valid()
      ensures ret == if count == 0 then 1 else 0
      ensures count > 0 ==> Join(lOut, rOut) == EncipherTimes(Join(lIn, rIn), schedule, SaltOf(salt), count)
      ensures count < 0 ==>
                Join(lOut, rOut) == EncipherTimes(Join(lIn, rIn), Reversed(schedule), SaltOf(salt), -count)
    {
      hide MasksReady, BoxesReady, KeysReady, SaltOf, LowWord, EncipherTimes, KeySchedule, Reversed, Join;
      if !initialised {
        DesInit();
      }
      SetupSalt(salt);
      ret, lOut, rOut := DoDes(lIn, rIn, count);
    }

    /** Decrypting what was encrypted gives the block back, for every count, key and salt. */
    method EncryptThenDecrypt(lIn: Half, rIn: Half, salt: Half, count: int)
      returns (lMid: Half, rMid: Half, lOut: Half, rOut: Half)
      requires Valid() && count > 0
      modifies `initialised, `masks, `mSbox, `saltbits, `oldSalt, `oldRawkey0, `oldRawkey1
      ensures Join(lOut, rOut) == Join(lIn, rIn)
    {
      hide Valid, SaltOf, EncipherTimes, KeySchedule, Reversed, Join;
      var ret;
      ret, lMid, rMid := DesCipher(lIn, rIn, salt, count);
      ret, lOut, rOut := DesCipher(lMid, rMid, salt, -count);
      EncipherTimesUndone(Join(lIn, rIn), schedule, SaltOf(salt), count);
    }
  }
}
