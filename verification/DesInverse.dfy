/** Deciphering undoes enciphering, for any round keys and any salt. */
module DesInverse {
  import opened BitStrings
  import opened DesStandard

  // ---------------------------------------------------------------------------------------
  // The final permutation inverts the initial one, on either side

  /** The two tables in closed form, by row and column of eight. */
  lemma IpForm(row: nat, col: nat)
    requires row < 8 && col < 8
    ensures IpEntry(8 * row + col) == (if row < 4 then 58 + 2 * row else 49 + 2 * row) - 8 * col
  {
    match row {
    case 0 =>
    case 1 =>
    case 2 =>
    case 3 =>
    case 4 =>
    case 5 =>
    case 6 =>
    case _ =>
    }
  }

  lemma FpForm(row: nat, pair: nat, odd: bool)
    requires row < 8 && pair < 4
    ensures FpEntry(8 * row + 2 * pair + Digit(odd)) == (if odd then 8 else 40) + 8 * pair - row
  {
    match row {
    case 0 =>
    case 1 =>
    case 2 =>
    case 3 =>
    case 4 =>
    case 5 =>
    case 6 =>
    case _ =>
    }
  }

  /** Permuted choice 1 by columns of the key, without the parity column. */
  lemma Pc1Form(i: nat)
    requires i < 56
    ensures Pc1Entry(i) == if i < 28 then 57 - 8 * (i % 8) + i / 8
                           else if i < 52 then 63 - 8 * ((i - 28) % 8) - (i - 28) / 8
                           else 28 - 8 * (i - 52)
  {
  }

  lemma FpAfterIpEntry(i: nat)
    requires i < 64
    ensures FpEntry(IpEntry(i) - 1) == i + 1
  {
    hide IpEntry, FpEntry;
    var row, col := i / 8, i % 8;
    IpForm(row, col);
    FpForm(7 - col, row % 4, row < 4);
  }

  lemma IpAfterFpEntry(i: nat)
    requires i < 64
    ensures IpEntry(FpEntry(i) - 1) == i + 1
  {
    hide IpEntry, FpEntry;
    var row, col := i / 8, i % 8;
    FpForm(row, col / 2, col % 2 == 1);
    IpForm(if col % 2 == 0 then 4 + col / 2 else col / 2, 7 - row);
  }

  lemma EntryOf(i: nat)
    requires i < 64
    ensures IP()[i] == IpEntry(i) && FP()[i] == FpEntry(i)
  {
    hide IpEntry, FpEntry;
  }

  lemma BitReturns(x: Block, i: nat)
    requires i < 64
    ensures Permute(IP(), Permute(FP(), x))[i] == x[i] && Permute(FP(), Permute(IP(), x))[i] == x[i]
  {
    hide IpEntry, FpEntry, IP, FP, Selects;
    EntryOf(i);
    EntryOf(IpEntry(i) - 1);
    EntryOf(FpEntry(i) - 1);
    FpAfterIpEntry(i);
    IpAfterFpEntry(i);
  }

  lemma PermutationsCancel(x: Block)
    ensures Permute(IP(), Permute(FP(), x)) == x
    ensures Permute(FP(), Permute(IP(), x)) == x
  {
    hide IP, FP, Permute;
    forall i | 0 <= i < 64
      ensures Permute(IP(), Permute(FP(), x))[i] == x[i] && Permute(FP(), Permute(IP(), x))[i] == x[i]
    {
      BitReturns(x, i);
    }
  }

  // ---------------------------------------------------------------------------------------
  // The Feistel network

  lemma XorTwice(a: Bits, b: Bits)
    requires |a| == |b|
    ensures Xor(Xor(a, b), b) == a
  {
  }

  /** m rounds of the reversed schedule on the exchanged output give the exchanged state of round 16 - m. */
  lemma {:induction false} RoundsUnwind(x: Pair, keys: Schedule, salt: Salt, m: nat)
    requires m <= 16
    ensures var y := Rounds(x, keys, salt, 16 - m);
            Rounds(Core(x, keys, salt), Reversed(keys), salt, m) == Pair(y.r, y.l)
  {
    hide F;
    if m > 0 {
      RoundsUnwind(x, keys, salt, m - 1);
      var y := Rounds(x, keys, salt, 16 - m);
      XorTwice(y.l, F(y.r, keys[16 - m], salt));
    }
  }

  lemma CoreUndone(x: Pair, keys: Schedule, salt: Salt)
    ensures Core(Core(x, keys, salt), Reversed(keys), salt) == x
  {
    RoundsUnwind(x, keys, salt, 16);
  }

  lemma HalvesOfJoined(p: Pair)
    ensures Halves(Joined(p)) == p
  {
  }

  lemma EncipherUndone(x: Block, keys: Schedule, salt: Salt)
    ensures Encipher(Encipher(x, keys, salt), Reversed(keys), salt) == x
  {
    hide Core, Permute, IP, FP;
    var p := Halves(Permute(IP(), x));
    var c := Core(p, keys, salt);
    PermutationsCancel(Joined(c));
    HalvesOfJoined(c);
    CoreUndone(p, keys, salt);
    assert Joined(p) == Permute(IP(), x);
    PermutationsCancel(x);
  }

  lemma {:induction false} EncipherTimesFirst(x: Block, keys: Schedule, salt: Salt, n: nat)
    requires n > 0
    ensures EncipherTimes(x, keys, salt, n) == EncipherTimes(Encipher(x, keys, salt), keys, salt, n - 1)
  {
    hide Encipher;
    if n > 1 {
      EncipherTimesFirst(x, keys, salt, n - 1);
    }
  }

  /** n-fold deciphering undoes n-fold enciphering. */
  lemma {:induction false} EncipherTimesUndone(x: Block, keys: Schedule, salt: Salt, n: nat)
    ensures EncipherTimes(EncipherTimes(x, keys, salt, n), Reversed(keys), salt, n) == x
  {
    hide Encipher;
    if n > 0 {
      var y := EncipherTimes(x, keys, salt, n - 1);
      EncipherTimesFirst(Encipher(y, keys, salt), Reversed(keys), salt, n);
      EncipherUndone(y, keys, salt);
      EncipherTimesUndone(x, keys, salt, n - 1);
    }
  }

  // ---------------------------------------------------------------------------------------
  // Iterating only the computation between the permutations

  function CoreTimes(x: Pair, keys: Schedule, salt: Salt, n: nat): Pair {
    if n == 0 then x else Core(CoreTimes(x, keys, salt, n - 1), keys, salt)
  }

  /** Between two iterations the final and the initial permutation cancel. */
  lemma {:induction false} PermuteOnce(x: Block, keys: Schedule, salt: Salt, n: nat)
    ensures EncipherTimes(x, keys, salt, n)
         == Permute(FP(), Joined(CoreTimes(Halves(Permute(IP(), x)), keys, salt, n)))
  {
    hide Core, Permute, IP, FP, Encipher, Halves, Joined;
    var p := Halves(Permute(IP(), x));
    if n == 0 {
      JoinedOfHalves(Permute(IP(), x));
      PermutationsCancel(x);
    } else {
      PermuteOnce(x, keys, salt, n - 1);
      EncipherPermuted(CoreTimes(p, keys, salt, n - 1), keys, salt);
    }
  }

  lemma JoinedOfHalves(x: Block)
    ensures Joined(Halves(x)) == x
  {
  }

  lemma EncipherPermuted(c: Pair, keys: Schedule, salt: Salt)
    ensures Encipher(Permute(FP(), Joined(c)), keys, salt) == Permute(FP(), Joined(Core(c, keys, salt)))
  {
    hide Core, Permute, IP, FP, Halves, Joined;
    PermutationsCancel(Joined(c));
    HalvesOfJoined(c);
  }
}
