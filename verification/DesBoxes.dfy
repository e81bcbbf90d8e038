/**
  What the S-boxes of the standard are known for, proved of the tables: each row is a permutation, inputs
  that differ in one bit or in the two middle bits have outputs that differ in two bits at least, and
  inputs that differ in the first two but not in the last two bits have different outputs.
 */
module DesBoxes {
  import opened BitStrings
  import opened DesStandard

  /** At most one of four bits differs. */
  predicate Near(a: nat, b: nat) {
    match a
    case 0 => b == 0 || b == 1 || b == 2 || b == 4 || b == 8
    case 1 => b == 1 || b == 0 || b == 3 || b == 5 || b == 9
    case 2 => b == 2 || b == 3 || b == 0 || b == 6 || b == 10
    case 3 => b == 3 || b == 2 || b == 1 || b == 7 || b == 11
    case 4 => b == 4 || b == 5 || b == 6 || b == 0 || b == 12
    case 5 => b == 5 || b == 4 || b == 7 || b == 1 || b == 13
    case 6 => b == 6 || b == 7 || b == 4 || b == 2 || b == 14
    case 7 => b == 7 || b == 6 || b == 5 || b == 3 || b == 15
    case 8 => b == 8 || b == 9 || b == 10 || b == 12 || b == 0
    case 9 => b == 9 || b == 8 || b == 11 || b == 13 || b == 1
    case 10 => b == 10 || b == 11 || b == 8 || b == 14 || b == 2
    case 11 => b == 11 || b == 10 || b == 9 || b == 15 || b == 3
    case 12 => b == 12 || b == 13 || b == 14 || b == 8 || b == 4
    case 13 => b == 13 || b == 12 || b == 15 || b == 9 || b == 5
    case 14 => b == 14 || b == 15 || b == 12 || b == 10 || b == 6
    case _ => b == 15 || b == 14 || b == 13 || b == 11 || b == 7
  }

  /** Columns that differ in one of their bits, or in the two middle bits of the input. */
  predicate FlipsColumn(c: nat, d: nat) {
    && c < d < 16
    && ((d == c + 1 && c % 2 == 0) || (d == c + 2 && c / 2 % 2 == 0) || (d == c + 4 && c / 4 % 2 == 0) || d == c + 8
        || (d == c + 6 && c / 2 % 4 == 0) || (d == c + 2 && c / 2 % 4 == 1))
  }

  /** Rows that differ in one of their two bits. */
  predicate FlipsRow(r: nat, q: nat) {
    r < q < 4 && r + q != 3
  }

  /** Columns that differ in the first bit and not in the last. */
  predicate FlipsFirst(c: nat, d: nat) {
    c < 16 && d < 16 && c / 8 != d / 8 && c % 2 == d % 2
  }

  // ---------------------------------------------------------------------------------------
  // The four facts for each box

  lemma Columns1(r: nat, c: nat, d: nat) requires r < 4 && FlipsColumn(c, d) ensures !Near(S1(r, c), S1(r, d)) {}
  lemma Rows1(r: nat, q: nat, c: nat) requires FlipsRow(r, q) && c < 16 ensures !Near(S1(r, c), S1(q, c)) {}
  lemma First1(r: nat, c: nat, d: nat) requires r < 2 && FlipsFirst(c, d) ensures S1(r, c) != S1(r + 2, d) {}
  lemma Permutes1(r: nat, c: nat, d: nat) requires r < 4 && c < d < 16 ensures S1(r, c) != S1(r, d) {}

  lemma Columns2(r: nat, c: nat, d: nat) requires r < 4 && FlipsColumn(c, d) ensures !Near(S2(r, c), S2(r, d)) {}
  lemma Rows2(r: nat, q: nat, c: nat) requires FlipsRow(r, q) && c < 16 ensures !Near(S2(r, c), S2(q, c)) {}
  lemma First2(r: nat, c: nat, d: nat) requires r < 2 && FlipsFirst(c, d) ensures S2(r, c) != S2(r + 2, d) {}
  lemma Permutes2(r: nat, c: nat, d: nat) requires r < 4 && c < d < 16 ensures S2(r, c) != S2(r, d) {}

  lemma Columns3(r: nat, c: nat, d: nat) requires r < 4 && FlipsColumn(c, d) ensures !Near(S3(r, c), S3(r, d)) {}
  lemma Rows3(r: nat, q: nat, c: nat) requires FlipsRow(r, q) && c < 16 ensures !Near(S3(r, c), S3(q, c)) {}
  lemma First3(r: nat, c: nat, d: nat) requires r < 2 && FlipsFirst(c, d) ensures S3(r, c) != S3(r + 2, d) {}
  lemma Permutes3(r: nat, c: nat, d: nat) requires r < 4 && c < d < 16 ensures S3(r, c) != S3(r, d) {}

  lemma Columns4(r: nat, c: nat, d: nat) requires r < 4 && FlipsColumn(c, d) ensures !Near(S4(r, c), S4(r, d)) {}
  lemma Rows4(r: nat, q: nat, c: nat) requires FlipsRow(r, q) && c < 16 ensures !Near(S4(r, c), S4(q, c)) {}
  lemma First4(r: nat, c: nat, d: nat) requires r < 2 && FlipsFirst(c, d) ensures S4(r, c) != S4(r + 2, d) {}
  lemma Permutes4(r: nat, c: nat, d: nat) requires r < 4 && c < d < 16 ensures S4(r, c) != S4(r, d) {}

  lemma Columns5(r: nat, c: nat, d: nat) requires r < 4 && FlipsColumn(c, d) ensures !Near(S5(r, c), S5(r, d)) {}
  lemma Rows5(r: nat, q: nat, c: nat) requires FlipsRow(r, q) && c < 16 ensures !Near(S5(r, c), S5(q, c)) {}
  lemma First5(r: nat, c: nat, d: nat) requires r < 2 && FlipsFirst(c, d) ensures S5(r, c) != S5(r + 2, d) {}
  lemma Permutes5(r: nat, c: nat, d: nat) requires r < 4 && c < d < 16 ensures S5(r, c) != S5(r, d) {}

  lemma Columns6(r: nat, c: nat, d: nat) requires r < 4 && FlipsColumn(c, d) ensures !Near(S6(r, c), S6(r, d)) {}
  lemma Rows6(r: nat, q: nat, c: nat) requires FlipsRow(r, q) && c < 16 ensures !Near(S6(r, c), S6(q, c)) {}
  lemma First6(r: nat, c: nat, d: nat) requires r < 2 && FlipsFirst(c, d) ensures S6(r, c) != S6(r + 2, d) {}
  lemma Permutes6(r: nat, c: nat, d: nat) requires r < 4 && c < d < 16 ensures S6(r, c) != S6(r, d) {}

  lemma Columns7(r: nat, c: nat, d: nat) requires r < 4 && FlipsColumn(c, d) ensures !Near(S7(r, c), S7(r, d)) {}
  lemma Rows7(r: nat, q: nat, c: nat) requires FlipsRow(r, q) && c < 16 ensures !Near(S7(r, c), S7(q, c)) {}
  lemma First7(r: nat, c: nat, d: nat) requires r < 2 && FlipsFirst(c, d) ensures S7(r, c) != S7(r + 2, d) {}
  lemma Permutes7(r: nat, c: nat, d: nat) requires r < 4 && c < d < 16 ensures S7(r, c) != S7(r, d) {}

  lemma Columns8(r: nat, c: nat, d: nat) requires r < 4 && FlipsColumn(c, d) ensures !Near(S8(r, c), S8(r, d)) {}
  lemma Rows8(r: nat, q: nat, c: nat) requires FlipsRow(r, q) && c < 16 ensures !Near(S8(r, c), S8(q, c)) {}
  lemma First8(r: nat, c: nat, d: nat) requires r < 2 && FlipsFirst(c, d) ensures S8(r, c) != S8(r + 2, d) {}
  lemma Permutes8(r: nat, c: nat, d: nat) requires r < 4 && c < d < 16 ensures S8(r, c) != S8(r, d) {}

  // ---------------------------------------------------------------------------------------
  // The same on six-bit inputs

  function Differing(u: Bits, v: Bits): nat
    requires |u| == |v|
  {
    if u == [] then 0 else Digit(u[0] != v[0]) + Differing(u[1..], v[1..])
  }

  function Four(a: bool, b: bool, c: bool, d: bool): nat {
    8 * Digit(a) + 4 * Digit(b) + 2 * Digit(c) + Digit(d)
  }

  lemma FourBits(n: Nibble) returns (a: bool, b: bool, c: bool, d: bool)
    ensures n == Four(a, b, c, d) && FromNat(n, 4) == [a, b, c, d]
  {
    var x := n / 2;
    var y := x / 2;
    var z := y / 2;
    a, b, c, d := z % 2 == 1, y % 2 == 1, x % 2 == 1, n % 2 == 1;
    assert n == 2 * x + Digit(d) && x == 2 * y + Digit(c) && y == 2 * z + Digit(b) && z == Digit(a);
    assert FromNat(z, 1) == [a];
    assert FromNat(y, 2) == [a] + [b];
    assert FromNat(x, 3) == [a, b] + [c];
    assert FromNat(n, 4) == [a, b, c] + [d];
  }

  lemma DifferingFour(a: bool, b: bool, c: bool, d: bool, e: bool, f: bool, g: bool, h: bool)
    ensures Differing([a, b, c, d], [e, f, g, h]) == Digit(a != e) + Digit(b != f) + Digit(c != g) + Digit(d != h)
  {
    assert [a, b, c, d][1..] == [b, c, d] && [b, c, d][1..] == [c, d] && [c, d][1..] == [d] && [d][1..] == [];
    assert [e, f, g, h][1..] == [f, g, h] && [f, g, h][1..] == [g, h] && [g, h][1..] == [h] && [h][1..] == [];
    assert Differing([d], [h]) == Digit(d != h) && Differing([c, d], [g, h]) == Digit(c != g) + Digit(d != h);
    assert Differing([b, c, d], [f, g, h]) == Digit(b != f) + Digit(c != g) + Digit(d != h);
  }

  lemma FarBits(a: bool, b: bool, c: bool, d: bool, e: bool, f: bool, g: bool, h: bool)
    requires !Near(Four(a, b, c, d), Four(e, f, g, h))
    ensures Digit(a != e) + Digit(b != f) + Digit(c != g) + Digit(d != h) >= 2
  {
  }

  lemma FarApart(m: Nibble, n: Nibble)
    requires !Near(m, n)
    ensures Differing(FromNat(m, 4), FromNat(n, 4)) >= 2 && Differing(FromNat(n, 4), FromNat(m, 4)) >= 2
  {
    hide FromNat, Differing, Near, Four;
    var a, b, c, d := FourBits(m);
    var e, f, g, h := FourBits(n);
    FarBits(a, b, c, d, e, f, g, h);
    DifferingFour(a, b, c, d, e, f, g, h);
    DifferingFour(e, f, g, h, a, b, c, d);
  }

  function Row(b: Bits): nat
    requires |b| == 6
  {
    2 * Digit(b[0]) + Digit(b[5])
  }

  function Column(b: Bits): nat
    requires |b| == 6
  {
    Four(b[1], b[2], b[3], b[4])
  }

  lemma EntryOf(i: nat, b: Bits)
    requires |b| == 6
    ensures Substitute(i, b) == SBox(i, 16 * Row(b) + Column(b)) && Row(b) < 4 && Column(b) < 16
  {
    var c := b[1..5];
    assert c[..3][..2] == c[..2] && c[..2][..1] == c[..1] && c[..1][..0] == [];
    assert ToNat(c[..1]) == Digit(c[0]) && ToNat(c[..2]) == 2 * Digit(c[0]) + Digit(c[1]);
    assert ToNat(c[..3]) == 4 * Digit(c[0]) + 2 * Digit(c[1]) + Digit(c[2]);
  }

  lemma ColumnsFar(i: nat, r: nat, c: nat, d: nat)
    requires i < 8 && r < 4 && FlipsColumn(c, d)
    ensures !Near(SBox(i, 16 * r + c), SBox(i, 16 * r + d))
  {
    hide S1, S2, S3, S4, S5, S6, S7, S8, Near, FlipsColumn;
    assert c < d < 16 by { Small(c, d); }
    match i
    case 0 => Columns1(r, c, d);
    case 1 => Columns2(r, c, d);
    case 2 => Columns3(r, c, d);
    case 3 => Columns4(r, c, d);
    case 4 => Columns5(r, c, d);
    case 5 => Columns6(r, c, d);
    case 6 => Columns7(r, c, d);
    case _ => Columns8(r, c, d);
  }

  lemma Small(c: nat, d: nat)
    requires FlipsColumn(c, d)
    ensures c < d < 16
  {
  }

  lemma RowsFar(i: nat, r: nat, q: nat, c: nat)
    requires i < 8 && FlipsRow(r, q) && c < 16
    ensures !Near(SBox(i, 16 * r + c), SBox(i, 16 * q + c))
  {
    hide S1, S2, S3, S4, S5, S6, S7, S8, Near;
    match i
    case 0 => Rows1(r, q, c);
    case 1 => Rows2(r, q, c);
    case 2 => Rows3(r, q, c);
    case 3 => Rows4(r, q, c);
    case 4 => Rows5(r, q, c);
    case 5 => Rows6(r, q, c);
    case 6 => Rows7(r, q, c);
    case _ => Rows8(r, q, c);
  }

  /** Two inputs that differ in one bit have outputs that differ in two bits at least. */
  lemma OneBitSpreads(i: nat, b: Bits, p: nat)
    requires i < 8 && |b| == 6 && p < 6
    ensures Differing(FromNat(Substitute(i, b), 4), FromNat(Substitute(i, b[p := !b[p]]), 4)) >= 2
  {
    hide SBox, Substitute, FromNat, Differing, Near;
    var x := b[p := !b[p]];
    EntryOf(i, b);
    EntryOf(i, x);
    var low, high := if b[p] then x else b, if b[p] then b else x;
    if p == 0 || p == 5 {
      RowsFar(i, Row(low), Row(high), Column(b));
    } else {
      ColumnsFar(i, Row(b), Column(low), Column(high));
    }
    FarApart(Substitute(i, low), Substitute(i, high));
  }

  /** So have two inputs that differ in the two middle bits. */
  lemma MiddleSpreads(i: nat, b: Bits)
    requires i < 8 && |b| == 6
    ensures Differing(FromNat(Substitute(i, b), 4), FromNat(Substitute(i, b[2 := !b[2]][3 := !b[3]]), 4)) >= 2
  {
    hide SBox, Substitute, FromNat, Differing, Near;
    var x := b[2 := !b[2]][3 := !b[3]];
    EntryOf(i, b);
    EntryOf(i, x);
    var low, high := if b[2] then x else b, if b[2] then b else x;
    ColumnsFar(i, Row(b), Column(low), Column(high));
    FarApart(Substitute(i, low), Substitute(i, high));
  }

  /** Two inputs that differ in the first two bits and agree in the last two have different outputs. */
  lemma FirstTwoMatter(i: nat, b: Bits, x: Bits)
    requires i < 8 && |b| == |x| == 6 && b[0] != x[0] && b[1] != x[1] && b[4] == x[4] && b[5] == x[5]
    ensures Substitute(i, b) != Substitute(i, x)
  {
    hide S1, S2, S3, S4, S5, S6, S7, S8, Substitute;
    EntryOf(i, b);
    EntryOf(i, x);
    var low, high := if b[0] then x else b, if b[0] then b else x;
    var r, c, d := Row(low), Column(low), Column(high);
    assert Row(high) == r + 2 && FlipsFirst(c, d);
    match i
    case 0 => First1(r, c, d);
    case 1 => First2(r, c, d);
    case 2 => First3(r, c, d);
    case 3 => First4(r, c, d);
    case 4 => First5(r, c, d);
    case 5 => First6(r, c, d);
    case 6 => First7(r, c, d);
    case _ => First8(r, c, d);
  }

  /** In every row, that is for fixed outer bits, a box is a permutation. */
  lemma RowsArePermutations(i: nat, b: Bits, x: Bits)
    requires i < 8 && |b| == |x| == 6 && b[0] == x[0] && b[5] == x[5] && b != x
    ensures Substitute(i, b) != Substitute(i, x)
  {
    hide S1, S2, S3, S4, S5, S6, S7, S8, Substitute;
    EntryOf(i, b);
    EntryOf(i, x);
    DifferentColumns(b, x);
    var low, high := if Column(b) < Column(x) then b else x, if Column(b) < Column(x) then x else b;
    var r, c, d := Row(b), Column(low), Column(high);
    match i
    case 0 => Permutes1(r, c, d);
    case 1 => Permutes2(r, c, d);
    case 2 => Permutes3(r, c, d);
    case 3 => Permutes4(r, c, d);
    case 4 => Permutes5(r, c, d);
    case 5 => Permutes6(r, c, d);
    case 6 => Permutes7(r, c, d);
    case _ => Permutes8(r, c, d);
  }

  lemma DifferentColumns(b: Bits, x: Bits)
    requires |b| == |x| == 6 && b[0] == x[0] && b[5] == x[5]
    ensures Column(b) == Column(x) ==> b == x
  {
  }
}
