/**
  OR-mask tables: a permutation of a bit string is computed by cutting the string into fields,
  looking each field up in a table of words and OR-ing the words.  `BuildMasks` is the loop nest
  with which des_init fills each of its tables; `LookupIsPermutation` is the one statement about
  them that every use rests on, for an arbitrary selection table.
 */
module DesMasks {
  import opened BitStrings
  import opened Powers
  import opened DesStandard

  type Masks = seq<seq<Bits>>

  /** Selection table and geometry of a mask table. */
  datatype Shape = Shape(
    rows: nat,      // fields the input is cut into
    stride: nat,    // distance between fields
    width: nat,     // bits of a field that index the table
    src: seq<nat>,  // output bit v comes from input bit src[v], counted from 1
    off: nat,       // unused high-order bits of an output word
    lo: nat         // number of the first output bit held by this table
  )

  /** The position of field k: k times the stride. */
  function At(k: nat, stride: nat): nat {
    if k == 0 then 0 else At(k - 1, stride) + stride
  }

  ghost predicate WellShaped(h: Shape) {
    && h.width <= h.stride && h.off <= 32 && h.lo + 32 - h.off <= |h.src|
    && Selects(h.src, At(h.rows, h.stride))
  }

  /** The input position, counted from 0, of the bit that output bit `o` of the word holds. */
  function Source(h: Shape, o: nat): nat
    requires h.off <= o < 32 && h.lo + 32 - h.off <= |h.src| && h.src[h.lo + o - h.off] >= 1
  {
    h.src[h.lo + o - h.off] - 1
  }

  /** Bit `o` of entry `i` of row `k`, counting only the first `j` bits of the field. */
  ghost predicate MaskBit(h: Shape, k: nat, i: nat, j: nat, o: nat)
    requires WellShaped(h) && j <= h.width
  {
    h.off <= o < 32 &&
    var p := Source(h, o);
    At(k, h.stride) <= p < At(k, h.stride) + j && FromNat(i, h.width)[p - At(k, h.stride)]
  }

  ghost predicate IsMaskWord(h: Shape, k: nat, i: nat, j: nat, w: Bits)
    requires WellShaped(h) && j <= h.width
  {
    |w| == 32 && forall o :: 0 <= o < 32 ==> w[o] == MaskBit(h, k, i, j, o)
  }

  ghost predicate IsMaskRow(h: Shape, k: nat, row: seq<Bits>)
    requires WellShaped(h)
  {
    forall i :: 0 <= i < |row| ==> IsMaskWord(h, k, i, h.width, row[i])
  }

  ghost predicate IsMaskTable(h: Shape, t: Masks)
    requires WellShaped(h)
  {
    && |t| == h.rows
    && forall k :: 0 <= k < h.rows ==> |t[k]| == Pow2(h.width) && IsMaskRow(h, k, t[k])
  }

  /** `target` sends input bits to output bits the way `src` selects them. */
  ghost predicate Inverts(target: seq<nat>, src: seq<nat>) {
    forall b, v :: 0 <= b < |target| && 0 <= v < |src| ==> (target[b] == v <==> src[v] == b + 1)
  }

  /** The word with only bit `n` set: bits32[n]. */
  function One(n: nat): (w: Bits)
    ensures |w| == 32 && forall o :: 0 <= o < 32 ==> w[o] == (o == n)
  {
    Run(32, n, n + 1)
  }

  lemma {:induction false} FieldInTable(k: nat, stride: nat, rows: nat)
    requires k < rows
    ensures At(k, stride) + stride <= At(rows, stride)
  {
    if k < rows - 1 {
      FieldInTable(k, stride, rows - 1);
    }
  }

  lemma {:induction false} AtEight(k: nat)
    ensures At(k, 8) == 8 * k
  {
    if k > 0 {
      AtEight(k - 1);
    }
  }

  /** One more bit of the field. */
  lemma MaskBitGrows(h: Shape, k: nat, i: nat, j: nat, target: seq<nat>, o: nat)
    requires WellShaped(h) && k < h.rows && j < h.width && o < 32
    requires |target| == At(h.rows, h.stride) && Inverts(target, h.src)
    requires At(k, h.stride) + j < |target|
    ensures MaskBit(h, k, i, j + 1, o) <==>
            MaskBit(h, k, i, j, o) ||
            (FromNat(i, h.width)[j] && h.off <= o && target[At(k, h.stride) + j] == h.lo + o - h.off)
  {
    if h.off <= o {
      assert target[At(k, h.stride) + j] == h.lo + o - h.off <==> h.src[h.lo + o - h.off] == At(k, h.stride) + j + 1;
    }
  }

  /** The mask of entry `i` of row `k`. */
  method BuildWord(h: Shape, k: nat, i: nat, target: seq<nat>) returns (w: Bits)
    requires WellShaped(h) && k < h.rows
    requires |target| == At(h.rows, h.stride) && Inverts(target, h.src)
    ensures IsMaskWord(h, k, i, h.width, w)
  {
    w := Zeros(32);
    FieldInTable(k, h.stride, h.rows);
    for j := 0 to h.width
      invariant IsMaskWord(h, k, i, j, w)
    {
      var inbit := At(k, h.stride) + j;
      ghost var before := w;
      if FromNat(i, h.width)[j] {
        var obit := target[inbit];
        if h.lo <= obit < h.lo + 32 - h.off {
          w := Or(w, One(h.off + obit - h.lo));
        }
      }
      forall o | 0 <= o < 32
        ensures w[o] == MaskBit(h, k, i, j + 1, o)
      {
        MaskBitGrows(h, k, i, j, target, o);
        assert before[o] == MaskBit(h, k, i, j, o);
      }
    }
  }

  method BuildMasks(h: Shape, target: seq<nat>) returns (t: Masks)
    requires WellShaped(h)
    requires |target| == At(h.rows, h.stride) && Inverts(target, h.src)
    ensures IsMaskTable(h, t)
  {
    t := [];
    for k := 0 to h.rows
      invariant |t| == k
      invariant forall m :: 0 <= m < k ==> |t[m]| == Pow2(h.width) && IsMaskRow(h, m, t[m])
    {
      var row := [];
      for i := 0 to Pow2(h.width)
        invariant |row| == i && IsMaskRow(h, k, row)
      {
        var w := BuildWord(h, k, i, target);
        row := row + [w];
      }
      t := t + [row];
    }
  }

  // ---------------------------------------------------------------------------------------
  // Looking fields up

  /** The OR of the entries `index[0], .., index[n - 1]` of the first n rows. */
  function OrRows(t: Masks, index: seq<nat>, n: nat): (w: Bits)
    requires n <= |t| && n <= |index|
    requires forall k :: 0 <= k < n ==> index[k] < |t[k]| && |t[k][index[k]]| == 32
    ensures |w| == 32
  {
    if n == 0 then Zeros(32) else Or(OrRows(t, index, n - 1), t[n - 1][index[n - 1]])
  }

  /** Field k of an input. */
  function Field(h: Shape, x: Bits, k: nat): (f: Bits)
    requires h.width <= h.stride && k < h.rows && |x| == At(h.rows, h.stride)
    ensures |f| == h.width
  {
    FieldInTable(k, h.stride, h.rows);
    x[At(k, h.stride)..At(k, h.stride) + h.width]
  }

  /** The fields as table indices. */
  function Fields(h: Shape, x: Bits): (index: seq<nat>)
    requires h.width <= h.stride && |x| == At(h.rows, h.stride)
    ensures |index| == h.rows
    ensures forall k :: 0 <= k < h.rows ==> index[k] == ToNat(Field(h, x, k)) < Pow2(h.width)
  {
    seq(h.rows, k requires 0 <= k < h.rows => ToNat(Field(h, x, k)))
  }

  /** No selected bit lies between two fields. */
  ghost predicate FieldsCover(h: Shape) {
    h.width == h.stride || (h.stride == 8 && forall v :: 0 <= v < |h.src| ==> 1 <= h.src[v] && (h.src[v] - 1) % 8 < h.width)
  }

  lemma EntryIndex(h: Shape, t: Masks, x: Bits, k: nat)
    requires WellShaped(h) && IsMaskTable(h, t) && |x| == At(h.rows, h.stride) && k < h.rows
    ensures var i := Fields(h, x)[k];
            i < |t[k]| && |t[k][i]| == 32 && IsMaskWord(h, k, i, h.width, t[k][i])
            && FromNat(i, h.width) == Field(h, x, k)
  {
    FromNatOfToNat(Field(h, x, k));
    assert IsMaskRow(h, k, t[k]);
  }

  lemma EntryBit(h: Shape, t: Masks, x: Bits, k: nat, o: nat)
    requires WellShaped(h) && IsMaskTable(h, t) && |x| == At(h.rows, h.stride) && k < h.rows && o < 32
    requires FieldsCover(h)
    ensures var i := Fields(h, x)[k];
            i < |t[k]| && |t[k][i]| == 32
            && (t[k][i][o] <==>
                h.off <= o && At(k, h.stride) <= Source(h, o) < At(k, h.stride) + h.stride && x[Source(h, o)])
  {
    hide ToNat, FromNat, Pow2, IsMaskRow, At;
    EntryIndex(h, t, x, k);
    FieldInTable(k, h.stride, h.rows);
    var i := Fields(h, x)[k];
    assert t[k][i][o] == MaskBit(h, k, i, h.width, o);
    if h.off <= o {
      var p := Source(h, o);
      if At(k, h.stride) <= p < At(k, h.stride) + h.stride {
        if h.width < h.stride {
          AtEight(k);
          assert p % 8 == p - 8 * k;
        }
        assert Field(h, x, k)[p - At(k, h.stride)] == x[p];
      }
    }
  }

  lemma {:induction false} OrRowsBit(h: Shape, t: Masks, x: Bits, n: nat, o: nat)
    requires WellShaped(h) && IsMaskTable(h, t) && |x| == At(h.rows, h.stride) && n <= h.rows && o < 32
    requires FieldsCover(h)
    requires forall k :: 0 <= k < n ==> Fields(h, x)[k] < |t[k]| && |t[k][Fields(h, x)[k]]| == 32
    ensures OrRows(t, Fields(h, x), n)[o] <==> h.off <= o && Source(h, o) < At(n, h.stride) && x[Source(h, o)]
  {
    if n > 0 {
      OrRowsBit(h, t, x, n - 1, o);
      EntryBit(h, t, x, n - 1, o);
    }
  }

  lemma LookupDefined(h: Shape, t: Masks, x: Bits)
    requires WellShaped(h) && IsMaskTable(h, t) && |x| == At(h.rows, h.stride)
    ensures forall k :: 0 <= k < h.rows ==> Fields(h, x)[k] < |t[k]| && |t[k][Fields(h, x)[k]]| == 32
  {
    forall k | 0 <= k < h.rows
      ensures Fields(h, x)[k] < |t[k]| && |t[k][Fields(h, x)[k]]| == 32
    {
      EntryIndex(h, t, x, k);
    }
  }

  /** Looking all fields of `x` up in the table. */
  function Lookup(h: Shape, t: Masks, x: Bits): (w: Bits)
    requires WellShaped(h) && IsMaskTable(h, t) && |x| == At(h.rows, h.stride)
    ensures |w| == 32
  {
    LookupDefined(h, t, x);
    OrRows(t, Fields(h, x), h.rows)
  }

  /** Table indices, one for each row. */
  ghost predicate Indexes(t: Masks, index: seq<nat>) {
    |index| == |t| && forall k :: 0 <= k < |t| ==> index[k] < |t[k]| && |t[k][index[k]]| == 32
  }

  /** The OR of the words at those indices is w. */
  ghost predicate LooksUp(t: Masks, index: seq<nat>, w: Bits) {
    Indexes(t, index) && OrRows(t, index, |t|) == w
  }

  /** Indices that are the fields of `x`, however they were computed. */
  lemma LookupByIndex(h: Shape, t: Masks, x: Bits, index: seq<nat>)
    requires WellShaped(h) && IsMaskTable(h, t) && |x| == At(h.rows, h.stride) && index == Fields(h, x)
    ensures LooksUp(t, index, Lookup(h, t, x)) && |t| == h.rows
  {
    hide OrRows, Fields, IsMaskRow;
    LookupDefined(h, t, x);
  }

  /** The OR of the looked-up masks is the part of the permuted input the table is for. */
  lemma LookupIsPermutation(h: Shape, t: Masks, x: Bits)
    requires WellShaped(h) && IsMaskTable(h, t) && |x| == At(h.rows, h.stride) && FieldsCover(h)
    ensures Lookup(h, t, x) == Zeros(h.off) + Permute(h.src, x)[h.lo..h.lo + 32 - h.off]
  {
    hide OrRows, IsMaskTable, Fields, At;
    LookupDefined(h, t, x);
    var expected := Zeros(h.off) + Permute(h.src, x)[h.lo..h.lo + 32 - h.off];
    forall o | 0 <= o < 32
      ensures Lookup(h, t, x)[o] == expected[o]
    {
      OrRowsBit(h, t, x, h.rows, o);
    }
  }
}
