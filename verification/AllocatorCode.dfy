/** malloc, free, posix_memalign and realloc of memory.c, each proved to keep the allocator invariant. */
module AllocatorCode {
  import opened ByteMemory
  import opened Powers
  import opened Allocator
  import Division

  const EINVAL := 22
  const ENOMEM := 12

  // ---------------------------------------------------------------------------------------
  // What users stored

  function Region(m: Mem, a: nat, n: nat): seq<Byte>
    requires InMem(m, a, n)
  {
    m.bytes[a - m.base..a - m.base + n]
  }

  /** Every live region of `blocks` holds in m' what it held in m. */
  ghost predicate DataKept(m: Mem, m': Mem, blocks: Blocks) {
    forall g :: g in blocks && !blocks[g].use.Free? ==> RegionKept(m, m', g, blocks[g])
  }

  ghost predicate RegionKept(m: Mem, m': Mem, g: nat, b: Block)
    requires !b.use.Free?
  {
    && InMem(m, PtrOf(g, b), b.use.size) && InMem(m', PtrOf(g, b), b.use.size)
    && Region(m', PtrOf(g, b), b.use.size) == Region(m, PtrOf(g, b), b.use.size)
  }

  lemma RegionUntouched(m: Mem, m': Mem, lo: nat, hi: nat, g: nat, b: Block)
    requires SameOutside(m, m', lo, hi) && BlockOk(m, g, b) && !b.use.Free?
    requires PtrOf(g, b) + b.use.size <= lo || hi <= PtrOf(g, b)
    ensures RegionKept(m, m', g, b)
  {
    hide Load;
    RegionInside(m, g, b);
  }

  /** Writes into the header of any block. */
  lemma HeaderWriteKeepsData(m: Mem, m': Mem, blocks: Blocks, h: nat, lo: nat, hi: nat)
    requires BlocksOk(m, blocks) && Apart(blocks) && h in blocks
    requires SameOutside(m, m', lo, hi) && h <= lo && hi <= h + 16
    ensures DataKept(m, m', blocks)
  {
    hide BlockOk, SameOutside, RegionKept;
    forall g | g in blocks && !blocks[g].use.Free?
      ensures RegionKept(m, m', g, blocks[g])
    {
      assert BlockOk(m, g, blocks[g]);
      RegionInside(m, g, blocks[g]);
      RegionUntouched(m, m', lo, hi, g, blocks[g]);
    }
  }

  /** Writes anywhere inside one block. */
  lemma BlockWriteKeepsData(m: Mem, m': Mem, blocks: Blocks, h: nat, lo: nat, hi: nat)
    requires BlocksOk(m, blocks) && Apart(blocks) && h in blocks
    requires SameOutside(m, m', lo, hi) && h <= lo && hi <= EndOf(h, blocks[h])
    ensures DataKept(m, m', blocks - {h})
  {
    hide BlockOk, SameOutside, RegionKept;
    forall g | g in blocks - {h} && !blocks[g].use.Free?
      ensures RegionKept(m, m', g, blocks[g])
    {
      assert BlockOk(m, g, blocks[g]);
      RegionInside(m, g, blocks[g]);
      RegionUntouched(m, m', lo, hi, g, blocks[g]);
    }
  }

  lemma DataKeptChain(m0: Mem, m1: Mem, m2: Mem, blocks: Blocks)
    requires DataKept(m0, m1, blocks) && DataKept(m1, m2, blocks)
    ensures DataKept(m0, m2, blocks)
  {
    forall g | g in blocks && !blocks[g].use.Free?
      ensures RegionKept(m0, m2, g, blocks[g])
    {
      assert RegionKept(m0, m1, g, blocks[g]) && RegionKept(m1, m2, g, blocks[g]);
    }
  }

  // ---------------------------------------------------------------------------------------
  // First fit

  /** The first node of the free list from the k-th on whose block is large enough; |free| if none. */
  ghost function FirstFit(m: Mem, free: seq<nat>, size: nat, k: nat): (i: nat)
    requires k <= |free| && forall j :: 0 <= j < |free| ==> InMem(m, free[j], 8)
    ensures k <= i <= |free|
    ensures forall j :: k <= j < i ==> Load(m, free[j], 8) < size
    ensures i < |free| ==> Load(m, free[i], 8) >= size
    decreases |free| - k
  {
    if k == |free| || Load(m, free[k], 8) >= size then k else FirstFit(m, free, size, k + 1)
  }

  lemma NodesInMem(m: Mem, head: nat, blocks: Blocks, free: seq<nat>)
    requires Inv(m, head, blocks, free)
    ensures forall j :: 0 <= j < |free| ==> InMem(m, free[j], 8)
  {
    forall j | 0 <= j < |free|
      ensures InMem(m, free[j], 8)
    {
      NodeInMem(m, head, blocks, free, j);
    }
  }

  // ---------------------------------------------------------------------------------------
  // What free does to memory

  datatype Outcome = Wild | Done(mem: Mem, head: nat)

  /** free_impl on any pointer; Wild when it would write outside memory. */
  function FreeImplEffect(m: Mem, head: nat, ptr: nat): Outcome {
    if ptr == 0 then Done(m, head)
    else if ptr < 16 || !InMem(m, ptr - 8, 8) then Wild
    else Done(Store(m, ptr - 8, 8, head), ptr - 16)
  }

  /** free on any pointer with 16 bytes of memory in front of it. */
  function FreeEffect(m: Mem, head: nat, ptr: nat): Outcome
    requires ptr == 0 || (ptr >= 16 && InMem(m, ptr - 16, 16))
  {
    if ptr == 0 then Done(m, head)
    else if Load(m, ptr - 16, 4) == MAGIC
    then FreeImplEffect(Store(m, ptr - 16, 4, 0), head, Load(m, ptr - 8, 8))
    else FreeImplEffect(m, head, ptr)
  }

  /**
    free of a live plain pointer pushes its block, and does nothing else, exactly if the size
    requested for it is not the alignment magic modulo 2^32: the two headers overlay each other.
   */
  lemma PlainFreedBackIff(m: Mem, head: nat, blocks: Blocks, free: seq<nat>, h: nat)
    requires Inv(m, head, blocks, free) && h in blocks && blocks[h].use.Plain?
    ensures InMem(m, h, 16)
    ensures FreeEffect(m, head, h + 16) == Done(Store(m, h + 8, 8, head), h)
            <==> blocks[h].use.size % 0x1_0000_0000 != MAGIC
  {
    hide Load, Store, Links, FreeSet, Apart;
    assert BlockOk(m, h, blocks[h]);
    LoadLow(m, h, 8, 4);
    WordPower();
    if Load(m, h, 4) == MAGIC {
      var z := Store(m, h, 4, 0);
      StoreIsLocal(m, h + 8, 8, head);
      LoadUntouched(m, Store(m, h + 8, 8, head), h + 8, h + 16, h, 4);
      MagicErased(m, h, head, Load(m, h + 8, 8));
    }
  }

  /** Whatever the stale link is, the low half of the size field ends up different from the magic. */
  lemma MagicErased(m: Mem, h: nat, head: nat, orig: nat)
    requires InMem(m, h, 16)
    ensures var z := Store(m, h, 4, 0);
            match FreeImplEffect(z, head, orig)
            case Wild => true
            case Done(m', head') => head' == h && orig != 0 ==> InMem(m', h, 4) && Load(m', h, 4) == 0
    ensures FreeImplEffect(Store(m, h, 4, 0), head, 0) == Done(Store(m, h, 4, 0), head) && Load(Store(m, h, 4, 0), h, 4) == 0
  {
    hide Load, Store;
    var z := Store(m, h, 4, 0);
    WordPower();
    LoadOfStore(m, h, 4, 0);
    if orig >= 16 && InMem(z, orig - 8, 8) && orig - 16 == h {
      StoreIsLocal(z, orig - 8, 8, head);
      LoadUntouched(z, Store(z, orig - 8, 8, head), orig - 8, orig, h, 4);
    }
  }

  /** free of a live aligned pointer always pushes the block it lies in. */
  lemma AlignedFreedBack(m: Mem, head: nat, blocks: Blocks, free: seq<nat>, h: nat)
    requires Inv(m, head, blocks, free) && h in blocks && blocks[h].use.Aligned?
    ensures var p := blocks[h].use.ptr;
            && p >= 16 && InMem(m, p - 16, 16) && InMem(m, h + 8, 8)
            && FreeEffect(m, head, p) == Done(Store(Store(m, p - 16, 4, 0), h + 8, 8, head), h)
  {
    hide Load, Store, Links, FreeSet, Apart;
    assert BlockOk(m, h, blocks[h]);
  }

  /** Clearing the magic turns an aligned block back into the plain one it was carved from. */
  lemma DisarmKeepsInv(m: Mem, head: nat, blocks: Blocks, free: seq<nat>, h: nat)
    requires Inv(m, head, blocks, free) && h in blocks && blocks[h].use.Aligned?
    ensures var p := blocks[h].use.ptr;
            && p >= 16 && InMem(m, h, 8) && InMem(m, p - 16, 4)
            && Inv(Store(m, p - 16, 4, 0), head, blocks[h := Block(blocks[h].cap, Plain(Load(m, h, 8)))], free)
  {
    hide Load, Store, SameOutside, Inv;
    BlockOfInv(m, head, blocks, free, h);
    var p := blocks[h].use.ptr;
    var m', b' := Store(m, p - 16, 4, 0), Block(blocks[h].cap, Plain(Load(m, h, 8)));
    StoreIsLocal(m, p - 16, 4, 0);
    LoadUntouched(m, m', p - 16, p - 12, h, 8);
    RewriteKeepsInv(m, m', head, blocks, free, h, b', p - 16, p - 12);
  }

  /** An aligned block goes to the front of the free list. */
  lemma FreeAlignedKeepsInv(m: Mem, head: nat, blocks: Blocks, free: seq<nat>, h: nat)
    requires Inv(m, head, blocks, free) && h in blocks && blocks[h].use.Aligned?
    ensures var p := blocks[h].use.ptr;
            && p >= 16 && InMem(m, p - 16, 4) && InMem(m, h + 8, 8)
            && Inv(Store(Store(m, p - 16, 4, 0), h + 8, 8, head), h, blocks[h := Block(blocks[h].cap, Use.Free)], [h] + free)
            && DataKept(m, Store(Store(m, p - 16, 4, 0), h + 8, 8, head), blocks - {h})
  {
    hide Load, Store, SameOutside, Inv, DataKept;
    DisarmKeepsInv(m, head, blocks, free, h);
    var p := blocks[h].use.ptr;
    var m1, blocks1 := Store(m, p - 16, 4, 0), blocks[h := Block(blocks[h].cap, Plain(Load(m, h, 8)))];
    PushKeepsInv(m1, head, blocks1, free, h);
    assert blocks1[h := Block(blocks1[h].cap, Use.Free)] == blocks[h := Block(blocks[h].cap, Use.Free)];
    BlockOfInv(m, head, blocks, free, h);
    BlockOfInv(m1, head, blocks1, free, h);
    StoreIsLocal(m, p - 16, 4, 0);
    StoreIsLocal(m1, h + 8, 8, head);
    BlockWriteKeepsData(m, m1, blocks, h, p - 16, p - 12);
    BlockWriteKeepsData(m1, Store(m1, h + 8, 8, head), blocks1, h, h + 8, h + 16);
    assert blocks1 - {h} == blocks - {h};
    DataKeptChain(m, m1, Store(m1, h + 8, 8, head), blocks - {h});
  }

  lemma FreePlainKeepsInv(m: Mem, head: nat, blocks: Blocks, free: seq<nat>, h: nat)
    requires Inv(m, head, blocks, free) && h in blocks && !blocks[h].use.Free?
    ensures InMem(m, h + 8, 8)
    ensures Inv(Store(m, h + 8, 8, head), h, blocks[h := Block(blocks[h].cap, Use.Free)], [h] + free)
    ensures DataKept(m, Store(m, h + 8, 8, head), blocks - {h})
  {
    hide Load, Store, SameOutside, Inv, DataKept;
    BlockOfInv(m, head, blocks, free, h);
    PushKeepsInv(m, head, blocks, free, h);
    StoreIsLocal(m, h + 8, 8, head);
    BlockWriteKeepsData(m, Store(m, h + 8, 8, head), blocks, h, h + 8, h + 16);
  }

  lemma UnlinkKeepsData(m: Mem, head: nat, blocks: Blocks, free: seq<nat>, i: nat, size: nat)
    requires Inv(m, head, blocks, free) && i < |free|
    requires InMem(m, free[i], 16) && (i > 0 ==> InMem(m, free[i - 1] + 8, 8))
    ensures DataKept(m, Unlinked(m, free, i, size), blocks)
  {
    hide Load, Store, SameOutside, DataKept, BlockOk, LinkOk;
    NodeInMem(m, head, blocks, free, i);
    var m1 := RelinkedMemory(m, head, blocks, free, i);
    var m2 := Store(m1, free[i], 8, size);
    StoreIsLocal(m1, free[i], 8, size);
    HeaderWriteKeepsData(m1, m2, blocks, free[i], free[i], free[i] + 8);
    if i > 0 {
      NodeInMem(m, head, blocks, free, i - 1);
      HeaderWriteKeepsData(m, m1, blocks, free[i - 1], free[i - 1] + 8, free[i - 1] + 16);
      DataKeptChain(m, m1, m2, blocks);
    }
  }

  lemma GrowKeepsData(m: Mem, blocks: Blocks, size: nat)
    requires BlocksOk(m, blocks) && 0 < size && m.Break() + 16 + size < TOP
    ensures InMem(Extended(m, 16 + size), m.Break(), 8)
    ensures DataKept(m, Store(Extended(m, 16 + size), m.Break(), 8, size), blocks)
  {
    hide Load, Store, SameOutside, Extended, RegionKept;
    var h := m.Break();
    GrownMemory(m, size);
    var m' := Store(Extended(m, 16 + size), h, 8, size);
    forall g | g in blocks && !blocks[g].use.Free?
      ensures RegionKept(m, m', g, blocks[g])
    {
      assert BlockOk(m, g, blocks[g]);
      RegionInside(m, g, blocks[g]);
      RegionUntouched(m, m', h, h, g, blocks[g]);
    }
  }

  // ---------------------------------------------------------------------------------------
  // The arithmetic of posix_memalign

  lemma Pow64()
    ensures Pow2(64) == WORD
  {
    assert Pow2(8) == 0x100;
    assert Pow2(16) == 0x1_0000;
    assert Pow2(24) == 0x100_0000;
    assert Pow2(32) == 0x1_0000_0000;
    assert Pow2(40) == 0x100_0000_0000;
    assert Pow2(48) == 0x1_0000_0000_0000;
    assert Pow2(56) == 0x100_0000_0000_0000;
  }

  lemma {:induction false} PowOrder(j: nat, k: nat)
    requires j <= k
    ensures Pow2(j) <= Pow2(k)
  {
    if j < k {
      PowOrder(j, k - 1);
    }
  }

  /** (x + a - 1) & ~(a - 1) is the first multiple of a from x on. */
  lemma RoundUp(x: nat, a: nat) returns (r: nat)
    requires IsPowerOfTwo(a) && a < WORD && x + a - 1 < WORD
    ensures r == BitAnd(x + a - 1, WORD - a) && r % a == 0 && x <= r < x + a
  {
    hide BitAnd;
    var k: nat :| a == Pow2(k);
    Pow64();
    if k > 64 {
      PowOrder(64, k);
    }
    RoundDown(x + a - 1, 64, k);
    var y := x + a - 1;
    r := BitAnd(y, WORD - a);
    MultipleBelow(y, a);
  }

  lemma MultipleBelow(y: nat, a: nat)
    requires a > 0
    ensures (y - y % a) % a == 0 && y % a < a
  {
    var q := y / a;
    assert y - y % a == a * q;
    Division.Unique(a * q, a, q, 0);
  }

  // ---------------------------------------------------------------------------------------
  // Steps of the search loop

  lemma HeadOfList(m: Mem, head: nat, blocks: Blocks, free: seq<nat>)
    requires Inv(m, head, blocks, free)
    ensures head == NodeAt(free, 0) && (head == 0 <==> |free| == 0)
  {
    NodeFits(m, head, blocks, free, 0);
  }

  lemma LinkAt(m: Mem, head: nat, blocks: Blocks, free: seq<nat>, i: nat)
    requires Inv(m, head, blocks, free) && i < |free|
    ensures InMem(m, free[i] + 8, 8) && Load(m, free[i] + 8, 8) == NodeAt(free, i + 1)
  {
    hide Load;
    assert LinkOk(m, free, i);
  }

  lemma FitStep(m: Mem, free: seq<nat>, size: nat, i: nat)
    requires i < |free| && forall j :: 0 <= j < |free| ==> InMem(m, free[j], 8)
    ensures FirstFit(m, free, size, i) == if Load(m, free[i], 8) >= size then i else FirstFit(m, free, size, i + 1)
  {
  }

  lemma FitDone(m: Mem, free: seq<nat>, size: nat)
    requires forall j :: 0 <= j < |free| ==> InMem(m, free[j], 8)
    ensures FirstFit(m, free, size, |free|) == |free|
  {
  }

  lemma UnlinkedIs(m: Mem, free: seq<nat>, i: nat, size: nat, m': Mem)
    requires i < |free| && InMem(m, free[i], 16) && (i > 0 ==> InMem(m, free[i - 1] + 8, 8))
    requires m' == Store(if i > 0 then Store(m, free[i - 1] + 8, 8, Load(m, free[i] + 8, 8)) else m, free[i], 8, size)
    ensures Unlinked(m, free, i, size) == m'
  {
  }

  lemma DataSame(m: Mem, head: nat, blocks: Blocks, free: seq<nat>)
    requires Inv(m, head, blocks, free)
    ensures DataKept(m, m, blocks) && BlocksOk(m, blocks)
  {
    forall g | g in blocks && !blocks[g].use.Free?
      ensures RegionKept(m, m, g, blocks[g])
    {
      assert BlockOk(m, g, blocks[g]);
      RegionInside(m, g, blocks[g]);
    }
  }

  lemma BlocksBelow(m: Mem, head: nat, blocks: Blocks, free: seq<nat>)
    requires Inv(m, head, blocks, free)
    ensures m.Break() !in blocks
  {
    if m.Break() in blocks {
      BlockOfInv(m, head, blocks, free, m.Break());
    }
  }

  lemma PlainSize(m: Mem, h: nat, b: Block)
    requires BlockOk(m, h, b) && b.use.Plain?
    ensures b.use.size <= b.cap && Load(m, h, 8) == b.use.size
  {
  }

  lemma DataOfRest(m: Mem, m': Mem, blocks: Blocks, h: nat)
    requires h in blocks && DataKept(m, m', blocks - {h})
    ensures DataKept(m, m', blocks[h := Block(blocks[h].cap, Use.Free)])
  {
    hide RegionKept;
    var rest := blocks - {h};
    forall g | g in blocks && g != h && !blocks[g].use.Free?
      ensures RegionKept(m, m', g, blocks[g])
    {
      assert g in rest && rest[g] == blocks[g];
    }
  }

  /** Blocks live before an allocation are live after it. */
  lemma DataAround(m: Mem, m': Mem, blocks: Blocks, blocks': Blocks, h: nat)
    requires DataKept(m, m', blocks' - {h})
    requires (h in blocks ==> blocks[h].use.Free?) && h in blocks' && blocks' == blocks[h := blocks'[h]]
    ensures DataKept(m, m', blocks)
  {
    hide RegionKept;
    var rest := blocks' - {h};
    forall g | g in blocks && !blocks[g].use.Free?
      ensures RegionKept(m, m', g, blocks[g])
    {
      assert g in rest && rest[g] == blocks[g];
    }
  }

  lemma NoPowerIsZero()
    ensures !IsPowerOfTwo(0)
  {
  }

  /** Memory after a block of data is copied to `at`. */
  function Written(m: Mem, at: nat, data: seq<Byte>): (r: Mem)
    requires InMem(m, at, |data|)
    ensures |r.bytes| == |m.bytes| && SameOutside(m, r, at, at + |data|) && Region(r, at, |data|) == data
  {
    var o := at - m.base;
    m.(bytes := m.bytes[..o] + data + m.bytes[o + |data|..])
  }

  /** The n bytes at b in m' are those at a in m. */
  ghost predicate Copied(m: Mem, a: nat, m': Mem, b: nat, n: nat) {
    InMem(m, a, n) && InMem(m', b, n) && Region(m', b, n) == Region(m, a, n)
  }

  lemma CopiedChain(m: Mem, a: nat, m': Mem, b: nat, m'': Mem, c: nat, n: nat)
    requires Copied(m, a, m', b, n) && Copied(m', b, m'', c, n)
    ensures Copied(m, a, m'', c, n)
  {
  }

  lemma RegionPrefix(m: Mem, a: nat, n: nat, size: nat)
    requires InMem(m, a, size) && n <= size
    ensures Region(m, a, n) == Region(m, a, size)[..n]
  {
  }

  lemma PrefixKept(m: Mem, m': Mem, blocks: Blocks, h: nat, n: nat)
    requires DataKept(m, m', blocks) && h in blocks && blocks[h].use.Plain? && n <= blocks[h].use.size
    ensures Copied(m, h + 16, m', h + 16, n)
  {
    assert RegionKept(m, m', h, blocks[h]);
    var size := blocks[h].use.size;
    RegionPrefix(m', h + 16, n, size);
    RegionPrefix(m, h + 16, n, size);
  }

  /** Write into block k, free block h: the other live regions. */
  lemma DataMoved(m0: Mem, m1: Mem, m2: Mem, blocks: Blocks, blocks': Blocks, k: nat, h: nat)
    requires DataKept(m0, m1, blocks - {k}) && DataKept(m1, m2, blocks')
    requires h in blocks && blocks' == blocks[h := Block(blocks[h].cap, Use.Free)]
    ensures DataKept(m0, m2, blocks' - {k})
  {
    var rest, rest' := blocks - {k}, blocks' - {k};
    forall g | g in rest' && !rest'[g].use.Free?
      ensures RegionKept(m0, m2, g, rest'[g])
    {
      assert g in rest && rest[g] == rest'[g];
      assert RegionKept(m0, m1, g, rest[g]) && RegionKept(m1, m2, g, blocks'[g]);
    }
  }

  /** Allocate block k, then move block h to it: the other live regions. */
  lemma DataThrough(m0: Mem, m1: Mem, m2: Mem, blocks: Blocks, blocks1: Blocks, blocks2: Blocks, k: nat, h: nat)
    requires DataKept(m0, m1, blocks) && DataKept(m1, m2, blocks2 - {k})
    requires k in blocks1 && blocks1 == blocks[k := blocks1[k]]
    requires h in blocks1 && blocks2 == blocks1[h := Block(blocks1[h].cap, Use.Free)]
    ensures DataKept(m0, m2, blocks2 - {k})
  {
    var rest := blocks2 - {k};
    forall g | g in rest && !rest[g].use.Free?
      ensures RegionKept(m0, m2, g, rest[g])
    {
      assert blocks[g] == rest[g];
      assert RegionKept(m0, m1, g, blocks[g]) && RegionKept(m1, m2, g, rest[g]);
    }
  }

  /** free of a live pointer returns its block to the list and leaves the data of the others. */
  lemma FreedBack(m: Mem, head: nat, blocks: Blocks, free: seq<nat>, h: nat)
    requires Inv(m, head, blocks, free) && h in blocks && !blocks[h].use.Free?
    requires blocks[h].use.Plain? ==> blocks[h].use.size % 0x1_0000_0000 != MAGIC
    ensures PtrOf(h, blocks[h]) >= 16 && InMem(m, PtrOf(h, blocks[h]) - 16, 16)
    ensures var blocks', r := blocks[h := Block(blocks[h].cap, Use.Free)], FreeEffect(m, head, PtrOf(h, blocks[h]));
            && r.Done? && r.mem.Break() == m.Break()
            && Inv(r.mem, r.head, blocks', [h] + free) && DataKept(m, r.mem, blocks')
  {
    hide Inv, Load, Store, DataKept, FreeEffect;
    if blocks[h].use.Plain? {
      PlainFreedBackIff(m, head, blocks, free, h);
      FreePlainKeepsInv(m, head, blocks, free, h);
      DataOfRest(m, FreeEffect(m, head, h + 16).mem, blocks, h);
    } else {
      AlignedFreedBack(m, head, blocks, free, h);
      FreeAlignedKeepsInv(m, head, blocks, free, h);
      DataOfRest(m, FreeEffect(m, head, blocks[h].use.ptr).mem, blocks, h);
    }
  }

  /** The static data of memory.c together with the data segment.  `blocks` and `free` are ghosts. */
  class Heap {
    var mem: Mem
    var freeList: nat
    var failAfter: int  // vlibc_test_alloc_fail_after
    ghost var blocks: Blocks
    ghost var free: seq<nat>

    ghost predicate Valid()
      reads this
    {
      Inv(mem, freeList, blocks, free)
    }

    /** The block whose user pointer is ptr. */
    ghost predicate Owns(h: nat, ptr: nat)
      reads this
    {
      h in blocks && !blocks[h].use.Free? && PtrOf(h, blocks[h]) == ptr
    }

    constructor (base: nat)
      requires 0 < base < TOP
      ensures Valid() && blocks == map[] && free == [] && mem == Mem(base, []) && freeList == 0 && failAfter == -1
    {
      mem, freeList, failAfter, blocks, free := Mem(base, []), 0, -1, map[], [];
    }

    /** The fitting node b, i-th of the list, leaves the list and records its new size. */
    method Unlink(prev: nat, b: nat, size: nat, ghost i: nat)
      requires Valid() && i < |free| && b == free[i] && prev == (if i == 0 then 0 else free[i - 1])
      requires (i > 0 ==> prev != 0) && InMem(mem, b, 8) && 0 < size <= Load(mem, b, 8)
      modifies `mem, `freeList, `blocks, `free
      ensures Valid() && mem.base == old(mem.base) && mem.Break() == old(mem.Break()) && DataKept(old(mem), mem, old(blocks))
      ensures b in old(blocks) && old(blocks)[b].use.Free?
      ensures blocks == old(blocks)[b := Block(old(blocks)[b].cap, Plain(size))]
      ensures free == old(free)[..i] + old(free)[i + 1..]
    {
      hide Inv, Load, Store, DataKept, Unlinked, BlockOk, LinkOk;
      NodeInMem(mem, freeList, blocks, free, i);
      if i > 0 {
        NodeInMem(mem, freeList, blocks, free, i - 1);
      }
      UnlinkKeepsInv(mem, freeList, blocks, free, i, size);
      UnlinkKeepsData(mem, freeList, blocks, free, i, size);
      ghost var m0 := mem;
      if prev != 0 {
        mem := Store(mem, prev + 8, 8, Load(mem, b + 8, 8));
      } else {
        freeList := Load(mem, b + 8, 8);
      }
      mem := Store(mem, b, 8, size);
      UnlinkedIs(m0, free, i, size, mem);
      blocks := blocks[b := Block(blocks[b].cap, Plain(size))];
      free := free[..i] + free[i + 1..];
    }

    /** The search loop of malloc and its two exits. */
    method TakeFirstFit(size: nat) returns (p: nat)
      requires Valid() && size > 0
      modifies `mem, `freeList, `blocks, `free
      ensures Valid() && mem.base == old(mem.base) && mem.Break() == old(mem.Break())
      ensures forall j :: 0 <= j < |old(free)| ==> InMem(old(mem), old(free)[j], 8)
      ensures DataKept(old(mem), mem, old(blocks))
      ensures var i := FirstFit(old(mem), old(free), size, 0);
              if i == |old(free)| then p == 0 && unchanged(this)
              else
                && p == old(free)[i] + 16 && old(free)[i] in old(blocks) && old(blocks)[old(free)[i]].use.Free?
                && blocks == old(blocks)[old(free)[i] := Block(old(blocks)[old(free)[i]].cap, Plain(size))]
                && free == old(free)[..i] + old(free)[i + 1..]
    {
      hide Inv, Load, DataKept, FirstFit, BlockOk, LinkOk;
      NodesInMem(mem, freeList, blocks, free);
      var prev, b;
      ghost var i;
      prev, b, i := SearchFit(size);
      if b == 0 {
        DataSame(mem, freeList, blocks, free);
        return 0;
      }
      Unlink(prev, b, size, i);
      return b + 16;
    }

    /** The loop: the first node that fits, and the one before it. */
    method SearchFit(size: nat) returns (prev: nat, b: nat, ghost i: nat)
      requires Valid() && forall j :: 0 <= j < |free| ==> InMem(mem, free[j], 8)
      ensures i == FirstFit(mem, free, size, 0) && b == NodeAt(free, i) && prev == (if i == 0 then 0 else free[i - 1])
      ensures (i > 0 ==> prev != 0) && (b == 0 <==> i == |free|)
      ensures i < |free| ==> Load(mem, b, 8) >= size
    {
      hide Inv, Load, FirstFit, BlockOk, LinkOk, InMem;
      prev, b, i := 0, freeList, 0;
      HeadOfList(mem, freeList, blocks, free);
      while b != 0
        invariant i <= |free| && b == NodeAt(free, i) && prev == (if i == 0 then 0 else free[i - 1])
        invariant (i > 0 ==> prev != 0) && (b == 0 <==> i == |free|)
        invariant FirstFit(mem, free, size, 0) == FirstFit(mem, free, size, i)
        decreases |free| - i
      {
        FitStep(mem, free, size, i);
        LinkAt(mem, freeList, blocks, free, i);
        if Load(mem, b, 8) >= size {
          return;
        }
        NodeFits(mem, freeList, blocks, free, i + 1);
        prev := b;
        b := Load(mem, b + 8, 8);
        i := i + 1;
      }
      FitDone(mem, free, size);
    }

    /**
      The end of malloc: sbrk and the new header at the old break.  A size whose increment is negative
      as an intptr_t lowers the break; the header is then written above it, outside memory.
     */
    method Grow(size: nat, granted: bool) returns (p: nat)
      requires size > 0 && 16 + size < WORD
      modifies `mem, `blocks
      ensures !Moves(old(mem), Increment(size), granted) ==> p == 0 && unchanged(this)
      ensures Moves(old(mem), Increment(size), granted) ==> p == old(mem.Break()) + 16 && mem.Break() == old(mem.Break()) + Increment(size)
      ensures mem.base == old(mem.base)
      ensures p != 0 && 16 + size < TOP ==>
                && InMem(Extended(old(mem), 16 + size), old(mem.Break()), 8)
                && mem == Store(Extended(old(mem), 16 + size), old(mem.Break()), 8, size)
                && blocks == old(blocks)[old(mem.Break()) := Block(size, Plain(size))]
      ensures p != 0 && 16 + size >= TOP ==> mem == Shifted(old(mem), Increment(size)) && blocks == old(blocks)
      ensures old(Valid()) ==> old(mem.Break()) !in old(blocks)
      ensures old(Valid()) && 16 + size < TOP ==> Valid() && DataKept(old(mem), mem, old(blocks))
    {
      hide Inv, Load, Store, DataKept, Extended;
      var h, inc := mem.Break(), Increment(size);
      if Valid() {
        DataSame(mem, freeList, blocks, free);
        BlocksBelow(mem, freeList, blocks, free);
      }
      if !Moves(mem, inc, granted) {
        return 0;
      }
      if inc >= 0 && Valid() {
        GrowKeepsInv(mem, freeList, blocks, free, size);
        GrowKeepsData(mem, blocks, size);
      }
      mem := Shifted(mem, inc);
      if InMem(mem, h, 8) {
        mem := Store(mem, h, 8, size);
        blocks := blocks[h := Block(size, Plain(size))];
      }
      return h + 16;
    }

    /**
      malloc.  `probed` and `granted` are the answers of sbrk to the probe and to the request for
      more memory.
     */
    method Malloc(size: nat, probed: bool, granted: bool) returns (p: nat)
      requires Valid() && size < WORD
      modifies this
      ensures failAfter == (if old(failAfter) >= 0 then old(failAfter) - 1 else old(failAfter)) && mem.base == old(mem.base)
      ensures forall j :: 0 <= j < |old(free)| ==> InMem(old(mem), old(free)[j], 8)
      ensures p == 0 <==> old(Refuses(size, probed, granted))
      ensures p == 0 ==> mem == old(mem) && freeList == old(freeList) && blocks == old(blocks) && free == old(free)
      ensures p != 0 ==> (Allocated(p, size, old(blocks), old(mem.Break())) <==> !old(Lowers(size)))
      ensures !old(Lowers(size)) || p == 0 ==> Valid() && DataKept(old(mem), mem, old(blocks)) && mem.Break() >= old(mem.Break())
      ensures old(Lowers(size)) && p != 0 ==> LoweredFrom(old(mem), size, p) && blocks == old(blocks)
      ensures var i := FirstFit(old(mem), old(free), size, 0);
              p != 0 ==>
                if i < |old(free)|
                then p == old(free)[i] + 16 && free == old(free)[..i] + old(free)[i + 1..] && mem.Break() == old(mem.Break())
                else 16 + size < WORD && mem.Break() == old(mem.Break()) + Increment(size) && free == old(free) && freeList == old(freeList)
    {
      hide Inv, Load, DataKept, FirstFit, BlockOk, NodeAt, Shifted;
      NodesInMem(mem, freeList, blocks, free);
      DataSame(mem, freeList, blocks, free);
      if failAfter >= 0 {
        failAfter := failAfter - 1;
        if failAfter == -1 {
          return 0;
        }
      }
      if size == 0 || !probed || size > WORD - 1 - HDR {
        return 0;
      }
      p := TakeFirstFit(size);
      if p == 0 {
        p := Grow(size, granted);
        if p != 0 && 16 + size < TOP {
          BlockOfInv(mem, freeList, blocks, free, p - 16);
        }
      } else {
        BlockOfInv(mem, freeList, blocks, free, p - 16);
        PlainSize(mem, p - 16, blocks[p - 16]);
      }
    }

    ghost predicate NoFit(size: nat)
      reads this
    {
      (forall j :: 0 <= j < |free| ==> InMem(mem, free[j], 8)) && FirstFit(mem, free, size, 0) == |free|
    }

    /** The cases in which malloc returns null: the test hook, no size, sbrk, or no block and no memory. */
    ghost predicate Refuses(size: nat, probed: bool, granted: bool)
      reads this
    {
      || failAfter == 0 || size == 0 || !probed || size > WORD - 1 - HDR
      || (NoFit(size) && !Moves(mem, Increment(size), granted))
    }

    /** The size reaches sbrk and is negative there. */
    ghost predicate Lowers(size: nat)
      reads this
    {
      NoFit(size) && 16 + size >= TOP
    }

    /** malloc has lowered the break and handed out memory above it. */
    ghost predicate LoweredFrom(mem0: Mem, size: nat, p: nat)
      reads this
    {
      && 16 + size < WORD && mem0.base <= mem0.Break() + Increment(size) && mem == Shifted(mem0, Increment(size))
      && mem.Break() < mem0.Break() && p == mem0.Break() + 16
    }

    /** The block behind p is new or was free, is big enough, and no other block changed. */
    ghost predicate Allocated(p: nat, size: nat, blocks0: Blocks, break0: nat)
      reads this
    {
      && p > 16 && Owns(p - 16, p)
      && (p - 16 in blocks0 ==> blocks0[p - 16].use.Free? && blocks0[p - 16].cap == blocks[p - 16].cap)
      && (p - 16 !in blocks0 ==> p - 16 == break0 && blocks[p - 16].cap == size)
      && size <= blocks[p - 16].cap
      && blocks == blocks0[p - 16 := Block(blocks[p - 16].cap, Plain(size))]
    }

    /** free_impl: prepend the header in front of ptr to the list. */
    method FreeImpl(ptr: nat)
      requires FreeImplEffect(mem, freeList, ptr).Done?
      modifies `mem, `freeList
      ensures FreeImplEffect(old(mem), old(freeList), ptr) == Done(mem, freeList)
    {
      if ptr == 0 {
        return;
      }
      var hdr := ptr - HDR;
      mem := Store(mem, hdr + 8, 8, freeList);
      freeList := hdr;
    }

    /** free, on any pointer for which it writes inside memory. */
    method FreeAny(ptr: nat)
      requires ptr == 0 || (ptr >= 16 && InMem(mem, ptr - 16, 16))
      requires FreeEffect(mem, freeList, ptr).Done?
      modifies `mem, `freeList
      ensures FreeEffect(old(mem), old(freeList), ptr) == Done(mem, freeList)
    {
      if ptr == 0 {
        return;
      }
      var ph := ptr - HDR;
      if Load(mem, ph, 4) == MAGIC {
        var orig := Load(mem, ph + 8, 8);
        mem := Store(mem, ph, 4, 0);
        FreeImpl(orig);
        return;
      }
      FreeImpl(ptr);
    }

    /** free of a live pointer.  For a plain one the size must not read as the magic (PlainFreedBackIff). */
    method Free(ptr: nat, ghost h: nat)
      requires Valid() && (ptr == 0 || Owns(h, ptr))
      requires ptr != 0 && blocks[h].use.Plain? ==> blocks[h].use.size % 0x1_0000_0000 != MAGIC
      modifies `mem, `freeList, `blocks, `free
      ensures Valid() && mem.Break() == old(mem.Break()) && DataKept(old(mem), mem, blocks)
      ensures ptr == 0 ==> unchanged(this)
      ensures ptr != 0 ==> blocks == old(blocks)[h := Block(old(blocks)[h].cap, Use.Free)] && free == [h] + old(free)
    {
      hide Inv, Load, Store, DataKept, BlockOk, FreeEffect;
      if ptr == 0 {
        DataSame(mem, freeList, blocks, free);
        return;
      }
      FreedBack(mem, freeList, blocks, free, h);
      FreeAny(ptr);
      blocks := blocks[h := Block(blocks[h].cap, Use.Free)];
      free := [h] + free;
    }

    /** The owner of a live block writes into it. */
    method UserWrite(ghost h: nat, at: nat, data: seq<Byte>)
      requires Valid() && h in blocks && !blocks[h].use.Free?
      requires PtrOf(h, blocks[h]) <= at && at + |data| <= PtrOf(h, blocks[h]) + blocks[h].use.size
      modifies `mem
      ensures Valid() && mem.Break() == old(mem.Break()) && DataKept(old(mem), mem, blocks - {h})
      ensures InMem(old(mem), at, |data|) && mem == Written(old(mem), at, data)
    {
      hide Inv, Load, DataKept, BlockOk, Written;
      BlockOfInv(mem, freeList, blocks, free, h);
      RegionInside(mem, h, blocks[h]);
      ghost var m0 := mem;
      mem := Written(mem, at, data);
      ScribbleKeepsInv(m0, mem, freeList, blocks, free, h, at, at + |data|);
      BlockWriteKeepsData(m0, mem, blocks, h, at, at + |data|);
    }

    /** The alignment header goes in front of the aligned address. */
    method Carve(ghost h: nat, orig: nat, aligned: nat, ghost size: nat)
      requires Valid() && h in blocks && blocks[h].use.Plain? && orig == h + 16
      requires h + 32 <= aligned && aligned + size <= EndOf(h, blocks[h])
      modifies `mem, `blocks
      ensures Valid() && mem.Break() == old(mem.Break()) && DataKept(old(mem), mem, old(blocks) - {h})
      ensures blocks == old(blocks)[h := Block(old(blocks)[h].cap, Aligned(aligned, size))]
    {
      hide Inv, Load, Store, DataKept, BlockOk, SameOutside;
      BlockOfInv(mem, freeList, blocks, free, h);
      AlignKeepsInv(mem, freeList, blocks, free, h, aligned, size);
      AlignedMemory(mem, h, blocks[h], aligned, size);
      ghost var m0 := mem;
      var ph := aligned - HDR;
      mem := Store(mem, ph, 4, MAGIC);
      mem := Store(mem, ph + 8, 8, orig);
      BlockWriteKeepsData(m0, mem, blocks, h, aligned - 16, aligned);
      blocks := blocks[h := Block(blocks[h].cap, Aligned(aligned, size))];
    }

    /**
      posix_memalign; h is the block the result lies in.  If malloc has lowered the break, the
      alignment header goes to an address outside memory too.
     */
    method PosixMemalign(alignment: nat, size: nat, probed: bool, granted: bool) returns (rc: int, p: nat, ghost h: nat)
      requires Valid() && alignment < WORD && size < WORD
      modifies this
      ensures rc == 0 || rc == EINVAL || rc == ENOMEM
      ensures rc == EINVAL <==> !(IsPowerOfTwo(alignment) && alignment % 8 == 0)
      ensures rc == 0 <==> (IsPowerOfTwo(alignment) && alignment % 8 == 0 && size + alignment + 15 < WORD
                            && !old(Refuses(size + alignment + 15, probed, granted)))
      ensures rc != 0 ==> mem == old(mem) && freeList == old(freeList) && blocks == old(blocks) && free == old(free)
      ensures rc != 0 || !old(Lowers(size + alignment + 15)) ==>
                Valid() && DataKept(old(mem), mem, old(blocks)) && mem.Break() >= old(mem.Break())
      ensures rc == 0 && !old(Lowers(size + alignment + 15)) ==> AlignedIn(p, alignment, size, h, old(blocks))
      ensures rc == 0 && old(Lowers(size + alignment + 15)) ==>
                LoweredFrom(old(mem), size + alignment + 15, old(mem.Break()) + 16) && blocks == old(blocks)
    {
      hide Inv, Load, Store, DataKept, BitAnd, BlockOk, FirstFit, Refuses, NoFit, Shifted;
      rc, p, h := EINVAL, 0, 0;
      DataSame(mem, freeList, blocks, free);
      if alignment == 0 {
        NoPowerIsZero();
        return;
      }
      PowerOfTwoTest(alignment);
      if BitAnd(alignment, alignment - 1) != 0 || alignment % 8 != 0 {
        return;
      }
      rc := ENOMEM;
      var extra := alignment - 1;
      if extra > WORD - 1 - HDR {
        return;
      }
      extra := extra + HDR;
      if size > WORD - 1 - extra {
        return;
      }
      var total, brk := size + extra, mem.Break();
      var orig := Malloc(total, probed, granted);
      if orig == 0 {
        return;
      }
      var addr := orig + HDR;
      var aligned := BitAnd((addr + alignment - 1) % WORD, WORD - alignment);
      if mem.Break() < brk {
        return 0, aligned, 0;
      }
      h := orig - 16;
      BlockOfInv(mem, freeList, blocks, free, h);
      Division.Small(addr + alignment - 1, WORD);
      ghost var r := RoundUp(addr, alignment);
      ghost var m1, blocks1 := mem, blocks;
      Carve(h, orig, aligned, size);
      DataAround(m1, mem, old(blocks), blocks1, h);
      DataKeptChain(old(mem), m1, mem, old(blocks));
      return 0, aligned, h;
    }

    /** p is a multiple of the alignment in block h, which was free or is new; no other block changed. */
    ghost predicate AlignedIn(p: nat, alignment: nat, size: nat, h: nat, blocks0: Blocks)
      requires alignment > 0
      reads this
    {
      && p != 0 && p % alignment == 0 && Owns(h, p) && blocks[h].use == Aligned(p, size)
      && (h in blocks0 ==> blocks0[h].use.Free? && blocks0[h].cap == blocks[h].cap)
      && blocks == blocks0[h := blocks[h]]
    }

    /** The rest of realloc: copy to the new block, free the old one. */
    method Move(ptr: nat, q: nat, copy: nat, ghost h: nat)
      requires Valid() && h in blocks && blocks[h].use.Plain? && ptr == h + 16
      requires q >= 16 && q - 16 in blocks && blocks[q - 16].use.Plain? && q - 16 != h
      requires copy <= blocks[h].use.size && copy <= blocks[q - 16].use.size
      requires blocks[h].use.size % 0x1_0000_0000 != MAGIC
      modifies `mem, `freeList, `blocks, `free
      ensures Valid() && mem.Break() == old(mem.Break()) && blocks == old(blocks)[h := Block(old(blocks)[h].cap, Use.Free)]
      ensures DataKept(old(mem), mem, blocks - {q - 16})
      ensures Copied(old(mem), ptr, mem, q, copy)
    {
      hide Inv, Load, DataKept, BlockOk, RegionKept;
      BlockOfInv(mem, freeList, blocks, free, h);
      PlainSize(mem, h, blocks[h]);
      ghost var m0, blocks0 := mem, blocks;
      var data := Region(mem, ptr, copy);
      UserWrite(q - 16, q, data);
      ghost var m1 := mem;
      Free(ptr, h);
      PrefixKept(m1, mem, blocks, q - 16, copy);
      DataMoved(m0, m1, mem, blocks0, blocks, q - 16, h);
    }

    /**
      realloc of a live plain pointer to a nonzero size.  If malloc has lowered the break, the copy
      goes outside memory.
     */
    method Resize(ptr: nat, size: nat, probed: bool, granted: bool, ghost h: nat) returns (q: nat)
      requires Valid() && 0 < size < WORD
      requires ptr != 0 && Owns(h, ptr) && blocks[h].use.Plain? && blocks[h].use.size % 0x1_0000_0000 != MAGIC
      modifies this
      ensures q == 0 <==> old(Refuses(size, probed, granted))
      ensures q == 0 ==> Valid() && mem == old(mem) && blocks == old(blocks) && free == old(free)
      ensures q != 0 && !old(Lowers(size)) ==> Valid() && mem.Break() >= old(mem.Break()) && Moved(old(mem), old(blocks), h, q, size)
      ensures q != 0 && old(Lowers(size)) ==> q == old(mem.Break()) + 16 && mem.Break() < old(mem.Break())
    {
      hide Inv, Load, DataKept, BlockOk, FirstFit, RegionKept, Copied, Refuses, NoFit, Shifted;
      BlockOfInv(mem, freeList, blocks, free, h);
      PlainSize(mem, h, blocks[h]);
      var oldSize := Load(mem, ptr - HDR, 8);
      var copy := if oldSize < size then oldSize else size;
      var brk := mem.Break();
      q := Malloc(size, probed, granted);
      if q == 0 || mem.Break() < brk {
        return;
      }
      ghost var m1, blocks1 := mem, blocks;
      PrefixKept(old(mem), mem, old(blocks), h, copy);
      Move(ptr, q, copy, h);
      CopiedChain(old(mem), ptr, m1, ptr, mem, q, copy);
      DataThrough(old(mem), m1, mem, old(blocks), blocks1, blocks, q - 16, h);
    }

    /** Block h has moved to q: the common prefix is there, h is free, the rest is as before. */
    ghost predicate Moved(mem0: Mem, blocks0: Blocks, h: nat, q: nat, size: nat)
      requires h in blocks0 && blocks0[h].use.Plain?
      reads this
    {
      && q >= 16 && q - 16 != h && Owns(q - 16, q) && blocks[q - 16].use == Plain(size)
      && (q - 16 in blocks0 ==> blocks0[q - 16].use.Free?)
      && blocks == blocks0[q - 16 := blocks[q - 16]][h := Block(blocks0[h].cap, Use.Free)]
      && DataKept(mem0, mem, blocks - {q - 16})
      && Copied(mem0, h + 16, mem, q, if blocks0[h].use.size < size then blocks0[h].use.size else size)
    }

    /** realloc of null or of a live plain pointer. */
    method Realloc(ptr: nat, size: nat, probed: bool, granted: bool, ghost h: nat) returns (q: nat)
      requires Valid() && size < WORD
      requires ptr == 0 || (Owns(h, ptr) && blocks[h].use.Plain? && blocks[h].use.size % 0x1_0000_0000 != MAGIC)
      modifies this
      ensures q == 0 <==> size == 0 || old(Refuses(size, probed, granted))
      ensures q == 0 || !old(Lowers(size)) ==> Valid() && mem.Break() >= old(mem.Break())
      ensures q != 0 && old(Lowers(size)) ==> q == old(mem.Break()) + 16 && mem.Break() < old(mem.Break())
      ensures ptr == 0 && !old(Lowers(size)) ==>
                DataKept(old(mem), mem, old(blocks)) && (q != 0 ==> Allocated(q, size, old(blocks), old(mem.Break())))
      ensures ptr != 0 && size == 0 ==>
                q == 0 && blocks == old(blocks)[h := Block(old(blocks)[h].cap, Use.Free)] && DataKept(old(mem), mem, blocks)
      ensures size != 0 && q == 0 ==> mem == old(mem) && blocks == old(blocks) && free == old(free)
      ensures ptr != 0 && q != 0 && !old(Lowers(size)) ==> Moved(old(mem), old(blocks), h, q, size)
    {
      hide Inv, Load, DataKept, FirstFit, Copied, NoFit, Shifted;
      if ptr == 0 {
        q := Malloc(size, probed, granted);
      } else if size == 0 {
        Free(ptr, h);
        q := 0;
      } else {
        q := Resize(ptr, size, probed, granted, h);
      }
    }
  }
}
