/**
  The first-fit allocator of memory.c (the sbrk branch) with posix_memalign on top.  Memory is a
  list of bytes from the start of the data segment to the program break; headers live in it, in
  front of the blocks, and the free list is threaded through them.  sbrk may refuse at any call.
 */
module Allocator {
  import opened ByteMemory

  const WORD: nat := 0x1_0000_0000_0000_0000  // one more than SIZE_MAX
  const TOP: nat := 0x8000_0000_0000_0000     // the break stays below; also one more than the largest intptr_t
  const HDR: nat := 16                        // sizeof(struct block_header), sizeof(struct posix_align_hdr)
  const MAGIC: nat := 0x50414C47              // POSIX_ALIGN_MAGIC

  /** What a block obtained from sbrk is used for at the moment. */
  datatype Use = Free | Plain(size: nat) | Aligned(ptr: nat, size: nat)

  /** A block: bytes behind its header, and its use. */
  datatype Block = Block(cap: nat, use: Use)

  /** The blocks by the address of their headers. */
  type Blocks = map<nat, Block>

  /** The pointer the user holds, and the size requested. */
  function PtrOf(h: nat, b: Block): nat
    requires !b.use.Free?
  {
    if b.use.Plain? then h + 16 else b.use.ptr
  }

  function EndOf(h: nat, b: Block): nat {
    h + 16 + b.cap
  }

  /** The contents of the headers of one block. */
  ghost predicate BlockOk(m: Mem, h: nat, b: Block) {
    && InMem(m, h, 16 + b.cap)
    && Load(m, h, 8) <= b.cap
    && match b.use
       case Free => true
       case Plain(size) => Load(m, h, 8) == size > 0
       case Aligned(p, size) =>
         && h + 32 <= p && p + size <= EndOf(h, b) && Load(m, h, 8) > 0
         && Load(m, p - 16, 4) == MAGIC && Load(m, p - 8, 8) == h + 16
  }

  ghost predicate BlocksOk(m: Mem, blocks: Blocks) {
    forall h :: h in blocks ==> BlockOk(m, h, blocks[h])
  }

  ghost predicate Apart(blocks: Blocks) {
    forall g, h :: g in blocks && h in blocks && g < h ==> EndOf(g, blocks[g]) <= h
  }

  function NodeAt(free: seq<nat>, i: nat): nat {
    if i < |free| then free[i] else 0
  }

  /** `free` lists exactly the free blocks, each once. */
  ghost predicate FreeSet(blocks: Blocks, free: seq<nat>) {
    && (forall i, j :: 0 <= i < j < |free| ==> free[i] != free[j])
    && (forall i :: 0 <= i < |free| ==> free[i] in blocks && blocks[free[i]].use.Free?)
    && (forall h :: h in blocks && blocks[h].use.Free? ==> h in free)
  }

  /** The list threaded through memory from `head` is `free`, and it ends. */
  ghost predicate Links(m: Mem, head: nat, free: seq<nat>) {
    && head == NodeAt(free, 0)
    && forall i :: 0 <= i < |free| ==> LinkOk(m, free, i)
  }

  ghost predicate LinkOk(m: Mem, free: seq<nat>, i: nat)
    requires i < |free|
  {
    InMem(m, free[i] + 8, 8) && Load(m, free[i] + 8, 8) == NodeAt(free, i + 1)
  }

  ghost predicate Inv(m: Mem, head: nat, blocks: Blocks, free: seq<nat>) {
    && m.base > 0 && m.Break() < TOP
    && BlocksOk(m, blocks) && Apart(blocks) && FreeSet(blocks, free) && Links(m, head, free)
  }

  // ---------------------------------------------------------------------------------------
  // What the invariant means to a user

  /** Different live blocks: their regions, with any alignment header in front, do not meet. */
  lemma LiveRegionsDisjoint(m: Mem, head: nat, blocks: Blocks, free: seq<nat>, g: nat, h: nat)
    requires Inv(m, head, blocks, free)
    requires g in blocks && h in blocks && g != h && !blocks[g].use.Free? && !blocks[h].use.Free?
    ensures var p, q := PtrOf(g, blocks[g]), PtrOf(h, blocks[h]);
            p != q && (p + blocks[g].use.size <= q - 16 || q + blocks[h].use.size <= p - 16)
  {
    hide FreeSet, Links;
    RegionInside(m, g, blocks[g]);
    RegionInside(m, h, blocks[h]);
  }

  /** A live region and the 16 bytes in front of it lie in their block. */
  lemma RegionInside(m: Mem, h: nat, b: Block)
    requires BlockOk(m, h, b) && !b.use.Free?
    ensures h <= PtrOf(h, b) - 16 && PtrOf(h, b) + b.use.size <= EndOf(h, b)
  {
    hide Load;
  }

  /** No live region meets a block header, its own or another's. */
  lemma LiveRegionsMissHeaders(m: Mem, head: nat, blocks: Blocks, free: seq<nat>, g: nat, h: nat)
    requires Inv(m, head, blocks, free)
    requires g in blocks && h in blocks && !blocks[g].use.Free?
    ensures var p := PtrOf(g, blocks[g]);
            p + blocks[g].use.size <= h || h + 16 <= p
  {
    assert BlockOk(m, g, blocks[g]);
  }

  /** Every block is either live or on the free list, exactly once. */
  lemma {:induction false} EveryBlockAccountedFor(m: Mem, head: nat, blocks: Blocks, free: seq<nat>, h: nat)
    requires Inv(m, head, blocks, free) && h in blocks
    ensures multiset(free)[h] == if blocks[h].use.Free? then 1 else 0
  {
    CountDistinct(free, h);
  }

  lemma {:induction false} CountDistinct(s: seq<nat>, x: nat)
    requires forall i, j :: 0 <= i < j < |s| ==> s[i] != s[j]
    ensures multiset(s)[x] == if x in s then 1 else 0
  {
    if s != [] {
      CountDistinct(s[1..], x);
      assert s == [s[0]] + s[1..];
    }
  }

  // ---------------------------------------------------------------------------------------
  // Writes inside one block leave the others alone

  lemma BlockUntouched(m: Mem, m': Mem, lo: nat, hi: nat, h: nat, b: Block)
    requires SameOutside(m, m', lo, hi) && BlockOk(m, h, b)
    requires EndOf(h, b) <= lo || hi <= h
    ensures BlockOk(m', h, b)
    ensures Load(m', h + 8, 8) == Load(m, h + 8, 8)
  {
    hide Load, SameOutside;
    LoadUntouched(m, m', lo, hi, h, 8);
    LoadUntouched(m, m', lo, hi, h + 8, 8);
    SameExtent(m, m', lo, hi);
    if b.use.Aligned? {
      LoadUntouched(m, m', lo, hi, b.use.ptr - 16, 4);
      LoadUntouched(m, m', lo, hi, b.use.ptr - 8, 8);
    }
  }

  lemma SameExtent(m: Mem, m': Mem, lo: nat, hi: nat)
    requires SameOutside(m, m', lo, hi)
    ensures m'.base == m.base && m'.Break() >= m.Break()
  {
  }

  lemma OthersUntouched(m: Mem, m': Mem, blocks: Blocks, h: nat, lo: nat, hi: nat)
    requires BlocksOk(m, blocks) && Apart(blocks) && h in blocks
    requires SameOutside(m, m', lo, hi) && h <= lo && hi <= EndOf(h, blocks[h])
    ensures forall g :: g in blocks && g != h ==>
              BlockOk(m', g, blocks[g]) && InMem(m, g + 8, 8) && Load(m', g + 8, 8) == Load(m, g + 8, 8)
  {
    hide Load, SameOutside;
    forall g | g in blocks && g != h
      ensures BlockOk(m', g, blocks[g]) && InMem(m, g + 8, 8) && Load(m', g + 8, 8) == Load(m, g + 8, 8)
    {
      assert BlockOk(m, g, blocks[g]);
      BlockUntouched(m, m', lo, hi, g, blocks[g]);
    }
  }

  lemma StoreIsLocal(m: Mem, a: nat, n: nat, v: nat)
    requires InMem(m, a, n)
    ensures SameOutside(m, Store(m, a, n, v), a, a + n)
  {
  }

  lemma WordPower()
    ensures Power(8) == WORD && Power(4) == 0x1_0000_0000
  {
    assert Power(2) == 0x1_0000;
    assert Power(4) == 0x1_0000_0000;
    assert Power(6) == 0x1_0000_0000_0000;
  }

  /** Addresses of blocks are words, and no block is at address 0. */
  lemma NodeFits(m: Mem, head: nat, blocks: Blocks, free: seq<nat>, i: nat)
    requires Inv(m, head, blocks, free)
    ensures NodeAt(free, i) < Power(8) && (NodeAt(free, i) == 0 <==> i >= |free|)
  {
    WordPower();
    if i < |free| {
      assert free[i] in blocks && BlockOk(m, free[i], blocks[free[i]]);
    }
  }

  // ---------------------------------------------------------------------------------------
  // Each operation keeps the invariant

  /** Rewriting part of one block. */
  lemma BlocksAfterWrite(m: Mem, m': Mem, blocks: Blocks, h: nat, b: Block, lo: nat, hi: nat)
    requires BlocksOk(m, blocks) && Apart(blocks) && h in blocks
    requires SameOutside(m, m', lo, hi) && h <= lo && hi <= EndOf(h, blocks[h])
    requires BlockOk(m', h, b) && b.cap == blocks[h].cap
    ensures BlocksOk(m', blocks[h := b]) && Apart(blocks[h := b])
  {
    hide BlockOk, SameOutside;
    OthersUntouched(m, m', blocks, h, lo, hi);
  }

  /** Links whose nodes are not in the rewritten part stay. */
  lemma LinkAfterWrite(m: Mem, m': Mem, free: seq<nat>, i: nat, lo: nat, hi: nat)
    requires i < |free| && LinkOk(m, free, i) && SameOutside(m, m', lo, hi)
    requires free[i] + 16 <= lo || hi <= free[i] + 8
    ensures LinkOk(m', free, i)
  {
    hide Load, SameOutside;
    LoadUntouched(m, m', lo, hi, free[i] + 8, 8);
  }

  lemma NodesApart(m: Mem, head: nat, blocks: Blocks, free: seq<nat>, i: nat, h: nat)
    requires Inv(m, head, blocks, free) && i < |free| && h in blocks && free[i] != h
    ensures free[i] + 16 <= h || EndOf(h, blocks[h]) <= free[i]
  {
    hide Links, BlocksOk;
    assert free[i] in blocks;
  }

  /** Rewriting part of a live block, which stays live. */
  lemma RewriteKeepsInv(m: Mem, m': Mem, head: nat, blocks: Blocks, free: seq<nat>, h: nat, b: Block, lo: nat, hi: nat)
    requires Inv(m, head, blocks, free) && h in blocks && !blocks[h].use.Free?
    requires SameOutside(m, m', lo, hi) && |m'.bytes| == |m.bytes|
    requires h <= lo && hi <= EndOf(h, blocks[h])
    requires BlockOk(m', h, b) && b.cap == blocks[h].cap && !b.use.Free?
    ensures Inv(m', head, blocks[h := b], free)
  {
    hide LinkOk, BlockOk, SameOutside;
    SameExtent(m, m', lo, hi);
    BlocksAfterWrite(m, m', blocks, h, b, lo, hi);
    RewrittenSet(blocks, free, h, b);
    hide BlocksOk, Apart, FreeSet;
    forall i | 0 <= i < |free|
      ensures LinkOk(m', free, i)
    {
      assert free[i] != h;
      NodesApart(m, head, blocks, free, i, h);
      LinkAfterWrite(m, m', free, i, lo, hi);
    }
  }

  lemma RewrittenSet(blocks: Blocks, free: seq<nat>, h: nat, b: Block)
    requires FreeSet(blocks, free) && h in blocks && !blocks[h].use.Free? && !b.use.Free?
    ensures FreeSet(blocks[h := b], free) && h !in free
  {
  }

  /** Writing into a live region. */
  lemma ScribbleKeepsInv(m: Mem, m': Mem, head: nat, blocks: Blocks, free: seq<nat>, h: nat, lo: nat, hi: nat)
    requires Inv(m, head, blocks, free) && h in blocks && !blocks[h].use.Free?
    requires SameOutside(m, m', lo, hi) && |m'.bytes| == |m.bytes|
    requires h + 16 <= lo && hi <= EndOf(h, blocks[h])
    requires blocks[h].use.Aligned? ==> blocks[h].use.ptr <= lo
    ensures Inv(m', head, blocks, free)
  {
    hide LinkOk, BlockOk, SameOutside;
    assert BlockOk(m, h, blocks[h]);
    ScribbledBlock(m, m', h, blocks[h], lo, hi);
    RewriteKeepsInv(m, m', head, blocks, free, h, blocks[h], lo, hi);
    assert blocks[h := blocks[h]] == blocks;
  }

  lemma ScribbledBlock(m: Mem, m': Mem, h: nat, b: Block, lo: nat, hi: nat)
    requires BlockOk(m, h, b) && SameOutside(m, m', lo, hi) && h + 16 <= lo
    requires b.use.Aligned? ==> b.use.ptr <= lo
    ensures BlockOk(m', h, b)
  {
    hide Load, SameOutside;
    SameExtent(m, m', lo, hi);
    LoadUntouched(m, m', lo, hi, h, 8);
    if b.use.Aligned? {
      LoadUntouched(m, m', lo, hi, b.use.ptr - 16, 4);
      LoadUntouched(m, m', lo, hi, b.use.ptr - 8, 8);
    }
  }

  /** free_impl: the block goes to the front of the free list. */
  lemma PushKeepsInv(m: Mem, head: nat, blocks: Blocks, free: seq<nat>, h: nat)
    requires Inv(m, head, blocks, free) && h in blocks && !blocks[h].use.Free?
    ensures InMem(m, h + 8, 8)
    ensures Inv(Store(m, h + 8, 8, head), h, blocks[h := Block(blocks[h].cap, Free)], [h] + free)
  {
    var b := Block(blocks[h].cap, Free);
    assert BlockOk(m, h, blocks[h]);
    var m' := Store(m, h + 8, 8, head);
    StoreIsLocal(m, h + 8, 8, head);
    FreedBlock(m, m', h, blocks[h]);
    BlocksAfterWrite(m, m', blocks, h, b, h + 8, h + 16);
    PushSet(blocks, free, h);
    NodeFits(m, head, blocks, free, 0);
    LoadOfStore(m, h + 8, 8, head);
    PushLinks(m, m', head, blocks, free, h);
  }

  lemma FreedBlock(m: Mem, m': Mem, h: nat, b: Block)
    requires BlockOk(m, h, b) && SameOutside(m, m', h + 8, h + 16)
    ensures BlockOk(m', h, Block(b.cap, Free))
  {
    hide Load, SameOutside;
    SameExtent(m, m', h + 8, h + 16);
    LoadUntouched(m, m', h + 8, h + 16, h, 8);
  }

  lemma PushSet(blocks: Blocks, free: seq<nat>, h: nat)
    requires FreeSet(blocks, free) && h in blocks && !blocks[h].use.Free?
    ensures FreeSet(blocks[h := Block(blocks[h].cap, Free)], [h] + free)
  {
    var blocks', free' := blocks[h := Block(blocks[h].cap, Free)], [h] + free;
    assert h !in free;
    assert forall i :: 0 < i < |free'| ==> free'[i] == free[i - 1];
    forall g | g in blocks' && blocks'[g].use.Free?
      ensures g in free'
    {
      if g != h {
        assert g in free;
      }
    }
  }

  lemma PushLinks(m: Mem, m': Mem, head: nat, blocks: Blocks, free: seq<nat>, h: nat)
    requires Inv(m, head, blocks, free) && h in blocks && !blocks[h].use.Free?
    requires SameOutside(m, m', h + 8, h + 16) && InMem(m', h + 8, 8) && Load(m', h + 8, 8) == head
    ensures Links(m', h, [h] + free)
  {
    hide Load, SameOutside, BlocksOk, Apart;
    var free' := [h] + free;
    forall i | 0 <= i < |free'|
      ensures LinkOk(m', free', i)
    {
      if i > 0 {
        assert free'[i] == free[i - 1] && NodeAt(free', i + 1) == NodeAt(free, i);
        assert LinkOk(m, free, i - 1);
        NodesApart(m, head, blocks, free, i - 1, h);
        LinkAfterWrite(m, m', free, i - 1, h + 8, h + 16);
      } else {
        assert NodeAt(free', 1) == NodeAt(free, 0);
      }
    }
  }

  /** The memory writes of malloc on a fit: the predecessor's link skips the block, the block records its size. */
  function Unlinked(m: Mem, free: seq<nat>, i: nat, size: nat): Mem
    requires i < |free| && InMem(m, free[i], 16) && (i > 0 ==> InMem(m, free[i - 1] + 8, 8))
  {
    var m1 := if i > 0 then Store(m, free[i - 1] + 8, 8, Load(m, free[i] + 8, 8)) else m;
    Store(m1, free[i], 8, size)
  }

  lemma NodeInMem(m: Mem, head: nat, blocks: Blocks, free: seq<nat>, i: nat)
    requires Inv(m, head, blocks, free) && i < |free|
    ensures free[i] in blocks && BlockOk(m, free[i], blocks[free[i]]) && InMem(m, free[i], 16) && InMem(m, free[i] + 8, 8)
    ensures LinkOk(m, free, i) && blocks[free[i]].use.Free?
  {
  }

  /** malloc on a fit: the i-th free block leaves the list. */
  lemma UnlinkKeepsInv(m: Mem, head: nat, blocks: Blocks, free: seq<nat>, i: nat, size: nat)
    requires Inv(m, head, blocks, free) && i < |free|
    requires InMem(m, free[i], 16) && (i > 0 ==> InMem(m, free[i - 1] + 8, 8))
    requires 0 < size <= Load(m, free[i], 8)
    ensures Inv(Unlinked(m, free, i, size), if i > 0 then head else Load(m, free[i] + 8, 8),
                blocks[free[i] := Block(blocks[free[i]].cap, Plain(size))], free[..i] + free[i + 1..])
  {
    hide BlockOk, Store, Load, SameOutside, LinkOk;
    var b := free[i];
    NodeInMem(m, head, blocks, free, i);
    var m1 := RelinkedMemory(m, head, blocks, free, i);
    var m2 := Store(m1, b, 8, size);
    StoreIsLocal(m1, b, 8, size);
    SameExtent(m1, m2, b, b + 8);
    SizeFits(m, b, blocks[b]);
    SizedBlock(m1, b, blocks[b], size);
    BlocksAfterWrite(m1, m2, blocks, b, Block(blocks[b].cap, Plain(size)), b, b + 8);
    RemoveSet(blocks, free, i, size);
    UnlinkLinks(m, m1, m2, head, blocks, free, i);
  }

  lemma SizeFits(m: Mem, h: nat, b: Block)
    requires BlockOk(m, h, b) && m.Break() < WORD
    ensures InMem(m, h, 8) && Load(m, h, 8) <= b.cap < WORD
  {
    hide Load;
  }

  lemma SizedBlock(m: Mem, h: nat, b: Block, size: nat)
    requires BlockOk(m, h, b) && 0 < size <= b.cap && size < WORD
    ensures BlockOk(Store(m, h, 8, size), h, Block(b.cap, Plain(size)))
  {
    WordPower();
    LoadOfStore(m, h, 8, size);
  }

  lemma RemoveSet(blocks: Blocks, free: seq<nat>, i: nat, size: nat)
    requires FreeSet(blocks, free) && i < |free|
    ensures FreeSet(blocks[free[i] := Block(blocks[free[i]].cap, Plain(size))], free[..i] + free[i + 1..])
  {
    var b := free[i];
    var blocks', free' := blocks[b := Block(blocks[b].cap, Plain(size))], free[..i] + free[i + 1..];
    forall j, k | 0 <= j < k < |free'|
      ensures free'[j] != free'[k]
    {
      Removed(free, i, j);
      Removed(free, i, k);
    }
    forall k | 0 <= k < |free'|
      ensures free'[k] in blocks' && blocks'[free'[k]].use.Free?
    {
      Removed(free, i, k);
    }
    forall h | h in blocks' && blocks'[h].use.Free?
      ensures h in free'
    {
      assert h in blocks && h != b;
      var k :| 0 <= k < |free| && free[k] == h;
      Removed(free, i, if k < i then k else k - 1);
    }
  }

  lemma Removed(s: seq<nat>, i: nat, k: nat)
    requires i < |s| && k < |s| - 1
    ensures (s[..i] + s[i + 1..])[k] == if k < i then s[k] else s[k + 1]
  {
  }

  /** After the first write: blocks as before, and the predecessor of node i linked past it. */
  lemma RelinkedMemory(m: Mem, head: nat, blocks: Blocks, free: seq<nat>, i: nat) returns (m1: Mem)
    requires Inv(m, head, blocks, free) && i < |free|
    ensures InMem(m, free[i] + 8, 8) && (i > 0 ==> InMem(m, free[i - 1] + 8, 8))
    ensures m1 == if i > 0 then Store(m, free[i - 1] + 8, 8, Load(m, free[i] + 8, 8)) else m
    ensures m1.base == m.base && |m1.bytes| == |m.bytes| && BlocksOk(m1, blocks)
    ensures i > 0 ==> SameOutside(m, m1, free[i - 1] + 8, free[i - 1] + 16)
    ensures i > 0 ==> InMem(m1, free[i - 1] + 8, 8) && Load(m1, free[i - 1] + 8, 8) == NodeAt(free, i + 1)
  {
    hide BlockOk, Load, SameOutside, Store;
    NodeInMem(m, head, blocks, free, i);
    m1 := m;
    if i > 0 {
      var p, next := free[i - 1], NodeAt(free, i + 1);
      NodeInMem(m, head, blocks, free, i - 1);
      m1 := Store(m, p + 8, 8, next);
      StoreIsLocal(m, p + 8, 8, next);
      FreedBlock(m, m1, p, blocks[p]);
      assert blocks[p].use == Free && Block(blocks[p].cap, Free) == blocks[p] && blocks[p := blocks[p]] == blocks;
      BlocksAfterWrite(m, m1, blocks, p, blocks[p], p + 8, p + 16);
      NodeFits(m, head, blocks, free, i + 1);
      LoadOfStore(m, p + 8, 8, next);
    }
  }

  lemma UnlinkLinks(m: Mem, m1: Mem, m2: Mem, head: nat, blocks: Blocks, free: seq<nat>, i: nat)
    requires Inv(m, head, blocks, free) && i < |free| && InMem(m, free[i] + 8, 8)
    requires m1.base == m.base && |m1.bytes| == |m.bytes|
    requires if i > 0
             then SameOutside(m, m1, free[i - 1] + 8, free[i - 1] + 16)
                  && InMem(m1, free[i - 1] + 8, 8) && Load(m1, free[i - 1] + 8, 8) == NodeAt(free, i + 1)
             else m1 == m
    requires SameOutside(m1, m2, free[i], free[i] + 8)
    ensures Links(m2, if i > 0 then head else Load(m, free[i] + 8, 8), free[..i] + free[i + 1..])
  {
    hide BlockOk, Load, SameOutside, BlocksOk, Apart;
    var free' := free[..i] + free[i + 1..];
    assert LinkOk(m, free, i);
    assert NodeAt(free', 0) == if i > 0 then free[0] else NodeAt(free, 1);
    forall k | 0 <= k < |free'|
      ensures LinkOk(m2, free', k)
    {
      var n := if k < i then k else k + 1;
      assert free'[k] == free[n];
      assert NodeAt(free', k + 1) == if n + 1 == i then NodeAt(free, i + 1) else NodeAt(free, n + 1);
      LinkAfterUnlink(m, m1, m2, head, blocks, free, i, n);
    }
  }

  lemma LinkAfterUnlink(m: Mem, m1: Mem, m2: Mem, head: nat, blocks: Blocks, free: seq<nat>, i: nat, n: nat)
    requires Inv(m, head, blocks, free) && i < |free| && n < |free| && n != i
    requires m1.base == m.base && |m1.bytes| == |m.bytes|
    requires if i > 0
             then SameOutside(m, m1, free[i - 1] + 8, free[i - 1] + 16)
                  && InMem(m1, free[i - 1] + 8, 8) && Load(m1, free[i - 1] + 8, 8) == NodeAt(free, i + 1)
             else m1 == m
    requires SameOutside(m1, m2, free[i], free[i] + 8)
    ensures InMem(m2, free[n] + 8, 8)
    ensures Load(m2, free[n] + 8, 8) == if n + 1 == i then NodeAt(free, i + 1) else NodeAt(free, n + 1)
  {
    hide BlockOk, Load, SameOutside, BlocksOk, Apart;
    NodeInMem(m, head, blocks, free, n);
    NodeInMem(m, head, blocks, free, i);
    NodesApart(m, head, blocks, free, n, free[i]);
    if i > 0 && n != i - 1 {
      NodeInMem(m, head, blocks, free, i - 1);
      NodesApart(m, head, blocks, free, n, free[i - 1]);
      LoadUntouched(m, m1, free[i - 1] + 8, free[i - 1] + 16, free[n] + 8, 8);
    }
    LoadUntouched(m1, m2, free[i], free[i] + 8, free[n] + 8, 8);
  }

  // ---------------------------------------------------------------------------------------
  // A new block at the break, and alignment inside a block

  /** sbrk hands out zeroed memory. */
  function Extended(m: Mem, n: nat): Mem {
    m.(bytes := m.bytes + seq(n, _ => 0))
  }

  /** The argument of sbrk for a block of that size: 16 + size converted to intptr_t. */
  function Increment(size: nat): (inc: int)
    requires 16 + size < WORD
    ensures inc < TOP && (inc < 0 <==> 16 + size >= TOP) && (inc >= 0 ==> inc == 16 + size)
  {
    if 16 + size < TOP then 16 + size else 16 + size - WORD
  }

  /** Whether sbrk moves the break: the system agrees, and the break stays in the data segment. */
  predicate Moves(m: Mem, inc: int, granted: bool) {
    granted && m.base <= m.Break() + inc < TOP
  }

  /** Memory after the break has moved. */
  function Shifted(m: Mem, inc: int): (r: Mem)
    requires m.base <= m.Break() + inc
    ensures r.base == m.base && r.Break() == m.Break() + inc
  {
    if inc >= 0 then Extended(m, inc) else m.(bytes := m.bytes[..|m.bytes| + inc])
  }

  lemma GrowKeepsInv(m: Mem, head: nat, blocks: Blocks, free: seq<nat>, size: nat)
    requires Inv(m, head, blocks, free) && 0 < size && m.Break() + 16 + size < TOP
    ensures m.Break() !in blocks && InMem(Extended(m, 16 + size), m.Break(), 8)
    ensures Inv(Store(Extended(m, 16 + size), m.Break(), 8, size), head,
                blocks[m.Break() := Block(size, Plain(size))], free)
  {
    hide BlockOk, LinkOk, Store, SameOutside, Extended, Load;
    var h, e := m.Break(), Extended(m, 16 + size);
    GrownMemory(m, size);
    var m' := Store(e, h, 8, size);
    BlocksBelowBreak(m, m', blocks);
    GrownSet(blocks, free, h, size);
    forall i | 0 <= i < |free|
      ensures LinkOk(m', free, i)
    {
      LinkAfterWrite(m, m', free, i, h, h);
    }
  }

  lemma GrownSet(blocks: Blocks, free: seq<nat>, h: nat, size: nat)
    requires FreeSet(blocks, free) && Apart(blocks) && forall g :: g in blocks ==> EndOf(g, blocks[g]) <= h
    ensures h !in blocks
    ensures FreeSet(blocks[h := Block(size, Plain(size))], free) && Apart(blocks[h := Block(size, Plain(size))])
    ensures forall i :: 0 <= i < |free| ==> free[i] + 16 <= h
  {
    assert h in blocks ==> EndOf(h, blocks[h]) <= h;
    forall i | 0 <= i < |free|
      ensures free[i] + 16 <= h
    {
      assert EndOf(free[i], blocks[free[i]]) <= h;
    }
  }

  lemma BlocksBelowBreak(m: Mem, m': Mem, blocks: Blocks)
    requires BlocksOk(m, blocks) && SameOutside(m, m', m.Break(), m.Break())
    ensures BlocksOk(m', blocks) && forall g :: g in blocks ==> EndOf(g, blocks[g]) <= m.Break()
  {
    hide Load, SameOutside;
    forall g | g in blocks
      ensures BlockOk(m', g, blocks[g]) && EndOf(g, blocks[g]) <= m.Break()
    {
      assert BlockOk(m, g, blocks[g]);
      BlockUntouched(m, m', m.Break(), m.Break(), g, blocks[g]);
    }
  }

  lemma GrownMemory(m: Mem, size: nat)
    requires 0 < size && m.Break() + 16 + size < TOP
    ensures var h, e := m.Break(), Extended(m, 16 + size);
            && InMem(e, h, 8) && SameOutside(m, Store(e, h, 8, size), h, h)
            && BlockOk(Store(e, h, 8, size), h, Block(size, Plain(size)))
            && Store(e, h, 8, size).Break() == h + 16 + size && Store(e, h, 8, size).base == m.base
  {
    WordPower();
    LoadOfStore(Extended(m, 16 + size), m.Break(), 8, size);
  }

  /** posix_memalign turns a plain block into an aligned one. */
  lemma AlignKeepsInv(m: Mem, head: nat, blocks: Blocks, free: seq<nat>, h: nat, p: nat, size: nat)
    requires Inv(m, head, blocks, free) && h in blocks && blocks[h].use.Plain?
    requires h + 32 <= p && p + size <= EndOf(h, blocks[h])
    ensures InMem(m, p - 16, 4) && InMem(m, p - 8, 8)
    ensures Inv(Store(Store(m, p - 16, 4, MAGIC), p - 8, 8, h + 16), head,
                blocks[h := Block(blocks[h].cap, Aligned(p, size))], free)
  {
    hide Inv, Store, SameOutside;
    BlockOfInv(m, head, blocks, free, h);
    AlignedMemory(m, h, blocks[h], p, size);
    RewriteKeepsInv(m, Store(Store(m, p - 16, 4, MAGIC), p - 8, 8, h + 16), head, blocks, free, h,
                    Block(blocks[h].cap, Aligned(p, size)), p - 16, p);
  }

  lemma BlockOfInv(m: Mem, head: nat, blocks: Blocks, free: seq<nat>, h: nat)
    requires Inv(m, head, blocks, free) && h in blocks
    ensures BlocksOk(m, blocks) && Apart(blocks) && BlockOk(m, h, blocks[h]) && InMem(m, h, 16 + blocks[h].cap)
    ensures m.base > 0 && m.Break() < TOP
  {
  }

  lemma AlignedMemory(m: Mem, h: nat, b: Block, p: nat, size: nat)
    requires BlockOk(m, h, b) && b.use.Plain? && h + 32 <= p && p + size <= EndOf(h, b) && m.Break() < WORD
    ensures InMem(m, p - 16, 4) && InMem(m, p - 8, 8)
    ensures var m2 := Store(Store(m, p - 16, 4, MAGIC), p - 8, 8, h + 16);
            SameOutside(m, m2, p - 16, p) && BlockOk(m2, h, Block(b.cap, Aligned(p, size)))
  {
    hide Load, Encode;
    var m1 := Store(m, p - 16, 4, MAGIC);
    var m2 := Store(m1, p - 8, 8, h + 16);
    WordPower();
    LoadOfStore(m, p - 16, 4, MAGIC);
    LoadOfStore(m1, p - 8, 8, h + 16);
    StoreIsLocal(m, p - 16, 4, MAGIC);
    StoreIsLocal(m1, p - 8, 8, h + 16);
    LoadUntouched(m1, m2, p - 8, p, p - 16, 4);
    LoadUntouched(m, m1, p - 16, p - 12, h, 8);
    LoadUntouched(m1, m2, p - 8, p, h, 8);
  }
}
