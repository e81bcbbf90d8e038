/**
  Whole sessions of a client of memory.c: over every sequence of calls and writes the blocks behave
  as independent arrays, unless a size is so large that sbrk reads it as negative.
 */
module AllocatorSession {
  import opened ByteMemory
  import opened Allocator
  import opened AllocatorCode

  // ---------------------------------------------------------------------------------------
  // The client's view

  /** A pointer the client holds, and what it knows about it. */
  datatype Held = Held(ptr: nat, size: nat, aligned: bool)

  /** The pointers held and what is stored behind them. */
  datatype View = View(live: seq<Held>, data: seq<seq<Byte>>)

  /** A call or a write; the client names its pointers by their place in its list. */
  datatype Op =
    | Allocate(size: nat, probed: bool, granted: bool)
    | AllocateAligned(alignment: nat, size: nat, probed: bool, granted: bool)
    | Resize(index: nat, size: nat, probed: bool, granted: bool)
    | Release(index: nat)
    | Put(index: nat, offset: nat, bytes: seq<Byte>)

  ghost predicate Representable(op: Op) {
    match op
    case Allocate(size, _, _) => size < WORD && size % 0x1_0000_0000 != MAGIC
    case AllocateAligned(alignment, size, _, _) => alignment < WORD && size < WORD
    case Resize(_, size, _, _) => size < WORD && size % 0x1_0000_0000 != MAGIC
    case Release(_) => true
    case Put(_, _, _) => true
  }

  /** A size that sbrk would read as negative. */
  predicate Large(op: Op) {
    match op
    case Allocate(size, _, _) => 16 + size >= TOP
    case AllocateAligned(alignment, size, _, _) => 16 + size + alignment + 15 >= TOP
    case Resize(_, size, _, _) => 16 + size >= TOP
    case Release(_) => false
    case Put(_, _, _) => false
  }

  /** A list without its k-th entry. */
  function Without<T>(s: seq<T>, k: nat): (r: seq<T>)
    requires k < |s|
    ensures |r| == |s| - 1 && forall i :: 0 <= i < |r| ==> r[i] == s[if i < k then i else i + 1]
  {
    s[..k] + s[k + 1..]
  }

  /** An array with bytes overwritten from an offset on. */
  function Patched(d: seq<Byte>, offset: nat, bytes: seq<Byte>): seq<Byte>
    requires offset + |bytes| <= |d|
  {
    d[..offset] + bytes + d[offset + |bytes|..]
  }

  function Least(a: nat, b: nat): nat {
    if a < b then a else b
  }

  /** One more entry, of that size. */
  ghost predicate Added(v: View, v': View, size: nat, aligned: bool) {
    && |v'.live| == |v.live| + 1 && |v'.data| == |v.data| + 1
    && v'.live[..|v.live|] == v.live && v'.data[..|v.data|] == v.data
    && var n := v'.live[|v.live|]; n.size == size == |v'.data[|v.data|]| && n.aligned == aligned && n.ptr != 0
  }

  /** What an operation does to independent arrays. */
  ghost predicate Does(op: Op, v: View, v': View)
    requires |v.live| == |v.data| && forall i :: 0 <= i < |v.live| ==> |v.data[i]| == v.live[i].size
  {
    match op
    case Allocate(size, _, _) => v' == v || Added(v, v', size, false)
    case AllocateAligned(alignment, size, _, _) =>
      v' == v || (Added(v, v', size, true) && alignment > 0 && v'.live[|v.live|].ptr % alignment == 0)
    case Release(k) =>
      if k < |v.live| then v' == View(Without(v.live, k), Without(v.data, k)) else v' == v
    case Put(k, offset, bytes) =>
      if k < |v.live| && offset + |bytes| <= v.live[k].size
      then v' == View(v.live, v.data[k := Patched(v.data[k], offset, bytes)])
      else v' == v
    case Resize(k, size, _, _) =>
      if k >= |v.live| || v.live[k].aligned then v' == v
      else if size == 0 then v' == View(Without(v.live, k), Without(v.data, k))
      else v' == v || ResizedAt(v, v', k, size)
  }

  /** Entry k has the new size and keeps the common prefix. */
  ghost predicate ResizedAt(v: View, v': View, k: nat, size: nat)
    requires k < |v.live| == |v.data| && |v.data[k]| == v.live[k].size
  {
    && |v'.live| == |v.live| && |v'.data| == |v.data| && |v'.data[k]| == size
    && v'.live == v.live[k := v'.live[k]] && v'.live[k] == Held(v'.live[k].ptr, size, false)
    && v'.data == v.data[k := v'.data[k]]
    && v'.data[k][..Least(v.live[k].size, size)] == v.data[k][..Least(v.live[k].size, size)]
  }

  // ---------------------------------------------------------------------------------------
  // The heap behind it

  ghost predicate HeldAs(h: nat, b: Block, p: Held) {
    && !b.use.Free? && PtrOf(h, b) == p.ptr != 0 && b.use.size == p.size && b.use.Aligned? == p.aligned
    && (b.use.Plain? ==> b.use.size % 0x1_0000_0000 != MAGIC)
  }

  /** Each pointer is that of a live block, no block twice. */
  ghost predicate Holding(blocks: Blocks, live: seq<Held>, owner: seq<nat>) {
    && |live| == |owner|
    && (forall i :: 0 <= i < |live| ==> owner[i] in blocks && HeldAs(owner[i], blocks[owner[i]], live[i]))
    && (forall i, j :: 0 <= i < j < |owner| ==> owner[i] != owner[j])
  }

  ghost predicate Stored(m: Mem, p: Held, d: seq<Byte>) {
    InMem(m, p.ptr, p.size) && Region(m, p.ptr, p.size) == d
  }

  /** Every live region reads back as the client's array. */
  ghost predicate ReadsBack(m: Mem, v: View) {
    |v.live| == |v.data| && forall i :: 0 <= i < |v.live| ==> Stored(m, v.live[i], v.data[i])
  }

  ghost predicate Agrees(m: Mem, blocks: Blocks, v: View, owner: seq<nat>) {
    Holding(blocks, v.live, owner) && ReadsBack(m, v)
  }

  lemma AgreesSizes(m: Mem, blocks: Blocks, v: View, owner: seq<nat>)
    requires Agrees(m, blocks, v, owner)
    ensures |v.live| == |v.data| == |owner| && forall i :: 0 <= i < |v.live| ==> |v.data[i]| == v.live[i].size
  {
    forall i | 0 <= i < |v.live|
      ensures |v.data[i]| == v.live[i].size
    {
      assert Stored(m, v.live[i], v.data[i]);
    }
  }

  /** The regions of two live blocks, each with the 16 bytes in front of it, do not meet. */
  ghost predicate Separate(p: Held, q: Held) {
    p.ptr + p.size <= q.ptr - 16 || q.ptr + q.size <= p.ptr - 16
  }

  lemma HeldApart(m: Mem, head: nat, blocks: Blocks, free: seq<nat>, live: seq<Held>, owner: seq<nat>)
    requires Inv(m, head, blocks, free) && Holding(blocks, live, owner)
    ensures forall i, j :: 0 <= i < j < |live| ==> Separate(live[i], live[j])
  {
    hide Inv;
    forall i, j | 0 <= i < j < |live|
      ensures Separate(live[i], live[j])
    {
      assert HeldAs(owner[i], blocks[owner[i]], live[i]) && HeldAs(owner[j], blocks[owner[j]], live[j]);
      LiveRegionsDisjoint(m, head, blocks, free, owner[i], owner[j]);
    }
  }

  lemma StoredKept(m: Mem, m': Mem, g: nat, b: Block, p: Held, d: seq<Byte>)
    requires HeldAs(g, b, p) && Stored(m, p, d) && RegionKept(m, m', g, b)
    ensures Stored(m', p, d)
  {
  }

  /** Keeping the data of the blocks held keeps what is read. */
  lemma ReadsKept(m: Mem, m': Mem, blocks: Blocks, v: View, owner: seq<nat>)
    requires Agrees(m, blocks, v, owner) && DataKept(m, m', blocks)
    ensures Agrees(m', blocks, v, owner)
  {
    hide Stored, RegionKept, HeldAs;
    forall i | 0 <= i < |v.live|
      ensures Stored(m', v.live[i], v.data[i])
    {
      HeldIsLive(owner[i], blocks[owner[i]], v.live[i]);
      StoredKept(m, m', owner[i], blocks[owner[i]], v.live[i], v.data[i]);
    }
  }

  lemma HeldIsLive(h: nat, b: Block, p: Held)
    requires HeldAs(h, b, p)
    ensures !b.use.Free?
  {
  }

  /** A new block, held in addition. */
  lemma AgreesMore(m: Mem, m': Mem, blocks: Blocks, blocks': Blocks, v: View, owner: seq<nat>, h: nat, p: Held)
    requires Agrees(m, blocks, v, owner) && DataKept(m, m', blocks)
    requires h in blocks' && blocks' == blocks[h := blocks'[h]] && (h in blocks ==> blocks[h].use.Free?)
    requires HeldAs(h, blocks'[h], p) && InMem(m', p.ptr, p.size)
    ensures Agrees(m', blocks', View(v.live + [p], v.data + [Region(m', p.ptr, p.size)]), owner + [h])
  {
    hide RegionKept, DataKept;
    ReadsKept(m, m', blocks, v, owner);
    HoldingMore(blocks, blocks', v.live, owner, h, p);
    hide Holding;
    var v' := View(v.live + [p], v.data + [Region(m', p.ptr, p.size)]);
    forall i | 0 <= i < |v'.live|
      ensures Stored(m', v'.live[i], v'.data[i])
    {
      if i < |v.live| {
        assert Stored(m', v.live[i], v.data[i]);
      }
    }
  }

  lemma HoldingMore(blocks: Blocks, blocks': Blocks, live: seq<Held>, owner: seq<nat>, h: nat, p: Held)
    requires Holding(blocks, live, owner) && h in blocks' && blocks' == blocks[h := blocks'[h]]
    requires (h in blocks ==> blocks[h].use.Free?) && HeldAs(h, blocks'[h], p)
    ensures Holding(blocks', live + [p], owner + [h])
  {
  }

  /** A pointer less, its block free. */
  lemma AgreesLess(m: Mem, blocks: Blocks, v: View, owner: seq<nat>, k: nat)
    requires Agrees(m, blocks, v, owner) && k < |v.live|
    ensures var h := owner[k];
            Agrees(m, blocks[h := Block(blocks[h].cap, Use.Free)], View(Without(v.live, k), Without(v.data, k)), Without(owner, k))
  {
    hide Stored, HeldAs;
    var h := owner[k];
    var blocks', v', owner' := blocks[h := Block(blocks[h].cap, Use.Free)], View(Without(v.live, k), Without(v.data, k)), Without(owner, k);
    forall i | 0 <= i < |v'.live|
      ensures owner'[i] in blocks' && HeldAs(owner'[i], blocks'[owner'[i]], v'.live[i]) && Stored(m, v'.live[i], v'.data[i])
    {
      var j := if i < k then i else i + 1;
      assert owner'[i] == owner[j] != h;
    }
  }

  /** A write into one region. */
  lemma AgreesPut(m: Mem, m': Mem, blocks: Blocks, v: View, owner: seq<nat>, k: nat, offset: nat, bytes: seq<Byte>)
    requires Agrees(m, blocks, v, owner) && k < |v.live| && offset + |bytes| <= v.live[k].size
    requires InMem(m, v.live[k].ptr + offset, |bytes|) && m' == Written(m, v.live[k].ptr + offset, bytes)
    requires DataKept(m, m', blocks - {owner[k]}) && |v.data[k]| == v.live[k].size
    ensures Agrees(m', blocks, View(v.live, v.data[k := Patched(v.data[k], offset, bytes)]), owner)
  {
    hide HeldAs, RegionKept, Written, InMem;
    var data' := v.data[k := Patched(v.data[k], offset, bytes)];
    forall i | 0 <= i < |v.live|
      ensures Stored(m', v.live[i], data'[i])
    {
      if i == k {
        PatchedRegion(m, v.live[k], v.data[k], offset, bytes);
      } else {
        assert owner[i] in blocks - {owner[k]};
        HeldIsLive(owner[i], blocks[owner[i]], v.live[i]);
        StoredKept(m, m', owner[i], blocks[owner[i]], v.live[i], v.data[i]);
      }
    }
  }

  lemma PatchedRegion(m: Mem, p: Held, d: seq<Byte>, offset: nat, bytes: seq<Byte>)
    requires Stored(m, p, d) && |d| == p.size && offset + |bytes| <= p.size && InMem(m, p.ptr + offset, |bytes|)
    ensures Stored(Written(m, p.ptr + offset, bytes), p, Patched(d, offset, bytes))
  {
    var m' := Written(m, p.ptr + offset, bytes);
    var o := p.ptr - m.base;
    assert m'.bytes[o..o + p.size] == m.bytes[o..o + p.size][..offset] + bytes + m.bytes[o..o + p.size][offset + |bytes|..];
  }

  /** A block moved by realloc. */
  lemma AgreesMoved(m: Mem, m': Mem, blocks: Blocks, blocks': Blocks, v: View, owner: seq<nat>, k: nat, q: nat, size: nat)
    requires Agrees(m, blocks, v, owner) && k < |v.live| && q >= 16
    requires var g, h := q - 16, owner[k];
             && g != h && g in blocks' && (g in blocks ==> blocks[g].use.Free?) && h in blocks
             && blocks' == blocks[g := blocks'[g]][h := Block(blocks[h].cap, Use.Free)] && blocks'[g].use == Plain(size)
             && DataKept(m, m', blocks' - {g})
    requires size % 0x1_0000_0000 != MAGIC && InMem(m', q, size)
    ensures Agrees(m', blocks', View(v.live[k := Held(q, size, false)], v.data[k := Region(m', q, size)]), owner[k := q - 16])
  {
    hide RegionKept;
    var g, h := q - 16, owner[k];
    var rest := blocks' - {g};
    var live', data', owner' := v.live[k := Held(q, size, false)], v.data[k := Region(m', q, size)], owner[k := g];
    forall i | 0 <= i < |v.live|
      ensures owner'[i] in blocks' && HeldAs(owner'[i], blocks'[owner'[i]], live'[i]) && Stored(m', live'[i], data'[i])
    {
      if i != k {
        assert HeldAs(owner[i], blocks[owner[i]], v.live[i]) && owner[i] != h && owner[i] != g;
        assert owner[i] in rest && rest[owner[i]] == blocks[owner[i]];
        StoredKept(m, m', owner[i], blocks[owner[i]], v.live[i], v.data[i]);
      }
    }
    MovedOwners(blocks, v.live, owner, k, g);
  }

  lemma MovedOwners(blocks: Blocks, live: seq<Held>, owner: seq<nat>, k: nat, g: nat)
    requires Holding(blocks, live, owner) && k < |owner| && (g in blocks ==> blocks[g].use.Free?)
    ensures var after := owner[k := g]; forall i, j :: 0 <= i < j < |after| ==> after[i] != after[j]
  {
    forall i | 0 <= i < |owner|
      ensures owner[i] != g
    {
      assert HeldAs(owner[i], blocks[owner[i]], live[i]);
    }
  }

  // ---------------------------------------------------------------------------------------
  // One operation

  method DoAllocate(heap: Heap, size: nat, probed: bool, granted: bool, live: seq<Held>, ghost v: View, ghost owner: seq<nat>)
    returns (live': seq<Held>, lowered: bool, ghost v': View, ghost owner': seq<nat>)
    requires heap.Valid() && size < WORD && size % 0x1_0000_0000 != MAGIC
    requires v.live == live && Agrees(heap.mem, heap.blocks, v, owner)
    modifies heap
    ensures lowered ==> 16 + size >= TOP
    ensures !lowered ==> heap.Valid() && v'.live == live' && Agrees(heap.mem, heap.blocks, v', owner')
    ensures !lowered ==> v' == v || Added(v, v', size, false)
  {
    hide Inv, Load, Store, DataKept, FirstFit, Agrees, Heap.NoFit;
    live', v', owner' := live, v, owner;
    ghost var m0, blocks0 := heap.mem, heap.blocks;
    AgreesSizes(m0, blocks0, v, owner);
    var brk := heap.mem.Break();
    var p := heap.Malloc(size, probed, granted);
    lowered := heap.mem.Break() < brk;
    if p != 0 && !lowered {
      BlockOfInv(heap.mem, heap.freeList, heap.blocks, heap.free, p - 16);
      AgreesMore(m0, heap.mem, blocks0, heap.blocks, v, owner, p - 16, Held(p, size, false));
      live' := live + [Held(p, size, false)];
      v', owner' := View(live', v.data + [Region(heap.mem, p, size)]), owner + [p - 16];
    }
  }

  method DoAllocateAligned(heap: Heap, alignment: nat, size: nat, probed: bool, granted: bool, live: seq<Held>, ghost v: View, ghost owner: seq<nat>)
    returns (live': seq<Held>, lowered: bool, ghost v': View, ghost owner': seq<nat>)
    requires heap.Valid() && alignment < WORD && size < WORD
    requires v.live == live && Agrees(heap.mem, heap.blocks, v, owner)
    modifies heap
    ensures lowered ==> 16 + size + alignment + 15 >= TOP
    ensures !lowered ==> heap.Valid() && v'.live == live' && Agrees(heap.mem, heap.blocks, v', owner')
    ensures !lowered ==> v' == v || (Added(v, v', size, true) && alignment > 0 && v'.live[|v.live|].ptr % alignment == 0)
  {
    hide Inv, Load, Store, DataKept, FirstFit, Agrees, Heap.NoFit, IsPowerOfTwo;
    live', v', owner' := live, v, owner;
    ghost var m0, blocks0 := heap.mem, heap.blocks;
    AgreesSizes(m0, blocks0, v, owner);
    NoPowerIsZero();
    var brk := heap.mem.Break();
    var rc, p;
    ghost var h;
    rc, p, h := heap.PosixMemalign(alignment, size, probed, granted);
    lowered := heap.mem.Break() < brk;
    if rc == 0 && !lowered {
      BlockOfInv(heap.mem, heap.freeList, heap.blocks, heap.free, h);
      RegionInside(heap.mem, h, heap.blocks[h]);
      AgreesMore(m0, heap.mem, blocks0, heap.blocks, v, owner, h, Held(p, size, true));
      live' := live + [Held(p, size, true)];
      v', owner' := View(live', v.data + [Region(heap.mem, p, size)]), owner + [h];
    }
  }

  method DoRelease(heap: Heap, k: nat, live: seq<Held>, ghost v: View, ghost owner: seq<nat>)
    returns (live': seq<Held>, ghost v': View, ghost owner': seq<nat>)
    requires heap.Valid() && v.live == live && Agrees(heap.mem, heap.blocks, v, owner) && k < |live|
    modifies heap
    ensures |v.data| == |live| && v' == View(Without(v.live, k), Without(v.data, k)) && v'.live == live'
    ensures heap.Valid() && Agrees(heap.mem, heap.blocks, v', owner')
  {
    hide Inv, Load, Store, DataKept;
    ghost var m0 := heap.mem;
    AgreesSizes(m0, heap.blocks, v, owner);
    AgreesLess(m0, heap.blocks, v, owner, k);
    heap.Free(live[k].ptr, owner[k]);
    live' := Without(live, k);
    v', owner' := View(live', Without(v.data, k)), Without(owner, k);
    ReadsKept(m0, heap.mem, heap.blocks, v', owner');
  }

  method DoPut(heap: Heap, k: nat, offset: nat, bytes: seq<Byte>, live: seq<Held>, ghost v: View, ghost owner: seq<nat>)
    returns (ghost v': View)
    requires heap.Valid() && v.live == live && Agrees(heap.mem, heap.blocks, v, owner)
    requires k < |live| && offset + |bytes| <= live[k].size
    modifies heap
    ensures |v.data| == |live| && |v.data[k]| == live[k].size && v' == View(v.live, v.data[k := Patched(v.data[k], offset, bytes)])
    ensures heap.Valid() && Agrees(heap.mem, heap.blocks, v', owner)
  {
    hide Inv, Load, Store, DataKept, Written, Stored;
    ghost var m0 := heap.mem;
    AgreesSizes(m0, heap.blocks, v, owner);
    heap.UserWrite(owner[k], live[k].ptr + offset, bytes);
    AgreesPut(m0, heap.mem, heap.blocks, v, owner, k, offset, bytes);
    v' := View(v.live, v.data[k := Patched(v.data[k], offset, bytes)]);
  }

  method DoResize(heap: Heap, k: nat, size: nat, probed: bool, granted: bool, live: seq<Held>, ghost v: View, ghost owner: seq<nat>)
    returns (live': seq<Held>, lowered: bool, ghost v': View, ghost owner': seq<nat>)
    requires heap.Valid() && 0 < size < WORD && size % 0x1_0000_0000 != MAGIC
    requires v.live == live && Agrees(heap.mem, heap.blocks, v, owner) && k < |live| && !live[k].aligned
    modifies heap
    ensures |v.data| == |live| && |v.data[k]| == live[k].size
    ensures lowered ==> 16 + size >= TOP
    ensures !lowered ==> heap.Valid() && v'.live == live' && Agrees(heap.mem, heap.blocks, v', owner')
    ensures !lowered ==> v' == v || ResizedAt(v, v', k, size)
  {
    hide Inv, Load, Store, DataKept, FirstFit, Heap.NoFit, Stored, Heap.Refuses;
    live', v', owner' := live, v, owner;
    ghost var m0, blocks0, h := heap.mem, heap.blocks, owner[k];
    AgreesSizes(m0, blocks0, v, owner);
    assert HeldAs(h, blocks0[h], live[k]);
    var brk := heap.mem.Break();
    var q := heap.Realloc(live[k].ptr, size, probed, granted, h);
    lowered := heap.mem.Break() < brk;
    if q != 0 && !lowered {
      BlockOfInv(heap.mem, heap.freeList, heap.blocks, heap.free, q - 16);
      PlainSize(heap.mem, q - 16, heap.blocks[q - 16]);
      AgreesMoved(m0, heap.mem, blocks0, heap.blocks, v, owner, k, q, size);
      PrefixMoved(m0, heap.mem, live[k], v.data[k], q, size);
      live' := live[k := Held(q, size, false)];
      v', owner' := View(live', v.data[k := Region(heap.mem, q, size)]), owner[k := q - 16];
    }
  }

  lemma PrefixMoved(m: Mem, m': Mem, p: Held, d: seq<Byte>, q: nat, size: nat)
    requires Stored(m, p, d) && InMem(m', q, size) && Copied(m, p.ptr, m', q, Least(p.size, size))
    ensures Region(m', q, size)[..Least(p.size, size)] == d[..Least(p.size, size)]
  {
    RegionPrefix(m, p.ptr, Least(p.size, size), p.size);
    RegionPrefix(m', q, Least(p.size, size), size);
  }

  method Perform(heap: Heap, op: Op, live: seq<Held>, ghost v: View, ghost owner: seq<nat>)
    returns (live': seq<Held>, lowered: bool, ghost v': View, ghost owner': seq<nat>)
    requires heap.Valid() && Representable(op) && v.live == live && Agrees(heap.mem, heap.blocks, v, owner)
    modifies heap
    ensures |v.live| == |v.data| && forall i :: 0 <= i < |v.live| ==> |v.data[i]| == v.live[i].size
    ensures lowered ==> Large(op)
    ensures !lowered ==> heap.Valid() && v'.live == live' && Agrees(heap.mem, heap.blocks, v', owner') && Does(op, v, v')
  {
    hide Inv, Agrees, Added, ResizedAt;
    AgreesSizes(heap.mem, heap.blocks, v, owner);
    live', lowered, v', owner' := live, false, v, owner;
    match op {
      case Allocate(size, probed, granted) =>
        live', lowered, v', owner' := DoAllocate(heap, size, probed, granted, live, v, owner);
      case AllocateAligned(alignment, size, probed, granted) =>
        live', lowered, v', owner' := DoAllocateAligned(heap, alignment, size, probed, granted, live, v, owner);
      case Release(k) =>
        if k < |live| {
          live', v', owner' := DoRelease(heap, k, live, v, owner);
        }
      case Put(k, offset, bytes) =>
        if k < |live| && offset + |bytes| <= live[k].size {
          v' := DoPut(heap, k, offset, bytes, live, v, owner);
        }
      case Resize(k, size, probed, granted) =>
        if k < |live| && !live[k].aligned {
          if size == 0 {
            live', v', owner' := DoRelease(heap, k, live, v, owner);
          } else {
            live', lowered, v', owner' := DoResize(heap, k, size, probed, granted, live, v, owner);
          }
        }
    }
  }

  // ---------------------------------------------------------------------------------------
  // Any sequence of operations

  /** The views of the client, one more than operations performed, each made from the one before. */
  ghost predicate Run(ops: seq<Op>, views: seq<View>) {
    && 0 < |views| <= |ops| + 1 && views[0] == View([], [])
    && (forall n :: 0 <= n < |views| ==> Sized(views[n]))
    && forall n :: 0 < n < |views| ==> Does(ops[n - 1], views[n - 1], views[n])
  }

  ghost predicate Sized(v: View) {
    |v.live| == |v.data| && forall i :: 0 <= i < |v.live| ==> |v.data[i]| == v.live[i].size
  }

  lemma RunLonger(ops: seq<Op>, views: seq<View>, v: View)
    requires Run(ops, views) && |views| <= |ops| && Sized(v) && Does(ops[|views| - 1], views[|views| - 1], v)
    ensures Run(ops, views + [v])
  {
    hide Does;
  }

  /**
    Any sequence of malloc, posix_memalign, realloc, free and writes from the empty heap: the client
    sees independent arrays, every live region reads back what was last stored in it, and no two
    live regions meet.  It stops early only if a call has lowered the break, and then the size of
    that call was negative as an intptr_t.  Plain sizes that read as the magic are excluded, for the
    reason stated by PlainFreedBackIff.
   */
  method Session(base: nat, ops: seq<Op>) returns (heap: Heap, live: seq<Held>, lowered: bool, ghost views: seq<View>)
    requires 0 < base < TOP && forall i :: 0 <= i < |ops| ==> Representable(ops[i])
    ensures Run(ops, views)
    ensures lowered ==> |views| <= |ops| && Large(ops[|views| - 1])
    ensures !lowered ==> |views| == |ops| + 1 && views[|ops|].live == live && heap.Valid() && ReadsBack(heap.mem, views[|ops|])
    ensures !lowered ==> forall i, j :: 0 <= i < j < |live| ==> Separate(live[i], live[j])
  {
    hide Inv, Does, Holding;
    heap := new Heap(base);
    live, lowered := [], false;
    ghost var v, owner := View([], []), [];
    views := [v];
    NothingHeld(heap.mem, heap.blocks);
    for n := 0 to |ops|
      invariant fresh(heap) && heap.Valid() && !lowered && Run(ops, views) && |views| == n + 1
      invariant v == views[n] && v.live == live && Agrees(heap.mem, heap.blocks, v, owner)
    {
      live, lowered, v, owner := Perform(heap, ops[n], live, v, owner);
      if lowered {
        return;
      }
      AgreesSizes(heap.mem, heap.blocks, v, owner);
      RunLonger(ops, views, v);
      views := views + [v];
    }
    HeldApart(heap.mem, heap.freeList, heap.blocks, heap.free, live, owner);
  }

  lemma NothingHeld(m: Mem, blocks: Blocks)
    ensures Agrees(m, blocks, View([], []), [])
  {
  }

  /** In particular a session without such sizes is never cut short. */
  method OrdinarySession(base: nat, ops: seq<Op>) returns (heap: Heap, live: seq<Held>, ghost v: View)
    requires 0 < base < TOP && forall i :: 0 <= i < |ops| ==> Representable(ops[i]) && !Large(ops[i])
    ensures exists views :: Run(ops, views) && |views| == |ops| + 1 && views[|ops|] == v
    ensures heap.Valid() && v.live == live && ReadsBack(heap.mem, v)
    ensures forall i, j :: 0 <= i < j < |live| ==> Separate(live[i], live[j])
  {
    hide Run;
    var lowered;
    ghost var views;
    heap, live, lowered, views := Session(base, ops);
    RunNonempty(ops, views);
    v := views[|views| - 1];
  }

  lemma RunNonempty(ops: seq<Op>, views: seq<View>)
    requires Run(ops, views)
    ensures views != []
  {
  }

  // ---------------------------------------------------------------------------------------
  // The excluded sizes

  /**
    malloc(100), malloc(2^64 - 116), and the next request to sbrk: the second call lowers the break
    into the first block and succeeds, and the third block lies inside the first live region.
   */
  method LoweredBreakOverlaps(base: nat) returns (p1: nat, p2: nat, p3: nat)
    requires 0 < base < TOP - 1000
    ensures p1 == base + 16 && p2 == base + 132 && p3 == base + 32
    ensures p1 <= p3 - 16 && p3 + 50 <= p1 + 100
  {
    hide Inv, Store, DataKept, Load, Shifted, Extended;
    var heap := new Heap(base);
    assert heap.NoFit(100);
    p1 := heap.Malloc(100, true, true);
    assert p1 == base + 16 && heap.free == [] && heap.mem.Break() == base + 116;
    assert Increment(WORD - 116) == -100 && heap.NoFit(WORD - 116);
    assert Moves(heap.mem, -100, true) && heap.Lowers(WORD - 116) && !heap.Refuses(WORD - 116, true, true);
    p2 := heap.Malloc(WORD - 116, true, true);
    assert p2 == base + 132 && heap.mem.Break() == base + 16;
    p3 := heap.Grow(50, true);
  }

  /** A plain block whose size is the magic: free does not put it on the list. */
  method MagicBlockIsLost(base: nat) returns (heap: Heap, p: nat)
    requires 0 < base && base + MAGIC + 32 < TOP
    ensures p == base + 16 && heap.freeList == 0
  {
    hide Inv, Store, DataKept, Load, Extended;
    heap := new Heap(base);
    MagicHeader(heap.mem);
    p := heap.Grow(MAGIC, true);
    heap.FreeAny(p);
  }

  lemma MagicHeader(m: Mem)
    ensures var h, e := m.Break(), Extended(m, 16 + MAGIC);
            && InMem(e, h, 16)
            && var m' := Store(e, h, 8, MAGIC); Load(m', h, 4) == MAGIC && Load(m', h + 8, 8) == 0
  {
    hide Store, Encode, Decode;
    var h, e := m.Break(), Extended(m, 16 + MAGIC);
    var m' := Store(e, h, 8, MAGIC);
    WordPower();
    LoadOfStore(e, h, 8, MAGIC);
    LoadLow(m', h, 8, 4);
    StoreIsLocal(e, h, 8, MAGIC);
    LoadUntouched(e, m', h, h + 8, h + 8, 8);
    assert forall i :: |m.bytes| <= i < |e.bytes| ==> e.bytes[i] == 0;
    ZeroBytes(e.bytes[h + 8 - e.base..h + 16 - e.base]);
  }

  lemma {:induction false} ZeroBytes(s: seq<Byte>)
    requires forall i :: 0 <= i < |s| ==> s[i] == 0
    ensures Decode(s) == 0
  {
    if s != [] {
      ZeroBytes(s[1..]);
    }
  }
}
