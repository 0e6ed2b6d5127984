/** The single-list allocator of mps/05/mm-explicit.c. */
module Explicit {
  import opened Wrappers
  import opened Memlib
  import opened FreeLists
  import opened MmLayout
  import opened MmSteps
  import opened MmSpec
  import opened ExplicitSpec

  class ListAllocator {
    const mem: Memory
    ghost var blocks: Blocks
    ghost var free: seq<int>

    ghost predicate Valid()
      reads this, mem, mem.cells
    {
      mem.Valid() && ListInv(mem.cells[..], mem.brk, blocks, free)
    }

    ghost function State(): ListView
      reads this, mem
    {
      ListView(mem.brk, blocks, free)
    }

    constructor (m: Memory)
      ensures mem == m
    {
      mem := m;
    }

    /** mm_init on an empty heap: the list head alone. */
    method Init() returns (r: int)
      requires mem.Valid() && mem.brk == 0
      modifies this, mem`brk, mem.cells
      ensures Valid() && r == 0 && State() == ListView(HDR, map[], [])
    {
      var p := mem.Sbrk(HDR);
      mem.Store(p, HDR);
      mem.Store(p + 8, p);
      mem.Store(p + 16, p);
      blocks, free := map[], [];
      assert Linked(mem.cells[..], Loop(0, []), 0);
      assert Ring(mem.cells[..], 0, [free][0]);
      return 0;
    }

    method FindFit(size: int) returns (r: Option<int>)
      requires Valid()
      ensures r == FirstIn(blocks, free, size)
    {
      hide ListHeapOk, FirstIn, TooSmall, NodeAddress;
      ghost var m, k := mem.cells[..], 0;
      HeadLoad();
      ListFirst(m, mem.brk, blocks, free);
      TooSmallStart(blocks, free, size);
      var p: int := mem.Load(8);
      if 0 < |free| { ListNode(m, mem.brk, blocks, free, 0); NodeLoad(p); }
      while p != 0 && mem.Load(p) < size
        invariant 0 <= k <= |free| && p == if k < |free| then free[k] else 0
        invariant 0 <= p && p % 8 == 0 && p + HDR <= mem.brk
        invariant k < |free| ==> p != 0 && p in blocks && mem.cells[p] == blocks[p].size
        invariant TooSmall(blocks, free, k, size)
        decreases |free| - k
      {
        TooSmallStep(blocks, free, k, size);
        ListNode(m, mem.brk, blocks, free, k);
        NodeLoad(p);
        k := k + 1;
        p := mem.Load(p + 8);
        if k < |free| { ListNode(m, mem.brk, blocks, free, k); }
        NodeLoad(p);
      }
      FirstInSkips(blocks, free, k, size);
      if p != 0 {
        return Some(p);
      }
      return None;
    }

    lemma HeadLoad()
      requires Valid()
      ensures HDR <= mem.brk
    {
    }

    lemma NodeLoad(p: int)
      requires NodeAddress(mem.brk, p)
      ensures 0 <= p && p % 8 == 0 && (p + 8) % 8 == 0 && (p + 16) % 8 == 0 && p + HDR <= mem.brk
    {
    }

    /** The stores that mark a listed block and take it off the list. */
    method TakeWords(bp: int)
      requires mem.Valid() && NodeAddress(mem.brk, bp) && mem.Load(bp) % 2 == 0 && mem.Load(bp) + 1 < WORD_LIMIT
      requires NodeAddress(mem.brk, mem.Load(bp + 8)) && NodeAddress(mem.brk, mem.Load(bp + 16))
      requires mem.Load(bp + 16) + 8 != bp + 16 && mem.Load(bp + 16) + 8 != bp + 8
      modifies mem.cells
      ensures var m := old(mem.cells[..]);
              mem.cells[..] == UnlinkMem(m[bp := m[bp] + 1], m[bp + 16], m[bp + 8])
    {
      mem.Store(bp, SetLow(mem.Load(bp)));
      mem.Store(mem.Load(bp + 16) + 8, mem.Load(bp + 8));
      mem.Store(mem.Load(bp + 8) + 16, mem.Load(bp + 16));
    }

    method Malloc(size: int) returns (r: Reply)
      requires Valid() && 0 <= size <= LIST_MAX_REQUEST
      modifies this, mem`brk, mem.cells
      ensures Valid() && (State(), r) == ListMalloc(old(State()), size)
      ensures DataKept(old(mem.cells[..]), mem.cells[..], old(blocks))
      ensures r == NoMemory ==> mem.cells[..] == old(mem.cells[..])
    {
      hide ListHeapOk, SameData, FirstIn, ListRequest, NodeAddress, SetLow, Drop, Marked;
      ghost var m, B := mem.cells[..], blocks;
      ListRequestFits(size);
      var newSize := ListRequest(size);
      var fit := FindFit(newSize);
      match fit {
        case None =>
          var bp := mem.Sbrk(newSize);
          DataSame(m, B);
          if bp == SBRK_FAILED {
            return NoMemory;
          }
          GrowListed(m, bp, B, free, newSize);
          NodeLoad(bp);
          LowBits(newSize);
          mem.Store(bp, SetLow(newSize));
          blocks := B[bp := Block(newSize, true)];
          return At(bp + HDR);
        case Some(bp) =>
          ghost var k := FirstInPlace(B, free, newSize);
          assert bp == free[k];
          TakeListed(m, mem.brk, B, free, k);
          NodeLoad(bp);
          TakeWords(bp);
          blocks, free := Marked(B, bp, true), Drop(free, bp);
          return At(bp + HDR);
      }
    }

    /** The stores of mm_free. */
    method FreeWords(bp: int, ghost tag: word)
      requires mem.Valid() && NodeAddress(mem.brk, bp) && NodeAddress(mem.brk, 0) && NodeAddress(mem.brk, mem.Load(8))
      requires HDR <= bp && Apart(bp, mem.Load(8)) && ClearLow(mem.Load(bp)) == tag
      requires Linkable(mem.cells[..], 0, bp)
      modifies mem.cells
      ensures var m := old(mem.cells[..]);
              Linkable(m[bp := tag], 0, bp) && mem.cells[..] == LinkMem(m[bp := tag], 0, bp)
    {
      hide Linkable, LinkMem, ClearLow;
      FrontStores(mem.cells[..], bp, tag, mem.Load(8));
      mem.Store(bp, ClearLow(mem.Load(bp)));
      mem.Store(bp + 8, mem.Load(8));
      mem.Store(bp + 16, 0);
      mem.Store(8, bp);
      mem.Store(mem.Load(bp + 8) + 16, bp);
    }

    method Free(ptr: int)
      requires Valid() && ptr - HDR in blocks && blocks[ptr - HDR].used
      modifies this, mem.cells
      ensures Valid() && State() == ListFree(old(State()), ptr - HDR)
      ensures DataKept(old(mem.cells[..]), mem.cells[..], Marked(old(blocks), ptr - HDR, false))
    {
      hide ListHeapOk, SameData, NodeAddress, ClearLow, Marked, Apart, Linkable, LinkMem;
      var bp := ptr - HDR;
      FreeListed(mem.cells[..], mem.brk, blocks, free, bp);
      Even(blocks[bp].size);
      LinkableTagged(mem.cells[..], bp, blocks[bp].size);
      NodeLoad(bp);
      LowBits(blocks[bp].size);
      FreeWords(bp, blocks[bp].size);
      blocks, free := Marked(blocks, bp, false), [bp] + free;
    }

    method Realloc(ptr: int, size: int) returns (r: Reply)
      requires Valid() && ptr - HDR in blocks && blocks[ptr - HDR].used && 0 <= size <= LIST_MAX_REQUEST
      modifies this, mem`brk, mem.cells
      ensures (State(), r) == ListRealloc(old(State()), ptr - HDR, size)
      ensures r != Overread ==> Valid()
      ensures DataKept(old(mem.cells[..]), mem.cells[..], old(blocks) - {ptr - HDR})
      ensures r.At? ==>
                BytesCopied(old(mem.cells[..]), mem.cells[..], ptr, r.addr,
                    Min(size, old(blocks[ptr - HDR].size) - HDR))
      ensures r == NoMemory ==> mem.cells[..] == old(mem.cells[..])
    {
      hide ListHeapOk, SameData, NodeAddress, Marked, ListMalloc, ListFree, BytesCopied, BytesOnly;
      var bp := ptr - HDR;
      ghost var m0, brk0, B0, xs0 := mem.cells[..], mem.brk, blocks, free;
      ListHeader(m0, brk0, B0, xs0, bp);
      GivenApart(m0, State(), bp, size);
      r := Malloc(size);
      if r == NoMemory {
        DataFewer(m0, m0, B0, bp);
        return;
      }
      ghost var m1, B1, xs1 := mem.cells[..], blocks, free;
      DataFewer(m0, m1, B0, bp);
      var newptr := r.addr;
      ListHeader(m1, mem.brk, B1, xs1, bp);
      ListHeader(m1, mem.brk, B1, xs1, newptr - HDR);
      NodeLoad(bp);
      NodeLoad(newptr - HDR);
      Even(B0[bp].size);
      var copySize := mem.Load(bp) - HDR;
      assert copySize == B0[bp].size - HDR + 1;
      if size < copySize {
        copySize := size;
      }
      if ptr + copySize > MAX_HEAP {
        // memcpy would read past the memory area: what follows is not modelled
        return Overread;
      }
      mem.MemcpyBytes(newptr, ptr, copySize, B1[newptr - HDR].size - HDR);
      ghost var m2 := mem.cells[..];
      PayloadCopy(m1, m2, mem.brk, B1, xs1, newptr - HDR, copySize);
      Free(ptr);
      MoveBytes(m0, m1, m2, mem.cells[..], mem.brk, B0, B1, xs1, bp, newptr - HDR, copySize);
    }
  }
}
