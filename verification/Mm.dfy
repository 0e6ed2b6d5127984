/** The boundary-tag allocator of mps/05/mm.c. */
module Mm {
  import opened Wrappers
  import opened Memlib
  import opened FreeLists
  import opened MmLayout
  import opened MmSteps
  import opened MmSpec

  class Allocator {
    const mem: Memory
    ghost var blocks: Blocks
    ghost var lists: Lists
    /** Blocks an operation in progress is still working on. */
    ghost var loose: set<int>

    /** The heap invariant inside an operation. */
    ghost predicate Consistent()
      reads this, mem, mem.cells
    {
      mem.Valid() && Inv(mem.cells[..], mem.brk, blocks, lists, loose)
    }

    /** The heap invariant between operations. */
    ghost predicate Valid()
      reads this, mem, mem.cells
    {
      Consistent() && loose == {}
    }

    constructor (m: Memory)
      ensures mem == m
    {
      mem := m;
    }

    /** mm_init on an empty heap. */
    method Init() returns (r: int)
      requires mem.Valid() && mem.brk == 0
      modifies this, mem`brk, mem.cells
      ensures Valid() && r == 0
      ensures blocks == map[] && lists == [[], [], [], []] && mem.brk == FIRST + HDR
    {
      hide HeapOk;
      var freeListHead := mem.Sbrk(LISTS * HDR + FTR);
      var lastList := freeListHead;
      var curr := freeListHead;
      for i := 0 to LISTS
        invariant mem.Valid() && mem.brk == FIRST
        invariant curr == HDR * i && (i > 0 ==> lastList == HDR * (i - 1))
        invariant forall l | 0 <= l < i ::
          mem.cells[HDR * l] == 1 && mem.cells[HDR * l + 16] == HDR * l && mem.cells[HDR * l + 8] == HDR * l
      {
        mem.Store(curr, 1);
        mem.Store(curr + 16, curr);
        mem.Store(curr + 8, curr);
        lastList := curr;
        curr := curr + HDR;
      }
      mem.Store(lastList + HDR, 1);
      var epilogue := mem.Sbrk(HDR);
      mem.Store(epilogue, HDR + 1);
      EmptyHeap(mem.cells[..]);
      blocks, lists, loose := map[], [[], [], [], []], {};
      return 0;
    }

    /** The two stores of remove_from_free_lists. */
    method UnlinkWords(head: int)
      requires mem.Valid() && NodeAddress(mem.brk, head)
      requires NodeAddress(mem.brk, mem.Load(head + 8)) && NodeAddress(mem.brk, mem.Load(head + 16))
      requires mem.Load(head + 16) + 8 != head + 16 && mem.Load(head + 16) + 8 != head + 8
      modifies mem.cells
      ensures mem.cells[..] == UnlinkMem(old(mem.cells[..]), old(mem.Load(head + 16)), old(mem.Load(head + 8)))
    {
      mem.Store(mem.Load(head + 16) + 8, mem.Load(head + 8));
      mem.Store(mem.Load(head + 8) + 16, mem.Load(head + 16));
    }

    method RemoveFromFreeLists(head: int)
      requires Consistent() && Listed(lists, head)
      modifies this`lists, this`loose, mem.cells
      ensures Consistent() && loose == old(loose) + {head}
      ensures lists == Delist(old(lists), head) && Unlisted(lists, head)
      ensures PayloadsKept(old(mem.cells[..]), mem.cells[..], blocks)
    {
      hide HeapOk, SamePayloads, Delist, Unlisted, UnlinkMem, Without, EntriesIn, NodeAddress;
      ghost var l, k :| 0 <= l < |lists| && 0 <= k < |lists[l]| && lists[l][k] == head;
      ghost var m := mem.cells[..];
      HeapFacts(m, mem.brk, blocks, lists, loose);
      UnlinkInv(m, mem.brk, blocks, lists, loose, l, k);
      DelistInv(m, mem.brk, blocks, lists, loose, l, k);
      UnlinkWords(head);
      lists, loose := lists[l := Without(lists[l], k)], loose + {head};
    }

    /** The four stores of add_to_free_lists. */
    method LinkWords(head: int, list: int, ghost l: int)
      requires mem.Valid() && NodeAddress(mem.brk, head) && NodeAddress(mem.brk, list) && Apart(head, list)
      requires NodeAddress(mem.brk, mem.Load(list + 8)) && Apart(head, mem.Load(list + 8))
      requires list == HDR * l && Linkable(mem.cells[..], l, head)
      modifies mem.cells
      ensures mem.cells[..] == LinkMem(old(mem.cells[..]), l, head)
    {
      mem.Store(head + 16, list);
      mem.Store(head + 8, mem.Load(list + 8));
      mem.Store(mem.Load(list + 8) + 16, head);
      mem.Store(list + 8, head);
    }

    method AddToFreeLists(head: int)
      requires Consistent() && head in blocks && !blocks[head].used && Unlisted(lists, head)
      requires Separated(blocks, loose - {head})
      modifies this`lists, this`loose, mem.cells
      ensures Consistent() && loose == old(loose) - {head}
      ensures lists == Enlist(old(lists), head, blocks[head].size)
      ensures PayloadsKept(old(mem.cells[..]), mem.cells[..], blocks)
    {
      hide HeapOk, Separated, SamePayloads, Unlisted, Linkable, LinkMem, Tag, Apart;
      ghost var m := mem.cells[..];
      LinkInv(m, mem.brk, blocks, lists, loose, head);
      var size := mem.Load(head);
      LinkWords(head, HDR * MapToList(size), MapToList(size));
      lists, loose := Enlist(lists, head, blocks[head].size), loose - {head};
    }

    /** find_fit: the lists from that of `size`, converted to int, on are searched front
        to back. */
    method FindFit(size: word) returns (r: Option<int>)
      requires Valid()
      ensures r == FirstFit(blocks, lists, MapToList(ToInt32(size)), size)
    {
      hide HeapOk, FirstIn, FirstFit, TooSmall, MapToList, ToInt32, EntriesIn;
      ghost var m := mem.cells[..];
      HeapFacts(m, mem.brk, blocks, lists, loose);
      var lastList := (LISTS - 1) * HDR;
      var list := HDR * MapToList(ToInt32(size));
      ghost var l := MapToList(ToInt32(size));
      while list <= lastList
        invariant 0 <= l <= LISTS && list == HDR * l
        invariant FirstFit(blocks, lists, MapToList(ToInt32(size)), size) == FirstFit(blocks, lists, l, size)
      {
        ghost var xs, k := lists[l], 0;
        TooSmallStart(blocks, xs, size);
        RingFirst(m, mem.brk, blocks, lists, loose, l);
        var curr := mem.Load(list + 8);
        while curr != list
          invariant 0 <= k <= |xs| && curr == if k < |xs| then xs[k] else list
          invariant TooSmall(blocks, xs, k, size)
          decreases |xs| - k
        {
          RingNode(m, mem.brk, blocks, lists, loose, l, k);
          if mem.Load(curr) >= size && mem.Load(curr) % 2 == 0 {
            FirstInSkips(blocks, xs, k, size);
            FirstFitSkips(blocks, lists, l, size);
            return Some(curr);
          }
          TooSmallStep(blocks, xs, k, size);
          curr := mem.Load(curr + 8);
          k := k + 1;
        }
        if k < |xs| {
          RingNode(m, mem.brk, blocks, lists, loose, l, k);
        }
        FirstInSkips(blocks, xs, k, size);
        FirstFitSkips(blocks, lists, l, size);
        list := list + HDR;
        l := l + 1;
      }
      FirstFitSkips(blocks, lists, l, size);
      return None;
    }

    /** The four size words that split_block writes, and the one it reads after them. */
    method SplitWords(oldSize: int, newSize: int, head: int) returns (extraHead: int, nextSize: word)
      requires mem.Valid() && NodeAddress(mem.brk, head) && NodeAddress(mem.brk, head + oldSize)
      requires newSize % 8 == 0 && (oldSize - newSize) % 8 == 0
      requires MIN_BLOCK <= newSize && MIN_BLOCK <= oldSize - newSize
      modifies mem.cells
      ensures mem.cells[..] == SplitMem(old(mem.cells[..]), head, newSize, oldSize)
      ensures extraHead == head + newSize && nextSize == mem.cells[head + oldSize]
    {
      mem.Store(head, newSize);
      var foot := head + newSize - FTR;
      mem.Store(foot, newSize);
      extraHead := foot + FTR;
      mem.Store(extraHead, oldSize - newSize);
      var extraFoot := extraHead + mem.Load(extraHead) - FTR;
      mem.Store(extraFoot, mem.Load(extraHead));
      var nextHead := extraFoot + FTR;
      nextSize := mem.Load(nextHead);
    }

    method SplitBlock(oldSize: int, newSize: int, head: int) returns (r: int)
      requires Valid() && head in blocks && !blocks[head].used && blocks[head].size == oldSize
      requires MIN_BLOCK <= newSize <= oldSize && newSize % 8 == 0
      modifies this, mem.cells
      ensures Consistent() && r == head
      ensures head in blocks && !blocks[head].used
      ensures oldSize - newSize > SPLIT_MIN ==>
                head + newSize !in old(blocks) &&
                blocks == SplitBlocks(old(blocks), head, newSize) && loose == {head} &&
                lists == Enlist(old(lists), head + newSize, oldSize - newSize)
      ensures oldSize - newSize <= SPLIT_MIN ==>
                blocks == old(blocks) && lists == old(lists) && loose == {}
      ensures PayloadsKept(old(mem.cells[..]), mem.cells[..], old(blocks))
    {
      hide HeapOk, SamePayloads, Separated, SplitMem, Unlisted, Enlist, SplitBlocks, StillUsed, NodeAddress;
      ghost var m0, B0 := mem.cells[..], blocks;
      if oldSize - newSize > SPLIT_MIN {
        SplitStep(m0, mem.brk, B0, lists, head, newSize);
        var extraHead, nextSize := SplitWords(oldSize, newSize, head);
        blocks, loose := SplitBlocks(B0, head, newSize), {head, head + newSize};
        ghost var m1 := mem.cells[..];
        assert loose - {head + newSize} == {head};
        assert nextSize == m1[End(B0, head)];
        if nextSize % 2 == 0 {
          assert false; // coalease(extra_head) is never reached
        }
        AddToFreeLists(extraHead);
        KeptTwice(m0, m1, mem.cells[..], B0, blocks);
      } else {
        KeptSame(mem.cells[..], blocks);
      }
      return head;
    }

    /** The abstract state that the operations are specified on. */
    ghost function State(): View
      reads this, mem
    {
      View(mem.brk, blocks, lists)
    }

    /** The stores that set the allocated bit in both tags of a free block. */
    method MarkWords(head: int, ghost size: int)
      requires mem.Valid() && NodeAddress(mem.brk, head) && NodeAddress(mem.brk, head + size)
      requires MIN_BLOCK <= size < MAX_HEAP && mem.Load(head) == size && size % 2 == 0
      requires mem.cells[head + size - FTR] == size
      modifies mem.cells
      ensures mem.cells[..] == old(mem.cells[..])[head := size + 1][head + size - FTR := size + 1]
    {
      mem.Store(head, SetLow(mem.Load(head)));
      var ftr := head - FTR + ClearLow(mem.Load(head));
      mem.Store(ftr, SetLow(mem.Load(ftr)));
    }

    /** The heap extension of mm_malloc; SBRK_FAILED when there is no room. */
    method GrowWords(newSize: int) returns (freeBlock: int)
      requires mem.Valid() && NodeAddress(mem.brk, mem.brk - HDR) && mem.brk % 8 == 0
      requires (MIN_BLOCK <= newSize || newSize < -HDR) && newSize % 8 == 0
      modifies mem`brk, mem.cells
      ensures mem.Valid()
      ensures newSize < 0 || old(mem.brk) + newSize + HDR > MAX_HEAP ==>
                freeBlock == SBRK_FAILED && mem.brk == old(mem.brk) &&
                mem.cells[..] == old(mem.cells[..])[mem.brk - HDR := HDR]
      ensures newSize > 0 && old(mem.brk) + newSize + HDR <= MAX_HEAP ==>
                freeBlock == old(mem.brk) - HDR && mem.brk == old(mem.brk) + newSize + HDR &&
                mem.cells[..] == GrowMem(old(mem.cells[..]), freeBlock, newSize + HDR)
    {
      hide EpilogueMem, NodeAddress;
      ghost var m := mem.cells[..];
      var epilogue := mem.HeapHi() - HDR + 1;
      EpilogueLoad();
      mem.Store(epilogue, HDR);
      freeBlock := mem.Sbrk(newSize + HDR);
      if freeBlock == SBRK_FAILED {
        return;
      }
      freeBlock := freeBlock - mem.Load(epilogue);
      NodeAfter(old(mem.brk), freeBlock, newSize + HDR);
      UsedWords(freeBlock, mem.Load(epilogue) + newSize);
      UsedTags(m, freeBlock, newSize + HDR, mem.cells[..]);
      SetEpilogue();
    }

    lemma EpilogueLoad()
      requires mem.Valid() && NodeAddress(mem.brk, mem.brk - HDR)
      ensures 0 <= mem.brk - HDR && (mem.brk - HDR) % 8 == 0
    {
    }

    /** The tags of a block that starts as allocated.  The footer may lie above the
        break, when mem_sbrk has failed. */
    method UsedWords(head: int, size: int)
      requires mem.Valid() && NodeAddress(mem.brk, head) && head + size <= MAX_HEAP
      requires MIN_BLOCK <= size < MAX_HEAP && size % 8 == 0
      modifies mem.cells
      ensures mem.cells[..] == old(mem.cells[..])[head := size + 1][head + size - FTR := size + 1]
    {
      hide SetLow, ClearLow;
      LowBits(size);
      mem.Store(head, SetLow(size));
      var ftr := head - FTR + ClearLow(mem.Load(head));
      mem.StoreInArea(ftr, mem.Load(head));
    }

    /** GET_EPILOGUE and the three stores that initialise it after mem_sbrk. */
    method SetEpilogue()
      requires mem.Valid() && NodeAddress(mem.brk, mem.brk - HDR)
      modifies mem.cells
      ensures mem.cells[..] == EpilogueMem(old(mem.cells[..]), mem.brk - HDR)
    {
      var epilogue := mem.HeapHi() - HDR + 1;
      mem.Store(epilogue + 8, epilogue);
      mem.Store(epilogue + 16, epilogue);
      mem.Store(epilogue, HDR + 1);
    }

    method Malloc(size: int) returns (r: Outcome)
      requires Valid() && Served(size)
      modifies this, mem`brk, mem.cells
      ensures (State(), r) == MallocView(old(State()), size)
      ensures mem.Valid() && (r != Fault ==> Valid())
      ensures PayloadsKept(old(mem.cells[..]), mem.cells[..], old(blocks))
    {
      hide HeapOk, SamePayloads, NodeAddress, RequestSize, FirstFit, Carve, CarveLists, GrowMem;
      ghost var m, B := mem.cells[..], blocks;
      if size == 0 {
        KeptSame(m, B);
        return Null;
      }
      var newSize := RequestSize(size);
      ServedRange(size);
      if newSize < 0 {
        NoneThatLarge(m, mem.brk, B, lists, MapToList(newSize), SizeT(newSize));
      }
      var fit := FindFit(SizeT(newSize));
      match fit {
        case None =>
          GrowStep(m, mem.brk, B, lists, newSize + HDR);
          ghost var epi := mem.brk - HDR;
          var freeBlock := GrowWords(newSize);
          // `free_block <= 0` does not hold of (void *)-1, so the next store goes there
          if freeBlock == SBRK_FAILED {
            return Fault;
          }
          blocks := blocks[epi := Block(newSize + HDR, true)];
          return Ptr(freeBlock + HDR);
        case Some(found) =>
          Take(found, newSize);
          return Ptr(found + HDR);
      }
    }

    /** The branch of mm_malloc that uses a free block. */
    method Take(found: int, newSize: int)
      requires Valid() && MIN_BLOCK <= newSize && newSize % 8 == 0
      requires FirstFit(blocks, lists, MapToList(newSize), newSize) == Some(found)
      modifies this, mem.cells
      ensures Valid()
      ensures blocks == Carve(old(blocks), found, newSize)
      ensures lists == CarveLists(old(blocks), old(lists), found, newSize)
      ensures PayloadsKept(old(mem.cells[..]), mem.cells[..], old(blocks))
    {
      hide HeapOk, SamePayloads, NodeAddress, FirstFit, SplitBlocks, Listed, Unlisted, Delist, Enlist, SetLow,
           ClearLow, StillUsed;
      ghost var m0, B0, L0 := mem.cells[..], blocks, lists;
      FitStep(m0, mem.brk, blocks, lists, newSize);
      ListedEnlist(lists, found, found + newSize, blocks[found].size - newSize);
      var head := SplitBlock(mem.Load(found), newSize, found);
      ghost var m1, B1 := mem.cells[..], blocks;
      MarkStep(m1, mem.brk, B1, lists, loose, head, true);
      MarkWords(head, B1[head].size);
      blocks, loose := B1[head := Block(B1[head].size, true)], loose + {head};
      ghost var m2 := mem.cells[..];
      RemoveFromFreeLists(head);
      TakenStep(mem.cells[..], mem.brk, blocks, lists, loose, head);
      loose := {};
      TakeKeeps(m0, m1, m2, mem.cells[..], B0, B1, head, newSize);
    }

    /** The stores that give the joined block its size. */
    method MergeWords(head: int, newSize: int)
      requires mem.Valid() && NodeAddress(mem.brk, head) && NodeAddress(mem.brk, head + newSize)
      requires MIN_BLOCK <= newSize < MAX_HEAP && newSize % 8 == 0
      modifies mem.cells
      ensures mem.cells[..] == old(mem.cells[..])[head := newSize][head + newSize - FTR := newSize]
    {
      hide ClearLow;
      LowBits(newSize);
      mem.Store(head, newSize);
      var foot := head - FTR + ClearLow(mem.Load(head));
      mem.Store(foot, newSize);
    }

    method Coalease(start: int) returns (head: int)
      requires Consistent() && start in blocks && !blocks[start].used
      requires loose == {start} && Unlisted(lists, start)
      modifies this, mem.cells
      ensures Consistent() && head == CoalescedStart(old(blocks), start)
      ensures blocks == Coalesced(old(blocks), start) && lists == CoalescedLists(old(blocks), old(lists), start)
      ensures loose == {head} && head in blocks && !blocks[head].used && Unlisted(lists, head)
      ensures PayloadsKept(old(mem.cells[..]), mem.cells[..], old(blocks))
    {
      hide HeapOk, SamePayloads, Listed, Unlisted, Delist, ClearLow, FreeBefore;
      ghost var m, B, L := mem.cells[..], blocks, lists;
      head := start;
      CoalesceStep(m, mem.brk, B, L, head);
      var prevFoot := head - FTR;
      var prevHead := head - ClearLow(mem.Load(prevFoot));
      var nextHead := head + ClearLow(mem.Load(head));
      if mem.Load(prevFoot) % 2 == 0 && mem.Load(nextHead) % 2 == 1 {
        MergePrev(head, prevFoot, prevHead);
        head := prevHead;
      } else if mem.Load(prevFoot) % 2 == 1 && mem.Load(nextHead) % 2 == 0 {
        MergeNext(head, nextHead);
      } else if mem.Load(prevFoot) % 2 == 0 && mem.Load(nextHead) % 2 == 0 {
        MergeBoth(head, prevFoot, prevHead, nextHead);
        head := prevHead;
      } else {
        KeptSame(m, B);
      }
    }

    /** Branch of coalease: only the block before is free. */
    method MergePrev(head: int, prevFoot: int, prevHead: int)
      requires Consistent() && head in blocks && !blocks[head].used
      requires loose == {head} && Unlisted(lists, head)
      requires prevHead in blocks && !blocks[prevHead].used && End(blocks, prevHead) == head
      requires Listed(lists, prevHead) && prevFoot == head - FTR && NodeAddress(mem.brk, head) &&
               NodeAddress(mem.brk, prevFoot)
      modifies this, mem.cells
      ensures Consistent() && loose == {prevHead}
      ensures blocks == MergeBlocks(old(blocks), prevHead) && lists == Delist(old(lists), prevHead)
      ensures Unlisted(lists, prevHead)
      ensures PayloadsKept(old(mem.cells[..]), mem.cells[..], old(blocks))
    {
      hide HeapOk, SamePayloads, Listed, Unlisted, Delist, MergeBlocks;
      ghost var m := mem.cells[..];
      UnlistedDelist(lists, prevHead, head);
      RemoveFromFreeLists(prevHead);
      ghost var m1 := mem.cells[..];
      MergeStep(m1, mem.brk, blocks, lists, loose, prevHead);
      var newSize := mem.Load(prevFoot) + mem.Load(head);
      MergeWords(head - mem.Load(prevFoot), newSize);
      KeptChain(m, m1, mem.cells[..], blocks);
      blocks, loose := MergeBlocks(blocks, prevHead), loose - {head};
    }

    /** Branch of coalease: only the block after is free. */
    method MergeNext(head: int, nextHead: int)
      requires Consistent() && head in blocks && !blocks[head].used
      requires loose == {head} && Unlisted(lists, head)
      requires nextHead == End(blocks, head) && nextHead in blocks && !blocks[nextHead].used
      requires Listed(lists, nextHead) && NodeAddress(mem.brk, head) && NodeAddress(mem.brk, nextHead) &&
               head != nextHead
      modifies this, mem.cells
      ensures Consistent() && loose == {head}
      ensures blocks == MergeBlocks(old(blocks), head) && lists == Delist(old(lists), nextHead)
      ensures Unlisted(lists, head)
      ensures PayloadsKept(old(mem.cells[..]), mem.cells[..], old(blocks))
    {
      hide HeapOk, SamePayloads, Listed, Unlisted, Delist, MergeBlocks;
      ghost var m := mem.cells[..];
      UnlistedDelist(lists, nextHead, head);
      RemoveFromFreeLists(nextHead);
      ghost var m1 := mem.cells[..];
      MergeStep(m1, mem.brk, blocks, lists, loose, head);
      var newSize := mem.Load(head) + mem.Load(nextHead);
      MergeWords(head, newSize);
      KeptChain(m, m1, mem.cells[..], blocks);
      blocks, loose := MergeBlocks(blocks, head), loose - {nextHead};
    }

    /** Branch of coalease: both neighbours are free. */
    method MergeBoth(head: int, prevFoot: int, prevHead: int, nextHead: int)
      requires Consistent() && head in blocks && !blocks[head].used
      requires loose == {head} && Unlisted(lists, head)
      requires prevHead in blocks && !blocks[prevHead].used && End(blocks, prevHead) == head
      requires nextHead == End(blocks, head) && nextHead in blocks && !blocks[nextHead].used
      requires Listed(lists, prevHead) && Listed(lists, nextHead) && prevHead < head < nextHead
      requires prevFoot == head - FTR && NodeAddress(mem.brk, prevFoot)
      requires NodeAddress(mem.brk, head) && NodeAddress(mem.brk, nextHead)
      modifies this, mem.cells
      ensures Consistent() && loose == {prevHead}
      ensures End(MergeBlocks(old(blocks), head), prevHead) == head
      ensures blocks == MergeBlocks(MergeBlocks(old(blocks), head), prevHead)
      ensures lists == Delist(Delist(old(lists), nextHead), prevHead)
      ensures Unlisted(lists, prevHead)
      ensures PayloadsKept(old(mem.cells[..]), mem.cells[..], old(blocks))
    {
      hide HeapOk, SamePayloads, Listed, Unlisted, Delist;
      ghost var m := mem.cells[..];
      ghost var L1 := Delist(lists, nextHead);
      UnlistedDelist(lists, nextHead, head);
      UnlistedDelist(L1, prevHead, head);
      RemoveFromFreeLists(nextHead);
      ghost var m1 := mem.cells[..];
      UnlistedDelist(lists, prevHead, nextHead);
      StillListed(mem.cells[..], mem.brk, blocks, lists, loose, prevHead);
      RemoveFromFreeLists(prevHead);
      ghost var m2 := mem.cells[..];
      MergeBothStep(m2, mem.brk, blocks, lists, loose, prevHead, head);
      var newSize := mem.Load(head) + mem.Load(prevFoot) + mem.Load(nextHead);
      MergeWords(head - mem.Load(prevFoot), newSize);
      KeptChain(m, m1, m2, blocks);
      KeptChain(m, m2, mem.cells[..], blocks);
      blocks, loose := MergeBlocks(MergeBlocks(blocks, head), prevHead), loose - {head, nextHead};
    }

    /** The stores that clear the allocated bit in both tags of a block. */
    method UnmarkWords(head: int, ghost size: int)
      requires mem.Valid() && NodeAddress(mem.brk, head) && NodeAddress(mem.brk, head + size)
      requires MIN_BLOCK <= size < MAX_HEAP && mem.Load(head) == size + 1 && size % 8 == 0
      requires mem.cells[head + size - FTR] == size + 1
      modifies mem.cells
      ensures mem.cells[..] == old(mem.cells[..])[head := size][head + size - FTR := size]
    {
      hide ClearLow;
      LowBits(size);
      var foot := head - FTR + ClearLow(mem.Load(head));
      mem.Store(head, ClearLow(mem.Load(head)));
      mem.Store(foot, ClearLow(mem.Load(foot)));
    }

    method Free(ptr: Option<int>)
      requires Valid()
      requires ptr.Some? ==> ptr.value - HDR in blocks && blocks[ptr.value - HDR].used
      modifies this, mem.cells
      ensures Valid()
      ensures ptr.None? ==> State() == old(State()) && mem.cells[..] == old(mem.cells[..])
      ensures ptr.Some? ==> State() == FreeView(old(State()), ptr.value - HDR)
      ensures ptr.Some? ==>
                PayloadsKept(old(mem.cells[..]), mem.cells[..], Unmarked(old(blocks), ptr.value - HDR))
    {
      hide HeapOk, SamePayloads, Unlisted, Coalesced, CoalescedLists, CoalescedStart, Unmarked, Separated, SetLow,
           ClearLow, StillUsed;
      if ptr.None? {
        return;
      }
      var head := ptr.value - HDR;
      ghost var m, B, L := mem.cells[..], blocks, lists;
      MarkStep(m, mem.brk, B, L, loose, head, false);
      UsedUnlisted(m, mem.brk, B, L, head);
      UnmarkWords(head, blocks[head].size);
      ghost var m1, B1 := mem.cells[..], Unmarked(B, head);
      FreedStep(m, m1, B, B1, head);
      assert loose + {head} == {head};
      blocks, loose := B1, {head};
      FreedSeparated(m1, mem.brk, B1, L, head);
      head := Coalease(head);
      ghost var m2 := mem.cells[..];
      assert loose - {head} == {};
      AddToFreeLists(head);
      FreedKeeps(m, m1, m2, mem.cells[..], B1, ptr.value - HDR);
    }

    method IsLastBlock(head: int) returns (last: bool)
      requires Valid() && head in blocks && blocks[head].used
      ensures last <==> End(blocks, head) == mem.brk - HDR
    {
      hide HeapOk, NodeAddress, ClearLow;
      NextNeverFree(mem.cells[..], mem.brk, blocks, lists, head);
      HeaderLoad(head);
      var epilogue := mem.HeapHi() - HDR + 1;
      last := head + ClearLow(mem.Load(head)) >= epilogue;
    }

    lemma HeaderLoad(head: int)
      requires Valid() && head in blocks
      ensures 0 <= head && head % 8 == 0 && head + 8 <= mem.brk
      ensures End(blocks, head) in blocks ==> End(blocks, head) < mem.brk - HDR
    {
    }

    /** The stores of mm_realloc that extend the last block, up to one past the memory
        area. */
    method ExtendWords(bp: int, newSize: int, addSize: int) returns (r: Outcome)
      requires mem.Valid() && NodeAddress(mem.brk, mem.brk - HDR) && NodeAddress(mem.brk, bp) && mem.brk % 8 == 0
      requires 0 < addSize && addSize % 8 == 0 && newSize % 8 == 0 && MIN_BLOCK <= newSize < WORD_LIMIT - 1
      requires FIRST <= bp < mem.brk - HDR && mem.brk - HDR + addSize == bp + newSize
      modifies mem`brk, mem.cells
      ensures mem.Valid()
      ensures r == if old(mem.brk) + addSize <= MAX_HEAP then Ptr(bp + HDR)
                   else if bp + newSize <= MAX_HEAP then Ungrown(bp + HDR)
                   else Astray
      ensures mem.brk == if r.Ptr? then old(mem.brk) + addSize else old(mem.brk)
      ensures r.Ptr? ==> mem.cells[..] == ExtendMem(old(mem.cells[..]), old(mem.brk) - HDR, bp, newSize)
      ensures r.Ungrown? ==> UngrownFrom(old(mem.cells[..]), mem.cells[..], mem.brk - HDR, bp, newSize)
      ensures r == Astray ==> AstrayFrom(old(mem.cells[..]), mem.cells[..], mem.brk - HDR, bp, newSize)
    {
      hide EpilogueMem, NodeAddress, SetLow, ClearLow;
      LowBits(newSize);
      var epilogue := mem.HeapHi() - HDR + 1;
      EpilogueLoad();
      mem.Store(epilogue, HDR);
      var freeBlock := mem.Sbrk(addSize);
      // `free_block <= 0` does not hold of (void *)-1, so the stores follow in any case
      NodeAfter(old(mem.brk), bp, newSize);
      if bp + newSize > MAX_HEAP {
        mem.Store(bp, SetLow(newSize));
        return Astray;
      }
      UsedWords(bp, newSize);
      SetEpilogue();
      return if freeBlock == SBRK_FAILED then Ungrown(bp + HDR) else Ptr(bp + HDR);
    }

    /** Case 4 of mm_realloc. */
    method ExtendLast(bp: int, newSize: int, ptr: int) returns (r: Outcome)
      requires Valid() && bp in blocks && blocks[bp].used && End(blocks, bp) == mem.brk - HDR
      requires blocks[bp].size < newSize < WORD_LIMIT - 1 && newSize % 8 == 0 && ptr == bp + HDR
      modifies this, mem`brk, mem.cells
      ensures var v := old(State());
              if v.brk + (newSize - v.blocks[bp].size) <= MAX_HEAP then
                State() == View(v.brk + (newSize - v.blocks[bp].size), v.blocks[bp := Block(newSize, true)], v.lists) &&
                r == Ptr(ptr) && Valid()
              else
                State() == v && r == if bp + newSize <= MAX_HEAP then Ungrown(ptr) else Astray
      ensures mem.Valid()
      ensures r.Ungrown? ==> UngrownFrom(old(mem.cells[..]), mem.cells[..], mem.brk - HDR, bp, newSize)
      ensures r == Astray ==> AstrayFrom(old(mem.cells[..]), mem.cells[..], mem.brk - HDR, bp, newSize)
      ensures PayloadsKept(old(mem.cells[..]), mem.cells[..], old(blocks))
    {
      hide HeapOk, Tiled, SamePayloads, ExtendMem, UngrownMem, ClearLow;
      ghost var m := mem.cells[..];
      NextNeverFree(m, mem.brk, blocks, lists, bp);
      ExtendStep(m, mem.brk, blocks, lists, bp, newSize);
      if mem.brk + (newSize - blocks[bp].size) <= MAX_HEAP {
        ExtendKeeps(m, mem.brk, blocks, lists, bp, newSize);
      }
      HeapTiled(m, mem.brk, blocks, lists, {});
      UngrownKeeps(m, blocks, mem.brk - HDR, bp, newSize);
      var addSize := newSize - ClearLow(mem.Load(bp));
      r := ExtendWords(bp, newSize, addSize);
      if r.Ptr? {
        blocks := blocks[bp := Block(newSize, true)];
      }
    }

    /** The memcpy of mm_realloc, which takes the size of the whole old block; it fits the
        new payload if the new block is 32 bytes larger. */
    method CopyBlock(bp: int, newBlk: int, currBlockSize: int) returns (fits: bool)
      requires Valid() && bp in blocks && blocks[bp].used && currBlockSize == blocks[bp].size
      requires newBlk - HDR in blocks && blocks[newBlk - HDR].used && newBlk - HDR != bp
      requires currBlockSize < blocks[newBlk - HDR].size
      modifies mem.cells
      ensures fits <==> blocks[newBlk - HDR].size >= currBlockSize + HDR + FTR
      ensures Copied(old(mem.cells[..]), mem.cells[..], bp + HDR, newBlk, currBlockSize)
      ensures AgreeOutside(old(mem.cells[..]), mem.cells[..], newBlk, newBlk + currBlockSize)
    {
      hide HeapOk, Copied, ClearLow;
      CopyRange(mem.cells[..], mem.brk, blocks, lists, bp, newBlk - HDR);
      fits := ClearLow(mem.Load(newBlk - HDR)) >= currBlockSize + HDR + FTR;
      assert newBlk % 8 == 0;
      mem.Memcpy(newBlk, bp + HDR, currBlockSize);
    }

    /** The last case of mm_realloc: a new block, a copy, and the old block freed.  What
        mm_free does to a heap that the copy has damaged is not followed. */
    method Move(bp: int, ptr: int, size: int) returns (r: Outcome)
      requires Valid() && bp in blocks && blocks[bp].used && End(blocks, bp) != mem.brk - HDR
      requires 0 < size <= MAX_REQUEST && ptr == bp + HDR && blocks[bp].size < RequestSize(size)
      modifies this, mem`brk, mem.cells
      ensures (State(), r) == MoveView(old(State()), bp, size)
      ensures mem.Valid() && ((r.Ptr? && Valid()) || r == Fault || r.Overrun?)
      ensures PayloadsKept(old(mem.cells[..]), mem.cells[..], Unmarked(old(blocks), bp))
      ensures r.Ptr? ==>
                Copied(old(mem.cells[..]), mem.cells[..], ptr, r.addr, old(blocks[bp].size) - HDR - FTR)
      ensures r.Overrun? ==>
                Overran(old(mem.cells[..]), mem.cells[..], mem.brk, old(blocks), blocks, lists, bp, r.addr - HDR)
    {
      hide HeapOk, SamePayloads, Unmarked, MallocView, FreeView, Copied, NodeAddress, ClearLow, StillUsed, RequestSize,
           Overran, AgreeOutside;
      ghost var m0, B0 := mem.cells[..], blocks;
      NextNeverFree(m0, mem.brk, blocks, lists, bp);
      HeaderLoad(bp);
      var currBlockSize := ClearLow(mem.Load(bp));
      MallocStep(m0, State(), size);
      RequestRange(size);
      LargerBlock(m0, mem.brk, B0, lists, bp, size);
      r := Malloc(size);
      if r == Fault {
        KeptLess(m0, mem.cells[..], B0, bp);
        return;
      }
      var newBlk := r.addr;
      ghost var m1, B1 := mem.cells[..], blocks;
      MoveStep(m0, m1, mem.brk, blocks, lists, B0, bp, newBlk - HDR);
      var fits := CopyBlock(bp, newBlk, currBlockSize);
      ghost var m2 := mem.cells[..];
      if !fits {
        OverrunStep(m0, m1, m2, mem.brk, B0, B1, lists, bp, newBlk - HDR);
        return Overrun(newBlk);
      }
      CopyStep(m1, m2, mem.brk, blocks, lists, bp, newBlk - HDR);
      Free(Some(ptr));
      MoveKeeps(m0, m1, m2, mem.cells[..], B0, B1, bp, newBlk - HDR);
    }

    method Realloc(ptr: Option<int>, size: int) returns (r: Outcome)
      requires Valid() && 0 <= size <= MAX_REQUEST
      requires ptr.Some? ==> ptr.value - HDR in blocks && blocks[ptr.value - HDR].used
      modifies this, mem`brk, mem.cells
      ensures (State(), r) == ReallocView(old(State()), ptr, size)
      ensures mem.Valid() && (r == Null || r.Ptr? ==> Valid())
      ensures ptr.None? ==> PayloadsKept(old(mem.cells[..]), mem.cells[..], old(blocks))
      ensures ptr.Some? ==>
                PayloadsKept(old(mem.cells[..]), mem.cells[..], Unmarked(old(blocks), ptr.value - HDR))
      ensures ptr.Some? && (r.Ptr? || r.Ungrown?) ==>
                Copied(old(mem.cells[..]), mem.cells[..], ptr.value, r.addr,
                       old(blocks[ptr.value - HDR].size) - HDR - FTR)
      ensures ptr.Some? && r.Ungrown? ==>
                UngrownFrom(old(mem.cells[..]), mem.cells[..], mem.brk - HDR, ptr.value - HDR, RequestSize(size))
      ensures ptr.Some? && r == Astray ==>
                AstrayFrom(old(mem.cells[..]), mem.cells[..], mem.brk - HDR, ptr.value - HDR, RequestSize(size))
      ensures ptr.Some? && r.Overrun? ==>
                Overran(old(mem.cells[..]), mem.cells[..], mem.brk, old(blocks), blocks, lists, ptr.value - HDR,
                        r.addr - HDR)
    {
      hide HeapOk, SamePayloads, Unmarked, MallocView, FreeView, MoveView, Copied, ClearLow, NodeAddress,
           Overran, UngrownFrom, AstrayFrom;
      ghost var m, brk, B, L := mem.cells[..], mem.brk, blocks, lists;
      if size == 0 {
        Free(ptr);
        if ptr.None? {
          KeptSame(m, B);
        }
        return Null;
      } else if ptr.None? {
        r := Malloc(size);
        return;
      }
      var bp := ptr.value - HDR;
      RequestRange(size);
      RequestSizeFits(size);
      var newSize := Align8(size + HDR + FTR);
      NextNeverFree(m, mem.brk, blocks, lists, bp);
      HeaderLoad(bp);
      NextLoad(bp);
      var nextBlock := bp + ClearLow(mem.Load(bp));
      var nextBlockSize := ClearLow(mem.Load(nextBlock));
      var nextBlockFree := ClearLow(mem.Load(nextBlock)) == 0;
      var currBlockSize := ClearLow(mem.Load(bp));
      var last := IsLastBlock(bp);
      if newSize <= currBlockSize {
        KeptSame(m, B);
        KeptLess(m, m, B, bp);
        CopiedSame(m, mem.brk, B, lists, bp);
        return Ptr(ptr.value);
      } else if nextBlockFree {
        assert false; // cases 2 and 3 are never reached
      } else if last {
        r := ExtendLast(bp, newSize, ptr.value);
        KeptLess(m, mem.cells[..], B, bp);
        CopiedKept(m, mem.cells[..], brk, B, L, bp);
      } else {
        r := Move(bp, ptr.value, size);
      }
    }

    lemma NextLoad(head: int)
      requires Valid() && head in blocks
      ensures 0 <= End(blocks, head) && End(blocks, head) % 8 == 0 && End(blocks, head) + 8 <= mem.brk
    {
    }
  }
}
