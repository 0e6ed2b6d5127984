/** What the invariants and operations of mps/05/mm.c mean for a client. */
module MmTheorems {
  import opened Wrappers
  import opened Memlib
  import opened FreeLists
  import opened MmLayout
  import opened MmSteps
  import opened MmSpec

  // ----------------------------------------------------------------- tiling

  /** Every byte between the first block and the epilogue is in exactly one block. */
  lemma {:induction false} TilingCovers(B: Blocks, epi: int, x: int, c: int) returns (a: int)
    requires Tiled(B, epi) && x in B && x <= c < epi
    ensures a in B && a <= c < End(B, a)
    ensures forall b | b in B && b <= c < End(B, b) :: b == a
    decreases c - x
  {
    if c < End(B, x) {
      a := x;
    } else {
      a := TilingCovers(B, epi, End(B, x), c);
    }
  }

  /** The bytes of the blocks from address `x` on. */
  ghost function BytesFrom(B: Blocks, epi: int, x: int): int
    requires Tiled(B, epi)
    decreases epi - x
  {
    if x in B && x < epi then TiledAt(B, epi, x); B[x].size + BytesFrom(B, epi, End(B, x)) else 0
  }

  /** Walking block by block from the first block adds up to the whole heap. */
  lemma {:induction false} BytesAddUp(B: Blocks, epi: int, x: int)
    requires Tiled(B, epi) && (x in B || x == epi)
    ensures BytesFrom(B, epi, x) == epi - x
    decreases epi - x
  {
    if x in B {
      TiledAt(B, epi, x);
      BytesAddUp(B, epi, End(B, x));
    } else {
      NoBlockAtEnd(B, epi);
    }
  }

  lemma NoBlockAtEnd(B: Blocks, epi: int)
    requires Tiled(B, epi)
    ensures epi !in B
  {
  }

  // -------------------------------------------------------------- isolation

  /** Payloads are 8-aligned, inside the heap, and pairwise disjoint. */
  lemma PayloadsIsolated(m: Mem, brk: int, B: Blocks, L: Lists, a: int, b: int)
    requires Inv(m, brk, B, L, {}) && a in B && b in B && a != b
    ensures (a + HDR) % 8 == 0 && 0 <= a + HDR && End(B, a) - FTR <= brk - HDR
    ensures End(B, a) - FTR < b + HDR || End(B, b) - FTR < a + HDR
  {
    hide Tiled, Aligned, Tagged, Indexed, Rings, Separated;
    BlockHeader(m, brk, B, L, {}, a);
    BlockHeader(m, brk, B, L, {}, b);
    BlocksApart(B, brk - HDR, a, b);
  }

  lemma BlocksApart(B: Blocks, epi: int, a: int, b: int)
    requires Tiled(B, epi) && a in B && b in B && a != b
    ensures End(B, a) <= b || End(B, b) <= a
  {
  }

  // ------------------------------------------------------- malloc and free

  /** mm_malloc extends the heap only when no free block is large enough. */
  lemma GrowsOnlyWhenNothingFits(v: View, size: int)
    requires Indexed(v.blocks, v.lists, {}) && 0 < size <= MAX_REQUEST
    ensures var (v1, r) := MallocView(v, size);
            (v1.brk != v.brk || r == Fault) <==>
              forall a | a in v.blocks && !v.blocks[a].used :: v.blocks[a].size < RequestSize(size)
  {
    hide Indexed, FirstFit, RequestSize;
    RequestRange(size);
    FirstFitComplete(v.blocks, v.lists, RequestSize(size));
  }

  /** Exactly when mm_malloc stores through the `(void *)-1` of mem_sbrk. */
  lemma FaultIff(v: View, size: int)
    requires Indexed(v.blocks, v.lists, {}) && 0 <= size <= MAX_REQUEST
    ensures MallocView(v, size).1 == Fault <==>
              && size > 0 && v.brk + RequestSize(size) + HDR > MAX_HEAP
              && forall a | a in v.blocks && !v.blocks[a].used :: v.blocks[a].size < RequestSize(size)
  {
    hide Indexed, FirstFit, RequestSize;
    if size > 0 {
      RequestRange(size);
      FirstFitComplete(v.blocks, v.lists, RequestSize(size));
    }
  }

  /** Exactly when mm_realloc does: a block that is not the last one must move and
      mm_malloc faults. */
  lemma ReallocFaultIff(v: View, a: int, size: int)
    requires Tiled(v.blocks, v.brk - HDR) && Indexed(v.blocks, v.lists, {})
    requires a in v.blocks && v.blocks[a].used && 0 < size <= MAX_REQUEST
    ensures ReallocView(v, Some(a + HDR), size).1 == Fault <==>
              && RequestSize(size) > v.blocks[a].size && End(v.blocks, a) < v.brk - HDR
              && v.brk + RequestSize(size) + HDR > MAX_HEAP
              && forall b | b in v.blocks && !v.blocks[b].used :: v.blocks[b].size < RequestSize(size)
  {
    hide Tiled, Indexed, FirstFit, RequestSize, FreeView, Align8, MallocView;
    RequestRange(size);
    RequestSizeFits(size);
    TiledAt(v.blocks, v.brk - HDR, a);
    FaultIff(v, size);
  }

  /** A request for the whole memory area on a new heap does so. */
  lemma FaultExample()
    ensures MallocView(View(FIRST + HDR, map[], [[], [], [], []]), MAX_HEAP).1 == Fault
  {
    NothingFits(map[], 3, RequestSize(MAX_HEAP));
    assert RequestSize(MAX_HEAP) == MAX_HEAP + 32;
  }

  /** Requests past MAX_REQUEST.  A computed size that has turned negative ends in the
      store through `(void *)-1`; a positive one is served as the smaller request that it
      belongs to, and a block that is returned has less room than was asked for. */
  lemma WideRequest(m: Mem, v: View, size: int)
    requires Inv(m, v.brk, v.blocks, v.lists, {}) && MAX_REQUEST < size && Served(size)
    ensures var n := RequestSize(size);
            var (v1, r) := MallocView(v, size);
            && (n < 0 ==> (v1, r) == (v, Fault))
            && (n > 0 ==> n - HDR - FTR < size && (v1, r) == MallocView(v, n - HDR - FTR))
            && (r.Ptr? ==> r.addr - HDR in v1.blocks && v1.blocks[r.addr - HDR].size < size)
  {
    hide Tagged, Aligned, Indexed, Rings, Separated, RequestSize, FirstFit;
    var n := RequestSize(size);
    ServedRange(size);
    if n < 0 {
      NoneThatLarge(m, v.brk, v.blocks, v.lists, MapToList(n), SizeT(n));
    } else {
      RequestOf(n);
      var fit := FirstFit(v.blocks, v.lists, MapToList(n), n);
      if fit.Some? { TiledAt(v.blocks, v.brk - HDR, fit.value); }
    }
  }

  lemma RequestOf(n: int)
    requires n % 8 == 0 && MIN_BLOCK <= n < 0x8000_0000
    ensures RequestSize(n - HDR - FTR) == n
  {
  }

  /** Freeing a block that was carved from a free one restores the blocks exactly. */
  lemma FreeUndoesCarve(B: Blocks, epi: int, a: int, n: int)
    requires Tiled(B, epi) && Separated(B, {}) && a in B && !B[a].used && MIN_BLOCK <= n <= B[a].size
    ensures Freed(Carve(B, a, n), a) == B
  {
    var B1 := Unmarked(Carve(B, a, n), a);
    if B[a].size - n > SPLIT_MIN {
      CarveSplit(B, epi, a, n);
    } else {
      assert B1 == B;
      NoFreeNeighbours(B, epi, a);
    }
  }

  lemma NoFreeNeighbours(B: Blocks, epi: int, a: int)
    requires Tiled(B, epi) && Separated(B, {}) && a in B && !B[a].used
    ensures FreeBefore(B, a) == None && FreeAfter(B, a) == None
  {
    assert forall p {:trigger End(B, p)} | p in B && !B[p].used && End(B, p) == a :: false;
  }

  lemma CarveSplit(B: Blocks, epi: int, a: int, n: int)
    requires Tiled(B, epi) && Separated(B, {}) && a in B && !B[a].used && MIN_BLOCK <= n && B[a].size - n > SPLIT_MIN
    ensures Coalesced(Unmarked(Carve(B, a, n), a), a) == B
  {
    var B1 := Unmarked(Carve(B, a, n), a);
    assert a + n !in B;
    assert B1 == SplitBlocks(B, a, n);
    assert End(B1, a) == a + n && FreeAfter(B1, a) == Some(a + n);
    NoFreeNeighbours(B, epi, a);
    forall p | p in B1 && !B1[p].used
      ensures End(B1, p) != a
    {
      if p in B && p != a {
        assert End(B1, p) == End(B, p);
        if End(B, p) == a {
          FreeBeforeUnique(B, epi, p, a);
        }
      }
    }
    assert FreeBefore(B1, a) == None;
    assert MergeBlocks(B1, a) == B;
  }

  // ---------------------------------------------------------------- realloc

  /** Exactly when mm_realloc returns the last block although mem_sbrk has failed to
      extend it, and exactly when it would store the footer past the memory area: less
      than 24 bytes tell them apart from a success. */
  lemma UngrownIff(v: View, a: int, size: int)
    requires Tiled(v.blocks, v.brk - HDR) && Indexed(v.blocks, v.lists, {})
    requires a in v.blocks && v.blocks[a].used && 0 < size <= MAX_REQUEST
    ensures var r := ReallocView(v, Some(a + HDR), size).1;
            var n := RequestSize(size);
            var fails := End(v.blocks, a) == v.brk - HDR && n > v.blocks[a].size && a + n + HDR > MAX_HEAP;
            && (r == Ungrown(a + HDR) <==> fails && a + n <= MAX_HEAP)
            && (r == Astray <==> fails && a + n > MAX_HEAP)
            && (r.Ungrown? ==> r.addr == a + HDR)
  {
    hide Tiled, Indexed, FirstFit, RequestSize, FreeView, Align8;
    RequestRange(size);
    RequestSizeFits(size);
    TiledAt(v.blocks, v.brk - HDR, a);
  }

  /** What the stores of a failed extension leave behind: a header that reads `n` on a
      block that still ends at the epilogue, and a footer in the epilogue or above the
      break.  Every payload is kept, but no choice of blocks and lists makes this a
      heap again. */
  lemma UngrownHeap(m: Mem, m': Mem, brk: int, B: Blocks, L: Lists, a: int, n: int)
    requires Inv(m, brk, B, L, {}) && a in B && B[a].used && End(B, a) == brk - HDR
    requires B[a].size < n && n % 8 == 0 && UngrownFrom(m, m', brk - HDR, a, n)
    ensures m'[a] == n + 1 && brk - HDR <= a + n - FTR && (brk <= a + n - FTR ==> m'[a + n - FTR] == n + 1)
    ensures forall c | 0 <= c < |m| && c != a && c != a + n - FTR && !(brk - HDR <= c < brk) :: m'[c] == m[c]
    ensures PayloadsKept(m, m', B)
    ensures forall B', L' :: !Inv(m', brk, B', L', {})
  {
    hide Tiled, Tagged, Aligned, Indexed, Rings, Separated, SamePayloads;
    HeapFacts(m, brk, B, L, {});
    BlockHeader(m, brk, B, L, {}, a);
    NextWord(0, 0, n, B[a].size);
    UngrownKeeps(m, B, brk - HDR, a, n);
    forall B': Blocks, L': Lists | Inv(m', brk, B', L', {})
      ensures false
    {
      SameWalk(m, m', brk, B, B', L, L', a, a);
      BlockHeader(m', brk, B', L', {}, a);
      Even(n);
    }
  }

  /** Two heaps with the same words below block `a` have the same blocks up to it. */
  lemma {:induction false} SameWalk(m: Mem, m': Mem, brk: int, B: Blocks, B': Blocks, L: Lists, L': Lists, a: int,
                                    x: int)
    requires Inv(m, brk, B, L, {}) && Inv(m', brk, B', L', {}) && a in B && x in B && x <= a
    requires forall c | 0 <= c < a :: m'[c] == m[c]
    ensures x in B'
    decreases x
  {
    hide Tiled, Tagged, Aligned, Indexed, Rings, Separated;
    BlockHeader(m, brk, B, L, {}, x);
    if x == FIRST {
      TiledStart(B', brk - HDR);
    } else {
      var p := TagBefore(m, brk, B, L, {}, x);
      BlockHeader(m, brk, B, L, {}, p);
      SameWalk(m, m', brk, B, B', L, L', a, p);
      BlockHeader(m', brk, B', L', {}, p);
      Even(B[p].size);
      Even(B'[p].size);
    }
  }

  lemma TiledStart(B: Blocks, epi: int)
    requires Tiled(B, epi) && FIRST < epi
    ensures FIRST in B
  {
  }

  /** Two requests on a new heap lead to it: the first takes the whole area, the second
      asks for 32 bytes more. */
  lemma UngrownExample()
    ensures var (v, p) := MallocView(View(FIRST + HDR, map[], [[], [], [], []]), 20971336);
            && p == Ptr(128) && v.brk == MAX_HEAP
            && ReallocView(v, Some(128), 20971368) == (v, Ungrown(128))
  {
    NothingFits(map[], 3, RequestSize(20971336));
    assert RequestSize(20971336) == 20971368;
  }

  /** Exactly when the copy of mm_realloc runs past the new payload: the block must
      move, and the free block found for it is less than 32 bytes larger than the old
      one.  A move into freshly extended heap is always large enough. */
  lemma OverrunIff(v: View, a: int, size: int)
    requires Tiled(v.blocks, v.brk - HDR) && Aligned(v.blocks, v.brk - HDR) && Indexed(v.blocks, v.lists, {})
    requires a in v.blocks && v.blocks[a].used && 0 < size <= MAX_REQUEST
    ensures var n := RequestSize(size);
            var cur := v.blocks[a].size;
            var fit := FirstFit(v.blocks, v.lists, MapToList(n), n);
            ReallocView(v, Some(a + HDR), size).1.Overrun? <==>
              && n > cur && End(v.blocks, a) < v.brk - HDR && fit.Some?
              && (if v.blocks[fit.value].size - n > SPLIT_MIN then n else v.blocks[fit.value].size) < cur + HDR + FTR
  {
    hide Tiled, Indexed, FirstFit, RequestSize, FreeView, Align8;
    var n := RequestSize(size);
    RequestRange(size);
    RequestSizeFits(size);
    FirstFitComplete(v.blocks, v.lists, n);
    TiledAt(v.blocks, v.brk - HDR, a);
    AlignedAbove(v.blocks[a].size, n);
    var fit := FirstFit(v.blocks, v.lists, MapToList(n), n);
    if fit.Some? {
      var B' := Carve(v.blocks, fit.value, n);
      assert SizeAt(B', fit.value) == if v.blocks[fit.value].size - n > SPLIT_MIN then n else v.blocks[fit.value].size;
    }
  }

  lemma AlignedAbove(x: int, n: int)
    requires x % 8 == 0 && n % 8 == 0
    ensures x < n ==> x + 8 <= n
  {
  }

  /** Which words the overrun destroys: the footer of the new block always, the header of
      the block after it if the new block is at most 16 bytes larger than the old one,
      and the next_p of that header too if only 8.  They get the words that follow the
      old block; nothing else outside the new payload changes. */
  lemma OverrunWords(m1: Mem, m2: Mem, brk: int, B: Blocks, L: Lists, a: int, b: int)
    requires OverranFrom(m1, m2, brk, B, L, a, b)
    ensures var d := B[b].size - B[a].size;
            && (d == 8 || d == 16 || d == 24)
            && m2[End(B, b) - FTR] == m1[End(B, a) + d - FTR]
            && (d <= 16 ==> m2[End(B, b)] == m1[End(B, a) + d])
            && (d == 8 ==> m2[End(B, b) + 8] == m1[End(B, a) + 16])
            && AgreeOutside(m1, m2, b + HDR, End(B, b) + HDR - d)
  {
    hide HeapOk, Copied;
    HeapFacts(m1, brk, B, L, {});
    BlockHeader(m1, brk, B, L, {}, a);
    BlockHeader(m1, brk, B, L, {}, b);
    var d := B[b].size - B[a].size;
    LittleLarger(B[a].size, B[b].size);
    CopiedAt(m1, m2, a + HDR, b + HDR, B[a].size, B[b].size - HDR - FTR);
    if d <= 16 { CopiedAt(m1, m2, a + HDR, b + HDR, B[a].size, B[b].size - HDR); }
    if d == 8 { CopiedAt(m1, m2, a + HDR, b + HDR, B[a].size, B[b].size - HDR + 8); }
  }

  lemma LittleLarger(x: int, y: int)
    requires x % 8 == 0 && y % 8 == 0 && x < y < x + HDR + FTR
    ensures y - x == 8 || y - x == 16 || y - x == 24
    ensures (y - HDR - FTR) % 8 == 0 && (y - HDR) % 8 == 0 && (y - HDR + 8) % 8 == 0
  {
  }

  lemma CopiedAt(m: Mem, m': Mem, src: int, dst: int, n: int, i: int)
    requires Copied(m, m', src, dst, n) && 0 <= i < n && i % 8 == 0
    ensures m'[dst + i] == m[src + i]
  {
  }

  /** The heap after three requests. */
  lemma ThreeBlocks()
    ensures var v0 := View(FIRST + HDR, map[], [[], [], [], []]);
            var (v1, p) := MallocView(v0, 40);
            var (v2, q) := MallocView(v1, 48);
            var B := map[104 := Block(96, true), 200 := Block(104, true), 304 := Block(64, true)];
            p == Ptr(128) && q == Ptr(224) && MallocView(v2, 8).0 == View(392, B, v0.lists)
  {
    var v0 := View(FIRST + HDR, map[], [[], [], [], []]);
    assert RequestSize(40) == 72 && RequestSize(48) == 80 && RequestSize(8) == 40;
    NothingFits(v0.blocks, 0, 72);
    var v1 := MallocView(v0, 40).0;
    assert v1 == View(224, map[104 := Block(96, true)], v0.lists);
    NothingFits(v1.blocks, 0, 80);
    var v2 := MallocView(v1, 48).0;
    NothingFits(v2.blocks, 0, 40);
  }

  /** and after the middle one of its blocks was freed. */
  lemma MiddleFreed()
    ensures var B := map[104 := Block(96, true), 200 := Block(104, true), 304 := Block(64, true)];
            var B' := map[104 := Block(96, true), 200 := Block(104, false), 304 := Block(64, true)];
            FreeView(View(392, B, [[], [], [], []]), 200) == View(392, B', [[200], [], [], []])
  {
    var B := map[104 := Block(96, true), 200 := Block(104, true), 304 := Block(64, true)];
    var B' := Unmarked(B, 200);
    assert B' == map[104 := Block(96, true), 200 := Block(104, false), 304 := Block(64, true)];
    assert End(B', 200) == 304;
    assert FreeAfter(B', 200) == None && FreeBefore(B', 200) == None;
    assert Enlist([[], [], [], []], 200, 104) == [[200], [], [], []] by { assert [200] + [] == [200]; }
  }

  /** A request for 72 bytes then gets the free block whole, 8 bytes larger than the
      first one, to which a copy of the first one does not fit. */
  lemma FirstMoves()
    ensures var B := map[104 := Block(96, true), 200 := Block(104, false), 304 := Block(64, true)];
            ReallocView(View(392, B, [[200], [], [], []]), Some(128), 72).1 == Overrun(224)
  {
    var B := map[104 := Block(96, true), 200 := Block(104, false), 304 := Block(64, true)];
    var v := View(392, B, [[200], [], [], []]);
    assert RequestSize(72) == 104 && Align8(72 + HDR + FTR) == 104;
    assert FirstFit(B, v.lists, 0, 104) == Some(200);
    var (v1, r) := MallocView(v, 72);
    assert r == Ptr(224) && SizeAt(v1.blocks, 200) == 104 && SizeAt(B, 104) == 96;
  }

  /** The overrun happens: four requests lead to it. */
  lemma OverrunExample()
    ensures var v0 := View(FIRST + HDR, map[], [[], [], [], []]);
            var (v1, p) := MallocView(v0, 40);
            var (v2, q) := MallocView(v1, 48);
            var (v3, r) := MallocView(v2, 8);
            && p == Ptr(128) && q == Ptr(224)
            && ReallocView(FreeView(v3, 200), Some(128), 72).1 == Overrun(224)
  {
    hide FreeView, MallocView, ReallocView;
    ThreeBlocks();
    MiddleFreed();
    FirstMoves();
  }

  lemma {:induction false} NothingFits(B: Blocks, l: nat, n: int)
    ensures FirstFit(B, [[], [], [], []], l, n) == None
    decreases 4 - l
  {
    if l < 4 {
      NothingFits(B, l + 1, n);
    }
  }
}
