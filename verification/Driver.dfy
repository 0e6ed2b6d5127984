/** The trace driver of mps/05/mdriver.c run on the allocator of mps/05/mm.c. */
module Driver {
  import opened Wrappers
  import opened Memlib
  import opened FreeLists
  import opened MmLayout
  import opened MmSteps
  import opened MmSpec
  import opened Mm
  import opened LinkedLists
  import opened Ranges
  import opened Traces

  // ------------------------------------------------- what the driver remembers

  /** Every id of `order` owns an allocated block, all different, with room for its
      size. */
  ghost predicate Owned(B: Blocks, ptrs: seq<int>, sizes: seq<int>, order: seq<int>) {
    && |ptrs| == |sizes|
    && (forall k | 0 <= k < |order| :: OwnsBlock(B, ptrs, sizes, order[k]))
    && (forall k, j | 0 <= k < |order| && 0 <= j < |order| && k != j ::
          order[k] != order[j] && ptrs[order[k]] != ptrs[order[j]])
  }

  ghost predicate OwnsBlock(B: Blocks, ptrs: seq<int>, sizes: seq<int>, i: int) {
    && 0 <= i < |ptrs| == |sizes|
    && ptrs[i] - HDR in B && B[ptrs[i] - HDR].used
    && 1 <= sizes[i] && sizes[i] + HDR + FTR <= B[ptrs[i] - HDR].size
  }

  function ExtentOf(ptrs: seq<int>, sizes: seq<int>, i: int): Extent
    requires 0 <= i < |ptrs| == |sizes|
  {
    Extent(ptrs[i], ptrs[i] + sizes[i] - 1)
  }

  /** The range list holds the extents of exactly these ids. */
  ghost predicate Tracked(xs: seq<Extent>, ptrs: seq<int>, sizes: seq<int>, order: seq<int>) {
    && |xs| == |order| && |ptrs| == |sizes|
    && forall k | 0 <= k < |order| :: 0 <= order[k] < |ptrs| && xs[k] == ExtentOf(ptrs, sizes, order[k])
  }

  /** Every live payload is filled with the low byte of its id. */
  ghost predicate Filled(m: Mem, ptrs: seq<int>, sizes: seq<int>, order: seq<int>) {
    |ptrs| == |sizes| &&
    forall k | 0 <= k < |order| && 0 <= order[k] < |ptrs| ::
      FilledAt(m, ptrs[order[k]], sizes[order[k]], order[k] % 256)
  }

  ghost predicate FilledAt(m: Mem, p: int, n: int, v: int) {
    forall j | p <= j < p + n :: ByteAt(m, j) == v
  }

  /** Unchanged payload words mean unchanged payload bytes. */
  lemma BytesKept(m: Mem, m': Mem, B: Blocks, epi: int, a: int, n: int, v: int)
    requires PayloadsKept(m, m', B) && Tiled(B, epi) && Aligned(B, epi) && epi <= |m|
    requires a in B && B[a].used && n + HDR + FTR <= B[a].size && FilledAt(m, a + HDR, n, v)
    ensures FilledAt(m', a + HDR, n, v)
  {
    forall j | a + HDR <= j < a + HDR + n
      ensures ByteAt(m', j) == v
    {
      var x := j - j % 8;
      WordOf(a + HDR, j);
      assert m'[x] == m[x];
      assert ByteAt(m, j) == v;
    }
  }

  lemma WordOf(p: int, j: int)
    requires p % 8 == 0 && p <= j
    ensures p <= j - j % 8 <= j
  {
  }

  lemma FilledKept(m: Mem, m': Mem, B: Blocks, epi: int, ptrs: seq<int>, sizes: seq<int>, order: seq<int>)
    requires PayloadsKept(m, m', B) && Tiled(B, epi) && Aligned(B, epi) && epi <= |m|
    requires Owned(B, ptrs, sizes, order) && Filled(m, ptrs, sizes, order)
    ensures Filled(m', ptrs, sizes, order)
  {
    hide Tiled, Aligned, SamePayloads, FilledAt;
    forall k | 0 <= k < |order| && 0 <= order[k] < |ptrs|
      ensures FilledAt(m', ptrs[order[k]], sizes[order[k]], order[k] % 256)
    {
      assert OwnsBlock(B, ptrs, sizes, order[k]);
      BytesKept(m, m', B, epi, ptrs[order[k]] - HDR, sizes[order[k]], order[k] % 256);
    }
  }

  // ------------------------------------------------------------- one request

  /** B1 keeps what is allocated in B0 and adds the block of payload `p`. */
  ghost predicate Adds(B0: Blocks, B1: Blocks, p: int, size: int) {
    && StillUsed(B0, B1)
    && p - HDR in B1 && B1[p - HDR].used && size + HDR + FTR <= B1[p - HDR].size
    && (p - HDR in B0 ==> !B0[p - HDR].used)
  }

  lemma AddOwned(B0: Blocks, B1: Blocks, ptrs: seq<int>, sizes: seq<int>, order: seq<int>, i: int, p: int, size: int)
    requires Owned(B0, ptrs, sizes, order) && Adds(B0, B1, p, size) && size >= 1
    requires 0 <= i < |ptrs| && i !in order
    ensures Owned(B1, ptrs[i := p], sizes[i := size], [i] + order)
    ensures Owned(Unmarked(B1, p - HDR), ptrs, sizes, order)
  {
    forall k | 0 <= k < |order|
      ensures OwnsBlock(B1, ptrs, sizes, order[k]) && order[k] != i && ptrs[order[k]] != p
    {
      assert OwnsBlock(B0, ptrs, sizes, order[k]);
    }
    forall k | 0 <= k < |order|
      ensures OwnsBlock(Unmarked(B1, p - HDR), ptrs, sizes, order[k])
    {
      assert OwnsBlock(B1, ptrs, sizes, order[k]);
    }
    var o := [i] + order;
    forall k | 0 <= k < |o|
      ensures OwnsBlock(B1, ptrs[i := p], sizes[i := size], o[k])
    {
      if k > 0 { assert o[k] == order[k - 1] && OwnsBlock(B1, ptrs, sizes, order[k - 1]); }
    }
    forall k, j | 0 <= k < |o| && 0 <= j < |o| && k != j
      ensures o[k] != o[j] && ptrs[i := p][o[k]] != ptrs[i := p][o[j]]
    {
      if k > 0 { assert o[k] == order[k - 1]; }
      if j > 0 { assert o[j] == order[j - 1]; }
    }
  }

  lemma AddTracked(xs: seq<Extent>, ptrs: seq<int>, sizes: seq<int>, order: seq<int>, i: int, p: int, size: int)
    requires Tracked(xs, ptrs, sizes, order) && 0 <= i < |ptrs| && i !in order
    ensures Tracked([Extent(p, p + size - 1)] + xs, ptrs[i := p], sizes[i := size], [i] + order)
  {
    var o, ys := [i] + order, [Extent(p, p + size - 1)] + xs;
    forall k | 0 <= k < |o|
      ensures 0 <= o[k] < |ptrs| && ys[k] == ExtentOf(ptrs[i := p], sizes[i := size], o[k])
    {
      if k > 0 {
        assert o[k] == order[k - 1] && ys[k] == xs[k - 1];
      }
    }
  }

  /** add_range never raises a false alarm: a new payload is aligned, inside the heap,
      and meets no live one. */
  lemma AddAcceptable(B: Blocks, brk: int, xs: seq<Extent>, ptrs: seq<int>, sizes: seq<int>, order: seq<int>, p: int,
                      size: int)
    requires Tiled(B, brk - HDR) && Aligned(B, brk - HDR) && Tracked(xs, ptrs, sizes, order)
    requires Owned(Unmarked(B, p - HDR), ptrs, sizes, order)
    requires p - HDR in B && size >= 1 && size + HDR + FTR <= B[p - HDR].size
    ensures Acceptable(xs, Extent(p, p + size - 1), brk)
  {
    var e := Extent(p, p + size - 1);
    assert p % 8 == 0;
    TiledAt(B, brk - HDR, p - HDR);
    forall k | 0 <= k < |xs|
      ensures !EndInside(e, xs[k])
    {
      assert OwnsBlock(Unmarked(B, p - HDR), ptrs, sizes, order[k]);
      var a := ptrs[order[k]] - HDR;
      assert a in B && B[a].used && a != p - HDR;
      assert xs[k] == Extent(a + HDR, a + HDR + sizes[order[k]] - 1);
      if a < p - HDR {
        assert a + B[a].size <= p - HDR;
      } else {
        assert p - HDR + B[p - HDR].size <= a;
      }
    }
  }

  lemma AddFilled(m1: Mem, m2: Mem, B1: Blocks, epi: int, ptrs: seq<int>, sizes: seq<int>, order: seq<int>, i: int,
                  p: int, size: int)
    requires Tiled(B1, epi) && Aligned(B1, epi) && epi <= |m1|
    requires p - HDR in B1 && B1[p - HDR].used && size + HDR + FTR <= B1[p - HDR].size && size >= 1
    requires Owned(Unmarked(B1, p - HDR), ptrs, sizes, order) && Filled(m1, ptrs, sizes, order)
    requires 0 <= i < |ptrs| && i !in order
    requires PayloadsKept(m1, m2, Unmarked(B1, p - HDR)) && FilledAt(m2, p, size, i % 256)
    ensures Filled(m2, ptrs[i := p], sizes[i := size], [i] + order)
  {
    hide Tiled, Aligned, FilledAt, SamePayloads;
    TiledMark(B1, epi, p - HDR, false);
    AlignedMark(B1, epi, p - HDR);
    FilledKept(m1, m2, Unmarked(B1, p - HDR), epi, ptrs, sizes, order);
    var o := [i] + order;
    forall k | 0 <= k < |o| && 0 <= o[k] < |ptrs|
      ensures FilledAt(m2, ptrs[i := p][o[k]], sizes[i := size][o[k]], o[k] % 256)
    {
      if k > 0 { assert o[k] == order[k - 1] && order[k - 1] in order; }
    }
  }

  lemma AlignedMark(B: Blocks, epi: int, a: int)
    requires Aligned(B, epi) && a in B
    ensures Aligned(Unmarked(B, a), epi)
  {
  }

  // ------------------------------------------------------------ one id leaves

  lemma DropOwned(B: Blocks, ptrs: seq<int>, sizes: seq<int>, order: seq<int>, k: nat)
    requires Owned(B, ptrs, sizes, order) && k < |order|
    ensures 0 <= order[k] < |ptrs|
    ensures Owned(Unmarked(B, ptrs[order[k]] - HDR), ptrs, sizes, Without(order, k))
    ensures order[k] !in Without(order, k)
    ensures forall x :: x in Without(order, k) <==> x in order && x != order[k]
  {
    var o := Without(order, k);
    assert OwnsBlock(B, ptrs, sizes, order[k]);
    WithoutAt(order, k);
    WithoutMembers(order, k);
    var B' := Unmarked(B, ptrs[order[k]] - HDR);
    forall j | 0 <= j < |o|
      ensures OwnsBlock(B', ptrs, sizes, o[j])
    {
      assert OwnsBlock(B, ptrs, sizes, order[if j < k then j else j + 1]);
    }
  }

  lemma DropTracked(B: Blocks, xs: seq<Extent>, ptrs: seq<int>, sizes: seq<int>, order: seq<int>, k: nat)
    requires Tracked(xs, ptrs, sizes, order) && Owned(B, ptrs, sizes, order) && k < |order|
    ensures 0 <= order[k] < |ptrs| && Tracked(Removed(xs, ptrs[order[k]]), ptrs, sizes, Without(order, k))
  {
    forall j | 0 <= j < k
      ensures xs[j].lo != xs[k].lo
    {
      assert ptrs[order[j]] != ptrs[order[k]];
    }
    RemovedAt(xs, k);
    var ys, o := xs[..k] + xs[k + 1..], Without(order, k);
    forall j | 0 <= j < |o|
      ensures 0 <= o[j] < |ptrs| && ys[j] == ExtentOf(ptrs, sizes, o[j])
    {
      var j' := if j < k then j else j + 1;
      assert o[j] == order[j'] && ys[j] == xs[j'];
    }
  }

  lemma DropFilled(m: Mem, ptrs: seq<int>, sizes: seq<int>, order: seq<int>, k: nat)
    requires Filled(m, ptrs, sizes, order) && k < |order|
    ensures Filled(m, ptrs, sizes, Without(order, k))
  {
    hide FilledAt;
    var o := Without(order, k);
    forall j | 0 <= j < |o| && 0 <= o[j] < |ptrs|
      ensures FilledAt(m, ptrs[o[j]], sizes[o[j]], o[j] % 256)
    {
      assert o[j] == order[if j < k then j else j + 1];
    }
  }

  // ------------------------------------------------------- the three requests

  lemma MallocAdds(m: Mem, v: View, size: int)
    requires Inv(m, v.brk, v.blocks, v.lists, {}) && 1 <= size <= MAX_REQUEST
    ensures var (v1, r) := MallocView(v, size);
            && (r.Ptr? || r == Fault)
            && (r.Ptr? ==> Adds(v.blocks, v1.blocks, r.addr, size))
            && (r.Ptr? ==> v.brk <= v1.brk <= v.brk + RequestSize(size) + HDR)
            && (r == Fault ==> v.brk + RequestSize(size) + HDR > MAX_HEAP)
  {
    hide Tiled, Tagged, Aligned, Indexed, Rings, Separated, RequestSize, FirstFit, Carve;
    RequestRange(size);
    MallocStep(m, v, size);
  }

  lemma FreeKeepsUsed(B: Blocks, a: int)
    requires a in B
    ensures StillUsed(Unmarked(B, a), Freed(B, a))
  {
    CoalescedStillUsed(Unmarked(B, a), a);
  }

  lemma ReallocAdds(m: Mem, v: View, a: int, size: int)
    requires Inv(m, v.brk, v.blocks, v.lists, {}) && 1 <= size <= MAX_REQUEST && a in v.blocks && v.blocks[a].used
    ensures var (v1, r) := ReallocView(v, Some(a + HDR), size);
            && r != Null
            && (r.Ptr? ==> Adds(Unmarked(v.blocks, a), v1.blocks, r.addr, size))
            && (r.Ptr? ==> v.brk <= v1.brk <= v.brk + RequestSize(size) + HDR)
            && (r == Fault || r.Ungrown? || r == Astray ==> v.brk + RequestSize(size) + HDR > MAX_HEAP)
            && (r.Ungrown? ==> v1 == v && r.addr == a + HDR && End(v.blocks, a) == v.brk - HDR)
  {
    hide Tiled, Tagged, Aligned, Indexed, Rings, Separated, RequestSize, Align8, MallocView, Freed, FreedLists;
    RequestRange(size);
    RequestSizeFits(size);
    BlockHeader(m, v.brk, v.blocks, v.lists, {}, a);
    MallocAdds(m, v, size);
    var (v1, r) := MallocView(v, size);
    if r.Ptr? {
      FreeKeepsUsed(v1.blocks, a);
      UsedAfter(v.blocks, v1.blocks, Freed(v1.blocks, a), a, r.addr, size);
    }
  }

  lemma UsedAfter(B0: Blocks, B1: Blocks, B2: Blocks, a: int, p: int, size: int)
    requires Adds(B0, B1, p, size) && a in B0 && B0[a].used && StillUsed(Unmarked(B1, a), B2)
    ensures Adds(Unmarked(B0, a), B2, p, size)
  {
  }

  // -------------------------------------------------------- the whole record

  ghost predicate BooksOk(m: Mem, B: Blocks, xs: seq<Extent>, ptrs: seq<int>, sizes: seq<int>, order: seq<int>) {
    Owned(B, ptrs, sizes, order) && Tracked(xs, ptrs, sizes, order) && Filled(m, ptrs, sizes, order)
  }

  /** The allocator's blocks, the range list and the payload bytes agree on the live
      ids.  (Compared with `true` like the heap invariant.) */
  ghost predicate Books(m: Mem, B: Blocks, xs: seq<Extent>, ptrs: seq<int>, sizes: seq<int>, order: seq<int>) {
    BooksOk(m, B, xs, ptrs, sizes, order) == true
  }

  /** A new payload `p` in the heap m1, next to the ids of `order`. */
  ghost predicate Arrived(m1: Mem, B1: Blocks, xs: seq<Extent>, ptrs: seq<int>, sizes: seq<int>, order: seq<int>,
                          p: int) {
    && Owned(Unmarked(B1, p - HDR), ptrs, sizes, order)
    && Tracked(xs, ptrs, sizes, order) && Filled(m1, ptrs, sizes, order)
  }

  lemma ArriveStep(m0: Mem, m1: Mem, brk: int, brk1: int, B0: Blocks, B1: Blocks, L: Lists, L1: Lists,
                   xs: seq<Extent>, ptrs: seq<int>, sizes: seq<int>, order: seq<int>, i: int, p: int, size: int)
    requires Inv(m0, brk, B0, L, {}) && Inv(m1, brk1, B1, L1, {})
    requires Books(m0, B0, xs, ptrs, sizes, order)
    requires PayloadsKept(m0, m1, B0) && Adds(B0, B1, p, size)
    requires 0 <= i < |ptrs| && i !in order && size >= 1
    ensures Arrived(m1, B1, xs, ptrs, sizes, order, p)
  {
    hide Tiled, Tagged, Aligned, Indexed, Rings, Separated, SamePayloads, Filled, Tracked, Owned, OwnsBlock;
    HeapFacts(m0, brk, B0, L, {});
    AddOwned(B0, B1, ptrs, sizes, order, i, p, size);
    FilledKept(m0, m1, B0, brk - HDR, ptrs, sizes, order);
  }

  /** add_range accepts the new payload, and it can be filled. */
  lemma AcceptStep(m1: Mem, brk1: int, B1: Blocks, L1: Lists,
                   xs: seq<Extent>, ptrs: seq<int>, sizes: seq<int>, order: seq<int>, p: int, size: int)
    requires Inv(m1, brk1, B1, L1, {}) && Arrived(m1, B1, xs, ptrs, sizes, order, p)
    requires p - HDR in B1 && size + HDR + FTR <= B1[p - HDR].size && size >= 1
    ensures Acceptable(xs, Extent(p, p + size - 1), brk1)
    ensures 0 <= p && p % 8 == 0 && p + size <= brk1 && brk1 % 8 == 0
  {
    hide Tagged, Indexed, Rings, Separated, Filled, Owned;
    AddAcceptable(B1, brk1, xs, ptrs, sizes, order, p, size);
    TiledAt(B1, brk1 - HDR, p - HDR);
  }

  /** The payload has been filled and recorded. */
  lemma RecordStep(m1: Mem, m2: Mem, brk1: int, B1: Blocks, L1: Lists,
                   xs: seq<Extent>, ptrs: seq<int>, sizes: seq<int>, order: seq<int>, i: int, p: int, size: int)
    requires Inv(m1, brk1, B1, L1, {}) && Arrived(m1, B1, xs, ptrs, sizes, order, p)
    requires p - HDR in B1 && B1[p - HDR].used && size + HDR + FTR <= B1[p - HDR].size
    requires 0 <= i < |ptrs| == |sizes| && i !in order && size >= 1
    requires BytesOnly(m1, m2, p, p + size) && FilledAt(m2, p, size, i % 256)
    ensures Inv(m2, brk1, B1, L1, {})
    ensures Books(m2, B1, [Extent(p, p + size - 1)] + xs, ptrs[i := p], sizes[i := size], [i] + order)
  {
    hide Tiled, Tagged, Aligned, Indexed, Rings, Separated, SamePayloads, Filled, Tracked, Owned, OwnsBlock, FilledAt,
         Unmarked;
    var a := p - HDR;
    HeapFacts(m1, brk1, B1, L1, {});
    BlockHeader(m1, brk1, B1, L1, {}, a);
    PayloadWrite(m1, m2, brk1, B1, L1, a);
    var B0 := Unmarked(B1, a);
    OwnedAdds(B1, a, size);
    AddOwned(B0, B1, ptrs, sizes, order, i, p, size);
    AddTracked(xs, ptrs, sizes, order, i, p, size);
    AddFilled(m1, m2, B1, brk1 - HDR, ptrs, sizes, order, i, p, size);
  }

  lemma OwnedAdds(B1: Blocks, a: int, size: int)
    requires a in B1 && B1[a].used && size + HDR + FTR <= B1[a].size
    ensures Adds(Unmarked(B1, a), B1, a + HDR, size)
  {
  }

  /** The k-th id's block was reallocated to payload `p`. */
  lemma MovedStep(m0: Mem, m1: Mem, brk: int, brk1: int, B0: Blocks, B1: Blocks, L: Lists, L1: Lists,
                  xs: seq<Extent>, ptrs: seq<int>, sizes: seq<int>, order: seq<int>, k: nat, p: int, size: int)
    requires Inv(m0, brk, B0, L, {}) && Inv(m1, brk1, B1, L1, {})
    requires Books(m0, B0, xs, ptrs, sizes, order) && k < |order| && size >= 1
    requires 0 <= order[k] < |ptrs|
    requires var a := ptrs[order[k]] - HDR;
             PayloadsKept(m0, m1, Unmarked(B0, a)) && Adds(Unmarked(B0, a), B1, p, size)
    ensures Arrived(m1, B1, Removed(xs, ptrs[order[k]]), ptrs, sizes, Without(order, k), p)
    ensures order[k] !in Without(order, k)
  {
    hide Tiled, Tagged, Aligned, Indexed, Rings, Separated, SamePayloads, Filled, Tracked, Owned, Unmarked, Adds;
    var a := ptrs[order[k]] - HDR;
    HeapFacts(m0, brk, B0, L, {});
    OwnedAt(B0, ptrs, sizes, order, k);
    DropOwned(B0, ptrs, sizes, order, k);
    DropTracked(B0, xs, ptrs, sizes, order, k);
    DropFilled(m0, ptrs, sizes, order, k);
    TiledUnmark(B0, brk - HDR, a);
    FilledKept(m0, m1, Unmarked(B0, a), brk - HDR, ptrs, sizes, Without(order, k));
    AddOwned(Unmarked(B0, a), B1, ptrs, sizes, Without(order, k), order[k], p, size);
  }

  lemma MovedAccept(m0: Mem, m1: Mem, brk: int, brk1: int, B0: Blocks, B1: Blocks, L: Lists, L1: Lists,
                    xs: seq<Extent>, ptrs: seq<int>, sizes: seq<int>, order: seq<int>, k: nat, p: int, size: int)
    requires Inv(m0, brk, B0, L, {}) && Inv(m1, brk1, B1, L1, {})
    requires Books(m0, B0, xs, ptrs, sizes, order) && k < |order| && size >= 1
    requires 0 <= order[k] < |ptrs|
    requires var a := ptrs[order[k]] - HDR;
             PayloadsKept(m0, m1, Unmarked(B0, a)) && Adds(Unmarked(B0, a), B1, p, size)
    ensures var ys := Removed(xs, ptrs[order[k]]);
            && Arrived(m1, B1, ys, ptrs, sizes, Without(order, k), p)
            && Acceptable(ys, Extent(p, p + size - 1), brk1)
    ensures order[k] !in Without(order, k)
    ensures p - HDR in B1 && B1[p - HDR].used && size + HDR + FTR <= B1[p - HDR].size
    ensures 0 <= p && p % 8 == 0 && p + size <= brk1 && brk1 % 8 == 0
  {
    hide HeapOk, BooksOk, SamePayloads, Arrived, Acceptable, Unmarked, Adds, Removed, Without;
    MovedStep(m0, m1, brk, brk1, B0, B1, L, L1, xs, ptrs, sizes, order, k, p, size);
    var a := ptrs[order[k]] - HDR;
    AddsFacts(Unmarked(B0, a), B1, p, size);
    AcceptStep(m1, brk1, B1, L1, Removed(xs, ptrs[order[k]]), ptrs, sizes, Without(order, k), p, size);
  }

  /** Without its old range the last block, which could not be extended, is accepted
      exactly when the request fits between its payload and the break. */
  lemma UngrownAccept(m: Mem, brk: int, B: Blocks, L: Lists, xs: seq<Extent>, ptrs: seq<int>, sizes: seq<int>,
                      order: seq<int>, k: nat, size: int)
    requires Inv(m, brk, B, L, {}) && Books(m, B, xs, ptrs, sizes, order) && k < |order| && size >= 1
    requires 0 <= order[k] < |ptrs| && ptrs[order[k]] - HDR in B && End(B, ptrs[order[k]] - HDR) == brk - HDR
    ensures var p := ptrs[order[k]];
            && (Acceptable(Removed(xs, p), Extent(p, p + size - 1), brk) <==> size <= B[p - HDR].size)
            && 0 <= p && p % 8 == 0 && brk % 8 == 0 && p - HDR + B[p - HDR].size == brk - HDR
  {
    hide Tagged, Indexed, Rings, Separated, Filled, Owned, Tracked, Removed, Without, Unmarked;
    var p, rest := ptrs[order[k]], Without(order, k);
    DropOwned(B, ptrs, sizes, order, k);
    DropTracked(B, xs, ptrs, sizes, order, k);
    TiledAt(B, brk - HDR, p - HDR);
    BelowLast(B, brk - HDR, Removed(xs, p), ptrs, sizes, rest, p);
  }

  /** The ranges of the other blocks end before the payload of the last one. */
  lemma BelowLast(B: Blocks, epi: int, xs: seq<Extent>, ptrs: seq<int>, sizes: seq<int>, rest: seq<int>, p: int)
    requires Tiled(B, epi) && p - HDR in B && End(B, p - HDR) == epi
    requires Owned(Unmarked(B, p - HDR), ptrs, sizes, rest) && Tracked(xs, ptrs, sizes, rest)
    ensures forall e: Extent | p <= e.lo <= e.hi :: Clear(xs, e)
  {
    forall j | 0 <= j < |xs|
      ensures xs[j].hi < p
    {
      OwnedAt(Unmarked(B, p - HDR), ptrs, sizes, rest, j);
      assert ptrs[rest[j]] - HDR != p - HDR;
    }
  }

  lemma TiledUnmark(B: Blocks, epi: int, a: int)
    requires Tiled(B, epi) && Aligned(B, epi) && a in B
    ensures Tiled(Unmarked(B, a), epi) && Aligned(Unmarked(B, a), epi)
  {
    TiledMark(B, epi, a, false);
    AlignedMark(B, epi, a);
  }

  lemma OwnedAt(B: Blocks, ptrs: seq<int>, sizes: seq<int>, order: seq<int>, k: nat)
    requires Owned(B, ptrs, sizes, order) && k < |order|
    ensures OwnsBlock(B, ptrs, sizes, order[k])
  {
  }

  lemma OwnedMore(B: Blocks, B': Blocks, ptrs: seq<int>, sizes: seq<int>, order: seq<int>)
    requires Owned(B, ptrs, sizes, order) && StillUsed(B, B')
    ensures Owned(B', ptrs, sizes, order)
  {
    forall k | 0 <= k < |order|
      ensures OwnsBlock(B', ptrs, sizes, order[k])
    {
      assert OwnsBlock(B, ptrs, sizes, order[k]);
    }
  }

  /** The k-th id's block was freed. */
  lemma LeftStep(m0: Mem, m1: Mem, brk: int, B0: Blocks, B1: Blocks, L: Lists,
                 xs: seq<Extent>, ptrs: seq<int>, sizes: seq<int>, order: seq<int>, k: nat)
    requires Inv(m0, brk, B0, L, {})
    requires Books(m0, B0, xs, ptrs, sizes, order) && k < |order|
    requires 0 <= order[k] < |ptrs|
    requires var a := ptrs[order[k]] - HDR;
             PayloadsKept(m0, m1, Unmarked(B0, a)) && B1 == Freed(B0, a)
    ensures Books(m1, B1, Removed(xs, ptrs[order[k]]), ptrs, sizes, Without(order, k))
    ensures forall x :: x in Without(order, k) <==> x in order && x != order[k]
  {
    hide Tiled, Tagged, Aligned, Indexed, Rings, Separated, SamePayloads, Filled, Tracked, Owned, Unmarked, StillUsed,
         Freed;
    var a := ptrs[order[k]] - HDR;
    HeapFacts(m0, brk, B0, L, {});
    OwnedAt(B0, ptrs, sizes, order, k);
    DropOwned(B0, ptrs, sizes, order, k);
    DropTracked(B0, xs, ptrs, sizes, order, k);
    DropFilled(m0, ptrs, sizes, order, k);
    TiledUnmark(B0, brk - HDR, a);
    FilledKept(m0, m1, Unmarked(B0, a), brk - HDR, ptrs, sizes, Without(order, k));
    FreeKeepsUsed(B0, a);
    OwnedMore(Unmarked(B0, a), B1, ptrs, sizes, Without(order, k));
  }

  /** mm_realloc carried the old data over: what the driver's check reads. */
  lemma CopiedFilled(m0: Mem, m1: Mem, src: int, dst: int, len: int, n: int, v: int)
    requires Copied(m0, m1, src, dst, len) && src % 8 == 0 && dst % 8 == 0 && n <= len && len % 8 == 0
    requires FilledAt(m0, src, n, v)
    ensures FilledAt(m1, dst, n, v)
  {
    forall j | dst <= j < dst + n
      ensures ByteAt(m1, j) == v
    {
      var i := j - dst;
      SameOffset(dst, src, i);
      assert ByteAt(m0, src + i) == v;
      assert m1[dst + (i - i % 8)] == m0[src + (i - i % 8)];
    }
  }

  lemma SameOffset(dst: int, src: int, i: int)
    requires dst % 8 == 0 && src % 8 == 0 && i >= 0
    ensures (dst + i) % 8 == i % 8 && (src + i) % 8 == i % 8 && (i - i % 8) % 8 == 0 && i - i % 8 >= 0
  {
  }

  /** What a live id's record says about its block. */
  lemma OwnedFacts(m: Mem, brk: int, B: Blocks, L: Lists, xs: seq<Extent>, ptrs: seq<int>, sizes: seq<int>,
                   order: seq<int>, k: nat)
    requires Inv(m, brk, B, L, {}) && Books(m, B, xs, ptrs, sizes, order) && k < |order|
    ensures OwnsBlock(B, ptrs, sizes, order[k])
    ensures ptrs[order[k]] % 8 == 0 && B[ptrs[order[k]] - HDR].size % 8 == 0
    ensures FilledAt(m, ptrs[order[k]], sizes[order[k]], order[k] % 256)
  {
    hide Tiled, Tagged, Indexed, Rings, Separated, FilledAt;
    OwnedAt(B, ptrs, sizes, order, k);
  }

  /** mm_realloc carried the data of the k-th id over to `p`. */
  lemma DataKept(m0: Mem, m1: Mem, brk: int, B: Blocks, L: Lists, xs: seq<Extent>, ptrs: seq<int>, sizes: seq<int>,
                 order: seq<int>, k: nat, p: int, size: int)
    requires Inv(m0, brk, B, L, {}) && Books(m0, B, xs, ptrs, sizes, order) && k < |order| && p % 8 == 0
    requires 0 <= order[k] < |ptrs| == |sizes| && ptrs[order[k]] - HDR in B
    requires Copied(m0, m1, ptrs[order[k]], p, B[ptrs[order[k]] - HDR].size - HDR - FTR)
    ensures sizes[order[k]] >= 1
    ensures FilledAt(m1, p, Min(size, sizes[order[k]]), order[k] % 256)
  {
    hide HeapOk, BooksOk, Copied, FilledAt;
    OwnedFacts(m0, brk, B, L, xs, ptrs, sizes, order, k);
    var i := order[k];
    FilledLess(m0, ptrs[i], sizes[i], Min(size, sizes[i]), i % 256);
    CopiedFilled(m0, m1, ptrs[i], p, B[ptrs[i] - HDR].size - HDR - FTR, Min(size, sizes[i]), i % 256);
  }

  // -------------------------------------------------------------- the driver

  /** The allocator works on the memory, and the two arrays of the trace are apart. */
  ghost predicate Separate(mem: Memory, mm: Allocator, blocks: array<int>, blockSizes: array<int>) {
    && mm.mem == mem && blocks.Length == blockSizes.Length && blocks != blockSizes
    && mem.cells as object != blocks && mem.cells as object != blockSizes
  }

  /** Heap and pointers are those of an abstract replay. */
  ghost predicate InStep(r: Replay, live: set<int>, mm: Allocator, blocks: array<int>)
    reads mm, mm.mem, blocks
  {
    r.verdict == Accepted && mm.State() == r.view && r.ptrs.Keys == live && SamePtrs(blocks[..], r.ptrs)
  }

  class Harness {
    const mem: Memory
    const mm: Allocator
    const ranges: RangeList
    /** The range records that were freed. */
    const bin: Released<Extent>
    /** trace->blocks and trace->block_sizes */
    const blocks: array<int>
    const blockSizes: array<int>
    /** The live ids in the order of the range list. */
    ghost var order: seq<int>

    ghost predicate Wired()
      reads this
    {
      Separate(mem, mm, blocks, blockSizes)
    }

    ghost predicate Ready(live: set<int>, demand: int)
      reads this, mm, mem, mem.cells, ranges, ranges.nodes, blocks, blockSizes
    {
      && Wired() && mm.Valid() && ranges.Valid()
      && Books(mem.cells[..], mm.blocks, ranges.Contents(), blocks[..], blockSizes[..], order)
      && (forall i :: i in order <==> i in live)
      && mem.brk <= FIRST + HDR + demand
    }

    /** The heap and the pointers are those of an abstract replay. */
    ghost predicate Follows(r: Replay, live: set<int>)
      reads this, mm, mem, blocks
    {
      Wired() && InStep(r, live, mm, blocks)
    }

    constructor (memory: Memory, allocator: Allocator, rangeList: RangeList, freed: Released<Extent>, numIds: nat)
      requires allocator.mem == memory
      ensures Wired() && mem == memory && mm == allocator && ranges == rangeList && bin == freed &&
              blocks.Length == numIds
    {
      mem, mm, ranges, bin := memory, allocator, rangeList, freed;
      blocks := new int[numIds];
      blockSizes := new int[numIds];
    }

    /** case ALLOC of eval_mm_valid */
    method ReplayAlloc(index: int, size: int, ghost live: set<int>, ghost demand: int) returns (v: Verdict)
      requires Ready(live, demand) && OpOk(Alloc(index, size), live, blocks.Length)
      modifies this`order, mm, mem`brk, mem.cells, ranges, blocks, blockSizes
      ensures v == Accepted || v == Crashed
      ensures v == Accepted ==> Ready(live + {index}, demand + Cost(Alloc(index, size)))
      ensures var (view, r) := MallocView(old(mm.State()), size);
              && mm.State() == view && (v == Accepted <==> r.Ptr?)
              && (r.Ptr? ==> blocks[..] == old(blocks[..])[index := r.addr])
      ensures v == Crashed ==> FIRST + HDR + demand + Cost(Alloc(index, size)) > MAX_HEAP
      ensures forall n | n in ranges.nodes :: n in old(ranges.nodes) || fresh(n)
    {
      hide Arriving, Fillable, BooksOk, Acceptable, MallocView, LinkedList.Valid, LinkedList.Contents;
      ghost var xs := ranges.Contents();
      var p := Allocate(index, size, live, demand);
      if p == Fault {
        return Crashed;
      }
      var ok := AddRange(ranges, p.addr, size, mem.HeapSize());
      if !ok {
        assert false; // no false alarm
      }
      Fill(p.addr, size, index, xs, order, true);
      return Accepted;
    }

    /** The bytes of the payload `p` lie in the heap. */
    ghost predicate Fillable(p: int, size: int)
      reads this, mem
    {
      && Wired() && mem.Valid() && mem.brk % 8 == 0
      && 0 <= p && p % 8 == 0 && size >= 1 && p + size <= mem.brk
    }

    /** A new payload `p` in a valid heap, next to the ids of `rest` with the ranges `xs`. */
    ghost predicate Arriving(p: int, size: int, xs: seq<Extent>, rest: seq<int>)
      reads this, mm, mem, mem.cells, blocks, blockSizes
    {
      && Fillable(p, size) && mm.Valid()
      && Arrived(mem.cells[..], mm.blocks, xs, blocks[..], blockSizes[..], rest, p)
      && p - HDR in mm.blocks && mm.blocks[p - HDR].used && size + HDR + FTR <= mm.blocks[p - HDR].size
    }

    /** The call of mm_malloc: the payload is acceptable as it stands. */
    method Allocate(index: int, size: int, ghost live: set<int>, ghost demand: int) returns (p: Outcome)
      requires Ready(live, demand) && OpOk(Alloc(index, size), live, blocks.Length)
      modifies mm, mem`brk, mem.cells
      ensures (mm.State(), p) == MallocView(old(mm.State()), size) && (p.Ptr? || p == Fault)
      ensures p == Fault ==> FIRST + HDR + demand + Cost(Alloc(index, size)) > MAX_HEAP
      ensures p.Ptr? ==> mem.brk <= FIRST + HDR + demand + Cost(Alloc(index, size))
      ensures p.Ptr? ==> Arriving(p.addr, size, ranges.Contents(), order) && Fillable(p.addr, size)
      ensures p.Ptr? ==> Acceptable(ranges.Contents(), Extent(p.addr, p.addr + size - 1), mem.brk)
    {
      hide HeapOk, SamePayloads, Adds, BooksOk, Acceptable, Arrived, MallocView, LinkedList.Valid, LinkedList.Contents;
      ghost var m0, brk0, B0, L0, xs := mem.cells[..], mem.brk, mm.blocks, mm.lists, ranges.Contents();
      MallocAdds(m0, mm.State(), size);
      p := mm.Malloc(size);
      if p.Ptr? {
        ArriveStep(m0, mem.cells[..], brk0, mem.brk, B0, mm.blocks, L0, mm.lists, xs, blocks[..], blockSizes[..], order,
                   index, p.addr, size);
        AddsFacts(B0, mm.blocks, p.addr, size);
        AcceptStep(mem.cells[..], mem.brk, mm.blocks, mm.lists, xs, blocks[..], blockSizes[..], order, p.addr, size);
      }
    }

    /** memset and the record of the new payload; the heap is valid if it is `sound`. */
    method Fill(p: int, size: int, index: int, ghost xs: seq<Extent>, ghost rest: seq<int>, ghost sound: bool)
      requires Fillable(p, size) && 0 <= index < blocks.Length && index !in rest
      requires sound ==> Arriving(p, size, xs, rest)
      modifies this`order, mem.cells, blocks, blockSizes
      ensures order == [index] + rest && blocks[..] == old(blocks[..])[index := p]
      ensures blockSizes[..] == old(blockSizes[..])[index := size]
      ensures FilledAt(mem.cells[..], p, size, index % 256)
      ensures sound ==> mm.Valid()
      ensures sound ==>
                Books(mem.cells[..], mm.blocks, [Extent(p, p + size - 1)] + xs, blocks[..], blockSizes[..], order)
    {
      hide HeapOk, SamePayloads, BooksOk, Arrived, BytesOnly, FilledAt;
      ghost var m1, ptrs, sizes := mem.cells[..], blocks[..], blockSizes[..];
      mem.Memset(p, index % 256, size);
      FilledFrom(mem.cells[..], p, size, index % 256);
      if sound {
        RecordStep(m1, mem.cells[..], mem.brk, mm.blocks, mm.lists, xs, ptrs, sizes, rest, index, p, size);
      }
      blocks[index] := p;
      blockSizes[index] := size;
      order := [index] + rest;
    }

    /** case REALLOC of eval_mm_valid.  The range list decides first on a block that could
        not be extended; if it accepts, only the data check is left. */
    method ReplayRealloc(index: int, size: int, ghost live: set<int>, ghost demand: int) returns (v: Verdict)
      requires Ready(live, demand) && OpOk(Realloc(index, size), live, blocks.Length)
      modifies this`order, mm, mem`brk, mem.cells, ranges, ranges.nodes, bin, blocks, blockSizes
      ensures v == Accepted ==> Ready(live, demand + Cost(Realloc(index, size))) && !FalseAlarm(Realloc(index, size))
      ensures var (view, r) := ReallocView(old(mm.State()), Some(old(blocks[index])), size);
              && mm.State() == view
              && v == ReallocVerdict(r, index, size, old(SizeAt(mm.blocks, blocks[index] - HDR)), true)
              && (v == Accepted ==> blocks[..] == old(blocks[..])[index := r.addr])
      ensures v == Damaged ==>
                blocks[..] == old(blocks[..]) && blockSizes[..] == old(blockSizes[..])[index := size] &&
                FilledAt(mem.cells[..], blocks[index], size, index % 256)
      ensures v == Accepted || v == Smashed || FalseAlarm(Realloc(index, size)) ||
              FIRST + HDR + demand + Cost(Realloc(index, size)) > MAX_HEAP
      ensures forall n | n in ranges.nodes :: n in old(ranges.nodes) || fresh(n)
    {
      hide HeapOk, Arriving, Fillable, BooksOk, Acceptable, ReallocView, FilledAt, LinkedList.Valid,
           LinkedList.Contents, Removed, Without, Cost;
      ghost var k :| 0 <= k < |order| && order[k] == index;
      ghost var xs := Removed(ranges.Contents(), blocks[index]);
      var oldp := blocks[index];
      var newp := Reallocate(index, size, live, demand, k);
      if newp == Fault {
        return Crashed;
      }
      if newp == Astray {
        return Escaped;
      }
      if newp.Overrun? {
        return Smashed;
      }
      var ok := Relist(oldp, newp.addr, size);
      if !ok {
        return Rejected;
      }
      v := Refill(newp.addr, size, index, xs, Without(order, k), newp.Ptr?);
      if v == Accepted && newp.Ungrown? {
        return Damaged;
      }
    }

    /** The call of mm_realloc.  Without the old payload the new one is acceptable, unless
        its block has failed to grow and is smaller than the request; it holds the old
        data in any case. */
    method Reallocate(index: int, size: int, ghost live: set<int>, ghost demand: int, ghost k: nat)
      returns (newp: Outcome)
      requires Ready(live, demand) && OpOk(Realloc(index, size), live, blocks.Length)
      requires k < |order| && order[k] == index
      modifies mm, mem`brk, mem.cells
      ensures (mm.State(), newp) == ReallocView(old(mm.State()), Some(blocks[index]), size) && newp != Null
      ensures newp == Fault || newp.Ungrown? || newp == Astray ==>
                FIRST + HDR + demand + Cost(Realloc(index, size)) > MAX_HEAP
      ensures newp.Ptr? ==> mem.brk <= FIRST + HDR + demand + Cost(Realloc(index, size))
      ensures newp.Ptr? ==> Arriving(newp.addr, size, Removed(ranges.Contents(), blocks[index]), Without(order, k))
      ensures newp.Ptr? || newp.Ungrown? ==>
                (Acceptable(Removed(ranges.Contents(), blocks[index]), Extent(newp.addr, newp.addr + size - 1),
                            mem.brk) <==>
                 newp.Ptr? || size <= old(SizeAt(mm.blocks, blocks[index] - HDR)))
      ensures newp.Ungrown? ==> newp.addr == blocks[index]
      ensures newp.Ptr? || (newp.Ungrown? && size <= old(SizeAt(mm.blocks, blocks[index] - HDR))) ==>
                Fillable(newp.addr, size)
      ensures newp.Ptr? || newp.Ungrown? ==> blockSizes[index] >= 1
      ensures newp.Ptr? || newp.Ungrown? ==>
                FilledAt(mem.cells[..], newp.addr, Min(size, blockSizes[index]), index % 256)
      ensures index !in Without(order, k) && forall x :: x in [index] + Without(order, k) <==> x in order
    {
      hide HeapOk, SamePayloads, Adds, BooksOk, Acceptable, Arrived, ReallocView, FilledAt, Copied, Unmarked,
           LinkedList.Valid, LinkedList.Contents, Removed;
      ghost var m0, brk0, B0, L0, xs := mem.cells[..], mem.brk, mm.blocks, mm.lists, ranges.Contents();
      ghost var ptrs, sizes := blocks[..], blockSizes[..];
      OwnedFacts(m0, brk0, B0, L0, xs, ptrs, sizes, order, k);
      OnceInOrder(B0, m0, xs, ptrs, sizes, order, k);
      var oldp := blocks[index];
      ReallocAdds(m0, mm.State(), oldp - HDR, size);
      newp := mm.Realloc(Some(oldp), size);
      if newp.Ptr? {
        MovedAccept(m0, mem.cells[..], brk0, mem.brk, B0, mm.blocks, L0, mm.lists, xs, ptrs, sizes, order, k,
            newp.addr, size);
      } else if newp.Ungrown? {
        UngrownAccept(m0, brk0, B0, L0, xs, ptrs, sizes, order, k, size);
      }
      if newp.Ptr? || newp.Ungrown? {
        DataKept(m0, mem.cells[..], brk0, B0, L0, xs, ptrs, sizes, order, k, newp.addr, size);
      }
    }

    /** The old range is removed and the new one added, if it is acceptable. */
    method Relist(oldp: int, newp: int, size: int) returns (ok: bool)
      requires ranges.Valid() && size > 0
      modifies ranges, ranges.nodes, bin
      ensures ranges.Valid()
      ensures ok <==> Acceptable(Removed(old(ranges.Contents()), oldp), Extent(newp, newp + size - 1), mem.brk)
      ensures ok ==> ranges.Contents() == [Extent(newp, newp + size - 1)] + Removed(old(ranges.Contents()), oldp)
      ensures forall n | n in ranges.nodes :: n in old(ranges.nodes) || fresh(n)
    {
      hide LinkedList.Valid, LinkedList.Contents, Removed, Acceptable;
      RemoveRange(ranges, bin, oldp);
      ok := AddRange(ranges, newp, size, mem.HeapSize());
    }

    /** The end of case REALLOC: the data check, the fill and the record. */
    method Refill(newp: int, size: int, index: int, ghost xs: seq<Extent>, ghost rest: seq<int>, ghost sound: bool)
      returns (v: Verdict)
      requires Fillable(newp, size) && 0 <= index < blocks.Length && index !in rest && blockSizes[index] >= 1
      requires FilledAt(mem.cells[..], newp, Min(size, blockSizes[index]), index % 256)
      requires sound ==> Arriving(newp, size, xs, rest)
      modifies this`order, mem.cells, blocks, blockSizes
      ensures v == if index % 256 >= 128 then Rejected else Accepted
      ensures v == Accepted ==>
                && order == [index] + rest && blocks[..] == old(blocks[..])[index := newp]
                && blockSizes[..] == old(blockSizes[..])[index := size]
                && FilledAt(mem.cells[..], newp, size, index % 256)
      ensures v == Accepted && sound ==> mm.Valid()
      ensures v == Accepted && sound ==>
                Books(mem.cells[..], mm.blocks, [Extent(newp, newp + size - 1)] + xs, blocks[..], blockSizes[..], order)
    {
      hide HeapOk, BooksOk, Arrived, FilledAt;
      var oldsize := blockSizes[index];
      if size < oldsize {
        oldsize := size;
      }
      IntactBytes(mem.cells[..], newp, oldsize, index % 256);
      var good := CheckBytes(newp, oldsize, index);
      if !good {
        return Rejected;
      }
      Fill(newp, size, index, xs, rest, sound);
      return Accepted;
    }

    /** The loop that compares the bytes, as signed characters, with the low byte of the
        id. */
    method CheckBytes(p: int, n: int, index: int) returns (good: bool)
      requires Fillable(p, n)
      ensures good <==> forall j | p <= j < p + n :: SignedChar(ByteAt(mem.cells[..], j)) == index % 256
    {
      var j := 0;
      while j < n
        invariant 0 <= j <= n
        invariant forall k | p <= k < p + j :: SignedChar(ByteAt(mem.cells[..], k)) == index % 256
      {
        WordStart(p, mem.brk - p, p + j);
        assert mem.LoadByte(p + j) == ByteAt(mem.cells[..], p + j);
        if SignedChar(mem.LoadByte(p + j)) != index % 256 {
          return false;
        }
        j := j + 1;
      }
      return true;
    }

    /** case FREE of eval_mm_valid */
    method ReplayFree(index: int, ghost live: set<int>, ghost demand: int)
      requires Ready(live, demand) && OpOk(Op.Free(index), live, blocks.Length)
      modifies this`order, mm, mem.cells, ranges, ranges.nodes, bin
      ensures Ready(live - {index}, demand)
      ensures mm.State() == FreeView(old(mm.State()), blocks[index] - HDR)
      ensures forall n | n in ranges.nodes :: n in old(ranges.nodes) || fresh(n)
    {
      hide HeapOk, SamePayloads, BooksOk, FreedLists, Freed, Unmarked, FilledAt, LinkedList.Valid,
           LinkedList.Contents, Removed;
      ghost var m0, brk0, B0, L0, xs := mem.cells[..], mem.brk, mm.blocks, mm.lists, ranges.Contents();
      ghost var ptrs, sizes := blocks[..], blockSizes[..];
      ghost var k :| 0 <= k < |order| && order[k] == index;
      OwnedFacts(m0, brk0, B0, L0, xs, ptrs, sizes, order, k);
      var p := blocks[index];
      RemoveRange(ranges, bin, p);
      mm.Free(Some(p));
      LeftStep(m0, mem.cells[..], brk0, B0, mm.blocks, L0, xs, ptrs, sizes, order, k);
      order := Without(order, k);
    }

    /** The switch of eval_mm_valid. */
    method ReplayOp(op: Op, ghost live: set<int>, ghost demand: int, ghost r: Replay) returns (v: Verdict)
      requires Ready(live, demand) && OpOk(op, live, blocks.Length) && Follows(r, live)
      modifies this`order, mm, mem`brk, mem.cells, ranges, ranges.nodes, bin, blocks, blockSizes
      ensures v == ReplayStep(r, op, true).verdict && mm.State() == ReplayStep(r, op, true).view
      ensures v == Accepted ==> Follows(ReplayStep(r, op, true), LiveStep(live, op))
      ensures v == Accepted ==> Ready(LiveStep(live, op), demand + Cost(op)) && !FalseAlarm(op)
      ensures v == Accepted || v == Smashed || FalseAlarm(op) || FIRST + HDR + demand + Cost(op) > MAX_HEAP
      ensures v != Accepted && v != Crashed ==> op.Realloc?
      ensures forall n | n in ranges.nodes :: n in old(ranges.nodes) || fresh(n)
    {
      hide HeapOk, BooksOk, LinkedList.Valid, LinkedList.Contents, RequestSize, Ready, MallocView, ReallocView,
           FreeView, SamePtrs;
      ReplayStepIs(r, op, live, blocks[..], true);
      match op {
        case Alloc(index, size) => v := ReplayAlloc(index, size, live, demand);
        case Realloc(index, size) => v := ReplayRealloc(index, size, live, demand);
        case Free(index) => ReplayFree(index, live, demand); v := Accepted;
      }
    }

    /** eval_mm_valid.  On a well-formed trace it complains about two things only: a realloc
        of an id whose low byte is 128 or more, and one of a last block that could not be
        extended.  `answer` is its return value, where the verdict tells: the value is
        left open when the run has crashed or left the memory area, and when requests
        follow on a damaged or smashed heap. */
    method EvalMmValid(ops: seq<Op>) returns (v: Verdict, answer: Option<int>)
      requires Wired() && mem.Valid() && ranges.Valid() && WellFormed(ops, blocks.Length)
      modifies this`order, mm, mem`brk, mem.cells, ranges, ranges.nodes, bin, blocks, blockSizes
      ensures v == Replayed(ops, true).verdict && answer == Answer(ops)
      ensures v == Accepted ==> mm.State() == Replayed(ops, true).view
      ensures v == Accepted ==> Ready(Live(ops), Demand(ops)) && forall op | op in ops :: !FalseAlarm(op)
      ensures v == Accepted || v == Smashed || (exists op :: op in ops && FalseAlarm(op)) ||
              FIRST + HDR + Demand(ops) > MAX_HEAP
      ensures v != Accepted && v != Crashed ==> exists op :: op in ops && op.Realloc?
    {
      hide HeapOk, BooksOk, LinkedList.Valid, LinkedList.Contents, Cost, FalseAlarm, Live, Demand, WellFormed, OpOk,
           LiveStep, Replayed, ReplayStep, SamePtrs, Ready, Follows, ReadyAt;
      mem.ResetBrk();
      ClearRanges(ranges, bin);
      var init := mm.Init();
      order := [];
      ReadyAtStart(ops);
      var i := 0;
      while i < |ops|
        invariant 0 <= i <= |ops| && ReadyAt(ops, i)
        invariant fresh(ranges.nodes)
        invariant forall op | op in ops[..i] :: !FalseAlarm(op)
      {
        v := ReplayNext(ops, i);
        forall k | 0 <= k < |ranges.nodes|
          ensures fresh(ranges.nodes[k])
        {
          assert ranges.nodes[k] in ranges.nodes;
        }
        if v != Accepted {
          FailedAt(ops, i, true);
          return v, if v == Rejected then Some(0) else if v == Damaged && i + 1 == |ops| then Some(1) else None;
        }
        i := i + 1;
      }
      ReadyAtEnd(ops);
      return Accepted, Some(1);
    }

    lemma ReadyAtStart(ops: seq<Op>)
      requires Wired() && mm.Valid() && ranges.Valid() && ranges.Contents() == [] && order == []
      requires mm.State() == NEW_HEAP
      ensures ReadyAt(ops, 0)
    {
      hide HeapOk, BooksOk, LinkedList.Valid, LinkedList.Contents, Demand, Live, Replayed, SamePtrs;
      assert ops[..0] == [];
      NoRequests();
      NoPtrs(blocks[..], true);
      NoBooks(mem.cells[..], blocks[..], blockSizes[..]);
    }

    lemma ReadyAtEnd(ops: seq<Op>)
      requires ReadyAt(ops, |ops|)
      ensures Ready(Live(ops), Demand(ops)) && Replayed(ops, true).verdict == Accepted &&
              mm.State() == Replayed(ops, true).view
    {
      hide Ready, Live, Demand, Replayed;
      assert ops[..|ops|] == ops;
    }

    /** The driver and the abstract replay after the first `i` requests. */
    ghost predicate ReadyAt(ops: seq<Op>, i: nat)
      reads this, mm, mem, mem.cells, ranges, ranges.nodes, blocks, blockSizes
    {
      i <= |ops| && Ready(Live(ops[..i]), Demand(ops[..i])) && Follows(Replayed(ops[..i], true), Live(ops[..i]))
    }

    /** One turn of the loop of eval_mm_valid. */
    method ReplayNext(ops: seq<Op>, i: nat) returns (v: Verdict)
      requires i < |ops| && WellFormed(ops, blocks.Length) && ReadyAt(ops, i)
      modifies this`order, mm, mem`brk, mem.cells, ranges, ranges.nodes, bin, blocks, blockSizes
      ensures v == Replayed(ops[..i + 1], true).verdict && Replayed(ops[..i], true).verdict == Accepted
      ensures v == Accepted ==> ReadyAt(ops, i + 1) && !FalseAlarm(ops[i])
      ensures v == Accepted || v == Smashed || FalseAlarm(ops[i]) || FIRST + HDR + Demand(ops) > MAX_HEAP
      ensures v != Accepted && v != Crashed ==> ops[i].Realloc?
      ensures forall n | n in ranges.nodes :: n in old(ranges.nodes) || fresh(n)
    {
      hide Ready, LinkedList.Valid, LinkedList.Contents, Cost, FalseAlarm, Live, Demand, WellFormed, OpOk,
           LiveStep, Replayed, ReplayStep, SamePtrs;
      RequestAt(ops, i, blocks.Length);
      v := ReplayOp(ops[i], Live(ops[..i]), Demand(ops[..i]), Replayed(ops[..i], true));
    }

    /** On a trace of allocations and frees the driver's verdict is 1 exactly when no
        allocation exhausts the heap, as none does when the requests together fit. */
    method EvalAllocFree(ops: seq<Op>) returns (v: Verdict)
      requires Wired() && mem.Valid() && ranges.Valid() && WellFormed(ops, blocks.Length)
      requires forall op | op in ops :: !op.Realloc?
      modifies this`order, mm, mem`brk, mem.cells, ranges, ranges.nodes, bin, blocks, blockSizes
      ensures v == Accepted || v == Crashed
      ensures v == Accepted <==> forall i | 0 <= i < |ops| :: !Exhausts(ops, i)
      ensures FIRST + HDR + Demand(ops) <= MAX_HEAP ==> v == Accepted
      ensures v == Accepted ==> Ready(Live(ops), Demand(ops)) && mm.State() == Replayed(ops, true).view
    {
      hide Ready, LinkedList.Valid, Replayed, Exhausts;
      AllocFreeVerdict(ops, |ops|, blocks.Length);
      assert ops[..|ops|] == ops;
      var answer;
      v, answer := EvalMmValid(ops);
    }
  }

  lemma NoRequests()
    ensures Live([]) == {} && Demand([]) == 0
  {
  }

  lemma RequestAt(ops: seq<Op>, i: nat, numIds: int)
    requires i < |ops| && WellFormed(ops, numIds)
    ensures OpOk(ops[i], Live(ops[..i]), numIds)
    ensures Live(ops[..i + 1]) == LiveStep(Live(ops[..i]), ops[i])
    ensures Replayed(ops[..i + 1], true) == ReplayStep(Replayed(ops[..i], true), ops[i], true)
    ensures Demand(ops[..i + 1]) == Demand(ops[..i]) + Cost(ops[i]) <= Demand(ops)
  {
    assert ops[..i + 1][..i] == ops[..i];
    DemandGrows(ops, i + 1, numIds);
  }

  lemma NoBooks(m: Mem, ptrs: seq<int>, sizes: seq<int>)
    requires |ptrs| == |sizes|
    ensures Books(m, map[], [], ptrs, sizes, [])
  {
  }

  /** The k-th id occurs once in the order. */
  lemma OnceInOrder(B: Blocks, m: Mem, xs: seq<Extent>, ptrs: seq<int>, sizes: seq<int>, order: seq<int>, k: nat)
    requires Books(m, B, xs, ptrs, sizes, order) && k < |order|
    ensures order[k] !in Without(order, k) && forall x :: x in [order[k]] + Without(order, k) <==> x in order
  {
    hide Tracked, Filled;
    WithoutMembers(order, k);
  }

  /** On intact data the check passes exactly when the byte is below 128. */
  lemma IntactBytes(m: Mem, p: int, n: int, v: int)
    requires FilledAt(m, p, n, v) && n >= 1 && 0 <= v < 256
    ensures (forall j | p <= j < p + n :: SignedChar(ByteAt(m, j)) == v) <==> v < 128
  {
    assert ByteAt(m, p) == v;
  }

  lemma FilledLess(m: Mem, p: int, n: int, n': int, v: int)
    requires FilledAt(m, p, n, v) && n' <= n
    ensures FilledAt(m, p, n', v)
  {
  }

  lemma AddsFacts(B0: Blocks, B1: Blocks, p: int, size: int)
    requires Adds(B0, B1, p, size)
    ensures p - HDR in B1 && B1[p - HDR].used && size + HDR + FTR <= B1[p - HDR].size
  {
  }

  lemma FilledFrom(m: Mem, p: int, n: int, v: int)
    requires forall j | p <= j < p + n :: ByteAt(m, j) == v
    ensures FilledAt(m, p, n, v)
  {
  }
}
