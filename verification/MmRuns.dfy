/** Requests on the abstract heap of mps/05/mm.c: they keep it sound, and the blocks
    allocated in it are those that the requests account for. */
module MmRuns {
  import opened Wrappers
  import opened Memlib
  import opened FreeLists
  import opened MmLayout
  import opened MmSteps
  import opened MmSpec
  import opened Traces

  ghost predicate SoundOk(v: View) {
    && Tiled(v.blocks, v.brk - HDR) && Aligned(v.blocks, v.brk - HDR)
    && Indexed(v.blocks, v.lists, {}) && Separated(v.blocks, {})
  }

  /** The heap invariant without the memory that holds the heap. */
  ghost predicate Sound(v: View) {
    SoundOk(v) == true
  }

  /** The allocated blocks with their sizes. */
  function InUse(B: Blocks): map<int, int> {
    map a | a in B && B[a].used :: B[a].size
  }

  lemma InvIsSound(m: Mem, v: View)
    requires Inv(m, v.brk, v.blocks, v.lists, {})
    ensures Sound(v)
  {
  }

  // -------------------------------------------------------------- soundness

  /** Taking a listed block off the lists. */
  lemma DelistIndexed(B: Blocks, L: Lists, loose: set<int>, a: int)
    requires Indexed(B, L, loose) && Listed(L, a)
    ensures Indexed(B, Delist(L, a), loose + {a}) && Unlisted(Delist(L, a), a)
  {
    hide Indexed, Without;
    IndexedEntries(B, L, loose);
    var l, k :| 0 <= l < |L| && 0 <= k < |L[l]| && L[l][k] == a;
    DelistAt(B, L, loose, l, k);
    IndexedUnlink(B, L, loose, l, k);
  }

  lemma SplitSound(B: Blocks, epi: int, L: Lists, a: int, n: int)
    requires Tiled(B, epi) && Aligned(B, epi) && Indexed(B, L, {}) && Separated(B, {})
    requires a in B && !B[a].used && MIN_BLOCK <= n && n % 8 == 0 && B[a].size - n > SPLIT_MIN
    ensures var B' := SplitBlocks(B, a, n);
            && Tiled(B', epi) && Aligned(B', epi) && Separated(B', {a})
            && Indexed(B', Enlist(L, a + n, B[a].size - n), {a})
            && a in B' && !B'[a].used && Listed(Enlist(L, a + n, B[a].size - n), a)
  {
    hide Tiled, Aligned, Indexed, Separated;
    TiledSplit(B, epi, a, n);
    AlignedSplit(B, epi, a, n);
    SplitLeavesNeighbours(B, epi, a, n);
    IndexedSplit(B, L, {}, a, n);
    IndexedEntries(B, L, {});
    FreeIsListed(B, L, {}, a);
    ListedEnlist(L, a, a + n, B[a].size - n);
    assert {} + {a, a + n} == {a, a + n} && {a, a + n} - {a + n} == {a};
    IndexedLink(SplitBlocks(B, a, n), L, {a, a + n}, a + n);
  }

  /** Marking the listed free block `a` and taking it off its list. */
  lemma TakeSound(B: Blocks, epi: int, L: Lists, loose: set<int>, a: int)
    requires Tiled(B, epi) && Aligned(B, epi) && Indexed(B, L, loose) && Separated(B, loose) && loose <= {a}
    requires a in B && !B[a].used && Listed(L, a)
    ensures var B' := B[a := Block(B[a].size, true)];
            Tiled(B', epi) && Aligned(B', epi) && Indexed(B', Delist(L, a), {}) && Separated(B', {})
  {
    hide Tiled, Indexed, Separated, Listed, Unlisted, Delist;
    var B' := B[a := Block(B[a].size, true)];
    TiledMark(B, epi, a, true);
    IndexedMark(B, L, loose, a, true);
    assert loose + {a} == {a} && {a} + {a} == {a} && {a} - {a} == {};
    DelistIndexed(B', L, {a}, a);
    TakenIndexed(B', Delist(L, a), a);
    MarkedSeparated(B, loose, a);
  }

  lemma TakenIndexed(B: Blocks, L: Lists, a: int)
    requires Indexed(B, L, {a}) && a in B && B[a].used && Unlisted(L, a)
    ensures Indexed(B, L, {})
  {
    IndexedChange(B, B, L, {a}, {});
  }

  lemma MarkedSeparated(B: Blocks, loose: set<int>, a: int)
    requires Separated(B, loose) && loose <= {a} && a in B
    ensures Separated(B[a := Block(B[a].size, true)], {})
  {
    var B' := B[a := Block(B[a].size, true)];
    assert forall x {:trigger End(B', x)} | x in B :: End(B', x) == End(B, x);
  }

  lemma CarveSound(v: View, a: int, n: int)
    requires Sound(v) && a in v.blocks && !v.blocks[a].used && MIN_BLOCK <= n <= v.blocks[a].size && n % 8 == 0
    ensures Sound(View(v.brk, Carve(v.blocks, a, n), CarveLists(v.blocks, v.lists, a, n)))
  {
    hide Tiled, Aligned, Indexed, Separated, Listed, SplitBlocks, Delist, Enlist;
    var B, L, epi := v.blocks, v.lists, v.brk - HDR;
    FreeIsListed(B, L, {}, a);
    if B[a].size - n > SPLIT_MIN {
      SplitSound(B, epi, L, a, n);
      TakeSound(SplitBlocks(B, a, n), epi, Enlist(L, a + n, B[a].size - n), {a}, a);
    } else {
      TakeSound(B, epi, L, {}, a);
    }
  }

  lemma GrowSound(v: View, n: int)
    requires Sound(v) && MIN_BLOCK <= n && n % 8 == 0
    ensures Sound(View(v.brk + n, v.blocks[v.brk - HDR := Block(n, true)], v.lists)) && v.brk - HDR !in v.blocks
  {
    hide Tiled, Aligned, Indexed, Separated;
    TiledGrow(v.blocks, v.brk - HDR, n, true);
    AlignedGrow(v.blocks, v.brk - HDR, n);
    IndexedGrow(v.blocks, v.lists, {}, v.brk - HDR, n);
    GrowSeparated(v.blocks, v.brk - HDR, {}, n);
  }

  /** mm_malloc keeps the heap sound. */
  lemma MallocSound(v: View, size: int)
    requires Sound(v) && 0 <= size <= MAX_REQUEST
    ensures Sound(MallocView(v, size).0)
  {
    hide SoundOk, RequestSize, FirstFit, Carve, CarveLists;
    if size > 0 {
      var n := RequestSize(size);
      RequestRange(size);
      SoundIndexed(v);
      FirstFitComplete(v.blocks, v.lists, n);
      var fit := FirstFit(v.blocks, v.lists, MapToList(n), n);
      if fit.Some? {
        CarveSound(v, fit.value, n);
      } else if v.brk + n + HDR <= MAX_HEAP {
        Multiple(n, HDR);
        GrowSound(v, n + HDR);
      }
    }
  }

  lemma Multiple(x: int, y: int)
    requires x % 8 == 0 && y % 8 == 0
    ensures (x + y) % 8 == 0
  {
  }

  lemma SoundIndexed(v: View)
    requires Sound(v)
    ensures Tiled(v.blocks, v.brk - HDR) && Indexed(v.blocks, v.lists, {})
  {
  }

  /** Joining the loose free block `p` with its free successor, which leaves its list. */
  lemma JoinSound(B: Blocks, epi: int, L: Lists, p: int)
    requires Tiled(B, epi) && Aligned(B, epi) && Indexed(B, L, {p}) && p in B && End(B, p) in B
    requires Listed(L, End(B, p)) && Unlisted(L, p)
    ensures var B', L' := MergeBlocks(B, p), Delist(L, End(B, p));
            Tiled(B', epi) && Aligned(B', epi) && Indexed(B', L', {p}) && Unlisted(L', p)
  {
    hide Aligned, Indexed, Listed, Unlisted, Delist;
    var q := End(B, p);
    TiledMerge(B, epi, p);
    AlignedMerge(B, epi, p);
    assert q != p by { TiledAt(B, epi, p); }
    DelistIndexed(B, L, {p}, q);
    UnlistedDelist(L, q, p);
    assert {p} + {q} - {q} == {p};
    IndexedMerge(B, Delist(L, q), {p} + {q}, p);
  }

  /** The same when the successor `a` is the loose block. */
  lemma JoinBeforeSound(B: Blocks, epi: int, L: Lists, p: int, a: int)
    requires Tiled(B, epi) && Aligned(B, epi) && Indexed(B, L, {a}) && p in B && End(B, p) == a && a in B
    requires Listed(L, p) && Unlisted(L, a)
    ensures var B', L' := MergeBlocks(B, p), Delist(L, p);
            Tiled(B', epi) && Aligned(B', epi) && Indexed(B', L', {p}) && Unlisted(L', p)
  {
    hide Aligned, Indexed, Listed, Unlisted, Delist;
    TiledMerge(B, epi, p);
    AlignedMerge(B, epi, p);
    assert a != p by { TiledAt(B, epi, p); }
    DelistIndexed(B, L, {a}, p);
    UnlistedDelist(L, p, a);
    assert {a} + {p} - {a} == {p};
    IndexedMerge(B, Delist(L, p), {a} + {p}, p);
  }

  /** coalease on the loose free block `a`. */
  lemma CoalescedSound(B: Blocks, epi: int, L: Lists, a: int)
    requires Tiled(B, epi) && Aligned(B, epi) && Indexed(B, L, {a}) && Unlisted(L, a) && a in B && !B[a].used
    ensures var B', L', h := Coalesced(B, a), CoalescedLists(B, L, a), CoalescedStart(B, a);
            Tiled(B', epi) && Aligned(B', epi) && Indexed(B', L', {h}) && Unlisted(L', h)
  {
    hide Aligned, Indexed, Listed, Unlisted, Delist, MergeBlocks, FreeBefore, FreeAfter;
    var after, before := FreeAfter(B, a), FreeBefore(B, a);
    FreeNeighbours(B, a);
    var B1, L1 := B, L;
    if after.Some? {
      FreeIsListedBut(B, L, a, after.value);
      JoinSound(B, epi, L, a);
      B1, L1 := MergeBlocks(B, a), Delist(L, after.value);
    }
    if before.Some? {
      var p := before.value;
      assert p != a by { TiledAt(B, epi, p); }
      if after.Some? { MergeKeepsBefore(B, epi, a, p); }
      assert p in B1 && !B1[p].used && End(B1, p) == a && a in B1;
      FreeIsListedBut(B1, L1, a, p);
      JoinBeforeSound(B1, epi, L1, p, a);
    }
  }

  lemma FreeNeighbours(B: Blocks, a: int)
    ensures FreeAfter(B, a).Some? ==>
              a in B && FreeAfter(B, a).value == End(B, a) && End(B, a) in B && !B[End(B, a)].used
    ensures FreeBefore(B, a).Some? ==>
              FreeBefore(B, a).value in B && !B[FreeBefore(B, a).value].used && End(B, FreeBefore(B, a).value) == a
  {
  }

  lemma FreeIsListedBut(B: Blocks, L: Lists, a: int, x: int)
    requires Indexed(B, L, {a}) && x in B && !B[x].used && x != a
    ensures Listed(L, x)
  {
    FreeIsListed(B, L, {a}, x);
  }

  /** mm_free keeps the heap sound. */
  lemma FreeSound(v: View, a: int)
    requires Sound(v) && a in v.blocks && v.blocks[a].used
    ensures Sound(FreeView(v, a))
  {
    hide Tiled, Aligned, Indexed, Separated, Unlisted, Coalesced, CoalescedLists, CoalescedStart;
    var B1 := Unmarked(v.blocks, a);
    var epi := v.brk - HDR;
    UnmarkSound(v, a);
    CoalescedSound(B1, epi, v.lists, a);
    CoalescedSeparated(B1, epi, a);
    CoalescedShape(B1, epi, a);
    var h := CoalescedStart(B1, a);
    var B2, L2 := Coalesced(B1, a), CoalescedLists(B1, v.lists, a);
    IndexedEntries(B2, L2, {h});
    assert {h} - {h} == {};
    IndexedLink(B2, L2, {h}, h);
  }

  lemma UsedIsUnlisted(B: Blocks, L: Lists, a: int)
    requires Indexed(B, L, {}) && a in B && B[a].used
    ensures Unlisted(L, a)
  {
  }

  lemma UnmarkSound(v: View, a: int)
    requires Sound(v) && a in v.blocks && v.blocks[a].used
    ensures var B := Unmarked(v.blocks, a);
            && Tiled(B, v.brk - HDR) && Aligned(B, v.brk - HDR) && Indexed(B, v.lists, {a}) && Unlisted(v.lists, a)
            && Separated(B, {a})
  {
    hide Tiled, Unlisted;
    TiledMark(v.blocks, v.brk - HDR, a, false);
    assert {} + {a} == {a};
    IndexedMark(v.blocks, v.lists, {}, a, false);
    var B := Unmarked(v.blocks, a);
    assert forall x {:trigger End(B, x)} | x in B :: End(B, x) == End(v.blocks, x);
    UsedIsUnlisted(v.blocks, v.lists, a);
  }

  /** mm_realloc keeps the heap sound, when it returns NULL or a pointer. */
  lemma ReallocSound(v: View, a: int, size: int)
    requires Sound(v) && a in v.blocks && v.blocks[a].used && 0 <= size <= MAX_REQUEST
    ensures var (v1, r) := ReallocView(v, Some(a + HDR), size);
            r == Null || r.Ptr? ==> Sound(v1)
  {
    hide SoundOk, Tiled, Indexed, RequestSize, Align8, FreeView, MallocView;
    if size == 0 {
      FreeSound(v, a);
      return;
    }
    SoundIndexed(v);
    RequestRange(size);
    RequestSizeFits(size);
    TiledAt(v.blocks, v.brk - HDR, a);
    var n := RequestSize(size);
    if n > v.blocks[a].size && End(v.blocks, a) == v.brk - HDR {
      ExtendSound(v, a, n);
    }
    MallocSound(v, size);
    MallocKeeps(v, size);
    var (v1, r) := MallocView(v, size);
    if r.Ptr? {
      FreeSound(v1, a);
    }
  }

  lemma ExtendSound(v: View, a: int, n: int)
    requires Sound(v) && a in v.blocks && v.blocks[a].used && End(v.blocks, a) == v.brk - HDR
    requires v.blocks[a].size < n && n % 8 == 0
    ensures Sound(View(v.brk + (n - v.blocks[a].size), v.blocks[a := Block(n, true)], v.lists))
  {
    hide Tiled, Aligned, Separated, Unlisted;
    TiledExtend(v.blocks, v.brk - HDR, a, n);
    AlignedExtend(v.blocks, v.brk - HDR, a, n);
    UsedIsUnlisted(v.blocks, v.lists, a);
    IndexedExtend(v.blocks, v.lists, {}, a, n);
    ExtendSeparated(v.blocks, {}, a, n);
  }

  // ----------------------------------------------------- what is allocated

  /** mm_malloc adds one allocated block, with room for the request, and takes away or
      changes none; when it faults it changes nothing. */
  lemma MallocUses(v: View, size: int)
    requires Sound(v) && 0 < size <= MAX_REQUEST
    ensures var (v1, r) := MallocView(v, size);
            && (r.Ptr? || (r == Fault && v1 == v))
            && (r.Ptr? ==>
                  var b := r.addr - HDR;
                  && b !in InUse(v.blocks) && b in v1.blocks && v1.blocks[b].size >= size + 32
                  && InUse(v1.blocks) == InUse(v.blocks)[b := v1.blocks[b].size])
  {
    hide SoundOk, Tiled, Indexed, MallocView;
    SoundIndexed(v);
    MallocKeeps(v, size);
    FaultSame(v, size);
    var (v1, r) := MallocView(v, size);
    if r.Ptr? {
      SameUses(v.blocks, v1.blocks, r.addr - HDR);
    }
  }

  /** B' has one more allocated block than B. */
  lemma SameUses(B: Blocks, B': Blocks, b: int)
    requires b in B' && B'[b].used && (b in B ==> !B[b].used)
    requires forall y | y in B && B[y].used :: y in B' && B'[y] == B[y]
    requires forall y | y in B' && B'[y].used && y != b :: y in B && B[y].used
    ensures b !in InUse(B) && InUse(B') == InUse(B)[b := B'[b].size]
  {
    forall x
      ensures x in InUse(B') <==> x in InUse(B) || x == b
    {
      if x in InUse(B') && x != b { assert x in B && B[x].used; }
    }
    assert forall x | x in InUse(B) :: InUse(B')[x] == InUse(B)[x];
  }

  lemma FaultSame(v: View, size: int)
    ensures MallocView(v, size).1 == Fault ==> MallocView(v, size).0 == v
  {
  }

  /** mm_free takes away the one block and changes no other allocated one. */
  lemma FreeUses(v: View, a: int)
    requires Sound(v) && a in v.blocks && v.blocks[a].used
    ensures InUse(FreeView(v, a).blocks) == InUse(v.blocks) - {a}
  {
    hide Tiled, Aligned, Indexed, Separated, Coalesced, CoalescedStart, FreeAfter, Joined, InUse;
    UnmarkSound(v, a);
    var B := Unmarked(v.blocks, a);
    FreeNeighbours(B, a);
    CoalescedShape(B, v.brk - HDR, a);
    forall x | x in B && B[x].used
      ensures var hi := if FreeAfter(B, a).Some? then End(B, FreeAfter(B, a).value) else End(B, a);
              x < CoalescedStart(B, a) || hi <= x
    {
      UsedOutside(B, v.brk - HDR, a, x);
    }
    JoinedUses(B, Coalesced(B, a), CoalescedStart(B, a),
               if FreeAfter(B, a).Some? then End(B, FreeAfter(B, a).value) else End(B, a));
    UnmarkedUses(v.blocks, a);
  }

  lemma JoinedUses(B: Blocks, B': Blocks, lo: int, hi: int)
    requires Joined(B, B', lo, hi)
    requires forall x | x in B && B[x].used :: x < lo || hi <= x
    ensures InUse(B') == InUse(B)
  {
    var u, u' := InUse(B), InUse(B');
    assert forall x | x in u' :: x in u && u[x] == u'[x];
    assert forall x | x in u :: x in u';
  }

  lemma UnmarkedUses(B: Blocks, a: int)
    requires a in B
    ensures InUse(Unmarked(B, a)) == InUse(B) - {a}
  {
  }

  /** An allocated block lies outside the run that coalease joins. */
  lemma UsedOutside(B: Blocks, epi: int, a: int, x: int)
    requires Tiled(B, epi) && a in B && !B[a].used && x in B && B[x].used
    ensures var hi := if FreeAfter(B, a).Some? then End(B, FreeAfter(B, a).value) else End(B, a);
            x < CoalescedStart(B, a) || hi <= x
  {
    hide FreeBefore;
    FreeNeighbours(B, a);
    TiledAt(B, epi, a);
    if x < a && FreeBefore(B, a).Some? {
      var p := FreeBefore(B, a).value;
      assert x != p;
      if p < x {
        assert false;
      }
    }
  }

  /** mm_realloc that returns a pointer exchanges the block for the one it returns, with
      room for the request, and neither takes away nor changes any other. */
  lemma ReallocUses(v: View, a: int, size: int)
    requires Sound(v) && a in v.blocks && v.blocks[a].used && 0 < size <= MAX_REQUEST
    ensures var (v1, r) := ReallocView(v, Some(a + HDR), size);
            && r != Null
            && (r.Ptr? ==>
                  var b := r.addr - HDR;
                  && b !in InUse(v.blocks) - {a} && b in v1.blocks && v1.blocks[b].size >= size + 32
                  && InUse(v1.blocks) == (InUse(v.blocks) - {a})[b := v1.blocks[b].size])
  {
    hide SoundOk, Tiled, Indexed, RequestSize, Align8, FreeView, MallocView, InUse;
    SoundIndexed(v);
    RequestRange(size);
    RequestSizeFits(size);
    TiledAt(v.blocks, v.brk - HDR, a);
    var n := RequestSize(size);
    MallocUses(v, size);
    var (v1, r) := MallocView(v, size);
    if n <= v.blocks[a].size {
      ResizedUses(v.blocks, a, v.blocks[a].size);
    } else if End(v.blocks, a) == v.brk - HDR {
      ResizedUses(v.blocks, a, n);
    } else if r.Ptr? {
      MallocSound(v, size);
      MovedUses(v, v1, a, r.addr - HDR);
    }
  }

  lemma ResizedUses(B: Blocks, a: int, n: int)
    requires a in B && B[a].used
    ensures a !in InUse(B) - {a}
    ensures InUse(B[a := Block(n, true)]) == (InUse(B) - {a})[a := n]
    ensures n == B[a].size ==> B[a := Block(n, true)] == B
  {
  }

  /** Block `b` was allocated and then `a` freed. */
  lemma MovedUses(v: View, v1: View, a: int, b: int)
    requires Sound(v1) && a in v.blocks && v.blocks[a].used
    requires b !in InUse(v.blocks) && b in v1.blocks
    requires InUse(v1.blocks) == InUse(v.blocks)[b := v1.blocks[b].size]
    ensures var B2 := FreeView(v1, a).blocks;
            && a != b && b in B2 && B2[b].size == v1.blocks[b].size && b !in InUse(v.blocks) - {a}
            && InUse(B2) == (InUse(v.blocks) - {a})[b := v1.blocks[b].size]
  {
    hide SoundOk, FreeView;
    assert a in InUse(v.blocks) && a in InUse(v1.blocks);
    FreeUses(v1, a);
    var B2 := FreeView(v1, a).blocks;
    assert b in InUse(B2) && InUse(B2)[b] == v1.blocks[b].size;
    assert InUse(v.blocks)[b := v1.blocks[b].size] - {a} == (InUse(v.blocks) - {a})[b := v1.blocks[b].size];
  }

  /** A heap in which nothing is allocated is empty or one free block. */
  lemma NothingInUse(v: View)
    requires Sound(v) && InUse(v.blocks) == map[]
    ensures if v.brk == 128 then v.blocks == map[] else v.blocks == map[104 := Block(v.brk - 128, false)]
  {
    hide Aligned, Indexed;
    var B, epi := v.blocks, v.brk - HDR;
    forall a | a in B
      ensures !B[a].used
    {
      assert a !in InUse(B);
    }
    if epi == FIRST {
      assert forall a | a in B :: false;
    } else {
      OneBlock(B, epi);
    }
  }

  lemma OneBlock(B: Blocks, epi: int)
    requires Tiled(B, epi) && Separated(B, {}) && FIRST < epi && forall a | a in B :: !B[a].used
    ensures B == map[FIRST := Block(epi - FIRST, false)]
  {
    assert FIRST in B;
    assert End(B, FIRST) == epi;
    assert forall a | a in B :: a == FIRST;
    assert B[FIRST] == Block(epi - FIRST, false);
  }

  // ------------------------------------------------- which block is handed out

  /** Each free block is on the list of its size class. */
  lemma SizeClasses(v: View)
    requires Sound(v)
    ensures |v.lists| == 4
    ensures forall a | a in v.blocks && !v.blocks[a].used ::
              var n := v.blocks[a].size;
              && (a in v.lists[0] <==> n < 290) && (a in v.lists[1] <==> 290 <= n < 540)
              && (a in v.lists[2] <==> 540 <= n < 2080) && (a in v.lists[3] <==> 2080 <= n)
    ensures forall l, a | 0 <= l < 4 && a in v.lists[l] :: a in v.blocks && !v.blocks[a].used
  {
    hide Tiled, Aligned, Separated;
    forall l, a | 0 <= l < 4 && a in v.lists[l]
      ensures a in v.blocks && !v.blocks[a].used && MapToList(v.blocks[a].size) == l
    {
      var i :| 0 <= i < |v.lists[l]| && v.lists[l][i] == a;
    }
  }

  /** The search returns the first block that is large enough on the first list, from
      list `l` on, that has one. */
  lemma {:induction false} FirstFitOrder(B: Blocks, L: Lists, l: nat, n: int) returns (k: nat, i: nat)
    requires FirstFit(B, L, l, n).Some?
    ensures l <= k < |L| && i < |L[k]| && FirstFit(B, L, l, n) == Some(L[k][i]) && L[k][i] in B && B[L[k][i]].size >= n
    ensures forall j | 0 <= j < i :: L[k][j] in B ==> B[L[k][j]].size < n
    ensures forall h, x | l <= h < k && x in L[h] && x in B :: B[x].size < n
    decreases |L| - l
  {
    FirstInMeaning(B, L[l], n);
    if FirstIn(B, L[l], n).Some? {
      k := l;
      i := FirstInOrder(B, L[l], n);
    } else {
      k, i := FirstFitOrder(B, L, l + 1, n);
    }
  }

  /** A request gets no block of `bound` bytes or more, where a size class begins, while a
      smaller free block has room for it. */
  lemma SmallerClassFirst(v: View, size: int, a: int, bound: int)
    requires Sound(v) && 0 < size <= MAX_REQUEST && (bound == 290 || bound == 540 || bound == 2080)
    requires a in v.blocks && !v.blocks[a].used && size + 32 <= v.blocks[a].size < bound
    ensures var r := MallocView(v, size).1;
            r.Ptr? && r.addr - HDR in v.blocks && !v.blocks[r.addr - HDR].used && v.blocks[r.addr - HDR].size < bound
  {
    hide Tiled, Separated, RequestSize, FirstFit, Carve, CarveLists;
    var n := RequestSize(size);
    RequestRange(size);
    RoundedUp(v.blocks[a].size, size, n);
    FirstFitComplete(v.blocks, v.lists, n);
    var k, i := FirstFitOrder(v.blocks, v.lists, MapToList(n), n);
    assert a in v.lists[MapToList(v.blocks[a].size)];
    assert k <= MapToList(v.blocks[a].size);
  }

  lemma RoundedUp(x: int, size: int, n: int)
    requires x % 8 == 0 && n % 8 == 0 && size + 32 <= x && n < size + 40
    ensures n <= x
  {
  }

  /** The blocks after a request that is served: a block found free is cut to the size of
      the request, rounded up, when more than 72 bytes are left over; otherwise the old
      epilogue becomes the header of a block that is 24 bytes larger than that. */
  lemma MallocCuts(v: View, size: int)
    requires Sound(v) && 0 < size <= MAX_REQUEST && MallocView(v, size).1.Ptr?
    ensures var (v1, r) := MallocView(v, size);
            var n, a := (size + 39) / 8 * 8, r.addr - 24;
            if a in v.blocks then
              var t := v.blocks[a].size;
              && v1.brk == v.brk && !v.blocks[a].used && n <= t
              && v1.blocks == (if t - n > 72 then v.blocks[a := Block(n, true)][a + n := Block(t - n, false)]
                               else v.blocks[a := Block(t, true)])
            else
              v1.brk == v.brk + n + 24 && a == v.brk - 24 && v1.blocks == v.blocks[a := Block(n + 24, true)]
  {
    hide SoundOk, Tiled, Indexed, RequestSize, FirstFit, CarveLists;
    var n := RequestSize(size);
    SoundIndexed(v);
    RequestRange(size);
    RoundedSize(size, n);
    FirstFitComplete(v.blocks, v.lists, n);
    if v.brk - HDR in v.blocks { TiledAt(v.blocks, v.brk - HDR, v.brk - HDR); }
    var fit := FirstFit(v.blocks, v.lists, MapToList(n), n);
    if fit.Some? {
      var a, t := fit.value, v.blocks[fit.value].size;
      assert t - n <= 72 ==> v.blocks[a := Block(t, true)] == Carve(v.blocks, a, n);
    }
  }

  lemma RoundedSize(size: int, n: int)
    requires n % 8 == 0 && size + 32 <= n < size + 40
    ensures n == (size + 39) / 8 * 8
  {
  }

  /** The block that mm_free leaves free is the first of its list. */
  lemma FreedIsFirst(v: View, a: int) returns (h: int, l: nat)
    requires Sound(v) && a in v.blocks && v.blocks[a].used
    ensures var v1 := FreeView(v, a);
            && v1.brk == v.brk && h in v1.blocks && !v1.blocks[h].used && h <= a < End(v1.blocks, h)
            && l < |v1.lists| && v1.lists[l] != [] && v1.lists[l][0] == h
  {
    hide Tiled, Aligned, Indexed, Separated, Unlisted, Coalesced, CoalescedLists, CoalescedStart;
    var B1 := Unmarked(v.blocks, a);
    UnmarkSound(v, a);
    CoalescedSound(B1, v.brk - HDR, v.lists, a);
    CoalescedShape(B1, v.brk - HDR, a);
    h := CoalescedStart(B1, a);
    IndexedEntries(Coalesced(B1, a), CoalescedLists(B1, v.lists, a), {h});
    l := MapToList(Coalesced(B1, a)[h].size);
  }

  // ---------------------------------------------------------------- traces

  /** What `Demand` adds up: the rounded size of each request and 24 bytes. */
  lemma CostIs(op: Op)
    requires !op.Free? ==> 0 < op.size <= MAX_REQUEST
    ensures Cost(op) == if op.Free? then 0 else (op.size + 39) / 8 * 8 + 24
  {
    hide RequestSize;
    if !op.Free? {
      RequestRange(op.size);
      RoundedSize(op.size, RequestSize(op.size));
    }
  }

  /** The headers of the blocks with these payloads. */
  function Headers(ptrs: map<int, int>): set<int> {
    set i | i in ptrs :: ptrs[i] - 24
  }

  /** `ptrs` are the payloads of exactly the allocated blocks, one for each id, and each
      has room for the size of its id. */
  ghost predicate Accounts(inUse: map<int, int>, ptrs: map<int, int>, sizes: map<int, int>) {
    && ptrs.Keys == sizes.Keys && Headers(ptrs) == inUse.Keys
    && (forall i | i in ptrs :: ptrs[i] - 24 in inUse && inUse[ptrs[i] - 24] >= sizes[i] + 32)
    && (forall i, j | i in ptrs && j in ptrs && i != j :: ptrs[i] != ptrs[j])
  }

  lemma HeadersAdd(ptrs: map<int, int>, i: int, p: int)
    requires i !in ptrs
    ensures Headers(ptrs[i := p]) == Headers(ptrs) + {p - 24}
  {
    var q := ptrs[i := p];
    forall a | a in Headers(ptrs) + {p - 24}
      ensures a in Headers(q)
    {
      if a == p - 24 {
        assert i in q && q[i] - 24 == a;
      } else {
        var j :| j in ptrs && ptrs[j] - 24 == a;
        assert j in q && q[j] - 24 == a;
      }
    }
  }

  lemma HeadersDrop(ptrs: map<int, int>, i: int)
    requires i in ptrs && forall j | j in ptrs && j != i :: ptrs[j] != ptrs[i]
    ensures Headers(ptrs - {i}) == Headers(ptrs) - {ptrs[i] - 24}
  {
    var q := ptrs - {i};
    forall a | a in Headers(ptrs) - {ptrs[i] - 24}
      ensures a in Headers(q)
    {
      var j :| j in ptrs && ptrs[j] - 24 == a;
      assert j in q && q[j] - 24 == a;
    }
  }

  lemma AccountsAdd(u: map<int, int>, ptrs: map<int, int>, sizes: map<int, int>, i: int, p: int, n: int, s: int)
    requires Accounts(u, ptrs, sizes) && i !in ptrs && p - 24 !in u && s >= n + 32
    ensures Accounts(u[p - 24 := s], ptrs[i := p], sizes[i := n])
  {
    hide Headers;
    HeadersAdd(ptrs, i, p);
    assert u[p - 24 := s].Keys == u.Keys + {p - 24};
  }

  lemma AccountsDrop(u: map<int, int>, ptrs: map<int, int>, sizes: map<int, int>, i: int)
    requires Accounts(u, ptrs, sizes) && i in ptrs
    ensures Accounts(u - {ptrs[i] - 24}, ptrs - {i}, sizes - {i})
  {
    hide Headers;
    HeadersDrop(ptrs, i);
    assert (u - {ptrs[i] - 24}).Keys == u.Keys - {ptrs[i] - 24};
  }

  ghost predicate Exact(r: Replay, sizes: map<int, int>) {
    Sound(r.view) && Accounts(InUse(r.view.blocks), r.ptrs, sizes)
  }

  lemma StepExact(r: Replay, op: Op, sizes: map<int, int>, numIds: int, check: bool)
    requires r.verdict == Accepted && Exact(r, sizes) && OpOk(op, r.ptrs.Keys, numIds)
    requires ReplayStep(r, op, check).verdict == Accepted
    ensures Exact(ReplayStep(r, op, check), SizesStep(sizes, op))
  {
    hide SoundOk, Accounts, InUse, MallocView, ReallocView, FreeView;
    AccountsKeys(r, sizes);
    match op
    case Alloc(i, size) =>
      MallocSound(r.view, size);
      MallocUses(r.view, size);
      var (v, o) := MallocView(r.view, size);
      AccountsAdd(InUse(r.view.blocks), r.ptrs, sizes, i, o.addr, size, v.blocks[o.addr - 24].size);
    case Realloc(i, size) =>
      AccountsBlock(r, sizes, i);
      var a := r.ptrs[i] - 24;
      ReallocSound(r.view, a, size);
      ReallocUses(r.view, a, size);
      var (v, o) := ReallocView(r.view, Some(a + HDR), size);
      AccountsDrop(InUse(r.view.blocks), r.ptrs, sizes, i);
      AccountsAdd(InUse(r.view.blocks) - {a}, r.ptrs - {i}, sizes - {i}, i, o.addr, size, v.blocks[o.addr - 24].size);
      assert (r.ptrs - {i})[i := o.addr] == r.ptrs[i := o.addr] && (sizes - {i})[i := size] == sizes[i := size];
    case Free(i) =>
      AccountsBlock(r, sizes, i);
      FreeSound(r.view, r.ptrs[i] - 24);
      FreeUses(r.view, r.ptrs[i] - 24);
      AccountsDrop(InUse(r.view.blocks), r.ptrs, sizes, i);
  }

  lemma AccountsKeys(r: Replay, sizes: map<int, int>)
    requires Exact(r, sizes)
    ensures r.ptrs.Keys == sizes.Keys
  {
  }

  lemma AccountsBlock(r: Replay, sizes: map<int, int>, i: int)
    requires Exact(r, sizes) && i in r.ptrs
    ensures r.ptrs[i] - 24 in r.view.blocks && r.view.blocks[r.ptrs[i] - 24].used
  {
    hide SoundOk, Headers;
    assert r.ptrs[i] - 24 in InUse(r.view.blocks);
  }

  /** While a replay is accepted its heap is sound, and the allocated blocks are exactly
      the blocks of the live ids, each with room for the size last requested. */
  lemma {:induction false} ReplayExact(ops: seq<Op>, numIds: int, check: bool)
    requires WellFormed(ops, numIds) && Replayed(ops, check).verdict == Accepted
    ensures var r := Replayed(ops, check);
            && Sound(r.view) && r.ptrs.Keys == Live(ops)
            && Accounts(InUse(r.view.blocks), r.ptrs, LiveSizes(ops))
  {
    hide SoundOk, Accounts, ReplayStep, InUse;
    LiveKeys(ops);
    if ops == [] {
      StartExact();
    } else {
      var init, op := ops[..|ops| - 1], ops[|ops| - 1];
      assert WellFormed(init, numIds) by {
        forall i | 0 <= i < |init| ensures OpOk(init[i], Live(init[..i]), numIds) {
          assert init[..i] == ops[..i];
          assert OpOk(ops[i], Live(ops[..i]), numIds);
        }
      }
      StoppedBefore(ops, check);
      ReplayExact(init, numIds, check);
      assert OpOk(op, Live(init), numIds);
      LiveKeys(init);
      StepExact(Replayed(init, check), op, LiveSizes(init), numIds, check);
    }
    AccountsKeys(Replayed(ops, check), LiveSizes(ops));
  }

  lemma StoppedBefore(ops: seq<Op>, check: bool)
    requires ops != [] && Replayed(ops, check).verdict == Accepted
    ensures Replayed(ops[..|ops| - 1], check).verdict == Accepted
  {
  }

  lemma StartExact()
    ensures Exact(Replay(NEW_HEAP, map[], Accepted), map[])
  {
    assert InUse(map[]) == map[];
  }

  /** A trace that has freed all it allocated leaves one free block, or an empty heap. */
  lemma AllFreed(ops: seq<Op>, numIds: int, check: bool)
    requires WellFormed(ops, numIds) && Replayed(ops, check).verdict == Accepted && Live(ops) == {}
    ensures var v := Replayed(ops, check).view;
            if v.brk == 128 then v.blocks == map[] else v.blocks == map[104 := Block(v.brk - 128, false)]
  {
    hide SoundOk;
    ReplayExact(ops, numIds, check);
    var r := Replayed(ops, check);
    assert r.ptrs.Keys == {};
    assert Headers(r.ptrs) == {};
    assert InUse(r.view.blocks) == map[];
    NothingInUse(r.view);
  }
}
