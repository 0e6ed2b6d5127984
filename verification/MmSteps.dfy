/** Each step of the allocator of mps/05/mm.c on one flat memory keeps the heap
    invariant: unlinking, linking, marking, splitting, merging, growing. */
module MmSteps {
  import opened Memlib
  import opened FreeLists
  import opened MmLayout

  ghost predicate Unlisted(L: Lists, a: int) {
    forall l | 0 <= l < |L| :: a !in L[l]
  }

  // ---------------------------------------------------------------- tilings

  /** `a` is cut at `a + n`. */
  function SplitBlocks(B: Blocks, a: int, n: int): Blocks
    requires a in B
  {
    B[a := Block(n, B[a].used)][a + n := Block(B[a].size - n, B[a].used)]
  }

  lemma TiledSplit(B: Blocks, epi: int, a: int, n: int)
    requires Tiled(B, epi) && a in B
    requires MIN_BLOCK <= n && MIN_BLOCK <= B[a].size - n
    ensures a + n !in B
    ensures Tiled(SplitBlocks(B, a, n), epi)
  {
    var B' := SplitBlocks(B, a, n);
    SplitApart(B, epi, a, n);
    forall x {:trigger End(B', x)} | x in B'
      ensures End(B', x) in B' || End(B', x) == epi
    {
      SplitEnds(B, epi, a, n, x);
    }
  }

  lemma SplitApart(B: Blocks, epi: int, a: int, n: int)
    requires Tiled(B, epi) && a in B
    requires MIN_BLOCK <= n && MIN_BLOCK <= B[a].size - n
    ensures var B' := SplitBlocks(B, a, n);
            && a + n !in B
            && (forall x | x in B' :: FIRST <= x && MIN_BLOCK <= B'[x].size && x + B'[x].size <= epi)
            && (forall x, y | x in B' && y in B' && x < y :: x + B'[x].size <= y)
  {
  }

  lemma SplitEnds(B: Blocks, epi: int, a: int, n: int, x: int)
    requires Tiled(B, epi) && a in B && x in SplitBlocks(B, a, n)
    ensures var B' := SplitBlocks(B, a, n);
            End(B', x) in B' || End(B', x) == epi
  {
    var B' := SplitBlocks(B, a, n);
    if x == a + n {
      assert End(B', x) == End(B, a);
    } else if x != a {
      assert End(B', x) == End(B, x);
    }
  }

  /** `a` swallows its successor. */
  function MergeBlocks(B: Blocks, a: int): Blocks
    requires a in B && End(B, a) in B
  {
    var n := End(B, a);
    (B - {n})[a := Block(B[a].size + B[n].size, B[a].used)]
  }

  lemma TiledMerge(B: Blocks, epi: int, a: int)
    requires Tiled(B, epi) && a in B && End(B, a) in B
    ensures Tiled(MergeBlocks(B, a), epi)
  {
    var n := End(B, a);
    var B' := MergeBlocks(B, a);
    assert End(B', a) == End(B, n);
    forall x, y | x in B' && y in B' && x < y
      ensures x + B'[x].size <= y
    {
      assert y != n;
    }
    forall x {:trigger End(B', x)} | x in B'
      ensures End(B', x) in B' || End(B', x) == epi
    {
      if x != a {
        assert End(B', x) == End(B, x);
      }
    }
  }

  lemma TiledGrow(B: Blocks, epi: int, n: int, used: bool)
    requires Tiled(B, epi) && MIN_BLOCK <= n
    ensures epi !in B && Tiled(B[epi := Block(n, used)], epi + n)
  {
    var B' := B[epi := Block(n, used)];
    assert End(B', epi) == epi + n;
    assert forall x {:trigger End(B', x)} | x in B :: End(B', x) == End(B, x);
  }

  lemma TiledExtend(B: Blocks, epi: int, a: int, n: int)
    requires Tiled(B, epi) && a in B && End(B, a) == epi && B[a].size <= n
    ensures Tiled(B[a := Block(n, B[a].used)], a + n)
  {
    var B' := B[a := Block(n, B[a].used)];
    assert End(B', a) == a + n;
    assert forall x {:trigger End(B', x)} | x in B && x != a :: End(B', x) == End(B, x);
  }

  lemma TiledMark(B: Blocks, epi: int, a: int, used: bool)
    requires Tiled(B, epi) && a in B
    ensures Tiled(B[a := Block(B[a].size, used)], epi)
  {
    var B' := B[a := Block(B[a].size, used)];
    assert forall x {:trigger End(B', x)} | x in B :: End(B', x) == End(B, x);
  }

  lemma AlignedSplit(B: Blocks, epi: int, a: int, n: int)
    requires Aligned(B, epi) && a in B && n % 8 == 0
    ensures Aligned(SplitBlocks(B, a, n), epi)
  {
    assert (a + n) % 8 == 0 && (B[a].size - n) % 8 == 0;
  }

  lemma AlignedMerge(B: Blocks, epi: int, a: int)
    requires Aligned(B, epi) && a in B && End(B, a) in B
    ensures Aligned(MergeBlocks(B, a), epi)
  {
    assert (B[a].size + B[End(B, a)].size) % 8 == 0;
  }

  lemma AlignedGrow(B: Blocks, epi: int, n: int)
    requires Aligned(B, epi) && n % 8 == 0
    ensures Aligned(B[epi := Block(n, true)], epi + n)
  {
  }

  lemma AlignedExtend(B: Blocks, epi: int, a: int, n: int)
    requires Aligned(B, epi) && a in B && n % 8 == 0
    ensures Aligned(B[a := Block(n, true)], a + n)
  {
  }

  lemma TiledAt(B: Blocks, epi: int, a: int)
    requires Tiled(B, epi) && a in B
    ensures FIRST <= a && MIN_BLOCK <= B[a].size && End(B, a) <= epi && (End(B, a) in B || End(B, a) == epi)
  {
  }

  /** Every block but the first has a block right before it. */
  lemma PredecessorFrom(B: Blocks, epi: int, x: int, a: int) returns (p: int)
    requires Tiled(B, epi) && x in B && x < a && (a in B || a == epi)
    ensures p in B && End(B, p) == a
    decreases a - x
  {
    if End(B, x) == a {
      p := x;
    } else {
      p := PredecessorFrom(B, epi, End(B, x), a);
    }
  }

  // ------------------------------------------------------ writes in a region

  ghost predicate AgreeOutside(m: Mem, m': Mem, lo: int, hi: int) {
    |m'| == |m| && forall c | 0 <= c < |m| && !(lo <= c < hi) :: m'[c] == m[c]
  }

  /** Tags outside the rewritten region [lo, hi) survive. */
  lemma RegionTags(m: Mem, m': Mem, B: Blocks, B': Blocks, epi: int, lo: int, hi: int)
    requires Tiled(B', epi) && Tagged(m, B, epi) && AgreeOutside(m, m', lo, hi)
    requires FIRST <= lo <= hi <= epi
    requires forall y | y in B' ::
               BlockTagged(m', y, B'[y]) ||
               (y in B && B[y] == B'[y] && (y + B[y].size <= lo || hi <= y))
    ensures Tagged(m', B', epi)
  {
    forall y | y in B'
      ensures BlockTagged(m', y, B'[y])
    {
      if y in B && B[y] == B'[y] {
        assert BlockTagged(m, y, B[y]);
      }
    }
  }

  // ------------------------------------------------------------- free lists

  lemma IndexedUnlink(B: Blocks, L: Lists, loose: set<int>, l: int, k: nat)
    requires Indexed(B, L, loose) && 0 <= l < LISTS && k < |L[l]|
    ensures Indexed(B, L[l := Without(L[l], k)], loose + {L[l][k]})
    ensures Unlisted(L[l := Without(L[l], k)], L[l][k])
  {
    WithoutAt(L[l], k);
    WithoutMembers(L[l], k);
  }

  lemma IndexedLink(B: Blocks, L: Lists, loose: set<int>, a: int)
    requires Indexed(B, L, loose) && a in B && !B[a].used && Unlisted(L, a)
    ensures var l := MapToList(B[a].size); Indexed(B, L[l := [a] + L[l]], loose - {a})
  {
    var l := MapToList(B[a].size);
    var xs := [a] + L[l];
    var L' := L[l := xs];
    forall i | 0 <= i < |xs|
      ensures xs[i] == if i == 0 then a else L[l][i - 1]
    {
    }
    forall b | b in L[l]
      ensures b in xs
    {
    }
    assert xs[0] == a;
  }

  lemma IndexedChange(B: Blocks, B': Blocks, L: Lists, loose: set<int>, loose': set<int>)
    requires Indexed(B, L, loose)
    requires forall x | x in B' && x !in loose' ::
               (x in B && x !in loose && B'[x] == B[x]) || (B'[x].used && Unlisted(L, x))
    requires forall x | x in B && x !in B' :: Unlisted(L, x)
    ensures Indexed(B', L, loose')
  {
    forall l, i | 0 <= l < LISTS && 0 <= i < |L[l]|
      ensures L[l][i] in B'
      ensures L[l][i] in loose' || (!B'[L[l][i]].used && MapToList(B'[L[l][i]].size) == l)
    {
      var x := L[l][i];
      assert x in L[l] && x in B && !Unlisted(L, x);
    }
  }

  lemma IndexedSplit(B: Blocks, L: Lists, loose: set<int>, a: int, n: int)
    requires Indexed(B, L, loose) && a in B && a + n !in B
    ensures Indexed(SplitBlocks(B, a, n), L, loose + {a, a + n}) && Unlisted(L, a + n)
  {
    IndexedChange(B, SplitBlocks(B, a, n), L, loose, loose + {a, a + n});
  }

  lemma IndexedMark(B: Blocks, L: Lists, loose: set<int>, a: int, used: bool)
    requires Indexed(B, L, loose) && a in B
    ensures Indexed(B[a := Block(B[a].size, used)], L, loose + {a})
  {
    IndexedChange(B, B[a := Block(B[a].size, used)], L, loose, loose + {a});
  }

  lemma IndexedEntries(B: Blocks, L: Lists, loose: set<int>)
    requires Indexed(B, L, loose)
    ensures EntriesIn(L, B)
  {
  }

  lemma IndexedExtend(B: Blocks, L: Lists, loose: set<int>, a: int, n: int)
    requires Indexed(B, L, loose) && a in B && Unlisted(L, a)
    ensures Indexed(B[a := Block(n, true)], L, loose)
  {
    IndexedChange(B, B[a := Block(n, true)], L, loose, loose);
  }

  lemma IndexedMerge(B: Blocks, L: Lists, loose: set<int>, p: int)
    requires Indexed(B, L, loose) && p in B && p in loose
    requires End(B, p) in B && End(B, p) != p && Unlisted(L, End(B, p))
    ensures Indexed(MergeBlocks(B, p), L, loose - {End(B, p)})
  {
    IndexedChange(B, MergeBlocks(B, p), L, loose, loose - {End(B, p)});
  }

  lemma IndexedGrow(B: Blocks, L: Lists, loose: set<int>, epi: int, n: int)
    requires Indexed(B, L, loose) && epi !in B
    ensures Indexed(B[epi := Block(n, true)], L, loose)
  {
    assert Unlisted(L, epi);
    IndexedChange(B, B[epi := Block(n, true)], L, loose, loose);
  }

  lemma SeparatedMore(B: Blocks, loose: set<int>, loose': set<int>)
    requires Separated(B, loose) && loose <= loose'
    ensures Separated(B, loose')
  {
  }

  // ---------------------------------------------- the steps on the whole heap

  lemma HeapFacts(m: Mem, brk: int, B: Blocks, L: Lists, loose: set<int>)
    requires Inv(m, brk, B, L, loose)
    ensures |L| == LISTS && EntriesIn(L, B) && FIRST <= brk - HDR && brk <= |m| == MAX_HEAP
    ensures brk % 8 == 0
  {
  }

  lemma UnlinkOnlyLinks(m: Mem, B: Blocks, L: Lists, l: int, k: nat)
    requires |m| < WORD_LIMIT && EntriesIn(L, B) && Rings(m, L)
    requires 0 <= l < LISTS && k < |L[l]|
    ensures Unlinkable(m, L[l][k])
    ensures OnlyLinks(m, UnlinkMem(m, m[L[l][k] + 16], m[L[l][k] + 8]), B)
  {
    UnlinkableAt(m, L, l, k);
    var r := Loop(l, L[l]);
    var p, n := r[k], r[k + 2];
    assert IsHead(HDR * l);
    assert p in B || IsHead(p);
    assert n in B || IsHead(n);
    assert IsLinkCell(B, p + 8) && IsLinkCell(B, n + 16);
  }

  lemma UnlinkKeepsTags(m: Mem, B: Blocks, epi: int, L: Lists, loose: set<int>, l: int, k: nat)
    requires |m| < WORD_LIMIT && Tiled(B, epi) && Tagged(m, B, epi) && Indexed(B, L, loose) && Rings(m, L)
    requires 0 <= l < LISTS && k < |L[l]|
    ensures Unlinkable(m, L[l][k])
    ensures Tagged(UnlinkMem(m, m[L[l][k] + 16], m[L[l][k] + 8]), B, epi)
    ensures PayloadsKept(m, UnlinkMem(m, m[L[l][k] + 16], m[L[l][k] + 8]), B)
  {
    hide Tiled, Tagged, Indexed, Rings, SamePayloads, OnlyLinks, EntriesIn;
    IndexedEntries(B, L, loose);
    UnlinkOnlyLinks(m, B, L, l, k);
    var m' := UnlinkMem(m, m[L[l][k] + 16], m[L[l][k] + 8]);
    LinkWritesKeepTags(m, m', B, epi);
    LinkWritesKeepPayloads(m, m', B, epi);
  }

  /** remove_from_free_lists on the k-th block of list `l`. */
  lemma UnlinkInv(m: Mem, brk: int, B: Blocks, L: Lists, loose: set<int>, l: int, k: nat)
    requires Inv(m, brk, B, L, loose) && 0 <= l < LISTS && k < |L[l]|
    ensures var a := L[l][k];
            var L' := L[l := Without(L[l], k)];
            && Unlinkable(m, a)
            && NodeAddress(brk, a) && NodeAddress(brk, m[a + 8]) && NodeAddress(brk, m[a + 16])
            && m[a + 16] + 8 != a + 16 && m[a + 16] + 8 != a + 8
            && var m' := UnlinkMem(m, m[a + 16], m[a + 8]);
            && Inv(m', brk, B, L', loose + {a})
            && Unlisted(L', a)
            && PayloadsKept(m, m', B)
  {
    hide Tiled, Aligned, Tagged, Indexed, Rings, Separated, SamePayloads, Spread, Unlinkable, Unlisted, NodeAddress;
    HeapFacts(m, brk, B, L, loose);
    ListedNode(m, brk, B, L, loose, l, k);
    SeparatedMore(B, loose, loose + {L[l][k]});
    IndexedSpread(B, brk - HDR, L, loose);
    IndexedUnlink(B, L, loose, l, k);
    UnlinkRings(m, L, l, k);
    UnlinkKeepsTags(m, B, brk - HDR, L, loose, l, k);
  }

  lemma LinkFresh(B: Blocks, epi: int, L: Lists, loose: set<int>, a: int)
    requires Tiled(B, epi) && Indexed(B, L, loose) && a in B && Unlisted(L, a)
    ensures Spread(L) && Fresh(L, a)
  {
    IndexedSpread(B, epi, L, loose);
    forall k, j | 0 <= k < LISTS && 0 <= j < |L[k]|
      ensures Apart(a, L[k][j])
    {
      assert L[k][j] in L[k];
    }
  }

  lemma LinkOnlyLinks(m: Mem, B: Blocks, L: Lists, l: int, a: int)
    requires |m| < WORD_LIMIT && EntriesIn(L, B) && Rings(m, L)
    requires a in B && HDR * LISTS <= a && a + 16 < |m| && 0 <= l < LISTS
    ensures Linkable(m, l, a)
    ensures OnlyLinks(m, LinkMem(m, l, a), B)
  {
    var r := Loop(l, L[l]);
    assert Ring(m, l, L[l]) && Linked(m, r, 0);
    assert IsHead(HDR * l);
    assert r[1] in B || IsHead(r[1]);
    assert IsLinkCell(B, a + 8) && IsLinkCell(B, a + 16);
    assert IsLinkCell(B, r[1] + 16) && IsLinkCell(B, HDR * l + 8);
  }

  lemma LinkKeepsTags(m: Mem, B: Blocks, epi: int, L: Lists, loose: set<int>, l: int, a: int)
    requires |m| < WORD_LIMIT && Tiled(B, epi) && Tagged(m, B, epi) && Indexed(B, L, loose) && Rings(m, L)
    requires a in B && HDR * LISTS <= a && a + 16 < |m| && 0 <= l < LISTS
    ensures Linkable(m, l, a)
    ensures Tagged(LinkMem(m, l, a), B, epi) && PayloadsKept(m, LinkMem(m, l, a), B)
  {
    hide Tiled, Tagged, Indexed, Rings, SamePayloads, OnlyLinks, EntriesIn;
    IndexedEntries(B, L, loose);
    LinkOnlyLinks(m, B, L, l, a);
    LinkWritesKeepTags(m, LinkMem(m, l, a), B, epi);
    LinkWritesKeepPayloads(m, LinkMem(m, l, a), B, epi);
  }

  /** add_to_free_lists on an unlisted free block. */
  lemma LinkInv(m: Mem, brk: int, B: Blocks, L: Lists, loose: set<int>, a: int)
    requires Inv(m, brk, B, L, loose) && a in B && !B[a].used && Unlisted(L, a)
    requires Separated(B, loose - {a})
    ensures HDR * LISTS <= a && a + HDR <= |m| && |L| == LISTS
    ensures var l := MapToList(B[a].size);
            var L' := L[l := [a] + L[l]];
            && m[a] == B[a].size
            && NodeAddress(brk, a) && NodeAddress(brk, HDR * l) && NodeAddress(brk, m[HDR * l + 8])
            && Apart(a, HDR * l) && Apart(a, m[HDR * l + 8])
            && Linkable(m, l, a)
            && var m' := LinkMem(m, l, a);
            && Inv(m', brk, B, L', loose - {a})
            && PayloadsKept(m, m', B)
  {
    var l := MapToList(B[a].size);
    hide Tiled, Aligned, Tagged, Indexed, Rings, Separated, SamePayloads, Spread, Fresh, Linkable, Apart, NodeAddress,
         Tag;
    HeapFacts(m, brk, B, L, loose);
    BlockHeader(m, brk, B, L, loose, a);
    HeadNode(m, brk, B, L, loose, l, a);
    LinkFresh(B, brk - HDR, L, loose, a);
    IndexedLink(B, L, loose, a);
    LinkKeepsTags(m, B, brk - HDR, L, loose, l, a);
    LinkRings(m, L, l, a);
  }

  /** Both tags of block `p` are rewritten, as marking and coalescing do. */
  function RetagMem(m: Mem, B: Blocks, p: int): Mem
    requires p in B && 0 <= p && 8 <= B[p].size < WORD_LIMIT - 1 && End(B, p) <= |m|
  {
    m[p := Tag(B[p])][End(B, p) - FTR := Tag(B[p])]
  }

  ghost predicate OnlyChanges(B: Blocks, B': Blocks, p: int) {
    && p in B && p in B'
    && (forall y | y in B' && y != p :: y in B && B'[y] == B[y])
    && (forall y | y in B && B[y].used :: y in B' && B'[y].size == B[y].size)
  }

  lemma MergeOnlyChanges(B: Blocks, p: int)
    requires p in B && !B[p].used && End(B, p) in B && !B[End(B, p)].used && End(B, p) != p
    ensures OnlyChanges(B, MergeBlocks(B, p), p)
  {
  }

  lemma RetagTags(m: Mem, B: Blocks, B': Blocks, epi: int, p: int)
    requires |m| < WORD_LIMIT - 1 && Tagged(m, B, epi) && Tiled(B, epi) && Tiled(B', epi) && OnlyChanges(B, B', p)
    ensures Tagged(RetagMem(m, B', p), B', epi)
  {
    var m' := RetagMem(m, B', p);
    assert BlockTagged(m', p, B'[p]);
    RegionTags(m, m', B, B', epi, p, End(B', p));
  }

  lemma RetagLinks(m: Mem, B: Blocks, B': Blocks, epi: int, p: int)
    requires |m| < WORD_LIMIT - 1 && epi <= |m| && Tiled(B, epi) && Tiled(B', epi) && OnlyChanges(B, B', p)
    ensures SameLinks(m, RetagMem(m, B', p), B) && PayloadsKept(m, RetagMem(m, B', p), B)
  {
    var e := End(B', p);
    assert e in B || e == epi;
  }

  lemma RetagInv(m: Mem, brk: int, B: Blocks, B': Blocks, L: Lists, loose: set<int>, loose': set<int>, p: int)
    requires Inv(m, brk, B, L, loose) && OnlyChanges(B, B', p)
    requires Tiled(B', brk - HDR) && Aligned(B', brk - HDR)
    requires Indexed(B', L, loose') && Separated(B', loose')
    ensures Inv(RetagMem(m, B', p), brk, B', L, loose')
    ensures PayloadsKept(m, RetagMem(m, B', p), B)
  {
    hide Tiled, Aligned, Tagged, Indexed, Rings, Separated, SamePayloads, SameLinks, EntriesIn;
    HeapFacts(m, brk, B, L, loose);
    TiledAt(B', brk - HDR, p);
    RetagTags(m, B, B', brk - HDR, p);
    RetagLinks(m, B, B', brk - HDR, p);
    RingsFrame(m, RetagMem(m, B', p), B, L);
  }

  lemma MarkSeparated(B: Blocks, epi: int, loose: set<int>, a: int, used: bool)
    requires Separated(B, loose) && Aligned(B, epi) && a in B
    ensures var B' := B[a := Block(B[a].size, used)];
            Separated(B', loose + {a}) && Aligned(B', epi)
  {
    var B' := B[a := Block(B[a].size, used)];
    assert forall x {:trigger End(B', x)} | x in B :: End(B', x) == End(B, x);
  }

  /** Setting or clearing the allocated bit of both tags of `a`. */
  lemma MarkInv(m: Mem, brk: int, B: Blocks, L: Lists, loose: set<int>, a: int, used: bool)
    requires Inv(m, brk, B, L, loose) && a in B
    ensures var B' := B[a := Block(B[a].size, used)];
            && Tiled(B', brk - HDR)
            && Inv(RetagMem(m, B', a), brk, B', L, loose + {a})
            && PayloadsKept(m, RetagMem(m, B', a), B)
  {
    hide Tiled, Aligned, Tagged, Indexed, Rings, Separated, SamePayloads, SameLinks, EntriesIn;
    var B' := B[a := Block(B[a].size, used)];
    MarkSeparated(B, brk - HDR, loose, a, used);
    TiledMark(B, brk - HDR, a, used);
    IndexedMark(B, L, loose, a, used);
    TiledAt(B', brk - HDR, a);
    RetagInv(m, brk, B, B', L, loose, loose + {a}, a);
  }

  /** Coalescing block `p` with the one after it. */
  lemma MergeInv(m: Mem, brk: int, B: Blocks, L: Lists, loose: set<int>, p: int)
    requires Inv(m, brk, B, L, loose)
    requires p in B && p in loose && !B[p].used
    requires End(B, p) in B && !B[End(B, p)].used && Unlisted(L, End(B, p))
    ensures var B' := MergeBlocks(B, p);
            && Tiled(B', brk - HDR)
            && Inv(RetagMem(m, B', p), brk, B', L, loose - {End(B, p)})
            && PayloadsKept(m, RetagMem(m, B', p), B)
  {
    hide Tiled, Aligned, Tagged, Indexed, Rings, Separated, OnlyChanges, SamePayloads;
    var q := End(B, p);
    var B' := MergeBlocks(B, p);
    TiledAt(B, brk - HDR, p);
    TiledMerge(B, brk - HDR, p);
    AlignedMerge(B, brk - HDR, p);
    IndexedMerge(B, L, loose, p);
    MergeSeparated(B, brk - HDR, loose, p);
    MergeOnlyChanges(B, p);
    RetagInv(m, brk, B, B', L, loose, loose - {q}, p);
  }

  lemma MergeSeparated(B: Blocks, epi: int, loose: set<int>, p: int)
    requires Tiled(B, epi) && Separated(B, loose) && p in B && p in loose && End(B, p) in B
    ensures Separated(MergeBlocks(B, p), loose - {End(B, p)})
  {
    var B' := MergeBlocks(B, p);
    assert forall x {:trigger End(B', x)} | x in B' && x != p :: End(B', x) == End(B, x);
  }

  /** Coalescing block `p` with the two after it, writing the outer tags only. */
  lemma MergeBothInv(m: Mem, brk: int, B: Blocks, L: Lists, loose: set<int>, p: int, a: int)
    requires Inv(m, brk, B, L, loose)
    requires p in B && p in loose && !B[p].used && End(B, p) == a
    requires a in B && a in loose && !B[a].used && Unlisted(L, a)
    requires End(B, a) in B && !B[End(B, a)].used && Unlisted(L, End(B, a))
    ensures var B' := MergeBlocks(MergeBlocks(B, a), p);
            && Tiled(B', brk - HDR)
            && Inv(RetagMem(m, B', p), brk, B', L, loose - {a, End(B, a)})
            && PayloadsKept(m, RetagMem(m, B', p), B)
  {
    hide Tiled, Aligned, Tagged, Indexed, Rings, Separated, SamePayloads, Unlisted;
    var n := End(B, a);
    var B1 := MergeBlocks(B, a);
    TiledAt(B, brk - HDR, p);
    TiledAt(B, brk - HDR, a);
    assert End(B1, p) == a;
    var B2 := MergeBlocks(B1, p);
    TiledMerge(B, brk - HDR, a);
    AlignedMerge(B, brk - HDR, a);
    TiledMerge(B1, brk - HDR, p);
    AlignedMerge(B1, brk - HDR, p);
    IndexedMerge(B, L, loose, a);
    IndexedMerge(B1, L, loose - {n}, p);
    MergeSeparated(B, brk - HDR, loose, a);
    MergeSeparated(B1, brk - HDR, loose - {n}, p);
    assert loose - {n} - {a} == loose - {a, n};
    MergeOnlyChanges(B, a);
    MergeOnlyChanges(B1, p);
    assert OnlyChanges(B, B2, p);
    RetagInv(m, brk, B, B2, L, loose, loose - {a, n}, p);
  }

  /** split_block: the tags of the two halves of the block at `a`. */
  function SplitMem(m: Mem, a: int, n: int, total: int): Mem
    requires 0 <= a && 8 <= n && 8 <= total - n && a + total <= |m| && total < WORD_LIMIT
  {
    m[a := n][a + n - FTR := n][a + n := total - n][a + total - FTR := total - n]
  }

  /** The words that a split writes lie in the block. */
  lemma SplitFrame(m: Mem, B: Blocks, a: int, n: int)
    requires a in B && 0 <= a && End(B, a) <= |m| < WORD_LIMIT
    requires MIN_BLOCK <= n && MIN_BLOCK <= B[a].size - n
    ensures AgreeOutside(m, SplitMem(m, a, n, B[a].size), a, End(B, a))
  {
  }

  /** The two halves of a free block are well tagged. */
  lemma SplitRegion(m: Mem, B: Blocks, a: int, n: int)
    requires a in B && 0 <= a && End(B, a) <= |m| < WORD_LIMIT && !B[a].used
    requires MIN_BLOCK <= n && MIN_BLOCK <= B[a].size - n
    ensures var m' := SplitMem(m, a, n, B[a].size);
            var B' := SplitBlocks(B, a, n);
            BlockTagged(m', a, B'[a]) && BlockTagged(m', a + n, B'[a + n])
  {
  }

  lemma SplitOthers(B: Blocks, epi: int, a: int, n: int)
    requires Tiled(B, epi) && a in B && MIN_BLOCK <= n && MIN_BLOCK <= B[a].size - n
    ensures var B' := SplitBlocks(B, a, n);
            && FIRST <= a <= End(B, a) <= epi
            && a in B' && a + n in B'
            && forall y | y in B' && y != a && y != a + n ::
                 y in B && B[y] == B'[y] && (y + B[y].size <= a || End(B, a) <= y)
  {
  }

  lemma SplitTags(m: Mem, B: Blocks, epi: int, a: int, n: int)
    requires |m| < WORD_LIMIT && Tiled(B, epi) && Tagged(m, B, epi) && a in B && !B[a].used
    requires MIN_BLOCK <= n && MIN_BLOCK <= B[a].size - n
    requires Tiled(SplitBlocks(B, a, n), epi)
    ensures Tagged(SplitMem(m, a, n, B[a].size), SplitBlocks(B, a, n), epi)
  {
    hide Tiled, AgreeOutside, Tagged, SplitMem, SplitBlocks, BlockTagged;
    TaggedRoom(m, B, epi);
    SplitOthers(B, epi, a, n);
    SplitFrame(m, B, a, n);
    SplitRegion(m, B, a, n);
    RegionTags(m, SplitMem(m, a, n, B[a].size), B, SplitBlocks(B, a, n), epi, a, End(B, a));
  }

  lemma TaggedRoom(m: Mem, B: Blocks, epi: int)
    requires Tagged(m, B, epi)
    ensures FIRST <= epi && epi + HDR <= |m|
  {
  }

  lemma SplitLinks(m: Mem, B: Blocks, epi: int, a: int, n: int)
    requires |m| < WORD_LIMIT && epi <= |m| && Tiled(B, epi) && a in B && !B[a].used
    requires MIN_BLOCK <= n && MIN_BLOCK <= B[a].size - n
    ensures SameLinks(m, SplitMem(m, a, n, B[a].size), B)
    ensures PayloadsKept(m, SplitMem(m, a, n, B[a].size), B)
  {
  }

  lemma SplitSeparated(B: Blocks, epi: int, loose: set<int>, a: int, n: int)
    requires Tiled(B, epi) && Separated(B, loose) && a in B
    requires MIN_BLOCK <= n && MIN_BLOCK <= B[a].size - n
    ensures Separated(SplitBlocks(B, a, n), loose + {a, a + n})
  {
    var B' := SplitBlocks(B, a, n);
    assert a + n !in B;
    assert forall x {:trigger End(B', x)} | x in B && x != a :: End(B', x) == End(B, x);
  }

  /** Cutting a free block keeps the heap; both halves are left to be worked on. */
  lemma SplitInv(m: Mem, brk: int, B: Blocks, L: Lists, loose: set<int>, a: int, n: int)
    requires Inv(m, brk, B, L, loose) && a in B && !B[a].used && n % 8 == 0
    requires MIN_BLOCK <= n && MIN_BLOCK <= B[a].size - n
    ensures var B' := SplitBlocks(B, a, n);
            var m' := SplitMem(m, a, n, B[a].size);
            && Inv(m', brk, B', L, loose + {a, a + n})
            && a + n !in B && Unlisted(L, a + n)
            && PayloadsKept(m, m', B)
  {
    hide Tiled, Aligned, Tagged, Indexed, Rings, Separated, SamePayloads, SameLinks, EntriesIn;
    HeapFacts(m, brk, B, L, loose);
    TiledAt(B, brk - HDR, a);
    var B' := SplitBlocks(B, a, n);
    var m' := SplitMem(m, a, n, B[a].size);
    TiledSplit(B, brk - HDR, a, n);
    AlignedSplit(B, brk - HDR, a, n);
    SplitTags(m, B, brk - HDR, a, n);
    SplitLinks(m, B, brk - HDR, a, n);
    SplitSeparated(B, brk - HDR, loose, a, n);
    IndexedSplit(B, L, loose, a, n);
    RingsFrame(m, m', B, L);
  }

  /** The epilogue header written at `e`. */
  function EpilogueMem(m: Mem, e: int): Mem
    requires 0 <= e && e + 16 < |m| && |m| < WORD_LIMIT
  {
    m[e + 8 := e][e + 16 := e][e := HDR + 1]
  }

  /** mm_malloc after mem_sbrk: the old epilogue becomes a used block of `n` bytes. */
  function GrowMem(m: Mem, epi: int, n: int): Mem
    requires 0 <= epi && MIN_BLOCK <= n && epi + n + HDR <= |m| < WORD_LIMIT - 1
  {
    EpilogueMem(m[epi := n + 1][epi + n - FTR := n + 1], epi + n)
  }

  lemma GrowTags(m: Mem, B: Blocks, epi: int, n: int)
    requires Tiled(B, epi) && Tagged(m, B, epi)
    requires MIN_BLOCK <= n && epi + n + HDR <= |m| < WORD_LIMIT - 1
    ensures Tagged(GrowMem(m, epi, n), B[epi := Block(n, true)], epi + n)
  {
    var m' := GrowMem(m, epi, n);
    forall y | y in B
      ensures y != epi && BlockTagged(m', y, B[y])
    {
      assert BlockTagged(m, y, B[y]);
    }
  }

  lemma GrowLinks(m: Mem, B: Blocks, epi: int, n: int)
    requires Tiled(B, epi)
    requires MIN_BLOCK <= n && epi + n + HDR <= |m| < WORD_LIMIT - 1
    ensures SameLinks(m, GrowMem(m, epi, n), B) && PayloadsKept(m, GrowMem(m, epi, n), B)
  {
  }

  lemma GrowSeparated(B: Blocks, epi: int, loose: set<int>, n: int)
    requires Tiled(B, epi) && Separated(B, loose)
    ensures Separated(B[epi := Block(n, true)], loose)
  {
    var B' := B[epi := Block(n, true)];
    assert forall x {:trigger End(B', x)} | x in B && x != epi :: End(B', x) == End(B, x);
  }

  lemma GrowInv(m: Mem, brk: int, B: Blocks, L: Lists, loose: set<int>, n: int)
    requires Inv(m, brk, B, L, loose) && MIN_BLOCK <= n && n % 8 == 0 && brk + n <= MAX_HEAP
    ensures var m' := GrowMem(m, brk - HDR, n);
            && brk - HDR !in B
            && Inv(m', brk + n, B[brk - HDR := Block(n, true)], L, loose)
            && PayloadsKept(m, m', B)
  {
    hide Tiled, Aligned, Tagged, Indexed, Rings, Separated, SamePayloads, SameLinks, EntriesIn;
    var epi := brk - HDR;
    var B' := B[epi := Block(n, true)];
    HeapFacts(m, brk, B, L, loose);
    AlignedGrow(B, epi, n);
    TiledGrow(B, epi, n, true);
    GrowTags(m, B, epi, n);
    GrowLinks(m, B, epi, n);
    GrowSeparated(B, epi, loose, n);
    IndexedGrow(B, L, loose, epi, n);
    RingsFrame(m, GrowMem(m, epi, n), B, L);
  }

  /** mm_realloc, case 4: the last block `a` is extended to `n` bytes; the old
      epilogue's size word was overwritten first. */
  function ExtendMem(m: Mem, epi: int, a: int, n: int): Mem
    requires 0 <= a < epi < a + n && MIN_BLOCK <= n && a + n + HDR <= |m| < WORD_LIMIT - 1
  {
    EpilogueMem(m[epi := HDR][a := n + 1][a + n - FTR := n + 1], a + n)
  }

  /** The same stores when mem_sbrk has failed: the break and with it the epilogue
      have not moved. */
  function UngrownMem(m: Mem, epi: int, a: int, n: int): Mem
    requires 0 <= a < epi < a + n <= |m| < WORD_LIMIT - 1 && MIN_BLOCK <= n && epi + HDR <= |m|
  {
    EpilogueMem(m[epi := HDR][a := n + 1][a + n - FTR := n + 1], epi)
  }

  /** m' is m after those stores; the footer lies in the memory area. */
  ghost predicate UngrownFrom(m: Mem, m': Mem, epi: int, a: int, n: int) {
    && 0 <= a < epi < a + n <= |m| < WORD_LIMIT - 1 && MIN_BLOCK <= n && epi + HDR <= |m|
    && m' == UngrownMem(m, epi, a, n)
  }

  /** The stores before that of the footer, when the footer does not. */
  ghost predicate AstrayFrom(m: Mem, m': Mem, epi: int, a: int, n: int) {
    && 0 <= a < epi < |m| < a + n && n + 1 < WORD_LIMIT
    && m' == m[epi := HDR][a := n + 1]
  }

  lemma ExtendTags(m: Mem, B: Blocks, epi: int, a: int, n: int)
    requires Tiled(B, epi) && Tagged(m, B, epi) && a in B && B[a].used && End(B, a) == epi
    requires B[a].size < n && a + n + HDR <= |m| < WORD_LIMIT - 1
    ensures Tagged(ExtendMem(m, epi, a, n), B[a := Block(n, true)], a + n)
  {
    var m' := ExtendMem(m, epi, a, n);
    forall y | y in B && y != a
      ensures BlockTagged(m', y, B[y])
    {
      assert BlockTagged(m, y, B[y]);
    }
  }

  lemma ExtendLinks(m: Mem, B: Blocks, epi: int, a: int, n: int)
    requires Tiled(B, epi) && a in B && End(B, a) == epi
    requires B[a].size < n && a + n + HDR <= |m| < WORD_LIMIT - 1
    ensures SameLinks(m, ExtendMem(m, epi, a, n), B) && PayloadsKept(m, ExtendMem(m, epi, a, n), B)
  {
  }

  lemma ExtendSeparated(B: Blocks, loose: set<int>, a: int, n: int)
    requires Separated(B, loose) && a in B
    ensures Separated(B[a := Block(n, true)], loose)
  {
    var B' := B[a := Block(n, true)];
    assert forall x {:trigger End(B', x)} | x in B && x != a :: End(B', x) == End(B, x);
  }

  lemma ExtendInv(m: Mem, brk: int, B: Blocks, L: Lists, loose: set<int>, a: int, n: int)
    requires Inv(m, brk, B, L, loose) && a in B && B[a].used && End(B, a) == brk - HDR
    requires B[a].size < n && n % 8 == 0 && a + n + HDR <= MAX_HEAP
    requires Unlisted(L, a)
    ensures var m' := ExtendMem(m, brk - HDR, a, n);
            && Inv(m', a + n + HDR, B[a := Block(n, true)], L, loose)
            && PayloadsKept(m, m', B)
  {
    hide Tiled, Aligned, Tagged, Indexed, Rings, Separated, SamePayloads, SameLinks, EntriesIn;
    var epi := brk - HDR;
    var B' := B[a := Block(n, true)];
    HeapFacts(m, brk, B, L, loose);
    TiledAt(B, epi, a);
    ExtendSeparated(B, loose, a, n);
    AlignedExtend(B, epi, a, n);
    TiledExtend(B, epi, a, n);
    ExtendTags(m, B, epi, a, n);
    ExtendLinks(m, B, epi, a, n);
    IndexedExtend(B, L, loose, a, n);
    RingsFrame(m, ExtendMem(m, epi, a, n), B, L);
  }

  /** An allocated block that is on no list needs no further work. */
  lemma SettleInv(m: Mem, brk: int, B: Blocks, L: Lists, loose: set<int>, a: int)
    requires Inv(m, brk, B, L, loose) && a in B && B[a].used && Unlisted(L, a)
    ensures Inv(m, brk, B, L, loose - {a})
  {
    IndexedChange(B, B, L, loose, loose - {a});
    SettleSeparated(B, loose, a);
  }

  lemma SettleSeparated(B: Blocks, loose: set<int>, a: int)
    requires Separated(B, loose) && a in B && B[a].used
    ensures Separated(B, loose - {a})
  {
  }

  // ------------------------------------------------- where the pointers point

  ghost predicate NodeAddress(brk: int, x: int) {
    0 <= x && x % 8 == 0 && (x + 8) % 8 == 0 && (x + 16) % 8 == 0 && x + HDR <= brk
  }

  /** Where the epilogue lies after the block `a` of `n` bytes was put before it. */
  lemma NodeAfter(brk: int, a: int, n: int)
    requires NodeAddress(brk, a) && n % 8 == 0 && MIN_BLOCK <= n
    ensures a % 8 == 0 && (a + n) % 8 == 0 && n % 8 == 0
    ensures NodeAddress(a + n + HDR, a) && NodeAddress(a + n + HDR, a + n)
  {
  }

  /** A block or a list head can hold a list node, and any two are apart. */
  lemma NodePlace(m: Mem, brk: int, B: Blocks, L: Lists, loose: set<int>, x: int, a: int)
    requires Inv(m, brk, B, L, loose) && a in B && (x in B || IsHead(x))
    ensures NodeAddress(brk, x) && NodeAddress(brk, a) && a + HDR <= |m| && x + 8 != a + 16
  {
    hide Tagged, Indexed, Rings, Separated;
  }

  /** The words of a listed node, and that it does not follow itself. */
  lemma ListedLinks(m: Mem, brk: int, B: Blocks, L: Lists, loose: set<int>, l: int, k: nat)
    requires Inv(m, brk, B, L, loose) && 0 <= l < LISTS && k < |L[l]|
    ensures var a := L[l][k];
            && a in B && 0 <= a && a + 16 < |m|
            && (m[a + 8] in B || IsHead(m[a + 8])) && (m[a + 16] in B || IsHead(m[a + 16])) && m[a + 16] != a
  {
    hide Aligned, Tagged, Separated;
    var r := Loop(l, L[l]);
    assert Ring(m, l, L[l]) && Linked(m, r, k) && Linked(m, r, k + 1);
    assert r[k + 1] == L[l][k];
    assert r[k] in B || r[k] == HDR * l;
    assert r[k + 2] in B || r[k + 2] == HDR * l;
  }

  lemma ListedNode(m: Mem, brk: int, B: Blocks, L: Lists, loose: set<int>, l: int, k: nat)
    requires Inv(m, brk, B, L, loose) && 0 <= l < LISTS && k < |L[l]|
    ensures var a := L[l][k];
            && NodeAddress(brk, a) && a + HDR <= |m| && a in B
            && NodeAddress(brk, m[a + 8]) && NodeAddress(brk, m[a + 16])
            && m[a + 16] + 8 != a + 16 && m[a + 16] + 8 != a + 8
  {
    hide HeapOk, NodeAddress, IsHead;
    HeapFacts(m, brk, B, L, loose);
    var a := L[l][k];
    ListedLinks(m, brk, B, L, loose, l, k);
    NodePlace(m, brk, B, L, loose, m[a + 8], a);
    NodePlace(m, brk, B, L, loose, m[a + 16], a);
  }

  lemma HeadNode(m: Mem, brk: int, B: Blocks, L: Lists, loose: set<int>, l: int, a: int)
    requires Inv(m, brk, B, L, loose) && 0 <= l < LISTS && a in B && Unlisted(L, a)
    ensures NodeAddress(brk, HDR * l) && NodeAddress(brk, m[HDR * l + 8])
    ensures Apart(a, HDR * l) && Apart(a, m[HDR * l + 8]) && HDR * LISTS <= a
  {
    var r := Loop(l, L[l]);
    assert Ring(m, l, L[l]) && Linked(m, r, 0);
    assert r[1] in L[l] || r[1] == HDR * l;
  }

  /** What the header and the footer of a block read. */
  lemma BlockHeader(m: Mem, brk: int, B: Blocks, L: Lists, loose: set<int>, a: int)
    requires Inv(m, brk, B, L, loose) && a in B
    ensures NodeAddress(brk, a) && FIRST <= a
    ensures B[a].size % 8 == 0 && MIN_BLOCK <= B[a].size && End(B, a) <= brk - HDR
    ensures End(B, a) in B || End(B, a) == brk - HDR
    ensures m[a] == Tag(B[a]) && m[End(B, a) - FTR] == Tag(B[a])
    ensures if B[a].used then m[a] % 2 == 1 && m[a] == B[a].size + 1 else m[a] % 2 == 0 && m[a] == B[a].size
  {
    hide Rings, Indexed, Separated;
    assert BlockTagged(m, a, B[a]);
    assert a % 8 == 0 && B[a].size % 8 == 0;
    TagParity(B[a]);
    assert End(B, a) in B || End(B, a) == brk - HDR;
  }

  lemma TagParity(b: Block)
    requires b.size % 8 == 0
    ensures Tag(b) % 2 == if b.used then 1 else 0
  {
    Even(b.size);
  }

  lemma RingFirst(m: Mem, brk: int, B: Blocks, L: Lists, loose: set<int>, l: int)
    requires Inv(m, brk, B, L, loose) && 0 <= l < LISTS
    ensures NodeAddress(brk, HDR * l)
    ensures m[HDR * l + 8] == if |L[l]| > 0 then L[l][0] else HDR * l
  {
    assert Ring(m, l, L[l]) && Linked(m, Loop(l, L[l]), 0);
  }

  /** The k-th node of list `l` is a free block whose next_p is the node after it,
      or the list head at the end. */
  lemma RingNode(m: Mem, brk: int, B: Blocks, L: Lists, loose: set<int>, l: int, k: nat)
    requires Inv(m, brk, B, L, loose) && 0 <= l < LISTS && k < |L[l]| && L[l][k] !in loose
    ensures var x := L[l][k];
            && NodeAddress(brk, x) && x != HDR * l
            && m[x + 8] == (if k + 1 < |L[l]| then L[l][k + 1] else HDR * l)
            && x in B && m[x] == B[x].size && m[x] % 2 == 0
  {
    assert Ring(m, l, L[l]) && Linked(m, Loop(l, L[l]), k + 1);
    assert Loop(l, L[l])[k + 1] == L[l][k];
    BlockHeader(m, brk, B, L, loose, L[l][k]);
  }

  /** The tag before a block: that of its predecessor, or the sentinel. */
  lemma TagBefore(m: Mem, brk: int, B: Blocks, L: Lists, loose: set<int>, a: int) returns (p: int)
    requires Inv(m, brk, B, L, loose) && a in B
    ensures FIRST <= a && NodeAddress(brk, a - FTR)
    ensures if a == FIRST then m[a - FTR] == 1 && forall x | x in B :: End(B, x) != a
            else p in B && End(B, p) == a && m[a - FTR] == Tag(B[p]) && forall x | x in B && End(B, x) == a :: x == p
  {
    if a == FIRST {
      p := a;
    } else {
      p := PredecessorFrom(B, brk - HDR, FIRST, a);
      assert BlockTagged(m, p, B[p]);
    }
  }

  /** The tag after a block: that of its successor, or the epilogue. */
  lemma TagAfter(m: Mem, brk: int, B: Blocks, L: Lists, loose: set<int>, a: int)
    requires Inv(m, brk, B, L, loose) && a in B
    ensures NodeAddress(brk, End(B, a))
    ensures m[End(B, a)] % 2 == if End(B, a) in B && !B[End(B, a)].used then 0 else 1
    ensures if End(B, a) in B then m[End(B, a)] == Tag(B[End(B, a)])
            else End(B, a) == brk - HDR && m[End(B, a)] == HDR + 1
  {
    BlockHeader(m, brk, B, L, loose, a);
    if End(B, a) in B {
      BlockHeader(m, brk, B, L, loose, End(B, a));
    }
  }

  // -------------------------------------------- what the operations rely on

  /** split_block on a listed free block: the words it reads, and that the block
      after the remainder is never free. */
  lemma SplitStep(m: Mem, brk: int, B: Blocks, L: Lists, a: int, n: int)
    requires Inv(m, brk, B, L, {}) && a in B && !B[a].used && n % 8 == 0
    requires MIN_BLOCK <= n && MIN_BLOCK <= B[a].size - n
    ensures NodeAddress(brk, a) && NodeAddress(brk, End(B, a)) && (B[a].size - n) % 8 == 0
    ensures |m| == MAX_HEAP && 0 <= End(B, a) < |m| && a + n !in B && Unlisted(L, a + n)
    ensures var B' := SplitBlocks(B, a, n);
            var m' := SplitMem(m, a, n, B[a].size);
            && Inv(m', brk, B', L, {a, a + n})
            && m'[End(B, a)] % 2 == 1
            && Separated(B', {a})
            && PayloadsKept(m, m', B)
            && a in B' && !B'[a].used && B'[a].size == n
            && a + n in B' && !B'[a + n].used && B'[a + n].size == B[a].size - n
            && StillUsed(B, B')
  {
    hide Tiled, Aligned, Tagged, Indexed, Rings, Separated, Unlisted, SamePayloads, SplitBlocks, SplitMem, StillUsed,
         NodeAddress;
    BlockHeader(m, brk, B, L, {}, a);
    TagAfter(m, brk, B, L, {}, a);
    SplitInv(m, brk, B, L, {}, a, n);
    SplitFacts(m, B, a, n);
    assert {} + {a, a + n} == {a, a + n};
    SplitLeavesNeighbours(B, brk - HDR, a, n);
  }

  lemma SplitFacts(m: Mem, B: Blocks, a: int, n: int)
    requires a in B && 0 <= a && End(B, a) < |m| == MAX_HEAP && !B[a].used && a + n !in B
    requires MIN_BLOCK <= n && MIN_BLOCK <= B[a].size - n && n % 8 == 0 && B[a].size % 8 == 0
    ensures var B' := SplitBlocks(B, a, n);
            && SplitMem(m, a, n, B[a].size)[End(B, a)] == m[End(B, a)]
            && a in B' && !B'[a].used && B'[a].size == n
            && a + n in B' && !B'[a + n].used && B'[a + n].size == B[a].size - n
            && StillUsed(B, B') && (B[a].size - n) % 8 == 0
  {
  }

  lemma SplitLeavesNeighbours(B: Blocks, epi: int, a: int, n: int)
    requires Tiled(B, epi) && Separated(B, {}) && a in B && !B[a].used && a + n !in B && 0 < n < B[a].size
    ensures Separated(SplitBlocks(B, a, n), {a})
    ensures End(B, a) in B ==> B[End(B, a)].used
  {
    var B' := SplitBlocks(B, a, n);
    assert End(B', a + n) == End(B, a);
    assert forall x {:trigger End(B', x)} | x in B && x != a :: End(B', x) == End(B, x);
  }

  /** Marking block `a`: the words read and the words written. */
  lemma MarkStep(m: Mem, brk: int, B: Blocks, L: Lists, loose: set<int>, a: int, used: bool)
    requires Inv(m, brk, B, L, loose) && a in B
    ensures NodeAddress(brk, a) && NodeAddress(brk, End(B, a)) && End(B, a) + HDR <= brk <= MAX_HEAP == |m|
    ensures MIN_BLOCK <= B[a].size && ClearLow(m[a]) == B[a].size && m[End(B, a) - FTR] == m[a]
    ensures SetLow(m[a]) == B[a].size + 1 && B[a].size % 2 == 0 && B[a].size < MAX_HEAP
    ensures m[a] == Tag(B[a])
    ensures var B' := B[a := Block(B[a].size, used)];
            && Inv(RetagMem(m, B', a), brk, B', L, loose + {a})
            && PayloadsKept(m, RetagMem(m, B', a), B)
  {
    hide HeapOk, SamePayloads, NodeAddress, SetLow, ClearLow;
    BlockHeader(m, brk, B, L, loose, a);
    LowBits(B[a].size);
    Even(B[a].size);
    TagAfter(m, brk, B, L, loose, a);
    HeapFacts(m, brk, B, L, loose);
    MarkInv(m, brk, B, L, loose, a, used);
  }

  // ------------------------------------------------------ payloads, composed

  /** Every allocated block of B1 is allocated in B2 and no smaller. */
  ghost predicate StillUsed(B1: Blocks, B2: Blocks) {
    forall a | a in B1 && B1[a].used :: a in B2 && B2[a].used && B2[a].size >= B1[a].size
  }

  lemma KeptSame(m: Mem, B: Blocks)
    ensures PayloadsKept(m, m, B)
  {
  }

  lemma KeptTwice(m1: Mem, m2: Mem, m3: Mem, B1: Blocks, B2: Blocks)
    requires PayloadsKept(m1, m2, B1) && PayloadsKept(m2, m3, B2)
    requires StillUsed(B1, B2)
    ensures PayloadsKept(m1, m3, B1)
  {
  }
}
