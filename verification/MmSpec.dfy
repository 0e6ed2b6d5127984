/** What the operations of mps/05/mm.c do to the blocks and the free lists. */
module MmSpec {
  import opened Wrappers
  import opened Memlib
  import opened FreeLists
  import opened MmLayout
  import opened MmSteps

  /** How a request ends: with NULL, with a pointer, or in a way that breaks the heap.
      `Fault` is a store through `(void *)-1`, made by mm_malloc when mem_sbrk has failed;
      `Ungrown` is the pointer that mm_realloc returns for the last block when mem_sbrk
      has failed, and `Astray` the same when the footer would be stored past the memory
      area; `Overrun` is a memcpy past the end of the payload at `addr`. */
  datatype Outcome = Null | Ptr(addr: int) | Fault | Ungrown(addr: int) | Astray | Overrun(addr: int)

  // ------------------------------------------------------------ request sizes

  /** ALIGN on a size_t: rounds up to a multiple of 8, modulo 2^64. */
  function Align8(x: int): int {
    (x + 7) % WORD_LIMIT / 8 * 8
  }

  /** Conversion of a size_t to int. */
  function ToInt32(x: int): int {
    var low := x % 0x1_0000_0000;
    if low < 0x8000_0000 then low else low - 0x1_0000_0000
  }

  /** `int new_size = ALIGN(size + BLK_HDR_FTR_SIZE)` */
  function RequestSize(size: int): int {
    ToInt32(Align8(size + HDR + FTR))
  }

  const MAX_REQUEST := 0x8000_0000 - 40

  /** The block size computed for a request leaves room for it exactly when the
      conversion to int does not overflow. */
  lemma RequestSizeFits(size: word)
    ensures RequestSize(size) >= size + HDR + FTR <==> size <= MAX_REQUEST
    ensures size <= MAX_REQUEST ==>
              RequestSize(size) % 8 == 0 && RequestSize(size) < size + HDR + FTR + 8 &&
              RequestSize(size) == Align8(size + HDR + FTR)
  {
  }

  /** Conversion of an int to size_t. */
  function SizeT(n: int): int {
    if n < 0 then n + WORD_LIMIT else n
  }

  /** The requests for which the computed size is one that the rest of mm_malloc copes
      with: a block size, or so far below 0 that mem_sbrk refuses it. */
  predicate Served(size: int) {
    0 <= size < WORD_LIMIT && (size == 0 || MIN_BLOCK <= RequestSize(size) || RequestSize(size) < -HDR)
  }

  lemma ServedRange(size: int)
    requires Served(size) && size > 0
    ensures var n := RequestSize(size);
            && n % 8 == 0 && -0x8000_0000 <= n < 0x8000_0000 && (MIN_BLOCK <= n || n < -HDR)
            && 0 <= SizeT(n) < WORD_LIMIT && ToInt32(SizeT(n)) == n
  {
    var x := Align8(size + HDR + FTR);
    LowHalf(x);
    LowHalf(SizeT(RequestSize(size)));
  }

  /** Both conversions keep the low 32 bits. */
  lemma LowHalf(x: int)
    requires 0 <= x < WORD_LIMIT
    ensures -0x8000_0000 <= ToInt32(x) < 0x8000_0000 && (x % 8 == 0 ==> ToInt32(x) % 8 == 0)
    ensures x < 0x8000_0000 ==> ToInt32(x) == x
    ensures x >= WORD_LIMIT - 0x8000_0000 ==> ToInt32(x) == x - WORD_LIMIT
  {
  }

  // ------------------------------------------------------------------ search

  function FirstIn(B: Blocks, xs: seq<int>, n: int): (r: Option<int>)
    ensures r.Some? ==> r.value in xs && r.value in B && B[r.value].size >= n
  {
    if xs == [] then None
    else if xs[0] in B && B[xs[0]].size >= n then Some(xs[0])
    else FirstIn(B, xs[1..], n)
  }

  /** The first block of at least `n` bytes on lists l, l+1, ... */
  function FirstFit(B: Blocks, L: Lists, l: nat, n: int): (r: Option<int>)
    ensures r.Some? ==> r.value in B && B[r.value].size >= n
    decreases |L| - l
  {
    if l >= |L| then None
    else if FirstIn(B, L[l], n).Some? then FirstIn(B, L[l], n)
    else FirstFit(B, L, l + 1, n)
  }

  // ------------------------------------------------------------- allocation

  const SPLIT_MIN := HDR + FTR + 40

  function Carve(B: Blocks, a: int, n: int): Blocks
    requires a in B
  {
    var B1 := if B[a].size - n > SPLIT_MIN then SplitBlocks(B, a, n) else B;
    B1[a := Block(B1[a].size, true)]
  }

  function Drop(xs: seq<int>, a: int): seq<int> {
    if xs == [] then [] else if xs[0] == a then xs[1..] else [xs[0]] + Drop(xs[1..], a)
  }

  /** The lists without block `a`. */
  function Delist(L: Lists, a: int): Lists {
    seq(|L|, l requires 0 <= l < |L| => Drop(L[l], a))
  }

  /** The lists with block `a` of `size` bytes at the front of its list. */
  function Enlist(L: Lists, a: int, size: int): Lists {
    var l := MapToList(size);
    if l < |L| then L[l := [a] + L[l]] else L
  }

  function CarveLists(B: Blocks, L: Lists, a: int, n: int): Lists
    requires a in B
  {
    var rest := B[a].size - n;
    Delist(if rest > SPLIT_MIN then Enlist(L, a + n, rest) else L, a)
  }

  // ---------------------------------------------------------------- freeing

  /** The free block that ends where `a` starts, if there is one. */
  ghost function FreeBefore(B: Blocks, a: int): Option<int> {
    if exists p :: p in B && !B[p].used && End(B, p) == a
    then var p :| p in B && !B[p].used && End(B, p) == a; Some(p)
    else None
  }

  function FreeAfter(B: Blocks, a: int): Option<int> {
    if a in B && End(B, a) in B && !B[End(B, a)].used then Some(End(B, a)) else None
  }

  /** The blocks after a free block `a` has been joined with its free neighbours. */
  ghost function Coalesced(B: Blocks, a: int): Blocks {
    var B1 := if FreeAfter(B, a).Some? then MergeBlocks(B, a) else B;
    var p := FreeBefore(B, a);
    if p.Some? && p.value in B1 && End(B1, p.value) in B1 then MergeBlocks(B1, p.value) else B1
  }

  ghost function CoalescedStart(B: Blocks, a: int): int {
    if FreeBefore(B, a).Some? then FreeBefore(B, a).value else a
  }

  ghost function CoalescedLists(B: Blocks, L: Lists, a: int): Lists {
    var L1 := if FreeAfter(B, a).Some? then Delist(L, FreeAfter(B, a).value) else L;
    if FreeBefore(B, a).Some? then Delist(L1, FreeBefore(B, a).value) else L1
  }

  /** The blocks with the allocated bit of block `a` cleared. */
  function Unmarked(B: Blocks, a: int): Blocks {
    if a in B then B[a := Block(B[a].size, false)] else B
  }

  ghost function Freed(B: Blocks, a: int): Blocks {
    Coalesced(Unmarked(B, a), a)
  }

  ghost function FreedLists(B: Blocks, L: Lists, a: int): Lists {
    var B1 := Unmarked(B, a);
    var h := CoalescedStart(B1, a);
    var B2 := Coalesced(B1, a);
    var L1 := CoalescedLists(B1, L, a);
    if h in B2 then Enlist(L1, h, B2[h].size) else L1
  }

  // ---------------------------------------------------------- the operations

  datatype View = View(brk: int, blocks: Blocks, lists: Lists)

  /** mm_malloc */
  function MallocView(v: View, size: int): (View, Outcome) {
    if size == 0 then (v, Null) else
    var n := RequestSize(size);
    var fit := FirstFit(v.blocks, v.lists, MapToList(n), SizeT(n));
    if fit.Some? then
      var a := fit.value;
      (View(v.brk, Carve(v.blocks, a, n), CarveLists(v.blocks, v.lists, a, n)), Ptr(a + HDR))
    else if 0 <= n + HDR && v.brk + n + HDR <= MAX_HEAP then
      (View(v.brk + n + HDR, v.blocks[v.brk - HDR := Block(n + HDR, true)], v.lists), Ptr(v.brk))
    else
      (v, Fault)
  }

  /** mm_free of the block with header `a` */
  ghost function FreeView(v: View, a: int): View {
    View(v.brk, Freed(v.blocks, a), FreedLists(v.blocks, v.lists, a))
  }

  // ------------------------------------------------- the free lists as a set

  ghost predicate Listed(L: Lists, a: int) {
    exists l, k :: 0 <= l < |L| && 0 <= k < |L[l]| && L[l][k] == a
  }

  lemma {:induction false} DropAt(xs: seq<int>, k: nat)
    requires k < |xs| && forall i | 0 <= i < k :: xs[i] != xs[k]
    ensures Drop(xs, xs[k]) == Without(xs, k)
  {
    if k > 0 {
      DropAt(xs[1..], k - 1);
      assert Without(xs, k) == [xs[0]] + Without(xs[1..], k - 1);
    }
  }

  lemma {:induction false} DropAbsent(xs: seq<int>, a: int)
    requires a !in xs
    ensures Drop(xs, a) == xs
  {
    if xs != [] {
      DropAbsent(xs[1..], a);
    }
  }

  /** Delisting a block takes it out of the one place where it is. */
  lemma DelistAt(B: Blocks, L: Lists, loose: set<int>, l: int, k: nat)
    requires Indexed(B, L, loose) && 0 <= l < LISTS && k < |L[l]|
    ensures Delist(L, L[l][k]) == L[l := Without(L[l], k)]
  {
    var a := L[l][k];
    DropAt(L[l], k);
    forall i | 0 <= i < LISTS && i != l
      ensures Drop(L[i], a) == L[i]
    {
      DropAbsent(L[i], a);
    }
    assert Delist(L, a) == L[l := Without(L[l], k)];
  }

  lemma DelistInv(m: Mem, brk: int, B: Blocks, L: Lists, loose: set<int>, l: int, k: nat)
    requires Inv(m, brk, B, L, loose) && 0 <= l < LISTS && k < |L[l]|
    ensures Delist(L, L[l][k]) == L[l := Without(L[l], k)]
  {
    DelistAt(B, L, loose, l, k);
  }

  lemma ListedIn(L: Lists, l: int, a: int)
    requires 0 <= l < |L| && a in L[l]
    ensures Listed(L, a)
  {
    var k :| 0 <= k < |L[l]| && L[l][k] == a;
  }

  lemma FreeIsListed(B: Blocks, L: Lists, loose: set<int>, a: int)
    requires Indexed(B, L, loose) && a in B && !B[a].used && a !in loose
    ensures Listed(L, a)
  {
    ListedIn(L, MapToList(B[a].size), a);
  }

  // ------------------------------------------------------ first fit, meaning

  ghost predicate TooSmall(B: Blocks, xs: seq<int>, k: nat, n: int) {
    k <= |xs| && forall i | 0 <= i < k :: xs[i] in B ==> B[xs[i]].size < n
  }

  lemma FirstFitSkips(B: Blocks, L: Lists, l: nat, n: int)
    ensures l >= |L| ==> FirstFit(B, L, l, n) == None
    ensures l < |L| && FirstIn(B, L[l], n).Some? ==> FirstFit(B, L, l, n) == FirstIn(B, L[l], n)
    ensures l < |L| && FirstIn(B, L[l], n).None? ==> FirstFit(B, L, l, n) == FirstFit(B, L, l + 1, n)
  {
  }

  lemma TooSmallStart(B: Blocks, xs: seq<int>, n: int)
    ensures TooSmall(B, xs, 0, n)
  {
  }

  lemma TooSmallStep(B: Blocks, xs: seq<int>, k: nat, n: int)
    requires TooSmall(B, xs, k, n) && k < |xs| && (xs[k] in B ==> B[xs[k]].size < n)
    ensures TooSmall(B, xs, k + 1, n)
  {
  }

  lemma {:induction false} FirstInSkips(B: Blocks, xs: seq<int>, k: nat, n: int)
    requires TooSmall(B, xs, k, n)
    ensures k == |xs| ==> FirstIn(B, xs, n).None?
    ensures k < |xs| && xs[k] in B && B[xs[k]].size >= n ==> FirstIn(B, xs, n) == Some(xs[k])
  {
    if k > 0 {
      FirstInSkips(B, xs[1..], k - 1, n);
    }
  }

  lemma {:induction false} FirstInMeaning(B: Blocks, xs: seq<int>, n: int)
    ensures var r := FirstIn(B, xs, n);
            if r.Some? then r.value in xs && r.value in B && B[r.value].size >= n
            else forall x | x in xs && x in B :: B[x].size < n
  {
    if xs != [] && !(xs[0] in B && B[xs[0]].size >= n) {
      FirstInMeaning(B, xs[1..], n);
    }
  }

  /** The first of the list that is large enough. */
  lemma {:induction false} FirstInOrder(B: Blocks, xs: seq<int>, n: int) returns (i: nat)
    requires FirstIn(B, xs, n).Some?
    ensures i < |xs| && FirstIn(B, xs, n) == Some(xs[i]) && xs[i] in B && B[xs[i]].size >= n
    ensures forall j | 0 <= j < i :: xs[j] in B ==> B[xs[j]].size < n
  {
    if xs[0] in B && B[xs[0]].size >= n {
      i := 0;
    } else {
      var k := FirstInOrder(B, xs[1..], n);
      i := k + 1;
    }
  }

  lemma {:induction false} FirstFitMeaning(B: Blocks, L: Lists, l: nat, n: int)
    ensures var r := FirstFit(B, L, l, n);
            if r.Some? then exists k :: l <= k < |L| && r.value in L[k] && r.value in B && B[r.value].size >= n
            else forall k, x | l <= k < |L| && x in L[k] && x in B :: B[x].size < n
    decreases |L| - l
  {
    if l < |L| {
      FirstInMeaning(B, L[l], n);
      if FirstIn(B, L[l], n).None? {
        FirstFitMeaning(B, L, l + 1, n);
      } else {
        assert FirstIn(B, L[l], n).value in L[l];
      }
    }
  }

  /** The search starting at the list of size `n` finds a block exactly when some
      free block is large enough, and then finds a free one. */
  lemma FirstFitComplete(B: Blocks, L: Lists, n: int)
    requires Indexed(B, L, {})
    ensures var r := FirstFit(B, L, MapToList(n), n);
            && (r.Some? <==> exists a :: a in B && !B[a].used && B[a].size >= n)
            && (r.Some? ==> r.value in B && !B[r.value].used && B[r.value].size >= n && Listed(L, r.value))
  {
    var r := FirstFit(B, L, MapToList(n), n);
    FirstFitMeaning(B, L, MapToList(n), n);
    if r.Some? {
      var k :| MapToList(n) <= k < |L| && r.value in L[k] && r.value in B && B[r.value].size >= n;
      ListedIn(L, k, r.value);
    }
  }

  // -------------------------------------------------- what mm_malloc relies on

  lemma RequestRange(size: int)
    requires 0 < size <= MAX_REQUEST
    ensures var n := RequestSize(size);
            n % 8 == 0 && MIN_BLOCK <= n && size + HDR + FTR <= n < size + HDR + FTR + 8
  {
  }

  /** The block that find_fit returns. */
  lemma FitStep(m: Mem, brk: int, B: Blocks, L: Lists, n: int)
    requires Inv(m, brk, B, L, {})
    ensures var r := FirstFit(B, L, MapToList(n), n);
            r.Some? ==>
              var a := r.value;
              && a in B && !B[a].used && B[a].size >= n
              && NodeAddress(brk, a) && m[a] == B[a].size && Listed(L, a)
  {
    var r := FirstFit(B, L, MapToList(n), n);
    FirstFitComplete(B, L, n);
    if r.Some? {
      BlockHeader(m, brk, B, L, {}, r.value);
    }
  }

  /** No block is as large as a negative size is as a size_t. */
  lemma NoneThatLarge(m: Mem, brk: int, B: Blocks, L: Lists, l: nat, n: int)
    requires Inv(m, brk, B, L, {}) && n > MAX_HEAP
    ensures FirstFit(B, L, l, n) == None
  {
    hide Tagged, Indexed, Rings, Separated, Aligned;
    forall a | a in B
      ensures B[a].size < n
    {
      TiledAt(B, brk - HDR, a);
    }
  }

  lemma ListedEnlist(L: Lists, a: int, b: int, size: int)
    requires Listed(L, a)
    ensures Listed(Enlist(L, b, size), a)
  {
    var l, k :| 0 <= l < |L| && 0 <= k < |L[l]| && L[l][k] == a;
    var L' := Enlist(L, b, size);
    if l == MapToList(size) {
      assert L'[l][k + 1] == a;
    } else {
      assert L'[l][k] == a;
    }
  }

  /** The allocated block `a` has just been taken off its list. */
  lemma TakenStep(m: Mem, brk: int, B: Blocks, L: Lists, loose: set<int>, a: int)
    requires Inv(m, brk, B, L, loose) && a in B && B[a].used && Unlisted(L, a) && loose <= {a}
    ensures Inv(m, brk, B, L, {})
  {
    SettleInv(m, brk, B, L, loose, a);
    assert loose - {a} == {};
  }

  lemma GrowStep(m: Mem, brk: int, B: Blocks, L: Lists, n: int)
    requires Inv(m, brk, B, L, {}) && n % 8 == 0
    ensures NodeAddress(brk, brk - HDR) && brk % 8 == 0 && FIRST + HDR <= brk <= |m| == MAX_HEAP
    ensures MIN_BLOCK <= n && brk + n <= MAX_HEAP ==>
              var m' := GrowMem(m, brk - HDR, n);
              Inv(m', brk + n, B[brk - HDR := Block(n, true)], L, {}) && PayloadsKept(m, m', B)
    ensures PayloadsKept(m, m[brk - HDR := HDR], B)
  {
    hide Tiled, Tagged, Aligned, Indexed, Rings, Separated, SamePayloads;
    HeapFacts(m, brk, B, L, {});
    if MIN_BLOCK <= n && brk + n <= MAX_HEAP {
      GrowInv(m, brk, B, L, {}, n);
    }
    FaultKeeps(m, B, brk - HDR);
  }

  lemma FaultKeeps(m: Mem, B: Blocks, epi: int)
    requires Tiled(B, epi) && epi < |m|
    ensures PayloadsKept(m, m[epi := HDR], B)
  {
  }

  /** The tags of the new block, its header stored twice. */
  lemma UsedTags(m: Mem, a: int, n: int, m': Mem)
    requires 0 <= a && 8 <= n && a + n <= |m| < WORD_LIMIT - 1 && |m'| == |m|
    requires m' == m[a := HDR][a := n + 1][a + n - FTR := n + 1]
    ensures m' == m[a := n + 1][a + n - FTR := n + 1]
  {
  }

  lemma TakeKeeps(m0: Mem, m1: Mem, m2: Mem, m3: Mem, B0: Blocks, B1: Blocks, a: int, n: int)
    requires a in B0 && !B0[a].used && a in B1
    requires B1 == B0 || (n > 0 && a + n !in B0 && B1 == SplitBlocks(B0, a, n))
    requires PayloadsKept(m0, m1, B0) && PayloadsKept(m1, m2, B1)
    requires PayloadsKept(m2, m3, B1[a := Block(B1[a].size, true)])
    ensures PayloadsKept(m0, m3, B0)
  {
    var B2 := B1[a := Block(B1[a].size, true)];
    assert StillUsed(B0, B1);
    assert StillUsed(B0, B2);
    KeptTwice(m0, m1, m2, B0, B1);
    KeptTwice(m0, m2, m3, B0, B2);
  }

  // --------------------------------------- what mm_free and coalease rely on

  /** The tags around a free block tell which of its neighbours are free. */
  lemma CoalesceStep(m: Mem, brk: int, B: Blocks, L: Lists, a: int)
    requires Inv(m, brk, B, L, {a}) && a in B && !B[a].used
    ensures NodeAddress(brk, a) && NodeAddress(brk, a - FTR) && NodeAddress(brk, End(B, a)) && brk <= |m|
    ensures m[a] == B[a].size && ClearLow(m[a]) == m[a] && m[a] % 2 == 0
    ensures m[a - FTR] % 2 == 0 <==> FreeBefore(B, a).Some?
    ensures m[End(B, a)] % 2 == 0 <==> FreeAfter(B, a).Some?
    ensures FreeBefore(B, a).Some? ==>
              var p := FreeBefore(B, a).value;
              p in B && !B[p].used && End(B, p) == a && p == a - ClearLow(m[a - FTR]) && Listed(L, p) && p < a
    ensures FreeAfter(B, a).Some? ==>
              var n := FreeAfter(B, a).value;
              n in B && !B[n].used && n == a + ClearLow(m[a]) && Listed(L, n) && a < n
  {
    hide Tiled, Tagged, Aligned, Indexed, Rings, Separated, NodeAddress, ClearLow, Listed;
    BlockHeader(m, brk, B, L, {a}, a);
    HeapFacts(m, brk, B, L, {a});
    LowBits(B[a].size);
    TagAfter(m, brk, B, L, {a}, a);
    var p := TagBefore(m, brk, B, L, {a}, a);
    if a != FIRST {
      BlockHeader(m, brk, B, L, {a}, p);
      LowBits(B[p].size);
      if !B[p].used {
        FreeIsListed(B, L, {a}, p);
      }
    }
    if FreeAfter(B, a).Some? {
      FreeIsListed(B, L, {a}, End(B, a));
    }
  }

  lemma {:induction false} DropKeepsOut(xs: seq<int>, x: int, a: int)
    requires a !in xs
    ensures a !in Drop(xs, x)
  {
    if xs != [] {
      DropKeepsOut(xs[1..], x, a);
    }
  }

  lemma UnlistedDelist(L: Lists, x: int, a: int)
    requires Unlisted(L, a)
    ensures Unlisted(Delist(L, x), a)
  {
    forall l | 0 <= l < |L|
      ensures a !in Delist(L, x)[l]
    {
      DropKeepsOut(L[l], x, a);
    }
  }

  /** Joining the free blocks `p` and its successor: the words read and written. */
  lemma MergeStep(m: Mem, brk: int, B: Blocks, L: Lists, loose: set<int>, p: int)
    requires Inv(m, brk, B, L, loose)
    requires p in B && p in loose && !B[p].used
    requires End(B, p) in B && !B[End(B, p)].used && Unlisted(L, End(B, p))
    ensures var q := End(B, p);
            var n := B[p].size + B[q].size;
            && m[p] == B[p].size && m[q] == B[q].size && m[q - FTR] == B[p].size
            && MIN_BLOCK <= n && n % 8 == 0 && NodeAddress(brk, p) && NodeAddress(brk, p + n) && brk <= |m| == MAX_HEAP
            && var m' := m[p := n][p + n - FTR := n];
            && Inv(m', brk, MergeBlocks(B, p), L, loose - {q})
            && PayloadsKept(m, m', B)
  {
    hide Tiled, Tagged, Aligned, Indexed, Rings, Separated, NodeAddress, SamePayloads, Unlisted;
    HeapFacts(m, brk, B, L, loose);
    BlockHeader(m, brk, B, L, loose, p);
    BlockHeader(m, brk, B, L, loose, End(B, p));
    TagAfter(m, brk, B, L, loose, End(B, p));
    MergeInv(m, brk, B, L, loose, p);
  }

  /** The tags of three neighbours in a row. */
  lemma MergeBothTags(m: Mem, brk: int, B: Blocks, L: Lists, loose: set<int>, p: int, a: int)
    requires Inv(m, brk, B, L, loose)
    requires p in B && !B[p].used && End(B, p) == a && a in B && !B[a].used && End(B, a) in B && !B[End(B, a)].used
    ensures var q := End(B, a);
            && m[p] == B[p].size && m[a] == B[a].size && m[q] == B[q].size && m[a - FTR] == B[p].size
            && NodeAddress(brk, p) && NodeAddress(brk, End(B, q)) && brk <= |m| == MAX_HEAP
            && MIN_BLOCK <= B[p].size && MIN_BLOCK <= B[a].size && MIN_BLOCK <= B[q].size
            && B[p].size % 8 == 0 && B[a].size % 8 == 0 && B[q].size % 8 == 0
  {
    hide Tiled, Tagged, Aligned, Indexed, Rings, Separated, NodeAddress;
    HeapFacts(m, brk, B, L, loose);
    BlockHeader(m, brk, B, L, loose, p);
    BlockHeader(m, brk, B, L, loose, a);
    BlockHeader(m, brk, B, L, loose, End(B, a));
    TagAfter(m, brk, B, L, loose, End(B, a));
  }

  lemma SumOfThree(x: int, y: int, z: int)
    requires x % 8 == 0 && y % 8 == 0 && z % 8 == 0
    ensures (x + y + z) % 8 == 0
  {
  }

  lemma MergeBothStep(m: Mem, brk: int, B: Blocks, L: Lists, loose: set<int>, p: int, a: int)
    requires Inv(m, brk, B, L, loose)
    requires p in B && p in loose && !B[p].used && End(B, p) == a
    requires a in B && a in loose && !B[a].used && Unlisted(L, a)
    requires End(B, a) in B && !B[End(B, a)].used && Unlisted(L, End(B, a))
    ensures var q := End(B, a);
            var n := B[a].size + B[p].size + B[q].size;
            && m[p] == B[p].size && m[a] == B[a].size && m[q] == B[q].size && m[a - FTR] == B[p].size
            && MIN_BLOCK <= n && n % 8 == 0 && NodeAddress(brk, p) && NodeAddress(brk, p + n) && brk <= |m| == MAX_HEAP
            && End(MergeBlocks(B, a), p) == a
            && var m' := m[p := n][p + n - FTR := n];
            && Inv(m', brk, MergeBlocks(MergeBlocks(B, a), p), L, loose - {a, q})
            && PayloadsKept(m, m', B)
  {
    hide HeapOk, NodeAddress, SamePayloads, Unlisted;
    MergeBothTags(m, brk, B, L, loose, p, a);
    SumOfThree(B[a].size, B[p].size, B[End(B, a)].size);
    MergeBothInv(m, brk, B, L, loose, p, a);
  }

  /** One coalease leaves no two adjacent free blocks. */
  lemma CoalescedSeparated(B: Blocks, epi: int, a: int)
    requires Tiled(B, epi) && Separated(B, {a}) && a in B && !B[a].used
    ensures Separated(Coalesced(B, a), {})
  {
    hide Coalesced, FreeAfter, FreeBefore;
    var B' := Coalesced(B, a);
    var lo := CoalescedStart(B, a);
    CoalescedShape(B, epi, a);
    forall x {:trigger End(B', x)} | x in B' && !B'[x].used && End(B', x) in B'
      ensures B'[End(B', x)].used
    {
      if x == lo {
        AfterCoalesced(B, epi, a);
      } else {
        assert B'[x] == B[x] && End(B', x) == End(B, x);
        BeforeCoalesced(B, epi, a, x);
      }
    }
  }

  /** Past the end of the joined range comes an allocated block or the epilogue. */
  lemma AfterCoalesced(B: Blocks, epi: int, a: int)
    requires Tiled(B, epi) && Separated(B, {a}) && a in B && !B[a].used
    ensures var hi := if FreeAfter(B, a).Some? then End(B, FreeAfter(B, a).value) else End(B, a);
            hi in B ==> B[hi].used
  {
    TiledAt(B, epi, a);
    if FreeAfter(B, a).Some? {
      TiledAt(B, epi, End(B, a));
    }
  }

  /** A free block that was not joined is not followed by a free one. */
  lemma BeforeCoalesced(B: Blocks, epi: int, a: int, x: int)
    requires Tiled(B, epi) && Separated(B, {a}) && a in B && !B[a].used
    requires x in B && !B[x].used && x != a && Some(x) != FreeBefore(B, a) && Some(x) != FreeAfter(B, a)
    ensures End(B, x) in B ==> B[End(B, x)].used
    ensures End(B, x) != CoalescedStart(B, a)
  {
    if End(B, x) == a {
      FreeBeforeUnique(B, epi, x, a);
    }
  }

  lemma FreeBeforeUnique(B: Blocks, epi: int, x: int, a: int)
    requires Tiled(B, epi) && x in B && !B[x].used && End(B, x) == a
    ensures FreeBefore(B, a) == Some(x)
  {
  }

  /** B' is B with the blocks in [lo, hi) replaced by one free block. */
  ghost predicate Joined(B: Blocks, B': Blocks, lo: int, hi: int) {
    && lo in B' && !B'[lo].used && End(B', lo) == hi
    && (forall x | x in B' && x != lo :: x in B && B'[x] == B[x] && (x < lo || hi <= x))
    && (forall x | x in B && (x < lo || hi <= x) :: x in B' && B'[x] == B[x])
  }

  lemma JoinedSame(B: Blocks, epi: int, a: int)
    requires Tiled(B, epi) && a in B && !B[a].used
    ensures Joined(B, B, a, End(B, a)) && a < End(B, a)
  {
  }

  lemma JoinedMerge(B: Blocks, epi: int, p: int)
    requires Tiled(B, epi) && p in B && !B[p].used && End(B, p) in B
    ensures Joined(B, MergeBlocks(B, p), p, End(B, End(B, p))) && p < End(B, p) < End(B, End(B, p))
  {
    assert p < End(B, p) && End(B, p) < End(B, End(B, p));
  }

  lemma JoinedTwice(B: Blocks, B1: Blocks, B2: Blocks, a: int, lo: int, hi: int)
    requires Joined(B, B1, a, hi) && Joined(B1, B2, lo, hi) && lo <= a < hi
    ensures Joined(B, B2, lo, hi)
  {
  }

  /** Coalescing replaces the blocks of one address range by a single free block. */
  lemma CoalescedShape(B: Blocks, epi: int, a: int)
    requires Tiled(B, epi) && a in B && !B[a].used
    ensures var lo := CoalescedStart(B, a);
            var hi := if FreeAfter(B, a).Some? then End(B, FreeAfter(B, a).value) else End(B, a);
            Joined(B, Coalesced(B, a), lo, hi) && lo <= a < hi
  {
    hide Tiled, Joined, MergeBlocks;
    JoinedSame(B, epi, a);
    var after, before := FreeAfter(B, a), FreeBefore(B, a);
    if after.Some? { JoinedMerge(B, epi, a); }
    if before.Some? {
      var p := before.value;
      JoinedMerge(B, epi, p);
      if after.Some? {
        var B1 := MergeBlocks(B, a);
        MergeKeepsBefore(B, epi, a, p);
        TiledMerge(B, epi, a);
        JoinedMerge(B1, epi, p);
        JoinedTwice(B, B1, MergeBlocks(B1, p), a, p, End(B, after.value));
      }
    }
  }

  lemma MergeKeepsBefore(B: Blocks, epi: int, a: int, p: int)
    requires Tiled(B, epi) && a in B && End(B, a) in B && p in B && !B[p].used && End(B, p) == a
    ensures var B1 := MergeBlocks(B, a);
            p in B1 && !B1[p].used && End(B1, p) == a && a in B1 && End(B1, a) == End(B, End(B, a)) && p < a
  {
    assert End(B, a) > a > p;
  }

  lemma KeptChain(m1: Mem, m2: Mem, m3: Mem, B: Blocks)
    requires PayloadsKept(m1, m2, B) && PayloadsKept(m2, m3, B)
    ensures PayloadsKept(m1, m3, B)
  {
    KeptTwice(m1, m2, m3, B, B);
  }

  lemma StillListed(m: Mem, brk: int, B: Blocks, L: Lists, loose: set<int>, a: int)
    requires Inv(m, brk, B, L, loose) && a in B && !B[a].used && a !in loose
    ensures Listed(L, a)
  {
    FreeIsListed(B, L, loose, a);
  }

  lemma UsedUnlisted(m: Mem, brk: int, B: Blocks, L: Lists, a: int)
    requires Inv(m, brk, B, L, {}) && a in B && B[a].used
    ensures Unlisted(L, a)
  {
  }

  lemma FreedStep(m: Mem, m1: Mem, B: Blocks, B1: Blocks, a: int)
    requires a in B && B1 == Unmarked(B, a) && PayloadsKept(m, m1, B)
    ensures a in B1 && !B1[a].used && B1[a].size == B[a].size
    ensures B1 == B[a := Block(B[a].size, false)]
    ensures PayloadsKept(m, m1, B1)
  {
  }

  lemma FreedSeparated(m: Mem, brk: int, B: Blocks, L: Lists, a: int)
    requires Inv(m, brk, B, L, {a}) && a in B && !B[a].used
    ensures Separated(Coalesced(B, a), {})
  {
    CoalescedSeparated(B, brk - HDR, a);
  }

  lemma CoalescedStillUsed(B: Blocks, a: int)
    requires a in B && !B[a].used
    ensures StillUsed(B, Coalesced(B, a))
  {
  }

  lemma FreedKeeps(m: Mem, m1: Mem, m2: Mem, m3: Mem, B1: Blocks, a: int)
    requires a in B1 && !B1[a].used
    requires PayloadsKept(m, m1, B1) && PayloadsKept(m1, m2, B1) && PayloadsKept(m2, m3, Coalesced(B1, a))
    ensures PayloadsKept(m, m3, B1)
  {
    KeptChain(m, m1, m2, B1);
    CoalescedStillUsed(B1, a);
    KeptTwice(m, m2, m3, B1, Coalesced(B1, a));
  }

  // ------------------------------------------------------------- mm_realloc

  /** mm_realloc; the last case copies the whole old block size into the payload of
      the new block, which overruns it unless the new block is 32 bytes larger. */
  ghost function ReallocView(v: View, ptr: Option<int>, size: int): (View, Outcome)
  {
    if size == 0 then
      (if ptr.Some? then FreeView(v, ptr.value - HDR) else v, Null)
    else if ptr.None? then
      MallocView(v, size)
    else
      var a := ptr.value - HDR;
      var n := Align8(size + HDR + FTR);
      var cur := SizeAt(v.blocks, a);
      if n <= cur then
        (v, Ptr(a + HDR))
      else if a + cur >= v.brk - HDR then
        if v.brk + (n - cur) <= MAX_HEAP
        then (View(v.brk + (n - cur), v.blocks[a := Block(n, true)], v.lists), Ptr(a + HDR))
        else (v, if a + n <= MAX_HEAP then Ungrown(a + HDR) else Astray)
      else
        MoveView(v, a, size)
  }

  ghost function MoveView(v: View, a: int, size: int): (View, Outcome) {
    var (v1, r) := MallocView(v, size);
    if !r.Ptr? then (v1, r)
    else if SizeAt(v1.blocks, r.addr - HDR) < SizeAt(v.blocks, a) + HDR + FTR then (v1, Overrun(r.addr))
    else (FreeView(v1, a), r)
  }

  function SizeAt(B: Blocks, a: int): int {
    if a in B then B[a].size else 0
  }

  /** Writing the payload of one allocated block leaves the heap and every other
      payload alone. */
  lemma PayloadWrite(m: Mem, m': Mem, brk: int, B: Blocks, L: Lists, a: int)
    requires Inv(m, brk, B, L, {}) && a in B && B[a].used
    requires AgreeOutside(m, m', a + HDR, End(B, a) - FTR)
    ensures Inv(m', brk, B, L, {})
    ensures PayloadsKept(m, m', Unmarked(B, a))
  {
    hide Indexed, Rings, Separated, Aligned;
    PayloadWriteFrame(m, m', B, brk - HDR, a);
    EntriesOf(B, L);
    RingsFrame(m, m', B, L);
  }

  lemma EntriesOf(B: Blocks, L: Lists)
    requires Indexed(B, L, {})
    ensures EntriesIn(L, B)
  {
  }

  lemma PayloadWriteFrame(m: Mem, m': Mem, B: Blocks, epi: int, a: int)
    requires Tiled(B, epi) && Tagged(m, B, epi) && a in B && B[a].used
    requires AgreeOutside(m, m', a + HDR, End(B, a) - FTR)
    ensures SameLinks(m, m', B) && Tagged(m', B, epi)
    ensures PayloadsKept(m, m', Unmarked(B, a))
  {
    forall y | y in B
      ensures BlockTagged(m', y, B[y])
    {
      assert BlockTagged(m, y, B[y]);
    }
  }

  /** The test on the next block never finds it free: sizes are at least 24. */
  lemma NextNeverFree(m: Mem, brk: int, B: Blocks, L: Lists, a: int)
    requires Inv(m, brk, B, L, {}) && a in B
    ensures NodeAddress(brk, a) && NodeAddress(brk, End(B, a))
    ensures B[a].used ==> ClearLow(m[a]) == B[a].size
    ensures ClearLow(m[End(B, a)]) >= HDR
    ensures End(B, a) in B || End(B, a) == brk - HDR
  {
    hide Tiled, Tagged, Aligned, Indexed, Rings, Separated, NodeAddress, ClearLow;
    BlockHeader(m, brk, B, L, {}, a);
    LowBits(B[a].size);
    TagAfter(m, brk, B, L, {}, a);
    LowBits(HDR);
    if End(B, a) in B {
      BlockHeader(m, brk, B, L, {}, End(B, a));
      LowBits(B[End(B, a)].size);
    }
  }

  lemma ExtendStep(m: Mem, brk: int, B: Blocks, L: Lists, a: int, n: int)
    requires Inv(m, brk, B, L, {}) && a in B && B[a].used && End(B, a) == brk - HDR
    requires B[a].size < n < WORD_LIMIT - 1 && n % 8 == 0
    ensures NodeAddress(brk, brk - HDR) && NodeAddress(brk, a) && FIRST + HDR <= brk <= |m| == MAX_HEAP && FIRST <= a
    ensures MIN_BLOCK <= n && brk % 8 == 0 && (n - B[a].size) % 8 == 0 && brk - HDR < a + n
  {
    hide Tiled, Tagged, Aligned, Indexed, Rings, Separated;
    HeapFacts(m, brk, B, L, {});
    BlockHeader(m, brk, B, L, {}, a);
  }

  /** The heap after the last block was extended. */
  lemma ExtendKeeps(m: Mem, brk: int, B: Blocks, L: Lists, a: int, n: int)
    requires Inv(m, brk, B, L, {}) && a in B && B[a].used && End(B, a) == brk - HDR
    requires B[a].size < n < WORD_LIMIT - 1 && n % 8 == 0
    requires FIRST <= a < brk - HDR < a + n && a + n + HDR <= MAX_HEAP == |m| && MIN_BLOCK <= n
    ensures var m' := ExtendMem(m, brk - HDR, a, n);
            Inv(m', a + n + HDR, B[a := Block(n, true)], L, {}) && PayloadsKept(m, m', B)
  {
    hide HeapOk, SamePayloads, Unlisted, ExtendMem;
    UsedUnlisted(m, brk, B, L, a);
    ExtendInv(m, brk, B, L, {}, a, n);
  }

  lemma HeapTiled(m: Mem, brk: int, B: Blocks, L: Lists, loose: set<int>)
    requires Inv(m, brk, B, L, loose)
    ensures Tiled(B, brk - HDR)
  {
  }

  lemma UngrownKeeps(m: Mem, B: Blocks, epi: int, a: int, n: int)
    requires Tiled(B, epi) && epi + HDR <= |m| < WORD_LIMIT - 1 && a in B && 0 <= a && End(B, a) == epi
    requires B[a].size < n < WORD_LIMIT - 1
    ensures a + n <= |m| ==> PayloadsKept(m, UngrownMem(m, epi, a, n), B)
    ensures PayloadsKept(m, m[epi := HDR][a := n + 1], B)
  {
  }

  /** mm_malloc returns a block that was not allocated before, with room for the
      request, and keeps every allocated block. */
  lemma MallocKeeps(v: View, size: int)
    requires Tiled(v.blocks, v.brk - HDR) && Indexed(v.blocks, v.lists, {}) && 0 <= size <= MAX_REQUEST
    ensures var (v1, r) := MallocView(v, size);
            && (r == Null <==> size == 0) && (r == Null || r.Ptr? || r == Fault)
            && (forall y | y in v.blocks && v.blocks[y].used :: y in v1.blocks && v1.blocks[y] == v.blocks[y])
            && (r.Ptr? ==>
                  var b := r.addr - HDR;
                  && b in v1.blocks && v1.blocks[b].used && v1.blocks[b].size >= size + HDR + FTR
                  && (b in v.blocks ==> !v.blocks[b].used)
                  && (forall y | y in v1.blocks && v1.blocks[y].used && y != b :: y in v.blocks && v.blocks[y].used))
  {
    hide Tiled, Indexed, RequestSize, FirstFit;
    if size > 0 {
      var n := RequestSize(size);
      RequestRange(size);
      FirstFitComplete(v.blocks, v.lists, n);
      if v.brk - HDR in v.blocks { TiledAt(v.blocks, v.brk - HDR, v.brk - HDR); }
      var fit := FirstFit(v.blocks, v.lists, MapToList(n), n);
      if fit.Some? { CarveKeeps(v.blocks, v.brk - HDR, fit.value, n); }
    }
  }

  lemma CarveKeeps(B: Blocks, epi: int, a: int, n: int)
    requires Tiled(B, epi) && a in B && !B[a].used && MIN_BLOCK <= n <= B[a].size
    ensures var B' := Carve(B, a, n);
            && a in B' && B'[a].used && B'[a].size >= n
            && (forall y | y in B && B[y].used :: y in B' && B'[y] == B[y])
            && (forall y | y in B' && B'[y].used && y != a :: y in B && B[y].used)
  {
    if B[a].size - n > SPLIT_MIN {
      assert a + n !in B;
    }
  }

  lemma MallocStep(m: Mem, v: View, size: int)
    requires Inv(m, v.brk, v.blocks, v.lists, {}) && 0 <= size <= MAX_REQUEST
    ensures var (v1, r) := MallocView(v, size);
            && (r == Null <==> size == 0) && (r == Null || r.Ptr? || r == Fault)
            && StillUsed(v.blocks, v1.blocks)
            && (forall y | y in v.blocks && v.blocks[y].used :: y in v1.blocks && v1.blocks[y] == v.blocks[y])
            && (r.Ptr? ==>
                  var b := r.addr - HDR;
                  && b in v1.blocks && v1.blocks[b].used && v1.blocks[b].size >= size + HDR + FTR
                  && (b in v.blocks ==> !v.blocks[b].used)
                  && (forall y | y in v1.blocks && v1.blocks[y].used && y != b :: y in v.blocks && v.blocks[y].used))
  {
    hide Tiled, Tagged, Aligned, Indexed, Rings, Separated, MallocView;
    MallocKeeps(v, size);
  }

  /** What the move case of mm_realloc reads, and where its copy lands. */
  lemma CopyRange(m: Mem, brk: int, B: Blocks, L: Lists, a: int, b: int)
    requires Inv(m, brk, B, L, {}) && a in B && B[a].used && b in B && B[b].used && a != b
    requires B[a].size < B[b].size
    ensures NodeAddress(brk, a) && NodeAddress(brk, b) && brk <= |m| == MAX_HEAP && FIRST <= a && FIRST <= b
    ensures ClearLow(m[b]) == B[b].size && B[a].size % 8 == 0 && MIN_BLOCK <= B[a].size
    ensures End(B, a) + HDR <= brk && End(B, b) + HDR <= brk
    ensures b + HDR + B[a].size <= a + HDR || End(B, a) + HDR <= b + HDR
  {
    hide Tagged, Aligned, Indexed, Rings, Separated, NodeAddress, ClearLow;
    HeapFacts(m, brk, B, L, {});
    BlockHeader(m, brk, B, L, {}, a);
    BlockHeader(m, brk, B, L, {}, b);
    LowBits(B[b].size);
  }

  /** A block with room for a request is larger than one that is too small for it. */
  lemma LargerBlock(m: Mem, brk: int, B: Blocks, L: Lists, a: int, size: int)
    requires Inv(m, brk, B, L, {}) && a in B && 0 < size <= MAX_REQUEST && B[a].size < RequestSize(size)
    ensures B[a].size < size + HDR + FTR
  {
    hide Tiled, Tagged, Aligned, Indexed, Rings, Separated, RequestSize;
    BlockHeader(m, brk, B, L, {}, a);
    RequestRange(size);
    NextWord(0, 0, RequestSize(size), B[a].size);
  }

  /** m2 is the heap m1 after a copy of all of block `a`, header and footer included in
      its length, to the payload of a larger block `b` that is too small for it. */
  ghost predicate OverranFrom(m1: Mem, m2: Mem, brk: int, B: Blocks, L: Lists, a: int, b: int) {
    && Inv(m1, brk, B, L, {}) && a in B && B[a].used && b in B && B[b].used && a != b
    && B[a].size < B[b].size < B[a].size + HDR + FTR
    && Copied(m1, m2, a + HDR, b + HDR, B[a].size)
    && AgreeOutside(m1, m2, b + HDR, b + HDR + B[a].size)
  }

  /** m2 comes from m0 by an allocation of block `b` and such a copy. */
  ghost predicate Overran(m0: Mem, m2: Mem, brk: int, B0: Blocks, B: Blocks, L: Lists, a: int, b: int) {
    exists m1: Mem :: PayloadsKept(m0, m1, B0) && OverranFrom(m1, m2, brk, B, L, a, b)
  }

  /** Such a copy leaves the payloads of the blocks allocated before alone. */
  lemma OverrunStep(m0: Mem, m1: Mem, m2: Mem, brk: int, B0: Blocks, B: Blocks, L: Lists, a: int, b: int)
    requires Inv(m1, brk, B, L, {}) && a in B && B[a].used && b in B && B[b].used && a != b
    requires B[a].size < B[b].size < B[a].size + HDR + FTR
    requires Copied(m1, m2, a + HDR, b + HDR, B[a].size) && AgreeOutside(m1, m2, b + HDR, b + HDR + B[a].size)
    requires PayloadsKept(m0, m1, B0) && a in B0 && B0[a].used && (b in B0 ==> !B0[b].used)
    requires forall y | y in B0 && B0[y].used :: y in B && B[y] == B0[y]
    ensures Overran(m0, m2, brk, B0, B, L, a, b) && PayloadsKept(m0, m2, Unmarked(B0, a))
  {
    hide Tagged, Aligned, Indexed, Rings, Separated;
    HeapFacts(m1, brk, B, L, {});
    assert OverranFrom(m1, m2, brk, B, L, a, b);
    forall y, x | y in B0 && B0[y].used && y != a && 0 <= y + HDR <= x < y + B0[y].size - FTR && x < |m0|
      ensures m2[x] == m0[x]
    {
      assert y in B && B[y] == B0[y] && y != b;
      assert m1[x] == m0[x];
      if y < b { TiledOrder(B, brk - HDR, y, b); } else { TiledOrder(B, brk - HDR, b, y); }
    }
  }

  lemma TiledOrder(B: Blocks, epi: int, a: int, b: int)
    requires Tiled(B, epi) && a in B && b in B && a < b
    ensures End(B, a) <= b
  {
  }

  lemma MoveKeeps(m0: Mem, m1: Mem, m2: Mem, m3: Mem, B0: Blocks, B1: Blocks, a: int, b: int)
    requires a in B0 && B0[a].used && a in B1 && B1[a] == B0[a] && a != b
    requires b in B1 && B1[b].used && B1[b].size >= B0[a].size + HDR + FTR && (b in B0 ==> !B0[b].used)
    requires forall y | y in B0 && B0[y].used :: y in B1 && B1[y] == B0[y]
    requires PayloadsKept(m0, m1, B0) && PayloadsKept(m1, m2, Unmarked(B1, b)) && PayloadsKept(m2, m3, Unmarked(B1, a))
    requires FIRST <= a && End(B0, a) + HDR <= |m0| && FIRST <= b && End(B1, b) <= |m0|
    requires Copied(m1, m2, a + HDR, b + HDR, B0[a].size)
    ensures PayloadsKept(m0, m3, Unmarked(B0, a))
    ensures Copied(m0, m3, a + HDR, b + HDR, B0[a].size - HDR - FTR)
  {
    assert StillUsed(Unmarked(B0, a), Unmarked(B1, b)) && StillUsed(Unmarked(B0, a), Unmarked(B1, a));
    assert PayloadsKept(m0, m1, Unmarked(B0, a));
    KeptTwice(m0, m1, m2, Unmarked(B0, a), Unmarked(B1, b));
    KeptTwice(m0, m2, m3, Unmarked(B0, a), Unmarked(B1, a));
    forall i | 0 <= i < B0[a].size - HDR - FTR && i % 8 == 0
      ensures m3[b + HDR + i] == m0[a + HDR + i]
    {
      var x, y := a + HDR + i, b + HDR + i;
      assert b in Unmarked(B1, a) && Unmarked(B1, a)[b] == B1[b];
      assert m3[y] == m2[y];
      assert m2[y] == m1[x];
      assert m1[x] == m0[x];
    }
  }

  lemma KeptLess(m: Mem, m': Mem, B: Blocks, a: int)
    requires PayloadsKept(m, m', B) && a in B
    ensures PayloadsKept(m, m', Unmarked(B, a))
  {
  }

  lemma CopiedSame(m: Mem, brk: int, B: Blocks, L: Lists, a: int)
    requires Inv(m, brk, B, L, {}) && a in B
    ensures Copied(m, m, a + HDR, a + HDR, B[a].size - HDR - FTR)
  {
    hide Tagged, Aligned, Indexed, Rings, Separated;
    HeapFacts(m, brk, B, L, {});
    TiledAt(B, brk - HDR, a);
  }

  lemma CopiedKept(m: Mem, m': Mem, brk: int, B: Blocks, L: Lists, a: int)
    requires Inv(m, brk, B, L, {}) && PayloadsKept(m, m', B) && a in B && B[a].used
    ensures Copied(m, m', a + HDR, a + HDR, B[a].size - HDR - FTR)
  {
    hide Tagged, Aligned, Indexed, Rings, Separated;
    HeapFacts(m, brk, B, L, {});
    TiledAt(B, brk - HDR, a);
  }

  lemma MoveStep(m0: Mem, m: Mem, brk: int, B: Blocks, L: Lists, B0: Blocks, a: int, b: int)
    requires Inv(m, brk, B, L, {}) && PayloadsKept(m0, m, B0)
    requires a in B0 && B0[a].used && a in B && B[a] == B0[a]
    requires b in B && B[b].used && (b in B0 ==> !B0[b].used)
    requires forall y | y in B && B[y].used && y != b :: y in B0 && B0[y].used
    ensures a != b && PayloadsKept(m0, m, Unmarked(B0, a))
    ensures ClearLow(m[b]) == B[b].size && NodeAddress(brk, b)
  {
    hide Tiled, Tagged, Aligned, Indexed, Rings, Separated, NodeAddress, ClearLow, SamePayloads;
    BlockHeader(m, brk, B, L, {}, b);
    LowBits(B[b].size);
    KeptLess(m0, m, B0, a);
  }

  lemma CopyStep(m1: Mem, m2: Mem, brk: int, B: Blocks, L: Lists, a: int, b: int)
    requires Inv(m1, brk, B, L, {}) && a in B && b in B && B[b].used && a != b
    requires B[b].size >= B[a].size + HDR + FTR
    requires AgreeOutside(m1, m2, b + HDR, b + HDR + B[a].size)
    ensures Inv(m2, brk, B, L, {}) && PayloadsKept(m1, m2, Unmarked(B, b))
    ensures FIRST <= a && End(B, a) + HDR <= |m1| && FIRST <= b && End(B, b) <= |m1|
  {
    hide Tiled, Tagged, Aligned, Indexed, Rings, Separated, SamePayloads;
    BlockHeader(m1, brk, B, L, {}, a);
    BlockHeader(m1, brk, B, L, {}, b);
    PayloadWrite(m1, m2, brk, B, L, b);
  }

  /** The heap that mm_init sets up. */
  lemma EmptyHeap(m: Mem)
    requires |m| == MAX_HEAP && m[SENTINEL] == 1 && m[FIRST] == HDR + 1
    requires forall l | 0 <= l < LISTS :: m[HDR * l] == 1 && m[HDR * l + 16] == HDR * l && m[HDR * l + 8] == HDR * l
    ensures Inv(m, FIRST + HDR, map[], [[], [], [], []], {})
  {
    var L: Lists := [[], [], [], []];
    forall l | 0 <= l < LISTS
      ensures Ring(m, l, L[l])
    {
      assert L[l] == [];
    }
  }
}
