/** The heap of mps/05/mm-explicit.c: blocks with a header only, tiling the memory
    from the list head to the break, the free ones on one circular list.  What the
    operations do to them, and that each step on the memory keeps the invariant. */
module ExplicitSpec {
  import opened Wrappers
  import opened Memlib
  import opened FreeLists
  import opened MmLayout
  import opened MmSteps
  import opened MmSpec

  /** The blocks follow each other without gap or overlap up to the break. */
  ghost predicate Covers(B: Blocks, brk: int) {
    && HDR <= brk
    && (HDR in B || HDR == brk)
    && (forall a | a in B :: HDR <= a && HDR <= B[a].size && a + B[a].size <= brk)
    && (forall a {:trigger End(B, a)} | a in B :: End(B, a) in B || End(B, a) == brk)
    && (forall a, b | a in B && b in B && a < b :: a + B[a].size <= b)
  }

  ghost predicate HeaderAt(m: Mem, a: int, b: Block) {
    0 <= a && a + HDR <= |m| && m[a] == Tag(b)
  }

  ghost predicate Headed(m: Mem, B: Blocks) {
    && HDR <= |m| && m[0] == HDR
    && forall a | a in B :: HeaderAt(m, a, B[a])
  }

  /** The list holds every free block once, and nothing else. */
  ghost predicate ListsFree(B: Blocks, xs: seq<int>) {
    && (forall i | 0 <= i < |xs| :: xs[i] in B && !B[xs[i]].used)
    && (forall i, j | 0 <= i < j < |xs| :: xs[i] != xs[j])
    && (forall a | a in B && !B[a].used :: a in xs)
  }

  ghost predicate ListHeapOk(m: Mem, brk: int, B: Blocks, xs: seq<int>) {
    && |m| == MAX_HEAP && brk <= MAX_HEAP
    && Covers(B, brk) && Aligned(B, brk) && Headed(m, B) && ListsFree(B, xs) && Rings(m, [xs])
  }

  ghost predicate ListInv(m: Mem, brk: int, B: Blocks, xs: seq<int>) {
    ListHeapOk(m, brk, B, xs) == true
  }

  ghost predicate SameData(m: Mem, m': Mem, B: Blocks) {
    |m'| == |m| &&
    forall a, x | a in B && B[a].used && 0 <= a + HDR <= x < a + B[a].size && x < |m| :: m'[x] == m[x]
  }

  /** No payload byte of an allocated block differs. */
  ghost predicate DataKept(m: Mem, m': Mem, B: Blocks) {
    SameData(m, m', B) == true
  }

  // ---------------------------------------------------------- the operations

  /** `Overread` is a memcpy that reads past the end of the memory area. */
  datatype Reply = NoMemory | At(addr: int) | Overread

  /** `int newsize = ALIGN(BLK_HDR_SIZE + size)` */
  function ListRequest(size: int): int {
    ToInt32(Align8(HDR + size))
  }

  const LIST_MAX_REQUEST := 0x8000_0000 - 32

  lemma ListRequestFits(size: word)
    ensures ListRequest(size) >= HDR + size <==> size <= LIST_MAX_REQUEST
    ensures size <= LIST_MAX_REQUEST ==> ListRequest(size) % 8 == 0 && ListRequest(size) < HDR + size + 8
  {
  }

  datatype ListView = ListView(brk: int, blocks: Blocks, free: seq<int>)

  function ListMalloc(v: ListView, size: int): (ListView, Reply) {
    var n := ListRequest(size);
    var fit := FirstIn(v.blocks, v.free, n);
    if fit.Some? then
      var a := fit.value;
      (ListView(v.brk, Marked(v.blocks, a, true), Drop(v.free, a)), At(a + HDR))
    else if v.brk + n <= MAX_HEAP then
      (ListView(v.brk + n, v.blocks[v.brk := Block(n, true)], v.free), At(v.brk + HDR))
    else
      (v, NoMemory)
  }

  function Marked(B: Blocks, a: int, used: bool): Blocks {
    if a in B then B[a := Block(B[a].size, used)] else B
  }

  /** mm_free of the block with header `a` */
  function ListFree(v: ListView, a: int): ListView {
    ListView(v.brk, Marked(v.blocks, a, false), [a] + v.free)
  }

  /** mm_realloc of the block with header `a`.  The block's size is read with its
      allocated bit, so the copy takes one byte more than the payload when the new
      request is larger. */
  function ListRealloc(v: ListView, a: int, size: int): (ListView, Reply)
    requires a in v.blocks
  {
    var (v1, r) := ListMalloc(v, size);
    if r == NoMemory then (v, NoMemory)
    else if size > v.blocks[a].size - HDR && End(v.blocks, a) == MAX_HEAP then (v1, Overread)
    else (ListFree(v1, a), r)
  }

  // ------------------------------------------------------------------ layout

  lemma CoversMark(B: Blocks, brk: int, a: int, used: bool)
    requires Covers(B, brk) && Aligned(B, brk) && a in B
    ensures var B' := Marked(B, a, used);
            Covers(B', brk) && Aligned(B', brk)
  {
    var B' := Marked(B, a, used);
    forall x {:trigger End(B', x)} | x in B'
      ensures End(B', x) in B' || End(B', x) == brk
    {
      assert End(B', x) == End(B, x);
    }
  }

  lemma CoversGrow(B: Blocks, brk: int, n: int)
    requires Covers(B, brk) && Aligned(B, brk) && HDR <= n && n % 8 == 0
    ensures brk !in B
    ensures var B' := B[brk := Block(n, true)];
            Covers(B', brk + n) && Aligned(B', brk + n)
  {
    var B' := B[brk := Block(n, true)];
    assert (brk + n) % 8 == 0;
    forall x {:trigger End(B', x)} | x in B'
      ensures End(B', x) in B' || End(B', x) == brk + n
    {
      if x != brk { assert End(B', x) == End(B, x); }
    }
  }

  /** Words that hold a size or a link. */
  ghost predicate Structural(B: Blocks, c: int) {
    c == 0 || c == 8 || c == 16 || c in B || c - 8 in B || c - 16 in B
  }

  ghost predicate SameStructure(m: Mem, m': Mem, B: Blocks) {
    |m'| == |m| && forall c | 0 <= c < |m| && Structural(B, c) :: m'[c] == m[c]
  }

  /** Writes that touch no header keep the invariant. */
  lemma StructureKeeps(m: Mem, m': Mem, brk: int, B: Blocks, xs: seq<int>)
    requires ListInv(m, brk, B, xs) && SameStructure(m, m', B)
    ensures ListInv(m', brk, B, xs)
  {
    assert Headed(m', B) by {
      forall a | a in B ensures HeaderAt(m', a, B[a]) { assert HeaderAt(m, a, B[a]) && Structural(B, a); }
      assert Structural(B, 0);
    }
    RingKeeps(m, m', B, xs);
  }

  lemma RingKeeps(m: Mem, m': Mem, B: Blocks, xs: seq<int>)
    requires Rings(m, [xs]) && |m'| == |m| && (forall x | x in xs :: x in B)
    requires forall x | (x in B || x == 0) && 0 <= x && x + 16 < |m| :: m'[x + 8] == m[x + 8] && m'[x + 16] == m[x + 16]
    ensures Rings(m', [xs])
  {
    var r := Loop(0, xs);
    assert Ring(m, 0, [xs][0]);
    forall i | 0 <= i <= |xs|
      ensures Linked(m', r, i)
    {
      assert Linked(m, r, i);
      assert r[i] in B || r[i] == 0;
      assert r[i + 1] in B || r[i + 1] == 0;
    }
    assert Ring(m', 0, xs);
  }

  lemma ListSpread(B: Blocks, brk: int, xs: seq<int>)
    requires Covers(B, brk) && ListsFree(B, xs)
    ensures Spread([xs])
  {
    var L := [xs];
    forall l, i, k, j | 0 <= l < |L| && 0 <= i < |L[l]| && 0 <= k < |L| && 0 <= j < |L[k]|
      ensures (l == k && i == j) || Apart(L[l][i], L[k][j])
    {
      assert xs[i] in B && xs[j] in B;
      if i < j { assert xs[i] != xs[j]; } else if j < i { assert xs[j] != xs[i]; }
    }
  }

  // ------------------------------------------------------------------- nodes

  /** The k-th node of the list and its neighbours. */
  lemma ListNode(m: Mem, brk: int, B: Blocks, xs: seq<int>, k: nat)
    requires ListInv(m, brk, B, xs) && k < |xs|
    ensures var a := xs[k];
            && NodeAddress(brk, a) && a != 0 && a in B && !B[a].used && m[a] == B[a].size
            && NodeAddress(brk, m[a + 8]) && NodeAddress(brk, m[a + 16])
            && (m[a + 8] in B || m[a + 8] == 0) && (m[a + 16] in B || m[a + 16] == 0)
            && m[a + 16] + 8 != a + 16 && m[a + 16] + 8 != a + 8
            && m[a + 8] == if k + 1 < |xs| then xs[k + 1] else 0
  {
    UnlinkableAt(m, [xs], 0, k);
    var r := Loop(0, xs);
    assert [xs][0] == xs;
    assert r[k] == 0 || r[k] in B by { if k > 0 { assert r[k] == xs[k - 1]; } }
    assert r[k + 2] == 0 || r[k + 2] in B by { if k + 1 < |xs| { assert r[k + 2] == xs[k + 1]; } }
    assert HeaderAt(m, xs[k], B[xs[k]]);
  }

  lemma ListFirst(m: Mem, brk: int, B: Blocks, xs: seq<int>)
    requires ListInv(m, brk, B, xs)
    ensures NodeAddress(brk, 0) && m[0] == HDR
    ensures m[8] == if |xs| > 0 then xs[0] else 0
    ensures NodeAddress(brk, m[8]) && (m[8] in B || m[8] == 0)
  {
    assert Ring(m, 0, [xs][0]) && Linked(m, Loop(0, xs), 0);
    if |xs| > 0 { assert xs[0] in B; }
  }

  lemma ListHeader(m: Mem, brk: int, B: Blocks, xs: seq<int>, a: int)
    requires ListInv(m, brk, B, xs) && a in B
    ensures NodeAddress(brk, a) && HDR <= a && m[a] == Tag(B[a]) && HDR <= B[a].size && a + B[a].size <= brk
    ensures B[a].size % 8 == 0 && brk % 8 == 0 && |m| == MAX_HEAP
  {
    assert HeaderAt(m, a, B[a]);
  }

  // ------------------------------------------------------------------- steps

  /** Setting or clearing the allocated bit of a header leaves the ring alone. */
  lemma RetagRing(m: Mem, brk: int, B: Blocks, xs: seq<int>, a: int, v: word)
    requires ListInv(m, brk, B, xs) && a in B && 0 <= a < |m|
    ensures Rings(m[a := v], [xs])
  {
    var m': Mem := m[a := v];
    RingKeeps(m, m', B, xs);
  }

  ghost predicate OnlyLinkWords(m: Mem, m': Mem, B: Blocks) {
    |m'| == |m| && forall c | 0 <= c < |m| && m'[c] != m[c] :: c == 8 || c == 16 || c - 8 in B || c - 16 in B
  }

  /** The headers after a tag of `a` and link words were written. */
  lemma HeadedMark(m: Mem, m1: Mem, m2: Mem, brk: int, B: Blocks, a: int, used: bool)
    requires Covers(B, brk) && Headed(m, B) && a in B && 0 <= a < |m| && |m1| == |m|
    requires m1[a] == Tag(Marked(B, a, used)[a]) && (forall c | 0 <= c < |m| && c != a :: m1[c] == m[c])
    requires OnlyLinkWords(m1, m2, B)
    ensures Headed(m2, Marked(B, a, used))
  {
    var B' := Marked(B, a, used);
    forall x | x in B'
      ensures HeaderAt(m2, x, B'[x])
    {
      assert HeaderAt(m, x, B[x]);
    }
  }

  lemma DataMark(m: Mem, m1: Mem, m2: Mem, brk: int, B: Blocks, a: int)
    requires Covers(B, brk) && a in B && |m1| == |m|
    requires forall c | 0 <= c < |m| && c != a :: m1[c] == m[c]
    requires OnlyLinkWords(m1, m2, B)
    ensures DataKept(m, m2, B)
  {
    forall b, x | b in B && B[b].used && 0 <= b + HDR <= x < b + B[b].size && x < |m|
      ensures m2[x] == m[x]
    {
    }
  }

  lemma ListsTake(B: Blocks, xs: seq<int>, k: nat)
    requires ListsFree(B, xs) && k < |xs|
    ensures ListsFree(Marked(B, xs[k], true), Without(xs, k)) && Drop(xs, xs[k]) == Without(xs, k)
  {
    hide Without, Drop;
    var B', ys := Marked(B, xs[k], true), Without(xs, k);
    DropAt(xs, k);
    WithoutAt(xs, k);
    WithoutMembers(xs, k);
  }

  /** The words that mm_malloc reads and writes to mark and unlink a listed block. */
  lemma TakenNode(m: Mem, brk: int, B: Blocks, xs: seq<int>, k: nat)
    requires ListInv(m, brk, B, xs) && k < |xs|
    ensures var a := xs[k];
            && NodeAddress(brk, a) && a in B && m[a] == B[a].size && m[a] % 2 == 0
            && NodeAddress(brk, m[a + 8]) && NodeAddress(brk, m[a + 16])
            && m[a + 16] + 8 != a + 16 && m[a + 16] + 8 != a + 8
            && B[a].size + 1 < WORD_LIMIT && brk <= |m| == MAX_HEAP
            && (m[a + 8] in B || m[a + 8] == 0) && (m[a + 16] in B || m[a + 16] == 0)
            && var m1: Mem := m[a := B[a].size + 1];
            m1[a + 8] == m[a + 8] && m1[a + 16] == m[a + 16]
  {
    hide Covers, Aligned, Headed, ListsFree, Rings, NodeAddress;
    var a := xs[k];
    ListNode(m, brk, B, xs, k);
    ListHeader(m, brk, B, xs, a);
    Even(B[a].size);
    NodeRoom(brk, a);
  }

  /** The ring without the k-th block. */
  lemma TakenRing(m: Mem, brk: int, B: Blocks, xs: seq<int>, k: nat)
    requires ListInv(m, brk, B, xs) && k < |xs| && 0 <= xs[k] < |m| && xs[k] in B && 0 <= B[xs[k]].size + 1 < WORD_LIMIT
    ensures var a := xs[k];
            var m1: Mem := m[a := B[a].size + 1];
            && Unlinkable(m1, a)
            && Rings(UnlinkMem(m1, m1[a + 16], m1[a + 8]), [Without(xs, k)])
  {
    hide Covers, Aligned, Headed, ListsFree, Rings, Spread, Without, Unlinkable, UnlinkMem;
    var a := xs[k];
    RetagRing(m, brk, B, xs, a, B[a].size + 1);
    ListSpread(B, brk, xs);
    assert [xs][0] == xs;
    UnlinkRings(m[a := B[a].size + 1], [xs], 0, k);
    assert [xs][0 := Without(xs, k)] == [Without(xs, k)];
  }

  /** mm_malloc marks a listed block and unlinks it. */
  lemma TakeListed(m: Mem, brk: int, B: Blocks, xs: seq<int>, k: nat)
    requires ListInv(m, brk, B, xs) && k < |xs|
    ensures var a := xs[k];
            && NodeAddress(brk, a) && a in B && m[a] == B[a].size && m[a] % 2 == 0
            && NodeAddress(brk, m[a + 8]) && NodeAddress(brk, m[a + 16])
            && m[a + 16] + 8 != a + 16 && m[a + 16] + 8 != a + 8
            && B[a].size + 1 < WORD_LIMIT
            && var m1: Mem := m[a := B[a].size + 1];
            && m1[a + 8] == m[a + 8] && m1[a + 16] == m[a + 16]
            && var m2 := UnlinkMem(m1, m1[a + 16], m1[a + 8]);
            && ListInv(m2, brk, Marked(B, a, true), Drop(xs, a)) && DataKept(m, m2, B)
  {
    hide Covers, Aligned, Headed, ListsFree, Rings, SameData, NodeAddress, Marked, Without, OnlyLinkWords, Unlinkable;
    var a := xs[k];
    TakenNode(m, brk, B, xs, k);
    NodeRoom(brk, a);
    NodeRoom(brk, m[a + 8]);
    NodeRoom(brk, m[a + 16]);
    TakenRing(m, brk, B, xs, k);
    var m1: Mem := m[a := B[a].size + 1];
    var m2 := UnlinkMem(m1, m1[a + 16], m1[a + 8]);
    UnlinkTouches(m1, m1[a + 16], m1[a + 8], B);
    CoversMark(B, brk, a, true);
    MarkedAt(B, a, true);
    HeadedMark(m, m1, m2, brk, B, a, true);
    DataMark(m, m1, m2, brk, B, a);
    ListsTake(B, xs, k);
  }

  lemma NodeRoom(brk: int, a: int)
    requires NodeAddress(brk, a)
    ensures 0 <= a && a + 16 < brk
  {
  }

  lemma MarkedAt(B: Blocks, a: int, used: bool)
    requires a in B
    ensures var B' := Marked(B, a, used);
            a in B' && B'[a] == Block(B[a].size, used) && Tag(B'[a]) == if used then B[a].size + 1 else B[a].size
  {
  }

  lemma UnlinkTouches(m: Mem, prior: int, next: int, B: Blocks)
    requires 0 <= prior && prior + 16 < |m| < WORD_LIMIT && 0 <= next && next + 16 < |m|
    requires (prior in B || prior == 0) && (next in B || next == 0)
    ensures OnlyLinkWords(m, UnlinkMem(m, prior, next), B)
  {
  }

  /** mm_malloc puts a new allocated block at the break. */
  lemma GrowListed(m: Mem, brk: int, B: Blocks, xs: seq<int>, n: int)
    requires ListInv(m, brk, B, xs) && HDR <= n && n % 8 == 0 && brk + n <= MAX_HEAP
    ensures brk !in B && NodeAddress(brk + n, brk) && n + 1 < WORD_LIMIT && brk < |m|
    ensures var m': Mem := m[brk := n + 1];
            ListInv(m', brk + n, B[brk := Block(n, true)], xs) && DataKept(m, m', B)
  {
    CoversGrow(B, brk, n);
    var m': Mem := m[brk := n + 1];
    var B' := B[brk := Block(n, true)];
    assert Headed(m', B') by {
      forall x | x in B' ensures HeaderAt(m', x, B'[x]) { if x != brk { assert HeaderAt(m, x, B[x]); } }
    }
    assert ListsFree(B', xs);
    RingKeeps(m, m', B, xs);
  }

  lemma ListsGive(B: Blocks, xs: seq<int>, a: int)
    requires ListsFree(B, xs) && a in B && B[a].used
    ensures ListsFree(Marked(B, a, false), [a] + xs)
  {
    var B', ys := Marked(B, a, false), [a] + xs;
    forall i, j | 0 <= i < j < |ys|
      ensures ys[i] != ys[j]
    {
      assert ys[j] == xs[j - 1] && (i > 0 ==> ys[i] == xs[i - 1]);
    }
    forall x | x in B' && !B'[x].used
      ensures x in ys
    {
    }
  }

  /** mm_free clears the allocated bit and links the block in at the front. */
  lemma FreeListed(m: Mem, brk: int, B: Blocks, xs: seq<int>, a: int)
    requires ListInv(m, brk, B, xs) && a in B && B[a].used
    ensures NodeAddress(brk, a) && HDR <= a && m[a] == B[a].size + 1
    ensures NodeAddress(brk, m[8]) && Apart(a, m[8]) && NodeAddress(brk, 0) && B[a].size % 8 == 0
    ensures 0 <= B[a].size < WORD_LIMIT && a < |m|
    ensures var m1: Mem := m[a := B[a].size];
            Linkable(m1, 0, a) && m1[8] == m[8] &&
            var m2 := LinkMem(m1, 0, a);
            && ListInv(m2, brk, Marked(B, a, false), [a] + xs)
            && DataKept(m, m2, Marked(B, a, false))
  {
    hide Covers, Aligned, Headed, ListsFree, Rings, SameData, Spread, NodeAddress, Marked, OnlyLinkWords, Fresh;
    ListHeader(m, brk, B, xs, a);
    ListFirst(m, brk, B, xs);
    NodeRoom(brk, a);
    NodeRoom(brk, m[8]);
    var m1: Mem := m[a := B[a].size];
    RetagRing(m, brk, B, xs, a, B[a].size);
    ListSpread(B, brk, xs);
    GivenFresh(B, brk, xs, a, m[8]);
    assert [xs][0] == xs;
    LinkRings(m1, [xs], 0, a);
    assert [xs][0 := [a] + xs] == [[a] + xs];
    var m2 := LinkMem(m1, 0, a);
    LinkTouches(m1, a, B);
    CoversMark(B, brk, a, false);
    MarkedAt(B, a, false);
    HeadedMark(m, m1, m2, brk, B, a, false);
    DataMark(m, m1, m2, brk, B, a);
    DataLess(m, m2, B, a);
    ListsGive(B, xs, a);
  }

  lemma DataLess(m: Mem, m': Mem, B: Blocks, a: int)
    requires DataKept(m, m', B)
    ensures DataKept(m, m', Marked(B, a, false))
  {
  }

  lemma GivenFresh(B: Blocks, brk: int, xs: seq<int>, a: int, first: int)
    requires Covers(B, brk) && ListsFree(B, xs) && a in B && B[a].used
    requires first == if |xs| > 0 then xs[0] else 0
    ensures Fresh([xs], a) && Apart(a, first)
  {
    forall k, j | 0 <= k < 1 && 0 <= j < |[xs][k]|
      ensures Apart(a, [xs][k][j])
    {
      assert xs[j] in B && xs[j] != a;
    }
    if |xs| > 0 { assert xs[0] in B && xs[0] != a; }
  }

  lemma LinkTouches(m: Mem, a: int, B: Blocks)
    requires Linkable(m, 0, a) && a in B && (m[8] in B || m[8] == 0)
    ensures OnlyLinkWords(m, LinkMem(m, 0, a), B)
  {
  }

  /** A copy into the payload of block `a` touches no header. */
  lemma PayloadCopy(m: Mem, m': Mem, brk: int, B: Blocks, xs: seq<int>, a: int, n: int)
    requires ListInv(m, brk, B, xs) && a in B && B[a].used && 0 <= n <= B[a].size - HDR
    requires BytesOnly(m, m', a + HDR, a + HDR + n)
    ensures ListInv(m', brk, B, xs)
    ensures DataKept(m, m', B - {a})
  {
    hide ByteAt;
    ListHeader(m, brk, B, xs, a);
    assert (a + HDR) % 8 == 0;
    assert SameStructure(m, m', B) by {
      forall c | 0 <= c < |m| && Structural(B, c)
        ensures m'[c] == m[c]
      {
      }
    }
    StructureKeeps(m, m', brk, B, xs);
    forall b, x | b in B - {a} && B[b].used && 0 <= b + HDR <= x < b + B[b].size && x < |m|
      ensures m'[x] == m[x]
    {
      assert b in B;
    }
  }

  lemma DataSame(m: Mem, B: Blocks)
    ensures DataKept(m, m, B)
  {
  }

  lemma DataFewer(m: Mem, m': Mem, B: Blocks, a: int)
    requires DataKept(m, m', B)
    ensures DataKept(m, m', B - {a})
  {
    forall b, x | b in B - {a} && B[b].used && 0 <= b + HDR <= x < b + B[b].size && x < |m|
      ensures m'[x] == m[x]
    {
      assert b in B;
    }
  }

  lemma FirstInPlace(B: Blocks, xs: seq<int>, n: int) returns (k: nat)
    requires FirstIn(B, xs, n).Some?
    ensures k < |xs| && FirstIn(B, xs, n) == Some(xs[k])
  {
    k :| k < |xs| && xs[k] == FirstIn(B, xs, n).value;
  }

  /** The stores of mm_free link the block in another order than LinkMem. */
  lemma FrontStores(m: Mem, a: int, tag: word, first: int)
    requires HDR <= a && a + HDR <= |m| < WORD_LIMIT && first == m[8] && 0 <= first && first + HDR <= |m|
    requires Apart(a, first) && Linkable(m, 0, a)
    ensures var m1: Mem := m[a := tag];
            && Linkable(m1, 0, a)
            && LinkMem(m1, 0, a) == m1[a + 8 := first][a + 16 := 0][8 := a][first + 16 := a]
  {
  }

  lemma LinkableTagged(m: Mem, a: int, v: word)
    requires HDR <= a && a < |m| && (var m1: Mem := m[a := v]; Linkable(m1, 0, a))
    ensures Linkable(m, 0, a)
  {
  }

  /** The block that mm_realloc is given, and the one it allocates. */
  lemma GivenApart(m: Mem, v: ListView, a: int, size: int)
    requires ListInv(m, v.brk, v.blocks, v.free) && a in v.blocks && v.blocks[a].used && 0 <= size <= LIST_MAX_REQUEST
    ensures var (v1, r) := ListMalloc(v, size);
            r != Overread && (r == NoMemory ==> v1 == v)
    ensures var (v1, r) := ListMalloc(v, size);
            r.At? ==>
              && (r.addr - HDR in v.blocks ==> !v.blocks[r.addr - HDR].used)
              && r.addr - HDR in v1.blocks && v1.blocks[r.addr - HDR].used && r.addr - HDR != a
              && v1.blocks[r.addr - HDR].size >= HDR + size
              && a in v1.blocks && v1.blocks[a] == v.blocks[a]
              && (forall b | b in v.blocks && b != r.addr - HDR :: b in v1.blocks && v1.blocks[b] == v.blocks[b])
              && (End(v.blocks, a) < r.addr || r.addr - HDR + v1.blocks[r.addr - HDR].size <= a)
  {
    hide FirstIn, ListRequest, Drop, Aligned, Headed, Rings;
    ListRequestFits(size);
    FirstInMeaning(v.blocks, v.free, ListRequest(size));
    if FirstIn(v.blocks, v.free, ListRequest(size)).Some? {
      var k := FirstInPlace(v.blocks, v.free, ListRequest(size));
    }
  }

  lemma ByteOfData(m: Mem, m': Mem, brk: int, B: Blocks, xs: seq<int>, a: int, x: int)
    requires ListInv(m, brk, B, xs) && a in B && B[a].used && a + HDR <= x < a + B[a].size && |m'| == |m|
    requires forall c | a + HDR <= c < a + B[a].size && 0 <= c < |m| :: m'[c] == m[c]
    ensures ByteAt(m', x) == ByteAt(m, x)
  {
    ListHeader(m, brk, B, xs, a);
    WordStart(a + HDR, B[a].size - HDR, x);
  }

  /** The payload of block `a` reaches block `c`, and survives the freeing of `a`. */
  lemma MoveBytes(m0: Mem, m1: Mem, m2: Mem, m3: Mem, brk: int, B0: Blocks, B1: Blocks, xs1: seq<int>, a: int, c: int,
                  n: int)
    requires ListInv(m1, brk, B1, xs1) && ListInv(m2, brk, B1, xs1)
    requires a in B0 && a in B1 && B1[a] == B0[a] && B0[a].used && c in B1 && B1[c].used && a != c
    requires forall b | b in B0 && b != c :: b in B1 && B1[b] == B0[b]
    requires 0 <= n <= B1[c].size - HDR
    requires DataKept(m0, m1, B0)
    requires BytesCopied(m1, m2, a + HDR, c + HDR, n) && DataKept(m1, m2, B1 - {c})
    requires DataKept(m2, m3, Marked(B1, a, false))
    requires c in B0 ==> !B0[c].used
    ensures DataKept(m0, m3, B0 - {a})
    ensures BytesCopied(m0, m3, a + HDR, c + HDR, Min(n, B0[a].size - HDR))
  {
    hide ListHeapOk, ByteAt;
    forall b, x | b in B0 - {a} && B0[b].used && 0 <= b + HDR <= x < b + B0[b].size && x < |m0|
      ensures m3[x] == m0[x]
    {
      assert b in B0 && b in B1 - {c} && b in Marked(B1, a, false);
    }
    forall x | c + HDR <= x < c + HDR + Min(n, B0[a].size - HDR)
      ensures ByteAt(m3, x) == ByteAt(m0, x - c + a)
    {
      assert c in Marked(B1, a, false) && Marked(B1, a, false)[c] == B1[c];
      ListHeader(m2, brk, B1, xs1, c);
      ByteOfData(m2, m3, brk, B1, xs1, c, x);
      ListHeader(m1, brk, B1, xs1, a);
      ByteOfData(m1, m0, brk, B1, xs1, a, x - c + a);
      assert x - (c + HDR) + (a + HDR) == x - c + a;
    }
  }

  // ---------------------------------------------------------------- theorems

  /** mm_malloc fails exactly when no free block is large enough and the break
      cannot move, and it moves the break exactly when no free block is. */
  lemma FailsOnlyWhenFull(v: ListView, size: int)
    requires ListsFree(v.blocks, v.free) && 0 <= size <= LIST_MAX_REQUEST
    ensures var (v1, r) := ListMalloc(v, size);
            var n := ListRequest(size);
            var none := forall a | a in v.blocks && !v.blocks[a].used :: v.blocks[a].size < n;
            (r == NoMemory <==> v.brk + n > MAX_HEAP && none) && (v1.brk != v.brk <==> r != NoMemory && none)
  {
    hide ListRequest, FirstIn;
    ListRequestFits(size);
    FirstInMeaning(v.blocks, v.free, ListRequest(size));
    if FirstIn(v.blocks, v.free, ListRequest(size)).Some? {
      var k := FirstInPlace(v.blocks, v.free, ListRequest(size));
    }
  }

  /** A freed block is the first that mm_malloc tries, and taking it back undoes the
      mm_free. */
  lemma MallocUndoesFree(v: ListView, a: int, size: int)
    requires a in v.blocks && v.blocks[a].used && ListRequest(size) <= v.blocks[a].size
    ensures ListMalloc(ListFree(v, a), size) == (v, At(a + HDR))
  {
    var v1 := ListFree(v, a);
    assert FirstIn(v1.blocks, v1.free, ListRequest(size)) == Some(a);
    assert Marked(v1.blocks, a, true) == v.blocks;
    assert Drop(v1.free, a) == v.free;
  }

  /** The copy of mm_realloc leaves the memory area exactly when the old block ends
      at the limit, too small for the new request, and some free block is not. */
  lemma OverreadIff(m: Mem, v: ListView, a: int, size: int)
    requires ListInv(m, v.brk, v.blocks, v.free) && a in v.blocks && v.blocks[a].used && 0 <= size <= LIST_MAX_REQUEST
    ensures ListRealloc(v, a, size).1 == Overread <==>
              && size > v.blocks[a].size - HDR && End(v.blocks, a) == MAX_HEAP
              && exists b :: b in v.blocks && !v.blocks[b].used && v.blocks[b].size >= ListRequest(size)
  {
    hide ListRequest, FirstIn, Headed, Rings, Aligned;
    FailsOnlyWhenFull(v, size);
    ListRequestFits(size);
  }

  /** The copy does leave it: fill the area with a large block and a small one, free
      the large one, and enlarge the small one. */
  lemma OverreadExample()
    ensures var v0 := ListView(HDR, map[], []);
            var (v1, p) := ListMalloc(v0, MAX_HEAP - 80);
            var (v2, q) := ListMalloc(v1, 8);
            p == At(48) && q == At(MAX_HEAP - 8) && ListRealloc(ListFree(v2, 24), MAX_HEAP - 32, 16).1 == Overread
  {
    var n := MAX_HEAP - 56;
    assert ListRequest(MAX_HEAP - 80) == n && ListRequest(8) == 32 && ListRequest(16) == 40;
    var v2 := ListView(MAX_HEAP, map[24 := Block(n, true), MAX_HEAP - 32 := Block(32, true)], []);
    assert ListMalloc(ListMalloc(ListView(HDR, map[], []), MAX_HEAP - 80).0, 8).0 == v2;
    assert FirstIn(ListFree(v2, 24).blocks, [24], 40) == Some(24);
  }

  /** Payloads are 8-aligned, inside the heap, and pairwise disjoint. */
  lemma ListPayloadsIsolated(m: Mem, brk: int, B: Blocks, xs: seq<int>, a: int, b: int)
    requires ListInv(m, brk, B, xs) && a in B && b in B && a != b
    ensures (a + HDR) % 8 == 0 && 0 < a + HDR && End(B, a) <= brk
    ensures End(B, a) < b + HDR || End(B, b) < a + HDR
  {
    ListHeader(m, brk, B, xs, a);
    if a < b { assert a + B[a].size <= b; } else { assert b + B[b].size <= a; }
  }

  // -------------------------------------------------- what the operations leave

  lemma ListRequestIs(size: int)
    requires 0 <= size <= LIST_MAX_REQUEST
    ensures ListRequest(size) == (size + 31) / 8 * 8
  {
    ListRequestFits(size);
  }

  /** mm_malloc hands out the first block of the list that is large enough, whole; if
      there is none, a block of the rounded size at the break. */
  lemma ListMallocExact(v: ListView, size: int) returns (k: nat)
    requires Covers(v.blocks, v.brk) && ListsFree(v.blocks, v.free) && 0 <= size <= LIST_MAX_REQUEST
    ensures var (v1, r) := ListMalloc(v, size);
            var n, xs := (size + 31) / 8 * 8, v.free;
            r.At? ==>
              var a := r.addr - 24;
              if a in v.blocks then
                && k < |xs| && xs[k] == a && v.blocks[a].size >= n
                && (forall j | 0 <= j < k :: v.blocks[xs[j]].size < n)
                && v1 == ListView(v.brk, v.blocks[a := Block(v.blocks[a].size, true)], xs[..k] + xs[k + 1..])
              else
                && a == v.brk && v1 == ListView(v.brk + n, v.blocks[a := Block(n, true)], xs)
                && forall x | x in xs :: v.blocks[x].size < n
  {
    hide ListRequest, FirstIn, Drop;
    ListRequestIs(size);
    var n := ListRequest(size);
    FirstInMeaning(v.blocks, v.free, n);
    k := 0;
    if FirstIn(v.blocks, v.free, n).Some? {
      k := FirstInOrder(v.blocks, v.free, n);
      DropAt(v.free, k);
    }
  }

  /** A block that mm_realloc has moved is free, the first of the list, and what the next
      request gets that fits; every other block but the new one is as it was. */
  lemma ListReallocFrees(v: ListView, a: int, size: int, next: int)
    requires Covers(v.blocks, v.brk) && Aligned(v.blocks, v.brk) && ListsFree(v.blocks, v.free)
    requires a in v.blocks && v.blocks[a].used && 0 <= size <= LIST_MAX_REQUEST
    requires ListRealloc(v, a, size).1.At? && 0 <= next <= v.blocks[a].size - 24 && next <= LIST_MAX_REQUEST
    ensures var (v1, r) := ListRealloc(v, a, size);
            var b := r.addr - 24;
            && b != a && b in v1.blocks && v1.blocks[b].used && v1.blocks[b].size >= size + 24
            && (b in v.blocks ==> !v.blocks[b].used && v1.blocks[b].size == v.blocks[b].size)
            && v1.blocks.Keys == v.blocks.Keys + {b}
            && a in v1.blocks && v1.blocks[a] == Block(v.blocks[a].size, false)
            && (forall y | y in v.blocks && y != a && y != b :: v1.blocks[y] == v.blocks[y])
            && v1.free != [] && v1.free[0] == a && ListMalloc(v1, next).1 == At(a + 24)
  {
    hide ListRequest, FirstIn, Drop, Covers;
    ListRequestIs(size);
    ListRequestIs(next);
    ListRequestFits(size);
    var k := ListMallocExact(v, size);
    assert v.brk !in v.blocks by { BreakFree(v.blocks, v.brk); }
    RoundedInto(v.blocks[a].size, next);
    var v1 := ListRealloc(v, a, size).0;
    FirstInFront(v1.blocks, v1.free, ListRequest(next));
  }

  lemma BreakFree(B: Blocks, brk: int)
    requires Covers(B, brk)
    ensures brk !in B
  {
  }

  lemma RoundedInto(x: int, next: int)
    requires x % 8 == 0 && next + 24 <= x
    ensures (next + 31) / 8 * 8 <= x
  {
  }

  lemma FirstInFront(B: Blocks, xs: seq<int>, n: int)
    requires xs != [] && xs[0] in B && B[xs[0]].size >= n
    ensures FirstIn(B, xs, n) == Some(xs[0])
  {
  }
}
