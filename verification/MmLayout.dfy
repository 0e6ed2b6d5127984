/** The heap of mps/05/mm.c: blocks with boundary tags tiling the memory between
    the list heads and the epilogue, every free block on its size-class list. */
module MmLayout {
  import opened Memlib
  import opened FreeLists

  const LISTS := 4
  const FTR := 8
  const MIN_BLOCK := 40
  const SENTINEL := HDR * LISTS
  const FIRST := SENTINEL + FTR

  datatype Block = Block(size: int, used: bool)

  /** Blocks by the address of their header. */
  type Blocks = map<int, Block>

  /** The size word stored in a block's header and footer. */
  function Tag(b: Block): int {
    if b.used then b.size + 1 else b.size
  }

  function End(B: Blocks, a: int): int
    requires a in B
  {
    a + B[a].size
  }

  /** map_to_list: the list a block of `size` bytes belongs to. */
  function MapToList(size: int): (l: int)
    ensures 0 <= l < LISTS
  {
    if size < 290 then 0 else if size < 540 then 1 else if size < 2080 then 2 else 3
  }

  /** The blocks follow each other without gap or overlap from FIRST to `epi`. */
  ghost predicate Tiled(B: Blocks, epi: int) {
    && FIRST <= epi
    && (FIRST in B || FIRST == epi)
    && (forall a | a in B ::
          FIRST <= a && MIN_BLOCK <= B[a].size && a + B[a].size <= epi)
    && (forall a {:trigger End(B, a)} | a in B :: End(B, a) in B || End(B, a) == epi)
    && (forall a, b | a in B && b in B && a < b :: a + B[a].size <= b)
  }

  /** Headers sit at multiples of 8 and sizes are multiples of 8. */
  ghost predicate Aligned(B: Blocks, epi: int) {
    epi % 8 == 0 && forall a | a in B :: a % 8 == 0 && B[a].size % 8 == 0
  }

  ghost predicate BlockTagged(m: Mem, a: int, b: Block) {
    0 <= a && MIN_BLOCK <= b.size && a + b.size <= |m| &&
    m[a] == Tag(b) && m[a + b.size - FTR] == Tag(b)
  }

  /** Header and footer agree on every block; the words before the first block
      and at the epilogue read as allocated. */
  ghost predicate Tagged(m: Mem, B: Blocks, epi: int) {
    && FIRST <= epi && epi + HDR <= |m|
    && m[SENTINEL] == 1 && m[epi] == HDR + 1
    && (forall l | 0 <= l < LISTS :: m[HDR * l] == 1)
    && (forall a | a in B :: BlockTagged(m, a, B[a]))
  }

  /** Entries of the lists are distinct blocks; apart from the `loose` ones, which
      an operation is working on, they are exactly the free blocks, each on the
      list of its size. */
  ghost predicate Indexed(B: Blocks, L: Lists, loose: set<int>) {
    && |L| == LISTS
    && (forall l, i | 0 <= l < LISTS && 0 <= i < |L[l]| ::
          L[l][i] in B &&
          (L[l][i] in loose || (!B[L[l][i]].used && MapToList(B[L[l][i]].size) == l)))
    && (forall l, i, k, j | 0 <= l < LISTS && 0 <= i < |L[l]| && 0 <= k < LISTS && 0 <= j < |L[k]| ::
          (l == k && i == j) || L[l][i] != L[k][j])
    && (forall a | a in B && !B[a].used && a !in loose :: a in L[MapToList(B[a].size)])
  }

  /** No two neighbours are both free, unless one of them is being worked on. */
  ghost predicate Separated(B: Blocks, loose: set<int>) {
    forall a {:trigger End(B, a)} | a in B && !B[a].used && End(B, a) in B && !B[End(B, a)].used ::
      a in loose || End(B, a) in loose
  }

  ghost predicate HeapOk(m: Mem, brk: int, B: Blocks, L: Lists, loose: set<int>) {
    && |m| == MAX_HEAP && brk <= MAX_HEAP
    && Tiled(B, brk - HDR)
    && Aligned(B, brk - HDR)
    && Tagged(m, B, brk - HDR)
    && Indexed(B, L, loose)
    && Rings(m, L)
    && Separated(B, loose)
  }

  /** The heap invariant.  (Comparing with `true` keeps the verifier from unfolding
      all of it wherever it is mentioned.) */
  ghost predicate Inv(m: Mem, brk: int, B: Blocks, L: Lists, loose: set<int>) {
    HeapOk(m, brk, B, L, loose) == true
  }

  predicate IsHead(x: int) {
    x == 0 || x == 24 || x == 48 || x == 72
  }

  ghost predicate SameLinks(m: Mem, m': Mem, B: Blocks) {
    |m'| == |m| &&
    forall x | (x in B || IsHead(x)) && 0 <= x && x + 16 < |m| ::
      m'[x + 8] == m[x + 8] && m'[x + 16] == m[x + 16]
  }

  ghost predicate SamePayloads(m: Mem, m': Mem, B: Blocks) {
    |m'| == |m| &&
    forall a, x | a in B && B[a].used && 0 <= a + HDR <= x < a + B[a].size - FTR && x < |m| :: m'[x] == m[x]
  }

  /** No payload byte of an allocated block differs. */
  ghost predicate PayloadsKept(m: Mem, m': Mem, B: Blocks) {
    SamePayloads(m, m', B) == true
  }

  ghost predicate EntriesIn(L: Lists, B: Blocks) {
    |L| == LISTS && forall l, i | 0 <= l < LISTS && 0 <= i < |L[l]| :: L[l][i] in B
  }

  lemma RingsFrame(m: Mem, m': Mem, B: Blocks, L: Lists)
    requires Rings(m, L) && SameLinks(m, m', B)
    requires EntriesIn(L, B)
    ensures Rings(m', L)
  {
    forall l | 0 <= l < LISTS
      ensures Ring(m', l, L[l])
    {
      var r := Loop(l, L[l]);
      assert Ring(m, l, L[l]);
      forall i | 0 <= i <= |L[l]|
        ensures Linked(m', r, i)
      {
        assert IsHead(HDR * l);
        assert r[i] in B || IsHead(r[i]);
        assert r[i + 1] in B || IsHead(r[i + 1]);
        assert Linked(m, r, i);
      }
    }
  }

  lemma IndexedSpread(B: Blocks, epi: int, L: Lists, loose: set<int>)
    requires Tiled(B, epi) && Indexed(B, L, loose)
    ensures Spread(L)
  {
  }

  predicate IsLinkCell(B: Blocks, c: int) {
    c - 8 in B || c - 16 in B || IsHead(c - 8) || IsHead(c - 16)
  }

  /** The link words of a header are no tag and lie in no payload. */
  lemma LinkCellsFree(B: Blocks, epi: int, c: int, y: int)
    requires Tiled(B, epi) && y in B && IsLinkCell(B, c)
    ensures c != y && c != End(B, y) - FTR && !(y + HDR <= c < End(B, y) - FTR)
  {
  }

  lemma LinkCellsElsewhere(B: Blocks, epi: int, c: int)
    requires Tiled(B, epi) && IsLinkCell(B, c)
    ensures c != SENTINEL && c != epi && !IsHead(c)
  {
  }

  ghost predicate OnlyLinks(m: Mem, m': Mem, B: Blocks) {
    |m'| == |m| && forall c | 0 <= c < |m| && m'[c] != m[c] :: IsLinkCell(B, c)
  }

  /** Writing link words only leaves every tag as it was. */
  lemma LinkWritesKeepTags(m: Mem, m': Mem, B: Blocks, epi: int)
    requires Tiled(B, epi) && Tagged(m, B, epi) && OnlyLinks(m, m', B)
    ensures Tagged(m', B, epi)
  {
    hide Tiled;
    forall y | y in B
      ensures BlockTagged(m', y, B[y])
    {
      assert BlockTagged(m, y, B[y]);
      if m'[y] != m[y] { LinkCellsFree(B, epi, y, y); }
      if m'[End(B, y) - FTR] != m[End(B, y) - FTR] { LinkCellsFree(B, epi, End(B, y) - FTR, y); }
    }
    forall c | 0 <= c < |m| && (c == SENTINEL || c == epi || IsHead(c))
      ensures m'[c] == m[c]
    {
      if m'[c] != m[c] { LinkCellsElsewhere(B, epi, c); }
    }
    forall l | 0 <= l < LISTS
      ensures m'[HDR * l] == 1
    {
      assert IsHead(HDR * l);
    }
  }

  lemma LinkWritesKeepPayloads(m: Mem, m': Mem, B: Blocks, epi: int)
    requires Tiled(B, epi) && OnlyLinks(m, m', B)
    ensures PayloadsKept(m, m', B)
  {
    forall a, x | a in B && B[a].used && 0 <= a + HDR <= x < a + B[a].size - FTR && x < |m|
      ensures m'[x] == m[x]
    {
      if m'[x] != m[x] { LinkCellsFree(B, epi, x, a); }
    }
  }
}
