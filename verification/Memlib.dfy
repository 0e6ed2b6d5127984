/** The simulated memory system (mps/05/memlib.c).

    Addresses are byte offsets from mem_start_brk.  The heap area is an array of
    8-byte words addressed by the byte offset of their first byte, so slot `a` is
    the word occupying bytes a..a+7 and only slots at multiples of 8 are ever
    used; single bytes are read and written through `ByteOf` and `WithByte`. */
module Memlib {

  const MAX_HEAP: nat := 20 * 0x10_0000
  const WORD_LIMIT: nat := 0x1_0000_0000_0000_0000

  /** The result of a failed mem_sbrk, `(void *)-1`. */
  const SBRK_FAILED: int := -1

  /** A 64-bit unsigned word: a size_t or a pointer. */
  type word = x: int | 0 <= x < WORD_LIMIT

  type byte = x: int | 0 <= x < 256

  /** `x | 1` */
  function SetLow(x: int): int {
    if x % 2 == 0 then x + 1 else x
  }

  /** `x & ~1` */
  function ClearLow(x: int): int {
    x - x % 2
  }

  lemma Even(n: int)
    requires n % 8 == 0
    ensures n % 2 == 0 && (n + 1) % 2 == 1
  {
    var k := n / 8;
    assert n == 2 * (4 * k);
  }

  lemma LowBits(n: int)
    requires n % 8 == 0
    ensures SetLow(n) == n + 1 && SetLow(n + 1) == n + 1 && ClearLow(n) == n && ClearLow(n + 1) == n
  {
    Even(n);
  }

  // ------------------------------------------------------------------ bytes

  /** Byte `k` of a word, least significant first. */
  function ByteOf(w: nat, k: nat): byte {
    if k == 0 then w % 256 else ByteOf(w / 256, k - 1)
  }

  function WithByte(w: nat, k: nat, v: byte): nat {
    if k == 0 then w - w % 256 + v else w % 256 + 256 * WithByte(w / 256, k - 1, v)
  }

  function Pow256(n: nat): nat {
    if n == 0 then 1 else 256 * Pow256(n - 1)
  }

  /** Setting a byte changes that byte and no other. */
  lemma {:induction false} ByteOfWith(w: nat, k: nat, v: byte, j: nat)
    ensures ByteOf(WithByte(w, k, v), j) == if j == k then v else ByteOf(w, j)
  {
    var w' := WithByte(w, k, v);
    if k == 0 {
      assert w' % 256 == v && w' / 256 == w / 256;
    } else {
      assert w' % 256 == w % 256 && w' / 256 == WithByte(w / 256, k - 1, v);
      if j > 0 {
        ByteOfWith(w / 256, k - 1, v, j - 1);
      }
    }
  }

  lemma {:induction false} WithByteStays(w: nat, k: nat, v: byte, n: nat)
    requires k < n && w < Pow256(n)
    ensures WithByte(w, k, v) < Pow256(n)
  {
    if k > 0 {
      WithByteStays(w / 256, k - 1, v, n - 1);
    }
  }

  lemma WithByteBound(w: word, k: nat, v: byte)
    requires k < 8
    ensures WithByte(w, k, v) < WORD_LIMIT
  {
    assert Pow256(8) == WORD_LIMIT by {
      assert Pow256(4) == 0x1_0000_0000;
      assert Pow256(6) == 0x1_0000_0000_0000;
    }
    WithByteStays(w, k, v, 8);
  }

  /** The byte at address `a`. */
  ghost function ByteAt(m: seq<word>, a: int): int {
    if 0 <= a - a % 8 < |m| then ByteOf(m[a - a % 8], a % 8) else 0
  }

  /** Only bytes in [lo, hi) differ, and only words that start in it. */
  ghost predicate BytesOnly(m: seq<word>, m': seq<word>, lo: int, hi: int) {
    && |m'| == |m|
    && (forall a | !(lo <= a < hi) :: ByteAt(m', a) == ByteAt(m, a))
    && (forall c | 0 <= c < |m| && !(lo - lo % 8 <= c < hi) :: m'[c] == m[c])
  }

  lemma StoreByteFrame(m: seq<word>, m': seq<word>, a: int, v: byte)
    requires 0 <= a && a - a % 8 < |m| && |m'| == |m|
    requires WithByte(m[a - a % 8], a % 8, v) < WORD_LIMIT
    requires m' == m[a - a % 8 := WithByte(m[a - a % 8], a % 8, v)]
    ensures BytesOnly(m, m', a, a + 1) && ByteAt(m', a) == v
  {
    forall b
      ensures ByteAt(m', b) == if b == a then v else ByteAt(m, b)
    {
      if b - b % 8 == a - a % 8 {
        ByteOfWith(m[a - a % 8], a % 8, v, b % 8);
      }
    }
  }

  lemma BytesOnlyMore(m0: seq<word>, m1: seq<word>, m2: seq<word>, lo: int, hi: int)
    requires lo <= hi && BytesOnly(m0, m1, lo, hi) && BytesOnly(m1, m2, hi, hi + 1)
    requires lo % 8 == 0
    ensures BytesOnly(m0, m2, lo, hi + 1)
  {
    forall a | !(lo <= a < hi + 1)
      ensures ByteAt(m2, a) == ByteAt(m0, a)
    {
      assert ByteAt(m1, a) == ByteAt(m0, a);
    }
  }

  lemma SameBytes(m: seq<word>, src: int, dst: int)
    ensures BytesOnly(m, m, dst, dst) && BytesCopied(m, m, src, dst, 0)
  {
  }

  lemma WordStart(lo: int, n: int, a: int)
    requires lo % 8 == 0 && n % 8 == 0 && lo <= a < lo + n
    ensures lo <= a - a % 8 && a - a % 8 + 8 <= lo + n
  {
  }

  /** The `n` bytes at `dst` of m' are those at `src` of m. */
  ghost predicate BytesCopied(m: seq<word>, m': seq<word>, src: int, dst: int, n: int) {
    forall x | dst <= x < dst + n :: ByteAt(m', x) == ByteAt(m, x - dst + src)
  }

  /** Byte `i` of a copy, after the `i` bytes before it. */
  lemma CopyByte(m0: seq<word>, m: seq<word>, m': seq<word>, dst: int, src: int, i: nat)
    requires dst % 8 == 0 && BytesOnly(m0, m, dst, dst + i) && BytesOnly(m, m', dst + i, dst + i + 1)
    requires BytesCopied(m0, m, src, dst, i)
    requires !(dst <= src + i < dst + i) && ByteAt(m', dst + i) == ByteAt(m, src + i)
    ensures BytesOnly(m0, m', dst, dst + i + 1) && BytesCopied(m0, m', src, dst, i + 1)
  {
    hide ByteAt;
    BytesOnlyMore(m0, m, m', dst, dst + i);
    assert ByteAt(m, src + i) == ByteAt(m0, src + i);
    forall x | dst <= x < dst + i + 1
      ensures ByteAt(m', x) == ByteAt(m0, x - dst + src)
    {
      if x < dst + i { assert ByteAt(m', x) == ByteAt(m, x); }
    }
  }

  lemma NextWord(dst: int, src: int, n: int, i: int)
    requires dst % 8 == 0 && src % 8 == 0 && n % 8 == 0 && i % 8 == 0 && i < n
    ensures (dst + i) % 8 == 0 && (src + i) % 8 == 0 && (i + 8) % 8 == 0 && i + 8 <= n
  {
  }

  lemma CopiedNone(m: seq<word>, src: int, dst: int)
    requires 0 <= src <= |m| && 0 <= dst <= |m|
    ensures Copied(m, m, src, dst, 0)
  {
  }

  lemma CopiedWord(m0: seq<word>, m: seq<word>, src: int, dst: int, i: int)
    requires Copied(m0, m, src, dst, i) && 0 <= i && i % 8 == 0 && src + i + 8 <= |m| && dst + i + 8 <= |m|
    requires m[src + i] == m0[src + i]
    ensures var m': seq<word> := m[dst + i := m[src + i]];
            Copied(m0, m', src, dst, i + 8)
  {
    var m': seq<word> := m[dst + i := m[src + i]];
    forall j | 0 <= j < i + 8 && j % 8 == 0
      ensures m'[dst + j] == m0[src + j]
    {
      if j >= i { NextWord(0, 0, i + 8, j); }
    }
  }

  class Memory {
    const cells: array<word>
    var brk: nat

    ghost predicate Valid()
      reads this
    {
      cells.Length == MAX_HEAP && brk <= MAX_HEAP
    }

    constructor ()
      ensures Valid() && brk == 0 && fresh(cells)
    {
      cells := new word[MAX_HEAP];
      brk := 0;
    }

    method ResetBrk()
      requires Valid()
      modifies `brk
      ensures Valid() && brk == 0
    {
      brk := 0;
    }

    method Sbrk(incr: int) returns (r: int)
      requires Valid()
      modifies `brk
      ensures Valid()
      ensures r == SBRK_FAILED <==> incr < 0 || old(brk) + incr > MAX_HEAP
      ensures r == SBRK_FAILED ==> brk == old(brk)
      ensures r != SBRK_FAILED ==> r == old(brk) && brk == old(brk) + incr
    {
      var oldBrk := brk;
      if incr < 0 || brk + incr > MAX_HEAP {
        return SBRK_FAILED;
      }
      brk := brk + incr;
      return oldBrk;
    }

    /** mem_heap_hi: the address of the last heap byte. */
    function HeapHi(): int
      reads this
    {
      brk - 1
    }

    function HeapSize(): nat
      reads this
    {
      brk
    }

    /** An aligned 8-byte load from the heap. */
    function Load(a: int): word
      requires Valid() && 0 <= a && a % 8 == 0 && a + 8 <= brk
      reads this, cells
    {
      cells[a]
    }

    /** An aligned 8-byte store to the heap. */
    method Store(a: int, v: int)
      requires Valid() && 0 <= a && a % 8 == 0 && a + 8 <= brk && 0 <= v < WORD_LIMIT
      modifies cells
      ensures cells[..] == old(cells[..])[a := v]
    {
      cells[a] := v;
    }

    /** An aligned 8-byte store into the memory area, above the break as well. */
    method StoreInArea(a: int, v: int)
      requires Valid() && 0 <= a && a % 8 == 0 && a + 8 <= MAX_HEAP && 0 <= v < WORD_LIMIT
      modifies cells
      ensures cells[..] == old(cells[..])[a := v]
    {
      cells[a] := v;
    }

    /** memcpy between aligned, disjoint areas of the heap. */
    method Memcpy(dst: int, src: int, n: int)
      requires Valid() && 0 <= n && n % 8 == 0
      requires 0 <= dst && dst % 8 == 0 && dst + n <= brk
      requires 0 <= src && src % 8 == 0 && src + n <= brk
      requires dst + n <= src || src + n <= dst
      modifies cells
      ensures Copied(old(cells[..]), cells[..], src, dst, n)
      ensures forall c | 0 <= c < cells.Length && !(dst <= c < dst + n) :: cells[c] == old(cells[c])
    {
      hide Copied;
      var i := 0;
      ghost var m0 := cells[..];
      CopiedNone(m0, src, dst);
      while i < n
        invariant 0 <= i <= n && i % 8 == 0
        invariant Copied(m0, cells[..], src, dst, i)
        invariant forall c | 0 <= c < cells.Length && !(dst <= c < dst + i) :: cells[c] == m0[c]
      {
        NextWord(dst, src, n, i);
        CopiedWord(m0, cells[..], src, dst, i);
        Store(dst + i, Load(src + i));
        i := i + 8;
      }
    }

    function LoadByte(a: int): int
      requires Valid() && 0 <= a && a - a % 8 + 8 <= brk
      reads this, cells
    {
      ByteOf(cells[a - a % 8], a % 8)
    }

    /** A one-byte store: the other seven bytes of its word stay. */
    method StoreByte(a: int, v: byte)
      requires Valid() && 0 <= a && a - a % 8 + 8 <= brk
      modifies cells
      ensures BytesOnly(old(cells[..]), cells[..], a, a + 1)
      ensures ByteAt(cells[..], a) == v
    {
      ghost var m := cells[..];
      var w := cells[a - a % 8];
      WithByteBound(w, a % 8, v);
      cells[a - a % 8] := WithByte(w, a % 8, v);
      StoreByteFrame(m, cells[..], a, v);
    }

    /** memcpy of `n` bytes into `room` bytes at an aligned address of the heap; the
        source may lie anywhere in the memory area, but not overlap the target. */
    method MemcpyBytes(dst: int, src: int, n: int, ghost room: int)
      requires Valid() && 0 <= n <= room && room % 8 == 0
      requires 0 <= dst && dst % 8 == 0 && dst + room <= brk
      requires 0 <= src && src + n <= MAX_HEAP && (dst + n <= src || src + n <= dst)
      modifies cells
      ensures BytesOnly(old(cells[..]), cells[..], dst, dst + n)
      ensures BytesCopied(old(cells[..]), cells[..], src, dst, n)
    {
      hide BytesOnly, BytesCopied, ByteOf;
      var i := 0;
      ghost var m0 := cells[..];
      SameBytes(m0, src, dst);
      while i < n
        invariant 0 <= i <= n
        invariant BytesOnly(m0, cells[..], dst, dst + i)
        invariant BytesCopied(m0, cells[..], src, dst, i)
      {
        ghost var m := cells[..];
        WordStart(dst, room, dst + i);
        WordStart(0, MAX_HEAP, src + i);
        var v := ByteOf(cells[src + i - (src + i) % 8], (src + i) % 8);
        StoreByte(dst + i, v);
        CopyByte(m0, m, cells[..], dst, src, i);
        i := i + 1;
      }
    }

    /** memset of `n` bytes at an aligned address. */
    method Memset(p: int, v: byte, n: int)
      requires Valid() && 0 <= p && p % 8 == 0 && 0 <= n && p + n <= brk && brk % 8 == 0
      modifies cells
      ensures BytesOnly(old(cells[..]), cells[..], p, p + n)
      ensures forall j | p <= j < p + n :: ByteAt(cells[..], j) == v
    {
      var i := 0;
      while i < n
        invariant 0 <= i <= n
        invariant BytesOnly(old(cells[..]), cells[..], p, p + i)
        invariant forall j | p <= j < p + i :: ByteAt(cells[..], j) == v
      {
        ghost var m := cells[..];
        WordStart(p, brk - p, p + i);
        StoreByte(p + i, v);
        BytesOnlyMore(old(cells[..]), m, cells[..], p, p + i);
        i := i + 1;
      }
    }
  }

  /** The `n` bytes at `dst` of m' are those at `src` of m. */
  ghost predicate Copied(m: seq<word>, m': seq<word>, src: int, dst: int, n: int) {
    && |m| == |m'| && 0 <= src && 0 <= dst && src + n <= |m| && dst + n <= |m|
    && forall i | 0 <= i < n && i % 8 == 0 :: m'[dst + i] == m[src + i]
  }
}
