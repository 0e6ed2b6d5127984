/** Circular doubly linked free lists as sequences over one flat memory: what
    unlinking and linking a node does to every list.  mps/05/mm.c keeps four such
    lists, mps/05/mm-explicit.c one; list `l` has its head at HDR * l. */
module FreeLists {
  import opened Memlib

  const HDR := 24

  type Mem = seq<word>
  type Lists = seq<seq<int>>

  /** The nodes met when following next_p from list head `l` once around. */
  function Loop(l: int, xs: seq<int>): seq<int> {
    [HDR * l] + xs + [HDR * l]
  }

  /** next_p and prior_p agree between the i-th node and the one after it. */
  ghost predicate Linked(m: Mem, r: seq<int>, i: int)
    requires 0 <= i < |r| - 1
  {
    && 0 <= r[i] && r[i] + 16 < |m| && 0 <= r[i + 1] && r[i + 1] + 16 < |m|
    && m[r[i] + 8] == r[i + 1] && m[r[i + 1] + 16] == r[i]
  }

  ghost predicate Ring(m: Mem, l: int, xs: seq<int>) {
    forall i | 0 <= i <= |xs| :: Linked(m, Loop(l, xs), i)
  }

  ghost predicate Rings(m: Mem, L: Lists) {
    forall l | 0 <= l < |L| :: Ring(m, l, L[l])
  }

  predicate Apart(a: int, b: int) {
    a + HDR <= b || b + HDR <= a
  }

  /** No address is at two places of the lists, and no two headers overlap. */
  ghost predicate Spread(L: Lists) {
    && (forall l, i | 0 <= l < |L| && 0 <= i < |L[l]| :: HDR * |L| <= L[l][i])
    && (forall l, i, k, j | 0 <= l < |L| && 0 <= i < |L[l]| && 0 <= k < |L| && 0 <= j < |L[k]| ::
          (l == k && i == j) || Apart(L[l][i], L[k][j]))
  }

  function Without(xs: seq<int>, k: nat): seq<int>
    requires k < |xs|
  {
    xs[..k] + xs[k + 1..]
  }

  lemma WithoutAt(xs: seq<int>, k: nat)
    requires k < |xs|
    ensures |Without(xs, k)| == |xs| - 1
    ensures forall i | 0 <= i < |xs| - 1 :: Without(xs, k)[i] == xs[if i < k then i else i + 1]
  {
  }

  /** Taking out an entry that occurs once leaves the others. */
  lemma WithoutMembers(xs: seq<int>, k: nat)
    requires k < |xs| && forall i | 0 <= i < |xs| && i != k :: xs[i] != xs[k]
    ensures xs[k] !in Without(xs, k)
    ensures forall x :: x in Without(xs, k) <==> x in xs && x != xs[k]
  {
    hide Without;
    WithoutAt(xs, k);
    forall x | x in xs && x != xs[k]
      ensures x in Without(xs, k)
    {
      var i :| 0 <= i < |xs| && xs[i] == x;
      assert Without(xs, k)[if i < k then i else i - 1] == x;
    }
  }

  /** head->prior_p->next_p = head->next_p; head->next_p->prior_p = head->prior_p */
  function UnlinkMem(m: Mem, prior: int, next: int): Mem
    requires 0 <= prior && prior + 16 < |m| < WORD_LIMIT && 0 <= next && next + 16 < |m|
  {
    m[prior + 8 := next][next + 16 := prior]
  }

  /** The words of a listed node point to its neighbours. */
  ghost predicate Unlinkable(m: Mem, a: int) {
    0 <= a && a + 16 < |m| && m[a + 16] as int + 16 < |m| && m[a + 8] as int + 16 < |m|
  }

  lemma UnlinkableAt(m: Mem, L: Lists, l: int, k: nat)
    requires Rings(m, L) && 0 <= l < |L| && k < |L[l]|
    ensures var r := Loop(l, L[l]);
            && Linked(m, r, k) && Linked(m, r, k + 1) && r[k + 1] == L[l][k]
            && Unlinkable(m, L[l][k]) && m[L[l][k] + 16] == r[k] && m[L[l][k] + 8] == r[k + 2]
  {
    assert Ring(m, l, L[l]);
    assert Linked(m, Loop(l, L[l]), k) && Linked(m, Loop(l, L[l]), k + 1);
  }

  lemma LoopWithout(l: int, xs: seq<int>, k: nat, i: nat)
    requires k < |xs| && i <= |xs|
    ensures Loop(l, Without(xs, k))[i] == Loop(l, xs)[if i <= k then i else i + 1]
  {
  }

  /** Places of a loop hold the same header or headers that do not overlap. */
  lemma LoopApart(L: Lists, l: int, i: nat, j: nat)
    requires Spread(L) && 0 <= l < |L| && i <= |L[l]| + 1 && j <= |L[l]| + 1
    ensures var r := Loop(l, L[l]);
            if i == j || (i == 0 && j == |L[l]| + 1) || (j == 0 && i == |L[l]| + 1) then r[i] == r[j]
            else Apart(r[i], r[j])
  {
    var xs := L[l];
    if 0 < i <= |xs| { assert Loop(l, xs)[i] == xs[i - 1]; }
    if 0 < j <= |xs| { assert Loop(l, xs)[j] == xs[j - 1]; }
  }

  lemma UnlinkRing(m: Mem, L: Lists, l: int, k: nat)
    requires |m| < WORD_LIMIT && Rings(m, L) && Spread(L)
    requires 0 <= l < |L| && k < |L[l]|
    ensures Unlinkable(m, L[l][k])
    ensures Ring(UnlinkMem(m, m[L[l][k] + 16], m[L[l][k] + 8]), l, Without(L[l], k))
  {
    hide Spread, Loop, Without;
    UnlinkableAt(m, L, l, k);
    var r := Loop(l, L[l]);
    LoopLength(l, L[l], k);
    var m' := UnlinkMem(m, r[k], r[k + 2]);
    var s := Loop(l, Without(L[l], k));
    LoopApart(L, l, k, k + 2);
    assert Ring(m, l, L[l]);
    forall i | 0 <= i < |L[l]|
      ensures Linked(m', s, i)
    {
      LoopWithout(l, L[l], k, i);
      LoopWithout(l, L[l], k, i + 1);
      var j := if i <= k then i else i + 1;
      if i != k {
        assert Linked(m, r, j);
        LoopApart(L, l, j, k);
        LoopApart(L, l, j, k + 2);
        LoopApart(L, l, j + 1, k);
        LoopApart(L, l, j + 1, k + 2);
      }
    }
  }

  lemma LoopLength(l: int, xs: seq<int>, k: nat)
    requires k < |xs|
    ensures |Loop(l, xs)| == |xs| + 2 && |Loop(l, Without(xs, k))| == |xs| + 1 && |Without(xs, k)| == |xs| - 1
  {
  }

  /** Unlinking the k-th node of list `l` takes it out of that list and leaves the
      other lists alone. */
  lemma UnlinkRings(m: Mem, L: Lists, l: int, k: nat)
    requires |m| < WORD_LIMIT && Rings(m, L) && Spread(L)
    requires 0 <= l < |L| && k < |L[l]|
    ensures Unlinkable(m, L[l][k])
    ensures Rings(UnlinkMem(m, m[L[l][k] + 16], m[L[l][k] + 8]), L[l := Without(L[l], k)])
  {
    UnlinkableAt(m, L, l, k);
    UnlinkRing(m, L, l, k);
    var r := Loop(l, L[l]);
    var m' := UnlinkMem(m, r[k], r[k + 2]);
    forall l' | 0 <= l' < |L| && l' != l
      ensures Ring(m', l', L[l'])
    {
      var s := Loop(l', L[l']);
      forall i | 0 <= i <= |L[l']|
        ensures Linked(m', s, i)
      {
        assert Linked(m, s, i);
      }
    }
  }

  ghost predicate Linkable(m: Mem, l: int, a: int) {
    0 <= l && HDR * l + HDR <= a && a + 16 < |m| < WORD_LIMIT && m[HDR * l + 8] as int + 16 < |m|
  }

  /** add_to_free_lists on the list whose head is at HDR * l, in source order. */
  ghost function LinkMem(m: Mem, l: int, a: int): Mem
    requires Linkable(m, l, a)
  {
    var first := m[HDR * l + 8];
    m[a + 16 := HDR * l][a + 8 := first][first + 16 := a][HDR * l + 8 := a]
  }

  /** `a` overlaps no node of any list. */
  ghost predicate Fresh(L: Lists, a: int)
  {
    HDR * |L| <= a && forall k, j | 0 <= k < |L| && 0 <= j < |L[k]| :: Apart(a, L[k][j])
  }

  lemma LinkOwnRing(m: Mem, L: Lists, l: int, a: int)
    requires |m| < WORD_LIMIT && Rings(m, L) && 0 <= l < |L|
    requires Spread(L) && Fresh(L, a) && a + 16 < |m|
    ensures Linkable(m, l, a)
    ensures Ring(LinkMem(m, l, a), l, [a] + L[l])
  {
    assert Ring(m, l, L[l]);
    var r := Loop(l, L[l]);
    assert Linked(m, r, 0);
    var m' := LinkMem(m, l, a);
    var s := Loop(l, [a] + L[l]);
    assert r[1..] == L[l] + [HDR * l];
    assert s == [HDR * l, a] + r[1..];
    forall i | 0 <= i <= |L[l]| + 1
      ensures Linked(m', s, i)
    {
      if i >= 2 {
        assert Linked(m, r, i - 1);
      }
    }
  }

  lemma LinkOtherRing(m: Mem, L: Lists, l: int, a: int, k: int)
    requires |m| < WORD_LIMIT && Rings(m, L) && 0 <= l < |L| && 0 <= k < |L| && k != l
    requires Spread(L) && Fresh(L, a) && a + 16 < |m|
    requires Linkable(m, l, a)
    ensures Ring(LinkMem(m, l, a), k, L[k])
  {
    assert Ring(m, l, L[l]) && Linked(m, Loop(l, L[l]), 0);
    var m' := LinkMem(m, l, a);
    var t := Loop(k, L[k]);
    assert Ring(m, k, L[k]);
    forall i | 0 <= i <= |L[k]|
      ensures Linked(m', t, i)
    {
      assert Linked(m, t, i);
    }
  }

  /** Linking a fresh node puts it at the front of list `l`. */
  lemma LinkRings(m: Mem, L: Lists, l: int, a: int)
    requires |m| < WORD_LIMIT && Rings(m, L) && 0 <= l < |L|
    requires Spread(L) && Fresh(L, a) && a + 16 < |m|
    ensures Linkable(m, l, a)
    ensures Rings(LinkMem(m, l, a), L[l := [a] + L[l]])
  {
    LinkOwnRing(m, L, l, a);
    forall k | 0 <= k < |L| && k != l
      ensures Ring(LinkMem(m, l, a), k, L[k])
    {
      LinkOtherRing(m, L, l, a, k);
    }
  }
}
