/** The range list of mps/05/mdriver.c: the extents of the payloads that a trace
    currently holds, as a linked list changed in place. */
module Ranges {
  import opened LinkedLists

  /** First and last byte of a payload. */
  datatype Extent = Extent(lo: int, hi: int)

  type RangeList = LinkedList<Extent>

  const ALIGNMENT := 8

  predicate Overlaps(a: Extent, b: Extent) {
    a.lo <= b.hi && b.lo <= a.hi
  }

  /** The test of add_range: an end of the new range lies in the old one. */
  predicate EndInside(new_: Extent, p: Extent) {
    (p.lo <= new_.lo <= p.hi) || (p.lo <= new_.hi <= p.hi)
  }

  /** The test finds every overlap except one: a new range that strictly contains
      an old one. */
  lemma EndInsideExact(n: Extent, p: Extent)
    requires n.lo <= n.hi && p.lo <= p.hi
    ensures EndInside(n, p) <==> Overlaps(n, p) && !(n.lo < p.lo && p.hi < n.hi)
  {
  }

  /** What add_range accepts on a heap of `size` bytes. */
  ghost predicate Acceptable(xs: seq<Extent>, e: Extent, heapSize: int) {
    && e.lo % 8 == 0
    && 0 <= e.lo < heapSize && 0 <= e.hi < heapSize
    && Clear(xs, e)
  }

  ghost predicate Clear(xs: seq<Extent>, e: Extent) {
    forall i | 0 <= i < |xs| :: !EndInside(e, xs[i])
  }

  /** The list without the first range that starts at `lo`. */
  function Removed(xs: seq<Extent>, lo: int): seq<Extent> {
    if xs == [] then [] else if xs[0].lo == lo then xs[1..] else [xs[0]] + Removed(xs[1..], lo)
  }

  /** Where the first range that starts at `lo` is, or |xs|. */
  function PlaceOf(xs: seq<Extent>, lo: int): (i: nat)
    ensures i <= |xs| && (i < |xs| ==> xs[i].lo == lo) && forall k | 0 <= k < i :: xs[k].lo != lo
  {
    if xs == [] || xs[0].lo == lo then 0 else 1 + PlaceOf(xs[1..], lo)
  }

  lemma {:induction false} RemovedAt(xs: seq<Extent>, k: nat)
    requires k < |xs| && forall i | 0 <= i < k :: xs[i].lo != xs[k].lo
    ensures Removed(xs, xs[k].lo) == xs[..k] + xs[k + 1..]
  {
    if k > 0 {
      RemovedAt(xs[1..], k - 1);
      assert xs[..k] + xs[k + 1..] == [xs[0]] + (xs[1..][..k - 1] + xs[1..][k..]);
    }
  }

  lemma {:induction false} RemovedNone(xs: seq<Extent>, lo: int)
    requires forall i | 0 <= i < |xs| :: xs[i].lo != lo
    ensures Removed(xs, lo) == xs
  {
    if xs != [] {
      RemovedNone(xs[1..], lo);
    }
  }

  /** The overlap loop of add_range. */
  method MeetsNone(ranges: RangeList, lo: int, hi: int) returns (ok: bool)
    requires ranges.Valid()
    ensures ok <==> Clear(ranges.Contents(), Extent(lo, hi))
  {
    ghost var xs := ranges.Contents();
    var p := ranges.head;
    ghost var i := 0;
    while p != null
      invariant 0 <= i <= |ranges.nodes| && p == ranges.NodeAt(i)
      invariant forall k | 0 <= k < i :: !EndInside(Extent(lo, hi), xs[k])
      decreases |ranges.nodes| - i
    {
      assert xs[i] == p.value;
      if (lo >= p.value.lo && lo <= p.value.hi) || (hi >= p.value.lo && hi <= p.value.hi) {
        assert EndInside(Extent(lo, hi), xs[i]);
        return false;
      }
      assert ranges.Hop(i);
      p := p.next;
      i := i + 1;
    }
    return true;
  }

  /** add_range */
  method AddRange(ranges: RangeList, lo: int, size: int, heapSize: int) returns (ok: bool)
    requires ranges.Valid() && size > 0
    modifies ranges
    ensures ranges.Valid()
    ensures ok <==> Acceptable(old(ranges.Contents()), Extent(lo, lo + size - 1), heapSize)
    ensures ok ==> ranges.Contents() == [Extent(lo, lo + size - 1)] + old(ranges.Contents())
    ensures ok ==> |ranges.nodes| > 0 && ranges.nodes[1..] == old(ranges.nodes) && fresh(ranges.nodes[0])
    ensures !ok ==> ranges.Contents() == old(ranges.Contents()) && ranges.nodes == old(ranges.nodes)
  {
    hide LinkedList.Valid, LinkedList.Contents, Clear;
    var hi := lo + size - 1;
    if lo % ALIGNMENT != 0 {
      return false;
    }
    if lo < 0 || lo > heapSize - 1 || hi < 0 || hi > heapSize - 1 {
      return false;
    }
    ok := MeetsNone(ranges, lo, hi);
    if ok {
      ranges.Prepend(Extent(lo, hi));
    }
  }

  lemma PlaceIs(xs: seq<Extent>, lo: int, i: nat)
    requires i <= |xs| && (i < |xs| ==> xs[i].lo == lo) && forall k | 0 <= k < i :: xs[k].lo != lo
    ensures PlaceOf(xs, lo) == i && Removed(xs, lo) == if i < |xs| then xs[..i] + xs[i + 1..] else xs
  {
    if i < |xs| {
      RemovedAt(xs, i);
    } else {
      RemovedNone(xs, lo);
    }
  }

  /** remove_range: the first range that starts at `lo` leaves the list and its record
      is freed. */
  method RemoveRange(ranges: RangeList, bin: Released<Extent>, lo: int)
    requires ranges.Valid()
    modifies ranges, ranges.nodes, bin
    ensures ranges.Valid() && ranges.Contents() == Removed(old(ranges.Contents()), lo)
    ensures forall n | n in ranges.nodes :: n in old(ranges.nodes)
    ensures var i := PlaceOf(old(ranges.Contents()), lo);
            if i < old(|ranges.nodes|) then
              bin.nodes == old(bin.nodes) + [old(ranges.nodes)[i]] && old(ranges.nodes)[i] !in ranges.nodes
            else bin.nodes == old(bin.nodes)
  {
    hide Removed, PlaceOf;
    ghost var xs := ranges.Contents();
    var prev: Node?<Extent> := null;
    var p := ranges.head;
    ghost var i := 0;
    while p != null
      invariant 0 <= i <= |ranges.nodes| && p == ranges.NodeAt(i)
      invariant prev == if i == 0 then null else ranges.nodes[i - 1]
      invariant forall k | 0 <= k < i :: xs[k].lo != lo
      invariant ranges.Valid() && ranges.Contents() == xs && ranges.nodes == old(ranges.nodes)
      invariant bin.nodes == old(bin.nodes)
      decreases |ranges.nodes| - i
    {
      assert xs[i] == p.value;
      if p.value.lo == lo {
        PlaceIs(xs, lo, i);
        ranges.Unlink(prev, p, i);
        bin.Free(p);
        return;
      }
      prev := p;
      assert ranges.Hop(i);
      p := p.next;
      i := i + 1;
    }
    PlaceIs(xs, lo, i);
  }

  /** clear_ranges: the list is empty and each of its records was freed, once. */
  method ClearRanges(ranges: RangeList, bin: Released<Extent>)
    requires ranges.Valid()
    modifies ranges, bin
    ensures ranges.Valid() && ranges.Contents() == [] && ranges.nodes == []
    ensures bin.nodes == old(bin.nodes) + old(ranges.nodes)
  {
    var p := ranges.head;
    ghost var i := 0;
    while p != null
      invariant 0 <= i <= |ranges.nodes| && p == ranges.NodeAt(i)
      invariant ranges.Valid() && ranges.nodes == old(ranges.nodes)
      invariant bin.nodes == old(bin.nodes) + ranges.nodes[..i]
      decreases |ranges.nodes| - i
    {
      assert ranges.Hop(i);
      var pnext := p.next;
      bin.Free(p);
      p := pnext;
      i := i + 1;
    }
    ranges.head := null;
    ranges.nodes := [];
  }
}
