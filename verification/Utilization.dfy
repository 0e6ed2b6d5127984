/** The space accounting of eval_mm_util (mps/05/mdriver.c): the high-water mark of
    the live request sizes against the heap size. */
module Utilization {
  import opened Wrappers
  import opened Memlib
  import opened FreeLists
  import opened MmLayout
  import opened MmSteps
  import opened MmSpec
  import opened Mm
  import opened Traces
  import opened Driver

  // ---------------------------------------------- the sum of what is live

  lemma Pick<T>(a: set<T>) returns (x: T)
    requires a != {}
    ensures x in a
  {
    x :| x in a;
  }

  lemma NonEmpty(a: set<int>)
    requires a != {}
    ensures exists x :: x in a
  {
    var x := Pick(a);
  }

  ghost function MapSum(m: map<int, int>): int
    decreases |m|
  {
    if m.Keys == {} then 0 else
    NonEmpty(m.Keys);
    var k :| k in m.Keys;
    assert (m - {k}).Keys == m.Keys - {k};
    assert |m - {k}| == |(m - {k}).Keys| < |m.Keys|;
    m[k] + MapSum(m - {k})
  }

  lemma Fewer(m: map<int, int>, k: int)
    requires k in m
    ensures |m - {k}| < |m|
  {
    assert (m - {k}).Keys == m.Keys - {k};
    assert |m - {k}| == |(m - {k}).Keys| && |m| == |m.Keys|;
  }

  /** The sum does not depend on which key is taken first. */
  lemma {:induction false} MapSumTake(m: map<int, int>, k: int)
    requires k in m
    ensures MapSum(m) == m[k] + MapSum(m - {k})
    decreases |m|
  {
    NonEmpty(m.Keys);
    var c :| c in m.Keys && MapSum(m) == m[c] + MapSum(m - {c});
    if c != k {
      Fewer(m, c);
      Fewer(m, k);
      MapSumTake(m - {c}, k);
      MapSumTake(m - {k}, c);
      assert m - {c} - {k} == m - {k} - {c};
    }
  }

  /** The bytes requested by the live ids of a trace. */
  ghost function LiveBytes(ops: seq<Op>): int {
    MapSum(LiveSizes(ops))
  }

  /** The most that was ever live. */
  ghost function Peak(ops: seq<Op>): int {
    if ops == [] then 0
    else if LiveBytes(ops) > Peak(ops[..|ops| - 1]) then LiveBytes(ops) else Peak(ops[..|ops| - 1])
  }

  lemma {:induction false} PeakIsHighest(ops: seq<Op>, i: nat)
    requires i <= |ops|
    ensures LiveBytes(ops[..i]) <= Peak(ops)
    ensures Peak(ops) == 0 || exists j :: 0 <= j <= |ops| && Peak(ops) == LiveBytes(ops[..j])
    decreases |ops|
  {
    if ops == [] {
      assert ops[..i] == ops;
    } else {
      var init := ops[..|ops| - 1];
      PeakIsHighest(init, if i < |ops| then i else 0);
      assert ops[..|ops|] == ops;
      if i < |ops| {
        assert ops[..i] == init[..i];
      }
      if Peak(ops) != 0 && Peak(ops) == Peak(init) {
        var j :| 0 <= j <= |init| && Peak(init) == LiveBytes(init[..j]);
        assert ops[..j] == init[..j];
      }
    }
  }

  // --------------------------------------------------- live bytes fit the heap

  function SumSizes(sizes: seq<int>, order: seq<int>): int {
    if order == [] then 0
    else (if 0 <= order[0] < |sizes| then sizes[order[0]] else 0) + SumSizes(sizes, order[1..])
  }

  ghost function Interval(lo: int, n: int): (s: set<int>)
    ensures forall c :: c in s <==> lo <= c < lo + n
    ensures |s| == if n < 0 then 0 else n
  {
    if n <= 0 then {} else Interval(lo, n - 1) + {lo + n - 1}
  }

  ghost function Covered(ptrs: seq<int>, sizes: seq<int>, order: seq<int>): set<int>
    requires |ptrs| == |sizes|
  {
    if order == [] then {}
    else
      var i := order[0];
      (if 0 <= i < |sizes| then Interval(ptrs[i], sizes[i]) else {}) + Covered(ptrs, sizes, order[1..])
  }

  lemma {:induction false} CoveredMember(ptrs: seq<int>, sizes: seq<int>, order: seq<int>, c: int)
    requires |ptrs| == |sizes| && c in Covered(ptrs, sizes, order)
    ensures exists k :: 0 <= k < |order| && 0 <= order[k] < |sizes| && c in Interval(ptrs[order[k]], sizes[order[k]])
  {
    if 0 <= order[0] < |sizes| && c in Interval(ptrs[order[0]], sizes[order[0]]) {
    } else {
      CoveredMember(ptrs, sizes, order[1..], c);
      var k :| 0 <= k < |order[1..]| && 0 <= order[1..][k] < |sizes| &&
          c in Interval(ptrs[order[1..][k]], sizes[order[1..][k]]);
      assert order[k + 1] == order[1..][k];
    }
  }

  lemma OwnedTail(B: Blocks, ptrs: seq<int>, sizes: seq<int>, order: seq<int>)
    requires Owned(B, ptrs, sizes, order) && order != []
    ensures Owned(B, ptrs, sizes, order[1..])
  {
    forall k | 0 <= k < |order[1..]|
      ensures order[1..][k] == order[k + 1] && OwnsBlock(B, ptrs, sizes, order[1..][k])
    {
      assert OwnsBlock(B, ptrs, sizes, order[k + 1]);
    }
  }

  lemma PayloadApart(B: Blocks, epi: int, ptrs: seq<int>, sizes: seq<int>, order: seq<int>, c: int, k: nat)
    requires Tiled(B, epi) && Owned(B, ptrs, sizes, order) && 0 < k < |order|
    requires 0 <= order[0] < |sizes| && c in Interval(ptrs[order[0]], sizes[order[0]]) && 0 <= order[k] < |sizes|
    ensures c !in Interval(ptrs[order[k]], sizes[order[k]])
  {
    OwnedAt(B, ptrs, sizes, order, 0);
    OwnedAt(B, ptrs, sizes, order, k);
    var a, b := ptrs[order[0]] - HDR, ptrs[order[k]] - HDR;
    assert a in B && b in B && a != b;
  }

  /** Disjoint payloads inside the heap: their sizes add up to no more than it. */
  lemma {:induction false} SumFits(B: Blocks, epi: int, ptrs: seq<int>, sizes: seq<int>, order: seq<int>)
    requires Tiled(B, epi) && Owned(B, ptrs, sizes, order)
    ensures |Covered(ptrs, sizes, order)| == SumSizes(sizes, order) <= epi - FIRST
    ensures Covered(ptrs, sizes, order) <= Interval(FIRST, epi - FIRST)
    decreases |order|
  {
    hide Tiled, Owned, Interval;
    if order == [] {
      TiledEnds(B, epi);
    } else {
      OwnedTail(B, ptrs, sizes, order);
      SumFits(B, epi, ptrs, sizes, order[1..]);
      OwnedAt(B, ptrs, sizes, order, 0);
      var i := order[0];
      var first, rest := Interval(ptrs[i], sizes[i]), Covered(ptrs, sizes, order[1..]);
      FirstApart(B, epi, ptrs, sizes, order);
      InsideHeap(B, epi, ptrs[i], sizes[i]);
      assert |first + rest| == |first| + |rest|;
      assert Covered(ptrs, sizes, order) == first + rest;
      TiledEnds(B, epi);
      SubsetSize(first + rest, Interval(FIRST, epi - FIRST));
    }
  }

  lemma TiledEnds(B: Blocks, epi: int)
    requires Tiled(B, epi)
    ensures FIRST <= epi
  {
  }

  lemma InsideHeap(B: Blocks, epi: int, p: int, n: int)
    requires Tiled(B, epi) && p - HDR in B && n + HDR + FTR <= B[p - HDR].size
    ensures Interval(p, n) <= Interval(FIRST, epi - FIRST)
  {
  }

  lemma FirstApart(B: Blocks, epi: int, ptrs: seq<int>, sizes: seq<int>, order: seq<int>)
    requires Tiled(B, epi) && Owned(B, ptrs, sizes, order) && order != [] && 0 <= order[0] < |sizes|
    ensures Interval(ptrs[order[0]], sizes[order[0]]) !! Covered(ptrs, sizes, order[1..])
  {
    hide Tiled, Interval, Covered;
    forall c | c in Interval(ptrs[order[0]], sizes[order[0]]) && c in Covered(ptrs, sizes, order[1..])
      ensures false
    {
      CoveredMember(ptrs, sizes, order[1..], c);
      var k :| 0 <= k < |order[1..]| && 0 <= order[1..][k] < |sizes| &&
          c in Interval(ptrs[order[1..][k]], sizes[order[1..][k]]);
      PayloadApart(B, epi, ptrs, sizes, order, c, k + 1);
    }
  }

  // ------------------------------------------------- the accounting, linked

  /** `order` lists the live ids once each, and `sizes` has their sizes. */
  ghost predicate Sized(live: map<int, int>, sizes: seq<int>, order: seq<int>) {
    && (forall i :: i in order <==> i in live)
    && (forall k, j | 0 <= k < j < |order| :: order[k] != order[j])
    && (forall i | i in live :: 0 <= i < |sizes| && live[i] == sizes[i])
  }

  lemma {:induction false} SumIsMapSum(live: map<int, int>, sizes: seq<int>, order: seq<int>)
    requires Sized(live, sizes, order)
    ensures SumSizes(sizes, order) == MapSum(live)
    decreases |order|
  {
    if order == [] {
      if live.Keys != {} {
        var x := Pick(live.Keys);
        assert false;
      }
    } else {
      var i, rest := order[0], order[1..];
      assert i in order;
      forall x
        ensures x in rest <==> x in live - {i}
      {
        if x in live && x != i {
          assert x in order;
        }
        if x in rest {
          var k :| 0 <= k < |rest| && rest[k] == x;
          assert order[k + 1] == x;
        }
      }
      SumIsMapSum(live - {i}, sizes, rest);
      MapSumTake(live, i);
    }
  }

  /** Changing the entry of one id changes the sum by the difference. */
  lemma MapSumPut(live: map<int, int>, i: int, n: int)
    ensures MapSum(live[i := n]) == MapSum(live) + n - (if i in live then live[i] else 0)
  {
    var m := live[i := n];
    MapSumTake(m, i);
    if i in live {
      MapSumTake(live, i);
      assert m - {i} == live - {i};
    } else {
      assert m - {i} == live;
    }
  }

  // ---------------------------------------------------------------- the run

  /** The result of eval_mm_util, where the replay tells. */
  datatype Util = Ratio(r: real) | Unknown

  class UtilHarness {
    const mem: Memory
    const mm: Allocator
    const blocks: array<int>
    const blockSizes: array<int>
    ghost var order: seq<int>

    ghost predicate Wired()
      reads this
    {
      Separate(mem, mm, blocks, blockSizes)
    }

    ghost predicate Ready(live: map<int, int>, demand: int)
      reads this, mm, mem, mem.cells, blocks, blockSizes
    {
      && Wired() && mm.Valid()
      && OwnedOk(mm.blocks, blocks[..], blockSizes[..], order)
      && SizedOk(live, blockSizes[..], order)
      && mem.brk <= FIRST + HDR + demand
    }

    /** The heap and the pointers are those of an abstract replay. */
    ghost predicate Follows(r: Replay, live: set<int>)
      reads this, mm, mem, blocks
    {
      Wired() && InStep(r, live, mm, blocks)
    }

    constructor (memory: Memory, allocator: Allocator, numIds: nat)
      requires allocator.mem == memory
      ensures Wired() && mem == memory && mm == allocator && blocks.Length == numIds
    {
      mem, mm := memory, allocator;
      blocks := new int[numIds];
      blockSizes := new int[numIds];
    }

    /** case ALLOC of eval_mm_util; the result is false when the C run crashes. */
    method UtilAlloc(index: int, size: int, ghost live: map<int, int>, ghost demand: int) returns (ok: bool)
      requires Ready(live, demand) && OpOk(Alloc(index, size), live.Keys, blocks.Length)
      modifies this`order, mm, mem`brk, mem.cells, blocks, blockSizes
      ensures ok ==> Ready(live[index := size], demand + Cost(Alloc(index, size))) && mem.brk >= old(mem.brk)
      ensures !ok ==> FIRST + HDR + demand + Cost(Alloc(index, size)) > MAX_HEAP
      ensures var (view, r) := MallocView(old(mm.State()), size);
              && mm.State() == view && (ok <==> r.Ptr?)
              && (r.Ptr? ==> blocks[..] == old(blocks[..])[index := r.addr])
    {
      hide HeapOk, SamePayloads, Adds, Owned, Sized, MallocView, OwnsBlock;
      ghost var B0, ptrs, sizes := mm.blocks, blocks[..], blockSizes[..];
      MallocAdds(mem.cells[..], mm.State(), size);
      var p := mm.Malloc(size);
      if p == Fault {
        return false;
      }
      NotLive(live, sizes, order, index);
      AddOwned(B0, mm.blocks, ptrs, sizes, order, index, p.addr, size);
      AddSized(live, sizes, order, index, size);
      blocks[index] := p.addr;
      blockSizes[index] := size;
      order := [index] + order;
      return true;
    }

    /** case REALLOC of eval_mm_util: neither range nor data is checked, so a block that
        could not be extended is recorded with its new size. */
    method UtilRealloc(index: int, size: int, ghost live: map<int, int>, ghost demand: int) returns (v: Verdict)
      requires Ready(live, demand) && OpOk(Realloc(index, size), live.Keys, blocks.Length)
      modifies this`order, mm, mem`brk, mem.cells, blocks, blockSizes
      ensures v == Accepted ==>
                Ready(live[index := size], demand + Cost(Realloc(index, size))) && mem.brk >= old(mem.brk)
      ensures v == Damaged ==>
                mem.brk == old(mem.brk) && blocks[..] == old(blocks[..]) &&
                blockSizes[..] == old(blockSizes[..])[index := size]
      ensures var (view, r) := ReallocView(old(mm.State()), Some(old(blocks[index])), size);
              && mm.State() == view
              && v == ReallocVerdict(r, index, size, old(SizeAt(mm.blocks, blocks[index] - HDR)), false)
              && (v == Accepted ==> blocks[..] == old(blocks[..])[index := r.addr])
    {
      hide HeapOk, SamePayloads, Adds, Owned, Sized, ReallocView, Unmarked, Copied, RequestSize;
      ghost var B0, ptrs, sizes := mm.blocks, blocks[..], blockSizes[..];
      ghost var k := LivePlace(live, sizes, order, index);
      OwnedAt(B0, ptrs, sizes, order, k);
      var oldp := blocks[index];
      ghost var a := oldp - HDR;
      ReallocAdds(mem.cells[..], mm.State(), a, size);
      var newp := mm.Realloc(Some(oldp), size);
      if newp == Fault {
        return Crashed;
      }
      if newp == Astray {
        return Escaped;
      }
      if newp.Overrun? {
        return Smashed;
      }
      blocks[index] := newp.addr;
      blockSizes[index] := size;
      if newp.Ungrown? {
        return Damaged;
      }
      DropOwned(B0, ptrs, sizes, order, k);
      DropSized(live, sizes, order, k);
      AddOwned(Unmarked(B0, a), mm.blocks, ptrs, sizes, Without(order, k), index, newp.addr, size);
      AddSized(live - {index}, sizes, Without(order, k), index, size);
      assert (live - {index})[index := size] == live[index := size];
      order := [index] + Without(order, k);
      return Accepted;
    }

    /** case FREE of eval_mm_util */
    method UtilFree(index: int, ghost live: map<int, int>, ghost demand: int)
      requires Ready(live, demand) && OpOk(Op.Free(index), live.Keys, blocks.Length)
      modifies this`order, mm, mem.cells
      ensures Ready(live - {index}, demand) && mem.brk == old(mem.brk)
      ensures mm.State() == FreeView(old(mm.State()), blocks[index] - HDR)
    {
      hide HeapOk, SamePayloads, Owned, Sized, Freed, FreedLists, Unmarked, StillUsed;
      ghost var B0, ptrs, sizes := mm.blocks, blocks[..], blockSizes[..];
      ghost var k := LivePlace(live, sizes, order, index);
      OwnedAt(B0, ptrs, sizes, order, k);
      var p := blocks[index];
      mm.Free(Some(p));
      DropOwned(B0, ptrs, sizes, order, k);
      DropSized(live, sizes, order, k);
      FreeKeepsUsed(B0, p - HDR);
      OwnedMore(Unmarked(B0, p - HDR), mm.blocks, ptrs, sizes, Without(order, k));
      order := Without(order, k);
    }

    /** What is live fits below the break. */
    lemma LiveFits(live: map<int, int>, demand: int)
      requires Ready(live, demand)
      ensures MapSum(live) <= mem.brk
    {
      hide Tagged, Indexed, Rings, Separated, Owned, Sized;
      SumFits(mm.blocks, mem.brk - HDR, blocks[..], blockSizes[..], order);
      SumIsMapSum(live, blockSizes[..], order);
    }

    /** The accounts and the abstract replay after the first `i` requests. */
    ghost predicate ReadyAt(ops: seq<Op>, i: nat)
      reads this, mm, mem, mem.cells, blocks, blockSizes
    {
      && i <= |ops| && Ready(LiveSizes(ops[..i]), Demand(ops[..i])) && mem.brk >= FIRST + HDR
      && Follows(Replayed(ops[..i], false), Live(ops[..i]))
    }

    /** The switch of eval_mm_util.  The accounts are those of the requests even when the
        last one has damaged the heap. */
    method UtilNext(ops: seq<Op>, i: nat, total0: int, max0: int) returns (v: Verdict, total: int, max: int)
      requires i < |ops| && WellFormed(ops, blocks.Length) && ReadyAt(ops, i)
      requires total0 == LiveBytes(ops[..i]) && max0 == Peak(ops[..i])
      modifies this`order, mm, mem`brk, mem.cells, blocks, blockSizes
      ensures Replayed(ops[..i], false).verdict == Accepted && v == Replayed(ops[..i + 1], false).verdict
      ensures mm.State() == Replayed(ops[..i + 1], false).view
      ensures v == Accepted ==> ReadyAt(ops, i + 1)
      ensures v == Accepted || v == Damaged ==>
                mem.brk >= old(mem.brk) >= FIRST + HDR && total == LiveBytes(ops[..i + 1]) && max == Peak(ops[..i + 1])
      ensures v != Accepted ==> FIRST + HDR + Demand(ops) > MAX_HEAP || ops[i].Realloc?
    {
      hide Ready, HeapOk, RequestSize, MapSum, LiveSizes, Live, Demand, Peak, WellFormed, MallocView, ReallocView,
           FreeView, SamePtrs, Replayed, ReplayStep;
      var op := ops[i];
      ghost var live, demand := LiveSizes(ops[..i]), Demand(ops[..i]);
      OpIsOk(ops, i, blocks.Length);
      LiveKeys(ops[..i]);
      StepOf(ops, i);
      PeakAtLeast(ops[..i]);
      DemandGrows(ops, i + 1, blocks.Length);
      ReplayStepIs(Replayed(ops[..i], false), op, live.Keys, blocks[..], false);
      v, total, max := Accepted, total0, max0;
      match op {
        case Alloc(index, size) =>
          var ok := UtilAlloc(index, size, live, demand);
          if !ok {
            return Crashed, total, max;
          }
          MapSumPut(live, index, size);
          total := total + size;
          max := if total > max then total else max;
        case Realloc(index, newSize) =>
          SizeOfLive(live, demand, index);
          var oldSize := blockSizes[index];
          v := UtilRealloc(index, newSize, live, demand);
          MapSumPut(live, index, newSize);
          total := total + (newSize - oldSize);
          max := if total > max then total else max;
        case Free(index) =>
          SizeOfLive(live, demand, index);
          var size := blockSizes[index];
          UtilFree(index, live, demand);
          MapSumTake(live, index);
          total := total - size;
      }
    }

    /** eval_mm_util: the peak of the live bytes over the final heap size.  The ratio is
        known when the abstract replay of the trace, without checks, serves every
        request, and then is never more than 1, and when its last request damages the
        heap.  Otherwise the C run crashes, or goes on in a way that is not followed. */
    method EvalMmUtil(ops: seq<Op>) returns (u: Util)
      requires Wired() && mem.Valid() && WellFormed(ops, blocks.Length)
      modifies this`order, mm, mem`brk, mem.cells, blocks, blockSizes
      ensures u.Ratio? <==> Finished(ops, false)
      ensures u.Ratio? ==> mem.HeapSize() == Replayed(ops, false).view.brk > 0
      ensures u.Ratio? ==> u.r == Peak(ops) as real / mem.HeapSize() as real
      ensures Replayed(ops, false).verdict == Accepted ==> 0.0 <= u.r <= 1.0
      ensures u.Unknown? ==> FIRST + HDR + Demand(ops) > MAX_HEAP || exists op :: op in ops && op.Realloc?
    {
      hide Ready, Follows, ReadyAt, HeapOk, MapSum, LiveSizes, Live, Demand, Peak, WellFormed, Replayed;
      mem.ResetBrk();
      var init := mm.Init();
      order := [];
      ReadyAtStart(ops);
      var totalSize, maxTotalSize := 0, 0;
      var i := 0;
      while i < |ops|
        invariant 0 <= i <= |ops| && ReadyAt(ops, i)
        invariant totalSize == LiveBytes(ops[..i]) && 0 <= maxTotalSize == Peak(ops[..i]) <= mem.brk
      {
        var v;
        v, totalSize, maxTotalSize := UtilNext(ops, i, totalSize, maxTotalSize);
        if v != Accepted {
          FailedAt(ops, i, false);
          if v == Damaged && i + 1 == |ops| {
            assert ops[..i + 1] == ops;
            return Ratio(maxTotalSize as real / mem.HeapSize() as real);
          }
          return Unknown;
        }
        i := i + 1;
        PeakFits(ops, i);
      }
      ReadyAtEnd(ops);
      RatioInRange(maxTotalSize, mem.HeapSize());
      return Ratio(maxTotalSize as real / mem.HeapSize() as real);
    }

    lemma ReadyAtStart(ops: seq<Op>)
      requires Wired() && mm.Valid() && mm.State() == NEW_HEAP && order == []
      ensures ReadyAt(ops, 0) && LiveBytes(ops[..0]) == 0 && Peak(ops[..0]) == 0
    {
      hide HeapOk, Demand, Live, LiveSizes, Replayed, SamePtrs, MapSum, Peak;
      assert ops[..0] == [];
      NothingLive(blocks[..], blockSizes[..]);
      NothingYet();
      NoRequests();
      NoPtrs(blocks[..], false);
    }

    lemma ReadyAtEnd(ops: seq<Op>)
      requires ReadyAt(ops, |ops|)
      ensures Replayed(ops, false).verdict == Accepted && mm.State() == Replayed(ops, false).view
      ensures ops[..|ops|] == ops && mem.brk > 0
    {
      hide Ready, Live, Demand, Replayed, LiveSizes;
      assert ops[..|ops|] == ops;
    }

    lemma PeakFits(ops: seq<Op>, i: nat)
      requires ReadyAt(ops, i) && 0 < i && Peak(ops[..i - 1]) <= mem.brk
      ensures 0 <= Peak(ops[..i]) <= mem.brk
    {
      hide Ready, Follows, Peak, LiveSizes, Demand, MapSum, Live;
      LiveFits(LiveSizes(ops[..i]), Demand(ops[..i]));
      StepOf(ops, i - 1);
      PeakAtLeast(ops[..i]);
    }

    lemma SizeOfLive(live: map<int, int>, demand: int, index: int)
      requires Ready(live, demand) && index in live
      ensures 0 <= index < blockSizes.Length && blockSizes[index] == live[index] >= 1
    {
      hide HeapOk;
      var k := LivePlace(live, blockSizes[..], order, index);
      OwnedAt(mm.blocks, blocks[..], blockSizes[..], order, k);
    }
  }

  /** Then the ratio can exceed 1: on this trace it is more than a hundred thousand. */
  lemma RatioExample()
    ensures var ops := [Alloc(0, 8), Realloc(0, MAX_HEAP - 136)];
            Finished(ops, false) && Peak(ops) > 100000 * Replayed(ops, false).view.brk
  {
    hide Replayed, Finished, MapSum, LiveSizes;
    UngrownFails();
    var ops := [Alloc(0, 8), Realloc(0, MAX_HEAP - 136)];
    assert ops[..0] == [] && ops[..2] == ops;
    StepOf(ops, 0);
    StepOf(ops, 1);
    NothingYet();
    assert map[0 := 8][0 := MAX_HEAP - 136] == map[0 := MAX_HEAP - 136];
    MapSumPut(map[], 0, MAX_HEAP - 136);
    PeakAtLeast(ops);
  }

  ghost predicate OwnedOk(B: Blocks, ptrs: seq<int>, sizes: seq<int>, order: seq<int>) {
    Owned(B, ptrs, sizes, order) == true
  }

  ghost predicate SizedOk(live: map<int, int>, sizes: seq<int>, order: seq<int>) {
    Sized(live, sizes, order) == true
  }

  lemma NothingLive(ptrs: seq<int>, sizes: seq<int>)
    requires |ptrs| == |sizes|
    ensures OwnedOk(map[], ptrs, sizes, []) && SizedOk(map[], sizes, []) && MapSum(map[]) == 0
  {
  }

  lemma NothingYet()
    ensures LiveSizes([]) == map[] && Demand([]) == 0 && Peak([]) == 0 && MapSum(map[]) == 0
  {
  }

  lemma NotLive(live: map<int, int>, sizes: seq<int>, order: seq<int>, i: int)
    requires SizedOk(live, sizes, order) && i !in live
    ensures i !in order
  {
  }

  lemma LivePlace(live: map<int, int>, sizes: seq<int>, order: seq<int>, i: int) returns (k: nat)
    requires SizedOk(live, sizes, order) && i in live
    ensures k < |order| && order[k] == i
  {
    assert i in order;
    k :| 0 <= k < |order| && order[k] == i;
  }

  lemma AddSized(live: map<int, int>, sizes: seq<int>, order: seq<int>, i: int, n: int)
    requires SizedOk(live, sizes, order) && i !in live && 0 <= i < |sizes|
    ensures SizedOk(live[i := n], sizes[i := n], [i] + order)
  {
    assert i !in order;
    assert forall x :: x in [i] + order <==> x == i || x in order;
    var o := [i] + order;
    forall k, j | 0 <= k < j < |o|
      ensures o[k] != o[j]
    {
      assert o[j] == order[j - 1];
      if k > 0 { assert o[k] == order[k - 1]; }
    }
  }

  lemma DropSized(live: map<int, int>, sizes: seq<int>, order: seq<int>, k: nat)
    requires SizedOk(live, sizes, order) && k < |order|
    ensures SizedOk(live - {order[k]}, sizes, Without(order, k))
  {
    WithoutAt(order, k);
    WithoutMembers(order, k);
  }

  lemma OpIsOk(ops: seq<Op>, i: nat, numIds: int)
    requires i < |ops| && WellFormed(ops, numIds)
    ensures OpOk(ops[i], LiveSizes(ops[..i]).Keys, numIds)
  {
    LiveKeys(ops[..i]);
    assert OpOk(ops[i], Live(ops[..i]), numIds);
  }

  /** One more request, in terms of the requests before it. */
  lemma StepOf(ops: seq<Op>, i: nat)
    requires i < |ops|
    ensures LiveSizes(ops[..i + 1]) == SizesStep(LiveSizes(ops[..i]), ops[i])
    ensures Live(ops[..i + 1]) == LiveStep(Live(ops[..i]), ops[i])
    ensures Replayed(ops[..i + 1], false) == ReplayStep(Replayed(ops[..i], false), ops[i], false)
    ensures Demand(ops[..i + 1]) == Demand(ops[..i]) + Cost(ops[i])
    ensures Peak(ops[..i + 1]) ==
              if MapSum(LiveSizes(ops[..i + 1])) > Peak(ops[..i]) then MapSum(LiveSizes(ops[..i + 1]))
              else Peak(ops[..i])
  {
    assert ops[..i + 1][..i] == ops[..i];
  }

  lemma PeakAtLeast(ops: seq<Op>)
    ensures Peak(ops) >= 0 && Peak(ops) >= LiveBytes(ops)
  {
  }

  lemma RatioInRange(a: int, b: int)
    requires 0 <= a <= b && b > 0
    ensures 0.0 <= a as real / b as real <= 1.0
  {
  }
}
