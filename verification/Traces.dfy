/** Allocation traces, as mps/05/mdriver.c replays them, and what is live in them. */
module Traces {
  import opened Wrappers
  import opened Memlib
  import opened FreeLists
  import opened MmLayout
  import opened MmSpec

  datatype Op = Alloc(index: int, size: int) | Realloc(index: int, size: int) | Free(index: int)

  function LiveStep(live: set<int>, op: Op): set<int> {
    match op
    case Alloc(i, _) => live + {i}
    case Realloc(_, _) => live
    case Free(i) => live - {i}
  }

  /** The ids that hold a block after the trace. */
  function Live(ops: seq<Op>): set<int> {
    if ops == [] then {} else LiveStep(Live(ops[..|ops| - 1]), ops[|ops| - 1])
  }

  predicate OpOk(op: Op, live: set<int>, numIds: int) {
    && 0 <= op.index < numIds
    && match op
       case Alloc(i, size) => i !in live && 1 <= size <= MAX_REQUEST
       case Realloc(i, size) => i in live && 1 <= size <= MAX_REQUEST
       case Free(i) => i in live
  }

  /** Ids are allocated before they are used and not twice; sizes are positive. */
  predicate WellFormed(ops: seq<Op>, numIds: int) {
    forall i | 0 <= i < |ops| :: OpOk(ops[i], Live(ops[..i]), numIds)
  }

  /** The most by which a request can extend the heap. */
  function Cost(op: Op): int {
    if op.Free? then 0 else RequestSize(op.size) + HDR
  }

  function Demand(ops: seq<Op>): int {
    if ops == [] then 0 else Demand(ops[..|ops| - 1]) + Cost(ops[|ops| - 1])
  }

  lemma {:induction false} DemandGrows(ops: seq<Op>, i: nat, numIds: int)
    requires i <= |ops| && WellFormed(ops, numIds)
    ensures Demand(ops[..i]) <= Demand(ops)
    decreases |ops| - i
  {
    if i < |ops| {
      assert ops[..i + 1][..i] == ops[..i];
      var op := ops[i];
      assert OpOk(op, Live(ops[..i]), numIds);
      if !op.Free? { RequestRange(op.size); }
      DemandGrows(ops, i + 1, numIds);
    } else {
      assert ops[..i] == ops;
    }
  }

  /** What `(char) c != (index & 0xFF)` compares: char is signed. */
  function SignedChar(b: int): int {
    if b < 128 then b else b - 256
  }

  /** The reallocs whose data check fails although the data is intact. */
  predicate FalseAlarm(op: Op) {
    op.Realloc? && op.index % 256 >= 128
  }

  // ------------------------------------------------- what a replay amounts to

  /** How a replay ends.  `Accepted` and `Rejected` are the driver's 1 and 0.  After
      `Crashed`, a store through `(void *)-1`, `Escaped`, a store past the memory area,
      and `Smashed`, a copy past the end of a payload, the C run is not followed.
      `Damaged` is a realloc that passed although its block had not grown: the C run goes
      on, with a broken heap. */
  datatype Verdict = Accepted | Rejected | Crashed | Escaped | Smashed | Damaged

  /** The heap, the payload of each live id, and the verdict so far. */
  datatype Replay = Replay(view: View, ptrs: map<int, int>, verdict: Verdict)

  /** The verdict on the outcome `o` of a realloc for id `i`, whose block had `cur`
      bytes; `check` says whether range and data are checked after a realloc, as
      eval_mm_valid does and eval_mm_util does not. */
  function ReallocVerdict(o: Outcome, i: int, size: int, cur: int, check: bool): Verdict {
    if o.Ptr? then (if check && i % 256 >= 128 then Rejected else Accepted)
    else if o.Ungrown? then (if check && (size > cur || i % 256 >= 128) then Rejected else Damaged)
    else if o.Overrun? then Smashed
    else if o == Astray then Escaped
    else Crashed
  }

  /** One request. */
  ghost function ReplayStep(r: Replay, op: Op, check: bool): Replay {
    if r.verdict != Accepted then r else
    match op
    case Alloc(i, size) =>
      (match MallocView(r.view, size)
       case (v, Ptr(p)) => Replay(v, r.ptrs[i := p], Accepted)
       case (v, _) => Replay(v, r.ptrs, Crashed))
    case Realloc(i, size) =>
      if i !in r.ptrs then r else
      var (v, o) := ReallocView(r.view, Some(r.ptrs[i]), size);
      var verdict := ReallocVerdict(o, i, size, SizeAt(r.view.blocks, r.ptrs[i] - HDR), check);
      Replay(v, if verdict == Accepted then r.ptrs[i := o.addr] else r.ptrs, verdict)
    case Free(i) =>
      if i !in r.ptrs then r else Replay(FreeView(r.view, r.ptrs[i] - HDR), r.ptrs - {i}, Accepted)
  }

  const NEW_HEAP := View(FIRST + HDR, map[], [[], [], [], []])

  /** A trace replayed on the abstract allocator, which knows no memory contents and
      no range list. */
  ghost function Replayed(ops: seq<Op>, check: bool): Replay {
    if ops == [] then Replay(NEW_HEAP, map[], Accepted)
    else ReplayStep(Replayed(ops[..|ops| - 1], check), ops[|ops| - 1], check)
  }

  lemma {:induction false} ReplayStops(ops: seq<Op>, i: nat, check: bool)
    requires i <= |ops| && Replayed(ops[..i], check).verdict != Accepted
    ensures Replayed(ops, check) == Replayed(ops[..i], check)
    decreases |ops| - i
  {
    if i < |ops| {
      assert ops[..i + 1][..i] == ops[..i];
      ReplayStops(ops, i + 1, check);
    } else {
      assert ops[..i] == ops;
    }
  }

  /** The driver comes to the end of the trace and its answer is known: either every
      request is served on a valid heap, or the last one damages it. */
  ghost predicate Finished(ops: seq<Op>, check: bool) {
    || Replayed(ops, check).verdict == Accepted
    || (Replayed(ops, check).verdict == Damaged && ops != [] && Replayed(ops[..|ops| - 1], check).verdict == Accepted)
  }

  /** What eval_mm_valid returns, where the replay tells. */
  ghost function Answer(ops: seq<Op>): Option<int> {
    if Finished(ops, true) then Some(1)
    else if Replayed(ops, true).verdict == Rejected then Some(0)
    else None
  }

  /** The replay failed at request `i`: the driver has finished only if that is the last
      one and damages the heap. */
  lemma FailedAt(ops: seq<Op>, i: nat, check: bool)
    requires i < |ops| && Replayed(ops[..i], check).verdict == Accepted
    requires Replayed(ops[..i + 1], check).verdict != Accepted
    ensures Replayed(ops, check) == Replayed(ops[..i + 1], check)
    ensures Finished(ops, check) <==> i + 1 == |ops| && Replayed(ops, check).verdict == Damaged
  {
    ReplayStops(ops, i + 1, check);
    if i + 1 < |ops| {
      var init := ops[..|ops| - 1];
      assert init[..i + 1] == ops[..i + 1];
      ReplayStops(init, i + 1, check);
    }
  }

  ghost predicate SamePtrs(ptrs: seq<int>, m: map<int, int>) {
    forall i | i in m :: 0 <= i < |ptrs| && ptrs[i] == m[i]
  }

  lemma NoPtrs(ptrs: seq<int>, check: bool)
    ensures Replayed([], check) == Replay(NEW_HEAP, map[], Accepted)
    ensures SamePtrs(ptrs, map[])
  {
  }

  /** One step of the abstract replay, in terms of the driver's pointers. */
  lemma ReplayStepIs(r: Replay, op: Op, live: set<int>, ptrs: seq<int>, check: bool)
    requires r.verdict == Accepted && r.ptrs.Keys == live && SamePtrs(ptrs, r.ptrs)
    requires OpOk(op, live, |ptrs|)
    ensures var r' := ReplayStep(r, op, check);
            match op
            case Alloc(i, size) =>
              var (v, o) := MallocView(r.view, size);
              r'.view == v &&
              (if o.Ptr? then r' == Replay(v, r.ptrs[i := o.addr], Accepted) && SamePtrs(ptrs[i := o.addr], r'.ptrs)
               else r'.verdict == Crashed)
            case Realloc(i, size) =>
              var (v, o) := ReallocView(r.view, Some(ptrs[i]), size);
              && r'.view == v
              && r'.verdict == ReallocVerdict(o, i, size, SizeAt(r.view.blocks, ptrs[i] - HDR), check)
              && (r'.verdict == Accepted ==>
                    o.Ptr? && r' == Replay(v, r.ptrs[i := o.addr], Accepted) && SamePtrs(ptrs[i := o.addr], r'.ptrs))
            case Free(i) =>
              r' == Replay(FreeView(r.view, ptrs[i] - HDR), r.ptrs - {i}, Accepted) && SamePtrs(ptrs, r'.ptrs)
  {
  }

  /** The false alarm: a block of an id with low byte 128, reallocated to the size it
      has, is reported as damaged. */
  lemma FalseAlarmExample()
    ensures var ops := [Alloc(128, 8), Realloc(128, 8)];
            && Replayed(ops, true).verdict == Rejected && Answer(ops) == Some(0)
            && Replayed(ops, false).verdict == Accepted
  {
    FirstAlloc(128, 8, Realloc(128, 8), true);
    FirstAlloc(128, 8, Realloc(128, 8), false);
    assert RequestSize(8) == 40 && Align8(8 + HDR + FTR) == 40;
  }

  lemma {:induction false} NoneInEmpty(l: nat, n: int)
    ensures FirstFit(map[], NEW_HEAP.lists, l, n) == None
    decreases 4 - l
  {
    if l < 4 {
      NoneInEmpty(l + 1, n);
    }
  }

  /** A block that could not be extended passes the range list if the request fits into
      what the block was, */
  lemma UngrownPasses()
    ensures var ops := [Alloc(0, 20971336), Realloc(0, 20971368)];
            Replayed(ops, true).verdict == Damaged && Answer(ops) == Some(1)
  {
    FirstAlloc(0, 20971336, Realloc(0, 20971368), true);
    assert RequestSize(20971336) == 20971368 && Align8(20971368 + HDR + FTR) == 20971400;
  }

  /** and only then, but eval_mm_util never objects. */
  lemma UngrownFails()
    ensures var ops := [Alloc(0, 8), Realloc(0, MAX_HEAP - 136)];
            && Replayed(ops, true).verdict == Rejected && Answer(ops) == Some(0)
            && Finished(ops, false) && Replayed(ops, false).view.brk == 192
  {
    FirstAlloc(0, 8, Realloc(0, MAX_HEAP - 136), true);
    FirstAlloc(0, 8, Realloc(0, MAX_HEAP - 136), false);
    assert RequestSize(8) == 40 && Align8(MAX_HEAP - 136 + HDR + FTR) == MAX_HEAP - 104;
  }

  /** The replay of an allocation on a new heap and one more request. */
  lemma FirstAlloc(i: int, size: int, op: Op, check: bool)
    requires 0 < size <= MAX_REQUEST && FIRST + 2 * HDR + RequestSize(size) <= MAX_HEAP
    ensures var n := RequestSize(size) + HDR;
            var r := Replay(View(FIRST + n + HDR, map[FIRST := Block(n, true)], NEW_HEAP.lists), map[i := FIRST + HDR],
                            Accepted);
            var ops := [Alloc(i, size), op];
            && Replayed(ops[..1], check) == r && Replayed(ops, check) == ReplayStep(r, op, check)
  {
    hide RequestSize;
    RequestRange(size);
    var ops := [Alloc(i, size), op];
    assert ops[..1] == [Alloc(i, size)] && ops[..1][..0] == [];
    assert Replayed(ops[..1][..0], check) == Replay(NEW_HEAP, map[], Accepted);
    NoneInEmpty(MapToList(RequestSize(size)), RequestSize(size));
  }

  /** The i-th request is an allocation for which the heap has no room. */
  ghost predicate Exhausts(ops: seq<Op>, i: nat) {
    && i < |ops| && ops[i].Alloc?
    && var r := Replayed(ops[..i], true);
       r.verdict == Accepted && MallocView(r.view, ops[i].size).1 == Fault
  }

  /** Without reallocs a replay fails exactly by exhausting the heap. */
  lemma {:induction false} AllocFreeVerdict(ops: seq<Op>, n: nat, numIds: int)
    requires n <= |ops| && WellFormed(ops, numIds) && forall op | op in ops :: !op.Realloc?
    ensures Replayed(ops[..n], true).verdict == if forall i | 0 <= i < n :: !Exhausts(ops, i) then Accepted else Crashed
  {
    hide MallocView, ReplayStep, Replayed, WellFormed, Exhausts, Live;
    if n > 0 {
      AllocFreeVerdict(ops, n - 1, numIds);
      LastRequest(ops, n - 1, numIds);
    } else {
      NothingReplayed(ops);
    }
  }

  lemma NothingReplayed(ops: seq<Op>)
    ensures Replayed(ops[..0], true).verdict == Accepted
  {
  }

  /** The verdict after one more request. */
  lemma LastRequest(ops: seq<Op>, i: nat, numIds: int)
    requires i < |ops| && WellFormed(ops, numIds) && !ops[i].Realloc?
    ensures var v, v' := Replayed(ops[..i], true).verdict, Replayed(ops[..i + 1], true).verdict;
            if v != Accepted then v' == v && !Exhausts(ops, i)
            else v' == if Exhausts(ops, i) then Crashed else Accepted
  {
    hide MallocView, ReplayStep, Live;
    assert ops[..i + 1][..i] == ops[..i];
    assert OpOk(ops[i], Live(ops[..i]), numIds);
    VerdictStep(Replayed(ops[..i], true), ops[i]);
  }

  lemma VerdictStep(r: Replay, op: Op)
    requires !op.Realloc? && (op.Alloc? ==> op.size > 0)
    ensures ReplayStep(r, op, true).verdict ==
              if r.verdict != Accepted then r.verdict
              else if op.Alloc? && MallocView(r.view, op.size).1 == Fault then Crashed
              else Accepted
  {
    hide MallocView, FreeView;
    if op.Alloc? {
      MallocOutcome(r.view, op.size);
    }
  }

  lemma MallocOutcome(v: View, size: int)
    requires size > 0
    ensures MallocView(v, size).1.Ptr? || MallocView(v, size).1 == Fault
  {
  }

  // ------------------------------------------------------- sizes that are live

  function SizesStep(s: map<int, int>, op: Op): map<int, int> {
    match op
    case Alloc(i, n) => s[i := n]
    case Realloc(i, n) => if i in s then s[i := n] else s
    case Free(i) => s - {i}
  }

  /** The requested size of each live id. */
  function LiveSizes(ops: seq<Op>): map<int, int> {
    if ops == [] then map[] else SizesStep(LiveSizes(ops[..|ops| - 1]), ops[|ops| - 1])
  }

  /** It is the size of the last request for the id. */
  lemma {:induction false} LatestSize(ops: seq<Op>, i: int) returns (k: nat)
    requires i in LiveSizes(ops)
    ensures k < |ops| && ops[k].index == i && !ops[k].Free? && ops[k].size == LiveSizes(ops)[i]
    ensures forall j | k < j < |ops| :: ops[j].index != i
  {
    var n := |ops| - 1;
    if ops[n].index == i {
      k := n;
    } else {
      k := LatestSize(ops[..n], i);
    }
  }

  lemma {:induction false} LiveKeys(ops: seq<Op>)
    ensures LiveSizes(ops).Keys == Live(ops)
  {
    if ops != [] {
      var init, op := ops[..|ops| - 1], ops[|ops| - 1];
      LiveKeys(init);
      match op
      case Alloc(i, n) => assert LiveSizes(init)[i := n].Keys == LiveSizes(init).Keys + {i};
      case Realloc(i, n) => if i in LiveSizes(init) { assert LiveSizes(init)[i := n].Keys == LiveSizes(init).Keys; }
      case Free(i) => assert (LiveSizes(init) - {i}).Keys == LiveSizes(init).Keys - {i};
    }
  }
}
