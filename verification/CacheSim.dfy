/** The cache simulator of mps/04/csim.c. */
module CacheSim {
  import opened Memlib
  import opened CacheSet

  // --------------------------------------------------------------- addresses

  function Pow2(n: nat): (p: nat)
    ensures p > 0
  {
    if n == 0 then 1 else 2 * Pow2(n - 1)
  }

  // Products and quotients by a variable, kept from the solver: it is given one fact
  // at a time.

  function Product(x: int, y: int): int {
    x * y
  }

  function Quotient(x: int, m: int): int
    requires m != 0
  {
    x / m
  }

  function Remainder(x: int, m: int): int
    requires m != 0
  {
    x % m
  }

  lemma ProductAdds(x: int, y: int, z: int)
    ensures Product(x + y, z) == Product(x, z) + Product(y, z)
  {
  }

  lemma ProductAssoc(x: int, y: int, z: int)
    ensures Product(Product(x, y), z) == Product(x, Product(y, z))
  {
    assert x * y * z == x * (y * z);
  }

  lemma ProductSwap(x: int, y: int)
    ensures Product(x, y) == Product(y, x)
  {
  }

  lemma ProductOne(x: int)
    ensures Product(1, x) == x
  {
  }

  lemma ProductGrows(x: int, y: int, z: int)
    requires x <= y && z >= 0
    ensures Product(x, z) <= Product(y, z)
  {
    assert (y - x) * z >= 0;
    assert y * z - x * z == (y - x) * z;
  }

  lemma Divides(x: int, m: int)
    requires m > 0
    ensures x == Product(Quotient(x, m), m) + Remainder(x, m) && 0 <= Remainder(x, m) < m
  {
  }

  lemma DividesOnce(x: int, m: int, k: int, r: int)
    requires m > 0 && x == Product(k, m) + r && 0 <= r < m
    ensures Quotient(x, m) == k && Remainder(x, m) == r
  {
    hide Product, Quotient, Remainder;
    Divides(x, m);
    var k' := Quotient(x, m);
    ProductOne(m);
    ProductAdds(k', 1, m);
    ProductAdds(k, 1, m);
    if k' < k {
      ProductGrows(k' + 1, k, m);
    } else if k < k' {
      ProductGrows(k + 1, k', m);
    }
  }

  /** If r < m then r * t + (less than t) < m * t. */
  lemma BelowProduct(r: int, m: int, t: int, w: int)
    requires 0 <= r < m && 0 <= w < t
    ensures 0 <= Product(r, t) + w < Product(m, t)
  {
    hide Product;
    ProductOne(t);
    ProductAdds(r, 1, t);
    ProductGrows(r + 1, m, t);
    ProductGrows(0, r, t);
    ProductZero(t);
  }

  lemma ProductZero(t: int)
    ensures Product(0, t) == 0
  {
  }

  lemma Regroup(k: int, q: int, r: int, t: int)
    ensures Product(Product(k, q) + r, t) == Product(k, Product(q, t)) + Product(r, t)
  {
    hide Product;
    ProductAdds(Product(k, q), r, t);
    ProductAssoc(k, q, t);
  }

  lemma ProductPositive(q: int, t: int)
    requires q > 0 && t > 0
    ensures Product(q, t) > 0
  {
    hide Product;
    BelowProduct(0, q, t, 0);
    ProductZero(t);
  }

  /** Scaling by t keeps quotients and scales remainders. */
  lemma Scaled(a: int, t: int, q: int)
    requires t > 0 && q > 0
    ensures Product(q, t) > 0
    ensures Remainder(Product(a, t), Product(q, t)) == Product(Remainder(a, q), t)
    ensures Quotient(Product(a, t), Product(q, t)) == Quotient(a, q)
  {
    hide Product, Quotient, Remainder;
    ProductPositive(q, t);
    Divides(a, q);
    var k, r := Quotient(a, q), Remainder(a, q);
    Regroup(k, q, r, t);
    BelowProduct(r, q, t, 0);
    DividesOnce(Product(a, t), Product(q, t), k, Product(r, t));
  }

  /** (a % (q * p)) / p == (a / p) % q */
  lemma MiddleBits(a: int, p: int, q: int)
    requires p > 0 && q > 0
    ensures Product(q, p) > 0 && Quotient(Remainder(a, Product(q, p)), p) == Remainder(Quotient(a, p), q)
  {
    hide Product, Quotient, Remainder;
    ProductPositive(q, p);
    Divides(a, p);
    Divides(Quotient(a, p), q);
    var w := Remainder(a, p);
    var k, r := Quotient(Quotient(a, p), q), Remainder(Quotient(a, p), q);
    Regroup(k, q, r, p);
    BelowProduct(r, q, p, w);
    DividesOnce(a, Product(q, p), k, Product(r, p) + w);
    DividesOnce(Product(r, p) + w, p, r, w);
  }

  /** (a / p) / q == a / (q * p) */
  lemma QuotientTwice(a: int, p: int, q: int)
    requires p > 0 && q > 0
    ensures Product(q, p) > 0 && Quotient(Quotient(a, p), q) == Quotient(a, Product(q, p))
  {
    hide Product, Quotient, Remainder;
    ProductPositive(q, p);
    Divides(a, p);
    Divides(Quotient(a, p), q);
    var w := Remainder(a, p);
    var k, r := Quotient(Quotient(a, p), q), Remainder(Quotient(a, p), q);
    Regroup(k, q, r, p);
    BelowProduct(r, q, p, w);
    DividesOnce(a, Product(q, p), k, Product(r, p) + w);
  }

  lemma QuotientStays(x: word, p: int)
    requires p > 0
    ensures 0 <= Quotient(x, p) < WORD_LIMIT
  {
    hide Product, Quotient, Remainder;
    Divides(x, p);
    var k := Quotient(x, p);
    ProductZero(p);
    ProductOne(p);
    if k < 0 {
      ProductGrows(k, -1, p);
      ProductAdds(-1, 1, p);
    } else {
      ProductGrows(1, p, k);
      ProductOne(k);
      ProductSwap(p, k);
    }
  }

  /** `x << k` and `x >> k` on 64-bit words */
  function Shl(x: word, k: nat): word {
    Remainder(Product(x, Pow2(k)), WORD_LIMIT)
  }

  function Shr(x: word, k: nat): word {
    QuotientStays(x, Pow2(k));
    Quotient(x, Pow2(k))
  }

  /** The set and the tag of an address, as the shifts compute them. */
  function SetIndex(a: word, s: nat, b: nat): word
    requires s + b < 64
  {
    var tagSize := 64 - (s + b);
    Shr(Shl(a, tagSize), tagSize + b)
  }

  function TagOf(a: word, s: nat, b: nat): word {
    Shr(a, s + b)
  }

  lemma {:induction false} Pow2Sum(m: nat, n: nat)
    ensures Pow2(m + n) == Product(Pow2(m), Pow2(n))
  {
    hide Product;
    if m > 0 {
      Pow2Sum(m - 1, n);
      ProductAdds(Pow2(m - 1), Pow2(m - 1), Pow2(n));
    } else {
      ProductOne(Pow2(n));
    }
  }

  lemma Pow2Word()
    ensures Pow2(64) == WORD_LIMIT
  {
    assert Pow2(8) == 0x100;
    Pow2Sum(8, 8);
    Pow2Sum(16, 16);
    Pow2Sum(32, 32);
  }

  /** The shifts select the middle s bits of an address, and the bits above them. */
  lemma ShiftsMean(a: word, s: nat, b: nat)
    requires s + b < 64
    ensures SetIndex(a, s, b) == (a / Pow2(b)) % Pow2(s) < Pow2(s)
    ensures TagOf(a, s, b) == a / Pow2(s + b)
  {
    ShiftsSelect(a, s, b);
    Divides(Quotient(a, Pow2(b)), Pow2(s));
  }

  lemma ShiftsSelect(a: word, s: nat, b: nat)
    requires s + b < 64
    ensures SetIndex(a, s, b) == Remainder(Quotient(a, Pow2(b)), Pow2(s))
  {
    hide Product, Quotient, Remainder, Pow2;
    var t := 64 - (s + b);
    Pow2Word();
    Pow2Sum(s + b, t);
    Pow2Sum(s, b);
    Pow2Sum(b, t);
    ProductSwap(Pow2(b), Pow2(t));
    Scaled(a, Pow2(t), Pow2(s + b));
    Scaled(Remainder(a, Pow2(s + b)), Pow2(t), Pow2(b));
    assert t + b == b + t;
    MiddleBits(a, Pow2(b), Pow2(s));
  }

  // -------------------------------------------------------------- the trace

  /** A line of the trace file: the command letter and an address. */
  datatype Op = Op(cmd: char, address: word)

  datatype Counts = Counts(hits: nat, misses: nat, evictions: nat)

  function Counted(c: Counts, e: Event): Counts {
    match e
    case Hit => c.(hits := c.hits + 1)
    case Fill => c.(misses := c.misses + 1)
    case Evict => c.(misses := c.misses + 1, evictions := c.evictions + 1)
  }

  /** The accesses of one line: none for I and unknown letters, two for M. */
  function Accesses(op: Op): seq<word> {
    if op.cmd == 'L' || op.cmd == 'S' then [op.address]
    else if op.cmd == 'M' then [op.address, op.address]
    else []
  }

  function AllAccesses(trace: seq<Op>): seq<word> {
    if trace == [] then [] else AllAccesses(trace[..|trace| - 1]) + Accesses(trace[|trace| - 1])
  }

  datatype Geometry = Geometry(s: nat, b: nat, lines: nat)

  ghost predicate Usable(g: Geometry) {
    g.s + g.b < 64 && g.lines > 0
  }

  /** The tags of the accesses to set `i`, in order. */
  function History(g: Geometry, addrs: seq<word>, i: int): seq<int>
    requires g.s + g.b < 64
  {
    if addrs == [] then []
    else
      var a := addrs[|addrs| - 1];
      var h := History(g, addrs[..|addrs| - 1], i);
      if SetIndex(a, g.s, g.b) == i then h + [TagOf(a, g.s, g.b)] else h
  }

  /** The outcome of the last of these accesses. */
  function LastEvent(g: Geometry, addrs: seq<word>): Event
    requires g.s + g.b < 64 && addrs != []
  {
    var a := addrs[|addrs| - 1];
    Access(After(g.lines, History(g, addrs[..|addrs| - 1], SetIndex(a, g.s, g.b))), TagOf(a, g.s, g.b)).1
  }

  function Totals(g: Geometry, addrs: seq<word>): Counts
    requires g.s + g.b < 64
  {
    if addrs == [] then Counts(0, 0, 0) else Counted(Totals(g, addrs[..|addrs| - 1]), LastEvent(g, addrs))
  }

  class Cache {
    const g: Geometry
    const sets: array2<Line>

    ghost predicate Built() {
      Usable(g) && sets.Length0 == Pow2(g.s) && sets.Length1 == g.lines
    }

    ghost function Lines(i: nat): (l: Lines)
      requires Built() && i < sets.Length0
      reads sets
      ensures |l| == g.lines
    {
      seq(g.lines, j requires 0 <= j < g.lines reads sets => sets[i, j])
    }

    /** The tags of the valid lines of each set are distinct. */
    ghost predicate Valid()
      reads sets
    {
      Built() && forall i | 0 <= i < sets.Length0 :: DistinctTags(Lines(i))
    }

    /** build_cache */
    constructor (g: Geometry)
      requires Usable(g)
      ensures this.g == g && Valid() && fresh(sets) &&
              forall i | 0 <= i < sets.Length0 :: Lines(i) == seq(g.lines, j => EMPTY)
    {
      this.g := g;
      sets := new Line[Pow2(g.s), g.lines];
      new;
      for i := 0 to sets.Length0
        invariant forall k, j | 0 <= k < i && 0 <= j < g.lines :: sets[k, j] == EMPTY
      {
        for j := 0 to g.lines
          invariant forall k, l | 0 <= k < i && 0 <= l < g.lines :: sets[k, l] == EMPTY
          invariant forall l | 0 <= l < j :: sets[i, l] == EMPTY
        {
          sets[i, j] := Line(false, 0, 0);
        }
      }
    }

    method GetEmptyLine(index: nat) returns (r: nat)
      requires Built() && index < sets.Length0
      ensures r == if FirstEmpty(Lines(index)) < g.lines then FirstEmpty(Lines(index)) else 0
    {
      for i := 0 to g.lines
        invariant forall j | 0 <= j < i :: Lines(index)[j].valid
      {
        assert Lines(index)[i] == sets[index, i];
        if !sets[index, i].valid {
          return i;
        }
      }
      return 0;
    }

    /** get_LRU: the first line with the least count, and the largest count. */
    method GetLru(index: nat) returns (minIndex: nat, minUsed: int, maxUsed: int)
      requires Built() && index < sets.Length0
      ensures minIndex == MinIndex(Lines(index)) && minUsed == Lines(index)[minIndex].count
      ensures maxUsed == MaxCount(Lines(index))
    {
      hide MinIndex, MaxCount;
      ghost var s := Lines(index);
      LruStart(s);
      maxUsed, minUsed, minIndex := sets[index, 0].count, sets[index, 0].count, 0;
      for i := 1 to g.lines
        invariant minIndex == MinIndex(s[..i]) && minUsed == s[minIndex].count
        invariant maxUsed == MaxCount(s[..i])
      {
        LruStep(s, i);
        var line := sets[index, i];
        if minUsed > line.count {
          minIndex := i;
          minUsed := line.count;
        }
        if maxUsed < line.count {
          maxUsed := line.count;
        }
      }
      assert s[..g.lines] == s;
    }

    /** Assigns one line. */
    method SetLine(index: nat, i: nat, line: Line)
      requires Built() && index < sets.Length0 && i < g.lines
      modifies sets
      ensures Lines(index) == old(Lines(index))[i := line]
      ensures forall k | 0 <= k < sets.Length0 && k != index :: Lines(k) == old(Lines(k))
    {
      sets[index, i] := line;
    }

    /** The search loop of simulate_cache. */
    method Search(index: nat, tag: int, par0: Counts) returns (par: Counts, cacheFull: bool)
      requires Built() && index < sets.Length0 && DistinctTags(Lines(index))
      modifies sets
      ensures var s := old(Lines(index)); var f := Find(s, tag);
              && Lines(index) == (if f < g.lines then s[f := s[f].(count := s[f].count + 1)] else s)
              && par == (if f < g.lines then par0.(hits := par0.hits + 1) else par0)
              && (cacheFull <==> FirstEmpty(s) == g.lines)
      ensures forall k | 0 <= k < sets.Length0 && k != index :: Lines(k) == old(Lines(k))
    {
      hide Find, FirstEmpty;
      cacheFull := true;
      par := par0;
      ghost var s := Lines(index);
      ghost var f := Find(s, tag);
      for i := 0 to g.lines
        invariant forall k | 0 <= k < sets.Length0 && k != index :: Lines(k) == old(Lines(k))
        invariant Lines(index) == if f < i then s[f := s[f].(count := s[f].count + 1)] else s
        invariant par == if f < i then par0.(hits := par0.hits + 1) else par0
        invariant cacheFull <==> i <= FirstEmpty(s)
      {
        var line := sets[index, i];
        assert Lines(index)[i] == line;
        if line.valid {
          if line.tag == tag {
            par := par.(hits := par.hits + 1);
            SetLine(index, i, line.(count := line.count + 1));
          }
        } else if cacheFull {
          cacheFull := false;
        }
      }
    }

    /** simulate_cache: the counters go in and out by value. */
    method Simulate(par0: Counts, address: word) returns (par: Counts)
      requires Valid()
      modifies sets
      ensures Valid()
      ensures var i := SetIndex(address, g.s, g.b);
              i < sets.Length0 &&
              var (l, e) := Access(old(Lines(i)), TagOf(address, g.s, g.b));
              Lines(i) == l && par == Counted(par0, e)
      ensures forall k | 0 <= k < sets.Length0 && k != SetIndex(address, g.s, g.b) :: Lines(k) == old(Lines(k))
    {
      hide Find, FirstEmpty, MinIndex, MaxCount, SetIndex, TagOf, DistinctTags;
      var setIndex := SetIndex(address, g.s, g.b);
      var tag := TagOf(address, g.s, g.b);
      ShiftsMean(address, g.s, g.b);
      AccessKeepsDistinct(Lines(setIndex), tag);
      var cacheFull;
      par, cacheFull := Search(setIndex, tag, par0);
      if par0.hits == par.hits {
        par := par.(misses := par.misses + 1);
      } else {
        return;
      }
      var minIndex, minUsed, maxUsed := GetLru(setIndex);
      if cacheFull {
        par := par.(evictions := par.evictions + 1);
        assert Lines(setIndex)[minIndex].valid;
        SetLine(setIndex, minIndex, sets[setIndex, minIndex].(tag := tag, count := maxUsed + 1));
      } else {
        var empty := GetEmptyLine(setIndex);
        SetLine(setIndex, empty, Line(true, maxUsed + 1, tag));
      }
    }
  }

  /** The cache holds what these accesses have left in it. */
  ghost predicate Reached(c: Cache, addrs: seq<word>)
    reads c.sets
  {
    c.Built() && forall i | 0 <= i < c.sets.Length0 :: c.Lines(i) == After(c.g.lines, History(c.g, addrs, i))
  }

  /** The loop of main over the trace. */
  method Replay(c: Cache, trace: seq<Op>) returns (par: Counts)
    requires c.Built() && Reached(c, [])
    modifies c.sets
    ensures Reached(c, AllAccesses(trace)) && par == Totals(c.g, AllAccesses(trace))
  {
    hide Reached, Totals, AllAccesses;
    ghost var addrs: seq<word> := [];
    par := Counts(0, 0, 0);
    ReplayStart(c.g);
    for k := 0 to |trace|
      invariant addrs == AllAccesses(trace[..k]) && Reached(c, addrs) && par == Totals(c.g, addrs)
    {
      ReplayStep(trace, k);
      match trace[k].cmd {
        case 'L' =>
          par := AccessOnce(c, par, trace[k].address, addrs);
        case 'S' =>
          par := AccessOnce(c, par, trace[k].address, addrs);
        case 'M' =>
          par := AccessOnce(c, par, trace[k].address, addrs);
          par := AccessOnce(c, par, trace[k].address, addrs + [trace[k].address]);
          assert addrs + [trace[k].address] + [trace[k].address] == addrs + Accesses(trace[k]);
        case _ =>
          assert addrs + [] == addrs;
      }
      addrs := addrs + Accesses(trace[k]);
    }
    assert trace[..|trace|] == trace;
  }

  lemma ReplayStart(g: Geometry)
    requires Usable(g)
    ensures AllAccesses([]) == [] && Totals(g, []) == Counts(0, 0, 0)
  {
  }

  lemma ReplayStep(trace: seq<Op>, k: nat)
    requires k < |trace|
    ensures trace[..0] == [] && AllAccesses(trace[..k + 1]) == AllAccesses(trace[..k]) + Accesses(trace[k])
  {
    assert trace[..k + 1][..k] == trace[..k];
  }

  method AccessOnce(c: Cache, par0: Counts, a: word, ghost addrs: seq<word>) returns (par: Counts)
    requires Reached(c, addrs) && par0 == Totals(c.g, addrs)
    modifies c.sets
    ensures Reached(c, addrs + [a]) && par == Totals(c.g, addrs + [a])
  {
    hide Access, SetIndex, TagOf, After, History, Totals, LastEvent;
    forall i | 0 <= i < c.sets.Length0
      ensures DistinctTags(c.Lines(i))
    {
      AfterDistinct(c.g.lines, History(c.g, addrs, i));
    }
    par := c.Simulate(par0, a);
    forall i | 0 <= i < c.sets.Length0
      ensures c.Lines(i) == After(c.g.lines, History(c.g, addrs + [a], i))
    {
      HistoryStep(c.g, addrs, a, i);
    }
    TotalsStep(c.g, addrs, a);
  }

  lemma HistoryStep(g: Geometry, addrs: seq<word>, a: word, i: int)
    requires g.s + g.b < 64
    ensures var h := History(g, addrs, i);
            var h' := History(g, addrs + [a], i);
            if SetIndex(a, g.s, g.b) == i then
              h' == h + [TagOf(a, g.s, g.b)] && After(g.lines, h') == Access(After(g.lines, h), TagOf(a, g.s, g.b)).0
            else h' == h
  {
    hide SetIndex, TagOf, Access;
    assert (addrs + [a])[..|addrs|] == addrs;
    var h := History(g, addrs, i);
    var t := TagOf(a, g.s, g.b);
    assert (h + [t])[..|h|] == h;
  }

  lemma TotalsStep(g: Geometry, addrs: seq<word>, a: word)
    requires g.s + g.b < 64
    ensures var i := SetIndex(a, g.s, g.b);
            var e := Access(After(g.lines, History(g, addrs, i)), TagOf(a, g.s, g.b)).1;
            Totals(g, addrs + [a]) == Counted(Totals(g, addrs), e) && LastEvent(g, addrs + [a]) == e
  {
    hide SetIndex, TagOf, Access, After, History;
    assert (addrs + [a])[..|addrs|] == addrs;
  }

  lemma LruStart(s: Lines)
    requires s != []
    ensures MinIndex(s[..1]) == 0 && MaxCount(s[..1]) == s[0].count
  {
  }

  lemma LruStep(s: Lines, i: nat)
    requires 0 < i < |s|
    ensures var m := MinIndex(s[..i]);
            m < i && MinIndex(s[..i + 1]) == if s[m].count > s[i].count then i else m
    ensures MaxCount(s[..i + 1]) == if MaxCount(s[..i]) < s[i].count then s[i].count else MaxCount(s[..i])
  {
    assert s[..i + 1][..i] == s[..i];
  }

  /** A cache is built, the trace replayed on it, and the totals reported. */
  method SimulateTrace(g: Geometry, trace: seq<Op>) returns (par: Counts)
    requires Usable(g)
    ensures par == Totals(g, AllAccesses(trace))
  {
    hide Totals, AllAccesses;
    var c := new Cache(g);
    par := Replay(c, trace);
  }

  // ---------------------------------------------------------------- theorems

  function LoadsAndStores(trace: seq<Op>): nat {
    if trace == [] then 0
    else
      var c := trace[|trace| - 1].cmd;
      LoadsAndStores(trace[..|trace| - 1]) + if c == 'L' || c == 'S' then 1 else 0
  }

  function Modifies(trace: seq<Op>): nat {
    if trace == [] then 0
    else Modifies(trace[..|trace| - 1]) + if trace[|trace| - 1].cmd == 'M' then 1 else 0
  }

  /** Every load and store counts once and every modify twice, as a hit or a miss. */
  lemma {:induction false} HitsAndMisses(g: Geometry, trace: seq<Op>)
    requires Usable(g)
    ensures var t := Totals(g, AllAccesses(trace));
            t.hits + t.misses == LoadsAndStores(trace) + 2 * Modifies(trace)
  {
    TotalsCount(g, AllAccesses(trace));
    AccessesCount(trace);
  }

  lemma {:induction false} TotalsCount(g: Geometry, addrs: seq<word>)
    requires Usable(g)
    ensures Totals(g, addrs).hits + Totals(g, addrs).misses == |addrs|
  {
    hide LastEvent;
    if addrs != [] {
      TotalsCount(g, addrs[..|addrs| - 1]);
    }
  }

  lemma {:induction false} AccessesCount(trace: seq<Op>)
    ensures |AllAccesses(trace)| == LoadsAndStores(trace) + 2 * Modifies(trace)
  {
    if trace != [] {
      AccessesCount(trace[..|trace| - 1]);
    }
  }

  /** The second access of a modify hits, whatever came before. */
  lemma ModifyHits(g: Geometry, addrs: seq<word>, a: word)
    requires Usable(g)
    ensures LastEvent(g, addrs + [a] + [a]) == Hit
  {
    hide SetIndex, TagOf, Access, After, LastEvent, Totals;
    var i := SetIndex(a, g.s, g.b);
    HistoryStep(g, addrs, a, i);
    TotalsStep(g, addrs + [a], a);
    SecondAccessHits(After(g.lines, History(g, addrs, i)), TagOf(a, g.s, g.b));
  }

  /** Addresses in the same block have the same set and the same tag. */
  lemma SameBlock(x: word, y: word, s: nat, b: nat)
    requires s + b < 64 && x / Pow2(b) == y / Pow2(b)
    ensures SetIndex(x, s, b) == SetIndex(y, s, b) && TagOf(x, s, b) == TagOf(y, s, b)
  {
    hide Product, Pow2, SetIndex;
    ShiftsMean(x, s, b);
    ShiftsMean(y, s, b);
    Pow2Sum(s, b);
    QuotientTwice(x, Pow2(b), Pow2(s));
    QuotientTwice(y, Pow2(b), Pow2(s));
  }

  lemma NextToBlock(g: Geometry, addrs: seq<word>, x: word, y: word)
    requires Usable(g) && x / Pow2(g.b) == y / Pow2(g.b)
    ensures LastEvent(g, addrs + [x] + [y]) == Hit
    ensures Totals(g, addrs + [x] + [y]).misses == Totals(g, addrs + [x]).misses
  {
    hide SetIndex, TagOf, Access, After, LastEvent, Totals;
    var i := SetIndex(x, g.s, g.b);
    SameBlock(x, y, g.s, g.b);
    HistoryStep(g, addrs, x, i);
    TotalsStep(g, addrs + [x], y);
    SecondAccessHits(After(g.lines, History(g, addrs, i)), TagOf(x, g.s, g.b));
  }

  predicate IsAccess(op: Op) {
    op.cmd == 'L' || op.cmd == 'S' || op.cmd == 'M'
  }

  /** A load, store or modify of the block that the one before it in the trace touched
      adds no miss. */
  lemma SameBlockHits(g: Geometry, trace: seq<Op>, x: Op, y: Op)
    requires Usable(g) && IsAccess(x) && IsAccess(y) && x.address / Pow2(g.b) == y.address / Pow2(g.b)
    ensures Totals(g, AllAccesses(trace + [x, y])).misses == Totals(g, AllAccesses(trace + [x])).misses
  {
    hide Totals, Pow2;
    var a := AllAccesses(trace);
    assert (trace + [x])[..|trace|] == trace;
    assert (trace + [x, y])[..|trace| + 1] == trace + [x];
    var before := if x.cmd == 'M' then a + [x.address] else a;
    assert AllAccesses(trace + [x]) == before + [x.address];
    NextToBlock(g, before, x.address, y.address);
    if y.cmd == 'M' {
      NextToBlock(g, before + [x.address], y.address, y.address);
      assert AllAccesses(trace + [x, y]) == before + [x.address] + [y.address] + [y.address];
    } else {
      assert AllAccesses(trace + [x, y]) == before + [x.address] + [y.address];
    }
  }

  /** How often `e` was the outcome in the first `n` sets. */
  function EventsInSets(g: Geometry, addrs: seq<word>, e: Event, n: nat): nat
    requires Usable(g)
  {
    if n == 0 then 0 else EventsInSets(g, addrs, e, n - 1) + EventCount(g.lines, History(g, addrs, n - 1), e)
  }

  lemma {:induction false} EventsInSetsStep(g: Geometry, addrs: seq<word>, a: word, e: Event, n: nat)
    requires Usable(g)
    ensures var i := SetIndex(a, g.s, g.b);
            EventsInSets(g, addrs + [a], e, n) ==
            EventsInSets(g, addrs, e, n) + if i < n && LastEvent(g, addrs + [a]) == e then 1 else 0
  {
    hide SetIndex, TagOf, Access, After, History, LastEvent, Totals;
    if n > 0 {
      EventsInSetsStep(g, addrs, a, e, n - 1);
      EventCountStep(g, addrs, a, e, n - 1);
    }
  }

  lemma EventCountStep(g: Geometry, addrs: seq<word>, a: word, e: Event, i: nat)
    requires Usable(g)
    ensures EventCount(g.lines, History(g, addrs + [a], i), e) ==
            EventCount(g.lines, History(g, addrs, i), e) +
            if SetIndex(a, g.s, g.b) == i && LastEvent(g, addrs + [a]) == e then 1 else 0
  {
    hide SetIndex, TagOf, Access, After, LastEvent, Totals;
    HistoryStep(g, addrs, a, i);
    TotalsStep(g, addrs, a);
    var h := History(g, addrs, i);
    assert (h + [TagOf(a, g.s, g.b)])[..|h|] == h;
  }

  /** The totals are sums over the sets: no set sees another's accesses. */
  lemma {:induction false} TotalsBySet(g: Geometry, addrs: seq<word>)
    requires Usable(g)
    ensures var t := Totals(g, addrs); var n := Pow2(g.s);
            && t.hits == EventsInSets(g, addrs, Hit, n)
            && t.evictions == EventsInSets(g, addrs, Evict, n)
            && t.misses == EventsInSets(g, addrs, Fill, n) + EventsInSets(g, addrs, Evict, n)
  {
    hide SetIndex, TagOf, Access, After, History, LastEvent, Pow2;
    var n := Pow2(g.s);
    if addrs == [] {
      NoEvents(g, Hit, n);
      NoEvents(g, Fill, n);
      NoEvents(g, Evict, n);
    } else {
      var r, a := addrs[..|addrs| - 1], addrs[|addrs| - 1];
      assert addrs == r + [a];
      TotalsBySet(g, r);
      ShiftsMean(a, g.s, g.b);
      EventsInSetsStep(g, r, a, Hit, n);
      EventsInSetsStep(g, r, a, Fill, n);
      EventsInSetsStep(g, r, a, Evict, n);
    }
  }

  lemma {:induction false} NoEvents(g: Geometry, e: Event, n: nat)
    requires Usable(g)
    ensures EventsInSets(g, [], e, n) == 0
  {
    if n > 0 {
      NoEvents(g, e, n - 1);
    }
  }

  /** The valid lines of the first `n` sets. */
  function ValidLines(g: Geometry, addrs: seq<word>, n: nat): nat
    requires Usable(g)
  {
    if n == 0 then 0 else ValidLines(g, addrs, n - 1) + CountValid(After(g.lines, History(g, addrs, n - 1)))
  }

  /** Misses less evictions is the number of valid lines of the cache. */
  lemma MissesLessEvictions(g: Geometry, addrs: seq<word>)
    requires Usable(g)
    ensures Totals(g, addrs).misses - Totals(g, addrs).evictions == ValidLines(g, addrs, Pow2(g.s))
  {
    TotalsBySet(g, addrs);
    FillsAreValid(g, addrs, Pow2(g.s));
  }

  lemma {:induction false} FillsAreValid(g: Geometry, addrs: seq<word>, n: nat)
    requires Usable(g)
    ensures EventsInSets(g, addrs, Fill, n) == ValidLines(g, addrs, n)
  {
    hide History, After, CountValid;
    if n > 0 {
      FillsAreValid(g, addrs, n - 1);
      SetFills(g.lines, History(g, addrs, n - 1));
    }
  }

  lemma {:induction false} SetFills(n: nat, h: seq<int>)
    requires n > 0
    ensures EventCount(n, h, Fill) == CountValid(After(n, h))
  {
    hide CountValid, Access;
    if h == [] {
      NoneValid(n);
    } else {
      SetFills(n, h[..|h| - 1]);
      AccessCounts(After(n, h[..|h| - 1]), h[|h| - 1]);
    }
  }

  lemma {:induction false} NoneValid(n: nat)
    ensures CountValid(seq(n, i => EMPTY)) == 0
  {
    if n > 0 {
      NoneValid(n - 1);
      assert seq(n, i => EMPTY)[1..] == seq(n - 1, i => EMPTY);
    }
  }

  /** Set by set: no evictions, and a miss for each distinct tag, when there are no
      more of them than lines. */
  lemma SmallWorkingSet(g: Geometry, addrs: seq<word>)
    requires Usable(g) && forall i | 0 <= i < Pow2(g.s) :: |Seen(History(g, addrs, i))| <= g.lines
    ensures Totals(g, addrs).evictions == 0
    ensures Totals(g, addrs).misses == DistinctInSets(g, addrs, Pow2(g.s))
  {
    TotalsBySet(g, addrs);
    SmallSets(g, addrs, Pow2(g.s));
  }

  ghost function DistinctInSets(g: Geometry, addrs: seq<word>, n: nat): nat
    requires Usable(g)
  {
    if n == 0 then 0 else DistinctInSets(g, addrs, n - 1) + |Seen(History(g, addrs, n - 1))|
  }

  lemma {:induction false} SmallSets(g: Geometry, addrs: seq<word>, n: nat)
    requires Usable(g) && forall i | 0 <= i < n :: |Seen(History(g, addrs, i))| <= g.lines
    ensures EventsInSets(g, addrs, Evict, n) == 0
    ensures EventsInSets(g, addrs, Fill, n) == DistinctInSets(g, addrs, n)
  {
    hide History, Seen;
    if n > 0 {
      SmallSets(g, addrs, n - 1);
      FewTagsNeverEvict(g.lines, History(g, addrs, n - 1));
    }
  }

  /** With one line a set, an access hits exactly when the latest earlier access to
      its set was to the same tag. */
  lemma DirectMappedTrace(g: Geometry, addrs: seq<word>, a: word)
    requires Usable(g) && g.lines == 1
    ensures var h := History(g, addrs, SetIndex(a, g.s, g.b));
            LastEvent(g, addrs + [a]) == Hit <==> h != [] && h[|h| - 1] == TagOf(a, g.s, g.b)
  {
    hide SetIndex, TagOf, Access, History, Totals;
    var h := History(g, addrs, SetIndex(a, g.s, g.b));
    var t := TagOf(a, g.s, g.b);
    TotalsStep(g, addrs, a);
    DirectMapped(h + [t]);
    assert (h + [t])[..|h|] == h;
  }
}
