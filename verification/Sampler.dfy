/** The k-best sampler of mps/05/fcyc.c; a measurement is an arbitrary real. */
module Sampler {
  import opened Wrappers

  ghost predicate Ascending(s: seq<real>) {
    forall i, j | 0 <= i < j < |s| :: s[i] <= s[j]
  }

  /** `v` behind the values that are not larger. */
  function Inserted(s: seq<real>, v: real): (r: seq<real>)
    ensures |r| == |s| + 1
  {
    if s == [] || s[|s| - 1] <= v then s + [v] else Inserted(s[..|s| - 1], v) + [s[|s| - 1]]
  }

  /** All samples in ascending order. */
  function Sorted(samples: seq<real>): (r: seq<real>)
    ensures |r| == |samples|
  {
    if samples == [] then [] else Inserted(Sorted(samples[..|samples| - 1]), samples[|samples| - 1])
  }

  lemma {:induction false} InsertedAt(s: seq<real>, v: real, pos: nat)
    requires pos <= |s| && (pos == 0 || s[pos - 1] <= v) && forall i | pos <= i < |s| :: s[i] > v
    ensures Inserted(s, v) == s[..pos] + [v] + s[pos..]
  {
    var n := |s| - 1;
    if pos < |s| {
      InsertedAt(s[..n], v, pos);
      assert s[..n][..pos] == s[..pos] && s[..n][pos..] + [s[n]] == s[pos..];
    } else {
      assert s[..pos] == s && s[pos..] == [];
    }
  }

  lemma InsertedNone(v: real)
    ensures Inserted([], v) == [v]
  {
  }

  lemma PlaceOf(s: seq<real>, v: real) returns (pos: nat)
    requires Ascending(s)
    ensures pos <= |s| && (pos == 0 || s[pos - 1] <= v) && forall i | pos <= i < |s| :: s[i] > v
  {
    pos := |s|;
    while pos > 0 && s[pos - 1] > v
      invariant pos <= |s| && forall i | pos <= i < |s| :: s[i] > v
    {
      pos := pos - 1;
    }
  }

  lemma InsertedOk(s: seq<real>, v: real)
    requires Ascending(s)
    ensures Ascending(Inserted(s, v)) && multiset(Inserted(s, v)) == multiset(s) + multiset{v}
  {
    hide Inserted, Ascending;
    var pos := PlaceOf(s, v);
    InsertedAt(s, v, pos);
    MidMultiset(s[..pos], v, s[pos..]);
    assert s == s[..pos] + s[pos..];
    MidAscending(s, v, pos);
  }

  lemma MidMultiset(a: seq<real>, v: real, b: seq<real>)
    ensures multiset(a + [v] + b) == multiset(a + b) + multiset{v}
  {
  }

  lemma MidAscending(s: seq<real>, v: real, pos: nat)
    requires Ascending(s) && pos <= |s| && (pos == 0 || s[pos - 1] <= v) && forall i | pos <= i < |s| :: s[i] > v
    ensures Ascending(s[..pos] + [v] + s[pos..])
  {
    var r := s[..pos] + [v] + s[pos..];
    assert forall i | 0 <= i < |r| :: r[i] == if i < pos then s[i] else if i == pos then v else s[i - 1];
    assert forall i | 0 <= i < pos :: s[i] <= v;
  }

  /** Sorted is the ascending permutation of the samples. */
  lemma {:induction false} SortedOk(samples: seq<real>)
    ensures Ascending(Sorted(samples)) && multiset(Sorted(samples)) == multiset(samples)
  {
    if samples != [] {
      var n := |samples| - 1;
      SortedOk(samples[..n]);
      InsertedOk(Sorted(samples[..n]), samples[n]);
      assert samples == samples[..n] + [samples[n]];
    }
  }

  /** What is kept of the samples: the smallest `k`, or all. */
  function Kept(samples: seq<real>, k: nat): seq<real> {
    Sorted(samples)[..Min(k, |samples|)]
  }

  /** The kept values are in order, they are samples, and no other sample is smaller. */
  lemma KeptAreSmallest(samples: seq<real>, k: nat)
    ensures Ascending(Kept(samples, k)) && |Kept(samples, k)| == Min(k, |samples|)
    ensures multiset(Kept(samples, k)) <= multiset(samples)
    ensures forall x, y | x in Kept(samples, k) && y in multiset(samples) - multiset(Kept(samples, k)) :: x <= y
  {
    hide Sorted;
    SortedOk(samples);
    var s, n := Sorted(samples), Min(k, |samples|);
    SplitMultiset(s, n, multiset(samples));
    CutAscending(s, n);
  }

  lemma SplitMultiset(s: seq<real>, n: nat, all: multiset<real>)
    requires n <= |s| && multiset(s) == all
    ensures multiset(s[..n]) <= all && all - multiset(s[..n]) == multiset(s[n..])
  {
    assert s == s[..n] + s[n..];
  }

  lemma CutAscending(s: seq<real>, n: nat)
    requires Ascending(s) && n <= |s|
    ensures Ascending(s[..n]) && forall x, y | x in s[..n] && y in multiset(s[n..]) :: x <= y
  {
    forall x, y | x in s[..n] && y in multiset(s[n..])
      ensures x <= y
    {
      var i :| 0 <= i < n && s[i] == x;
      assert y in s[n..];
      var j :| 0 <= j < |s| - n && s[n..][j] == y;
      assert s[n + j] == y;
    }
  }

  /** Inserting and then keeping is keeping and then inserting. */
  lemma {:induction false} InsertedKept(s: seq<real>, v: real, k: nat)
    requires Ascending(s) && 0 < k <= |s|
    ensures Inserted(s, v)[..k] == if v < s[k - 1] then Inserted(s[..k - 1], v) else s[..k]
  {
    var n := |s| - 1;
    if s[n] <= v {
      assert s[k - 1] <= s[n];
    } else if k == |s| {
      assert Inserted(s, v)[..k] == Inserted(s[..n], v);
    } else {
      InsertedKept(s[..n], v, k);
      assert Inserted(s, v)[..k] == Inserted(s[..n], v)[..k];
      assert s[..n][..k - 1] == s[..k - 1] && s[..n][..k] == s[..k];
    }
  }

  lemma KeptStep(samples: seq<real>, v: real, k: nat)
    requires k > 0
    ensures var s := Kept(samples, k);
            Kept(samples + [v], k) ==
              if |samples| < k then Inserted(s, v)
              else if v < s[k - 1] then Inserted(s[..k - 1], v)
              else s
  {
    SortedOk(samples);
    var s := Sorted(samples);
    assert (samples + [v])[..|samples|] == samples;
    if |samples| < k {
      assert s[..|samples|] == s;
    } else {
      InsertedKept(s, v, k);
      assert s[..k][..k - 1] == s[..k - 1];
    }
  }

  class BestSamples {
    const kbest: nat
    const values: array<real>
    var samplecount: nat
    ghost var samples: seq<real>

    /** The array starts with the kept samples. */
    ghost predicate Valid()
      reads this, values
    {
      && kbest > 0 && values.Length == kbest && samplecount == |samples|
      && values[..Min(kbest, samplecount)] == Kept(samples, kbest)
    }

    /** init_sampler */
    constructor (kbest: nat)
      requires kbest > 0
      ensures Valid() && samples == [] && this.kbest == kbest && fresh(values)
    {
      this.kbest := kbest;
      values := new real[kbest](i => 0.0);
      samplecount := 0;
      samples := [];
    }

    /** The insertion loop of add_sample: the value at `pos0` sinks to its place. */
    method Sink(pos0: nat)
      requires pos0 < values.Length && Ascending(values[..pos0])
      modifies values
      ensures values[..pos0 + 1] == Inserted(old(values[..pos0]), old(values[pos0]))
      ensures forall i | pos0 < i < values.Length :: values[i] == old(values[i])
    {
      ghost var p, v := values[..pos0], values[pos0];
      var pos := pos0;
      while pos > 0 && values[pos - 1] > values[pos]
        invariant pos <= pos0 && values[pos] == v
        invariant forall i | 0 <= i < pos :: values[i] == p[i]
        invariant forall i | pos < i <= pos0 :: values[i] == p[i - 1]
        invariant forall i | pos <= i < pos0 :: p[i] > v
        invariant forall i | pos0 < i < values.Length :: values[i] == old(values[i])
      {
        var temp := values[pos - 1];
        values[pos - 1] := values[pos];
        values[pos] := temp;
        pos := pos - 1;
      }
      InsertedAt(p, v, pos);
      assert values[..pos0 + 1] == p[..pos] + [v] + p[pos..];
    }

    /** add_sample */
    method AddSample(val: real)
      requires Valid()
      modifies this, values
      ensures Valid() && samples == old(samples) + [val]
    {
      hide Inserted, Sorted, Kept;
      KeptStep(samples, val, kbest);
      KeptAreSmallest(samples, kbest);
      ghost var s := Kept(samples, kbest);
      var pos := 0;
      if samplecount < kbest {
        pos := samplecount;
        values[pos] := val;
      } else if val < values[kbest - 1] {
        pos := kbest - 1;
        values[pos] := val;
      }
      samplecount := samplecount + 1;
      samples := samples + [val];
      assert pos > 0 ==> values[..pos] == s[..pos];
      CutAscending(s, pos);
      ghost var before := values[..];
      InsertedNone(values[0]);
      Sink(pos);
      assert pos == 0 ==> values[..] == before;
    }

    /** has_converged */
    function Converged(epsilon: real): bool
      requires Valid()
      reads this, values
    {
      samplecount >= kbest && (1.0 + epsilon) * values[0] >= values[kbest - 1]
    }
  }

  function Taken(measure: nat -> real, n: nat): seq<real> {
    seq(n, i requires 0 <= i => measure(i))
  }

  /** The smallest of the first `n` measurements. */
  ghost predicate Least(measure: nat -> real, n: nat, x: real) {
    (exists i | 0 <= i < n :: measure(i) == x) && forall i | 0 <= i < n :: x <= measure(i)
  }

  /** These are indices below `n` of measurements that are at most `bound`. */
  ghost predicate Within(measure: nat -> real, n: nat, bound: real, s: set<nat>) {
    forall i | i in s :: i < n && measure(i) <= bound
  }

  /** There are `k` of the first `n` measurements that are at most `bound`. */
  ghost predicate AtMost(measure: nat -> real, n: nat, k: nat, bound: real) {
    exists s: set<nat> :: |s| == k && Within(measure, n, bound, s)
  }

  /** `kbest` of the first `n` measurements are within `epsilon` of the smallest. */
  ghost predicate ConvergedAt(measure: nat -> real, n: nat, kbest: nat, epsilon: real) {
    exists x :: Least(measure, n, x) && AtMost(measure, n, kbest, (1.0 + epsilon) * x)
  }

  /** fcyc, the i-th measurement being measure(i): it stops at the first sample count
      that has converged or reached `maxsamples`, and returns the smallest sample. */
  method Fcyc(measure: nat -> real, kbest: nat, maxsamples: int, epsilon: real) returns (result: real, n: nat)
    requires kbest > 0
    ensures 1 <= n && (n <= maxsamples || n == 1) && Least(measure, n, result)
    ensures n < maxsamples ==> AtMost(measure, n, kbest, (1.0 + epsilon) * result)
    ensures forall m | 1 <= m < n :: !ConvergedAt(measure, m, kbest, epsilon)
  {
    hide Kept, ConvergedAt, Least;
    var s := new BestSamples(kbest);
    s.AddSample(measure(0));
    n := 1;
    TakeMore(measure, 0);
    ConvergedIs(s, measure, 1, epsilon);
    while !s.Converged(epsilon) && s.samplecount < maxsamples
      invariant s.Valid() && fresh(s) && fresh(s.values) && s.kbest == kbest && 1 <= n == s.samplecount
      invariant s.samples == Taken(measure, n) && (n <= maxsamples || n == 1)
      invariant forall m | 1 <= m < n :: !ConvergedAt(measure, m, kbest, epsilon)
      invariant s.Converged(epsilon) == ConvergedAt(measure, n, kbest, epsilon)
      decreases maxsamples - n
    {
      s.AddSample(measure(n));
      TakeMore(measure, n);
      n := n + 1;
      ConvergedIs(s, measure, n, epsilon);
    }
    result := s.values[0];
    FirstKept(measure, n, kbest);
    assert result == s.values[..Min(kbest, n)][0];
    WithinLeast(measure, n, kbest, epsilon, result);
  }

  lemma TakeMore(measure: nat -> real, n: nat)
    ensures Taken(measure, 0) == [] && Taken(measure, n + 1) == Taken(measure, n) + [measure(n)]
  {
  }

  lemma LeastUnique(measure: nat -> real, n: nat, x: real, y: real)
    requires Least(measure, n, x) && Least(measure, n, y)
    ensures x == y
  {
    var i :| 0 <= i < n && measure(i) == x;
    var j :| 0 <= j < n && measure(j) == y;
  }

  lemma WithinLeast(measure: nat -> real, n: nat, kbest: nat, epsilon: real, x: real)
    requires Least(measure, n, x)
    ensures ConvergedAt(measure, n, kbest, epsilon) <==> AtMost(measure, n, kbest, (1.0 + epsilon) * x)
  {
    hide Least, AtMost;
    if ConvergedAt(measure, n, kbest, epsilon) {
      var y :| Least(measure, n, y) && AtMost(measure, n, kbest, (1.0 + epsilon) * y);
      LeastUnique(measure, n, x, y);
      assert (1.0 + epsilon) * x == (1.0 + epsilon) * y;
    }
  }

  /** has_converged compares the first and the last of the kept samples. */
  lemma ConvergedIs(s: BestSamples, measure: nat -> real, n: nat, epsilon: real)
    requires s.Valid() && s.samples == Taken(measure, n) && n > 0
    ensures s.Converged(epsilon) == ConvergedAt(measure, n, s.kbest, epsilon)
  {
    hide Kept, ConvergedAt, Least;
    FirstKept(measure, n, s.kbest);
    var kept := Kept(Taken(measure, n), s.kbest);
    WithinLeast(measure, n, s.kbest, epsilon, kept[0]);
    assert s.values[..Min(s.kbest, n)][0] == s.values[0];
    assert (1.0 + epsilon) * kept[0] == (1.0 + epsilon) * s.values[0];
    KeptAtMost(measure, n, s.kbest, (1.0 + epsilon) * kept[0]);
    if n >= s.kbest {
      assert s.values[..s.kbest][s.kbest - 1] == s.values[s.kbest - 1];
    }
  }

  /** The first kept value is the minimum. */
  lemma FirstKept(measure: nat -> real, n: nat, kbest: nat)
    requires n > 0 && kbest > 0
    ensures var s := Kept(Taken(measure, n), kbest);
            |s| == Min(kbest, n) && Least(measure, n, s[0])
  {
    hide Sorted;
    var all := Taken(measure, n);
    SortedOk(all);
    var r := Sorted(all);
    InBoth(r, all, r[0]);
    assert r[0] in r && r[0] in all;
    var k :| 0 <= k < n && all[k] == r[0];
    assert measure(k) == r[0];
    forall i | 0 <= i < n
      ensures r[0] <= measure(i)
    {
      InBoth(r, all, all[i]);
      var j :| 0 <= j < n && r[j] == all[i];
    }
  }

  /** How many values are at most `bound`. */
  function CountAtMost(s: seq<real>, bound: real): nat {
    if s == [] then 0 else CountAtMost(s[..|s| - 1], bound) + if s[|s| - 1] <= bound then 1 else 0
  }

  lemma {:induction false} CountInserted(s: seq<real>, v: real, bound: real)
    ensures CountAtMost(Inserted(s, v), bound) == CountAtMost(s, bound) + if v <= bound then 1 else 0
  {
    var r := Inserted(s, v);
    if s == [] || s[|s| - 1] <= v {
      assert r[..|s|] == s;
    } else {
      CountInserted(s[..|s| - 1], v, bound);
      assert r[..|s|] == Inserted(s[..|s| - 1], v);
    }
  }

  lemma {:induction false} CountSorted(samples: seq<real>, bound: real)
    ensures CountAtMost(Sorted(samples), bound) == CountAtMost(samples, bound)
  {
    if samples != [] {
      var n := |samples| - 1;
      CountSorted(samples[..n], bound);
      CountInserted(Sorted(samples[..n]), samples[n], bound);
    }
  }

  /** In ascending order the k-th value tells whether `k` values are at most `bound`. */
  lemma {:induction false} CountAscending(s: seq<real>, k: nat, bound: real)
    requires Ascending(s) && 0 < k
    ensures CountAtMost(s, bound) <= |s|
    ensures CountAtMost(s, bound) >= k <==> k <= |s| && s[k - 1] <= bound
    decreases |s|
  {
    if s != [] {
      var n := |s| - 1;
      CountAscending(s[..n], k, bound);
      if k == |s| {
        CountAll(s, bound);
      } else if k < |s| && s[n] <= bound {
        assert s[k - 1] <= s[n];
      }
    }
  }

  lemma {:induction false} CountAll(s: seq<real>, bound: real)
    requires Ascending(s) && s != []
    ensures CountAtMost(s, bound) <= |s| && (CountAtMost(s, bound) == |s| <==> s[|s| - 1] <= bound)
  {
    var n := |s| - 1;
    if n > 0 {
      CountAll(s[..n], bound);
      assert s[n - 1] <= s[n];
    }
  }

  lemma CountMore(s: seq<real>, v: real, bound: real)
    ensures CountAtMost([], bound) == 0
    ensures CountAtMost(s + [v], bound) == CountAtMost(s, bound) + if v <= bound then 1 else 0
  {
    assert (s + [v])[..|s|] == s;
  }

  /** The indices of the measurements that are at most `bound`. */
  lemma {:induction false} CountIndices(measure: nat -> real, n: nat, bound: real) returns (s: set<nat>)
    ensures |s| == CountAtMost(Taken(measure, n), bound)
    ensures forall i: nat :: i in s <==> i < n && measure(i) <= bound
  {
    hide Taken, CountAtMost;
    CountMore([], 0.0, bound);
    if n == 0 {
      TakeMore(measure, 0);
      s := {};
    } else {
      s := CountIndices(measure, n - 1, bound);
      TakeMore(measure, n - 1);
      CountMore(Taken(measure, n - 1), measure(n - 1), bound);
      if measure(n - 1) <= bound {
        assert n - 1 !in s;
        s := s + {n - 1};
      }
    }
  }

  lemma {:induction false} SubsetOfSize(s: set<nat>, k: nat) returns (t: set<nat>)
    requires k <= |s|
    ensures t <= s && |t| == k
  {
    if k == |s| {
      t := s;
    } else {
      var x :| x in s;
      t := SubsetOfSize(s - {x}, k);
    }
  }

  /** The last kept value is at most `bound` exactly when so many measurements are. */
  lemma KeptAtMost(measure: nat -> real, n: nat, k: nat, bound: real)
    requires 0 < k
    ensures AtMost(measure, n, k, bound) <==> k <= n && Kept(Taken(measure, n), k)[k - 1] <= bound
  {
    hide Sorted;
    var all := Taken(measure, n);
    SortedOk(all);
    CountSorted(all, bound);
    CountAscending(Sorted(all), k, bound);
    var s := CountIndices(measure, n, bound);
    if AtMost(measure, n, k, bound) {
      var t: set<nat> :| |t| == k && Within(measure, n, bound, t);
      SubsetSize(t, s);
    }
    if k <= |s| {
      var t := SubsetOfSize(s, k);
      assert Within(measure, n, bound, t);
    }
  }

  lemma InBoth(r: seq<real>, s: seq<real>, x: real)
    requires multiset(r) == multiset(s)
    ensures x in r <==> x in s
  {
    assert x in r <==> x in multiset(r);
    assert x in s <==> x in multiset(s);
  }
}
