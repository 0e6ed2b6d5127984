/** One set of the cache simulated by mps/04/csim.c. */
module CacheSet {
  import opened Wrappers

  datatype Line = Line(valid: bool, count: int, tag: int)

  type Lines = seq<Line>

  datatype Event = Hit | Fill | Evict

  const EMPTY := Line(false, 0, 0)

  /** The first valid line with this tag, or |s|. */
  function Find(s: Lines, tag: int): (i: nat)
    ensures i <= |s| && (i < |s| ==> s[i].valid && s[i].tag == tag)
    ensures forall j | 0 <= j < i :: !(s[j].valid && s[j].tag == tag)
  {
    if s == [] || (s[0].valid && s[0].tag == tag) then 0 else 1 + Find(s[1..], tag)
  }

  /** The first line that is not valid, or |s|. */
  function FirstEmpty(s: Lines): (i: nat)
    ensures i <= |s| && (i < |s| ==> !s[i].valid)
    ensures forall j | 0 <= j < i :: s[j].valid
  {
    if s == [] || !s[0].valid then 0 else 1 + FirstEmpty(s[1..])
  }

  /** The first line with the smallest access count. */
  function MinIndex(s: Lines): (i: nat)
    requires s != []
    ensures i < |s| && (forall j | 0 <= j < |s| :: s[i].count <= s[j].count)
    ensures forall j | 0 <= j < i :: s[i].count < s[j].count
  {
    var n := |s| - 1;
    if n == 0 then 0
    else
      var i := MinIndex(s[..n]);
      assert s[..n][i] == s[i];
      if s[i].count > s[n].count then
        assert forall j | 0 <= j < n :: s[n].count < s[..n][j].count;
        n
      else
        assert forall j | 0 <= j < n :: s[i].count <= s[..n][j].count;
        i
  }

  function MaxCount(s: Lines): (m: int)
    requires s != []
    ensures forall j | 0 <= j < |s| :: s[j].count <= m
    ensures exists j | 0 <= j < |s| :: s[j].count == m
  {
    var n := |s| - 1;
    if n == 0 then s[0].count
    else
      var m := MaxCount(s[..n]);
      if m < s[n].count then s[n].count else m
  }

  /** What an access does to its set: a hit counts up; a miss takes the first empty
      line, or the first of the least counted ones when there is none. */
  function Access(s: Lines, tag: int): (Lines, Event) {
    var i := Find(s, tag);
    if s == [] then (s, Fill)
    else if i < |s| then (s[i := s[i].(count := s[i].count + 1)], Hit)
    else
      var line := Line(true, MaxCount(s) + 1, tag);
      if FirstEmpty(s) < |s| then (s[FirstEmpty(s) := line], Fill)
      else (s[MinIndex(s) := line], Evict)
  }

  ghost predicate DistinctTags(s: Lines) {
    forall i, j | 0 <= i < j < |s| && s[i].valid && s[j].valid :: s[i].tag != s[j].tag
  }

  lemma AccessKeepsDistinct(s: Lines, tag: int)
    requires DistinctTags(s)
    ensures DistinctTags(Access(s, tag).0)
  {
  }

  /** s' is s but for line `k`. */
  ghost predicate OnlyLine(s: Lines, s': Lines, k: nat) {
    k < |s| == |s'| && forall j | 0 <= j < |s| && j != k :: s'[j] == s[j]
  }

  /** An access hits if and only if a valid line has the tag, and then the first such
      line counts up by 1. */
  lemma HitLine(s: Lines, tag: int) returns (k: nat)
    requires s != []
    ensures var (s', e) := Access(s, tag);
            && (e == Hit <==> exists j | 0 <= j < |s| :: s[j].valid && s[j].tag == tag)
            && (e == Hit ==>
                  && OnlyLine(s, s', k) && s[k].valid && s[k].tag == tag && s'[k] == Line(true, s[k].count + 1, tag)
                  && forall j | 0 <= j < k :: !(s[j].valid && s[j].tag == tag))
  {
    k := Find(s, tag);
  }

  /** A miss fills the first line that is not valid, if there is one; otherwise it evicts
      the first whose count is no larger than any other's.  The new line's count is one
      above the largest. */
  lemma MissLine(s: Lines, tag: int) returns (k: nat)
    requires s != [] && Access(s, tag).1 != Hit
    ensures var (s', e) := Access(s, tag);
            && OnlyLine(s, s', k) && s'[k].valid && s'[k].tag == tag
            && (forall j | 0 <= j < |s| :: s[j].count < s'[k].count)
            && (exists j | 0 <= j < |s| :: s[j].count + 1 == s'[k].count)
            && (e == Fill <==> exists j | 0 <= j < |s| :: !s[j].valid)
            && (e == Fill ==> !s[k].valid && forall j | 0 <= j < k :: s[j].valid)
            && (e == Evict ==>
                  && (forall j | 0 <= j < |s| :: s[k].count <= s[j].count)
                  && (forall j | 0 <= j < k :: s[k].count < s[j].count))
  {
    k := if FirstEmpty(s) < |s| then FirstEmpty(s) else MinIndex(s);
  }

  function CountValid(s: Lines): nat {
    if s == [] then 0 else (if s[0].valid then 1 else 0) + CountValid(s[1..])
  }

  lemma {:induction false} CountValidUpdate(s: Lines, i: nat, l: Line)
    requires i < |s| && l.valid
    ensures CountValid(s[i := l]) == CountValid(s) + if s[i].valid then 0 else 1
  {
    if i > 0 {
      assert s[i := l][1..] == s[1..][i - 1 := l];
      CountValidUpdate(s[1..], i - 1, l);
    } else {
      assert s[i := l][1..] == s[1..];
    }
  }

  /** Only a fill makes one more line valid. */
  lemma AccessCounts(s: Lines, tag: int)
    requires s != []
    ensures var (s', e) := Access(s, tag);
            CountValid(s') == CountValid(s) + if e == Fill then 1 else 0
  {
    hide CountValid, MaxCount;
    var i := Find(s, tag);
    if i < |s| {
      CountValidUpdate(s, i, s[i].(count := s[i].count + 1));
    } else if FirstEmpty(s) < |s| {
      CountValidUpdate(s, FirstEmpty(s), Line(true, MaxCount(s) + 1, tag));
    } else {
      CountValidUpdate(s, MinIndex(s), Line(true, MaxCount(s) + 1, tag));
    }
  }

  /** An access that follows one with the same tag hits. */
  lemma SecondAccessHits(s: Lines, tag: int)
    requires s != []
    ensures Access(Access(s, tag).0, tag).1 == Hit
  {
    var s' := Access(s, tag).0;
    var i := Find(s, tag);
    var k := if i < |s| then i else if FirstEmpty(s) < |s| then FirstEmpty(s) else MinIndex(s);
    assert s'[k].valid && s'[k].tag == tag;
  }

  // --------------------------------------------------------------- histories

  /** A set of `n` lines after accesses with these tags. */
  function After(n: nat, h: seq<int>): (s: Lines)
    ensures |s| == n
  {
    if h == [] then seq(n, i => EMPTY)
    else
      var s := After(n, h[..|h| - 1]);
      Access(s, h[|h| - 1]).0
  }

  /** The outcome of the last access. */
  function Last(n: nat, h: seq<int>): Event
    requires h != []
  {
    Access(After(n, h[..|h| - 1]), h[|h| - 1]).1
  }

  function EventCount(n: nat, h: seq<int>, e: Event): nat {
    if h == [] then 0 else EventCount(n, h[..|h| - 1], e) + if Last(n, h) == e then 1 else 0
  }

  lemma {:induction false} AfterDistinct(n: nat, h: seq<int>)
    ensures DistinctTags(After(n, h))
  {
    if h != [] {
      AfterDistinct(n, h[..|h| - 1]);
      AccessKeepsDistinct(After(n, h[..|h| - 1]), h[|h| - 1]);
    }
  }

  ghost function TagsOf(s: Lines): set<int> {
    set i | 0 <= i < |s| && s[i].valid :: s[i].tag
  }

  ghost function Seen(h: seq<int>): set<int> {
    set t | t in h
  }

  /** A full set of lines with distinct tags has as many tags as lines. */
  lemma {:induction false} FullTags(s: Lines)
    requires DistinctTags(s) && forall i | 0 <= i < |s| :: s[i].valid
    ensures |TagsOf(s)| == |s|
  {
    if s == [] {
      assert TagsOf(s) == {};
    } else {
      var r := s[..|s| - 1];
      FullTags(r);
      var t := s[|s| - 1].tag;
      assert TagsOf(s) == TagsOf(r) + {t} by {
        forall x | x in TagsOf(s) ensures x in TagsOf(r) + {t} {
          var i :| 0 <= i < |s| && s[i].tag == x;
          assert i < |r| ==> r[i] == s[i];
        }
        forall x | x in TagsOf(r) ensures x in TagsOf(s) {
          var i :| 0 <= i < |r| && r[i].tag == x;
          assert s[i] == r[i];
        }
        assert s[|s| - 1].valid;
      }
      assert t !in TagsOf(r);
    }
  }

  /** A set that receives no more distinct tags than it has lines never evicts, and
      misses once for each of them. */
  lemma {:induction false} FewTagsNeverEvict(n: nat, h: seq<int>)
    requires |Seen(h)| <= n && n > 0
    ensures EventCount(n, h, Evict) == 0 && EventCount(n, h, Fill) == |Seen(h)| && TagsOf(After(n, h)) == Seen(h)
  {
    if h == [] {
      assert TagsOf(After(n, h)) == {} == Seen(h);
    } else {
      var g, t := h[..|h| - 1], h[|h| - 1];
      assert Seen(h) == Seen(g) + {t} by { assert h == g + [t]; }
      SubsetSize(Seen(g), Seen(h));
      FewTagsNeverEvict(n, g);
      AfterDistinct(n, g);
      LastOfFew(n, After(n, g), t, Seen(g));
    }
  }

  lemma LastOfFew(n: nat, s: Lines, t: int, seen: set<int>)
    requires |s| == n > 0 && DistinctTags(s) && TagsOf(s) == seen && |seen + {t}| <= n
    ensures var (s', e) := Access(s, t);
            && e == (if t in seen then Hit else Fill) && TagsOf(s') == seen + {t}
            && |seen + {t}| == |seen| + if t in seen then 0 else 1
  {
    hide MaxCount, MinIndex;
    var i := Find(s, t);
    assert t in seen <==> i < n by {
      if t in seen { var k :| 0 <= k < n && s[k].valid && s[k].tag == t; }
      if i < n { assert s[i].tag in TagsOf(s); }
    }
    if t !in seen && FirstEmpty(s) == n {
      FullTags(s);
      assert false;
    }
    assert t in seen ==> seen + {t} == seen;
    TagsAfter(s, t, if i < n then i else FirstEmpty(s), Access(s, t).0);
  }

  lemma TagsAfter(s: Lines, t: int, i: nat, s': Lines)
    requires i < |s| == |s'| && s'[i].valid && s'[i].tag == t && (!s[i].valid || s[i].tag == t)
    requires forall k | 0 <= k < |s| && k != i :: s'[k] == s[k]
    ensures TagsOf(s') == TagsOf(s) + {t}
  {
    forall x | x in TagsOf(s) + {t}
      ensures x in TagsOf(s')
    {
      if x in TagsOf(s) {
        var k :| 0 <= k < |s| && s[k].valid && s[k].tag == x;
        assert s'[k].valid && s'[k].tag == x;
      }
    }
    forall x | x in TagsOf(s')
      ensures x in TagsOf(s) + {t}
    {
      var k :| 0 <= k < |s| && s'[k].valid && s'[k].tag == x;
      assert k != i ==> s[k].valid && s[k].tag == x;
    }
  }

  /** With one line a set, an access hits exactly when the latest earlier access to
      the set had the same tag. */
  lemma DirectMapped(h: seq<int>)
    requires h != []
    ensures Last(1, h) == Hit <==> |h| > 1 && h[|h| - 2] == h[|h| - 1]
    ensures Last(1, h) == Fill <==> |h| == 1
  {
    HoldsLast(h[..|h| - 1]);
  }

  lemma HoldsLast(h: seq<int>)
    ensures var s := After(1, h);
            s[0].valid == (h != []) && (h != [] ==> s[0].tag == h[|h| - 1])
  {
  }

  // ---------------------------------------------------------------- eviction

  /** When the tag was last accessed, or -1. */
  function LastUse(h: seq<int>, tag: int): int {
    if h == [] then -1 else if h[|h| - 1] == tag then |h| - 1 else LastUse(h[..|h| - 1], tag)
  }

  /** If the last access evicts, the line that changes was the least recently used one. */
  ghost predicate EvictsOldest(n: nat, h: seq<int>) {
    h != [] && n > 0 && Last(n, h) == Evict ==>
      var g := h[..|h| - 1];
      var s, s' := After(n, g), After(n, h);
      forall k, j | 0 <= k < n && 0 <= j < n && s'[k] != s[k] :: LastUse(g, s[k].tag) <= LastUse(g, s[j].tag)
  }

  function Count(k: nat): seq<int> {
    seq(k, i => i)
  }

  /** `k` different tags fill the first `k` lines, counted up from 1. */
  lemma {:induction false} AfterCount(n: nat, k: nat)
    requires k <= n
    ensures After(n, Count(k)) == seq(n, i requires 0 <= i < n => if i < k then Line(true, i + 1, i) else EMPTY)
  {
    var want := seq(n, i requires 0 <= i < n => if i < k then Line(true, i + 1, i) else EMPTY);
    if k == 0 {
      assert After(n, Count(0)) == want;
    } else {
      AfterCount(n, k - 1);
      assert Count(k)[..k - 1] == Count(k - 1);
      var s := After(n, Count(k - 1));
      FillsNext(s, n, k - 1);
      assert s[k - 1 := Line(true, k, k - 1)] == want;
    }
  }

  lemma FillsNext(s: Lines, n: nat, k: nat)
    requires k < n == |s| && forall i | 0 <= i < n :: s[i] == if i < k then Line(true, i + 1, i) else EMPTY
    ensures Access(s, k) == (s[k := Line(true, k + 1, k)], Fill)
  {
    assert Find(s, k) == n;
    assert s[k] == EMPTY && FirstEmpty(s) == k;
    if k > 0 { assert s[k - 1].count == k; }
    assert MaxCount(s) == k;
  }

  /** The comment of csim.c calls its policy LRU.  It is, for all access sequences,
      exactly when a set has one line: with more, fill the set, access the first line
      again, and the next miss evicts that line. */
  lemma OldestIffOneLine(n: nat)
    requires n > 0
    ensures (forall h :: EvictsOldest(n, h)) <==> n == 1
  {
    hide MinIndex, Access, LastUse;
    if n > 1 {
      var g := Count(n) + [0];
      assert g[..n] == Count(n) && (g + [n])[..n + 1] == g;
      AfterCount(n, n);
      var s := After(n, Count(n));
      EvictsNewest(s, n);
      assert s[1].tag == 1 && After(n, g) == Access(s, 0).0;
      LastUseOf(n, 1);
      assert After(n, g + [n])[0] != After(n, g)[0];
      assert !EvictsOldest(n, g + [n]);
    }
  }

  lemma EvictsNewest(s: Lines, n: nat)
    requires n > 1 && |s| == n && forall i | 0 <= i < n :: s[i] == Line(true, i + 1, i)
    ensures var s' := Access(s, 0).0;
            && |s'| == n && Access(s', n).1 == Evict && s'[0].tag == 0 && s'[1].tag == 1
            && Access(s', n).0[0].tag == n
  {
    hide MaxCount;
    var s' := Access(s, 0).0;
    assert Find(s, 0) == 0 && s' == s[0 := Line(true, 2, 0)];
    assert s'[0].count == 2 && s'[1].count == 2;
    assert MinIndex(s') == 0;
    assert Find(s', n) == n && FirstEmpty(s') == n;
  }

  lemma LastUseOf(n: nat, t: nat)
    requires 0 < t < n
    ensures LastUse(Count(n) + [0], t) < n == LastUse(Count(n) + [0], 0)
  {
    LastUseBound(Count(n), t);
    assert (Count(n) + [0])[..n] == Count(n);
  }

  lemma {:induction false} LastUseBound(h: seq<int>, t: int)
    ensures LastUse(h, t) < |h|
  {
    if h != [] {
      LastUseBound(h[..|h| - 1], t);
    }
  }
}
