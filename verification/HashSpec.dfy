/** The chained hash table of mps/02/hashtable.c as chains of entries: what each
    operation does to the map it stands for, and to the strings and values that
    callers have handed over. */
module HashSpec {
  import opened Wrappers

  /** A C string: where it is stored, and its text. */
  datatype Str = Str(addr: int, text: string)

  datatype Entry = Entry(key: Str, val: int)

  type Chain = seq<Entry>

  type Table = seq<Chain>

  /** The first entry with this key, or |c|. */
  function Find(c: Chain, key: string): (i: nat)
    ensures i <= |c| && (i < |c| ==> c[i].key.text == key)
    ensures forall j | 0 <= j < i :: c[j].key.text != key
  {
    if c == [] || c[0].key.text == key then 0 else 1 + Find(c[1..], key)
  }

  /** `hash(key) % ht->size` */
  function Index(hash: string -> nat, size: nat, key: string): (i: nat)
    requires size > 0
    ensures i < size
  {
    hash(key) % size
  }

  // --------------------------------------------------------------- operations

  function PutChain(c: Chain, key: Str, val: int): Chain {
    var i := Find(c, key.text);
    if i < |c| then c[i := Entry(c[i].key, val)] else [Entry(key, val)] + c
  }

  /** What ht_put frees: when it replaces, the old value and the new key string. */
  function PutFrees(c: Chain, key: Str): seq<int> {
    var i := Find(c, key.text);
    if i < |c| then [c[i].val, key.addr] else []
  }

  function DelChain(c: Chain, key: string): Chain {
    var i := Find(c, key);
    if i < |c| then c[..i] + c[i + 1..] else c
  }

  function DelFrees(c: Chain, key: string): seq<int> {
    var i := Find(c, key);
    if i < |c| then [c[i].key.addr, c[i].val] else []
  }

  function Put(hash: string -> nat, t: Table, key: Str, val: int): Table
    requires |t| > 0
  {
    var i := Index(hash, |t|, key.text);
    t[i := PutChain(t[i], key, val)]
  }

  function Get(hash: string -> nat, t: Table, key: string): Option<int>
    requires |t| > 0
  {
    var c := t[Index(hash, |t|, key)];
    if Find(c, key) < |c| then Some(c[Find(c, key)].val) else None
  }

  function Del(hash: string -> nat, t: Table, key: string): Table
    requires |t| > 0
  {
    var i := Index(hash, |t|, key);
    t[i := DelChain(t[i], key)]
  }

  function Empty(size: nat): Table {
    seq(size, i => [])
  }

  /** All entries, chain after chain. */
  function Flat<T>(t: seq<seq<T>>): seq<T> {
    if t == [] then [] else t[0] + Flat(t[1..])
  }

  function PutAll(hash: string -> nat, t: Table, es: Chain): (r: Table)
    requires |t| > 0
    ensures |r| == |t|
    decreases |es|
  {
    if es == [] then t else PutAll(hash, Put(hash, t, es[0].key, es[0].val), es[1..])
  }

  /** ht_rehash puts every entry into a table of the new size. */
  function Rehash(hash: string -> nat, t: Table, newsize: nat): Table
    requires newsize > 0
  {
    PutAll(hash, Empty(newsize), Flat(t))
  }

  // --------------------------------------------------------------- invariant

  ghost predicate DistinctKeys(c: Chain) {
    forall i, j | 0 <= i < j < |c| :: c[i].key.text != c[j].key.text
  }

  ghost predicate Placed(hash: string -> nat, c: Chain, size: nat, b: nat)
    requires size > 0
  {
    forall i | 0 <= i < |c| :: Index(hash, size, c[i].key.text) == b
  }

  /** Every key is in the bucket of its hash, once. */
  ghost predicate WellFormed(hash: string -> nat, t: Table) {
    |t| > 0 && forall b | 0 <= b < |t| :: DistinctKeys(t[b]) && Placed(hash, t[b], |t|, b)
  }

  /** The table stands for this map. */
  ghost predicate Stands(hash: string -> nat, t: Table, m: map<string, int>)
    requires |t| > 0
  {
    forall k :: Get(hash, t, k) == if k in m then Some(m[k]) else None
  }

  lemma FindAfterPut(c: Chain, key: Str, val: int, k: string)
    ensures var d := PutChain(c, key, val);
            if k == key.text then Find(d, k) < |d| && d[Find(d, k)].val == val
            else
              && (Find(d, k) < |d| <==> Find(c, k) < |c|)
              && (Find(c, k) < |c| ==> d[Find(d, k)].val == c[Find(c, k)].val)
  {
    var d := PutChain(c, key, val);
    var i := Find(c, key.text);
    if i < |c| {
      assert forall j | 0 <= j < |c| :: d[j].key.text == c[j].key.text;
      SameFind(c, d, k);
    } else {
      assert d[1..] == c;
    }
  }

  lemma {:induction false} SameFind(c: Chain, d: Chain, k: string)
    requires |c| == |d| && forall j | 0 <= j < |c| :: d[j].key.text == c[j].key.text
    ensures Find(c, k) == Find(d, k)
  {
    if c != [] && c[0].key.text != k {
      SameFind(c[1..], d[1..], k);
    }
  }

  lemma PutChainOk(hash: string -> nat, c: Chain, key: Str, val: int, size: nat)
    requires size > 0 && DistinctKeys(c) && Placed(hash, c, size, Index(hash, size, key.text))
    ensures var d := PutChain(c, key, val);
            DistinctKeys(d) && Placed(hash, d, size, Index(hash, size, key.text))
  {
  }

  /** ht_put updates the map. */
  lemma PutStands(hash: string -> nat, t: Table, key: Str, val: int, m: map<string, int>)
    requires WellFormed(hash, t) && Stands(hash, t, m)
    ensures WellFormed(hash, Put(hash, t, key, val))
    ensures Stands(hash, Put(hash, t, key, val), m[key.text := val])
  {
    hide Index, PutChain, DistinctKeys, Placed;
    var b := Index(hash, |t|, key.text);
    PutChainOk(hash, t[b], key, val, |t|);
    var t' := Put(hash, t, key, val);
    forall k: string
      ensures Get(hash, t', k) == if k in m[key.text := val] then Some(m[key.text := val][k]) else None
    {
      FindAfterPut(t[b], key, val, k);
      assert Get(hash, t, k) == if k in m then Some(m[k]) else None;
    }
  }

  lemma DelChainFind(c: Chain, key: string, k: string)
    requires DistinctKeys(c)
    ensures var d := DelChain(c, key);
            DistinctKeys(d) && (forall e | e in d :: e in c)
            && if k == key then Find(d, k) == |d|
               else
                 && (Find(d, k) < |d| <==> Find(c, k) < |c|)
                 && (Find(c, k) < |c| ==> d[Find(d, k)].val == c[Find(c, k)].val)
  {
    hide DelChain;
    DelChainAt(c, key);
    var d := DelChain(c, key);
    var i, j := Find(c, key), Find(c, k);
    if i < |c| && k != key && j < |c| {
      assert d[if j < i then j else j - 1] == c[j];
    }
  }

  lemma DelChainAt(c: Chain, key: string)
    ensures var d := DelChain(c, key); var i := Find(c, key);
            if i < |c| then |d| == |c| - 1 && forall j | 0 <= j < |d| :: d[j] == c[if j < i then j else j + 1]
            else d == c
  {
  }

  /** ht_del removes the key from the map. */
  lemma DelStands(hash: string -> nat, t: Table, key: string, m: map<string, int>)
    requires WellFormed(hash, t) && Stands(hash, t, m)
    ensures WellFormed(hash, Del(hash, t, key))
    ensures Stands(hash, Del(hash, t, key), m - {key})
  {
    hide Index, DelChain, DistinctKeys;
    var b := Index(hash, |t|, key);
    var t' := Del(hash, t, key);
    DelChainFind(t[b], key, key);
    assert Placed(hash, t'[b], |t|, b) by {
      forall i | 0 <= i < |t'[b]| ensures Index(hash, |t|, t'[b][i].key.text) == b {
        assert t'[b][i] in t[b];
      }
    }
    forall k: string
      ensures Get(hash, t', k) == if k in m - {key} then Some((m - {key})[k]) else None
    {
      DelChainFind(t[b], key, k);
      assert Get(hash, t, k) == if k in m then Some(m[k]) else None;
    }
  }

  // ---------------------------------------------------------------- rehashing

  lemma {:induction false} FlatMembers(t: Table, e: Entry)
    ensures e in Flat(t) <==> exists b | 0 <= b < |t| :: e in t[b]
  {
    if t != [] {
      FlatMembers(t[1..], e);
      if e in Flat(t[1..]) {
        var b :| 0 <= b < |t[1..]| && e in t[1..][b];
        assert e in t[b + 1];
      }
      if exists b | 0 <= b < |t| :: e in t[b] {
        var b :| 0 <= b < |t| && e in t[b];
        assert b > 0 ==> e in t[1..][b - 1];
      }
    }
  }

  lemma {:induction false} FlatDistinct(t: Table)
    requires forall b | 0 <= b < |t| :: DistinctKeys(t[b])
    requires forall b, d, x, y | 0 <= b < d < |t| && x in t[b] && y in t[d] :: x.key.text != y.key.text
    ensures DistinctKeys(Flat(t))
  {
    if t != [] {
      FlatDistinct(t[1..]);
      forall i, j | 0 <= i < j < |Flat(t)|
        ensures Flat(t)[i].key.text != Flat(t)[j].key.text
      {
        if i < |t[0]| <= j {
          var y := Flat(t)[j];
          FlatMembers(t[1..], y);
          var d :| 0 <= d < |t[1..]| && y in t[1..][d];
          assert y in t[d + 1] && Flat(t)[i] in t[0];
        }
      }
    }
  }

  lemma TableDistinct(hash: string -> nat, t: Table)
    requires WellFormed(hash, t)
    ensures DistinctKeys(Flat(t))
  {
    hide DistinctKeys, Index;
    forall b, d, x, y | 0 <= b < d < |t| && x in t[b] && y in t[d]
      ensures x.key.text != y.key.text
    {
      assert Placed(hash, t[b], |t|, b) && Placed(hash, t[d], |t|, d);
    }
    FlatDistinct(t);
  }

  /** Looking up a key finds the entry that holds it. */
  lemma GetMember(hash: string -> nat, t: Table, e: Entry)
    requires WellFormed(hash, t) && e in Flat(t)
    ensures Get(hash, t, e.key.text) == Some(e.val)
  {
    hide Index;
    FlatMembers(t, e);
    var b :| 0 <= b < |t| && e in t[b];
    var i :| 0 <= i < |t[b]| && t[b][i] == e;
    assert Placed(hash, t[b], |t|, b) && DistinctKeys(t[b]);
    assert Find(t[b], e.key.text) == i;
  }

  lemma MemberGot(hash: string -> nat, t: Table, k: string)
    requires WellFormed(hash, t) && Get(hash, t, k).Some?
    ensures exists e :: e in Flat(t) && e.key.text == k
  {
    var b := Index(hash, |t|, k);
    var e := t[b][Find(t[b], k)];
    FlatMembers(t, e);
  }

  function Extended(m: map<string, int>, es: Chain): map<string, int>
    decreases |es|
  {
    if es == [] then m else Extended(m[es[0].key.text := es[0].val], es[1..])
  }

  function PutAllFrees(hash: string -> nat, t: Table, es: Chain): seq<int>
    requires |t| > 0
    decreases |es|
  {
    if es == [] then []
    else
      PutFrees(t[Index(hash, |t|, es[0].key.text)], es[0].key) +
          PutAllFrees(hash, Put(hash, t, es[0].key, es[0].val), es[1..])
  }

  /** Putting entries with new keys never takes the branch that replaces. */
  lemma {:induction false} PutAllStands(hash: string -> nat, t: Table, es: Chain, m: map<string, int>)
    requires WellFormed(hash, t) && Stands(hash, t, m) && DistinctKeys(es)
    requires forall i | 0 <= i < |es| :: es[i].key.text !in m
    ensures WellFormed(hash, PutAll(hash, t, es)) && Stands(hash, PutAll(hash, t, es), Extended(m, es))
    ensures PutAllFrees(hash, t, es) == []
    decreases |es|
  {
    hide WellFormed, Put, Index;
    if es != [] {
      var e := es[0];
      PutStands(hash, t, e.key, e.val, m);
      SizeKept(hash, t, e.key, e.val);
      assert Get(hash, t, e.key.text) == None;
      forall i | 0 <= i < |es[1..]|
        ensures es[1..][i].key.text !in m[e.key.text := e.val]
      {
        assert es[1..][i] == es[i + 1];
      }
      PutAllStands(hash, Put(hash, t, e.key, e.val), es[1..], m[e.key.text := e.val]);
    }
  }

  lemma SizeKept(hash: string -> nat, t: Table, key: Str, val: int)
    requires |t| > 0
    ensures |Put(hash, t, key, val)| == |t|
  {
  }

  lemma {:induction false} ExtendedAt(m: map<string, int>, es: Chain, k: string)
    requires DistinctKeys(es) && forall i | 0 <= i < |es| :: es[i].key.text !in m
    ensures k in Extended(m, es) <==> k in m || exists e :: e in es && e.key.text == k
    ensures k in m ==> Extended(m, es)[k] == m[k]
    ensures forall e | e in es && e.key.text == k :: Extended(m, es)[k] == e.val
    decreases |es|
  {
    if es != [] {
      var m' := m[es[0].key.text := es[0].val];
      ExtendedAt(m', es[1..], k);
      if k in Extended(m, es) && k !in m && k != es[0].key.text {
        var e :| e in es[1..] && e.key.text == k;
        assert e in es;
      }
    }
  }

  /** ht_rehash keeps the map, frees no key and no value, and places every entry in
      the bucket that its hash has in the new size. */
  lemma RehashStands(hash: string -> nat, t: Table, newsize: nat, m: map<string, int>)
    requires WellFormed(hash, t) && Stands(hash, t, m) && newsize > 0
    ensures WellFormed(hash, Rehash(hash, t, newsize)) && Stands(hash, Rehash(hash, t, newsize), m)
    ensures PutAllFrees(hash, Empty(newsize), Flat(t)) == []
  {
    hide WellFormed, Index, Get, PutAll, PutAllFrees, Flat, DistinctKeys, Extended;
    EmptyStands(hash, newsize);
    TableDistinct(hash, t);
    PutAllStands(hash, Empty(newsize), Flat(t), map[]);
    assert Extended(map[], Flat(t)) == m by { ExtendedIsMap(hash, t, m); }
  }

  lemma ExtendedIsMap(hash: string -> nat, t: Table, m: map<string, int>)
    requires WellFormed(hash, t) && Stands(hash, t, m) && DistinctKeys(Flat(t))
    ensures Extended(map[], Flat(t)) == m
  {
    hide Index, Flat, DistinctKeys, Extended, Get;
    var x := Extended(map[], Flat(t));
    forall k: string
      ensures (k in x <==> k in m) && (k in m ==> k in x && x[k] == m[k])
    {
      ExtendedAt(map[], Flat(t), k);
      assert Get(hash, t, k) == if k in m then Some(m[k]) else None;
      if k in m { MemberGot(hash, t, k); }
      if k in x || k in m {
        var e :| e in Flat(t) && e.key.text == k;
        GetMember(hash, t, e);
      }
    }
  }

  lemma EmptyStands(hash: string -> nat, size: nat)
    requires size > 0
    ensures WellFormed(hash, Empty(size)) && Stands(hash, Empty(size), map[]) && |Empty(size)| == size
  {
  }

  // ------------------------------------------------------------ conservation

  /** The key strings and values of a chain, as free_hashtable frees them. */
  function Addrs(c: Chain): seq<int> {
    if c == [] then [] else [c[0].key.addr, c[0].val] + Addrs(c[1..])
  }

  /** How often `x` is in `s`. */
  function Times(s: seq<int>, x: int): nat {
    if s == [] then 0 else (if s[0] == x then 1 else 0) + Times(s[1..], x)
  }

  /** How often a chain owns the string or value at `x`. */
  function Owns(c: Chain, x: int): nat {
    Times(Addrs(c), x)
  }

  lemma {:induction false} TimesPlus(s: seq<int>, r: seq<int>, x: int)
    ensures Times(s + r, x) == Times(s, x) + Times(r, x)
  {
    if s == [] {
      assert s + r == r;
    } else {
      TimesPlus(s[1..], r, x);
      assert (s + r)[1..] == s[1..] + r;
    }
  }

  lemma TimesPair(a: int, b: int, x: int)
    ensures Times([a, b], x) == (if a == x then 1 else 0) + if b == x then 1 else 0
  {
    assert [a, b][1..] == [b] && [b][1..] == [];
    assert Times([b], x) == if b == x then 1 else 0;
  }

  lemma {:induction false} AddrsPlus(c: Chain, d: Chain)
    ensures Addrs(c + d) == Addrs(c) + Addrs(d)
  {
    if c == [] {
      assert c + d == d;
    } else {
      AddrsPlus(c[1..], d);
      assert (c + d)[1..] == c[1..] + d;
    }
  }

  lemma OwnsPlus(c: Chain, d: Chain, x: int)
    ensures Owns(c + d, x) == Owns(c, x) + Owns(d, x)
  {
    AddrsPlus(c, d);
    TimesPlus(Addrs(c), Addrs(d), x);
  }

  lemma OwnsOne(e: Entry, c: Chain, x: int)
    ensures Owns([e] + c, x) == Times([e.key.addr, e.val], x) + Owns(c, x)
  {
    TimesPlus([e.key.addr, e.val], Addrs(c), x);
    assert ([e] + c)[1..] == c;
  }

  lemma OwnsSplit(c: Chain, i: nat, x: int)
    requires i < |c|
    ensures Owns(c, x) == Owns(c[..i], x) + Times([c[i].key.addr, c[i].val], x) + Owns(c[i + 1..], x)
  {
    hide Owns, Times;
    assert c == c[..i] + ([c[i]] + c[i + 1..]);
    OwnsPlus(c[..i], [c[i]] + c[i + 1..], x);
    OwnsOne(c[i], c[i + 1..], x);
  }

  lemma PutChainOwns(c: Chain, key: Str, val: int, x: int)
    ensures Owns(PutChain(c, key, val), x) + Times(PutFrees(c, key), x) == Owns(c, x) + Times([key.addr, val], x)
  {
    hide Owns, Find;
    var d := PutChain(c, key, val);
    var i := Find(c, key.text);
    if i < |c| {
      OwnsSplit(c, i, x);
      OwnsSplit(d, i, x);
      assert d[..i] == c[..i] && d[i + 1..] == c[i + 1..];
      TimesPair(c[i].val, key.addr, x);
      TimesPair(key.addr, val, x);
      TimesPair(c[i].key.addr, val, x);
      TimesPair(c[i].key.addr, c[i].val, x);
    } else {
      OwnsOne(Entry(key, val), c, x);
    }
  }

  lemma DelChainOwns(c: Chain, key: string, x: int)
    ensures Owns(DelChain(c, key), x) + Times(DelFrees(c, key), x) == Owns(c, x)
  {
    hide Owns, Find;
    var i := Find(c, key);
    if i < |c| {
      OwnsSplit(c, i, x);
      OwnsPlus(c[..i], c[i + 1..], x);
    }
  }

  lemma {:induction false} OwnsUpdate(t: Table, i: nat, c: Chain, x: int)
    requires i < |t|
    ensures Owns(Flat(t[i := c]), x) + Owns(t[i], x) == Owns(Flat(t), x) + Owns(c, x)
  {
    hide Owns;
    var u := t[i := c];
    OwnsPlus(u[0], Flat(u[1..]), x);
    OwnsPlus(t[0], Flat(t[1..]), x);
    if i == 0 {
      assert u[1..] == t[1..];
    } else {
      OwnsUpdate(t[1..], i - 1, c, x);
      assert u[1..] == t[1..][i - 1 := c];
    }
  }

  /** Nothing is lost and nothing freed twice: what ht_put is given, and what the
      table owned, is owned or freed afterwards, once. */
  lemma PutConserves(hash: string -> nat, t: Table, key: Str, val: int, x: int)
    requires |t| > 0
    ensures Owns(Flat(Put(hash, t, key, val)), x) + Times(PutFrees(t[Index(hash, |t|, key.text)], key), x)
            == Owns(Flat(t), x) + Times([key.addr, val], x)
  {
    hide Owns, Times, Flat, Index, PutChain, PutFrees;
    var i := Index(hash, |t|, key.text);
    PutChainOwns(t[i], key, val, x);
    OwnsUpdate(t, i, PutChain(t[i], key, val), x);
  }

  lemma DelConserves(hash: string -> nat, t: Table, key: string, x: int)
    requires |t| > 0
    ensures Owns(Flat(Del(hash, t, key)), x) + Times(DelFrees(t[Index(hash, |t|, key)], key), x) == Owns(Flat(t), x)
  {
    hide Owns, Times, Flat, Index, DelChain, DelFrees;
    var i := Index(hash, |t|, key);
    DelChainOwns(t[i], key, x);
    OwnsUpdate(t, i, DelChain(t[i], key), x);
  }

  lemma {:induction false} PutAllConserves(hash: string -> nat, t: Table, es: Chain, x: int)
    requires |t| > 0
    ensures Owns(Flat(PutAll(hash, t, es)), x) + Times(PutAllFrees(hash, t, es), x) == Owns(Flat(t), x) + Owns(es, x)
    decreases |es|
  {
    hide Owns, Times, Flat, Put, Index, PutFrees;
    if es == [] {
      OwnsNone(x);
    } else {
      var e := es[0];
      PutConserves(hash, t, e.key, e.val, x);
      SizeKept(hash, t, e.key, e.val);
      PutAllConserves(hash, Put(hash, t, e.key, e.val), es[1..], x);
      TimesPlus(PutFrees(t[Index(hash, |t|, e.key.text)], e.key),
          PutAllFrees(hash, Put(hash, t, e.key, e.val), es[1..]), x);
      OwnsOne(e, es[1..], x);
      assert es == [e] + es[1..];
    }
  }

  lemma OwnsNone(x: int)
    ensures Owns([], x) == 0 && Times([], x) == 0
  {
  }

  /** Rehashing keeps every key string and every value, each once. */
  lemma RehashConserves(hash: string -> nat, t: Table, newsize: nat, x: int)
    requires WellFormed(hash, t) && newsize > 0
    ensures Owns(Flat(Rehash(hash, t, newsize)), x) == Owns(Flat(t), x)
  {
    hide WellFormed, Index, PutAll, PutAllFrees, DistinctKeys, Extended, Owns, Times, Get;
    PutAllConserves(hash, Empty(newsize), Flat(t), x);
    EmptyStands(hash, newsize);
    TableDistinct(hash, t);
    PutAllStands(hash, Empty(newsize), Flat(t), map[]);
    FlatEmpty(newsize);
    OwnsNone(x);
  }

  lemma {:induction false} FlatEmpty(size: nat)
    ensures Flat(Empty(size)) == []
  {
    if size > 0 {
      FlatEmpty(size - 1);
      assert Empty(size)[1..] == Empty(size - 1);
    }
  }

  // -------------------------------------------------------------- whole runs

  datatype Op = PutOp(key: Str, val: int) | DelOp(name: string) | RehashOp(newsize: nat)

  /** The table and the addresses freed after some operations; None after a crash,
      which is ht_del on an empty bucket or a rehash to size 0. */
  function Ran(hash: string -> nat, t: Table, ops: seq<Op>): Option<(Table, seq<int>)>
    requires |t| > 0
  {
    if ops == [] then Some((t, []))
    else
      match Ran(hash, t, ops[..|ops| - 1])
      case None => None
      case Some((t1, f)) => if |t1| == 0 then None else Step(hash, t1, f, ops[|ops| - 1])
  }

  function Step(hash: string -> nat, t: Table, f: seq<int>, op: Op): Option<(Table, seq<int>)>
    requires |t| > 0
  {
    match op
    case PutOp(key, val) => Some((Put(hash, t, key, val), f + PutFrees(t[Index(hash, |t|, key.text)], key)))
    case DelOp(key) =>
      var c := t[Index(hash, |t|, key)];
      if c == [] then None else Some((Del(hash, t, key), f + DelFrees(c, key)))
    case RehashOp(n) =>
      if n == 0 then None else Some((Rehash(hash, t, n), f + PutAllFrees(hash, Empty(n), Flat(t))))
  }

  /** Every entry is in the bucket that the hash of its key, modulo the table size, says. */
  lemma KeysPlaced(hash: string -> nat, t: Table, b: nat, i: nat)
    requires WellFormed(hash, t) && b < |t| && i < |t[b]|
    ensures hash(t[b][i].key.text) % |t| == b
  {
    assert Placed(hash, t[b], |t|, b);
  }

  /** ht_del crashes exactly when no key of the map has the same remainder as the one to
      be deleted, so that its bucket is empty. */
  lemma DelCrashesIff(hash: string -> nat, t: Table, f: seq<int>, m: map<string, int>, key: string)
    requires WellFormed(hash, t) && Stands(hash, t, m)
    ensures Step(hash, t, f, DelOp(key)) == None <==> forall k | k in m :: hash(k) % |t| != hash(key) % |t|
  {
    var b := Index(hash, |t|, key);
    if t[b] != [] {
      var k := t[b][0].key.text;
      KeysPlaced(hash, t, b, 0);
      assert Get(hash, t, k).Some? && k in m;
    }
    forall k | k in m && hash(k) % |t| == hash(key) % |t|
      ensures t[b] != []
    {
      assert Get(hash, t, k) == Some(m[k]);
    }
  }

  function MapStep(m: map<string, int>, op: Op): map<string, int> {
    match op
    case PutOp(key, val) => m[key.text := val]
    case DelOp(key) => m - {key}
    case RehashOp(_) => m
  }

  function MapAfter(ops: seq<Op>): map<string, int> {
    if ops == [] then map[] else MapStep(MapAfter(ops[..|ops| - 1]), ops[|ops| - 1])
  }

  function GivenBy(op: Op): seq<int> {
    match op
    case PutOp(key, val) => [key.addr, val]
    case _ => []
  }

  /** The strings and values that the callers of ht_put have handed over. */
  function Given(ops: seq<Op>): seq<int> {
    if ops == [] then [] else Given(ops[..|ops| - 1]) + GivenBy(ops[|ops| - 1])
  }

  lemma StepStands(hash: string -> nat, t: Table, f: seq<int>, op: Op, m: map<string, int>)
    requires WellFormed(hash, t) && Stands(hash, t, m) && Step(hash, t, f, op).Some?
    ensures var t' := Step(hash, t, f, op).value.0;
            WellFormed(hash, t') && Stands(hash, t', MapStep(m, op))
  {
    hide Put, Del, Rehash, Get, Index, PutFrees, DelFrees, PutAllFrees, DistinctKeys;
    match op
    case PutOp(key, val) => PutStands(hash, t, key, val, m);
    case DelOp(key) => DelStands(hash, t, key, m);
    case RehashOp(n) => RehashStands(hash, t, n, m);
  }

  lemma StepConserves(hash: string -> nat, t: Table, f: seq<int>, op: Op, m: map<string, int>, x: int)
    requires WellFormed(hash, t) && Stands(hash, t, m) && Step(hash, t, f, op).Some?
    ensures var (t', f') := Step(hash, t, f, op).value;
            Owns(Flat(t'), x) + Times(f', x) ==
            Owns(Flat(t), x) + Times(f, x) + Times(GivenBy(op), x)
  {
    hide Put, Del, Rehash, Get, Index, PutFrees, DelFrees, PutAllFrees, DistinctKeys, Owns, Times, Flat, Stands;
    OwnsNone(x);
    match op
    case PutOp(key, val) =>
      PutConserves(hash, t, key, val, x);
      TimesPlus(f, PutFrees(t[Index(hash, |t|, key.text)], key), x);
    case DelOp(key) =>
      DelConserves(hash, t, key, x);
      TimesPlus(f, DelFrees(t[Index(hash, |t|, key)], key), x);
    case RehashOp(n) =>
      RehashConserves(hash, t, n, x);
      RehashStands(hash, t, n, m);
      assert f + [] == f;
  }

  /** Every run of ht_put, ht_del and ht_rehash on a new table leaves it standing for
      the map that the operations describe. */
  lemma {:induction false} RunStands(hash: string -> nat, size: nat, ops: seq<Op>)
    requires size > 0 && Ran(hash, Empty(size), ops).Some?
    ensures var t := Ran(hash, Empty(size), ops).value.0;
            WellFormed(hash, t) && Stands(hash, t, MapAfter(ops))
  {
    hide WellFormed, Stands, Step;
    EmptyStands(hash, size);
    if ops != [] {
      var before := ops[..|ops| - 1];
      RunStands(hash, size, before);
      var (t, f) := Ran(hash, Empty(size), before).value;
      WellFormedSize(hash, t);
      StepStands(hash, t, f, ops[|ops| - 1], MapAfter(before));
    }
  }

  lemma WellFormedSize(hash: string -> nat, t: Table)
    requires WellFormed(hash, t)
    ensures |t| > 0
  {
  }

  /** Over every run, what was handed over is owned by the table or was freed, as
      often as it was handed over; free_hashtable then frees the rest, so each string
      and each value is freed exactly once. */
  lemma RunConserves(hash: string -> nat, size: nat, ops: seq<Op>, x: int)
    requires size > 0 && Ran(hash, Empty(size), ops).Some?
    ensures var (t, f) := Ran(hash, Empty(size), ops).value;
            Times(f + Addrs(Flat(t)), x) == Times(Given(ops), x)
  {
    var (t, f) := Ran(hash, Empty(size), ops).value;
    TimesPlus(f, Addrs(Flat(t)), x);
    RunOwns(hash, size, ops, x);
  }

  lemma {:induction false} RunOwns(hash: string -> nat, size: nat, ops: seq<Op>, x: int)
    requires size > 0 && Ran(hash, Empty(size), ops).Some?
    ensures var (t, f) := Ran(hash, Empty(size), ops).value;
            Owns(Flat(t), x) + Times(f, x) == Times(Given(ops), x)
  {
    hide WellFormed, Stands, Step, Owns, Times, Flat;
    EmptyStands(hash, size);
    OwnsNone(x);
    if ops == [] {
      FlatEmpty(size);
    } else {
      var before, op := ops[..|ops| - 1], ops[|ops| - 1];
      RunOwns(hash, size, before, x);
      RunStands(hash, size, before);
      var (t, f) := Ran(hash, Empty(size), before).value;
      WellFormedSize(hash, t);
      StepConserves(hash, t, f, op, MapAfter(before), x);
      TimesPlus(Given(before), GivenBy(op), x);
    }
  }
}
