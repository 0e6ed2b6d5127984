/** The hash table of mps/02/hashtable.c: an array of linked chains. */
module HashTables {
  import opened Wrappers
  import opened LinkedLists
  import opened HashSpec

  type Bucket = Node<Entry>

  /** One element of the buckets array: the head of a chain. */
  type Slot = LinkedList<Entry>

  /** The search loop of ht_put and ht_get. */
  method Search(slot: Slot, key: string) returns (b: Node?<Entry>, ghost i: nat)
    requires slot.Valid()
    ensures b == slot.NodeAt(Find(slot.Contents(), key)) && i == Find(slot.Contents(), key)
  {
    hide Find;
    b, i := slot.head, 0;
    while b != null
      invariant i <= |slot.nodes| && b == slot.NodeAt(i)
      invariant forall k | 0 <= k < i :: slot.Contents()[k].key.text != key
      decreases |slot.nodes| - i
    {
      if b.value.key.text == key {
        FoundAt(slot.Contents(), key, i);
        return;
      }
      assert slot.Hop(i);
      b := b.next;
      i := i + 1;
    }
    FoundAt(slot.Contents(), key, i);
  }

  /** The loop of ht_del: the node before the one with the key, if it is not the head. */
  method SearchBefore(slot: Slot, key: string) returns (b: Node?<Entry>, ghost i: nat)
    requires slot.Valid() && slot.nodes != [] && slot.nodes[0].value.key.text != key
    ensures i == Find(slot.Contents(), key) && i > 0
    ensures var k := Find(slot.Contents(), key);
            b == if 0 < k < |slot.nodes| then slot.nodes[k - 1] else null
  {
    hide Find;
    b, i := slot.head, 1;
    assert slot.Hop(0);
    while b != null && b.next != null
      invariant 1 <= i <= |slot.nodes| && b == slot.nodes[i - 1] && b.next == slot.NodeAt(i)
      invariant forall k | 0 <= k < i :: slot.Contents()[k].key.text != key
      decreases |slot.nodes| - i
    {
      if b.next.value.key.text == key {
        FoundAt(slot.Contents(), key, i);
        return;
      }
      assert slot.Hop(i);
      b := b.next;
      i := i + 1;
    }
    FoundAt(slot.Contents(), key, i);
    b := null;
  }

  lemma FoundAt(c: Chain, key: string, i: nat)
    requires i <= |c| && (i < |c| ==> c[i].key.text == key) && forall k | 0 <= k < i :: c[k].key.text != key
    ensures Find(c, key) == i
  {
  }

  /** What is given to free: a key string or a value, a node, a bucket array, or the
      struct of a table. */
  datatype Freed = Cell(addr: int) | Chained(node: Bucket) | Slots(slots: array<Slot>) | Struct(table: HashTable)

  /** The C library's free: what it was given, in order. */
  class Ledger {
    var calls: seq<Freed>

    constructor ()
      ensures calls == []
    {
      calls := [];
    }

    method Free(p: Freed)
      modifies this
      ensures calls == old(calls) + [p]
    {
      calls := calls + [p];
    }
  }

  /** The calls that free these strings and values, and these nodes. */
  function Cells(xs: seq<int>): seq<Freed> {
    seq(|xs|, i requires 0 <= i < |xs| => Cell(xs[i]))
  }

  ghost function Chaineds(ns: seq<Bucket>): seq<Freed> {
    seq(|ns|, i requires 0 <= i < |ns| => Chained(ns[i]))
  }

  /** The calls that free the nodes `ns` with the entries `c`: key, value and node. */
  ghost function Items(c: Chain, ns: seq<Bucket>): seq<Freed>
    requires |c| == |ns|
  {
    if c == [] then []
    else [Cell(c[0].key.addr), Cell(c[0].val), Chained(ns[0])] + Items(c[1..], ns[1..])
  }

  /** The strings and values, and the nodes, among what was freed. */
  function CellsIn(calls: seq<Freed>): seq<int> {
    if calls == [] then []
    else (if calls[0].Cell? then [calls[0].addr] else []) + CellsIn(calls[1..])
  }

  ghost function ChainedIn(calls: seq<Freed>): seq<Bucket> {
    if calls == [] then []
    else (if calls[0].Chained? then [calls[0].node] else []) + ChainedIn(calls[1..])
  }

  /** They free each key, each value and each node of the entries once. */
  lemma {:induction false} ItemsFree(c: Chain, ns: seq<Bucket>)
    requires |c| == |ns|
    ensures CellsIn(Items(c, ns)) == Addrs(c) && ChainedIn(Items(c, ns)) == ns
  {
    if c != [] {
      ItemsFree(c[1..], ns[1..]);
      var rest := Items(c[1..], ns[1..]);
      var key, val, node := Cell(c[0].key.addr), Cell(c[0].val), Chained(ns[0]);
      assert Items(c, ns) == [key] + ([val] + ([node] + rest));
      AmongFreed(key, [val] + ([node] + rest));
      AmongFreed(val, [node] + rest);
      AmongFreed(node, rest);
    }
  }

  lemma AmongFreed(call: Freed, calls: seq<Freed>)
    ensures CellsIn([call] + calls) == (if call.Cell? then [call.addr] else []) + CellsIn(calls)
    ensures ChainedIn([call] + calls) == (if call.Chained? then [call.node] else []) + ChainedIn(calls)
  {
    assert ([call] + calls)[1..] == calls;
  }

  /** Putting frees strings and values only, */
  lemma {:induction false} PutFreed(xs: seq<int>)
    ensures CellsIn(Cells(xs)) == xs && ChainedIn(Cells(xs)) == []
  {
    if xs != [] {
      PutFreed(xs[1..]);
      assert Cells(xs) == [Cell(xs[0])] + Cells(xs[1..]);
      AmongFreed(Cell(xs[0]), Cells(xs[1..]));
    }
  }

  /** the old value before the new key, */
  lemma PutOrder(c: Chain, key: Str)
    ensures var i := Find(c, key.text);
            Cells(PutFrees(c, key)) == if i < |c| then [Cell(c[i].val), Cell(key.addr)] else []
  {
  }

  /** moving nodes only, */
  lemma {:induction false} MoveFreed(ns: seq<Bucket>)
    ensures CellsIn(Chaineds(ns)) == [] && ChainedIn(Chaineds(ns)) == ns
  {
    if ns != [] {
      MoveFreed(ns[1..]);
      assert Chaineds(ns) == [Chained(ns[0])] + Chaineds(ns[1..]);
      AmongFreed(Chained(ns[0]), Chaineds(ns[1..]));
    }
  }

  /** and deleting the strings and values that HashSpec says. */
  lemma DelFreed(c: Chain, n: Bucket, key: string)
    ensures var i := Find(c, key);
            DelFrees(c, key) == if i < |c| then CellsIn(Items([c[i]], [n])) else []
  {
    var i := Find(c, key);
    if i < |c| {
      ItemsFree([c[i]], [n]);
      assert [c[i]][1..] == [];
    }
  }

  class HashTable {
    const hash: string -> nat
    const ledger: Ledger
    var size: nat
    var buckets: array<Slot>
    ghost var Repr: set<object>

    /** The chains are well linked and share no node. */
    ghost predicate Linked()
      reads this, Repr
    {
      && this in Repr && ledger !in Repr
      && buckets in Repr && buckets.Length == size > 0
      && (forall i | 0 <= i < size :: SlotOk(i))
      && (forall i, j | 0 <= i < j < size :: SlotsApart(i, j))
    }

    ghost predicate SlotOk(i: nat)
      reads this, Repr
    {
      && this in Repr && buckets in Repr && i < buckets.Length && buckets[i] in Repr
      && (forall n | n in buckets[i].nodes :: n in Repr)
      && buckets[i].Valid()
    }

    ghost predicate SlotsApart(i: nat, j: nat)
      requires SlotOk(i) && SlotOk(j)
      reads this, Repr
    {
      buckets[i] != buckets[j] && forall n | n in buckets[i].nodes :: n !in buckets[j].nodes
    }

    ghost function Table(): (t: Table)
      requires Linked()
      reads this, Repr
      ensures |t| == size && forall i | 0 <= i < size :: SlotOk(i) && t[i] == buckets[i].Contents()
    {
      seq(size, i requires 0 <= i < size && Linked() reads this, Repr => assert SlotOk(i); buckets[i].Contents())
    }

    ghost predicate Valid()
      reads this, Repr
    {
      Linked() && WellFormed(hash, Table())
    }

    /** make_hashtable */
    constructor (hash: string -> nat, ledger: Ledger, size: nat)
      requires size > 0
      ensures Valid() && fresh(Repr) && this.hash == hash && this.ledger == ledger && this.size == size
      ensures Table() == Empty(size)
    {
      this.hash := hash;
      this.ledger := ledger;
      this.size := size;
      var filler := new LinkedList<Entry>();
      buckets := new LinkedList<Entry>[size](i => filler);
      new;
      Repr := {this, buckets};
      for i := 0 to size
        invariant this in Repr && buckets in Repr && fresh(Repr) && buckets.Length == size && Repr !! {filler} &&
                  filler.nodes == []
        invariant this.size == size
        invariant forall j | 0 <= j < i :: buckets[j] in Repr && buckets[j].Valid() && buckets[j].nodes == []
        invariant forall j, k | 0 <= j < k < i :: buckets[j] != buckets[k]
      {
        var s := new LinkedList<Entry>();
        buckets[i] := s;
        Repr := Repr + {s};
      }
      NewTable();
    }

    lemma NewTable()
      requires this in Repr && ledger !in Repr
      requires buckets in Repr && buckets.Length == size > 0
      requires forall j | 0 <= j < size :: buckets[j] in Repr && buckets[j].Valid() && buckets[j].nodes == []
      requires forall j, k | 0 <= j < k < size :: buckets[j] != buckets[k]
      ensures Valid() && Table() == Empty(size)
    {
      assert forall i | 0 <= i < size :: SlotOk(i) && buckets[i].Contents() == [];
      assert Table() == Empty(size);
      EmptyStands(hash, size);
    }

    method Get(key: string) returns (val: Option<int>)
      requires Valid()
      ensures val == HashSpec.Get(hash, Table(), key)
    {
      var idx := hash(key) % size;
      assert SlotOk(idx);
      var b, i := Search(buckets[idx], key);
      if b != null {
        return Some(b.value.val);
      }
      return None;
    }

    /** The branch of ht_put that replaces a value. */
    method Replace(idx: nat, b: Bucket, val: int, ghost i: nat)
      requires Linked() && idx < size && i < |buckets[idx].nodes| && b == buckets[idx].nodes[i]
      modifies b`value
      ensures Linked() && Table() == old(Table())[idx := old(Table())[idx][i := old(b.value).(val := val)]]
    {
      assert SlotOk(idx);
      buckets[idx].Assign(b, b.value.(val := val), i);
      forall j | 0 <= j < size
        ensures SlotOk(j) && (j != idx ==> buckets[j].Contents() == old(buckets[j].Contents()))
      {
        assert old(SlotOk(j));
        if j != idx {
          assert if j < idx then old(SlotsApart(j, idx)) else old(SlotsApart(idx, j));
          assert b !in buckets[j].nodes;
        }
      }
      forall j, k | 0 <= j < k < size
        ensures SlotsApart(j, k)
      {
        assert old(SlotsApart(j, k));
      }
    }

    /** Slot `idx` has a new first node, which is in Repr; the other slots are as before. */
    twostate lemma SlotGrown(idx: nat)
      requires old(Linked()) && idx < size == old(size) && buckets == old(buckets) && buckets.Length == size
      requires forall j | 0 <= j < size :: buckets[j] == old(buckets[j]) && buckets[j].Valid()
      requires forall j | 0 <= j < size && j != idx :: buckets[j].nodes == old(buckets[j].nodes)
      requires buckets[idx].nodes != [] && buckets[idx].nodes[1..] == old(buckets[idx].nodes) &&
               fresh(buckets[idx].nodes[0])
      requires Repr == old(Repr) + {buckets[idx].nodes[0]}
      ensures Linked()
    {
      var ns := buckets[idx].nodes;
      assert forall n | n in ns :: n == ns[0] || n in ns[1..];
      forall j | 0 <= j < size
        ensures SlotOk(j)
      {
        assert old(SlotOk(j));
      }
      forall j, k | 0 <= j < k < size
        ensures SlotsApart(j, k)
      {
        assert old(SlotsApart(j, k)) && old(SlotOk(j)) && old(SlotOk(k));
      }
    }

    /** The end of ht_put: a new node in front of the chain. */
    method Insert(idx: nat, key: Str, val: int)
      requires Linked() && idx < size
      modifies this`Repr, buckets[idx]
      ensures Linked() && Table() == old(Table())[idx := [Entry(key, val)] + old(Table())[idx]]
      ensures old(Repr) <= Repr && fresh(Repr - old(Repr))
    {
      hide Linked;
      SlotInRepr(idx);
      OtherSlots(idx);
      var slot := buckets[idx];
      slot.Prepend(Entry(key, val));
      Repr := Repr + {slot.nodes[0]};
      forall j | 0 <= j < size && j != idx
        ensures buckets[j].Valid() && buckets[j].nodes == old(buckets[j].nodes)
        ensures buckets[j].Contents() == old(buckets[j].Contents())
      {
        assert old(buckets[j].Valid());
      }
      SlotGrown(idx);
    }

    lemma OtherSlots(idx: nat)
      requires Linked() && idx < size
      ensures buckets in Repr && buckets.Length == size
      ensures forall j | 0 <= j < size && j != idx :: buckets[j] != buckets[idx] && buckets[j].Valid()
    {
      forall j | 0 <= j < size && j != idx
        ensures buckets[j] != buckets[idx] && buckets[j].Valid()
      {
        assert SlotOk(j) && SlotOk(idx);
        assert if j < idx then SlotsApart(j, idx) else SlotsApart(idx, j);
      }
    }

    /** `b->next = b->next->next`, or the same at the head of the chain. */
    method Cut(idx: nat, prev: Node?<Entry>, c: Bucket, ghost i: nat)
      requires Linked() && idx < size && i < |buckets[idx].nodes| && c == buckets[idx].nodes[i]
      requires prev == if i == 0 then null else buckets[idx].nodes[i - 1]
      modifies buckets[idx], buckets[idx].nodes
      ensures Linked() && Table() == old(Table())[idx := old(Table())[idx][..i] + old(Table())[idx][i + 1..]]
      ensures c !in buckets[idx].nodes && c.value == old(c.value)
    {
      assert SlotOk(idx);
      buckets[idx].Unlink(prev, c, i);
      forall j | 0 <= j < size
        ensures SlotOk(j) && (j != idx ==> buckets[j].nodes == old(buckets[j].nodes))
        ensures j != idx ==> buckets[j].Contents() == old(buckets[j].Contents())
      {
        assert old(SlotOk(j));
        if j != idx {
          assert if j < idx then old(SlotsApart(j, idx)) else old(SlotsApart(idx, j));
          assert buckets[j].nodes == old(buckets[j].nodes) && buckets[j].head == old(buckets[j].head);
          forall k | 0 <= k < |buckets[j].nodes|
            ensures buckets[j].Hop(k) && buckets[j].nodes[k].value == old(buckets[j].nodes[k].value)
          {
            assert old(buckets[j].Hop(k));
            assert buckets[j].nodes[k] in old(buckets[j].nodes) && buckets[j].nodes[k] !in old(buckets[idx].nodes);
          }
        }
      }
      forall j, k | 0 <= j < k < size
        ensures SlotsApart(j, k)
      {
        assert old(SlotsApart(j, k));
      }
    }

    /** ht_put in the bucket of the key. */
    method PutAt(idx: nat, key: Str, val: int)
      requires Linked() && idx < size
      modifies Repr, ledger
      ensures Linked() && old(Repr) <= Repr && fresh(Repr - old(Repr)) && size == old(size)
      ensures Table() == old(Table())[idx := PutChain(old(Table())[idx], key, val)]
      ensures ledger.calls == old(ledger.calls) + Cells(PutFrees(old(Table())[idx], key))
    {
      hide Linked, Find;
      SlotInRepr(idx);
      var b, i := Search(buckets[idx], key.text);
      if b != null {
        ledger.Free(Cell(b.value.val));
        ledger.Free(Cell(key.addr));
        Replace(idx, b, val, i);
      } else {
        Insert(idx, key, val);
      }
    }

    method Put(key: Str, val: int)
      requires Valid()
      modifies Repr, ledger
      ensures Valid() && old(Repr) <= Repr && fresh(Repr - old(Repr)) && size == old(size)
      ensures Table() == HashSpec.Put(hash, old(Table()), key, val)
      ensures ledger.calls == old(ledger.calls) + Cells(PutFrees(old(Table())[Index(hash, size, key.text)], key))
    {
      hide Linked, WellFormed, PutChain, PutFrees;
      PutKeepsForm(hash, Table(), key, val);
      LedgerApart();
      var idx := hash(key.text) % size;
      PutAt(idx, key, val);
    }

    /** free(c->key); free(c->val); free(c) */
    method FreeBucket(c: Bucket)
      modifies ledger
      ensures ledger.calls == old(ledger.calls) + Items([c.value], [c])
    {
      ledger.Free(Cell(c.value.key.addr));
      ledger.Free(Cell(c.value.val));
      ledger.Free(Chained(c));
    }

    /** Takes a node out of its chain and frees its key, its value and the node. */
    method Drop(idx: nat, prev: Node?<Entry>, c: Bucket, ghost i: nat)
      requires Linked() && idx < size && i < |buckets[idx].nodes| && c == buckets[idx].nodes[i]
      requires prev == if i == 0 then null else buckets[idx].nodes[i - 1]
      modifies buckets[idx], buckets[idx].nodes, ledger
      ensures Linked() && Table() == old(Table())[idx := old(Table())[idx][..i] + old(Table())[idx][i + 1..]]
      ensures ledger.calls == old(ledger.calls) + Items([old(Table())[idx][i]], [c]) && c !in buckets[idx].nodes
    {
      hide Linked;
      SlotInRepr(idx);
      assert Table()[idx][i] == c.value;
      Cut(idx, prev, c, i);
      SlotInRepr(idx);
      FreeBucket(c);
    }

    /** What ht_del does to a bucket that is not empty. */
    method DelFrom(idx: nat, key: string)
      requires Linked() && idx < size && Table()[idx] != []
      modifies Repr, ledger
      ensures Linked() && Repr == old(Repr) && size == old(size)
      ensures Table() == old(Table())[idx := DelChain(old(Table())[idx], key)]
      ensures var c, ns := old(Table())[idx], old(Nodes())[idx];
              var i := Find(c, key);
              if i < |c| then ledger.calls == old(ledger.calls) + Items([c[i]], [ns[i]]) && ns[i] !in Nodes()[idx]
              else ledger.calls == old(ledger.calls)
    {
      hide Linked, Find;
      ghost var c := Table()[idx];
      SlotInRepr(idx);
      HeadFound(c, key);
      if buckets[idx].head.value.key.text == key {
        Drop(idx, null, buckets[idx].head, 0);
        return;
      }
      var b, i := SearchBefore(buckets[idx], key);
      if b != null {
        assert buckets[idx].Hop(i - 1);
        Drop(idx, b, b.next, i);
      } else {
        DelChainNone(c, key);
        assert Table()[idx := c] == Table();
      }
    }

    /** ht_del.  It dereferences the head of the chain, so it crashes, and the result
        is false, when the bucket is empty. */
    method Del(key: string) returns (ok: bool)
      requires Valid()
      modifies Repr, ledger
      ensures Valid() && Repr == old(Repr) && size == old(size)
      ensures ok <==> old(Table())[Index(hash, size, key)] != []
      ensures Table() == HashSpec.Del(hash, old(Table()), key)
      ensures var idx := Index(hash, size, key);
              var c, ns := old(Table())[idx], old(Nodes())[idx];
              var i := Find(c, key);
              if i < |c| then ledger.calls == old(ledger.calls) + Items([c[i]], [ns[i]]) && ns[i] !in Nodes()[idx]
              else ledger.calls == old(ledger.calls)
    {
      hide Linked, WellFormed, Find, DelChain, Items;
      ghost var t := Table();
      DelKeepsForm(hash, t, key);
      var idx := hash(key) % size;
      SlotInRepr(idx);
      if buckets[idx].head == null {
        DelChainNone(t[idx], key);
        assert t[idx := t[idx]] == t;
        return false;
      }
      DelFrom(idx, key);
      return true;
    }

    /** The nodes of each chain. */
    ghost function Nodes(): (ns: seq<seq<Bucket>>)
      requires Linked()
      reads this, Repr
      ensures |ns| == size
      ensures forall i | 0 <= i < size :: SlotOk(i) && ns[i] == buckets[i].nodes && |ns[i]| == |Table()[i]|
    {
      seq(size, i requires 0 <= i < size && Linked() reads this, Repr => assert SlotOk(i); buckets[i].nodes)
    }

    /** The loop of free_hashtable over one chain. */
    method FreeChain(i: nat)
      requires Linked() && i < size
      modifies ledger
      ensures Linked() && Table() == old(Table()) && Nodes() == old(Nodes())
      ensures ledger.calls == old(ledger.calls) + Items(Table()[i], Nodes()[i])
    {
      hide Linked, Items;
      SlotInRepr(i);
      ghost var c, ns, k, f := Table()[i], Nodes()[i], 0, ledger.calls;
      var b := buckets[i].head;
      ItemsNone(c, ns);
      while b != null
        invariant 0 <= k <= |c| && Linked() && b == if k < |ns| then ns[k] else null
        invariant ledger.calls == f + Items(c[..k], ns[..k])
        decreases |c| - k
      {
        SlotInRepr(i);
        assert buckets[i].Hop(k) && c[k] == b.value;
        ItemsSnoc(c, ns, k);
        var d := b;
        b := b.next;
        FreeBucket(d);
        Joins(f, Items(c[..k], ns[..k]), Items([c[k]], [ns[k]]));
        k := k + 1;
      }
      assert c[..k] == c && ns[..k] == ns;
    }

    /** The outer loop of free_hashtable. */
    method FreeChains()
      requires Linked()
      modifies ledger
      ensures Linked() && Table() == old(Table()) && Nodes() == old(Nodes())
      ensures |Flat(Table())| == |Flat(Nodes())|
      ensures ledger.calls == old(ledger.calls) + Items(Flat(Table()), Flat(Nodes()))
    {
      hide Linked, Items, Flat;
      ghost var t, ns, f := Table(), Nodes(), ledger.calls;
      FlatStart(t);
      FlatStart(ns);
      ItemsNone([], []);
      for i := 0 to size
        invariant Linked() && Table() == t && Nodes() == ns && |Flat(t[..i])| == |Flat(ns[..i])|
        invariant ledger.calls == f + Items(Flat(t[..i]), Flat(ns[..i]))
      {
        FreeChain(i);
        FlatSnoc(t, i);
        FlatSnoc(ns, i);
        ItemsPlus(Flat(t[..i]), Flat(ns[..i]), t[i], ns[i]);
        Joins(f, Items(Flat(t[..i]), Flat(ns[..i])), Items(t[i], ns[i]));
      }
      assert t[..size] == t && ns[..size] == ns;
    }

    /** free_hashtable frees every key string, value and node once, in chain order, and
        then the bucket array and the table. */
    method FreeAll()
      requires Valid()
      modifies ledger
      ensures Linked() && |Flat(Table())| == |Flat(Nodes())|
      ensures ledger.calls ==
              old(ledger.calls) + Items(Flat(Table()), Flat(Nodes())) + [Slots(buckets), Struct(this)]
    {
      hide Linked, WellFormed, Items, Flat;
      FreeChains();
      LedgerApart();
      ledger.Free(Slots(buckets));
      ledger.Free(Struct(this));
    }

    /** The new table holds the entries `done`, a prefix of those to be moved, none of
        which frees anything. */
    ghost predicate Moved(newht: HashTable, n: nat, all: Chain, done: Chain)
      reads this, Repr, newht, newht.Repr
    {
      && n > 0 && Carrying(newht) && newht.size == n
      && newht.Table() == PutAll(hash, Empty(n), done)
      && done <= all && PutAllFrees(hash, Empty(n), all) == []
    }

    method MoveEntry(newht: HashTable, b: Bucket, ghost n: nat, ghost all: Chain, ghost done: Chain)
      requires Moved(newht, n, all, done) && b in Repr && done + [b.value] <= all
      modifies newht.Repr, ledger
      ensures Moved(newht, n, all, done + [b.value]) && ledger.calls == old(ledger.calls)
      ensures fresh(newht.Repr - old(newht.Repr)) && Table() == old(Table())
    {
      hide Linked, WellFormed, PutAll, PutAllFrees, PutFrees, Index;
      PutAllSnoc(hash, Empty(n), done, b.value);
      FreesNothing(hash, Empty(n), all, done + [b.value]);
      LedgerApart();
      newht.Put(b.value.key, b.value.val);
    }

    lemma LedgerApart()
      requires Linked()
      ensures this in Repr && ledger !in Repr
    {
    }

    /** Puts the entries of one chain into the new table, and frees its nodes. */
    method MoveChain(newht: HashTable, i: nat, ghost n: nat, ghost all: Chain, ghost done: Chain)
      requires Moved(newht, n, all, done) && i < size && done + Table()[i] <= all
      modifies newht.Repr, ledger
      ensures Linked() && Moved(newht, n, all, done + Table()[i]) && fresh(newht.Repr - old(newht.Repr))
      ensures Table() == old(Table()) && Nodes() == old(Nodes())
      ensures ledger.calls == old(ledger.calls) + Chaineds(Nodes()[i])
    {
      hide Linked, WellFormed, PutAll, PutAllFrees, Moved;
      MovedLinked(newht, n, all, done);
      ghost var c, ns, f := Table()[i], Nodes()[i], ledger.calls;
      SlotInRepr(i);
      var b := buckets[i].head;
      ghost var k := 0;
      assert done + c[..0] == done;
      while b != null
        invariant 0 <= k <= |c| && Linked() && Moved(newht, n, all, done + c[..k])
        invariant fresh(newht.Repr - old(newht.Repr)) && ledger.calls == f + Chaineds(ns[..k])
        invariant b == if k < |ns| then ns[k] else null
        decreases |c| - k
      {
        MovedLinked(newht, n, all, done + c[..k]);
        SlotInRepr(i);
        assert buckets[i].Hop(k) && c[k] == b.value;
        PrefixOf(done, c, k, all);
        assert f + Chaineds(ns[..k + 1]) == f + Chaineds(ns[..k]) + [Chained(ns[k])];
        MoveEntry(newht, b, n, all, done + c[..k]);
        MovedLinked(newht, n, all, done + c[..k + 1]);
        SlotInRepr(i);
        assert buckets[i].Hop(k);
        var d := b;
        b := b.next;
        ledger.Free(Chained(d));
        k := k + 1;
      }
      assert c[..k] == c && ns[..k] == ns;
    }

    lemma MovedLinked(newht: HashTable, n: nat, all: Chain, done: Chain)
      requires Moved(newht, n, all, done)
      ensures Linked() && this in Repr && buckets in Repr && buckets.Length == size && newht.Repr !! Repr
      ensures newht.ledger == ledger && ledger !in Repr && ledger !in newht.Repr
    {
    }

    /** The outer loop of ht_rehash. */
    method MoveChains(newht: HashTable, ghost n: nat)
      requires Valid() && Moved(newht, n, Flat(Table()), [])
      modifies newht.Repr, ledger
      ensures Linked() && Moved(newht, n, Flat(Table()), Flat(Table())) && fresh(newht.Repr - old(newht.Repr))
      ensures Table() == old(Table()) && Nodes() == old(Nodes())
      ensures ledger.calls == old(ledger.calls) + Chaineds(Flat(Nodes()))
    {
      hide Linked, WellFormed, PutAll, PutAllFrees, Flat, Moved;
      ghost var t, ns, f := Table(), Nodes(), ledger.calls;
      FlatStart(t);
      FlatStart(ns);
      for i := 0 to size
        invariant Linked() && Table() == t && Nodes() == ns && Moved(newht, n, Flat(t), Flat(t[..i]))
        invariant fresh(newht.Repr - old(newht.Repr)) && ledger.calls == f + Chaineds(Flat(ns[..i]))
      {
        FlatSnoc(t, i);
        FlatSnoc(ns, i);
        FlatPrefix(t, i + 1);
        MoveChain(newht, i, n, Flat(t), Flat(t[..i]));
        ChainedsPlus(f, Flat(ns[..i]), ns[i]);
      }
      assert t[..size] == t && ns[..size] == ns;
    }

    /** ht_rehash: every node's key and value are put into a new table, whose buckets
        then replace the old ones.  The old nodes, the old array and the struct of the
        new table are freed, once each; nothing that stays in use is. */
    method Rehash(newsize: nat)
      requires Valid() && newsize > 0
      modifies this, ledger
      ensures Valid() && fresh(Repr - {this}) && size == newsize
      ensures Table() == HashSpec.Rehash(hash, old(Table()), newsize)
      ensures exists ht :: fresh(ht) && ht != this &&
                ledger.calls == old(ledger.calls + Chaineds(Flat(Nodes())) + [Slots(buckets)]) + [Struct(ht)]
    {
      hide Linked, WellFormed, PutAll, PutAllFrees, Flat;
      ghost var t := Table();
      LedgerApart();
      var newht := new HashTable(hash, ledger, newsize);
      PutNone(hash, Empty(newsize), t);
      RehashKeeps(hash, t, newsize);
      MoveChains(newht, newsize);
      ledger.Free(Slots(buckets));
      buckets := newht.buckets;
      size := newht.size;
      ledger.Free(Struct(newht));
      Repr := newht.Repr - {newht} + {this};
      Adopted(newht);
    }

    /** The table that ht_rehash fills. */
    ghost predicate Carrying(newht: HashTable)
      reads this, Repr, newht, newht.Repr
    {
      && Linked() && newht.Valid() && newht.hash == hash && newht.ledger == ledger
      && newht.Repr !! Repr
    }

    lemma Adopted(newht: HashTable)
      requires newht.Linked() && newht.ledger == ledger && buckets == newht.buckets && size == newht.size
      requires Repr == newht.Repr - {newht} + {this}
      ensures Linked() && Table() == newht.Table()
    {
      forall i | 0 <= i < size
        ensures SlotOk(i)
      {
        assert newht.SlotOk(i);
      }
      forall i, j | 0 <= i < j < size
        ensures SlotsApart(i, j)
      {
        assert newht.SlotsApart(i, j);
      }
    }

    lemma SlotInRepr(idx: nat)
      requires Linked() && idx < size
      ensures size == buckets.Length && this in Repr && buckets in Repr && buckets[idx] in Repr && buckets[idx].Valid()
      ensures forall n | n in buckets[idx].nodes :: n in Repr
      ensures ledger !in Repr
    {
      assert SlotOk(idx);
    }
  }

  lemma FlatStart<T>(t: seq<seq<T>>)
    ensures Flat(t[..0]) == []
  {
  }

  lemma Joins<T>(a: seq<T>, b: seq<T>, c: seq<T>)
    ensures a + b + c == a + (b + c)
  {
  }

  lemma PutKeepsForm(hash: string -> nat, t: Table, key: Str, val: int)
    requires WellFormed(hash, t)
    ensures WellFormed(hash, HashSpec.Put(hash, t, key, val))
  {
    hide Index, PutChain, DistinctKeys, Placed;
    PutChainOk(hash, t[Index(hash, |t|, key.text)], key, val, |t|);
  }

  lemma DelKeepsForm(hash: string -> nat, t: Table, key: string)
    requires WellFormed(hash, t)
    ensures WellFormed(hash, HashSpec.Del(hash, t, key))
  {
    hide Index, DelChain, DistinctKeys;
    var b := Index(hash, |t|, key);
    DelChainFind(t[b], key, key);
    var t' := HashSpec.Del(hash, t, key);
    assert Placed(hash, t'[b], |t|, b) by {
      forall i | 0 <= i < |t'[b]| ensures Index(hash, |t|, t'[b][i].key.text) == b {
        assert t'[b][i] in t[b];
      }
    }
  }

  /** A key that is not there leaves its chain as it is. */
  lemma DelChainNone(c: Chain, key: string)
    ensures c == [] ==> Find(c, key) == 0
    ensures Find(c, key) == |c| ==> DelChain(c, key) == c && DelFrees(c, key) == []
  {
  }

  lemma HeadFound(c: Chain, key: string)
    requires c != []
    ensures Find(c, key) == 0 <==> c[0].key.text == key
  {
  }

  lemma PutNone(hash: string -> nat, t: Table, u: Table)
    requires |t| > 0
    ensures PutAll(hash, t, []) == t && PutAllFrees(hash, t, []) == [] && Flat(u[..0]) == []
  {
  }

  lemma {:induction false} PutAllSnoc(hash: string -> nat, t: Table, es: Chain, e: Entry)
    requires |t| > 0
    ensures PutAll(hash, t, es + [e]) == HashSpec.Put(hash, PutAll(hash, t, es), e.key, e.val)
    ensures PutAllFrees(hash, t, es + [e]) ==
            PutAllFrees(hash, t, es) + PutFrees(PutAll(hash, t, es)[Index(hash, |t|, e.key.text)], e.key)
    decreases |es|
  {
    hide PutFrees, Index;
    if es == [] {
      assert [e][1..] == [] && [] + [e] == [e];
    } else {
      assert (es + [e])[1..] == es[1..] + [e];
      SizeKept(hash, t, es[0].key, es[0].val);
      PutAllSnoc(hash, HashSpec.Put(hash, t, es[0].key, es[0].val), es[1..], e);
    }
  }

  lemma {:induction false} FlatSnoc<T>(t: seq<seq<T>>, i: nat)
    requires i < |t|
    ensures Flat(t[..i + 1]) == Flat(t[..i]) + t[i]
  {
    if i == 0 {
      assert t[..1] == [t[0]] && [t[0]][1..] == [];
    } else {
      FlatSnoc(t[1..], i - 1);
      assert t[..i + 1][1..] == t[1..][..i] && t[..i][1..] == t[1..][..i - 1];
    }
  }

  /** The new table is well formed and nothing was freed for it. */
  lemma RehashKeeps(hash: string -> nat, t: Table, newsize: nat)
    requires WellFormed(hash, t) && newsize > 0
    ensures WellFormed(hash, HashSpec.Rehash(hash, t, newsize))
    ensures PutAllFrees(hash, Empty(newsize), Flat(t)) == []
  {
    hide WellFormed, PutAll, PutAllFrees, Flat, Get;
    EmptyStands(hash, newsize);
    TableDistinct(hash, t);
    PutAllStands(hash, Empty(newsize), Flat(t), map[]);
  }

  lemma ItemsNone(c: Chain, ns: seq<Bucket>)
    requires |c| == |ns|
    ensures Items(c[..0], ns[..0]) == []
  {
  }

  lemma {:induction false} ItemsPlus(c: Chain, ns: seq<Bucket>, d: Chain, ms: seq<Bucket>)
    requires |c| == |ns| && |d| == |ms|
    ensures Items(c + d, ns + ms) == Items(c, ns) + Items(d, ms)
  {
    if c == [] {
      assert c + d == d && ns + ms == ms;
    } else {
      assert (c + d)[1..] == c[1..] + d && (ns + ms)[1..] == ns[1..] + ms;
      ItemsPlus(c[1..], ns[1..], d, ms);
    }
  }

  lemma ItemsSnoc(c: Chain, ns: seq<Bucket>, k: nat)
    requires k < |c| == |ns|
    ensures Items(c[..k + 1], ns[..k + 1]) == Items(c[..k], ns[..k]) + Items([c[k]], [ns[k]])
  {
    hide Items;
    assert c[..k + 1] == c[..k] + [c[k]] && ns[..k + 1] == ns[..k] + [ns[k]];
    ItemsPlus(c[..k], ns[..k], [c[k]], [ns[k]]);
  }

  lemma ChainedsPlus(f: seq<Freed>, ns: seq<Bucket>, ms: seq<Bucket>)
    ensures f + Chaineds(ns + ms) == f + Chaineds(ns) + Chaineds(ms)
  {
    assert Chaineds(ns + ms) == Chaineds(ns) + Chaineds(ms);
  }

  lemma PrefixOf(done: Chain, c: Chain, k: nat, all: Chain)
    requires done + c <= all && k < |c|
    ensures done + c[..k + 1] == done + c[..k] + [c[k]] <= all
  {
    assert all[|done|..|done + c|] == c;
  }

  lemma {:induction false} FlatPrefix<T>(t: seq<seq<T>>, i: nat)
    requires i <= |t|
    ensures Flat(t[..i]) <= Flat(t)
    decreases |t| - i
  {
    if i < |t| {
      FlatSnoc(t, i);
      FlatPrefix(t, i + 1);
    } else {
      assert t[..i] == t;
    }
  }

  /** If putting entries frees nothing, putting the first of them does not. */
  lemma {:induction false} FreesNothing(hash: string -> nat, t: Table, all: Chain, es: Chain)
    requires |t| > 0 && es <= all && PutAllFrees(hash, t, all) == []
    ensures PutAllFrees(hash, t, es) == []
    decreases |all|
  {
    hide PutAllFrees, PutFrees, Index, PutAll;
    if es != all {
      var init, last := all[..|all| - 1], all[|all| - 1];
      assert all == init + [last];
      PutAllSnoc(hash, t, init, last);
      FreesNothing(hash, t, init, es);
    }
  }
}
