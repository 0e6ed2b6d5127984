/** Singly linked lists of C structs, changed in place: the range records of
    mps/05/mdriver.c and the chains of mps/02/hashtable.c. */
module LinkedLists {

  class Node<T> {
    var value: T
    var next: Node?<T>

    constructor (value: T, next: Node?<T>)
      ensures this.value == value && this.next == next
    {
      this.value, this.next := value, next;
    }
  }

  /** The nodes that were given to free, in order. */
  class Released<T> {
    var nodes: seq<Node<T>>

    constructor ()
      ensures nodes == []
    {
      nodes := [];
    }

    method Free(p: Node<T>)
      modifies this
      ensures nodes == old(nodes) + [p]
    {
      nodes := nodes + [p];
    }
  }

  /** The list that a pointer variable, or an element of an array, is the head of. */
  class LinkedList<T> {
    var head: Node?<T>
    /** The nodes in list order. */
    ghost var nodes: seq<Node<T>>

    ghost predicate Valid()
      reads this, nodes
    {
      && head == NodeAt(0)
      && (forall i {:trigger Hop(i)} | 0 <= i < |nodes| :: Hop(i))
      && (forall i, j | 0 <= i < j < |nodes| :: nodes[i] != nodes[j])
    }

    /** The i-th node points to the one after it. */
    ghost predicate Hop(i: nat)
      requires i < |nodes|
      reads this, nodes
    {
      nodes[i].next == NodeAt(i + 1)
    }

    ghost function NodeAt(i: nat): Node?<T>
      reads this
    {
      if i < |nodes| then nodes[i] else null
    }

    ghost function Contents(): (xs: seq<T>)
      reads this, nodes
      ensures |xs| == |nodes|
      ensures forall i | 0 <= i < |xs| :: xs[i] == nodes[i].value
    {
      seq(|nodes|, i requires 0 <= i < |nodes| reads this, nodes => nodes[i].value)
    }

    constructor ()
      ensures Valid() && Contents() == [] && nodes == []
    {
      head := null;
      nodes := [];
    }

    /** `p->next = head; head = p` for a new node. */
    method Prepend(value: T)
      requires Valid()
      modifies this
      ensures Valid() && Contents() == [value] + old(Contents())
      ensures |nodes| > 0 && nodes[1..] == old(nodes) && fresh(nodes[0])
    {
      ghost var was, xs := nodes, Contents();
      var p := new Node(value, head);
      head := p;
      nodes := [p] + nodes;
      assert Hop(0);
      forall i | 0 < i < |nodes|
        ensures Hop(i) && nodes[i] == was[i - 1] && Contents()[i] == xs[i - 1]
      {
        assert old(Hop(i - 1));
      }
      assert Contents() == [value] + xs;
    }

    /** An assignment to the fields of the i-th node. */
    method Assign(p: Node<T>, value: T, ghost i: nat)
      requires Valid() && i < |nodes| && p == nodes[i]
      modifies p`value
      ensures Valid() && Contents() == old(Contents())[i := value]
    {
      p.value := value;
      forall k | 0 <= k < |nodes|
        ensures Hop(k)
      {
        assert old(Hop(k));
      }
    }

    /** `*prevpp = p->next` for the i-th node, which is then no longer in the list. */
    method Unlink(prev: Node?<T>, p: Node<T>, ghost i: nat)
      requires Valid() && i < |nodes| && p == nodes[i]
      requires prev == if i == 0 then null else nodes[i - 1]
      modifies this, nodes
      ensures Valid() && nodes == old(nodes[..i] + nodes[i + 1..]) && p !in nodes
      ensures Contents() == old(Contents()[..i] + Contents()[i + 1..])
      ensures p.value == old(p.value)
    {
      ghost var was, xs := nodes, Contents();
      assert Hop(i);
      if prev == null {
        head := p.next;
      } else {
        prev.next := p.next;
      }
      nodes := nodes[..i] + nodes[i + 1..];
      forall k | 0 <= k < |nodes|
        ensures nodes[k] == was[if k < i then k else k + 1] && Hop(k)
      {
        assert old(Hop(if k < i then k else k + 1));
      }
      forall k | 0 <= k < |nodes|
        ensures Contents()[k] == xs[if k < i then k else k + 1]
      {
      }
      assert Contents() == xs[..i] + xs[i + 1..];
    }
  }
}
