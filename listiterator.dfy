/** A forward iterator over a linked list (linkedlist/listiterator.go): it
    holds the node `pos` that the next call to `Next` hands out, starting at
    the list's head and following the `next` links. */
module ListIterator {
  import L = LinkedList

  class ListIterator<T> {
    var pos: L.Node?<T>

    /** `NewListIterator`: an iterator positioned on the head of `l`. */
    constructor (l: L.LinkedList<T>)
      ensures pos == l.Head()
    {
      pos := l.Head();
    }

    /** Hands out the current node and moves to its successor; once the
        iterator has run off the end it stays there and yields null. */
    method Next() returns (node: L.Node?<T>)
      modifies this
      ensures node == old(pos)
      ensures pos == if old(pos) == null then null else old(pos.next)
    {
      node := pos;
      if pos != null {
        pos := pos.next;
      }
    }
  }

  /** The node that the `i`-th call of `Next` on a fresh iterator over the
      chain `ns` yields (counting from 0): null once the chain is exhausted. */
  ghost function Nth<T>(ns: seq<L.Node<T>>, i: nat): (r: L.Node?<T>)
  {
    if i < |ns| then ns[i] else null
  }

  /** `LinkedList.GetIterator`: a new iterator over `l`. */
  method GetIterator<T>(l: L.LinkedList<T>) returns (it: ListIterator<T>)
    ensures fresh(it) && it.pos == l.Head()
  {
    it := new ListIterator(l);
  }

  /** Calls `Next` `n` times on a new iterator over a valid list: the `i`-th
      call yields the `i`-th node of the chain, and every call past the end
      yields null. */
  method NextCalls<T>(l: L.LinkedList<T>, n: nat) returns (got: seq<L.Node?<T>>)
    requires l.Valid()
    ensures |got| == n
    ensures forall i :: 0 <= i < n ==> got[i] == Nth(l.Nodes, i)
  {
    var it := GetIterator(l);
    got := [];
    for j := 0 to n
      invariant |got| == j
      invariant forall i :: 0 <= i < j ==> got[i] == Nth(l.Nodes, i)
      invariant it.pos == Nth(l.Nodes, j)
    {
      if j < |l.Nodes| {
        L.EndOfChain(l.Nodes, j);
      }
      var node := it.Next();
      got := got + [node];
    }
  }

  /** The traversal loop the list's clients write, from the first call of
      `Next` until it yields null, collecting each node's value: on a valid
      list it visits exactly the list's contents, in order. */
  method Collect<T>(l: L.LinkedList<T>) returns (items: seq<T>)
    requires l.Valid()
    ensures items == l.Contents
  {
    var it := GetIterator(l);
    items := [];
    ghost var k := 0;
    if l.Nodes != [] {
      L.EndOfChain(l.Nodes, 0);
    }
    var item := it.Next();
    while item != null
      invariant k <= |l.Nodes|
      invariant item == Nth(l.Nodes, k)
      invariant it.pos == Nth(l.Nodes, k + 1)
      invariant items == l.Contents[..k]
      decreases |l.Nodes| - k
    {
      items := items + [item.data];
      if k + 1 < |l.Nodes| {
        L.EndOfChain(l.Nodes, k + 1);
      }
      item := it.Next();
      k := k + 1;
    }
  }
}
