/** A generic singly linked list: a chain of nodes reached from `head`, with
    `tail` kept on the last node (linkedlist/linkedlist.go).

    The abstract view of a list is the ghost sequence `Nodes` of its nodes in
    chain order and the ghost sequence `Contents` of the values they hold;
    `Valid()` ties both to the `head`/`tail` fields and the `next` links. */
module LinkedList {

  /** One chain element: a value and the link to its successor. */
  class Node<T> {
    var data: T
    var next: Node?<T>

    /** `newNode`: a node holding `data` with no successor. */
    constructor (data: T)
      ensures this.data == data && next == null
    {
      this.data := data;
      next := null;
    }
  }

  /** The nodes `ns` are linked in order, the last has no successor and no
      node occurs twice, so walking `next` from `ns[0]` visits exactly `ns`. */
  ghost predicate Chain<T>(ns: seq<Node<T>>)
    reads ns
  {
    (forall i :: 0 <= i < |ns| - 1 ==> ns[i].next == ns[i + 1]) &&
    (ns != [] ==> ns[|ns| - 1].next == null) &&
    Distinct(ns)
  }

  /** No node occurs twice in `ns`. */
  ghost predicate Distinct<T>(ns: seq<Node<T>>)
  {
    forall i, j :: 0 <= i < j < |ns| ==> ns[i] != ns[j]
  }

  /** The nodes `ns` hold the values `vs`, in the same order. */
  ghost predicate Holds<T>(ns: seq<Node<T>>, vs: seq<T>)
    reads ns
  {
    |ns| == |vs| && forall i :: 0 <= i < |ns| ==> ns[i].data == vs[i]
  }

  /** The position of the first occurrence of `n` in `ns`. */
  ghost function IndexOf<T>(ns: seq<Node<T>>, n: Node<T>): (k: nat)
    requires n in ns
    ensures k < |ns| && ns[k] == n && n !in ns[..k]
  {
    if ns[0] == n then 0
    else
      var k := 1 + IndexOf(ns[1..], n);
      assert ns[..k] == [ns[0]] + ns[1..][..k - 1];
      k
  }

  /** In a sequence without repetitions, each node's first occurrence is
      its only one. */
  lemma IndexOfDistinct<T>(ns: seq<Node<T>>, k: nat)
    requires Distinct(ns) && k < |ns|
    ensures IndexOf(ns, ns[k]) == k
  {
  }

  /** In a chain, the successor of each node is the next one in the
      sequence, and only the last node has none. */
  lemma EndOfChain<T>(ns: seq<Node<T>>, k: nat)
    requires Chain(ns) && k < |ns|
    ensures ns[k].next == if k < |ns| - 1 then ns[k + 1] else null
  {
    if k < |ns| - 1 {
      assert ns[k].next == ns[k + 1];
    }
  }

  /** A chain whose node at position `k` has been unlinked, its predecessor
      (if any) now pointing at its successor, is the chain without that node,
      holding the values without the `k`-th. */
  lemma DeleteFromChain<T>(ns: seq<Node<T>>, vs: seq<T>, k: nat)
    requires k < |ns| && Distinct(ns) && Holds(ns, vs)
    requires forall m :: 0 <= m < |ns| - 1 && m != k - 1 && m != k ==> ns[m].next == ns[m + 1]
    requires k > 0 ==> ns[k - 1].next == if k + 1 < |ns| then ns[k + 1] else null
    requires k < |ns| - 1 ==> ns[|ns| - 1].next == null
    ensures Chain(ns[..k] + ns[k + 1..]) && Holds(ns[..k] + ns[k + 1..], vs[..k] + vs[k + 1..])
  {
    var rs := ns[..k] + ns[k + 1..];
    assert forall m :: 0 <= m < |rs| ==> rs[m] == if m < k then ns[m] else ns[m + 1];
  }

  class LinkedList<T> {
    var head: Node?<T>
    var tail: Node?<T>
    ghost var Nodes: seq<Node<T>>
    ghost var Contents: seq<T>

    /** The list invariant: `head` and `tail` are the two ends of the chain
        `Nodes` (both null when it is empty) and the chain holds `Contents`. */
    ghost predicate Valid()
      reads this, Nodes
    {
      Chain(Nodes) && Holds(Nodes, Contents) &&
      (Nodes == [] ==> head == null && tail == null) &&
      (Nodes != [] ==> head == Nodes[0] && tail == Nodes[|Nodes| - 1])
    }

    /** `NewLinkedList`: an empty list into which `initialData` is inserted. */
    constructor (initialData: seq<T>)
      ensures Valid() && Contents == initialData
      ensures initialData == [] ==> head == null && tail == null
      ensures forall m :: 0 <= m < |Nodes| ==> fresh(Nodes[m])
    {
      head, tail := null, null;
      Nodes, Contents := [], [];
      new;
      if |initialData| > 0 {
        Insert(initialData);
      }
    }

    /** The first node, null for an empty list. */
    function Head(): (h: Node?<T>)
      reads this, Nodes
      ensures Valid() ==> (h == null <==> Contents == [])
      ensures Valid() && h != null ==> h == Nodes[0] && h.data == Contents[0]
    {
      head
    }

    /** The last node, null for an empty list; it never has a successor. */
    function Tail(): (t: Node?<T>)
      reads this, Nodes
      ensures Valid() ==> (t == null <==> Contents == [])
      ensures Valid() && t != null ==>
        t == Nodes[|Nodes| - 1] && t.next == null && t.data == Contents[|Contents| - 1]
    {
      tail
    }

    /** Appends `items` in order. The cursor `i` starts at `head`; the first
        append walks it to the end of the chain, and from then on it stays on
        the node appended last. */
    method Insert(items: seq<T>)
      requires Valid()
      modifies this, Nodes
      ensures Valid()
      ensures Contents == old(Contents) + items
      ensures |Nodes| == |old(Nodes)| + |items| && Nodes[..|old(Nodes)|] == old(Nodes)
      ensures forall m :: |old(Nodes)| <= m < |Nodes| ==> fresh(Nodes[m])
      ensures old(Nodes) != [] ==> head == old(head)
      ensures items == [] ==> head == old(head) && tail == old(tail) && Nodes == old(Nodes)
      ensures items != [] ==> tail == Nodes[|Nodes| - 1] && tail.data == items[|items| - 1]
    {
      var i := head;
      for j := 0 to |items|
        invariant Valid()
        invariant Contents == old(Contents) + items[..j]
        invariant |Nodes| == |old(Nodes)| + j && Nodes[..|old(Nodes)|] == old(Nodes)
        invariant forall m :: |old(Nodes)| <= m < |Nodes| ==> fresh(Nodes[m])
        invariant old(Nodes) != [] ==> head == old(head)
        invariant j == 0 ==> head == old(head) && tail == old(tail) && i == head
        invariant j > 0 ==> i == tail && fresh(tail)
      {
        var node := new Node(items[j]);
        i := Link(i, node);
      }
    }

    /** One step of `Insert`: walks the cursor `i` (which is `head` or `tail`)
        to the last node and links `node` after it, or makes `node` the head
        of an empty list. The cursor then moves to `node`, the new tail. */
    method Link(i: Node?<T>, node: Node<T>) returns (cursor: Node<T>)
      requires Valid() && (i == head || i == tail)
      requires node !in Nodes && node.next == null
      modifies this, tail
      ensures Valid()
      ensures Nodes == old(Nodes) + [node] && Contents == old(Contents) + [node.data]
      ensures node.data == old(node.data)
      ensures head == if old(Nodes) == [] then node else old(head)
      ensures cursor == node == tail
    {
      if i != null {
        var walk := i;
        ghost var k := if walk == head then 0 else |Nodes| - 1;
        while walk.next != null
          invariant k < |Nodes| && walk == Nodes[k]
          decreases |Nodes| - k
        {
          walk := walk.next;
          k := k + 1;
        }
        EndOfChain(Nodes, k);
        walk.next := node;
      } else {
        head := node;
      }
      tail := node;
      cursor := node;
      Nodes := Nodes + [node];
      Contents := Contents + [node.data];
    }

    /** The scan of `Remove`: walks from `head` until it reaches `node`,
        remembering the node before it. It stops exactly at the position of
        `node` in the chain; a node that is not in the chain is excluded,
        since for it the scan would run off the end. */
    method Predecessor(node: Node<T>) returns (prev: Node?<T>, ghost k: nat)
      requires Valid() && node in Nodes
      ensures k == IndexOf(Nodes, node)
      ensures prev == if k == 0 then null else Nodes[k - 1]
    {
      prev := null;
      var walk := head;
      k := 0;
      ghost var target := IndexOf(Nodes, node);
      while walk != node
        invariant k <= target && walk == Nodes[k]
        invariant prev == if k == 0 then null else Nodes[k - 1]
        decreases target - k
      {
        prev := walk;
        walk := walk.next;
        k := k + 1;
      }
      assert k == target;
    }

    /** `Remove` as the source writes it. Removing the only node sets `tail`
        to null but keeps `head` on the removed node, so the list is no
        longer valid. */
    method RemoveAsWritten(node: Node?<T>) returns (r: Node?<T>)
      requires Valid()
      requires node == null || node in Nodes
      modifies this, Nodes
      ensures r == node
      ensures node == null ==> unchanged(this) && unchanged(Nodes)
      ensures node != null ==>
        var k := IndexOf(old(Nodes), node);
        Nodes == old(Nodes)[..k] + old(Nodes)[k + 1..] &&
        Contents == old(Contents)[..k] + old(Contents)[k + 1..] &&
        node !in Nodes && node.next == old(node.next) && node.data == old(node.data)
      ensures node != null && |old(Nodes)| > 1 ==> Valid()
      ensures node != null && |old(Nodes)| > 1 ==>
        head == (if node == old(head) then old(node.next) else old(head))
      ensures node != null && |old(Nodes)| > 1 ==>
        tail == (if node == old(tail) then old(Nodes)[|old(Nodes)| - 2] else old(tail))
      ensures node != null && |old(Nodes)| == 1 ==>
        head == node && tail == null && Nodes == [] && !Valid()
    {
      if node == null {
        return null;
      }
      var prev, k := Predecessor(node);
      Unlink(prev, node, k);
      r := node;
    }

    /** The unlinking step of `Remove` for the node at position `k`, with
        `prev` the node before it: a tail node hands `tail` to `prev`, else a
        head node hands `head` to its successor, and `prev` is linked past the
        node. */
    method Unlink(prev: Node?<T>, node: Node<T>, ghost k: nat)
      requires Valid() && k < |Nodes| && Nodes[k] == node
      requires prev == if k == 0 then null else Nodes[k - 1]
      modifies this, prev
      ensures Nodes == old(Nodes)[..k] + old(Nodes)[k + 1..]
      ensures Contents == old(Contents)[..k] + old(Contents)[k + 1..]
      ensures node !in Nodes && node.next == old(node.next) && node.data == old(node.data)
      ensures |old(Nodes)| > 1 ==> Valid()
      ensures |old(Nodes)| > 1 ==>
        head == (if node == old(head) then old(node.next) else old(head))
      ensures |old(Nodes)| > 1 ==>
        tail == (if node == old(tail) then old(Nodes)[|old(Nodes)| - 2] else old(tail))
      ensures |old(Nodes)| == 1 ==> head == node && tail == null && Nodes == []
    {
      var walk := node;
      EndOfChain(Nodes, k);
      assert (walk == head <==> k == 0) && (walk == tail <==> k == |Nodes| - 1);
      if walk.next == null {
        tail := prev;
      } else if walk == head {
        head := walk.next;
      }
      walk := walk.next;
      if prev != null {
        prev.next := walk;
      }
      ghost var ns, vs := Nodes, Contents;
      Nodes := Nodes[..k] + Nodes[k + 1..];
      Contents := Contents[..k] + Contents[k + 1..];
      DeleteFromChain(ns, vs, k);
      assert Nodes != [] ==>
        Nodes[0] == (if k == 0 then ns[1] else ns[0]) &&
        Nodes[|Nodes| - 1] == (if k == |ns| - 1 then ns[k - 1] else ns[|ns| - 1]);
    }

    /** `Remove` as evidently intended: the head is also advanced when the
        removed node was the only one, which the source misses because that
        case takes the `tail` branch of its `if`/`else if`. */
    method Remove(node: Node?<T>) returns (r: Node?<T>)
      requires Valid()
      requires node == null || node in Nodes
      modifies this, Nodes
      ensures Valid()
      ensures r == node
      ensures node == null ==> unchanged(this) && unchanged(Nodes)
      ensures node != null ==>
        var k := IndexOf(old(Nodes), node);
        Nodes == old(Nodes)[..k] + old(Nodes)[k + 1..] &&
        Contents == old(Contents)[..k] + old(Contents)[k + 1..] &&
        node !in Nodes && node.next == old(node.next) && node.data == old(node.data)
      ensures node != null ==>
        head == (if node == old(head) then old(node.next) else old(head))
      ensures node != null ==>
        tail == if node != old(tail) then old(tail)
                else if |old(Nodes)| == 1 then null
                else old(Nodes)[|old(Nodes)| - 2]
    {
      r := RemoveAsWritten(node);
      if node != null && head == node {
        head := node.next;
      }
    }

    /** The loop of `MarshalJSON`: the values from `head` to the end of the
        chain, in order (empty for an empty list). */
    method Marshal() returns (items: seq<T>)
      requires Valid()
      ensures items == Contents
    {
      items := [];
      var walk := head;
      ghost var k := 0;
      while walk != null
        invariant k <= |Nodes|
        invariant walk == if k < |Nodes| then Nodes[k] else null
        invariant items == Contents[..k]
        decreases |Nodes| - k
      {
        items := items + [walk.data];
        walk := walk.next;
        k := k + 1;
      }
    }

    /** The loop of `UnmarshalJSON` as the source writes it. The first node
        becomes `head`; `tail` is set only by an item that is last and not
        first, so a one-item input leaves `tail` as it was and the list is
        not valid. An empty input changes nothing. */
    method UnmarshalAsWritten(items: seq<T>)
      modifies this
      ensures items == [] ==>
        head == old(head) && tail == old(tail) && Nodes == old(Nodes) && Contents == old(Contents)
      ensures items != [] ==>
        Chain(Nodes) && Holds(Nodes, items) && Contents == items && head == Nodes[0]
      ensures forall m :: 0 <= m < |Nodes| && items != [] ==> fresh(Nodes[m])
      ensures |items| >= 2 ==> tail == Nodes[|Nodes| - 1] && Valid()
      ensures |items| == 1 ==> tail == old(tail) && !Valid()
    {
      var lastNode: Node?<T> := null;
      ghost var built: seq<Node<T>> := [];
      for i := 0 to |items|
        invariant |built| == i
        invariant Chain(built) && Holds(built, items[..i])
        invariant forall m :: 0 <= m < i ==> fresh(built[m])
        invariant lastNode == if i == 0 then null else built[i - 1]
        invariant head == if i == 0 then old(head) else built[0]
        invariant tail == if i == |items| && i >= 2 then built[i - 1] else old(tail)
        invariant Nodes == old(Nodes) && Contents == old(Contents)
      {
        var node := new Node(items[i]);
        if i == 0 {
          head := node;
        } else if i == |items| - 1 {
          tail := node;
        }
        if lastNode != null {
          lastNode.next := node;
        }
        lastNode := node;
        built := built + [node];
      }
      if items != [] {
        Nodes, Contents := built, items;
      }
    }

    /** The loop of `UnmarshalJSON` with `tail` set by the last item whether
        or not it is also the first: a non-empty input becomes a valid list
        of fresh nodes holding exactly `items`. */
    method Unmarshal(items: seq<T>)
      modifies this
      ensures items == [] ==>
        head == old(head) && tail == old(tail) && Nodes == old(Nodes) && Contents == old(Contents)
      ensures items != [] ==> Valid() && Contents == items
      ensures forall m :: 0 <= m < |Nodes| && items != [] ==> fresh(Nodes[m])
    {
      var lastNode: Node?<T> := null;
      ghost var built: seq<Node<T>> := [];
      for i := 0 to |items|
        invariant |built| == i
        invariant Chain(built) && Holds(built, items[..i])
        invariant forall m :: 0 <= m < i ==> fresh(built[m])
        invariant lastNode == if i == 0 then null else built[i - 1]
        invariant head == if i == 0 then old(head) else built[0]
        invariant tail == if i == |items| && i >= 1 then built[i - 1] else old(tail)
        invariant Nodes == old(Nodes) && Contents == old(Contents)
      {
        var node := new Node(items[i]);
        if i == 0 {
          head := node;
        }
        if i == |items| - 1 {
          tail := node;
        }
        if lastNode != null {
          lastNode.next := node;
        }
        lastNode := node;
        built := built + [node];
      }
      if items != [] {
        Nodes, Contents := built, items;
      }
    }
  }
}
