/** The scenarios of linkedlist/linkedlist_test.go, each proved for all
    inputs, and concrete scenarios of the two defects of `Remove` and
    `UnmarshalJSON` next to the corrected operations. */
module Scenarios {
  import L = LinkedList
  import I = ListIterator

  /** A list built by four single-item inserts, as most tests build it. */
  method InsertEach(a: int, b: int, c: int, d: int) returns (l: L.LinkedList<int>)
    ensures l.Valid() && l.Contents == [a, b, c, d]
    ensures forall m :: 0 <= m < |l.Nodes| ==> fresh(l.Nodes[m])
  {
    l := new L.LinkedList([]);
    l.Insert([a]);
    l.Insert([b]);
    l.Insert([c]);
    l.Insert([d]);
  }

  /** `TestLinkedListCreation`: iterating a list created from four values
      yields them in order. */
  method Creation() returns (items: seq<int>)
    ensures items == [33, 123, 325, 544]
  {
    var l := new L.LinkedList([33, 123, 325, 544]);
    items := I.Collect(l);
  }

  /** `TestEmptyLinkedListCreation`: a list created from no values has no
      ends and its iteration yields nothing. */
  method EmptyCreation() returns (items: seq<int>, ends: seq<L.Node?<int>>)
    ensures items == [] && ends == [null, null]
  {
    var l := new L.LinkedList([]);
    items := I.Collect(l);
    ends := [l.Head(), l.Tail()];
  }

  /** `TestLinkedListInsert`: one insert of four values into a zero list. */
  method InsertAll() returns (items: seq<int>)
    ensures items == [33, 123, 325, 544]
  {
    var l := new L.LinkedList([]);
    l.Insert([33, 123, 325, 544]);
    items := I.Collect(l);
  }

  /** `TestLinkedListRemoveMiddle`, on `Remove` as written. */
  method RemoveMiddle() returns (items: seq<int>)
    ensures items == [33, 325, 544]
  {
    var l := InsertEach(33, 123, 325, 544);
    L.EndOfChain(l.Nodes, 0);
    L.IndexOfDistinct(l.Nodes, 1);
    var middle := l.head.next;
    var removed := l.RemoveAsWritten(middle);
    items := I.Collect(l);
  }

  /** `TestLinkedListRemoveHead`, on `Remove` as written. */
  method RemoveHead() returns (items: seq<int>)
    ensures items == [123, 325, 544]
  {
    var l := InsertEach(33, 123, 325, 544);
    L.IndexOfDistinct(l.Nodes, 0);
    var removed := l.RemoveAsWritten(l.Head());
    items := I.Collect(l);
  }

  /** `TestLinkedListRemoveTail`, on `Remove` as written. */
  method RemoveTail() returns (items: seq<int>)
    ensures items == [33, 123, 325]
  {
    var l := InsertEach(33, 123, 325, 544);
    L.IndexOfDistinct(l.Nodes, 3);
    var removed := l.RemoveAsWritten(l.Tail());
    items := I.Collect(l);
  }

  /** `TestMarshalJSON`: the values handed to the JSON encoder, in order. */
  method MarshalValues() returns (items: seq<int>)
    ensures items == [33, 123, 325, 555]
  {
    var l := InsertEach(33, 123, 325, 555);
    items := l.Marshal();
  }

  /** `TestUnmarshalJSON`: a list read from four decoded values iterates
      like a list built by inserting them, on `UnmarshalJSON` as written. */
  method UnmarshalValues() returns (got: seq<int>, expected: seq<int>)
    ensures got == expected == [33, 65, 76, 132]
  {
    var e := InsertEach(33, 65, 76, 132);
    var u := new L.LinkedList([]);
    u.UnmarshalAsWritten([33, 65, 76, 132]);
    got := I.Collect(u);
    expected := I.Collect(e);
  }

  /** Marshalling a valid list and unmarshalling the values into a zero list
      with the corrected loop gives a valid list with the same contents. */
  method RoundTrip<T>(l: L.LinkedList<T>) returns (m: L.LinkedList<T>)
    requires l.Valid()
    ensures m.Valid() && m.Contents == l.Contents
  {
    var items := l.Marshal();
    m := new L.LinkedList([]);
    m.Unmarshal(items);
  }

  /** The same round trip through the source's `UnmarshalJSON` loop: the
      values come back in a chain from `head` holding them, and the list is
      valid unless it holds exactly one value, whose `tail` is left unset. */
  method RoundTripAsWritten<T>(l: L.LinkedList<T>) returns (m: L.LinkedList<T>)
    requires l.Valid()
    ensures m.Contents == l.Contents && L.Chain(m.Nodes) && L.Holds(m.Nodes, l.Contents)
    ensures m.Nodes != [] ==> m.head == m.Nodes[0]
    ensures |l.Contents| != 1 ==> m.Valid()
  {
    var items := l.Marshal();
    m := new L.LinkedList([]);
    m.UnmarshalAsWritten(items);
  }

  /** The source's `Remove` on a one-node list: `tail` is cleared but `head`
      still holds the removed node, so a new iterator still yields 33. */
  method RemoveSoleNodeAsWritten() returns (headCleared: bool, tailCleared: bool, yielded: seq<int>)
    ensures !headCleared && tailCleared && yielded == [33]
  {
    var l := new L.LinkedList([33]);
    var removed := l.RemoveAsWritten(l.Head());
    headCleared, tailCleared := l.Head() == null, l.Tail() == null;
    var it := I.GetIterator(l);
    var first := it.Next();
    yielded := if first == null then [] else [first.data];
  }

  /** The corrected `Remove` on a one-node list empties it. */
  method RemoveSoleNode() returns (headCleared: bool, tailCleared: bool, yielded: seq<int>)
    ensures headCleared && tailCleared && yielded == []
  {
    var l := new L.LinkedList([33]);
    var removed := l.Remove(l.Head());
    headCleared, tailCleared := l.Head() == null, l.Tail() == null;
    yielded := I.Collect(l);
  }

  /** The source's `UnmarshalJSON` on a one-item array into a zero list:
      `head` holds the item but `tail` stays null. */
  method UnmarshalSingleAsWritten() returns (headSet: bool, tailSet: bool)
    ensures headSet && !tailSet
  {
    var l := new L.LinkedList([]);
    l.UnmarshalAsWritten([5]);
    headSet, tailSet := l.Head() != null, l.Tail() != null;
  }

  /** `TestUnmarshalJSONComplex` decodes a one-item array with the source's
      loop: iteration from `head` still yields the node holding the item and
      then nil, although `tail` was never set. */
  method UnmarshalSingleIterates<T>(x: T) returns (yielded: seq<T>, exhausted: bool, tailSet: bool)
    ensures yielded == [x] && exhausted && !tailSet
  {
    var l := new L.LinkedList([]);
    l.UnmarshalAsWritten([x]);
    tailSet := l.Tail() != null;
    L.EndOfChain(l.Nodes, 0);
    var it := I.GetIterator(l);
    var first := it.Next();
    yielded := if first == null then [] else [first.data];
    var second := it.Next();
    exhausted := second == null;
  }

  /** The corrected `UnmarshalJSON` on a one-item array: both ends are the
      one node holding the item. */
  method UnmarshalSingle() returns (headSet: bool, tailSet: bool, last: seq<int>)
    ensures headSet && tailSet && last == [5]
  {
    var l := new L.LinkedList([]);
    l.Unmarshal([5]);
    headSet, tailSet := l.Head() != null, l.Tail() != null;
    last := l.Marshal();
  }
}
