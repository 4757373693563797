# go-linkedlist in Dafny

This project models a generic singly linked list written in Go. The package
has three parts:

- `LinkedList`, a list with a `head` and a `tail` node. It supports creation
  from initial values, variadic `Insert`, `Remove` of a given node, `Head`
  and `Tail`, and conversion to and from a JSON array.
- `ListIterator`, a forward iterator whose `Next` hands out one node per call
  and yields nil once the list is exhausted.
- The package's tests. Each of them builds a list and checks the values that
  an iteration or the JSON encoder sees.

The nodes and the lists are Dafny classes, because the Go code updates their
`next`, `head` and `tail` fields in place. Each list carries two ghost
sequences:

- `Nodes`, its nodes in chain order;
- `Contents`, the values those nodes hold.

`Valid()` ties both sequences to the pointers. The nodes are linked in
order, the last node has no successor, no node occurs twice, and `head` and
`tail` are the two ends (both null for an empty list). `Head` and `Tail` are
functions; every loop of the Go code is a method loop that follows it step
by step. Each method's contract states its result, or its new state, in
terms of these sequences.

The source has two defects, recorded under "## Findings": removing the only
node of a list leaves `head` on it, and unmarshalling a one-item array
leaves `tail` unset. Both operations are modelled twice:

- `RemoveAsWritten` and `UnmarshalAsWritten` follow the source exactly, and
  their contracts state the broken outcome.
- The corrected `Remove` and `Unmarshal` always keep `Valid()`.

The test scenarios use the as-written operations wherever the source's
tests exercise them, so the expectations of those tests are proved for the
code as written.

## Model

| member | source | states |
|---|---|---|
| LinkedList.Node.constructor | linkedlist/linkedlist.go:44-47 | `newNode`: the new node holds the value and has no successor |
| LinkedList.LinkedList.constructor | linkedlist/linkedlist.go:37-43 | `NewLinkedList`: a valid list of fresh nodes whose contents are exactly the initial values; with no values both ends are nil |
| LinkedList.LinkedList.Head | linkedlist/linkedlist.go:50-52 | on a valid list the head is nil exactly when the list is empty, and otherwise it is the first node and holds the first value |
| LinkedList.LinkedList.Tail | linkedlist/linkedlist.go:55-57 | on a valid list the tail is nil exactly when the list is empty, and otherwise it is the last node, holds the last value and has no successor |
| LinkedList.LinkedList.Insert | linkedlist/linkedlist.go:60-75 | the list stays valid; its contents become the old contents followed by the items, in order; the old nodes keep their places and the new ones are fresh; a non-empty list keeps its head; inserting no items changes nothing; otherwise the tail is the node of the last item |
| LinkedList.LinkedList.Link | linkedlist/linkedlist.go:64-73 | one step of `Insert`: starting from the head or the tail, the walk reaches the last node, and the new node is linked behind it (or becomes the head of an empty list) and becomes the tail and the cursor |
| LinkedList.LinkedList.Predecessor | linkedlist/linkedlist.go:86-88 | the scan from the head stops at the node's first position in the chain, and `prev` is the node before it (nil for the head) |
| LinkedList.LinkedList.Unlink | linkedlist/linkedlist.go:89-100 | unlinking the node at position k removes exactly that node and its value from the chain; with more than one node the list stays valid, and the head and tail move only when the removed node was at that end; with a single node `tail` becomes nil but `head` stays on the node |
| LinkedList.LinkedList.RemoveAsWritten | linkedlist/linkedlist.go:78-102 | removing nil returns nil and changes nothing; otherwise it returns the node, deletes it and its value from the list, and the node keeps its value and successor; with more than one node the list stays valid with the ends updated; removing the only node leaves `head` on it, so the list is not valid |
| LinkedList.LinkedList.Remove | linkedlist/linkedlist.go:78-102 | the corrected `Remove`: as above, but the list is always valid afterwards, and removing the only node empties it |
| LinkedList.LinkedList.Marshal | linkedlist/linkedlist.go:105-111 | the values handed to the JSON encoder are exactly the list's contents, in chain order |
| LinkedList.LinkedList.UnmarshalAsWritten | linkedlist/linkedlist.go:114-133 | no items leave the list unchanged; one or more items build a chain of fresh nodes holding the items, with the first as head; with two or more items the tail is the last node and the list is valid; with one item the tail is left unchanged and the list is not valid |
| LinkedList.LinkedList.Unmarshal | linkedlist/linkedlist.go:119-131 | the corrected loop: any non-empty input gives a valid list of fresh nodes whose contents are exactly the items |
| LinkedList.IndexOf | linkedlist/linkedlist.go:86-88 | the position where the scan for a node stops: an index of that node, with no earlier occurrence |
| LinkedList.IndexOfDistinct | linkedlist/linkedlist.go:86-88 | in a chain without repeated nodes, the scan for the node at position k stops at k |
| LinkedList.EndOfChain | linkedlist/linkedlist.go:65-67 | in a chain, following `next` from a node reaches the next node in chain order, and only the last node has no successor |
| LinkedList.DeleteFromChain | linkedlist/linkedlist.go:96-100 | relinking the predecessor past the node at position k leaves a chain of the remaining nodes, holding the remaining values |
| ListIterator.ListIterator.constructor | linkedlist/listiterator.go:19-23 | `NewListIterator` starts at the list's head |
| ListIterator.ListIterator.Next | linkedlist/listiterator.go:10-16 | returns the current node and moves to its successor; an exhausted iterator stays exhausted and keeps yielding nil |
| ListIterator.GetIterator | linkedlist/linkedlist.go:136-138 | a new iterator positioned at the list's head |
| ListIterator.NextCalls | linkedlist/listiterator.go:10-16 | on a valid list, the i-th call of `Next` on a new iterator yields the i-th node, and every call past the end yields nil |
| ListIterator.Collect | linkedlist/linkedlist_test.go:15-21 | the tests' loop, which calls `Next` until it yields nil, visits exactly the list's contents in order |
| Scenarios.InsertEach | linkedlist/linkedlist_test.go:49-53 | four single-value inserts into a zero list give a valid list holding the four values in order |
| Scenarios.Creation | linkedlist/linkedlist_test.go:9-22 | iterating `NewLinkedList(33, 123, 325, 544)` yields 33, 123, 325, 544 |
| Scenarios.EmptyCreation | linkedlist/linkedlist_test.go:23-30 | a list created from no values iterates nothing, and both ends are nil |
| Scenarios.InsertAll | linkedlist/linkedlist_test.go:31-45 | one four-value insert into a zero list iterates the four values in order |
| Scenarios.RemoveMiddle | linkedlist/linkedlist_test.go:46-66 | removing `head.next` from 33, 123, 325, 544 leaves 33, 325, 544 |
| Scenarios.RemoveHead | linkedlist/linkedlist_test.go:67-86 | removing `Head()` leaves 123, 325, 544 |
| Scenarios.RemoveTail | linkedlist/linkedlist_test.go:87-106 | removing `Tail()` leaves 33, 123, 325 |
| Scenarios.MarshalValues | linkedlist/linkedlist_test.go:107-124 | the encoder is handed 33, 123, 325, 555 for a list built by inserting them one at a time |
| Scenarios.UnmarshalValues | linkedlist/linkedlist_test.go:141-164 | a list unmarshalled from 33, 65, 76, 132 iterates the same values as a list built by inserting them |
| Scenarios.RoundTrip | linkedlist/linkedlist.go:105-133 | unmarshalling the marshalled values of a valid list into a zero list with the corrected loop gives a valid list with the same contents |
| Scenarios.RoundTripAsWritten | linkedlist/linkedlist.go:105-133 | through the source's loop the values come back as a chain holding the same contents that starts at `head`; the list is valid unless it holds exactly one value |
| Scenarios.RemoveSoleNodeAsWritten | linkedlist/linkedlist.go:89-94 | removing the only node of the list 33 clears `tail` but not `head`, and a new iterator still yields 33 |
| Scenarios.RemoveSoleNode | linkedlist/linkedlist.go:78-102 | with the corrected `Remove`, removing the only node clears both ends and iteration yields nothing |
| Scenarios.UnmarshalSingleAsWritten | linkedlist/linkedlist.go:122-126 | unmarshalling the single item 5 into a zero list sets `head` but leaves `tail` nil |
| Scenarios.UnmarshalSingleIterates | linkedlist/linkedlist_test.go:165-185 | after the source's loop decodes a one-item array, a new iterator yields the node holding the item and then nil, while `tail` stays nil |
| Scenarios.UnmarshalSingle | linkedlist/linkedlist.go:119-131 | with the corrected loop, both ends are set and the list holds exactly 5 |

## Left out

- JSON text: the calls to `json.Marshal` and `json.Unmarshal` (linkedlist/linkedlist.go:110 and 116) are outside the model. `Marshal` yields the slice handed to the encoder, and the `Unmarshal` methods take the decoded slice as input.
- The decode error path of `UnmarshalJSON` (linkedlist/linkedlist.go:116-118) is left out, because it depends only on the JSON decoder.
- Dynamic typing: `interface{}` values become a type parameter `T`, and the `float64` conversion that the JSON decoder applies to numbers is not modelled.
- The `Iterator` and `Lister` interfaces (linkedlist/linkedlist.go:9-22) are left out. The model uses the concrete classes, and `GetIterator` is a module-level method of `ListIterator`, because Dafny modules cannot import each other cyclically.
- The iterator's `linkedList` field (linkedlist/listiterator.go:5) is left out, because no code reads it.
- Remove: a node that is not in the list is excluded by the precondition. For such a node the source's scan runs past the last node and dereferences nil.
- Iteration after the list is changed is not specified: `NextCalls` and `Collect` cover a new iterator over a list that does not change while it is traversed.
- `TestMarshalJSONComplex` (linkedlist/linkedlist_test.go:125-140) is left out as a scenario: it marshals a one-value list holding a struct, and only the JSON form of that struct distinguishes it from `MarshalValues`, which `Marshal`'s contract covers for any contents.
- `TestUnmarshalJSONComplex` (linkedlist/linkedlist_test.go:165-185) decodes a one-item array, the input of the `tail` defect; it passes only because it iterates from `head` and never reads `Tail()`. `UnmarshalSingleIterates` models that iteration; the map value's JSON form is left out.
- Insert, Remove and Marshal (and the iterator's `NextCalls` and `Collect`) are modelled on valid lists only: the state the two defects leave behind (`head` on a removed node, or `tail` unset) is not an input to them, so the model does not describe, for example, `Insert` after the sole node was removed, which in the source links the new value behind the stale `head` so that the removed value comes back.
- Go's zero-value list `&LinkedList{}` is modelled as the constructor called with no values, which gives the same state: both ends nil.

## Findings

| source | as written | input that shows it | evidently intended | confidence | as-written member | corrected member |
|---|---|---|---|---|---|---|
| linkedlist/linkedlist.go:89-94 | the sole node is both last and first; the `if` branch for the last node sets `tail` to nil, and the `else if` for the head is then skipped | a list holding only 33, then `Remove(list.Head())`; a following `Insert(7)` starts from the stale `head` (linkedlist/linkedlist.go:61-68) and links 7 behind it, so iteration yields 33, 7 | the list becomes empty, with both `head` and `tail` nil | not executed | Scenarios.RemoveSoleNodeAsWritten | LinkedList.LinkedList.Remove |
| linkedlist/linkedlist.go:122-126 | `tail` is set in an `else if` after the `i == 0` branch, so a one-item array never reaches it | unmarshalling the array `[5]` into `&LinkedList{}` | `head` and `tail` are both the node holding 5 | not executed | Scenarios.UnmarshalSingleAsWritten | LinkedList.LinkedList.Unmarshal |
