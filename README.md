# LinkedListLiteral in Dafny

A verified model of `JJC::LinkedList<T>` from `LinkedListLiteral.h`: a doubly-linked list
that owns its nodes. It keeps a head pointer (`first_node`), a tail pointer (`last_node`)
and a size counter (`ll_size`). It inserts and removes at both ends, reads by zero-based
index, copies its data out head to tail, and applies two registered callbacks to every
element: one by pointer, one by value.

The model is one module, `LinkedListLiteral` (`linked_list_literal.dfy`). `Node<T>` is a
class with mutable `prev`, `next` and `datum` fields. `LinkedList<T>` is a class with the
C++ fields: `firstNode`, `lastNode`, `userNode`, `llSize`, the two callbacks and their
flags, and `userNodeSet`. Three ghost fields give its public view:

- `Contents` is the data from head to tail.
- `nodes` is the node objects in the same order.
- `Repr` is the object and the nodes it owns.

`Valid()` is the object invariant. It says that:

- the nodes are distinct and owned;
- `llSize` counts them;
- the ends are null exactly when the list is empty, and otherwise are the first and last node;
- the head's `prev` and the tail's `next` are null;
- `prev` mirrors `next`;
- node data agrees with `Contents`;
- the cursor flag is false, because no operation ever sets it.

Every operation is a method whose `ensures` gives the new `Contents` in terms of the old
one, together with `Valid()`. Lemmas then show what `Valid()` means for traversal:

- following `next` from the head visits exactly `llSize` distinct nodes and then reaches null;
- following `prev` from the tail visits the same nodes backwards;
- the two walks read `Contents` and its reverse.

Where the C++ code is broken, the model follows what the code evidently intends. Each case is
marked in a comment at its place:

- `removeEnd` reads `last_node->prev_node`, a field that does not exist; the model uses `prev`.
- `removeEnd` on a one-element list deletes the node but never nulls `first_node`, although
  its own comment says both ends must be nulled. The model nulls both.
- `getDataVec` pushes into a vector pointer it never allocates. The model returns
  `Some(Contents)`, and `None` for the empty list, where the source returns `NULL`.
- `at` returns nothing when the index is out of range. The model returns `Err(OutOfBounds)`.

The `"non-fatal error: out of bounds"` console message is not modelled as output. Each place
that prints it becomes the `OutOfBounds` error result, or a state left unchanged.

## Model

| member | source | states |
|---|---|---|
| `LinkedListLiteral.Node.constructor` | LinkedListLiteral.h:104-112 | a new node holds the given datum and is not yet linked |
| `LinkedListLiteral.LinkedList.constructor` | LinkedListLiteral.h:125-132 | the default constructor yields a valid empty list with both callback flags unset |
| `LinkedListLiteral.LinkedList.Sized` | LinkedListLiteral.h:134-152 | the list holds exactly `initSize` copies of the zero value `(T)0`, appended by repeated `addToEnd`; a negative size takes no branch and leaves an empty list |
| `LinkedListLiteral.LinkedList.AddToEnd` | LinkedListLiteral.h:154-175 | contents become `old + [data]`, size grows by one, the list stays well-linked, the result is 0; on an empty list the new node is both head and tail |
| `LinkedListLiteral.LinkedList.AddToBegin` | LinkedListLiteral.h:177-193 | contents become `[data] + old`; the result is 0 on a non-empty list and 1 on an empty one, where it delegates to `addToEnd` and falls through |
| `LinkedListLiteral.LinkedList.RemoveEnd` | LinkedListLiteral.h:195-211 | an empty list is unchanged; otherwise the last element is dropped and the list stays well-linked; removing the sole element nulls both ends and the cursor |
| `LinkedListLiteral.LinkedList.RemoveBegin` | LinkedListLiteral.h:213-224 | an empty list is unchanged; otherwise the first element is dropped and the new head's `prev` is null; below two elements the effect is that of `removeEnd` |
| `LinkedListLiteral.LinkedList.GetSize` | LinkedListLiteral.h:226-229 | returns the number of elements, with no side effect |
| `LinkedListLiteral.LinkedList.MakeCallbackPtr` | LinkedListLiteral.h:231-247 | with the flag set, the callback is applied once to every element in head-to-tail order (contents become `MapSeq(f, old)`); with the flag unset or an empty list nothing changes; the nodes and their links stay the same |
| `LinkedListLiteral.MapSeq` | LinkedListLiteral.h:236-239 | the result has the input's length and holds `f` of each element at the same position |
| `LinkedListLiteral.LinkedList.MakeCallbackLit` | LinkedListLiteral.h:249-265 | the list is not changed; the callback receives every element once, head to tail, when its flag is set and the list is non-empty, and is not called otherwise |
| `LinkedListLiteral.LinkedList.SetCallbackPtr` | LinkedListLiteral.h:267-272 | the pointer callback is replaced and its flag set; nothing else changes |
| `LinkedListLiteral.LinkedList.SetCallbackLit` | LinkedListLiteral.h:274-279 | the value callback is replaced and its flag set; nothing else changes |
| `LinkedListLiteral.LinkedList.At` | LinkedListLiteral.h:281-292 | for `0 <= index < size` returns the element at that position, found by walking from the head; any other index gives `OutOfBounds`; the list is not changed |
| `LinkedListLiteral.LinkedList.GetDataVec` | LinkedListLiteral.h:294-307 | on a non-empty list returns exactly the contents from head to tail; on an empty list returns `None`, the source's `NULL` |
| `LinkedListLiteral.LinkedList.UserNodeIsSet` | LinkedListLiteral.h:357-360 | always false, because no operation sets `user_node_set` |
| `LinkedListLiteral.LinkedList.WalkForward` | LinkedListLiteral.h:104-115 | walking `m` steps along `next` from position `i` lands on position `i + m`, or on null just past the tail |
| `LinkedListLiteral.LinkedList.WalkBackward` | LinkedListLiteral.h:104-115 | walking `m` steps along `prev` from position `i` lands on position `i - m`, or on null just before the head |
| `LinkedListLiteral.LinkedList.HeadWalkVisitsSizeNodes` | LinkedListLiteral.h:101-115 | following `next` from `first_node` visits exactly `ll_size` distinct nodes, the list's nodes in order, and then reaches null |
| `LinkedListLiteral.LinkedList.TailWalkVisitsSizeNodes` | LinkedListLiteral.h:101-115 | following `prev` from `last_node` visits the same nodes in reverse order and then reaches null |
| `LinkedListLiteral.LinkedList.ReadForwardFrom` | LinkedListLiteral.h:104-115 | the data read along `next` from position `i` for `m` nodes is the contents slice `[i, i + m)` |
| `LinkedListLiteral.LinkedList.ReadBackwardFrom` | LinkedListLiteral.h:104-115 | the data read along `prev` from position `i` for `m` nodes is the slice ending at `i`, reversed |
| `LinkedListLiteral.LinkedList.BothWalksReadContents` | LinkedListLiteral.h:101-115 | the data read head to tail is the contents, and the data read tail to head is the contents reversed |
| `LinkedListLiteral.LinkedList.EndsMatchSize` | LinkedListLiteral.h:101-115 | size 0 iff both ends are null, size 1 iff both ends are the same node, and distinct ends above that |
| `LinkedListLiteral.AtAgreesWithDataVec` | LinkedListLiteral.h:281-307 | `at` succeeds exactly on the indices of the `getDataVec` copy and returns the element found there |
| `LinkedListLiteral.AddToEndThenRemoveEnd` | LinkedListLiteral.h:154-211 | `removeEnd` right after `addToEnd` restores the contents and keeps the list well-linked |
| `LinkedListLiteral.AddToBeginThenRemoveBegin` | LinkedListLiteral.h:177-224 | `removeBegin` right after `addToBegin` restores the contents and keeps the list well-linked |

## Left out

- Console output: the `OUT_OF_BOUNDS` messages printed on error paths are left out. Each one becomes an error result or an unchanged state.
- `getPointerVec`, `UN_moveBack`, `UN_moveForward`, `UN_setToBeg`, `UN_getData` and `UN_getPtr` are left out. Their bodies are empty and return nothing, so they have no behaviour to model.
- `UN_setToEnd` is left out. It points the cursor at `first_node`, despite its name, and returns nothing. No cursor semantics are invented for it.
- The `LL` and `ll` macros and the include guard are preprocessor plumbing and are left out.
- `delete` is modelled only as removing the node from `nodes` and `Repr`. Dafny has no explicit deallocation.
- A negative `init_size` leaves `first_node` and `last_node` uninitialised in the source. Every read of them is guarded by `ll_size`, so the list behaves as empty. The model nulls them.
- `(T)0` is the `zero` parameter of `Sized`. Dafny has no cast from an integer literal to a type parameter.
- `llSize` and `index` are unbounded integers. The model does not capture 32-bit `int` overflow of the size counter.
- Callbacks are pure Dafny functions. The pointer callback is the new value it writes into the element. The value callback's only modelled effect is the sequence of arguments it receives, which `MakeCallbackLit` returns. Arbitrary side effects of the real function pointers are not modelled.
- Before a callback is registered, its C++ function pointer is uninitialised. The model stores the identity function or a constant function there. These are never called, because the flag is unset.
- Both C++ list constructors leave `user_node` uninitialised, and the sized constructor with `init_size >= 1` also leaves `first_node` and `last_node` uninitialised until the first `addToEnd`. The model nulls all three. No operation reads them before writing them.
- The C++ `node` constructor leaves `prev` and `next` uninitialised. The model sets them to null, and the list assigns both right away, as the source does.
- The destructor is not modelled. The class declares none, so the nodes of a destroyed list leak in the source.
