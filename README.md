# Stack<T>: a LIFO container over a doubly-linked node chain

This project models the `Stack<T>` class template of `stackHeader.hpp`, the only
component of the repository. The stack is a chain of `Node` objects, each with
`data`, `prev` and `next`. The class keeps a `head` pointer to the most recently
pushed node and a `stack_size` counter. On top of the chain sit the mutating
operations (`push`, `push_range`, `emplace`, `swap`, `pop`, `clear`), the
observers (`top`, `empty`, `size`) and two bidirectional cursors (`iterator`,
`const_iterator`) obtained from `begin`/`end` and `cbegin`/`cend`.

The method bodies live in `stackImplementation.tpp`, and stackImplementation.tpp
is not part of this model. The behaviour therefore follows the header's declared
interface and data layout, plus the outcomes that `main.cpp` states in its
"Expected:" comments.

Layout:

- `chain.dfy`, module `Chain`: the `Node` class. Also the chain invariant
  `ChainOf`: the nodes are linked both ways, null at both ends, distinct, counted
  by the size and holding the elements in order.
- `linked_stack.dfy`, module `LinkedStack`: the `Stack` class, its `Iterator`
  and `ConstIterator` classes, and lemmas about the representation.
  - `Stack` keeps the real fields `head` and `stackSize`.
  - It also keeps ghost fields for its abstract value: `elems` (the elements, top
    first), `nodes` (the chain) and `Repr` (the nodes it owns).
  - `Valid()` ties the ghost fields to the real ones. Every mutating method
    states its new `elems` in terms of the old one.
- `stack_spec.dfy`, module `StackSpec`:
  - the error taxonomy (`EmptyContainer`) and the `Outcome`/`Result` types that
    carry it;
  - the abstract meaning of bulk insertion: `Reverse`, repeated pushes `PushAll`,
    repeated pops `PopN`;
  - the lemmas relating them (LIFO, round trips).
- `driver.dfy`, module `Driver`: clients of the API.
  - The iteration loop of `main.cpp`.
  - A push-then-pop round trip.
  - The whole demonstration, replayed with the printed values as postconditions.

Error handling: `pop()` throws on an empty stack, as the demonstration's last
step shows (main.cpp:59-65, a pop on the cleared stack inside a `try` with a
`catch`). Here `Pop` returns `Fail(EmptyContainer)` and leaves the stack
unchanged. `top()` on an empty stack is assumed to fail in the same way, as
`Top` returning `Failure(EmptyContainer)`; the visible code does not show it
(see "Left out").

## Model

| member | source | states |
|---|---|---|
| `Chain.Node.constructor` | stackHeader.hpp:14 | a new node holds the given value and is linked to nothing |
| `LinkedStack.Stack.constructor` | stackHeader.hpp:70 | a new stack is valid and empty (no elements, no nodes) |
| `LinkedStack.Stack.Push` | stackHeader.hpp:72 | the value becomes the new top above all older elements, which are unchanged; the chain gains exactly one fresh node in front; the invariant is kept |
| `LinkedStack.Stack.PushRange` | stackHeader.hpp:73 | the contents become the list reversed on top of the old contents, so the last list element is the top and the size grows by the list length; the old chain is kept unchanged behind exactly one fresh node per list element, and the footprint grows by exactly those nodes |
| `LinkedStack.Stack.Emplace` | stackHeader.hpp:75-76 | behaves exactly as a push of the value built from the arguments |
| `LinkedStack.Stack.Swap` | stackHeader.hpp:78 | the two stacks exchange their elements, chains and footprints, and both stay valid |
| `LinkedStack.Stack.Pop` | stackHeader.hpp:79 | on a non-empty stack it succeeds, removes exactly the top element and releases its node; on an empty stack it fails with EmptyContainer and neither the stack nor any node it owns is modified |
| `LinkedStack.Stack.Top` | stackHeader.hpp:80 | succeeds exactly when the stack is non-empty, yielding the first element; otherwise fails with EmptyContainer |
| `LinkedStack.Stack.Empty` | stackHeader.hpp:81 | true exactly when there are no elements, and exactly when size is 0; reads and changes nothing else |
| `LinkedStack.Stack.Size` | stackHeader.hpp:82 | the number of elements, equal to the number of chain nodes |
| `LinkedStack.Stack.Clear` | stackHeader.hpp:83 | after walking the chain the stack is valid, with no elements, no nodes and nothing owned; from an empty stack it ends in the same abstract state |
| `LinkedStack.Stack.AssignThrough` | stackHeader.hpp:37 | writing through `*it` at position k replaces element k only and keeps the chain |
| `LinkedStack.Stack.Begin` | stackHeader.hpp:84 | a fresh cursor at position 0: the head, or the end sentinel when empty |
| `LinkedStack.Stack.End` | stackHeader.hpp:85 | a fresh cursor at the sentinel one past the last element (null) |
| `LinkedStack.Stack.CBegin` | stackHeader.hpp:86 | read-only cursor at position 0, without modifying the stack |
| `LinkedStack.Stack.CEnd` | stackHeader.hpp:87 | read-only cursor at the end sentinel, without modifying the stack |
| `LinkedStack.Iterator.constructor` | stackHeader.hpp:36 | the cursor names the given node |
| `LinkedStack.Iterator.Increment` | stackHeader.hpp:39 | `++it` moves to the node's `next` |
| `LinkedStack.Iterator.Decrement` | stackHeader.hpp:40 | `--it` moves to the node's `prev` |
| `LinkedStack.Iterator.PostIncrement` | stackHeader.hpp:41 | `it++` moves to `next` and returns a fresh cursor at the old node |
| `LinkedStack.Iterator.PostDecrement` | stackHeader.hpp:42 | `it--` moves to `prev` and returns a fresh cursor at the old node |
| `LinkedStack.ConstIterator.constructor` | stackHeader.hpp:57 | the read-only cursor names the given node |
| `LinkedStack.ConstIterator.Increment` | stackHeader.hpp:60 | `++it` moves to the node's `next` |
| `LinkedStack.ConstIterator.Decrement` | stackHeader.hpp:61 | `--it` moves to the node's `prev` |
| `LinkedStack.ConstIterator.PostIncrement` | stackHeader.hpp:62 | `it++` moves to `next` and returns a fresh cursor at the old node |
| `LinkedStack.ConstIterator.PostDecrement` | stackHeader.hpp:63 | `it--` moves to `prev` and returns a fresh cursor at the old node |
| `LinkedStack.SizeIsChainLength` | stackHeader.hpp:10-18 | in every valid stack, following `next` from `head` meets null after exactly `stack_size` steps and not before |
| `LinkedStack.PrevInvertsNext` | stackHeader.hpp:12-13 | for any two nodes of the chain, `a.next == b` exactly when `b.prev == a` |
| `LinkedStack.HeadNullIffEmpty` | stackHeader.hpp:17-18 | `head` is null exactly when `empty()` holds |
| `LinkedStack.IncrementAdvances` | stackHeader.hpp:39 | `++` on a cursor at position k reaches position k+1, which is the end sentinel after the oldest element |
| `LinkedStack.DecrementRetreats` | stackHeader.hpp:40 | `--` on a cursor at position k > 0 reaches position k-1; from the head it reaches the null `prev` |
| `LinkedStack.DerefReads` | stackHeader.hpp:37 | `*it` at position k reads element k (the contract of `Iterator.Deref`) |
| `LinkedStack.EqualityIsIdentity` | stackHeader.hpp:43-44 | `==` on two cursors into a stack holds exactly when they are at the same position, whatever values are stored, and `!=` exactly when they are not (this is the contract of `Iterator.Equals` and `Iterator.NotEquals`) |
| `LinkedStack.ConstDerefReads` | stackHeader.hpp:58 | `*it` on a read-only cursor at position k reads element k (the contract of `ConstIterator.Deref`) |
| `LinkedStack.ConstEqualityIsIdentity` | stackHeader.hpp:64-65 | `==` on two read-only cursors holds exactly at the same position and `!=` exactly at different ones (the contract of `ConstIterator.Equals` and `ConstIterator.NotEquals`) |
| `StackSpec.PushAllIsReverse` | stackHeader.hpp:73 | pushing a list one element at a time gives the list reversed above the old contents, the same contents push_range produces |
| `StackSpec.PushAllTop` | stackHeader.hpp:73 | after a bulk push of a non-empty list, the size grows by the list length, the last list element is on top and the old contents lie beneath unchanged |
| `StackSpec.PopNDrops` | stackHeader.hpp:79 | n pops on a stack with at least n elements remove exactly its first n |
| `StackSpec.PushesThenPops` | stackHeader.hpp:72-79 | n pushes followed by n pops restore the previous contents (LIFO); from empty they end empty |
| `Driver.Collect` | main.cpp:48-50 | walking from begin() with `++` until end() yields the elements top first, exactly `elems` |
| `Driver.CollectConst` | stackHeader.hpp:86-87 | the same walk with read-only cursors and postfix `++` yields exactly `elems` |
| `Driver.PushEach` | stackHeader.hpp:72 | pushing a list element by element on the object gives the contents `PushAll` describes, so (by `PushAllIsReverse`) the same as push_range |
| `Driver.PopTimes` | stackHeader.hpp:79 | n calls of pop() on the object give the contents `PopN` describes: the first n elements removed, or an empty stack once they run out |
| `Driver.PushesThenPopsOnStack` | stackHeader.hpp:72-79 | n pushes followed by n pops on the object restore its contents; from an empty stack it ends empty |
| `Driver.PushThenPop` | stackHeader.hpp:72-79 | a push followed at once by a pop succeeds and restores the previous contents |
| `Driver.ReverseOneToFive` | main.cpp:38 | the list {1,2,3,4,5} pushed in order lies as 5,4,3,2,1 |
| `Driver.PushPopPart` | main.cpp:4-23 | after pushing 10, 20, 30 the top is 30; after a pop the top is 20, the size 2 and the stack not empty |
| `Driver.SwapPart` | main.cpp:25-34 | after swapping with a stack holding 200, 100, `s.top()` is 200 and `s2.top()` is 20 |
| `Driver.BulkPart` | main.cpp:36-44 | push_range {1..5} gives top 5; emplace(99) then gives top 99 |
| `Driver.Scenario` | main.cpp:3-68 | the demonstration's observations, in order: tops 30,20,200,20,5,99; sizes 2 and 0; empty no and yes; traversal 99,5,4,3,2,1,200,100; the final pop on the cleared stack fails with EmptyContainer |

## Left out

- The bodies in stackImplementation.tpp (stackHeader.hpp:90) are not visible. Each operation does what its declaration and the demonstration require, in the most direct way.
- In particular, `Clear` is modelled as a walk from `head` along `next` that drops every node, followed by resetting the count.
- Console output and `<iostream>` (stackHeader.hpp:4, all printing in main.cpp) are left out. The demonstration's printed values are returned by `Driver.Scenario` instead.
- `~Stack` (stackHeader.hpp:71) is left out. On the abstract state, its release of every node has the effect of `Clear`.
- `new`, `delete` and allocation failure are left out. A removed node simply leaves the stack's footprint `Repr`, and allocation always succeeds.
- Perfect forwarding and variadic arguments in `emplace` (stackHeader.hpp:75-76) are left out. `Emplace` takes one argument value and a constructor function that builds the element from it.
- `operator->` (stackHeader.hpp:38, 59) only forwards member access to the element, so it is left out. The iterator typedefs and `iterator_category` tags (stackHeader.hpp:21-34, 50-55) have no behaviour and are left out too.
- `top()` on an empty stack (stackHeader.hpp:80) is assumed to fail like `pop()`. Its body is not visible and no visible code calls it on an empty stack. `Top` returns `Failure(EmptyContainer)` there instead of undefined behaviour.
- The `std::exception` message is not modelled: the failure is the single value `EmptyContainer`.
- `size_t` is modelled as an unbounded `nat`. A count that overflows would need more nodes than memory can hold.
- `top()` returns a mutable reference. The model splits this in two:
  - `Top` yields the element as a value.
  - Writing through that reference is `AssignThrough` at position 0, the same as writing through `*begin()`.
- Undefined behaviour is only partly excluded:
  - Dereferencing, incrementing or decrementing the end sentinel is refused by the `nodePtr != null` preconditions of the cursor members (so `--end()` is outside the model).
  - Using a cursor into a node that `pop` or `clear` released is not refused. The cursor members ask only for a non-null node, so in the model such a cursor stays usable and reads the released node's leftover `data`, `prev` and `next`. In C++ this is undefined behaviour.
  - Every property stated about cursors (`DerefReads`, `IncrementAdvances`, `DecrementRetreats`, `EqualityIsIdentity`, their read-only counterparts, `AssignThrough`, `Collect`) assumes `s.Cursor(it.nodePtr, k)` for a valid stack `s`. That is, the cursor names a node still in `s`'s chain.
- Swapping a stack with itself returns at once. Exchanging its fields with themselves would leave them as they are.
- `LinkedStack.Stack.Valid` requires every chain node to be in `Repr`, but not that `Repr` holds only chain nodes. The stronger equality made the proofs too costly. Instead, the contracts of `Push`, `PushRange`, `Emplace` and `Pop` show that each adds only the nodes it links and removes only the node it unlinks.
- The mutable and const iterators differ only in that the const one offers no write through `*`.
- Concurrency is left out: the container is single-threaded.
