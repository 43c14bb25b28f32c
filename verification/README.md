# Persistent stack, modelled in Dafny

This project models the persistent singly-linked stack of
`NaiveDSA/LinkedList/rust-to-many/src/persist_stack.rs`. A `List<T>` is a
handle on an immutable chain of `Rc`-shared nodes. `append` pushes an element
on the front and returns a new list whose tail is the receiver's chain. `tail`
returns the chain after the first node. `head` peeks at the first element.
`iter` walks the chain front to back. The custom `Drop` frees nodes one at a
time and stops at the first node that another list still owns.

Two views are modelled:

- `PersistStack` (`persist_stack.dfy`) is the value view. `Link<T>` is the
  inductive chain, `List<T>` is the handle, `Iter<T>` is the iterator state.
  `Items` reads a list's contents as a `seq<T>`, and `IsSuffix` says one chain
  is shared by another as its suffix. Lists are immutable values, so a call
  can never change its receiver. The contracts state how the new list's
  contents relate to the old one's, and that the new list shares the old
  list's nodes.
- `RcHeap` (`rc_heap.dfy`) is the ownership view that `Drop` needs. Every
  node is a `Cell` at an address `Ref`, with its element, its `next` link and
  its strong count. `roots` is the multiset of head links of the other live
  lists. `Valid` says two things. First, every link points at an allocated
  cell. Second, every strong count equals the number of owners the cell has:
  cells linking to it, live lists whose head it is, and the link held by the
  running code. `Append` and `Tail` clone one link, so one count goes up.
  `Drop` is a loop that frees a cell whose count is 1 and moves on to its
  successor. At the first cell whose count is higher, it releases its
  reference and stops. That is `Rc::try_unwrap` failing, followed by `break`.
  `Abstract` maps a chain of cells to the `PersistStack` list it represents.
  Through it, `append` and `tail` on cells are shown to refine the
  value-level operations.

`wrappers.dfy` holds the `Option` type used for `head` and the links.

## Model

| member | source | states |
|---|---|---|
| PersistStack.New | NaiveDSA/LinkedList/rust-to-many/src/persist_stack.rs:15-17 | a new list has no elements, and its head is `None` |
| PersistStack.Append | NaiveDSA/LinkedList/rust-to-many/src/persist_stack.rs:19-27 | the result holds `x` followed by the receiver's elements; its head is `Some(x)`; its first node links to the receiver's head, so the receiver's chain is the new list's suffix (that the same cells are shared is stated by `RcHeap.AppendListAt`) |
| PersistStack.Tail | NaiveDSA/LinkedList/rust-to-many/src/persist_stack.rs:29-38 | the result holds the receiver's elements minus the first; the tail of an empty list is empty and does not fail; the result's chain is a suffix of the receiver's |
| PersistStack.Head | NaiveDSA/LinkedList/rust-to-many/src/persist_stack.rs:40-43 | `None` exactly when the list is empty; otherwise the first element |
| PersistStack.Iterate | NaiveDSA/LinkedList/rust-to-many/src/persist_stack.rs:50-56 | a fresh iterator has the list's whole contents still to yield |
| PersistStack.Next | NaiveDSA/LinkedList/rust-to-many/src/persist_stack.rs:58-66 | yields `None` exactly when nothing is left, and then the iterator stays as it was; otherwise yields the first remaining element, and what remains afterwards is the rest |
| PersistStack.Collect | NaiveDSA/LinkedList/rust-to-many/src/persist_stack.rs:51-66 | calling `next` until it yields `None` produces the list's elements front to back; `next` is called exactly length + 1 times |
| PersistStack.AppendTailInverse | NaiveDSA/LinkedList/rust-to-many/src/persist_stack.rs:29-38 | `tail` after `append(x)` gives back the very same list; on a non-empty list, `append` of the head after `tail` rebuilds the list |
| PersistStack.SuffixElems | NaiveDSA/LinkedList/rust-to-many/src/persist_stack.rs:19-25 | a chain that another chain shares as its suffix carries exactly the last elements of the other chain |
| PersistStack.Persistence | NaiveDSA/LinkedList/rust-to-many/src/persist_stack.rs:19-27 | after any number of appends on `l`, the result ends with `l`'s own chain; its contents are the appended elements, last first, followed by exactly `l`'s contents |
| PersistStack.TailsAreSuffixes | NaiveDSA/LinkedList/rust-to-many/src/persist_stack.rs:29-38 | after any number of tails on `l`, the result is a suffix of `l`'s chain holding `l`'s contents minus the first `k`, or nothing once `k` exceeds the length; tails of the empty list never fail |
| PersistStack.IterateAppend | NaiveDSA/LinkedList/rust-to-many/src/persist_stack.rs:51-66 | iterating `append(x)` first yields `x`, then continues exactly as an iterator over the original list |
| PersistStack.BasicsScenario | NaiveDSA/LinkedList/rust-to-many/src/persist_stack.rs:90-110 | the `basics` test: heads 3, 2, 1 and then `None` across repeated tails, and the tail of an empty list is empty |
| PersistStack.IterScenario | NaiveDSA/LinkedList/rust-to-many/src/persist_stack.rs:112-120 | the `iter` test: appending 1, 2, 3 iterates as 3, 2, 1 |
| RcHeap.Append | NaiveDSA/LinkedList/rust-to-many/src/persist_stack.rs:19-27 | allocates one new cell holding `x` and the receiver's head link; the receiver's head cell gains one owner; no existing cell changes its element or link |
| RcHeap.Tail | NaiveDSA/LinkedList/rust-to-many/src/persist_stack.rs:32-38 | the new head link is the receiver's second link, or `None` for an empty list; that cell gains one owner; nothing is allocated, and no element or link changes |
| RcHeap.AppendValid | NaiveDSA/LinkedList/rust-to-many/src/persist_stack.rs:19-27 | after `append`, the strong counts are exact again, with the new list as one more live owner |
| RcHeap.TailValid | NaiveDSA/LinkedList/rust-to-many/src/persist_stack.rs:32-38 | after `tail`, the strong counts are exact again, with the new list as one more live owner |
| RcHeap.AppendListAt | NaiveDSA/LinkedList/rust-to-many/src/persist_stack.rs:19-27 | the receiver keeps its chain and elements; the new list's chain is the new cell followed by the receiver's chain, and its elements are `x` followed by the receiver's |
| RcHeap.AppendRefines | NaiveDSA/LinkedList/rust-to-many/src/persist_stack.rs:19-27 | `append` on cells refines `append` on values: the new chain represents the value-level append of the list the receiver's chain represents, and the receiver still represents the same list |
| RcHeap.TailRefines | NaiveDSA/LinkedList/rust-to-many/src/persist_stack.rs:32-38 | `tail` on cells refines `tail` on values, including the empty list, and the receiver still represents the same list |
| RcHeap.AbstractValues | NaiveDSA/LinkedList/rust-to-many/src/persist_stack.rs:3-12 | the value-level list that a chain of cells represents has exactly the elements stored along that chain |
| RcHeap.TailListAt | NaiveDSA/LinkedList/rust-to-many/src/persist_stack.rs:32-38 | the receiver keeps its chain and elements; the new list's chain is the receiver's without its first cell |
| RcHeap.FreeStep | NaiveDSA/LinkedList/rust-to-many/src/persist_stack.rs:77-78 | a cell with strong count 1, held by the running code, has no other owner; freeing it keeps every link pointing at allocated cells and moves the ownership of its successor to the running code |
| RcHeap.ReleaseStep | NaiveDSA/LinkedList/rust-to-many/src/persist_stack.rs:77-81 | releasing a shared cell lowers its count by one and keeps all counts exact |
| RcHeap.FreeMaintains | NaiveDSA/LinkedList/rust-to-many/src/persist_stack.rs:75-78 | one iteration that frees a cell extends the freed prefix of the chain and keeps the loop's invariant |
| RcHeap.SharedCellDropped | NaiveDSA/LinkedList/rust-to-many/src/persist_stack.rs:77-81 | stopping at a shared cell leaves a heap with exact counts, in which only that cell's count changed |
| RcHeap.EndOfChainDropped | NaiveDSA/LinkedList/rust-to-many/src/persist_stack.rs:74-75 | reaching the end of the chain means every visited cell was freed and nothing else changed |
| RcHeap.RootPathsSurvive | NaiveDSA/LinkedList/rust-to-many/src/persist_stack.rs:69-83 | when links point at allocated cells and the surviving cells keep their links, every chain that starts at a live list is still intact |
| RcHeap.Drop | NaiveDSA/LinkedList/rust-to-many/src/persist_stack.rs:69-83 | the loop terminates, because each continuing step frees a cell. It frees a prefix of the dropped chain, each cell of which had count 1. It stops either at the end of the chain or at the first shared cell, whose count drops by one. No other cell changes, the counts are exact for the remaining lists, and every chain from another live list survives |
| RcHeap.OthersKeepElements | NaiveDSA/LinkedList/rust-to-many/src/persist_stack.rs:69-83 | after `drop`, every other live list keeps its whole chain with the same elements in the same order |

## Left out

- Concurrency/rust-port/src/thread_pool/mod.rs is not part of this model. It is a separate component, a thread-pool trait about OS threads, panics and channels, and has nothing to do with the persistent stack.
- NaiveDSA/Vector/rust/src/lib.rs is not part of this model. It is a separate component, a growable vector, and has nothing to do with the persistent stack.
- Rust mechanics are abstracted away: `Rc` cloning as a strong-count increment, `as_ref`/`map`/`and_then` plumbing, lifetimes, and the borrow held by `Iter`. `head` and `next` return the element itself, not a reference to it.
- RcHeap has no `New`: an empty list is the link `None`, which touches no cell.
- RcHeap.Append: the address of the new allocation is a parameter `addr`, which must be unused. The allocator is not modelled.
- Destructors of the elements themselves (`T`'s own `Drop`) are not modelled. A freed cell simply leaves the heap.
- Strong counts are unbounded `nat`s. Rust aborts on strong-count overflow, and that path is not modelled.
- Weak references do not occur in the source and are not modelled. `Rc::try_unwrap` is modelled as succeeding exactly when the strong count is 1.
- The implicit drop of the `head` field after `drop` returns is not modelled separately. The loop starts with `take()`, which leaves the field `None`, so that drop frees nothing.
