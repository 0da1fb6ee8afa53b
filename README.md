# Doubly linked list `LL<T>`, modelled in Dafny

The repository is a single generic doubly linked list, `LL<T>`, in `src/main.rs`.
A list has optional `head` and `tail` node references. Each node has a `value`
and optional `next`/`prev` links. The operations are `new`, `push_back`,
`push_front`, `pop_back`, `print`, `replace(index, item)` and
`insert(index, item)`. A `main` function drives them.

The model is the class `DoublyLinkedList.LL<T>` (file `LinkedList.dfy`). It keeps
the nodes in an index arena:

- the sequences `value`, `next` and `prev` hold one node per slot;
- a link, `head` or `tail` holds a slot index, or `Nil` (-1) for `None`;
- the ghost field `order` lists the slots reachable from `head`, in list order;
- the ghost field `Contents` is the list as a sequence of values.

There are two invariants:

- `Chain()`: the chain from `head` is sound. It is the predicate `Linked`:
  - `next` and `prev` mirror each other along `order`;
  - no slot repeats;
  - the first node has no `prev` and the last node has no `next`.
  
  `Chain()` also ties `Contents` to the slots' values.
- `Valid()`: `Chain()`, and in addition `tail` names the last node.

Two invariants are needed because `insert` never updates `tail`. On a
two-element list, which is exactly the state `main` calls it in, `insert`
leaves a list that satisfies `Chain()` but not `Valid()`.

Each mutating method states its whole new state, in terms of the old one:

- the arena sequences;
- `head` and `tail`;
- `order` and `Contents`.

The traversals are the ghost functions `Forward` and `Backward`. `Forward`
follows `next`, as the recursive `_print` does. `Backward` follows `prev` from
the tail. The lemmas prove three things:

- walking forward from the head yields `Contents`;
- walking back from the tail yields `Contents` reversed;
- hence the two walks visit the same number of nodes.

The module `Driver` (file `Driver.dfy`) holds `main` as a proved scenario, plus
the client-level properties. Panics of the source (an `unwrap` of `None`) are
preconditions.

In three places the code does not do what a doubly linked list evidently
should. This model follows the code:

- `insert` takes one step whatever its index is;
- `insert` does not update `tail`;
- `pop_back` on a one-element list panics instead of emptying the list.

Each is a finding below. The corrected behaviour is in `InsertAfter` and
`PopBackCorrected`.

## Model

| member | source | states |
|---|---|---|
| `DoublyLinkedList.LL.constructor` | src/main.rs:19-24 | a new list has neither head nor tail, its arena is empty, `Contents == []`, and `Valid()` holds |
| `DoublyLinkedList.LL.PushBack` | src/main.rs:26-42 | `Contents` becomes `old(Contents) + [v]`; the new slot becomes the tail; it is also the head when the list was empty; the old tail's `next` and the new node's `prev` link the two; `Valid()` is preserved |
| `DoublyLinkedList.LL.PushFront` | src/main.rs:44-60 | `Contents` becomes `[v] + old(Contents)`; the new slot becomes the head; it is also the tail when the list was empty; the old head's `prev` and the new node's `next` link the two; it needs only `Chain()` and keeps it, and it keeps `Valid()` (and makes it hold on an empty list) |
| `DoublyLinkedList.LinkFront` | src/main.rs:44-60 | linking a fresh slot in front of the first node keeps next/prev mirrored, slots distinct and both ends open; the chain then spells `[v] + contents`; the last node is unchanged unless the chain was empty |
| `DoublyLinkedList.LL.PopBack` | src/main.rs:62-71 | on an empty list: returns `None` and changes nothing; on two or more elements: returns the last value, drops it from `Contents` and `order`, makes the old tail's `prev` the tail, clears that node's `next`, and keeps `head`; `Valid()` is preserved; a one-element list is excluded because line 67 panics there |
| `DoublyLinkedList.PopBackSingletonUnwrapsNone` | src/main.rs:66-67 | in a one-element chain the tail's `prev` is `None` and the head is that same node, so `pop_back` unwraps `None` and leaves `head` set |
| `DoublyLinkedList.LL.PopBackCorrected` | src/main.rs:62-71 | the intended `pop_back`: the same results, except that popping the only node clears both `head` and `tail`; `Valid()` is preserved in every case |
| `DoublyLinkedList.LL.Print` | src/main.rs:73-81 | the loop over `next` links from `head` returns exactly `Contents`; this needs only `Chain()`, so it holds after `insert` too |
| `DoublyLinkedList.ForwardWalk` | src/main.rs:74-79 | `Forward`, the recursive walk along `next` that `_print` makes, is modelled as a ghost function; from the head it yields the list's values in order |
| `DoublyLinkedList.ForwardSuffixAnyFuel` | src/main.rs:74-79 | the walk from position `k` yields `contents[k..]` with any fuel of at least the remaining length, so it stops at the last node's `None` link |
| `DoublyLinkedList.LL.ForwardWalkOnList` | src/main.rs:73-81 | on the list itself (`Chain()`), `Forward` from `head` with any fuel of at least the length yields `Contents` |
| `DoublyLinkedList.ForwardSuffix` | src/main.rs:74-79 | the recursive walk from the node at position `k` yields `Contents[k..]` |
| `DoublyLinkedList.BackwardWalk` | src/main.rs:7-16 | no source function walks `prev`; `Backward`, the walk along `prev` links from the last node, states the invariant the `prev` and `tail` fields are meant to carry: it yields `Reverse(Contents)` |
| `DoublyLinkedList.TraversalsAgree` | src/main.rs:7-16 | the invariant the `prev` and `tail` fields are meant to carry (no source function walks `prev`): the backward walk from the tail is the reverse of the forward walk from the head, and both have the same length |
| `DoublyLinkedList.LL.TraversalsAgreeOnList` | src/main.rs:13-16 | the same invariant on the list itself (no source function walks `prev`): on a list satisfying `Valid()`, `Backward` from `tail` is the reverse of `Forward` from `head`, with equal lengths |
| `DoublyLinkedList.LL.Replace` | src/main.rs:83-99 | if `index < old length`: returns the slot at position `index`, and `Contents` becomes `old(Contents)[index := item]`; otherwise: returns `None` and leaves the values unchanged; in both cases links, `head`, `tail` and `order` are unchanged, and `Chain()`/`Valid()` are preserved |
| `DoublyLinkedList.LL.ReplaceFrom` | src/main.rs:84-97 | `_replace` from the node at position `k`, still `index` steps to go: it overwrites the value at position `k + index` if that position exists, and returns `None` otherwise; no link changes |
| `DoublyLinkedList.LL.SpliceAfter` | src/main.rs:113-122 | a fresh node goes into `order` and `Contents` right after the anchor; its `prev` is the anchor and its `next` is the anchor's old successor; that successor's `prev` and the anchor's `next` point to it; `head` and `tail` are untouched; `Chain()` is preserved, and so is `Valid()` when the anchor was not the last node |
| `DoublyLinkedList.SpliceKeepsChain` | src/main.rs:114-122 | the splice on the arena's sequences keeps the chain sound; it then spells the contents with `item` after position `pos`; the first node is kept, and the last node too unless the anchor was last |
| `DoublyLinkedList.LinkAfter` | src/main.rs:114-122 | the anchor's old `next` is its successor in `order`; splicing a fresh slot after it keeps the chain linked and duplicate-free |
| `DoublyLinkedList.LL.Insert` | src/main.rs:101-124 | whatever `index` is: on an empty list, returns `None` and changes nothing; otherwise the new node lands after the second node (`Contents == old[..2] + [item] + old[2..]`), with the link updates of `SpliceAfter` and `tail` unchanged; `Chain()` is preserved; `Valid()` is preserved from three elements up; on a two-element list the old tail is left second and `Valid()` fails |
| `DoublyLinkedList.StaleTailWalk` | src/main.rs:119-122 | in the three-node chain `insert` leaves behind, the walk back from the stale tail sees two values where the forward walk sees three, so the traversals disagree |
| `DoublyLinkedList.LL.InsertAfter` | src/main.rs:101-124 | the intended `insert`: if `index >= length`, returns `None` and leaves the list unchanged; otherwise the new node lands right after position `index` (`Contents == old[..index+1] + [item] + old[index+1..]`) and becomes the tail when the anchor was the tail; `Valid()` is preserved |
| `Driver.BuildList` | src/main.rs:129-133 | `push_back(2)`, `push_back(3)`, `push_front(1)`, `push_back(4)` give a valid list `[1, 2, 3, 4]` |
| `Driver.MainScenario` | src/main.rs:128-143 | `main`: prints `[1, 2, 3, 4]`; pops `Some(4)` and then `Some(3)`; after `replace(1, 9999)` the list is `[1, 9999]`; after `insert(1, 2222)` it prints `[1, 9999, 2222]`, while the walk along `prev` from the stale `tail` yields only `[9999, 1]` |
| `Driver.EmptyPopScenario` | src/main.rs:62-64 | `pop_back` on a new list returns `None`, and the list still prints as empty |
| `Driver.PushThenPop` | src/main.rs:26-71 | on a non-empty list, `push_back(v)` then `pop_back()` returns `Some(v)` and restores `Contents`, `order`, `head`, `tail` and every old link; only a dead arena slot is left over |
| `Driver.InsertIgnoresIndex` | src/main.rs:101-111 | on `[1, 2, 3, 4]`, `insert(0, 7)` gives `[1, 2, 7, 3, 4]`, while inserting after position 0 gives `[1, 7, 2, 3, 4]` |
| `Driver.CorrectedScenario` | src/main.rs:128-143 | `main` with the corrected operations prints `[1, 9999, 2222]`; popping then returns 2222, 9999, 1 and finally `None`, and leaves the list empty |

## Left out

- `print` writes values with `println!`, and `main` writes headings and popped values. That output is I/O. The model returns the sequence of values instead.
- `Rc` reference counting, `RefCell` borrow checks and memory reclamation are left out. So is the leak caused by the strong `next`/`prev` cycles. Arena slots are never freed: a popped node's slot stays in the arena, unreachable from `head`.
- Line 68 of `pop_back` uses `take()`, which resets the popped node to its `Default` value. The model does not do this: the popped slot keeps its old value and `prev`, because nothing can reach it.
- `replace` and `insert` return node handles (`Rc<RefCell<Node>>`). The model returns the node's arena index instead.
- `Forward` and `Backward` take a fuel bound, the number of nodes in the list. They model the walks only on lists whose chain is sound.
- DoublyLinkedList.LL.PopBack: a one-element list is a precondition, because the source panics at line 67. The model leaves out the state the panic leaves behind (`tail` cleared, `head` still set).
- DoublyLinkedList.LL.Insert: a one-element list is a precondition, because the source panics at line 113.
- DoublyLinkedList.LL.PushBack: only modelled on lists that satisfy `Valid()`. After an `insert` on a two-element list, the source would link the new node after the stale tail. The model does not follow that corrupted state.
- DoublyLinkedList.LL.PopBack: only modelled on lists that satisfy `Valid()`, for the same reason.

## Findings

| source | as written | input that shows it | evidently intended | confidence | as-written member | corrected member |
|---|---|---|---|---|---|---|
| src/main.rs:103 | `for _ in [0..index]` iterates over a one-element array holding a range, so the walk always takes exactly one step | `insert(0, 7)` on `[1, 2, 3, 4]` gives `[1, 2, 7, 3, 4]` | walk `index` steps and insert after position `index`: `[1, 7, 2, 3, 4]`; changing the loop to `0..index` alone would still panic at the `unwrap` on line 113 when `index` equals the length, so `InsertAfter` also replaces that `unwrap` with a `None` return, giving `None` for every index at or past the length | not executed | `DoublyLinkedList.LL.Insert`, shown by `Driver.InsertIgnoresIndex` | `DoublyLinkedList.LL.InsertAfter` |
| src/main.rs:119-122 | `insert` never updates `tail`, even when the anchor is the tail | `main` itself: `insert(1, 2222)` on `[1, 9999]` leaves `tail` at 9999, whose `next` is now 2222 | the new node becomes the tail when it is spliced after the tail | not executed | `DoublyLinkedList.LL.Insert` (its `!Valid()` ensures), shown by `DoublyLinkedList.StaleTailWalk` | `DoublyLinkedList.LL.InsertAfter`, used by `Driver.CorrectedScenario` |
| src/main.rs:66-67 | `pop_back` moves `tail` to the popped node's `prev` and unwraps it | `pop_back` on `[5]`: the `prev` is `None`, so the unwrap panics and `head` remains set | popping the last node clears `head` and `tail` and returns `Some(5)` | not executed | `DoublyLinkedList.LL.PopBack` (its precondition), shown by `DoublyLinkedList.PopBackSingletonUnwrapsNone` | `DoublyLinkedList.LL.PopBackCorrected`, used by `Driver.CorrectedScenario` |
