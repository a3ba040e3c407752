# odin-hash-map: the linked list and the string hash, in Dafny

This project models the two pieces of logic the repository contains:

- `src/linked-list.js`: a singly linked list whose `LinkedList` object keeps
  a `head` node and a `tail` node, each `Node` holding `data` and `next`. It
  offers `append`, `prepend`, a counting `size`, the accessors `head()` and
  `tail()`, `pop` (unlink the front), `remove(predicate)` (unlink the first
  match and repair `tail`) and a forward iterator.
- `src/hash-map.js`: the `HashMap` constructor, which fixes `capacity` at 16,
  and `hash(key)`, the polynomial rolling hash
  `h = (h * 31 + c) mod 1000000007` over the key's UTF-16 code units, folded
  from the left starting at 0.

`linked_list.dfy` (module `LinkedLists`) models the list as two Dafny
classes. The list's abstract value is the ghost sequence `contents`. The ghost
sequence `nodes` is the chain reachable from `head`, and `Repr` is the set of
objects the list may touch. `Valid()` is the structural invariant: the chain
is `nodes` without repetition, `tail` is null exactly when `head` is, and
otherwise `tail` is the last node and has no successor. Every method keeps
`Valid()` and states its new `contents`, its new `nodes` and what happens to
`head` and `tail`. `remove` takes its predicate as a total function
`T -> bool`, and its result is specified through `FirstMatch`, the position
of the first element satisfying it. The iterator is `Items`, a method that
walks the chain and collects the payloads.

`hash_map.dfy` (module `HashMaps`) gives the hash as the recursive function
`HashOf` over a sequence of code units, and the source's loop as the method
`HashMap.Hash`, proved equal to it. The lemmas show that `HashOf` is the
textbook polynomial `sum key[i] * 31^(n-1-i)` reduced modulo 1000000007, that
it is a left fold, and that every intermediate value of the loop is below
2^53, so JavaScript's floating-point arithmetic computes it exactly and the
unbounded integers of the model agree with it. Every such value is also
non-negative, so JavaScript's `%`, which truncates toward zero, gives the
same remainder as Dafny's Euclidean `%`.

Notes on how the model reads the code:

- In the source, the constructor's fields `head` and `tail`
  (`src/linked-list.js:20-21`) shadow the prototype methods `head()` and
  `tail()` (`src/linked-list.js:87-98`), so those methods cannot be called on
  a list: `list.head()` throws a `TypeError`, because `list.head` is a `Node`
  or `null`, not a function. The model gives the accessors
  the distinct names `FirstData` and `LastData`.
- `undefined`, returned by `pop` and the accessors on an empty list, is
  `None` of an `Option`. A payload that is itself `undefined` is therefore
  distinguishable in the model and not in the source.
- `Remove` is split the way the source's `remove` is laid out: the empty
  check and the head case (`UnlinkHead`, lines 130-133), then the scan past
  the head (`RemoveAfterHead`, lines 136-150), whose unlinking statements
  (lines 141-145) are `UnlinkAfter`. The source's scan returns from inside
  its loop; the model's loop stops at the node before the first match and
  unlinks after the loop. The predicate sees the same payloads in the same
  order.
- `src/index.js` calls `map.set` and reads `map.size` and `map.buckets`, but
  `src/hash-map.js` defines only the constructor and `hash`; the model
  follows the code.

## Model

| member | source | states |
|---|---|---|
| LinkedLists.FirstMatch | src/linked-list.js:130-148 | the scan order of `remove`: `None` exactly when no element satisfies the predicate, otherwise the least position whose element satisfies it |
| LinkedLists.Node.constructor | src/linked-list.js:9-12 | a new node holds the given data and has no successor |
| LinkedLists.LinkedList.Valid | src/linked-list.js:20-21 | the list invariant implies `this in Repr`, that `tail` is null iff `head` is null, and that a non-null `tail` has no successor |
| LinkedLists.LinkedList.constructor | src/linked-list.js:19-22 | a new list is valid and empty, with `head` and `tail` null |
| LinkedLists.LinkedList.Append | src/linked-list.js:29-42 | contents become `old + [d]` and the chain `old(nodes) + [tail]`, the existing nodes staying linked in place; the tail is a fresh node holding `d`; on an empty list head and tail are that same node, otherwise head is unchanged; the invariant is kept |
| LinkedLists.LinkedList.Prepend | src/linked-list.js:49-63 | contents become `[d] + old` and the chain `[head] + old(nodes)`, the existing nodes staying linked in place; the head is a fresh node holding `d`; tail becomes that node only when the list was empty and is unchanged otherwise; the invariant is kept |
| LinkedLists.LinkedList.Size | src/linked-list.js:70-80 | the traversal terminates, returns the length of `contents` and changes nothing |
| LinkedLists.LinkedList.FirstData | src/linked-list.js:87-89 | the first element, or `None` on an empty list |
| LinkedLists.LinkedList.LastData | src/linked-list.js:96-98 | the last element, or `None` on an empty list |
| LinkedLists.LinkedList.Pop | src/linked-list.js:105-118 | on an empty list returns `None` and changes nothing; otherwise returns the first element, leaves `contents[1..]` and the chain without its first node, and clears both ends when the list becomes empty while keeping `tail` otherwise; the invariant is kept |
| LinkedLists.LinkedList.Remove | src/linked-list.js:126-151 | returns true exactly when some element satisfies the predicate; if none does, nothing changes; otherwise exactly the first such element is deleted, the others keep their order, the sole node's removal empties the list, removing the last node makes its predecessor the tail, and any other removal leaves the tail unchanged; the invariant is kept |
| LinkedLists.LinkedList.UnlinkHead | src/linked-list.js:130-133 | dropping the head deletes element 0; when it was the sole node both ends become null, otherwise the tail is kept; the invariant is kept |
| LinkedLists.LinkedList.RemoveAfterHead | src/linked-list.js:136-150 | when the head does not match, the scan returns true exactly when a later element matches; if none does, nothing changes; otherwise the first match, at a position `k > 0`, is deleted, its predecessor becomes the tail when it was the last node, and the tail is kept otherwise |
| LinkedLists.LinkedList.UnlinkAfter | src/linked-list.js:141-145 | skipping the successor of the node at position `k - 1` deletes element `k`, makes that node the tail when the successor was the tail, keeps the head, keeps the tail otherwise, and keeps the invariant |
| LinkedLists.LinkedList.Items | src/linked-list.js:156-162 | the traversal yields exactly `contents`, head to tail, and changes nothing |
| HashMaps.Step | src/hash-map.js:22 | one step of the fold stays in `[0, 1000000007)` |
| HashMaps.HashOf | src/hash-map.js:16-26 | every key hashes into `[0, 1000000007)` |
| HashMaps.HashOfEmpty | src/hash-map.js:20-25 | the empty key hashes to 0 |
| HashMaps.HashAppend | src/hash-map.js:21-23 | the hash is a left fold: `hash(s + [c]) == (hash(s) * 31 + c) % 1000000007` |
| HashMaps.PolynomialAppend | src/hash-map.js:18-22 | the unreduced polynomial of `s + [c]` is that of `s` times 31 plus `c` |
| HashMaps.StepMod | src/hash-map.js:22 | reducing the accumulator before a step gives the same residue as reducing after it |
| HashMaps.HashIsPolynomial | src/hash-map.js:16-26 | the hash equals `sum key[i] * 31^(n-1-i)` modulo 1000000007 |
| HashMaps.StepIsExact | src/hash-map.js:17-22 | every intermediate `hashCode * 31 + c` is non-negative and below `31 * 1000000007 + 65536`, which is at most 2^53 |
| HashMaps.HashMap.constructor | src/hash-map.js:5-6 | a new map has capacity 16 |
| HashMaps.HashMap.Hash | src/hash-map.js:16-26 | the loop returns `HashOf(key)`, a function of the code units alone, so equal keys hash equally; the result lies in `[0, 1000000007)` |

## Left out

- `loadFactor = 0.75` (`src/hash-map.js:7`): a floating-point constant that no code reads.
- `src/index.js`: a demo driver that prints to the console and reads `map.size` and `map.buckets`, which `HashMap` never defines; its bucket index `hash(key) % capacity` is therefore not modelled either.
- The JavaScript iterator protocol (a lazy generator, `Symbol.iterator`) and mutation of the list during iteration: `Items` models one complete traversal.
- `charCodeAt` and Unicode handling: a key is given as its sequence of UTF-16 code units.
- Side effects or exceptions of the predicate passed to `remove`: it is modelled as a total, pure `T -> bool`, and JavaScript truthiness of its result as a boolean.
- Garbage collection: unlinked nodes stay in the ghost footprint `Repr`, which never shrinks; their `next` links are left as they were, as in the source.
