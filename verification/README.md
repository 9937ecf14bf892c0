# tree-node in Dafny

A model of the core of the TypeScript library tree-node, with proofs about it.

`Node<T>` is a mutable tree node. It has:
- a `name`;
- optional `data`;
- a `children` map from name to child node, kept in insertion order;
- a non-owning `parent` reference;
- an `eventListeners` map from event name to a list of listeners.

`NodeUtils` converts a subtree to a plain nested record `{name, data, children}` and back.

The object graph is modelled as an arena, `NodeHeap.Heap`: a map from node identities to node records.
- The class `Node.Arena` owns that map. Its methods are the operations of `Node` that update nodes in place or walk them with loops.
- A JavaScript `Map` is a sequence of key/value pairs in module `OrderedMap`:
  - `set` on a present key replaces the value in that key's slot;
  - `set` on a new key appends;
  - `delete` removes the entry.
- `NodeHeap.WellFormed` is the invariant of a sound tree. It holds three things:
  - every id a node refers to is allocated;
  - parent links are acyclic, witnessed by a rank that grows from parent to child;
  - every child a node holds is held under its own name and points back to that node.

`addChild` is modelled literally: it does not detach the child from an earlier parent and does not check for cycles. The model proves when it keeps the tree well formed, and that it does not without those conditions. `remove` is modelled literally as well. It deletes, from the parent's map, whatever entry has the removed node's name.

Listeners are opaque ids. Search conditions are pure functions of a node. `traverse` and `emitEvent` return the sequence of callback calls they make.

Modules:
- `Options`: the option type.
- `OrderedMap`: `Map` semantics.
- `NodeHeap`: the arena, the invariant, and the read-only recursion (`path`, `root`, `getNodeByPath`, pre-order).
- `NodeEvents`: listeners and event bubbling.
- `NodeMutation`: `new Node`, `addChild` and `remove` as functions on the heap, and their lemmas.
- `Node`: the class.
- `NodeUtils`: the two conversions.

## Model

| member | source | states |
|---|---|---|
| OrderedMap.Values | src/core/Node.ts:64 | `children.values()`, as iterated here and at src/core/NodeUtils.ts:17: one value per entry, the i-th value being the i-th entry's, in insertion order |
| OrderedMap.Get | src/core/Node.ts:89 | `Map.get(k)` is undefined exactly when no entry has key `k` |
| OrderedMap.Set | src/core/Node.ts:74 | `Map.set` adds at most one entry (its full contract is `SetSpec`) |
| OrderedMap.Delete | src/core/Node.ts:110 | `Map.delete` removes at most one entry and adds none (its full contract is `DeleteSpec`) |
| OrderedMap.SetSpec | src/core/Node.ts:74 | `Map.set(k, v)`: `k` now maps to `v`; every other key keeps its value; a present key keeps its slot (the key order is unchanged); a new key is appended; the size grows by one exactly when the key was new; keys stay unique |
| OrderedMap.DeleteSpec | src/core/Node.ts:110 | `Map.delete(k)`: `k` is gone; other keys keep their values; an absent key changes nothing; a present key's entry is cut out of its slot, the rest keeping their order; the size drops by one exactly when the key was present |
| OrderedMap.SetEach | src/core/NodeUtils.ts:28-31 | setting the pairs of a sequence one after another into an empty map gives at most one entry per pair |
| OrderedMap.SetEachUnique | src/core/NodeUtils.ts:28-31 | setting pairs with distinct keys one after another into an empty map gives back those pairs in order |
| OrderedMap.SetEachLastWins | src/core/NodeUtils.ts:28-31 | after setting a sequence of pairs, a key maps to the value of its last occurrence |
| OrderedMap.SetEachCount | src/core/NodeUtils.ts:28-31 | the map built by setting a sequence of pairs has one entry per distinct key |
| NodeHeap.Chain | src/core/Node.ts:98-104 | the parent chain of a node: it starts at the node, each entry's parent is the next entry, and the last entry has no parent |
| NodeHeap.RootOf | src/core/Node.ts:98-104 | `root`: a parentless node; the node itself when it has no parent, and otherwise its parent's root |
| NodeHeap.Path | src/core/Node.ts:25-31 | `path`: one name per node of the parent chain, root first, ending with the node's own name; so it is `[name]` for a parentless node, and its length is depth + 1 |
| NodeHeap.GetNodeByPath | src/core/Node.ts:83-96 | `getNodeByPath`: the empty path gives the node itself, and any node found is allocated |
| NodeHeap.GetNodeByPathSnoc | src/core/Node.ts:83-96 | looking up `path + [k]` is looking up `path` and then taking child `k` of the node reached; it fails when either step fails |
| NodeHeap.GetNodeByPathDescends | src/core/Node.ts:83-96 | on a well-formed tree, a node found lies in the subtree, and its `path` is the start node's `path` followed by the lookup path, so lookup only descends |
| NodeHeap.PathResolvesFromRoot | src/core/Node.ts:25-31 | on a well-formed tree, `root.getNodeByPath(path[1..])` finds the node exactly when every node on its parent chain is registered in its parent's `children` |
| NodeHeap.ChainRanks | src/core/Node.ts:98-104 | ranks strictly decrease along the parent chain, so `root` and `path` terminate and no node repeats on the chain |
| NodeHeap.PreOrder | src/core/Node.ts:78-81 | the nodes `traverse` visits, in order: the node itself comes first and every node in it is allocated (`PreOrderIsSubtree` says which nodes it holds) |
| NodeHeap.PreOrderIsSubtree | src/core/Node.ts:78-81 | the pre-order sequence holds exactly the nodes of the subtree, each once, so its length is the subtree's size |
| NodeHeap.FirstMatch | src/core/Node.ts:59-71 | the first element satisfying the condition, or none exactly when no element does |
| NodeHeap.FindInSubtree | src/core/Node.ts:59-71 | the first pre-order match is the node itself when it satisfies the condition; a match found satisfies the condition and lies in the subtree; none is found exactly when no node of the subtree satisfies it |
| NodeEvents.ListenersOf | src/core/Node.ts:34 | `eventListeners.get(event) ?? []`, also read at src/core/Node.ts:49-50: the stored list when the event has one, and the empty list otherwise |
| NodeEvents.WithListener | src/core/Node.ts:33-36 | `addEventListener` on the heap: the same nodes, and the node's list for the event is the old list with the listener appended |
| NodeEvents.AddListenerSpec | src/core/Node.ts:33-36 | `addEventListener` appends the listener to the end of that event's list, keeping duplicates; other events' lists, the node's other fields and every other node are unchanged; the tree stays well formed |
| NodeEvents.Notify | src/core/Node.ts:49-52 | one call per listener, in list order, each with the same envelope |
| NodeEvents.CallsAlong | src/core/Node.ts:48-56 | the calls `_emitEvent` makes from the i-th node of the chain upward: as many as the listeners those nodes hold for the event |
| NodeEvents.EventCalls | src/core/Node.ts:38-46 | the calls `emitEvent` makes: one per listener held for the event along the whole parent chain |
| NodeEvents.EmitSpec | src/core/Node.ts:38-56 | `emitEvent(e, d)` on `n` makes one block of calls per node of the parent chain, from `n` up to the root, in that order; the block of the k-th node calls each of that node's listeners for `e` exactly once, in list order, with `{d, target: n, current: that node, isChild: k > 0}`; so every listener along the chain is called, and `n`'s own come first. Conversely, every call is one of these: it carries `d` and target `n`, its `current` is `n` or an ancestor and holds the listener, and `isChild` is set exactly when `current` is an ancestor |
| NodeMutation.NewHeap | src/core/Node.ts:17-23 | `new Node(...)` on the heap: exactly the fresh id is added, and every other node is unchanged |
| NodeMutation.NewNodeSpec | src/core/Node.ts:17-23 | `new Node(name, data, parent)` adds one fresh node and leaves every other node unchanged; the tree stays well formed; given a parent, no entry of that parent's `children` names the new node, so it is neither held there nor reachable from its root |
| NodeMutation.AddChildHeap | src/core/Node.ts:73-76 | `p.addChild(c)` on the heap: the same nodes, and `c.parent` is `p` (its full effect is `AddChildSpec`) |
| NodeMutation.AddChildSpec | src/core/Node.ts:73-76 | after `p.addChild(c)`: `p.children` maps `c.name` to `c` and `c.parent` is `p`; every other key of `p.children` is unchanged; an existing same-named entry is replaced in its slot, and a new one appended; the size grows by one exactly when the name was new; nothing else changes |
| NodeMutation.AddChildKeepsWellFormed | src/core/Node.ts:73-76 | `addChild` keeps the tree well formed when the child is no ancestor of the adopter (nor the adopter itself) and no other node holds the child |
| NodeMutation.ParentlessCanAdopt | src/core/Node.ts:73-76 | a parentless child that is not on the adopter's parent chain meets those conditions |
| NodeMutation.AddChildOntoAncestorCycles | src/core/Node.ts:73-76 | adopting an ancestor of the adopter (or the adopter itself) makes the parent links cyclic |
| NodeMutation.AddChildSharedChildUnlinks | src/core/Node.ts:73-76 | adopting a child another node still holds leaves that node holding a child whose `parent` no longer points back, so the tree is no longer well formed |
| NodeMutation.DetachHeap | src/core/Node.ts:110 | `this.parent.children.delete(this.name)` on the heap: the same nodes, and every node but the parent unchanged (its full effect is `DetachSpec`) |
| NodeMutation.DetachSpec | src/core/Node.ts:108-112 | `remove([])` on a node with a parent deletes the node's name from the parent's `children` and nothing else: the parent's other keys, fields and size follow `Map.delete`, and every other node is unchanged, the removed node included unless it is its own parent; it needs only the parent's keys to be unique, as in every `Map`, not a well-formed tree |
| NodeMutation.DetachKeepsSubtree | src/core/Node.ts:108-112 | the removed node keeps its `parent` field and its whole subtree |
| NodeMutation.DetachKeepsWellFormed | src/core/Node.ts:108-112 | `remove` keeps the tree well formed |
| NodeMutation.RemoveTargetHeld | src/core/Node.ts:116-123 | a node reached by a non-empty path has a parent that holds it, so removing it by path always succeeds |
| NodeMutation.DetachStaleDropsNamesake | src/core/Node.ts:108-112 | a node whose parent's entry under its name is a different node is not held there, and `remove([])` on it deletes that other node's entry |
| Node.Arena.NewNode | src/core/Node.ts:17-23 | allocates a fresh id with the given name, data and parent, no children and no listeners; keeps the tree well formed |
| Node.Arena.Root | src/core/Node.ts:98-104 | the `while` loop climbing parents stops at `RootOf(n)`, a parentless node |
| Node.Arena.AddChild | src/core/Node.ts:73-76 | the two in-place updates produce `AddChildHeap`, and keep the tree well formed under the conditions of `AddChildKeepsWellFormed` |
| Node.Arena.Remove | src/core/Node.ts:107-124 | succeeds exactly when the path leads to a node that has a parent; then the heap becomes `DetachHeap` of that node, and otherwise nothing changes; the tree stays well formed |
| Node.Arena.AddEventListener | src/core/Node.ts:33-36 | the in-place update produces `WithListener` (see `AddListenerSpec`) |
| Node.Arena.FindNodeByCondition | src/core/Node.ts:59-71 | the `for` loop with early return yields the first pre-order match, children in insertion order |
| Node.Arena.Traverse | src/core/Node.ts:78-81 | the callbacks are made in pre-order, children in insertion order |
| Node.Arena.EmitEvent | src/core/Node.ts:38-46 | the calls made are `EventCalls`, whose properties `EmitSpec` states |
| Node.Arena.EmitFrom | src/core/Node.ts:48-56 | `_emitEvent` at the k-th node of the target's chain makes that node's calls, then those of every node above it |
| NodeUtils.ToRecord | src/core/NodeUtils.ts:10-23 | the record of a node has the node's `name` and `data` and one child record per entry of `children` |
| NodeUtils.ToRecordChildren | src/core/NodeUtils.ts:17-20 | child record j is the record of the j-th child in insertion order |
| NodeUtils.ToRecordFrame | src/core/NodeUtils.ts:10-23 | a node's record depends only on the names, data and children of the nodes in its subtree |
| NodeUtils.ConvertNodeToJSON | src/core/NodeUtils.ts:10-23 | the loop pushing child records builds `ToRecord(n)`, whose sibling names are distinct at every level; the method only reads the arena |
| NodeUtils.ToRecordDistinct | src/core/NodeUtils.ts:10-23 | the record of a node of a well-formed tree has distinct sibling names at every level, because each child is held once, under its own name |
| NodeUtils.ToRecordRoundTrip | src/core/NodeUtils.ts:10-34 | normalizing the record of a node changes nothing, so nodes rebuilt from it convert back to the same record |
| NodeUtils.Normalize | src/core/NodeUtils.ts:25-34 | the record after a round trip keeps the record's name and data |
| NodeUtils.NormalizeDistinct | src/core/NodeUtils.ts:25-34 | with distinct sibling names at every level, the round trip gives back the record unchanged |
| NodeUtils.NormalizeChildCount | src/core/NodeUtils.ts:28-31 | with duplicate sibling names, the child count is the number of distinct names |
| NodeUtils.NormalizeLastWins | src/core/NodeUtils.ts:28-31 | the last child record of each name survives the round trip |
| NodeUtils.NormalizePrefix | src/core/NodeUtils.ts:28-31 | after each turn of the loop, the names added so far are a prefix of the final key order, so a later duplicate overwrites in the earlier one's slot |
| NodeUtils.ConvertJSONToNode | src/core/NodeUtils.ts:25-34 | returns a fresh parentless node with no listeners; leaves every existing node unchanged; keeps the tree well formed; the new node converts back to `Normalize(r)`, and to `r` itself when sibling names are distinct at every level |
| NodeUtils.ConvertRoundTrip | src/core/NodeUtils.ts:10-34 | converting a node to a record, rebuilding nodes from it and converting those gives the first record back, and the original node is unchanged |
| NodeUtils.AddConvertedChild | src/core/NodeUtils.ts:28-31 | one turn of the loop: the converted child is added and its record is set under its name in the children mirrored so far |
| NodeUtils.ConvertStep | src/core/NodeUtils.ts:29-30 | adopting a freshly converted parentless child keeps the tree well formed, and the node mirrors the previous children with the child's record set under its name |

## Left out

- The listener and callback bodies are not modelled. Listeners are opaque ids, and conditions are pure functions of the node id. They are assumed not to change the tree while `traverse`, `findNodeByCondition` or `emitEvent` runs.
- A listener that throws is not modelled. In the source, the exception aborts the rest of the propagation (src/core/Node.ts:51).
- `traverse` calls its callback as it goes; `Node.Arena.Traverse` instead returns the sequence of nodes the callback is called on.
- `emitEvent` calls its listeners; `Node.Arena.EmitEvent` instead returns the sequence of `(listener, envelope)` calls. Each envelope is a fresh value, so listeners sharing or changing the envelope object is not modelled.
- Names (`PropertyKey`) are a generic type with equality. The details of JavaScript `Map` key equality (SameValueZero, `NaN`, `-0`, symbols) are not modelled.
- The payload `T` is an opaque type parameter. The records and the nodes share payload references in the source; the model copies values.
- `data` is a public field that callers may assign. Only the operations of `Node` change the model's state.
- The optional `parent` argument of the constructor is modelled as in the source: it sets `parent` without registering the node in the parent's `children`. `NodeMutation.NewNodeSpec` proves that such a node is not attached. The tree stays `WellFormed`, because the invariant only asks registered children to point back, not every node with a parent to be registered.
- Node.Arena.AddChild: guarantees well-formedness only under the conditions of `NodeMutation.CanAdopt`, because the source has no ancestor check and no detach. `AddChildOntoAncestorCycles` and `AddChildSharedChildUnlinks` show the invariant is lost without them.
- NodeUtils.ConvertNodeToJSON: requires the whole arena, not only the converted subtree, to be `WellFormed`. The model says nothing about an arena where `addChild` has left a child shared by two holders or a cycle, even in an unrelated tree; there the source still converts an acyclic subtree, repeating a shared child under each holder.
- Node.Arena.Traverse: requires the whole arena to be `WellFormed`, as `ConvertNodeToJSON` does. On an acyclic arena with a shared child the source visits that child once per holder; the model does not cover it.
- Node.Arena.FindNodeByCondition: requires the whole arena to be `WellFormed`, as `Traverse` does, and leaves out the same arenas.
- NodeUtils.ConvertJSONToNode: requires the existing arena to be `WellFormed`, although the source only builds fresh nodes and never reads the existing ones. The model does not cover calls made while the rest of the arena is broken.
- Node.Arena.Root: requires the whole arena to be `Acyclic`. Once `addChild` has made a parent cycle anywhere, the model says nothing about `root` on any node, even one outside the cycle, where the source still returns.
- NodeHeap.Path: requires the whole arena to be `Acyclic`, as `Node.Arena.Root` does, and leaves out the same arenas.
- Node.Arena.EmitEvent: requires the whole arena to be `Acyclic`, as `Node.Arena.Root` does. Nodes outside a parent cycle in a cyclic arena are not covered, although the source's propagation from them ends.
- Node.Arena.EmitFrom: requires the whole arena to be `Acyclic`, as `Node.Arena.EmitEvent` does, and leaves out the same arenas.
- Every recursive operation is modelled as terminating: `path`, `getNodeByPath`, `findNodeByCondition`, `traverse`, `_emitEvent`, `remove` and both conversions. In the source, a tree deep enough overflows the JavaScript call stack and throws a `RangeError`; the model has no such limit.
- NodeUtils.AddConvertedChild: the body of the `for` loop of `convertJSONToNode` is a method of its own, which the loop calls once per child record.
- src/index.ts is not part of this model: it is a demonstration script that only prints.
- The test files are not modelled; the properties they check are among the contracts above.
