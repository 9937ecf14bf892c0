/**
 * `Node` (src/core/Node.ts) as a class over an arena of node records. Every
 * `Node` object is an id in `nodes`; the methods below are the operations of
 * `Node` that update the object graph in place or walk it with loops.
 * `path` and `getNodeByPath` are pure recursion and are the functions
 * `NodeHeap.Path` and `NodeHeap.GetNodeByPath`.
 */
module Node {
  import opened Options
  import OM = OrderedMap
  import opened NodeHeap
  import opened NodeEvents
  import opened NodeMutation

  class Arena<K(==), T> {
    /** The fields of every allocated node object. */
    var nodes: Heap<K, T>
    /** The next free identity. */
    var nextId: NodeId

    /** No dangling references, and every allocated id lies below `nextId`. */
    ghost predicate Valid()
      reads this
    {
      && Linked(nodes)
      && forall n :: n in nodes ==> n < nextId
    }

    constructor ()
      ensures Valid() && nodes == map[]
    {
      nodes := map[];
      nextId := 0;
    }

    /** `new Node(name, data, parent)`: a fresh id holding a node with no children and no listeners. */
    method NewNode(name: K, data: Option<T>, parent: Option<NodeId>) returns (id: NodeId)
      requires Valid() && (parent.Some? ==> parent.value in nodes)
      modifies this
      ensures Valid()
      ensures id !in old(nodes) && nodes == NewHeap(old(nodes), id, name, data, parent)
      ensures old(WellFormed(nodes)) ==> WellFormed(nodes)
    {
      id := nextId;
      ghost var h := nodes;
      nodes := nodes[id := NodeRec(name, data, [], parent, map[])];
      nextId := nextId + 1;
      if WellFormed(h) {
        NewNodeSpec(h, id, name, data, parent);
      }
    }

    /** `root`: climb `parent` references until a parentless node. */
    method Root(n: NodeId) returns (r: NodeId)
      requires Valid() && Acyclic(nodes) && n in nodes
      ensures r in nodes && nodes[r].parent.None?
      ensures r == RootOf(nodes, n)
    {
      r := n;
      while nodes[r].parent.Some?
        invariant r in nodes && RootOf(nodes, r) == RootOf(nodes, n)
        decreases SomeRank(nodes)[r]
      {
        r := nodes[r].parent.value;
      }
    }

    /**
     * `p.addChild(c)`: `p.children.set(c.name, c)` then `c.parent = p`. It keeps
     * the tree well formed when `c` is no ancestor of `p` and no other node holds it.
     */
    method AddChild(p: NodeId, c: NodeId)
      requires Valid() && p in nodes && c in nodes
      modifies this
      ensures Valid() && nextId == old(nextId)
      ensures nodes == AddChildHeap(old(nodes), p, c)
      ensures old(CanAdopt(nodes, p, c)) ==> WellFormed(nodes)
    {
      ghost var h := nodes;
      nodes := nodes[p := nodes[p].(children := OM.Set(nodes[p].children, nodes[c].name, c))];
      nodes := nodes[c := nodes[c].(parent := Some(p))];
      AddChildLinked(h, p, c);
      if CanAdopt(h, p, c) {
        AddChildKeepsWellFormed(h, p, c);
      }
    }

    /**
     * `n.remove(path)`: follow `path` down from `n`; on the node it reaches,
     * delete that node's name from its parent's `children`. It fails, changing
     * nothing, when a segment is missing or the node reached has no parent.
     */
    method Remove(n: NodeId, path: seq<K>) returns (ok: bool)
      requires Valid() && n in nodes
      modifies this
      ensures Valid() && nextId == old(nextId)
      ensures ok <==> GetNodeByPath(old(nodes), n, path).Some? &&
                      old(nodes)[GetNodeByPath(old(nodes), n, path).value].parent.Some?
      ensures ok ==> nodes == DetachHeap(old(nodes), GetNodeByPath(old(nodes), n, path).value)
      ensures !ok ==> nodes == old(nodes)
      ensures old(WellFormed(nodes)) ==> WellFormed(nodes)
      decreases |path|
    {
      if path == [] {
        if nodes[n].parent.Some? {
          ghost var h := nodes;
          var q := nodes[n].parent.value;
          nodes := nodes[q := nodes[q].(children := OM.Delete(nodes[q].children, nodes[n].name))];
          OM.DeleteEntries(h[q].children, h[n].name);
          forall i | 0 <= i < |nodes[q].children|
            ensures nodes[q].children[i].1 in h
          {
            assert nodes[q].children[i] in h[q].children;
          }
          if WellFormed(h) {
            DetachKeepsWellFormed(h, n);
          }
          return true;
        }
        return false;
      }
      match OM.Get(nodes[n].children, path[0])
      case None =>
        return false;
      case Some(c) =>
        OM.GetSome(nodes[n].children, path[0]);
        ok := Remove(c, path[1..]);
    }

    /** `addEventListener(event, l)` on `n`. */
    method AddEventListener(n: NodeId, event: string, l: ListenerId)
      requires Valid() && n in nodes
      modifies this
      ensures Valid() && nextId == old(nextId)
      ensures nodes == WithListener(old(nodes), n, event, l)
      ensures old(WellFormed(nodes)) ==> WellFormed(nodes)
    {
      ghost var h := nodes;
      var ls := if event in nodes[n].listeners then nodes[n].listeners[event] else [];
      nodes := nodes[n := nodes[n].(listeners := nodes[n].listeners[event := ls + [l]])];
      AddListenerSpec(h, n, event, l);
    }

    /**
     * `findNodeByCondition(cond)` on `n`: `n` itself if it matches, else the
     * first hit of the searches of its children, in insertion order.
     */
    method FindNodeByCondition(n: NodeId, cond: NodeId -> bool) returns (r: Option<NodeId>)
      requires Valid() && WellFormed(nodes) && n in nodes
      ensures r == FirstMatch(PreOrder(nodes, n), cond)
      decreases Height(nodes) - SomeRank(nodes)[n]
    {
      if cond(n) {
        return Some(n);
      }
      var i := 0;
      while i < |nodes[n].children|
        invariant i <= |nodes[n].children|
        invariant FirstMatch(PreOrder(nodes, n), cond) == FirstMatch(PreOrderFrom(nodes, n, i), cond)
      {
        var child := nodes[n].children[i].1;
        ChildOf(nodes, n, i);
        var found := FindNodeByCondition(child, cond);
        FirstMatchConcat(PreOrder(nodes, child), PreOrderFrom(nodes, n, i + 1), cond);
        if found.Some? {
          return found;
        }
        i := i + 1;
      }
      return None;
    }

    /** `traverse(callback)` on `n`: the nodes the callback is called on, in call order. */
    method Traverse(n: NodeId) returns (visited: seq<NodeId>)
      requires Valid() && WellFormed(nodes) && n in nodes
      ensures visited == PreOrder(nodes, n)
      decreases Height(nodes) - SomeRank(nodes)[n]
    {
      visited := [n];
      var i := 0;
      while i < |nodes[n].children|
        invariant i <= |nodes[n].children|
        invariant visited + PreOrderFrom(nodes, n, i) == PreOrder(nodes, n)
      {
        ChildOf(nodes, n, i);
        var sub := Traverse(nodes[n].children[i].1);
        assert PreOrderFrom(nodes, n, i) == sub + PreOrderFrom(nodes, n, i + 1);
        visited := visited + sub;
        i := i + 1;
      }
    }

    /** `emitEvent(event, d)` on `n`: the listener calls it makes, in order. */
    method EmitEvent<D>(n: NodeId, event: string, d: Option<D>) returns (calls: seq<(ListenerId, Envelope<D>)>)
      requires Valid() && Acyclic(nodes) && n in nodes
      ensures calls == EventCalls(nodes, n, event, d)
    {
      calls := EmitFrom(n, event, Envelope(d, n, n, false), 0);
    }

    /**
     * `_emitEvent(event, env)` at `cur`, the `k`-th node of the target's parent
     * chain: call `cur`'s listeners with `env`, then pass a copy with `current`
     * set to the parent and `isChild` set on to the parent.
     */
    method EmitFrom<D>(cur: NodeId, event: string, env: Envelope<D>, ghost k: nat)
      returns (calls: seq<(ListenerId, Envelope<D>)>)
      requires Valid() && Acyclic(nodes) && env.target in nodes
      requires k < |Chain(nodes, env.target)| && Chain(nodes, env.target)[k] == cur
      requires env.current == cur && env.isChild == (k > 0)
      ensures calls == CallsAlong(nodes, Chain(nodes, env.target), k, event, env.eventData)
      decreases |Chain(nodes, env.target)| - k
    {
      ghost var c := Chain(nodes, env.target);
      ChainNext(nodes, env.target, k);
      var ls := if event in nodes[cur].listeners then nodes[cur].listeners[event] else [];
      calls := [];
      var i := 0;
      while i < |ls|
        invariant i <= |ls| && |calls| == i
        invariant forall j :: 0 <= j < i ==> calls[j] == (ls[j], env)
      {
        calls := calls + [(ls[i], env)];
        i := i + 1;
      }
      assert calls == Notify(ListenersOf(nodes, c[k], event), Envelope(env.eventData, c[0], c[k], k > 0));
      if nodes[cur].parent.Some? {
        var q := nodes[cur].parent.value;
        var rest := EmitFrom(q, event, env.(current := q, isChild := true), k + 1);
        calls := calls + rest;
      }
    }
  }
}
