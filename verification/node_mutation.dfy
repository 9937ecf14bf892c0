/**
 * The heap effects of the three mutating operations of `Node`
 * (src/core/Node.ts): the constructor, `addChild` and the detaching step of
 * `remove`, and what each does to the tree invariant.
 */
module NodeMutation {
  import opened Options
  import OM = OrderedMap
  import opened NodeHeap

  // ---------------------------------------------------------------------------
  // The constructor
  // ---------------------------------------------------------------------------

  /**
   * `new Node(name, data, parent)` allocated as `id`: no children, no
   * listeners, and `parent` stored without being registered in its children.
   */
  function NewHeap<K, T>(h: Heap<K, T>, id: NodeId, name: K, data: Option<T>, parent: Option<NodeId>): (h': Heap<K, T>)
    ensures h'.Keys == h.Keys + {id}
    ensures forall m :: m in h && m != id ==> h'[m] == h[m]
  {
    h[id := NodeRec(name, data, [], parent, map[])]
  }

  /**
   * A fresh node leaves every existing node as it was and keeps the tree well
   * formed; when it is given a parent, that parent does not hold it, so the
   * fresh node is not reachable from its root.
   */
  lemma NewNodeSpec<K, T>(h: Heap<K, T>, id: NodeId, name: K, data: Option<T>, parent: Option<NodeId>)
    requires WellFormed(h) && id !in h && (parent.Some? ==> parent.value in h)
    ensures id in NewHeap(h, id, name, data, parent)
    ensures NewHeap(h, id, name, data, parent).Keys == h.Keys + {id}
    ensures forall m :: m in h ==> NewHeap(h, id, name, data, parent)[m] == h[m]
    ensures WellFormed(NewHeap(h, id, name, data, parent))
    ensures parent.Some? ==> forall i :: 0 <= i < |NewHeap(h, id, name, data, parent)[parent.value].children| ==>
      NewHeap(h, id, name, data, parent)[parent.value].children[i].1 != id
    ensures parent.Some? ==> !Held(NewHeap(h, id, name, data, parent), parent.value, id)
    ensures parent.Some? ==> !Attached(NewHeap(h, id, name, data, parent), id)
  {
    var h' := NewHeap(h, id, name, data, parent);
    var r := SomeRank(h);
    var r' := r[id := if parent.Some? then r[parent.value] + 1 else 0];
    assert Ranked(h', r');
    forall m | m in h'
      ensures BackLinked(h', m)
    {
      if m != id {
        assert BackLinked(h, m);
      }
    }
    if parent.Some? {
      NewNodeUnattached(h, id, name, data, parent.value);
    }
  }

  /**
   * The parent a fresh node is given does not hold it: no entry of its
   * `children` names the fresh node. So the fresh node is not reachable from its root.
   */
  lemma NewNodeUnattached<K, T>(h: Heap<K, T>, id: NodeId, name: K, data: Option<T>, q: NodeId)
    requires WellFormed(h) && id !in h && q in h
    requires Acyclic(NewHeap(h, id, name, data, Some(q)))
    ensures forall i :: 0 <= i < |NewHeap(h, id, name, data, Some(q))[q].children| ==>
      NewHeap(h, id, name, data, Some(q))[q].children[i].1 != id
    ensures !Held(NewHeap(h, id, name, data, Some(q)), q, id)
    ensures !Attached(NewHeap(h, id, name, data, Some(q)), id)
  {
    var h' := NewHeap(h, id, name, data, Some(q));
    assert !Held(h', q, id) by {
      assert h'[q] == h[q];
      if OM.Get(h[q].children, name).Some? {
        OM.GetSome(h[q].children, name);
      }
    }
    assert RootOf(h', id) != id;
  }

  // ---------------------------------------------------------------------------
  // `addChild`
  // ---------------------------------------------------------------------------

  /** `p.addChild(c)`: `p.children.set(c.name, c)`, then `c.parent = p`. */
  function AddChildHeap<K(==), T>(h: Heap<K, T>, p: NodeId, c: NodeId): (h': Heap<K, T>)
    requires p in h && c in h
    ensures h'.Keys == h.Keys
    ensures h'[c].parent == Some(p)
  {
    var h1 := h[p := h[p].(children := OM.Set(h[p].children, h[c].name, c))];
    h1[c := h1[c].(parent := Some(p))]
  }

  /**
   * After `p.addChild(c)`: `p` holds `c` under `c`'s name and `c`'s parent is
   * `p`; every other key of `p.children` maps to what it did, a same-named
   * entry is replaced in its slot and a new name is appended, so the size
   * grows by one exactly when the name was new. Only `p.children` and
   * `c.parent` change.
   */
  lemma AddChildSpec<K, T>(h: Heap<K, T>, p: NodeId, c: NodeId)
    requires p in h && c in h
    ensures var h' := AddChildHeap(h, p, c);
      && OM.Get(h'[p].children, h[c].name) == Some(c)
      && h'[c].parent == Some(p)
      && (forall k :: k != h[c].name ==> OM.Get(h'[p].children, k) == OM.Get(h[p].children, k))
      && (OM.Get(h[p].children, h[c].name).Some? ==> OM.Keys(h'[p].children) == OM.Keys(h[p].children))
      && (OM.Get(h[p].children, h[c].name).None? ==> h'[p].children == h[p].children + [(h[c].name, c)])
      && |h'[p].children| == (if OM.Get(h[p].children, h[c].name).Some? then |h[p].children| else |h[p].children| + 1)
    ensures var h' := AddChildHeap(h, p, c);
      && h'[p].(children := h[p].children, parent := h[p].parent) == h[p]
      && h'[c].(children := h[c].children, parent := h[c].parent) == h[c]
      && (p != c ==> h'[p].parent == h[p].parent && h'[c].children == h[c].children)
      && forall m :: m in h && m != p && m != c ==> h'[m] == h[m]
  {
    OM.SetSpec(h[p].children, h[c].name, c);
  }

  /**
   * The conditions under which `p.addChild(c)` keeps the tree well formed:
   * `c` is not `p` or one of its ancestors, and no node other than `p`
   * holds `c`.
   */
  ghost predicate CanAdopt<K, T>(h: Heap<K, T>, p: NodeId, c: NodeId)
  {
    && WellFormed(h)
    && p in h && c in h
    && c !in Chain(h, p)
    && forall q :: q in h && q != p ==> !Held(h, q, c)
  }

  /**
   * The conditions `addChild` is safe under: a parentless node is held by
   * nobody, so it can be adopted by any node it is not an ancestor of.
   */
  lemma ParentlessCanAdopt<K, T>(h: Heap<K, T>, p: NodeId, c: NodeId)
    requires WellFormed(h) && p in h && c in h && h[c].parent.None? && c !in Chain(h, p)
    ensures CanAdopt(h, p, c)
  {
    forall q | q in h && q != p
      ensures !Held(h, q, c)
    {
      HeldParent(h, q, c);
    }
  }

  lemma ChainStep<K, T>(h: Heap<K, T>, n: NodeId)
    requires Acyclic(h) && n in h && h[n].parent.Some?
    ensures Chain(h, n) == [n] + Chain(h, h[n].parent.value)
  {
  }

  /** Under `CanAdopt`, `addChild` keeps the tree well formed. */
  lemma AddChildKeepsWellFormed<K, T>(h: Heap<K, T>, p: NodeId, c: NodeId)
    requires CanAdopt(h, p, c)
    ensures WellFormed(AddChildHeap(h, p, c))
  {
    var h' := AddChildHeap(h, p, c);
    AddChildLinked(h, p, c);
    AddChildRanked(h, p, c);
    forall n | n in h'
      ensures BackLinked(h', n)
    {
      AddChildBackLinked(h, p, c, n);
    }
  }

  lemma AddChildLinked<K, T>(h: Heap<K, T>, p: NodeId, c: NodeId)
    requires Linked(h) && p in h && c in h
    ensures Linked(AddChildHeap(h, p, c))
  {
    var h' := AddChildHeap(h, p, c);
    var m' := OM.Set(h[p].children, h[c].name, c);
    OM.SetShape(h[p].children, h[c].name, c);
    forall n | n in h'
      ensures h'[n].parent.Some? ==> h'[n].parent.value in h'
      ensures forall i :: 0 <= i < |h'[n].children| ==> h'[n].children[i].1 in h'
    {
      AddChildFields(h, p, c, n);
      if n == p {
        assert h'[p].children == m';
        forall i | 0 <= i < |m'|
          ensures m'[i].1 in h
        {
          assert m'[i] in m';
        }
      }
    }
  }

  /** Walking up from `x` passes through `c`. */
  ghost predicate Through<K, T>(h: Heap<K, T>, c: NodeId, x: NodeId)
    requires Acyclic(h) && x in h
    decreases SomeRank(h)[x]
  {
    x == c || (h[x].parent.Some? && Through(h, c, h[x].parent.value))
  }

  lemma {:induction false} ThroughChain<K, T>(h: Heap<K, T>, c: NodeId, x: NodeId)
    requires Acyclic(h) && x in h
    ensures Through(h, c, x) <==> c in Chain(h, x)
    decreases SomeRank(h)[x]
  {
    if h[x].parent.Some? {
      ThroughChain(h, c, h[x].parent.value);
      ChainStep(h, x);
    }
  }

  /** The rank of `x` in `h`, lifted above `p` when walking up from `x` passes through `c`. */
  ghost function LiftedRank<K, T>(h: Heap<K, T>, p: NodeId, c: NodeId, x: NodeId): (r: nat)
    requires Acyclic(h) && p in h && x in h
  {
    if Through(h, c, x) then SomeRank(h)[x] + SomeRank(h)[p] + 1 else SomeRank(h)[x]
  }

  ghost function Lifted<K, T>(h: Heap<K, T>, p: NodeId, c: NodeId): (r: map<NodeId, nat>)
    requires Acyclic(h) && p in h
    ensures r.Keys == h.Keys
  {
    map x | x in h :: LiftedRank(h, p, c, x)
  }

  lemma LiftedStep<K, T>(h: Heap<K, T>, p: NodeId, c: NodeId, n: NodeId)
    requires Acyclic(h) && p in h && c in h && c !in Chain(h, p)
    requires n in h && AddChildHeap(h, p, c)[n].parent.Some?
    ensures var q := AddChildHeap(h, p, c)[n].parent.value;
      q in h && Lifted(h, p, c)[q] < Lifted(h, p, c)[n]
  {
    var h' := AddChildHeap(h, p, c);
    ThroughChain(h, c, p);
    if n != c {
      assert h'[n].parent == h[n].parent;
    }
  }

  /**
   * When `c` is not `p` or one of its ancestors, the parent links stay
   * acyclic: the witness is the rank `Lifted`.
   */
  lemma AddChildRanked<K, T>(h: Heap<K, T>, p: NodeId, c: NodeId)
    requires Acyclic(h) && p in h && c in h && c !in Chain(h, p)
    ensures Acyclic(AddChildHeap(h, p, c))
  {
    var h' := AddChildHeap(h, p, c);
    var r' := Lifted(h, p, c);
    assert h'.Keys <= r'.Keys;
    assert forall n :: n in h' && h'[n].parent.Some? ==>
      h'[n].parent.value in h' && r'[h'[n].parent.value] < r'[n] by {
      forall n | n in h' && h'[n].parent.Some?
        ensures h'[n].parent.value in h' && r'[h'[n].parent.value] < r'[n]
      {
        LiftedStep(h, p, c, n);
      }
    }
    assert Ranked(h', r');
  }

  lemma AddChildBackLinked<K, T>(h: Heap<K, T>, p: NodeId, c: NodeId, n: NodeId)
    requires CanAdopt(h, p, c) && n in h
    ensures Linked(AddChildHeap(h, p, c)) && BackLinked(AddChildHeap(h, p, c), n)
  {
    assert p != c by {
      assert Chain(h, p)[0] == p;
    }
    if n == p {
      AdopterBackLinked(h, p, c);
    } else {
      OthersBackLinked(h, p, c, n);
    }
  }

  /** The adopting node holds every child, `c` included, consistently. */
  lemma AdopterBackLinked<K, T>(h: Heap<K, T>, p: NodeId, c: NodeId)
    requires WellFormed(h) && p in h && c in h && p != c
    ensures Linked(AddChildHeap(h, p, c)) && BackLinked(AddChildHeap(h, p, c), p)
  {
    var h' := AddChildHeap(h, p, c);
    AddChildLinked(h, p, c);
    assert BackLinked(h, p);
    var m' := OM.Set(h[p].children, h[c].name, c);
    OM.SetSpec(h[p].children, h[c].name, c);
    assert h'[p].children == m';
    forall i | 0 <= i < |m'|
      ensures h'[m'[i].1].name == m'[i].0 && h'[m'[i].1].parent == Some(p)
    {
      AdoptedSlot(h, p, c, i);
    }
  }

  /** A node other than the adopter that does not hold `c` keeps its children consistent. */
  lemma OthersBackLinked<K, T>(h: Heap<K, T>, p: NodeId, c: NodeId, n: NodeId)
    requires WellFormed(h) && p in h && c in h && n in h && p != c && n != p && !Held(h, n, c)
    ensures Linked(AddChildHeap(h, p, c)) && BackLinked(AddChildHeap(h, p, c), n)
  {
    var h' := AddChildHeap(h, p, c);
    AddChildLinked(h, p, c);
    assert BackLinked(h, n);
    AddChildFields(h, p, c, n);
    forall i | 0 <= i < |h[n].children|
      ensures h'[h[n].children[i].1].name == h[n].children[i].0
      ensures h'[h[n].children[i].1].parent == Some(n)
    {
      var x := h[n].children[i].1;
      assert x != c by {
        OM.GetEntry(h[n].children, i);
      }
      AddChildFields(h, p, c, x);
    }
  }

  /** What `addChild` leaves alone in any node: everything but `p`'s children and `c`'s parent. */
  lemma AddChildFields<K, T>(h: Heap<K, T>, p: NodeId, c: NodeId, x: NodeId)
    requires p in h && c in h && x in h
    ensures x in AddChildHeap(h, p, c)
    ensures AddChildHeap(h, p, c)[x].name == h[x].name
    ensures AddChildHeap(h, p, c)[x].data == h[x].data
    ensures AddChildHeap(h, p, c)[x].listeners == h[x].listeners
    ensures x != c ==> AddChildHeap(h, p, c)[x].parent == h[x].parent
    ensures x != p ==> AddChildHeap(h, p, c)[x].children == h[x].children
    ensures x == c ==> AddChildHeap(h, p, c)[x].parent == Some(p)
    ensures x == p ==> AddChildHeap(h, p, c)[x].children == OM.Set(h[p].children, h[c].name, c)
  {
  }

  /** Each slot of `p.children` after adopting `c` names a correctly linked node. */
  lemma AdoptedSlot<K, T>(h: Heap<K, T>, p: NodeId, c: NodeId, i: nat)
    requires WellFormed(h) && p in h && c in h && p != c
    requires i < |OM.Set(h[p].children, h[c].name, c)|
    ensures var e := OM.Set(h[p].children, h[c].name, c)[i];
      && e.1 in AddChildHeap(h, p, c)
      && AddChildHeap(h, p, c)[e.1].name == e.0
      && AddChildHeap(h, p, c)[e.1].parent == Some(p)
  {
    var m := h[p].children;
    var e := OM.Set(m, h[c].name, c)[i];
    OM.SetSpec(m, h[c].name, c);
    if e != (h[c].name, c) {
      assert e in m;
      var j :| 0 <= j < |m| && m[j] == e;
      ChildOf(h, p, j);
    }
  }

  /** With every rank rising along parent links, a chain's end ranks no higher than its start. */
  lemma {:induction false} RankAlong<K, T>(h: Heap<K, T>, rank: map<NodeId, nat>, s: seq<NodeId>)
    requires |s| >= 1 && forall i :: 0 <= i < |s| ==> s[i] in h
    requires forall i :: 0 <= i < |s| - 1 ==> h[s[i]].parent == Some(s[i + 1])
    ensures Ranked(h, rank) ==> rank[s[|s| - 1]] <= rank[s[0]]
    decreases |s|
  {
    if |s| > 1 {
      RankAlong(h, rank, s[1..]);
    }
  }

  /**
   * The missing ancestor check: adopting `p` itself or one of its ancestors
   * makes the parent links cyclic.
   */
  lemma AddChildOntoAncestorCycles<K, T>(h: Heap<K, T>, p: NodeId, c: NodeId)
    requires Acyclic(h) && p in h && c in h && c in Chain(h, p)
    ensures !Acyclic(AddChildHeap(h, p, c))
  {
    var h' := AddChildHeap(h, p, c);
    var s := ClimbTo(h, p, c);
    forall i | 0 <= i < |s|
      ensures s[i] in h'
    {
    }
    forall i | 0 <= i < |s| - 1
      ensures h'[s[i]].parent == Some(s[i + 1])
    {
      AddChildFields(h, p, c, s[i]);
    }
    assert h'[c].parent == Some(p);
    CycleUnranked(h', s);
  }

  /** Parent links that lead from a node back to itself admit no rank. */
  lemma CycleUnranked<K, T>(h: Heap<K, T>, s: seq<NodeId>)
    requires |s| >= 1 && forall i :: 0 <= i < |s| ==> s[i] in h
    requires forall i :: 0 <= i < |s| - 1 ==> h[s[i]].parent == Some(s[i + 1])
    requires h[s[|s| - 1]].parent == Some(s[0])
    ensures !Acyclic(h)
  {
    forall rank
      ensures !Ranked(h, rank)
    {
      RankAlong(h, rank, s);
    }
  }

  /** The part of `p`'s parent chain from `p` up to its ancestor `c`, which it meets only at the end. */
  lemma ClimbTo<K, T>(h: Heap<K, T>, p: NodeId, c: NodeId) returns (s: seq<NodeId>)
    requires Acyclic(h) && p in h && c in Chain(h, p)
    ensures |s| >= 1 && s[0] == p && s[|s| - 1] == c
    ensures forall i :: 0 <= i < |s| ==> s[i] in h
    ensures forall i :: 0 <= i < |s| - 1 ==> h[s[i]].parent == Some(s[i + 1]) && s[i] != c
  {
    var ch := Chain(h, p);
    assert NoDup(ch) by {
      ChainRanks(h, p);
    }
    var k :| 0 <= k < |ch| && ch[k] == c;
    s := ch[..k + 1];
    forall i | 0 <= i < |s| - 1
      ensures h[s[i]].parent == Some(s[i + 1]) && s[i] != c
    {
      assert s[i] == ch[i] && s[i + 1] == ch[i + 1];
    }
  }

  /**
   * The missing detach: adopting a node that another node still holds leaves
   * that holder with a child whose `parent` no longer points back at it.
   */
  lemma AddChildSharedChildUnlinks<K, T>(h: Heap<K, T>, p: NodeId, c: NodeId, q: NodeId)
    requires p in h && c in h && q in h && q != p && Held(h, q, c)
    ensures !WellFormed(AddChildHeap(h, p, c))
  {
    var h' := AddChildHeap(h, p, c);
    OM.GetSome(h[q].children, h[c].name);
    var i :| 0 <= i < |h[q].children| && h[q].children[i] == (h[c].name, c);
    assert h'[q].children[i].1 == c && h'[c].parent != Some(q);
  }

  // ---------------------------------------------------------------------------
  // `remove`
  // ---------------------------------------------------------------------------

  /** The effect of a successful `remove` on `t`: `t.parent.children.delete(t.name)`. */
  function DetachHeap<K(==), T>(h: Heap<K, T>, t: NodeId): (h': Heap<K, T>)
    requires t in h && h[t].parent.Some? && h[t].parent.value in h
    ensures h'.Keys == h.Keys
    ensures forall m :: m in h && m != h[t].parent.value ==> h'[m] == h[m]
  {
    var q := h[t].parent.value;
    h[q := h[q].(children := OM.Delete(h[q].children, h[t].name))]
  }

  /**
   * Detaching `t` deletes at most one entry: `t`'s name from its parent's
   * `children`, if present. Every other key there and every other node, `t` itself
   * included unless it is its own parent, is untouched. It needs only that the parent's keys are unique,
   * as they are in every `Map`, so it also holds on a heap that is not well formed.
   */
  lemma DetachSpec<K, T>(h: Heap<K, T>, t: NodeId)
    requires t in h && h[t].parent.Some? && h[t].parent.value in h
    requires OM.UniqueKeys(h[h[t].parent.value].children)
    ensures var q := h[t].parent.value; var h' := DetachHeap(h, t);
      && OM.Get(h'[q].children, h[t].name).None?
      && (forall k :: k != h[t].name ==> OM.Get(h'[q].children, k) == OM.Get(h[q].children, k))
      && |h'[q].children| == (if OM.Get(h[q].children, h[t].name).Some? then |h[q].children| - 1 else |h[q].children|)
      && h'[q].(children := h[q].children) == h[q]
      && (forall m :: m in h && m != q ==> h'[m] == h[m])
  {
    OM.DeleteSpec(h[h[t].parent.value].children, h[t].name);
  }

  /** Detaching `t` leaves every node of `t`'s subtree, `t` included, as it was. */
  lemma DetachKeepsSubtree<K, T>(h: Heap<K, T>, t: NodeId)
    requires WellFormed(h) && t in h && h[t].parent.Some?
    ensures forall x :: x in h && InSubtree(h, t, x) ==> DetachHeap(h, t)[x] == h[x]
  {
    var q := h[t].parent.value;
    assert SomeRank(h)[q] < SomeRank(h)[t];
    forall x | x in h && InSubtree(h, t, x)
      ensures DetachHeap(h, t)[x] == h[x]
    {
      InSubtreeRank(h, t, x);
      assert x != q;
    }
  }

  /** Detaching keeps the tree well formed. */
  lemma DetachKeepsWellFormed<K, T>(h: Heap<K, T>, t: NodeId)
    requires WellFormed(h) && t in h && h[t].parent.Some?
    ensures WellFormed(DetachHeap(h, t))
  {
    var q := h[t].parent.value;
    var h' := DetachHeap(h, t);
    var m := h[q].children;
    OM.DeleteEntries(m, h[t].name);
    forall n | n in h'
      ensures h'[n].parent.Some? ==> h'[n].parent.value in h'
      ensures forall i :: 0 <= i < |h'[n].children| ==> h'[n].children[i].1 in h'
    {
      DetachFields(h, t, n);
      if n == q {
        forall i | 0 <= i < |h'[q].children|
          ensures h'[q].children[i].1 in h
        {
          assert h'[q].children[i] in m;
        }
      }
    }
    assert Linked(h');
    assert Ranked(h', SomeRank(h));
    forall n | n in h'
      ensures BackLinked(h', n)
    {
      DetachBackLinked(h, t, n);
    }
  }

  /** What detaching leaves alone in any node: everything but the parent's children. */
  lemma DetachFields<K, T>(h: Heap<K, T>, t: NodeId, x: NodeId)
    requires t in h && h[t].parent.Some? && h[t].parent.value in h && x in h
    ensures x in DetachHeap(h, t)
    ensures DetachHeap(h, t)[x].(children := h[x].children) == h[x]
    ensures x != h[t].parent.value ==> DetachHeap(h, t)[x] == h[x]
    ensures x == h[t].parent.value ==> DetachHeap(h, t)[x].children == OM.Delete(h[x].children, h[t].name)
  {
  }

  lemma DetachBackLinked<K, T>(h: Heap<K, T>, t: NodeId, n: NodeId)
    requires WellFormed(h) && t in h && h[t].parent.Some? && n in h
    requires Linked(DetachHeap(h, t))
    ensures BackLinked(DetachHeap(h, t), n)
  {
    var q := h[t].parent.value;
    var h' := DetachHeap(h, t);
    assert BackLinked(h, n);
    DetachFields(h, t, n);
    if n == q {
      var m := h[q].children;
      OM.DeleteSpec(m, h[t].name);
      OM.DeleteEntries(m, h[t].name);
      forall i | 0 <= i < |h'[q].children|
        ensures h'[h'[q].children[i].1].name == h'[q].children[i].0
        ensures h'[h'[q].children[i].1].parent == Some(q)
      {
        var e := h'[q].children[i];
        assert e in m;
        var j :| 0 <= j < |m| && m[j] == e;
        DetachFields(h, t, e.1);
      }
    } else {
      forall i | 0 <= i < |h[n].children|
        ensures h'[h[n].children[i].1].name == h[n].children[i].0
        ensures h'[h[n].children[i].1].parent == Some(n)
      {
        DetachFields(h, t, h[n].children[i].1);
      }
    }
  }

  /**
   * The node a non-empty path leads to was reached through its parent, so
   * `remove(path)` with a non-empty path always finds a parent to detach from
   * and that parent holds the node.
   */
  lemma RemoveTargetHeld<K, T>(h: Heap<K, T>, n: NodeId, path: seq<K>)
    requires WellFormed(h) && n in h && path != []
    ensures GetNodeByPath(h, n, path).Some? ==>
      var t := GetNodeByPath(h, n, path).value;
      h[t].parent.Some? && Held(h, h[t].parent.value, t)
  {
    var init, k := path[..|path| - 1], path[|path| - 1];
    assert path == init + [k];
    GetNodeByPathSnoc(h, n, init, k);
    match GetNodeByPath(h, n, init)
    case None =>
    case Some(q) =>
      match OM.Get(h[q].children, k)
      case None =>
      case Some(t) =>
        OM.GetSome(h[q].children, k);
        var i :| 0 <= i < |h[q].children| && h[q].children[i] == (k, t);
        ChildInSubtree(h, q, i);
        ChildOf(h, q, i);
  }

  /**
   * `remove` on a node that its parent no longer holds (because a same-named
   * node replaced it there) deletes that replacement instead.
   */
  lemma DetachStaleDropsNamesake<K, T>(h: Heap<K, T>, t: NodeId, x: NodeId)
    requires WellFormed(h) && t in h && x in h && x != t && h[t].parent.Some?
    requires OM.Get(h[h[t].parent.value].children, h[t].name) == Some(x)
    ensures !Held(h, h[t].parent.value, t)
    ensures Held(h, h[t].parent.value, x)
    ensures !Held(DetachHeap(h, t), h[t].parent.value, x)
  {
    var q := h[t].parent.value;
    OM.GetSome(h[q].children, h[t].name);
    var i :| 0 <= i < |h[q].children| && h[q].children[i] == (h[t].name, x);
    ChildOf(h, q, i);
    assert BackLinked(h, h[t].parent.value);
    DetachSpec(h, t);
    OM.GetEntry(h[q].children, i);
  }
}
