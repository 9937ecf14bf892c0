/**
 * The object graph of `Node` (src/core/Node.ts) as an arena: every node object
 * has a `NodeId`, and a heap maps ids to the node's fields. Parent and child
 * references are ids into the same heap.
 */
module NodeHeap {
  import opened Options
  import OM = OrderedMap

  /** The identity of a node object. */
  type NodeId = nat

  /** The identity of a listener closure; listener bodies are not modelled. */
  type ListenerId = nat

  /**
   * The fields of one node: its name, optional payload, the insertion-ordered
   * `children` map from name to child, the non-owning `parent` reference and
   * the listener lists per event name.
   */
  datatype NodeRec<K, T> = NodeRec(
    name: K,
    data: Option<T>,
    children: seq<(K, NodeId)>,
    parent: Option<NodeId>,
    listeners: map<string, seq<ListenerId>>)

  type Heap<K, T> = map<NodeId, NodeRec<K, T>>

  /** No dangling references: every parent and child a node names is allocated. */
  ghost predicate Linked<K, T>(h: Heap<K, T>)
  {
    forall n :: n in h ==>
      (h[n].parent.Some? ==> h[n].parent.value in h) &&
      (forall i :: 0 <= i < |h[n].children| ==> h[n].children[i].1 in h)
  }

  /** `rank` strictly increases along every parent link, going down. */
  ghost predicate Ranked<K, T>(h: Heap<K, T>, rank: map<NodeId, nat>)
  {
    && h.Keys <= rank.Keys
    && forall n :: n in h && h[n].parent.Some? ==>
         h[n].parent.value in h && rank[h[n].parent.value] < rank[n]
  }

  /** Following `parent` references from any node ends at a parentless node. */
  ghost predicate Acyclic<K, T>(h: Heap<K, T>)
  {
    exists rank :: Ranked(h, rank)
  }

  ghost function SomeRank<K, T>(h: Heap<K, T>): (rank: map<NodeId, nat>)
    requires Acyclic(h)
    ensures Ranked(h, rank)
  {
    var rank :| Ranked(h, rank); rank
  }

  ghost function MaxRank(rank: map<NodeId, nat>, ids: set<NodeId>): (m: nat)
    requires ids <= rank.Keys
    ensures forall n :: n in ids ==> rank[n] <= m
    decreases ids
  {
    if ids == {} then 0
    else
      var n :| n in ids;
      var m' := MaxRank(rank, ids - {n});
      if rank[n] > m' then rank[n] else m'
  }

  /** An upper bound of every rank; descending recursion decreases `Height(h) - rank`. */
  ghost function Height<K, T>(h: Heap<K, T>): (m: nat)
    requires Acyclic(h)
    ensures forall n :: n in h ==> SomeRank(h)[n] <= m
  {
    MaxRank(SomeRank(h), h.Keys)
  }

  /**
   * Node `n` holds its children consistently: its keys are unique, every child
   * is stored under its own name and points back at `n` as its parent.
   */
  ghost predicate BackLinked<K, T>(h: Heap<K, T>, n: NodeId)
    requires n in h && Linked(h)
  {
    && OM.UniqueKeys(h[n].children)
    && forall i :: 0 <= i < |h[n].children| ==>
         && h[h[n].children[i].1].name == h[n].children[i].0
         && h[h[n].children[i].1].parent == Some(n)
  }

  /**
   * The tree invariant the operations rely on. It deliberately does not ask
   * that every node with a parent be registered in that parent's `children`:
   * `remove`, a same-named `addChild` and the constructor's `parent` argument
   * all leave nodes whose `parent` names a node that no longer holds them.
   */
  ghost predicate WellFormed<K, T>(h: Heap<K, T>)
  {
    && Linked(h)
    && Acyclic(h)
    && forall n :: n in h ==> BackLinked(h, n)
  }

  /** A held child is allocated, points back at its holder and ranks below it. */
  lemma ChildOf<K, T>(h: Heap<K, T>, n: NodeId, i: nat)
    requires WellFormed(h) && n in h && i < |h[n].children|
    ensures h[n].children[i].1 in h
    ensures h[h[n].children[i].1].parent == Some(n)
    ensures h[h[n].children[i].1].name == h[n].children[i].0
    ensures SomeRank(h)[n] < SomeRank(h)[h[n].children[i].1]
  {
    assert BackLinked(h, n);
  }

  // ---------------------------------------------------------------------------
  // Ascending: the parent chain, `root` and `path`
  // ---------------------------------------------------------------------------

  /** The node followed by each of its ancestors, ending at the parentless one. */
  function Chain<K, T>(h: Heap<K, T>, n: NodeId): (c: seq<NodeId>)
    requires Acyclic(h) && n in h
    ensures |c| >= 1 && c[0] == n
    ensures forall i :: 0 <= i < |c| ==> c[i] in h
    ensures forall i :: 0 <= i < |c| - 1 ==> h[c[i]].parent == Some(c[i + 1])
    ensures h[c[|c| - 1]].parent.None?
    decreases SomeRank(h)[n]
  {
    match h[n].parent
    case None => [n]
    case Some(q) => [n] + Chain(h, q)
  }

  /** `root`: the parentless end of the parent chain. */
  function RootOf<K, T>(h: Heap<K, T>, n: NodeId): (r: NodeId)
    requires Acyclic(h) && n in h
    ensures r in h && h[r].parent.None?
    ensures h[n].parent.None? ==> r == n
    ensures h[n].parent.Some? ==> r == RootOf(h, h[n].parent.value)
    decreases SomeRank(h)[n], 1
  {
    var c := Chain(h, n);
    c[|c| - 1]
  }

  /**
   * `path`: the parent's path followed by the node's own name. Its contract
   * states what it is: the names of the parent chain, read from the root down.
   */
  function Path<K, T>(h: Heap<K, T>, n: NodeId): (p: seq<K>)
    requires Acyclic(h) && n in h
    ensures |p| == |Chain(h, n)|
    ensures forall i :: 0 <= i < |p| ==> p[i] == h[Chain(h, n)[|p| - 1 - i]].name
    decreases SomeRank(h)[n]
  {
    match h[n].parent
    case None => [h[n].name]
    case Some(q) => Path(h, q) + [h[n].name]
  }

  // ---------------------------------------------------------------------------
  // Descending: subtrees, `getNodeByPath`, pre-order
  // ---------------------------------------------------------------------------

  /** `q` holds `x` under `x`'s name. */
  ghost predicate Held<K, T>(h: Heap<K, T>, q: NodeId, x: NodeId)
    requires q in h && x in h
  {
    OM.Get(h[q].children, h[x].name) == Some(x)
  }

  /**
   * `x` lies in the subtree of `a`: walking up from `x` reaches `a`, and every
   * node on the way is registered in its parent's `children`.
   */
  ghost predicate InSubtree<K, T>(h: Heap<K, T>, a: NodeId, x: NodeId)
    requires Acyclic(h) && x in h
    decreases SomeRank(h)[x]
  {
    || x == a
    || (h[x].parent.Some? && Held(h, h[x].parent.value, x) && InSubtree(h, a, h[x].parent.value))
  }

  /** Every link of `n`'s parent chain is registered: `n` is reachable from its root. */
  ghost predicate Attached<K, T>(h: Heap<K, T>, n: NodeId)
    requires Acyclic(h) && n in h
  {
    InSubtree(h, RootOf(h, n), n)
  }

  /** `getNodeByPath`: descend one named child per segment; never uses `parent`. */
  function GetNodeByPath<K(==), T>(h: Heap<K, T>, n: NodeId, path: seq<K>): (r: Option<NodeId>)
    requires Linked(h) && n in h
    ensures path == [] ==> r == Some(n)
    ensures r.Some? ==> r.value in h
    decreases |path|
  {
    if path == [] then Some(n)
    else
      match OM.Get(h[n].children, path[0])
      case None => None
      case Some(c) =>
        OM.GetSome(h[n].children, path[0]);
        GetNodeByPath(h, c, path[1..])
  }

  /** The nodes of `n`'s subtree in pre-order, children in insertion order. */
  function PreOrder<K, T>(h: Heap<K, T>, n: NodeId): (s: seq<NodeId>)
    requires WellFormed(h) && n in h
    ensures |s| >= 1 && s[0] == n
    ensures forall x :: x in s ==> x in h
    decreases Height(h) - SomeRank(h)[n], 1, 0
  {
    [n] + PreOrderFrom(h, n, 0)
  }

  /** The pre-order of the subtrees of `n`'s children from the `i`-th on. */
  function PreOrderFrom<K, T>(h: Heap<K, T>, n: NodeId, i: nat): (s: seq<NodeId>)
    requires WellFormed(h) && n in h && i <= |h[n].children|
    ensures forall x :: x in s ==> x in h
    decreases Height(h) - SomeRank(h)[n], 0, |h[n].children| - i
  {
    if i == |h[n].children| then []
    else
      ChildOf(h, n, i);
      PreOrder(h, h[n].children[i].1) + PreOrderFrom(h, n, i + 1)
  }

  // ---------------------------------------------------------------------------
  // Subtree structure
  // ---------------------------------------------------------------------------

  /** Subtree roots sit on the parent chain of their members, at a rank no larger. */
  lemma {:induction false} InSubtreeRank<K, T>(h: Heap<K, T>, a: NodeId, x: NodeId)
    requires Acyclic(h) && x in h
    ensures InSubtree(h, a, x) ==> a in h && SomeRank(h)[a] <= SomeRank(h)[x] && a in Chain(h, x)
    decreases SomeRank(h)[x]
  {
    if x != a && h[x].parent.Some? {
      InSubtreeRank(h, a, h[x].parent.value);
    }
  }

  lemma {:induction false} InSubtreeTrans<K, T>(h: Heap<K, T>, a: NodeId, b: NodeId, x: NodeId)
    requires Acyclic(h) && b in h && x in h
    requires InSubtree(h, a, b) && InSubtree(h, b, x)
    ensures InSubtree(h, a, x)
    decreases SomeRank(h)[x]
  {
    if x != b {
      InSubtreeTrans(h, a, b, h[x].parent.value);
    }
  }

  /** Two subtrees that share a member are nested one in the other. */
  lemma {:induction false} InSubtreeNested<K, T>(h: Heap<K, T>, a: NodeId, b: NodeId, x: NodeId)
    requires Acyclic(h) && a in h && b in h && x in h
    ensures InSubtree(h, a, x) && InSubtree(h, b, x) ==> InSubtree(h, a, b) || InSubtree(h, b, a)
    decreases SomeRank(h)[x]
  {
    if x != a && x != b && h[x].parent.Some? {
      InSubtreeNested(h, a, b, h[x].parent.value);
    }
  }

  /** A child is held under its own name and lies in its holder's subtree. */
  lemma ChildInSubtree<K, T>(h: Heap<K, T>, n: NodeId, i: nat)
    requires WellFormed(h) && n in h && i < |h[n].children|
    ensures h[n].children[i].1 in h
    ensures Held(h, n, h[n].children[i].1) && InSubtree(h, n, h[n].children[i].1)
  {
    ChildOf(h, n, i);
    assert BackLinked(h, n);
    OM.GetEntry(h[n].children, i);
  }

  /** A node held by `q` is one of `q`'s children entries. */
  lemma HeldIsChild<K, T>(h: Heap<K, T>, q: NodeId, x: NodeId)
    requires WellFormed(h) && q in h && x in h && Held(h, q, x)
    ensures exists i :: 0 <= i < |h[q].children| && h[q].children[i].1 == x
  {
    OM.GetSome(h[q].children, h[x].name);
  }

  /** A proper member of `n`'s subtree lies in the subtree of one of `n`'s children. */
  lemma {:induction false} InSubtreeViaChild<K, T>(h: Heap<K, T>, n: NodeId, x: NodeId)
    requires WellFormed(h) && n in h && x in h && InSubtree(h, n, x) && x != n
    ensures exists i :: 0 <= i < |h[n].children| && InSubtree(h, h[n].children[i].1, x)
    decreases SomeRank(h)[x]
  {
    var q := h[x].parent.value;
    if q == n {
      HeldIsChild(h, n, x);
    } else {
      InSubtreeViaChild(h, n, q);
      var i :| 0 <= i < |h[n].children| && InSubtree(h, h[n].children[i].1, q);
      ChildOf(h, n, i);
      assert InSubtree(h, h[n].children[i].1, x);
    }
  }

  /** The subtrees of two different children of one node are disjoint. */
  lemma SiblingSubtreesDisjoint<K, T>(h: Heap<K, T>, n: NodeId, i: nat, j: nat, x: NodeId)
    requires WellFormed(h) && n in h && i < j < |h[n].children| && x in h
    ensures InSubtree(h, h[n].children[i].1, x) ==> !InSubtree(h, h[n].children[j].1, x)
  {
    var ci, cj := h[n].children[i].1, h[n].children[j].1;
    ChildOf(h, n, i);
    ChildOf(h, n, j);
    assert BackLinked(h, n);
    assert ci != cj by {
      assert h[n].children[i].0 != h[n].children[j].0;
    }
    InSubtreeNested(h, ci, cj, x);
    InSubtreeRank(h, ci, n);
    InSubtreeRank(h, cj, n);
    assert !InSubtree(h, ci, cj) && !InSubtree(h, cj, ci);
  }

  // ---------------------------------------------------------------------------
  // Pre-order: the visit order of `traverse` and the search order of
  // `findNodeByCondition`
  // ---------------------------------------------------------------------------

  ghost predicate NoDup<X>(s: seq<X>)
  {
    forall i, j :: 0 <= i < j < |s| ==> s[i] != s[j]
  }

  lemma NoDupConcat<X>(a: seq<X>, b: seq<X>)
    requires NoDup(a) && NoDup(b)
    requires forall x :: x in a ==> x !in b
    ensures NoDup(a + b)
  {
    forall i, j | 0 <= i < j < |a + b|
      ensures (a + b)[i] != (a + b)[j]
    {
      if i < |a| && j >= |a| {
        assert (a + b)[i] in a && (a + b)[j] in b;
      }
    }
  }

  ghost function Elems<X>(s: seq<X>): (es: set<X>)
  {
    set x | x in s
  }

  lemma {:induction false} NoDupCard<X>(s: seq<X>)
    requires NoDup(s)
    ensures |Elems(s)| == |s|
  {
    if s != [] {
      NoDupCard(s[1..]);
      assert Elems(s) == Elems(s[1..]) + {s[0]};
      assert s[0] !in s[1..];
    }
  }

  /** Every node of a pre-order lies in the subtree it was taken from. */
  lemma {:induction false} PreOrderSound<K, T>(h: Heap<K, T>, n: NodeId)
    requires WellFormed(h) && n in h
    ensures forall x :: x in PreOrder(h, n) ==> InSubtree(h, n, x)
    decreases Height(h) - SomeRank(h)[n], 1, 0
  {
    PreOrderFromSound(h, n, 0);
    forall x | x in PreOrderFrom(h, n, 0)
      ensures InSubtree(h, n, x)
    {
      var j :| 0 <= j < |h[n].children| && InSubtree(h, h[n].children[j].1, x);
      ChildInSubtree(h, n, j);
      InSubtreeTrans(h, n, h[n].children[j].1, x);
    }
  }

  lemma {:induction false} PreOrderFromSound<K, T>(h: Heap<K, T>, n: NodeId, i: nat)
    requires WellFormed(h) && n in h && i <= |h[n].children|
    ensures forall x :: x in PreOrderFrom(h, n, i) ==>
      exists j :: i <= j < |h[n].children| && InSubtree(h, h[n].children[j].1, x)
    decreases Height(h) - SomeRank(h)[n], 0, |h[n].children| - i
  {
    if i < |h[n].children| {
      ChildOf(h, n, i);
      PreOrderSound(h, h[n].children[i].1);
      PreOrderFromSound(h, n, i + 1);
    }
  }

  lemma {:induction false} PreOrderFromHasChild<K, T>(h: Heap<K, T>, n: NodeId, i: nat, j: nat)
    requires WellFormed(h) && n in h && i <= j < |h[n].children|
    ensures h[n].children[j].1 in h
    ensures forall x :: x in PreOrder(h, h[n].children[j].1) ==> x in PreOrderFrom(h, n, i)
    decreases j - i
  {
    ChildOf(h, n, j);
    if i < j {
      PreOrderFromHasChild(h, n, i + 1, j);
    }
  }

  /** Every node of the subtree appears in its pre-order. */
  lemma {:induction false} PreOrderComplete<K, T>(h: Heap<K, T>, n: NodeId, x: NodeId)
    requires WellFormed(h) && n in h && x in h && InSubtree(h, n, x)
    ensures x in PreOrder(h, n)
    decreases Height(h) - SomeRank(h)[n]
  {
    if x != n {
      InSubtreeViaChild(h, n, x);
      var i :| 0 <= i < |h[n].children| && InSubtree(h, h[n].children[i].1, x);
      ChildOf(h, n, i);
      PreOrderComplete(h, h[n].children[i].1, x);
      PreOrderFromHasChild(h, n, 0, i);
    }
  }

  /** No node appears twice in a pre-order. */
  lemma {:induction false} PreOrderDistinct<K, T>(h: Heap<K, T>, n: NodeId)
    requires WellFormed(h) && n in h
    ensures NoDup(PreOrder(h, n))
    decreases Height(h) - SomeRank(h)[n], 1, 0
  {
    PreOrderFromDistinct(h, n, 0);
    PreOrderFromSound(h, n, 0);
    forall x | x in PreOrderFrom(h, n, 0)
      ensures x != n
    {
      var j :| 0 <= j < |h[n].children| && InSubtree(h, h[n].children[j].1, x);
      ChildOf(h, n, j);
      InSubtreeRank(h, h[n].children[j].1, x);
    }
    NoDupConcat([n], PreOrderFrom(h, n, 0));
  }

  lemma {:induction false} PreOrderFromDistinct<K, T>(h: Heap<K, T>, n: NodeId, i: nat)
    requires WellFormed(h) && n in h && i <= |h[n].children|
    ensures NoDup(PreOrderFrom(h, n, i))
    decreases Height(h) - SomeRank(h)[n], 0, |h[n].children| - i
  {
    if i < |h[n].children| {
      ChildOf(h, n, i);
      var c := h[n].children[i].1;
      PreOrderDistinct(h, c);
      PreOrderFromDistinct(h, n, i + 1);
      PreOrderSound(h, c);
      PreOrderFromSound(h, n, i + 1);
      forall x | x in PreOrder(h, c)
        ensures x !in PreOrderFrom(h, n, i + 1)
      {
        forall j | i + 1 <= j < |h[n].children|
          ensures !InSubtree(h, h[n].children[j].1, x)
        {
          SiblingSubtreesDisjoint(h, n, i, j, x);
        }
      }
      NoDupConcat(PreOrder(h, c), PreOrderFrom(h, n, i + 1));
    }
  }

  /** The nodes of `n`'s subtree. */
  ghost function Subtree<K, T>(h: Heap<K, T>, n: NodeId): (ns: set<NodeId>)
    requires Acyclic(h)
  {
    set x | x in h && InSubtree(h, n, x)
  }

  /**
   * `traverse` visits exactly the subtree, each node once: the pre-order holds
   * every node of the subtree and nothing else, without repetition, so its
   * length is the size of the subtree.
   */
  lemma PreOrderIsSubtree<K, T>(h: Heap<K, T>, n: NodeId)
    requires WellFormed(h) && n in h
    ensures forall x :: x in PreOrder(h, n) <==> x in h && InSubtree(h, n, x)
    ensures NoDup(PreOrder(h, n))
    ensures |PreOrder(h, n)| == |Subtree(h, n)|
  {
    PreOrderSound(h, n);
    forall x | x in h && InSubtree(h, n, x)
      ensures x in PreOrder(h, n)
    {
      PreOrderComplete(h, n, x);
    }
    PreOrderDistinct(h, n);
    NoDupCard(PreOrder(h, n));
    assert Elems(PreOrder(h, n)) == Subtree(h, n);
  }

  // ---------------------------------------------------------------------------
  // Path lookup
  // ---------------------------------------------------------------------------

  /** Resolving one more segment continues from where the shorter path ended. */
  lemma {:induction false} GetNodeByPathSnoc<K, T>(h: Heap<K, T>, n: NodeId, path: seq<K>, k: K)
    requires Linked(h) && n in h
    ensures GetNodeByPath(h, n, path + [k]) ==
      match GetNodeByPath(h, n, path)
      case None => None
      case Some(m) => OM.Get(h[m].children, k)
    decreases |path|
  {
    if path == [] {
      assert path + [k] == [k];
      match OM.Get(h[n].children, k)
      case None =>
      case Some(c) => OM.GetSome(h[n].children, k);
    } else {
      assert (path + [k])[0] == path[0] && (path + [k])[1..] == path[1..] + [k];
      match OM.Get(h[n].children, path[0])
      case None =>
      case Some(c) =>
        OM.GetSome(h[n].children, path[0]);
        GetNodeByPathSnoc(h, c, path[1..], k);
    }
  }

  /**
   * Lookup only descends: what a path resolves to lies in the subtree of the
   * node it started from, and its own `path` extends that node's by the segments.
   */
  lemma GetNodeByPathDescends<K, T>(h: Heap<K, T>, n: NodeId, path: seq<K>)
    requires WellFormed(h) && n in h
    ensures GetNodeByPath(h, n, path).Some? ==>
      && InSubtree(h, n, GetNodeByPath(h, n, path).value)
      && Path(h, GetNodeByPath(h, n, path).value) == Path(h, n) + path
  {
    GetNodeByPathInSubtree(h, n, path);
    GetNodeByPathExtends(h, n, path);
  }

  /** The child that a lookup's first segment selects. */
  lemma GetNodeByPathStep<K, T>(h: Heap<K, T>, n: NodeId, path: seq<K>)
    requires WellFormed(h) && n in h && path != [] && OM.Get(h[n].children, path[0]).Some?
    ensures OM.Get(h[n].children, path[0]).value in h
    ensures Held(h, n, OM.Get(h[n].children, path[0]).value)
    ensures h[OM.Get(h[n].children, path[0]).value].parent == Some(n)
    ensures h[OM.Get(h[n].children, path[0]).value].name == path[0]
    ensures GetNodeByPath(h, n, path) == GetNodeByPath(h, OM.Get(h[n].children, path[0]).value, path[1..])
  {
    var i := OM.IndexOf(h[n].children, path[0]).value;
    ChildInSubtree(h, n, i);
    ChildOf(h, n, i);
  }

  lemma {:induction false} GetNodeByPathInSubtree<K, T>(h: Heap<K, T>, n: NodeId, path: seq<K>)
    requires WellFormed(h) && n in h
    ensures GetNodeByPath(h, n, path).Some? ==> InSubtree(h, n, GetNodeByPath(h, n, path).value)
    decreases |path|
  {
    if path != [] && OM.Get(h[n].children, path[0]).Some? {
      var c := OM.Get(h[n].children, path[0]).value;
      GetNodeByPathStep(h, n, path);
      GetNodeByPathInSubtree(h, c, path[1..]);
      var r := GetNodeByPath(h, c, path[1..]);
      if r.Some? {
        assert InSubtree(h, n, c);
        InSubtreeTrans(h, n, c, r.value);
      }
    }
  }

  lemma {:induction false} GetNodeByPathExtends<K, T>(h: Heap<K, T>, n: NodeId, path: seq<K>)
    requires WellFormed(h) && n in h
    ensures GetNodeByPath(h, n, path).Some? ==> Path(h, GetNodeByPath(h, n, path).value) == Path(h, n) + path
    decreases |path|
  {
    if path == [] {
      assert Path(h, n) + path == Path(h, n);
    } else if OM.Get(h[n].children, path[0]).Some? {
      var c := OM.Get(h[n].children, path[0]).value;
      GetNodeByPathStep(h, n, path);
      GetNodeByPathExtends(h, c, path[1..]);
      assert Path(h, c) == Path(h, n) + [path[0]];
      SplitHead(Path(h, n), path);
    }
  }

  /** Appending a non-empty sequence is appending its head, then its tail. */
  lemma SplitHead<X>(a: seq<X>, p: seq<X>)
    requires p != []
    ensures a + [p[0]] + p[1..] == a + p
  {
    assert [p[0]] + p[1..] == p;
  }

  /**
   * From its root, a node's own path (without the root's name) resolves to the
   * node exactly when every link of its parent chain is registered.
   */
  lemma PathResolvesFromRoot<K, T>(h: Heap<K, T>, n: NodeId)
    requires WellFormed(h) && n in h
    ensures GetNodeByPath(h, RootOf(h, n), Path(h, n)[1..]) == Some(n) <==> Attached(h, n)
  {
    if Attached(h, n) {
      AttachedResolves(h, n);
    }
    GetNodeByPathDescends(h, RootOf(h, n), Path(h, n)[1..]);
  }

  lemma TailSnoc<X>(a: seq<X>, x: X)
    requires |a| >= 1
    ensures (a + [x])[1..] == a[1..] + [x]
  {
  }

  lemma {:induction false} AttachedResolves<K, T>(h: Heap<K, T>, n: NodeId)
    requires WellFormed(h) && n in h && Attached(h, n)
    ensures GetNodeByPath(h, RootOf(h, n), Path(h, n)[1..]) == Some(n)
    decreases SomeRank(h)[n]
  {
    var root := RootOf(h, n);
    if h[n].parent.Some? {
      var q := h[n].parent.value;
      assert n != root;
      assert Held(h, q, n) && InSubtree(h, root, q);
      AttachedResolves(h, q);
      assert Path(h, n)[1..] == Path(h, q)[1..] + [h[n].name] by {
        TailSnoc(Path(h, q), h[n].name);
      }
      GetNodeByPathSnoc(h, root, Path(h, q)[1..], h[n].name);
    } else {
      assert Path(h, n)[1..] == [];
    }
  }

  /** The node after the `k`-th of a parent chain is its parent; only the last one has none. */
  lemma ChainNext<K, T>(h: Heap<K, T>, n: NodeId, k: nat)
    requires Acyclic(h) && n in h && k < |Chain(h, n)|
    ensures h[Chain(h, n)[k]].parent.None? <==> k == |Chain(h, n)| - 1
    ensures h[Chain(h, n)[k]].parent.Some? ==> Chain(h, n)[k + 1] == h[Chain(h, n)[k]].parent.value
  {
  }

  /** `h'` has the same nodes as `h`, with the same names, parents and children. */
  ghost predicate SameShape<K, T>(h: Heap<K, T>, h': Heap<K, T>)
  {
    && h'.Keys == h.Keys
    && forall x :: x in h ==>
         h'[x].name == h[x].name && h'[x].parent == h[x].parent && h'[x].children == h[x].children
  }

  /** Well-formedness depends only on names, parents and children. */
  lemma SameShapeWellFormed<K, T>(h: Heap<K, T>, h': Heap<K, T>)
    requires WellFormed(h) && SameShape(h, h')
    ensures WellFormed(h')
  {
    assert Ranked(h', SomeRank(h));
    forall m | m in h'
      ensures BackLinked(h', m)
    {
      assert BackLinked(h, m);
    }
  }

  /** Whoever holds a node is the node its `parent` names. */
  lemma HeldParent<K, T>(h: Heap<K, T>, q: NodeId, x: NodeId)
    requires WellFormed(h) && q in h && x in h
    ensures Held(h, q, x) ==> h[x].parent == Some(q)
  {
    if Held(h, q, x) {
      HeldIsChild(h, q, x);
      var i :| 0 <= i < |h[q].children| && h[q].children[i].1 == x;
      ChildOf(h, q, i);
    }
  }

  // ---------------------------------------------------------------------------
  // The parent chain
  // ---------------------------------------------------------------------------

  /** Ranks strictly decrease along the chain, so no node occurs on it twice. */
  lemma {:induction false} ChainRanks<K, T>(h: Heap<K, T>, n: NodeId)
    requires Acyclic(h) && n in h
    ensures forall i, j :: 0 <= i < j < |Chain(h, n)| ==>
      SomeRank(h)[Chain(h, n)[j]] < SomeRank(h)[Chain(h, n)[i]]
    ensures NoDup(Chain(h, n))
    decreases SomeRank(h)[n]
  {
    if h[n].parent.Some? {
      var q := h[n].parent.value;
      ChainRanks(h, q);
      var c := Chain(h, n);
      assert c == [n] + Chain(h, q);
      forall i, j | 0 <= i < j < |c|
        ensures SomeRank(h)[c[j]] < SomeRank(h)[c[i]]
      {
        if i == 0 {
          assert c[1] == q;
          if j > 1 {
            assert c[j] == Chain(h, q)[j - 1] && Chain(h, q)[0] == q;
          }
        } else {
          assert c[i] == Chain(h, q)[i - 1] && c[j] == Chain(h, q)[j - 1];
        }
      }
    }
  }

  // ---------------------------------------------------------------------------
  // `findNodeByCondition`: the first node of the pre-order that satisfies the
  // condition
  // ---------------------------------------------------------------------------

  /** The first element of `s` that satisfies `p`, if any. */
  function FirstMatch<X>(s: seq<X>, p: X -> bool): (r: Option<X>)
    ensures r.None? <==> forall i :: 0 <= i < |s| ==> !p(s[i])
    ensures r.Some? ==> exists i :: 0 <= i < |s| && s[i] == r.value && p(s[i]) &&
                                    forall j :: 0 <= j < i ==> !p(s[j])
  {
    if s == [] then None
    else if p(s[0]) then Some(s[0])
    else
      FirstMatch(s[1..], p)
  }

  /** Searching a concatenation searches the first part, then the second. */
  lemma {:induction false} FirstMatchConcat<X>(a: seq<X>, b: seq<X>, p: X -> bool)
    ensures FirstMatch(a + b, p) == if FirstMatch(a, p).Some? then FirstMatch(a, p) else FirstMatch(b, p)
  {
    if a != [] {
      assert (a + b)[0] == a[0] && (a + b)[1..] == a[1..] + b;
      FirstMatchConcat(a[1..], b, p);
    } else {
      assert a + b == b;
    }
  }

  /**
   * `findNodeByCondition(condition)` on `n`: the pre-order search returns `n`
   * itself when it matches; anything it returns matches and lies in the
   * subtree; it returns nothing exactly when no node of the subtree matches.
   */
  lemma FindInSubtree<K, T>(h: Heap<K, T>, n: NodeId, cond: NodeId -> bool)
    requires WellFormed(h) && n in h
    ensures cond(n) ==> FirstMatch(PreOrder(h, n), cond) == Some(n)
    ensures FirstMatch(PreOrder(h, n), cond).Some? ==>
      var x := FirstMatch(PreOrder(h, n), cond).value;
      x in h && InSubtree(h, n, x) && cond(x)
    ensures FirstMatch(PreOrder(h, n), cond).None? <==>
      forall x :: x in h && InSubtree(h, n, x) ==> !cond(x)
  {
    PreOrderIsSubtree(h, n);
    var s := PreOrder(h, n);
    if FirstMatch(s, cond).Some? {
      assert FirstMatch(s, cond).value in s;
    }
    assert (forall x :: x in h && InSubtree(h, n, x) ==> !cond(x)) <==> (forall i :: 0 <= i < |s| ==> !cond(s[i]));
  }
}
