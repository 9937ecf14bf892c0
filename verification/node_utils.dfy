/**
 * `NodeUtils` (src/core/NodeUtils.ts): conversion of a node's subtree to a
 * plain nested `TreeNode` record and back.
 */
module NodeUtils {
  import opened Options
  import OM = OrderedMap
  import opened NodeHeap
  import opened NodeMutation
  import opened Node

  /** `TreeNode`: a name, optional data and the child records in order. */
  datatype TreeRecord<K, T> = TreeRecord(name: K, data: Option<T>, children: seq<TreeRecord<K, T>>)

  // ---------------------------------------------------------------------------
  // From nodes to records
  // ---------------------------------------------------------------------------

  /**
   * The record of `n`'s subtree: `n`'s name and data, and one record per
   * child, in the insertion order of `children`.
   */
  function ToRecord<K, T>(h: Heap<K, T>, n: NodeId): (r: TreeRecord<K, T>)
    requires WellFormed(h) && n in h
    ensures r.name == h[n].name && r.data == h[n].data
    ensures |r.children| == |h[n].children|
    decreases Height(h) - SomeRank(h)[n], 1, 0
  {
    TreeRecord(h[n].name, h[n].data, ToRecordsFrom(h, n, 0))
  }

  /** The records of `n`'s children from the `i`-th on. */
  function ToRecordsFrom<K, T>(h: Heap<K, T>, n: NodeId, i: nat): (rs: seq<TreeRecord<K, T>>)
    requires WellFormed(h) && n in h && i <= |h[n].children|
    ensures |rs| == |h[n].children| - i
    decreases Height(h) - SomeRank(h)[n], 0, |h[n].children| - i
  {
    if i == |h[n].children| then []
    else
      ChildOf(h, n, i);
      [ToRecord(h, h[n].children[i].1)] + ToRecordsFrom(h, n, i + 1)
  }

  lemma {:induction false} ToRecordsFromAt<K, T>(h: Heap<K, T>, n: NodeId, i: nat, j: nat)
    requires WellFormed(h) && n in h && i <= j < |h[n].children|
    ensures h[n].children[j].1 in h
    ensures ToRecordsFrom(h, n, i)[j - i] == ToRecord(h, h[n].children[j].1)
    decreases j - i
  {
    ChildOf(h, n, j);
    if i < j {
      ToRecordsFromAt(h, n, i + 1, j);
    }
  }

  /** Entry `j` of a record's `children` is the record of the `j`-th child. */
  lemma ToRecordChildren<K, T>(h: Heap<K, T>, n: NodeId)
    requires WellFormed(h) && n in h
    ensures forall j :: 0 <= j < |h[n].children| ==>
      h[n].children[j].1 in h && ToRecord(h, n).children[j] == ToRecord(h, h[n].children[j].1)
  {
    forall j | 0 <= j < |h[n].children|
      ensures h[n].children[j].1 in h && ToRecord(h, n).children[j] == ToRecord(h, h[n].children[j].1)
    {
      ToRecordsFromAt(h, n, 0, j);
    }
  }

  /**
   * A record depends only on the names, data and children of the nodes of the
   * subtree: a heap that agrees on those gives the same record.
   */
  lemma {:induction false} ToRecordFrame<K, T>(h1: Heap<K, T>, h2: Heap<K, T>, x: NodeId)
    requires WellFormed(h1) && WellFormed(h2) && x in h1
    requires forall y :: y in h1 && InSubtree(h1, x, y) ==>
      y in h2 && h2[y].name == h1[y].name && h2[y].data == h1[y].data && h2[y].children == h1[y].children
    ensures x in h2 && ToRecord(h2, x) == ToRecord(h1, x)
    decreases Height(h1) - SomeRank(h1)[x]
  {
    ToRecordChildren(h1, x);
    ToRecordChildren(h2, x);
    forall j | 0 <= j < |h1[x].children|
      ensures ToRecord(h2, x).children[j] == ToRecord(h1, x).children[j]
    {
      var c := h1[x].children[j].1;
      ChildInSubtree(h1, x, j);
      ChildOf(h1, x, j);
      forall y | y in h1 && InSubtree(h1, c, y)
        ensures InSubtree(h1, x, y)
      {
        InSubtreeTrans(h1, x, c, y);
      }
      ToRecordFrame(h1, h2, c);
    }
  }

  /**
   * `convertNodeToJSON(n)`: the record of `n`'s subtree, built by pushing the
   * conversion of each child in insertion order. It only reads the nodes.
   */
  method ConvertNodeToJSON<K(==), T>(a: Arena<K, T>, n: NodeId) returns (r: TreeRecord<K, T>)
    requires a.Valid() && WellFormed(a.nodes) && n in a.nodes
    ensures r == ToRecord(a.nodes, n)
    ensures DistinctNames(r)
    decreases Height(a.nodes) - SomeRank(a.nodes)[n]
  {
    var h := a.nodes;
    var children: seq<TreeRecord<K, T>> := [];
    var i := 0;
    ToRecordChildren(h, n);
    while i < |h[n].children|
      invariant i <= |h[n].children| && |children| == i
      invariant forall j :: 0 <= j < i ==> children[j] == ToRecord(h, n).children[j]
    {
      ChildOf(h, n, i);
      var childJson := ConvertNodeToJSON(a, h[n].children[i].1);
      children := children + [childJson];
      i := i + 1;
    }
    r := TreeRecord(h[n].name, h[n].data, children);
    ToRecordDistinct(h, n);
  }

  // ---------------------------------------------------------------------------
  // From records to nodes
  // ---------------------------------------------------------------------------

  /**
   * The record that the nodes built from `r` convert back to: each level's
   * children are added by name into an insertion-ordered map, so a later
   * sibling replaces an earlier same-named one in that one's slot.
   */
  function Normalize<K(==), T>(r: TreeRecord<K, T>): (n: TreeRecord<K, T>)
    ensures n.name == r.name && n.data == r.data
    decreases r, 1
  {
    TreeRecord(r.name, r.data, OM.Values(OM.SetEach(Entries(r))))
  }

  /** The child records of `r`, normalized, each under its own name. */
  function Entries<K(==), T>(r: TreeRecord<K, T>): (e: seq<(K, TreeRecord<K, T>)>)
    ensures |e| == |r.children|
    decreases r, 0
  {
    seq(|r.children|, j requires 0 <= j < |r.children| => (r.children[j].name, Normalize(r.children[j])))
  }

  /** Sibling names are pairwise distinct, at every level. */
  ghost predicate DistinctNames<K, T>(r: TreeRecord<K, T>)
  {
    && (forall i, j :: 0 <= i < j < |r.children| ==> r.children[i].name != r.children[j].name)
    && forall i :: 0 <= i < |r.children| ==> DistinctNames(r.children[i])
  }

  /** Without duplicate sibling names, normalizing changes nothing. */
  lemma {:induction false} NormalizeDistinct<K, T>(r: TreeRecord<K, T>)
    requires DistinctNames(r)
    ensures Normalize(r) == r
    decreases r
  {
    var e := Entries(r);
    forall j | 0 <= j < |e|
      ensures e[j] == (r.children[j].name, r.children[j])
    {
      NormalizeDistinct(r.children[j]);
    }
    assert OM.UniqueKeys(e);
    OM.SetEachUnique(e);
    assert OM.Values(e) == r.children;
  }

  /**
   * A record converted from nodes has distinct sibling names at every level,
   * because a `Map` holds each name once and every child is held under its
   * own name.
   */
  lemma {:induction false} ToRecordDistinct<K, T>(h: Heap<K, T>, n: NodeId)
    requires WellFormed(h) && n in h
    ensures DistinctNames(ToRecord(h, n))
    decreases Height(h) - SomeRank(h)[n]
  {
    var r := ToRecord(h, n);
    ToRecordChildren(h, n);
    assert BackLinked(h, n);
    forall i, j | 0 <= i < j < |r.children|
      ensures r.children[i].name != r.children[j].name
    {
      ChildOf(h, n, i);
      ChildOf(h, n, j);
    }
    forall i | 0 <= i < |r.children|
      ensures DistinctNames(r.children[i])
    {
      ChildOf(h, n, i);
      ToRecordDistinct(h, h[n].children[i].1);
    }
  }

  /**
   * Rebuilding nodes from a node's record and converting them back gives the
   * same record: normalizing a record converted from nodes changes nothing.
   */
  lemma ToRecordRoundTrip<K, T>(h: Heap<K, T>, n: NodeId)
    requires WellFormed(h) && n in h
    ensures Normalize(ToRecord(h, n)) == ToRecord(h, n)
  {
    ToRecordDistinct(h, n);
    NormalizeDistinct(ToRecord(h, n));
  }

  /** The names among a sequence of records. */
  ghost function Names<K, T>(cs: seq<TreeRecord<K, T>>): (ks: set<K>)
  {
    set c | c in cs :: c.name
  }

  /** With duplicate sibling names, the built node has one child per distinct name. */
  lemma NormalizeChildCount<K, T>(r: TreeRecord<K, T>)
    ensures |Normalize(r).children| == |Names(r.children)|
  {
    var e := Entries(r);
    OM.SetEachCount(e);
    forall x | x in OM.KeySet(e)
      ensures x in Names(r.children)
    {
      var p :| p in e && p.0 == x;
      var j :| 0 <= j < |e| && e[j] == p;
      assert r.children[j] in r.children;
    }
    forall x | x in Names(r.children)
      ensures x in OM.KeySet(e)
    {
      var c :| c in r.children && c.name == x;
      var j :| 0 <= j < |r.children| && r.children[j] == c;
      assert e[j] in e;
    }
    assert OM.KeySet(e) == Names(r.children);
  }

  /** Of several same-named siblings, the last one is the one that is kept. */
  lemma NormalizeLastWins<K, T>(r: TreeRecord<K, T>, i: nat)
    requires i < |r.children|
    requires forall j :: i < j < |r.children| ==> r.children[j].name != r.children[i].name
    ensures Normalize(r.children[i]) in Normalize(r).children
  {
    var e := Entries(r);
    OM.SetEachLastWins(e, i);
    OM.SetEachKeys(e);
    var m := OM.SetEach(e);
    var k := OM.IndexOf(m, r.children[i].name).value;
    assert OM.Values(m)[k] == Normalize(r.children[i]);
  }

  /**
   * Adding more child records never moves a name: the names of the first
   * children added keep their slots, new names are appended after them.
   */
  lemma NormalizePrefix<K, T>(r: TreeRecord<K, T>, i: nat)
    requires i <= |r.children|
    ensures |OM.SetEach(Entries(r)[..i])| <= |Normalize(r).children|
    ensures OM.Keys(OM.SetEach(Entries(r)[..i])) == OM.Keys(OM.SetEach(Entries(r)))[..|OM.SetEach(Entries(r)[..i])|]
  {
    OM.SetEachPrefix(Entries(r), i);
  }

  /**
   * `node` holds, slot by slot, the same names as the map `b` and children
   * whose records are `b`'s values.
   */
  ghost predicate Mirrors<K, T>(h: Heap<K, T>, node: NodeId, b: seq<(K, TreeRecord<K, T>)>)
    requires WellFormed(h) && node in h
  {
    && OM.SameKeys(h[node].children, b)
    && forall j :: 0 <= j < |b| ==> ToRecord(h, h[node].children[j].1) == b[j].1
  }

  /** A node that mirrors the fully built map of `r` converts back to `Normalize(r)`. */
  lemma MirrorsRecord<K, T>(h: Heap<K, T>, node: NodeId, r: TreeRecord<K, T>)
    requires WellFormed(h) && node in h
    requires h[node].name == r.name && h[node].data == r.data
    requires Mirrors(h, node, OM.SetEach(Entries(r)))
    ensures ToRecord(h, node) == Normalize(r)
  {
    ToRecordChildren(h, node);
    assert ToRecord(h, node).children == OM.Values(OM.SetEach(Entries(r)));
  }

  /**
   * `convertJSONToNode(r)`: a fresh parentless node with `r`'s name and data
   * and no listeners, to which the conversion of each child record is added
   * in array order. Converting it back gives `Normalize(r)`, which is `r`
   * itself when sibling names are distinct at every level.
   */
  method ConvertJSONToNode<K(==), T>(a: Arena<K, T>, r: TreeRecord<K, T>) returns (id: NodeId)
    requires a.Valid() && WellFormed(a.nodes)
    modifies a
    ensures a.Valid() && WellFormed(a.nodes)
    ensures id in a.nodes && id !in old(a.nodes)
    ensures forall m :: m in old(a.nodes) ==> m in a.nodes && a.nodes[m] == old(a.nodes)[m]
    ensures a.nodes[id].parent.None? && a.nodes[id].listeners == map[]
    ensures ToRecord(a.nodes, id) == Normalize(r)
    ensures DistinctNames(r) ==> ToRecord(a.nodes, id) == r
    decreases r, 1
  {
    ghost var h0 := a.nodes;
    id := a.NewNode(r.name, r.data, None);
    BuildingStart(h0, a.nodes, id, r);
    var i: nat := 0;
    while i < |r.children|
      invariant a.Valid() && WellFormed(a.nodes)
      invariant i <= |r.children|
      invariant Building(h0, a.nodes, id, r.name, r.data, OM.SetEach(Entries(r)[..i]))
    {
      AddConvertedChild(a, id, r, i, h0);
      i := i + 1;
    }
    BuildingDone(h0, a.nodes, id, r);
  }

  /** The freshly made node, with no children yet, starts the loop of `convertJSONToNode`. */
  lemma BuildingStart<K, T>(h0: Heap<K, T>, h: Heap<K, T>, id: NodeId, r: TreeRecord<K, T>)
    requires WellFormed(h) && id !in h0 && h == NewHeap(h0, id, r.name, r.data, None)
    ensures Building(h0, h, id, r.name, r.data, OM.SetEach(Entries(r)[..0]))
  {
    assert Entries(r)[..0] == [];
  }

  /** Once every child record is added, the fresh node converts back to `Normalize(r)`. */
  lemma BuildingDone<K, T>(h0: Heap<K, T>, h: Heap<K, T>, id: NodeId, r: TreeRecord<K, T>)
    requires WellFormed(h) && Building(h0, h, id, r.name, r.data, OM.SetEach(Entries(r)[..|r.children|]))
    ensures id in h && ToRecord(h, id) == Normalize(r)
    ensures DistinctNames(r) ==> ToRecord(h, id) == r
  {
    assert Entries(r)[..|r.children|] == Entries(r);
    MirrorsRecord(h, id, r);
    if DistinctNames(r) {
      NormalizeDistinct(r);
    }
  }

  /** One turn of the loop of `convertJSONToNode`: convert the `i`-th child record, then `addChild` it. */
  method AddConvertedChild<K(==), T>(a: Arena<K, T>, id: NodeId, r: TreeRecord<K, T>, i: nat, ghost h0: Heap<K, T>)
    requires a.Valid() && WellFormed(a.nodes) && i < |r.children|
    requires Building(h0, a.nodes, id, r.name, r.data, OM.SetEach(Entries(r)[..i]))
    modifies a
    ensures a.Valid() && WellFormed(a.nodes)
    ensures Building(h0, a.nodes, id, r.name, r.data, OM.SetEach(Entries(r)[..i + 1]))
    decreases r, 0
  {
    ghost var h1 := a.nodes;
    var childId := ConvertJSONToNode(a, r.children[i]);
    ghost var h2 := a.nodes;
    a.AddChild(id, childId);
    ConvertStep(h0, h1, h2, id, childId, r.name, r.data, OM.SetEach(Entries(r)[..i]), Normalize(r.children[i]));
    OM.SetEachSnoc(Entries(r), i);
  }

  /**
   * The state of `convertJSONToNode(r)` after adding some of the child records
   * to the fresh node `id`: the nodes that were there before are untouched,
   * and `id` keeps `r`'s name and data, no parent and no listeners, and
   * mirrors the children map `b` built so far.
   */
  ghost predicate Building<K, T>(h0: Heap<K, T>, h: Heap<K, T>, id: NodeId, name: K, data: Option<T>,
                                 b: seq<(K, TreeRecord<K, T>)>)
    requires WellFormed(h)
  {
    && id in h && id !in h0
    && (forall m :: m in h0 ==> m in h && h[m] == h0[m])
    && h[id].name == name && h[id].data == data
    && h[id].parent.None? && h[id].listeners == map[]
    && Mirrors(h, id, b)
  }

  /** One turn of the loop of `convertJSONToNode`: convert a child record, then `addChild` it. */
  lemma ConvertStep<K, T>(h0: Heap<K, T>, h1: Heap<K, T>, h2: Heap<K, T>, id: NodeId, c: NodeId,
                          name: K, data: Option<T>, b: seq<(K, TreeRecord<K, T>)>, v: TreeRecord<K, T>)
    requires WellFormed(h1) && WellFormed(h2)
    requires Building(h0, h1, id, name, data, b)
    requires forall m :: m in h1 ==> m in h2 && h2[m] == h1[m]
    requires c in h2 && c !in h1 && h2[c].parent.None? && ToRecord(h2, c) == v
    ensures id in h2 && WellFormed(AddChildHeap(h2, id, c))
    ensures Building(h0, AddChildHeap(h2, id, c), id, name, data, OM.Set(b, v.name, v))
  {
    var h3 := AddChildHeap(h2, id, c);
    assert id in h2 && h2[id] == h1[id];
    assert CanAdopt(h2, id, c) by {
      assert Chain(h2, id) == [id];
      ParentlessCanAdopt(h2, id, c);
    }
    assert WellFormed(h3) && Mirrors(h3, id, OM.Set(b, v.name, v)) by {
      MirrorsFresh(h1, h2, id, b);
      AdoptMirrors(h2, id, c, b, v);
    }
    forall m | m in h0
      ensures m in h3 && h3[m] == h0[m]
    {
      assert m in h1 && h1[m] == h0[m];
      assert m in h2 && h2[m] == h1[m];
      AddChildOthers(h2, id, c, m);
    }
    assert h3[id] == h2[id].(children := h3[id].children);
  }

  /** `addChild` leaves every node other than the two it links as it was. */
  lemma AddChildOthers<K, T>(h: Heap<K, T>, p: NodeId, c: NodeId, m: NodeId)
    requires p in h && c in h && m in h && m != p && m != c
    ensures m in AddChildHeap(h, p, c) && AddChildHeap(h, p, c)[m] == h[m]
  {
  }

  /** Building a child only adds nodes, so the mirrored children keep their records. */
  lemma MirrorsFresh<K, T>(h1: Heap<K, T>, h2: Heap<K, T>, node: NodeId, b: seq<(K, TreeRecord<K, T>)>)
    requires WellFormed(h1) && WellFormed(h2) && node in h1
    requires forall m :: m in h1 ==> m in h2 && h2[m] == h1[m]
    requires Mirrors(h1, node, b)
    ensures node in h2 && Mirrors(h2, node, b)
  {
    forall j | 0 <= j < |b|
      ensures ToRecord(h2, h2[node].children[j].1) == b[j].1
    {
      ChildOf(h1, node, j);
      var x := h1[node].children[j].1;
      forall y | y in h1 && InSubtree(h1, x, y)
        ensures y in h2 && h2[y] == h1[y]
      {
      }
      ToRecordFrame(h1, h2, x);
    }
  }

  /**
   * Adopting a node whose record is `v` into a parentless node that mirrors
   * `b` makes it mirror `b` with `v` set under `v`'s name.
   */
  lemma AdoptMirrors<K, T>(h: Heap<K, T>, node: NodeId, c: NodeId, b: seq<(K, TreeRecord<K, T>)>, v: TreeRecord<K, T>)
    requires CanAdopt(h, node, c) && h[node].parent.None?
    requires Mirrors(h, node, b) && ToRecord(h, c) == v
    ensures WellFormed(AddChildHeap(h, node, c))
    ensures Mirrors(AddChildHeap(h, node, c), node, OM.Set(b, v.name, v))
  {
    var h' := AddChildHeap(h, node, c);
    AddChildKeepsWellFormed(h, node, c);
    OM.SetParallel(h[node].children, b, v.name, c, v);
    assert node != c by {
      assert Chain(h, node)[0] == node;
    }
    assert h'[node].children == OM.Set(h[node].children, v.name, c);
    forall j | 0 <= j < |OM.Set(b, v.name, v)|
      ensures ToRecord(h', h'[node].children[j].1) == OM.Set(b, v.name, v)[j].1
    {
      var x := h'[node].children[j].1;
      if x == c {
        FrameAfterAdopt(h, node, c, c);
      } else {
        assert j < |b| && h'[node].children[j] == h[node].children[j];
        ChildOf(h, node, j);
        FrameAfterAdopt(h, node, c, x);
      }
    }
  }

  /**
   * Adoption changes only `node`'s children and `c`'s parent; a subtree that
   * does not contain the parentless `node` keeps its record.
   */
  lemma FrameAfterAdopt<K, T>(h: Heap<K, T>, node: NodeId, c: NodeId, x: NodeId)
    requires CanAdopt(h, node, c) && h[node].parent.None? && x in h && x != node
    requires WellFormed(AddChildHeap(h, node, c))
    ensures ToRecord(AddChildHeap(h, node, c), x) == ToRecord(h, x)
  {
    AdoptKeepsFields(h, node, c, x);
    ToRecordFrame(h, AddChildHeap(h, node, c), x);
  }

  lemma AdoptKeepsFields<K, T>(h: Heap<K, T>, node: NodeId, c: NodeId, x: NodeId)
    requires WellFormed(h) && node in h && c in h && node != c && h[node].parent.None? && x in h && x != node
    ensures forall y :: y in h && InSubtree(h, x, y) ==>
      var h' := AddChildHeap(h, node, c);
      y in h' && h'[y].name == h[y].name && h'[y].data == h[y].data && h'[y].children == h[y].children
  {
    assert Chain(h, node) == [node];
    forall y | y in h && InSubtree(h, x, y)
      ensures y != node
    {
      InSubtreeRank(h, x, y);
    }
  }

  /**
   * A node converted to a record, rebuilt from that record and converted again
   * gives the first record back; the original nodes are left unchanged.
   */
  method ConvertRoundTrip<K(==), T>(a: Arena<K, T>, n: NodeId) returns (r1: TreeRecord<K, T>, id: NodeId, r2: TreeRecord<K, T>)
    requires a.Valid() && WellFormed(a.nodes) && n in a.nodes
    modifies a
    ensures a.Valid() && WellFormed(a.nodes)
    ensures n in a.nodes && a.nodes[n] == old(a.nodes)[n] && id in a.nodes && id !in old(a.nodes)
    ensures r1 == ToRecord(old(a.nodes), n) && r2 == ToRecord(a.nodes, id)
    ensures r2 == r1
  {
    r1 := ConvertNodeToJSON(a, n);
    id := ConvertJSONToNode(a, r1);
    r2 := ConvertNodeToJSON(a, id);
  }
}
