/**
 * The event side of `Node` (src/core/Node.ts): per-node listener lists and the
 * bubbling of an emitted event from its target up every ancestor to the root.
 * Listeners are opaque ids; an emission is described by the sequence of
 * listener calls it makes, each with the envelope the listener receives.
 */
module NodeEvents {
  import opened Options
  import opened NodeHeap

  /** The `EventData` envelope handed to every listener. */
  datatype Envelope<D> = Envelope(eventData: Option<D>, target: NodeId, current: NodeId, isChild: bool)

  /** The listeners `n` holds for `event`; a missing list reads as empty. */
  function ListenersOf<K, T>(h: Heap<K, T>, n: NodeId, event: string): (ls: seq<ListenerId>)
    requires n in h
    ensures event in h[n].listeners ==> ls == h[n].listeners[event]
    ensures event !in h[n].listeners ==> ls == []
  {
    if event in h[n].listeners then h[n].listeners[event] else []
  }

  /** `addEventListener(event, listener)` on `n`: a copy of the list with the listener appended. */
  function WithListener<K, T>(h: Heap<K, T>, n: NodeId, event: string, l: ListenerId): (h': Heap<K, T>)
    requires n in h
    ensures h'.Keys == h.Keys
    ensures ListenersOf(h', n, event) == ListenersOf(h, n, event) + [l]
  {
    h[n := h[n].(listeners := h[n].listeners[event := ListenersOf(h, n, event) + [l]])]
  }

  /**
   * Adding a listener appends it to the end of that event's list (duplicates
   * are kept), leaves the lists of other events and every other field and node
   * as they were, and keeps the tree well formed.
   */
  lemma AddListenerSpec<K, T>(h: Heap<K, T>, n: NodeId, event: string, l: ListenerId)
    requires n in h
    ensures n in WithListener(h, n, event, l)
    ensures ListenersOf(WithListener(h, n, event, l), n, event) == ListenersOf(h, n, event) + [l]
    ensures forall e :: e != event ==> ListenersOf(WithListener(h, n, event, l), n, e) == ListenersOf(h, n, e)
    ensures WithListener(h, n, event, l)[n].(listeners := h[n].listeners) == h[n]
    ensures forall m :: m in h && m != n ==> m in WithListener(h, n, event, l) && WithListener(h, n, event, l)[m] == h[m]
    ensures WellFormed(h) ==> WellFormed(WithListener(h, n, event, l))
  {
    var h' := WithListener(h, n, event, l);
    if WellFormed(h) {
      SameShapeWellFormed(h, h');
    }
  }

  /** One call per listener, in list order, all with the same envelope. */
  function Notify<D>(ls: seq<ListenerId>, env: Envelope<D>): (calls: seq<(ListenerId, Envelope<D>)>)
    ensures |calls| == |ls|
    ensures forall i :: 0 <= i < |ls| ==> calls[i] == (ls[i], env)
  {
    if ls == [] then [] else [(ls[0], env)] + Notify(ls[1..], env)
  }

  /** Every node of `chain` is allocated. */
  ghost predicate OnHeap<K, T>(h: Heap<K, T>, chain: seq<NodeId>)
  {
    forall j :: 0 <= j < |chain| ==> chain[j] in h
  }

  /** How many calls the nodes `chain[..k]` make: the sum of their list lengths. */
  function CallsBefore<K, T>(h: Heap<K, T>, chain: seq<NodeId>, k: nat, event: string): (count: nat)
    requires k <= |chain| && OnHeap(h, chain)
  {
    if k == 0 then 0 else CallsBefore(h, chain, k - 1, event) + |ListenersOf(h, chain[k - 1], event)|
  }

  /**
   * The calls made for the nodes `chain[i..]` of a parent chain whose first
   * node is the target: each node's listeners in order, with the node as
   * `current` and `isChild` set everywhere but at the target.
   */
  function CallsAlong<K, T, D>(h: Heap<K, T>, chain: seq<NodeId>, i: nat, event: string, d: Option<D>)
    : (calls: seq<(ListenerId, Envelope<D>)>)
    requires i <= |chain| && OnHeap(h, chain)
    ensures |calls| == CallsBefore(h, chain, |chain|, event) - CallsBefore(h, chain, i, event)
    decreases |chain| - i
  {
    if i == |chain| then []
    else Notify(ListenersOf(h, chain[i], event), Envelope(d, chain[0], chain[i], i > 0))
         + CallsAlong(h, chain, i + 1, event, d)
  }

  /** Every listener call `emitEvent(event, d)` on `n` makes, in order: one per listener along the chain. */
  function EventCalls<K, T, D>(h: Heap<K, T>, n: NodeId, event: string, d: Option<D>)
    : (calls: seq<(ListenerId, Envelope<D>)>)
    requires Acyclic(h) && n in h
    ensures |calls| == CallsBefore(h, Chain(h, n), |Chain(h, n)|, event)
  {
    CallsAlong(h, Chain(h, n), 0, event, d)
  }

  /** The calls made for the first `k` nodes of the chain, as many as `CallsBefore` counts. */
  ghost function CallsUpTo<K, T, D>(h: Heap<K, T>, chain: seq<NodeId>, k: nat, event: string, d: Option<D>)
    : (calls: seq<(ListenerId, Envelope<D>)>)
    requires k <= |chain| && OnHeap(h, chain)
    ensures |calls| == CallsBefore(h, chain, k, event)
  {
    if k == 0 then []
    else CallsUpTo(h, chain, k - 1, event, d)
         + Notify(ListenersOf(h, chain[k - 1], event), Envelope(d, chain[0], chain[k - 1], k - 1 > 0))
  }

  /** The calls from the `k`-th node of the chain on follow those of the nodes before it. */
  lemma {:induction false} CallsAlongSplit<K, T, D>(h: Heap<K, T>, chain: seq<NodeId>, k: nat, event: string, d: Option<D>)
    requires k <= |chain| && OnHeap(h, chain)
    ensures CallsAlong(h, chain, 0, event, d) == CallsUpTo(h, chain, k, event, d) + CallsAlong(h, chain, k, event, d)
    decreases k
  {
    if k > 0 {
      CallsAlongSplit(h, chain, k - 1, event, d);
      var here := CallsAlongHead(h, chain, k - 1, event, d);
      Regroup(CallsUpTo(h, chain, k - 1, event, d), here, CallsAlong(h, chain, k, event, d));
    }
  }

  /** The calls along `chain[i..]` start with the block of `chain[i]`, as long as its listener list. */
  lemma CallsAlongHead<K, T, D>(h: Heap<K, T>, chain: seq<NodeId>, i: nat, event: string, d: Option<D>)
    returns (here: seq<(ListenerId, Envelope<D>)>)
    requires i < |chain| && OnHeap(h, chain)
    ensures here == Notify(ListenersOf(h, chain[i], event), Envelope(d, chain[0], chain[i], i > 0))
    ensures CallsAlong(h, chain, i, event, d) == here + CallsAlong(h, chain, i + 1, event, d)
    ensures CallsBefore(h, chain, i + 1, event) == CallsBefore(h, chain, i, event) + |here|
  {
    here := Notify(ListenersOf(h, chain[i], event), Envelope(d, chain[0], chain[i], i > 0));
  }

  /** Concatenation regroups. */
  lemma Regroup<X>(a: seq<X>, b: seq<X>, c: seq<X>)
    ensures a + (b + c) == (a + b) + c
  {
  }

  /** In `a + (m + r)`, the slice from the end of `a` to the end of `m` is `m`. */
  lemma MiddleSlice<X>(s: seq<X>, a: seq<X>, m: seq<X>, r: seq<X>, b: nat, e: nat)
    requires s == a + (m + r) && b == |a| && e == |a| + |m|
    ensures e <= |s| && s[b..e] == m
  {
    assert s[b..e] == (m + r)[..|m|];
  }

  /**
   * In `calls`, the block after the calls of `chain[..k]` is the `k`-th node's:
   * each of its listeners once, in order, with that node as `current`.
   */
  ghost predicate BlockAt<K, T, D>(h: Heap<K, T>, chain: seq<NodeId>, calls: seq<(ListenerId, Envelope<D>)>,
                                   k: nat, event: string, d: Option<D>)
    requires k < |chain| && OnHeap(h, chain)
  {
    && CallsBefore(h, chain, k + 1, event) <= |calls|
    && calls[CallsBefore(h, chain, k, event)..CallsBefore(h, chain, k + 1, event)]
       == Notify(ListenersOf(h, chain[k], event), Envelope(d, chain[0], chain[k], k > 0))
  }

  /** The calls of the `k`-th node of the chain are one block, after the calls of the nodes before it. */
  lemma CallsAlongBlock<K, T, D>(h: Heap<K, T>, chain: seq<NodeId>, k: nat, event: string, d: Option<D>)
    requires k < |chain| && OnHeap(h, chain)
    ensures BlockAt(h, chain, CallsAlong(h, chain, 0, event, d), k, event, d)
  {
    CallsAlongSplit(h, chain, k, event, d);
    var here := CallsAlongHead(h, chain, k, event, d);
    MiddleSlice(CallsAlong(h, chain, 0, event, d), CallsUpTo(h, chain, k, event, d), here,
                CallsAlong(h, chain, k + 1, event, d),
                CallsBefore(h, chain, k, event), CallsBefore(h, chain, k + 1, event));
  }

  /** `call` is one the emission makes at the `j`-th node of the chain. */
  ghost predicate Made<K, T, D>(h: Heap<K, T>, chain: seq<NodeId>, j: nat, event: string, d: Option<D>,
                                call: (ListenerId, Envelope<D>))
    requires j < |chain| && chain[j] in h
  {
    call.1 == Envelope(d, chain[0], chain[j], j > 0) && call.0 in ListenersOf(h, chain[j], event)
  }

  /** `call` is one the emission makes at some node of `chain[i..]`. */
  ghost predicate MadeFrom<K, T, D>(h: Heap<K, T>, chain: seq<NodeId>, i: nat, event: string, d: Option<D>,
                                    call: (ListenerId, Envelope<D>))
    requires OnHeap(h, chain)
  {
    exists j :: i <= j < |chain| && Made(h, chain, j, event, d, call)
  }

  /** Every call made along `chain[i..]` is one made at a node of `chain[i..]`. */
  lemma {:induction false} CallsAlongEnvelopes<K, T, D>(h: Heap<K, T>, chain: seq<NodeId>, i: nat, event: string, d: Option<D>)
    requires i <= |chain| && OnHeap(h, chain)
    ensures forall k :: 0 <= k < |CallsAlong(h, chain, i, event, d)| ==>
      MadeFrom(h, chain, i, event, d, CallsAlong(h, chain, i, event, d)[k])
    decreases |chain| - i
  {
    if i < |chain| {
      CallsAlongEnvelopes(h, chain, i + 1, event, d);
      var here := Notify(ListenersOf(h, chain[i], event), Envelope(d, chain[0], chain[i], i > 0));
      var rest := CallsAlong(h, chain, i + 1, event, d);
      var all := CallsAlong(h, chain, i, event, d);
      assert all == here + rest;
      forall k | 0 <= k < |all|
        ensures MadeFrom(h, chain, i, event, d, all[k])
      {
        if k < |here| {
          assert all[k] == here[k];
          assert Made(h, chain, i, event, d, all[k]);
        } else {
          assert all[k] == rest[k - |here|];
          assert MadeFrom(h, chain, i + 1, event, d, rest[k - |here|]);
        }
      }
    }
  }

  /**
   * `emitEvent(event, d)` on `n`: the calls come in one block per node of the
   * parent chain, from `n` up to the root; the block of the `k`-th node calls
   * each of its listeners for `event` once, in list order, with `{eventData:
   * d, target: n, current: that node, isChild: k > 0}`, so every listener
   * along the chain is called. Conversely, every call carries `d` and target
   * `n`, is made to a listener that `current` holds for `event`, where
   * `current` is `n` or one of its ancestors, and `isChild` is set exactly
   * when `current` is an ancestor.
   */
  lemma EmitSpec<K, T, D>(h: Heap<K, T>, n: NodeId, event: string, d: Option<D>)
    requires Acyclic(h) && n in h
    ensures forall k :: 0 <= k < |Chain(h, n)| ==> BlockAt(h, Chain(h, n), EventCalls(h, n, event, d), k, event, d)
    ensures forall k, l :: 0 <= k < |Chain(h, n)| && l in ListenersOf(h, Chain(h, n)[k], event) ==>
      (l, Envelope(d, n, Chain(h, n)[k], k > 0)) in EventCalls(h, n, event, d)
    ensures |ListenersOf(h, n, event)| <= |EventCalls(h, n, event, d)|
    ensures EventCalls(h, n, event, d)[..|ListenersOf(h, n, event)|] ==
      Notify(ListenersOf(h, n, event), Envelope(d, n, n, false))
    ensures forall k :: 0 <= k < |EventCalls(h, n, event, d)| ==>
      var (l, env) := EventCalls(h, n, event, d)[k];
      && env.eventData == d && env.target == n
      && env.current in Chain(h, n)
      && l in ListenersOf(h, env.current, event)
      && env.isChild == (env.current != n)
  {
    EmitBlocks(h, n, event, d);
    EmitSound(h, n, event, d);
  }

  /** The emission is one block per node of the chain, in chain order, and so calls every listener along it. */
  lemma EmitBlocks<K, T, D>(h: Heap<K, T>, n: NodeId, event: string, d: Option<D>)
    requires Acyclic(h) && n in h
    ensures forall k :: 0 <= k < |Chain(h, n)| ==> BlockAt(h, Chain(h, n), EventCalls(h, n, event, d), k, event, d)
    ensures forall k, l :: 0 <= k < |Chain(h, n)| && l in ListenersOf(h, Chain(h, n)[k], event) ==>
      (l, Envelope(d, n, Chain(h, n)[k], k > 0)) in EventCalls(h, n, event, d)
  {
    var c := Chain(h, n);
    var calls := EventCalls(h, n, event, d);
    assert OnHeap(h, c);
    forall k | 0 <= k < |c|
      ensures BlockAt(h, c, calls, k, event, d)
    {
      CallsAlongBlock(h, c, k, event, d);
    }
    forall k, l | 0 <= k < |c| && l in ListenersOf(h, c[k], event)
      ensures (l, Envelope(d, n, c[k], k > 0)) in calls
    {
      BlockHas(h, c, calls, k, event, d, l);
    }
  }

  /** A block holds a call to each listener of its node. */
  lemma BlockHas<K, T, D>(h: Heap<K, T>, chain: seq<NodeId>, calls: seq<(ListenerId, Envelope<D>)>,
                          k: nat, event: string, d: Option<D>, l: ListenerId)
    requires k < |chain| && OnHeap(h, chain) && BlockAt(h, chain, calls, k, event, d)
    requires l in ListenersOf(h, chain[k], event)
    ensures (l, Envelope(d, chain[0], chain[k], k > 0)) in calls
  {
    var env := Envelope(d, chain[0], chain[k], k > 0);
    NotifyHas(ListenersOf(h, chain[k], event), env, l);
    SliceHas(calls, CallsBefore(h, chain, k, event), CallsBefore(h, chain, k + 1, event),
             Notify(ListenersOf(h, chain[k], event), env), (l, env));
  }

  /** Each listener of a list is called with the envelope. */
  lemma NotifyHas<D>(ls: seq<ListenerId>, env: Envelope<D>, l: ListenerId)
    requires l in ls
    ensures (l, env) in Notify(ls, env)
  {
    var j :| 0 <= j < |ls| && ls[j] == l;
    assert Notify(ls, env)[j] == (l, env);
  }

  /** An element of a slice is an element of the whole sequence. */
  lemma SliceHas<X>(s: seq<X>, b: nat, e: nat, m: seq<X>, x: X)
    requires b <= e <= |s| && s[b..e] == m && x in m
    ensures x in s
  {
    var j :| 0 <= j < |m| && m[j] == x;
    assert s[b + j] == m[j];
  }

  /** Every call of the emission is one made at a node of the chain, with its envelope. */
  lemma EmitSound<K, T, D>(h: Heap<K, T>, n: NodeId, event: string, d: Option<D>)
    requires Acyclic(h) && n in h
    ensures |ListenersOf(h, n, event)| <= |EventCalls(h, n, event, d)|
    ensures EventCalls(h, n, event, d)[..|ListenersOf(h, n, event)|] ==
      Notify(ListenersOf(h, n, event), Envelope(d, n, n, false))
    ensures forall k :: 0 <= k < |EventCalls(h, n, event, d)| ==>
      var (l, env) := EventCalls(h, n, event, d)[k];
      && env.eventData == d && env.target == n
      && env.current in Chain(h, n)
      && l in ListenersOf(h, env.current, event)
      && env.isChild == (env.current != n)
  {
    var c := Chain(h, n);
    var calls := EventCalls(h, n, event, d);
    var own := Notify(ListenersOf(h, n, event), Envelope(d, n, n, false));
    assert calls == own + CallsAlong(h, c, 1, event, d);
    assert calls[..|own|] == own;
    CallsAlongEnvelopes(h, c, 0, event, d);
    ChainRanks(h, n);
    forall k | 0 <= k < |calls|
      ensures var (l, env) := calls[k];
        && env.eventData == d && env.target == n
        && env.current in c
        && l in ListenersOf(h, env.current, event)
        && env.isChild == (env.current != n)
    {
      assert MadeFrom(h, c, 0, event, d, calls[k]);
      var j :| 0 <= j < |c| && Made(h, c, j, event, d, calls[k]);
      assert j > 0 ==> c[j] != c[0];
    }
  }
}
