/**
 * An insertion-ordered dictionary with the semantics of a JavaScript `Map`:
 * a sequence of key-value entries in which `Set` on a present key replaces the
 * value in that key's original slot, `Set` on a new key appends, and `Delete`
 * removes the entry and keeps the order of the rest.
 */
module OrderedMap {
  import opened Options

  /** The keys in iteration order. */
  function Keys<K, V>(m: seq<(K, V)>): (ks: seq<K>)
    ensures |ks| == |m|
    ensures forall i :: 0 <= i < |m| ==> ks[i] == m[i].0
  {
    if m == [] then [] else [m[0].0] + Keys(m[1..])
  }

  /** The values in iteration order, as `Map.prototype.values()` yields them. */
  function Values<K, V>(m: seq<(K, V)>): (vs: seq<V>)
    ensures |vs| == |m|
    ensures forall i :: 0 <= i < |m| ==> vs[i] == m[i].1
  {
    if m == [] then [] else [m[0].1] + Values(m[1..])
  }

  /** No key occurs twice: the shape every JavaScript `Map` has. */
  ghost predicate UniqueKeys<K, V>(m: seq<(K, V)>)
  {
    forall i, j :: 0 <= i < j < |m| ==> m[i].0 != m[j].0
  }

  /** The slot holding key `k`, if any (the first such slot). */
  function IndexOf<K(==), V>(m: seq<(K, V)>, k: K): (r: Option<nat>)
    ensures r.Some? ==> r.value < |m| && m[r.value].0 == k
    ensures r.Some? ==> forall j :: 0 <= j < r.value ==> m[j].0 != k
    ensures r.None? <==> forall j :: 0 <= j < |m| ==> m[j].0 != k
  {
    if m == [] then None
    else if m[0].0 == k then Some(0)
    else match IndexOf(m[1..], k)
      case None => None
      case Some(i) => Some(i + 1)
  }

  /** `m.get(k)`. */
  function Get<K(==), V>(m: seq<(K, V)>, k: K): (r: Option<V>)
    ensures r.None? <==> forall i :: 0 <= i < |m| ==> m[i].0 != k
  {
    match IndexOf(m, k)
    case None => None
    case Some(i) => Some(m[i].1)
  }

  /** `m.set(k, v)`: replace in place when `k` is present, append otherwise. */
  function Set<K(==), V>(m: seq<(K, V)>, k: K, v: V): (r: seq<(K, V)>)
    ensures |m| <= |r| <= |m| + 1
  {
    match IndexOf(m, k)
    case Some(i) => assert m[i := (k, v)][i] == (k, v); m[i := (k, v)]
    case None => m + [(k, v)]
  }

  /** `m.delete(k)`: drop the entry of `k`, if any, keeping the others in order. */
  function Delete<K(==), V>(m: seq<(K, V)>, k: K): (r: seq<(K, V)>)
    ensures |m| - 1 <= |r| <= |m|
    ensures forall e :: e in r ==> e in m
  {
    match IndexOf(m, k)
    case Some(i) => m[..i] + m[i + 1..]
    case None => m
  }

  /** The first slot holding `k` is the answer of `IndexOf`. */
  lemma IndexOfAt<K, V>(m: seq<(K, V)>, k: K, i: nat)
    requires i < |m| && m[i].0 == k
    requires forall j :: 0 <= j < i ==> m[j].0 != k
    ensures IndexOf(m, k) == Some(i)
  {
  }

  /** With unique keys, every entry is found under its own key. */
  lemma GetEntry<K, V>(m: seq<(K, V)>, i: nat)
    requires UniqueKeys(m) && i < |m|
    ensures Get(m, m[i].0) == Some(m[i].1)
  {
    IndexOfAt(m, m[i].0, i);
  }

  /** A found value comes from an entry stored under the key that was asked for. */
  lemma GetSome<K, V>(m: seq<(K, V)>, k: K)
    requires Get(m, k).Some?
    ensures exists i :: 0 <= i < |m| && m[i] == (k, Get(m, k).value)
  {
    var i := IndexOf(m, k).value;
    assert m[i] == (k, Get(m, k).value);
  }

  /**
   * After `set(k, v)`: `k` maps to `v`, every other key maps to what it mapped
   * to before, the key order is unchanged when `k` was present and `k` is
   * appended when it was not, and the size grows by one exactly when `k` was new.
   */
  lemma SetSpec<K, V>(m: seq<(K, V)>, k: K, v: V)
    ensures Get(Set(m, k, v), k) == Some(v)
    ensures forall k' :: k' != k ==> Get(Set(m, k, v), k') == Get(m, k')
    ensures Get(m, k).Some? ==> Keys(Set(m, k, v)) == Keys(m)
    ensures Get(m, k).None? ==> Set(m, k, v) == m + [(k, v)]
    ensures |Set(m, k, v)| == if Get(m, k).Some? then |m| else |m| + 1
    ensures UniqueKeys(m) ==> UniqueKeys(Set(m, k, v))
    ensures forall e :: e in Set(m, k, v) ==> e in m || e == (k, v)
  {
    SetGets(m, k, v);
    SetShape(m, k, v);
  }

  /** The lookups of `SetSpec`. */
  lemma SetGets<K, V>(m: seq<(K, V)>, k: K, v: V)
    ensures Get(Set(m, k, v), k) == Some(v)
    ensures forall k' :: k' != k ==> Get(Set(m, k, v), k') == Get(m, k')
  {
    var r := Set(m, k, v);
    match IndexOf(m, k)
    case Some(i) =>
      assert r == m[i := (k, v)];
      IndexOfAt(r, k, i);
      forall k' | k' != k
        ensures Get(r, k') == Get(m, k')
      {
        IndexOfReplace(m, i, k, v, k');
      }
    case None =>
      assert r == m + [(k, v)];
      IndexOfAt(r, k, |m|);
      forall k' | k' != k
        ensures Get(r, k') == Get(m, k')
      {
        IndexOfAppend(m, k, v, k');
      }
  }

  /** The entries, key order and size of `SetSpec`. */
  lemma SetShape<K, V>(m: seq<(K, V)>, k: K, v: V)
    ensures Get(m, k).Some? ==> Keys(Set(m, k, v)) == Keys(m)
    ensures Get(m, k).None? ==> Set(m, k, v) == m + [(k, v)]
    ensures |Set(m, k, v)| == if Get(m, k).Some? then |m| else |m| + 1
    ensures UniqueKeys(m) ==> UniqueKeys(Set(m, k, v))
    ensures forall e :: e in Set(m, k, v) ==> e in m || e == (k, v)
  {
    match IndexOf(m, k)
    case Some(i) =>
      var r := m[i := (k, v)];
      assert Set(m, k, v) == r;
      assert Keys(r) == Keys(m);
    case None =>
  }

  lemma IndexOfReplace<K, V>(m: seq<(K, V)>, i: nat, k: K, v: V, k': K)
    requires i < |m| && m[i].0 == k && k' != k
    ensures IndexOf(m[i := (k, v)], k') == IndexOf(m, k')
    ensures Get(m[i := (k, v)], k') == Get(m, k')
  {
    var m' := m[i := (k, v)];
    match IndexOf(m, k')
    case None =>
      assert forall j :: 0 <= j < |m'| ==> m'[j].0 != k' by {
        forall j | 0 <= j < |m'| ensures m'[j].0 != k' {
          if j != i { assert m'[j] == m[j]; }
        }
      }
    case Some(b) =>
      assert forall j :: 0 <= j < b ==> m'[j].0 != k' by {
        forall j | 0 <= j < b ensures m'[j].0 != k' {
          if j != i { assert m'[j] == m[j]; }
        }
      }
      IndexOfAt(m', k', b);
  }

  lemma IndexOfAppend<K, V>(m: seq<(K, V)>, k: K, v: V, k': K)
    requires k' != k
    ensures IndexOf(m + [(k, v)], k') == IndexOf(m, k')
    ensures Get(m + [(k, v)], k') == Get(m, k')
  {
    var m' := m + [(k, v)];
    match IndexOf(m, k')
    case None =>
      assert forall j :: 0 <= j < |m'| ==> m'[j].0 != k' by {
        forall j | 0 <= j < |m'| ensures m'[j].0 != k' {
          if j < |m| { assert m'[j] == m[j]; }
        }
      }
    case Some(b) =>
      assert forall j :: 0 <= j <= b ==> m'[j] == m[j];
      IndexOfAt(m', k', b);
  }

  /**
   * After `delete(k)` on a map with unique keys: `k` is absent, every other key
   * maps to what it mapped to before, the entry of `k` (if any) is the only one
   * removed and the others keep their order.
   */
  lemma DeleteSpec<K, V>(m: seq<(K, V)>, k: K)
    requires UniqueKeys(m)
    ensures Get(Delete(m, k), k).None?
    ensures forall k' :: k' != k ==> Get(Delete(m, k), k') == Get(m, k')
    ensures Get(m, k).None? ==> Delete(m, k) == m
    ensures Get(m, k).Some? ==> exists i :: 0 <= i < |m| && m[i].0 == k && Delete(m, k) == m[..i] + m[i + 1..]
    ensures |Delete(m, k)| == if Get(m, k).Some? then |m| - 1 else |m|
    ensures UniqueKeys(Delete(m, k))
  {
    match IndexOf(m, k)
    case None =>
    case Some(i) =>
      var r := m[..i] + m[i + 1..];
      assert Delete(m, k) == r;
      assert forall j :: 0 <= j < |r| ==> r[j] == m[if j < i then j else j + 1];
      assert forall j :: 0 <= j < |r| ==> r[j].0 != k;
      forall k' | k' != k
        ensures Get(r, k') == Get(m, k')
      {
        DeleteOther(m, i, k');
      }
  }

  lemma DeleteOther<K, V>(m: seq<(K, V)>, i: nat, k': K)
    requires UniqueKeys(m) && i < |m| && m[i].0 != k'
    ensures Get(m[..i] + m[i + 1..], k') == Get(m, k')
  {
    var r := m[..i] + m[i + 1..];
    assert forall j :: 0 <= j < |r| ==> r[j] == m[if j < i then j else j + 1];
    match IndexOf(m, k')
    case None =>
      assert forall j :: 0 <= j < |r| ==> r[j].0 != k';
    case Some(b) =>
      var b' := if b < i then b else b - 1;
      assert r[b'] == m[b];
      IndexOfAt(r, k', b');
  }

  /** `delete` never adds an entry, whatever the shape of the map. */
  lemma DeleteEntries<K, V>(m: seq<(K, V)>, k: K)
    ensures forall e :: e in Delete(m, k) ==> e in m
  {
    match IndexOf(m, k)
    case None =>
    case Some(i) =>
      assert m == m[..i] + [m[i]] + m[i + 1..];
  }

  /** Same keys in the same slots. */
  ghost predicate SameKeys<K, V, W>(m: seq<(K, V)>, n: seq<(K, W)>)
  {
    |m| == |n| && forall j :: 0 <= j < |m| ==> m[j].0 == n[j].0
  }

  /**
   * Two maps with the same keys in the same slots, updated under the same key,
   * still have the same keys in the same slots, and every slot either holds the
   * two new values or holds what it held before in both maps.
   */
  lemma SetParallel<K, V, W>(m: seq<(K, V)>, n: seq<(K, W)>, k: K, v: V, w: W)
    requires SameKeys(m, n)
    ensures SameKeys(Set(m, k, v), Set(n, k, w))
    ensures forall j :: 0 <= j < |Set(m, k, v)| ==>
      || (Set(m, k, v)[j].1 == v && Set(n, k, w)[j].1 == w)
      || (j < |m| && Set(m, k, v)[j] == m[j] && Set(n, k, w)[j] == n[j])
  {
    match IndexOf(m, k)
    case None =>
      assert IndexOf(n, k).None?;
    case Some(i) =>
      IndexOfAt(n, k, i);
  }

  /** The set of keys. */
  ghost function KeySet<K, V>(m: seq<(K, V)>): (ks: set<K>)
  {
    set e | e in m :: e.0
  }

  /** With unique keys there are as many keys as entries. */
  lemma {:induction false} KeySetCard<K, V>(m: seq<(K, V)>)
    requires UniqueKeys(m)
    ensures |KeySet(m)| == |m|
  {
    if m != [] {
      KeySetCard(m[1..]);
      KeySetCons(m);
    }
  }

  /** The key set of a non-empty map: the first key, new with unique keys, and the rest. */
  lemma KeySetCons<K, V>(m: seq<(K, V)>)
    requires m != []
    ensures KeySet(m) == KeySet(m[1..]) + {m[0].0}
    ensures UniqueKeys(m) ==> UniqueKeys(m[1..]) && m[0].0 !in KeySet(m[1..])
  {
    assert m == [m[0]] + m[1..];
    if UniqueKeys(m) {
      forall e | e in m[1..]
        ensures e.0 != m[0].0
      {
        var j :| 0 <= j < |m[1..]| && m[1..][j] == e;
        assert m[j + 1] == e;
      }
    }
  }

  /** `set` adds its key to the key set and removes none. */
  lemma SetKeySet<K, V>(m: seq<(K, V)>, k: K, v: V)
    ensures KeySet(Set(m, k, v)) == KeySet(m) + {k}
  {
    match IndexOf(m, k)
    case None =>
      assert Set(m, k, v) == m + [(k, v)];
    case Some(i) =>
      var m' := m[i := (k, v)];
      assert Set(m, k, v) == m';
      forall e | e in m
        ensures e.0 in KeySet(m')
      {
        var j :| 0 <= j < |m| && m[j] == e;
        if j != i {
          assert m'[j] == e;
        } else {
          assert m'[i] == (k, v);
        }
      }
      forall e | e in m'
        ensures e.0 in KeySet(m) + {k}
      {
        var j :| 0 <= j < |m'| && m'[j] == e;
        if j != i {
          assert m[j] == e;
        }
      }
      assert m'[i] in m';
  }

  /** `set` keeps the keys it found in their slots; a new key goes after them. */
  lemma SetKeysPrefix<K, V>(m: seq<(K, V)>, k: K, v: V)
    ensures |m| <= |Set(m, k, v)|
    ensures Keys(m) == Keys(Set(m, k, v))[..|m|]
  {
    SetSpec(m, k, v);
  }

  /** The map that `set(k, v)` for each pair of `kvs`, in order, builds from an empty one. */
  function SetEach<K(==), V>(kvs: seq<(K, V)>): (m: seq<(K, V)>)
    ensures |m| <= |kvs|
  {
    if kvs == [] then []
    else Set(SetEach(kvs[..|kvs| - 1]), kvs[|kvs| - 1].0, kvs[|kvs| - 1].1)
  }

  /** Setting the pairs of a prefix one longer sets one more pair. */
  lemma SetEachSnoc<K, V>(kvs: seq<(K, V)>, i: nat)
    requires i < |kvs|
    ensures SetEach(kvs[..i + 1]) == Set(SetEach(kvs[..i]), kvs[i].0, kvs[i].1)
  {
    assert kvs[..i + 1][..i] == kvs[..i];
  }

  /** The built map has unique keys, and exactly the keys of the pairs. */
  lemma {:induction false} SetEachKeys<K, V>(kvs: seq<(K, V)>)
    ensures UniqueKeys(SetEach(kvs))
    ensures KeySet(SetEach(kvs)) == KeySet(kvs)
    decreases |kvs|
  {
    if kvs != [] {
      var init, last := kvs[..|kvs| - 1], kvs[|kvs| - 1];
      var m := SetEach(init);
      assert SetEach(kvs) == Set(m, last.0, last.1);
      SetEachKeys(init);
      SetShape(m, last.0, last.1);
      SetKeySet(m, last.0, last.1);
      KeySetSnoc(init, last);
      assert kvs == init + [last];
    }
  }

  /** The built map has one entry per distinct key among the pairs. */
  lemma SetEachCount<K, V>(kvs: seq<(K, V)>)
    ensures |SetEach(kvs)| == |KeySet(kvs)|
  {
    SetEachKeys(kvs);
    KeySetCard(SetEach(kvs));
  }

  lemma KeySetSnoc<K, V>(m: seq<(K, V)>, e: (K, V))
    ensures KeySet(m + [e]) == KeySet(m) + {e.0}
  {
    forall x | x in KeySet(m + [e])
      ensures x in KeySet(m) + {e.0}
    {
      var f :| f in m + [e] && f.0 == x;
      if f != e {
        assert f in m;
      }
    }
  }

  /** With unique keys no pair is ever replaced: the built map is the pairs themselves. */
  lemma {:induction false} SetEachUnique<K, V>(kvs: seq<(K, V)>)
    requires UniqueKeys(kvs)
    ensures SetEach(kvs) == kvs
    decreases |kvs|
  {
    if kvs != [] {
      var init, last := kvs[..|kvs| - 1], kvs[|kvs| - 1];
      SetEachUnique(init);
      assert IndexOf(init, last.0).None?;
      assert kvs == init + [last];
    }
  }

  /** The last pair with a given key is the one whose value the built map holds. */
  lemma {:induction false} SetEachLastWins<K, V>(kvs: seq<(K, V)>, i: nat)
    requires i < |kvs|
    requires forall j :: i < j < |kvs| ==> kvs[j].0 != kvs[i].0
    ensures Get(SetEach(kvs), kvs[i].0) == Some(kvs[i].1)
    decreases |kvs|
  {
    var init, last := kvs[..|kvs| - 1], kvs[|kvs| - 1];
    SetGets(SetEach(init), last.0, last.1);
    if i < |kvs| - 1 {
      SetEachLastWins(init, i);
    }
  }

  /** Setting more pairs never moves a key: earlier keys keep their slots, new keys are appended. */
  lemma {:induction false} SetEachPrefix<K, V>(kvs: seq<(K, V)>, i: nat)
    requires i <= |kvs|
    ensures |SetEach(kvs[..i])| <= |SetEach(kvs)|
    ensures Keys(SetEach(kvs[..i])) == Keys(SetEach(kvs))[..|SetEach(kvs[..i])|]
    decreases |kvs|
  {
    if i < |kvs| {
      var init, last := kvs[..|kvs| - 1], kvs[|kvs| - 1];
      assert kvs[..i] == init[..i];
      SetEachPrefix(init, i);
      KeysPrefixStep(SetEach(init[..i]), SetEach(init), last.0, last.1);
    } else {
      assert kvs[..i] == kvs;
    }
  }

  /** The keys of `a` stay a prefix of those of `m` when `m` gets one more `set`. */
  lemma KeysPrefixStep<K, V>(a: seq<(K, V)>, m: seq<(K, V)>, k: K, v: V)
    requires |a| <= |m| && Keys(a) == Keys(m)[..|a|]
    ensures |a| <= |Set(m, k, v)| && Keys(a) == Keys(Set(m, k, v))[..|a|]
  {
    SetKeysPrefix(m, k, v);
    var ka, km, ks := Keys(a), Keys(m), Keys(Set(m, k, v));
    assert forall j :: 0 <= j < |a| ==> ka[j] == km[j] == ks[j];
  }
}
