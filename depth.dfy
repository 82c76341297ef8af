/** How deep a value goes and which objects it can reach: the facts behind
    the condition under which `merge` runs to completion.

    `merge` calls itself on a key's existing value and its incoming value,
    and clones the target, arrays and incoming values on the way. A depth
    bound on the target and the sources bounds all of these, provided the
    objects `merge` has built never lead back to the output object it is
    still writing. `FreshBelow` states both at once: a depth bound, and a
    set of addresses the value never reaches. */
module Depths {
  import opened JsObjects
  import opened Cloner
  import opened CloneFacts

  /** The values an object holds directly: Map keys followed by Map values,
      Set and array elements, own property values. */
  function Children(o: Obj): seq<Val> {
    match o
    case MapObj(es) =>
      seq(|es|, i requires 0 <= i < |es| => es[i].0) + seq(|es|, i requires 0 <= i < |es| => es[i].1)
    case SetObj(xs) => xs
    case Arr(xs) => xs
    case Record(_, fs) => seq(|fs|, i requires 0 <= i < |fs| => fs[i].1)
    case _ => []
  }

  /** A depth bound on an object is one on each of its children. */
  lemma ChildrenDepth(store: map<Addr, Obj>, o: Obj, k: nat)
    ensures ObjDepthBelow(store, o, k) <==>
      forall i :: 0 <= i < |Children(o)| ==> DepthBelow(store, Children(o)[i], k)
  {
    var cs := Children(o);
    match o
    case MapObj(es) =>
      if ObjDepthBelow(store, o, k) {
        forall i | 0 <= i < |cs| ensures DepthBelow(store, cs[i], k) {
          if i < |es| { assert cs[i] == es[i].0; } else { assert cs[i] == es[i - |es|].1; }
        }
      } else {
        var i :| 0 <= i < |es| && !(DepthBelow(store, es[i].0, k) && DepthBelow(store, es[i].1, k));
        assert cs[i] == es[i].0 && cs[|es| + i] == es[i].1;
      }
    case Record(_, fs) =>
      assert forall i :: 0 <= i < |fs| ==> cs[i] == fs[i].1;
    case _ =>
  }

  /** Children of a deep copy are deep copies of the children. */
  lemma ChildrenDeepEq(store: map<Addr, Obj>, S: map<Addr, Obj>, co: Obj, so: Obj, n: nat)
    requires ObjDeepEq(store, S, co, so, n)
    ensures |Children(co)| == |Children(so)|
    ensures forall i :: 0 <= i < |Children(so)| ==> DeepEq(store, S, Children(co)[i], Children(so)[i], n)
  {
    var cs, ss := Children(co), Children(so);
    match so
    case MapObj(es) =>
      assert forall i :: 0 <= i < |es| ==> cs[i] == co.entries[i].0 && ss[i] == es[i].0;
      assert forall i :: |es| <= i < |ss| ==> cs[i] == co.entries[i - |es|].1 && ss[i] == es[i - |es|].1;
    case _ =>
  }

  /** Children of a clone correspond to the children of its source. */
  lemma ChildrenCorr(S: map<Addr, Obj>, cache: map<Addr, Addr>, origin: map<Addr, Addr>, co: Obj, so: Obj)
    requires WellFormed(so) && ObjCorr(S, cache, origin, co, so)
    ensures |Children(co)| == |Children(so)|
    ensures forall i :: 0 <= i < |Children(so)| ==> Corr(S, cache, origin, Children(co)[i], Children(so)[i])
  {
    var cs, ss := Children(co), Children(so);
    match so
    case MapObj(es) =>
      assert forall i :: 0 <= i < |es| ==> cs[i] == co.entries[i].0 && ss[i] == es[i].0;
      assert forall i :: |es| <= i < |ss| ==> cs[i] == co.entries[i - |es|].1 && ss[i] == es[i - |es|].1;
    case View(_, _, _, _) =>
    case _ =>
  }

  /** `v` passes fewer than `k` objects on every chain of references, as
      `DepthBelow` says, and none of those objects is at an address of `X`. */
  ghost predicate FreshBelow(store: map<Addr, Obj>, X: set<Addr>, v: Val, k: nat)
    decreases k, 0
  {
    k > 0 && (v.Ref? ==> v.addr in store && v.addr !in X && ObjFreshBelow(store, X, store[v.addr], k - 1))
  }

  /** Every child of `o` is `FreshBelow(k)`. */
  ghost predicate ObjFreshBelow(store: map<Addr, Obj>, X: set<Addr>, o: Obj, k: nat)
    decreases k, 1
  {
    forall i :: 0 <= i < |Children(o)| ==> FreshBelow(store, X, Children(o)[i], k)
  }

  /** Every object of `s` outside `X` is still in `s'`, unchanged. */
  ghost predicate KeepsOutside(s: map<Addr, Obj>, s': map<Addr, Obj>, X: set<Addr>) {
    forall a :: a in s && a !in X ==> a in s' && s'[a] == s[a]
  }

  /** A value that avoids `X` survives any change to the objects of `X`, a
      smaller `X` and a larger bound. */
  lemma {:induction false} FreshWeaken(s: map<Addr, Obj>, s': map<Addr, Obj>, X: set<Addr>, X': set<Addr>,
                                       v: Val, k: nat, k': nat)
    requires FreshBelow(s, X, v, k) && KeepsOutside(s, s', X) && X' <= X && k <= k'
    ensures FreshBelow(s', X', v, k')
    decreases k, 0
  {
    if v.Ref? {
      ObjFreshWeaken(s, s', X, X', s[v.addr], k - 1, k' - 1);
    }
  }

  lemma {:induction false} ObjFreshWeaken(s: map<Addr, Obj>, s': map<Addr, Obj>, X: set<Addr>, X': set<Addr>,
                                          o: Obj, k: nat, k': nat)
    requires ObjFreshBelow(s, X, o, k) && KeepsOutside(s, s', X) && X' <= X && k <= k'
    ensures ObjFreshBelow(s', X', o, k')
    decreases k, 1
  {
    forall i | 0 <= i < |Children(o)| ensures FreshBelow(s', X', Children(o)[i], k') {
      FreshWeaken(s, s', X, X', Children(o)[i], k, k');
    }
  }

  /** `FreshBelow` is a depth bound. */
  lemma {:induction false} FreshDepth(s: map<Addr, Obj>, X: set<Addr>, v: Val, k: nat)
    requires FreshBelow(s, X, v, k)
    ensures DepthBelow(s, v, k)
    decreases k
  {
    if v.Ref? {
      var o := s[v.addr];
      forall i | 0 <= i < |Children(o)| ensures DepthBelow(s, Children(o)[i], k - 1) {
        FreshDepth(s, X, Children(o)[i], k - 1);
      }
      ChildrenDepth(s, o, k - 1);
    }
  }

  /** A value of `s` reaches only objects of `s`, so it avoids everything
      allocated later. */
  lemma {:induction false} DepthFresh(s: map<Addr, Obj>, s': map<Addr, Obj>, X: set<Addr>, v: Val, k: nat)
    requires DepthBelow(s, v, k) && Preserved(s, s') && X !! s.Keys
    ensures FreshBelow(s', X, v, k)
    decreases k
  {
    if v.Ref? {
      var o := s[v.addr];
      ChildrenDepth(s, o, k - 1);
      forall i | 0 <= i < |Children(o)| ensures FreshBelow(s', X, Children(o)[i], k - 1) {
        DepthFresh(s, s', X, Children(o)[i], k - 1);
      }
    }
  }

  /** A deep copy of a value of bounded depth has the same bound and reaches
      none of the source objects. */
  lemma {:induction false} DeepFresh(store: map<Addr, Obj>, S: map<Addr, Obj>, c: Val, s: Val, k: nat)
    requires DeepEq(store, S, c, s, k) && DepthBelow(S, s, k)
    ensures FreshBelow(store, S.Keys, c, k)
    decreases k
  {
    if s.Ref? {
      var co, so := store[c.addr], S[s.addr];
      ChildrenDepth(S, so, k - 1);
      ChildrenDeepEq(store, S, co, so, k - 1);
      forall i | 0 <= i < |Children(co)| ensures FreshBelow(store, S.Keys, Children(co)[i], k - 1) {
        DeepFresh(store, S, Children(co)[i], Children(so)[i], k - 1);
      }
    }
  }

  /** Within `j` levels a value either never meets object `t`, or meets it
      with at most `j` levels left below. */
  lemma {:induction false} ReachBelow(S: map<Addr, Obj>, t: Addr, s: Val, j: nat)
    requires DepthBelow(S, s, j)
    ensures FreshBelow(S, {t}, s, j) || DepthBelow(S, Ref(t), j)
    decreases j
  {
    if s.Ref? && s.addr != t {
      var o := S[s.addr];
      ChildrenDepth(S, o, j - 1);
      if !ObjFreshBelow(S, {t}, o, j - 1) {
        var i :| 0 <= i < |Children(o)| && !FreshBelow(S, {t}, Children(o)[i], j - 1);
        ReachBelow(S, t, Children(o)[i], j - 1);
        DepthWeaken(S, S, Ref(t), j - 1, j);
      }
    }
  }

  /** If child `i` of `t` led back to `t`, each turn of the cycle would use
      up a level of `t`'s depth bound, which has only finitely many. */
  lemma {:induction false} NoReturn(S: map<Addr, Obj>, t: Addr, i: nat, j: nat, J: nat)
    requires DepthBelow(S, Ref(t), j + 1) && i < |Children(S[t])| && j <= J
    ensures FreshBelow(S, {t}, Children(S[t])[i], J)
    decreases j
  {
    var c := Children(S[t])[i];
    ChildrenDepth(S, S[t], j);
    ReachBelow(S, t, c, j);
    if FreshBelow(S, {t}, c, j) {
      FreshWeaken(S, S, {t}, {t}, c, j, J);
    } else {
      NoReturn(S, t, i, j - 1, J);
    }
  }

  /** An object of bounded depth is not reachable from its own children. */
  lemma NoCycle(S: map<Addr, Obj>, t: Addr, k: nat)
    requires DepthBelow(S, Ref(t), k)
    ensures ObjFreshBelow(S, {t}, S[t], k - 1)
  {
    forall i | 0 <= i < |Children(S[t])| ensures FreshBelow(S, {t}, Children(S[t])[i], k - 1) {
      NoReturn(S, t, i, k - 1, k - 1);
    }
  }

  /** In a finished clone, the copy of a source value that avoids object
      `t` (not an array) avoids the copy of `t`, and every source object. */
  lemma {:induction false} CloneAvoids(store: map<Addr, Obj>, S: map<Addr, Obj>, cache: map<Addr, Addr>,
                                       origin: map<Addr, Addr>, t: Addr, c: Val, s: Val, k: nat)
    requires Inv(store, S, cache, origin, {}) && Corr(S, cache, origin, c, s)
    requires t in cache && t in S && !S[t].Arr? && FreshBelow(S, {t}, s, k)
    ensures FreshBelow(store, S.Keys + {cache[t]}, c, k)
    decreases k
  {
    if s.Ref? {
      assert c.addr in origin.Keys - {};
      var co, so := store[c.addr], S[s.addr];
      ChildrenCorr(S, cache, origin, co, so);
      forall i | 0 <= i < |Children(co)| ensures FreshBelow(store, S.Keys + {cache[t]}, Children(co)[i], k - 1) {
        CloneAvoids(store, S, cache, origin, t, Children(co)[i], Children(so)[i], k - 1);
      }
    }
  }

  /** The clone of an object of bounded depth never refers back to itself
      nor to any source object. */
  lemma CloneRootAvoids(store: map<Addr, Obj>, S: map<Addr, Obj>, cache: map<Addr, Addr>,
                        origin: map<Addr, Addr>, c: Val, t: Addr, k: nat)
    requires Inv(store, S, cache, origin, {}) && Corr(S, cache, origin, c, Ref(t))
    requires t in S && !S[t].Arr? && DepthBelow(S, Ref(t), k)
    ensures c.addr in store && ObjFreshBelow(store, S.Keys + {c.addr}, store[c.addr], k - 1)
  {
    assert c.addr in origin.Keys - {};
    var co, so := store[c.addr], S[t];
    NoCycle(S, t, k);
    ChildrenCorr(S, cache, origin, co, so);
    forall i | 0 <= i < |Children(co)| ensures FreshBelow(store, S.Keys + {c.addr}, Children(co)[i], k - 1) {
      CloneAvoids(store, S, cache, origin, t, Children(co)[i], Children(so)[i], k - 1);
    }
  }

  /** Assigning a value that avoids `X` to a key keeps every property value
      avoiding `X`. */
  lemma PutFresh(s: map<Addr, Obj>, X: set<Addr>, p: Proto, fs: seq<(Key, Val)>, key: Key, v: Val, k: nat)
    requires ObjFreshBelow(s, X, Record(p, fs), k) && FreshBelow(s, X, v, k)
    ensures ObjFreshBelow(s, X, Record(p, Put(fs, key, v)), k)
  {
    var r := Put(fs, key, v);
    var cs, rs := Children(Record(p, fs)), Children(Record(p, r));
    forall j | 0 <= j < |rs| ensures FreshBelow(s, X, rs[j], k) {
      assert rs[j] == r[j].1;
      if key in KeysOf(fs) {
        var i := FindKey(fs, key);
        if j != i { assert r[j] == fs[j] && cs[j] == fs[j].1; }
      } else if j < |fs| {
        assert r[j] == fs[j] && cs[j] == fs[j].1;
      }
    }
  }

  /** The value under any key of an object that avoids `X` avoids `X`. */
  lemma GetFresh(s: map<Addr, Obj>, X: set<Addr>, p: Proto, fs: seq<(Key, Val)>, key: Key, k: nat)
    requires ObjFreshBelow(s, X, Record(p, fs), k) && k > 0
    ensures FreshBelow(s, X, Get(fs, key), k)
  {
    var i := FindKey(fs, key);
    if i < |fs| {
      assert Children(Record(p, fs))[i] == fs[i].1;
    }
  }
}
