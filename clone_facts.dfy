/** What a finished `clone` guarantees about its result, stated without the
    proof's bookkeeping: the copy is structurally equal to the source at
    every depth, it shares no object with the source, shared and
    self-referencing objects other than arrays stay shared, and own keys are
    kept exactly. */
module CloneFacts {
  import opened JsObjects
  import opened Cloner

  /** Clone value `c` in `store` looks, down to depth `n`, exactly like source
      value `s` in `S`: primitives are equal, and each object of the clone is
      a different object from every source object, of the same kind and with
      equal content, whose children look alike one level further down. */
  ghost predicate DeepEq(store: map<Addr, Obj>, S: map<Addr, Obj>, c: Val, s: Val, n: nat)
    decreases n, 0
  {
    if !s.Ref? then c == s
    else
      && c.Ref? && c.addr in store && c.addr !in S && s.addr in S
      && (n > 0 ==> ObjDeepEq(store, S, store[c.addr], S[s.addr], n - 1))
  }

  ghost predicate ObjDeepEq(store: map<Addr, Obj>, S: map<Addr, Obj>, co: Obj, so: Obj, n: nat)
    decreases n, 1
  {
    match so
    case MapObj(es) =>
      && co.MapObj? && |co.entries| == |es|
      && forall j :: 0 <= j < |es| ==>
           DeepEq(store, S, co.entries[j].0, es[j].0, n) && DeepEq(store, S, co.entries[j].1, es[j].1, n)
    case SetObj(xs) =>
      co.SetObj? && |co.items| == |xs| && forall j :: 0 <= j < |xs| ==> DeepEq(store, S, co.items[j], xs[j], n)
    case Arr(xs) =>
      co.Arr? && |co.elems| == |xs| && forall j :: 0 <= j < |xs| ==> DeepEq(store, S, co.elems[j], xs[j], n)
    case Record(p, fs) =>
      && co.Record? && co.proto == p && |co.fields| == |fs|
      && forall j :: 0 <= j < |fs| ==> co.fields[j].0 == fs[j].0 && DeepEq(store, S, co.fields[j].1, fs[j].1, n)
    case View(kind, _, _, len) =>
      && co.View? && co.kind == kind && co.byteLength == len
      && WellFormed(co) && WellFormed(so) && ViewedBytes(co) == ViewedBytes(so)
    case Date(t) => co == Date(t)
    case RegExp(src, flags) => co == RegExp(src, flags)
    case ArrayBuffer(bytes) => co == ArrayBuffer(bytes)
  }

  /** A finished clone of a reference is a finished copy of the source
      object: same kind, same content, children corresponding in order. */
  lemma CloneIsCopy(store: map<Addr, Obj>, S: map<Addr, Obj>, cache: map<Addr, Addr>,
                    origin: map<Addr, Addr>, c: Val, s: Val)
    requires Inv(store, S, cache, origin, {}) && Corr(S, cache, origin, c, s) && s.Ref?
    ensures s.addr in S && WellFormed(S[s.addr]) && ObjIn(S[s.addr], S.Keys)
    ensures c.addr in store && c.addr !in S
    ensures ObjCorr(S, cache, origin, store[c.addr], S[s.addr])
  {
    assert c.addr in origin.Keys - {};
  }

  /** After `clone`, every value of the result looks like the corresponding
      source value at every depth, and no object is shared with the source. */
  lemma {:induction false} CloneDeepEqual(store: map<Addr, Obj>, S: map<Addr, Obj>, cache: map<Addr, Addr>,
                                          origin: map<Addr, Addr>, c: Val, s: Val, n: nat)
    requires Inv(store, S, cache, origin, {}) && Corr(S, cache, origin, c, s)
    ensures DeepEq(store, S, c, s, n)
    decreases n, 0
  {
    if s.Ref? {
      CloneIsCopy(store, S, cache, origin, c, s);
      if n > 0 {
        CopyDeepEqual(store, S, cache, origin, store[c.addr], S[s.addr], n - 1);
      }
    }
  }

  lemma {:induction false} CopyDeepEqual(store: map<Addr, Obj>, S: map<Addr, Obj>, cache: map<Addr, Addr>,
                                         origin: map<Addr, Addr>, co: Obj, so: Obj, n: nat)
    requires Inv(store, S, cache, origin, {}) && WellFormed(so) && ObjCorr(S, cache, origin, co, so)
    ensures ObjDeepEq(store, S, co, so, n)
    decreases n, 1
  {
    match so
    case MapObj(es) =>
      forall j | 0 <= j < |es|
        ensures DeepEq(store, S, co.entries[j].0, es[j].0, n) && DeepEq(store, S, co.entries[j].1, es[j].1, n)
      {
        CloneDeepEqual(store, S, cache, origin, co.entries[j].0, es[j].0, n);
        CloneDeepEqual(store, S, cache, origin, co.entries[j].1, es[j].1, n);
      }
    case SetObj(xs) =>
      forall j | 0 <= j < |xs| ensures DeepEq(store, S, co.items[j], xs[j], n) {
        CloneDeepEqual(store, S, cache, origin, co.items[j], xs[j], n);
      }
    case Arr(xs) =>
      forall j | 0 <= j < |xs| ensures DeepEq(store, S, co.elems[j], xs[j], n) {
        CloneDeepEqual(store, S, cache, origin, co.elems[j], xs[j], n);
      }
    case Record(p, fs) =>
      forall j | 0 <= j < |fs| ensures DeepEq(store, S, co.fields[j].1, fs[j].1, n) {
        CloneDeepEqual(store, S, cache, origin, co.fields[j].1, fs[j].1, n);
      }
    case _ =>
  }

  /** Two references to the same source object that is not an array become
      references to one and the same copy, however they are reached. */
  lemma SharingKept(S: map<Addr, Obj>, cache: map<Addr, Addr>, origin: map<Addr, Addr>, c1: Val, c2: Val, s: Val)
    requires CacheOk(S, cache, origin)
    requires Corr(S, cache, origin, c1, s) && Corr(S, cache, origin, c2, s)
    requires s.Ref? && s.addr in S && !S[s.addr].Arr?
    ensures c1 == c2
  {
  }

  /** A Map, Set or object that holds a reference to itself is copied into
      one that holds a reference to the copy: the cache entry is made before
      the children are cloned. */
  lemma {:induction false} SelfReferenceKept(store: map<Addr, Obj>, S: map<Addr, Obj>, cache: map<Addr, Addr>,
                                             origin: map<Addr, Addr>, c: Val, s: Val, j: nat)
    requires Inv(store, S, cache, origin, {}) && Corr(S, cache, origin, c, s) && s.Ref?
    ensures s.addr in S && c.addr in store
    ensures S[s.addr].MapObj? && j < |S[s.addr].entries| && S[s.addr].entries[j].1 == s ==>
      store[c.addr].MapObj? && j < |store[c.addr].entries| && store[c.addr].entries[j].1 == c
    ensures S[s.addr].SetObj? && j < |S[s.addr].items| && S[s.addr].items[j] == s ==>
      store[c.addr].SetObj? && j < |store[c.addr].items| && store[c.addr].items[j] == c
    ensures S[s.addr].Record? && j < |S[s.addr].fields| && S[s.addr].fields[j].1 == s ==>
      store[c.addr].Record? && j < |store[c.addr].fields| && store[c.addr].fields[j].1 == c
  {
    CloneIsCopy(store, S, cache, origin, c, s);
    var so, co := S[s.addr], store[c.addr];
    if so.MapObj? && j < |so.entries| && so.entries[j].1 == s {
      SharingKept(S, cache, origin, co.entries[j].1, c, s);
    }
    if so.SetObj? && j < |so.items| && so.items[j] == s {
      SharingKept(S, cache, origin, co.items[j], c, s);
    }
    if so.Record? && j < |so.fields| && so.fields[j].1 == s {
      SharingKept(S, cache, origin, co.fields[j].1, c, s);
    }
  }

  /** The copy of an object has exactly the source's own keys, in the same
      order, and the same prototype. */
  lemma {:induction false} SameOwnKeys(S: map<Addr, Obj>, cache: map<Addr, Addr>, origin: map<Addr, Addr>, co: Obj, so: Obj)
    requires so.Record? && WellFormed(so) && ObjCorr(S, cache, origin, co, so)
    ensures co.Record? && co.proto == so.proto
    ensures KeysOf(co.fields) == KeysOf(so.fields) && DistinctKeys(co.fields)
  {
    assert forall j :: 0 <= j < |co.fields| ==> co.fields[j].0 == so.fields[j].0;
    forall k | k in KeysOf(so.fields) ensures k in KeysOf(co.fields) {
      var j :| 0 <= j < |so.fields| && so.fields[j].0 == k;
      assert co.fields[j].0 == k;
    }
  }

  /** Looking alike does not depend on objects outside the clone's part of
      the heap: it survives any change that leaves every object not in `S`
      as it was. */
  lemma {:induction false} DeepEqStable(store: map<Addr, Obj>, store': map<Addr, Obj>, S: map<Addr, Obj>,
                                        c: Val, s: Val, n: nat)
    requires DeepEq(store, S, c, s, n)
    requires forall a :: a in store && a !in S ==> a in store' && store'[a] == store[a]
    ensures DeepEq(store', S, c, s, n)
    decreases n, 0
  {
    if s.Ref? && n > 0 {
      ObjDeepEqStable(store, store', S, store[c.addr], S[s.addr], n - 1);
    }
  }

  lemma {:induction false} ObjDeepEqStable(store: map<Addr, Obj>, store': map<Addr, Obj>, S: map<Addr, Obj>,
                                           co: Obj, so: Obj, n: nat)
    requires ObjDeepEq(store, S, co, so, n)
    requires forall a :: a in store && a !in S ==> a in store' && store'[a] == store[a]
    ensures ObjDeepEq(store', S, co, so, n)
    decreases n, 1
  {
    match so
    case MapObj(es) =>
      forall j | 0 <= j < |es|
        ensures DeepEq(store', S, co.entries[j].0, es[j].0, n) && DeepEq(store', S, co.entries[j].1, es[j].1, n)
      {
        DeepEqStable(store, store', S, co.entries[j].0, es[j].0, n);
        DeepEqStable(store, store', S, co.entries[j].1, es[j].1, n);
      }
    case SetObj(xs) =>
      forall j | 0 <= j < |xs| ensures DeepEq(store', S, co.items[j], xs[j], n) {
        DeepEqStable(store, store', S, co.items[j], xs[j], n);
      }
    case Arr(xs) =>
      forall j | 0 <= j < |xs| ensures DeepEq(store', S, co.elems[j], xs[j], n) {
        DeepEqStable(store, store', S, co.elems[j], xs[j], n);
      }
    case Record(p, fs) =>
      forall j | 0 <= j < |fs| ensures DeepEq(store', S, co.fields[j].1, fs[j].1, n) {
        DeepEqStable(store, store', S, co.fields[j].1, fs[j].1, n);
      }
    case _ =>
  }

  /** Every object of `S` refers only to objects of `S`. */
  ghost predicate Closed(S: map<Addr, Obj>) {
    forall a :: a in S ==> ObjIn(S[a], S.Keys)
  }

  /** A clone looks like its source in a smaller snapshot `S0` of the source
      heap too, as long as `S0` holds everything the source reaches. */
  lemma {:induction false} DeepEqRebase(store: map<Addr, Obj>, S0: map<Addr, Obj>, S1: map<Addr, Obj>,
                                        c: Val, s: Val, n: nat)
    requires DeepEq(store, S1, c, s, n)
    requires (forall a :: a in S0 ==> a in S1 && S1[a] == S0[a]) && Closed(S0) && ValIn(s, S0.Keys)
    ensures DeepEq(store, S0, c, s, n)
    decreases n, 0
  {
    if s.Ref? && n > 0 {
      ObjDeepEqRebase(store, S0, S1, store[c.addr], S0[s.addr], n - 1);
    }
  }

  lemma {:induction false} ObjDeepEqRebase(store: map<Addr, Obj>, S0: map<Addr, Obj>, S1: map<Addr, Obj>,
                                           co: Obj, so: Obj, n: nat)
    requires ObjDeepEq(store, S1, co, so, n)
    requires (forall a :: a in S0 ==> a in S1 && S1[a] == S0[a]) && Closed(S0) && ObjIn(so, S0.Keys)
    ensures ObjDeepEq(store, S0, co, so, n)
    decreases n, 1
  {
    match so
    case MapObj(es) =>
      forall j | 0 <= j < |es|
        ensures DeepEq(store, S0, co.entries[j].0, es[j].0, n) && DeepEq(store, S0, co.entries[j].1, es[j].1, n)
      {
        DeepEqRebase(store, S0, S1, co.entries[j].0, es[j].0, n);
        DeepEqRebase(store, S0, S1, co.entries[j].1, es[j].1, n);
      }
    case SetObj(xs) =>
      forall j | 0 <= j < |xs| ensures DeepEq(store, S0, co.items[j], xs[j], n) {
        DeepEqRebase(store, S0, S1, co.items[j], xs[j], n);
      }
    case Arr(xs) =>
      forall j | 0 <= j < |xs| ensures DeepEq(store, S0, co.elems[j], xs[j], n) {
        DeepEqRebase(store, S0, S1, co.elems[j], xs[j], n);
      }
    case Record(p, fs) =>
      forall j | 0 <= j < |fs| ensures DeepEq(store, S0, co.fields[j].1, fs[j].1, n) {
        DeepEqRebase(store, S0, S1, co.fields[j].1, fs[j].1, n);
      }
    case _ =>
  }
}
