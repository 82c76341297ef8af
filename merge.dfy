/** `merge(target, ...sources)` of src/misc.ts.

    The result is always a new object: a clone of `target` when `target` is
    a plain object, otherwise a new empty object. Each plain source is then
    folded in key by key: arrays on both sides are concatenated into a new
    array of clones, plain objects on both sides are merged recursively, and
    any other incoming value is cloned and overwrites. Neither `target` nor
    any source is ever written.

    The repository's tests expect the opposite of the first point: that the
    result is `target` itself and that `target` is updated in place. The code
    as written builds and returns a fresh object, and this model follows the
    code: `Merge` promises a result that did not exist before the call, so it
    is never `target`, and leaves every earlier object, `target` included,
    as it was. */
module Merger {
  import opened JsObjects
  import opened Cloner
  import opened CloneFacts
  import opened Depths

  /** The own keys that `target` brings into the result. */
  function BaseKeys(store: map<Addr, Obj>, target: Val): set<Key> {
    if IsPlainObject(store, target) then KeysOf(store[target.addr].fields) else {}
  }

  /** The own keys of the plain objects among `sources`. */
  function SourceKeys(store: map<Addr, Obj>, sources: seq<Val>): set<Key>
    decreases |sources|
  {
    if sources == [] then {}
    else
      var last := sources[|sources| - 1];
      SourceKeys(store, sources[..|sources| - 1]) + BaseKeys(store, last)
  }

  /** Key `k` comes from the sources exactly when some plain source has it as
      an own key; every other source contributes nothing. */
  lemma {:induction false} SourceKeysSpec(store: map<Addr, Obj>, sources: seq<Val>, k: Key)
    ensures k in SourceKeys(store, sources) <==>
      exists i :: 0 <= i < |sources| && IsPlainObject(store, sources[i]) && k in KeysOf(store[sources[i].addr].fields)
    decreases |sources|
  {
    if sources != [] {
      var n := |sources| - 1;
      var init := sources[..n];
      SourceKeysSpec(store, init, k);
      if k in SourceKeys(store, sources) {
        if k in SourceKeys(store, init) {
          var i :| 0 <= i < |init| && IsPlainObject(store, init[i]) && k in KeysOf(store[init[i].addr].fields);
          assert sources[i] == init[i];
        } else {
          assert IsPlainObject(store, sources[n]);
        }
      } else {
        forall i | 0 <= i < |sources| && IsPlainObject(store, sources[i])
          ensures k !in KeysOf(store[sources[i].addr].fields)
        {
          if i < n { assert sources[i] == init[i]; }
        }
      }
    }
  }

  /** Every value in `vs` refers only to objects of `store`. */
  predicate AllIn(vs: seq<Val>, store: map<Addr, Obj>) {
    forall i :: 0 <= i < |vs| ==> ValIn(vs[i], store.Keys)
  }

  /** `merge(target, ...sources)`. */
  method Merge(h: Heap, target: Val, sources: seq<Val>, budget: nat) returns (res: Outcome<Addr>)
    requires h.Valid() && ValIn(target, h.store.Keys) && AllIn(sources, h.store)
    modifies h
    decreases budget, 1
    ensures h.Valid() && Preserved(old(h.store), h.store)
    ensures budget == 0 ==> res.StackOverflow?
    ensures res.Done? ==>
      && res.value !in old(h.store) && res.value in h.store && h.store[res.value].Record?
      && h.store[res.value].proto ==
           (if IsPlainObject(old(h.store), target) then old(h.store)[target.addr].proto else ObjectPrototype)
      && KeysOf(h.store[res.value].fields) == BaseKeys(old(h.store), target) + SourceKeys(old(h.store), sources)
    ensures budget >= 2 && MergeDepthBelow(old(h.store), target, sources, budget - 1) ==>
      res.Done? && FreshBelow(h.store, old(h.store).Keys, Ref(res.value), budget - 1)
  {
    if budget == 0 {
      return StackOverflow;
    }
    ghost var s0 := h.store;
    ghost var bounded := budget >= 2 && MergeDepthBelow(s0, target, sources, budget - 1);
    var started, out := NewOutput(h, target, budget - 1);
    if !started {
      return StackOverflow;
    }
    ghost var proto := h.store[out].proto;
    ghost var X := s0.Keys + {out};
    var i := 0;
    while i < |sources|
      invariant h.Valid() && Merging(s0, h.store, out, proto, target, sources, i, budget, X, bounded)
    {
      var ok := MergeNext(h, out, sources, i, budget, s0, proto, target, X, bounded);
      if !ok {
        return StackOverflow;
      }
      i := i + 1;
    }
    assert sources[..i] == sources;
    if bounded {
      ObjFreshWeaken(h.store, h.store, X, s0.Keys, h.store[out], budget - 2, budget - 2);
    }
    return Done(out);
  }

  /** The loop invariant of `Merge` after `i` sources: the objects of `s0`
      are kept, the new output `out` keeps prototype `proto` and holds the
      keys of `target` and of the first `i` sources, and, when the merge is
      `bounded`, its values avoid `X`. */
  ghost predicate Merging(s0: map<Addr, Obj>, s: map<Addr, Obj>, out: Addr, proto: Proto, target: Val, sources: seq<Val>,
                          i: nat, budget: nat, X: set<Addr>, bounded: bool) {
    && i <= |sources| && AllIn(sources, s0) && Preserved(s0, s) && X == s0.Keys + {out}
    && out !in s0 && out in s && s[out].Record? && s[out].proto == proto
    && KeysOf(s[out].fields) == BaseKeys(s0, target) + SourceKeys(s0, sources[..i])
    && (bounded ==> budget >= 2 && MergeDepthBelow(s0, target, sources, budget - 1) &&
                    ObjFreshBelow(s, X, s[out], budget - 2))
  }

  /** One iteration of `Merge`: folds source `i` into `out` when it is a
      plain object, and keeps the loop invariant. */
  method MergeNext(h: Heap, out: Addr, sources: seq<Val>, i: nat, budget: nat, ghost s0: map<Addr, Obj>,
                   ghost proto: Proto, ghost target: Val, ghost X: set<Addr>, ghost bounded: bool) returns (ok: bool)
    requires h.Valid() && Merging(s0, h.store, out, proto, target, sources, i, budget, X, bounded) && i < |sources|
    requires budget > 0
    modifies h
    decreases budget, 0
    ensures h.Valid() && Preserved(s0, h.store)
    ensures ok ==> Merging(s0, h.store, out, proto, target, sources, i + 1, budget, X, bounded)
    ensures bounded ==> ok
  {
    var source := sources[i];
    assert sources[..i + 1][..i] == sources[..i];
    ok := true;
    if IsPlainObject(h.store, source) {
      ghost var s1 := h.store;
      if bounded {
        DepthFresh(s0, s1, {out}, source, budget - 1);
      }
      ok := MergeSource(h, out, source.addr, budget - 1, X);
      KeepsOld(s0, s1, h.store, out);
    }
  }

  /** The condition under which `merge` is proved to finish within `k + 1`
      frames: a plain target and every plain source pass fewer than `k`
      objects on every chain of references. */
  ghost predicate MergeDepthBelow(store: map<Addr, Obj>, target: Val, sources: seq<Val>, k: nat) {
    && (IsPlainObject(store, target) ==> DepthBelow(store, target, k))
    && forall i :: 0 <= i < |sources| && IsPlainObject(store, sources[i]) ==> DepthBelow(store, sources[i], k)
  }

  /** The object `merge` starts from: `clone(target)` when `target` is a plain
      object, otherwise `{}`. */
  method NewOutput(h: Heap, target: Val, budget: nat) returns (ok: bool, out: Addr)
    requires h.Valid() && ValIn(target, h.store.Keys)
    modifies h
    ensures h.Valid() && Preserved(old(h.store), h.store)
    ensures ok ==> out !in old(h.store) && out in h.store && h.store[out].Record?
    ensures ok ==>
      h.store[out].proto == (if IsPlainObject(old(h.store), target) then old(h.store)[target.addr].proto else ObjectPrototype)
    ensures ok ==> KeysOf(h.store[out].fields) == BaseKeys(old(h.store), target)
    ensures ok && IsPlainObject(old(h.store), target) ==>
      && |h.store[out].fields| == |old(h.store)[target.addr].fields|
      && forall j, n: nat :: 0 <= j < |h.store[out].fields| ==>
           && h.store[out].fields[j].0 == old(h.store)[target.addr].fields[j].0
           && DeepEq(h.store, old(h.store), h.store[out].fields[j].1, old(h.store)[target.addr].fields[j].1, n)
    ensures ok && !IsPlainObject(old(h.store), target) ==> h.store[out] == Record(ObjectPrototype, [])
    ensures budget > 0 && (IsPlainObject(old(h.store), target) ==> DepthBelow(old(h.store), target, budget)) ==>
      ok && ObjFreshBelow(h.store, old(h.store).Keys + {out}, h.store[out], budget - 1)
  {
    ghost var s0 := h.store;
    if IsPlainObject(h.store, target) {
      var c, cache, origin := Clone(h, target, budget);
      if c.StackOverflow? {
        return false, 0;
      }
      CloneIsCopy(h.store, s0, cache, origin, c.value, target);
      SameOwnKeys(s0, cache, origin, h.store[c.value.addr], s0[target.addr]);
      ok, out := true, c.value.addr;
      forall j, n: nat | 0 <= j < |h.store[out].fields|
        ensures && h.store[out].fields[j].0 == s0[target.addr].fields[j].0
                && DeepEq(h.store, s0, h.store[out].fields[j].1, s0[target.addr].fields[j].1, n)
      {
        CloneDeepEqual(h.store, s0, cache, origin, c.value, target, n + 1);
      }
      if budget > 0 && DepthBelow(s0, target, budget) {
        CloneRootAvoids(h.store, s0, cache, origin, c.value, target.addr, budget);
      }
    } else {
      out := h.Alloc(Record(ObjectPrototype, []));
      ok := true;
    }
  }

  /** Folds the own properties of plain source `src` into `out`, in
      `ownKeys` order. When `src` is of bounded depth and does not reach
      `out`, and every value of `out` avoids `X`, this finishes and the values
      of `out` still avoid `X`. */
  method MergeSource(h: Heap, out: Addr, src: Addr, budget: nat, ghost X: set<Addr>) returns (ok: bool)
    requires h.Valid() && out in h.store && h.store[out].Record? && src in h.store && src != out
    requires h.store[src].Record?
    modifies h
    decreases budget, 6
    ensures h.Valid() && out in h.store
    ensures PreservedBut(old(h.store), h.store, out)
    ensures ok ==> h.store[out].Record? && h.store[out].proto == old(h.store[out].proto)
    ensures ok ==> KeysOf(h.store[out].fields) == KeysOf(old(h.store[out].fields)) + KeysOf(old(h.store[src].fields))
    ensures FreshBelow(old(h.store), {out}, Ref(src), budget) && X <= old(h.store).Keys && out in X &&
            ObjFreshBelow(old(h.store), X, old(h.store[out]), budget - 1) ==>
      ok && ObjFreshBelow(h.store, X, h.store[out], budget - 1)
  {
    ghost var s0 := h.store;
    ghost var bounded := FreshBelow(s0, {out}, Ref(src), budget) && X <= s0.Keys && out in X &&
                         ObjFreshBelow(s0, X, s0[out], budget - 1);
    var n := |h.store[src].fields|;
    SourceFoldedStart(s0, out, src, budget, X, bounded);
    var j := 0;
    while j < n
      invariant j <= n == |s0[src].fields|
      invariant h.Valid() && SourceFolded(s0, h.store, out, src, j, budget, X, bounded)
    {
      ok := MergeStep(h, out, src, j, budget, X, s0, bounded);
      if !ok {
        return;
      }
      j := j + 1;
    }
    SourceFoldedEnd(s0, h.store, out, src, budget, X, bounded);
    ok := true;
  }

  lemma SourceFoldedStart(s0: map<Addr, Obj>, out: Addr, src: Addr, budget: nat, X: set<Addr>, bounded: bool)
    requires out in s0 && s0[out].Record? && src in s0 && s0[src].Record? && src != out
    requires bounded ==> FreshBelow(s0, {out}, Ref(src), budget) && X <= s0.Keys && out in X &&
                         ObjFreshBelow(s0, X, s0[out], budget - 1)
    ensures SourceFolded(s0, s0, out, src, 0, budget, X, bounded)
  {
    assert s0[src].fields[..0] == [];
  }

  lemma SourceFoldedEnd(s0: map<Addr, Obj>, s: map<Addr, Obj>, out: Addr, src: Addr, budget: nat, X: set<Addr>,
                        bounded: bool)
    requires src in s0 && s0[src].Record? && SourceFolded(s0, s, out, src, |s0[src].fields|, budget, X, bounded)
    ensures s[out].Record? && s[out].proto == s0[out].proto && PreservedBut(s0, s, out)
    ensures KeysOf(s[out].fields) == KeysOf(s0[out].fields) + KeysOf(s0[src].fields)
    ensures bounded ==> ObjFreshBelow(s, X, s[out], budget - 1)
  {
    assert s0[src].fields[..|s0[src].fields|] == s0[src].fields;
  }

  /** The loop invariant of `MergeSource` after `j` properties of `src`:
      only `out` has changed, its prototype is kept, it has gained the
      first `j` keys of `src`, and, when the fold is `bounded`, its values
      still avoid `X`. */
  ghost predicate SourceFolded(s0: map<Addr, Obj>, s: map<Addr, Obj>, out: Addr, src: Addr, j: nat, budget: nat,
                               X: set<Addr>, bounded: bool) {
    && src in s0 && s0[src].Record? && src != out && out in s0 && s0[out].Record?
    && j <= |s0[src].fields| && src in s && s[src] == s0[src]
    && out in s && s[out].Record? && s[out].proto == s0[out].proto
    && PreservedBut(s0, s, out)
    && KeysOf(s[out].fields) == KeysOf(s0[out].fields) + KeysOf(s0[src].fields[..j])
    && (bounded ==> FreshBelow(s0, {out}, Ref(src), budget) && out in X && X <= s.Keys && ObjFreshBelow(s, X, s[out], budget - 1))
  }

  /** One iteration of `MergeSource`: folds property `j` of `src` into
      `out` and keeps the loop invariant. */
  method MergeStep(h: Heap, out: Addr, src: Addr, j: nat, budget: nat, ghost X: set<Addr>,
                   ghost s0: map<Addr, Obj>, ghost bounded: bool) returns (ok: bool)
    requires h.Valid() && SourceFolded(s0, h.store, out, src, j, budget, X, bounded) && j < |s0[src].fields|
    modifies h
    decreases budget, 5
    ensures h.Valid() && out in h.store && PreservedBut(s0, h.store, out)
    ensures ok ==> SourceFolded(s0, h.store, out, src, j + 1, budget, X, bounded)
    ensures bounded ==> ok
  {
    ghost var s1 := h.store;
    if bounded {
      SourceFieldDepth(s0, s1, out, src, j, budget - 1);
    }
    var v;
    ok, v := MergeField(h, out, src, j, budget, X);
    KeepsTrans(s0, s1, h.store, out);
    if ok {
      KeysPrefix(s0[src].fields, j);
    }
  }

  lemma KeysPrefix(fs: seq<(Key, Val)>, j: nat)
    requires j < |fs|
    ensures KeysOf(fs[..j + 1]) == KeysOf(fs[..j]) + {fs[j].0}
  {
    assert fs[..j + 1] == fs[..j] + [fs[j]];
    KeysOfAppend(fs[..j], fs[j].0, fs[j].1);
  }

  /** A property value of a source that does not reach `out` is still of
      the same depth once `out` has changed. */
  lemma SourceFieldDepth(s0: map<Addr, Obj>, s1: map<Addr, Obj>, out: Addr, src: Addr, j: nat, k: nat)
    requires FreshBelow(s0, {out}, Ref(src), k + 1) && s0[src].Record? && j < |s0[src].fields|
    requires PreservedBut(s0, s1, out)
    ensures DepthBelow(s1, s0[src].fields[j].1, k)
  {
    var fs := s0[src].fields;
    assert Children(s0[src])[j] == fs[j].1;
    FreshWeaken(s0, s1, {out}, {out}, fs[j].1, k, k);
    FreshDepth(s1, {out}, fs[j].1, k);
  }

  /** Merges own property `j` of plain source `src` into `out`: the merged
      value `v` is assigned under the key, and nothing else but `out`
      changes. */
  method MergeField(h: Heap, out: Addr, src: Addr, j: nat, budget: nat, ghost X: set<Addr>) returns (ok: bool, v: Val)
    requires h.Valid() && out in h.store && h.store[out].Record? && src in h.store && src != out
    requires h.store[src].Record? && j < |h.store[src].fields|
    modifies h
    decreases budget, 4
    ensures h.Valid() && out in h.store && PreservedBut(old(h.store), h.store, out)
    ensures ok ==> h.store[out].Record? && h.store[out].proto == old(h.store[out].proto)
    ensures ok ==> KeysOf(h.store[out].fields) == KeysOf(old(h.store[out].fields)) + {old(h.store[src].fields[j].0)}
    ensures ok ==>
      h.store[out] == Record(old(h.store[out].proto), Put(old(h.store[out].fields), old(h.store[src].fields[j].0), v))
    ensures ok ==> MergedValue(h.store, old(h.store), Get(old(h.store[out].fields), old(h.store[src].fields[j].0)),
                               old(h.store[src].fields[j].1), v)
    ensures budget > 0 && DepthBelow(old(h.store), old(h.store[src].fields[j].1), budget - 1) &&
            X <= old(h.store).Keys && out in X && ObjFreshBelow(old(h.store), X, old(h.store[out]), budget - 1) ==>
      ok && ObjFreshBelow(h.store, X, h.store[out], budget - 1)
  {
    var f := h.store[src].fields[j];
    assert ValIn(f.1, h.store.Keys) by { assert ObjIn(h.store[src], h.store.Keys); }
    ok, v := MergeKey(h, out, f.0, f.1, budget, X);
  }

  /** `ys` are copies of `xs`, item by item, that look alike at every depth. */
  ghost predicate AllDeepEq(store: map<Addr, Obj>, S: map<Addr, Obj>, ys: seq<Val>, xs: seq<Val>) {
    |ys| == |xs| && forall i, n: nat :: 0 <= i < |xs| ==> DeepEq(store, S, ys[i], xs[i], n)
  }

  /** What `merge` stores under a key whose current value is `existing` when
      the next source brings `incoming`, judged against the heap `S` before:
      - arrays on both sides: a new array of copies of the existing items
        followed by the incoming ones, in that order;
      - plain objects on both sides: a new object with the prototype of
        `existing` and the union of both key sets;
      - otherwise: a copy of `incoming`, which for a primitive or a function
        is the value itself. */
  ghost predicate MergedValue(store: map<Addr, Obj>, S: map<Addr, Obj>, existing: Val, incoming: Val, v: Val) {
    if IsArray(S, existing) && IsArray(S, incoming) then
      && v.Ref? && v.addr in store && v.addr !in S && store[v.addr].Arr?
      && AllDeepEq(store, S, store[v.addr].elems, S[existing.addr].elems + S[incoming.addr].elems)
    else if IsPlainObject(S, existing) && IsPlainObject(S, incoming) then
      && v.Ref? && v.addr in store && v.addr !in S && store[v.addr].Record?
      && store[v.addr].proto == S[existing.addr].proto
      && KeysOf(store[v.addr].fields) == KeysOf(S[existing.addr].fields) + KeysOf(S[incoming.addr].fields)
    else
      forall n: nat :: DeepEq(store, S, v, incoming, n)
  }

  lemma AllDeepEqStable(store: map<Addr, Obj>, store': map<Addr, Obj>, S: map<Addr, Obj>, ys: seq<Val>, xs: seq<Val>)
    requires AllDeepEq(store, S, ys, xs)
    requires forall a :: a in store && a !in S ==> a in store' && store'[a] == store[a]
    ensures AllDeepEq(store', S, ys, xs)
  {
    forall i, n: nat | 0 <= i < |xs| ensures DeepEq(store', S, ys[i], xs[i], n) {
      DeepEqStable(store, store', S, ys[i], xs[i], n);
    }
  }

  lemma MergedValueStable(store: map<Addr, Obj>, store': map<Addr, Obj>, S: map<Addr, Obj>,
                          existing: Val, incoming: Val, v: Val)
    requires MergedValue(store, S, existing, incoming, v)
    requires forall a :: a in store && a !in S ==> a in store' && store'[a] == store[a]
    ensures MergedValue(store', S, existing, incoming, v)
  {
    if IsArray(S, existing) && IsArray(S, incoming) {
      AllDeepEqStable(store, store', S, store[v.addr].elems, S[existing.addr].elems + S[incoming.addr].elems);
    } else if !(IsPlainObject(S, existing) && IsPlainObject(S, incoming)) {
      forall n: nat ensures DeepEq(store', S, v, incoming, n) {
        DeepEqStable(store, store', S, v, incoming, n);
      }
    }
  }

  /** One step of the inner loop of `merge`: computes the value for `key` and
      assigns it on the output object `out`. */
  method MergeKey(h: Heap, out: Addr, key: Key, incoming: Val, budget: nat, ghost X: set<Addr>) returns (ok: bool, v: Val)
    requires h.Valid() && out in h.store && h.store[out].Record? && ValIn(incoming, h.store.Keys)
    modifies h
    decreases budget, 3
    ensures h.Valid() && out in h.store
    ensures PreservedBut(old(h.store), h.store, out)
    ensures ok ==> h.store[out] == Record(old(h.store[out].proto), Put(old(h.store[out].fields), key, v))
    ensures ok ==> MergedValue(h.store, old(h.store), Get(old(h.store[out].fields), key), incoming, v)
    ensures budget > 0 && DepthBelow(old(h.store), incoming, budget - 1) &&
            X <= old(h.store).Keys && out in X && ObjFreshBelow(old(h.store), X, old(h.store[out]), budget - 1) ==>
      ok && ObjFreshBelow(h.store, X, h.store[out], budget - 1)
  {
    ghost var s0 := h.store;
    var fields := h.store[out].fields;
    var proto := h.store[out].proto;
    var existing := Get(fields, key);
    assert ValIn(existing, h.store.Keys) by {
      var i := FindKey(fields, key);
      assert ObjIn(h.store[out], h.store.Keys);
    }
    ghost var bounded := budget > 0 && DepthBelow(s0, incoming, budget - 1) &&
                         X <= s0.Keys && out in X && ObjFreshBelow(s0, X, s0[out], budget - 1);
    if bounded {
      GetFresh(s0, X, proto, fields, key, budget - 1);
      FreshDepth(s0, X, existing, budget - 1);
    }
    ok, v := NewValue(h, existing, incoming, budget);
    if !ok {
      return;
    }
    assert ObjIn(Record(proto, fields), h.store.Keys) by {
      assert ObjIn(s0[out], s0.Keys);
    }
    PutIn(proto, fields, key, v, h.store.Keys);
    ghost var s1 := h.store;
    h.Write(out, Record(proto, Put(fields, key, v)));
    WriteKeeps(s0, s1, h.store, out, h.store[out]);
    MergedValueStable(s1, h.store, s0, existing, incoming, v);
    if bounded {
      WriteFresh(s0, s1, out, X, proto, fields, key, v, budget - 1);
    }
  }

  /** Assigning, on `out`, a value built after `s0` that avoids every object
      of `s0`, keeps all values of `out` avoiding `X`. */
  lemma WriteFresh(s0: map<Addr, Obj>, s1: map<Addr, Obj>, out: Addr, X: set<Addr>,
                   p: Proto, fs: seq<(Key, Val)>, key: Key, v: Val, k: nat)
    requires ObjFreshBelow(s0, X, Record(p, fs), k) && Preserved(s0, s1) && X <= s0.Keys && out in X
    requires FreshBelow(s1, s0.Keys, v, k)
    ensures ObjFreshBelow(s1[out := Record(p, Put(fs, key, v))], X, Record(p, Put(fs, key, v)), k)
  {
    var s2 := s1[out := Record(p, Put(fs, key, v))];
    ObjFreshWeaken(s0, s2, X, X, Record(p, fs), k, k);
    FreshWeaken(s1, s2, s0.Keys, X, v, k, k);
    PutFresh(s2, X, p, fs, key, v, k);
  }

  /** The value for a key whose current value is `existing` when the next
      source brings `incoming`: the three branches of the inner loop. When
      both are of bounded depth, this finishes with a value of the same
      bound that shares no object with the heap before. */
  method NewValue(h: Heap, existing: Val, incoming: Val, budget: nat) returns (ok: bool, v: Val)
    requires h.Valid() && ValIn(existing, h.store.Keys) && ValIn(incoming, h.store.Keys)
    modifies h
    decreases budget, 2
    ensures h.Valid() && Preserved(old(h.store), h.store)
    ensures ok ==> ValIn(v, h.store.Keys) && MergedValue(h.store, old(h.store), existing, incoming, v)
    ensures budget > 0 && DepthBelow(old(h.store), existing, budget - 1) && DepthBelow(old(h.store), incoming, budget - 1) ==>
      ok && FreshBelow(h.store, old(h.store).Keys, v, budget - 1)
  {
    ghost var s0 := h.store;
    ghost var bounded := budget > 0 && DepthBelow(s0, existing, budget - 1) && DepthBelow(s0, incoming, budget - 1);
    if IsArray(h.store, existing) && IsArray(h.store, incoming) {
      var xs := h.store[existing.addr].elems + h.store[incoming.addr].elems;
      assert AllIn(xs, h.store) by {
        assert ObjIn(h.store[existing.addr], h.store.Keys) && ObjIn(h.store[incoming.addr], h.store.Keys);
      }
      if bounded {
        ConcatDepth(s0, existing.addr, incoming.addr, budget - 2, budget);
      }
      ok, v := CloneAll(h, xs, budget);
      if ok && bounded {
        ConcatDepth(s0, existing.addr, incoming.addr, budget - 2, budget - 2);
        CopiesFresh(h.store, s0, v.addr, xs, budget - 2);
      }
    } else if IsPlainObject(h.store, existing) && IsPlainObject(h.store, incoming) {
      assert [incoming][..0] == [] && [incoming][0] == incoming;
      var r := Merge(h, existing, [incoming], budget);
      if r.StackOverflow? {
        return false, Undefined;
      }
      ok, v := true, Ref(r.value);
    } else {
      if bounded {
        DepthWeaken(s0, s0, incoming, budget - 1, budget);
      }
      var r, cache, origin := Clone(h, incoming, budget);
      if r.StackOverflow? {
        return false, Undefined;
      }
      CorrIn(h.store, s0, cache, origin, r.value, incoming);
      forall n: nat ensures DeepEq(h.store, s0, r.value, incoming, n) {
        CloneDeepEqual(h.store, s0, cache, origin, r.value, incoming, n);
      }
      if bounded {
        DeepFresh(h.store, s0, r.value, incoming, budget - 1);
      }
      ok, v := true, r.value;
    }
  }

  /** The items of two arrays below `k + 1` are below `k`, or any larger bound. */
  lemma ConcatDepth(s: map<Addr, Obj>, a: Addr, b: Addr, k: nat, k': nat)
    requires DepthBelow(s, Ref(a), k + 1) && DepthBelow(s, Ref(b), k + 1) && s[a].Arr? && s[b].Arr? && k <= k'
    ensures forall i :: 0 <= i < |s[a].elems + s[b].elems| ==> DepthBelow(s, (s[a].elems + s[b].elems)[i], k')
  {
    var xs := s[a].elems + s[b].elems;
    forall i | 0 <= i < |xs| ensures DepthBelow(s, xs[i], k') {
      if i < |s[a].elems| {
        DepthWeaken(s, s, s[a].elems[i], k, k');
      } else {
        DepthWeaken(s, s, s[b].elems[i - |s[a].elems|], k, k');
      }
    }
  }

  /** A new array of deep copies of items below `k` is below `k + 1` and
      shares no object with the heap it was copied from. */
  lemma CopiesFresh(store: map<Addr, Obj>, S: map<Addr, Obj>, a: Addr, xs: seq<Val>, k: nat)
    requires a in store && a !in S && store[a].Arr? && AllDeepEq(store, S, store[a].elems, xs)
    requires forall i :: 0 <= i < |xs| ==> DepthBelow(S, xs[i], k)
    ensures FreshBelow(store, S.Keys, Ref(a), k + 1)
  {
    var ys := store[a].elems;
    forall i | 0 <= i < |ys| ensures FreshBelow(store, S.Keys, ys[i], k) {
      DeepFresh(store, S, ys[i], xs[i], k);
    }
  }

  lemma PutIn(p: Proto, fs: seq<(Key, Val)>, k: Key, v: Val, addrs: set<Addr>)
    requires ObjIn(Record(p, fs), addrs) && ValIn(v, addrs)
    ensures ObjIn(Record(p, Put(fs, k, v)), addrs)
  {
    var r := Put(fs, k, v);
    forall i | 0 <= i < |r| ensures ValIn(r[i].1, addrs) {
      if i < |fs| && r[i] != fs[i] {
        assert r[i].0 == k && FindKey(r, k) == i;
      }
    }
  }

  /** `[...existing, ...incoming].map(item => clone(item))`: a new array
      whose items are clones of `xs`, each made with a cache of its own. */
  method CloneAll(h: Heap, xs: seq<Val>, budget: nat) returns (ok: bool, v: Val)
    requires h.Valid() && AllIn(xs, h.store)
    modifies h
    ensures h.Valid() && Preserved(old(h.store), h.store)
    ensures ok ==> v.Ref? && v.addr !in old(h.store) && v.addr in h.store && h.store[v.addr].Arr?
    ensures ok ==> AllDeepEq(h.store, old(h.store), h.store[v.addr].elems, xs)
    ensures (forall i :: 0 <= i < |xs| ==> DepthBelow(old(h.store), xs[i], budget)) ==> ok
  {
    ghost var s0 := h.store;
    ghost var bounded := forall i :: 0 <= i < |xs| ==> DepthBelow(s0, xs[i], budget);
    assert Closed(s0);
    var ys: seq<Val> := [];
    var k := 0;
    while k < |xs|
      invariant k <= |xs| && |ys| == k
      invariant h.Valid() && Preserved(s0, h.store) && AllIn(xs, h.store) && AllIn(ys, h.store)
      invariant AllDeepEq(h.store, s0, ys, xs[..k])
    {
      ghost var s1 := h.store;
      if bounded {
        DepthWeaken(s0, s1, xs[k], budget, budget);
      }
      var r, cache, origin := Clone(h, xs[k], budget);
      if r.StackOverflow? {
        return false, Undefined;
      }
      CopyAppended(h.store, s1, s0, cache, origin, ys, xs, k, r.value);
      ys := ys + [r.value];
      k := k + 1;
    }
    assert xs[..k] == xs;
    assert ObjIn(Arr(ys), h.store.Keys);
    ghost var s2 := h.store;
    var a := h.Alloc(Arr(ys));
    AllDeepEqStable(s2, h.store, s0, ys, xs);
    ok, v := true, Ref(a);
  }

  /** Appending the clone `c` of `xs[k]` to copies `ys` of the first `k`
      items gives copies of the first `k + 1`, all in the heap. */
  lemma CopyAppended(store: map<Addr, Obj>, s1: map<Addr, Obj>, s0: map<Addr, Obj>, cache: map<Addr, Addr>,
                     origin: map<Addr, Addr>, ys: seq<Val>, xs: seq<Val>, k: nat, c: Val)
    requires k < |xs| && Closed(s0) && AllIn(xs, s0) && Preserved(s0, s1) && Preserved(s1, store)
    requires AllIn(ys, s1) && AllDeepEq(s1, s0, ys, xs[..k])
    requires Inv(store, s1, cache, origin, {}) && Corr(s1, cache, origin, c, xs[k])
    ensures AllIn(ys + [c], store) && AllDeepEq(store, s0, ys + [c], xs[..k + 1])
  {
    CorrIn(store, s1, cache, origin, c, xs[k]);
    AllDeepEqStable(s1, store, s0, ys, xs[..k]);
    forall n: nat ensures DeepEq(store, s0, c, xs[k], n) {
      CloneDeepEqual(store, s1, cache, origin, c, xs[k], n);
      DeepEqRebase(store, s0, s1, c, xs[k], n);
    }
    assert xs[..k + 1] == xs[..k] + [xs[k]];
  }
}
