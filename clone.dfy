/** `cloneWithCache` and `clone` of src/misc.ts (the manual path).

    The identity cache is a real `map<Addr, Addr>` threaded through the
    recursion, as the source threads its WeakMap. Two ghost companions carry
    the proof:
    - `S`, the source objects: the heap as it was when the top-level `clone`
      began; no source object is ever written, so `S` stays a view of them;
    - `origin`, which maps the address of every clone made so far to the
      address of the source object it copies.

    `budget` is the number of call frames still available: every call of
    `cloneWithCache` uses one, and when none is left the call fails with
    `StackOverflow`, the host's RangeError. This is the only way the source
    can fail, and it is what an array that contains itself runs into. */
module Cloner {
  import opened JsObjects

  /** Every object of `s0` other than `d` is still in `s1`, unchanged. */
  ghost predicate PreservedBut(s0: map<Addr, Obj>, s1: map<Addr, Obj>, d: Addr) {
    forall a :: a in s0 && a != d ==> a in s1 && s1[a] == s0[a]
  }

  lemma WriteKeeps(s0: map<Addr, Obj>, s1: map<Addr, Obj>, s2: map<Addr, Obj>, d: Addr, o: Obj)
    requires Preserved(s0, s1) && s2 == s1[d := o]
    ensures PreservedBut(s0, s2, d)
  {
  }

  lemma KeepsThen(s0: map<Addr, Obj>, s1: map<Addr, Obj>, s2: map<Addr, Obj>, d: Addr)
    requires Preserved(s0, s1) && PreservedBut(s1, s2, d)
    ensures PreservedBut(s0, s2, d)
  {
  }

  lemma KeepsTrans(s0: map<Addr, Obj>, s1: map<Addr, Obj>, s2: map<Addr, Obj>, d: Addr)
    requires PreservedBut(s0, s1, d) && PreservedBut(s1, s2, d)
    ensures PreservedBut(s0, s2, d)
  {
  }

  /** Writing only the new object `d` keeps every object that existed before it. */
  lemma KeepsOld(s0: map<Addr, Obj>, s1: map<Addr, Obj>, s2: map<Addr, Obj>, d: Addr)
    requires Preserved(s0, s1) && PreservedBut(s1, s2, d) && d !in s0
    ensures Preserved(s0, s2)
  {
  }

  /** Clone value `c` stands for source value `s`: a non-reference is passed
      through unchanged; a reference becomes a reference to a copy of the same
      source object, and for every kind but arrays to exactly the copy the
      cache holds, so that sharing and cycles are mirrored. */
  ghost predicate Corr(S: map<Addr, Obj>, cache: map<Addr, Addr>, origin: map<Addr, Addr>, c: Val, s: Val) {
    if s.Ref? then
      && c.Ref? && c.addr in origin && origin[c.addr] == s.addr
      && (s.addr in S && !S[s.addr].Arr? ==> s.addr in cache && cache[s.addr] == c.addr)
    else c == s
  }

  /** The first `|ys|` Map entries are copied: keys and values correspond. */
  ghost predicate EntriesCorr(S: map<Addr, Obj>, cache: map<Addr, Addr>, origin: map<Addr, Addr>,
                              ys: seq<(Val, Val)>, es: seq<(Val, Val)>)
  {
    && |ys| <= |es|
    && forall j :: 0 <= j < |ys| ==> Corr(S, cache, origin, ys[j].0, es[j].0) && Corr(S, cache, origin, ys[j].1, es[j].1)
  }

  /** The first `|ys|` Set or array elements are copied. */
  ghost predicate ItemsCorr(S: map<Addr, Obj>, cache: map<Addr, Addr>, origin: map<Addr, Addr>,
                            ys: seq<Val>, xs: seq<Val>)
  {
    |ys| <= |xs| && forall j :: 0 <= j < |ys| ==> Corr(S, cache, origin, ys[j], xs[j])
  }

  /** The first `|ys|` own properties are copied: same keys, corresponding values. */
  ghost predicate FieldsCorr(S: map<Addr, Obj>, cache: map<Addr, Addr>, origin: map<Addr, Addr>,
                             ys: seq<(Key, Val)>, fs: seq<(Key, Val)>)
  {
    && |ys| <= |fs|
    && forall j :: 0 <= j < |ys| ==> ys[j].0 == fs[j].0 && Corr(S, cache, origin, ys[j].1, fs[j].1)
  }

  /** Clone object `co` is a copy of source object `so`: same kind, same
      scalar content, same length and order, and each child corresponds. */
  ghost predicate ObjCorr(S: map<Addr, Obj>, cache: map<Addr, Addr>, origin: map<Addr, Addr>, co: Obj, so: Obj)
    requires WellFormed(so)
  {
    match so
    case MapObj(es) => co.MapObj? && |co.entries| == |es| && EntriesCorr(S, cache, origin, co.entries, es)
    case SetObj(xs) => co.SetObj? && |co.items| == |xs| && ItemsCorr(S, cache, origin, co.items, xs)
    case Arr(xs) => co.Arr? && |co.elems| == |xs| && ItemsCorr(S, cache, origin, co.elems, xs)
    case Record(p, fs) =>
      co.Record? && co.proto == p && |co.fields| == |fs| && FieldsCorr(S, cache, origin, co.fields, fs)
    case View(_, _, _, _) => co == CopyView(so)
    case Date(t) => co == Date(t)
    case RegExp(src, flags) => co == RegExp(src, flags)
    case ArrayBuffer(bytes) => co == ArrayBuffer(bytes)
  }

  /** The heap still holds the source objects, which only refer to each
      other; clones live at other addresses and each copies a source object. */
  ghost predicate Frame(store: map<Addr, Obj>, S: map<Addr, Obj>, origin: map<Addr, Addr>) {
    && (forall a :: a in S ==> a in store && store[a] == S[a])
    && (forall a :: a in S ==> WellFormed(S[a]) && ObjIn(S[a], S.Keys))
    && (forall d :: d in origin ==> d in store && d !in S && origin[d] in S)
  }

  /** The cache maps source objects to copies of themselves. */
  ghost predicate CacheOk(S: map<Addr, Obj>, cache: map<Addr, Addr>, origin: map<Addr, Addr>) {
    forall a :: a in cache ==> a in S && cache[a] in origin && origin[cache[a]] == a
  }

  /** The clones in `done` are finished copies of their sources. */
  ghost predicate Complete(store: map<Addr, Obj>, S: map<Addr, Obj>, cache: map<Addr, Addr>,
                           origin: map<Addr, Addr>, done: set<Addr>)
    requires Frame(store, S, origin)
  {
    forall d {:trigger d in done} :: d in done && d in origin ==> ObjCorr(S, cache, origin, store[d], S[origin[d]])
  }

  /** The invariant of one clone: every clone is finished except the
      `pending` ones, whose children are still being copied. */
  ghost predicate Inv(store: map<Addr, Obj>, S: map<Addr, Obj>, cache: map<Addr, Addr>,
                      origin: map<Addr, Addr>, pending: set<Addr>)
  {
    && Frame(store, S, origin)
    && CacheOk(S, cache, origin)
    && pending <= origin.Keys
    && Complete(store, S, cache, origin, origin.Keys - pending)
  }

  /** The cache and `origin` only grow, and the cache entry of a source
      object that is not an array is never replaced. */
  ghost predicate Extends(S: map<Addr, Obj>, cache: map<Addr, Addr>, cache': map<Addr, Addr>,
                          origin: map<Addr, Addr>, origin': map<Addr, Addr>)
  {
    && (forall d :: d in origin ==> d in origin' && origin'[d] == origin[d])
    && (forall a :: a in cache ==> a in cache')
    && (forall a :: a in cache && a in S && !S[a].Arr? ==> cache'[a] == cache[a])
  }

  /** `p` is a cycle of source arrays: each holds a reference to the next,
      and the last one a reference to the first. */
  ghost predicate ArrayCycle(S: map<Addr, Obj>, p: seq<Addr>) {
    && |p| > 0
    && (forall i :: 0 <= i < |p| ==> p[i] in S && S[p[i]].Arr?)
    && (forall i :: 0 <= i < |p| - 1 ==> Ref(p[i + 1]) in S[p[i]].elems)
    && Ref(p[0]) in S[p[|p| - 1]].elems
  }

  /** Array `a` lies on a cycle that runs through array elements alone. */
  ghost predicate OnArrayCycle(S: map<Addr, Obj>, a: Addr) {
    exists p :: ArrayCycle(S, p) && p[0] == a
  }

  /** The element that `next` picks in array `a` refers to another of its
      arrays. */
  ghost predicate LeadsOn(S: map<Addr, Obj>, next: map<Addr, nat>, a: Addr)
    requires a in next
  {
    && a in S && S[a].Arr? && next[a] < |S[a].elems|
    && S[a].elems[next[a]].Ref? && S[a].elems[next[a]].addr in next
  }

  /** `next` picks, for each of its arrays, an element that refers to
      another of its arrays: following array elements from any of them never
      ends. */
  ghost predicate Endless(S: map<Addr, Obj>, next: map<Addr, nat>) {
    forall a {:trigger LeadsOn(S, next, a)} :: a in next ==> LeadsOn(S, next, a)
  }

  lemma NotEndless(S: map<Addr, Obj>, next: map<Addr, nat>, q: Addr)
    requires Endless(S, next) && q in S && !S[q].Arr?
    ensures q !in next
  {
    var leads := q in next && LeadsOn(S, next, q);
  }

  /** The element that `next` picks in one of its arrays leads on. */
  lemma LeadOn(S: map<Addr, Obj>, next: map<Addr, nat>, q: Addr)
    requires Endless(S, next) && q in next
    ensures LeadsOn(S, next, q)
  {
  }

  /** From array `a`, array elements alone lead on forever: `a` lies on a
      cycle of arrays or reaches one through array elements. */
  ghost predicate EndlessFrom(S: map<Addr, Obj>, a: Addr) {
    exists next :: Endless(S, next) && a in next
  }

  /** The position of `x` in `xs`. */
  function IndexOf(xs: seq<Val>, x: Val): (r: nat)
    requires x in xs
    ensures r < |xs| && xs[r] == x
  {
    if xs[0] == x then 0 else 1 + IndexOf(xs[1..], x)
  }

  /** The arrays of a cycle of arrays, each sent to the next, are endless. */
  lemma CycleEndless(S: map<Addr, Obj>, a: Addr)
    requires OnArrayCycle(S, a)
    ensures EndlessFrom(S, a)
  {
    var p :| ArrayCycle(S, p) && p[0] == a;
    var P := set i | 0 <= i < |p| :: p[i];
    var next: map<Addr, nat> := map[];
    var n := 0;
    while n < |p|
      invariant n <= |p|
      invariant forall i :: 0 <= i < n ==> p[i] in next
      invariant forall x :: x in next ==>
        && x in S && S[x].Arr? && next[x] < |S[x].elems|
        && S[x].elems[next[x]].Ref? && S[x].elems[next[x]].addr in P
    {
      var b := if n < |p| - 1 then p[n + 1] else p[0];
      assert b in P;
      next := next[p[n] := IndexOf(S[p[n]].elems, Ref(b))];
      n := n + 1;
    }
    forall x | x in next ensures LeadsOn(S, next, x) {
      var c := S[x].elems[next[x]].addr;
      var i :| 0 <= i < |p| && p[i] == c;
    }
    assert Endless(S, next) && a in next;
  }

  // ----- how many frames a clone needs -----

  /** Cloning `v` while the cache holds `C` needs at most `k` frames: a value
      the cache holds is returned at once; any other object takes a frame of
      its own, and its children are cloned with it cached as well, unless it
      is an array, which is cached only after its children. */
  ghost predicate Fits(S: map<Addr, Obj>, C: set<Addr>, v: Val, k: nat)
    decreases k, 0
  {
    k > 0 &&
    (v.Ref? && v.addr in S && v.addr !in C ==>
       ObjFits(S, if S[v.addr].Arr? then C else C + {v.addr}, S[v.addr], k - 1))
  }

  /** Every child of `o` fits in `k` frames. */
  ghost predicate ObjFits(S: map<Addr, Obj>, C: set<Addr>, o: Obj, k: nat)
    decreases k, 1
  {
    match o
    case MapObj(es) => forall i :: 0 <= i < |es| ==> Fits(S, C, es[i].0, k) && Fits(S, C, es[i].1, k)
    case SetObj(xs) => forall i :: 0 <= i < |xs| ==> Fits(S, C, xs[i], k)
    case Arr(xs) => forall i :: 0 <= i < |xs| ==> Fits(S, C, xs[i], k)
    case Record(_, fs) => forall i :: 0 <= i < |fs| ==> Fits(S, C, fs[i].1, k)
    case _ => true
  }

  /** The more the cache holds, the fewer frames a clone needs. */
  lemma {:induction false} FitsMono(S: map<Addr, Obj>, C: set<Addr>, C': set<Addr>, v: Val, k: nat)
    requires Fits(S, C, v, k) && C <= C'
    ensures Fits(S, C', v, k)
    decreases k, 0
  {
    if v.Ref? && v.addr in S && v.addr !in C' {
      var a := v.addr;
      ObjFitsMono(S, if S[a].Arr? then C else C + {a}, if S[a].Arr? then C' else C' + {a}, S[a], k - 1);
    }
  }

  lemma {:induction false} ObjFitsMono(S: map<Addr, Obj>, C: set<Addr>, C': set<Addr>, o: Obj, k: nat)
    requires ObjFits(S, C, o, k) && C <= C'
    ensures ObjFits(S, C', o, k)
    decreases k, 1
  {
    match o
    case MapObj(es) =>
      forall i | 0 <= i < |es| ensures Fits(S, C', es[i].0, k) && Fits(S, C', es[i].1, k) {
        FitsMono(S, C, C', es[i].0, k);
        FitsMono(S, C, C', es[i].1, k);
      }
    case SetObj(xs) =>
      forall i | 0 <= i < |xs| ensures Fits(S, C', xs[i], k) { FitsMono(S, C, C', xs[i], k); }
    case Arr(xs) =>
      forall i | 0 <= i < |xs| ensures Fits(S, C', xs[i], k) { FitsMono(S, C, C', xs[i], k); }
    case Record(_, fs) =>
      forall i | 0 <= i < |fs| ensures Fits(S, C', fs[i].1, k) { FitsMono(S, C, C', fs[i].1, k); }
    case _ =>
  }

  /** A value whose references reach down fewer than `k` levels fits in `k`
      frames, whatever the cache holds. */
  lemma {:induction false} DepthFits(S: map<Addr, Obj>, C: set<Addr>, v: Val, k: nat)
    requires DepthBelow(S, v, k)
    ensures Fits(S, C, v, k)
    decreases k, 0
  {
    if v.Ref? && v.addr in S && v.addr !in C {
      var a := v.addr;
      ObjDepthFits(S, if S[a].Arr? then C else C + {a}, S[a], k - 1);
    }
  }

  lemma {:induction false} ObjDepthFits(S: map<Addr, Obj>, C: set<Addr>, o: Obj, k: nat)
    requires ObjDepthBelow(S, o, k)
    ensures ObjFits(S, C, o, k)
    decreases k, 1
  {
    match o
    case MapObj(es) =>
      forall i | 0 <= i < |es| ensures Fits(S, C, es[i].0, k) && Fits(S, C, es[i].1, k) {
        DepthFits(S, C, es[i].0, k);
        DepthFits(S, C, es[i].1, k);
      }
    case SetObj(xs) =>
      forall i | 0 <= i < |xs| ensures Fits(S, C, xs[i], k) { DepthFits(S, C, xs[i], k); }
    case Arr(xs) =>
      forall i | 0 <= i < |xs| ensures Fits(S, C, xs[i], k) { DepthFits(S, C, xs[i], k); }
    case Record(_, fs) =>
      forall i | 0 <= i < |fs| ensures Fits(S, C, fs[i].1, k) { DepthFits(S, C, fs[i].1, k); }
    case _ =>
  }

  /** `rank` orders the source arrays: every one has a rank below `top`, and
      an array held as an element of another has the smaller rank. Such a
      rank rules out every endless set of arrays. */
  ghost predicate Ranked(S: map<Addr, Obj>, rank: map<Addr, nat>, top: nat) {
    && (forall a :: a in S && S[a].Arr? ==> a in rank)
    && forall a {:trigger rank[a]} :: a in rank ==> rank[a] < top && RanksDrop(S, rank, a)
  }

  /** Every array element of array `a` has a smaller rank than `a`. */
  ghost predicate RanksDrop(S: map<Addr, Obj>, rank: map<Addr, nat>, a: Addr)
    requires a in rank
  {
    a in S && S[a].Arr? ==>
      forall x :: x in S[a].elems && x.Ref? && x.addr in rank ==> rank[x.addr] < rank[a]
  }

  /** `u * (top + 1)`, written out so that the bounds below stay linear. */
  ghost function Steps(u: nat, top: nat): nat {
    if u == 0 then 0 else Steps(u - 1, top) + top + 1
  }

  lemma {:induction false} StepsMono(u: nat, u': nat, top: nat)
    requires u <= u'
    ensures Steps(u, top) <= Steps(u', top)
    decreases u'
  {
    if u < u' {
      StepsMono(u, u' - 1, top);
    }
  }

  lemma SubsetCard(A: set<Addr>, B: set<Addr>)
    requires A <= B
    ensures |A| <= |B|
  {
    assert B == A + (B - A);
  }

  function RankOf(rank: map<Addr, nat>, a: Addr): nat {
    if a in rank then rank[a] else 0
  }

  /** A budget that suffices to clone `v` under a rank of the arrays, while
      the cache holds `C`: each uncached object that is not an array is
      cached before its children, and between two of them the stack holds
      only arrays, each of smaller rank than the one before. */
  ghost function Need(S: map<Addr, Obj>, C: set<Addr>, rank: map<Addr, nat>, top: nat, v: Val): nat {
    if !v.Ref? || v.addr in C || v.addr !in S then 1
    else if S[v.addr].Arr? then Steps(|S.Keys - C|, top) + RankOf(rank, v.addr) + 2
    else Steps(|S.Keys - C|, top) + 1
  }

  /** Any child needs at most one more round of the arrays. */
  lemma ChildNeed(S: map<Addr, Obj>, C: set<Addr>, rank: map<Addr, nat>, top: nat, v: Val)
    requires Ranked(S, rank, top)
    ensures Need(S, C, rank, top, v) <= Steps(|S.Keys - C|, top) + top + 1
  {
  }

  /** Under a rank of the arrays, `Need` frames suffice. */
  lemma {:induction false} RankedFits(S: map<Addr, Obj>, C: set<Addr>, rank: map<Addr, nat>, top: nat, v: Val, k: nat)
    requires Ranked(S, rank, top) && k >= Need(S, C, rank, top, v)
    ensures Fits(S, C, v, k)
    decreases k
  {
    if v.Ref? && v.addr in S && v.addr !in C {
      var q := v.addr;
      var u := |S.Keys - C|;
      if S[q].Arr? {
        var xs := S[q].elems;
        forall i | 0 <= i < |xs| ensures Fits(S, C, xs[i], k - 1) {
          var x := xs[i];
          if x.Ref? && x.addr in S && x.addr !in C && S[x.addr].Arr? {
            assert RankOf(rank, x.addr) < RankOf(rank, q);
          }
          RankedFits(S, C, rank, top, x, k - 1);
        }
      } else {
        var C' := C + {q};
        assert S.Keys - C == (S.Keys - C') + {q};
        var k' := k - 1;
        forall c {:trigger Fits(S, C', c, k')} ensures Fits(S, C', c, k') {
          ChildNeed(S, C', rank, top, c);
          RankedFits(S, C', rank, top, c, k');
        }
      }
    }
  }

  /** What a branch of the clone promises once it has copied source `q`. */
  ghost predicate Cloned(s0: map<Addr, Obj>, s1: map<Addr, Obj>, S: map<Addr, Obj>,
                         cache: map<Addr, Addr>, cache': map<Addr, Addr>,
                         origin: map<Addr, Addr>, origin': map<Addr, Addr>,
                         pending: set<Addr>, E: set<Addr>, q: Addr, res: Outcome<Val>)
  {
    res.Done? ==>
      && Inv(s1, S, cache', origin', pending)
      && Extends(S, cache, cache', origin, origin')
      && Corr(S, cache', origin', res.value, Ref(q))
      && res.value.addr !in s0
      && E !! cache'.Keys
  }

  // ----- stability of the correspondence as the cache and origin grow -----

  lemma CorrMono(S: map<Addr, Obj>, cache: map<Addr, Addr>, cache': map<Addr, Addr>,
                 origin: map<Addr, Addr>, origin': map<Addr, Addr>, c: Val, s: Val)
    requires Corr(S, cache, origin, c, s) && Extends(S, cache, cache', origin, origin')
    ensures Corr(S, cache', origin', c, s)
  {
  }

  lemma EntriesMono(S: map<Addr, Obj>, cache: map<Addr, Addr>, cache': map<Addr, Addr>,
                    origin: map<Addr, Addr>, origin': map<Addr, Addr>, ys: seq<(Val, Val)>, es: seq<(Val, Val)>)
    requires EntriesCorr(S, cache, origin, ys, es) && Extends(S, cache, cache', origin, origin')
    ensures EntriesCorr(S, cache', origin', ys, es)
  {
    forall j | 0 <= j < |ys|
      ensures Corr(S, cache', origin', ys[j].0, es[j].0) && Corr(S, cache', origin', ys[j].1, es[j].1)
    {
      CorrMono(S, cache, cache', origin, origin', ys[j].0, es[j].0);
      CorrMono(S, cache, cache', origin, origin', ys[j].1, es[j].1);
    }
  }

  lemma ItemsMono(S: map<Addr, Obj>, cache: map<Addr, Addr>, cache': map<Addr, Addr>,
                  origin: map<Addr, Addr>, origin': map<Addr, Addr>, ys: seq<Val>, xs: seq<Val>)
    requires ItemsCorr(S, cache, origin, ys, xs) && Extends(S, cache, cache', origin, origin')
    ensures ItemsCorr(S, cache', origin', ys, xs)
  {
    forall j | 0 <= j < |ys| ensures Corr(S, cache', origin', ys[j], xs[j]) {
      CorrMono(S, cache, cache', origin, origin', ys[j], xs[j]);
    }
  }

  lemma FieldsMono(S: map<Addr, Obj>, cache: map<Addr, Addr>, cache': map<Addr, Addr>,
                   origin: map<Addr, Addr>, origin': map<Addr, Addr>, ys: seq<(Key, Val)>, fs: seq<(Key, Val)>)
    requires FieldsCorr(S, cache, origin, ys, fs) && Extends(S, cache, cache', origin, origin')
    ensures FieldsCorr(S, cache', origin', ys, fs)
  {
    forall j | 0 <= j < |ys| ensures Corr(S, cache', origin', ys[j].1, fs[j].1) {
      CorrMono(S, cache, cache', origin, origin', ys[j].1, fs[j].1);
    }
  }

  lemma ObjCorrMono(S: map<Addr, Obj>, cache: map<Addr, Addr>, cache': map<Addr, Addr>,
                    origin: map<Addr, Addr>, origin': map<Addr, Addr>, co: Obj, so: Obj)
    requires WellFormed(so)
    requires ObjCorr(S, cache, origin, co, so) && Extends(S, cache, cache', origin, origin')
    ensures ObjCorr(S, cache', origin', co, so)
  {
    match so
    case MapObj(es) => EntriesMono(S, cache, cache', origin, origin', co.entries, es);
    case SetObj(xs) => ItemsMono(S, cache, cache', origin, origin', co.items, xs);
    case Arr(xs) => ItemsMono(S, cache, cache', origin, origin', co.elems, xs);
    case Record(p, fs) => FieldsMono(S, cache, cache', origin, origin', co.fields, fs);
    case _ =>
  }

  /** Finished clones stay finished while the heap, the cache and `origin`
      change around them. */
  lemma CompleteStable(store: map<Addr, Obj>, store': map<Addr, Obj>, S: map<Addr, Obj>,
                       cache: map<Addr, Addr>, cache': map<Addr, Addr>,
                       origin: map<Addr, Addr>, origin': map<Addr, Addr>, done: set<Addr>)
    requires Frame(store, S, origin) && Frame(store', S, origin')
    requires Complete(store, S, cache, origin, done) && done <= origin.Keys
    requires Extends(S, cache, cache', origin, origin')
    requires forall d :: d in done ==> store'[d] == store[d]
    ensures Complete(store', S, cache', origin', done)
  {
    forall d | d in done && d in origin'
      ensures ObjCorr(S, cache', origin', store'[d], S[origin'[d]])
    {
      ObjCorrMono(S, cache, cache', origin, origin', store[d], S[origin[d]]);
    }
  }

  lemma ExtendsTrans(S: map<Addr, Obj>, c0: map<Addr, Addr>, c1: map<Addr, Addr>, c2: map<Addr, Addr>,
                     o0: map<Addr, Addr>, o1: map<Addr, Addr>, o2: map<Addr, Addr>)
    requires Extends(S, c0, c1, o0, o1) && Extends(S, c1, c2, o1, o2)
    ensures Extends(S, c0, c2, o0, o2)
  {
  }

  /** Two source values with the same clone are the same value: a clone of a
      reference records which source it copies. */
  lemma CorrInjective(S: map<Addr, Obj>, cache: map<Addr, Addr>, origin: map<Addr, Addr>, c: Val, s1: Val, s2: Val)
    requires Corr(S, cache, origin, c, s1) && Corr(S, cache, origin, c, s2)
    ensures s1 == s2
  {
  }

  /** Every clone value is in the heap. */
  lemma CorrIn(store: map<Addr, Obj>, S: map<Addr, Obj>, cache: map<Addr, Addr>, origin: map<Addr, Addr>, c: Val, s: Val)
    requires Frame(store, S, origin) && Corr(S, cache, origin, c, s) && ValIn(s, S.Keys)
    ensures ValIn(c, store.Keys)
  {
  }

  // ----- the steps that keep the invariant -----

  /** Entering a new clone `d` of `q` into the cache and `origin`, either
      finished (`o` already copies the source) or pending. */
  lemma InvAdd(store: map<Addr, Obj>, store': map<Addr, Obj>, S: map<Addr, Obj>, cache: map<Addr, Addr>,
               origin: map<Addr, Addr>, pending: set<Addr>, q: Addr, d: Addr, o: Obj, finished: bool)
    requires Inv(store, S, cache, origin, pending)
    requires q in S && q !in cache && d !in store && store' == store[d := o]
    requires finished ==> ObjCorr(S, cache[q := d], origin[d := q], o, S[q])
    ensures Inv(store', S, cache[q := d], origin[d := q], if finished then pending else pending + {d})
    ensures Extends(S, cache, cache[q := d], origin, origin[d := q])
  {
    var c', o' := cache[q := d], origin[d := q];
    assert Frame(store', S, o');
    CompleteStable(store, store', S, cache, c', origin, o', origin.Keys - pending);
    var p' := if finished then pending else pending + {d};
    if finished {
      assert o'.Keys - p' == (origin.Keys - pending) + {d};
    } else {
      assert o'.Keys - p' == origin.Keys - pending;
    }
  }

  /** Starting the copy `d` of an object `q` that is not an array: `d`
      joins the cache as a pending clone, and `q` is not on an endless
      chain. */
  lemma PendingAdd(store: map<Addr, Obj>, store': map<Addr, Obj>, S: map<Addr, Obj>, cache: map<Addr, Addr>,
                   origin: map<Addr, Addr>, pending: set<Addr>, next: map<Addr, nat>, q: Addr, d: Addr, o: Obj)
    requires Inv(store, S, cache, origin, pending)
    requires q in S && q !in cache && !S[q].Arr? && d !in store && store' == store[d := o]
    requires Endless(S, next) && next.Keys !! cache.Keys
    ensures Inv(store', S, cache[q := d], origin[d := q], pending + {d})
    ensures Extends(S, cache, cache[q := d], origin, origin[d := q])
    ensures cache[q := d].Keys == cache.Keys + {q} && next.Keys !! cache[q := d].Keys
  {
    InvAdd(store, store', S, cache, origin, pending, q, d, o, false);
    NotEndless(S, next, q);
  }

  /** Writing to a pending clone keeps the invariant. */
  lemma InvWritePending(store: map<Addr, Obj>, S: map<Addr, Obj>, cache: map<Addr, Addr>,
                        origin: map<Addr, Addr>, pending: set<Addr>, d: Addr, o: Obj)
    requires Inv(store, S, cache, origin, pending) && d in pending
    ensures Inv(store[d := o], S, cache, origin, pending)
  {
    CompleteStable(store, store[d := o], S, cache, cache, origin, origin, origin.Keys - pending);
  }

  /** A pending clone whose children are all copied becomes finished. */
  lemma InvFinish(store: map<Addr, Obj>, S: map<Addr, Obj>, cache: map<Addr, Addr>,
                  origin: map<Addr, Addr>, pending: set<Addr>, d: Addr)
    requires Inv(store, S, cache, origin, pending + {d}) && d !in pending && d in origin
    requires ObjCorr(S, cache, origin, store[d], S[origin[d]])
    ensures Inv(store, S, cache, origin, pending)
  {
    assert origin.Keys - pending == (origin.Keys - (pending + {d})) + {d};
  }

  // ----- one more child copied -----

  /** Setting the clone of the next entry appends it: its key corresponds to
      a source key different from all earlier ones, so it is new. */
  lemma EntriesStep(S: map<Addr, Obj>, cache: map<Addr, Addr>, origin: map<Addr, Addr>,
                    ys: seq<(Val, Val)>, es: seq<(Val, Val)>, k: Val, v: Val)
    requires EntriesCorr(S, cache, origin, ys, es) && |ys| < |es| && DistinctKeys(es)
    requires Corr(S, cache, origin, k, es[|ys|].0) && Corr(S, cache, origin, v, es[|ys|].1)
    ensures k !in KeysOf(ys) && Put(ys, k, v) == ys + [(k, v)]
    ensures EntriesCorr(S, cache, origin, ys + [(k, v)], es)
  {
    forall j | 0 <= j < |ys| ensures ys[j].0 != k {
      if ys[j].0 == k { CorrInjective(S, cache, origin, k, es[j].0, es[|ys|].0); }
    }
  }

  lemma SetStep(S: map<Addr, Obj>, cache: map<Addr, Addr>, origin: map<Addr, Addr>,
                ys: seq<Val>, xs: seq<Val>, x: Val)
    requires ItemsCorr(S, cache, origin, ys, xs) && |ys| < |xs| && Distinct(xs)
    requires Corr(S, cache, origin, x, xs[|ys|])
    ensures x !in ys && SetAdd(ys, x) == ys + [x]
    ensures ItemsCorr(S, cache, origin, ys + [x], xs)
  {
    forall j | 0 <= j < |ys| ensures ys[j] != x {
      if ys[j] == x { CorrInjective(S, cache, origin, x, xs[j], xs[|ys|]); }
    }
  }

  lemma ItemsStep(S: map<Addr, Obj>, cache: map<Addr, Addr>, origin: map<Addr, Addr>,
                  ys: seq<Val>, xs: seq<Val>, x: Val)
    requires ItemsCorr(S, cache, origin, ys, xs) && |ys| < |xs|
    requires Corr(S, cache, origin, x, xs[|ys|])
    ensures ItemsCorr(S, cache, origin, ys + [x], xs)
  {
  }

  lemma FieldsStep(S: map<Addr, Obj>, cache: map<Addr, Addr>, origin: map<Addr, Addr>,
                   ys: seq<(Key, Val)>, fs: seq<(Key, Val)>, v: Val)
    requires FieldsCorr(S, cache, origin, ys, fs) && |ys| < |fs| && DistinctKeys(fs)
    requires Corr(S, cache, origin, v, fs[|ys|].1)
    ensures fs[|ys|].0 !in KeysOf(ys) && Put(ys, fs[|ys|].0, v) == ys + [(fs[|ys|].0, v)]
    ensures FieldsCorr(S, cache, origin, ys + [(fs[|ys|].0, v)], fs)
  {
    assert forall j :: 0 <= j < |ys| ==> ys[j].0 == fs[j].0 != fs[|ys|].0;
  }

  /** All elements of a finished array copy are in the heap. */
  lemma ItemsIn(store: map<Addr, Obj>, S: map<Addr, Obj>, cache: map<Addr, Addr>, origin: map<Addr, Addr>,
                ys: seq<Val>, xs: seq<Val>)
    requires Frame(store, S, origin) && ItemsCorr(S, cache, origin, ys, xs)
    ensures ObjIn(Arr(ys), store.Keys)
  {
  }

  /** Entering a finished array copy into the cache, possibly replacing the
      entry that a nested visit of the same array made. */
  lemma ArrayDone(store: map<Addr, Obj>, store': map<Addr, Obj>, S: map<Addr, Obj>, cache: map<Addr, Addr>,
                  origin: map<Addr, Addr>, pending: set<Addr>, q: Addr, d: Addr, ys: seq<Val>)
    requires Inv(store, S, cache, origin, pending)
    requires q in S && S[q].Arr? && d !in store && store' == store[d := Arr(ys)]
    requires |ys| == |S[q].elems| && ItemsCorr(S, cache, origin, ys, S[q].elems)
    ensures Inv(store', S, cache[q := d], origin[d := q], pending)
    ensures Extends(S, cache, cache[q := d], origin, origin[d := q])
  {
    var c', o' := cache[q := d], origin[d := q];
    assert Frame(store', S, o');
    CompleteStable(store, store', S, cache, c', origin, o', origin.Keys - pending);
    ItemsMono(S, cache, c', origin, o', ys, S[q].elems);
    assert o'.Keys - pending == (origin.Keys - pending) + {d};
  }

  // ----- the algorithm -----

  /** `cloneWithCache(value, cache)`. */
  method CloneWithCache(h: Heap, v: Val, cache: map<Addr, Addr>, ghost S: map<Addr, Obj>,
                        ghost origin: map<Addr, Addr>, ghost pending: set<Addr>, ghost next: map<Addr, nat>, budget: nat)
    returns (res: Outcome<Val>, cache': map<Addr, Addr>, ghost origin': map<Addr, Addr>)
    requires h.Valid() && Inv(h.store, S, cache, origin, pending) && ValIn(v, S.Keys)
    requires Endless(S, next) && next.Keys !! cache.Keys
    modifies h
    decreases budget, 0
    ensures h.Valid() && Preserved(old(h.store), h.store)
    ensures budget == 0 ==> res == StackOverflow
    ensures res.Done? ==>
      && Inv(h.store, S, cache', origin', pending)
      && Extends(S, cache, cache', origin, origin')
      && Corr(S, cache', origin', res.value, v)
      && next.Keys !! cache'.Keys
    ensures res.Done? && !v.Ref? ==> res.value == v && cache' == cache && h.store == old(h.store)
    ensures res.Done? && v.Ref? && v.addr in cache ==>
      res.value == Ref(cache[v.addr]) && cache' == cache && h.store == old(h.store)
    ensures res.Done? && v.Ref? && v.addr !in cache ==> res.value.Ref? && res.value.addr !in old(h.store)
    ensures v.Ref? && v.addr in next ==> res.StackOverflow?
    ensures Fits(S, cache.Keys, v, budget) ==> res.Done?
  {
    if budget == 0 {
      return StackOverflow, cache, origin;
    }
    // null, primitives and functions are returned as they are
    if !v.Ref? {
      return Done(v), cache, origin;
    }
    var q := v.addr;
    if q in cache {
      return Done(Ref(cache[q])), cache, origin;
    }
    res, cache', origin' := CloneObject(h, q, cache, S, origin, pending, next, budget - 1);
  }

  /** An uncached object: the copy that fits its kind. */
  method CloneObject(h: Heap, q: Addr, cache: map<Addr, Addr>, ghost S: map<Addr, Obj>,
                     ghost origin: map<Addr, Addr>, ghost pending: set<Addr>, ghost next: map<Addr, nat>, budget: nat)
    returns (res: Outcome<Val>, cache': map<Addr, Addr>, ghost origin': map<Addr, Addr>)
    requires h.Valid() && Inv(h.store, S, cache, origin, pending)
    requires q in S && q !in cache
    requires Endless(S, next) && next.Keys !! cache.Keys
    modifies h
    decreases budget, 6
    ensures h.Valid() && Preserved(old(h.store), h.store)
    ensures Cloned(old(h.store), h.store, S, cache, cache', origin, origin', pending, next.Keys, q, res)
    ensures q in next ==> res.StackOverflow?
    ensures ObjFits(S, if S[q].Arr? then cache.Keys else cache.Keys + {q}, S[q], budget) ==> res.Done?
  {
    match h.store[q]
    case MapObj(_) =>
      res, cache', origin' := CloneMap(h, q, cache, S, origin, pending, next, budget);
    case SetObj(_) =>
      res, cache', origin' := CloneSet(h, q, cache, S, origin, pending, next, budget);
    case Arr(_) =>
      res, cache', origin' := CloneArray(h, q, cache, S, origin, pending, next, budget);
    case Record(_, _) =>
      res, cache', origin' := CloneRecord(h, q, cache, S, origin, pending, next, budget);
    case _ =>
      res, cache', origin' := CloneLeaf(h, q, cache, S, origin, pending, next);
  }

  /** Date, RegExp, ArrayBuffer and views: a new object with the same
      timestamp, pattern and flags, or bytes, entered into the cache. */
  method CloneLeaf(h: Heap, q: Addr, cache: map<Addr, Addr>, ghost S: map<Addr, Obj>,
                   ghost origin: map<Addr, Addr>, ghost pending: set<Addr>, ghost next: map<Addr, nat>)
    returns (res: Outcome<Val>, cache': map<Addr, Addr>, ghost origin': map<Addr, Addr>)
    requires h.Valid() && Inv(h.store, S, cache, origin, pending)
    requires q in S && q !in cache
    requires S[q].Date? || S[q].RegExp? || S[q].ArrayBuffer? || S[q].View?
    requires Endless(S, next) && next.Keys !! cache.Keys
    modifies h
    ensures h.Valid() && Preserved(old(h.store), h.store)
    ensures res.Done? && Cloned(old(h.store), h.store, S, cache, cache', origin, origin', pending, next.Keys, q, res)
  {
    var o := h.store[q];
    var copy := match o
      case Date(t) => Date(t)
      case RegExp(src, flags) => RegExp(src, flags)
      case ArrayBuffer(bytes) => ArrayBuffer(bytes)
      case View(_, _, _, _) => CopyView(o)
      case _ => o;
    ghost var s0 := h.store;
    var d := h.Alloc(copy);
    InvAdd(s0, h.store, S, cache, origin, pending, q, d, copy, true);
    NotEndless(S, next, q);
    cache' := cache[q := d];
    origin' := origin[d := q];
    res := Done(Ref(d));
  }

  /** A Map: a new empty Map is cached first, then each entry's key and
      value are cloned and set, in iteration order. */
  method CloneMap(h: Heap, q: Addr, cache: map<Addr, Addr>, ghost S: map<Addr, Obj>,
                  ghost origin: map<Addr, Addr>, ghost pending: set<Addr>, ghost next: map<Addr, nat>, budget: nat)
    returns (res: Outcome<Val>, cache': map<Addr, Addr>, ghost origin': map<Addr, Addr>)
    requires h.Valid() && Inv(h.store, S, cache, origin, pending)
    requires q in S && q !in cache && S[q].MapObj?
    requires Endless(S, next) && next.Keys !! cache.Keys
    modifies h
    decreases budget, 5
    ensures h.Valid() && Preserved(old(h.store), h.store)
    ensures Cloned(old(h.store), h.store, S, cache, cache', origin, origin', pending, next.Keys, q, res)
    ensures ObjFits(S, cache.Keys + {q}, S[q], budget) ==> res.Done?
  {
    ghost var s0 := h.store;
    var d := h.Alloc(MapObj([]));
    PendingAdd(s0, h.store, S, cache, origin, pending, next, q, d, h.store[d]);
    cache' := cache[q := d];
    origin' := origin[d := q];
    ghost var s1, c1, o1 := h.store, cache', origin';
    var ok;
    ok, cache', origin' := CopyEntries(h, q, d, cache', S, origin', pending + {d}, next, budget);
    KeepsOld(s0, s1, h.store, d);
    if !ok { return StackOverflow, cache', origin'; }
    ExtendsTrans(S, cache, c1, cache', origin, o1, origin');
    InvFinish(h.store, S, cache', origin', pending, d);
    res := Done(Ref(d));
  }

  /** The loop of a Map clone: copies every entry of `q`, in order, onto its pending copy `d`. */
  method CopyEntries(h: Heap, q: Addr, d: Addr, cache: map<Addr, Addr>, ghost S: map<Addr, Obj>,
                     ghost origin: map<Addr, Addr>, ghost pending: set<Addr>, ghost next: map<Addr, nat>, budget: nat)
    returns (ok: bool, cache': map<Addr, Addr>, ghost origin': map<Addr, Addr>)
    requires h.Valid() && Inv(h.store, S, cache, origin, pending)
    requires q in S && S[q].MapObj? && d in pending && h.store[d].MapObj? && h.store[d].entries == []
    requires Endless(S, next) && next.Keys !! cache.Keys
    modifies h
    decreases budget, 4
    ensures h.Valid() && d in h.store
    ensures PreservedBut(old(h.store), h.store, d)
    ensures ok ==>
      && Inv(h.store, S, cache', origin', pending)
      && Extends(S, cache, cache', origin, origin') && next.Keys !! cache'.Keys
      && h.store[d].MapObj? && |h.store[d].entries| == |S[q].entries|
      && EntriesCorr(S, cache', origin', h.store[d].entries, S[q].entries)
    ensures ObjFits(S, cache.Keys, S[q], budget) ==> ok
  {
    ghost var s0 := h.store;
    var n := |h.store[q].entries|;
    ghost var fits := ObjFits(S, cache.Keys, S[q], budget);
    cache', origin' := cache, origin;
    var i := 0;
    while i < n
      invariant h.Valid() && d in h.store && PreservedBut(s0, h.store, d)
      invariant Inv(h.store, S, cache', origin', pending)
      invariant Extends(S, cache, cache', origin, origin') && next.Keys !! cache'.Keys
      invariant h.store[d].MapObj? && |h.store[d].entries| == i <= n
      invariant EntriesCorr(S, cache', origin', h.store[d].entries, S[q].entries)
    {
      ghost var c0, o0, s1 := cache', origin', h.store;
      if fits {
        ObjFitsMono(S, cache.Keys, c0.Keys, S[q], budget);
      }
      ok, cache', origin' := CopyEntry(h, q, d, i, cache', S, origin', pending, next, budget);
      KeepsTrans(s0, s1, h.store, d);
      if !ok { return; }
      ExtendsTrans(S, cache, c0, cache', origin, o0, origin');
      i := i + 1;
    }
    ok := true;
  }

  /** A Set: a new empty Set is cached first, then each element is cloned
      and added, in iteration order. */
  method CloneSet(h: Heap, q: Addr, cache: map<Addr, Addr>, ghost S: map<Addr, Obj>,
                  ghost origin: map<Addr, Addr>, ghost pending: set<Addr>, ghost next: map<Addr, nat>, budget: nat)
    returns (res: Outcome<Val>, cache': map<Addr, Addr>, ghost origin': map<Addr, Addr>)
    requires h.Valid() && Inv(h.store, S, cache, origin, pending)
    requires q in S && q !in cache && S[q].SetObj?
    requires Endless(S, next) && next.Keys !! cache.Keys
    modifies h
    decreases budget, 5
    ensures h.Valid() && Preserved(old(h.store), h.store)
    ensures Cloned(old(h.store), h.store, S, cache, cache', origin, origin', pending, next.Keys, q, res)
    ensures ObjFits(S, cache.Keys + {q}, S[q], budget) ==> res.Done?
  {
    ghost var s0 := h.store;
    var d := h.Alloc(SetObj([]));
    PendingAdd(s0, h.store, S, cache, origin, pending, next, q, d, h.store[d]);
    cache' := cache[q := d];
    origin' := origin[d := q];
    ghost var s1, c1, o1 := h.store, cache', origin';
    var ok;
    ok, cache', origin' := CopyItems(h, q, d, cache', S, origin', pending + {d}, next, budget);
    KeepsOld(s0, s1, h.store, d);
    if !ok { return StackOverflow, cache', origin'; }
    ExtendsTrans(S, cache, c1, cache', origin, o1, origin');
    InvFinish(h.store, S, cache', origin', pending, d);
    res := Done(Ref(d));
  }

  /** The loop of a Set clone: copies every element of `q`, in order, onto its pending copy `d`. */
  method CopyItems(h: Heap, q: Addr, d: Addr, cache: map<Addr, Addr>, ghost S: map<Addr, Obj>,
                   ghost origin: map<Addr, Addr>, ghost pending: set<Addr>, ghost next: map<Addr, nat>, budget: nat)
    returns (ok: bool, cache': map<Addr, Addr>, ghost origin': map<Addr, Addr>)
    requires h.Valid() && Inv(h.store, S, cache, origin, pending)
    requires q in S && S[q].SetObj? && d in pending && h.store[d].SetObj? && h.store[d].items == []
    requires Endless(S, next) && next.Keys !! cache.Keys
    modifies h
    decreases budget, 4
    ensures h.Valid() && d in h.store
    ensures PreservedBut(old(h.store), h.store, d)
    ensures ok ==>
      && Inv(h.store, S, cache', origin', pending)
      && Extends(S, cache, cache', origin, origin') && next.Keys !! cache'.Keys
      && h.store[d].SetObj? && |h.store[d].items| == |S[q].items|
      && ItemsCorr(S, cache', origin', h.store[d].items, S[q].items)
    ensures ObjFits(S, cache.Keys, S[q], budget) ==> ok
  {
    ghost var s0 := h.store;
    var n := |h.store[q].items|;
    ghost var fits := ObjFits(S, cache.Keys, S[q], budget);
    cache', origin' := cache, origin;
    var i := 0;
    while i < n
      invariant h.Valid() && d in h.store && PreservedBut(s0, h.store, d)
      invariant Inv(h.store, S, cache', origin', pending)
      invariant Extends(S, cache, cache', origin, origin') && next.Keys !! cache'.Keys
      invariant h.store[d].SetObj? && |h.store[d].items| == i <= n
      invariant ItemsCorr(S, cache', origin', h.store[d].items, S[q].items)
    {
      ghost var c0, o0, s1 := cache', origin', h.store;
      if fits {
        ObjFitsMono(S, cache.Keys, c0.Keys, S[q], budget);
      }
      ok, cache', origin' := CopyItem(h, q, d, i, cache', S, origin', pending, next, budget);
      KeepsTrans(s0, s1, h.store, d);
      if !ok { return; }
      ExtendsTrans(S, cache, c0, cache', origin, o0, origin');
      i := i + 1;
    }
    ok := true;
  }

  /** An array: every element is cloned first, in order, and only then is
      the new array entered into the cache. */
  method CloneArray(h: Heap, q: Addr, cache: map<Addr, Addr>, ghost S: map<Addr, Obj>,
                    ghost origin: map<Addr, Addr>, ghost pending: set<Addr>, ghost next: map<Addr, nat>, budget: nat)
    returns (res: Outcome<Val>, cache': map<Addr, Addr>, ghost origin': map<Addr, Addr>)
    requires h.Valid() && Inv(h.store, S, cache, origin, pending)
    requires q in S && q !in cache && S[q].Arr?
    requires Endless(S, next) && next.Keys !! cache.Keys
    modifies h
    decreases budget, 4
    ensures h.Valid() && Preserved(old(h.store), h.store)
    ensures Cloned(old(h.store), h.store, S, cache, cache', origin, origin', pending, next.Keys, q, res)
    ensures q in next ==> res.StackOverflow?
    ensures ObjFits(S, cache.Keys, S[q], budget) ==> res.Done?
  {
    var ok, ys;
    ok, ys, cache', origin' := CloneItems(h, q, cache, S, origin, pending, next, budget);
    if !ok { return StackOverflow, cache', origin'; }
    ghost var xs := S[q].elems;
    ItemsIn(h.store, S, cache', origin', ys, xs);
    ghost var s1 := h.store;
    ghost var c1, o1 := cache', origin';
    var d := h.Alloc(Arr(ys));
    cache' := cache'[q := d];
    origin' := origin'[d := q];
    ArrayDone(s1, h.store, S, c1, o1, pending, q, d, ys);
    res := Done(Ref(d));
  }

  /** The `map` over the elements of array `q`: each is cloned in order. */
  method CloneItems(h: Heap, q: Addr, cache: map<Addr, Addr>, ghost S: map<Addr, Obj>,
                    ghost origin: map<Addr, Addr>, ghost pending: set<Addr>, ghost next: map<Addr, nat>, budget: nat)
    returns (ok: bool, ys: seq<Val>, cache': map<Addr, Addr>, ghost origin': map<Addr, Addr>)
    requires h.Valid() && Inv(h.store, S, cache, origin, pending)
    requires q in S && q !in cache && S[q].Arr?
    requires Endless(S, next) && next.Keys !! cache.Keys
    modifies h
    decreases budget, 3
    ensures h.Valid() && Preserved(old(h.store), h.store)
    ensures ok ==>
      && Inv(h.store, S, cache', origin', pending)
      && Extends(S, cache, cache', origin, origin') && next.Keys !! cache'.Keys
      && |ys| == |S[q].elems| && ItemsCorr(S, cache', origin', ys, S[q].elems)
    ensures q in next ==> !ok
    ensures ObjFits(S, cache.Keys, S[q], budget) ==> ok
  {
    ghost var s0 := h.store;
    var xs := h.store[q].elems;
    // on an endless array, the element that leads on is never cloned
    ghost var stop := |xs|;
    if q in next {
      LeadOn(S, next, q);
      stop := next[q];
    }
    ghost var fits := ObjFits(S, cache.Keys, S[q], budget);
    ys := [];
    cache', origin' := cache, origin;
    var i := 0;
    while i < |xs|
      invariant i == |ys| && i <= |xs|
      invariant h.Valid() && Preserved(s0, h.store)
      invariant Inv(h.store, S, cache', origin', pending)
      invariant Extends(S, cache, cache', origin, origin') && next.Keys !! cache'.Keys
      invariant ItemsCorr(S, cache', origin', ys, xs)
      invariant i <= stop
    {
      ghost var c0, o0 := cache', origin';
      if fits {
        ObjFitsMono(S, cache.Keys, c0.Keys, S[q], budget);
      }
      ok, ys, cache', origin' := CloneItem(h, q, ys, cache', S, origin', pending, next, budget);
      if !ok { return; }
      ExtendsTrans(S, cache, c0, cache', origin, o0, origin');
      i := i + 1;
    }
    ok := true;
  }

  /** Clones element `|ys|` of array `q` and appends the result to `ys`. */
  method CloneItem(h: Heap, q: Addr, ys: seq<Val>, cache: map<Addr, Addr>, ghost S: map<Addr, Obj>,
                   ghost origin: map<Addr, Addr>, ghost pending: set<Addr>, ghost next: map<Addr, nat>, budget: nat)
    returns (ok: bool, ys': seq<Val>, cache': map<Addr, Addr>, ghost origin': map<Addr, Addr>)
    requires h.Valid() && Inv(h.store, S, cache, origin, pending)
    requires q in S && S[q].Arr? && |ys| < |S[q].elems| && ItemsCorr(S, cache, origin, ys, S[q].elems)
    requires Endless(S, next) && next.Keys !! cache.Keys
    modifies h
    decreases budget, 2
    ensures h.Valid() && Preserved(old(h.store), h.store)
    ensures ok ==>
      && Inv(h.store, S, cache', origin', pending)
      && Extends(S, cache, cache', origin, origin') && next.Keys !! cache'.Keys
      && |ys'| == |ys| + 1 && ItemsCorr(S, cache', origin', ys', S[q].elems)
    ensures q in next && |ys| == next[q] ==> !ok
    ensures Fits(S, cache.Keys, S[q].elems[|ys|], budget) ==> ok
  {
    var x := h.store[q].elems[|ys|];
    if q in next {
      LeadOn(S, next, q);
    }
    var y;
    y, cache', origin' := CloneWithCache(h, x, cache, S, origin, pending, next, budget);
    if y.StackOverflow? { return false, ys, cache', origin'; }
    ItemsMono(S, cache, cache', origin, origin', ys, S[q].elems);
    ItemsStep(S, cache', origin', ys, S[q].elems, y.value);
    ok, ys' := true, ys + [y.value];
  }

  /** Any other object: a new object with the same prototype is cached
      first, then each own key is cloned and assigned, in `ownKeys` order. */
  method CloneRecord(h: Heap, q: Addr, cache: map<Addr, Addr>, ghost S: map<Addr, Obj>,
                     ghost origin: map<Addr, Addr>, ghost pending: set<Addr>, ghost next: map<Addr, nat>, budget: nat)
    returns (res: Outcome<Val>, cache': map<Addr, Addr>, ghost origin': map<Addr, Addr>)
    requires h.Valid() && Inv(h.store, S, cache, origin, pending)
    requires q in S && q !in cache && S[q].Record?
    requires Endless(S, next) && next.Keys !! cache.Keys
    modifies h
    decreases budget, 5
    ensures h.Valid() && Preserved(old(h.store), h.store)
    ensures Cloned(old(h.store), h.store, S, cache, cache', origin, origin', pending, next.Keys, q, res)
    ensures ObjFits(S, cache.Keys + {q}, S[q], budget) ==> res.Done?
  {
    ghost var s0 := h.store;
    var proto := h.store[q].proto;
    var d := h.Alloc(Record(proto, []));
    PendingAdd(s0, h.store, S, cache, origin, pending, next, q, d, h.store[d]);
    cache' := cache[q := d];
    origin' := origin[d := q];
    ghost var s1, c1, o1 := h.store, cache', origin';
    var ok;
    ok, cache', origin' := CopyFields(h, q, d, cache', S, origin', pending + {d}, next, budget);
    KeepsOld(s0, s1, h.store, d);
    if !ok { return StackOverflow, cache', origin'; }
    ExtendsTrans(S, cache, c1, cache', origin, o1, origin');
    InvFinish(h.store, S, cache', origin', pending, d);
    res := Done(Ref(d));
  }

  /** The loop of an object clone: copies every own property of `q`, in order, onto its pending copy `d`. */
  method CopyFields(h: Heap, q: Addr, d: Addr, cache: map<Addr, Addr>, ghost S: map<Addr, Obj>,
                    ghost origin: map<Addr, Addr>, ghost pending: set<Addr>, ghost next: map<Addr, nat>, budget: nat)
    returns (ok: bool, cache': map<Addr, Addr>, ghost origin': map<Addr, Addr>)
    requires h.Valid() && Inv(h.store, S, cache, origin, pending)
    requires q in S && S[q].Record? && d in pending && h.store[d].Record? && h.store[d].fields == [] && h.store[d].proto == S[q].proto
    requires Endless(S, next) && next.Keys !! cache.Keys
    modifies h
    decreases budget, 4
    ensures h.Valid() && d in h.store
    ensures PreservedBut(old(h.store), h.store, d)
    ensures ok ==>
      && Inv(h.store, S, cache', origin', pending)
      && Extends(S, cache, cache', origin, origin') && next.Keys !! cache'.Keys
      && h.store[d].Record? && h.store[d].proto == S[q].proto && |h.store[d].fields| == |S[q].fields|
      && FieldsCorr(S, cache', origin', h.store[d].fields, S[q].fields)
    ensures ObjFits(S, cache.Keys, S[q], budget) ==> ok
  {
    ghost var s0 := h.store;
    var n := |h.store[q].fields|;
    ghost var fits := ObjFits(S, cache.Keys, S[q], budget);
    cache', origin' := cache, origin;
    var i := 0;
    while i < n
      invariant h.Valid() && d in h.store && PreservedBut(s0, h.store, d)
      invariant Inv(h.store, S, cache', origin', pending)
      invariant Extends(S, cache, cache', origin, origin') && next.Keys !! cache'.Keys
      invariant h.store[d].Record? && h.store[d].proto == S[q].proto && |h.store[d].fields| == i <= n
      invariant FieldsCorr(S, cache', origin', h.store[d].fields, S[q].fields)
    {
      ghost var c0, o0, s1 := cache', origin', h.store;
      if fits {
        ObjFitsMono(S, cache.Keys, c0.Keys, S[q], budget);
      }
      ok, cache', origin' := CopyField(h, q, d, i, cache', S, origin', pending, next, budget);
      KeepsTrans(s0, s1, h.store, d);
      if !ok { return; }
      ExtendsTrans(S, cache, c0, cache', origin, o0, origin');
      i := i + 1;
    }
    ok := true;
  }

  /** `clone(value)`: `cloneWithCache` with a new, empty cache. */
  method Clone(h: Heap, v: Val, budget: nat) returns (res: Outcome<Val>, ghost cache: map<Addr, Addr>, ghost origin: map<Addr, Addr>)
    requires h.Valid() && ValIn(v, h.store.Keys)
    modifies h
    ensures h.Valid() && Preserved(old(h.store), h.store)
    ensures budget == 0 ==> res == StackOverflow
    ensures res.Done? ==> Inv(h.store, old(h.store), cache, origin, {}) && Corr(old(h.store), cache, origin, res.value, v)
    ensures res.Done? && !v.Ref? ==> res.value == v && h.store == old(h.store)
    ensures res.Done? && v.Ref? ==> res.value.Ref? && res.value.addr !in old(h.store)
    ensures v.Ref? && EndlessFrom(old(h.store), v.addr) ==> res.StackOverflow?
    ensures v.Ref? && OnArrayCycle(old(h.store), v.addr) ==> res.StackOverflow?
    ensures DepthBelow(old(h.store), v, budget) ==> res.Done?
    ensures (exists rank, top :: Ranked(old(h.store), rank, top) && budget >= Steps(|old(h.store)|, top) + top + 1) ==> res.Done?
  {
    ghost var S := h.store;
    ghost var next: map<Addr, nat> := map[];
    if v.Ref? && OnArrayCycle(S, v.addr) {
      CycleEndless(S, v.addr);
    }
    if v.Ref? && EndlessFrom(S, v.addr) {
      next :| Endless(S, next) && v.addr in next;
    }
    var empty: map<Addr, Addr> := map[];
    assert empty.Keys == {} && S.Keys - {} == S.Keys;
    if DepthBelow(S, v, budget) {
      DepthFits(S, {}, v, budget);
    }
    if exists rank, top :: Ranked(S, rank, top) && budget >= Steps(|S|, top) + top + 1 {
      var rank, top :| Ranked(S, rank, top) && budget >= Steps(|S|, top) + top + 1;
      ChildNeed(S, {}, rank, top, v);
      RankedFits(S, {}, rank, top, v, budget);
    }
    var c;
    res, c, origin := CloneWithCache(h, v, empty, S, map[], {}, next, budget);
    cache := c;
  }

  // ----- one child of a pending clone -----

  /** `cloneWithCache` on a child of a pending clone, with the part of its
      contract the parent needs. */
  method CloneChild(h: Heap, v: Val, cache: map<Addr, Addr>, ghost S: map<Addr, Obj>,
                    ghost origin: map<Addr, Addr>, ghost pending: set<Addr>, ghost next: map<Addr, nat>, budget: nat)
    returns (ok: bool, c: Val, cache': map<Addr, Addr>, ghost origin': map<Addr, Addr>)
    requires h.Valid() && Inv(h.store, S, cache, origin, pending) && ValIn(v, S.Keys)
    requires Endless(S, next) && next.Keys !! cache.Keys
    modifies h
    decreases budget, 1
    ensures h.Valid() && Preserved(old(h.store), h.store)
    ensures ok ==>
      && Inv(h.store, S, cache', origin', pending)
      && Extends(S, cache, cache', origin, origin') && next.Keys !! cache'.Keys
      && Corr(S, cache', origin', c, v)
    ensures Fits(S, cache.Keys, v, budget) ==> ok
  {
    var res;
    res, cache', origin' := CloneWithCache(h, v, cache, S, origin, pending, next, budget);
    ok := res.Done?;
    c := if ok then res.value else v;
  }

  /** Clones the key and the value of Map entry `i` of source `q` and sets
      them on its pending copy `d`. */
  method CopyEntry(h: Heap, q: Addr, d: Addr, i: nat, cache: map<Addr, Addr>, ghost S: map<Addr, Obj>,
                   ghost origin: map<Addr, Addr>, ghost pending: set<Addr>, ghost next: map<Addr, nat>, budget: nat)
    returns (ok: bool, cache': map<Addr, Addr>, ghost origin': map<Addr, Addr>)
    requires h.Valid() && Inv(h.store, S, cache, origin, pending)
    requires q in S && S[q].MapObj? && i < |S[q].entries| && d in pending
    requires h.store[d].MapObj? && |h.store[d].entries| == i
    requires EntriesCorr(S, cache, origin, h.store[d].entries, S[q].entries)
    requires Endless(S, next) && next.Keys !! cache.Keys
    modifies h
    decreases budget, 3
    ensures h.Valid() && d in h.store
    ensures PreservedBut(old(h.store), h.store, d)
    ensures ok ==>
      && Inv(h.store, S, cache', origin', pending)
      && Extends(S, cache, cache', origin, origin') && next.Keys !! cache'.Keys
      && h.store[d].MapObj? && |h.store[d].entries| == i + 1
      && EntriesCorr(S, cache', origin', h.store[d].entries, S[q].entries)
    ensures Fits(S, cache.Keys, S[q].entries[i].0, budget) && Fits(S, cache.Keys, S[q].entries[i].1, budget) ==> ok
  {
    var e := h.store[q].entries[i];
    var k;
    ok, k, cache', origin' := CloneChild(h, e.0, cache, S, origin, pending, next, budget);
    if !ok { return; }
    EntriesMono(S, cache, cache', origin, origin', h.store[d].entries, S[q].entries);
    ghost var c1, o1, s1 := cache', origin', h.store;
    if Fits(S, cache.Keys, e.1, budget) {
      FitsMono(S, cache.Keys, c1.Keys, e.1, budget);
    }
    ok, cache', origin' := CopyEntryValue(h, q, d, k, cache', S, origin', pending, next, budget);
    KeepsThen(old(h.store), s1, h.store, d);
    if ok {
      ExtendsTrans(S, cache, c1, cache', origin, o1, origin');
    }
  }

  /** Clones the value of the next Map entry of `q` and sets it, under the
      already cloned key `k`, on `d`. */
  method CopyEntryValue(h: Heap, q: Addr, d: Addr, k: Val, cache: map<Addr, Addr>, ghost S: map<Addr, Obj>,
                        ghost origin: map<Addr, Addr>, ghost pending: set<Addr>, ghost next: map<Addr, nat>, budget: nat)
    returns (ok: bool, cache': map<Addr, Addr>, ghost origin': map<Addr, Addr>)
    requires h.Valid() && Inv(h.store, S, cache, origin, pending)
    requires q in S && S[q].MapObj? && d in pending && h.store[d].MapObj?
    requires |h.store[d].entries| < |S[q].entries|
    requires EntriesCorr(S, cache, origin, h.store[d].entries, S[q].entries)
    requires Corr(S, cache, origin, k, S[q].entries[|h.store[d].entries|].0)
    requires Endless(S, next) && next.Keys !! cache.Keys
    modifies h
    decreases budget, 2
    ensures h.Valid() && d in h.store
    ensures PreservedBut(old(h.store), h.store, d)
    ensures ok ==>
      && Inv(h.store, S, cache', origin', pending)
      && Extends(S, cache, cache', origin, origin') && next.Keys !! cache'.Keys
      && h.store[d].MapObj? && |h.store[d].entries| == |old(h.store[d].entries)| + 1
      && EntriesCorr(S, cache', origin', h.store[d].entries, S[q].entries)
    ensures Fits(S, cache.Keys, S[q].entries[|old(h.store[d].entries)|].1, budget) ==> ok
  {
    var n := |h.store[d].entries|;
    var x := h.store[q].entries[n].1;
    var v;
    ok, v, cache', origin' := CloneChild(h, x, cache, S, origin, pending, next, budget);
    if !ok { return; }
    CorrMono(S, cache, cache', origin, origin', k, S[q].entries[n].0);
    EntriesMono(S, cache, cache', origin, origin', h.store[d].entries, S[q].entries);
    ghost var s1 := h.store;
    AppendEntry(h, q, d, k, v, cache', S, origin', pending);
    WriteKeeps(old(h.store), s1, h.store, d, h.store[d]);
  }

  /** Sets the cloned key `k` and value `v` of the next entry on `d`. */
  method AppendEntry(h: Heap, q: Addr, d: Addr, k: Val, v: Val, ghost cache: map<Addr, Addr>,
                     ghost S: map<Addr, Obj>, ghost origin: map<Addr, Addr>, ghost pending: set<Addr>)
    requires h.Valid() && Inv(h.store, S, cache, origin, pending)
    requires q in S && S[q].MapObj? && d in pending && h.store[d].MapObj?
    requires |h.store[d].entries| < |S[q].entries|
    requires EntriesCorr(S, cache, origin, h.store[d].entries, S[q].entries)
    requires Corr(S, cache, origin, k, S[q].entries[|h.store[d].entries|].0)
    requires Corr(S, cache, origin, v, S[q].entries[|h.store[d].entries|].1)
    modifies h
    ensures h.Valid() && Inv(h.store, S, cache, origin, pending)
    ensures h.store == old(h.store)[d := MapObj(old(h.store[d].entries) + [(k, v)])]
    ensures EntriesCorr(S, cache, origin, h.store[d].entries, S[q].entries)
  {
    var ys := h.store[d].entries;
    var es := S[q].entries;
    EntriesStep(S, cache, origin, ys, es, k, v);
    CorrIn(h.store, S, cache, origin, k, es[|ys|].0);
    CorrIn(h.store, S, cache, origin, v, es[|ys|].1);
    EntriesInAppend(ys, k, v, h.store.Keys);
    ghost var s1 := h.store;
    h.Write(d, MapObj(Put(ys, k, v)));
    InvWritePending(s1, S, cache, origin, pending, d, h.store[d]);
  }

  /** Clones element `i` of Set `q` and adds it to its pending copy `d`. */
  method CopyItem(h: Heap, q: Addr, d: Addr, i: nat, cache: map<Addr, Addr>, ghost S: map<Addr, Obj>,
                  ghost origin: map<Addr, Addr>, ghost pending: set<Addr>, ghost next: map<Addr, nat>, budget: nat)
    returns (ok: bool, cache': map<Addr, Addr>, ghost origin': map<Addr, Addr>)
    requires h.Valid() && Inv(h.store, S, cache, origin, pending)
    requires q in S && S[q].SetObj? && i < |S[q].items| && d in pending
    requires h.store[d].SetObj? && |h.store[d].items| == i
    requires ItemsCorr(S, cache, origin, h.store[d].items, S[q].items)
    requires Endless(S, next) && next.Keys !! cache.Keys
    modifies h
    decreases budget, 2
    ensures h.Valid() && d in h.store
    ensures PreservedBut(old(h.store), h.store, d)
    ensures ok ==>
      && Inv(h.store, S, cache', origin', pending)
      && Extends(S, cache, cache', origin, origin') && next.Keys !! cache'.Keys
      && h.store[d].SetObj? && |h.store[d].items| == i + 1
      && ItemsCorr(S, cache', origin', h.store[d].items, S[q].items)
    ensures Fits(S, cache.Keys, S[q].items[i], budget) ==> ok
  {
    var x := h.store[q].items[i];
    ghost var ys := h.store[d].items;
    var y;
    ok, y, cache', origin' := CloneChild(h, x, cache, S, origin, pending, next, budget);
    if !ok { return; }
    ItemsMono(S, cache, cache', origin, origin', ys, S[q].items);
    SetStep(S, cache', origin', ys, S[q].items, y);
    CorrIn(h.store, S, cache', origin', y, x);
    ItemsInAppend(ys, y, h.store.Keys);
    ghost var s1 := h.store;
    var items := h.store[d].items;
    h.Write(d, SetObj(SetAdd(items, y)));
    InvWritePending(s1, S, cache', origin', pending, d, h.store[d]);
    WriteKeeps(old(h.store), s1, h.store, d, h.store[d]);
    ok := true;
  }

  /** Clones the value of own property `i` of object `q` and assigns it, under
      the same key, on its pending copy `d`. */
  method CopyField(h: Heap, q: Addr, d: Addr, i: nat, cache: map<Addr, Addr>, ghost S: map<Addr, Obj>,
                   ghost origin: map<Addr, Addr>, ghost pending: set<Addr>, ghost next: map<Addr, nat>, budget: nat)
    returns (ok: bool, cache': map<Addr, Addr>, ghost origin': map<Addr, Addr>)
    requires h.Valid() && Inv(h.store, S, cache, origin, pending)
    requires q in S && S[q].Record? && i < |S[q].fields| && d in pending
    requires h.store[d].Record? && |h.store[d].fields| == i
    requires FieldsCorr(S, cache, origin, h.store[d].fields, S[q].fields)
    requires Endless(S, next) && next.Keys !! cache.Keys
    modifies h
    decreases budget, 2
    ensures h.Valid() && d in h.store
    ensures PreservedBut(old(h.store), h.store, d)
    ensures ok ==>
      && Inv(h.store, S, cache', origin', pending)
      && Extends(S, cache, cache', origin, origin') && next.Keys !! cache'.Keys
      && h.store[d].Record? && h.store[d].proto == old(h.store[d].proto) && |h.store[d].fields| == i + 1
      && FieldsCorr(S, cache', origin', h.store[d].fields, S[q].fields)
    ensures Fits(S, cache.Keys, S[q].fields[i].1, budget) ==> ok
  {
    var f := h.store[q].fields[i];
    ghost var s0 := h.store;
    ghost var ys := h.store[d].fields;
    var y;
    ok, y, cache', origin' := CloneChild(h, f.1, cache, S, origin, pending, next, budget);
    if !ok { return; }
    assert h.store[d] == s0[d];
    FieldsMono(S, cache, cache', origin, origin', ys, S[q].fields);
    ghost var s1 := h.store;
    AppendField(h, q, d, y, cache', S, origin', pending);
    WriteKeeps(s0, s1, h.store, d, h.store[d]);
    ok := true;
  }

  /** Assigns the cloned value `v` of the next own property on `d`. */
  method AppendField(h: Heap, q: Addr, d: Addr, v: Val, ghost cache: map<Addr, Addr>,
                     ghost S: map<Addr, Obj>, ghost origin: map<Addr, Addr>, ghost pending: set<Addr>)
    requires h.Valid() && Inv(h.store, S, cache, origin, pending)
    requires q in S && S[q].Record? && d in pending && h.store[d].Record?
    requires |h.store[d].fields| < |S[q].fields|
    requires FieldsCorr(S, cache, origin, h.store[d].fields, S[q].fields)
    requires Corr(S, cache, origin, v, S[q].fields[|h.store[d].fields|].1)
    modifies h
    ensures h.Valid() && Inv(h.store, S, cache, origin, pending)
    ensures h.store == old(h.store)[d := Record(old(h.store[d].proto),
                                              old(h.store[d].fields) + [(S[q].fields[|old(h.store[d].fields)|].0, v)])]
    ensures FieldsCorr(S, cache, origin, h.store[d].fields, S[q].fields)
  {
    var proto := h.store[d].proto;
    var ys := h.store[d].fields;
    var fs := S[q].fields;
    FieldsStep(S, cache, origin, ys, fs, v);
    CorrIn(h.store, S, cache, origin, v, fs[|ys|].1);
    FieldsInAppend(proto, ys, fs[|ys|].0, v, h.store.Keys);
    ghost var s1 := h.store;
    var k := h.store[q].fields[|ys|].0;
    h.Write(d, Record(proto, Put(ys, k, v)));
    InvWritePending(s1, S, cache, origin, pending, d, h.store[d]);
  }
}
