/** The JavaScript values and heap objects that `clone` and `merge` work on.

    A value is either a primitive, a function (passed around by identity) or a
    reference to a heap object. The heap is a class whose `store` maps
    addresses to objects; the kinds of object are the closed set that
    src/misc.ts dispatches on. */
module JsObjects {

  type Addr = nat

  /** A property key as returned by `Reflect.ownKeys`: a string or a symbol. */
  datatype Key = Name(name: string) | Symbol(id: nat)

  datatype Val =
    | Undefined
    | Null
    | Bool(b: bool)
    | Num(n: int)
    | Str(s: string)
    | Fn(id: nat)
    | Ref(addr: Addr)

  /** The prototype of an object created by `Object.create`. */
  datatype Proto = ObjectPrototype | NullPrototype | ClassPrototype(id: nat)

  /** Typed arrays have a `slice` method and a positive `BYTES_PER_ELEMENT`;
      a `DataView` has neither. */
  datatype ViewKind = TypedArray(bytesPerElement: nat) | DataView

  datatype Obj =
    | Date(time: int)
    | RegExp(source: string, flags: string)
    | MapObj(entries: seq<(Val, Val)>)
    | SetObj(items: seq<Val>)
    | Arr(elems: seq<Val>)
    | ArrayBuffer(bytes: seq<bv8>)
    | View(kind: ViewKind, buffer: seq<bv8>, byteOffset: nat, byteLength: nat)
    | Record(proto: Proto, fields: seq<(Key, Val)>)

  datatype Outcome<T> = Done(value: T) | StackOverflow

  // ----- keyed sequences: Map entries and own properties -----

  function KeysOf<K, V>(es: seq<(K, V)>): set<K> {
    set i | 0 <= i < |es| :: es[i].0
  }

  ghost predicate DistinctKeys<K, V>(es: seq<(K, V)>) {
    forall i, j :: 0 <= i < j < |es| ==> es[i].0 != es[j].0
  }

  ghost predicate Distinct<T>(xs: seq<T>) {
    forall i, j :: 0 <= i < j < |xs| ==> xs[i] != xs[j]
  }

  /** Position of key `k` in `es`, or `|es|` when it is absent. */
  function FindKey<K(==), V>(es: seq<(K, V)>, k: K): (i: nat)
    ensures i <= |es|
    ensures i < |es| ==> es[i].0 == k
    ensures forall j :: 0 <= j < i ==> es[j].0 != k
  {
    if es == [] then 0
    else if es[0].0 == k then 0
    else 1 + FindKey(es[1..], k)
  }

  lemma KeysOfAppend<K, V>(es: seq<(K, V)>, k: K, v: V)
    ensures KeysOf(es + [(k, v)]) == KeysOf(es) + {k}
  {
    var r := es + [(k, v)];
    assert r[|es|].0 == k;
    forall x | x in KeysOf(es) ensures x in KeysOf(r) {
      var j :| 0 <= j < |es| && es[j].0 == x;
      assert r[j].0 == x;
    }
  }

  /** `m.set(k, v)` on a Map, or `o[k] = v` on an object's own data
      properties: replace the value of an existing key in place, otherwise
      append the key at the end of the iteration order. */
  function Put<K(==), V>(es: seq<(K, V)>, k: K, v: V): (r: seq<(K, V)>)
    ensures KeysOf(r) == KeysOf(es) + {k}
    ensures DistinctKeys(es) ==> DistinctKeys(r)
    ensures k !in KeysOf(es) ==> r == es + [(k, v)]
    ensures k in KeysOf(es) ==> r == es[FindKey(es, k) := (k, v)]
    ensures forall j :: 0 <= j < |es| && es[j].0 != k ==> r[j] == es[j]
    ensures FindKey(r, k) < |r| && r[FindKey(r, k)].1 == v
  {
    var i := FindKey(es, k);
    if i == |es| then
      KeysOfAppend(es, k, v);
      es + [(k, v)]
    else
      var r := es[i := (k, v)];
      assert forall j :: 0 <= j < |r| ==> r[j].0 == es[j].0;
      assert KeysOf(r) == KeysOf(es);
      r
  }

  /** `set.add(x)`: a value already present is not added again. */
  function SetAdd<T(==)>(xs: seq<T>, x: T): (r: seq<T>)
    ensures x in r
    ensures Distinct(xs) ==> Distinct(r)
    ensures x !in xs ==> r == xs + [x]
    ensures x in xs ==> r == xs
  {
    if x in xs then xs else xs + [x]
  }

  /** Reading own property `k`: `undefined` when the object has no such key,
      otherwise the value of the first property under `k`. */
  function Get(fs: seq<(Key, Val)>, k: Key): (v: Val)
    ensures k !in KeysOf(fs) ==> v == Undefined
    ensures k in KeysOf(fs) ==>
      exists i :: 0 <= i < |fs| && fs[i] == (k, v) && forall j :: 0 <= j < i ==> fs[j].0 != k
  {
    var i := FindKey(fs, k);
    if i < |fs| then fs[i].1 else Undefined
  }

  // ----- well-formed objects and closed heaps -----

  /** What the JavaScript runtime guarantees of each object: Map keys, Set
      items and own keys are distinct, and a view lies inside its buffer. */
  ghost predicate WellFormed(o: Obj) {
    match o
    case MapObj(es) => DistinctKeys(es)
    case SetObj(xs) => Distinct(xs)
    case Record(_, fs) => DistinctKeys(fs)
    case View(_, buf, off, len) => off + len <= |buf|
    case _ => true
  }

  predicate ValIn(v: Val, addrs: set<Addr>) {
    v.Ref? ==> v.addr in addrs
  }

  /** Every reference held by `o` is in `addrs`. */
  ghost predicate ObjIn(o: Obj, addrs: set<Addr>) {
    match o
    case MapObj(es) => forall i :: 0 <= i < |es| ==> ValIn(es[i].0, addrs) && ValIn(es[i].1, addrs)
    case SetObj(xs) => forall i :: 0 <= i < |xs| ==> ValIn(xs[i], addrs)
    case Arr(xs) => forall i :: 0 <= i < |xs| ==> ValIn(xs[i], addrs)
    case Record(_, fs) => forall i :: 0 <= i < |fs| ==> ValIn(fs[i].1, addrs)
    case _ => true
  }

  lemma ObjInMono(o: Obj, a: set<Addr>, b: set<Addr>)
    requires ObjIn(o, a) && a <= b
    ensures ObjIn(o, b)
  {
  }

  lemma EntriesInAppend(es: seq<(Val, Val)>, k: Val, v: Val, addrs: set<Addr>)
    requires ObjIn(MapObj(es), addrs) && ValIn(k, addrs) && ValIn(v, addrs)
    ensures ObjIn(MapObj(es + [(k, v)]), addrs)
  {
  }

  lemma ItemsInAppend(xs: seq<Val>, x: Val, addrs: set<Addr>)
    requires ObjIn(SetObj(xs), addrs) && ValIn(x, addrs)
    ensures ObjIn(SetObj(xs + [x]), addrs) && ObjIn(Arr(xs + [x]), addrs)
  {
  }

  lemma FieldsInAppend(p: Proto, fs: seq<(Key, Val)>, k: Key, v: Val, addrs: set<Addr>)
    requires ObjIn(Record(p, fs), addrs) && ValIn(v, addrs)
    ensures ObjIn(Record(p, fs + [(k, v)]), addrs)
  {
  }

  /** Every object of `s0` is still in `s1`, unchanged. */
  ghost predicate Preserved(s0: map<Addr, Obj>, s1: map<Addr, Obj>) {
    forall a :: a in s0 ==> a in s1 && s1[a] == s0[a]
  }

  // ----- how deep the objects below a value go -----

  /** Every chain of references from `v` through `store` passes fewer than
      `k` objects: a primitive or a function needs `k > 0`, an object needs
      its children to be below `k - 1`. Only a value from which no cycle can
      be reached has a depth. */
  ghost predicate DepthBelow(store: map<Addr, Obj>, v: Val, k: nat)
    decreases k, 0
  {
    k > 0 && (v.Ref? ==> v.addr in store && ObjDepthBelow(store, store[v.addr], k - 1))
  }

  /** Every child of `o` is below `k`. */
  ghost predicate ObjDepthBelow(store: map<Addr, Obj>, o: Obj, k: nat)
    decreases k, 1
  {
    match o
    case MapObj(es) => forall i :: 0 <= i < |es| ==> DepthBelow(store, es[i].0, k) && DepthBelow(store, es[i].1, k)
    case SetObj(xs) => forall i :: 0 <= i < |xs| ==> DepthBelow(store, xs[i], k)
    case Arr(xs) => forall i :: 0 <= i < |xs| ==> DepthBelow(store, xs[i], k)
    case Record(_, fs) => forall i :: 0 <= i < |fs| ==> DepthBelow(store, fs[i].1, k)
    case _ => true
  }

  /** A depth bound survives a larger bound and a larger heap that keeps
      every object it had. */
  lemma {:induction false} DepthWeaken(s0: map<Addr, Obj>, s1: map<Addr, Obj>, v: Val, k: nat, k': nat)
    requires DepthBelow(s0, v, k) && Preserved(s0, s1) && k <= k'
    ensures DepthBelow(s1, v, k')
    decreases k, 0
  {
    if v.Ref? {
      ObjDepthWeaken(s0, s1, s0[v.addr], k - 1, k' - 1);
    }
  }

  lemma {:induction false} ObjDepthWeaken(s0: map<Addr, Obj>, s1: map<Addr, Obj>, o: Obj, k: nat, k': nat)
    requires ObjDepthBelow(s0, o, k) && Preserved(s0, s1) && k <= k'
    ensures ObjDepthBelow(s1, o, k')
    decreases k, 1
  {
    match o
    case MapObj(es) =>
      forall i | 0 <= i < |es| ensures DepthBelow(s1, es[i].0, k') && DepthBelow(s1, es[i].1, k') {
        DepthWeaken(s0, s1, es[i].0, k, k');
        DepthWeaken(s0, s1, es[i].1, k, k');
      }
    case SetObj(xs) =>
      forall i | 0 <= i < |xs| ensures DepthBelow(s1, xs[i], k') {
        DepthWeaken(s0, s1, xs[i], k, k');
      }
    case Arr(xs) =>
      forall i | 0 <= i < |xs| ensures DepthBelow(s1, xs[i], k') {
        DepthWeaken(s0, s1, xs[i], k, k');
      }
    case Record(_, fs) =>
      forall i | 0 <= i < |fs| ensures DepthBelow(s1, fs[i].1, k') {
        DepthWeaken(s0, s1, fs[i].1, k, k');
      }
    case _ =>
  }

  // ----- the kind tests that clone and merge use -----

  /** `isPlainObject`: an object whose prototype is `Object.prototype` or
      `null`. Arrays, Maps, Dates, class instances and non-objects are not. */
  predicate IsPlainObject(store: map<Addr, Obj>, v: Val) {
    v.Ref? && v.addr in store && store[v.addr].Record?
    && (store[v.addr].proto == ObjectPrototype || store[v.addr].proto == NullPrototype)
  }

  /** Only records with the default or no prototype are plain: an array, a
      Map, a Date, a class instance and every primitive are not. */
  lemma PlainObjectKinds(store: map<Addr, Obj>, v: Val)
    ensures IsPlainObject(store, v) ==>
              && v.Ref? && v.addr in store && !store[v.addr].Arr? && !store[v.addr].MapObj?
              && !store[v.addr].Date? && !store[v.addr].proto.ClassPrototype?
    ensures (v.Ref? && v.addr in store && store[v.addr].Record? && !store[v.addr].proto.ClassPrototype?) ==>
              IsPlainObject(store, v)
  {
  }

  /** `Array.isArray`. */
  predicate IsArray(store: map<Addr, Obj>, v: Val) {
    v.Ref? && v.addr in store && store[v.addr].Arr?
  }

  /** The bytes a view shows: `byteLength` bytes from `byteOffset`. */
  function ViewedBytes(o: Obj): seq<bv8>
    requires o.View? && WellFormed(o)
  {
    o.buffer[o.byteOffset..o.byteOffset + o.byteLength]
  }

  /** The length argument the clone passes to a view constructor:
      the element count when `BYTES_PER_ELEMENT` is a positive number,
      otherwise the byte length. */
  function CtorLength(o: Obj): (n: nat)
    requires o.View?
    ensures o.kind.TypedArray? && o.kind.bytesPerElement > 0 ==>
      n * o.kind.bytesPerElement <= o.byteLength < (n + 1) * o.kind.bytesPerElement
    ensures !(o.kind.TypedArray? && o.kind.bytesPerElement > 0) ==> n == o.byteLength
  {
    if o.kind.TypedArray? && o.kind.bytesPerElement > 0 then o.byteLength / o.kind.bytesPerElement
    else o.byteLength
  }

  /** The copy of a view: a typed array's own `slice()` copies just the viewed
      bytes into a new buffer at offset 0; a view without `slice` (a DataView)
      is rebuilt over a copy of its whole buffer with the same offset and the
      constructor length. */
  function CopyView(o: Obj): (c: Obj)
    requires o.View? && WellFormed(o)
    ensures c.View? && WellFormed(c) && c.kind == o.kind && c.byteLength == o.byteLength
    ensures ViewedBytes(c) == ViewedBytes(o)
  {
    if o.kind.TypedArray? then View(o.kind, ViewedBytes(o), 0, o.byteLength)
    else View(o.kind, o.buffer, o.byteOffset, CtorLength(o))
  }

  /** The JavaScript heap: objects by address, and the next free address. */
  class Heap {
    var store: map<Addr, Obj>
    var next: Addr

    ghost predicate Valid()
      reads this
    {
      && (forall a :: a in store ==> a < next)
      && (forall a :: a in store ==> WellFormed(store[a]) && ObjIn(store[a], store.Keys))
    }

    constructor ()
      ensures Valid() && store == map[]
    {
      store := map[];
      next := 0;
    }

    /** Allocates a new object at an address not used before. */
    method Alloc(o: Obj) returns (a: Addr)
      requires Valid() && WellFormed(o) && ObjIn(o, store.Keys)
      modifies this
      ensures Valid()
      ensures a !in old(store) && store == old(store)[a := o]
    {
      a := next;
      ghost var before := store.Keys;
      store := store[a := o];
      next := next + 1;
      forall x | x in store
        ensures ObjIn(store[x], store.Keys)
      {
        if x != a { ObjInMono(store[x], before, store.Keys); }
        else { ObjInMono(o, before, store.Keys); }
      }
    }

    /** Replaces the contents of an existing object. */
    method Write(a: Addr, o: Obj)
      requires Valid() && a in store && WellFormed(o) && ObjIn(o, store.Keys)
      modifies this
      ensures Valid()
      ensures store == old(store)[a := o]
    {
      store := store[a := o];
      assert store.Keys == old(store).Keys;
    }
  }
}
