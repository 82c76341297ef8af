# Deep clone, merge and string validators of a TypeScript utility library

This project models two files of a small TypeScript utility library in Dafny
and proves what they do.

- `src/misc.ts`: `clone` and `merge`.
  - `clone` (`cloneWithCache` with a fresh identity cache) deep-copies Dates,
    RegExps, Maps, Sets, arrays, ArrayBuffers, typed arrays and DataViews, and
    other objects with their prototype. Primitives and functions are returned
    as they are.
  - `merge(target, ...sources)` folds the own properties of plain sources
    into a result object.
- `src/is.ts`: the validators `isDef`, `isHexColor`, `isPhoneNo`, `isDigits`,
  `isPercentage`, `isNumber`, `isEmpty` and `isNoEmpty`.

The model has six files:

- `objects.dfy` (module `JsObjects`): JavaScript values, and the heap as a
  class whose `store` maps addresses to objects. A Map's entries, a Set's
  items and an object's own properties are sequences in iteration order.
  `isPlainObject` is a predicate: a record whose prototype is
  `Object.prototype` or `null`. `DepthBelow` bounds how many objects a chain
  of references from a value can pass.
- `clone.dfy` (module `Cloner`): `cloneWithCache` as an imperative method
  over that heap.
  - It has one method per branch, and a loop per `forEach`/`map`/`ownKeys`
    walk.
  - The identity cache is a real `map<Addr, Addr>` threaded through the calls.
  - A `budget` of call frames models the host's stack. Running out gives
    `StackOverflow`, the RangeError.
  - `Fits` counts the frames a clone needs, given what the cache holds. Two
    bounds are proved to suffice: a depth bound on the value, and a bound
    from the number of objects for a heap whose arrays can be ranked, that
    is, where no cycle runs through array elements alone.
- `clone_facts.dfy` (module `CloneFacts`): what a finished clone guarantees,
  free of proof bookkeeping:
  - it looks like the source at every depth and shares no object with it;
  - shared objects and self references stay shared;
  - own keys and the prototype are kept.
- `depth.dfy` (module `Depths`): depth bounds that also say which objects a
  value never reaches. They are what makes `merge` provably finish: the
  objects it builds never lead back to the output it is still writing.
- `merge.dfy` (module `Merger`): `merge` as imperative methods over the same
  heap.
- `validators.dfy` (module `Validators`): each anchored regular expression is
  a scanning function. A lemma proves it equal to an independent description:
  the expression's own structure, or an arithmetic one. `isEmpty` and
  `isNoEmpty` are functions over a small value type.

Three behaviours of the code, as written, are modelled rather than hidden:

- **Arrays are cached after their elements.** Maps, Sets and other objects
  enter the cache before their children are cloned, so a cycle through them
  comes back to the copy. An array enters the cache only after `map` has
  cloned all its elements (src/misc.ts:73-77). As a result:
  - an array that lies on a cycle through array elements alone (an array
    that holds itself, or two arrays that hold each other) recurses until
    the stack runs out. `Cloner.Clone` proves it ends in `StackOverflow`.
  - a cycle that passes through a non-array object terminates.
    `Cloner.Clone` proves the outcome is `Done` for every heap whose arrays
    can be ranked, given enough frames.
  - on such a cycle the array may be copied more than once. This is not
    proved: the model states only that an array child corresponds to *some*
    copy of its source.
- **`merge` returns a new object.** Its result is `clone(target)` or `{}`
  (src/misc.ts:131), never `target`. It writes no existing object.
  - The repository's tests expect the result to be `target` and `target` to
    be updated in place (test/misc.test.ts:50, 68-69, 79-82, 88-91).
  - The model follows the code: `Merger.Merge` proves the result is fresh
    and that every earlier object, `target` included, is unchanged.
- **`merge` clones every array item separately.** Each item is cloned with
  its own cache (src/misc.ts:142). The model clones each item with
  `Cloner.Clone` on its own; that sharing between items is then lost is not
  stated as a lemma.

## Model

| member | source | states |
|---|---|---|
| `JsObjects.Put` | src/misc.ts:107 | Assigning an own property (or `Map.set`) adds the key to the key set, and the key then reads back the new value. An existing key keeps its place; a new key goes at the end. Distinct keys stay distinct. |
| `JsObjects.SetAdd` | src/misc.ts:69 | `Set.add` makes the value a member and keeps the items distinct. A value not yet present is appended at the end. |
| `JsObjects.Get` | src/misc.ts:139 | Reading own key `k` gives `undefined` when the object has no such key, and otherwise the value of the first property under `k`. |
| `JsObjects.IsPlainObject` | src/misc.ts:131-146 | `isPlainObject`, whose definition is not part of this model: a reference to a record whose prototype is `Object.prototype` or `null`. Its meaning is checked against the tests by `JsObjects.PlainObjectKinds`. |
| `JsObjects.PlainObjectKinds` | test/is.test.ts:120-126 | `isPlainObject` holds of a record with the default or no prototype, and of nothing else. Arrays, Maps, Dates, class instances and primitives are not plain. |
| `JsObjects.CtorLength` | src/misc.ts:87-89 | The length passed to a view constructor is the element count, the byte length divided by a positive `BYTES_PER_ELEMENT` and rounded down; with no such number it is the byte length. |
| `JsObjects.CopyView` | src/misc.ts:85-101 | A view's copy has the same kind and byte length and shows the same bytes. A typed array is sliced to a new buffer; a DataView is rebuilt over a copy of its buffer at the same offset. |
| `Cloner.CloneWithCache` | src/misc.ts:26-43 | Null, primitives and functions are returned unchanged, and nothing is allocated or cached. A cached source returns its cached copy, also with nothing changed. Any other reference returns an object that did not exist before; it copies the source, and the cache maps the source to it. No object that existed before is written. It fails with a stack overflow when no frame is left, and always on an uncached array from which array elements lead on forever. It succeeds whenever the value `Fits` the budget given the cache: one frame per call, with each object other than an array cached before its children. |
| `Cloner.CloneObject` | src/misc.ts:45-109 | An uncached object is copied by the branch that fits its kind, with that branch's guarantees. It overflows on an array from which array elements lead on forever, and succeeds when the object's children fit the remaining frames, the object itself cached unless it is an array. |
| `Cloner.CloneLeaf` | src/misc.ts:45-55 | A Date, RegExp, ArrayBuffer or view is copied into a new object with the same timestamp, pattern and flags, or bytes (lines 79-83 for buffers). The copy is entered into the cache. |
| `Cloner.CloneMap` | src/misc.ts:57-64 | A Map is copied to a new Map that is cached before its entries are cloned. It has the same number of entries in the same order, and entry i's key and value copy entry i's key and value. |
| `Cloner.CopyEntries` | src/misc.ts:59-63 | The `forEach` over a Map: on success the pending copy holds as many entries as the source, entry i's key and value copying entry i's, and only the copy has been written. It succeeds when every key and value fits the remaining frames. |
| `Cloner.CloneSet` | src/misc.ts:66-71 | A Set is copied to a new Set that is cached first. It has the same number of items in the same order, and item i copies item i. |
| `Cloner.CopyItems` | src/misc.ts:68-69 | The `forEach` over a Set: on success the pending copy holds as many items as the source, item i copying item i, and only the copy has been written. It succeeds when every item fits the remaining frames. |
| `Cloner.CloneArray` | src/misc.ts:73-77 | An array is copied to a new array of the same length whose element i copies element i. It is cached only after its elements. It overflows when array elements lead on forever from it, and succeeds when its elements fit the remaining frames with the cache as it was. |
| `Cloner.CloneItems` | src/misc.ts:74 | The `map` over an array's elements clones each one in order, so the result has the same length and item i copies element i. It never completes when array elements lead on forever from the array, and completes when every element fits. |
| `Cloner.CloneItem` | src/misc.ts:74 | One call of the `map` callback: the next element is cloned and appended. It fails on the element through which the array leads on forever, and succeeds when that element fits. |
| `Cloner.CloneRecord` | src/misc.ts:104-109 | Any other object is copied to a new object with the same prototype, cached first. Its own keys are the same, in the same order, and each value copies the source's value. |
| `Cloner.CopyFields` | src/misc.ts:105-108 | The `ownKeys` loop: on success the pending copy keeps the source's prototype and holds its own keys in order, value i copying value i, and only the copy has been written. It succeeds when every value fits the remaining frames. |
| `Cloner.Clone` | src/misc.ts:117-119 | `clone` starts from an empty cache. Every object that existed before is left as it was. A non-reference comes back as itself; a reference comes back as a fresh object that copies it. It overflows on any array that lies on a cycle of arrays, or from which array elements lead on forever. It succeeds when no chain of references from the value passes `budget` objects, and also, for a heap whose arrays can be ranked so that an array element has a smaller rank than its array, when the budget is at least the number of objects times (top rank + 1), plus top rank + 1. |
| `Cloner.CycleEndless` | src/misc.ts:73-77 | An array on a cycle that runs through array elements alone (it holds itself, or arrays that hold each other) is one from which array elements lead on forever. |
| `Cloner.FitsMono` | src/misc.ts:41-43 | The more the cache holds, the fewer frames a clone needs: a value that fits with cache `C` fits with any larger cache. |
| `Cloner.DepthFits` | src/misc.ts:26-109 | A value from which no chain of references passes `k` objects fits in `k` frames, whatever the cache holds. |
| `Cloner.RankedFits` | src/misc.ts:41-109 | In a heap whose arrays are ranked, with every array element of an array ranked lower, a value fits in a number of frames that grows with the number of uncached objects: each object other than an array is cached before its children, so between two of them the stack holds only arrays of falling rank. |
| `Cloner.CopyEntry` | src/misc.ts:60-62 | One step of the Map's `forEach`: the key and then the value of entry i are cloned and appended to the pending copy. Only the copy is written. |
| `Cloner.CopyItem` | src/misc.ts:69 | One step of the Set's `forEach`: item i is cloned and added to the pending copy. Only the copy is written. |
| `Cloner.CopyField` | src/misc.ts:106-108 | One step of the `ownKeys` loop: the value of own property i is cloned and assigned under the same key on the pending copy. Only the copy is written. |
| `CloneFacts.CloneIsCopy` | src/misc.ts:41-109 | A finished clone of a reference is a new object. It has the same kind as the source object and the same scalar content, and its children correspond in order. |
| `CloneFacts.CloneDeepEqual` | test/misc.test.ts:26-40 | After `clone`, the result looks like the source at every depth: the same kinds, timestamps, patterns, flags, bytes, keys, lengths and order. No object of the result is an object of the source. |
| `CloneFacts.SharingKept` | src/misc.ts:41-43 | Two references to the same source object that is not an array become references to one and the same copy. |
| `CloneFacts.SelfReferenceKept` | test/misc.test.ts:38-39 | A Map, Set or object that refers to itself is copied into one that refers to its own copy. |
| `CloneFacts.SameOwnKeys` | src/misc.ts:104-108 | The copy of an object has exactly the source's own keys, with no repeats, and the same prototype. |
| `Depths.DeepFresh` | src/misc.ts:117-119 | A copy that looks like a source of bounded depth at every depth is of the same depth, and reaches no object of the heap the source lived in. |
| `Depths.NoCycle` | src/misc.ts:146-147 | The children of an object of bounded depth never lead back to that object. |
| `Depths.CloneRootAvoids` | src/misc.ts:131 | The clone of an object other than an array, of bounded depth, has children of one level less that reach neither the old heap nor the clone itself. |
| `Merger.Merge` | src/misc.ts:127-156 | The result is a plain record that did not exist before. Its prototype is the target's when the target is plain, and `Object.prototype` otherwise. Its own keys are exactly the target's keys (if it is plain) together with the own keys of every plain source. No existing object is written, neither target nor any source. It overflows with no frame left, and it finishes whenever the plain target and plain sources are of bounded depth below the budget, with a result of that depth that reaches no earlier object. |
| `Merger.MergeNext` | src/misc.ts:133-136 | One round of the loop over the sources: a plain source is folded into the output, and any other source is skipped. The output gains exactly that source's own keys and keeps its prototype, no earlier object is written, and a bounded merge never stops here. |
| `Merger.SourceKeysSpec` | src/misc.ts:133-137 | A key comes from the sources exactly when some plain source has it as an own key. Sources that are not plain contribute nothing. |
| `Merger.NewOutput` | src/misc.ts:131 | For a plain target, the starting object is a fresh copy: the target's prototype, the same number of own properties, and property i has the target's key i and a value that looks like the target's at every depth. For any other target it is exactly `{}` (default prototype, no properties). The copy of a bounded target is made within the frames and reaches no earlier object. |
| `Merger.MergeSource` | src/misc.ts:137-152 | Folding one plain source adds exactly its own keys to the result and keeps the result's prototype. No other object is written. When the source is of bounded depth and does not reach the output, it finishes and the output's values still avoid the given addresses. |
| `Merger.MergeStep` | src/misc.ts:137-152 | One round of the loop over a source's own keys: the output gains the source's key `j`, keeps its prototype, and nothing but the output changes; a bounded fold never stops here. |
| `Merger.MergeField` | src/misc.ts:137-139 | One own property of a plain source: the output becomes the old output with the merged value assigned under the source's key (existing keys keep their place), and that value is the merged value of what the output held under the key and what the source brings. The key joins the output's keys, the prototype is kept, and no object but the output changes. A bounded property is always merged. |
| `Merger.MergeKey` | src/misc.ts:138-152 | One key: only the output object changes, and under `key` it now holds the merged value of the existing and incoming values, the other keys kept. When the incoming value is of bounded depth, it finishes, and the output's values still avoid the given addresses. |
| `Merger.NewValue` | src/misc.ts:141-151 | Arrays on both sides give a fresh array of copies of the existing items followed by the incoming ones. Plain objects on both sides give a fresh record with the existing prototype and the union of the keys. Anything else gives a copy of the incoming value that looks like it at every depth. With both values of bounded depth it finishes, and the new value reaches no earlier object. |
| `Merger.CloneAll` | src/misc.ts:142 | A fresh array of the same length as the input, whose item i looks like input item i at every depth. It succeeds when every item is of depth below the budget. |
| `Validators.IsHexColor` | src/is.ts:16-18 | The scan for `isHexColor`: an optional `#`, then three or six hex digits. Its meaning is proved by `Validators.HexColorPattern`. |
| `Validators.HexColorPattern` | src/is.ts:16-18 | Accepted exactly: three or six hex digits in either case, optionally preceded by `#`. |
| `Validators.HexColorExamples` | test/is.test.ts:36-38 | `#fff` and `123ABC` are colours and `#abcd` is not. |
| `Validators.IsPhoneNo` | src/is.ts:44-46 | The scan for `isPhoneNo`: `1`, a digit from 3 to 9, then nine digits. Its meaning is proved by `Validators.PhoneNoAsNumber`. |
| `Validators.PhoneNoAsNumber` | src/is.ts:44-46 | Accepted exactly: eleven digits whose value lies from 13000000000 to 19999999999. |
| `Validators.IsDigits` | src/is.ts:93-95 | The scan for `isDigits`: one or more decimal digits. Its meaning is proved by `Validators.DigitsAreNumerals`. |
| `Validators.DigitsAreNumerals` | src/is.ts:93-95 | Accepted exactly: some leading zeros followed by the canonical decimal of a natural number. |
| `Validators.IsPercentage` | src/is.ts:102-105 | The scan for `isPercentage`: `0`, or a digit from 1 to 9 followed by digits, then `%`. Its meaning is proved by `Validators.PercentageIsCanonical`. |
| `Validators.PercentageIsCanonical` | src/is.ts:102-105 | Accepted exactly: the canonical decimal of a natural number followed by `%`. So there is no leading zero except in `0%`. |
| `Validators.PhoneNoExamples` | test/is.test.ts:46-47 | `13812345678` is a phone number and `12812345678` is not. |
| `Validators.NumeralExamples` | test/is.test.ts:63-67 | `12345` is a digit string and `12a45` is not; `0%` is a percentage, but `05%` and `100` are not. |
| `Validators.IsGroups` | src/is.ts:113 | `(?:,\d{3})*` matches exactly the strings whose length is a multiple of four, with a comma at every fourth position and digits elsewhere. |
| `Validators.IsNumber` | src/is.ts:112-114 | The scan for `isNumber`: an optional `-`, an integer part that is a digit run or grouped by commas, then optionally a fraction. Its meaning is proved by `Validators.NumberAgree`. |
| `Validators.NumberAgree` | src/is.ts:112-114 | Accepted exactly: an optional `-`, then an integer part that is a run of digits or one to three digits followed by complete comma groups, then optionally `.` and digits. |
| `Validators.GroupedExample` | test/is.test.ts:69 | `-1,234.56` is a number. |
| `Validators.IncompleteGroupExample` | test/is.test.ts:70 | `1,23` is not a number: the last group is short. |
| `Validators.Trim` | src/is.ts:185 | `trim` as the regular expression of the string case: the leading and then the trailing blanks removed. Proved by `Validators.TrimStart`, `Validators.TrimEnd` and `Validators.TrimEmpty`. |
| `Validators.TrimStart` | src/is.ts:185 | The leading-blank alternative removes exactly the longest prefix of spaces, tabs and line breaks. |
| `Validators.TrimEnd` | src/is.ts:185 | The trailing-blank alternative removes exactly the longest suffix of spaces, tabs and line breaks. |
| `Validators.TrimEmpty` | src/is.ts:185 | A string trims to nothing exactly when every character is a space, tab, line feed or carriage return. |
| `Validators.IsEmpty` | src/is.ts:180-207 | The `switch` of `isEmpty`. Its cases are proved by `Validators.EmptyCases`. |
| `Validators.EmptyCases` | src/is.ts:180-207 | `isEmpty` is true exactly for `undefined`, `null`, a blank string, `false`, `0`, and an object whose `length` is 0 or that has no enumerable key. |
| `Validators.EmptyExamples` | test/is.test.ts:98-108 | Blank strings, `false`, `0`, `[]` and `{}` are empty; `'value'`, `[1]` and `{ a: 1 }` are not. |
| `Validators.IsNoEmpty` | src/is.ts:214-216 | `isNoEmpty` is the negation of `isEmpty`. Its cases are proved by `Validators.NoEmptyCases`. |
| `Validators.NoEmptyCases` | src/is.ts:214-216 | `isNoEmpty` is true exactly for a string with a non-blank character, `true`, a non-zero number, a function, and an object with a non-zero or absent `length` and an enumerable key. |
| `Validators.IsDef` | src/is.ts:9 | `isDef` rejects exactly `undefined`, `null` and `''`. That every value it rejects is empty is proved by `Validators.UndefinedIsEmpty`. |
| `Validators.UndefinedIsEmpty` | src/is.ts:9 | Every value `isDef` rejects (`undefined`, `null`, `''`) is empty. The converse fails: `0` and `false` are defined yet empty. |

## Left out

- The `structuredClone` fast path (src/misc.ts:24, 32-39): it is a host
  built-in. The model is the fallback that runs when it is absent.
- Getters, setters, non-enumerable and accessor properties, and assigning a
  `__proto__` key: every own property is a plain data property.
- Instances of subclasses of the built-ins, sparse arrays and holes, and
  extra own properties on Maps, Sets, arrays, Dates and views.
- Aliasing between views and buffers: a view carries its own copy of its
  buffer's bytes. Two views of one buffer are not linked.
- The order `Reflect.ownKeys` imposes (integer keys first, symbols last):
  the model keeps the object's own sequence of keys.
- Floating point and NaN: numbers are integers, a Date's time is an integer,
  and `byteLength / BYTES_PER_ELEMENT` is an integer division.
- Stack depth: the real limit is the host's. Here it is the `budget`
  parameter, one unit per call of `cloneWithCache` or `merge`; the clones
  `merge` makes start one unit lower than `merge` itself.
- Objects that inherit a built-in's prototype without being that built-in,
  such as `Object.create(Map.prototype)`: the code takes the `Map` branch
  (src/misc.ts:57, `instanceof`) and `forEach` throws. The model tells
  kinds apart by what an object is, so such an object is a record with a
  class prototype and is copied through the generic branch.
- The definition of `isPlainObject` is not part of this model's source
  files; the predicate follows its tests (test/is.test.ts:120-126).
- Cloner.CloneWithCache: for a source array reached as a child, it states
  only that the child is *some* copy of that array, not which. The code may
  copy one array several times (see above).
- Merger.NewValue: for plain objects on both sides, it states the prototype
  and the key set of the recursively merged object, not the value under
  each key.
- Merger.Merge: it states the result's prototype and key set. The value
  under each key is stated one key at a time by `Merger.MergeKey` and
  `Merger.MergeField`.
- Merger.Merge: it is proved to finish when the plain target and sources
  are of bounded depth. That it never finishes on some cyclic inputs (a
  target and a source that each hold themselves under the same key, so that
  src/misc.ts:146-147 recurses on them again and again) is not proved.
- Merger.MergeNext: like `Merger.Merge`, it states keys and prototype, not
  the values under the keys.
- Merger.MergeSource: it states the key set, the prototype and the frame,
  not the value under each key after the loop. Each value is stated when it
  is written, by `Merger.MergeField`; carrying it across later writes of
  the same key is not done.
- Merger.MergeStep: like `Merger.MergeSource`, it keeps the key set and
  prototype, not the value written.
- The tests that expect `merge` to update `target` in place and to return
  it, including the Proxy test: the code does neither, and the model follows
  the code.
- A property read through the prototype chain by `output[key]` is taken to
  be absent: only own properties are read.
- `delay`, `debounce` and `throttling`: they depend on timers and the clock.
- `isEqual` (a foreign library), `isEmail`, `isUrl`, `isImage`,
  `isDocument`, `isDate` (host date parsing) and `isContains`.
- The `typeof` checks (`isString`, `isObject` and the rest): they have no
  logic beyond the host's type tags.
- `RegExp.test` on a non-string: the validators take strings. Coercion such
  as `isNumber(1234)` turning the number into `"1234"` is not modelled.
- `isEmpty` on NaN, bigint and symbol: numbers are integers, and the model
  has no bigints or symbols among its values.
- The event emitter (mitt) and the lint configuration.
