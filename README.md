# ValMap, modelled in Dafny

`ValMap` is a JavaScript `Map` subclass keyed by value rather than by
reference. Each `get`, `set`, `has` and `delete` first computes a hash for the
caller's key (`_getKeyHash`). It then looks up the canonical key registered
for that hash in the plain-object registry `keyStore`. Finally it calls the
inherited reference-keyed `Map` operation with that canonical key. The first
key stored under a hash becomes canonical, later equal keys only overwrite the
value, and `delete` clears the slot.

The project:

- `wrappers.dfy`: `Option` and `Result`.
- `hashing.dfy`: the `Key` datatype (`Null`, `Undefined`, or a value with its
  reference identity, optional `getValMapHash` result, optional overridden
  `toString` result and `JSON.stringify` text), the `Hash` datatype
  (`null`, `undefined` or a string), `KeyHash` (the precedence rule of
  `_getKeyHash`) and `SlotName` (JavaScript's coercion of a hash to a property
  name: `null` to "null", `undefined` to "undefined").
- `backing_map.dfy`: the inherited `Map`, as an insertion-ordered sequence of
  (key, value) entries with `Get`, `Has`, `Put` (`Map.prototype.set`) and
  `Remove` (`Map.prototype.delete`).
- `registry.dfy`: the state as a value (`Store`: registry and backing map)
  and each operation as a function of it, plus the two invariants. One
  invariant, `WellFormed`, says the backing map's keys are distinct and every
  one of them other than `undefined` is registered. The other, `Coherent`,
  says every canonical key sits in its own hash's slot, which holds while
  `disableToStringHash` is not changed.
- `properties.dfy`: lemmas relating the operations: lookups by value, first
  writer wins, delete, clear, the undefined-key fallback, seeding.
- `valmap.dfy`: class `ValMap` with the fields `keyStore`, `backing`,
  `disableToStringHash` and `preventUndefinedKey`. The methods `Get`, `Has`,
  `Set` and `Delete`, and the constructor path `Create`/`SetEach`, mirror
  index.js statement by statement. `Clear` and the function `Size` stand for
  the members inherited from `Map`, which index.js does not override. Each
  method is proved to follow the matching function of the Registry module.
  `Set`, `Delete`, `Clear` and `SetEach`, the methods that change state, are
  also proved to keep `WellFormed`.

Behaviour of index.js worth knowing:

- The registry is a plain object, so the hashes `null` and `undefined` share a
  slot with the string hashes "null" and "undefined"
  (`Properties.NullSharesSlotWithNullText`). A value-keyed lookup of `null`
  therefore can collide with a key whose hash is the text "null".
- `set` treats a slot as empty when it reads `undefined`. A slot that holds the
  undefined key (after `set(undefined, v)` with `preventUndefinedKey` off) is
  taken over by the next key whose hash is "undefined". So the first writer
  does not win there (`Properties.UndefinedCanonicalReplaced`).
- Registry slots and backing entries are not one-to-one. `clear` keeps every
  slot, and changing `disableToStringHash` can register one key in two slots.
  What does hold is `WellFormed`, and while the flag is fixed, one backing
  entry per hash (`Registry.OneEntryPerHash`).

## Model

| member | source | states |
|---|---|---|
| Hashing.KeyHash | index.js:25-37 | `null` and `undefined` hash to themselves and nothing else does; otherwise `getValMapHash` wins, then an overridden `toString` unless `disableToStringHash`, then the JSON text |
| Hashing.SlotNameCollision | index.js:41 | two hashes share a registry slot iff they are equal or are `null`/"null" or `undefined`/"undefined" |
| Hashing.FlagAffectsOnlyToStringKeys | index.js:33-36 | `disableToStringHash` changes a key's hash iff the key has no `getValMapHash` and an overridden `toString` whose text differs from its JSON |
| BackingMap.IndexOf | index.js:42 | the position found is the first entry for the key, and -1 exactly when the key has no entry |
| BackingMap.Get | index.js:42 | `Map.get` yields a value iff the key has an entry, and that (key, value) entry is in the map |
| BackingMap.Has | index.js:61 | `Map.has` is true iff the key has an entry |
| BackingMap.Put | index.js:55 | after `Map.set`, the key maps to the new value and every other key to its old one; the key set gains the key; the size grows by one iff the key was new; other entries keep their place; distinct keys stay distinct |
| BackingMap.Remove | index.js:68 | after `Map.delete`, the size drops by one iff the key had an entry; other keys keep their values; with distinct keys the key is gone |
| BackingMap.DistinctCount | index.js:1 | with distinct keys, `size` equals the number of keys |
| Registry.Get | index.js:39-43 | `get` yields a value iff the resolved canonical key has an entry, and it is that entry's value; an unregistered hash falls back to the entry keyed `undefined` |
| Registry.Has | index.js:58-62 | `has(key)` iff `get(key)` yields a value |
| Registry.Set | index.js:45-56 | throws `InvalidKey` iff the key is `undefined` and `preventUndefinedKey`; otherwise `get(key)` is the value, the slot's old canonical key is kept unless it read `undefined`, other slots are unchanged, and the size grows iff the canonical key had no entry |
| Registry.Delete | index.js:64-69 | reports whether `has(key)` held; removes exactly the key's slot; the size drops by one iff an entry existed; the canonical key's entry is gone; entries of other canonical keys are untouched |
| Registry.Clear | index.js:1 | the inherited `clear` keeps the registry, empties the backing map, every `get` misses |
| Registry.Seed | index.js:14-21 | seeding only adds registry slots and adds at most one entry per pair |
| Registry.SetPreservesWellFormed | index.js:50-55 | `set` keeps backing keys distinct and registered |
| Registry.DeletePreservesWellFormed | index.js:65-68 | `delete` keeps backing keys distinct and registered |
| Registry.SetPreservesCoherent | index.js:50-53 | with the flag fixed, `set` registers a key only in its own hash's slot |
| Registry.DeletePreservesCoherent | index.js:67 | `delete` keeps every remaining canonical key in its own slot |
| Registry.SeedPreservesInvariants | index.js:14-18 | seeding keeps both invariants |
| Registry.OneEntryPerHash | index.js:50-55 | while `disableToStringHash` is unchanged since the keys were registered (`Coherent`), two distinct backing keys other than `undefined` never share a hash slot: `keys()`, `values()` and `entries()` hold one element per hash |
| Properties.SetGetFrame | index.js:39-56 | after `set(a, v)`, `get(b)` is `v` iff `b` resolves to `a`'s canonical key, and is unchanged otherwise |
| Properties.SetThenGetEqualKey | index.js:39-56 | after `set(a, v)`, every `b` with the same hash gets `v` and `has(b)` holds |
| Properties.SetEqualKeyOverwrites | index.js:50-55 | a second `set` with an equal-hash key keeps the registry and the canonical key, overwrites the value, and does not grow the size |
| Properties.SetDistinctKeysNoCrossTalk | index.js:39-56 | for keys in different registry slots, with `disableToStringHash` unchanged since the registered keys were stored (`Coherent`), `set(a, v1); set(b, v2)` leaves `get(a) == v1` and `get(b) == v2`; this includes the undefined key when `preventUndefinedKey` is off |
| Properties.DeleteEqualKey | index.js:64-69 | `delete(b)` for a stored equal key reports true, clears the slot, shrinks the size by one, and, when no entry is keyed `undefined`, `has(a)` is false afterwards |
| Properties.DeleteGetFrame | index.js:64-69 | after `delete(key)`, `get(other)` is unchanged for every `other` in a different slot whose canonical key differs from `key`'s |
| Properties.ClearThenSetReusesCanonical | index.js:50-55 | after `clear`, `set` of an equal key stores the value under the old canonical key |
| Properties.UndefinedKeyFalsePositive | index.js:10-12 | with `preventUndefinedKey` off, after `set(undefined, v)` a never-registered key's `get` is `v`, the same as `get(undefined)` |
| Properties.SetUndefinedThrows | index.js:46-49 | `set(undefined, v)` throws `InvalidKey` with the guard on and succeeds with it off |
| Properties.UndefinedCanonicalReplaced | index.js:51-53 | a slot holding the undefined key is taken over by the next key hashing to "undefined" |
| Properties.NullSharesSlotWithNullText | index.js:41 | a key hashing to "null" reads the value stored for `null` |
| Properties.SeedFailsIffUndefinedKey | index.js:14-18 | seeding throws iff `preventUndefinedKey` and some pair's key is `undefined` |
| Properties.SeedSnoc | index.js:16-18 | seeding with one more pair is seeding, then `set` of that pair |
| Properties.SeedLastPairWins | index.js:16-18 | when seeding succeeds up to a last pair whose key is not a refused `undefined`, the whole seeding succeeds, the last pair's value is found for its key, and an earlier canonical key for that hash stays canonical |
| ValMaps.ValMap.constructor | index.js:2-12 | a new map is empty, `disableToStringHash` is false and `preventUndefinedKey` is true |
| ValMaps.ValMap.Create | index.js:2-22 | a falsy argument gives an empty map; a non-iterable one throws; pairs give the store `Seed` computes, or its error |
| ValMaps.ValMap.SetEach | index.js:16-18 | the loop leaves the state `Seed` computes, or stops with its error |
| ValMaps.ValMap.Get | index.js:39-43 | returns `Registry.Get` of the current state: a value iff the resolved canonical key has an entry |
| ValMaps.ValMap.Has | index.js:58-62 | returns `Registry.Has` of the current state |
| ValMaps.ValMap.Set | index.js:45-56 | throws iff the key is `undefined` and the guard is on, changing nothing; otherwise returns the map itself, moves to `Registry.Set` of the old state, and `get(key)` is the value; keeps `WellFormed` |
| ValMaps.ValMap.Delete | index.js:64-69 | moves to `Registry.Delete` of the old state, returns whether `has(key)` held, and adjusts the size accordingly; keeps `WellFormed` |
| ValMaps.ValMap.Clear | index.js:1 | empties the backing map, keeps the registry |
| ValMaps.ValMap.Size | index.js:1 | `size` is the number of distinct keys in the backing map |

## Left out

- `JSON.stringify` is not modelled beyond its result: key order, cycles that throw, and values that stringify to `undefined` are outside the model. A key's JSON text is a field of the key.
- The runtime checks `typeof key.getValMapHash === 'function'` and `key.toString !== Object.prototype.toString` are not modelled as prototype lookups. They are the optional fields `selfHash` and `customToString` of a key. A `getValMapHash` or `toString` that throws, or that returns something other than a string, is not modelled.
- Primitive keys such as strings and numbers are not a separate case. They are keys whose `customToString` is their string form and whose `ref` stands for their value identity. `Map`'s SameValueZero treatment of `NaN` and `-0` is not modelled.
- Mutating a key object after it was stored is not modelled: a `Key` is a value, so its hash cannot change while it is in the map.
- A key's `ref` is meant to determine its other fields, since one JavaScript reference cannot carry two contents. The model does not enforce this: `Key` equality compares all four fields of `Obj`, so two `Obj` values with the same `ref` but different hashing fields count as different backing-map keys.
- Prototype inherited properties of the registry object `{}` are not modelled. For example, the slot "toString" initially reads `Object.prototype.toString` in JavaScript. The model's registry starts empty.
- `keys()`, `values()`, `entries()` and iteration are not separate operations. They are the `backing` sequence in insertion order, and their count is `Size`.
- The constructor accepts only an iterable of pairs. An iterable whose items are not pairs, such as a string, which destructures character by character, is not modelled.
- The error messages' text is not modelled; errors are the constants `InvalidKey` and `NotIterable`.
- Concurrency is not modelled; the source is single-threaded.
