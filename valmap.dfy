/**
 * `ValMap` (index.js): a map keyed by value. Its state is the registry of
 * canonical keys, the inherited backing map and two public flags; `set` and
 * `delete` update them in place.
 */
module ValMaps {
  import opened Wrappers
  import opened Hashing
  import BackingMap
  import Registry

  /** The argument of `new ValMap(opt_iterable)`. */
  datatype InitArg<V> =
    | Falsy                                 // omitted, or any falsy value: nothing to seed
    | Pairs(items: seq<(Key, V)>)           // an iterable of [key, value] pairs
    | NotIterable                           // truthy without Symbol.iterator

  class ValMap<V> {
    var keyStore: map<string, Key>
    var backing: seq<(Key, V)>
    var disableToStringHash: bool
    var preventUndefinedKey: bool

    /** The state as a value, for the specification functions of the Registry module. */
    function Snapshot(): Registry.Store<V>
      reads this
    {
      Registry.Store(keyStore, backing)
    }

    ghost predicate Valid()
      reads this
    {
      Registry.WellFormed(Snapshot())
    }

    /** `super()` and the field initialisations: empty, `toString` hashing on, undefined keys refused. */
    constructor ()
      ensures Valid()
      ensures keyStore == map[] && backing == []
      ensures !disableToStringHash && preventUndefinedKey
    {
      keyStore := map[];
      backing := [];
      disableToStringHash := false;
      preventUndefinedKey := true;
    }

    /**
     * `new ValMap(opt_iterable)`: `set` each pair in order; throw if the
     * argument is truthy but not iterable, or if some `set` throws.
     */
    static method Create(init: InitArg<V>) returns (r: Result<ValMap<V>, Registry.Error>)
      ensures init.NotIterable? ==> r == Err(Registry.NotIterable)
      ensures init.Falsy? ==> r.Ok? && r.value.Snapshot() == Registry.Store(map[], [])
      ensures init.Pairs? ==>
                var seeded := Registry.Seed(Registry.Store(map[], []), init.items, false, true);
                && (r.Ok? <==> seeded.Ok?)
                && (r.Ok? ==> r.value.Snapshot() == seeded.value)
                && (r.Err? ==> r.error == seeded.error)
      ensures r.Ok? ==> fresh(r.value) && r.value.Valid()
      ensures r.Ok? ==> !r.value.disableToStringHash && r.value.preventUndefinedKey
    {
      var m := new ValMap<V>();
      match init {
        case Falsy =>
          return Ok(m);
        case NotIterable =>
          return Err(Registry.NotIterable);
        case Pairs(items) =>
          var outcome := m.SetEach(items);
          if outcome.Err? {
            return Err(outcome.error);
          }
          return Ok(m);
      }
    }

    /** The constructor's `for (let [key, value] of opt_iterable) this.set(key, value)`. */
    method SetEach(items: seq<(Key, V)>) returns (r: Result<(), Registry.Error>)
      requires Valid()
      modifies this
      ensures Valid()
      ensures disableToStringHash == old(disableToStringHash) && preventUndefinedKey == old(preventUndefinedKey)
      ensures var seeded := Registry.Seed(old(Snapshot()), items, disableToStringHash, preventUndefinedKey);
              && (r.Ok? <==> seeded.Ok?)
              && (r.Ok? ==> Snapshot() == seeded.value)
              && (r.Err? ==> r.error == seeded.error)
    {
      ghost var goal := Registry.Seed(Snapshot(), items, disableToStringHash, preventUndefinedKey);
      var i := 0;
      while i < |items|
        invariant 0 <= i <= |items|
        invariant Valid()
        invariant disableToStringHash == old(disableToStringHash) && preventUndefinedKey == old(preventUndefinedKey)
        invariant Registry.Seed(Snapshot(), items[i..], disableToStringHash, preventUndefinedKey) == goal
      {
        var (key, value) := items[i];
        assert items[i..][0] == (key, value) && items[i..][1..] == items[i + 1..];
        var outcome := Set(key, value);
        if outcome.Err? {
          return Err(outcome.error);
        }
        i := i + 1;
      }
      return Ok(());
    }

    /** `get(key)`: the value stored under the canonical key of `key`'s hash. */
    method Get(key: Key) returns (r: Option<V>)
      ensures r == Registry.Get(Snapshot(), key, disableToStringHash)
      ensures r.Some? <==> Registry.Resolve(Snapshot(), key, disableToStringHash) in BackingMap.KeySet(backing)
    {
      var keyHash := KeyHash(key, disableToStringHash);
      var actualKey := Registry.Canonical(keyStore, SlotName(keyHash));
      r := BackingMap.Get(backing, actualKey);
    }

    /** `has(key)`. */
    method Has(key: Key) returns (b: bool)
      ensures b == Registry.Has(Snapshot(), key, disableToStringHash)
      ensures b <==> Registry.Resolve(Snapshot(), key, disableToStringHash) in BackingMap.KeySet(backing)
    {
      var keyHash := KeyHash(key, disableToStringHash);
      var actualKey := Registry.Canonical(keyStore, SlotName(keyHash));
      b := BackingMap.Has(backing, actualKey);
    }

    /**
     * `set(key, value)`: returns the map itself for chaining, or the error
     * it throws for the undefined key.
     */
    method Set(key: Key, value: V) returns (r: Result<ValMap<V>, Registry.Error>)
      requires Valid()
      modifies this
      ensures Valid()
      ensures disableToStringHash == old(disableToStringHash) && preventUndefinedKey == old(preventUndefinedKey)
      ensures r.Err? <==> key == Undefined && preventUndefinedKey
      ensures r.Err? ==> r.error == Registry.InvalidKey && Snapshot() == old(Snapshot())
      ensures r.Ok? ==> r.value == this
      ensures r.Ok? ==> Registry.Set(old(Snapshot()), key, value, disableToStringHash, preventUndefinedKey) == Ok(Snapshot())
      ensures r.Ok? ==> Registry.Get(Snapshot(), key, disableToStringHash) == Some(value)
    {
      if key == Undefined && preventUndefinedKey {
        return Err(Registry.InvalidKey);
      }
      Registry.SetPreservesWellFormed(Snapshot(), key, value, disableToStringHash, preventUndefinedKey);
      var keyHash := KeyHash(key, disableToStringHash);
      var name := SlotName(keyHash);
      if Registry.Canonical(keyStore, name) == Undefined {
        keyStore := keyStore[name := key];
      }
      var actualKey := Registry.Canonical(keyStore, name);
      backing := BackingMap.Put(backing, actualKey, value);
      return Ok(this);
    }

    /** `delete(key)`: whether an entry was removed. */
    method Delete(key: Key) returns (existed: bool)
      requires Valid()
      modifies this
      ensures Valid()
      ensures disableToStringHash == old(disableToStringHash) && preventUndefinedKey == old(preventUndefinedKey)
      ensures (Snapshot(), existed) == Registry.Delete(old(Snapshot()), key, disableToStringHash)
      ensures existed == old(Registry.Has(Snapshot(), key, disableToStringHash))
      ensures |backing| == if existed then old(|backing|) - 1 else old(|backing|)
    {
      Registry.DeletePreservesWellFormed(Snapshot(), key, disableToStringHash);
      var keyHash := KeyHash(key, disableToStringHash);
      var name := SlotName(keyHash);
      var actualKey := Registry.Canonical(keyStore, name);
      keyStore := keyStore - {name};
      existed := BackingMap.Has(backing, actualKey);
      backing := BackingMap.Remove(backing, actualKey);
    }

    /** `clear()`, inherited from `Map`: the registry is left as it is. */
    method Clear()
      requires Valid()
      modifies this
      ensures Valid()
      ensures disableToStringHash == old(disableToStringHash) && preventUndefinedKey == old(preventUndefinedKey)
      ensures Snapshot() == Registry.Clear(old(Snapshot()))
      ensures keyStore == old(keyStore) && backing == []
    {
      backing := [];
    }

    /** `size`: the number of distinct keys in the backing map. */
    function Size(): (n: nat)
      requires Valid()
      reads this
      ensures n == |BackingMap.KeySet(backing)|
    {
      BackingMap.DistinctCount(backing);
      |backing|
    }
  }
}
