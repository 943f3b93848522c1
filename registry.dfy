/**
 * The state of a `ValMap` as a value, and each operation of index.js as a
 * function of that state. The class in valmap.dfy is proved to follow these
 * functions; the lemmas here state what the operations promise together.
 */
module Registry {
  import opened Wrappers
  import opened Hashing
  import BackingMap

  /** `new ValMap(...)` throws for an iterable it cannot read; `set` throws for the undefined key. */
  datatype Error = InvalidKey | NotIterable

  /**
   * `keyStore` maps a slot name to the canonical key registered for it;
   * `backing` is the inherited map, keyed by canonical keys.
   */
  datatype Store<V> = Store(keyStore: map<string, Key>, backing: seq<(Key, V)>)

  /** `keyStore[name]`: reading a missing property gives `undefined`. */
  function Canonical(keyStore: map<string, Key>, name: string): Key
  {
    if name in keyStore then keyStore[name] else Undefined
  }

  /** The key under which the backing map is asked about `key`. */
  function Resolve<V>(s: Store<V>, key: Key, disableToStringHash: bool): Key
  {
    Canonical(s.keyStore, Slot(key, disableToStringHash))
  }

  /** The backing map holds no duplicate key, and each of its keys other than `undefined` is registered. */
  ghost predicate WellFormed<V>(s: Store<V>)
  {
    && BackingMap.KeysDistinct(s.backing)
    && forall c :: c in BackingMap.KeySet(s.backing) && c != Undefined ==> c in s.keyStore.Values
  }

  /**
   * Every registered key (other than `undefined`) sits in the slot of its own
   * hash. This holds as long as `disableToStringHash` is not changed.
   */
  ghost predicate Coherent(keyStore: map<string, Key>, disableToStringHash: bool)
  {
    forall name :: name in keyStore && keyStore[name] != Undefined ==> Slot(keyStore[name], disableToStringHash) == name
  }

  /** `get(key)`: the value stored under the canonical key of `key`'s slot. */
  function Get<V>(s: Store<V>, key: Key, disableToStringHash: bool): (r: Option<V>)
    ensures r.Some? <==> Resolve(s, key, disableToStringHash) in BackingMap.KeySet(s.backing)
    ensures r.Some? ==> (Resolve(s, key, disableToStringHash), r.value) in s.backing
    ensures Slot(key, disableToStringHash) !in s.keyStore ==> r == BackingMap.Get(s.backing, Undefined)
  {
    BackingMap.Get(s.backing, Resolve(s, key, disableToStringHash))
  }

  /** `has(key)`. */
  function Has<V>(s: Store<V>, key: Key, disableToStringHash: bool): (b: bool)
    ensures b <==> Get(s, key, disableToStringHash).Some?
  {
    BackingMap.Has(s.backing, Resolve(s, key, disableToStringHash))
  }

  /**
   * `set(key, value)`: refuse `undefined` while `preventUndefinedKey`;
   * register `key` when its slot reads `undefined`; store `value` under the
   * slot's canonical key.
   */
  function Set<V>(s: Store<V>, key: Key, value: V, disableToStringHash: bool, preventUndefinedKey: bool)
    : (r: Result<Store<V>, Error>)
    ensures r.Err? <==> key == Undefined && preventUndefinedKey
    ensures r.Err? ==> r.error == InvalidKey
    ensures r.Ok? ==> Get(r.value, key, disableToStringHash) == Some(value)
    ensures r.Ok? ==>
              var old_c := Resolve(s, key, disableToStringHash);
              Resolve(r.value, key, disableToStringHash) == if old_c == Undefined then key else old_c
    ensures r.Ok? ==> r.value.keyStore.Keys == s.keyStore.Keys + {Slot(key, disableToStringHash)}
    ensures r.Ok? ==> forall name :: name != Slot(key, disableToStringHash) && name in s.keyStore ==>
                        r.value.keyStore[name] == s.keyStore[name]
    ensures r.Ok? ==> |r.value.backing| ==
                        if Resolve(r.value, key, disableToStringHash) in BackingMap.KeySet(s.backing)
                        then |s.backing| else |s.backing| + 1
  {
    if key == Undefined && preventUndefinedKey then Err(InvalidKey)
    else
      var name := Slot(key, disableToStringHash);
      var keyStore := if Canonical(s.keyStore, name) == Undefined then s.keyStore[name := key] else s.keyStore;
      var actualKey := Canonical(keyStore, name);
      Ok(Store(keyStore, BackingMap.Put(s.backing, actualKey, value)))
  }

  /**
   * `delete(key)`: clear `key`'s slot and remove the entry of the key the
   * slot held; report whether that entry existed.
   */
  function Delete<V>(s: Store<V>, key: Key, disableToStringHash: bool): (r: (Store<V>, bool))
    ensures r.1 == Has(s, key, disableToStringHash)
    ensures r.0.keyStore == s.keyStore - {Slot(key, disableToStringHash)}
    ensures |r.0.backing| == if r.1 then |s.backing| - 1 else |s.backing|
    ensures WellFormed(s) ==> Resolve(s, key, disableToStringHash) !in BackingMap.KeySet(r.0.backing)
    ensures forall other :: Resolve(s, other, disableToStringHash) != Resolve(s, key, disableToStringHash) ==>
              BackingMap.Get(r.0.backing, Resolve(s, other, disableToStringHash)) == Get(s, other, disableToStringHash)
  {
    var name := Slot(key, disableToStringHash);
    var actualKey := Canonical(s.keyStore, name);
    (Store(s.keyStore - {name}, BackingMap.Remove(s.backing, actualKey)), BackingMap.Has(s.backing, actualKey))
  }

  /** `clear()`, inherited: empties the backing map and leaves the registry as it is. */
  function Clear<V>(s: Store<V>): (r: Store<V>)
    ensures r.keyStore == s.keyStore
    ensures |r.backing| == 0
    ensures forall key, d :: Get(r, key, d) == None
    ensures WellFormed(r)
  {
    Store(s.keyStore, [])
  }

  /** The constructor's loop: `set` each pair in order, stopping at the first throw. */
  function Seed<V>(s: Store<V>, pairs: seq<(Key, V)>, disableToStringHash: bool, preventUndefinedKey: bool)
    : (r: Result<Store<V>, Error>)
    ensures r.Ok? ==> s.keyStore.Keys <= r.value.keyStore.Keys
    ensures r.Ok? ==> |r.value.backing| <= |s.backing| + |pairs|
    decreases |pairs|
  {
    if pairs == [] then Ok(s)
    else
      match Set(s, pairs[0].0, pairs[0].1, disableToStringHash, preventUndefinedKey)
      case Err(e) => Err(e)
      case Ok(next) => Seed(next, pairs[1..], disableToStringHash, preventUndefinedKey)
  }

  /** `set` keeps the backing map's keys distinct and registered. */
  lemma SetPreservesWellFormed<V>(s: Store<V>, key: Key, value: V, disableToStringHash: bool, preventUndefinedKey: bool)
    requires WellFormed(s)
    requires Set(s, key, value, disableToStringHash, preventUndefinedKey).Ok?
    ensures WellFormed(Set(s, key, value, disableToStringHash, preventUndefinedKey).value)
  {
    var t := Set(s, key, value, disableToStringHash, preventUndefinedKey).value;
    var name := Slot(key, disableToStringHash);
    var c := Canonical(t.keyStore, name);
    forall k | k in BackingMap.KeySet(t.backing) && k != Undefined ensures k in t.keyStore.Values {
      if k == c {
        assert t.keyStore[name] == k;
      } else {
        assert k in BackingMap.KeySet(s.backing);
        var n :| n in s.keyStore && s.keyStore[n] == k;
        assert n == name ==> Canonical(s.keyStore, name) == k;
        assert t.keyStore[n] == k;
      }
    }
  }

  /** `delete` keeps the backing map's keys distinct and registered. */
  lemma DeletePreservesWellFormed<V>(s: Store<V>, key: Key, disableToStringHash: bool)
    requires WellFormed(s)
    ensures WellFormed(Delete(s, key, disableToStringHash).0)
  {
    var t := Delete(s, key, disableToStringHash).0;
    var name := Slot(key, disableToStringHash);
    var c := Canonical(s.keyStore, name);
    assert t.backing == BackingMap.Remove(s.backing, c);
    forall k | k in BackingMap.KeySet(t.backing) && k != Undefined ensures k in t.keyStore.Values {
      assert k in BackingMap.KeySet(s.backing) && k != c;
      var n :| n in s.keyStore && s.keyStore[n] == k;
      assert n != name;
      assert t.keyStore[n] == k;
    }
  }

  /** `set` under a fixed `disableToStringHash` files every new canonical key under its own hash. */
  lemma SetPreservesCoherent<V>(s: Store<V>, key: Key, value: V, disableToStringHash: bool, preventUndefinedKey: bool)
    requires Coherent(s.keyStore, disableToStringHash)
    requires Set(s, key, value, disableToStringHash, preventUndefinedKey).Ok?
    ensures Coherent(Set(s, key, value, disableToStringHash, preventUndefinedKey).value.keyStore, disableToStringHash)
  {
    var t := Set(s, key, value, disableToStringHash, preventUndefinedKey).value;
    var name := Slot(key, disableToStringHash);
    forall n | n in t.keyStore && t.keyStore[n] != Undefined ensures Slot(t.keyStore[n], disableToStringHash) == n {
      if n == name && Canonical(s.keyStore, name) == Undefined {
        assert t.keyStore[n] == key;
      } else {
        assert n in s.keyStore && t.keyStore[n] == s.keyStore[n];
      }
    }
  }

  /** `delete` only removes slots, so every remaining canonical key is still in its own slot. */
  lemma DeletePreservesCoherent<V>(s: Store<V>, key: Key, disableToStringHash: bool)
    requires Coherent(s.keyStore, disableToStringHash)
    ensures Coherent(Delete(s, key, disableToStringHash).0.keyStore, disableToStringHash)
  {
  }

  /** Seeding from pairs keeps the store well formed and, with the flag fixed, coherent. */
  lemma {:induction false} SeedPreservesInvariants<V>(s: Store<V>, pairs: seq<(Key, V)>, disableToStringHash: bool, preventUndefinedKey: bool)
    requires WellFormed(s) && Coherent(s.keyStore, disableToStringHash)
    requires Seed(s, pairs, disableToStringHash, preventUndefinedKey).Ok?
    ensures WellFormed(Seed(s, pairs, disableToStringHash, preventUndefinedKey).value)
    ensures Coherent(Seed(s, pairs, disableToStringHash, preventUndefinedKey).value.keyStore, disableToStringHash)
    decreases |pairs|
  {
    if pairs != [] {
      var (k, v) := pairs[0];
      SetPreservesWellFormed(s, k, v, disableToStringHash, preventUndefinedKey);
      SetPreservesCoherent(s, k, v, disableToStringHash, preventUndefinedKey);
      SeedPreservesInvariants(Set(s, k, v, disableToStringHash, preventUndefinedKey).value, pairs[1..],
                              disableToStringHash, preventUndefinedKey);
    }
  }

  /**
   * The backing map (and so `keys()`, `values()` and `entries()`) holds at
   * most one entry per hash: two distinct keys other than `undefined` in it
   * never share a slot.
   */
  lemma OneEntryPerHash<V>(s: Store<V>, disableToStringHash: bool, i: nat, j: nat)
    requires WellFormed(s) && Coherent(s.keyStore, disableToStringHash)
    requires i < j < |s.backing|
    requires s.backing[i].0 != Undefined && s.backing[j].0 != Undefined
    ensures Slot(s.backing[i].0, disableToStringHash) != Slot(s.backing[j].0, disableToStringHash)
  {
    var ki, kj := s.backing[i].0, s.backing[j].0;
    assert s.backing[i] in s.backing && s.backing[j] in s.backing;
    assert ki in BackingMap.KeySet(s.backing) && kj in BackingMap.KeySet(s.backing);
    assert ki in s.keyStore.Values && kj in s.keyStore.Values;
    var ni :| ni in s.keyStore && s.keyStore[ni] == ki;
    var nj :| nj in s.keyStore && s.keyStore[nj] == kj;
    assert ki != kj;
    assert ni != nj;
  }
}
