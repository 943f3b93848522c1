/**
 * What the operations of `ValMap` promise when combined: lookups by value,
 * first writer wins, deletion, `clear`, the undefined-key fallback and
 * seeding from pairs.
 */
module Properties {
  import opened Wrappers
  import opened Hashing
  import BackingMap
  import opened Registry

  /**
   * After `set(a, v)`, a lookup gives `v` exactly for the keys that resolve
   * to the canonical key just written; every other lookup is as before.
   */
  lemma SetGetFrame<V>(s: Store<V>, a: Key, v: V, d: bool, p: bool, b: Key)
    requires Set(s, a, v, d, p).Ok?
    ensures var t := Set(s, a, v, d, p).value;
            Get(t, b, d) == if Resolve(t, b, d) == Resolve(t, a, d) then Some(v) else Get(s, b, d)
  {
    var t := Set(s, a, v, d, p).value;
    assert t.backing == BackingMap.Put(s.backing, Resolve(t, a, d), v);
    if Slot(b, d) != Slot(a, d) {
      assert Resolve(t, b, d) == Resolve(s, b, d);
    }
  }

  /**
   * After `delete(key)`, a lookup of a key in another slot is unchanged,
   * unless it resolved to the same canonical key as `key`.
   */
  lemma DeleteGetFrame<V>(s: Store<V>, key: Key, d: bool, other: Key)
    requires Slot(other, d) != Slot(key, d)
    requires Resolve(s, other, d) != Resolve(s, key, d)
    ensures Get(Delete(s, key, d).0, other, d) == Get(s, other, d)
  {
    assert Resolve(Delete(s, key, d).0, other, d) == Resolve(s, other, d);
  }

  /** `set(a, v)` then `get(b)` and `has(b)` for any `b` with the same hash. */
  lemma SetThenGetEqualKey<V>(s: Store<V>, a: Key, v: V, d: bool, p: bool, b: Key)
    requires Set(s, a, v, d, p).Ok?
    requires KeyHash(b, d) == KeyHash(a, d)
    ensures Get(Set(s, a, v, d, p).value, b, d) == Some(v)
    ensures Has(Set(s, a, v, d, p).value, b, d)
  {
  }

  /**
   * A second `set` with an equal-hash key overwrites the value under the
   * first key, which stays canonical, and the size does not grow.
   */
  lemma SetEqualKeyOverwrites<V>(s: Store<V>, a: Key, b: Key, v1: V, v2: V, d: bool, p: bool)
    requires a != Undefined
    requires !(b == Undefined && p)
    requires Slot(b, d) == Slot(a, d)
    requires Set(s, a, v1, d, p).Ok?
    ensures var s1 := Set(s, a, v1, d, p).value;
            && Set(s1, b, v2, d, p).Ok?
            && var s2 := Set(s1, b, v2, d, p).value;
            && s2.keyStore == s1.keyStore
            && Resolve(s2, b, d) == Resolve(s1, a, d)
            && Get(s2, a, d) == Some(v2)
            && |s2.backing| == |s1.backing|
  {
    var s1 := Set(s, a, v1, d, p).value;
    var c := Resolve(s1, a, d);
    assert c != Undefined;
    assert Has(s1, a, d);
    assert s1.keyStore[Slot(a, d)] == c;
    var s2 := Set(s1, b, v2, d, p).value;
    assert s2.keyStore == s1.keyStore;
  }

  /**
   * Keys in different registry slots, with `disableToStringHash` unchanged
   * since the registered keys were stored, do not disturb each other:
   * `set(a, v1); set(b, v2)` leaves `get(a) == v1` and `get(b) == v2`.
   */
  lemma SetDistinctKeysNoCrossTalk<V>(s: Store<V>, a: Key, b: Key, v1: V, v2: V, d: bool, p: bool)
    requires Coherent(s.keyStore, d)
    requires !(a == Undefined && p) && !(b == Undefined && p)
    requires Slot(a, d) != Slot(b, d)
    ensures Set(s, a, v1, d, p).Ok?
    ensures Set(Set(s, a, v1, d, p).value, b, v2, d, p).Ok?
    ensures var s2 := Set(Set(s, a, v1, d, p).value, b, v2, d, p).value;
            Get(s2, a, d) == Some(v1) && Get(s2, b, d) == Some(v2)
  {
    var s1 := Set(s, a, v1, d, p).value;
    SetPreservesCoherent(s, a, v1, d, p);
    var s2 := Set(s1, b, v2, d, p).value;
    SetPreservesCoherent(s1, b, v2, d, p);
    var ca, cb := Resolve(s1, a, d), Resolve(s2, b, d);
    assert Resolve(s2, a, d) == ca;
    assert Slot(ca, d) == Slot(a, d);
    assert Slot(cb, d) == Slot(b, d);
    SetGetFrame(s1, b, v2, d, p, a);
  }

  /**
   * `delete(b)` for a `b` equal to the stored key `a` reports the entry,
   * clears the slot, shrinks the size by one, and `has(a)` is false after it
   * (when the undefined key holds no entry).
   */
  lemma DeleteEqualKey<V>(s: Store<V>, a: Key, b: Key, d: bool)
    requires WellFormed(s)
    requires Undefined !in BackingMap.KeySet(s.backing)
    requires Slot(b, d) == Slot(a, d)
    requires Has(s, a, d)
    ensures var (t, existed) := Delete(s, b, d);
            && existed
            && Slot(a, d) !in t.keyStore
            && |t.backing| == |s.backing| - 1
            && !Has(t, a, d)
  {
    var (t, existed) := Delete(s, b, d);
    assert Resolve(t, a, d) == Undefined;
    assert BackingMap.KeySet(t.backing) <= BackingMap.KeySet(s.backing) by {
      DeletePreservesWellFormed(s, b, d);
    }
  }

  /** After `clear()`, `set` of a key equal to a registered one reuses the old canonical key. */
  lemma ClearThenSetReusesCanonical<V>(s: Store<V>, key: Key, v: V, d: bool, p: bool)
    requires Resolve(s, key, d) != Undefined
    requires !(key == Undefined && p)
    ensures Set(Clear(s), key, v, d, p).Ok?
    ensures Set(Clear(s), key, v, d, p).value == Store(s.keyStore, [(Resolve(s, key, d), v)])
  {
    assert Clear(s).keyStore == s.keyStore;
  }

  /**
   * With `preventUndefinedKey` off, `set(undefined, v)` makes every lookup
   * of a never-registered hash return `v`: the fallback key for a missing
   * slot is `undefined` itself.
   */
  lemma UndefinedKeyFalsePositive<V>(s: Store<V>, v: V, d: bool, other: Key)
    requires Resolve(s, Undefined, d) == Undefined
    requires Slot(other, d) != "undefined" && Slot(other, d) !in s.keyStore
    ensures Set(s, Undefined, v, d, false).Ok?
    ensures var t := Set(s, Undefined, v, d, false).value;
            Get(t, other, d) == Some(v) && Get(t, other, d) == Get(t, Undefined, d)
  {
    var t := Set(s, Undefined, v, d, false).value;
    assert Slot(other, d) !in t.keyStore;
    assert Resolve(t, other, d) == Undefined;
  }

  /** With `preventUndefinedKey` on, `set(undefined, v)` throws. */
  lemma SetUndefinedThrows<V>(s: Store<V>, v: V, d: bool)
    ensures Set(s, Undefined, v, d, true) == Err(InvalidKey)
    ensures Set(s, Undefined, v, d, false).Ok?
  {
  }

  /**
   * First writer wins, except over `undefined`: the registry's test for an
   * empty slot is "reads `undefined`", so a slot that holds the undefined key
   * is taken over by the next key whose hash is the string "undefined", and
   * the undefined key's entry is no longer reachable through its slot.
   */
  lemma UndefinedCanonicalReplaced<V>(s: Store<V>, u: Key, v1: V, v2: V, d: bool)
    requires u.Obj? && KeyHash(u, d) == HStr("undefined")
    requires Resolve(s, Undefined, d) == Undefined
    ensures var s1 := Set(s, Undefined, v1, d, false).value;
            var s2 := Set(s1, u, v2, d, false).value;
            && s1.keyStore["undefined"] == Undefined
            && s2.keyStore["undefined"] == u
            && Get(s2, Undefined, d) == Some(v2)
            && BackingMap.Get(s2.backing, Undefined) == Some(v1)
  {
    var s1 := Set(s, Undefined, v1, d, false).value;
    assert Slot(u, d) == "undefined";
    var s2 := Set(s1, u, v2, d, false).value;
    assert BackingMap.Get(s1.backing, Undefined) == Some(v1);
  }

  /**
   * The hash `null` and the string hash "null" name the same registry slot,
   * so a key whose `toString` gives "null" reads the value stored for `null`.
   */
  lemma NullSharesSlotWithNullText<V>(s: Store<V>, v: V, d: bool, key: Key)
    requires KeyHash(key, d) == HStr("null")
    ensures Set(s, Null, v, d, false).Ok?
    ensures Get(Set(s, Null, v, d, false).value, key, d) == Some(v)
  {
    assert Slot(key, d) == Slot(Null, d);
  }

  /** Some pair of `pairs` has the key `undefined`. */
  ghost predicate SomeKeyUndefined<V>(pairs: seq<(Key, V)>)
  {
    exists i :: 0 <= i < |pairs| && pairs[i].0 == Undefined
  }

  /** A non-empty sequence has an undefined key in its head or in its tail. */
  lemma SomeKeyUndefinedSplit<V>(pairs: seq<(Key, V)>)
    requires pairs != []
    ensures SomeKeyUndefined(pairs) <==> pairs[0].0 == Undefined || SomeKeyUndefined(pairs[1..])
  {
    var rest := pairs[1..];
    if SomeKeyUndefined(pairs) && pairs[0].0 != Undefined {
      var i :| 0 <= i < |pairs| && pairs[i].0 == Undefined;
      assert rest[i - 1].0 == Undefined;
    }
    if SomeKeyUndefined(rest) {
      var i :| 0 <= i < |rest| && rest[i].0 == Undefined;
      assert pairs[i + 1].0 == Undefined;
    }
  }

  /** Seeding throws exactly when `preventUndefinedKey` is on and some pair's key is `undefined`. */
  lemma {:induction false} SeedFailsIffUndefinedKey<V>(s: Store<V>, pairs: seq<(Key, V)>, d: bool, p: bool)
    ensures Seed(s, pairs, d, p).Err? <==> p && SomeKeyUndefined(pairs)
    decreases |pairs|
  {
    if pairs != [] {
      var (k, v) := pairs[0];
      SomeKeyUndefinedSplit(pairs);
      if !(k == Undefined && p) {
        var next := Set(s, k, v, d, p).value;
        assert Seed(s, pairs, d, p) == Seed(next, pairs[1..], d, p);
        SeedFailsIffUndefinedKey(next, pairs[1..], d, p);
      }
    }
  }

  /** Seeding with one more pair is seeding, then `set` of that pair. */
  lemma {:induction false} SeedSnoc<V>(s: Store<V>, pairs: seq<(Key, V)>, key: Key, v: V, d: bool, p: bool)
    ensures Seed(s, pairs + [(key, v)], d, p) ==
              match Seed(s, pairs, d, p)
              case Err(e) => Err(e)
              case Ok(t) => Set(t, key, v, d, p)
    decreases |pairs|
  {
    if pairs == [] {
      assert pairs + [(key, v)] == [(key, v)];
    } else {
      assert (pairs + [(key, v)])[1..] == pairs[1..] + [(key, v)];
      var first := Set(s, pairs[0].0, pairs[0].1, d, p);
      if first.Ok? {
        SeedSnoc(first.value, pairs[1..], key, v, d, p);
      }
    }
  }

  /**
   * Seeding from pairs followed by a last pair `(key, v)`: `get(key)` is `v`,
   * and an earlier registered equal-hash key stays canonical.
   */
  lemma SeedLastPairWins<V>(s: Store<V>, pairs: seq<(Key, V)>, key: Key, v: V, d: bool, p: bool)
    requires Seed(s, pairs, d, p).Ok?
    requires !(key == Undefined && p)
    ensures Seed(s, pairs + [(key, v)], d, p).Ok?
    ensures var before := Seed(s, pairs, d, p).value;
            var after := Seed(s, pairs + [(key, v)], d, p).value;
            && Get(after, key, d) == Some(v)
            && (Resolve(before, key, d) != Undefined ==> Resolve(after, key, d) == Resolve(before, key, d))
  {
    SeedSnoc(s, pairs, key, v, d, p);
  }
}
