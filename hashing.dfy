/**
 * Keys and the hash that identifies a key by value (index.js, `_getKeyHash`).
 *
 * A key is the JavaScript value `null`, the value `undefined`, or any other
 * value. For the latter, only what the hashing rule looks at is kept:
 * the reference identity, the result of a `getValMapHash` method if the key
 * has one, the result of an overridden `toString` if it has one, and the
 * text `JSON.stringify` gives for it.
 */
module Hashing {
  import opened Wrappers

  datatype Key =
    | Null
    | Undefined
    | Obj(ref: nat, selfHash: Option<string>, customToString: Option<string>, json: string)

  /** What `_getKeyHash` returns: `null`, `undefined` or a string. */
  datatype Hash = HNull | HUndef | HStr(text: string)

  /**
   * The hash of a key, by precedence: null and undefined are returned as they
   * are; otherwise the key's own `getValMapHash`; otherwise an overridden
   * `toString`, unless `disableToStringHash`; otherwise `JSON.stringify`.
   */
  function KeyHash(key: Key, disableToStringHash: bool): (h: Hash)
    ensures h == HNull <==> key == Null
    ensures h == HUndef <==> key == Undefined
    ensures key.Obj? && key.selfHash.Some? ==> h == HStr(key.selfHash.value)
    ensures key.Obj? && key.selfHash.None? && key.customToString.Some? && !disableToStringHash
            ==> h == HStr(key.customToString.value)
    ensures key.Obj? && key.selfHash.None? && (key.customToString.None? || disableToStringHash)
            ==> h == HStr(key.json)
  {
    match key
    case Null => HNull
    case Undefined => HUndef
    case Obj(_, selfHash, customToString, json) =>
      if selfHash.Some? then HStr(selfHash.value)
      else if !disableToStringHash && customToString.Some? then HStr(customToString.value)
      else HStr(json)
  }

  /**
   * The property name under which a hash is stored in the plain-object
   * registry: JavaScript turns `null` and `undefined` into the names
   * "null" and "undefined".
   */
  function SlotName(h: Hash): string
  {
    match h
    case HNull => "null"
    case HUndef => "undefined"
    case HStr(text) => text
  }

  /** The registry slot of a key under the current `disableToStringHash`. */
  function Slot(key: Key, disableToStringHash: bool): string
  {
    SlotName(KeyHash(key, disableToStringHash))
  }

  /**
   * Two hashes share a registry slot exactly when they are equal or one is
   * `null`/`undefined` and the other the string "null"/"undefined".
   */
  lemma SlotNameCollision(h1: Hash, h2: Hash)
    ensures SlotName(h1) == SlotName(h2) <==>
              || h1 == h2
              || (h1 == HNull && h2 == HStr("null")) || (h1 == HStr("null") && h2 == HNull)
              || (h1 == HUndef && h2 == HStr("undefined")) || (h1 == HStr("undefined") && h2 == HUndef)
  {
    if h1.HStr? && h2.HStr? && SlotName(h1) == SlotName(h2) {
      assert h1.text == h2.text;
    }
    if h1 == HNull && h2 == HUndef {
      assert SlotName(h1)[0] != SlotName(h2)[0];
    }
    if h1 == HUndef && h2 == HNull {
      assert SlotName(h1)[0] != SlotName(h2)[0];
    }
  }

  /**
   * The `disableToStringHash` flag changes a key's hash only for a key that
   * has no `getValMapHash` but an overridden `toString` whose text differs
   * from its JSON text.
   */
  lemma FlagAffectsOnlyToStringKeys(key: Key)
    ensures KeyHash(key, true) != KeyHash(key, false) <==>
              key.Obj? && key.selfHash.None? && key.customToString.Some? && key.customToString.value != key.json
  {
  }
}
