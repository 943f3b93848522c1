/**
 * The inherited JavaScript `Map` that `ValMap` extends, keyed by identity:
 * an insertion-ordered sequence of (key, value) entries. `get`, `has`,
 * `set`, `delete` and `size` behave as the built-in map does.
 */
module BackingMap {
  import opened Wrappers
  import opened Hashing

  /** The keys that have an entry. */
  ghost function KeySet<V>(entries: seq<(Key, V)>): set<Key>
  {
    set e | e in entries :: e.0
  }

  /** A map never holds two entries for one key. */
  ghost predicate KeysDistinct<V>(entries: seq<(Key, V)>)
  {
    forall i, j :: 0 <= i < j < |entries| ==> entries[i].0 != entries[j].0
  }

  /** Position of the first entry for `k`, or -1 when there is none. */
  function IndexOf<V>(entries: seq<(Key, V)>, k: Key): (i: int)
    ensures -1 <= i < |entries|
    ensures 0 <= i ==> entries[i].0 == k
    ensures 0 <= i ==> forall j :: 0 <= j < i ==> entries[j].0 != k
    ensures i == -1 <==> k !in KeySet(entries)
  {
    if entries == [] then -1
    else if entries[0].0 == k then 0
    else
      var j := IndexOf(entries[1..], k);
      assert KeySet(entries) == {entries[0].0} + KeySet(entries[1..]) by {
        assert entries == [entries[0]] + entries[1..];
      }
      if j == -1 then -1 else j + 1
  }

  /** `Map.prototype.get`: the value of the entry for `k`, if any. */
  function Get<V>(entries: seq<(Key, V)>, k: Key): (r: Option<V>)
    ensures r.Some? <==> k in KeySet(entries)
    ensures r.Some? ==> (k, r.value) in entries
  {
    var i := IndexOf(entries, k);
    if i < 0 then None else Some(entries[i].1)
  }

  /** `Map.prototype.has`. */
  function Has<V>(entries: seq<(Key, V)>, k: Key): (b: bool)
    ensures b <==> k in KeySet(entries)
  {
    IndexOf(entries, k) >= 0
  }

  /**
   * `Map.prototype.set`: overwrite the value in place when `k` has an entry,
   * otherwise append a new entry at the end.
   */
  function Put<V>(entries: seq<(Key, V)>, k: Key, v: V): (r: seq<(Key, V)>)
    ensures Get(r, k) == Some(v)
    ensures forall k' :: k' != k ==> Get(r, k') == Get(entries, k')
    ensures KeySet(r) == KeySet(entries) + {k}
    ensures |r| == if k in KeySet(entries) then |entries| else |entries| + 1
    ensures forall j :: 0 <= j < |entries| && entries[j].0 != k ==> r[j] == entries[j]
    ensures KeysDistinct(entries) ==> KeysDistinct(r)
  {
    var i := IndexOf(entries, k);
    if i < 0 then
      var r := entries + [(k, v)];
      assert forall k' :: k' != k ==> Get(r, k') == Get(entries, k') by {
        forall k' | k' != k ensures Get(r, k') == Get(entries, k') {
          SameFirstIndex(entries, r, k');
        }
      }
      assert KeySet(r) == KeySet(entries) + {k} by {
        assert r[|entries|] == (k, v);
        forall e | e in r ensures e.0 in KeySet(entries) + {k} {
          var j :| 0 <= j < |r| && r[j] == e;
          assert j < |entries| ==> entries[j] == e;
        }
      }
      r
    else
      var r := entries[i := (k, v)];
      FirstIndexAt(r, k, i);
      assert forall k' :: k' != k ==> Get(r, k') == Get(entries, k') by {
        forall k' | k' != k ensures Get(r, k') == Get(entries, k') {
          SameFirstIndex(entries, r, k');
        }
      }
      assert KeySet(r) == KeySet(entries) + {k} by {
        forall e | e in entries ensures e.0 in KeySet(r) {
          var j :| 0 <= j < |entries| && entries[j] == e;
          assert j != i ==> r[j] == e;
          assert j == i ==> e.0 == k && r[i] == (k, v);
        }
        forall e | e in r ensures e.0 in KeySet(entries) + {k} {
          var j :| 0 <= j < |r| && r[j] == e;
          assert j != i ==> entries[j] == e;
        }
      }
      r
  }

  /**
   * `Map.prototype.delete`: remove the entry for `k`, keeping the order of
   * the others.
   */
  function Remove<V>(entries: seq<(Key, V)>, k: Key): (r: seq<(Key, V)>)
    ensures k !in KeySet(entries) ==> r == entries
    ensures |r| == if k in KeySet(entries) then |entries| - 1 else |entries|
    ensures forall k' :: k' != k ==> Get(r, k') == Get(entries, k')
    ensures KeysDistinct(entries) ==> KeysDistinct(r) && KeySet(r) == KeySet(entries) - {k}
  {
    var i := IndexOf(entries, k);
    if i < 0 then entries
    else
      var r := entries[..i] + entries[i + 1..];
      assert forall k' :: k' != k ==> Get(r, k') == Get(entries, k') by {
        forall k' | k' != k ensures Get(r, k') == Get(entries, k') {
          RemovedFirstIndex(entries, i, k');
        }
      }
      assert KeysDistinct(entries) ==> KeysDistinct(r) && KeySet(r) == KeySet(entries) - {k} by {
        if KeysDistinct(entries) {
          assert forall j :: 0 <= j < |r| ==> r[j] == (if j < i then entries[j] else entries[j + 1]);
          forall e | e in entries && e.0 != k ensures e.0 in KeySet(r) {
            var j :| 0 <= j < |entries| && entries[j] == e;
            assert j != i;
            assert j < i ==> r[j] == e;
            assert j > i ==> r[j - 1] == e;
          }
        }
      }
      r
  }

  /** Keys other than `k` are found at the same place after `k`'s entry changes or is added. */
  lemma SameFirstIndex<V>(entries: seq<(Key, V)>, r: seq<(Key, V)>, k': Key)
    requires |entries| <= |r|
    requires forall j :: 0 <= j < |entries| && entries[j].0 == k' ==> r[j] == entries[j]
    requires forall j :: 0 <= j < |entries| && entries[j].0 != k' ==> r[j].0 != k'
    requires forall j :: |entries| <= j < |r| ==> r[j].0 != k'
    ensures Get(r, k') == Get(entries, k')
  {
    var a, b := IndexOf(entries, k'), IndexOf(r, k');
    if a >= 0 {
      assert r[a].0 == k';
      assert b == a;
    } else {
      assert b == -1;
    }
  }

  /** Keys other than the removed one are still found, one place earlier when they came after it. */
  lemma RemovedFirstIndex<V>(entries: seq<(Key, V)>, i: nat, k': Key)
    requires i < |entries| && entries[i].0 != k'
    ensures Get(entries[..i] + entries[i + 1..], k') == Get(entries, k')
  {
    var r := entries[..i] + entries[i + 1..];
    assert forall j :: 0 <= j < i ==> r[j] == entries[j];
    assert forall j :: i <= j < |r| ==> r[j] == entries[j + 1];
    var a := IndexOf(entries, k');
    if a >= 0 {
      var p := if a < i then a else a - 1;
      assert r[p] == entries[a];
      FirstIndexAt(r, k', p);
    } else {
      assert forall j :: 0 <= j < |r| ==> r[j].0 != k';
    }
  }

  /** An entry for `k` with none before it is the one `IndexOf` finds. */
  lemma FirstIndexAt<V>(entries: seq<(Key, V)>, k: Key, p: nat)
    requires p < |entries| && entries[p].0 == k
    requires forall j :: 0 <= j < p ==> entries[j].0 != k
    ensures IndexOf(entries, k) == p
  {
    assert entries[p] in entries;
  }

  /** With distinct keys, the number of entries is the number of keys. */
  lemma {:induction false} DistinctCount<V>(entries: seq<(Key, V)>)
    requires KeysDistinct(entries)
    ensures |KeySet(entries)| == |entries|
  {
    if entries != [] {
      var rest := entries[1..];
      assert KeysDistinct(rest);
      DistinctCount(rest);
      assert entries == [entries[0]] + rest;
      assert KeySet(entries) == {entries[0].0} + KeySet(rest);
      forall e | e in rest ensures e.0 != entries[0].0 {
        var j :| 0 <= j < |rest| && rest[j] == e;
        assert entries[j + 1] == e;
      }
    }
  }
}
