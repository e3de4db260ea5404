/**
 * The ordered key-value store as the table read path consumes it: a point
 * lookup and an ordered scan restricted to a keyspace prefix. The store's
 * own engine is not part of this model; its committed state is a sequence
 * of entries in ascending key order.
 */
module Keyspace {
  import opened Wrappers

  type Byte = bv8
  type Bytes = seq<Byte>

  /** One key-value pair of the store. */
  datatype Entry = Entry(key: Bytes, value: Bytes)

  /** The committed contents of the store, in the order an iterator yields them. */
  type Store = seq<Entry>

  /** No key is stored twice. */
  predicate UniqueKeys(s: Store) {
    forall i, j :: 0 <= i < j < |s| ==> s[i].key != s[j].key
  }

  predicate HasPrefix(key: Bytes, prefix: Bytes) {
    |prefix| <= |key| && key[..|prefix|] == prefix
  }

  /** Point read of a full store key. */
  function Lookup(s: Store, key: Bytes): Option<Bytes> {
    if s == [] then None
    else if s[0].key == key then Some(s[0].value)
    else Lookup(s[1..], key)
  }

  /** A lookup misses exactly when no entry carries the key. */
  lemma {:induction false} LookupAbsent(s: Store, key: Bytes)
    ensures Lookup(s, key) == None <==> forall i :: 0 <= i < |s| ==> s[i].key != key
  {
    if s != [] && s[0].key != key {
      LookupAbsent(s[1..], key);
      if Lookup(s, key) == None {
        forall i | 0 <= i < |s| ensures s[i].key != key {
          if i > 0 { assert s[i] == s[1..][i - 1]; }
        }
      } else {
        var i :| 0 <= i < |s[1..]| && s[1..][i].key == key;
        assert s[i + 1].key == key;
      }
    }
  }

  /** With unique keys, a lookup returns the value stored under that key. */
  lemma {:induction false} LookupPresent(s: Store, key: Bytes, i: nat)
    requires UniqueKeys(s) && i < |s| && s[i].key == key
    ensures Lookup(s, key) == Some(s[i].value)
  {
    if i > 0 {
      assert s[0].key != key;
      assert UniqueKeys(s[1..]) by {
        forall a, b | 0 <= a < b < |s[1..]| ensures s[1..][a].key != s[1..][b].key {
          assert s[1..][a] == s[a + 1] && s[1..][b] == s[b + 1];
        }
      }
      LookupPresent(s[1..], key, i - 1);
    }
  }

  /** The keyspace's point read: the key is stored under the keyspace prefix. */
  function Get(s: Store, prefix: Bytes, key: Bytes): Option<Bytes> {
    Lookup(s, prefix + key)
  }

  /** The keyspace's ordered iterator: the entries under `prefix`, in store order. */
  function Scan(s: Store, prefix: Bytes): (r: seq<Entry>)
    ensures forall e :: e in r ==> e in s && HasPrefix(e.key, prefix)
    ensures forall e :: e in s && HasPrefix(e.key, prefix) ==> e in r
  {
    if s == [] then []
    else if HasPrefix(s[0].key, prefix) then [s[0]] + Scan(s[1..], prefix)
    else Scan(s[1..], prefix)
  }

  /** Scanning two consecutive stretches of the store gives the entries of each, in turn. */
  lemma {:induction false} ScanAppend(s1: Store, s2: Store, prefix: Bytes)
    ensures Scan(s1 + s2, prefix) == Scan(s1, prefix) + Scan(s2, prefix)
  {
    if s1 == [] {
      assert s1 + s2 == s2;
    } else {
      assert (s1 + s2)[0] == s1[0];
      assert (s1 + s2)[1..] == s1[1..] + s2;
      ScanAppend(s1[1..], s2, prefix);
    }
  }

  /** A store whose keys all carry the prefix is scanned whole, in store order. */
  lemma {:induction false} ScanAllUnderPrefix(s: Store, prefix: Bytes)
    requires forall i :: 0 <= i < |s| ==> HasPrefix(s[i].key, prefix)
    ensures Scan(s, prefix) == s
  {
    if s != [] {
      assert forall i :: 0 <= i < |s[1..]| ==> s[1..][i] == s[i + 1];
      ScanAllUnderPrefix(s[1..], prefix);
    }
  }

  /** A key carrying two prefixes means one prefix extends the other. */
  lemma PrefixesComparable(key: Bytes, p1: Bytes, p2: Bytes)
    requires HasPrefix(key, p1) && HasPrefix(key, p2)
    ensures HasPrefix(p1, p2) || HasPrefix(p2, p1)
  {
    if |p1| <= |p2| {
      assert p2[..|p1|] == key[..|p2|][..|p1|] == key[..|p1|];
    } else {
      assert p1[..|p2|] == key[..|p1|][..|p2|] == key[..|p2|];
    }
  }

  /**
   * Two tables whose keyspace prefixes are not prefixes of each other see
   * disjoint entries of a shared store.
   */
  lemma ScanIsolation(s: Store, p1: Bytes, p2: Bytes)
    requires !HasPrefix(p1, p2) && !HasPrefix(p2, p1)
    ensures forall e :: e in Scan(s, p1) ==> e !in Scan(s, p2)
  {
    forall e | e in Scan(s, p1) && e in Scan(s, p2) ensures false {
      PrefixesComparable(e.key, p1, p2);
    }
  }
}
