/**
 * The persistent store as the chat layer uses it: an ordered key-value
 * map whose keys are kept in bytewise order, with `Put` and a prefix scan
 * that yields entries in key order.
 */
module OrderedStore {
  import opened Bytes

  datatype Entry<V> = Entry(key: Bytes, value: V)

  /** The store's entries in key order. */
  type Store<V> = seq<Entry<V>>

  predicate Sorted<V>(s: Store<V>) {
    forall i, j :: 0 <= i < j < |s| ==> LexLess(s[i].key, s[j].key)
  }

  /** `Put(key, value)`: replaces the entry for `key`, or inserts one at its place in key order. */
  function Put<V>(s: Store<V>, k: Bytes, v: V): (r: Store<V>)
    ensures Entry(k, v) in r
    ensures forall e :: e in r ==> e == Entry(k, v) || e in s
    ensures |s| <= |r| <= |s| + 1
  {
    if s == [] then [Entry(k, v)]
    else if s[0].key == k then [Entry(k, v)] + s[1..]
    else if LexLess(k, s[0].key) then [Entry(k, v)] + s
    else [s[0]] + Put(s[1..], k, v)
  }

  lemma {:induction false} SortedTail<V>(s: Store<V>)
    requires Sorted(s) && s != []
    ensures Sorted(s[1..])
    ensures forall e :: e in s[1..] ==> LexLess(s[0].key, e.key)
  {
  }

  /** After `Put`, the store holds the new entry and every old entry under another key, nothing else. */
  lemma {:induction false} PutContents<V>(s: Store<V>, k: Bytes, v: V)
    requires Sorted(s)
    ensures Entry(k, v) in Put(s, k, v)
    ensures forall e :: e in Put(s, k, v) ==> e == Entry(k, v) || (e in s && e.key != k)
    ensures forall e :: e in s && e.key != k ==> e in Put(s, k, v)
  {
    if s != [] {
      SortedTail(s);
      if s[0].key == k {
        forall e | e in s[1..] ensures e.key != k {
          LexLessIrreflexive(k);
        }
      } else if LexLess(k, s[0].key) {
        forall e | e in s ensures e.key != k {
          if e != s[0] {
            assert e in s[1..];
            LexLessTransitive(k, s[0].key, e.key);
            LexLessIrreflexive(k);
          }
        }
      } else {
        PutContents(s[1..], k, v);
      }
    }
  }

  /** `Put` keeps the entries in strictly increasing key order, so every key occurs once. */
  lemma {:induction false} PutSorted<V>(s: Store<V>, k: Bytes, v: V)
    requires Sorted(s)
    ensures Sorted(Put(s, k, v))
  {
    if s != [] {
      SortedTail(s);
      var r := Put(s, k, v);
      if s[0].key == k {
        assert r[1..] == s[1..];
      } else if LexLess(k, s[0].key) {
        forall j | 1 <= j < |r| ensures LexLess(k, r[j].key) {
          assert r[j] == s[j - 1];
          if j > 1 {
            LexLessTransitive(k, s[0].key, s[j - 1].key);
          }
        }
      } else {
        LexLessTotal(k, s[0].key);
        PutSorted(s[1..], k, v);
        PutContents(s[1..], k, v);
        forall j | 1 <= j < |r| ensures LexLess(s[0].key, r[j].key) {
          assert r[j] in Put(s[1..], k, v);
        }
      }
    }
  }

  /** In a sorted store an entry's key identifies it. */
  lemma SortedKeysUnique<V>(s: Store<V>, e1: Entry<V>, e2: Entry<V>)
    requires Sorted(s) && e1 in s && e2 in s && e1.key == e2.key
    ensures e1 == e2
  {
    var i :| 0 <= i < |s| && s[i] == e1;
    var j :| 0 <= j < |s| && s[j] == e2;
    if i != j {
      LexLessIrreflexive(e1.key);
    }
  }

  /** The entries an iterator over `util.BytesPrefix(p)` visits, in the order it visits them. */
  function PrefixScan<V>(s: Store<V>, p: Bytes): (r: Store<V>)
    ensures forall e :: e in r ==> e in s && IsPrefix(p, e.key)
    ensures |r| <= |s|
  {
    if s == [] then []
    else (if IsPrefix(p, s[0].key) then [s[0]] else []) + PrefixScan(s[1..], p)
  }

  /** The scan visits exactly the entries whose key starts with the prefix, and in key order. */
  lemma {:induction false} PrefixScanContents<V>(s: Store<V>, p: Bytes)
    requires Sorted(s)
    ensures forall e :: e in PrefixScan(s, p) ==> e in s && IsPrefix(p, e.key)
    ensures forall e :: e in s && IsPrefix(p, e.key) ==> e in PrefixScan(s, p)
    ensures Sorted(PrefixScan(s, p))
  {
    if s != [] {
      SortedTail(s);
      PrefixScanContents(s[1..], p);
      var r := PrefixScan(s, p);
      if IsPrefix(p, s[0].key) {
        forall j | 1 <= j < |r| ensures LexLess(r[0].key, r[j].key) {
          assert r[j] in PrefixScan(s[1..], p);
        }
      }
    }
  }
}
