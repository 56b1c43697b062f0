/**
 * The LevelDB key space the token-map queries work on, modelled as a
 * sequence of entries kept in strictly increasing key order: a sorted map.
 * Keys are strings with one character per key byte; values are raw bytes.
 */
module SortedStore {
  import opened Wrappers

  type byte = x: int | 0 <= x < 256
  type Bytes = seq<byte>

  datatype Entry = Entry(key: string, value: Bytes)

  /** Failures reported by the store itself (anything other than "not found"). */
  datatype StoreError = ReadFailed(key: string) | DeleteFailed(key: string)

  /** Byte-wise lexicographic order on keys, LevelDB's default comparator. */
  predicate KeyLess(a: string, b: string)
    decreases |a|
  {
    if a == [] then b != []
    else if b == [] then false
    else if a[0] != b[0] then a[0] < b[0]
    else KeyLess(a[1..], b[1..])
  }

  lemma {:induction false} KeyLessIrreflexive(a: string)
    ensures !KeyLess(a, a)
    decreases |a|
  {
    if a != [] {
      KeyLessIrreflexive(a[1..]);
    }
  }

  /** The store's iteration order: every key is below every later key. */
  ghost predicate Sorted(db: seq<Entry>) {
    forall i, j :: 0 <= i < j < |db| ==> KeyLess(db[i].key, db[j].key)
  }

  ghost predicate DistinctKeys(db: seq<Entry>) {
    forall i, j :: 0 <= i < j < |db| ==> db[i].key != db[j].key
  }

  lemma SortedKeysDistinct(db: seq<Entry>)
    requires Sorted(db)
    ensures DistinctKeys(db)
  {
    forall i, j | 0 <= i < j < |db|
      ensures db[i].key != db[j].key
    {
      KeyLessIrreflexive(db[i].key);
    }
  }

  lemma SortedSnoc(w: seq<Entry>, x: Entry)
    requires Sorted(w)
    requires forall e :: e in w ==> KeyLess(e.key, x.key)
    ensures Sorted(w + [x])
  {
    forall i, j | 0 <= i < j < |w + [x]|
      ensures KeyLess((w + [x])[i].key, (w + [x])[j].key)
    {
      if j == |w| {
        assert (w + [x])[i] == w[i] && w[i] in w;
      }
    }
  }

  /**
   * Get: the value stored under k, or None when the key is absent
   * (LevelDB's ErrNotFound).
   */
  function Find(db: seq<Entry>, k: string): (r: Option<Bytes>)
    ensures r.None? <==> forall i :: 0 <= i < |db| ==> db[i].key != k
    ensures r.Some? ==> exists i :: 0 <= i < |db| && db[i] == Entry(k, r.value)
    decreases |db|
  {
    if db == [] then None
    else if db[|db| - 1].key == k then Some(db[|db| - 1].value)
    else Find(db[..|db| - 1], k)
  }

  lemma {:induction false} FindAt(db: seq<Entry>, i: nat)
    requires DistinctKeys(db)
    requires i < |db|
    ensures Find(db, db[i].key) == Some(db[i].value)
    decreases |db|
  {
    if i < |db| - 1 {
      FindAt(db[..|db| - 1], i);
    }
  }

  /** True when s starts with p: LevelDB's BytesPrefix range and Go's `strings.Index(s, p) == 0`. */
  predicate HasPrefix(s: string, p: string) {
    |p| <= |s| && s[..|p|] == p
  }

  /** The entries a prefix-bounded iterator visits, in key order. */
  function PrefixRange(db: seq<Entry>, p: string): (r: seq<Entry>)
    decreases |db|
  {
    if db == [] then []
    else if HasPrefix(db[|db| - 1].key, p) then PrefixRange(db[..|db| - 1], p) + [db[|db| - 1]]
    else PrefixRange(db[..|db| - 1], p)
  }

  /** The store after deleting every key in ks; deleting a missing key is not an error. */
  function Without(db: seq<Entry>, ks: set<string>): (r: seq<Entry>)
    decreases |db|
  {
    if db == [] then []
    else if db[|db| - 1].key in ks then Without(db[..|db| - 1], ks)
    else Without(db[..|db| - 1], ks) + [db[|db| - 1]]
  }

  lemma {:induction false} PrefixRangeMember(db: seq<Entry>, p: string, e: Entry)
    ensures e in PrefixRange(db, p) <==> e in db && HasPrefix(e.key, p)
    decreases |db|
  {
    if db != [] {
      var init, last := db[..|db| - 1], db[|db| - 1];
      assert db == init + [last];
      PrefixRangeMember(init, p, e);
    }
  }

  lemma {:induction false} WithoutMember(db: seq<Entry>, ks: set<string>, e: Entry)
    ensures e in Without(db, ks) <==> e in db && e.key !in ks
    decreases |db|
  {
    if db != [] {
      var init, last := db[..|db| - 1], db[|db| - 1];
      assert db == init + [last];
      WithoutMember(init, ks, e);
    }
  }

  lemma {:induction false} PrefixRangeSorted(db: seq<Entry>, p: string)
    requires Sorted(db)
    ensures Sorted(PrefixRange(db, p))
    decreases |db|
  {
    if db != [] {
      var init, last := db[..|db| - 1], db[|db| - 1];
      PrefixRangeSorted(init, p);
      forall e | e in PrefixRange(init, p)
        ensures KeyLess(e.key, last.key)
      {
        PrefixRangeMember(init, p, e);
        var m :| 0 <= m < |init| && init[m] == e;
        assert db[m] == e;
      }
      SortedSnoc(PrefixRange(init, p), last);
    }
  }

  lemma {:induction false} WithoutSorted(db: seq<Entry>, ks: set<string>)
    requires Sorted(db)
    ensures Sorted(Without(db, ks))
    decreases |db|
  {
    if db != [] {
      var init, last := db[..|db| - 1], db[|db| - 1];
      WithoutSorted(init, ks);
      forall e | e in Without(init, ks)
        ensures KeyLess(e.key, last.key)
      {
        WithoutMember(init, ks, e);
        var m :| 0 <= m < |init| && init[m] == e;
        assert db[m] == e;
      }
      SortedSnoc(Without(init, ks), last);
    }
  }

  lemma PrefixRangeSnoc(s: seq<Entry>, x: Entry, p: string)
    ensures HasPrefix(x.key, p) ==> PrefixRange(s + [x], p) == PrefixRange(s, p) + [x]
    ensures !HasPrefix(x.key, p) ==> PrefixRange(s + [x], p) == PrefixRange(s, p)
  {
    assert (s + [x])[..|s|] == s;
  }

  lemma WithoutSnoc(s: seq<Entry>, x: Entry, ks: set<string>)
    ensures x.key in ks ==> Without(s + [x], ks) == Without(s, ks)
    ensures x.key !in ks ==> Without(s + [x], ks) == Without(s, ks) + [x]
  {
    assert (s + [x])[..|s|] == s;
  }

  lemma FindSnoc(s: seq<Entry>, x: Entry, k: string)
    ensures Find(s + [x], k) == if x.key == k then Some(x.value) else Find(s, k)
  {
    assert (s + [x])[..|s|] == s;
  }

  /** Deleting the keys of a, then those of b, deletes the keys of a + b. */
  lemma {:induction false} WithoutWithout(db: seq<Entry>, a: set<string>, b: set<string>)
    ensures Without(Without(db, a), b) == Without(db, a + b)
    decreases |db|
  {
    if db != [] {
      var init, last := db[..|db| - 1], db[|db| - 1];
      assert db == init + [last];
      WithoutWithout(init, a, b);
      WithoutSnoc(init, last, a);
      WithoutSnoc(init, last, a + b);
      if last.key !in a {
        WithoutSnoc(Without(init, a), last, b);
      }
    }
  }

  /** Deleting keys commutes with restricting to a prefix range. */
  lemma {:induction false} PrefixRangeWithout(db: seq<Entry>, p: string, ks: set<string>)
    ensures PrefixRange(Without(db, ks), p) == Without(PrefixRange(db, p), ks)
    decreases |db|
  {
    if db != [] {
      var init, last := db[..|db| - 1], db[|db| - 1];
      assert db == init + [last];
      PrefixRangeWithout(init, p, ks);
      WithoutSnoc(init, last, ks);
      PrefixRangeSnoc(init, last, p);
      if last.key !in ks {
        PrefixRangeSnoc(Without(init, ks), last, p);
      }
      if HasPrefix(last.key, p) {
        WithoutSnoc(PrefixRange(init, p), last, ks);
      }
    }
  }

  lemma {:induction false} FindWithout(db: seq<Entry>, ks: set<string>, k: string)
    ensures Find(Without(db, ks), k) == if k in ks then None else Find(db, k)
    decreases |db|
  {
    if db != [] {
      var init, last := db[..|db| - 1], db[|db| - 1];
      assert db == init + [last];
      FindWithout(init, ks, k);
      WithoutSnoc(init, last, ks);
      FindSnoc(init, last, k);
      if last.key !in ks {
        FindSnoc(Without(init, ks), last, k);
      }
    }
  }

  lemma {:induction false} FindPrefixRange(db: seq<Entry>, p: string, k: string)
    ensures Find(PrefixRange(db, p), k) == if HasPrefix(k, p) then Find(db, k) else None
    decreases |db|
  {
    if db != [] {
      var init, last := db[..|db| - 1], db[|db| - 1];
      assert db == init + [last];
      FindPrefixRange(init, p, k);
      PrefixRangeSnoc(init, last, p);
      FindSnoc(init, last, k);
      if HasPrefix(last.key, p) {
        FindSnoc(PrefixRange(init, p), last, k);
      }
    }
  }

  lemma {:induction false} WithoutNothing(db: seq<Entry>)
    ensures Without(db, {}) == db
    decreases |db|
  {
    if db != [] {
      var init, last := db[..|db| - 1], db[|db| - 1];
      assert db == init + [last];
      WithoutNothing(init);
    }
  }
}
