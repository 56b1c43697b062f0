/**
 * The scan-and-repair pass of loadTokenMap and deleteKeys
 * (uPic/query_tokenmap.go:96-129), stated on store values: which records a
 * scan returns, which keys it deletes, and what the store looks like after.
 */
module ScanRepair {
  import opened Wrappers
  import opened SortedStore
  import opened TokenMapCodec

  /** The records a scan over es collects, in iteration order. */
  function Records(u: Unmarshaler, es: seq<Entry>): (r: seq<TokenMapItem>)
    ensures forall x :: x in r ==> Validate(x)
    decreases |es|
  {
    if es == [] then []
    else
      var d := NewTokenMapItem(u, es[|es| - 1].key, es[|es| - 1].value);
      if d.Ok? then Records(u, es[..|es| - 1]) + [d.value] else Records(u, es[..|es| - 1])
  }

  /** The keys a scan over es batches for deletion, in iteration order. */
  function FailedKeys(u: Unmarshaler, es: seq<Entry>): (r: seq<string>)
    decreases |es|
  {
    if es == [] then []
    else if NewTokenMapItem(u, es[|es| - 1].key, es[|es| - 1].value).Err? then FailedKeys(u, es[..|es| - 1]) + [es[|es| - 1].key]
    else FailedKeys(u, es[..|es| - 1])
  }

  lemma RecordsSnoc(u: Unmarshaler, s: seq<Entry>, x: Entry)
    ensures NewTokenMapItem(u, x.key, x.value).Ok? ==> Records(u, s + [x]) == Records(u, s) + [NewTokenMapItem(u, x.key, x.value).value]
    ensures NewTokenMapItem(u, x.key, x.value).Err? ==> Records(u, s + [x]) == Records(u, s)
  {
    assert (s + [x])[..|s|] == s;
  }

  lemma FailedKeysSnoc(u: Unmarshaler, s: seq<Entry>, x: Entry)
    ensures FailedKeys(u, s + [x]) == if NewTokenMapItem(u, x.key, x.value).Err? then FailedKeys(u, s) + [x.key] else FailedKeys(u, s)
  {
    assert (s + [x])[..|s|] == s;
  }

  /** A key is batched for deletion exactly when some visited entry with that key fails to decode. */
  lemma {:induction false} FailedKeysMember(u: Unmarshaler, es: seq<Entry>, k: string)
    ensures k in FailedKeys(u, es) <==>
      exists i :: 0 <= i < |es| && es[i].key == k && NewTokenMapItem(u, es[i].key, es[i].value).Err?
    decreases |es|
  {
    if es != [] {
      var init, last := es[..|es| - 1], es[|es| - 1];
      assert es == init + [last];
      FailedKeysMember(u, init, k);
      if k in FailedKeys(u, init) {
        var i :| 0 <= i < |init| && init[i].key == k && NewTokenMapItem(u, init[i].key, init[i].value).Err?;
        assert es[i] == init[i];
      }
    }
  }

  /** Every visited entry ends up either as a record or as a key to delete. */
  lemma {:induction false} ScanPartitions(u: Unmarshaler, es: seq<Entry>)
    ensures |Records(u, es)| + |FailedKeys(u, es)| == |es|
    decreases |es|
  {
    if es != [] {
      ScanPartitions(u, es[..|es| - 1]);
    }
  }

  /** A failing entry does not stop the scan: what follows it is collected as usual. */
  lemma {:induction false} ScanContinuesPastFailures(u: Unmarshaler, a: seq<Entry>, b: seq<Entry>)
    ensures Records(u, a + b) == Records(u, a) + Records(u, b)
    ensures FailedKeys(u, a + b) == FailedKeys(u, a) + FailedKeys(u, b)
    decreases |b|
  {
    if b == [] {
      assert a + b == a;
    } else {
      var init, last := b[..|b| - 1], b[|b| - 1];
      assert a + b == (a + init) + [last];
      assert b == init + [last];
      ScanContinuesPastFailures(u, a, init);
      RecordsSnoc(u, a + init, last);
      RecordsSnoc(u, init, last);
      FailedKeysSnoc(u, a + init, last);
      FailedKeysSnoc(u, init, last);
      var ra, ri := Records(u, a), Records(u, init);
      var fa, fi := FailedKeys(u, a), FailedKeys(u, init);
      var d := NewTokenMapItem(u, last.key, last.value);
      if d.Ok? {
        assert (ra + ri) + [d.value] == ra + (ri + [d.value]);
      } else {
        assert (fa + fi) + [last.key] == fa + (fi + [last.key]);
      }
    }
  }

  /**
   * The positions of the entries that decode: Records lists exactly the
   * decoded entries, one for each such position, in increasing position order.
   */
  ghost function DecodedPositions(u: Unmarshaler, es: seq<Entry>): (idx: seq<nat>)
    ensures |idx| == |Records(u, es)|
    ensures forall k :: 0 <= k < |idx| ==>
      idx[k] < |es| && NewTokenMapItem(u, es[idx[k]].key, es[idx[k]].value) == Ok(Records(u, es)[k])
    ensures forall k, l :: 0 <= k < l < |idx| ==> idx[k] < idx[l]
    ensures forall i :: 0 <= i < |es| && NewTokenMapItem(u, es[i].key, es[i].value).Ok? ==> i in idx
    decreases |es|
  {
    if es == [] then []
    else
      var init := es[..|es| - 1];
      var rest := DecodedPositions(u, init);
      if NewTokenMapItem(u, es[|es| - 1].key, es[|es| - 1].value).Ok? then rest + [|es| - 1] else rest
  }

  /** Removing from es exactly the keys of its failing entries keeps every record and leaves nothing to delete. */
  lemma {:induction false} RemovingFailedKeys(u: Unmarshaler, es: seq<Entry>, ks: set<string>)
    requires forall i :: 0 <= i < |es| ==> (es[i].key in ks <==> NewTokenMapItem(u, es[i].key, es[i].value).Err?)
    ensures Records(u, Without(es, ks)) == Records(u, es)
    ensures FailedKeys(u, Without(es, ks)) == []
    decreases |es|
  {
    if es != [] {
      var init, last := es[..|es| - 1], es[|es| - 1];
      assert es == init + [last];
      RemovingFailedKeys(u, init, ks);
      WithoutSnoc(init, last, ks);
      RecordsSnoc(u, init, last);
      if last.key !in ks {
        RecordsSnoc(u, Without(init, ks), last);
        FailedKeysSnoc(u, Without(init, ks), last);
      }
    }
  }

  lemma {:induction false} FailedKeysSorted(u: Unmarshaler, es: seq<Entry>)
    requires Sorted(es)
    ensures forall i, j :: 0 <= i < j < |FailedKeys(u, es)| ==> KeyLess(FailedKeys(u, es)[i], FailedKeys(u, es)[j])
    decreases |es|
  {
    if es != [] {
      var init, last := es[..|es| - 1], es[|es| - 1];
      assert es == init + [last];
      FailedKeysSorted(u, init);
      FailedKeysSnoc(u, init, last);
      var f := FailedKeys(u, init);
      forall i | 0 <= i < |f|
        ensures KeyLess(f[i], last.key)
      {
        assert f[i] in f;
        FailedKeysMember(u, init, f[i]);
        var m :| 0 <= m < |init| && init[m].key == f[i] && NewTokenMapItem(u, init[m].key, init[m].value).Err?;
        assert es[m] == init[m];
      }
    }
  }

  /** The token-map entries of the store, as loadTokenMap's prefix iterator visits them. */
  function TokenMapEntries(db: seq<Entry>): seq<Entry> {
    PrefixRange(db, TokenMapPrefixKey)
  }

  function ScanRecords(u: Unmarshaler, db: seq<Entry>): seq<TokenMapItem> {
    Records(u, TokenMapEntries(db))
  }

  function ScanFailedKeys(u: Unmarshaler, db: seq<Entry>): seq<string> {
    FailedKeys(u, TokenMapEntries(db))
  }

  function Elements(ks: seq<string>): set<string> {
    set k | k in ks
  }

  /** The number of deletions deleteKeys performs before the first one that fails (|ks| when none fails). */
  function FirstIn(ks: seq<string>, faults: set<string>): (n: nat)
    ensures n <= |ks|
    ensures forall i :: 0 <= i < n ==> ks[i] !in faults
    ensures n < |ks| ==> ks[n] in faults
    decreases |ks|
  {
    if ks == [] || ks[0] in faults then 0 else 1 + FirstIn(ks[1..], faults)
  }

  /** What deleteKeys returns when the deletes of the keys in faults fail. */
  function DeleteResult(ks: seq<string>, faults: set<string>): (r: Outcome<StoreError>)
    ensures r == Pass <==> Elements(ks) !! faults
    ensures r.Fail? ==> r.error.DeleteFailed? && r.error.key in ks && r.error.key in faults
  {
    var n := FirstIn(ks, faults);
    assert n < |ks| ==> ks[n] in Elements(ks);
    if n < |ks| then Fail(DeleteFailed(ks[n])) else Pass
  }

  /** The store after deleteKeys: the keys before the first failing delete are gone. */
  function StoreAfterDelete(db: seq<Entry>, ks: seq<string>, faults: set<string>): seq<Entry> {
    Without(db, Elements(ks[..FirstIn(ks, faults)]))
  }

  /** What loadTokenMap returns on the store db. */
  function LoadResult(u: Unmarshaler, db: seq<Entry>, faults: set<string>): (r: Result<seq<TokenMapItem>, StoreError>)
    ensures r.Ok? <==> Elements(ScanFailedKeys(u, db)) !! faults
    ensures r.Ok? ==> r.value == ScanRecords(u, db)
    ensures r.Err? ==> r.error.DeleteFailed? && r.error.key in ScanFailedKeys(u, db) && r.error.key in faults
  {
    match DeleteResult(ScanFailedKeys(u, db), faults)
    case Fail(e) => Err(e)
    case Pass => Ok(ScanRecords(u, db))
  }

  /** The store after loadTokenMap on db. */
  function StoreAfterLoad(u: Unmarshaler, db: seq<Entry>, faults: set<string>): seq<Entry> {
    StoreAfterDelete(db, ScanFailedKeys(u, db), faults)
  }

  /** With no failing delete among the batched keys, the scan returns its records and deletes the whole batch. */
  lemma LoadWithoutDeleteFaults(u: Unmarshaler, db: seq<Entry>, faults: set<string>)
    requires Elements(ScanFailedKeys(u, db)) !! faults
    ensures LoadResult(u, db, faults) == Ok(ScanRecords(u, db))
    ensures StoreAfterLoad(u, db, faults) == Without(db, Elements(ScanFailedKeys(u, db)))
  {
    var failed := ScanFailedKeys(u, db);
    var n := FirstIn(failed, faults);
    assert forall i :: 0 <= i < |failed| ==> failed[i] in Elements(failed);
    assert failed[..n] == failed;
  }

  /** A key is batched by the scan exactly when it is a token-map key whose stored value fails to decode. */
  lemma ScanFailedKeyIff(u: Unmarshaler, db: seq<Entry>, k: string)
    requires Sorted(db)
    ensures k in ScanFailedKeys(u, db) <==>
      HasPrefix(k, TokenMapPrefixKey) && Find(db, k).Some? && NewTokenMapItem(u, k, Find(db, k).value).Err?
  {
    var es := TokenMapEntries(db);
    PrefixRangeSorted(db, TokenMapPrefixKey);
    SortedKeysDistinct(es);
    FailedKeysMember(u, es, k);
    FindPrefixRange(db, TokenMapPrefixKey, k);
    if k in ScanFailedKeys(u, db) {
      var i :| 0 <= i < |es| && es[i].key == k && NewTokenMapItem(u, es[i].key, es[i].value).Err?;
      PrefixRangeMember(db, TokenMapPrefixKey, es[i]);
      FindAt(es, i);
    }
    if HasPrefix(k, TokenMapPrefixKey) && Find(db, k).Some? {
      var i :| 0 <= i < |es| && es[i] == Entry(k, Find(es, k).value);
    }
  }

  /**
   * After a successful scan, a key is gone exactly when it was a token-map
   * key whose value failed to decode; every other key, inside the prefix or
   * outside it, keeps its value.
   */
  lemma RepairShape(u: Unmarshaler, db: seq<Entry>, faults: set<string>, k: string)
    requires Sorted(db)
    requires LoadResult(u, db, faults).Ok?
    ensures Find(StoreAfterLoad(u, db, faults), k) ==
      if HasPrefix(k, TokenMapPrefixKey) && Find(db, k).Some? && NewTokenMapItem(u, k, Find(db, k).value).Err?
      then None
      else Find(db, k)
  {
    var failed := ScanFailedKeys(u, db);
    assert failed[..FirstIn(failed, faults)] == failed;
    FindWithout(db, Elements(failed), k);
    ScanFailedKeyIff(u, db, k);
  }

  /**
   * Repair is idempotent: the scan after a successful one finds nothing to
   * delete, deletes nothing whatever fails, and returns the same records.
   */
  lemma ScanIdempotent(u: Unmarshaler, db: seq<Entry>, faults: set<string>, faults2: set<string>)
    requires Sorted(db)
    requires LoadResult(u, db, faults).Ok?
    ensures ScanFailedKeys(u, StoreAfterLoad(u, db, faults)) == []
    ensures LoadResult(u, StoreAfterLoad(u, db, faults), faults2) == LoadResult(u, db, faults)
    ensures StoreAfterLoad(u, StoreAfterLoad(u, db, faults), faults2) == StoreAfterLoad(u, db, faults)
  {
    var es := TokenMapEntries(db);
    var failed := ScanFailedKeys(u, db);
    var ks := Elements(failed);
    assert failed[..FirstIn(failed, faults)] == failed;
    var db2 := Without(db, ks);
    assert StoreAfterLoad(u, db, faults) == db2;
    PrefixRangeWithout(db, TokenMapPrefixKey, ks);
    PrefixRangeSorted(db, TokenMapPrefixKey);
    SortedKeysDistinct(es);
    forall i | 0 <= i < |es|
      ensures es[i].key in ks <==> NewTokenMapItem(u, es[i].key, es[i].value).Err?
    {
      FailedKeysMember(u, es, es[i].key);
    }
    RemovingFailedKeys(u, es, ks);
    assert ScanFailedKeys(u, db2) == [];
    var none: seq<string> := [];
    assert none[..FirstIn(none, faults2)] == none;
    assert Elements(none) == {};
    WithoutNothing(db2);
  }

  /**
   * A failing delete ends the repair: the keys batched before it are gone,
   * and the failing key and every key after it are still stored; the scan
   * reports that delete's error and no records.
   */
  lemma LoadFailureLeavesRest(u: Unmarshaler, db: seq<Entry>, faults: set<string>)
    requires Sorted(db)
    requires LoadResult(u, db, faults).Err?
    ensures var failed := ScanFailedKeys(u, db);
      var n := FirstIn(failed, faults);
      && n < |failed|
      && failed[n] in faults
      && LoadResult(u, db, faults) == Err(DeleteFailed(failed[n]))
      && (forall j :: 0 <= j < n ==> Find(StoreAfterLoad(u, db, faults), failed[j]) == None)
      && (forall j :: n <= j < |failed| ==>
            Find(StoreAfterLoad(u, db, faults), failed[j]) == Find(db, failed[j]) && Find(db, failed[j]).Some?)
  {
    var failed := ScanFailedKeys(u, db);
    var n := FirstIn(failed, faults);
    var done := Elements(failed[..n]);
    PrefixRangeSorted(db, TokenMapPrefixKey);
    FailedKeysSorted(u, TokenMapEntries(db));
    forall j | 0 <= j < |failed|
      ensures Find(StoreAfterLoad(u, db, faults), failed[j]) == if j < n then None else Find(db, failed[j])
      ensures Find(db, failed[j]).Some?
    {
      FindWithout(db, done, failed[j]);
      ScanFailedKeyIff(u, db, failed[j]);
      if j < n {
        assert failed[..n][j] == failed[j];
      } else {
        forall m | 0 <= m < n
          ensures failed[..n][m] != failed[j]
        {
          KeyLessIrreflexive(failed[j]);
        }
        assert failed[j] !in done;
      }
    }
  }
}
