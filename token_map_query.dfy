/**
 * The query object over an already-open store (uPic/query_tokenmap.go:
 * TokenMapQuery and its methods). The store is the `db` field; LevelDB's
 * own failures are parameters naming the keys whose operations fail.
 */
module TokenMapQueries {
  import opened Wrappers
  import opened SortedStore
  import opened TokenMapCodec
  import opened ScanRepair
  import opened Grouping
  import opened MetadataFormat

  /** Errors a point lookup reports: the store's own, or the decoding error of the value found. */
  datatype QueryError = StoreFailure(storeError: StoreError) | DecodeFailure(decodeError: DecodeError)

  class TokenMapQuery {
    /** The open store, entries in key order. */
    var db: seq<Entry>
    /** json.Unmarshal into a TokenMapItem. */
    const unmarshal: Unmarshaler

    ghost predicate Valid()
      reads this
    {
      Sorted(db)
    }

    /** A query object over a store that is already open. */
    constructor (entries: seq<Entry>, unmarshal: Unmarshaler)
      requires Sorted(entries)
      ensures Valid()
      ensures db == entries && this.unmarshal == unmarshal
    {
      db := entries;
      this.unmarshal := unmarshal;
    }

    /** LevelDB's Delete: removes the key if present; fails when key is in faults, changing nothing. */
    method Delete(key: string, faults: set<string>) returns (r: Outcome<StoreError>)
      requires Valid()
      modifies this
      ensures Valid()
      ensures r == if key in faults then Fail(DeleteFailed(key)) else Pass
      ensures db == if key in faults then old(db) else Without(old(db), {key})
    {
      if key in faults {
        return Fail(DeleteFailed(key));
      }
      WithoutSorted(db, {key});
      db := Without(db, {key});
      r := Pass;
    }

    /** deleteKeys: deletes the keys in order and stops at the first failing delete. */
    method DeleteKeys(keys: seq<string>, faults: set<string>) returns (r: Outcome<StoreError>)
      requires Valid()
      modifies this
      ensures Valid()
      ensures r == DeleteResult(keys, faults)
      ensures db == StoreAfterDelete(old(db), keys, faults)
    {
      var i := 0;
      assert Elements(keys[..0]) == {};
      WithoutNothing(db);
      while i < |keys|
        invariant 0 <= i <= |keys|
        invariant Valid()
        invariant forall j :: 0 <= j < i ==> keys[j] !in faults
        invariant db == Without(old(db), Elements(keys[..i]))
      {
        r := Delete(keys[i], faults);
        if r.Fail? {
          assert FirstIn(keys, faults) == i;
          return;
        }
        WithoutWithout(old(db), Elements(keys[..i]), {keys[i]});
        assert Elements(keys[..i + 1]) == Elements(keys[..i]) + {keys[i]} by {
          assert keys[..i + 1] == keys[..i] + [keys[i]];
        }
        i := i + 1;
      }
      assert keys[..i] == keys;
      r := Pass;
    }

    /**
     * loadTokenMap: visits every token-map entry in key order, keeps the
     * records that decode, batches the keys that do not, then deletes the batch.
     */
    method LoadTokenMap(faults: set<string>) returns (r: Result<seq<TokenMapItem>, StoreError>)
      requires Valid()
      modifies this
      ensures Valid()
      ensures r == LoadResult(unmarshal, old(db), faults)
      ensures db == StoreAfterLoad(unmarshal, old(db), faults)
    {
      var errorItems: seq<string> := [];
      var result: seq<TokenMapItem> := [];
      var iter := PrefixRange(db, TokenMapPrefixKey);
      for i := 0 to |iter|
        invariant db == old(db)
        invariant result == Records(unmarshal, iter[..i])
        invariant errorItems == FailedKeys(unmarshal, iter[..i])
      {
        var item := NewTokenMapItem(unmarshal, iter[i].key, iter[i].value);
        assert iter[..i + 1] == iter[..i] + [iter[i]];
        RecordsSnoc(unmarshal, iter[..i], iter[i]);
        FailedKeysSnoc(unmarshal, iter[..i], iter[i]);
        if item.Ok? {
          result := result + [item.value];
        } else {
          errorItems := errorItems + [iter[i].key];
        }
      }
      assert iter[..|iter|] == iter;
      var deleted := DeleteKeys(errorItems, faults);
      if deleted.Fail? {
        return Err(deleted.error);
      }
      return Ok(result);
    }

    /** GetTokenMap: the scan's records grouped by root chain type. */
    method GetTokenMap(faults: set<string>) returns (r: Result<map<string, seq<TokenMapItem>>, StoreError>)
      requires Valid()
      modifies this
      ensures Valid()
      ensures db == StoreAfterLoad(unmarshal, old(db), faults)
      ensures var loaded := LoadResult(unmarshal, old(db), faults);
        r == if loaded.Ok? then Ok(GroupByChain(loaded.value)) else Err(loaded.error)
    {
      var items := LoadTokenMap(faults);
      if items.Err? {
        return Err(items.error);
      }
      var groups := GroupRecords(items.value);
      return Ok(groups);
    }

    /** GetTokenMapByRootType: one chain's group, empty (not an error) for an unknown chain. */
    method GetTokenMapByRootType(rootChainType: string, faults: set<string>) returns (r: Result<seq<TokenMapItem>, StoreError>)
      requires Valid()
      modifies this
      ensures Valid()
      ensures db == StoreAfterLoad(unmarshal, old(db), faults)
      ensures var loaded := LoadResult(unmarshal, old(db), faults);
        r == if loaded.Ok? then Ok(ChainFilter(loaded.value, rootChainType)) else Err(loaded.error)
    {
      var resultMap := GetTokenMap(faults);
      if resultMap.Err? {
        return Err(resultMap.error);
      }
      ghost var loaded := LoadResult(unmarshal, old(db), faults);
      if rootChainType in resultMap.value {
        GroupAt(loaded.value, rootChainType);
        return Ok(resultMap.value[rootChainType]);
      }
      UnknownChainIsEmpty(loaded.value, rootChainType);
      return Ok([]);
    }

    /**
     * GetTokenMapByRootToken: a point lookup of key "tmp-" + chain + token.
     * A missing key is Ok(None); a value that does not decode is reported,
     * not repaired; a read failure (key in readFaults) is the store's error.
     */
    function GetTokenMapByRootToken(rootChainType: string, rootToken: string, readFaults: set<string>): (r: Result<Option<TokenMapItem>, QueryError>)
      reads this
      ensures var key := RootTokenKey(rootChainType, rootToken);
        key in readFaults ==> r == Err(StoreFailure(ReadFailed(key)))
      ensures var key := RootTokenKey(rootChainType, rootToken);
        r == Ok(None) <==> key !in readFaults && Find(db, key).None?
      ensures var key := RootTokenKey(rootChainType, rootToken);
        r.Ok? && r.value.Some? ==>
          Find(db, key).Some? && unmarshal(Find(db, key).value) == r.value && Validate(r.value.value)
      ensures var key := RootTokenKey(rootChainType, rootToken);
        r.Err? && key !in readFaults ==>
          && Find(db, key).Some?
          && NewTokenMapItem(unmarshal, key, Find(db, key).value).Err?
          && r == Err(DecodeFailure(NewTokenMapItem(unmarshal, key, Find(db, key).value).error))
    {
      var key := RootTokenKey(rootChainType, rootToken);
      if key in readFaults then Err(StoreFailure(ReadFailed(key)))
      else
        var found := Find(db, key);
        if found.None? then Ok(None)
        else
          var decoded := NewTokenMapItem(unmarshal, key, found.value);
          if decoded.Ok? then Ok(Some(decoded.value)) else Err(DecodeFailure(decoded.error))
    }

    /** GetAllKeys: every token-map key, in key order, without decoding or deleting anything. */
    method GetAllKeys() returns (keys: seq<string>)
      requires Valid()
      ensures forall k :: k in keys <==> HasPrefix(k, TokenMapPrefixKey) && Find(db, k).Some?
      ensures forall i, j :: 0 <= i < j < |keys| ==> KeyLess(keys[i], keys[j])
    {
      keys := [];
      var iter := PrefixRange(db, TokenMapPrefixKey);
      for i := 0 to |iter|
        invariant |keys| == i
        invariant forall j :: 0 <= j < i ==> keys[j] == iter[j].key
      {
        keys := keys + [iter[i].key];
      }
      PrefixRangeSorted(db, TokenMapPrefixKey);
      forall k
        ensures k in keys <==> HasPrefix(k, TokenMapPrefixKey) && Find(db, k).Some?
      {
        FindPrefixRange(db, TokenMapPrefixKey, k);
        if k in keys {
          var j :| 0 <= j < |keys| && keys[j] == k;
          assert iter[j].key == k;
        }
      }
    }

    /**
     * GetMetadata: the hash, last event id and checked end block, each
     * present exactly when its key is stored; reads stop at the first
     * failing one, in that order.
     */
    function GetMetadata(readFaults: set<string>): (r: Result<Metadata, StoreError>)
      reads this
      ensures r.Err? ==> r.error.ReadFailed? && r.error.key in readFaults
      ensures r.Err? ==> r.error.key in {TokenMapHashKey, TMapLastEventIDKey, TMapCheckedEndBlockKey}
      ensures r == Err(ReadFailed(TMapLastEventIDKey)) ==> TokenMapHashKey !in readFaults
      ensures r == Err(ReadFailed(TMapCheckedEndBlockKey)) ==> TokenMapHashKey !in readFaults && TMapLastEventIDKey !in readFaults
      ensures r.Ok? <==> {TokenMapHashKey, TMapLastEventIDKey, TMapCheckedEndBlockKey} !! readFaults
      ensures r.Ok? ==> (r.value.hash.Some? <==> Find(db, TokenMapHashKey).Some?)
      ensures r.Ok? ==> (r.value.lastEventID.Some? <==> Find(db, TMapLastEventIDKey).Some?)
      ensures r.Ok? ==> (r.value.checkedEndBlock.Some? <==> Find(db, TMapCheckedEndBlockKey).Some?)
      ensures r.Ok? && r.value.hash.Some? ==>
        |r.value.hash.value| % 2 == 0 && forall i :: 0 <= i < |r.value.hash.value| ==> IsHexDigit(r.value.hash.value[i])
      ensures r.Ok? && r.value.hash.Some? ==> Unhex(r.value.hash.value) == Find(db, TokenMapHashKey).value
      ensures r.Ok? && r.value.lastEventID.Some? ==>
        var bs := Find(db, TMapLastEventIDKey).value;
        |r.value.lastEventID.value| == |bs| && forall i :: 0 <= i < |bs| ==> r.value.lastEventID.value[i] as int == bs[i]
      ensures r.Ok? && r.value.checkedEndBlock.Some? ==>
        var bs := Find(db, TMapCheckedEndBlockKey).value;
        |r.value.checkedEndBlock.value| == |bs| && forall i :: 0 <= i < |bs| ==> r.value.checkedEndBlock.value[i] as int == bs[i]
    {
      if TokenMapHashKey in readFaults then Err(ReadFailed(TokenMapHashKey))
      else if TMapLastEventIDKey in readFaults then Err(ReadFailed(TMapLastEventIDKey))
      else if TMapCheckedEndBlockKey in readFaults then Err(ReadFailed(TMapCheckedEndBlockKey))
      else
        var hash := Find(db, TokenMapHashKey);
        var eventID := Find(db, TMapLastEventIDKey);
        var endBlock := Find(db, TMapCheckedEndBlockKey);
        Ok(Metadata(
          if hash.Some? then UnhexHex(hash.value); Some(Hex(hash.value)) else None,
          if eventID.Some? then Some(BytesToString(eventID.value)) else None,
          if endBlock.Some? then Some(BytesToString(endBlock.value)) else None))
    }
  }

  /**
   * The point lookup agrees with the scan: what it returns is one of the
   * scan's records, and it reports a decoding error exactly for a key the
   * next scan would delete.
   */
  lemma PointLookupAgreesWithScan(q: TokenMapQuery, rootChainType: string, rootToken: string, readFaults: set<string>)
    requires q.Valid()
    requires RootTokenKey(rootChainType, rootToken) !in readFaults
    ensures var r := q.GetTokenMapByRootToken(rootChainType, rootToken, readFaults);
      r.Ok? && r.value.Some? ==> r.value.value in ScanRecords(q.unmarshal, q.db)
    ensures var r := q.GetTokenMapByRootToken(rootChainType, rootToken, readFaults);
      r.Err? <==> RootTokenKey(rootChainType, rootToken) in ScanFailedKeys(q.unmarshal, q.db)
  {
    var key := RootTokenKey(rootChainType, rootToken);
    var r := q.GetTokenMapByRootToken(rootChainType, rootToken, readFaults);
    ScanFailedKeyIff(q.unmarshal, q.db, key);
    if r.Ok? && r.value.Some? {
      var v := Find(q.db, key).value;
      var es := TokenMapEntries(q.db);
      var i :| 0 <= i < |q.db| && q.db[i] == Entry(key, v);
      PrefixRangeMember(q.db, TokenMapPrefixKey, Entry(key, v));
      var j :| 0 <= j < |es| && es[j] == Entry(key, v);
      var idx := DecodedPositions(q.unmarshal, es);
      var k :| 0 <= k < |idx| && idx[k] == j;
      assert Records(q.unmarshal, es)[k] == r.value.value;
    }
  }

  /** With no metadata keys stored and no read failures, GetMetadata reports all three as absent. */
  lemma MetadataAllAbsent(q: TokenMapQuery, readFaults: set<string>)
    requires {TokenMapHashKey, TMapLastEventIDKey, TMapCheckedEndBlockKey} !! readFaults
    requires Find(q.db, TokenMapHashKey).None?
    requires Find(q.db, TMapLastEventIDKey).None?
    requires Find(q.db, TMapCheckedEndBlockKey).None?
    ensures q.GetMetadata(readFaults) == Ok(Metadata(None, None, None))
  {
  }
}
