# Token-map query model

A Dafny model of the token-map query tool in `uPic/query_tokenmap.go`. The
tool opens a LevelDB store of cross-chain token mappings. It scans every
record under the key prefix `"tmp-"`, decodes each value and validates it.
It deletes the entries that fail to decode, so that later scans do not trip
over them. The records that survive back several read-only views:

- all records grouped by root chain type;
- the records of one chain type;
- a point lookup by `"tmp-" + chain type + root token`;
- the raw key list;
- three metadata values (`tm-hash`, `tm-last-event-id`, `tm-checked-end-block`).

## Structure

- `wrappers.dfy` (`Wrappers`): Option, Result and Outcome.
- `sorted_store.dfy` (`SortedStore`): the store as a sequence of entries in
  strictly increasing byte-wise key order, which is a sorted map. It defines
  Get (`Find`), the prefix-bounded iteration (`PrefixRange`), deletion
  (`Without`) and the lemmas that relate them.
- `token_map_codec.dfy` (`TokenMapCodec`): the constants, the record,
  `validate` (`Validate`) and `newTokenMapItem` (`NewTokenMapItem`).
- `scan_repair.dfy` (`ScanRepair`): what a scan collects, what it batches for
  deletion, and what the store looks like afterwards. This is where repair,
  idempotence and partial failure are proved.
- `key_aliasing.dfy` (`KeyAliasing`): the batch of failing keys as the source
  builds it, out of the iterator's reused key buffer rather than copies. It
  exhibits where that batch deletes the wrong record (see the Findings table).
- `grouping.dfy` (`Grouping`): the grouping by chain type and its loop.
- `metadata_format.dfy` (`MetadataFormat`): the metadata record. It also
  holds the `%x` hex form of the hash, with its inverse.
- `token_map_query.dfy` (`TokenMapQueries`): class `TokenMapQuery` over the
  store held in field `db`, with the source's operations as methods
  (state-changing) and functions (read-only).

Environment inputs are parameters:

- `json.Unmarshal` is the class constant `unmarshal`. It is a deterministic
  function from bytes to `Option<TokenMapItem>`.
- LevelDB's own failures are sets of keys. For `faults`, `Delete` of that key
  fails. For `readFaults`, `Get` of that key fails with an error other than
  "not found".

Every string in the model stands for a Go byte string: keys, record fields
and metadata text are strings with one character per byte, and only
characters below 256 occur. The types do not enforce this (`string` allows
any character); `KeyLess` is byte-wise order and `RootTokenKey` is Go's
`Sprintf` only under this reading. Values are byte sequences.
`EventID` is a `uint64` subset type.

The model follows the code as written. Three consequences a reader may not
expect:

- A decoded record that fails `validate` is reported with the same "key
  format is wrong" error as a key outside the prefix. So `DecodeError` has
  two cases, `KeyFormatWrong` and `UnmarshalFailed`, not three.
- `GetTokenMap` never creates an empty group. A chain whose only record was
  invalid has no entry at all in the result, rather than an empty list.
  `Grouping.GroupedByChain` proves that every group is non-empty.
- Any delete failure makes the whole scan fail with that error and no
  records. The keys deleted before it stay deleted.

The point-lookup key joins chain type and root token with no separator, so
two different pairs share a key whenever their concatenations agree
(`TokenMapCodec.RootTokenKeyAmbiguous`). `GetTokenMapByRootToken("a", "bc")`
returns the record stored for chain "ab" and token "c", because the source
never compares the decoded record with its arguments.

## Model

| member | source | states |
|---|---|---|
| `TokenMapCodec.Validate` | uPic/query_tokenmap.go:32-40 | the validity test itself; `ValidateRejectsEachViolation` states it as four conditions, each necessary |
| `TokenMapCodec.ValidateRejectsEachViolation` | uPic/query_tokenmap.go:32-40 | a record is valid exactly when its three strings are non-empty and its event id is positive; each single violation makes it invalid |
| `TokenMapCodec.NewTokenMapItem` | uPic/query_tokenmap.go:132-147 | a key outside "tmp-" gives KeyFormatWrong; decoding succeeds exactly when the key is prefixed, the value unmarshals and the item validates; a success is the unmarshalled item and is valid; UnmarshalFailed exactly for a prefixed key whose value does not parse |
| `TokenMapCodec.KeyCheckedBeforeValue` | uPic/query_tokenmap.go:133-135 | for a key outside the prefix the result is KeyFormatWrong whatever the value and whatever the decoder |
| `TokenMapCodec.RootTokenKey` | uPic/query_tokenmap.go:151 | the point-lookup key starts with "tmp-" followed by chain type then root token, no separator |
| `TokenMapCodec.RootTokenKeyAmbiguous` | uPic/query_tokenmap.go:151 | two (chain type, root token) pairs whose concatenations agree share one point-lookup key, so chain "a" with token "bc" and chain "ab" with token "c" collide |
| `SortedStore.Find` | uPic/query_tokenmap.go:153-156 | Get returns "not found" exactly when no entry has the key, and otherwise a value stored under that key |
| `SortedStore.HasPrefix` | uPic/query_tokenmap.go:133 | `strings.Index(key, prefix) == 0`: the key starts with the prefix; `NewTokenMapItem`'s ensures use it for the key check |
| `SortedStore.PrefixRange` | uPic/query_tokenmap.go:168 | the entries a `BytesPrefix` iterator visits, in key order; `PrefixRangeMember` and `PrefixRangeSorted` characterise it |
| `SortedStore.Without` | uPic/query_tokenmap.go:124 | the store after deleting a set of keys, a missing key being no error; `WithoutMember`, `WithoutSorted` and `FindWithout` characterise it |
| `SortedStore.PrefixRangeMember` | uPic/query_tokenmap.go:101 | the prefix iterator visits exactly the stored entries whose key has the prefix |
| `SortedStore.WithoutSorted` | uPic/query_tokenmap.go:124 | deleting keys keeps the store in strict key order |
| `ScanRepair.Records` | uPic/query_tokenmap.go:104-111 | every record a scan collects satisfies validate |
| `ScanRepair.DecodedPositions` | uPic/query_tokenmap.go:101-111 | the scan result holds one record per entry that decodes, equal to its decoding, in increasing key (iteration) order, and every decodable entry is included |
| `ScanRepair.FailedKeys` | uPic/query_tokenmap.go:104-110 | `errorItems`, read as copies of the failing keys; `FailedKeysMember`, `ScanPartitions` and `FailedKeysSorted` characterise it |
| `ScanRepair.FailedKeysMember` | uPic/query_tokenmap.go:105-110 | a key is batched for deletion exactly when a visited entry with that key fails to decode |
| `ScanRepair.ScanPartitions` | uPic/query_tokenmap.go:104-111 | every visited entry becomes either a record or a batched key |
| `ScanRepair.ScanContinuesPastFailures` | uPic/query_tokenmap.go:104-111 | scanning a + b collects the records and failed keys of a followed by those of b, so a failing entry never stops the scan |
| `ScanRepair.FirstIn` | uPic/query_tokenmap.go:123-127 | the number of deletes done is the position of the first failing key: all keys before it succeed |
| `ScanRepair.ScanFailedKeyIff` | uPic/query_tokenmap.go:101-110 | a key is batched exactly when it has the prefix, is stored, and its value fails to decode |
| `ScanRepair.DeleteResult` | uPic/query_tokenmap.go:122-129 | deleteKeys succeeds exactly when no batched key is a failing delete; its error names a batched key whose delete fails |
| `ScanRepair.StoreAfterDelete` | uPic/query_tokenmap.go:122-129 | the store after deleteKeys, the keys before the first failing delete removed; `TokenMapQuery.DeleteKeys` is proved to leave exactly this store |
| `ScanRepair.LoadResult` | uPic/query_tokenmap.go:97-119 | loadTokenMap succeeds exactly when no batched key fails to delete, and then returns the scan's records; otherwise the error of a batched key whose delete fails |
| `ScanRepair.StoreAfterLoad` | uPic/query_tokenmap.go:113-118 | the store after loadTokenMap; `RepairShape`, `ScanIdempotent` and `LoadFailureLeavesRest` characterise it |
| `ScanRepair.LoadWithoutDeleteFaults` | uPic/query_tokenmap.go:113-118 | when no batched delete fails, loadTokenMap returns all decoded records and deletes the whole batch |
| `ScanRepair.RepairShape` | uPic/query_tokenmap.go:104-118 | after a successful scan a key is gone exactly when it was a prefixed key whose value failed to decode; every decoded key and every key outside the prefix keeps its value |
| `ScanRepair.ScanIdempotent` | uPic/query_tokenmap.go:104-118 | after a successful scan, a second scan batches nothing, deletes nothing whatever deletes would fail, and returns the same records |
| `ScanRepair.LoadFailureLeavesRest` | uPic/query_tokenmap.go:114-129 | when a delete fails, loadTokenMap returns that key's error and no records; the keys batched before it are deleted; it and the keys after it are still stored |
| `KeyAliasing.StoreKey` | uPic/query_tokenmap.go:104-108 | each Next leaves the new key at the front of the current buffer: in place when it fits, the rest of that buffer and every other buffer unchanged; otherwise in one fresh buffer whose capacity grow gives for the key's length, all earlier buffers unchanged |
| `KeyAliasing.AliasedScan` | uPic/query_tokenmap.go:104-110 | the scan as written batches one iterator slice per entry that fails to decode, as many as the copying batch, each inside a live buffer |
| `KeyAliasing.AliasedFailedKeys` | uPic/query_tokenmap.go:108-114 | the batch as written, each appended `iter.Key()` slice read when deleteKeys runs; as long as the copying batch, and equal to it or not as the lemmas below show |
| `KeyAliasing.AliasedAgreesWithoutReuse` | uPic/query_tokenmap.go:104-110 | when every key is longer than the one before and buffers are sized exactly, no buffer is rewritten and the batch as written equals the copying batch |
| `KeyAliasing.SameLengthKeyOverwritesBatch` | uPic/query_tokenmap.go:104-110 | a failing entry followed by a decodable one with a key of the same length: the batch as written holds the decodable entry's key, for every buffer capacity |
| `KeyAliasing.AliasedBatchDeletesTheWrongKey` | uPic/query_tokenmap.go:104-118 | on the store "tmp-ethereumA1" (bad value), "tmp-ethereumA2" (valid), the batch as written names the valid record; deleting it leaves no records and the same bad key for the next scan |
| `TokenMapQueries.TokenMapQuery.constructor` | uPic/query_tokenmap.go:54 | a query object over an already-open store in key order |
| `TokenMapQueries.TokenMapQuery.Delete` | uPic/query_tokenmap.go:124 | a delete removes the key, or fails changing nothing, and keeps the store sorted |
| `TokenMapQueries.TokenMapQuery.DeleteKeys` | uPic/query_tokenmap.go:122-129 | deletes the keys in order up to the first failure, returns that failure or success |
| `TokenMapQueries.TokenMapQuery.LoadTokenMap` | uPic/query_tokenmap.go:97-119 | returns and leaves the store exactly as the scan-repair functions describe |
| `TokenMapQueries.TokenMapQuery.GetTokenMap` | uPic/query_tokenmap.go:63-80 | the loaded records grouped by chain type, or the scan's error; the store is repaired as by loadTokenMap |
| `TokenMapQueries.TokenMapQuery.GetTokenMapByRootType` | uPic/query_tokenmap.go:83-94 | exactly the loaded records of that chain type in scan order, the empty sequence (not an error) for an unknown chain type |
| `TokenMapQueries.TokenMapQuery.GetTokenMapByRootToken` | uPic/query_tokenmap.go:150-162 | a missing key gives Ok(None) and only a missing key does; a returned record is the valid decoding of the stored value; a read failure is an error; otherwise an error is the decode error of the stored value under that key |
| `TokenMapQueries.PointLookupAgreesWithScan` | uPic/query_tokenmap.go:150-162 | a record found by point lookup is one of the scan's records; the lookup fails to decode exactly for keys a scan would delete |
| `TokenMapQueries.TokenMapQuery.GetAllKeys` | uPic/query_tokenmap.go:165-176 | lists exactly the stored keys with the prefix, in strictly increasing key order, without decoding or changing the store |
| `TokenMapQueries.TokenMapQuery.GetMetadata` | uPic/query_tokenmap.go:179-204 | each field is present exactly when its key is stored; the hash is hex that reads back to the stored bytes; the other two are the stored bytes as text; a read failure is reported for the first failing key in the order hash, last event id, end block |
| `TokenMapQueries.MetadataAllAbsent` | uPic/query_tokenmap.go:179-204 | with no metadata key stored, the result is three absent fields, not an error |
| `Grouping.ChainFilter` | uPic/query_tokenmap.go:71-77 | a chain's group holds only records of that chain type |
| `Grouping.ChainPositions` | uPic/query_tokenmap.go:71-77 | a chain's group is exactly that chain's records in scan order |
| `Grouping.GroupByChain` | uPic/query_tokenmap.go:64-79 | the map GetTokenMap builds; `GroupAt` and `GroupedByChain` characterise it by chain type |
| `Grouping.GroupAt` | uPic/query_tokenmap.go:71-79 | the result has a group for exactly the chain types that occur, and the group is that chain's records in scan order |
| `Grouping.GroupedByChain` | uPic/query_tokenmap.go:71-79 | no group is empty, every member of group c has chain type c, and every record is in its chain's group |
| `Grouping.UnknownChainIsEmpty` | uPic/query_tokenmap.go:89-93 | a chain type with no group has no records |
| `Grouping.GroupSizesSum` | uPic/query_tokenmap.go:331-338 | the group sizes add up to the number of loaded records |
| `Grouping.GroupRecords` | uPic/query_tokenmap.go:64-77 | the grouping loop builds GroupByChain of the loaded records: a group for exactly the chain types that occur, each non-empty and holding that chain's records in scan order |
| `MetadataFormat.BytesToString` | uPic/query_tokenmap.go:191 | `string(bytes)`: one character per byte, byte values kept |
| `MetadataFormat.Hex` | uPic/query_tokenmap.go:184 | "%x" gives two lower-case hex digits per byte |
| `MetadataFormat.UnhexHex` | uPic/query_tokenmap.go:184 | the hex form reads back into the stored bytes, so no information is lost |

## Findings

| source | as written | input that shows it | evidently intended | confidence | as-written member | corrected member |
|---|---|---|---|---|---|---|
| uPic/query_tokenmap.go:108 | `errorItems = append(errorItems, iter.Key())` batches the iterator's own key slice; the LevelDB iterator rewrites that buffer on every `Next` when the next key fits | "tmp-ethereumA1" whose value is not JSON, then "tmp-ethereumA2" holding a valid record: the batch reads "tmp-ethereumA2", so the valid record is deleted and the bad one stays | batch a copy of each failing key, so exactly the failing keys are deleted and a second scan deletes nothing (`ScanRepair.RepairShape`, `ScanRepair.ScanIdempotent`) | medium, not executed; depends on the LevelDB library's documented buffer reuse, whose text is not part of this model | `KeyAliasing.AliasedBatchDeletesTheWrongKey` | `ScanRepair.FailedKeys` |

## Left out

- `main` (command-line parsing, dispatch, printing, exit codes) is presentation. Its `count` command sums group sizes; `Grouping.GroupSizesSum` states that this sum equals the number of loaded records.
- `NewTokenMapQuery` and `Close` open and close LevelDB files. The model starts from an already-open store given to the constructor.
- The JSON grammar: `json.Unmarshal` is an abstract, deterministic decoder. The way it turns missing fields into "" or 0 is left to that decoder.
- The warning `Printf` in the scan loop and the iterator's `Release` are output and resource handling.
- LevelDB's internals: iterator snapshots, write-ahead logging, compaction and concurrent writers. The model sees one sequential caller. A failing `Delete` changes nothing.
- The iterator's own error (`iter.Error()` is never consulted by the source), so the model's scan cannot fail while iterating.
- Go's nil slice for "no keys" or "unknown chain" is the empty sequence. The untyped metadata map is a record of three optional fields, keyed as the source keys it (`hash`, `lastEventID`, `checkedEndBlock`).
- The proxy-hook scripts `uPic/jhcloudf1.js`, `uPic/jhcf.js`, `uPic/jhcar.js` and `uPic/jscn1.js` are network and UI glue. They are not part of this model.
- `ScanRepair.FailedKeys`: batched keys are modelled as copies of the visited keys. The source keeps the iterator's own slices, which the library may overwrite on the next step. `KeyAliasing` models that reading separately; the class methods use the copying one.
- `ScanRepair.RepairShape` holds only under the copying reading of the batch. As written, a later key of the same length can overwrite a batched one (`KeyAliasing.AliasedBatchDeletesTheWrongKey`).
- `ScanRepair.ScanIdempotent` holds only under the copying reading of the batch, for the same reason.
- `KeyAliasing.StoreKey`: the capacity of a fresh buffer is a parameter `grow(n) >= n` of the key length alone; Go's `append` also takes the old buffer's capacity into account. The iterator also copies the deleted keys (tombstones) it skips into the same buffer; these writes are not modelled, so the as-written batch of a rescan after the wrong repair may read a different key than the copying one (`AliasedBatchDeletesTheWrongKey` states the rescan only for the copying batch). The library's Release and its value buffers are not modelled either.
- String characters at or above 256 are not excluded by the types. The model reads every string as a byte string, as stated above.
