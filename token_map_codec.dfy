/**
 * Token-map records and their decoding from one store entry
 * (uPic/query_tokenmap.go: the constants, TokenMapItem, validate and
 * newTokenMapItem).
 */
module TokenMapCodec {
  import opened Wrappers
  import opened SortedStore

  /** Key prefix of every token-map record. */
  const TokenMapPrefixKey: string := "tmp-"
  /** Metadata key: hash over all token-map records (raw bytes). */
  const TokenMapHashKey: string := "tm-hash"
  /** Metadata key: last event id processed (decimal text). */
  const TMapLastEventIDKey: string := "tm-last-event-id"
  /** Metadata key: last checked end block (decimal text). */
  const TMapCheckedEndBlockKey: string := "tm-checked-end-block"

  // JSON field tags of a stored record. The chain-type tag keeps the
  // historical misspelling so that existing stores still decode. They are
  // documentation here: the JSON decoder itself is a parameter.
  const RootChainTypeTag: string := "roorChainType"
  const RootTokenTag: string := "rootToken"
  const ChildTokenTag: string := "childToken"
  const EventIDTag: string := "eventId"

  type uint64 = x: int | 0 <= x < 0x1_0000_0000_0000_0000

  datatype TokenMapItem = TokenMapItem(
    rootChainType: string,
    rootToken: string,
    childToken: string,
    eventID: uint64)

  /**
   * `json.Unmarshal` into a TokenMapItem: a deterministic decoder that either
   * fails or yields an item (fields missing from the JSON come out as "" or 0).
   */
  type Unmarshaler = Bytes -> Option<TokenMapItem>

  /** A record is usable when its three strings are non-empty and its event id is positive. */
  predicate Validate(item: TokenMapItem) {
    && item.rootChainType != ""
    && item.rootToken != ""
    && item.childToken != ""
    && item.eventID > 0
  }

  lemma ValidateRejectsEachViolation(item: TokenMapItem)
    ensures item.rootChainType == "" ==> !Validate(item)
    ensures item.rootToken == "" ==> !Validate(item)
    ensures item.childToken == "" ==> !Validate(item)
    ensures item.eventID == 0 ==> !Validate(item)
    ensures Validate(item) <==> item.rootChainType != "" && item.rootToken != "" && item.childToken != "" && item.eventID != 0
  {
  }

  /**
   * The two error values newTokenMapItem produces: "key format is wrong"
   * (a key outside the prefix, and also a decoded item that fails Validate)
   * and the decoder's own error.
   */
  datatype DecodeError = KeyFormatWrong | UnmarshalFailed

  /** Decodes one store entry into a record, checking the key, then the value, then the fields. */
  function NewTokenMapItem(unmarshal: Unmarshaler, key: string, value: Bytes): (r: Result<TokenMapItem, DecodeError>)
    ensures !HasPrefix(key, TokenMapPrefixKey) ==> r == Err(KeyFormatWrong)
    ensures r.Ok? <==> HasPrefix(key, TokenMapPrefixKey) && unmarshal(value).Some? && Validate(unmarshal(value).value)
    ensures r.Ok? ==> unmarshal(value) == Some(r.value) && Validate(r.value)
    ensures r == Err(UnmarshalFailed) <==> HasPrefix(key, TokenMapPrefixKey) && unmarshal(value).None?
  {
    if !HasPrefix(key, TokenMapPrefixKey) then Err(KeyFormatWrong)
    else match unmarshal(value)
      case None => Err(UnmarshalFailed)
      case Some(item) => if Validate(item) then Ok(item) else Err(KeyFormatWrong)
  }

  /** The prefix check comes first: a key outside the prefix fails whatever the value and the decoder. */
  lemma KeyCheckedBeforeValue(u1: Unmarshaler, u2: Unmarshaler, key: string, v1: Bytes, v2: Bytes)
    requires !HasPrefix(key, TokenMapPrefixKey)
    ensures NewTokenMapItem(u1, key, v1) == NewTokenMapItem(u2, key, v2) == Err(KeyFormatWrong)
  {
  }

  /** The composite key of a record: prefix, chain type and root token, no separators. */
  function RootTokenKey(rootChainType: string, rootToken: string): (key: string)
    ensures HasPrefix(key, TokenMapPrefixKey)
    ensures key[|TokenMapPrefixKey|..] == rootChainType + rootToken
  {
    TokenMapPrefixKey + rootChainType + rootToken
  }

  /**
   * With no separator, two different (chain type, root token) pairs share a
   * key whenever their concatenations agree: "a" + "bc" and "ab" + "c" name
   * the same stored record, and the point lookup returns it for both.
   */
  lemma RootTokenKeyAmbiguous(c1: string, t1: string, c2: string, t2: string)
    requires c1 + t1 == c2 + t2
    ensures RootTokenKey(c1, t1) == RootTokenKey(c2, t2)
  {
    assert TokenMapPrefixKey + c1 + t1 == TokenMapPrefixKey + (c1 + t1);
    assert TokenMapPrefixKey + c2 + t2 == TokenMapPrefixKey + (c2 + t2);
  }

  lemma RootTokenKeyCollision()
    ensures RootTokenKey("a", "bc") == RootTokenKey("ab", "c")
  {
    RootTokenKeyAmbiguous("a", "bc", "ab", "c");
  }
}
