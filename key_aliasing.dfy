/**
 * The batch of failing keys as loadTokenMap builds it as written
 * (uPic/query_tokenmap.go:108): it appends the iterator's own key slice, not
 * a copy. The store's iterator keeps its current key in one backing buffer
 * and, on each Next, copies the new key into that buffer when it fits
 * (Go's `append(buf[:0], key...)`), allocating a fresh buffer only when it
 * does not. A slice batched earlier therefore reads whatever the buffer
 * holds when deleteKeys finally runs.
 *
 * The rest of the model uses the copying reading (ScanRepair.FailedKeys);
 * this module states where the two part ways.
 */
module KeyAliasing {
  import opened Wrappers
  import opened SortedStore
  import opened TokenMapCodec
  import opened ScanRepair

  /** Go's append growth: a fresh buffer for an n-byte key has capacity at least n. */
  ghost predicate Grows(grow: nat -> nat) {
    forall n: nat :: grow(n) >= n
  }

  /** A slice handed out by iter.Key(): which backing buffer it points into, and its length. */
  datatype KeySlice = KeySlice(buffer: nat, len: nat)

  /** The zero bytes a freshly allocated buffer holds past the key. */
  function Padding(n: nat): (p: string)
    ensures |p| == n
  {
    seq(n, _ => '\0')
  }

  /**
   * iter.Next storing key: in place at the front of the current (last)
   * buffer when the key fits, otherwise into a fresh buffer of capacity
   * grow(|key|). Every other buffer is left as it was.
   */
  function StoreKey(bufs: seq<string>, key: string, grow: nat -> nat): (r: seq<string>)
    requires Grows(grow)
    ensures |bufs| <= |r| && |r| > 0
    ensures |key| <= |r[|r| - 1]| && r[|r| - 1][..|key|] == key
    ensures forall b :: 0 <= b < |bufs| ==> |r[b]| == |bufs[b]|
    ensures |bufs| > 0 && |key| <= |bufs[|bufs| - 1]| ==>
      && |r| == |bufs|
      && r[..|bufs| - 1] == bufs[..|bufs| - 1]
      && r[|r| - 1][|key|..] == bufs[|bufs| - 1][|key|..]
    ensures !(|bufs| > 0 && |key| <= |bufs[|bufs| - 1]|) ==>
      && |r| == |bufs| + 1
      && r[..|bufs|] == bufs
      && |r[|bufs|]| == grow(|key|)
  {
    if |bufs| > 0 && |key| <= |bufs[|bufs| - 1]| then
      bufs[|bufs| - 1 := key + bufs[|bufs| - 1][|key|..]]
    else
      assert grow(|key|) >= |key|;
      bufs + [key + Padding(grow(|key|) - |key|)]
  }

  predicate Within(bufs: seq<string>, s: KeySlice) {
    s.buffer < |bufs| && s.len <= |bufs[s.buffer]|
  }

  /** What a batched slice reads once the scan is over. */
  function Read(bufs: seq<string>, s: KeySlice): (k: string)
    requires Within(bufs, s)
    ensures |k| == s.len
  {
    bufs[s.buffer][..s.len]
  }

  /**
   * The scan as written: the buffers after visiting es, and one slice per
   * entry that fails to decode (as many as ScanRepair.FailedKeys batches),
   * each pointing into a buffer that still exists.
   */
  function AliasedScan(u: Unmarshaler, es: seq<Entry>, grow: nat -> nat): (r: (seq<string>, seq<KeySlice>))
    requires Grows(grow)
    ensures |r.1| == |FailedKeys(u, es)|
    ensures forall s :: s in r.1 ==> Within(r.0, s)
    decreases |es|
  {
    if es == [] then ([], [])
    else
      var prev := AliasedScan(u, es[..|es| - 1], grow);
      var e := es[|es| - 1];
      var bufs := StoreKey(prev.0, e.key, grow);
      assert forall s :: s in prev.1 ==> Within(bufs, s) by {
        forall s | s in prev.1 ensures Within(bufs, s) {
          assert Within(prev.0, s);
        }
      }
      if NewTokenMapItem(u, e.key, e.value).Err? then
        (bufs, prev.1 + [KeySlice(|bufs| - 1, |e.key|)])
      else
        (bufs, prev.1)
  }

  /** What each slice of ss reads from bufs, in order. */
  function ReadAll(bufs: seq<string>, ss: seq<KeySlice>): (ks: seq<string>)
    requires forall s :: s in ss ==> Within(bufs, s)
    ensures |ks| == |ss|
    decreases |ss|
  {
    if ss == [] then []
    else
      assert ss[|ss| - 1] in ss;
      ReadAll(bufs, ss[..|ss| - 1]) + [Read(bufs, ss[|ss| - 1])]
  }

  /** The keys deleteKeys receives under the source as written: each batched slice read after the scan. */
  function AliasedFailedKeys(u: Unmarshaler, es: seq<Entry>, grow: nat -> nat): (ks: seq<string>)
    requires Grows(grow)
    ensures |ks| == |FailedKeys(u, es)|
  {
    var r := AliasedScan(u, es, grow);
    ReadAll(r.0, r.1)
  }

  /** One step of the scan as written: iter.Next stores the key, and a failing entry batches the current slice. */
  lemma AliasedScanSnoc(u: Unmarshaler, init: seq<Entry>, e: Entry, grow: nat -> nat)
    requires Grows(grow)
    ensures var prev := AliasedScan(u, init, grow);
      var bufs := StoreKey(prev.0, e.key, grow);
      AliasedScan(u, init + [e], grow) ==
        if NewTokenMapItem(u, e.key, e.value).Err? then (bufs, prev.1 + [KeySlice(|bufs| - 1, |e.key|)]) else (bufs, prev.1)
  {
    assert (init + [e])[..|init|] == init;
  }

  /** Appending a buffer leaves what the earlier slices read unchanged. */
  lemma {:induction false} ReadAllAfterAppend(bufs: seq<string>, key: string, ss: seq<KeySlice>)
    requires forall s :: s in ss ==> Within(bufs, s)
    ensures forall s :: s in ss ==> Within(bufs + [key], s)
    ensures ReadAll(bufs + [key], ss) == ReadAll(bufs, ss)
    decreases |ss|
  {
    if ss != [] {
      var init := ss[..|ss| - 1];
      assert forall s :: s in init ==> s in ss;
      ReadAllAfterAppend(bufs, key, init);
      assert ss[|ss| - 1] in ss;
    }
  }

  lemma ReadAllSnoc(bufs: seq<string>, ss: seq<KeySlice>, s: KeySlice)
    requires forall t :: t in ss + [s] ==> Within(bufs, t)
    ensures forall t :: t in ss ==> Within(bufs, t)
    ensures ReadAll(bufs, ss + [s]) == ReadAll(bufs, ss) + [Read(bufs, s)]
  {
    assert forall t :: t in ss ==> t in ss + [s];
    assert (ss + [s])[..|ss|] == ss;
  }

  /** The keys of es, in order. */
  function Keys(es: seq<Entry>): (ks: seq<string>)
    ensures |ks| == |es|
    ensures forall i :: 0 <= i < |es| ==> ks[i] == es[i].key
  {
    seq(|es|, i requires 0 <= i < |es| => es[i].key)
  }

  ghost predicate ExactGrowth(grow: nat -> nat) {
    forall n: nat :: grow(n) == n
  }

  predicate KeysGrowLonger(es: seq<Entry>) {
    forall i, j :: 0 <= i < j < |es| ==> |es[i].key| < |es[j].key|
  }

  /** A key longer than the current buffer (or the first key) gets a fresh buffer of its own. */
  lemma StoreKeyAppends(bufs: seq<string>, key: string, grow: nat -> nat)
    requires Grows(grow) && grow(|key|) == |key|
    requires |bufs| == 0 || |bufs[|bufs| - 1]| < |key|
    ensures StoreKey(bufs, key, grow) == bufs + [key]
  {
    assert key + Padding(0) == key;
  }

  lemma KeysGrowLongerInit(es: seq<Entry>)
    requires KeysGrowLonger(es) && es != []
    ensures KeysGrowLonger(es[..|es| - 1])
  {
    var init := es[..|es| - 1];
    forall i, j | 0 <= i < j < |init| ensures |init[i].key| < |init[j].key| {
      assert init[i] == es[i] && init[j] == es[j];
    }
  }

  /** When every key is longer than the one before and buffers are sized exactly, each key gets a buffer of its own. */
  lemma {:induction false} AliasedBuffersAreKeys(u: Unmarshaler, es: seq<Entry>, grow: nat -> nat)
    requires Grows(grow) && ExactGrowth(grow)
    requires KeysGrowLonger(es)
    ensures AliasedScan(u, es, grow).0 == Keys(es)
    decreases |es|
  {
    if es != [] {
      var init, e := es[..|es| - 1], es[|es| - 1];
      assert es == init + [e];
      KeysGrowLongerInit(es);
      AliasedBuffersAreKeys(u, init, grow);
      var prev := AliasedScan(u, init, grow);
      if |init| > 0 {
        assert prev.0[|init| - 1] == es[|init| - 1].key;
      }
      assert grow(|e.key|) == |e.key|;
      StoreKeyAppends(prev.0, e.key, grow);
      AliasedScanSnoc(u, init, e, grow);
      assert Keys(es) == Keys(init) + [e.key];
    }
  }

  /**
   * When every key is longer than the one before and buffers are allocated
   * at exactly the key's size, no buffer is ever rewritten: each visited key
   * keeps a buffer of its own, and the batch reads as the copied keys.
   */
  lemma {:induction false} AliasedAgreesWithoutReuse(u: Unmarshaler, es: seq<Entry>, grow: nat -> nat)
    requires Grows(grow) && ExactGrowth(grow)
    requires KeysGrowLonger(es)
    ensures AliasedFailedKeys(u, es, grow) == FailedKeys(u, es)
    decreases |es|
  {
    if es != [] {
      var init, e := es[..|es| - 1], es[|es| - 1];
      assert es == init + [e];
      KeysGrowLongerInit(es);
      AliasedAgreesWithoutReuse(u, init, grow);
      AliasedBuffersAreKeys(u, init, grow);
      AliasedBuffersAreKeys(u, es, grow);
      var prev := AliasedScan(u, init, grow);
      var bufs := prev.0 + [e.key];
      assert Keys(es) == Keys(init) + [e.key];
      AliasedScanSnoc(u, init, e, grow);
      ReadAllAfterAppend(prev.0, e.key, prev.1);
      FailedKeysSnoc(u, init, e);
      if NewTokenMapItem(u, e.key, e.value).Err? {
        ReadAllSnoc(bufs, prev.1, KeySlice(|bufs| - 1, |e.key|));
      }
    }
  }

  /** The copying scan of a failing entry followed by a decodable one. */
  lemma CopyingPair(u: Unmarshaler, bad: Entry, good: Entry)
    requires NewTokenMapItem(u, bad.key, bad.value).Err?
    requires NewTokenMapItem(u, good.key, good.value).Ok?
    ensures FailedKeys(u, [bad, good]) == [bad.key]
    ensures Records(u, [bad, good]) == [NewTokenMapItem(u, good.key, good.value).value]
  {
    var none: seq<Entry> := [];
    assert [bad] == none + [bad];
    assert [bad, good] == [bad] + [good];
    FailedKeysSnoc(u, none, bad);
    FailedKeysSnoc(u, [bad], good);
    RecordsSnoc(u, none, bad);
    RecordsSnoc(u, [bad], good);
  }

  /**
   * A record that fails to decode followed by one that decodes, under a key
   * of the same length: the batch as written reads the second key, whatever
   * capacity the library gives its buffer, while the copying batch holds
   * the first.
   */
  lemma SameLengthKeyOverwritesBatch(u: Unmarshaler, bad: Entry, good: Entry, grow: nat -> nat)
    requires Grows(grow)
    requires NewTokenMapItem(u, bad.key, bad.value).Err?
    requires NewTokenMapItem(u, good.key, good.value).Ok?
    requires |bad.key| == |good.key|
    ensures FailedKeys(u, [bad, good]) == [bad.key]
    ensures Records(u, [bad, good]) == [NewTokenMapItem(u, good.key, good.value).value]
    ensures AliasedFailedKeys(u, [bad, good], grow) == [good.key]
  {
    CopyingPair(u, bad, good);
    var none: seq<Entry> := [];
    assert [bad] == none + [bad];
    assert [bad, good] == [bad] + [good];
    AliasedScanSnoc(u, none, bad, grow);
    var r1 := AliasedScan(u, [bad], grow);
    assert r1.1 == [KeySlice(0, |bad.key|)];
    AliasedScanSnoc(u, [bad], good, grow);
    var r := AliasedScan(u, [bad, good], grow);
    assert r.0 == [good.key + r1.0[0][|good.key|..]];
    assert r.1 == [KeySlice(0, |bad.key|)];
    ReadAllSnoc(r.0, [], r.1[0]);
    assert [] + [r.1[0]] == r.1;
    assert Read(r.0, r.1[0]) == good.key;
  }

  // The two-record store of the finding: a record whose value is not JSON
  // followed by a valid one, under keys of the same length.
  const BadKey: string := "tmp-ethereumA1"
  const GoodKey: string := "tmp-ethereumA2"
  const GoodRecord: TokenMapItem := TokenMapItem("ethereum", "A2", "C2", 1)

  function ExampleStore(): seq<Entry> {
    [Entry(BadKey, [0]), Entry(GoodKey, [1])]
  }

  /** A decoder that accepts only the good record's value. */
  function ExampleDecode(b: Bytes): Option<TokenMapItem> {
    if b == [1] then Some(GoodRecord) else None
  }

  lemma ExampleKeys()
    ensures HasPrefix(BadKey, TokenMapPrefixKey) && HasPrefix(GoodKey, TokenMapPrefixKey)
    ensures |BadKey| == |GoodKey| && BadKey != GoodKey
  {
    assert BadKey[..4] == TokenMapPrefixKey;
    assert GoodKey[..4] == TokenMapPrefixKey;
    assert BadKey[13] != GoodKey[13];
  }

  lemma ExampleKeysOrdered()
    ensures KeyLess(BadKey, GoodKey)
  {
    assert BadKey[..13] == GoodKey[..13];
    KeyLessCommonPrefix(BadKey, GoodKey, 13);
    assert KeyLess("1", "2");
  }

  /** Keys equal on their first n characters compare as their rests do. */
  lemma {:induction false} KeyLessCommonPrefix(a: string, b: string, n: nat)
    requires n <= |a| && n <= |b| && a[..n] == b[..n]
    ensures KeyLess(a, b) == KeyLess(a[n..], b[n..])
    decreases n
  {
    if n > 0 {
      assert a[0] == a[..n][0] == b[..n][0] == b[0];
      assert a[1..][..n - 1] == a[..n][1..] == b[..n][1..] == b[1..][..n - 1];
      KeyLessCommonPrefix(a[1..], b[1..], n - 1);
      assert a[1..][n - 1..] == a[n..] && b[1..][n - 1..] == b[n..];
    }
  }

  lemma ExampleStoreSorted()
    ensures Sorted(ExampleStore())
  {
    ExampleKeysOrdered();
  }

  lemma ExampleStoreScanned()
    ensures TokenMapEntries(ExampleStore()) == ExampleStore()
  {
    ExampleKeys();
    var bad, good := Entry(BadKey, [0]), Entry(GoodKey, [1]);
    var none: seq<Entry> := [];
    var one := none + [bad];
    PrefixRangeSnoc(none, bad, TokenMapPrefixKey);
    PrefixRangeSnoc(one, good, TokenMapPrefixKey);
    assert PrefixRange(one, TokenMapPrefixKey) == one;
    assert one + [good] == ExampleStore();
  }

  /** Deleting the good key from the example store leaves only the bad record. */
  lemma ExampleWrongRepair()
    ensures Without(ExampleStore(), {GoodKey}) == [Entry(BadKey, [0])]
  {
    ExampleKeys();
    var bad, good := Entry(BadKey, [0]), Entry(GoodKey, [1]);
    var none: seq<Entry> := [];
    var one := none + [bad];
    WithoutSnoc(none, bad, {GoodKey});
    WithoutSnoc(one, good, {GoodKey});
    assert Without(one, {GoodKey}) == one;
    assert one + [good] == ExampleStore();
  }

  lemma ExampleDecodes()
    ensures NewTokenMapItem(ExampleDecode, BadKey, [0]) == Err(UnmarshalFailed)
    ensures NewTokenMapItem(ExampleDecode, GoodKey, [1]) == Ok(GoodRecord)
  {
    ExampleKeys();
  }

  /** After the wrong repair the store holds only the bad record, which the next scan batches again. */
  lemma ExampleRescan()
    ensures ScanRecords(ExampleDecode, [Entry(BadKey, [0])]) == []
    ensures ScanFailedKeys(ExampleDecode, [Entry(BadKey, [0])]) == [BadKey]
  {
    var u: Unmarshaler := ExampleDecode;
    var bad := Entry(BadKey, [0]);
    var none: seq<Entry> := [];
    assert [bad] == none + [bad];
    ExampleKeys();
    ExampleDecodes();
    PrefixRangeSnoc(none, bad, TokenMapPrefixKey);
    FailedKeysSnoc(u, none, bad);
    RecordsSnoc(u, none, bad);
  }

  /**
   * On the example store, whatever capacity the library gives its key
   * buffer, the batch as written reads the valid record's key instead of the
   * failing one. Deleting it removes the good record and keeps the bad one,
   * so the next scan finds no records and the same bad key again: repair is
   * then neither targeted nor idempotent. The copying reading batches the
   * bad key, as ScanRepair.RepairShape and ScanRepair.ScanIdempotent assume.
   */
  lemma AliasedBatchDeletesTheWrongKey(grow: nat -> nat)
    requires Grows(grow)
    ensures Sorted(ExampleStore())
    ensures ScanFailedKeys(ExampleDecode, ExampleStore()) == [BadKey]
    ensures ScanRecords(ExampleDecode, ExampleStore()) == [GoodRecord]
    ensures AliasedFailedKeys(ExampleDecode, TokenMapEntries(ExampleStore()), grow) == [GoodKey]
    ensures ScanRecords(ExampleDecode, Without(ExampleStore(), {GoodKey})) == []
    ensures ScanFailedKeys(ExampleDecode, Without(ExampleStore(), {GoodKey})) == [BadKey]
  {
    ExampleStoreSorted();
    ExampleKeys();
    ExampleStoreScanned();
    ExampleDecodes();
    SameLengthKeyOverwritesBatch(ExampleDecode, Entry(BadKey, [0]), Entry(GoodKey, [1]), grow);
    ExampleWrongRepair();
    ExampleRescan();
  }
}
