/**
 * Grouping of loaded records by root chain type, as GetTokenMap builds it
 * (uPic/query_tokenmap.go:63-80), and the per-chain view of
 * GetTokenMapByRootType.
 */
module Grouping {
  import opened TokenMapCodec

  /** The records of chain type c, in the order they appear in items. */
  function ChainFilter(items: seq<TokenMapItem>, c: string): (r: seq<TokenMapItem>)
    ensures forall x :: x in r ==> x.rootChainType == c
    decreases |items|
  {
    if items == [] then []
    else if items[|items| - 1].rootChainType == c then ChainFilter(items[..|items| - 1], c) + [items[|items| - 1]]
    else ChainFilter(items[..|items| - 1], c)
  }

  lemma ChainFilterSnoc(xs: seq<TokenMapItem>, x: TokenMapItem, c: string)
    ensures x.rootChainType == c ==> ChainFilter(xs + [x], c) == ChainFilter(xs, c) + [x]
    ensures x.rootChainType != c ==> ChainFilter(xs + [x], c) == ChainFilter(xs, c)
  {
    assert (xs + [x])[..|xs|] == xs;
  }

  /** The chain types that occur among the records. */
  function ChainTypes(items: seq<TokenMapItem>): set<string> {
    set x | x in items :: x.rootChainType
  }

  lemma ChainTypesSnoc(xs: seq<TokenMapItem>, x: TokenMapItem)
    ensures ChainTypes(xs + [x]) == ChainTypes(xs) + {x.rootChainType}
  {
    forall c | c in ChainTypes(xs + [x])
      ensures c in ChainTypes(xs) + {x.rootChainType}
    {
      var y :| y in xs + [x] && y.rootChainType == c;
      if y != x {
        assert y in xs;
      }
    }
    forall c | c in ChainTypes(xs)
      ensures c in ChainTypes(xs + [x])
    {
      var y :| y in xs && y.rootChainType == c;
      assert y in xs + [x];
    }
    assert x in xs + [x];
  }

  /** A chain type has no records exactly when it does not occur. */
  lemma {:induction false} ChainFilterEmptyIff(items: seq<TokenMapItem>, c: string)
    ensures ChainFilter(items, c) == [] <==> c !in ChainTypes(items)
    decreases |items|
  {
    if items != [] {
      var xs, x := items[..|items| - 1], items[|items| - 1];
      assert items == xs + [x];
      ChainFilterEmptyIff(xs, c);
      ChainFilterSnoc(xs, x, c);
      ChainTypesSnoc(xs, x);
    }
  }

  /**
   * The positions of chain c's records: ChainFilter lists exactly the records
   * of chain c, each at one such position, in increasing position (scan) order.
   */
  ghost function ChainPositions(items: seq<TokenMapItem>, c: string): (idx: seq<nat>)
    ensures |idx| == |ChainFilter(items, c)|
    ensures forall k :: 0 <= k < |idx| ==> idx[k] < |items| && items[idx[k]] == ChainFilter(items, c)[k]
    ensures forall k, l :: 0 <= k < l < |idx| ==> idx[k] < idx[l]
    ensures forall i :: 0 <= i < |items| && items[i].rootChainType == c ==> i in idx
    decreases |items|
  {
    if items == [] then []
    else
      var rest := ChainPositions(items[..|items| - 1], c);
      if items[|items| - 1].rootChainType == c then rest + [|items| - 1] else rest
  }

  /**
   * GetTokenMap's result: the records added one by one, each appended to
   * its chain type's group, the group created when the chain type is new.
   */
  function GroupByChain(items: seq<TokenMapItem>): map<string, seq<TokenMapItem>>
    decreases |items|
  {
    if items == [] then map[]
    else
      var g := GroupByChain(items[..|items| - 1]);
      var x := items[|items| - 1];
      g[x.rootChainType := (if x.rootChainType in g then g[x.rootChainType] else []) + [x]]
  }

  lemma GroupSnoc(xs: seq<TokenMapItem>, x: TokenMapItem)
    ensures var g := GroupByChain(xs);
      GroupByChain(xs + [x]) == g[x.rootChainType := (if x.rootChainType in g then g[x.rootChainType] else []) + [x]]
  {
    assert (xs + [x])[..|xs|] == xs;
  }

  /** There is a group for exactly the chain types that occur, and it holds that chain's records in scan order. */
  lemma {:induction false} GroupAt(items: seq<TokenMapItem>, c: string)
    ensures c in GroupByChain(items) <==> c in ChainTypes(items)
    ensures c in GroupByChain(items) ==> GroupByChain(items)[c] == ChainFilter(items, c)
    decreases |items|
  {
    if items != [] {
      var xs, x := items[..|items| - 1], items[|items| - 1];
      assert items == xs + [x];
      GroupAt(xs, c);
      ChainTypesSnoc(xs, x);
      ChainFilterSnoc(xs, x, c);
      ChainFilterEmptyIff(xs, c);
    }
  }

  /** Every group is non-empty and holds only its own chain's records, and every record is in its chain's group. */
  lemma {:induction false} GroupedByChain(items: seq<TokenMapItem>)
    ensures var g := GroupByChain(items);
      && g.Keys == ChainTypes(items)
      && (forall c :: c in g ==> g[c] != [] && forall x :: x in g[c] ==> x.rootChainType == c)
      && (forall x :: x in items ==> x.rootChainType in g && x in g[x.rootChainType])
  {
    var g := GroupByChain(items);
    forall c
      ensures c in g <==> c in ChainTypes(items)
      ensures c in g ==> g[c] == ChainFilter(items, c) && g[c] != []
    {
      GroupAt(items, c);
      ChainFilterEmptyIff(items, c);
    }
    forall x | x in items
      ensures x.rootChainType in g && x in g[x.rootChainType]
    {
      assert x.rootChainType in ChainTypes(items);
      var i :| 0 <= i < |items| && items[i] == x;
      var idx := ChainPositions(items, x.rootChainType);
      var k :| 0 <= k < |idx| && idx[k] == i;
      assert g[x.rootChainType][k] == x;
    }
  }

  /** A chain type with no records gets the empty sequence, not an error. */
  lemma {:induction false} UnknownChainIsEmpty(items: seq<TokenMapItem>, c: string)
    requires c !in GroupByChain(items)
    ensures ChainFilter(items, c) == []
  {
    GroupAt(items, c);
    ChainFilterEmptyIff(items, c);
  }

  ghost predicate Distinct(cs: seq<string>) {
    forall i, j :: 0 <= i < j < |cs| ==> cs[i] != cs[j]
  }

  /** The chain types in order of first appearance (a way to enumerate the groups). */
  function ChainOrder(items: seq<TokenMapItem>): (cs: seq<string>)
    ensures forall c :: c in cs <==> c in ChainTypes(items)
    ensures Distinct(cs)
    decreases |items|
  {
    if items == [] then []
    else
      var xs, x := items[..|items| - 1], items[|items| - 1];
      assert items == xs + [x];
      ChainTypesSnoc(xs, x);
      var cs := ChainOrder(xs);
      if x.rootChainType in cs then cs else cs + [x.rootChainType]
  }

  /** The total size of the groups named in cs. */
  function SumSizes(g: map<string, seq<TokenMapItem>>, cs: seq<string>): int
    decreases |cs|
  {
    if cs == [] then 0
    else SumSizes(g, cs[..|cs| - 1]) + (if cs[|cs| - 1] in g then |g[cs[|cs| - 1]]| else 0)
  }

  lemma {:induction false} SumSizesAgree(g1: map<string, seq<TokenMapItem>>, g2: map<string, seq<TokenMapItem>>, cs: seq<string>)
    requires forall i :: 0 <= i < |cs| ==> (cs[i] in g1 <==> cs[i] in g2)
    requires forall i :: 0 <= i < |cs| && cs[i] in g1 ==> |g1[cs[i]]| == |g2[cs[i]]|
    ensures SumSizes(g1, cs) == SumSizes(g2, cs)
    decreases |cs|
  {
    if cs != [] {
      SumSizesAgree(g1, g2, cs[..|cs| - 1]);
    }
  }

  lemma {:induction false} SumSizesBump(g1: map<string, seq<TokenMapItem>>, g2: map<string, seq<TokenMapItem>>, cs: seq<string>, k: string)
    requires Distinct(cs) && k in cs
    requires k in g1 && k in g2 && |g2[k]| == |g1[k]| + 1
    requires forall i :: 0 <= i < |cs| && cs[i] != k ==> (cs[i] in g1 <==> cs[i] in g2)
    requires forall i :: 0 <= i < |cs| && cs[i] != k && cs[i] in g1 ==> |g1[cs[i]]| == |g2[cs[i]]|
    ensures SumSizes(g2, cs) == SumSizes(g1, cs) + 1
    decreases |cs|
  {
    var init := cs[..|cs| - 1];
    if cs[|cs| - 1] == k {
      SumSizesAgree(g1, g2, init);
    } else {
      var i :| 0 <= i < |cs| && cs[i] == k;
      assert init[i] == k;
      SumSizesBump(g1, g2, init, k);
    }
  }

  /** Appending x to its chain's group raises the total over the chain order by one. */
  lemma SumSizesSnoc(xs: seq<TokenMapItem>, x: TokenMapItem)
    ensures SumSizes(GroupByChain(xs + [x]), ChainOrder(xs + [x])) == SumSizes(GroupByChain(xs), ChainOrder(xs)) + 1
  {
    var items := xs + [x];
    assert items[..|items| - 1] == xs;
    var g := GroupByChain(xs);
    var c := x.rootChainType;
    var g' := g[c := (if c in g then g[c] else []) + [x]];
    assert GroupByChain(items) == g';
    var cs := ChainOrder(xs);
    GroupAt(xs, c);
    assert forall i :: 0 <= i < |cs| && cs[i] != c ==> (cs[i] in g <==> cs[i] in g') && (cs[i] in g ==> g'[cs[i]] == g[cs[i]]);
    if c in cs {
      assert ChainOrder(items) == cs;
      SumSizesBump(g, g', cs, c);
    } else {
      assert ChainOrder(items) == cs + [c];
      assert (cs + [c])[..|cs|] == cs;
      SumSizesAgree(g, g', cs);
    }
  }

  /** The group sizes add up to the number of records: grouping loses and duplicates nothing. */
  lemma {:induction false} GroupSizesSum(items: seq<TokenMapItem>)
    ensures SumSizes(GroupByChain(items), ChainOrder(items)) == |items|
    decreases |items|
  {
    if items != [] {
      var xs, x := items[..|items| - 1], items[|items| - 1];
      assert items == xs + [x];
      GroupSizesSum(xs);
      SumSizesSnoc(xs, x);
    }
  }

  /** The grouping loop of GetTokenMap. */
  method GroupRecords(items: seq<TokenMapItem>) returns (groups: map<string, seq<TokenMapItem>>)
    ensures groups == GroupByChain(items)
    ensures forall c :: c in groups <==> c in ChainTypes(items)
    ensures forall c :: c in groups ==> groups[c] == ChainFilter(items, c) && groups[c] != []
  {
    groups := map[];
    for i := 0 to |items|
      invariant groups == GroupByChain(items[..i])
    {
      var v := items[i];
      GroupSnoc(items[..i], v);
      assert items[..i + 1] == items[..i] + [v];
      if v.rootChainType !in groups {
        groups := groups[v.rootChainType := []];
      }
      groups := groups[v.rootChainType := groups[v.rootChainType] + [v]];
    }
    assert items[..|items|] == items;
    forall c
      ensures c in groups <==> c in ChainTypes(items)
      ensures c in groups ==> groups[c] == ChainFilter(items, c) && groups[c] != []
    {
      GroupAt(items, c);
      ChainFilterEmptyIff(items, c);
    }
  }
}
