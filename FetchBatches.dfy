/** The checking phase of the five-minute checker: the first `TOTAL_LIMIT` links of
    `list(LINKS)` are fetched twenty at a time and the outcomes gathered in order. */
module FetchBatches {
  import opened IssueReport

  /** Python's `xs[:n]`, where a negative `n` drops the last `-n` elements. */
  function PyHead<T>(xs: seq<T>, n: int): (r: seq<T>)
    ensures r <= xs
    ensures 0 <= n ==> |r| == if n < |xs| then n else |xs|
    ensures n < 0 ==> |r| == if -n < |xs| then |xs| + n else 0
  {
    if 0 <= n then (if n < |xs| then xs[..n] else xs)
    else (if -n < |xs| then xs[..|xs| + n] else [])
  }

  /** Python's `xs[a:b]` for `0 <= a <= b`: the indices in `[a, b)` that exist. */
  function PySlice<T>(xs: seq<T>, a: nat, b: nat): (r: seq<T>)
    requires a <= b
    ensures |r| <= b - a
    ensures a >= |xs| ==> r == []
    ensures a < |xs| ==> |r| == (if b < |xs| then b else |xs|) - a
    ensures forall i :: 0 <= i < |r| ==> r[i] == xs[a + i]
  {
    var lo := if a < |xs| then a else |xs|;
    var hi := if b < |xs| then b else |xs|;
    xs[lo..hi]
  }

  /** The batches, one after the other. */
  function Concat<T>(batches: seq<seq<T>>): seq<T>
  {
    if batches == [] then [] else Concat(batches[..|batches| - 1]) + batches[|batches| - 1]
  }

  /** What `asyncio.gather` over the fetches of `urls` hands back: one outcome per URL, in the
      order of `urls`, whatever order the requests finish in. */
  function Gathered(urls: seq<string>, fetch: string -> FetchOutcome): (r: seq<FetchOutcome>)
    ensures |r| == |urls|
  {
    seq(|urls|, i requires 0 <= i < |urls| => fetch(urls[i]))
  }

  /** Gathering two runs one after the other is gathering their URLs together. */
  lemma GatheredAppend(a: seq<string>, b: seq<string>, fetch: string -> FetchOutcome)
    ensures Gathered(a, fetch) + Gathered(b, fetch) == Gathered(a + b, fetch)
  {
    var l, r := Gathered(a, fetch) + Gathered(b, fetch), Gathered(a + b, fetch);
    forall i | 0 <= i < |l| ensures l[i] == r[i] {
      if i >= |a| {
        assert (a + b)[i] == b[i - |a|];
      }
    }
  }

  /** The next batch continues the prefix already cut. */
  lemma PrefixThenSlice<T>(xs: seq<T>, k: nat)
    ensures xs[..if k < |xs| then k else |xs|] + PySlice(xs, k, k + 20)
         == xs[..if k + 20 < |xs| then k + 20 else |xs|]
  {
  }

  /** The loop of lines 206-216: `k` runs over `0, 20, 40, ...` while it is below the
      number of links, each round fetching `list(LINKS)[:TOTAL_LIMIT][k:k+20]`. `links` is
      `list(LINKS)` in the fixed order the set is enumerated in, and `fetch` stands for one
      request (with its URL quoting).
      The loop makes one round per started twenty links, each batch holds at most twenty
      links, the batches together are exactly the first `limit` links, a batch is empty
      exactly when it starts past them, and the results are one outcome per checked link in
      that order. */
  method CheckInBatches(links: seq<string>, limit: int, fetch: string -> FetchOutcome)
      returns (batches: seq<seq<string>>, results: seq<FetchOutcome>)
    ensures |batches| == (|links| + 19) / 20
    ensures forall j :: 0 <= j < |batches| ==> |batches[j]| <= 20
    ensures Concat(batches) == PyHead(links, limit)
    ensures forall j :: 0 <= j < |batches| ==> (batches[j] == [] <==> 20 * j >= |PyHead(links, limit)|)
    ensures forall j :: 0 <= j < |batches| && 0 <= limit <= 20 * j ==> batches[j] == []
    ensures results == Gathered(PyHead(links, limit), fetch)
  {
    var head := PyHead(links, limit);
    var k := 0;
    batches, results := [], [];
    while k < |links|
      invariant k == 20 * |batches|
      invariant k == 0 || k - 20 < |links|
      invariant forall j :: 0 <= j < |batches| ==> batches[j] == PySlice(head, 20 * j, 20 * j + 20)
      invariant Concat(batches) == head[..if k < |head| then k else |head|]
      invariant results == Gathered(Concat(batches), fetch)
    {
      var urls := PySlice(head, k, k + 20);
      PrefixThenSlice(head, k);
      GatheredAppend(Concat(batches), urls, fetch);
      assert (batches + [urls])[..|batches|] == batches;
      k := k + 20;
      results := results + Gathered(urls, fetch);
      batches := batches + [urls];
    }
    assert head[..|head|] == head;
  }
}
