/** The round loop of the 404 crawler (lines 131-182): each round scans every page found
    so far, queues the links not yet in `CACHE`, lets workers check and expand the queued
    pages, and merges what they post; it stops after a round that queues nothing, after
    `max_recursion + 1` rounds, or never, when a worker raises. */
module Crawl404 {
  import opened Wrappers
  import opened PageLinks
  import opened PageCheck

  /** The links of a list of pages. */
  function Links(cs: seq<Child>): (r: seq<string>)
    ensures |r| == |cs|
  {
    seq(|cs|, i requires 0 <= i < |cs| => cs[i].link)
  }

  /** `Links` of two lists one after the other. */
  lemma LinksAppend(a: seq<Child>, b: seq<Child>)
    ensures Links(a + b) == Links(a) + Links(b)
  {
    var l, r := Links(a + b), Links(a) + Links(b);
    forall i | 0 <= i < |l| ensures l[i] == r[i] {
      if i >= |a| {
        assert (a + b)[i] == b[i - |a|];
      }
    }
  }

  /** The pages the scan of lines 144-152 queues from `cs`, given the `CACHE` it starts
      from: each page whose link is neither in `CACHE` nor queued earlier in the scan. */
  function NewPages(cs: seq<Child>, cache: seq<string>): (r: seq<Child>)
    ensures |r| <= |cs|
  {
    if cs == [] then []
    else
      var prev := NewPages(cs[..|cs| - 1], cache);
      var page := cs[|cs| - 1];
      if page.link in cache + Links(prev) then prev else prev + [page]
  }

  /** The index of the first page of `cs` with link `x`, or `|cs|` when there is none. */
  function FirstWith(cs: seq<Child>, x: string): (k: nat)
    ensures k <= |cs|
    ensures k < |cs| ==> cs[k].link == x
    ensures forall i :: 0 <= i < k ==> cs[i].link != x
  {
    if cs == [] then 0
    else
      var k := FirstWith(cs[..|cs| - 1], x);
      if k < |cs| - 1 then k else if cs[|cs| - 1].link == x then |cs| - 1 else |cs|
  }

  /** The scan queues only fresh links, each once. */
  lemma {:induction false} NewPagesFresh(cs: seq<Child>, cache: seq<string>)
    ensures forall i :: 0 <= i < |NewPages(cs, cache)| ==> NewPages(cs, cache)[i].link !in cache
    ensures forall i, j :: 0 <= i < j < |NewPages(cs, cache)| ==>
              NewPages(cs, cache)[i].link != NewPages(cs, cache)[j].link
  {
    if cs != [] {
      var prev := NewPages(cs[..|cs| - 1], cache);
      NewPagesFresh(cs[..|cs| - 1], cache);
      var page := cs[|cs| - 1];
      if page.link !in cache + Links(prev) {
        var q := prev + [page];
        forall i | 0 <= i < |prev| ensures q[i].link != page.link {
          assert Links(prev)[i] == prev[i].link;
        }
      }
    }
  }

  /** After the scan every link of `cs` is in `CACHE`: it was there or has been queued. */
  lemma {:induction false} NewPagesComplete(cs: seq<Child>, cache: seq<string>)
    ensures forall i :: 0 <= i < |cs| ==> cs[i].link in cache + Links(NewPages(cs, cache))
  {
    if cs != [] {
      var init := cs[..|cs| - 1];
      var prev := NewPages(init, cache);
      NewPagesComplete(init, cache);
      var whole := cache + Links(NewPages(cs, cache));
      LinksAppend(prev, [cs[|cs| - 1]]);
      if cs[|cs| - 1].link !in cache + Links(prev) {
        assert whole == (cache + Links(prev)) + [cs[|cs| - 1].link];
      }
      forall i | 0 <= i < |cs| ensures cs[i].link in whole {
        if i < |init| {
          assert cs[i] == init[i];
          assert init[i].link in cache + Links(prev);
        }
      }
    }
  }

  /** First parent wins: a queued page is the first page of `cs` carrying its link. */
  lemma {:induction false} FirstParentWins(cs: seq<Child>, cache: seq<string>, k: nat)
    requires k < |NewPages(cs, cache)|
    ensures FirstWith(cs, NewPages(cs, cache)[k].link) < |cs|
    ensures cs[FirstWith(cs, NewPages(cs, cache)[k].link)] == NewPages(cs, cache)[k]
  {
    var init := cs[..|cs| - 1];
    var prev := NewPages(init, cache);
    var page := cs[|cs| - 1];
    var x := NewPages(cs, cache)[k].link;
    if k < |prev| {
      assert NewPages(cs, cache)[k] == prev[k];
      FirstParentWins(init, cache, k);
      assert init[FirstWith(init, x)] == cs[FirstWith(init, x)];
    } else {
      assert NewPages(cs, cache)[k] == page;
      NewPagesComplete(init, cache);
      FirstWithAbsent(init, x);
    }
  }

  /** A link no page carries has no first page. */
  lemma {:induction false} FirstWithAbsent(cs: seq<Child>, x: string)
    requires forall i :: 0 <= i < |cs| ==> cs[i].link != x
    ensures FirstWith(cs, x) == |cs|
  {
    if cs != [] {
      FirstWithAbsent(cs[..|cs| - 1], x);
    }
  }

  /** Scanning `a + b` queues what scanning `a` queues, then what scanning `b` queues
      against the cache grown by the first part. */
  lemma {:induction false} NewPagesSplit(a: seq<Child>, b: seq<Child>, cache: seq<string>)
    ensures NewPages(a + b, cache)
         == NewPages(a, cache) + NewPages(b, cache + Links(NewPages(a, cache)))
    decreases |b|
  {
    if b == [] {
      assert a + b == a;
    } else {
      var na := NewPages(a, cache);
      var c2 := cache + Links(na);
      var binit := b[..|b| - 1];
      var page := b[|b| - 1];
      assert (a + b)[..|a + b| - 1] == a + binit;
      assert (a + b)[|a + b| - 1] == page;
      NewPagesSplit(a, binit, cache);
      var nb := NewPages(binit, c2);
      LinksAppend(na, nb);
      assert cache + Links(na + nb) == c2 + Links(nb);
      if page.link !in c2 + Links(nb) {
        assert (na + nb) + [page] == na + (nb + [page]);
      }
    }
  }

  /** A scan over pages whose links are all in `CACHE` queues nothing. */
  lemma {:induction false} NewPagesCovered(cs: seq<Child>, cache: seq<string>)
    requires forall i :: 0 <= i < |cs| ==> cs[i].link in cache
    ensures NewPages(cs, cache) == []
  {
    if cs != [] {
      NewPagesCovered(cs[..|cs| - 1], cache);
      assert cache + Links([]) == cache;
    }
  }

  /** What one worker posts for a page: the children found and the lines written. */
  type Posted = (seq<Child>, seq<Line>)

  /** The work `collect_childs` does for one dequeued page, as a function of the page. */
  function Worker(w: World): Child -> Option<Posted>
  {
    page => Collect(w, page)
  }

  /** The workers of one round, each running `collect` on one queued page: the children
      posted (in queue order) and the lines written, or `None` when one raises. */
  function CollectAll(collect: Child -> Option<Posted>, queued: seq<Child>): Option<Posted>
  {
    if queued == [] then Some(([], []))
    else
      match CollectAll(collect, queued[..|queued| - 1])
      case None => None
      case Some(done) =>
        match collect(queued[|queued| - 1])
        case None => None
        case Some(more) => Some((done.0 + more.0, done.1 + more.1))
  }

  /** A round posts its results exactly when no worker raises. */
  lemma {:induction false} CollectAllRaises(collect: Child -> Option<Posted>, queued: seq<Child>)
    ensures CollectAll(collect, queued).None? <==> exists i :: 0 <= i < |queued| && collect(queued[i]).None?
  {
    if queued != [] {
      var init := queued[..|queued| - 1];
      CollectAllRaises(collect, init);
      if exists i :: 0 <= i < |init| && collect(init[i]).None? {
        var i :| 0 <= i < |init| && collect(init[i]).None?;
        assert queued[i] == init[i];
      }
      if exists i :: 0 <= i < |queued| && collect(queued[i]).None? {
        var i :| 0 <= i < |queued| && collect(queued[i]).None?;
        if i < |init| {
          assert init[i] == queued[i];
        }
      }
    }
  }

  /** What the waves of workers of lines 157-175 post for a round: nothing when no worker can
      start (a cap below one with pages queued, so `threads_count` is below one, no worker
      takes a page and the wave loop never ends) or when one of them raises; otherwise what
      all of them post. */
  function RoundPosts(maxThreads: int, collect: Child -> Option<Posted>, queued: seq<Child>): Option<Posted>
  {
    if queued != [] && maxThreads < 1 then None else CollectAll(collect, queued)
  }

  /** A round posts nothing exactly when pages are queued but the cap lets no worker start,
      or some worker raises. */
  lemma RoundPostsNone(maxThreads: int, collect: Child -> Option<Posted>, queued: seq<Child>)
    ensures RoundPosts(maxThreads, collect, queued).None? <==>
      (queued != [] && maxThreads < 1) || exists i :: 0 <= i < |queued| && collect(queued[i]).None?
  {
    CollectAllRaises(collect, queued);
  }

  /** Every page a round posts was found on one of the pages queued in it. */
  lemma {:induction false} FoundOnQueued(w: World, queued: seq<Child>)
    requires CollectAll(Worker(w), queued).Some?
    ensures forall i :: 0 <= i < |CollectAll(Worker(w), queued).value.0| ==>
      exists k :: 0 <= k < |queued| && CollectAll(Worker(w), queued).value.0[i].parent == queued[k].link
  {
    if queued != [] {
      var init := queued[..|queued| - 1];
      var page := queued[|queued| - 1];
      FoundOnQueued(w, init);
      var done := CollectAll(Worker(w), init).value;
      assert Worker(w)(page) == Collect(w, page);
      var more := Collect(w, page).value;
      var found := done.0 + more.0;
      assert CollectAll(Worker(w), queued).value.0 == found;
      forall i | 0 <= i < |found| ensures exists k :: 0 <= k < |queued| && found[i].parent == queued[k].link {
        if i < |done.0| {
          var k :| 0 <= k < |init| && done.0[i].parent == init[k].link;
          assert queued[k] == init[k];
        } else {
          assert found[i] == more.0[i - |done.0|];
          assert queued[|queued| - 1] == page;
        }
      }
    }
  }

  /** How the run ended. `Stalled`: a worker raised, so the wave loop waits forever for
      its result; the state is the one in which the program hangs. */
  datatype RunOutcome = Aborted | Stalled | Finished | Capped

  /** The crawler's global variables between statements of the round loop. */
  datatype CrawlState = CrawlState(
    childs: seq<Child>,
    cache: seq<string>,
    newPagesCount: nat,
    recursion: nat,
    log: seq<Line>)

  /** The bound on the rounds the loop can run: `max_recursion + 1`, and never below one. */
  function MaxRounds(maxRecursion: int): nat
  {
    if maxRecursion >= 0 then maxRecursion + 1 else 1
  }

  /** The round loop from state `st` to its end, with `collect` as the work of a worker. */
  function Rounds(maxRecursion: int, maxThreads: int, collect: Child -> Option<Posted>, st: CrawlState): (r: (RunOutcome, CrawlState))
    ensures r.0 != Aborted
    decreases if st.recursion <= maxRecursion then maxRecursion - st.recursion + 1 else 0
  {
    if st.newPagesCount == 0 then (Finished, st)
    else
      var queued := NewPages(st.childs, st.cache);
      var scanned := st.(cache := st.cache + Links(queued), newPagesCount := |queued|);
      match RoundPosts(maxThreads, collect, queued)
      case None => (Stalled, scanned)
      case Some(posted) =>
        var counted := scanned.(recursion := st.recursion + 1, log := st.log + posted.1);
        if counted.recursion > maxRecursion then (Capped, counted)
        else Rounds(maxRecursion, maxThreads, collect, counted.(childs := st.childs + posted.0))
  }

  /** The whole crawl: the children of `initial_url`, then the rounds; `Aborted` when that
      first `get_page_childs` raises, which ends the script. */
  function Crawl(w: World): (RunOutcome, CrawlState)
  {
    match ChildrenOf(w.open, w.initialUrl, w.initialUrl)
    case ChildsRaised => (Aborted, CrawlState([], [], 0, 0, []))
    case Returned(cs, lines) => Rounds(w.maxRecursion, w.maxThreads, Worker(w), CrawlState(cs, [], |cs|, 0, lines))
  }

  /** The loop runs at most `MaxRounds` rounds; it is capped exactly at that many; when it
      finishes, the last round queued nothing. */
  lemma {:induction false} RoundsBound(maxRecursion: int, maxThreads: int, collect: Child -> Option<Posted>, st: CrawlState)
    requires st.recursion == 0 || st.recursion <= maxRecursion
    ensures Rounds(maxRecursion, maxThreads, collect, st).0 != Aborted
    ensures Rounds(maxRecursion, maxThreads, collect, st).1.recursion <= MaxRounds(maxRecursion)
    ensures Rounds(maxRecursion, maxThreads, collect, st).0 == Capped ==>
              Rounds(maxRecursion, maxThreads, collect, st).1.recursion == MaxRounds(maxRecursion)
    ensures Rounds(maxRecursion, maxThreads, collect, st).0 == Finished ==>
              Rounds(maxRecursion, maxThreads, collect, st).1.newPagesCount == 0
    decreases if st.recursion <= maxRecursion then maxRecursion - st.recursion + 1 else 0
  {
    if st.newPagesCount > 0 {
      var queued := NewPages(st.childs, st.cache);
      var scanned := st.(cache := st.cache + Links(queued), newPagesCount := |queued|);
      match RoundPosts(maxThreads, collect, queued)
      case None =>
        assert Rounds(maxRecursion, maxThreads, collect, st) == (Stalled, scanned);
      case Some(posted) =>
        var counted := scanned.(recursion := st.recursion + 1, log := st.log + posted.1);
        if counted.recursion > maxRecursion {
          assert Rounds(maxRecursion, maxThreads, collect, st) == (Capped, counted);
        } else {
          var next := counted.(childs := st.childs + posted.0);
          assert Rounds(maxRecursion, maxThreads, collect, st) == Rounds(maxRecursion, maxThreads, collect, next);
          RoundsBound(maxRecursion, maxThreads, collect, next);
        }
    }
  }

  /** When `CACHE` holds what scanning the first `k` pages queued, the next scan queues
      what scanning the rest against `CACHE` queues, and leaves `CACHE` holding what
      scanning all pages from an empty cache queues. */
  lemma ScanCatchesUp(childs: seq<Child>, cache: seq<string>, k: nat)
    requires k <= |childs|
    requires cache == Links(NewPages(childs[..k], []))
    ensures NewPages(childs, cache) == NewPages(childs[k..], cache)
    ensures cache + Links(NewPages(childs, cache)) == Links(NewPages(childs, []))
  {
    var prefix, rest := childs[..k], childs[k..];
    assert childs == prefix + rest;
    NewPagesComplete(prefix, []);
    assert [] + cache == cache;
    forall i | 0 <= i < |prefix| ensures prefix[i].link in cache {
      assert prefix[i].link in [] + Links(NewPages(prefix, []));
    }
    NewPagesCovered(prefix, cache);
    NewPagesSplit(prefix, rest, cache);
    assert cache + Links([]) == cache;
    NewPagesSplit(prefix, rest, []);
    LinksAppend(NewPages(prefix, []), NewPages(rest, cache));
  }

  /** `CACHE` stays exactly what scanning all of `childs` from an empty cache queues: a
      round only queues pages whose links are new since the previous scan. */
  lemma {:induction false} RoundsDedup(maxRecursion: int, maxThreads: int, collect: Child -> Option<Posted>, st: CrawlState, k: nat)
    requires k <= |st.childs|
    requires st.cache == Links(NewPages(st.childs[..k], []))
    requires st.newPagesCount == 0 ==> k == |st.childs|
    ensures Rounds(maxRecursion, maxThreads, collect, st).1.cache == Links(NewPages(Rounds(maxRecursion, maxThreads, collect, st).1.childs, []))
    decreases if st.recursion <= maxRecursion then maxRecursion - st.recursion + 1 else 0
  {
    if st.newPagesCount == 0 {
      assert st.childs[..|st.childs|] == st.childs;
    } else {
      var queued := NewPages(st.childs, st.cache);
      ScanCatchesUp(st.childs, st.cache, k);
      var scanned := st.(cache := st.cache + Links(queued), newPagesCount := |queued|);
      match RoundPosts(maxThreads, collect, queued)
      case None =>
        assert Rounds(maxRecursion, maxThreads, collect, st).1 == scanned;
      case Some(posted) =>
        var counted := scanned.(recursion := st.recursion + 1, log := st.log + posted.1);
        if counted.recursion > maxRecursion {
          assert Rounds(maxRecursion, maxThreads, collect, st).1 == counted;
        } else {
          var next := counted.(childs := st.childs + posted.0);
          assert Rounds(maxRecursion, maxThreads, collect, st) == Rounds(maxRecursion, maxThreads, collect, next);
          assert next.childs[..|st.childs|] == st.childs;
          if |queued| == 0 {
            assert next.childs == st.childs;
          }
          RoundsDedup(maxRecursion, maxThreads, collect, next, |st.childs|);
        }
    }
  }

  /** When the crawl was not aborted, `CACHE` holds every link found, each once, and is
      exactly what scanning all of `childs` from an empty cache queues. */
  lemma CrawlQueuesOnce(w: World)
    requires Crawl(w).0 != Aborted
    ensures var st := Crawl(w).1;
      && st.cache == Links(NewPages(st.childs, []))
      && (forall i, j :: 0 <= i < j < |st.cache| ==> st.cache[i] != st.cache[j])
      && (forall i :: 0 <= i < |st.childs| ==> st.childs[i].link in st.cache)
  {
    match ChildrenOf(w.open, w.initialUrl, w.initialUrl)
    case ChildsRaised =>
    case Returned(cs, lines) =>
      var st0 := CrawlState(cs, [], |cs|, 0, lines);
      assert cs[..0] == [];
      RoundsDedup(w.maxRecursion, w.maxThreads, Worker(w), st0, 0);
      var st := Crawl(w).1;
      NewPagesFresh(st.childs, []);
      NewPagesComplete(st.childs, []);
      assert [] + st.cache == st.cache;
      forall i, j | 0 <= i < j < |st.cache| ensures st.cache[i] != st.cache[j] {
        assert st.cache[i] == NewPages(st.childs, [])[i].link;
        assert st.cache[j] == NewPages(st.childs, [])[j].link;
      }
  }

  /** The crawl runs at most `max_recursion + 1` rounds (one when that is below one), and
      is aborted exactly when the first `get_page_childs` raises. */
  lemma CrawlRounds(w: World)
    ensures Crawl(w).0 == Aborted <==> ChildrenOf(w.open, w.initialUrl, w.initialUrl).ChildsRaised?
    ensures Crawl(w).1.recursion <= MaxRounds(w.maxRecursion)
  {
    match ChildrenOf(w.open, w.initialUrl, w.initialUrl)
    case ChildsRaised =>
    case Returned(cs, lines) =>
      RoundsBound(w.maxRecursion, w.maxThreads, Worker(w), CrawlState(cs, [], |cs|, 0, lines));
  }

  /** The round that hits the cap does not merge what its workers posted into `childs`. */
  lemma CappedNotMerged(maxRecursion: int, maxThreads: int, collect: Child -> Option<Posted>, st: CrawlState)
    requires st.newPagesCount > 0 && st.recursion >= maxRecursion
    requires RoundPosts(maxThreads, collect, NewPages(st.childs, st.cache)).Some?
    ensures Rounds(maxRecursion, maxThreads, collect, st).0 == Capped
    ensures Rounds(maxRecursion, maxThreads, collect, st).1.childs == st.childs
    ensures Rounds(maxRecursion, maxThreads, collect, st).1.recursion == st.recursion + 1
  {
  }

  /** A round in which a worker raises never ends: nothing it posted is merged and the
      round is not counted. */
  lemma RaiseStalls(maxRecursion: int, maxThreads: int, collect: Child -> Option<Posted>, st: CrawlState, i: nat)
    requires st.newPagesCount > 0
    requires i < |NewPages(st.childs, st.cache)| && collect(NewPages(st.childs, st.cache)[i]).None?
    ensures Rounds(maxRecursion, maxThreads, collect, st).0 == Stalled
    ensures Rounds(maxRecursion, maxThreads, collect, st).1.childs == st.childs
    ensures Rounds(maxRecursion, maxThreads, collect, st).1.recursion == st.recursion
  {
    RoundPostsNone(maxThreads, collect, NewPages(st.childs, st.cache));
  }

  /** A round that queues pages while the cap lets no worker start never ends either:
      nothing is merged and the round is not counted. */
  lemma NoWorkerStalls(maxRecursion: int, maxThreads: int, collect: Child -> Option<Posted>, st: CrawlState)
    requires st.newPagesCount > 0 && maxThreads < 1
    requires NewPages(st.childs, st.cache) != []
    ensures Rounds(maxRecursion, maxThreads, collect, st).0 == Stalled
    ensures Rounds(maxRecursion, maxThreads, collect, st).1.childs == st.childs
    ensures Rounds(maxRecursion, maxThreads, collect, st).1.recursion == st.recursion
  {
  }

  /** The first scan, from an empty `CACHE`, queues at least the first page. */
  lemma FirstScanQueues(cs: seq<Child>)
    requires cs != []
    ensures NewPages(cs, []) != []
  {
    NewPagesComplete(cs, []);
    assert cs[0].link in [] + Links(NewPages(cs, []));
  }

  /** With `max_threads_count` below one, a crawl whose start page has children never ends:
      the first round queues them and no worker ever takes one. */
  lemma ZeroCapStalls(w: World)
    requires w.maxThreads < 1
    requires ChildrenOf(w.open, w.initialUrl, w.initialUrl).Returned?
    requires ChildrenOf(w.open, w.initialUrl, w.initialUrl).children != []
    ensures Crawl(w).0 == Stalled
  {
    var cs := ChildrenOf(w.open, w.initialUrl, w.initialUrl).children;
    FirstScanQueues(cs);
    NoWorkerStalls(w.maxRecursion, w.maxThreads, Worker(w), CrawlState(cs, [], |cs|, 0, ChildrenOf(w.open, w.initialUrl, w.initialUrl).lines));
  }

  /** The crawler's global state: the pages found (`childs`), the links queued so far
      (`CACHE`), the counters and the lines written to the results file. */
  class Crawler {
    const world: World
    var childs: seq<Child>
    var cache: seq<string>
    var newPagesCount: nat
    var recursion: nat
    var log: seq<Line>

    constructor (world: World)
      ensures this.world == world
      ensures childs == [] && cache == [] && newPagesCount == 0 && recursion == 0 && log == []
    {
      this.world := world;
      childs, cache, newPagesCount, recursion, log := [], [], 0, 0, [];
    }

    /** The global variables as one value. */
    function State(): CrawlState
      reads this
    {
      CrawlState(childs, cache, newPagesCount, recursion, log)
    }

    /** Lines 142-152: every page of `childs` whose link is not in `CACHE` is appended to
        `CACHE` and queued, and counted in `new_pages_count`. */
    method Scan() returns (queued: seq<Child>)
      modifies this
      ensures queued == NewPages(childs, old(cache))
      ensures cache == old(cache) + Links(queued) && newPagesCount == |queued|
      ensures childs == old(childs) && recursion == old(recursion) && log == old(log)
    {
      newPagesCount := 0;
      queued := [];
      var i := 0;
      while i < |childs|
        invariant 0 <= i <= |childs|
        invariant queued == NewPages(childs[..i], old(cache))
        invariant cache == old(cache) + Links(queued)
        invariant newPagesCount == |queued|
        invariant childs == old(childs) && recursion == old(recursion) && log == old(log)
      {
        var page := childs[i];
        assert childs[..i + 1][..i] == childs[..i];
        if page.link !in cache {
          LinksAppend(queued, [page]);
          cache := cache + [page.link];
          queued := queued + [page];
          newPagesCount := newPagesCount + 1;
        }
        i := i + 1;
      }
      assert childs[..|childs|] == childs;
    }

    /** The waves of workers of lines 154-175: each wave starts `threads_count` workers and
        each worker takes the next queued page; the pages are taken one after the other.
        No wave can start when `threads_count` is below one, and a worker that raises posts
        nothing; in both cases the round never ends (`None`). */
    method Drain(queued: seq<Child>) returns (posted: Option<Posted>)
      ensures posted == RoundPosts(world.maxThreads, Worker(world), queued)
    {
      var found: seq<Child> := [];
      var lines: seq<Line> := [];
      var done := 0;
      var idle := 0;
      while done < |queued|
        invariant 0 <= done <= |queued|
        invariant done == 0 ==> idle == 0
        invariant done > 0 ==> world.maxThreads >= 1
        invariant CollectAll(Worker(world), queued[..done]) == Some((found, lines))
      {
        if idle <= 0 {
          idle := ThreadsCount(|queued|, done, world.maxThreads);
          if idle < 1 {
            return None;
          }
        }
        assert queued[..done + 1][..done] == queued[..done];
        var r := CollectChilds(world, queued[done]);
        assert Worker(world)(queued[done]) == r;
        if r.None? {
          CollectAllStops(Worker(world), queued, done);
          return None;
        }
        found := found + r.value.0;
        lines := lines + r.value.1;
        done := done + 1;
        idle := idle - 1;
      }
      assert queued[..|queued|] == queued;
      posted := Some((found, lines));
    }

    /** One pass of the round loop, lines 142-182: scan, drain, count the round, and merge
        what was posted unless the cap is hit. `Some` outcome when the loop ends here;
        otherwise the state is the scanned and merged one, one more round was counted,
        and the rest of the loop is unchanged. */
    method Round() returns (stop: Option<RunOutcome>)
      requires newPagesCount > 0
      modifies this
      ensures stop.Some? ==> (stop.value, State()) == Rounds(world.maxRecursion, world.maxThreads, Worker(world), old(State()))
      ensures stop.None? ==> recursion == old(recursion) + 1 <= world.maxRecursion
      ensures stop.None? ==>
        var queued := NewPages(old(childs), old(cache));
        var posted := RoundPosts(world.maxThreads, Worker(world), queued);
        posted.Some? && cache == old(cache) + Links(queued) && newPagesCount == |queued| &&
        childs == old(childs) + posted.value.0 && log == old(log) + posted.value.1
      ensures stop.None? ==>
        Rounds(world.maxRecursion, world.maxThreads, Worker(world), State()) == Rounds(world.maxRecursion, world.maxThreads, Worker(world), old(State()))
    {
      ghost var before := State();
      var queued := Scan();
      var posted := Drain(queued);
      if posted.None? {
        return Some(Stalled);
      }
      recursion := recursion + 1;
      log := log + posted.value.1;
      if recursion > world.maxRecursion {
        return Some(Capped);
      }
      childs := childs + posted.value.0;
      assert State() == before.(cache := before.cache + Links(queued), newPagesCount := |queued|,
                                recursion := before.recursion + 1, log := before.log + posted.value.1,
                                childs := before.childs + posted.value.0);
      stop := None;
    }

    /** Lines 137-182: get the children of `initial_url`, then run rounds while the last
        one queued something, up to the recursion cap. */
    method Run() returns (outcome: RunOutcome)
      modifies this
      ensures (outcome, State()) == Crawl(world)
    {
      var first := GetPageChilds(world.open, world.initialUrl, world.initialUrl);
      if first.ChildsRaised? {
        childs, cache, newPagesCount, recursion, log := [], [], 0, 0, [];
        return Aborted;
      }
      childs, cache, newPagesCount, recursion, log := first.children, [], |first.children|, 0, first.lines;
      ghost var target := Crawl(world);
      assert Rounds(world.maxRecursion, world.maxThreads, Worker(world), State()) == target;
      while newPagesCount > 0
        invariant Rounds(world.maxRecursion, world.maxThreads, Worker(world), State()) == target
        decreases if recursion <= world.maxRecursion then world.maxRecursion - recursion + 1 else 0
      {
        var stop := Round();
        if stop.Some? {
          return stop.value;
        }
      }
      outcome := Finished;
    }
  }

  /** A worker that raises stops the round's results. */
  lemma CollectAllStops(collect: Child -> Option<Posted>, queued: seq<Child>, i: nat)
    requires i < |queued| && collect(queued[i]).None?
    ensures CollectAll(collect, queued).None?
  {
    CollectAllRaises(collect, queued);
  }

  /** `collect_childs` for one page: check its status, and expand it only when the status is
      true; a rejected page posts `[]`. */
  method CollectChilds(w: World, page: Child) returns (r: Option<Posted>)
    ensures r == Collect(w, page)
  {
    var status := PageStatus(w, page);
    if status.StatusRaised? {
      return None;
    }
    var news: seq<Child> := [];
    var lines := status.lines;
    if status.expand {
      var childsOutcome := GetPageChilds(w.open, w.initialUrl, page.link);
      if childsOutcome.ChildsRaised? {
        return None;
      }
      news := childsOutcome.children;
      lines := lines + childsOutcome.lines;
    }
    r := Some((news, lines));
  }
}
