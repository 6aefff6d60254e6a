/**
 The candle series object (ts-sdk/src/sync/candles.ts, `CandleSeries`): its maps, its
 watermark and what it shows, updated in place by ticks, page responses and the live edge.
 */
module CandleSeriesObject {
  import opened Collections
  import opened Wrappers
  import opened FixedPoint
  import opened Candles
  import opened CandleBars
  import opened CandleSeed
  import opened CandlePages

  // ----- the pages a round of requests leaves -----

  // What is stored for a page once its request has settled: what came back, or what was
  // there before, or nothing, when it failed or nothing in the page has closed.
  function Settled(r: Resolution, pages: Pages, page: nat, nowSecs: nat, fetch: Fetch): seq<Bar> {
    var before := if Find(pages, page).Some? then Find(pages, page).value else [];
    match PageWindow(r, page, nowSecs)
    case None => before
    case Some(w) => if fetch(w).Some? then fetch(w).value else before
  }

  // The requests settle one by one, in the order `arrivals`.
  function PagesAfter(r: Resolution, pages: Pages, arrivals: seq<nat>, nowSecs: nat, fetch: Fetch): Pages {
    if arrivals == [] then pages
    else
      var before, p := PagesAfter(r, pages, arrivals[..|arrivals| - 1], nowSecs, fetch), arrivals[|arrivals| - 1];
      SetPage(before, p, Settled(r, before, p, nowSecs, fetch))
  }

  lemma SettledByOwnPage(r: Resolution, a: Pages, b: Pages, page: nat, nowSecs: nat, fetch: Fetch)
    requires Find(a, page) == Find(b, page)
    ensures Settled(r, a, page, nowSecs, fetch) == Settled(r, b, page, nowSecs, fetch)
  {
  }

  /** Each requested page ends up with its own response and no other page changes. */
  lemma {:induction false} PagesAfterExact(r: Resolution, pages: Pages, arrivals: seq<nat>, nowSecs: nat, fetch: Fetch, k: nat)
    requires OnePerIndex(pages) && NoRepeats(arrivals)
    ensures OnePerIndex(PagesAfter(r, pages, arrivals, nowSecs, fetch))
    ensures Find(PagesAfter(r, pages, arrivals, nowSecs, fetch), k)
         == if k in arrivals then Some(Settled(r, pages, k, nowSecs, fetch)) else Find(pages, k)
    decreases |arrivals|
  {
    if arrivals == [] {
    } else {
      var init, p := arrivals[..|arrivals| - 1], arrivals[|arrivals| - 1];
      var before := PagesAfter(r, pages, init, nowSecs, fetch);
      PagesAfterExact(r, pages, init, nowSecs, fetch, k);
      PagesAfterExact(r, pages, init, nowSecs, fetch, p);
      assert arrivals == init + [p] && p !in init;
      SettledByOwnPage(r, pages, before, p, nowSecs, fetch);
      SetPageExact(before, p, Settled(r, pages, p, nowSecs, fetch), k);
    }
  }

  /** Two rounds that settle the same requests in different orders store the same pages. */
  lemma {:induction false} SettlingOrderIsIrrelevant(r: Resolution, pages: Pages, a: seq<nat>, b: seq<nat>,
                                                     nowSecs: nat, fetch: Fetch)
    requires OnePerIndex(pages) && NoRepeats(a) && NoRepeats(b) && forall p :: p in a <==> p in b
    ensures SamePages(PagesAfter(r, pages, a, nowSecs, fetch), PagesAfter(r, pages, b, nowSecs, fetch))
  {
    forall k
      ensures Find(PagesAfter(r, pages, a, nowSecs, fetch), k) == Find(PagesAfter(r, pages, b, nowSecs, fetch), k)
    {
      PagesAfterExact(r, pages, a, nowSecs, fetch, k);
      PagesAfterExact(r, pages, b, nowSecs, fetch, k);
    }
  }

  // ----- pruning, as the code does it -----

  // All but `rest` are the `n` newest keys.
  ghost predicate TopTaken(live: Live, rest: set<nat>, n: nat) {
    && rest <= live.Keys && |rest| + n == |live|
    && forall j, k :: j in rest && k in live.Keys - rest ==> j < k
  }

  lemma TakeNewest(live: Live, rest: set<nat>, k: nat, n: nat)
    requires TopTaken(live, rest, n) && k in rest && IsNewest(k, rest)
    ensures TopTaken(live, rest - {k}, n + 1) && |Newer(live, k)| == n
  {
    assert Newer(live, k) == live.Keys - rest;
    assert (live.Keys - rest) + rest == live.Keys;
  }

  // The eighth newest key, by taking out the newest one eight times.
  method EighthNewest(live: Live) returns (cutoff: nat)
    requires |live| > KEPT
    ensures cutoff in live && |Newer(live, cutoff)| == KEPT - 1
  {
    var rest := live.Keys;
    cutoff := 0;
    for n := 0 to KEPT
      invariant TopTaken(live, rest, n)
      invariant n > 0 ==> cutoff in live && |Newer(live, cutoff)| == n - 1
    {
      NewestExists(rest);
      var k :| k in rest && IsNewest(k, rest);
      TakeNewest(live, rest, k, n);
      cutoff, rest := k, rest - {k};
    }
  }

  predicate IsNewest(k: nat, keys: set<nat>) {
    forall j :: j in keys ==> j <= k
  }

  lemma {:induction false} NewestExists(keys: set<nat>)
    requires keys != {}
    ensures exists k :: k in keys && IsNewest(k, keys)
    decreases |keys|
  {
    var x :| x in keys;
    if !IsNewest(x, keys) {
      var others := keys - {x};
      var higher :| higher in keys && higher > x;
      assert higher in others;
      NewestExists(others);
      var y :| y in others && IsNewest(y, others);
      assert forall j :: j in keys ==> j == x || j in others;
      assert IsNewest(y, keys);
    }
  }

  // At or after the eighth newest is among the eight newest.
  lemma CutoffKeepsNewest(live: Live, cutoff: nat)
    requires cutoff in live && |Newer(live, cutoff)| == KEPT - 1
    ensures (map k | k in live && k >= cutoff :: live[k]) == Newest(live)
  {
    forall k | k in live
      ensures k >= cutoff <==> |Newer(live, k)| < KEPT
    {
      if k > cutoff {
        NewerShrinks(live, k, cutoff);
      } else if k < cutoff {
        NewerShrinks(live, cutoff, k);
      }
    }
  }

  // ----- merging, as the code does it -----

  // The closed bars with the live bars outside `rest` under them.
  ghost function Shown(live: Live, rest: set<nat>, closed: Live): Live {
    (live - rest) + closed
  }

  lemma ShowNone(live: Live, closed: Live)
    ensures Shown(live, live.Keys, closed) == closed
    ensures Shown(live, {}, closed) == live + closed
  {
    assert live - live.Keys == map[] && live - {} == live;
    assert map[] + closed == closed;
  }

  // Letting one more live bar show, unless REST has a bar for its time.
  lemma ShowOneMore(live: Live, rest: set<nat>, closed: Live, time: nat)
    requires time in rest && rest <= live.Keys
    ensures var shown := Shown(live, rest, closed);
            Shown(live, rest - {time}, closed) == if time in shown then shown else shown[time := live[time]]
  {
    assert live - (rest - {time}) == (live - rest)[time := live[time]];
  }

  // The closed bars of all pages, later pages over earlier ones.
  method ClosedView(pages: Pages) returns (merged: Live)
    ensures merged == MergePages(pages)
  {
    merged := map[];
    for p := 0 to |pages|
      invariant merged == MergePages(pages[..p])
    {
      var bars := pages[p].bars;
      for i := 0 to |bars|
        invariant merged == MergeBars(MergePages(pages[..p]), bars[..i])
      {
        assert bars[..i + 1][..i] == bars[..i];
        merged := merged[bars[i].time := bars[i]];
      }
      assert bars[..|bars|] == bars && pages[..p + 1][..p] == pages[..p];
    }
    assert pages[..|pages|] == pages;
  }

  lemma ViewIsKeyed(pages: Pages, live: Live)
    requires KeyedByTime(live)
    ensures KeyedByTime(View(pages, live))
  {
    MergedIsKeyed(pages);
  }

  // The closed bars, then the live bars REST has no bar for.
  method MergedView(pages: Pages, live: Live) returns (merged: Live)
    ensures merged == View(pages, live)
  {
    ghost var closed := MergePages(pages);
    merged := ClosedView(pages);
    ShowNone(live, closed);
    var rest := live.Keys;
    while rest != {}
      invariant rest <= live.Keys && merged == Shown(live, rest, closed)
      decreases rest
    {
      var time :| time in rest;
      ShowOneMore(live, rest, closed, time);
      if time !in merged {
        merged := merged[time := live[time]];
      }
      rest := rest - {time};
    }
  }

  // ----- the object -----

  class CandleSeries {
    const resolution: Resolution
    var pages: Pages
    var live: Live
    var lastTickUs: int
    var since: Option<int>  // the stored parameter of the tick subscription, once it exists
    var shown: seq<Bar>

    ghost predicate Valid()
      reads this
    {
      OnePerIndex(pages) && KeyedByTime(live)
    }

    // What is shown is the merged view, in time order.
    ghost predicate UpToDate()
      reads this
    {
      Enumerates(shown, View(pages, live))
    }

    constructor (resolution: Resolution)
      ensures Valid() && UpToDate() && this.resolution == resolution
      ensures pages == [] && live == map[] && lastTickUs == 0 && since == None
    {
      this.resolution := resolution;
      pages, live, lastTickUs, since, shown := [], map[], 0, None, [];
    }

    /** `rebuild` */
    method Rebuild()
      requires Valid()
      modifies `shown
      ensures UpToDate()
    {
      var merged := MergedView(pages, live);
      ViewIsKeyed(pages, live);
      shown := SortedValues(merged);
    }

    // The end of `onTick`: buckets older than the eighth newest are dropped.
    method Prune()
      requires Valid()
      modifies `live
      ensures Valid() && live == Newest(old(live))
    {
      if |live| > KEPT {
        var cutoff := EighthNewest(live);
        CutoffKeepsNewest(live, cutoff);
        live := map k | k in live && k >= cutoff :: live[k];
      } else {
        FewBucketsAreKept(live);
      }
    }

    // One turn of the loop of `onTick`.
    method TakeTick(t: Tick)
      requires Valid()
      modifies `live
      ensures Valid() && live == FoldTick(old(live), t, BucketMs(resolution))
    {
      var start := BucketOf(t.us, BucketMs(resolution));
      if t.price == 0 {
        return;
      }
      var quote := BigIntDiv(t.volume * t.price, WAD);
      if start in live {
        var cur := live[start];
        live := live[start := cur.(high := Max(cur.high, t.price), low := Min(cur.low, t.price), close := t.price,
                                   volume := cur.volume + t.volume, quoteVolume := cur.quoteVolume + quote)];
      } else {
        live := live[start := Bar(start, t.price, t.price, t.price, t.price, t.volume, quote)];
      }
    }

    /** `onTick`: folds a batch, moves the watermark and the stored `since` forward, keeps the
        eight newest buckets, and shows the result. */
    method OnTick(ticks: seq<Tick>)
      requires Valid()
      modifies this
      ensures Valid() && UpToDate()
      ensures live == AfterBatch(old(live), ticks, BucketMs(resolution))
      ensures lastTickUs == Watermark(old(lastTickUs), ticks)
      ensures since == if lastTickUs > old(lastTickUs) && old(since).Some? then Some(lastTickUs) else old(since)
      ensures pages == old(pages)
    {
      var maxUs := lastTickUs;
      for i := 0 to |ticks|
        invariant unchanged(`pages) && unchanged(`lastTickUs) && unchanged(`since) && Valid()
        invariant live == FoldTicks(old(live), ticks[..i], BucketMs(resolution))
        invariant maxUs == Watermark(lastTickUs, ticks[..i])
      {
        assert ticks[..i + 1][..i] == ticks[..i];
        maxUs := Max(maxUs, ticks[i].us);
        TakeTick(ticks[i]);
      }
      assert ticks[..|ticks|] == ticks;
      WatermarkIsNoLess(lastTickUs, ticks);
      if maxUs > lastTickUs {
        lastTickUs := maxUs;
        if since.Some? {
          since := Some(maxUs);
        }
      }
      Prune();
      Rebuild();
    }

    /** `loadWindow` up to the requests: of the pages of the range, those not stored yet, and
        the trailing page always. */
    method LoadWindow(range: TimeRange, nowMs: nat) returns (wanted: seq<nat>)
      requires Valid()
      ensures NoRepeats(wanted)
      ensures forall p :: p in wanted <==> Wants(resolution, pages, range, nowMs, p)
    {
      var startPage, endPage := FirstPage(resolution, range), FinalPage(resolution, range, nowMs);
      var trailingPage := PageOf(resolution, nowMs / 1000);
      wanted := [];
      PagesInOrder(resolution, range, nowMs);
      for p := startPage to endPage + 1
        invariant NoRepeats(wanted) && forall i :: 0 <= i < |wanted| ==> wanted[i] < p
        invariant forall q :: q in wanted <==> startPage <= q < p && (q == trailingPage || Find(pages, q) == None)
      {
        if p == trailingPage || Find(pages, p) == None {
          wanted := wanted + [p];
        }
      }
    }

    /** `fetchPages`: the responses are stored as they arrive, then the view is rebuilt. */
    method FetchPages(arrivals: seq<nat>, nowSecs: nat, fetch: Fetch)
      requires Valid() && NoRepeats(arrivals)
      modifies this
      ensures Valid() && UpToDate()
      ensures pages == PagesAfter(resolution, old(pages), arrivals, nowSecs, fetch)
      ensures live == old(live) && lastTickUs == old(lastTickUs) && since == old(since)
    {
      for i := 0 to |arrivals|
        invariant unchanged(`live) && unchanged(`lastTickUs) && unchanged(`since)
        invariant pages == PagesAfter(resolution, old(pages), arrivals[..i], nowSecs, fetch)
      {
        assert arrivals[..i + 1][..i] == arrivals[..i];
        var p := arrivals[i];
        var stored := Find(pages, p);
        var kept := if stored.Some? then stored.value else [];
        match PageWindow(resolution, p, nowSecs)
        case None => pages := SetPage(pages, p, kept);
        case Some(w) =>
          var page := fetch(w);
          pages := SetPage(pages, p, if page.Some? then page.value else kept);
      }
      assert arrivals[..|arrivals|] == arrivals;
      PagesAfterExact(resolution, old(pages), arrivals, nowSecs, fetch, 0);
      Rebuild();
    }

    // The forming bar is combined from finer bars, if there are any.
    method SeedForming(start: nat, bars: seq<Bar>)
      requires Valid() && UpToDate()
      modifies `live, `shown
      ensures Valid() && UpToDate() && live == Seeded(old(live), start, bars)
    {
      var sorted := SortByTime(bars);
      if sorted != [] {
        live := live[start := Combined(start, sorted)];
        Rebuild();
      }
    }

    /** The start of the live stream: the forming bar is seeded, then the subscription begins
        at the edge found. */
    method StartLive(nowSecs: nat, fetch: Fetch) returns (edge: Edge)
      requires Valid() && UpToDate()
      modifies this
      ensures Valid() && UpToDate()
      ensures live == Seeded(old(live), FloorTo(nowSecs, ResolutionSeconds(resolution)) * 1000, edge.bars)
      ensures lastTickUs == JustBefore(EdgeEnd(ResolutionSeconds(resolution), nowSecs)) && since == Some(lastTickUs)
      ensures pages == old(pages)
    {
      var resSecs := ResolutionSeconds(resolution);
      edge := PrepareLiveEdge(resSecs, nowSecs, fetch);
      SeedForming(FloorTo(nowSecs, resSecs) * 1000, edge.bars);
      lastTickUs := edge.since;
      since := Some(edge.since);
    }
  }

  lemma {:induction false} WatermarkIsNoLess(last: int, ticks: seq<Tick>)
    ensures Watermark(last, ticks) >= last
    decreases |ticks|
  {
    if ticks == [] {
    } else {
      WatermarkIsNoLess(last, ticks[..|ticks| - 1]);
    }
  }
}
