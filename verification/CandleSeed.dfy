/**
 Where the tick subscription starts, and how a coarse forming bar is seeded from settled
 hourly bars (ts-sdk/src/sync/candles.ts, `prepareLiveEdge`).
 */
module CandleSeed {
  import opened Naturals
  import opened Wrappers
  import opened FixedPoint
  import opened Candles
  import opened CandleBars
  import opened CandleSession

  datatype Resolution = M1 | M5 | M15 | M30 | H1 | H4 | D1 | W1 | Mo1

  function ResolutionSeconds(r: Resolution): (s: nat)
    ensures s > 0 && s % 60 == 0 && (s > 3600 ==> s % 3600 == 0)
  {
    match r
    case M1 => 60
    case M5 => 300
    case M15 => 900
    case M30 => 1_800
    case H1 => 3_600
    case H4 => 14_400
    case D1 => 86_400
    case W1 => 604_800
    case Mo1 => 2_592_000
  }

  // Each width is a multiple of the one before, from the minute up to the week and the month.
  lemma WidthsNest()
    ensures ResolutionSeconds(M1) == 60 && ResolutionSeconds(M5) == 5 * ResolutionSeconds(M1)
    ensures ResolutionSeconds(M15) == 3 * ResolutionSeconds(M5) && ResolutionSeconds(M30) == 2 * ResolutionSeconds(M15)
    ensures ResolutionSeconds(H1) == 2 * ResolutionSeconds(M30) && ResolutionSeconds(H4) == 4 * ResolutionSeconds(H1)
    ensures ResolutionSeconds(D1) == 6 * ResolutionSeconds(H4) && ResolutionSeconds(W1) == 7 * ResolutionSeconds(D1)
    ensures ResolutionSeconds(Mo1) == 30 * ResolutionSeconds(D1)
  {
  }

  const REPLAY_SAFE_SECS: nat := 3_600
  const SEED_SECS: nat := 3_600
  const SEED_MS: nat := 3_600_000
  const ROW_CAP: nat := 500

  function FloorTo(x: nat, step: nat): (r: nat)
    requires step > 0
    ensures r <= x
  {
    BucketStart(x, step)
  }

  // The last microsecond before a second.
  function JustBefore(secs: nat): int {
    var us: int := secs * 1_000_000;
    us - 1
  }

  // ----- the requests tile the elapsed hours -----

  datatype Window = Window(start: nat, end: nat)

  // Back to back from `lo` to `hi`, none empty.
  predicate Tiles(windows: seq<Window>, lo: nat, hi: nat) {
    if windows == [] then lo == hi
    else windows[0].start == lo && lo < windows[0].end <= hi && Tiles(windows[1..], windows[0].end, hi)
  }

  // A window of at most 500 whole hours.
  predicate WithinRowCap(w: Window) {
    w.start <= w.end && w.end - w.start <= 500 * 3_600
  }

  lemma {:induction false} TilesSnoc(windows: seq<Window>, lo: nat, mid: nat, hi: nat)
    requires Tiles(windows, lo, mid) && mid < hi
    ensures Tiles(windows + [Window(mid, hi)], lo, hi)
    decreases |windows|
  {
    if windows == [] {
      assert windows + [Window(mid, hi)] == [Window(mid, hi)];
    } else {
      TilesBound(windows[1..], windows[0].end, mid);
      TilesSnoc(windows[1..], windows[0].end, mid, hi);
      assert (windows + [Window(mid, hi)])[1..] == windows[1..] + [Window(mid, hi)];
    }
  }

  lemma {:induction false} TilesBound(windows: seq<Window>, lo: nat, hi: nat)
    requires Tiles(windows, lo, hi)
    ensures lo <= hi
    decreases |windows|
  {
    if windows == [] {
    } else {
      TilesBound(windows[1..], windows[0].end, hi);
    }
  }

  // Each moment lies in exactly one of the tiles.
  lemma {:induction false} TileOf(windows: seq<Window>, lo: nat, hi: nat, x: nat) returns (k: nat)
    requires Tiles(windows, lo, hi) && lo <= x < hi
    ensures k < |windows| && windows[k].start <= x < windows[k].end
    ensures forall j :: 0 <= j < |windows| && windows[j].start <= x < windows[j].end ==> j == k
    decreases |windows|
  {
    if x < windows[0].end {
      k := 0;
      TilesStartAfter(windows[1..], windows[0].end, hi);
      assert forall j :: 1 <= j < |windows| ==> windows[j] == windows[1..][j - 1];
    } else {
      var n := TileOf(windows[1..], windows[0].end, hi, x);
      k := n + 1;
      assert forall j :: 1 <= j < |windows| ==> windows[j] == windows[1..][j - 1];
    }
  }

  lemma {:induction false} TilesStartAfter(windows: seq<Window>, lo: nat, hi: nat)
    requires Tiles(windows, lo, hi)
    ensures forall j :: 0 <= j < |windows| ==> windows[j].start >= lo
    decreases |windows|
  {
    if windows == [] {
    } else {
      TilesStartAfter(windows[1..], windows[0].end, hi);
      assert forall j :: 1 <= j < |windows| ==> windows[j] == windows[1..][j - 1];
    }
  }

  // ----- seeding -----

  function MaxHigh(bars: seq<Bar>): int
    requires bars != []
  {
    if |bars| == 1 then bars[0].high else Max(MaxHigh(bars[..|bars| - 1]), bars[|bars| - 1].high)
  }

  function MinLow(bars: seq<Bar>): int
    requires bars != []
  {
    if |bars| == 1 then bars[0].low else Min(MinLow(bars[..|bars| - 1]), bars[|bars| - 1].low)
  }

  function VolumeSum(bars: seq<Bar>): int {
    if bars == [] then 0 else VolumeSum(bars[..|bars| - 1]) + bars[|bars| - 1].volume
  }

  function QuoteSum(bars: seq<Bar>): int {
    if bars == [] then 0 else QuoteSum(bars[..|bars| - 1]) + bars[|bars| - 1].quoteVolume
  }

  // The forming bar made of settled finer bars, oldest first.
  function Combined(start: nat, bars: seq<Bar>): Bar
    requires bars != []
  {
    Bar(start, bars[0].open, MaxHigh(bars), MinLow(bars), bars[|bars| - 1].close, VolumeSum(bars), QuoteSum(bars))
  }

  function Seeded(live: Live, start: nat, bars: seq<Bar>): Live {
    var sorted := SortByTime(bars);
    if sorted == [] then live else live[start := Combined(start, sorted)]
  }

  // A REST page of hourly bars for a window in seconds; `None` when the request throws.
  type Fetch = Window -> Option<seq<Bar>>

  // The pages of all windows, one after the other, unless some request throws.
  function FetchAll(fetch: Fetch, windows: seq<Window>): Option<seq<Bar>> {
    if windows == [] then Some([])
    else
      var before, page := FetchAll(fetch, windows[..|windows| - 1]), fetch(windows[|windows| - 1]);
      if before.Some? && page.Some? then Some(before.value + page.value) else None
  }

  // What `prepareLiveEdge` finds out: the `since` of the subscription, the requests it makes,
  // and the bars for the seed.
  datatype Edge = Edge(since: int, windows: seq<Window>, bars: seq<Bar>)

  function EdgeEnd(resSecs: nat, nowSecs: nat): nat
    requires resSecs > 0
  {
    if resSecs <= REPLAY_SAFE_SECS then FloorTo(nowSecs, resSecs) else FloorTo(nowSecs, SEED_SECS)
  }

  /** `prepareLiveEdge` up to the seeding: the requests tile [bucketStart, seedEnd), none over
      the row cap, unless one of them throws. */
  method PrepareLiveEdge(resSecs: nat, nowSecs: nat, fetch: Fetch) returns (edge: Edge)
    requires resSecs > 0 && (resSecs > REPLAY_SAFE_SECS ==> resSecs % SEED_SECS == 0)
    ensures edge.since == JustBefore(EdgeEnd(resSecs, nowSecs))
    ensures resSecs <= REPLAY_SAFE_SECS ==> edge.windows == [] && edge.bars == []
    ensures forall k :: 0 <= k < |edge.windows| ==> WithinRowCap(edge.windows[k])
    ensures resSecs > REPLAY_SAFE_SECS ==>
              match FetchAll(fetch, edge.windows)
              case Some(bars) => edge.bars == bars && Tiles(edge.windows, FloorTo(nowSecs, resSecs), FloorTo(nowSecs, SEED_SECS))
              case None => edge.bars == []
  {
    var bucketStart := FloorTo(nowSecs, resSecs);
    if resSecs <= REPLAY_SAFE_SECS {
      return Edge(JustBefore(bucketStart), [], []);
    }
    var seedEnd := FloorTo(nowSecs, SEED_SECS);
    BucketEndsOnTheHour(nowSecs, resSecs);
    var windows, bars := FetchSeed(bucketStart, seedEnd, fetch);
    edge := Edge(JustBefore(seedEnd), windows, if bars.Some? then bars.value else []);
  }

  // The loop over the requests for the seed, left when one of them throws.
  method FetchSeed(bucketStart: nat, seedEnd: nat, fetch: Fetch) returns (windows: seq<Window>, found: Option<seq<Bar>>)
    requires bucketStart <= seedEnd
    ensures forall k :: 0 <= k < |windows| ==> WithinRowCap(windows[k])
    ensures found == FetchAll(fetch, windows) && (found.Some? ==> Tiles(windows, bucketStart, seedEnd))
  {
    var bars: seq<Bar> := [];
    var start := bucketStart;
    windows := [];
    while start < seedEnd
      invariant bucketStart <= start <= seedEnd
      invariant Tiles(windows, bucketStart, start)
      invariant FetchAll(fetch, windows) == Some(bars)
      invariant forall k :: 0 <= k < |windows| ==> WithinRowCap(windows[k])
    {
      var end := if seedEnd < start + ROW_CAP * SEED_SECS then seedEnd else start + ROW_CAP * SEED_SECS;
      var w := Window(start, end);
      TilesSnoc(windows, bucketStart, start, end);
      assert (windows + [w])[..|windows|] == windows;
      windows := windows + [w];
      var page := fetch(w);
      if page == None {
        return windows, None;
      }
      bars := bars + page.value;
      start := end;
    }
    found := Some(bars);
  }

  lemma BucketEndsOnTheHour(nowSecs: nat, resSecs: nat)
    requires resSecs > 0 && resSecs % SEED_SECS == 0
    ensures FloorTo(nowSecs, resSecs) <= FloorTo(nowSecs, SEED_SECS)
  {
    var q, n := Quotient(nowSecs, resSecs), Quotient(resSecs, SEED_SECS);
    assert resSecs == n * SEED_SECS;
    assert q * (n * SEED_SECS) == (q * n) * SEED_SECS;
    FloorOfMultiple(q * n, SEED_SECS, nowSecs);
  }

  // ----- hourly bars hold what their ticks hold -----

  lemma CombinedOfGrownLast(start: nat, front: seq<Bar>, bar: Bar, t: Tick)
    ensures Combined(start, front + [AddTick(bar, t)]) == AddTick(Combined(start, front + [bar]), t)
  {
    var a, b := front + [bar], front + [AddTick(bar, t)];
    assert a[..|front|] == front == b[..|front|];
  }

  lemma CombinedOfNewLast(start: nat, front: seq<Bar>, hour: nat, t: Tick)
    requires front != []
    ensures Combined(start, front + [OpenBar(hour, t)]) == AddTick(Combined(start, front), t)
  {
    assert (front + [OpenBar(hour, t)])[..|front|] == front;
  }

  lemma CombinedOfOne(start: nat, hour: nat, t: Tick)
    ensures Combined(start, [OpenBar(hour, t)]) == OpenBar(start, t)
  {
    var one := [OpenBar(hour, t)];
    assert one[..|one| - 1] == [];
    assert VolumeSum(one) == VolumeSum([]) + t.volume && QuoteSum(one) == QuoteSum([]) + Quote(t);
  }

  ghost predicate AllIn(ticks: seq<Tick>, start: nat, bucketMs: Width)
  {
    forall i :: 0 <= i < |ticks| ==> BucketOf(ticks[i].us, bucketMs) == start
  }

  // Undoing the last tick in the list of hourly bars.
  lemma BeforeLastTick(m: Live, hour: nat, t: Tick, bars: seq<Bar>) returns (before: seq<Bar>)
    requires NoneAfter(m, hour) && KeyedByTime(m)
    requires Enumerates(bars, if hour in m then m[hour := AddTick(m[hour], t)] else m[hour := OpenBar(hour, t)])
    ensures bars != [] && Enumerates(before, m)
    ensures hour in m ==> before != [] && before[|before| - 1] == m[hour]
                          && bars == before[..|before| - 1] + [AddTick(m[hour], t)]
    ensures hour !in m ==> bars == before + [OpenBar(hour, t)]
  {
    var last := if hour in m then AddTick(m[hour], t) else OpenBar(hour, t);
    var init := WithoutNewest(m, hour, last, bars);
    if hour in m {
      before := init + [m[hour]];
      PutBackLast(init, m, hour);
    } else {
      before := init;
      assert m - {hour} == m;
    }
  }

  // Taking off the newest bar leaves a listing of the others.
  lemma WithoutNewest(m: Live, hour: nat, last: Bar, bars: seq<Bar>) returns (init: seq<Bar>)
    requires NoneAfter(m, hour) && KeyedByTime(m) && last.time == hour && Enumerates(bars, m[hour := last])
    ensures bars == init + [last] && Enumerates(init, m - {hour})
  {
    var grown := m[hour := last];
    assert hour in grown;
    LastIsNewest(bars, grown, hour);
    assert bars[|bars| - 1].time == hour && bars[|bars| - 1] == grown[hour];
    DropLast(bars, grown);
    init := bars[..|bars| - 1];
    assert bars == init + [last] && grown - {hour} == m - {hour};
  }

  lemma PutBackLast(init: seq<Bar>, m: Live, k: nat)
    requires KeyedByTime(m) && NoneAfter(m, k) && k in m && Enumerates(init, m - {k})
    ensures Enumerates(init + [m[k]], m)
  {
    var bars := init + [m[k]];
    forall j | j in m
      ensures exists i :: 0 <= i < |bars| && bars[i].time == j
    {
      if j == k {
        assert bars[|init|].time == k;
      } else {
        assert j in m - {k};
        var i :| 0 <= i < |init| && init[i].time == j;
        assert bars[i].time == j;
      }
    }
    forall i, j | 0 <= i < j < |bars|
      ensures bars[i].time < bars[j].time
    {
      if j == |init| {
        assert init[i].time in m - {k};
      }
    }
  }

  lemma {:induction false} FoldIsKeyed(ticks: seq<Tick>, bucketMs: Width)
    ensures KeyedByTime(FoldTicks(map[], ticks, bucketMs))
    decreases |ticks|
  {
    if ticks == [] {
    } else {
      FoldIsKeyed(ticks[..|ticks| - 1], bucketMs);
    }
  }

  // Ordered ticks fill the hours in order.
  lemma HoursInOrder(ticks: seq<Tick>)
    requires ticks != [] && Ordered(ticks)
    ensures NoneAfter(FoldTicks(map[], ticks[..|ticks| - 1], SEED_MS), BucketOf(ticks[|ticks| - 1].us, SEED_MS))
  {
    FoldStaysBehind(map[], ticks[..|ticks| - 1], ticks[|ticks| - 1], SEED_MS);
  }

  // The coarse map over one bucket, read off a list of finer bars.
  function OneBucket(start: nat, bars: seq<Bar>): Live {
    if bars == [] then map[] else map[start := Combined(start, bars)]
  }

  // One more trade changes the combined bar as it changes the coarse bar.
  lemma OneMoreTrade(start: nat, bucketMs: Width, m: Live, hour: nat, t: Tick, before: seq<Bar>, bars: seq<Bar>)
    requires t.price != 0 && BucketOf(t.us, bucketMs) == start
    requires hour in m ==> before != [] && before[|before| - 1] == m[hour]
                           && bars == before[..|before| - 1] + [AddTick(m[hour], t)]
    requires hour !in m ==> bars == before + [OpenBar(hour, t)]
    ensures FoldTick(OneBucket(start, before), t, bucketMs) == OneBucket(start, bars)
  {
    if hour in m {
      var front := before[..|before| - 1];
      assert before == front + [m[hour]];
      CombinedOfGrownLast(start, front, m[hour], t);
    } else if before != [] {
      CombinedOfNewLast(start, before, hour, t);
    } else {
      CombinedOfOne(start, hour, t);
    }
  }

  /** Hierarchy: a bar combined from the hourly bars of a stretch of ticks is the bar the ticks
      themselves make in the coarse bucket; with no trades there is none. */
  lemma {:induction false} HourlyBarsMakeTheBar(ticks: seq<Tick>, start: nat, bucketMs: Width, bars: seq<Bar>)
    requires Ordered(ticks) && AllIn(ticks, start, bucketMs)
    requires Enumerates(bars, FoldTicks(map[], ticks, SEED_MS))
    ensures FoldTicks(map[], ticks, bucketMs) == OneBucket(start, bars)
    decreases |ticks|
  {
    assert bars != [] ==> bars[0].time in FoldTicks(map[], ticks, SEED_MS);
    if ticks == [] {
    } else {
      var init, t := ticks[..|ticks| - 1], ticks[|ticks| - 1];
      var m, hour := FoldTicks(map[], init, SEED_MS), BucketOf(t.us, SEED_MS);
      if t.price == 0 {
        HourlyBarsMakeTheBar(init, start, bucketMs, bars);
      } else {
        HoursInOrder(ticks);
        FoldIsKeyed(init, SEED_MS);
        var before := BeforeLastTick(m, hour, t, bars);
        HourlyBarsMakeTheBar(init, start, bucketMs, before);
        OneMoreTrade(start, bucketMs, m, hour, t, before, bars);
      }
    }
  }

  // The bars are the hourly bars of some ticks, in whatever order.
  ghost predicate HourlyBarsOf(bars: seq<Bar>, ticks: seq<Tick>) {
    exists listing :: Enumerates(listing, FoldTicks(map[], ticks, SEED_MS)) && multiset(bars) == multiset(listing)
  }

  /** Seeding from the hourly bars of the elapsed hours, in whatever order they came, and folding
      the later ticks gives what folding all of them gives. */
  lemma SeedThenFold(elapsed: seq<Tick>, later: seq<Tick>, start: nat, bucketMs: Width, bars: seq<Bar>)
    requires Ordered(elapsed) && AllIn(elapsed, start, bucketMs) && HourlyBarsOf(bars, elapsed)
    ensures FoldTicks(Seeded(map[], start, bars), later, bucketMs) == FoldTicks(map[], elapsed + later, bucketMs)
  {
    var listing :| Enumerates(listing, FoldTicks(map[], elapsed, SEED_MS)) && multiset(bars) == multiset(listing);
    SortFindsListing(bars, listing);
    HourlyBarsMakeTheBar(elapsed, start, bucketMs, listing);
    FoldConcat(map[], elapsed, later, bucketMs);
  }

  // ----- the edge is a safe anchor -----

  lemma FloorOfMultiple(q: nat, step: nat, x: nat)
    requires step > 0 && q * step <= x
    ensures q * step <= FloorTo(x, step)
  {
    WholeSteps(q, Quotient(x, step), step, x);
  }

  lemma EdgeIsAfterBucketStart(resSecs: nat, nowSecs: nat)
    requires resSecs > 0 && (resSecs > REPLAY_SAFE_SECS ==> resSecs % SEED_SECS == 0)
    ensures FloorTo(nowSecs, resSecs) <= EdgeEnd(resSecs, nowSecs)
  {
    if resSecs > REPLAY_SAFE_SECS {
      BucketEndsOnTheHour(nowSecs, resSecs);
    }
  }

  // A tick at or after a bucket's first microsecond is in that bucket or a newer one.
  lemma BucketFromBoundary(resSecs: nat, nowSecs: nat, us: nat)
    requires resSecs > 0 && us >= FloorTo(nowSecs, resSecs) * 1_000_000
    ensures FloorTo(nowSecs, resSecs) * 1000 <= BucketOf(us, resSecs * 1000)
  {
    var q := Quotient(nowSecs, resSecs);
    assert FloorTo(nowSecs, resSecs) * 1000 == q * (resSecs * 1000);
    assert FloorTo(nowSecs, resSecs) * 1000 <= UsToMs(us);
    FloorOfMultiple(q, resSecs * 1000, UsToMs(us));
  }

  /** The `since` found for a resolution never lets a tick open a bucket older than the seed. */
  lemma EdgeIsSafeAnchor(resSecs: nat, nowSecs: nat, bars: seq<Bar>)
    requires resSecs > 0 && (resSecs > REPLAY_SAFE_SECS ==> resSecs % SEED_SECS == 0)
    ensures SafeAnchor(Seeded(map[], FloorTo(nowSecs, resSecs) * 1000, bars),
                       JustBefore(EdgeEnd(resSecs, nowSecs)), resSecs * 1000)
  {
    var start := FloorTo(nowSecs, resSecs) * 1000;
    var seed := Seeded(map[], start, bars);
    EdgeIsAfterBucketStart(resSecs, nowSecs);
    assert |seed| <= 1 by {
      assert seed.Keys <= {start};
    }
    forall us: nat | us > JustBefore(EdgeEnd(resSecs, nowSecs))
      ensures NoneAfter(seed, BucketOf(us, resSecs * 1000))
    {
      BucketFromBoundary(resSecs, nowSecs, us);
    }
  }

  // ----- the seeded session -----

  lemma DueSplits(log: seq<Tick>, a: int, b: int, c: int)
    requires StrictlyOrdered(log) && a <= b <= c
    ensures Due(log, a, c) == Due(log, a, b) + Due(log, b, c)
  {
    DueIsStretch(log, a, b);
    DueIsStretch(log, b, c);
    DueIsStretch(log, a, c);
  }

  lemma {:induction false} DueIsBetween(log: seq<Tick>, a: int, b: int)
    ensures forall i :: 0 <= i < |Due(log, a, b)| ==> a < Due(log, a, b)[i].us <= b
    decreases |log|
  {
    if log == [] {
    } else {
      DueIsBetween(log[..|log| - 1], a, b);
    }
  }

  // The hours elapsed in a bucket belong to it.
  lemma ElapsedInBucket(log: seq<Tick>, resSecs: nat, nowSecs: nat)
    requires resSecs > REPLAY_SAFE_SECS
    ensures AllIn(Due(log, JustBefore(FloorTo(nowSecs, resSecs)), JustBefore(EdgeEnd(resSecs, nowSecs))),
                  FloorTo(nowSecs, resSecs) * 1000, resSecs * 1000)
  {
    var start, end := FloorTo(nowSecs, resSecs), EdgeEnd(resSecs, nowSecs);
    var elapsed := Due(log, JustBefore(start), JustBefore(end));
    DueIsBetween(log, JustBefore(start), JustBefore(end));
    forall i | 0 <= i < |elapsed|
      ensures BucketOf(elapsed[i].us, resSecs * 1000) == start * 1000
    {
      InBucketOfNow(resSecs, nowSecs, elapsed[i].us);
    }
  }

  lemma InBucketOfNow(resSecs: nat, nowSecs: nat, us: nat)
    requires resSecs > 0 && FloorTo(nowSecs, resSecs) * 1_000_000 <= us <= nowSecs * 1_000_000
    ensures BucketOf(us, resSecs * 1000) == FloorTo(nowSecs, resSecs) * 1000
  {
    var start, q := FloorTo(nowSecs, resSecs), Quotient(nowSecs, resSecs);
    assert start * 1000 == q * (resSecs * 1000);
    assert start * 1000 <= UsToMs(us) < start * 1000 + resSecs * 1000;
    QuotientIsUnique(UsToMs(us), resSecs * 1000, q);
  }

  // ----- where the edge lies -----

  // After the last microsecond before a step means in the clock's step, or a later one.
  lemma AfterBoundaryIff(step: nat, nowSecs: nat, us: nat)
    requires step > 0
    ensures us > JustBefore(FloorTo(nowSecs, step))
       <==> BucketOf(us, step * 1000) >= BucketOf(nowSecs * 1_000_000, step * 1000)
  {
    var start := FloorTo(nowSecs, step);
    InBucketOfNow(step, nowSecs, nowSecs * 1_000_000);
    if us > JustBefore(start) {
      BucketFromBoundary(step, nowSecs, us);
    } else {
      assert UsToMs(us) < start * 1000;
    }
  }

  /** The edge is exact: up to an hour, a tick is after `since` exactly when its bucket is not older
      than the clock's; above, exactly when its hour is not older than the clock's. */
  lemma EdgeExact(r: Resolution, nowSecs: nat, us: nat)
    ensures var step := if ResolutionSeconds(r) <= 3_600 then ResolutionSeconds(r) else 3_600;
            us > JustBefore(EdgeEnd(ResolutionSeconds(r), nowSecs))
            <==> BucketOf(us, step * 1000) >= BucketOf(nowSecs * 1_000_000, step * 1000)
  {
    AfterBoundaryIff(if ResolutionSeconds(r) <= 3_600 then ResolutionSeconds(r) else 3_600, nowSecs, us);
  }

  // A session on a coarse resolution, seeded with the settled hourly bars of the forming
  // bucket, shows in every reachable state what folding every tick since the start of that
  // bucket would show.
  lemma CoarseSession(states: seq<State>, steps: seq<Step>, resSecs: nat, nowSecs: nat, bars: seq<Bar>)
    requires resSecs > REPLAY_SAFE_SECS && resSecs % SEED_SECS == 0
    requires Run(states, steps, resSecs * 1000)
    requires var start, anchor := FloorTo(nowSecs, resSecs), JustBefore(EdgeEnd(resSecs, nowSecs));
             var elapsed := Due(states[|steps|].log, JustBefore(start), anchor);
             && Initial(states[0], Seeded(map[], start * 1000, bars), anchor)
             && HourlyBarsOf(bars, elapsed)
    ensures var s := states[|steps|];
            s.live == Newest(FoldTicks(map[], Due(s.log, JustBefore(FloorTo(nowSecs, resSecs)), s.lastTickUs), resSecs * 1000))
  {
    var start, anchor := FloorTo(nowSecs, resSecs), JustBefore(EdgeEnd(resSecs, nowSecs));
    EdgeIsSafeAnchor(resSecs, nowSecs, bars);
    SessionFold(states, steps, Seeded(map[], start * 1000, bars), anchor, resSecs * 1000);
    SeedStandsForElapsed(states[|steps|].log, resSecs, nowSecs, bars, states[|steps|].lastTickUs);
  }

  lemma SessionFold(states: seq<State>, steps: seq<Step>, seed: Live, anchor: int, bucketMs: Width)
    requires SafeAnchor(seed, anchor, bucketMs) && Run(states, steps, bucketMs) && Initial(states[0], seed, anchor)
    ensures var s := states[|steps|];
            && StrictlyOrdered(s.log) && anchor <= s.lastTickUs
            && s.live == Newest(FoldTicks(seed, Due(s.log, anchor, s.lastTickUs), bucketMs))
  {
    ReachableInv(states, steps, seed, anchor, bucketMs);
    ExactlyOnce(states, steps, seed, anchor, bucketMs);
  }

  // Folding on from the seed is folding all since the start of the bucket.
  lemma SeedStandsForElapsed(log: seq<Tick>, resSecs: nat, nowSecs: nat, bars: seq<Bar>, last: int)
    requires resSecs > REPLAY_SAFE_SECS && resSecs % SEED_SECS == 0
    requires StrictlyOrdered(log) && JustBefore(EdgeEnd(resSecs, nowSecs)) <= last
    requires HourlyBarsOf(bars, Due(log, JustBefore(FloorTo(nowSecs, resSecs)), JustBefore(EdgeEnd(resSecs, nowSecs))))
    ensures var start, anchor := FloorTo(nowSecs, resSecs), JustBefore(EdgeEnd(resSecs, nowSecs));
            FoldTicks(Seeded(map[], start * 1000, bars), Due(log, anchor, last), resSecs * 1000)
            == FoldTicks(map[], Due(log, JustBefore(start), last), resSecs * 1000)
  {
    var start, anchor := FloorTo(nowSecs, resSecs), JustBefore(EdgeEnd(resSecs, nowSecs));
    EdgeIsAfterBucketStart(resSecs, nowSecs);
    DueSplits(log, JustBefore(start), anchor, last);
    DueIsStretch(log, JustBefore(start), anchor);
    ElapsedInBucket(log, resSecs, nowSecs);
    SeedThenFold(Due(log, JustBefore(start), anchor), Due(log, anchor, last), start * 1000, resSecs * 1000, bars);
  }

  // What the start of the live stream needs of the REST bars: up to an hour it asks for none,
  // above it gets the hourly bars of the hours of the forming bucket that have passed.
  ghost predicate SettledBars(r: Resolution, nowSecs: nat, log: seq<Tick>, bars: seq<Bar>) {
    var resSecs := ResolutionSeconds(r);
    if resSecs <= 3_600 then bars == []
    else HourlyBarsOf(bars, Due(log, JustBefore(FloorTo(nowSecs, resSecs)), JustBefore(FloorTo(nowSecs, 3_600))))
  }

  /** For every resolution: a session started at the edge, on the seed made there, shows in every
      reachable state what folding every tick since the start of the forming bucket would show. */
  lemma SeededSession(states: seq<State>, steps: seq<Step>, r: Resolution, nowSecs: nat, bars: seq<Bar>)
    requires Run(states, steps, ResolutionSeconds(r) * 1000)
    requires SettledBars(r, nowSecs, states[|steps|].log, bars)
    requires Initial(states[0], Seeded(map[], FloorTo(nowSecs, ResolutionSeconds(r)) * 1000, bars),
                     JustBefore(EdgeEnd(ResolutionSeconds(r), nowSecs)))
    ensures var s, start := states[|steps|], FloorTo(nowSecs, ResolutionSeconds(r));
            s.live == Newest(FoldTicks(map[], Due(s.log, JustBefore(start), s.lastTickUs), ResolutionSeconds(r) * 1000))
  {
    var resSecs := ResolutionSeconds(r);
    if resSecs > 3_600 {
      CoarseSession(states, steps, resSecs, nowSecs, bars);
    } else {
      EdgeIsSafeAnchor(resSecs, nowSecs, bars);
      ExactlyOnce(states, steps, map[], JustBefore(FloorTo(nowSecs, resSecs)), resSecs * 1000);
    }
  }

  /** The bars come in the order of the requests. */
  lemma {:induction false} FetchAllJoins(fetch: Fetch, a: seq<Window>, b: seq<Window>)
    ensures FetchAll(fetch, a + b)
         == if FetchAll(fetch, a).Some? && FetchAll(fetch, b).Some?
            then Some(FetchAll(fetch, a).value + FetchAll(fetch, b).value) else None
    decreases |b|
  {
    if b == [] {
      assert a + b == a;
      assert FetchAll(fetch, a).Some? ==> FetchAll(fetch, a).value + [] == FetchAll(fetch, a).value;
    } else {
      var init := b[..|b| - 1];
      FetchAllJoins(fetch, a, init);
      assert (a + b)[..|a + b| - 1] == a + init && (a + b)[|a + b| - 1] == b[|b| - 1];
      forall x: seq<Bar>, y: seq<Bar>, z: seq<Bar>
        ensures (x + y) + z == x + (y + z)
      {
      }
    }
  }
}
