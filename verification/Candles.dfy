/**
 Folding the tick stream into bars, and keeping only the newest buckets
 (ts-sdk/src/sync/candles.ts, `onTick`).
 */
module Candles {
  import opened Collections
  import opened Naturals
  import opened Wrappers
  import opened FixedPoint

  // A tick with its decoded price and volume; the timestamp is in microseconds.
  datatype Tick = Tick(us: nat, price: int, volume: int)

  datatype Bar = Bar(time: nat, open: int, high: int, low: int, close: int, volume: int, quoteVolume: int)

  type Live = map<nat, Bar>

  // The width of a bucket, in milliseconds.
  type Width = n: nat | n > 0 witness 1

  const KEPT := 8

  function Min(a: int, b: int): int { if a < b then a else b }

  function UsToMs(us: nat): nat { us / 1000 }

  // The start of the bucket a time falls into, in milliseconds.
  function BucketOf(us: nat, bucketMs: Width): nat
  {
    BucketStart(UsToMs(us), bucketMs)
  }

  function BucketStart(ms: nat, bucketMs: Width): (start: nat)
  {
    Quotient(ms, bucketMs) * bucketMs
  }

  function Quote(t: Tick): int { BigIntDiv(t.volume * t.price, WAD) }

  function OpenBar(start: nat, t: Tick): Bar {
    Bar(start, t.price, t.price, t.price, t.price, t.volume, Quote(t))
  }

  function AddTick(bar: Bar, t: Tick): Bar {
    bar.(high := Max(bar.high, t.price), low := Min(bar.low, t.price), close := t.price,
         volume := bar.volume + t.volume, quoteVolume := bar.quoteVolume + Quote(t))
  }

  // A price of 0 says the market has never cleared: the tick is not folded.
  function FoldTick(live: Live, t: Tick, bucketMs: Width): Live
  {
    if t.price == 0 then live
    else
      var start := BucketOf(t.us, bucketMs);
      if start in live then live[start := AddTick(live[start], t)] else live[start := OpenBar(start, t)]
  }

  function FoldTicks(live: Live, ticks: seq<Tick>, bucketMs: Width): Live
  {
    if ticks == [] then live
    else FoldTick(FoldTicks(live, ticks[..|ticks| - 1], bucketMs), ticks[|ticks| - 1], bucketMs)
  }

  function Watermark(last: int, ticks: seq<Tick>): int {
    if ticks == [] then last else Max(Watermark(last, ticks[..|ticks| - 1]), ticks[|ticks| - 1].us)
  }

  // The buckets newer than `k`.
  function Newer(live: Live, k: nat): set<nat> {
    set j | j in live && j > k
  }

  // The buckets with fewer than `n` newer ones.
  function NewestFew(live: Live, n: nat): Live {
    map k | k in live && |Newer(live, k)| < n :: live[k]
  }

  // The eight newest buckets.
  function Newest(live: Live): Live {
    NewestFew(live, KEPT)
  }

  // ----- the reference: one bucket by itself -----

  // The ticks that count for a bucket.
  function TicksOf(ticks: seq<Tick>, bucket: nat, bucketMs: Width): seq<Tick>
  {
    if ticks == [] then []
    else
      var last := ticks[|ticks| - 1];
      TicksOf(ticks[..|ticks| - 1], bucket, bucketMs)
        + if last.price != 0 && BucketOf(last.us, bucketMs) == bucket then [last] else []
  }

  // The bar those ticks make, on top of a bar that may be there already.
  function BarOf(seed: Option<Bar>, start: nat, ticks: seq<Tick>): Option<Bar> {
    if ticks == [] then seed
    else
      var last := ticks[|ticks| - 1];
      match BarOf(seed, start, ticks[..|ticks| - 1])
      case None => Some(OpenBar(start, last))
      case Some(bar) => Some(AddTick(bar, last))
  }

  function Lookup(live: Live, k: nat): Option<Bar> {
    if k in live then Some(live[k]) else None
  }

  /** Folding a stream is folding each bucket's own ticks, in order and none else. */
  lemma {:induction false} FoldIsByBucket(live: Live, ticks: seq<Tick>, bucketMs: Width, bucket: nat)
    ensures Lookup(FoldTicks(live, ticks, bucketMs), bucket)
         == BarOf(Lookup(live, bucket), bucket, TicksOf(ticks, bucket, bucketMs))
    decreases |ticks|
  {
    if ticks == [] {
    } else {
      var init, last := ticks[..|ticks| - 1], ticks[|ticks| - 1];
      FoldIsByBucket(live, init, bucketMs, bucket);
      if last.price != 0 && BucketOf(last.us, bucketMs) == bucket {
        var own := TicksOf(init, bucket, bucketMs);
        assert (own + [last])[..|own|] == own;
      } else {
        assert TicksOf(init, bucket, bucketMs) + [] == TicksOf(init, bucket, bucketMs);
      }
    }
  }

  // ----- pruning and folding commute -----

  // No bucket of the map is newer than `bucket`.
  ghost predicate NoneAfter(live: Live, bucket: nat) {
    forall k :: k in live ==> k <= bucket
  }

  lemma NewerShrinks(live: Live, j: nat, k: nat)
    requires j in live && j > k
    ensures |Newer(live, j)| < |Newer(live, k)|
  {
    SubsetSize(Newer(live, j) + {j}, Newer(live, k));
  }

  // A kept bucket has all its newer ones kept.
  lemma NewerInNewest(live: Live, k: nat)
    requires k in Newest(live)
    ensures Newer(Newest(live), k) == Newer(live, k)
  {
    forall j | j in Newer(live, k)
      ensures j in Newest(live)
    {
      NewerShrinks(live, j, k);
    }
  }

  lemma NewestIsIdempotent(live: Live)
    ensures Newest(Newest(live)) == Newest(live)
  {
    forall k | k in Newest(live)
      ensures k in Newest(Newest(live))
    {
      NewerInNewest(live, k);
    }
  }

  lemma FewBucketsAreKept(live: Live)
    requires |live| <= KEPT
    ensures Newest(live) == live
  {
    forall k | k in live
      ensures |Newer(live, k)| < KEPT
    {
      SubsetSize(Newer(live, k) + {k}, live.Keys);
    }
  }

  // Pruning depends on the keys alone.
  lemma NewestOfUpdate(live: Live, k: nat, bar: Bar)
    requires k in live && |Newer(live, k)| < KEPT
    ensures Newest(live[k := bar]) == Newest(live)[k := bar]
  {
    var changed := live[k := bar];
    assert forall j :: Newer(changed, j) == Newer(live, j);
  }

  // A new newest bucket pushes out the eighth.
  lemma NewestOfNew(live: Live, k: nat, bar: Bar)
    requires NoneAfter(live, k) && k !in live
    ensures Newest(live[k := bar]) == NewestFew(live, KEPT - 1)[k := bar]
  {
    var grown, rest := live[k := bar], NewestFew(live, KEPT - 1);
    NewerThanNew(live, k, bar);
    forall j | j in live
      ensures j in Newest(grown) <==> j in rest
    {
      NewerGrows(live, k, bar, j);
    }
    assert k in Newest(grown);
    assert forall j :: j in Newest(grown) <==> j in rest[k := bar];
  }

  lemma NewerThanNew(live: Live, k: nat, bar: Bar)
    requires NoneAfter(live, k)
    ensures Newer(live[k := bar], k) == {}
  {
  }

  lemma NewerGrows(live: Live, k: nat, bar: Bar, j: nat)
    requires NoneAfter(live, k) && k !in live && j in live
    ensures |Newer(live[k := bar], j)| == |Newer(live, j)| + 1
  {
    assert Newer(live[k := bar], j) == Newer(live, j) + {k};
  }

  lemma FoldCommutesWithNewest(live: Live, t: Tick, bucketMs: Width)
    requires NoneAfter(live, BucketOf(t.us, bucketMs))
    ensures Newest(FoldTick(Newest(live), t, bucketMs)) == Newest(FoldTick(live, t, bucketMs))
  {
    var k, kept := BucketOf(t.us, bucketMs), Newest(live);
    NewestIsIdempotent(live);
    if t.price != 0 {
      if k in live {
        assert Newer(live, k) == {};
        assert k in kept && Newer(kept, k) == {};
        NewestOfUpdate(live, k, AddTick(live[k], t));
        NewestOfUpdate(kept, k, AddTick(live[k], t));
      } else {
        NewestOfNew(live, k, OpenBar(k, t));
        NewestOfNew(kept, k, OpenBar(k, t));
        forall j | j in kept
          ensures Newer(kept, j) == Newer(live, j)
        {
          NewerInNewest(live, j);
        }
        assert NewestFew(kept, KEPT - 1) == NewestFew(live, KEPT - 1);
      }
    }
  }

  // ----- streams in time order -----

  ghost predicate Ordered(ticks: seq<Tick>) {
    forall i, j :: 0 <= i < j < |ticks| ==> ticks[i].us <= ticks[j].us
  }

  // Every tick falls into a bucket no older than those already there.
  ghost predicate Follows(live: Live, ticks: seq<Tick>, bucketMs: Width)
  {
    forall i :: 0 <= i < |ticks| ==> NoneAfter(live, BucketOf(ticks[i].us, bucketMs))
  }

  lemma BucketsInOrder(a: nat, b: nat, bucketMs: Width)
    requires a <= b
    ensures BucketOf(a, bucketMs) <= BucketOf(b, bucketMs)
  {
    QuotientsInOrder(UsToMs(a), UsToMs(b), bucketMs);
  }

  // Whatever has been folded, the next tick of an ordered stream opens no older bucket.
  lemma {:induction false} FoldStaysBehind(live: Live, ticks: seq<Tick>, t: Tick, bucketMs: Width)
    requires NoneAfter(live, BucketOf(t.us, bucketMs))
    requires forall i :: 0 <= i < |ticks| ==> ticks[i].us <= t.us
    ensures NoneAfter(FoldTicks(live, ticks, bucketMs), BucketOf(t.us, bucketMs))
    decreases |ticks|
  {
    if ticks == [] {
    } else {
      var last := ticks[|ticks| - 1];
      FoldStaysBehind(live, ticks[..|ticks| - 1], t, bucketMs);
      BucketsInOrder(last.us, t.us, bucketMs);
    }
  }

  /** Pruning before folding on, or only at the end, gives the same buckets. */
  lemma {:induction false} PruneThenFold(live: Live, ticks: seq<Tick>, bucketMs: Width)
    requires Ordered(ticks) && Follows(live, ticks, bucketMs)
    ensures Newest(FoldTicks(Newest(live), ticks, bucketMs)) == Newest(FoldTicks(live, ticks, bucketMs))
    decreases |ticks|
  {
    if ticks == [] {
      NewestIsIdempotent(live);
    } else {
      var init, last := ticks[..|ticks| - 1], ticks[|ticks| - 1];
      PruneThenFold(live, init, bucketMs);
      FoldStaysBehind(live, init, last, bucketMs);
      FoldStaysBehind(Newest(live), init, last, bucketMs);
      FoldCommutesWithNewest(FoldTicks(live, init, bucketMs), last, bucketMs);
      FoldCommutesWithNewest(FoldTicks(Newest(live), init, bucketMs), last, bucketMs);
    }
  }

  lemma {:induction false} FoldConcat(live: Live, a: seq<Tick>, b: seq<Tick>, bucketMs: Width)
    ensures FoldTicks(live, a + b, bucketMs) == FoldTicks(FoldTicks(live, a, bucketMs), b, bucketMs)
    decreases |b|
  {
    if b == [] {
      assert a + b == a;
    } else {
      FoldConcat(live, a, b[..|b| - 1], bucketMs);
      assert (a + b)[..|a + b| - 1] == a + b[..|b| - 1];
    }
  }

  // ----- batches -----

  // What one `onTick` call does to the map.
  function AfterBatch(live: Live, batch: seq<Tick>, bucketMs: Width): Live
  {
    Newest(FoldTicks(live, batch, bucketMs))
  }

  function AfterBatches(live: Live, batches: seq<seq<Tick>>, bucketMs: Width): Live
  {
    if batches == [] then live
    else AfterBatch(AfterBatches(live, batches[..|batches| - 1], bucketMs), batches[|batches| - 1], bucketMs)
  }

  // One more batch on an already pruned map.
  lemma BatchOnPruned(live: Live, before: seq<Tick>, batch: seq<Tick>, bucketMs: Width)
    requires Ordered(before + batch) && Follows(live, before + batch, bucketMs)
    ensures AfterBatch(Newest(FoldTicks(live, before, bucketMs)), batch, bucketMs)
         == Newest(FoldTicks(live, before + batch, bucketMs))
  {
    var all, folded := before + batch, FoldTicks(live, before, bucketMs);
    forall i | 0 <= i < |batch|
      ensures NoneAfter(folded, BucketOf(batch[i].us, bucketMs))
    {
      assert all[|before| + i] == batch[i];
      assert forall k :: 0 <= k < |before| ==> all[k] == before[k];
      FoldStaysBehind(live, before, batch[i], bucketMs);
    }
    forall i, j | 0 <= i < j < |batch|
      ensures batch[i].us <= batch[j].us
    {
      assert all[|before| + i] == batch[i] && all[|before| + j] == batch[j];
    }
    PruneThenFold(folded, batch, bucketMs);
    FoldConcat(live, before, batch, bucketMs);
  }

  /** However an ordered stream is cut into batches, the map ends up with the eight newest
      buckets of the whole stream, fully folded. */
  lemma {:induction false} BatchingIsIrrelevant(live: Live, batches: seq<seq<Tick>>, bucketMs: Width)
    requires |live| <= KEPT
    requires Ordered(Flatten(batches)) && Follows(live, Flatten(batches), bucketMs)
    ensures AfterBatches(live, batches, bucketMs) == Newest(FoldTicks(live, Flatten(batches), bucketMs))
    decreases |batches|
  {
    if batches == [] {
      FewBucketsAreKept(live);
    } else {
      var init, last := batches[..|batches| - 1], batches[|batches| - 1];
      var before := Flatten(init);
      assert forall k :: 0 <= k < |before| ==> Flatten(batches)[k] == before[k];
      BatchingIsIrrelevant(live, init, bucketMs);
      BatchOnPruned(live, before, last, bucketMs);
    }
  }

  lemma {:induction false} WatermarkConcat(last: int, a: seq<Tick>, b: seq<Tick>)
    ensures Watermark(last, a + b) == Watermark(Watermark(last, a), b)
    decreases |b|
  {
    if b == [] {
      assert a + b == a;
    } else {
      WatermarkConcat(last, a, b[..|b| - 1]);
      assert (a + b)[..|a + b| - 1] == a + b[..|b| - 1];
    }
  }

  // ----- what a bar says of its ticks -----

  function Volumes(ticks: seq<Tick>): int {
    if ticks == [] then 0 else Volumes(ticks[..|ticks| - 1]) + ticks[|ticks| - 1].volume
  }

  function Quotes(ticks: seq<Tick>): int {
    if ticks == [] then 0 else Quotes(ticks[..|ticks| - 1]) + Quote(ticks[|ticks| - 1])
  }

  // First, last, highest and lowest price, and what was traded.
  ghost predicate Summarises(bar: Bar, ticks: seq<Tick>) {
    && ticks != [] && bar.open == ticks[0].price && bar.close == ticks[|ticks| - 1].price
    && (forall i :: 0 <= i < |ticks| ==> bar.low <= ticks[i].price <= bar.high)
    && (exists i :: 0 <= i < |ticks| && ticks[i].price == bar.high)
    && (exists i :: 0 <= i < |ticks| && ticks[i].price == bar.low)
    && bar.volume == Volumes(ticks) && bar.quoteVolume == Quotes(ticks)
  }

  lemma OneTickSummary(start: nat, t: Tick)
    ensures Summarises(OpenBar(start, t), [t])
  {
    assert [t][..0] == [];
    assert [t][0].price == t.price;
  }

  lemma GrownSummary(bar: Bar, ticks: seq<Tick>, t: Tick)
    requires Summarises(bar, ticks)
    ensures Summarises(AddTick(bar, t), ticks + [t])
  {
    var all, grown := ticks + [t], AddTick(bar, t);
    assert all[..|ticks|] == ticks && all[|ticks|] == t;
    var h :| 0 <= h < |ticks| && ticks[h].price == bar.high;
    var l :| 0 <= l < |ticks| && ticks[l].price == bar.low;
    assert all[h] == ticks[h] && all[l] == ticks[l];
    assert all[if t.price > bar.high then |ticks| else h].price == grown.high;
    assert all[if t.price < bar.low then |ticks| else l].price == grown.low;
  }

  /** A bar made of ticks says what its ticks say. */
  lemma {:induction false} BarSummarises(start: nat, ticks: seq<Tick>)
    requires ticks != []
    ensures BarOf(None, start, ticks).Some?
    ensures BarOf(None, start, ticks).value.time == start && Summarises(BarOf(None, start, ticks).value, ticks)
    decreases |ticks|
  {
    var init, last := ticks[..|ticks| - 1], ticks[|ticks| - 1];
    assert ticks == init + [last];
    if init == [] {
      OneTickSummary(start, last);
    } else {
      BarSummarises(start, init);
      GrownSummary(BarOf(None, start, init).value, init, last);
    }
  }

  // What a tick traded in quote units, rounded toward zero.
  lemma QuoteIsTruncated(t: Tick)
    ensures IsTruncated(t.volume * t.price, WAD, Quote(t))
  {
    QuotientIsTruncated(t.volume * t.price, WAD);
  }

  // A tick falls into the bucket that starts at a multiple of the width and has its time in it.
  lemma BucketHoldsTick(us: nat, bucketMs: Width)
    ensures var start := BucketOf(us, bucketMs);
            start * 1000 <= us < (start + bucketMs) * 1000 && exists k: nat :: start == k * bucketMs
  {
    assert BucketOf(us, bucketMs) == Quotient(UsToMs(us), bucketMs) * bucketMs;
  }

  // ----- how many buckets are kept -----

  lemma {:induction false} OldestBucketExists(live: Live)
    requires live != map[]
    ensures exists k :: k in live && |Newer(live, k)| == |live| - 1
    decreases |live|
  {
    var x :| x in live;
    var others := live - {x};
    if others == map[] {
      assert forall k :: k in live ==> k == x || k in others;
      assert live.Keys == {x} && Newer(live, x) == {};
    } else {
      OldestBucketExists(others);
      var y :| y in others && |Newer(others, y)| == |others| - 1;
      assert others.Keys == live.Keys - {x};
      OlderOfTwo(live, x, y);
    }
  }

  // One more bucket is the oldest, or the oldest of the others still is.
  lemma OlderOfTwo(live: Live, x: nat, y: nat)
    requires x in live && y in live - {x} && |Newer(live - {x}, y)| == |live - {x}| - 1
    ensures if y < x then Newer(live, y) == Newer(live - {x}, y) + {x} else Newer(live, x) == (live - {x}).Keys
  {
    if y > x {
      OldestOfAll(live - {x}, y);
    }
  }

  // With all others newer, a bucket is the oldest.
  lemma OldestOfAll(live: Live, y: nat)
    requires y in live && |Newer(live, y)| == |live| - 1
    ensures Newer(live, y) == live.Keys - {y}
  {
    var rest := live.Keys - {y} - Newer(live, y);
    assert Newer(live, y) + rest == live.Keys - {y};
    assert |rest| == 0;
  }

  // Without the oldest bucket the same ones are the newest.
  lemma DropOldest(live: Live, x: nat, n: nat)
    requires x in live && |Newer(live, x)| == |live| - 1 && n < |live|
    ensures NewestFew(live - {x}, n) == NewestFew(live, n)
  {
    OldestOfAll(live, x);
    forall k | k in live && k != x
      ensures Newer(live - {x}, k) == Newer(live, k)
    {
      assert k in Newer(live, x);
      assert forall j :: j in live && j > k ==> j in live - {x};
    }
  }

  lemma FewAreAll(live: Live, n: nat)
    requires |live| <= n
    ensures NewestFew(live, n) == live
  {
    forall k | k in live
      ensures |Newer(live, k)| < n
    {
      SubsetSize(Newer(live, k) + {k}, live.Keys);
    }
  }

  lemma {:induction false} NewestFewSize(live: Live, n: nat)
    ensures |NewestFew(live, n)| == if |live| < n then |live| else n
    decreases |live|
  {
    if |live| <= n {
      FewAreAll(live, n);
    } else {
      OldestBucketExists(live);
      var x :| x in live && |Newer(live, x)| == |live| - 1;
      DropOldest(live, x, n);
      assert (live - {x}).Keys == live.Keys - {x};
      NewestFewSize(live - {x}, n);
    }
  }

  /** Pruning keeps eight buckets, or all if there are fewer, and none older than one it drops. */
  lemma NewestAreEight(live: Live)
    ensures |Newest(live)| == if |live| < 8 then |live| else 8
    ensures forall j, k :: j in Newest(live) && k in live && k !in Newest(live) ==> k < j && Newest(live)[j] == live[j]
  {
    NewestFewSize(live, KEPT);
    forall j, k | j in Newest(live) && k in live && k !in Newest(live)
      ensures k < j
    {
      if j < k {
        NewerShrinks(live, k, j);
      }
    }
  }
}
