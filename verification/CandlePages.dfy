/**
 Pages of closed bars: which windows are requested, and how they merge with the live bars
 (ts-sdk/src/sync/candles.ts, `loadWindow`, `fetchPages`, `rebuild`).
 */
module CandlePages {
  import opened Naturals
  import opened Wrappers
  import opened Candles
  import opened CandleBars
  import opened CandleSeed

  function PageBuckets(r: Resolution): (n: nat)
    ensures 0 < n <= ROW_CAP
  {
    match r
    case M1 => 360
    case M5 => 288
    case M15 => 96
    case M30 => 336
    case H1 => 168
    case H4 => 180
    case D1 => 365
    case W1 => 260
    case Mo1 => 120
  }

  function BucketMs(r: Resolution): (ms: nat)
    ensures ms > 0
  {
    ResolutionSeconds(r) * 1000
  }

  function SpanSecs(r: Resolution): (s: nat)
    ensures s > 0
  {
    assert ResolutionSeconds(r) * PageBuckets(r) > 0;
    ResolutionSeconds(r) * PageBuckets(r)
  }

  function SpanMs(r: Resolution): (ms: nat)
    ensures ms > 0
  {
    SpanSecs(r) * 1000
  }

  // The page a second belongs to.
  function PageOf(r: Resolution, secs: nat): nat {
    Quotient(secs, SpanSecs(r))
  }

  // The start of the bucket that is still forming, in milliseconds.
  function LastClosedMs(r: Resolution, nowSecs: nat): nat {
    Quotient(nowSecs, ResolutionSeconds(r)) * ResolutionSeconds(r) * 1000
  }

  function MinNat(a: nat, b: nat): nat { if a < b then a else b }

  // The window requested for a page, in milliseconds; none when nothing in it has closed.
  function PageWindow(r: Resolution, page: nat, nowSecs: nat): Option<Window> {
    var start := page * SpanMs(r);
    var end := MinNat((page + 1) * SpanMs(r), LastClosedMs(r, nowSecs));
    if end <= start then None else Some(Window(start, end))
  }

  predicate InWindow(w: Option<Window>, ms: nat) {
    w.Some? && w.value.start <= ms < w.value.end
  }

  // A moment lies before the forming bucket exactly when its own bucket has ended by the clock.
  lemma ClosedExact(r: Resolution, nowSecs: nat, ms: nat)
    ensures ms < LastClosedMs(r, nowSecs) <==> (Quotient(ms, BucketMs(r)) + 1) * BucketMs(r) <= nowSecs * 1000
  {
    var res, bucket := ResolutionSeconds(r), BucketMs(r);
    var q, b := Quotient(nowSecs, res), Quotient(ms, bucket);
    InMillis(q, res);
    InMillis(b + 1, res);
    WholeSteps(q, b, bucket, ms);
    WholeSteps(b + 1, q, res, nowSecs);
  }

  lemma InMillis(k: nat, res: nat)
    ensures k * (res * 1000) == k * res * 1000
  {
  }

  /** The windows of consecutive pages tile the closed past: a moment is in the window of the
      page it belongs to, and of no other, exactly when its bucket has ended by the clock. */
  lemma WindowsTile(r: Resolution, page: nat, nowSecs: nat, ms: nat)
    ensures InWindow(PageWindow(r, page, nowSecs), ms)
       <==> page == Quotient(ms, SpanMs(r)) && ms < LastClosedMs(r, nowSecs)
    ensures InWindow(PageWindow(r, page, nowSecs), ms)
       <==> page == Quotient(ms, SpanMs(r)) && (Quotient(ms, BucketMs(r)) + 1) * BucketMs(r) <= nowSecs * 1000
  {
    ClosedExact(r, nowSecs, ms);
    var span := SpanMs(r);
    assert (page + 1) * span == page * span + span;
    if page * span <= ms < page * span + span {
      QuotientIsUnique(ms, span, page);
    }
  }

  // The start of a page, its end and the last closed bucket, counted in buckets.
  lemma WholeBuckets(page: nat, n: nat, q: nat, bucket: nat) returns (rows: nat)
    requires bucket > 0 && n > 0
    requires page * n * bucket < MinNat((page * n + n) * bucket, q * bucket)
    ensures MinNat((page * n + n) * bucket, q * bucket) - page * n * bucket == rows * bucket && 0 < rows <= n
  {
    var first := page * n;
    var last := MinNat(first + n, q);
    assert (first + n) * bucket <= q * bucket <==> first + n <= q;
    assert last * bucket == MinNat((first + n) * bucket, q * bucket);
    ScaleReflectsOrder(first, last, bucket);
    rows := last - first;
  }

  /** Pages are whole numbers of buckets, and so is every window: no request goes over the row
      cap of its page. */
  lemma WindowRows(r: Resolution, page: nat, nowSecs: nat) returns (rows: nat)
    requires PageWindow(r, page, nowSecs).Some?
    ensures var w := PageWindow(r, page, nowSecs).value;
            w.start <= w.end && w.end - w.start == rows * BucketMs(r) && 0 < rows <= PageBuckets(r)
  {
    var bucket, n, q := BucketMs(r), PageBuckets(r), Quotient(nowSecs, ResolutionSeconds(r));
    PageInBuckets(r, page, q);
    rows := WholeBuckets(page, n, q, bucket);
  }

  lemma PageInBuckets(r: Resolution, page: nat, q: nat)
    ensures page * SpanMs(r) == page * PageBuckets(r) * BucketMs(r)
    ensures (page + 1) * SpanMs(r) == (page * PageBuckets(r) + PageBuckets(r)) * BucketMs(r)
    ensures q * ResolutionSeconds(r) * 1000 == q * BucketMs(r)
  {
    var n, bucket := PageBuckets(r), BucketMs(r);
    assert SpanMs(r) == n * bucket;
    assert page * (n * bucket) == page * n * bucket;
    assert (page + 1) * (n * bucket) == page * n * bucket + n * bucket;
    assert (page * n + n) * bucket == page * n * bucket + n * bucket;
  }

  // ----- the pages a window needs -----

  datatype TimeRange = TimeRange(start: nat, end: Option<nat>)

  // The first and the last page of a range in milliseconds.
  function FirstPage(r: Resolution, range: TimeRange): nat {
    PageOf(r, range.start / 1000)
  }

  function FinalPage(r: Resolution, range: TimeRange, nowMs: nat): nat {
    var fromSecs := range.start / 1000;
    var toSecs := (if range.end.Some? then range.end.value else nowMs) / 1000;
    PageOf(r, if toSecs - 1 > fromSecs then toSecs - 1 else fromSecs)
  }

  predicate InPages(r: Resolution, range: TimeRange, nowMs: nat, page: nat) {
    FirstPage(r, range) <= page <= FinalPage(r, range, nowMs)
  }

  // The last second a range asks for, as the code has it.
  function LastSecond(range: TimeRange, nowMs: nat): nat {
    var from, to := range.start / 1000, (if range.end.Some? then range.end.value else nowMs) / 1000;
    if to > from then to - 1 else from
  }

  /** The pages of a range are the pages its seconds belong to, and no others. */
  lemma PagesOfRange(r: Resolution, range: TimeRange, nowMs: nat, page: nat)
    ensures InPages(r, range, nowMs, page)
       <==> exists secs: nat :: range.start / 1000 <= secs <= LastSecond(range, nowMs) && Quotient(secs, SpanSecs(r)) == page
  {
    var from, last, span := range.start / 1000, LastSecond(range, nowMs), SpanSecs(r);
    assert FinalPage(r, range, nowMs) == Quotient(last, span);
    if InPages(r, range, nowMs, page) {
      var secs := if page == Quotient(from, span) then from else page * span;
      PageStart(page, from, last, span);
      assert Quotient(secs, span) == page;
    }
    if secs: nat :| from <= secs <= last && Quotient(secs, span) == page {
      QuotientsInOrder(from, secs, span);
      QuotientsInOrder(secs, last, span);
    }
  }

  // A later page of the range starts inside it.
  lemma PageStart(page: nat, from: nat, last: nat, span: nat)
    requires span > 0 && Quotient(from, span) <= page <= Quotient(last, span)
    ensures page > Quotient(from, span) ==> from <= page * span <= last && Quotient(page * span, span) == page
  {
    var q := Quotient(from, span);
    assert (q + 1) * span == q * span + span;
    if page > q {
      ScaleKeepsOrder(q + 1, page, span);
      ScaleKeepsOrder(page, Quotient(last, span), span);
      QuotientIsUnique(page * span, span, page);
    }
  }

  // How long the pages are.
  lemma PagesSpan()
    ensures SpanSecs(M1) == 6 * 3_600 && SpanSecs(M5) == 86_400 && SpanSecs(M15) == 86_400
    ensures SpanSecs(M30) == 7 * 86_400 && SpanSecs(H1) == 7 * 86_400 && SpanSecs(H4) == 30 * 86_400
    ensures SpanSecs(D1) == 365 * 86_400 && SpanSecs(W1) == 5 * 52 * 7 * 86_400 && SpanSecs(Mo1) == 10 * 12 * 30 * 86_400
  {
  }

  lemma PagesInOrder(r: Resolution, range: TimeRange, nowMs: nat)
    ensures FirstPage(r, range) <= FinalPage(r, range, nowMs)
  {
    var a := range.start / 1000;
    var toSecs := (if range.end.Some? then range.end.value else nowMs) / 1000;
    QuotientsInOrder(a, if toSecs - 1 > a then toSecs - 1 else a, SpanSecs(r));
  }

  // ----- merging -----

  // `Map<number, Bar[]>` in insertion order.
  datatype Page = Page(index: nat, bars: seq<Bar>)

  type Pages = seq<Page>

  ghost predicate OnePerIndex(pages: Pages) {
    forall i, j :: 0 <= i < j < |pages| ==> pages[i].index != pages[j].index
  }

  function Find(pages: Pages, index: nat): Option<seq<Bar>> {
    if pages == [] then None
    else if pages[|pages| - 1].index == index then Some(pages[|pages| - 1].bars)
    else Find(pages[..|pages| - 1], index)
  }

  // A load asks for the pages of its range that are not stored, and for the trailing page.
  predicate Wants(r: Resolution, pages: Pages, range: TimeRange, nowMs: nat, page: nat) {
    InPages(r, range, nowMs, page) && (page == PageOf(r, nowMs / 1000) || Find(pages, page) == None)
  }

  // Storing a page: an existing entry keeps its place.
  function SetPage(pages: Pages, index: nat, bars: seq<Bar>): Pages {
    if pages == [] then [Page(index, bars)]
    else if pages[|pages| - 1].index == index then pages[..|pages| - 1] + [Page(index, bars)]
    else if Find(pages, index) == None then pages + [Page(index, bars)]
    else SetPage(pages[..|pages| - 1], index, bars) + [pages[|pages| - 1]]
  }

  lemma {:induction false} SetPageFind(pages: Pages, index: nat, bars: seq<Bar>, k: nat)
    ensures Find(SetPage(pages, index, bars), k) == if k == index then Some(bars) else Find(pages, k)
    decreases |pages|
  {
    if pages == [] {
    } else {
      SetPageFind(pages[..|pages| - 1], index, bars, k);
    }
  }

  // One more page, of an index that is not there yet.
  lemma NewIndexStaysSingle(pages: Pages, page: Page)
    requires OnePerIndex(pages) && Find(pages, page.index) == None
    ensures OnePerIndex(pages + [page])
  {
    FindIsMembership(pages, page.index);
  }

  // The pages before the last one do not have its index.
  lemma LastIndexIsNew(pages: Pages)
    requires pages != [] && OnePerIndex(pages)
    ensures OnePerIndex(pages[..|pages| - 1]) && Find(pages[..|pages| - 1], pages[|pages| - 1].index) == None
  {
    FindIsMembership(pages[..|pages| - 1], pages[|pages| - 1].index);
  }

  lemma {:induction false} SetPageKeepsIndices(pages: Pages, index: nat, bars: seq<Bar>)
    requires OnePerIndex(pages)
    ensures OnePerIndex(SetPage(pages, index, bars))
    decreases |pages|
  {
    if pages == [] {
    } else {
      var front, last := pages[..|pages| - 1], pages[|pages| - 1];
      LastIndexIsNew(pages);
      if last.index == index {
        NewIndexStaysSingle(front, Page(index, bars));
      } else if Find(pages, index) == None {
        NewIndexStaysSingle(pages, Page(index, bars));
      } else {
        SetPageKeepsIndices(front, index, bars);
        SetPageFind(front, index, bars, last.index);
        NewIndexStaysSingle(SetPage(front, index, bars), last);
      }
    }
  }

  /** Storing a page changes that page only, and keeps one entry per index. */
  lemma SetPageExact(pages: Pages, index: nat, bars: seq<Bar>, k: nat)
    requires OnePerIndex(pages)
    ensures OnePerIndex(SetPage(pages, index, bars))
    ensures Find(SetPage(pages, index, bars), k) == if k == index then Some(bars) else Find(pages, k)
  {
    SetPageKeepsIndices(pages, index, bars);
    SetPageFind(pages, index, bars, k);
  }

  lemma {:induction false} FindIsMembership(pages: Pages, index: nat)
    ensures Find(pages, index).Some? <==> exists j :: 0 <= j < |pages| && pages[j].index == index
    decreases |pages|
  {
    if pages == [] {
    } else {
      FindIsMembership(pages[..|pages| - 1], index);
    }
  }

  // The bars of a page over what has been merged, later ones winning.
  function MergeBars(merged: Live, bars: seq<Bar>): Live {
    if bars == [] then merged
    else MergeBars(merged, bars[..|bars| - 1])[bars[|bars| - 1].time := bars[|bars| - 1]]
  }

  function MergePages(pages: Pages): Live {
    if pages == [] then map[] else MergeBars(MergePages(pages[..|pages| - 1]), pages[|pages| - 1].bars)
  }

  // A live bar shows only where REST has none.
  function View(pages: Pages, live: Live): Live {
    live + MergePages(pages)
  }

  // The last bar of a page for a time.
  function BarAt(bars: seq<Bar>, time: nat): Option<Bar> {
    if bars == [] then None
    else if bars[|bars| - 1].time == time then Some(bars[|bars| - 1])
    else BarAt(bars[..|bars| - 1], time)
  }

  // Every page holds bars of its own window only.
  ghost predicate BarsInOwnPage(r: Resolution, pages: Pages) {
    forall p, i :: 0 <= p < |pages| && 0 <= i < |pages[p].bars| ==>
      Quotient(pages[p].bars[i].time, SpanMs(r)) == pages[p].index
  }

  lemma {:induction false} MergeBarsExact(merged: Live, bars: seq<Bar>, time: nat)
    ensures Lookup(MergeBars(merged, bars), time)
         == if BarAt(bars, time).Some? then BarAt(bars, time) else Lookup(merged, time)
    decreases |bars|
  {
    if bars == [] {
    } else {
      MergeBarsExact(merged, bars[..|bars| - 1], time);
    }
  }

  lemma {:induction false} BarAtIsListed(bars: seq<Bar>, time: nat)
    requires BarAt(bars, time).Some?
    ensures exists i :: 0 <= i < |bars| && bars[i].time == time && bars[i] == BarAt(bars, time).value
    decreases |bars|
  {
    if bars[|bars| - 1].time != time {
      BarAtIsListed(bars[..|bars| - 1], time);
    }
  }

  /** A merged bar comes from the one page its time belongs to. */
  lemma {:induction false} MergedBarIsItsPages(r: Resolution, pages: Pages, time: nat)
    requires OnePerIndex(pages) && BarsInOwnPage(r, pages)
    ensures Lookup(MergePages(pages), time)
         == var own := Find(pages, Quotient(time, SpanMs(r)));
            if own.Some? then BarAt(own.value, time) else None
    decreases |pages|
  {
    if pages == [] {
    } else {
      var m := |pages| - 1;
      var front, last := pages[..m], pages[m];
      MergedBarIsItsPages(r, front, time);
      MergeBarsExact(MergePages(front), last.bars, time);
      if BarAt(last.bars, time).Some? {
        BarAtIsListed(last.bars, time);
      }
      if last.index == Quotient(time, SpanMs(r)) {
        FindIsMembership(front, last.index);
      }
    }
  }

  // Two page maps with the same entries, inserted in whatever order.
  ghost predicate SamePages(a: Pages, b: Pages) {
    forall k :: Find(a, k) == Find(b, k)
  }

  /** The order in which pages arrived makes no difference to what is shown. */
  lemma ArrivalOrderIsIrrelevant(r: Resolution, a: Pages, b: Pages, live: Live)
    requires OnePerIndex(a) && OnePerIndex(b) && SamePages(a, b)
    requires BarsInOwnPage(r, a) && BarsInOwnPage(r, b)
    ensures View(a, live) == View(b, live)
  {
    forall t
      ensures Lookup(MergePages(a), t) == Lookup(MergePages(b), t)
    {
      MergedBarIsItsPages(r, a, t);
      MergedBarIsItsPages(r, b, t);
    }
    assert forall t :: t in MergePages(a) <==> Lookup(MergePages(a), t).Some?;
    assert forall t :: t in MergePages(b) <==> Lookup(MergePages(b), t).Some?;
    assert forall t :: t in MergePages(a) ==> Lookup(MergePages(a), t) == Some(MergePages(a)[t]);
    assert forall t :: t in MergePages(b) ==> Lookup(MergePages(b), t) == Some(MergePages(b)[t]);
    assert MergePages(a) == MergePages(b);
  }

  lemma {:induction false} MergedIsKeyed(pages: Pages)
    ensures KeyedByTime(MergePages(pages))
    decreases |pages|
  {
    if pages == [] {
    } else {
      MergedIsKeyed(pages[..|pages| - 1]);
      MergeKeepsKeys(MergePages(pages[..|pages| - 1]), pages[|pages| - 1].bars);
    }
  }

  lemma {:induction false} MergeKeepsKeys(merged: Live, bars: seq<Bar>)
    requires KeyedByTime(merged)
    ensures KeyedByTime(MergeBars(merged, bars))
    decreases |bars|
  {
    if bars == [] {
    } else {
      MergeKeepsKeys(merged, bars[..|bars| - 1]);
    }
  }

  // The REST bar for a time, if its page has one.
  function RestBar(r: Resolution, pages: Pages, time: nat): Option<Bar> {
    var own := Find(pages, Quotient(time, SpanMs(r)));
    if own.Some? then BarAt(own.value, time) else None
  }

  /** What a listing of the view shows at a time: the REST bar of that time's page wherever
      there is one, the live bar otherwise, and nothing else. */
  lemma ViewShows(r: Resolution, pages: Pages, live: Live, shown: seq<Bar>, time: nat)
    requires OnePerIndex(pages) && BarsInOwnPage(r, pages) && Enumerates(shown, View(pages, live))
    ensures BarAt(shown, time) == if RestBar(r, pages, time).Some? then RestBar(r, pages, time) else Lookup(live, time)
  {
    MergedBarIsItsPages(r, pages, time);
    var view := View(pages, live);
    assert time in view <==> time in live || time in MergePages(pages);
    if BarAt(shown, time).Some? {
      BarAtIsListed(shown, time);
    }
    if time in view {
      var i :| 0 <= i < |shown| && shown[i].time == time;
      ListedIsBarAt(shown, i);
    }
  }

  lemma {:induction false} ListedIsBarAt(bars: seq<Bar>, i: nat)
    requires TimesIncrease(bars) && i < |bars|
    ensures BarAt(bars, bars[i].time) == Some(bars[i])
    decreases |bars|
  {
    var m := |bars| - 1;
    if i == m {
    } else {
      assert bars[i].time < bars[m].time;
      ListedIsBarAt(bars[..m], i);
    }
  }
}
