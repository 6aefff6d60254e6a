/**
 Whole histories of page requests (ts-sdk/src/sync/candles.ts, `loadWindow`, `loadOlder`,
 `fetchPages`): which closed moments have been asked for and answered, over any number of
 loads.

 A page is asked for when it is first touched, and again only while it is the trailing page.
 What was still to come, or was refused, at that time is never asked for again by a load.
 */
module CandleHistory {
  import opened Collections
  import opened Naturals
  import opened Wrappers
  import opened Candles
  import opened CandleSeed
  import opened CandlePages
  import opened CandleSeriesObject

  // One round of requests; the clock is read once for all of it.
  datatype Event =
    | Load(range: TimeRange, nowMs: nat, fetch: Fetch, arrivals: seq<nat>)
    | Older(page: nat, nowMs: nat, fetch: Fetch)

  function NowSecs(e: Event): nat { e.nowMs / 1000 }

  // The pages asked for, in the order in which the requests settle.
  function Requests(e: Event): seq<nat> {
    match e
    case Load(_, _, _, arrivals) => arrivals
    case Older(page, _, _) => [page]
  }

  ghost predicate Enabled(r: Resolution, pages: Pages, e: Event) {
    NoRepeats(Requests(e))
    && (e.Load? ==> forall p :: p in e.arrivals <==> Wants(r, pages, e.range, e.nowMs, p))
  }

  function NextPages(r: Resolution, pages: Pages, e: Event): Pages {
    PagesAfter(r, pages, Requests(e), NowSecs(e), e.fetch)
  }

  // `caches` are the stored pages before, between and after the events, nothing at first.
  ghost predicate History(r: Resolution, events: seq<Event>, caches: seq<Pages>) {
    && |caches| == |events| + 1 && caches[0] == []
    && forall j :: 0 <= j < |events| ==> Enabled(r, caches[j], events[j]) && caches[j + 1] == NextPages(r, caches[j], events[j])
  }

  // ----- what is asked for, from ranges and times alone -----

  predicate Touches(r: Resolution, e: Event, page: nat) {
    match e
    case Load(range, nowMs, _, _) => InPages(r, range, nowMs, page)
    case Older(older, _, _) => page == older
  }

  predicate Touched(r: Resolution, events: seq<Event>, page: nat) {
    exists i :: 0 <= i < |events| && Touches(r, events[i], page)
  }

  // Event `j` asks for the page: nothing touched it before, or it is the trailing page.
  predicate Asked(r: Resolution, events: seq<Event>, j: nat, page: nat)
    requires j < |events|
  {
    && Touches(r, events[j], page)
    && (events[j].Load? ==> page == PageOf(r, NowSecs(events[j])) || !Touched(r, events[..j], page))
  }

  lemma TouchedSnoc(r: Resolution, events: seq<Event>, j: nat, page: nat)
    requires j < |events|
    ensures Touched(r, events[..j + 1], page) <==> Touched(r, events[..j], page) || Touches(r, events[j], page)
  {
    var before, now := events[..j], events[..j + 1];
    if Touched(r, before, page) {
      var i :| 0 <= i < j && Touches(r, before[i], page);
      assert Touches(r, now[i], page);
    }
    if Touches(r, events[j], page) {
      assert Touches(r, now[j], page);
    }
    if Touched(r, now, page) {
      var i :| 0 <= i < |now| && Touches(r, now[i], page);
      assert i < j ==> Touches(r, before[i], page);
    }
  }

  // The stored pages are the touched ones, and the requests are the pages asked for.
  lemma {:induction false} StoredIffTouched(r: Resolution, events: seq<Event>, caches: seq<Pages>, k: nat, page: nat)
    requires History(r, events, caches) && k <= |events|
    ensures OnePerIndex(caches[k])
    ensures Find(caches[k], page).Some? <==> Touched(r, events[..k], page)
    ensures k < |events| ==> (page in Requests(events[k]) <==> Asked(r, events, k, page))
    decreases k
  {
    if k == 0 {
    } else {
      var j := k - 1;
      StoredIffTouched(r, events, caches, j, page);
      assert Enabled(r, caches[j], events[j]);
      PagesAfterExact(r, caches[j], Requests(events[j]), NowSecs(events[j]), events[j].fetch, page);
      TouchedSnoc(r, events, j, page);
    }
    if k < |events| {
      assert Enabled(r, caches[k], events[k]);
    }
  }

  // ----- answers -----

  // The request this event makes for a page, if anything in the page has closed.
  function RequestFor(r: Resolution, e: Event, page: nat): Option<Window> {
    PageWindow(r, page, NowSecs(e))
  }

  predicate Succeeds(r: Resolution, e: Event, page: nat) {
    RequestFor(r, e, page).Some? && e.fetch(RequestFor(r, e, page).value).Some?
  }

  // The page of a moment in milliseconds.
  function PageOfMs(r: Resolution, ms: nat): nat { Quotient(ms, SpanMs(r)) }

  // The event asks for a window with the moment in it, and is answered.
  predicate Answers(r: Resolution, e: Event, ms: nat) {
    && PageOfMs(r, ms) in Requests(e) && Succeeds(r, e, PageOfMs(r, ms))
    && InWindow(RequestFor(r, e, PageOfMs(r, ms)), ms)
  }

  predicate Answered(r: Resolution, events: seq<Event>, ms: nat) {
    exists j :: 0 <= j < |events| && Answers(r, events[j], ms)
  }

  // What the last answered request for a page brought.
  function LastAnswer(r: Resolution, events: seq<Event>, page: nat): seq<Bar> {
    if events == [] then []
    else
      var init, last := events[..|events| - 1], events[|events| - 1];
      if Asked(r, events, |events| - 1, page) && Succeeds(r, last, page)
      then last.fetch(RequestFor(r, last, page).value).value
      else LastAnswer(r, init, page)
  }

  // One event, as seen by one page.
  lemma StoredAfter(r: Resolution, before: Pages, e: Event, page: nat)
    requires OnePerIndex(before) && Enabled(r, before, e) && (page in Requests(e) || Find(before, page).Some?)
    ensures Find(NextPages(r, before, e), page)
         == if page in Requests(e) && Succeeds(r, e, page) then e.fetch(RequestFor(r, e, page).value)
            else if Find(before, page).Some? then Find(before, page)
            else Some([])
  {
    PagesAfterExact(r, before, Requests(e), NowSecs(e), e.fetch, page);
  }

  lemma HistoryBefore(r: Resolution, events: seq<Event>, caches: seq<Pages>)
    requires History(r, events, caches) && events != []
    ensures History(r, events[..|events| - 1], caches[..|events|])
  {
  }

  /** A stored page holds what its last answered request brought, and nothing if none was. */
  lemma {:induction false} StoredIsLastAnswer(r: Resolution, events: seq<Event>, caches: seq<Pages>, page: nat)
    requires History(r, events, caches)
    ensures Find(caches[|events|], page)
         == if Touched(r, events, page) then Some(LastAnswer(r, events, page)) else None
    decreases |events|
  {
    assert events[..|events|] == events;
    StoredIffTouched(r, events, caches, |events|, page);
    if events == [] {
    } else {
      var j := |events| - 1;
      HistoryBefore(r, events, caches);
      StoredIsLastAnswer(r, events[..j], caches[..j + 1], page);
      StoredIffTouched(r, events, caches, j, page);
      assert Enabled(r, caches[j], events[j]);
      if Touched(r, events, page) {
        TouchedSnoc(r, events, j, page);
        StoredAfter(r, caches[j], events[j], page);
        if !Touched(r, events[..j], page) {
          NeverAnswered(r, events[..j], page);
        }
      }
    }
  }

  lemma {:induction false} NeverAnswered(r: Resolution, events: seq<Event>, page: nat)
    requires !Touched(r, events, page)
    ensures LastAnswer(r, events, page) == []
    decreases |events|
  {
    if events == [] {
    } else {
      TouchedSnoc(r, events, |events| - 1, page);
      assert events[..|events|] == events;
      NeverAnswered(r, events[..|events| - 1], page);
    }
  }

  // ----- the moments of a range -----

  // The range ends at the clock when it has no end, and at a whole second in any case.
  function EndMs(range: TimeRange, nowMs: nat): nat {
    (if range.end.Some? then range.end.value else nowMs) / 1000 * 1000
  }

  // A moment of the range whose bucket has closed.
  predicate ClosedIn(r: Resolution, range: TimeRange, nowMs: nat, ms: nat) {
    range.start <= ms < EndMs(range, nowMs) && ms < LastClosedMs(r, nowMs / 1000)
  }

  // Up to where, and from where, the range needs a page.
  function NeededEnd(r: Resolution, range: TimeRange, nowMs: nat, page: nat): nat {
    MinNat((page + 1) * SpanMs(r), MinNat(LastClosedMs(r, nowMs / 1000), EndMs(range, nowMs)))
  }

  predicate Needed(r: Resolution, range: TimeRange, nowMs: nat, page: nat) {
    range.start < NeededEnd(r, range, nowMs, page) && page * SpanMs(r) < NeededEnd(r, range, nowMs, page)
  }

  lemma PageBounds(r: Resolution, ms: nat, page: nat)
    ensures page == PageOfMs(r, ms) <==> page * SpanMs(r) <= ms < (page + 1) * SpanMs(r)
  {
    assert (page + 1) * SpanMs(r) == page * SpanMs(r) + SpanMs(r);
    assert (PageOfMs(r, ms) + 1) * SpanMs(r) == PageOfMs(r, ms) * SpanMs(r) + SpanMs(r);
    if page * SpanMs(r) <= ms < (page + 1) * SpanMs(r) {
      QuotientIsUnique(ms, SpanMs(r), page);
    }
  }

  lemma PageOfSecond(r: Resolution, ms: nat)
    ensures PageOfMs(r, ms) == PageOf(r, ms / 1000)
  {
    var q, span := PageOf(r, ms / 1000), SpanSecs(r);
    assert q * (span * 1000) == (q * span) * 1000;
    QuotientIsUnique(ms, SpanMs(r), q);
  }

  // A closed moment of the range lies in a page of the range.
  lemma ClosedMomentIsInPages(r: Resolution, range: TimeRange, nowMs: nat, ms: nat)
    requires ClosedIn(r, range, nowMs, ms)
    ensures InPages(r, range, nowMs, PageOfMs(r, ms))
  {
    PageOfSecond(r, ms);
    var toSecs := (if range.end.Some? then range.end.value else nowMs) / 1000;
    assert range.start / 1000 <= ms / 1000 < toSecs;
    QuotientsInOrder(range.start / 1000, ms / 1000, SpanSecs(r));
    QuotientsInOrder(ms / 1000, toSecs - 1, SpanSecs(r));
  }

  /** With nothing stored, one load covers every closed moment of its range: it asks for a window
      with the moment in it. */
  lemma FirstLoadCovers(r: Resolution, e: Event, ms: nat)
    requires e.Load? && Enabled(r, [], e) && ClosedIn(r, e.range, e.nowMs, ms)
    ensures PageOfMs(r, ms) in Requests(e) && InWindow(RequestFor(r, e, PageOfMs(r, ms)), ms)
  {
    ClosedMomentIsInPages(r, e.range, e.nowMs, ms);
    WindowsTile(r, PageOfMs(r, ms), NowSecs(e), ms);
    assert Wants(r, [], e.range, e.nowMs, PageOfMs(r, ms));
  }

  // ----- exactly when a range has been answered -----

  // Event `j` asks for the page, is answered, and comes when the page has closed up to `end`.
  predicate Serves(r: Resolution, events: seq<Event>, j: nat, page: nat, end: nat)
    requires j < |events|
  {
    Asked(r, events, j, page) && Succeeds(r, events[j], page) && end <= LastClosedMs(r, NowSecs(events[j]))
  }

  predicate Served(r: Resolution, events: seq<Event>, page: nat, end: nat) {
    exists j :: 0 <= j < |events| && Serves(r, events, j, page, end)
  }

  // A moment has been answered when some answered request came after it had closed.
  lemma MomentAnsweredIff(r: Resolution, events: seq<Event>, caches: seq<Pages>, ms: nat)
    requires History(r, events, caches)
    ensures Answered(r, events, ms) <==> Served(r, events, PageOfMs(r, ms), ms + 1)
  {
    var page := PageOfMs(r, ms);
    forall j | 0 <= j < |events|
      ensures Answers(r, events[j], ms) <==> Serves(r, events, j, page, ms + 1)
    {
      StoredIffTouched(r, events, caches, j, page);
      WindowsTile(r, page, NowSecs(events[j]), ms);
    }
    if Answered(r, events, ms) {
      var j :| 0 <= j < |events| && Answers(r, events[j], ms);
      assert Serves(r, events, j, page, ms + 1);
    }
    if Served(r, events, page, ms + 1) {
      var j :| 0 <= j < |events| && Serves(r, events, j, page, ms + 1);
      assert Answers(r, events[j], ms);
    }
  }

  lemma ServedUpTo(r: Resolution, events: seq<Event>, page: nat, low: nat, high: nat)
    requires Served(r, events, page, high) && low <= high
    ensures Served(r, events, page, low)
  {
    var j :| 0 <= j < |events| && Serves(r, events, j, page, high);
    assert Serves(r, events, j, page, low);
  }

  // A page served up to `end` has its moments before `end` answered, and the other way about its
  // last moment tells.
  lemma ServedAnswers(r: Resolution, events: seq<Event>, caches: seq<Pages>, page: nat, end: nat, ms: nat)
    requires History(r, events, caches) && PageOfMs(r, ms) == page && ms < end
    ensures Served(r, events, page, end) ==> Answered(r, events, ms)
    ensures ms + 1 == end ==> (Answered(r, events, ms) ==> Served(r, events, page, end))
  {
    MomentAnsweredIff(r, events, caches, ms);
    if Served(r, events, page, end) {
      ServedUpTo(r, events, page, ms + 1, end);
    }
  }

  // The part of the range in one page has been answered when its last moment has.
  lemma PageAnsweredIff(r: Resolution, events: seq<Event>, caches: seq<Pages>, range: TimeRange, nowMs: nat, page: nat)
    requires History(r, events, caches) && Needed(r, range, nowMs, page)
    ensures Served(r, events, page, NeededEnd(r, range, nowMs, page))
       <==> forall ms: nat :: ClosedIn(r, range, nowMs, ms) && PageOfMs(r, ms) == page ==> Answered(r, events, ms)
  {
    var end := NeededEnd(r, range, nowMs, page);
    if Served(r, events, page, end) {
      forall ms: nat | ClosedIn(r, range, nowMs, ms) && PageOfMs(r, ms) == page
        ensures Answered(r, events, ms)
      {
        PageBounds(r, ms, page);
        ServedAnswers(r, events, caches, page, end, ms);
      }
    }
    if forall ms: nat :: ClosedIn(r, range, nowMs, ms) && PageOfMs(r, ms) == page ==> Answered(r, events, ms) {
      var last: nat := end - 1;
      PageBounds(r, last, page);
      assert ClosedIn(r, range, nowMs, last) && PageOfMs(r, last) == page;
      ServedAnswers(r, events, caches, page, end, last);
    }
  }

  /** Over any history of loads, with any failures: every closed moment of a range has been
      asked for and answered if and only if every page the range needs had an answered request
      made when the needed part of the page had closed. The condition speaks of the ranges and
      times of the loads and of failed requests alone. */
  lemma RangeAnsweredIff(r: Resolution, events: seq<Event>, caches: seq<Pages>, range: TimeRange, nowMs: nat)
    requires History(r, events, caches)
    ensures (forall ms: nat :: ClosedIn(r, range, nowMs, ms) ==> Answered(r, events, ms))
       <==> forall page: nat :: Needed(r, range, nowMs, page) ==> Served(r, events, page, NeededEnd(r, range, nowMs, page))
  {
    if forall ms: nat :: ClosedIn(r, range, nowMs, ms) ==> Answered(r, events, ms) {
      forall page: nat | Needed(r, range, nowMs, page)
        ensures Served(r, events, page, NeededEnd(r, range, nowMs, page))
      {
        PageAnsweredIff(r, events, caches, range, nowMs, page);
      }
    }
    if forall page: nat :: Needed(r, range, nowMs, page) ==> Served(r, events, page, NeededEnd(r, range, nowMs, page)) {
      forall ms: nat | ClosedIn(r, range, nowMs, ms)
        ensures Answered(r, events, ms)
      {
        var page := PageOfMs(r, ms);
        PageBounds(r, ms, page);
        assert Needed(r, range, nowMs, page);
        PageAnsweredIff(r, events, caches, range, nowMs, page);
      }
    }
  }

  // ----- pages that have passed -----

  // A page has closed to its end exactly when it has passed.
  lemma ClosedWhenPassed(r: Resolution, page: nat, secs: nat)
    ensures (page + 1) * SpanMs(r) <= LastClosedMs(r, secs) <==> page < PageOf(r, secs)
  {
    var n, res, q := PageBuckets(r), ResolutionSeconds(r), Quotient(secs, ResolutionSeconds(r));
    var first := (page + 1) * n;
    Regrouped(page + 1, n, res);
    assert (page + 1) * SpanMs(r) == first * res * 1000;
    WholeSteps(first, q, res, secs);
    WholeSteps(page + 1, PageOf(r, secs), n * res, secs);
  }

  lemma Regrouped(k: nat, n: nat, res: nat)
    ensures k * n * res == k * (n * res) && k * (n * res * 1000) == k * n * res * 1000
    ensures res * n == n * res
  {
    assert k * n * res == k * (n * res);
  }

  // The event asks for a page that has passed: it is the first to touch it, or `loadOlder`.
  predicate AsksForPassed(r: Resolution, events: seq<Event>, j: nat, page: nat)
    requires j < |events|
  {
    && Touches(r, events[j], page) && page < PageOf(r, NowSecs(events[j]))
    && (events[j].Older? || !Touched(r, events[..j], page))
  }

  /** What becomes of a page once it has passed: all of it has been asked for and answered if and
      only if it had already passed when it was first touched, or when `loadOlder` asked for it,
      and that request was answered. A page first touched while it was the trailing page, or
      whose request failed, is never completed by any later load. */
  lemma PassedPageIff(r: Resolution, events: seq<Event>, caches: seq<Pages>, page: nat)
    requires History(r, events, caches)
    ensures (forall ms: nat :: PageOfMs(r, ms) == page ==> Answered(r, events, ms))
       <==> exists j :: 0 <= j < |events| && AsksForPassed(r, events, j, page) && Succeeds(r, events[j], page)
  {
    WholePageServed(r, events, caches, page);
    PassedWhenServed(r, events, page, (page + 1) * SpanMs(r));
  }

  lemma PassedWhenServed(r: Resolution, events: seq<Event>, page: nat, end: nat)
    requires end == (page + 1) * SpanMs(r)
    ensures Served(r, events, page, end)
       <==> exists j :: 0 <= j < |events| && AsksForPassed(r, events, j, page) && Succeeds(r, events[j], page)
  {
    forall j | 0 <= j < |events|
      ensures Serves(r, events, j, page, end) <==> AsksForPassed(r, events, j, page) && Succeeds(r, events[j], page)
    {
      ClosedWhenPassed(r, page, NowSecs(events[j]));
    }
    if Served(r, events, page, end) {
      var j :| 0 <= j < |events| && Serves(r, events, j, page, end);
      assert AsksForPassed(r, events, j, page);
    }
    if j :| 0 <= j < |events| && AsksForPassed(r, events, j, page) && Succeeds(r, events[j], page) {
      assert Serves(r, events, j, page, end);
    }
  }

  lemma WholePageServed(r: Resolution, events: seq<Event>, caches: seq<Pages>, page: nat)
    requires History(r, events, caches)
    ensures Served(r, events, page, (page + 1) * SpanMs(r))
       <==> forall ms: nat :: PageOfMs(r, ms) == page ==> Answered(r, events, ms)
  {
    var end: nat := (page + 1) * SpanMs(r);
    assert end == page * SpanMs(r) + SpanMs(r);
    if Served(r, events, page, end) {
      forall ms: nat | PageOfMs(r, ms) == page
        ensures Answered(r, events, ms)
      {
        PageBounds(r, ms, page);
        ServedAnswers(r, events, caches, page, end, ms);
      }
    }
    if forall ms: nat :: PageOfMs(r, ms) == page ==> Answered(r, events, ms) {
      var last: nat := end - 1;
      PageBounds(r, last, page);
      assert PageOfMs(r, last) == page;
      ServedAnswers(r, events, caches, page, end, last);
    }
  }

  // ----- two histories with a gap -----

  function AlwaysAnswers(): Fetch { (w: Window) => Some([]) }

  function NeverAnswers(): Fetch { (w: Window) => None }

  lemma PagesOfMinutes()
    ensures SpanSecs(M1) == 21_600 && SpanMs(M1) == 21_600_000
    ensures PageOf(M1, 0) == 0 && PageOf(M1, 3_600) == 0 && PageOf(M1, 3_599) == 0
    ensures PageOf(M1, 25_200) == 1 && PageOf(M1, 25_199) == 1 && PageOf(M1, 21_599) == 0
    ensures LastClosedMs(M1, 3_600) == 3_600_000 && LastClosedMs(M1, 25_200) == 25_200_000
  {
    QuotientIsUnique(0, 21_600, 0);
    QuotientIsUnique(3_600, 21_600, 0);
    QuotientIsUnique(3_599, 21_600, 0);
    QuotientIsUnique(25_200, 21_600, 1);
    QuotientIsUnique(25_199, 21_600, 1);
    QuotientIsUnique(21_599, 21_600, 0);
    QuotientIsUnique(3_600, 60, 60);
    QuotientIsUnique(25_200, 60, 420);
  }

  lemma HistoryOfTwo(r: Resolution, first: Event, second: Event) returns (events: seq<Event>, caches: seq<Pages>)
    requires Enabled(r, [], first) && Enabled(r, NextPages(r, [], first), second)
    ensures events == [first, second] && History(r, events, caches)
  {
    events := [first, second];
    var middle := NextPages(r, [], first);
    caches := [[], middle, NextPages(r, middle, second)];
  }

  // One-minute bars since the epoch, loaded at one o'clock and again at seven: the first page
  // has passed by then, is not asked for again, and five of its six hours stay unanswered.
  lemma GapAfterTrailing() returns (events: seq<Event>, caches: seq<Pages>)
    ensures History(M1, events, caches) && |events| == 2
    ensures forall j :: 0 <= j < 2 ==> events[j].Load? && events[j].fetch == AlwaysAnswers()
    ensures ClosedIn(M1, events[1].range, events[1].nowMs, 3_600_000) && !Answered(M1, events, 3_600_000)
  {
    var since := TimeRange(0, None);
    var first, second := Load(since, 3_600_000, AlwaysAnswers(), [0]), Load(since, 25_200_000, AlwaysAnswers(), [1]);
    PagesOfMinutes();
    PagesAfterExact(M1, [], [0], 3_600, AlwaysAnswers(), 0);
    PagesAfterExact(M1, [], [0], 3_600, AlwaysAnswers(), 1);
    events, caches := HistoryOfTwo(M1, first, second);
    QuotientIsUnique(3_600_000, 21_600_000, 0);
    assert !InWindow(RequestFor(M1, first, 0), 3_600_000);
  }

  // A page that has passed, asked for once in vain: the same load does not ask again, although
  // every request would now be answered.
  lemma GapAfterFailure() returns (events: seq<Event>, caches: seq<Pages>)
    ensures History(M1, events, caches) && |events| == 2
    ensures events[1].Load? && events[1].range == TimeRange(0, Some(21_600_000)) && events[1].fetch == AlwaysAnswers()
    ensures ClosedIn(M1, events[1].range, events[1].nowMs, 0) && !Answered(M1, events, 0)
  {
    var day := TimeRange(0, Some(21_600_000));
    var first, second := Load(day, 25_200_000, NeverAnswers(), [0]), Load(day, 25_200_000, AlwaysAnswers(), []);
    PagesOfMinutes();
    PagesAfterExact(M1, [], [0], 25_200, NeverAnswers(), 0);
    events, caches := HistoryOfTwo(M1, first, second);
    QuotientIsUnique(0, 21_600_000, 0);
  }
}
