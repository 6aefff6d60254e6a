/**
 Lists of bars in time order, as views of maps from bucket starts to bars.
 */
module CandleBars {
  import opened Candles

  ghost predicate TimesIncrease(bars: seq<Bar>) {
    forall i, j :: 0 <= i < j < |bars| ==> bars[i].time < bars[j].time
  }

  // `bars` lists exactly the bars of `m`, in time order.
  ghost predicate Enumerates(bars: seq<Bar>, m: Live) {
    && TimesIncrease(bars)
    && (forall i :: 0 <= i < |bars| ==> bars[i].time in m && m[bars[i].time] == bars[i])
    && (forall k :: k in m ==> exists i :: 0 <= i < |bars| && bars[i].time == k)
  }

  // The bars sit under their own times.
  ghost predicate KeyedByTime(m: Live) {
    forall k :: k in m ==> m[k].time == k
  }

  // The last bar listed is the newest of the map.
  lemma LastIsNewest(bars: seq<Bar>, m: Live, k: nat)
    requires Enumerates(bars, m) && bars != [] && k in m
    ensures k <= bars[|bars| - 1].time
  {
    var i :| 0 <= i < |bars| && bars[i].time == k;
    assert i < |bars| - 1 ==> bars[i].time < bars[|bars| - 1].time;
  }

  lemma DropLast(bars: seq<Bar>, m: Live)
    requires Enumerates(bars, m) && bars != []
    ensures Enumerates(bars[..|bars| - 1], m - {bars[|bars| - 1].time})
  {
    var init, last := bars[..|bars| - 1], bars[|bars| - 1].time;
    forall k | k in m - {last}
      ensures exists i :: 0 <= i < |init| && init[i].time == k
    {
      var i :| 0 <= i < |bars| && bars[i].time == k;
      assert init[i].time == k;
    }
  }

  lemma SameLast(a: seq<Bar>, b: seq<Bar>, m: Live)
    requires Enumerates(a, m) && Enumerates(b, m) && a != []
    ensures b != [] && a[|a| - 1] == b[|b| - 1]
  {
    var k := a[|a| - 1].time;
    assert k in m;
    var i :| 0 <= i < |b| && b[i].time == k;
    LastIsNewest(b, m, k);
    LastIsNewest(a, m, b[|b| - 1].time);
  }

  /** A map has one listing in time order. */
  lemma {:induction false} EnumerationIsUnique(a: seq<Bar>, b: seq<Bar>, m: Live)
    requires Enumerates(a, m) && Enumerates(b, m)
    ensures a == b
    decreases |a|
  {
    if a != [] {
      SameLast(a, b, m);
      var p, q := |a| - 1, |b| - 1;
      DropLast(a, m);
      DropLast(b, m);
      EnumerationIsUnique(a[..p], b[..q], m - {a[p].time});
      assert a == a[..p] + [a[p]] && b == b[..q] + [b[q]];
    } else if b != [] {
      SameLast(b, a, m);
    }
  }

  // `bars` lists the part of `m` that is older than everything in `rest`.
  ghost predicate ListsAllBut(bars: seq<Bar>, m: Live, rest: Live) {
    && rest.Keys <= m.Keys && (forall k :: k in rest ==> rest[k] == m[k])
    && (forall i, k :: 0 <= i < |bars| && k in rest ==> bars[i].time < k)
    && Enumerates(bars, m - rest.Keys)
  }

  // The bars of a map sorted by time, by taking out the oldest one each time.
  method SortedValues(m: Live) returns (bars: seq<Bar>)
    requires KeyedByTime(m)
    ensures Enumerates(bars, m)
  {
    bars := [];
    var rest := m;
    while rest.Keys != {}
      invariant ListsAllBut(bars, m, rest)
      decreases |rest.Keys|
    {
      OldestExists(rest.Keys);
      var k :| k in rest.Keys && IsOldest(k, rest.Keys);
      ListOldest(bars, m, rest, k);
      bars := bars + [rest[k]];
      rest := rest - {k};
    }
    assert m - rest.Keys == m;
  }

  predicate IsOldest(k: nat, keys: set<nat>) {
    forall j :: j in keys ==> k <= j
  }

  lemma {:induction false} OldestExists(keys: set<nat>)
    requires keys != {}
    ensures exists k :: k in keys && IsOldest(k, keys)
    decreases |keys|
  {
    var x :| x in keys;
    if !IsOldest(x, keys) {
      var others := keys - {x};
      var lower :| lower in keys && lower < x;
      assert lower in others;
      OldestExists(others);
      var y :| y in others && IsOldest(y, others);
      assert forall j :: j in keys ==> j == x || j in others;
      assert IsOldest(y, keys);
    }
  }

  lemma ListOldest(bars: seq<Bar>, m: Live, rest: Live, k: nat)
    requires KeyedByTime(m) && ListsAllBut(bars, m, rest) && k in rest && IsOldest(k, rest.Keys)
    ensures ListsAllBut(bars + [rest[k]], m, rest - {k})
  {
    var more, done := bars + [rest[k]], m - (rest - {k}).Keys;
    assert Enumerates(more, done) by {
      forall j | j in done
        ensures exists i :: 0 <= i < |more| && more[i].time == j
      {
        if j == k {
          assert more[|bars|].time == k;
        } else {
          assert j in m - rest.Keys;
          var i :| 0 <= i < |bars| && bars[i].time == j;
          assert more[i].time == j;
        }
      }
    }
  }

  // Sorting by time, stable.
  function InsertByTime(bars: seq<Bar>, bar: Bar): seq<Bar> {
    if bars == [] || bars[|bars| - 1].time <= bar.time then bars + [bar]
    else InsertByTime(bars[..|bars| - 1], bar) + [bars[|bars| - 1]]
  }

  function SortByTime(bars: seq<Bar>): seq<Bar> {
    if bars == [] then [] else InsertByTime(SortByTime(bars[..|bars| - 1]), bars[|bars| - 1])
  }

  ghost predicate TimesDoNotFall(bars: seq<Bar>) {
    forall i, j :: 0 <= i < j < |bars| ==> bars[i].time <= bars[j].time
  }

  lemma {:induction false} InsertKeepsAll(bars: seq<Bar>, bar: Bar)
    ensures multiset(InsertByTime(bars, bar)) == multiset(bars) + multiset{bar}
    decreases |bars|
  {
    if bars == [] || bars[|bars| - 1].time <= bar.time {
    } else {
      var init, last := bars[..|bars| - 1], bars[|bars| - 1];
      assert bars == init + [last];
      InsertKeepsAll(init, bar);
    }
  }

  ghost predicate NoneLater(bars: seq<Bar>, time: nat) {
    forall k :: 0 <= k < |bars| ==> bars[k].time <= time
  }

  lemma InsertStaysEarly(bars: seq<Bar>, bar: Bar, time: nat)
    requires NoneLater(bars, time) && bar.time <= time
    ensures NoneLater(InsertByTime(bars, bar), time)
  {
    var r := InsertByTime(bars, bar);
    InsertKeepsAll(bars, bar);
    forall k | 0 <= k < |r|
      ensures r[k].time <= time
    {
      assert r[k] in multiset(r);
    }
  }

  lemma {:induction false} InsertSorts(bars: seq<Bar>, bar: Bar)
    requires TimesDoNotFall(bars)
    ensures TimesDoNotFall(InsertByTime(bars, bar))
    decreases |bars|
  {
    if bars == [] || bars[|bars| - 1].time <= bar.time {
    } else {
      var init, last := bars[..|bars| - 1], bars[|bars| - 1];
      InsertSorts(init, bar);
      InsertStaysEarly(init, bar, last.time);
    }
  }

  // Sorting puts the bars in order and keeps them all.
  lemma {:induction false} SortSorts(bars: seq<Bar>)
    ensures TimesDoNotFall(SortByTime(bars)) && multiset(SortByTime(bars)) == multiset(bars)
    decreases |bars|
  {
    if bars == [] {
    } else {
      var init, last := bars[..|bars| - 1], bars[|bars| - 1];
      assert bars == init + [last];
      SortSorts(init);
      InsertSorts(SortByTime(init), last);
      InsertKeepsAll(SortByTime(init), last);
    }
  }

  lemma SameNewest(a: seq<Bar>, b: seq<Bar>)
    requires TimesDoNotFall(a) && TimesIncrease(b) && multiset(a) == multiset(b) && a != []
    ensures b != [] && a[|a| - 1] == b[|b| - 1]
  {
    var last := a[|a| - 1];
    assert last in multiset(b);
    var i :| 0 <= i < |b| && b[i] == last;
    assert b[|b| - 1] in multiset(a);
    var j :| 0 <= j < |a| && a[j] == b[|b| - 1];
    assert i < |b| - 1 ==> b[i].time < b[|b| - 1].time;
  }

  lemma DropSameLast(a: seq<Bar>, b: seq<Bar>)
    requires a != [] && b != [] && a[|a| - 1] == b[|b| - 1] && multiset(a) == multiset(b)
    ensures multiset(a[..|a| - 1]) == multiset(b[..|b| - 1])
  {
    var p, q := |a| - 1, |b| - 1;
    assert a == a[..p] + [a[p]] && b == b[..q] + [b[q]];
    assert multiset(a[..p]) == multiset(a) - multiset{a[p]};
  }

  lemma {:induction false} OrderIsUnique(a: seq<Bar>, b: seq<Bar>)
    requires TimesDoNotFall(a) && TimesIncrease(b) && multiset(a) == multiset(b)
    ensures a == b
    decreases |a|
  {
    if a == [] {
      assert |multiset(b)| == 0;
    } else {
      SameNewest(a, b);
      DropSameLast(a, b);
      OrderIsUnique(a[..|a| - 1], b[..|b| - 1]);
      assert a == a[..|a| - 1] + [a[|a| - 1]] && b == b[..|b| - 1] + [b[|b| - 1]];
    }
  }

  /** Sorting bars of different times, in whatever order they come, lists them in time order. */
  lemma SortFindsListing(bars: seq<Bar>, listing: seq<Bar>)
    requires TimesIncrease(listing) && multiset(bars) == multiset(listing)
    ensures SortByTime(bars) == listing
  {
    SortSorts(bars);
    OrderIsUnique(SortByTime(bars), listing);
  }

  // The bars of one time, in order.
  function OfTime(bars: seq<Bar>, time: nat): seq<Bar> {
    if bars == [] then []
    else OfTime(bars[..|bars| - 1], time) + if bars[|bars| - 1].time == time then [bars[|bars| - 1]] else []
  }

  lemma OfTimeSnoc(bars: seq<Bar>, bar: Bar, time: nat)
    ensures OfTime(bars + [bar], time) == OfTime(bars, time) + if bar.time == time then [bar] else []
  {
    assert (bars + [bar])[..|bars|] == bars;
  }

  lemma {:induction false} InsertIsStable(bars: seq<Bar>, bar: Bar, time: nat)
    ensures OfTime(InsertByTime(bars, bar), time) == OfTime(bars + [bar], time)
    decreases |bars|
  {
    if bars == [] || bars[|bars| - 1].time <= bar.time {
    } else {
      var init, last := bars[..|bars| - 1], bars[|bars| - 1];
      InsertIsStable(init, bar, time);
      OfTimeSnoc(InsertByTime(init, bar), last, time);
      OfTimeSnoc(init, bar, time);
      OfTimeSnoc(bars, bar, time);
    }
  }

  /** Sorting is stable: bars of one time keep their order. */
  lemma {:induction false} SortIsStable(bars: seq<Bar>, time: nat)
    ensures TimesDoNotFall(SortByTime(bars)) && OfTime(SortByTime(bars), time) == OfTime(bars, time)
    decreases |bars|
  {
    SortSorts(bars);
    if bars == [] {
    } else {
      var init, last := bars[..|bars| - 1], bars[|bars| - 1];
      SortIsStable(init, time);
      InsertIsStable(SortByTime(init), last, time);
      OfTimeSnoc(SortByTime(init), last, time);
    }
  }
}
