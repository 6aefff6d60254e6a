/**
 What rounding costs when a market's positions cancel out: the accounts together never gain,
 and lose at most two units of the last decimal per account beyond the first.
 */
module ZeroSum {
  import opened Wrappers
  import opened FixedPoint
  import opened LivePositions

  function Sum(xs: seq<int>): int {
    if xs == [] then 0 else Sum(xs[..|xs| - 1]) + xs[|xs| - 1]
  }

  function Floors(c: int, sizes: seq<int>): int {
    if sizes == [] then 0 else Floors(c, sizes[..|sizes| - 1]) + MulFloor(c, sizes[|sizes| - 1])
  }

  function Ceilings(c: int, sizes: seq<int>, d: int): int {
    if sizes == [] then 0 else Ceilings(c, sizes[..|sizes| - 1], d) + MulDivCeil(c, sizes[|sizes| - 1], d)
  }

  // Each floor falls short by less than a unit, each ceiling exceeds by less than one.
  lemma {:induction false} FloorsBound(c: int, sizes: seq<int>)
    ensures c * Sum(sizes) - |sizes| * (WAD - 1) <= Floors(c, sizes) * WAD <= c * Sum(sizes)
    decreases |sizes|
  {
    if sizes == [] {
    } else {
      var init, last := sizes[..|sizes| - 1], sizes[|sizes| - 1];
      FloorsBound(c, init);
      assert c * (Sum(init) + last) == c * Sum(init) + c * last;
    }
  }

  lemma {:induction false} CeilingsBound(c: int, sizes: seq<int>, d: int)
    requires d > 0
    ensures c * Sum(sizes) <= Ceilings(c, sizes, d) * d <= c * Sum(sizes) + |sizes| * (d - 1)
    decreases |sizes|
  {
    if sizes == [] {
    } else {
      var init, last := sizes[..|sizes| - 1], sizes[|sizes| - 1];
      var q := MulDivCeil(c, last, d);
      CeilingsBound(c, init, d);
      AddCeiling(c, Sum(init), last, Ceilings(c, init, d), q, |init|, d);
    }
  }

  lemma AddCeiling(c: int, sum: int, last: int, ceilings: int, q: int, n: nat, d: int)
    requires d > 0 && IsCeiling(c * last, d, q)
    requires c * sum <= ceilings * d <= c * sum + n * (d - 1)
    ensures c * (sum + last) <= (ceilings + q) * d <= c * (sum + last) + (n + 1) * (d - 1)
  {
    assert c * (sum + last) == c * sum + c * last;
    assert (ceilings + q) * d == ceilings * d + q * d;
    assert (q - 1) * d == q * d - d;
    assert (n + 1) * (d - 1) == n * (d - 1) + (d - 1);
  }

  lemma ScaledOrder(x: int, y: int, d: int)
    requires d > 0
    ensures x >= y <==> x * d >= y * d
  {
  }

  // A sum of fewer than `n` units, in a scale of `d`.
  lemma UnitsBelow(total: int, n: nat, d: int)
    requires d > 0 && total * d <= n * (d - 1) && n > 0
    ensures total <= n - 1
  {
    assert n * (d - 1) == n * d - n;
    ScaledOrder(total, n, d);
  }

  lemma ZeroSumFloors(c: int, sizes: seq<int>)
    requires sizes != [] && Sum(sizes) == 0
    ensures -(|sizes| - 1) <= Floors(c, sizes) <= 0
  {
    FloorsBound(c, sizes);
    UnitsBelow(-Floors(c, sizes), |sizes|, WAD);
  }

  lemma ZeroSumCeilings(c: int, sizes: seq<int>, d: int)
    requires sizes != [] && Sum(sizes) == 0
    ensures 0 <= Ceilings(c, sizes, d) <= |sizes| - 1
  {
    if d > 0 {
      CeilingsBound(c, sizes, d);
      UnitsBelow(Ceilings(c, sizes, d), |sizes|, d);
      ScaledOrder(Ceilings(c, sizes, d), 0, d);
    } else {
      NoCeilings(c, sizes, d);
    }
  }

  lemma {:induction false} NoCeilings(c: int, sizes: seq<int>, d: int)
    requires d <= 0
    ensures Ceilings(c, sizes, d) == 0
    decreases |sizes|
  {
    if sizes == [] {
    } else {
      NoCeilings(c, sizes[..|sizes| - 1], d);
    }
  }

  // ----- accounts -----

  // The account's one position is a perp in `market`, entered at `entryPrice` and
  // `entryFunding`.
  predicate HoldsOne(snap: Snapshot, market: Market, entryPrice: int, entryFunding: int) {
    && |snap.positions| == 1 && snap.positions[0].Perp?
    && var p := snap.positions[0].perp;
       p.orderbookId == market.id && p.entryPrice == entryPrice && p.entryFunding == entryFunding
  }

  predicate AllHoldOne(snaps: seq<Snapshot>, market: Market, entryPrice: int, entryFunding: int) {
    forall k :: 0 <= k < |snaps| ==> HoldsOne(snaps[k], market, entryPrice, entryFunding)
  }

  function SizeOf(snap: Snapshot): int
    requires |snap.positions| == 1 && snap.positions[0].Perp?
  {
    snap.positions[0].perp.size
  }

  function Sizes(snaps: seq<Snapshot>): seq<int>
    requires forall k :: 0 <= k < |snaps| ==> |snaps[k].positions| == 1 && snaps[k].positions[0].Perp?
  {
    seq(|snaps|, k requires 0 <= k < |snaps| => SizeOf(snaps[k]))
  }

  // The account's cash before any funding.
  function NativeCash(snap: Snapshot): int
    requires |snap.positions| == 1 && snap.positions[0].Perp?
  {
    snap.cash + snap.positions[0].perp.fundingAccrued
  }

  function TotalNativeCash(snaps: seq<Snapshot>): int
    requires forall k :: 0 <= k < |snaps| ==> |snaps[k].positions| == 1 && snaps[k].positions[0].Perp?
  {
    if snaps == [] then 0 else TotalNativeCash(snaps[..|snaps| - 1]) + NativeCash(snaps[|snaps| - 1])
  }

  function TotalEquity(snaps: seq<Snapshot>, markets: seq<Market>): int {
    if snaps == [] then 0
    else TotalEquity(snaps[..|snaps| - 1], markets) + Enriched(snaps[|snaps| - 1], markets).perpsEquity
  }

  lemma EquityFromTotals(snap: Snapshot, markets: seq<Market>)
    ensures var t := TotalsOf(snap.positions, markets);
            Enriched(snap, markets).perpsEquity == snap.cash + t.fundingSnap - t.fundingLive + t.priceUpnl
  {
  }

  lemma TotalsOfOne(p: PerpPosition, markets: seq<Market>)
    ensures var t, market := TotalsOf([Perp(p)], markets), Find(markets, p.orderbookId);
            t.priceUpnl == PriceUpnl(p, market) && t.fundingLive == Funding(p, market) && t.fundingSnap == p.fundingAccrued
  {
    assert [Perp(p)][..0] == [];
  }

  lemma OnePositionEquity(snap: Snapshot, markets: seq<Market>, market: Market, entryPrice: int, entryFunding: int)
    requires HoldsOne(snap, market, entryPrice, entryFunding) && Find(markets, market.id) == Some(market)
    requires QuotesPerp(Some(market)) && QuotesFunding(Some(market))
    ensures Enriched(snap, markets).perpsEquity
         == NativeCash(snap) + MulFloor(market.markPrice.value - entryPrice, SizeOf(snap))
            - MulDivCeil(market.fundingIndex.value - entryFunding, SizeOf(snap), market.fundingWindowUs * WAD)
  {
    var p := snap.positions[0].perp;
    assert snap.positions == [Perp(p)];
    EquityFromTotals(snap, markets);
    TotalsOfOne(p, markets);
  }

  lemma {:induction false} EquityBySizes(snaps: seq<Snapshot>, markets: seq<Market>, market: Market,
                                         entryPrice: int, entryFunding: int)
    requires AllHoldOne(snaps, market, entryPrice, entryFunding) && Find(markets, market.id) == Some(market)
    requires QuotesPerp(Some(market)) && QuotesFunding(Some(market))
    ensures TotalEquity(snaps, markets)
         == TotalNativeCash(snaps) + Floors(market.markPrice.value - entryPrice, Sizes(snaps))
            - Ceilings(market.fundingIndex.value - entryFunding, Sizes(snaps), market.fundingWindowUs * WAD)
    decreases |snaps|
  {
    if snaps == [] {
    } else {
      var m := |snaps| - 1;
      EquityBySizes(snaps[..m], markets, market, entryPrice, entryFunding);
      assert HoldsOne(snaps[m], market, entryPrice, entryFunding);
      OnePositionEquity(snaps[m], markets, market, entryPrice, entryFunding);
      assert Sizes(snaps)[..m] == Sizes(snaps[..m]);
    }
  }

  /** Accounts holding opposite positions of one market, entered at the same price and
      funding: their total equity never exceeds their total native cash, and falls short of
      it by at most 2(k-1), whatever the mark and the funding index. */
  lemma {:induction false} ZeroSumEquity(snaps: seq<Snapshot>, markets: seq<Market>, market: Market,
                                         entryPrice: int, entryFunding: int)
    requires snaps != [] && AllHoldOne(snaps, market, entryPrice, entryFunding)
    requires Find(markets, market.id) == Some(market) && QuotesPerp(Some(market)) && QuotesFunding(Some(market))
    requires Sum(Sizes(snaps)) == 0
    ensures TotalNativeCash(snaps) - 2 * (|snaps| - 1) <= TotalEquity(snaps, markets) <= TotalNativeCash(snaps)
  {
    EquityBySizes(snaps, markets, market, entryPrice, entryFunding);
    ZeroSumFloors(market.markPrice.value - entryPrice, Sizes(snaps));
    ZeroSumCeilings(market.fundingIndex.value - entryFunding, Sizes(snaps), market.fundingWindowUs * WAD);
  }

  // ----- the bound is reached -----

  function Account(size: int): Snapshot {
    Snapshot([Perp(PerpPosition(0, size, 0, 1, 0, 0, 0, 0, 0, 0, 0))], 0, 0, 0, 0, 0, 0)
  }

  const BUSY := Market(0, false, 1, 1, 0, 0, None, Some(WAD), Some(1))

  function Ones(n: nat): (r: seq<int>)
    ensures |r| == n
  {
    seq(n, _ => 1)
  }

  lemma {:induction false} OnesAddUp(n: nat)
    ensures Sum(Ones(n)) == n && Floors(WAD - 1, Ones(n)) == 0 && Ceilings(1, Ones(n), WAD) == n
  {
    if n == 0 {
    } else {
      OnesAddUp(n - 1);
      assert Ones(n)[..n - 1] == Ones(n - 1);
      assert MulFloor(WAD - 1, 1) == 0 && MulDivCeil(1, 1, WAD) == 1;
    }
  }

  // `n` accounts of one unit against one of `n` units the other way.
  lemma OneAgainstAll(n: int)
    requires 0 <= n < WAD
    ensures var sizes := Ones(n) + [-n];
            Sum(sizes) == 0 && Floors(WAD - 1, sizes) == -n && Ceilings(1, sizes, WAD) == n
  {
    var sizes := Ones(n) + [-n];
    OnesAddUp(n);
    assert sizes[..n] == Ones(n);
    RoundingsOfOpposite(n);
  }

  lemma RoundingsOfOpposite(n: int)
    requires 0 <= n < WAD
    ensures MulFloor(WAD - 1, -n) == -n && MulDivCeil(1, -n, WAD) == 0
  {
    FloorIs(-n * WAD + n, -n, MulFloor(WAD - 1, -n));
    CeilingIs(-n, 0, MulDivCeil(1, -n, WAD));
  }

  lemma FloorIs(x: int, q: int, r: int)
    requires IsFloor(x, WAD, q) && IsFloor(x, WAD, r)
    ensures q == r
  {
  }

  lemma CeilingIs(x: int, q: int, r: int)
    requires IsCeiling(x, WAD, q) && IsCeiling(x, WAD, r)
    ensures q == r
  {
  }

  /** The lower bound is reached by every number of accounts up to 10^18. */
  lemma LowerBoundIsReached(k: nat) returns (snaps: seq<Snapshot>)
    requires 0 < k <= WAD
    ensures |snaps| == k && AllHoldOne(snaps, BUSY, 1, 0) && Sum(Sizes(snaps)) == 0
    ensures TotalEquity(snaps, [BUSY]) == TotalNativeCash(snaps) - 2 * (k - 1)
  {
    var n: int := k - 1;
    var sizes := Ones(n) + [-n];
    snaps := seq(k, i requires 0 <= i < k => Account(sizes[i]));
    assert Sizes(snaps) == sizes;
    OneAgainstAll(n);
    assert [BUSY][0] == BUSY;
    assert Find([BUSY], 0) == Some(BUSY);
    EquityBySizes(snaps, [BUSY], BUSY, 1, 0);
  }

  // ----- accounts with positions in several markets -----

  // The perps among the positions, in order.
  function PerpsOf(positions: seq<Position>): seq<PerpPosition> {
    if positions == [] then []
    else
      var last := positions[|positions| - 1];
      PerpsOf(positions[..|positions| - 1]) + if last.Perp? then [last.perp] else []
  }

  function AllPerps(snaps: seq<Snapshot>): seq<PerpPosition> {
    if snaps == [] then [] else AllPerps(snaps[..|snaps| - 1]) + PerpsOf(snaps[|snaps| - 1].positions)
  }

  // Price gain less funding, at the live marks.
  function Gain(p: PerpPosition, markets: seq<Market>): int {
    PriceUpnl(p, Find(markets, p.orderbookId)) - Funding(p, Find(markets, p.orderbookId))
  }

  function Gains(perps: seq<PerpPosition>, markets: seq<Market>): int {
    if perps == [] then 0 else Gains(perps[..|perps| - 1], markets) + Gain(perps[|perps| - 1], markets)
  }

  function RecordedFunding(perps: seq<PerpPosition>): int {
    if perps == [] then 0 else RecordedFunding(perps[..|perps| - 1]) + perps[|perps| - 1].fundingAccrued
  }

  // The cash of all accounts before any funding.
  function CashBeforeFunding(snaps: seq<Snapshot>): int {
    if snaps == [] then 0
    else
      var last := snaps[|snaps| - 1];
      CashBeforeFunding(snaps[..|snaps| - 1]) + last.cash + RecordedFunding(PerpsOf(last.positions))
  }

  lemma {:induction false} GainsConcat(a: seq<PerpPosition>, b: seq<PerpPosition>, markets: seq<Market>)
    ensures Gains(a + b, markets) == Gains(a, markets) + Gains(b, markets)
    decreases |b|
  {
    if b == [] {
      assert a + b == a;
    } else {
      GainsConcat(a, b[..|b| - 1], markets);
      assert (a + b)[..|a + b| - 1] == a + b[..|b| - 1];
    }
  }

  lemma {:induction false} TotalsByPerps(positions: seq<Position>, markets: seq<Market>)
    ensures var t := TotalsOf(positions, markets);
            && t.priceUpnl - t.fundingLive == Gains(PerpsOf(positions), markets)
            && t.fundingSnap == RecordedFunding(PerpsOf(positions))
    decreases |positions|
  {
    if positions == [] {
    } else {
      var m := |positions| - 1;
      TotalsByPerps(positions[..m], markets);
      var before, all := PerpsOf(positions[..m]), PerpsOf(positions);
      if positions[m].Perp? {
        assert all[..|all| - 1] == before;
      } else {
        assert all == before;
      }
    }
  }

  lemma {:induction false} EquityByPerps(snaps: seq<Snapshot>, markets: seq<Market>)
    ensures TotalEquity(snaps, markets) == CashBeforeFunding(snaps) + Gains(AllPerps(snaps), markets)
    decreases |snaps|
  {
    if snaps == [] {
    } else {
      var m := |snaps| - 1;
      EquityByPerps(snaps[..m], markets);
      EquityFromTotals(snaps[m], markets);
      TotalsByPerps(snaps[m].positions, markets);
      GainsConcat(AllPerps(snaps[..m]), PerpsOf(snaps[m].positions), markets);
    }
  }

  // The positions in one market, and those in others.
  function In(perps: seq<PerpPosition>, id: MarketId): seq<PerpPosition> {
    if perps == [] then []
    else
      var last := perps[|perps| - 1];
      In(perps[..|perps| - 1], id) + if last.orderbookId == id then [last] else []
  }

  function Outside(perps: seq<PerpPosition>, id: MarketId): seq<PerpPosition> {
    if perps == [] then []
    else
      var last := perps[|perps| - 1];
      Outside(perps[..|perps| - 1], id) + if last.orderbookId != id then [last] else []
  }

  lemma {:induction false} GainsSplit(perps: seq<PerpPosition>, id: MarketId, markets: seq<Market>)
    ensures Gains(perps, markets) == Gains(In(perps, id), markets) + Gains(Outside(perps, id), markets)
    decreases |perps|
  {
    if perps == [] {
    } else {
      var init, last := perps[..|perps| - 1], perps[|perps| - 1];
      GainsSplit(init, id, markets);
      GainsConcat(In(init, id), if last.orderbookId == id then [last] else [], markets);
      GainsConcat(Outside(init, id), if last.orderbookId != id then [last] else [], markets);
      assert [last][..0] == [];
      assert Gains([last], markets) == Gains([], markets) + Gain(last, markets);
    }
  }

  lemma {:induction false} InAfterOutside(perps: seq<PerpPosition>, id: MarketId, other: MarketId)
    requires id != other
    ensures In(Outside(perps, other), id) == In(perps, id)
    decreases |perps|
  {
    if perps == [] {
    } else {
      var init, last := perps[..|perps| - 1], perps[|perps| - 1];
      InAfterOutside(init, id, other);
      if last.orderbookId != other {
        assert Outside(perps, other)[..|Outside(init, other)|] == Outside(init, other);
      } else {
        assert Outside(perps, other) == Outside(init, other) && In(perps, id) == In(init, id);
      }
    }
  }

  lemma {:induction false} OutsideIsPart(perps: seq<PerpPosition>, other: MarketId)
    ensures forall k :: 0 <= k < |Outside(perps, other)| ==>
              Outside(perps, other)[k] in perps && Outside(perps, other)[k].orderbookId != other
    decreases |perps|
  {
    if perps == [] {
    } else {
      OutsideIsPart(perps[..|perps| - 1], other);
    }
  }

  // A market, and where all its positions were entered.
  datatype Book = Book(market: Market, entryPrice: int, entryFunding: int)

  function SizesOf(perps: seq<PerpPosition>): seq<int> {
    seq(|perps|, k requires 0 <= k < |perps| => perps[k].size)
  }

  predicate EnteredAt(p: PerpPosition, book: Book) {
    p.orderbookId == book.market.id && p.entryPrice == book.entryPrice && p.entryFunding == book.entryFunding
  }

  // All positions of the market were entered as the book says, and cancel out.
  ghost predicate Balanced(perps: seq<PerpPosition>, book: Book, markets: seq<Market>) {
    && Find(markets, book.market.id) == Some(book.market) && QuotesPerp(Some(book.market)) && QuotesFunding(Some(book.market))
    && (forall k :: 0 <= k < |In(perps, book.market.id)| ==> EnteredAt(In(perps, book.market.id)[k], book))
    && Sum(SizesOf(In(perps, book.market.id))) == 0
  }

  lemma {:induction false} GainsBySizes(perps: seq<PerpPosition>, book: Book, markets: seq<Market>)
    requires Find(markets, book.market.id) == Some(book.market)
    requires QuotesPerp(Some(book.market)) && QuotesFunding(Some(book.market))
    requires forall k :: 0 <= k < |perps| ==> EnteredAt(perps[k], book)
    ensures Gains(perps, markets)
         == Floors(book.market.markPrice.value - book.entryPrice, SizesOf(perps))
            - Ceilings(book.market.fundingIndex.value - book.entryFunding, SizesOf(perps), book.market.fundingWindowUs * WAD)
    decreases |perps|
  {
    if perps == [] {
    } else {
      GainsBySizes(perps[..|perps| - 1], book, markets);
      assert SizesOf(perps)[..|perps| - 1] == SizesOf(perps[..|perps| - 1]);
    }
  }

  lemma BookGains(perps: seq<PerpPosition>, book: Book, markets: seq<Market>)
    requires Balanced(perps, book, markets)
    ensures 0 - Loss(|In(perps, book.market.id)|) <= Gains(In(perps, book.market.id), markets) <= 0
  {
    var own := In(perps, book.market.id);
    GainsBySizes(own, book, markets);
    if own == [] {
    } else {
      ZeroSumFloors(book.market.markPrice.value - book.entryPrice, SizesOf(own));
      ZeroSumCeilings(book.market.fundingIndex.value - book.entryFunding, SizesOf(own), book.market.fundingWindowUs * WAD);
    }
  }

  // What rounding can cost `n` positions of one market.
  function Loss(n: nat): nat { if n == 0 then 0 else 2 * (n - 1) }

  function Losses(perps: seq<PerpPosition>, books: seq<Book>): nat {
    if books == [] then 0
    else Losses(perps, books[..|books| - 1]) + Loss(|In(perps, books[|books| - 1].market.id)|)
  }

  ghost predicate CoveredBy(perps: seq<PerpPosition>, books: seq<Book>) {
    forall k :: 0 <= k < |perps| ==> exists b :: 0 <= b < |books| && books[b].market.id == perps[k].orderbookId
  }

  ghost predicate DistinctMarkets(books: seq<Book>) {
    forall i, j :: 0 <= i < j < |books| ==> books[i].market.id != books[j].market.id
  }

  lemma {:induction false} LossesOutside(perps: seq<PerpPosition>, books: seq<Book>, id: MarketId)
    requires forall b :: 0 <= b < |books| ==> books[b].market.id != id
    ensures Losses(Outside(perps, id), books) == Losses(perps, books)
    decreases |books|
  {
    if books == [] {
    } else {
      LossesOutside(perps, books[..|books| - 1], id);
      InAfterOutside(perps, books[|books| - 1].market.id, id);
    }
  }

  lemma OutsideIsCovered(perps: seq<PerpPosition>, books: seq<Book>, markets: seq<Market>)
    requires books != [] && CoveredBy(perps, books) && DistinctMarkets(books)
    requires forall b :: 0 <= b < |books| ==> Balanced(perps, books[b], markets)
    ensures var m := |books| - 1;
            var rest := Outside(perps, books[m].market.id);
            CoveredBy(rest, books[..m]) && forall b :: 0 <= b < m ==> Balanced(rest, books[b], markets)
  {
    var m := |books| - 1;
    var id := books[m].market.id;
    var rest := Outside(perps, id);
    forall k | 0 <= k < |rest|
      ensures exists b :: 0 <= b < m && books[..m][b].market.id == rest[k].orderbookId
    {
      OutsideIsPart(perps, id);
      var n :| 0 <= n < |perps| && perps[n] == rest[k];
      var b :| 0 <= b < |books| && books[b].market.id == perps[n].orderbookId;
      assert books[..m][b] == books[b];
    }
    forall b | 0 <= b < m
      ensures Balanced(rest, books[b], markets)
    {
      InAfterOutside(perps, books[b].market.id, id);
    }
  }

  lemma {:induction false} GainsOfBooks(perps: seq<PerpPosition>, books: seq<Book>, markets: seq<Market>)
    requires CoveredBy(perps, books) && DistinctMarkets(books)
    requires forall b :: 0 <= b < |books| ==> Balanced(perps, books[b], markets)
    ensures 0 - Losses(perps, books) <= Gains(perps, markets) <= 0
    decreases |books|
  {
    if books == [] {
      assert perps == [];
    } else {
      var m := |books| - 1;
      var id := books[m].market.id;
      OutsideIsCovered(perps, books, markets);
      GainsOfBooks(Outside(perps, id), books[..m], markets);
      LossesOutside(perps, books[..m], id);
      BookGains(perps, books[m], markets);
      GainsSplit(perps, id, markets);
    }
  }

  /** The same for accounts with any number of positions, perps in several markets and spots:
      if the perps of each market were entered at one price and funding and cancel out, total
      equity never exceeds the cash before funding, and falls short of it by at most two units
      per position beyond the first of each market. */
  lemma ZeroSumMarkets(snaps: seq<Snapshot>, books: seq<Book>, markets: seq<Market>)
    requires CoveredBy(AllPerps(snaps), books) && DistinctMarkets(books)
    requires forall b :: 0 <= b < |books| ==> Balanced(AllPerps(snaps), books[b], markets)
    ensures CashBeforeFunding(snaps) - Losses(AllPerps(snaps), books) <= TotalEquity(snaps, markets) <= CashBeforeFunding(snaps)
  {
    EquityByPerps(snaps, markets);
    GainsOfBooks(AllPerps(snaps), books, markets);
  }
}
