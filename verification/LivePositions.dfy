/**
 Recomputing an account between snapshots from live marks and funding
 (ts-sdk/src/sync/positions-live.ts). Every call re-baselines the previous result, so the
 point is that no call leaves a trace in the next one.
 */
module LivePositions {
  import opened Wrappers
  import opened FixedPoint

  type MarketId = nat

  datatype Market = Market(
    id: MarketId,
    isSpot: bool,
    maxLeverage: int,
    fundingWindowUs: int,
    makerFee: int,
    takerFee: int,
    lastClearingPrice: Option<int>,
    markPrice: Option<int>,
    fundingIndex: Option<int>)

  datatype PerpPosition = PerpPosition(
    orderbookId: MarketId, size: int, notional: int, entryPrice: int, markPrice: int, margin: int,
    fundingAccrued: int, entryFunding: int, liquidationPrice: int, unrealizedPnl: int, realizedPnl: int)

  datatype SpotPosition = SpotPosition(
    orderbookId: Option<MarketId>, balance: int, freeBalance: int, lockedBalance: int, costBasis: int,
    markPrice: int, unrealizedPnl: int, realizedPnl: int)

  datatype Position = Perp(perp: PerpPosition) | Spot(spot: SpotPosition)

  datatype Snapshot = Snapshot(
    positions: seq<Position>,
    totalUnrealizedPnl: int,
    totalRealizedPnl: int,
    perpsEquity: int,
    accountValue: int,
    cash: int,
    withdrawableCash: int)

  // ----- one position -----

  // Markets by id: of equal ids the last one counts.
  function Find(markets: seq<Market>, id: MarketId): Option<Market> {
    if markets == [] then None
    else if markets[|markets| - 1].id == id then Some(markets[|markets| - 1])
    else Find(markets[..|markets| - 1], id)
  }

  function MarketOf(p: Position, markets: seq<Market>): Option<Market> {
    match p
    case Perp(q) => Find(markets, q.orderbookId)
    case Spot(q) => if q.orderbookId.Some? then Find(markets, q.orderbookId.value) else None
  }

  // The market has a price for a perp: a positive mark.
  predicate QuotesPerp(market: Option<Market>) {
    market.Some? && market.value.markPrice.Some? && market.value.markPrice.value > 0
  }

  predicate QuotesFunding(market: Option<Market>) {
    market.Some? && market.value.fundingIndex.Some? && market.value.fundingWindowUs != 0
  }

  predicate QuotesSpot(market: Option<Market>) {
    market.Some? && (market.value.lastClearingPrice.Some? || market.value.markPrice.Some?)
  }

  // The price shown: a perp without any falls back to its entry price.
  function PerpMark(p: PerpPosition, market: Option<Market>): int {
    var live := if QuotesPerp(market) then market.value.markPrice.value else p.markPrice;
    if live > 0 then live else p.entryPrice
  }

  function SpotMark(p: SpotPosition, market: Option<Market>): int {
    if market.Some? && market.value.lastClearingPrice.Some? then market.value.lastClearingPrice.value
    else if market.Some? && market.value.markPrice.Some? then market.value.markPrice.value
    else p.markPrice
  }

  function Funding(p: PerpPosition, market: Option<Market>): int {
    if QuotesFunding(market)
    then MulDivCeil(market.value.fundingIndex.value - p.entryFunding, p.size, market.value.fundingWindowUs * WAD)
    else p.fundingAccrued
  }

  function PriceUpnl(p: PerpPosition, market: Option<Market>): int {
    MulFloor(PerpMark(p, market) - p.entryPrice, p.size)
  }

  function Notional(p: PerpPosition, market: Option<Market>): int {
    Mul(Abs(p.size), PerpMark(p, market))
  }

  function PriceDrift(p: SpotPosition, market: Option<Market>): int {
    Mul(p.balance, SpotMark(p, market)) - Mul(p.balance, p.markPrice)
  }

  function EnrichedPosition(p: Position, market: Option<Market>): Position {
    match p
    case Perp(q) =>
      Perp(q.(markPrice := PerpMark(q, market), unrealizedPnl := PriceUpnl(q, market),
              notional := Notional(q, market), fundingAccrued := Funding(q, market)))
    case Spot(q) =>
      Spot(q.(markPrice := SpotMark(q, market), unrealizedPnl := q.unrealizedPnl + PriceDrift(q, market)))
  }

  // ----- the accumulators -----

  datatype Totals = Totals(priceUpnl: int, priceUpnlSnap: int, fundingLive: int, fundingSnap: int,
                           im: int, mm: int, dSpot: int)
  {
    function Plus(o: Totals): Totals {
      Totals(priceUpnl + o.priceUpnl, priceUpnlSnap + o.priceUpnlSnap, fundingLive + o.fundingLive,
             fundingSnap + o.fundingSnap, im + o.im, mm + o.mm, dSpot + o.dSpot)
    }
  }

  function RateOf(market: Option<Market>): nat {
    ImRate(if market.Some? then market.value.maxLeverage else 0)
  }

  // What one position adds to the seven accumulators.
  function Share(p: Position, market: Option<Market>): Totals {
    match p
    case Perp(q) =>
      Totals(PriceUpnl(q, market), q.unrealizedPnl, Funding(q, market), q.fundingAccrued,
             Mul(Notional(q, market), RateOf(market)), Mul(Notional(q, market), RateOf(market) / 2), 0)
    case Spot(q) => Totals(0, 0, 0, 0, 0, 0, PriceDrift(q, market))
  }

  function TotalsOf(positions: seq<Position>, markets: seq<Market>): Totals {
    if positions == [] then Totals(0, 0, 0, 0, 0, 0, 0)
    else
      var last := positions[|positions| - 1];
      TotalsOf(positions[..|positions| - 1], markets).Plus(Share(last, MarketOf(last, markets)))
  }

  function EnrichedPositions(positions: seq<Position>, markets: seq<Market>): seq<Position> {
    seq(|positions|, k requires 0 <= k < |positions| => EnrichedPosition(positions[k], MarketOf(positions[k], markets)))
  }

  function Settle(snap: Snapshot, positions: seq<Position>, t: Totals): Snapshot {
    var cash := snap.cash + t.fundingSnap - t.fundingLive;
    var equity := cash + t.priceUpnl;
    Snapshot(positions,
             snap.totalUnrealizedPnl + (t.priceUpnl - t.priceUpnlSnap) + t.dSpot,
             snap.totalRealizedPnl,
             equity,
             snap.accountValue + (equity - snap.perpsEquity) + t.dSpot,
             cash,
             if equity < t.mm then 0 else Max(0, equity - t.im))
  }

  function Enriched(snap: Snapshot, markets: seq<Market>): Snapshot {
    Settle(snap, EnrichedPositions(snap.positions, markets), TotalsOf(snap.positions, markets))
  }

  lemma NextPosition(positions: seq<Position>, markets: seq<Market>, i: nat)
    requires i < |positions|
    ensures var p := positions[i];
            && TotalsOf(positions[..i + 1], markets) == TotalsOf(positions[..i], markets).Plus(Share(p, MarketOf(p, markets)))
            && EnrichedPositions(positions[..i + 1], markets)
               == EnrichedPositions(positions[..i], markets) + [EnrichedPosition(p, MarketOf(p, markets))]
  {
    assert positions[..i + 1][..i] == positions[..i];
  }

  // The perp branch: the position at the live mark and funding, and its two margins.
  method RecomputePerp(p: PerpPosition, market: Option<Market>) returns (q: PerpPosition, initial: int, maintenance: int)
    ensures Perp(q) == EnrichedPosition(Perp(p), market)
    ensures Share(Perp(p), market)
         == Totals(q.unrealizedPnl, p.unrealizedPnl, q.fundingAccrued, p.fundingAccrued, initial, maintenance, 0)
  {
    var liveMark := if QuotesPerp(market) then market.value.markPrice.value else p.markPrice;
    var mark := if liveMark > 0 then liveMark else p.entryPrice;
    var upnl := MulFloor(mark - p.entryPrice, p.size);
    var sizeQuote := Mul(Abs(p.size), mark);
    var imr := RateOf(market);
    initial, maintenance := Mul(sizeQuote, imr), Mul(sizeQuote, imr / 2);
    var funding := p.fundingAccrued;
    if QuotesFunding(market) {
      funding := MulDivCeil(market.value.fundingIndex.value - p.entryFunding, p.size, market.value.fundingWindowUs * WAD);
    }
    q := p.(markPrice := mark, unrealizedPnl := upnl, notional := sizeQuote, fundingAccrued := funding);
  }

  // The spot branch: the position at the live mark, and how far its value has moved.
  method RecomputeSpot(p: SpotPosition, market: Option<Market>) returns (q: SpotPosition, drift: int)
    ensures Spot(q) == EnrichedPosition(Spot(p), market)
    ensures Share(Spot(p), market) == Totals(0, 0, 0, 0, 0, 0, drift)
  {
    var mark := SpotMark(p, market);
    drift := Mul(p.balance, mark) - Mul(p.balance, p.markPrice);
    q := p.(markPrice := mark, unrealizedPnl := p.unrealizedPnl + drift);
  }

  /** `enrichPositions`, with its seven running totals. */
  method EnrichPositions(snap: Snapshot, markets: seq<Market>) returns (r: Snapshot)
    ensures r == Enriched(snap, markets)
  {
    var priceUpnl, priceUpnlSnap, fundingLiveTotal, fundingSnapTotal, im, mm, dSpot := 0, 0, 0, 0, 0, 0, 0;
    var positions: seq<Position> := [];
    for i := 0 to |snap.positions|
      invariant positions == EnrichedPositions(snap.positions[..i], markets)
      invariant Totals(priceUpnl, priceUpnlSnap, fundingLiveTotal, fundingSnapTotal, im, mm, dSpot)
             == TotalsOf(snap.positions[..i], markets)
    {
      NextPosition(snap.positions, markets, i);
      var market := MarketOf(snap.positions[i], markets);
      match snap.positions[i]
      case Perp(p) =>
        var q, initial, maintenance := RecomputePerp(p, market);
        im := im + initial;
        mm := mm + maintenance;
        priceUpnl := priceUpnl + q.unrealizedPnl;
        priceUpnlSnap := priceUpnlSnap + p.unrealizedPnl;
        fundingLiveTotal := fundingLiveTotal + q.fundingAccrued;
        fundingSnapTotal := fundingSnapTotal + p.fundingAccrued;
        positions := positions + [Perp(q)];
      case Spot(p) =>
        var q, drift := RecomputeSpot(p, market);
        dSpot := dSpot + drift;
        positions := positions + [Spot(q)];
    }
    assert snap.positions[..|snap.positions|] == snap.positions;
    r := SettleAccount(snap, positions, priceUpnl, priceUpnlSnap, fundingLiveTotal, fundingSnapTotal, im, mm, dSpot);
  }

  // The account from the seven totals.
  method SettleAccount(snap: Snapshot, positions: seq<Position>, priceUpnl: int, priceUpnlSnap: int,
                       fundingLiveTotal: int, fundingSnapTotal: int, im: int, mm: int, dSpot: int) returns (r: Snapshot)
    ensures r == Settle(snap, positions,
                        Totals(priceUpnl, priceUpnlSnap, fundingLiveTotal, fundingSnapTotal, im, mm, dSpot))
  {
    var nativeCash := snap.cash + fundingSnapTotal;
    var cashWithFunding := nativeCash - fundingLiveTotal;
    var perpsEquity := cashWithFunding + priceUpnl;
    var withdrawableCash := if perpsEquity < mm then 0 else Max(0, perpsEquity - im);
    var dPriceUpnl := priceUpnl - priceUpnlSnap;
    r := Snapshot(positions, snap.totalUnrealizedPnl + dPriceUpnl + dSpot, snap.totalRealizedPnl, perpsEquity,
                  snap.accountValue + (perpsEquity - snap.perpsEquity) + dSpot, cashWithFunding, withdrawableCash);
  }

  // ----- path independence -----

  // An update through `first` cannot show through one with `second`: `second` quotes the
  // position, or `first` showed nothing but what was already there.
  predicate LeavesNoTrace(p: Position, first: Option<Market>, second: Option<Market>) {
    match p
    case Perp(q) =>
      && (QuotesPerp(second) || PerpMark(q, first) == PerpMark(q, None))
      && (QuotesFunding(second) || Funding(q, first) == q.fundingAccrued)
    case Spot(q) =>
      QuotesSpot(second) || SpotMark(q, first) == q.markPrice
  }

  predicate NoTraceInAny(positions: seq<Position>, first: seq<Market>, second: seq<Market>) {
    forall k :: 0 <= k < |positions| ==>
      LeavesNoTrace(positions[k], MarketOf(positions[k], first), MarketOf(positions[k], second))
  }

  // How the totals of an update directly on the snapshot, of a first update, and of a
  // second update after the first fit together.
  ghost predicate Telescopes(once: Totals, twice: Totals, direct: Totals) {
    && twice.priceUpnl == direct.priceUpnl && twice.priceUpnlSnap == once.priceUpnl
    && twice.fundingLive == direct.fundingLive && twice.fundingSnap == once.fundingLive
    && twice.im == direct.im && twice.mm == direct.mm && twice.dSpot == direct.dSpot - once.dSpot
    && direct.priceUpnlSnap == once.priceUpnlSnap && direct.fundingSnap == once.fundingSnap
  }

  lemma SecondUpdate(p: Position, first: Option<Market>, second: Option<Market>)
    requires LeavesNoTrace(p, first, second)
    ensures EnrichedPosition(EnrichedPosition(p, first), second) == EnrichedPosition(p, second)
    ensures Telescopes(Share(p, first), Share(EnrichedPosition(p, first), second), Share(p, second))
  {
  }

  lemma TraceShows(p: Position, first: Option<Market>, second: Option<Market>)
    requires EnrichedPosition(EnrichedPosition(p, first), second) == EnrichedPosition(p, second)
    ensures LeavesNoTrace(p, first, second)
  {
  }

  lemma EnrichmentKeepsMarket(p: Position, market: Option<Market>, markets: seq<Market>)
    ensures MarketOf(EnrichedPosition(p, market), markets) == MarketOf(p, markets)
  {
  }

  lemma {:induction false} SecondUpdateTotals(positions: seq<Position>, first: seq<Market>, second: seq<Market>)
    requires NoTraceInAny(positions, first, second)
    ensures Telescopes(TotalsOf(positions, first), TotalsOf(EnrichedPositions(positions, first), second),
                       TotalsOf(positions, second))
    decreases |positions|
  {
    if positions == [] {
    } else {
      var m := |positions| - 1;
      var last := positions[m];
      SecondUpdateTotals(positions[..m], first, second);
      SecondUpdate(last, MarketOf(last, first), MarketOf(last, second));
      EnrichmentKeepsMarket(last, MarketOf(last, first), second);
      assert EnrichedPositions(positions, first)[..m] == EnrichedPositions(positions[..m], first);
    }
  }

  lemma SecondUpdatePositions(positions: seq<Position>, first: seq<Market>, second: seq<Market>)
    ensures EnrichedPositions(EnrichedPositions(positions, first), second) == EnrichedPositions(positions, second)
       <==> NoTraceInAny(positions, first, second)
  {
    var twice, direct := EnrichedPositions(EnrichedPositions(positions, first), second), EnrichedPositions(positions, second);
    forall k | 0 <= k < |positions|
      ensures twice[k] == direct[k]
         <==> LeavesNoTrace(positions[k], MarketOf(positions[k], first), MarketOf(positions[k], second))
    {
      var p := positions[k];
      var f, s := MarketOf(p, first), MarketOf(p, second);
      EnrichmentKeepsMarket(p, f, second);
      assert twice[k] == EnrichedPosition(EnrichedPosition(p, f), s) && direct[k] == EnrichedPosition(p, s);
      if LeavesNoTrace(p, f, s) {
        SecondUpdate(p, f, s);
      }
      if twice[k] == direct[k] {
        TraceShows(p, f, s);
      }
    }
  }

  /** The exact condition for an earlier update to leave no trace in any field of a later
      one, for any account: position by position, the later update quotes it or the earlier
      one showed nothing new. */
  lemma {:induction false} EarlierUpdateLeavesNoTrace(snap: Snapshot, first: seq<Market>, second: seq<Market>)
    ensures Enriched(Enriched(snap, first), second) == Enriched(snap, second)
       <==> NoTraceInAny(snap.positions, first, second)
  {
    SecondUpdatePositions(snap.positions, first, second);
    if NoTraceInAny(snap.positions, first, second) {
      SecondUpdateTotals(snap.positions, first, second);
    }
  }

  // The markets quote every position: a price for all, and funding for the perps.
  predicate QuotesAll(positions: seq<Position>, markets: seq<Market>) {
    forall k :: 0 <= k < |positions| ==>
      var market := MarketOf(positions[k], markets);
      if positions[k].Perp? then QuotesPerp(market) && QuotesFunding(market) else QuotesSpot(market)
  }

  /** Repeating an update changes nothing, quoted or not. */
  lemma Idempotent(snap: Snapshot, markets: seq<Market>)
    ensures Enriched(Enriched(snap, markets), markets) == Enriched(snap, markets)
  {
    EarlierUpdateLeavesNoTrace(snap, markets, markets);
  }

  // A run of updates, one after the other.
  function EnrichedBy(snap: Snapshot, updates: seq<seq<Market>>): Snapshot {
    if updates == [] then snap
    else Enriched(EnrichedBy(snap, updates[..|updates| - 1]), updates[|updates| - 1])
  }

  lemma {:induction false} UpdatesKeepQuotes(snap: Snapshot, updates: seq<seq<Market>>, markets: seq<Market>)
    requires QuotesAll(snap.positions, markets)
    ensures QuotesAll(EnrichedBy(snap, updates).positions, markets)
    decreases |updates|
  {
    if updates == [] {
    } else {
      UpdatesKeepQuotes(snap, updates[..|updates| - 1], markets);
    }
  }

  /** Path independence over whole runs: after any updates at all, one that quotes every
      position gives what it would have given on the snapshot itself, in every field. */
  lemma {:induction false} PathIndependence(snap: Snapshot, updates: seq<seq<Market>>, markets: seq<Market>)
    requires QuotesAll(snap.positions, markets)
    ensures Enriched(EnrichedBy(snap, updates), markets) == Enriched(snap, markets)
    decreases |updates|
  {
    if updates == [] {
    } else {
      var init, last := updates[..|updates| - 1], updates[|updates| - 1];
      PathIndependence(snap, init, markets);
      UpdatesKeepQuotes(snap, init, markets);
      EarlierUpdateLeavesNoTrace(EnrichedBy(snap, init), last, markets);
    }
  }

  // ----- margin -----

  lemma HalfRateCostsLess(notional: int, rate: nat)
    requires notional >= 0
    ensures Mul(notional, rate / 2) <= Mul(notional, rate)
  {
    assert notional * (rate / 2) <= notional * rate;
  }

  predicate EntriesNonNegative(positions: seq<Position>) {
    forall k :: 0 <= k < |positions| && positions[k].Perp? ==> positions[k].perp.entryPrice >= 0
  }

  lemma {:induction false} MaintenanceWithinInitial(positions: seq<Position>, markets: seq<Market>)
    requires EntriesNonNegative(positions)
    ensures TotalsOf(positions, markets).mm <= TotalsOf(positions, markets).im
    decreases |positions|
  {
    if positions == [] {
    } else {
      var last := positions[|positions| - 1];
      MaintenanceWithinInitial(positions[..|positions| - 1], markets);
      OneMaintenance(last, MarketOf(last, markets));
    }
  }

  lemma OneMaintenance(p: Position, market: Option<Market>)
    requires p.Perp? ==> p.perp.entryPrice >= 0
    ensures Share(p, market).mm <= Share(p, market).im
  {
    if p.Perp? {
      NotionalIsNonNegative(Abs(p.perp.size), PerpMark(p.perp, market));
      HalfRateCostsLess(Notional(p.perp, market), RateOf(market));
    }
  }

  lemma NotionalIsNonNegative(size: int, mark: int)
    requires size >= 0 && mark >= 0
    ensures Mul(size, mark) >= 0
  {
    assert size * mark >= 0;
  }

  lemma WithdrawableFromTotals(snap: Snapshot, markets: seq<Market>)
    ensures var r, t := Enriched(snap, markets), TotalsOf(snap.positions, markets);
            t.mm <= t.im ==> r.withdrawableCash == Max(0, r.perpsEquity - t.im)
  {
  }

  /** The maintenance-margin guard never changes the result: withdrawable cash is what equity
      leaves above the initial margin, and never negative. */
  lemma WithdrawableIsFreeMargin(snap: Snapshot, markets: seq<Market>)
    requires EntriesNonNegative(snap.positions)
    ensures var r := Enriched(snap, markets);
            r.withdrawableCash == Max(0, r.perpsEquity - TotalsOf(snap.positions, markets).im)
  {
    MaintenanceWithinInitial(snap.positions, markets);
    WithdrawableFromTotals(snap, markets);
  }

  // ----- one position at the market -----

  // The market found for an id is the last one listed with it.
  lemma {:induction false} FindIsLast(markets: seq<Market>, id: MarketId)
    ensures match Find(markets, id)
            case None => forall i :: 0 <= i < |markets| ==> markets[i].id != id
            case Some(m) => exists i :: 0 <= i < |markets| && markets[i] == m && m.id == id
                              && forall j :: i < j < |markets| ==> markets[j].id != id
    decreases |markets|
  {
    if markets == [] {
    } else {
      var n := |markets| - 1;
      FindIsLast(markets[..n], id);
      if markets[n].id == id {
        assert markets[n] == Find(markets, id).value;
      }
    }
  }

  // What an update may not touch.
  predicate SamePerp(p: PerpPosition, q: PerpPosition) {
    && q.orderbookId == p.orderbookId && q.size == p.size && q.entryPrice == p.entryPrice && q.margin == p.margin
    && q.entryFunding == p.entryFunding && q.liquidationPrice == p.liquidationPrice && q.realizedPnl == p.realizedPnl
  }

  predicate SameSpot(p: SpotPosition, q: SpotPosition) {
    && q.orderbookId == p.orderbookId && q.balance == p.balance && q.freeBalance == p.freeBalance
    && q.lockedBalance == p.lockedBalance && q.costBasis == p.costBasis && q.realizedPnl == p.realizedPnl
  }

  /** A perp after an update: marked at the market's positive mark, or at its own, or at its entry
      price without any gain; its gain rounded down, its notional toward zero, its funding up. */
  lemma PerpAtMarket(p: PerpPosition, market: Option<Market>)
    ensures EnrichedPosition(Perp(p), market).Perp?
    ensures var q := EnrichedPosition(Perp(p), market).perp;
            && SamePerp(p, q)
            && (market.Some? && market.value.markPrice.Some? && market.value.markPrice.value > 0 ==>
                  q.markPrice == market.value.markPrice.value)
            && (market.None? || market.value.markPrice.None? || market.value.markPrice.value <= 0 ==>
                  if p.markPrice > 0 then q.markPrice == p.markPrice
                  else q.markPrice == p.entryPrice && q.unrealizedPnl == 0)
            && IsFloor((q.markPrice - p.entryPrice) * p.size, WAD, q.unrealizedPnl)
            && IsTruncated(Abs(p.size) * q.markPrice, WAD, q.notional)
            && (market.Some? && market.value.fundingIndex.Some? && market.value.fundingWindowUs > 0 ==>
                  IsCeiling((market.value.fundingIndex.value - p.entryFunding) * p.size,
                            market.value.fundingWindowUs * WAD, q.fundingAccrued))
            && (market.Some? && market.value.fundingIndex.Some? && market.value.fundingWindowUs < 0 ==>
                  q.fundingAccrued == 0)
            && (market.None? || market.value.fundingIndex.None? || market.value.fundingWindowUs == 0 ==>
                  q.fundingAccrued == p.fundingAccrued)
  {
  }

  /** A spot after an update: marked at the last clearing price, or the mark, or its own; its gain
      moves with the value of the balance. */
  lemma SpotAtMarket(p: SpotPosition, market: Option<Market>)
    ensures EnrichedPosition(Spot(p), market).Spot?
    ensures var q := EnrichedPosition(Spot(p), market).spot;
            && SameSpot(p, q)
            && (market.Some? && market.value.lastClearingPrice.Some? ==>
                  q.markPrice == market.value.lastClearingPrice.value)
            && (market.Some? && market.value.lastClearingPrice.None? && market.value.markPrice.Some? ==>
                  q.markPrice == market.value.markPrice.value)
            && (market.None? || (market.value.lastClearingPrice.None? && market.value.markPrice.None?) ==>
                  q.markPrice == p.markPrice)
            && q.unrealizedPnl - Mul(p.balance, q.markPrice) == p.unrealizedPnl - Mul(p.balance, p.markPrice)
  {
  }

  // Each position of the account is updated by its own market, in its own place.
  lemma PositionAtMarket(snap: Snapshot, markets: seq<Market>, k: nat)
    requires k < |snap.positions|
    ensures var r, p := Enriched(snap, markets), snap.positions[k];
            && |r.positions| == |snap.positions|
            && (p.Perp? ==> r.positions[k] == EnrichedPosition(p, Find(markets, p.perp.orderbookId)))
            && (p.Spot? && p.spot.orderbookId.Some? ==>
                  r.positions[k] == EnrichedPosition(p, Find(markets, p.spot.orderbookId.value)))
            && (p.Spot? && p.spot.orderbookId.None? ==> r.positions[k] == EnrichedPosition(p, None))
  {
  }

  // ----- conservation -----

  // Sums over the positions as they are shown.
  function SpotValue(positions: seq<Position>): int {
    if positions == [] then 0
    else
      var last := positions[|positions| - 1];
      SpotValue(positions[..|positions| - 1]) + if last.Spot? then Mul(last.spot.balance, last.spot.markPrice) else 0
  }

  function PerpPnl(positions: seq<Position>): int {
    if positions == [] then 0
    else
      var last := positions[|positions| - 1];
      PerpPnl(positions[..|positions| - 1]) + if last.Perp? then last.perp.unrealizedPnl else 0
  }

  function SpotPnl(positions: seq<Position>): int {
    if positions == [] then 0
    else
      var last := positions[|positions| - 1];
      SpotPnl(positions[..|positions| - 1]) + if last.Spot? then last.spot.unrealizedPnl else 0
  }

  function FundingShown(positions: seq<Position>): int {
    if positions == [] then 0
    else
      var last := positions[|positions| - 1];
      FundingShown(positions[..|positions| - 1]) + if last.Perp? then last.perp.fundingAccrued else 0
  }

  // What the account's perps lock up at the leverage of their markets.
  function InitialMargins(positions: seq<Position>, markets: seq<Market>): int {
    if positions == [] then 0
    else
      var last := positions[|positions| - 1];
      InitialMargins(positions[..|positions| - 1], markets)
        + if last.Perp? then MarginFor(last.perp.notional, Find(markets, last.perp.orderbookId)) else 0
  }

  // Margin at a market's leverage; none where it is unknown.
  function MarginFor(notional: int, market: Option<Market>): int {
    if market.Some? && market.value.maxLeverage > 0 then Mul(notional, ImRate(market.value.maxLeverage)) else 0
  }

  lemma {:induction false} TotalsAreShown(positions: seq<Position>, markets: seq<Market>)
    ensures var t, shown := TotalsOf(positions, markets), EnrichedPositions(positions, markets);
            && t.priceUpnl == PerpPnl(shown) && t.priceUpnlSnap == PerpPnl(positions)
            && t.fundingLive == FundingShown(shown) && t.fundingSnap == FundingShown(positions)
            && t.im == InitialMargins(shown, markets)
            && t.dSpot == SpotValue(shown) - SpotValue(positions) == SpotPnl(shown) - SpotPnl(positions)
    decreases |positions|
  {
    if positions == [] {
    } else {
      var m := |positions| - 1;
      TotalsAreShown(positions[..m], markets);
      assert EnrichedPositions(positions, markets)[..m] == EnrichedPositions(positions[..m], markets);
    }
  }

  /** Conservation: an update moves cash by what it changes in funding, equity is cash plus the
      gain shown on the perps, account value moves with equity and the value of the spots, the
      total gain with the gains shown, and realized gain not at all. */
  lemma UpdateConserves(snap: Snapshot, markets: seq<Market>)
    ensures var r := Enriched(snap, markets);
            && r.cash + FundingShown(r.positions) == snap.cash + FundingShown(snap.positions)
            && r.perpsEquity == r.cash + PerpPnl(r.positions)
            && r.accountValue - r.perpsEquity - SpotValue(r.positions)
               == snap.accountValue - snap.perpsEquity - SpotValue(snap.positions)
            && r.totalUnrealizedPnl - PerpPnl(r.positions) - SpotPnl(r.positions)
               == snap.totalUnrealizedPnl - PerpPnl(snap.positions) - SpotPnl(snap.positions)
            && r.totalRealizedPnl == snap.totalRealizedPnl
  {
    TotalsAreShown(snap.positions, markets);
  }

  /** Margin is notional over leverage, rounded down twice: never more, and less by under one unit
      and one part in 10^18 of the leverage. */
  lemma MarginBounds(notional: nat, leverage: nat)
    requires leverage > 0
    ensures var m := Mul(notional, ImRate(leverage));
            m >= 0 && m * leverage <= notional && notional * (WAD - leverage + 1) <= (m + 1) * leverage * WAD
  {
    var rate: int := ImRate(leverage);
    var m := Mul(notional, rate);
    ProductIsNonNegative(notional, rate);
    assert (rate + 1) * leverage == rate * leverage + leverage;
    RateTimesLeverage(notional, rate, leverage, m, WAD);
  }

  lemma ProductIsNonNegative(a: int, b: int)
    requires a >= 0 && b >= 0
    ensures a * b >= 0
  {
  }

  lemma Widened(a: int, b: int, c: int)
    requires a <= b && c >= 0
    ensures a * c <= b * c && c * a <= c * b
  {
  }

  lemma SameProduct(a: int, b: int, c: int)
    ensures (a * b) * c == a * (b * c) == (a * c) * b
  {
  }

  lemma RateTimesLeverage(n: int, rate: int, l: int, m: int, unit: int)
    requires n >= 0 && l > 0 && unit > 0 && rate * l <= unit && unit - l + 1 <= rate * l
    requires m * unit <= n * rate <= (m + 1) * unit
    ensures m * l <= n && n * (unit - l + 1) <= (m + 1) * l * unit
  {
    SameProduct(n, rate, l);
    SameProduct(m, unit, l);
    SameProduct(m + 1, unit, l);
    Widened(m * unit, n * rate, l);
    Widened(n * rate, (m + 1) * unit, l);
    Widened(rate * l, unit, n);
    Widened(unit - l + 1, rate * l, n);
    ReflectsOrder(m * l, n, unit);
  }

  lemma ReflectsOrder(x: int, y: int, unit: int)
    requires unit > 0 && x * unit <= y * unit
    ensures x <= y
  {
  }

  /** Withdrawable cash in terms of what is shown: equity above the margins of the perps, at the
      notional shown and the leverage of their markets. */
  lemma WithdrawableAboveMargins(snap: Snapshot, markets: seq<Market>)
    requires EntriesNonNegative(snap.positions)
    ensures var r := Enriched(snap, markets);
            r.withdrawableCash == Max(0, r.perpsEquity - InitialMargins(r.positions, markets))
  {
    WithdrawableIsFreeMargin(snap, markets);
    TotalsAreShown(snap.positions, markets);
  }
}
