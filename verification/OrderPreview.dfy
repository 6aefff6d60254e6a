/**
 The pre-trade preview (ts-sdk/src/sync/order-preview.ts): how the largest notional it shows
 relates to the margin check it makes.
 */
module OrderPreviews {
  import opened FixedPoint
  import opened LivePositions

  datatype OrderInput = OrderInput(short: bool, price: int, notional: int, limit: bool)

  // `impliedLeverage`, a display float, is not part of this model.
  datatype OrderPreview = OrderPreview(
    size: int,
    availableMargin: int,
    marginRequired: int,
    maxNotional: int,
    sufficientMargin: bool,
    estimatedFee: int)

  function InitialMargin(market: Market): nat {
    if market.isSpot then WAD else ImRate(market.maxLeverage)
  }

  function PreviewOrder(snap: Snapshot, market: Market, input: OrderInput): OrderPreview {
    var im := InitialMargin(market);
    var marginRequired := Mul(input.notional, im);
    var magnitude := if input.price > 0 then Div(input.notional, input.price) else 0;
    OrderPreview(
      if input.short then -magnitude else magnitude,
      snap.withdrawableCash,
      marginRequired,
      if im > 0 then Div(snap.withdrawableCash, im) else 0,
      marginRequired <= snap.withdrawableCash,
      Mul(input.notional, if input.limit then market.makerFee else market.takerFee))
  }

  // `n / d` rounded up.
  function CeilDiv(n: nat, d: int): (r: nat)
    requires d > 0
    ensures IsCeiling(n, d, r)
  {
    DivisionBounds(n, d);
    QuotientIsFloor(n, d);
    if n % d == 0 then n / d else n / d + 1
  }

  lemma Ordered(x: int, y: int, d: int)
    requires d > 0
    ensures x < y <==> x * d < y * d
  {
  }

  // The largest notional whose margin, rounded down, the account can cover.
  function TrueMaxNotional(available: nat, im: int): int
    requires im > 0
  {
    CeilDiv((available + 1) * WAD, im) - 1
  }

  /** The margin check passes exactly up to `TrueMaxNotional`; the shown `maxNotional` is never
      above that, and below it by at most one over the margin rate, rounded up. */
  lemma SufficientMarginExact(snap: Snapshot, market: Market, input: OrderInput)
    requires snap.withdrawableCash >= 0 && input.notional >= 0 && InitialMargin(market) > 0
    ensures var p, limit := PreviewOrder(snap, market, input),
                            TrueMaxNotional(snap.withdrawableCash, InitialMargin(market));
            && (p.sufficientMargin <==> input.notional <= limit)
            && p.maxNotional <= limit <= p.maxNotional + CeilDiv(WAD, InitialMargin(market))
  {
    var im, available := InitialMargin(market), snap.withdrawableCash;
    var p, limit := PreviewOrder(snap, market, input), TrueMaxNotional(available, im);
    var over := CeilDiv(WAD, im);
    assert input.notional * im >= 0;
    CeilingSplits((available + 1) * WAD, im, limit);
    Ordered(input.notional, limit + 1, im);
    assert p.sufficientMargin <==> input.notional * im < (available + 1) * WAD;
    CeilingCovers((available + 1) * WAD, im, limit + 1, input.notional);
    CeilingCovers((available + 1) * WAD, im, limit + 1, p.maxNotional);
    MaxNotionalGap(available, im, p.maxNotional, limit, over);
  }

  lemma CeilingSplits(n: nat, im: int, limit: int)
    requires im > 0 && IsCeiling(n, im, limit + 1)
    ensures limit * im < n <= (limit + 1) * im
  {
  }

  // Strictly below `n / d` means strictly below its ceiling.
  lemma CeilingCovers(n: nat, d: int, ceiling: int, x: int)
    requires d > 0 && IsCeiling(n, d, ceiling)
    ensures x * d < n <==> x < ceiling
  {
    if x < ceiling {
      assert x * d <= (ceiling - 1) * d;
    } else {
      assert x * d >= ceiling * d;
    }
  }

  lemma MaxNotionalGap(available: nat, im: int, maxNotional: int, limit: int, over: nat)
    requires im > 0 && maxNotional * im <= available * WAD < (maxNotional + 1) * im
    requires limit * im < (available + 1) * WAD && WAD <= over * im
    ensures limit <= maxNotional + over
  {
    assert (available + 1) * WAD == available * WAD + WAD;
    assert (maxNotional + 1) * im + over * im == (maxNotional + 1 + over) * im;
    Ordered(limit, maxNotional + 1 + over, im);
  }

  /** On the snapshot the SDK shows, recomputed from live markets, the bounds hold for every
      order: its withdrawable cash is never negative. */
  lemma LivePreviewBounds(snap: Snapshot, markets: seq<Market>, market: Market, input: OrderInput)
    requires input.notional >= 0 && InitialMargin(market) > 0
    ensures var p := PreviewOrder(Enriched(snap, markets), market, input);
            && p.availableMargin >= 0
            && (input.notional <= p.maxNotional ==> p.sufficientMargin)
            && (p.sufficientMargin ==> input.notional <= p.maxNotional + CeilDiv(WAD, InitialMargin(market)))
  {
    SufficientMarginExact(Enriched(snap, markets), market, input);
  }

  /** What the preview shows: the order's size with the sign of its side, the margin at the market's
      leverage (all of it for a spot), and the fee at the rate of its kind, each rounded toward
      zero. */
  lemma PreviewShows(snap: Snapshot, market: Market, input: OrderInput)
    ensures var p := PreviewOrder(snap, market, input);
            && p.availableMargin == snap.withdrawableCash
            && (p.sufficientMargin <==> p.marginRequired <= snap.withdrawableCash)
            && (input.price > 0 ==> IsTruncated(input.notional * WAD, input.price, if input.short then -p.size else p.size))
            && (input.price <= 0 ==> p.size == 0)
            && IsTruncated(input.notional * (if input.limit then market.makerFee else market.takerFee), WAD, p.estimatedFee)
            && (market.isSpot ==> p.marginRequired == input.notional && p.maxNotional == snap.withdrawableCash)
            && (!market.isSpot && market.maxLeverage <= 0 ==> p.marginRequired == 0 && p.maxNotional == 0)
  {
    WholeUnits(input.notional);
    WholeUnits(snap.withdrawableCash);
    assert input.notional * 0 == 0;
  }

  // Scaling up and down again, at the rate of one.
  lemma WholeUnits(x: int)
    ensures Mul(x, WAD) == x && Div(x, WAD) == x
  {
    OneTruncation(x, Mul(x, WAD));
    OneTruncation(x, Div(x, WAD));
  }

  lemma OneTruncation(x: int, q: int)
    requires IsTruncated(x * WAD, WAD, q)
    ensures q == x
  {
  }

  /** For a perp at leverage L, the margin shown is notional over L, up to the two roundings. */
  lemma PreviewMargin(snap: Snapshot, market: Market, input: OrderInput)
    requires !market.isSpot && market.maxLeverage > 0 && input.notional >= 0
    ensures var p, l := PreviewOrder(snap, market, input), market.maxLeverage;
            && p.marginRequired >= 0 && p.marginRequired * l <= input.notional
            && input.notional * (WAD - l + 1) <= (p.marginRequired + 1) * l * WAD
  {
    MarginBounds(input.notional, market.maxLeverage);
  }
}
