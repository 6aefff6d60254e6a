/**
 One session of a candle series over a connection that may drop at any moment: every logged
 tick is folded exactly once, whatever is lost on the way.

 The server keeps a log of ticks; a subscription replays it strictly after the `since` of
 the request and goes on live. The client folds what arrives, stores the time of the newest
 tick as the next `since`, and asks again when the connection comes back
 (ts-sdk/src/sync/candles.ts, ts-sdk/src/transport/ws.ts).
 */
module CandleSession {
  import opened Wrappers
  import opened Candles

  // `Streaming`: the server has dealt with `cursor` entries of the log, sending those after
  // `since`; `known` says the client has the reply.
  //
  // What the server sends on a connection, in order. Ticks that arrive before the reply to
  // the request carry a subscription id the client does not know, and are dropped.
  datatype Message = Reply | Batch(ticks: seq<Tick>)

  datatype Connection =
    | Closed
    | Requested(since: int)                                          // eth_subscribe on its way
    | Streaming(since: int, cursor: nat, known: bool, inFlight: seq<Message>)

  // `since` is the stored subscription parameter, `lastTickUs` the series' own watermark.
  datatype State = State(log: seq<Tick>, live: Live, lastTickUs: int, since: int, connection: Connection)

  datatype Step =
    | Produce(tick: Tick)    // the market clears
    | Connect                // the socket opens; the stored subscription is sent again
    | Accept                 // the server takes the request
    | Send(count: nat)       // the server sends the next ticks as one batch
    | Receive                // the client takes the first message in flight
    | Disconnect             // everything in flight is lost

  // How many entries of the log are not after `us`.
  function UpTo(log: seq<Tick>, us: int): (n: nat)
    ensures n <= |log|
  {
    if log == [] then 0
    else if log[|log| - 1].us <= us then |log|
    else UpTo(log[..|log| - 1], us)
  }

  predicate StrictlyOrdered(log: seq<Tick>) {
    forall i, j :: 0 <= i < j < |log| ==> log[i].us < log[j].us
  }

  function TakeBatch(s: State, ticks: seq<Tick>, rest: seq<Message>, bucketMs: Width): State
    requires s.connection.Streaming?
  {
    if !s.connection.known then s.(connection := s.connection.(inFlight := rest))
    else
      var last := Watermark(s.lastTickUs, ticks);
      s.(live := AfterBatch(s.live, ticks, bucketMs),
         lastTickUs := last,
         since := if last > s.lastTickUs then last else s.since,
         connection := s.connection.(inFlight := rest))
  }

  predicate Enabled(s: State, step: Step) {
    match step
    case Produce(tick) => s.log == [] || s.log[|s.log| - 1].us < tick.us
    case Connect => s.connection.Closed?
    case Accept => s.connection.Requested?
    case Send(count) => s.connection.Streaming? && s.connection.cursor + count <= |s.log|
    case Receive => s.connection.Streaming? && s.connection.inFlight != []
    case Disconnect => !s.connection.Closed?
  }

  function Later(a: nat, b: nat): nat { if a < b then b else a }

  function AfterSend(s: State, count: nat): Connection
    requires s.connection.Streaming? && s.connection.cursor + count <= |s.log|
  {
    var c := s.connection;
    c.(cursor := c.cursor + count, inFlight := c.inFlight + [Batch(s.log[c.cursor..c.cursor + count])])
  }

  function Next(s: State, step: Step, bucketMs: Width): State
    requires Enabled(s, step)
  {
    match step
    case Produce(tick) =>
      var log := s.log + [tick];
      if s.connection.Streaming? then
        // A tick that is not after `since` is not for this subscription.
        s.(log := log, connection := s.connection.(cursor := Later(s.connection.cursor, UpTo(log, s.connection.since))))
      else s.(log := log)
    case Connect => s.(connection := Requested(s.since))
    case Accept => s.(connection := Streaming(s.connection.since, UpTo(s.log, s.connection.since), false, [Reply]))
    case Send(count) => s.(connection := AfterSend(s, count))
    case Receive =>
      var c := s.connection;
      if c.inFlight[0].Reply? then s.(connection := c.(known := true, inFlight := c.inFlight[1..]))
      else TakeBatch(s, c.inFlight[0].ticks, c.inFlight[1..], bucketMs)
    case Disconnect => s.(connection := Closed)
  }

  // The session starts with the subscription sent from the anchor, on whatever was seeded.
  predicate Initial(s: State, seed: Live, anchor: int) {
    && StrictlyOrdered(s.log) && s.live == seed && s.lastTickUs == anchor && s.since == anchor
    && s.connection == Requested(anchor)
  }

  // `states` is a run of the session: each state is one enabled step after the one before.
  ghost predicate Run(states: seq<State>, steps: seq<Step>, bucketMs: Width)
  {
    && |states| == |steps| + 1
    && forall k :: 0 <= k < |steps| ==> Enabled(states[k], steps[k]) && states[k + 1] == Next(states[k], steps[k], bucketMs)
  }

  // ----- positions in the log -----

  lemma {:induction false} UpToSplits(log: seq<Tick>, us: int)
    requires StrictlyOrdered(log)
    ensures forall k :: 0 <= k < |log| ==> (log[k].us <= us <==> k < UpTo(log, us))
    decreases |log|
  {
    if log != [] && log[|log| - 1].us > us {
      UpToSplits(log[..|log| - 1], us);
    }
  }

  lemma {:induction false} UpToIs(log: seq<Tick>, us: int, n: nat)
    requires StrictlyOrdered(log) && n <= |log|
    requires forall k :: 0 <= k < |log| ==> (log[k].us <= us <==> k < n)
    ensures UpTo(log, us) == n
  {
    UpToSplits(log, us);
    var m := UpTo(log, us);
    assert m < |log| ==> (log[m].us <= us <==> m < n);
    assert n < |log| ==> (log[n].us <= us <==> n < m);
  }

  // Producing a later tick moves no position.
  lemma UpToGrownLog(log: seq<Tick>, tick: Tick, us: int)
    requires StrictlyOrdered(log + [tick]) && us < tick.us
    ensures UpTo(log + [tick], us) == UpTo(log, us)
  {
    assert (log + [tick])[..|log|] == log;
  }

  // After a stretch of the log the watermark is the time of its last tick.
  lemma {:induction false} WatermarkOfStretch(log: seq<Tick>, last: int, lo: nat, hi: nat)
    requires StrictlyOrdered(log) && lo <= hi <= |log|
    requires lo == UpTo(log, last)
    ensures Watermark(last, log[lo..hi]) == if lo == hi then last else log[hi - 1].us
    ensures UpTo(log, Watermark(last, log[lo..hi])) == hi
    ensures lo < hi ==> Watermark(last, log[lo..hi]) > last
    decreases hi
  {
    UpToSplits(log, last);
    if lo == hi {
    } else {
      WatermarkOfStretch(log, last, lo, hi - 1);
      assert log[lo..hi][..hi - lo - 1] == log[lo..hi - 1];
      UpToIs(log, log[hi - 1].us, hi);
    }
  }

  // ----- the invariant -----

  // The ticks after the anchor that the client has taken.
  function Taken(s: State, anchor: int): seq<Tick>
    requires UpTo(s.log, anchor) <= UpTo(s.log, s.lastTickUs)
  {
    s.log[UpTo(s.log, anchor)..UpTo(s.log, s.lastTickUs)]
  }

  function InFlightTicks(messages: seq<Message>): seq<Tick> {
    if messages == [] then []
    else (if messages[0].Batch? then messages[0].ticks else []) + InFlightTicks(messages[1..])
  }

  lemma {:induction false} InFlightSnoc(messages: seq<Message>, m: Message)
    ensures InFlightTicks(messages + [m]) == InFlightTicks(messages) + if m.Batch? then m.ticks else []
    decreases |messages|
  {
    var more, tail := messages + [m], if m.Batch? then m.ticks else [];
    if messages == [] {
      assert more == [m] && InFlightTicks(more[1..]) == [];
      assert InFlightTicks(more) == tail + [];
    } else {
      var head := if messages[0].Batch? then messages[0].ticks else [];
      assert more[1..] == messages[1..] + [m];
      InFlightSnoc(messages[1..], m);
      assert InFlightTicks(more) == head + (InFlightTicks(messages[1..]) + tail);
    }
  }

  // The reply travels first and alone; until it is known nothing but it can be received.
  predicate ReplyFirst(known: bool, messages: seq<Message>) {
    if known then forall k :: 0 <= k < |messages| ==> messages[k].Batch?
    else messages != [] && messages[0] == Reply && forall k :: 0 < k < |messages| ==> messages[k].Batch?
  }

  // What is in flight is exactly the stretch of the log between the client and the server.
  ghost predicate ConnectionInv(s: State, anchor: int) {
    match s.connection
    case Closed => true
    case Requested(since) => since == s.lastTickUs
    case Streaming(since, cursor, known, inFlight) =>
      && anchor <= since <= s.lastTickUs
      && UpTo(s.log, s.lastTickUs) <= cursor <= |s.log|
      && ReplyFirst(known, inFlight)
      && InFlightTicks(inFlight) == s.log[UpTo(s.log, s.lastTickUs)..cursor]
  }

  // The watermark never runs ahead of the log, unless nothing has been taken yet.
  ghost predicate WatermarkInv(s: State, anchor: int) {
    && anchor <= s.lastTickUs && s.since == s.lastTickUs
    && (s.lastTickUs == anchor || (s.log != [] && s.lastTickUs <= s.log[|s.log| - 1].us))
  }

  ghost predicate Inv(s: State, seed: Live, anchor: int, bucketMs: Width)
  {
    && StrictlyOrdered(s.log) && WatermarkInv(s, anchor) && ConnectionInv(s, anchor)
    && UpTo(s.log, anchor) <= UpTo(s.log, s.lastTickUs)
    && s.live == Newest(FoldTicks(seed, Taken(s, anchor), bucketMs))
  }

  // Ticks after the anchor open no bucket older than the seeded one.
  ghost predicate SafeAnchor(seed: Live, anchor: int, bucketMs: Width)
  {
    |seed| <= KEPT && forall us: nat :: us > anchor ==> NoneAfter(seed, BucketOf(us, bucketMs))
  }

  // ----- every step keeps it -----

  lemma {:induction false} UpToMonotone(log: seq<Tick>, a: int, b: int)
    requires StrictlyOrdered(log) && a <= b
    ensures UpTo(log, a) <= UpTo(log, b)
  {
    UpToSplits(log, a);
    UpToSplits(log, b);
    assert UpTo(log, b) < |log| ==> log[UpTo(log, b)].us > b;
  }

  // Only the connection changes, and it stays in step with the rest.
  lemma ConnectionChangeKeeps(s: State, c: Connection, seed: Live, anchor: int, bucketMs: Width)
    requires Inv(s, seed, anchor, bucketMs) && ConnectionInv(s.(connection := c), anchor)
    ensures Inv(s.(connection := c), seed, anchor, bucketMs)
  {
    assert Taken(s.(connection := c), anchor) == Taken(s, anchor);
  }

  lemma GrownLogIsOrdered(log: seq<Tick>, tick: Tick)
    requires StrictlyOrdered(log) && (log == [] || log[|log| - 1].us < tick.us)
    ensures StrictlyOrdered(log + [tick])
  {
  }

  lemma SameStretch(log: seq<Tick>, tick: Tick, lo: nat, hi: nat)
    requires lo <= hi <= |log|
    ensures (log + [tick])[lo..hi] == log[lo..hi]
  {
  }

  lemma GrownStretch(log: seq<Tick>, tick: Tick, lo: nat)
    requires lo <= |log|
    ensures (log + [tick])[lo..|log| + 1] == log[lo..|log|] + [tick]
  {
  }

  // A tick after the watermark moves no position.
  lemma ProduceNewKeepsConnection(s: State, tick: Tick, anchor: int, bucketMs: Width)
    requires StrictlyOrdered(s.log + [tick]) && ConnectionInv(s, anchor) && Enabled(s, Produce(tick))
    requires s.lastTickUs < tick.us
    ensures ConnectionInv(Next(s, Produce(tick), bucketMs), anchor)
  {
    UpToGrownLog(s.log, tick, s.lastTickUs);
    if s.connection.Streaming? {
      UpToMonotone(s.log + [tick], s.connection.since, s.lastTickUs);
      SameStretch(s.log, tick, UpTo(s.log, s.lastTickUs), s.connection.cursor);
    }
  }

  lemma ProduceNewKeeps(s: State, tick: Tick, seed: Live, anchor: int, bucketMs: Width)
    requires Inv(s, seed, anchor, bucketMs) && Enabled(s, Produce(tick))
    requires s.lastTickUs < tick.us
    ensures Inv(Next(s, Produce(tick), bucketMs), seed, anchor, bucketMs)
  {
    GrownLogIsOrdered(s.log, tick);
    ProduceNewKeepsConnection(s, tick, anchor, bucketMs);
    UpToGrownLog(s.log, tick, s.lastTickUs);
    UpToGrownLog(s.log, tick, anchor);
    SameStretch(s.log, tick, UpTo(s.log, anchor), UpTo(s.log, s.lastTickUs));
  }

  // The anchor lies ahead of the log: nothing has been taken and this tick is not due.
  lemma ProduceOldKeeps(s: State, tick: Tick, seed: Live, anchor: int, bucketMs: Width)
    requires Inv(s, seed, anchor, bucketMs) && Enabled(s, Produce(tick))
    requires tick.us <= s.lastTickUs
    ensures Inv(Next(s, Produce(tick), bucketMs), seed, anchor, bucketMs)
  {
    var n := Next(s, Produce(tick), bucketMs);
    GrownLogIsOrdered(s.log, tick);
    assert s.lastTickUs == anchor;
    AllUpTo(s.log, anchor);
    AllUpTo(n.log, anchor);
    assert Taken(n, anchor) == [] == Taken(s, anchor);
    assert ConnectionInv(n, anchor) by {
      if s.connection.Streaming? {
        assert InFlightTicks(s.connection.inFlight) == [];
        assert n.log[|n.log|..|n.log|] == [];
      }
    }
  }

  lemma AllUpTo(log: seq<Tick>, us: int)
    requires log == [] || log[|log| - 1].us <= us
    ensures UpTo(log, us) == |log|
  {
  }

  lemma AcceptKeeps(s: State, anchor: int)
    requires StrictlyOrdered(s.log) && WatermarkInv(s, anchor) && ConnectionInv(s, anchor) && s.connection.Requested?
    ensures ConnectionInv(s.(connection := Streaming(s.connection.since, UpTo(s.log, s.connection.since), false, [Reply])), anchor)
  {
    var n := UpTo(s.log, s.lastTickUs);
    assert InFlightTicks([Reply]) == [] + InFlightTicks([]) == [];
    assert s.log[n..n] == [];
  }

  lemma SendKeeps(s: State, count: nat, anchor: int)
    requires ConnectionInv(s, anchor) && Enabled(s, Send(count))
    ensures ConnectionInv(s.(connection := AfterSend(s, count)), anchor)
  {
    var c := s.connection;
    var batch := Batch(s.log[c.cursor..c.cursor + count]);
    var lo := UpTo(s.log, s.lastTickUs);
    InFlightSnoc(c.inFlight, batch);
    assert s.log[lo..c.cursor] + s.log[c.cursor..c.cursor + count] == s.log[lo..c.cursor + count];
  }

  lemma ReceiveReplyKeeps(s: State, anchor: int)
    requires ConnectionInv(s, anchor) && Enabled(s, Receive) && s.connection.inFlight[0] == Reply
    ensures ConnectionInv(s.(connection := s.connection.(known := true, inFlight := s.connection.inFlight[1..])), anchor)
  {
    var rest := s.connection.inFlight[1..];
    assert InFlightTicks(s.connection.inFlight) == [] + InFlightTicks(rest) == InFlightTicks(rest);
  }

  // The batch received is the next stretch of the log after what has been taken.
  lemma BatchIsNextStretch(s: State, anchor: int)
    requires ConnectionInv(s, anchor) && Enabled(s, Receive) && s.connection.inFlight[0].Batch?
    ensures var c, lo := s.connection, UpTo(s.log, s.lastTickUs);
            var hi := lo + |c.inFlight[0].ticks|;
            && c.known && lo <= hi <= c.cursor
            && c.inFlight[0].ticks == s.log[lo..hi] && InFlightTicks(c.inFlight[1..]) == s.log[hi..c.cursor]
  {
    var c, lo := s.connection, UpTo(s.log, s.lastTickUs);
    var ticks, rest := c.inFlight[0].ticks, c.inFlight[1..];
    var hi := lo + |ticks|;
    var all := s.log[lo..c.cursor];
    assert all == ticks + InFlightTicks(rest);
    assert |all| == c.cursor - lo;
    assert s.log[lo..hi] == all[..|ticks|];
    assert s.log[hi..c.cursor] == all[|ticks|..];
  }

  lemma ReceiveBatchKeepsConnection(s: State, n: State, hi: nat, anchor: int)
    requires ConnectionInv(s, anchor) && Enabled(s, Receive) && s.connection.inFlight[0].Batch?
    requires s.lastTickUs <= n.lastTickUs && n.log == s.log && UpTo(s.log, n.lastTickUs) == hi
    requires n.connection == s.connection.(inFlight := s.connection.inFlight[1..])
    requires hi == UpTo(s.log, s.lastTickUs) + |s.connection.inFlight[0].ticks|
    ensures ConnectionInv(n, anchor)
  {
    BatchIsNextStretch(s, anchor);
  }

  lemma TakenBatch(s: State, n: State, rest: seq<Message>, hi: nat, anchor: int, bucketMs: Width)
    requires StrictlyOrdered(s.log) && WatermarkInv(s, anchor)
    requires s.connection.Streaming? && s.connection.known && UpTo(s.log, s.lastTickUs) <= hi <= |s.log|
    requires n == TakeBatch(s, s.log[UpTo(s.log, s.lastTickUs)..hi], rest, bucketMs)
    ensures WatermarkInv(n, anchor) && n.log == s.log && s.lastTickUs <= n.lastTickUs && UpTo(s.log, n.lastTickUs) == hi
    ensures n.live == AfterBatch(s.live, s.log[UpTo(s.log, s.lastTickUs)..hi], bucketMs)
    ensures n.connection == s.connection.(inFlight := rest)
  {
    WatermarkOfStretch(s.log, s.lastTickUs, UpTo(s.log, s.lastTickUs), hi);
  }

  lemma ReceiveBatchKeeps(s: State, seed: Live, anchor: int, bucketMs: Width)
    requires Inv(s, seed, anchor, bucketMs) && Enabled(s, Receive)
    requires s.connection.inFlight[0].Batch? && SafeAnchor(seed, anchor, bucketMs)
    ensures Inv(Next(s, Receive, bucketMs), seed, anchor, bucketMs)
  {
    BatchIsNextStretch(s, anchor);
    var lo, ticks := UpTo(s.log, s.lastTickUs), s.connection.inFlight[0].ticks;
    var hi := lo + |ticks|;
    var n := TakeBatch(s, ticks, s.connection.inFlight[1..], bucketMs);
    TakenBatch(s, n, s.connection.inFlight[1..], hi, anchor, bucketMs);
    assert Next(s, Receive, bucketMs) == n;
    ReceiveBatchKeepsConnection(s, n, hi, anchor);
    TakeStretchKeeps(s, n, hi, seed, anchor, bucketMs);
  }

  // The state after taking the log up to entry `hi`.
  lemma TakeStretchKeeps(s: State, n: State, hi: nat, seed: Live, anchor: int, bucketMs: Width)
    requires Inv(s, seed, anchor, bucketMs) && SafeAnchor(seed, anchor, bucketMs)
    requires UpTo(s.log, s.lastTickUs) <= hi <= |s.log| && n.log == s.log && UpTo(s.log, n.lastTickUs) == hi
    requires n.live == AfterBatch(s.live, s.log[UpTo(s.log, s.lastTickUs)..hi], bucketMs)
    requires WatermarkInv(n, anchor) && ConnectionInv(n, anchor)
    ensures Inv(n, seed, anchor, bucketMs)
  {
    var start, lo := UpTo(s.log, anchor), UpTo(s.log, s.lastTickUs);
    assert s.log[start..lo] + s.log[lo..hi] == s.log[start..hi];
    StretchFollows(s.log, seed, anchor, hi, bucketMs);
    BatchOnPruned(seed, s.log[start..lo], s.log[lo..hi], bucketMs);
  }

  // Log entries after a safe anchor are ordered and open no bucket older than the seed.
  lemma StretchFollows(log: seq<Tick>, seed: Live, anchor: int, hi: nat, bucketMs: Width)
    requires StrictlyOrdered(log) && SafeAnchor(seed, anchor, bucketMs)
    requires UpTo(log, anchor) <= hi <= |log|
    ensures var stretch := log[UpTo(log, anchor)..hi];
            Ordered(stretch) && Follows(seed, stretch, bucketMs)
  {
    UpToSplits(log, anchor);
  }

  lemma ReceiveKeeps(s: State, seed: Live, anchor: int, bucketMs: Width)
    requires Inv(s, seed, anchor, bucketMs) && Enabled(s, Receive) && SafeAnchor(seed, anchor, bucketMs)
    ensures Inv(Next(s, Receive, bucketMs), seed, anchor, bucketMs)
  {
    if s.connection.inFlight[0] == Reply {
      ReceiveReplyKeeps(s, anchor);
      ConnectionChangeKeeps(s, Next(s, Receive, bucketMs).connection, seed, anchor, bucketMs);
    } else {
      ReceiveBatchKeeps(s, seed, anchor, bucketMs);
    }
  }

  lemma ProduceKeeps(s: State, tick: Tick, seed: Live, anchor: int, bucketMs: Width)
    requires Inv(s, seed, anchor, bucketMs) && Enabled(s, Produce(tick))
    ensures Inv(Next(s, Produce(tick), bucketMs), seed, anchor, bucketMs)
  {
    if s.lastTickUs < tick.us {
      ProduceNewKeeps(s, tick, seed, anchor, bucketMs);
    } else {
      ProduceOldKeeps(s, tick, seed, anchor, bucketMs);
    }
  }

  lemma AcceptInv(s: State, seed: Live, anchor: int, bucketMs: Width)
    requires Inv(s, seed, anchor, bucketMs) && Enabled(s, Accept)
    ensures Inv(Next(s, Accept, bucketMs), seed, anchor, bucketMs)
  {
    AcceptKeeps(s, anchor);
    ConnectionChangeKeeps(s, Next(s, Accept, bucketMs).connection, seed, anchor, bucketMs);
  }

  lemma SendInv(s: State, count: nat, seed: Live, anchor: int, bucketMs: Width)
    requires Inv(s, seed, anchor, bucketMs) && Enabled(s, Send(count))
    ensures Inv(Next(s, Send(count), bucketMs), seed, anchor, bucketMs)
  {
    SendKeeps(s, count, anchor);
    ConnectionChangeKeeps(s, AfterSend(s, count), seed, anchor, bucketMs);
  }

  lemma StepKeeps(s: State, step: Step, seed: Live, anchor: int, bucketMs: Width)
    requires Inv(s, seed, anchor, bucketMs) && Enabled(s, step) && SafeAnchor(seed, anchor, bucketMs)
    ensures Inv(Next(s, step, bucketMs), seed, anchor, bucketMs)
  {
    match step
    case Produce(tick) => ProduceKeeps(s, tick, seed, anchor, bucketMs);
    case Connect => ConnectionChangeKeeps(s, Requested(s.since), seed, anchor, bucketMs);
    case Accept => AcceptInv(s, seed, anchor, bucketMs);
    case Send(count) => SendInv(s, count, seed, anchor, bucketMs);
    case Receive => ReceiveKeeps(s, seed, anchor, bucketMs);
    case Disconnect => ConnectionChangeKeeps(s, Closed, seed, anchor, bucketMs);
  }

  lemma InitialInv(s: State, seed: Live, anchor: int, bucketMs: Width)
    requires Initial(s, seed, anchor) && SafeAnchor(seed, anchor, bucketMs)
    ensures Inv(s, seed, anchor, bucketMs)
  {
    FewBucketsAreKept(seed);
    assert Taken(s, anchor) == [];
  }

  lemma {:induction false} ReachableInv(states: seq<State>, steps: seq<Step>, seed: Live, anchor: int, bucketMs: Width)
    requires SafeAnchor(seed, anchor, bucketMs)
    requires Run(states, steps, bucketMs) && Initial(states[0], seed, anchor)
    ensures Inv(states[|steps|], seed, anchor, bucketMs)
    decreases |steps|
  {
    if steps == [] {
      InitialInv(states[0], seed, anchor, bucketMs);
    } else {
      var m := |steps| - 1;
      assert Run(states[..m + 1], steps[..m], bucketMs);
      ReachableInv(states[..m + 1], steps[..m], seed, anchor, bucketMs);
      assert Enabled(states[m], steps[m]);
      StepKeeps(states[m], steps[m], seed, anchor, bucketMs);
    }
  }

  // ----- exactly once -----

  // The log entries after the anchor and not after `us`.
  function Due(log: seq<Tick>, anchor: int, us: int): seq<Tick> {
    if log == [] then []
    else
      var last := log[|log| - 1];
      Due(log[..|log| - 1], anchor, us) + if anchor < last.us <= us then [last] else []
  }

  lemma {:induction false} DueIsStretch(log: seq<Tick>, anchor: int, us: int)
    requires StrictlyOrdered(log) && anchor <= us
    ensures UpTo(log, anchor) <= UpTo(log, us)
    ensures Due(log, anchor, us) == log[UpTo(log, anchor)..UpTo(log, us)]
    decreases |log|
  {
    UpToMonotone(log, anchor, us);
    if log == [] {
    } else {
      var init, last := log[..|log| - 1], log[|log| - 1];
      assert log == init + [last];
      DueIsStretch(init, anchor, us);
      if last.us <= anchor {
        assert log[|log|..|log|] == [];
        BeforeAnchor(init, anchor, last.us);
      } else if last.us <= us {
        BeforeAnchor(init, us, last.us);
        GrownStretch(init, last, UpTo(init, anchor));
      } else {
        SameStretch(init, last, UpTo(init, anchor), UpTo(init, us));
      }
    }
  }

  // Entries before one that is not after `us` are not after it either.
  lemma BeforeAnchor(init: seq<Tick>, us: int, last: int)
    requires StrictlyOrdered(init) && last <= us && (init != [] ==> init[|init| - 1].us < last)
    ensures UpTo(init, us) == |init|
  {
  }

  /** Exactly once, in every reachable state of every run: the stored `since` is the series'
      own watermark, and the map is the eight newest buckets of the seed with all logged ticks
      after the anchor up to the watermark folded in, each one time; bucket by bucket, that is
      the seed bar, if any, with the bucket's own ticks of non-zero price. */
  lemma ExactlyOnce(states: seq<State>, steps: seq<Step>, seed: Live, anchor: int, bucketMs: Width)
    requires SafeAnchor(seed, anchor, bucketMs)
    requires Run(states, steps, bucketMs) && Initial(states[0], seed, anchor)
    ensures var s := states[|steps|];
            var due := Due(s.log, anchor, s.lastTickUs);
            && s.since == s.lastTickUs
            && s.live == Newest(FoldTicks(seed, due, bucketMs))
            && forall b :: b in s.live ==> Some(s.live[b]) == BarOf(Lookup(seed, b), b, TicksOf(due, b, bucketMs))
  {
    var s := states[|steps|];
    ReachableInv(states, steps, seed, anchor, bucketMs);
    DueIsStretch(s.log, anchor, s.lastTickUs);
    var due := Due(s.log, anchor, s.lastTickUs);
    forall b | b in s.live
      ensures Some(s.live[b]) == BarOf(Lookup(seed, b), b, TicksOf(due, b, bucketMs))
    {
      FoldIsByBucket(seed, due, bucketMs, b);
    }
  }

  /** Once everything sent has arrived on a live subscription, nothing is missing: the map
      holds the whole log after the anchor, however many connections it took. */
  lemma CaughtUp(states: seq<State>, steps: seq<Step>, seed: Live, anchor: int, bucketMs: Width)
    requires SafeAnchor(seed, anchor, bucketMs)
    requires Run(states, steps, bucketMs) && Initial(states[0], seed, anchor)
    requires var c := states[|steps|].connection;
             c.Streaming? && c.inFlight == [] && c.cursor == |states[|steps|].log|
    ensures var s := states[|steps|];
            s.live == Newest(FoldTicks(seed, s.log[UpTo(s.log, anchor)..], bucketMs))
  {
    var s := states[|steps|];
    ReachableInv(states, steps, seed, anchor, bucketMs);
    var lo := UpTo(s.log, s.lastTickUs);
    assert InFlightTicks(s.connection.inFlight) == s.log[lo..|s.log|];
    assert |s.log[lo..|s.log|]| == |s.log| - lo;
    assert Taken(s, anchor) == s.log[UpTo(s.log, anchor)..];
  }

  // ----- catching up is always possible -----

  // From `s` through `states`, without anything new being logged.
  ghost predicate Continues(s: State, states: seq<State>, steps: seq<Step>, bucketMs: Width) {
    && Run(states, steps, bucketMs) && states[0] == s
    && forall k :: 0 <= k < |steps| ==> !steps[k].Produce?
  }

  ghost predicate Drained(s: State) {
    s.connection.Streaming? && s.connection.inFlight == [] && s.connection.cursor == |s.log|
  }

  // A fresh connection: the stored subscription is sent, accepted and answered, and the rest of
  // the log arrives as one batch.
  function Afresh(s: State): seq<Step> {
    [Connect, Accept, Receive, Send(|s.log| - UpTo(s.log, s.since)), Receive]
  }

  lemma FreshConnectionDrains(s: State, bucketMs: Width) returns (states: seq<State>)
    requires s.connection.Closed?
    ensures Continues(s, states, Afresh(s), bucketMs) && Drained(states[5]) && states[5].log == s.log
  {
    var n := |s.log| - UpTo(s.log, s.since);
    var s1 := Next(s, Connect, bucketMs);
    var s2 := Next(s1, Accept, bucketMs);
    var s3 := Next(s2, Receive, bucketMs);
    assert s3.connection == Streaming(s.since, UpTo(s.log, s.since), true, []);
    var s4 := Next(s3, Send(n), bucketMs);
    assert UpTo(s.log, s.since) + n == |s.log|;
    assert s4.connection.inFlight == [Batch(s.log[UpTo(s.log, s.since)..|s.log|])];
    var s5 := Next(s4, Receive, bucketMs);
    states := [s, s1, s2, s3, s4, s5];
  }

  lemma PrependStep(s: State, step: Step, states: seq<State>, steps: seq<Step>, bucketMs: Width)
    requires Enabled(s, step) && !step.Produce? && Continues(Next(s, step, bucketMs), states, steps, bucketMs)
    ensures Continues(s, [s] + states, [step] + steps, bucketMs)
  {
    var more, moves := [s] + states, [step] + steps;
    forall k | 0 <= k < |moves|
      ensures Enabled(more[k], moves[k]) && more[k + 1] == Next(more[k], moves[k], bucketMs) && !moves[k].Produce?
    {
      if k > 0 {
        assert moves[k] == steps[k - 1] && more[k] == states[k - 1] && more[k + 1] == states[k];
      }
    }
  }

  lemma {:induction false} ContinuationKeepsInv(s: State, states: seq<State>, steps: seq<Step>, k: nat,
                                                seed: Live, anchor: int, bucketMs: Width)
    requires Inv(s, seed, anchor, bucketMs) && SafeAnchor(seed, anchor, bucketMs)
    requires Continues(s, states, steps, bucketMs) && k <= |steps|
    ensures Inv(states[k], seed, anchor, bucketMs)
    decreases k
  {
    if k == 0 {
    } else {
      ContinuationKeepsInv(s, states, steps, k - 1, seed, anchor, bucketMs);
      assert Enabled(states[k - 1], steps[k - 1]);
      StepKeeps(states[k - 1], steps[k - 1], seed, anchor, bucketMs);
    }
  }

  lemma SomeContinuationDrains(s: State, bucketMs: Width) returns (states: seq<State>, steps: seq<Step>)
    ensures Continues(s, states, steps, bucketMs) && Drained(states[|steps|]) && states[|steps|].log == s.log
  {
    if s.connection.Closed? {
      states := FreshConnectionDrains(s, bucketMs);
      steps := Afresh(s);
    } else {
      var lost := Next(s, Disconnect, bucketMs);
      var later := FreshConnectionDrains(lost, bucketMs);
      PrependStep(s, Disconnect, later, Afresh(lost), bucketMs);
      states, steps := [s] + later, [Disconnect] + Afresh(lost);
    }
  }

  lemma DrainedHoldsAll(s: State, seed: Live, anchor: int, bucketMs: Width)
    requires Inv(s, seed, anchor, bucketMs) && Drained(s)
    ensures s.live == Newest(FoldTicks(seed, s.log[UpTo(s.log, anchor)..], bucketMs))
  {
    var lo := UpTo(s.log, s.lastTickUs);
    assert InFlightTicks(s.connection.inFlight) == s.log[lo..|s.log|];
    assert |s.log[lo..|s.log|]| == |s.log| - lo;
    assert Taken(s, anchor) == s.log[UpTo(s.log, anchor)..];
  }

  /** Nothing is ever lost for good: from every reachable state some steps of connection and server
      alone bring the series to hold everything logged after the anchor. */
  lemma CanCatchUp(states: seq<State>, steps: seq<Step>, seed: Live, anchor: int, bucketMs: Width)
    returns (more: seq<State>, moves: seq<Step>)
    requires SafeAnchor(seed, anchor, bucketMs)
    requires Run(states, steps, bucketMs) && Initial(states[0], seed, anchor)
    ensures Continues(states[|steps|], more, moves, bucketMs)
    ensures var log := states[|steps|].log;
            more[|moves|].live == Newest(FoldTicks(seed, log[UpTo(log, anchor)..], bucketMs))
  {
    var s := states[|steps|];
    ReachableInv(states, steps, seed, anchor, bucketMs);
    more, moves := SomeContinuationDrains(s, bucketMs);
    ContinuationKeepsInv(s, more, moves, |moves|, seed, anchor, bucketMs);
    DrainedHoldsAll(more[|moves|], seed, anchor, bucketMs);
  }

  /** No batch is dropped for want of an id: in every reachable state one that arrives finds the
      subscription known. */
  lemma BatchesAreKnown(states: seq<State>, steps: seq<Step>, seed: Live, anchor: int, bucketMs: Width)
    requires SafeAnchor(seed, anchor, bucketMs)
    requires Run(states, steps, bucketMs) && Initial(states[0], seed, anchor)
    ensures var c := states[|steps|].connection;
            c.Streaming? && c.inFlight != [] && c.inFlight[0].Batch? ==> c.known
  {
    ReachableInv(states, steps, seed, anchor, bucketMs);
  }
}
