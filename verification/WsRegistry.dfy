/**
 Every run of the WebSocket client against a server: the registry stays exact, the server
 runs what the client has registered, and a removed owner is left alone.

 Assumed of the server: it answers requests of the current connection only, and never gives
 the same id twice. Assumed of the owners: `resubscribe` waits for an outstanding request.
 */
module WsRegistry {
  import opened Wrappers
  import opened WsClient

  // The client and its surroundings: the first request of the current connection, the ids
  // the server is running on it, those among them the client has forgotten, and all ids ever
  // given.
  datatype World = World(client: Client, connStart: ReqId, active: set<SubId>, leaked: set<SubId>, used: set<SubId>)

  datatype Step =
    | DoSubscribe(since: Option<int>)
    | DoUnsubscribe(s: Handle)
    | DoUpdate(s: Handle, since: Option<int>)
    | DoResubscribe(s: Handle)
    | DoClose
    | SocketOpens
    | SocketCloses
    | Reply(req: ReqId, result: Option<SubId>)
    | Notify(id: SubId)
    | End(id: SubId, resumeSince: Option<int>)

  predicate Enabled(w: World, step: Step) {
    var c := w.client;
    match step
    case DoSubscribe(_) => true
    case DoUnsubscribe(s) => s < c.nextHandle
    case DoUpdate(s, _) => s < c.nextHandle
    case DoResubscribe(s) => s < c.nextHandle && !Outstanding(c, w.connStart, s)
    case DoClose => true
    case SocketOpens => c.state.Connecting?
    case SocketCloses => !c.state.Closed?
    case Reply(req, result) =>
      c.state.Open? && req in c.pending && req >= w.connStart && (result.Some? ==> result.value !in w.used)
    case Notify(id) => c.state.Open?
    case End(id, _) => c.state.Open? && id in w.active
  }

  function Act(c: Client, step: Step): Client {
    match step
    case DoSubscribe(since) => Subscribed(c, since)
    case DoUnsubscribe(s) => Removed(c, s)
    case DoUpdate(s, since) => Updated(c, s, since)
    case DoResubscribe(s) => Resubscribed(c, s)
    case DoClose => ShutDown(c)
    case SocketOpens => Opened(c)
    case SocketCloses => Lost(c)
    case Reply(req, result) => Replied(c, req, result)
    case Notify(_) => c
    case End(id, resumeSince) => Ended(c, id, resumeSince)
  }

  // The ids whose cancellation is among the messages sent after the first `n`.
  function Cancelled(sent: seq<Message>, n: nat): set<SubId> {
    set k | n <= k < |sent| && sent[k].EthUnsubscribe? :: sent[k].subId
  }

  function Issued(step: Step): set<SubId> {
    if step.Reply? && step.result.Some? then {step.result.value} else {}
  }

  function EndedIds(step: Step): set<SubId> {
    if step.End? then {step.id} else {}
  }

  // A registered subscription that is asked for again.
  function Forgotten(c: Client, step: Step): set<SubId> {
    if step.DoResubscribe? && c.state.Open? && step.s in c.subs && step.s in c.subIds then {c.subIds[step.s]} else {}
  }

  function Next(w: World, step: Step): World {
    var c := Act(w.client, step);
    if step.SocketOpens? then World(c, w.client.nextReq, {}, {}, w.used)
    else if step.SocketCloses? || step.DoClose? then World(c, w.connStart, {}, {}, w.used)
    else
      World(c, w.connStart,
            w.active + Issued(step) - Cancelled(c.sent, |w.client.sent|) - EndedIds(step),
            w.leaked + Forgotten(w.client, step) - EndedIds(step),
            w.used + Issued(step))
  }

  const START := World(INITIAL, 1, {}, {}, {})

  // Each world is one enabled step after the one before.
  ghost predicate Path(worlds: seq<World>, steps: seq<Step>) {
    && |worlds| == |steps| + 1
    && forall k :: 0 <= k < |steps| ==> Enabled(worlds[k], steps[k]) && worlds[k + 1] == Next(worlds[k], steps[k])
  }

  ghost predicate Run(worlds: seq<World>, steps: seq<Step>) {
    Path(worlds, steps) && worlds[0] == START
  }

  // ----- the invariant -----

  // The server runs what is registered and what has been forgotten, and nothing else.
  ghost predicate ServerInv(c: Client, active: set<SubId>, leaked: set<SubId>, used: set<SubId>) {
    && (forall s :: s in c.subIds ==> c.subIds[s] in used && c.subIds[s] !in leaked)
    && active == c.bySubId.Keys + leaked && c.bySubId.Keys !! leaked && active <= used
    && (!c.state.Open? ==> active == {})
  }

  ghost predicate Inv(w: World) {
    ClientInv(w.client, w.connStart) && ServerInv(w.client, w.active, w.leaked, w.used)
  }

  // ----- every step keeps the client's part -----

  lemma ActKeeps(w: World, step: Step)
    requires Inv(w) && Enabled(w, step)
    ensures ClientInv(Act(w.client, step), if step.SocketOpens? then w.client.nextReq else w.connStart)
  {
    var c, k := w.client, w.connStart;
    match step
    case DoSubscribe(since) => SubscribedKeeps(c, k, since);
    case DoUnsubscribe(s) => RemovedKeeps(c, k, s);
    case DoUpdate(s, since) =>
    case DoResubscribe(s) => ResubscribedKeeps(c, k, s);
    case DoClose => ShutDownKeeps(c, k);
    case SocketOpens => OpenedKeeps(c, k);
    case SocketCloses => LostKeeps(c, k);
    case Reply(req, result) => RepliedKeeps(c, k, req, result);
    case Notify(_) =>
    case End(id, resumeSince) => EndedKeeps(c, k, id, resumeSince);
  }

  // ----- every operation keeps client and server in step -----

  lemma NothingCancelled(sent: seq<Message>)
    ensures Cancelled(sent, |sent|) == {}
  {
  }

  lemma OneSent(sent: seq<Message>, m: Message)
    ensures Cancelled(sent + [m], |sent|) == if m.EthUnsubscribe? then {m.subId} else {}
  {
    var more := sent + [m];
    assert more[|sent|] == m;
  }

  lemma SubscribeServer(w: World, since: Option<int>)
    requires Inv(w)
    ensures Cancelled(Subscribed(w.client, since).sent, |w.client.sent|) == {}
  {
    NothingCancelled(w.client.sent);
    OneSent(w.client.sent, EthSubscribe(w.client.nextReq, w.client.nextHandle, since));
  }

  lemma UnsubscribeServer(w: World, s: Handle)
    requires Inv(w)
    ensures var n := Removed(w.client, s);
            ServerInv(n, w.active - Cancelled(n.sent, |w.client.sent|), w.leaked, w.used)
  {
    var c, n := w.client, Removed(w.client, s);
    NothingCancelled(c.sent);
    if s in c.subIds {
      OneSent(c.sent, EthUnsubscribe(c.nextReq, c.subIds[s]));
      assert n.bySubId.Keys == c.bySubId.Keys - {c.subIds[s]};
    }
  }

  lemma ResubscribeServer(w: World, s: Handle)
    requires Inv(w)
    ensures Cancelled(Resubscribed(w.client, s).sent, |w.client.sent|) == {}
    ensures ServerInv(Resubscribed(w.client, s), w.active, w.leaked + Forgotten(w.client, DoResubscribe(s)), w.used)
  {
    var c, n := w.client, Resubscribed(w.client, s);
    NothingCancelled(c.sent);
    OneSent(c.sent, EthSubscribe(c.nextReq, s, SinceOf(c, s)));
    if c.state.Open? && s in c.subIds {
      assert n.bySubId.Keys == c.bySubId.Keys - {c.subIds[s]};
      assert c.subIds[s] in c.bySubId <==> s in c.subs;
    }
  }

  lemma ReplyServer(w: World, req: ReqId, id: SubId)
    requires Inv(w) && Enabled(w, Reply(req, Some(id)))
    ensures NewId(w.client, id)
    ensures var n := Replied(w.client, req, Some(id));
            ServerInv(n, w.active + {id} - Cancelled(n.sent, |w.client.sent|), w.leaked, w.used + {id})
  {
    var c, n := w.client, Replied(w.client, req, Some(id));
    NothingCancelled(c.sent);
    OneSent(c.sent, EthUnsubscribe(c.nextReq, id));
    assert id !in w.active;
    if c.pending[req] in c.subs {
      assert n.bySubId.Keys == c.bySubId.Keys + {id};
    }
  }

  lemma EndServer(w: World, id: SubId, resumeSince: Option<int>)
    requires Inv(w)
    ensures var n := Ended(w.client, id, resumeSince);
            n.sent == w.client.sent && ServerInv(n, w.active - {id}, w.leaked - {id}, w.used)
  {
    var c, n := w.client, Ended(w.client, id, resumeSince);
    if id in c.bySubId {
      assert n.bySubId.Keys == c.bySubId.Keys - {id};
    }
  }

  // Steps that change neither the server's ids nor the registry.
  lemma QuietStep(w: World, step: Step)
    requires Inv(w) && Enabled(w, step)
    requires step.DoSubscribe? || step.DoUpdate? || step.Notify? || (step.Reply? && step.result.None?)
    ensures var n := Next(w, step); ServerInv(n.client, n.active, n.leaked, n.used)
  {
    var n := Next(w, step);
    NothingCancelled(w.client.sent);
    if step.DoSubscribe? {
      SubscribeServer(w, step.since);
    }
    assert n.active == w.active && n.leaked == w.leaked && n.used == w.used;
  }

  lemma SocketStep(w: World, step: Step)
    requires Inv(w) && Enabled(w, step) && (step.SocketOpens? || step.SocketCloses? || step.DoClose?)
    ensures var n := Next(w, step); ServerInv(n.client, n.active, n.leaked, n.used)
  {
    if step.SocketOpens? {
      OpenedIsReopened(w.client);
    }
  }

  lemma StepKeepsServer(w: World, step: Step)
    requires Inv(w) && Enabled(w, step)
    ensures var n := Next(w, step); ServerInv(n.client, n.active, n.leaked, n.used)
  {
    var c, n := w.client, Next(w, step);
    match step
    case DoUnsubscribe(s) =>
      UnsubscribeServer(w, s);
      assert n.active == w.active - Cancelled(n.client.sent, |c.sent|) && n.leaked == w.leaked && n.used == w.used;
    case DoResubscribe(s) =>
      ResubscribeServer(w, s);
      assert n.active == w.active && n.leaked == w.leaked + Forgotten(c, step) && n.used == w.used;
    case Reply(req, Some(id)) =>
      ReplyServer(w, req, id);
      assert n.active == w.active + {id} - Cancelled(n.client.sent, |c.sent|) && n.leaked == w.leaked;
    case End(id, resumeSince) =>
      EndServer(w, id, resumeSince);
      NothingCancelled(c.sent);
      assert n.active == w.active - {id} && n.leaked == w.leaked - {id} && n.used == w.used;
    case DoClose => SocketStep(w, step);
    case SocketOpens => SocketStep(w, step);
    case SocketCloses => SocketStep(w, step);
    case _ => QuietStep(w, step);
  }

  lemma StepKeeps(w: World, step: Step)
    requires Inv(w) && Enabled(w, step)
    ensures Inv(Next(w, step))
  {
    if step.Reply? && step.result.Some? {
      ReplyServer(w, step.req, step.result.value);
    }
    ActKeeps(w, step);
    StepKeepsServer(w, step);
  }

  lemma {:induction false} ReachableInv(worlds: seq<World>, steps: seq<Step>, k: nat)
    requires Run(worlds, steps) && k <= |steps|
    ensures Inv(worlds[k])
    decreases k
  {
    if k == 0 {
    } else {
      ReachableInv(worlds, steps, k - 1);
      assert Enabled(worlds[k - 1], steps[k - 1]);
      StepKeeps(worlds[k - 1], steps[k - 1]);
    }
  }

  // ----- what holds in every reachable state -----

  /** The two sides of the registry are mutually inverse and speak of live subscriptions
      only. */
  lemma RegistryIsExact(worlds: seq<World>, steps: seq<Step>, k: nat, id: SubId, s: Handle)
    requires Run(worlds, steps) && k <= |steps|
    ensures var c := worlds[k].client;
            (id in c.bySubId && c.bySubId[id] == s) <==> (s in c.subs && s in c.subIds && c.subIds[s] == id)
  {
    ReachableInv(worlds, steps, k);
  }

  /** The server runs exactly the registered subscriptions and those forgotten by asking again
      for one that was running. */
  lemma ServerRunsRegistered(worlds: seq<World>, steps: seq<Step>, k: nat)
    requires Run(worlds, steps) && k <= |steps|
    ensures var w := worlds[k];
            w.active == w.client.bySubId.Keys + w.leaked && w.client.bySubId.Keys !! w.leaked
  {
    ReachableInv(worlds, steps, k);
  }

  /** If owners ask again only for subscriptions that are not running, nothing leaks: client and
      server always agree. */
  lemma {:induction false} NothingLeaks(worlds: seq<World>, steps: seq<Step>, k: nat)
    requires Run(worlds, steps) && k <= |steps|
    requires forall j :: 0 <= j < |steps| ==> Forgotten(worlds[j].client, steps[j]) == {}
    ensures worlds[k].leaked == {} && worlds[k].active == worlds[k].client.bySubId.Keys
    decreases k
  {
    if k == 0 {
    } else {
      NothingLeaks(worlds, steps, k - 1);
      assert Forgotten(worlds[k - 1].client, steps[k - 1]) == {};
    }
    ServerRunsRegistered(worlds, steps, k);
  }

  // Asking again for a running subscription does leak: the server goes on sending under an
  // id the client no longer knows.
  lemma ResubscribingLiveLeaks(w: World, s: Handle)
    requires Inv(w) && Enabled(w, DoResubscribe(s))
    requires w.client.state.Open? && s in w.client.subs && s in w.client.subIds
    ensures var n := Next(w, DoResubscribe(s));
            w.client.subIds[s] in n.active && w.client.subIds[s] !in n.client.bySubId
  {
    ResubscribeServer(w, s);
    StepKeeps(w, DoResubscribe(s));
  }

  /** A reply that comes after its owner went away is answered with a cancellation, and its id
      is not registered. */
  lemma LateReplyIsCancelled(w: World, req: ReqId, id: SubId)
    requires Inv(w) && Enabled(w, Reply(req, Some(id))) && w.client.pending[req] !in w.client.subs
    ensures var n := Next(w, Reply(req, Some(id)));
            && n.client.sent == w.client.sent + [EthUnsubscribe(w.client.nextReq, id)]
            && n.client.bySubId == w.client.bySubId && n.active == w.active
  {
    ReplyServer(w, req, id);
    StepKeeps(w, Reply(req, Some(id)));
    ServerAfterLateReply(w, req, id);
  }

  lemma ServerAfterLateReply(w: World, req: ReqId, id: SubId)
    requires Inv(w) && Enabled(w, Reply(req, Some(id))) && w.client.pending[req] !in w.client.subs
    ensures Next(w, Reply(req, Some(id))).active == w.active
  {
    OneSent(w.client.sent, EthUnsubscribe(w.client.nextReq, id));
    assert id !in w.active;
  }

  // Opening the socket asks for every subscription, in order, from its stored `since`.
  function Requests(c: Client, subs: seq<Handle>): seq<Message> {
    seq(|subs|, k requires 0 <= k < |subs| => EthSubscribe(c.nextReq + k, subs[k], SinceOf(c, subs[k])))
  }

  lemma {:induction false} SendAllRequests(c: Client, subs: seq<Handle>)
    requires c.state.Open?
    ensures var r := SendAll(c, subs);
            r.sent == c.sent + Requests(c, subs) && r.nextReq == c.nextReq + |subs| && r.since == c.since && r.state.Open?
    decreases |subs|
  {
    if subs == [] {
    } else {
      var init := subs[..|subs| - 1];
      SendAllRequests(c, init);
      assert Requests(c, subs) == Requests(c, init) + [EthSubscribe(c.nextReq + |init|, subs[|init|], SinceOf(c, subs[|init|]))];
    }
  }

  lemma OpeningResumes(c: Client)
    ensures Opened(c).sent == c.sent + Requests(c, c.subs)
  {
    SendAllRequests(c.(state := Open), c.subs);
    assert forall s :: SinceOf(c.(state := Open), s) == SinceOf(c, s);
    assert Requests(c.(state := Open), c.subs) == Requests(c, c.subs);
  }

  // ----- who is called -----

  // The owner a step calls: an update or a close goes to the registered one, an error reply
  // to whoever asked.
  function Called(c: Client, step: Step): Option<Handle> {
    match step
    case Notify(id) => if id in c.bySubId then Some(c.bySubId[id]) else None
    case End(id, _) => if id in c.bySubId then Some(c.bySubId[id]) else None
    case Reply(req, result) => if req in c.pending && result.None? then Some(c.pending[req]) else None
    case _ => None
  }

  // The owner has left.
  predicate Left(c: Client, s: Handle) {
    s < c.nextHandle && s !in c.subs
  }

  // A request of the owner travels on the connection that is open now.
  predicate Awaits(w: World, s: Handle) {
    w.client.state.Open? && Outstanding(w.client, w.connStart, s)
  }

  /** Exactly one thing can reach an owner after it left: the refusal of a request it had sent
      before. Updates and closes never do. */
  lemma OnlyRefusalReachesRemoved(worlds: seq<World>, steps: seq<Step>, k: nat, s: Handle)
    requires Run(worlds, steps) && k < |steps| && s !in worlds[k].client.subs
    ensures Called(worlds[k].client, steps[k]) == Some(s)
       <==> steps[k].Reply? && steps[k].result.None? && worlds[k].client.pending[steps[k].req] == s
  {
    ReachableInv(worlds, steps, k);
    assert Enabled(worlds[k], steps[k]);
  }

  /** Who is called, in every reachable state: an update or a close goes to the subscription that
      stores the id, a refusal to the one that asked, and nothing else calls anybody. */
  lemma WhoIsCalled(worlds: seq<World>, steps: seq<Step>, k: nat, s: Handle)
    requires Run(worlds, steps) && k < |steps|
    ensures var c := worlds[k].client;
            Called(c, steps[k]) == Some(s) <==>
              match steps[k]
              case Notify(id) => s in c.subs && s in c.subIds && c.subIds[s] == id
              case End(id, _) => s in c.subs && s in c.subIds && c.subIds[s] == id
              case Reply(req, result) => result.None? && c.pending[req] == s
              case _ => false
  {
    ReachableInv(worlds, steps, k);
    assert Enabled(worlds[k], steps[k]);
  }

  // ----- when an owner that has left can still be called -----

  // An operation that sends no request for `s` adds none.
  lemma RemovedAddsNoRequest(c: Client, connStart: ReqId, x: Handle, s: Handle)
    requires Outstanding(Removed(c, x), connStart, s)
    ensures Outstanding(c, connStart, s) && Removed(c, x).state == c.state
  {
    assert Removed(c, x).pending == c.pending;
  }

  lemma ResubscribedAddsOwnRequest(c: Client, connStart: ReqId, x: Handle, s: Handle)
    requires Outstanding(Resubscribed(c, x), connStart, s) && x != s
    ensures Outstanding(c, connStart, s)
  {
    var n := Resubscribed(c, x);
    var req :| req in n.pending && req >= connStart && n.pending[req] == s;
    assert req in c.pending && c.pending[req] == s;
  }

  lemma RepliedAddsNoRequest(c: Client, connStart: ReqId, req: ReqId, result: Option<SubId>, s: Handle)
    requires Outstanding(Replied(c, req, result), connStart, s)
    ensures Outstanding(c, connStart, s)
  {
    var n := Replied(c, req, result);
    var q :| q in n.pending && q >= connStart && n.pending[q] == s;
    assert q in c.pending && c.pending[q] == s;
  }

  // Opening sends requests for the subscriptions there are, and old requests do not count.
  lemma OpenedAsksForSubsOnly(c: Client, s: Handle)
    requires HandlesInv(c) && Outstanding(Opened(c), c.nextReq, s)
    ensures s in c.subs
  {
    OpenedIsReopened(c);
    var n := Opened(c);
    var req :| req in n.pending && req >= c.nextReq && n.pending[req] == s;
    assert n.pending[req] == c.subs[req - c.nextReq];
  }

  lemma SubscribedAddsOwnRequest(c: Client, connStart: ReqId, since: Option<int>, s: Handle)
    requires Outstanding(Subscribed(c, since), connStart, s) && s < c.nextHandle
    ensures Outstanding(c, connStart, s) && Subscribed(c, since).state == (if c.state.Closed? then Connecting else c.state)
  {
    var n := Subscribed(c, since);
    var req :| req in n.pending && req >= connStart && n.pending[req] == s;
    assert req in c.pending && c.pending[req] == s;
  }

  lemma LeftStays(w: World, step: Step, s: Handle)
    requires Left(w.client, s)
    ensures Left(Next(w, step).client, s)
  {
    HandlesGrow(w.client, step);
  }

  // Handles are never given twice: the new ones in use are not those given before.
  lemma HandlesGrow(c: Client, step: Step)
    ensures var n := Act(c, step);
            n.nextHandle >= c.nextHandle && forall s :: s in n.subs ==> s in c.subs || s >= c.nextHandle
  {
    match step
    case DoUnsubscribe(x) => WithoutExact(c.subs, x);
    case SocketOpens => SendAllFrame(c.(state := Open), c.subs);
    case _ =>
  }

  // Whoever has left and awaits nothing comes to await nothing, unless it asks again itself.
  lemma NoNewRequest(w: World, step: Step, s: Handle)
    requires Inv(w) && Enabled(w, step) && Left(w.client, s) && step != DoResubscribe(s)
    ensures Awaits(Next(w, step), s) ==> Awaits(w, s)
  {
    var c, n := w.client, Next(w, step);
    if Awaits(n, s) {
      match step
      case DoSubscribe(since) => SubscribedAddsOwnRequest(c, w.connStart, since, s);
      case DoUnsubscribe(x) => RemovedAddsNoRequest(c, w.connStart, x, s);
      case DoResubscribe(x) => ResubscribedAddsOwnRequest(c, w.connStart, x, s);
      case SocketOpens => OpenedAsksForSubsOnly(c, s);
      case Reply(req, result) => RepliedAddsNoRequest(c, w.connStart, req, result, s);
      case _ =>
    }
  }

  // `moves` lead from `w` through `worlds`, and `s` does not ask again.
  ghost predicate Continues(w: World, worlds: seq<World>, moves: seq<Step>, s: Handle) {
    Path(worlds, moves) && worlds[0] == w && forall i :: 0 <= i < |moves| ==> moves[i] != DoResubscribe(s)
  }

  // The last of the moves calls `s`.
  ghost predicate EndsInCall(worlds: seq<World>, moves: seq<Step>, s: Handle)
    requires Path(worlds, moves)
  {
    moves != [] && Called(worlds[|moves| - 1].client, moves[|moves| - 1]) == Some(s)
  }

  lemma {:induction false} SilentForever(w: World, worlds: seq<World>, moves: seq<Step>, k: nat, s: Handle)
    requires Inv(w) && Left(w.client, s) && !Awaits(w, s) && Continues(w, worlds, moves, s) && k <= |moves|
    ensures Inv(worlds[k]) && Left(worlds[k].client, s) && !Awaits(worlds[k], s)
    decreases k
  {
    if k == 0 {
    } else {
      SilentForever(w, worlds, moves, k - 1, s);
      assert Enabled(worlds[k - 1], moves[k - 1]);
      StepKeeps(worlds[k - 1], moves[k - 1]);
      LeftStays(worlds[k - 1], moves[k - 1], s);
      NoNewRequest(worlds[k - 1], moves[k - 1], s);
    }
  }

  lemma CalledMeansAwaiting(w: World, step: Step, s: Handle)
    requires Inv(w) && Enabled(w, step) && Left(w.client, s) && Called(w.client, step) == Some(s)
    ensures Awaits(w, s)
  {
  }

  /** Exactly when an owner that has left can be called again: some continuation of the run, in
      which it does not ask again, calls it if and only if the connection is open and a request
      of its own travels on it. A connection that dropped, or was closed, silences it for
      good. */
  lemma LeaverIsCalledIff(worlds: seq<World>, steps: seq<Step>, k: nat, s: Handle)
    requires Run(worlds, steps) && k <= |steps| && Left(worlds[k].client, s)
    ensures Awaits(worlds[k], s)
       <==> exists more, moves :: Continues(worlds[k], more, moves, s) && EndsInCall(more, moves, s)
  {
    var w := worlds[k];
    ReachableInv(worlds, steps, k);
    if Awaits(w, s) {
      var req :| req in w.client.pending && req >= w.connStart && w.client.pending[req] == s;
      var refusal := Reply(req, None);
      assert Continues(w, [w, Next(w, refusal)], [refusal], s);
      assert EndsInCall([w, Next(w, refusal)], [refusal], s);
    }
    if more, moves :| Continues(w, more, moves, s) && EndsInCall(more, moves, s) {
      var last := |moves| - 1;
      if !Awaits(w, s) {
        SilentForever(w, more, moves, last, s);
        assert Enabled(more[last], moves[last]);
        CalledMeansAwaiting(more[last], moves[last], s);
      }
    }
  }

  /** So an owner that left with no request travelling is never called in the rest of the run. */
  lemma RemovedOwnerIsNeverCalled(worlds: seq<World>, steps: seq<Step>, j: nat, k: nat, s: Handle)
    requires Run(worlds, steps) && j <= k < |steps| && Left(worlds[j].client, s) && !Awaits(worlds[j], s)
    requires forall i :: j <= i < k ==> steps[i] != DoResubscribe(s)
    ensures Called(worlds[k].client, steps[k]) != Some(s)
  {
    ReachableInv(worlds, steps, j);
    var more, moves := worlds[j..k + 1], steps[j..k];
    forall i | 0 <= i < |moves|
      ensures Enabled(more[i], moves[i]) && more[i + 1] == Next(more[i], moves[i])
    {
      assert Enabled(worlds[j + i], steps[j + i]);
    }
    assert Path(more, moves);
    SilentForever(worlds[j], more, moves, k - j, s);
    assert Enabled(worlds[k], steps[k]);
    if Called(worlds[k].client, steps[k]) == Some(s) {
      CalledMeansAwaiting(worlds[k], steps[k], s);
    }
  }

  // ----- the two failures, as runs -----

  lemma RunOfFour(w1: World, w2: World, w3: World, w4: World, s1: Step, s2: Step, s3: Step, s4: Step)
    requires Enabled(START, s1) && w1 == Next(START, s1) && Enabled(w1, s2) && w2 == Next(w1, s2)
    requires Enabled(w2, s3) && w3 == Next(w2, s3) && Enabled(w3, s4) && w4 == Next(w3, s4)
    ensures Run([START, w1, w2, w3, w4], [s1, s2, s3, s4])
  {
    var worlds, steps := [START, w1, w2, w3, w4], [s1, s2, s3, s4];
    forall k | 0 <= k < |steps|
      ensures Enabled(worlds[k], steps[k]) && worlds[k + 1] == Next(worlds[k], steps[k])
    {
      if k == 0 {
      } else if k == 1 {
      } else if k == 2 {
      } else {
        assert k == 3;
      }
    }
  }

  // The client with one owner on an open connection, and with its request sent.
  const ASKED := Client(Open, true, [0], map[], map[0 := None], map[], map[1 := 0], 2, 1, [EthSubscribe(1, 0, None)])

  // The same after its owner has left, or after the reply has come.
  const DESERTED := ASKED.(subs := [])
  const RUNNING := ASKED.(subIds := map[0 := 7], bySubId := map[7 := 0], pending := map[])

  lemma AskedOnce() returns (w1: World)
    ensures Enabled(START, DoSubscribe(None)) && w1 == Next(START, DoSubscribe(None))
    ensures Enabled(w1, SocketOpens) && Next(w1, SocketOpens) == World(ASKED, 1, {}, {}, {})
  {
    w1 := Next(START, DoSubscribe(None));
    assert w1.client == Client(Connecting, true, [0], map[], map[0 := None], map[], map[], 1, 1, []);
    assert [0][..0] == [];
    var c := w1.client.(state := Open);
    assert SendAll(c, []) == c;
    assert SendAll(c, [0]) == SendSubscribe(c.(subIds := c.subIds - {0}), 0);
  }

  lemma OwnerLeaves()
    ensures Next(World(ASKED, 1, {}, {}, {}), DoUnsubscribe(0)) == World(DESERTED, 1, {}, {}, {})
  {
    assert [0][..0] == [];
    assert Without([0], 0) == Without([], 0) + [];
    assert Removed(ASKED, 0) == DESERTED;
    NothingCancelled(ASKED.sent);
  }

  lemma ReplyComes()
    ensures Next(World(ASKED, 1, {}, {}, {}), Reply(1, Some(7))) == World(RUNNING, 1, {7}, {}, {7})
  {
    assert Replied(ASKED, 1, Some(7)) == RUNNING;
    NothingCancelled(ASKED.sent);
  }

  lemma AskingAgainLeaks()
    ensures Enabled(World(RUNNING, 1, {7}, {}, {7}), DoResubscribe(0))
    ensures var again := Next(World(RUNNING, 1, {7}, {}, {7}), DoResubscribe(0));
            7 in again.active && 7 !in again.client.bySubId
  {
    var again := Next(World(RUNNING, 1, {7}, {}, {7}), DoResubscribe(0));
    OneSent(RUNNING.sent, EthSubscribe(2, 0, None));
    assert Cancelled(again.client.sent, |RUNNING.sent|) == {};
  }

  // An owner that has left is called: its request is refused after it went away.
  lemma RefusalReachesLeaver() returns (worlds: seq<World>, steps: seq<Step>)
    ensures Run(worlds, steps) && |steps| == 4 && steps[2] == DoUnsubscribe(0)
    ensures 0 !in worlds[3].client.subs && Called(worlds[3].client, steps[3]) == Some(0)
  {
    var w1 := AskedOnce();
    OwnerLeaves();
    var asked, left, refusal := World(ASKED, 1, {}, {}, {}), World(DESERTED, 1, {}, {}, {}), Reply(1, None);
    RunOfFour(w1, asked, left, Next(left, refusal), DoSubscribe(None), SocketOpens, DoUnsubscribe(0), refusal);
    steps := [DoSubscribe(None), SocketOpens, DoUnsubscribe(0), refusal];
    worlds := [START, w1, asked, left, Next(left, refusal)];
  }

  // A subscription that runs is asked for again: its old id runs on, unknown to the client.
  lemma LeakingRun() returns (worlds: seq<World>, steps: seq<Step>)
    ensures Run(worlds, steps) && |steps| == 4 && steps[3] == DoResubscribe(0)
    ensures worlds[3].client == RUNNING
    ensures 7 in worlds[4].active && 7 !in worlds[4].client.bySubId
  {
    var w1 := AskedOnce();
    ReplyComes();
    var asked, running := World(ASKED, 1, {}, {}, {}), World(RUNNING, 1, {7}, {}, {7});
    AskingAgainLeaks();
    var again := Next(running, DoResubscribe(0));
    RunOfFour(w1, asked, running, again, DoSubscribe(None), SocketOpens, Reply(1, Some(7)), DoResubscribe(0));
    steps := [DoSubscribe(None), SocketOpens, Reply(1, Some(7)), DoResubscribe(0)];
    worlds := [START, w1, asked, running, again];
  }

  // ----- the client stays connected while it is wanted -----

  ghost predicate WantInv(c: Client) {
    (c.wantOpen <==> !c.state.Closed?) && (c.subs != [] ==> c.wantOpen)
  }

  lemma StepKeepsWant(w: World, step: Step)
    requires WantInv(w.client) && Enabled(w, step)
    ensures WantInv(Next(w, step).client)
  {
    match step
    case SocketOpens => SendAllFrame(w.client.(state := Open), w.client.subs);
    case DoUnsubscribe(s) => WithoutExact(w.client.subs, s);
    case _ =>
  }

  /** In every reachable state the client is open or on its way exactly while it is wanted, and it
      is wanted while anybody is subscribed. */
  lemma {:induction false} WantedIsConnected(worlds: seq<World>, steps: seq<Step>, k: nat)
    requires Run(worlds, steps) && k <= |steps|
    ensures var c := worlds[k].client; (c.wantOpen <==> !c.state.Closed?) && (c.subs != [] ==> c.wantOpen)
    decreases k
  {
    if k == 0 {
    } else {
      WantedIsConnected(worlds, steps, k - 1);
      assert Enabled(worlds[k - 1], steps[k - 1]);
      StepKeepsWant(worlds[k - 1], steps[k - 1]);
    }
  }

  predicate OwnerStep(step: Step) {
    step.DoSubscribe? || step.DoUnsubscribe? || step.DoUpdate? || step.DoResubscribe? || step.DoClose?
  }

  // `moves` of the socket and the server alone lead from `w` through `worlds`.
  ghost predicate Unaided(w: World, worlds: seq<World>, moves: seq<Step>) {
    Path(worlds, moves) && worlds[0] == w && forall i :: 0 <= i < |moves| ==> !OwnerStep(moves[i])
  }

  // The server runs the subscription and its updates reach the owner.
  predicate Runs(w: World, s: Handle) {
    var c := w.client;
    s in c.subs && s in c.subIds && c.subIds[s] in c.bySubId && c.bySubId[c.subIds[s]] == s && c.subIds[s] in w.active
  }

  lemma {:induction false} LargestId(used: set<SubId>) returns (id: SubId)
    ensures forall x :: x in used ==> x < id
    decreases |used|
  {
    if used == {} {
      id := 0;
    } else {
      var x :| x in used;
      var rest := LargestId(used - {x});
      id := if x < rest then rest else x + 1;
      forall y | y in used
        ensures y < id
      {
        assert y == x || y in used - {x};
      }
    }
  }

  // On its way, the client opens, asks for everything, and gets its reply.
  lemma OpensAndRuns(w: World, s: Handle) returns (more: seq<World>, moves: seq<Step>)
    requires Inv(w) && w.client.state.Connecting? && s in w.client.subs
    ensures Unaided(w, more, moves) && Runs(more[|moves|], s)
  {
    var req, online := AskedOnOpening(w, s);
    var id := LargestId(online.used);
    RunsAfterReply(online, req, id);
    TwoMoves(w, online, SocketOpens, Reply(req, Some(id)));
    more, moves := [w, online, Next(online, Reply(req, Some(id)))], [SocketOpens, Reply(req, Some(id))];
  }

  lemma AskedOnOpening(w: World, s: Handle) returns (req: ReqId, online: World)
    requires Inv(w) && w.client.state.Connecting? && s in w.client.subs
    ensures online == Next(w, SocketOpens) && Inv(online) && online.client.state.Open? && s in online.client.subs
    ensures req in online.client.pending && req >= online.connStart && online.client.pending[req] == s
  {
    online := Next(w, SocketOpens);
    StepKeeps(w, SocketOpens);
    OpenedOwners(w.client, w.connStart);
    req :| req in online.client.pending && req >= online.connStart && online.client.pending[req] == s;
    SendAllFrame(w.client.(state := Open), w.client.subs);
  }

  lemma TwoMoves(w: World, between: World, first: Step, second: Step)
    requires Enabled(w, first) && between == Next(w, first) && Enabled(between, second)
    requires !OwnerStep(first) && !OwnerStep(second)
    ensures Unaided(w, [w, between, Next(between, second)], [first, second])
  {
    var moves := [first, second];
    forall k | 0 <= k < |moves|
      ensures moves[k] == if k == 0 then first else second
    {
    }
  }

  lemma RunsAfterReply(w: World, req: ReqId, id: SubId)
    requires Inv(w) && Enabled(w, Reply(req, Some(id))) && w.client.pending[req] in w.client.subs
    ensures Runs(Next(w, Reply(req, Some(id))), w.client.pending[req])
  {
    NothingCancelled(w.client.sent);
  }

  /** Whoever is subscribed is served again: from every reachable state some steps of the socket and
      the server alone make the subscription run, whatever was dropped, refused or ended before. */
  lemma CanAlwaysRun(worlds: seq<World>, steps: seq<Step>, k: nat, s: Handle) returns (more: seq<World>, moves: seq<Step>)
    requires Run(worlds, steps) && k <= |steps| && s in worlds[k].client.subs
    ensures Unaided(worlds[k], more, moves) && Runs(more[|moves|], s)
  {
    var w := worlds[k];
    ReachableInv(worlds, steps, k);
    WantedIsConnected(worlds, steps, k);
    if w.client.state.Connecting? {
      more, moves := OpensAndRuns(w, s);
    } else {
      var lost := Next(w, SocketCloses);
      StepKeeps(w, SocketCloses);
      var rest, steps := OpensAndRuns(lost, s);
      more, moves := [w] + rest, [SocketCloses] + steps;
      forall k | 0 <= k < |moves|
        ensures Enabled(more[k], moves[k]) && more[k + 1] == Next(more[k], moves[k]) && !OwnerStep(moves[k])
      {
        assert k > 0 ==> moves[k] == steps[k - 1];
      }
    }
  }

  // ----- from where a subscription resumes -----

  // What was last given for `s`: when it was added, by an update, or by a close that says so.
  ghost function LastGiven(worlds: seq<World>, steps: seq<Step>, k: nat, s: Handle): Option<int>
    requires |worlds| == |steps| + 1 && k <= |steps|
    decreases k
  {
    if k == 0 then None
    else
      var c, before := worlds[k - 1].client, LastGiven(worlds, steps, k - 1, s);
      match steps[k - 1]
      case DoSubscribe(since) => if s == c.nextHandle then since else before
      case DoUpdate(x, since) => if x == s then since else before
      case End(id, resumeSince) =>
        if resumeSince.Some? && id in c.bySubId && c.bySubId[id] == s then resumeSince else before
      case _ => before
  }

  lemma StepGives(w: World, step: Step, s: Handle)
    ensures SinceOf(Next(w, step).client, s)
         == match step
            case DoSubscribe(since) => if s == w.client.nextHandle then since else SinceOf(w.client, s)
            case DoUpdate(x, since) => if x == s then since else SinceOf(w.client, s)
            case End(id, resumeSince) =>
              if resumeSince.Some? && id in w.client.bySubId && w.client.bySubId[id] == s then resumeSince
              else SinceOf(w.client, s)
            case _ => SinceOf(w.client, s)
  {
    if step.SocketOpens? {
      SendAllFrame(w.client.(state := Open), w.client.subs);
    }
  }

  /** In every reachable state the stored `since` of a subscription is the one last given for it. */
  lemma {:induction false} SinceIsLastGiven(worlds: seq<World>, steps: seq<Step>, k: nat, s: Handle)
    requires Run(worlds, steps) && k <= |steps|
    ensures SinceOf(worlds[k].client, s) == LastGiven(worlds, steps, k, s)
    decreases k
  {
    if k == 0 {
    } else {
      SinceIsLastGiven(worlds, steps, k - 1, s);
      assert Enabled(worlds[k - 1], steps[k - 1]);
      StepGives(worlds[k - 1], steps[k - 1], s);
    }
  }

  // The requests among the messages after the first `n` carry the stored `since`.
  ghost predicate CarriesSince(c: Client, n: nat) {
    forall i :: n <= i < |c.sent| && c.sent[i].EthSubscribe? ==> c.sent[i].since == SinceOf(c, c.sent[i].sub)
  }

  lemma SubscribeCarries(c: Client, s: Handle)
    ensures CarriesSince(SendSubscribe(c, s), |c.sent|)
  {
  }

  lemma RemovedCarries(c: Client, s: Handle)
    ensures CarriesSince(Removed(c, s), |c.sent|)
  {
  }

  lemma RepliedCarries(c: Client, req: ReqId, result: Option<SubId>)
    ensures CarriesSince(Replied(c, req, result), |c.sent|)
  {
  }

  /** Whatever a step sends asks from the stored `since`. */
  lemma RequestsCarrySince(w: World, step: Step)
    ensures CarriesSince(Next(w, step).client, |w.client.sent|)
  {
    match step
    case SocketOpens =>
      OpeningResumes(w.client);
      SendAllFrame(w.client.(state := Open), w.client.subs);
    case DoSubscribe(since) => SubscribeCarries(Added(w.client, since), w.client.nextHandle);
    case DoResubscribe(s) => SubscribeCarries(ForgetId(w.client, s), s);
    case DoUnsubscribe(s) => RemovedCarries(w.client, s);
    case Reply(req, result) => RepliedCarries(w.client, req, result);
    case _ =>
  }

  // ----- order and silence -----

  predicate Increasing(subs: seq<Handle>) {
    forall i, j :: 0 <= i < j < |subs| ==> subs[i] < subs[j]
  }

  lemma {:induction false} WithoutStaysIncreasing(subs: seq<Handle>, s: Handle)
    requires Increasing(subs)
    ensures Increasing(Without(subs, s))
    decreases |subs|
  {
    if subs == [] {
    } else {
      var init := subs[..|subs| - 1];
      WithoutStaysIncreasing(init, s);
      WithoutExact(init, s);
      forall i | 0 <= i < |Without(init, s)|
        ensures Without(init, s)[i] < subs[|subs| - 1]
      {
        assert Without(init, s)[i] in init;
      }
    }
  }

  lemma NewestLast(c: Client)
    requires HandlesInv(c) && Increasing(c.subs)
    ensures Increasing(c.subs + [c.nextHandle])
  {
    forall i | 0 <= i < |c.subs|
      ensures c.subs[i] < c.nextHandle
    {
      assert c.subs[i] in c.subs;
    }
  }

  lemma StepKeepsOrder(c: Client, step: Step)
    requires HandlesInv(c) && Increasing(c.subs)
    ensures Increasing(Act(c, step).subs)
  {
    match step
    case SocketOpens => SendAllFrame(c.(state := Open), c.subs);
    case DoUnsubscribe(s) => WithoutStaysIncreasing(c.subs, s);
    case DoSubscribe(_) => NewestLast(c);
    case _ =>
  }

  /** In every reachable state the subscriptions stand in the order they were made, so that opening
      asks for them in that order. */
  lemma {:induction false} SubscriptionsInOrder(worlds: seq<World>, steps: seq<Step>, k: nat)
    requires Run(worlds, steps) && k <= |steps|
    ensures forall i, j :: 0 <= i < j < |worlds[k].client.subs| ==> worlds[k].client.subs[i] < worlds[k].client.subs[j]
    decreases k
  {
    if k == 0 {
    } else {
      SubscriptionsInOrder(worlds, steps, k - 1);
      ReachableInv(worlds, steps, k - 1);
      assert Enabled(worlds[k - 1], steps[k - 1]);
      StepKeepsOrder(worlds[k - 1].client, steps[k - 1]);
    }
  }

  /** After `close` no message calls anybody, not even one that is still on its way. */
  lemma CloseSilences(w: World, step: Step)
    ensures Called(Next(w, DoClose).client, step) == None
  {
  }

  /** Nothing is sent while the connection is not open, except when it opens. */
  lemma SilentUnlessOpen(w: World, step: Step)
    requires !w.client.state.Open? && step != SocketOpens
    ensures Next(w, step).client.sent == w.client.sent
  {
  }
}
