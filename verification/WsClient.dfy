/**
 The multiplexed WebSocket client (ts-sdk/src/transport/ws.ts): logical subscriptions, the
 ids the server gives them, and the requests whose replies are still to come. Requests and
 replies are matched by id as in JSON-RPC 2.0, section 5; a notification carries none
 (section 4.1).

 A logical subscription is a handle; its `subId` and its stored `since` are kept in maps
 from handles.
 */
module WsClient {
  import opened Collections
  import opened Wrappers

  type Handle = nat
  type SubId = nat
  type ReqId = nat

  datatype ConnectionState = Connecting | Open | Closed

  datatype Message =
    | EthSubscribe(id: ReqId, sub: Handle, since: Option<int>)
    | EthUnsubscribe(id: ReqId, subId: SubId)

  // The fields of the client, `subs` in insertion order, and everything it has sent.
  datatype Client = Client(
    state: ConnectionState,
    wantOpen: bool,
    subs: seq<Handle>,
    subIds: map<Handle, SubId>,
    since: map<Handle, Option<int>>,
    bySubId: map<SubId, Handle>,
    pending: map<ReqId, Handle>,
    nextReq: ReqId,
    nextHandle: Handle,
    sent: seq<Message>)

  const INITIAL := Client(Closed, false, [], map[], map[], map[], map[], 1, 0, [])

  // ----- what each operation does -----

  function SinceOf(c: Client, s: Handle): Option<int> {
    if s in c.since then c.since[s] else None
  }

  // `send` on a connection that is not open does nothing at all.
  function SendSubscribe(c: Client, s: Handle): Client {
    if !c.state.Open? then c
    else c.(pending := c.pending[c.nextReq := s], nextReq := c.nextReq + 1,
            sent := c.sent + [EthSubscribe(c.nextReq, s, SinceOf(c, s))])
  }

  function SendUnsubscribe(c: Client, id: SubId): Client {
    if !c.state.Open? then c
    else c.(nextReq := c.nextReq + 1, sent := c.sent + [EthUnsubscribe(c.nextReq, id)])
  }

  // A new subscription, before anything is sent for it.
  function Added(c: Client, since: Option<int>): Client {
    c.(subs := c.subs + [c.nextHandle], since := c.since[c.nextHandle := since], nextHandle := c.nextHandle + 1,
       wantOpen := true, state := if c.state.Closed? then Connecting else c.state)
  }

  function Subscribed(c: Client, since: Option<int>): Client {
    SendSubscribe(Added(c, since), c.nextHandle)
  }

  function Without(subs: seq<Handle>, s: Handle): seq<Handle> {
    if subs == [] then []
    else Without(subs[..|subs| - 1], s) + if subs[|subs| - 1] == s then [] else [subs[|subs| - 1]]
  }

  // The id a subscription stores, if any, is struck from both sides.
  function ForgetId(c: Client, s: Handle): Client {
    if s in c.subIds then c.(bySubId := c.bySubId - {c.subIds[s]}, subIds := c.subIds - {s}) else c
  }

  function Removed(c: Client, s: Handle): Client {
    var dropped := c.(subs := Without(c.subs, s));
    if s in c.subIds then SendUnsubscribe(ForgetId(dropped, s), c.subIds[s]) else dropped
  }

  function Updated(c: Client, s: Handle, since: Option<int>): Client {
    c.(since := c.since[s := since])
  }

  // The old id, if any, is forgotten without telling the server.
  function Resubscribed(c: Client, s: Handle): Client {
    if !c.state.Open? then c
    else SendSubscribe(ForgetId(c, s), s)
  }

  // Every subscription is sent anew, in order.
  function SendAll(c: Client, subs: seq<Handle>): Client {
    if subs == [] then c
    else
      var before, s := SendAll(c, subs[..|subs| - 1]), subs[|subs| - 1];
      SendSubscribe(before.(subIds := before.subIds - {s}), s)
  }

  function Opened(c: Client): Client {
    SendAll(c.(state := Open), c.subs)
  }

  function ForgetIds(subIds: map<Handle, SubId>, subs: seq<Handle>): map<Handle, SubId> {
    map s | s in subIds && s !in subs :: subIds[s]
  }

  // The socket closed.
  function Lost(c: Client): Client {
    c.(bySubId := map[], subIds := ForgetIds(c.subIds, c.subs), state := if c.wantOpen then Connecting else Closed)
  }

  // `close()` drops the subscriptions but not the ids stored in them.
  function ShutDown(c: Client): Client {
    c.(wantOpen := false, subs := [], bySubId := map[], pending := map[], state := Closed)
  }

  // The reply to a request: an id, or an error.
  function Replied(c: Client, req: ReqId, result: Option<SubId>): Client {
    if req !in c.pending then c
    else
      var s, taken := c.pending[req], c.(pending := c.pending - {req});
      match result
      case None => taken
      case Some(id) =>
        // The owner went away while the reply was on its way.
        if s !in c.subs then SendUnsubscribe(taken, id)
        else taken.(subIds := taken.subIds[s := id], bySubId := taken.bySubId[id := s])
  }

  // The server closed a subscription; `resumeSince` is where to resume, if the close is
  // resumable and says so.
  function Ended(c: Client, id: SubId, resumeSince: Option<int>): Client {
    if id !in c.bySubId then c
    else
      var s := c.bySubId[id];
      c.(bySubId := c.bySubId - {id}, subIds := c.subIds - {s},
         since := if resumeSince.Some? then c.since[s := resumeSince] else c.since)
  }

  // ----- what every operation keeps -----

  // A request of the current connection for `s` has not been answered yet.
  predicate Outstanding(c: Client, connStart: ReqId, s: Handle) {
    exists req :: req in c.pending && req >= connStart && c.pending[req] == s
  }

  // The id under which a subscription is registered and the id it stores are the same.
  ghost predicate RegistryInv(c: Client) {
    && (forall id :: id in c.bySubId ==> var s := c.bySubId[id]; s in c.subs && s in c.subIds && c.subIds[s] == id)
    && (forall s :: s in c.subIds && s in c.subs ==> c.subIds[s] in c.bySubId)
    && (forall s :: s in c.subIds && c.subIds[s] in c.bySubId ==> c.bySubId[c.subIds[s]] == s)
    && (!c.state.Open? ==> c.bySubId == map[])
  }

  ghost predicate HandlesInv(c: Client) {
    && NoRepeats(c.subs) && (forall s :: s in c.subs ==> s < c.nextHandle)
    && (forall req :: req in c.pending ==> req < c.nextReq && c.pending[req] < c.nextHandle)
    && (forall s :: s in c.subIds ==> s < c.nextHandle)
  }

  // At most one request per subscription is outstanding, and none for a registered one.
  ghost predicate RequestsInv(c: Client, connStart: ReqId) {
    && connStart <= c.nextReq
    && (forall p, q :: p in c.pending && q in c.pending && connStart <= p < q ==> c.pending[p] != c.pending[q])
    && (c.state.Open? ==> forall p :: p in c.pending && p >= connStart && c.pending[p] in c.subs ==> c.pending[p] !in c.subIds)
  }

  ghost predicate ClientInv(c: Client, connStart: ReqId) {
    RegistryInv(c) && HandlesInv(c) && RequestsInv(c, connStart)
  }

  // ----- every operation keeps the client's part -----

  lemma AppendKeepsDistinct(xs: seq<Handle>, x: Handle)
    ensures NoRepeats(xs + [x]) <==> NoRepeats(xs) && x !in xs
  {
    var more := xs + [x];
    if NoRepeats(more) {
      forall i, j | 0 <= i < j < |xs|
        ensures xs[i] != xs[j]
      {
        assert more[i] != more[j];
      }
      forall i | 0 <= i < |xs|
        ensures xs[i] != x
      {
        assert more[i] != more[|xs|];
      }
    }
  }

  lemma {:induction false} WithoutExact(subs: seq<Handle>, s: Handle)
    ensures forall x :: x in Without(subs, s) <==> x in subs && x != s
    ensures NoRepeats(subs) ==> NoRepeats(Without(subs, s))
    decreases |subs|
  {
    if subs == [] {
    } else {
      var init, last := subs[..|subs| - 1], subs[|subs| - 1];
      assert subs == init + [last];
      WithoutExact(init, s);
      AppendKeepsDistinct(init, last);
      AppendKeepsDistinct(Without(init, s), last);
      assert Without(init, s) + [] == Without(init, s);
    }
  }

  // A request for a subscription that is neither registered nor waiting for another one.
  lemma SendSubscribeKeeps(c: Client, connStart: ReqId, s: Handle)
    requires ClientInv(c, connStart) && s < c.nextHandle && !Outstanding(c, connStart, s) && s !in c.subIds
    ensures ClientInv(SendSubscribe(c, s), connStart)
  {
  }

  lemma AddedKeeps(c: Client, connStart: ReqId, since: Option<int>)
    requires ClientInv(c, connStart)
    ensures ClientInv(Added(c, since), connStart)
    ensures !Outstanding(Added(c, since), connStart, c.nextHandle)
  {
    AppendKeepsDistinct(c.subs, c.nextHandle);
  }

  lemma SubscribedKeeps(c: Client, connStart: ReqId, since: Option<int>)
    requires ClientInv(c, connStart)
    ensures ClientInv(Subscribed(c, since), connStart)
  {
    AddedKeeps(c, connStart, since);
    SendSubscribeKeeps(Added(c, since), connStart, c.nextHandle);
  }

  lemma ForgetIdKeeps(c: Client, connStart: ReqId, s: Handle)
    requires ClientInv(c, connStart)
    ensures ClientInv(ForgetId(c, s), connStart) && s !in ForgetId(c, s).subIds
  {
  }

  lemma DropKeeps(c: Client, connStart: ReqId, s: Handle)
    requires ClientInv(c, connStart) && s !in c.subIds
    ensures ClientInv(c.(subs := Without(c.subs, s)), connStart)
  {
    WithoutExact(c.subs, s);
  }

  lemma SendUnsubscribeKeeps(c: Client, connStart: ReqId, id: SubId)
    requires ClientInv(c, connStart)
    ensures ClientInv(SendUnsubscribe(c, id), connStart)
  {
  }

  lemma RemovedKeeps(c: Client, connStart: ReqId, s: Handle)
    requires ClientInv(c, connStart)
    ensures ClientInv(Removed(c, s), connStart)
  {
    ForgetIdKeeps(c, connStart, s);
    DropKeeps(ForgetId(c, s), connStart, s);
    var dropped := ForgetId(c, s).(subs := Without(c.subs, s));
    if s in c.subIds {
      SendUnsubscribeKeeps(dropped, connStart, c.subIds[s]);
      assert Removed(c, s) == SendUnsubscribe(dropped, c.subIds[s]);
    } else {
      assert Removed(c, s) == dropped;
    }
  }

  lemma ResubscribedKeeps(c: Client, connStart: ReqId, s: Handle)
    requires ClientInv(c, connStart) && s < c.nextHandle && !Outstanding(c, connStart, s)
    ensures ClientInv(Resubscribed(c, s), connStart)
  {
    ForgetIdKeeps(c, connStart, s);
    if c.state.Open? {
      assert !Outstanding(ForgetId(c, s), connStart, s);
      SendSubscribeKeeps(ForgetId(c, s), connStart, s);
    }
  }

  // What sending leaves alone.
  lemma {:induction false} SendAllFrame(c: Client, subs: seq<Handle>)
    ensures var r := SendAll(c, subs);
            && r.state == c.state && r.wantOpen == c.wantOpen && r.subs == c.subs && r.since == c.since
            && r.bySubId == c.bySubId && r.nextHandle == c.nextHandle
    decreases |subs|
  {
    if subs == [] {
    } else {
      SendAllFrame(c, subs[..|subs| - 1]);
    }
  }

  // Opening sends one request per subscription and forgets every stored id.
  lemma {:induction false} SendAllForgets(c: Client, subs: seq<Handle>)
    requires c.state.Open?
    ensures SendAll(c, subs).subIds == ForgetIds(c.subIds, subs) && SendAll(c, subs).nextReq == c.nextReq + |subs|
    decreases |subs|
  {
    if subs == [] {
    } else {
      var init, last := subs[..|subs| - 1], subs[|subs| - 1];
      SendAllFrame(c, init);
      SendAllForgets(c, init);
      assert subs == init + [last];
    }
  }

  lemma {:induction false} SendAllAsks(c: Client, subs: seq<Handle>)
    requires c.state.Open? && forall req :: req in c.pending ==> req < c.nextReq
    ensures var r := SendAll(c, subs);
            && (forall req :: req in r.pending <==> req in c.pending || c.nextReq <= req < c.nextReq + |subs|)
            && (forall req :: req in r.pending ==>
                  r.pending[req] == if req < c.nextReq then c.pending[req] else subs[req - c.nextReq])
    decreases |subs|
  {
    if subs == [] {
    } else {
      var init := subs[..|subs| - 1];
      SendAllFrame(c, init);
      SendAllForgets(c, init);
      SendAllAsks(c, init);
    }
  }

  // What opening leaves: the old requests and one new request per subscription.
  ghost predicate Reopened(c: Client, r: Client) {
    && r.subs == c.subs && r.subIds == ForgetIds(c.subIds, c.subs) && r.bySubId == c.bySubId
    && r.nextReq == c.nextReq + |c.subs| && r.nextHandle == c.nextHandle && r.state.Open?
    && (forall req :: req in r.pending ==> (req in c.pending && req < c.nextReq) || c.nextReq <= req < r.nextReq)
    && (forall req :: req in r.pending ==>
          r.pending[req] == if req < c.nextReq then c.pending[req] else c.subs[req - c.nextReq])
  }

  lemma OpenedIsReopened(c: Client)
    requires HandlesInv(c)
    ensures Reopened(c, Opened(c))
  {
    SendAllFrame(c.(state := Open), c.subs);
    SendAllForgets(c.(state := Open), c.subs);
    SendAllAsks(c.(state := Open), c.subs);
  }

  lemma ReopenedRegistry(c: Client, r: Client)
    requires RegistryInv(c) && c.state.Connecting? && Reopened(c, r)
    ensures RegistryInv(r)
  {
  }

  lemma ReopenedHandles(c: Client, r: Client)
    requires HandlesInv(c) && Reopened(c, r)
    ensures HandlesInv(r)
  {
    forall req | req in r.pending
      ensures r.pending[req] < r.nextHandle
    {
      assert req >= c.nextReq ==> c.subs[req - c.nextReq] in c.subs;
    }
  }

  lemma ReopenedRequests(c: Client, r: Client)
    requires HandlesInv(c) && Reopened(c, r)
    ensures RequestsInv(r, c.nextReq)
  {
  }

  lemma OpenedKeeps(c: Client, connStart: ReqId)
    requires ClientInv(c, connStart) && c.state.Connecting?
    ensures ClientInv(Opened(c), c.nextReq)
  {
    OpenedIsReopened(c);
    ReopenedRegistry(c, Opened(c));
    ReopenedHandles(c, Opened(c));
    ReopenedRequests(c, Opened(c));
  }

  lemma LostKeeps(c: Client, connStart: ReqId)
    requires ClientInv(c, connStart)
    ensures ClientInv(Lost(c), connStart)
  {
  }

  lemma ShutDownKeeps(c: Client, connStart: ReqId)
    requires ClientInv(c, connStart)
    ensures ClientInv(ShutDown(c), connStart)
  {
  }

  // The id in a reply is new to the client.
  predicate NewId(c: Client, id: SubId) {
    id !in c.bySubId && forall s :: s in c.subIds ==> c.subIds[s] != id
  }

  lemma RegisteredKeeps(c: Client, s: Handle, id: SubId)
    requires RegistryInv(c) && c.state.Open? && s in c.subs && s !in c.subIds && NewId(c, id)
    ensures RegistryInv(c.(subIds := c.subIds[s := id], bySubId := c.bySubId[id := s]))
  {
  }

  lemma RepliedKeeps(c: Client, connStart: ReqId, req: ReqId, result: Option<SubId>)
    requires ClientInv(c, connStart) && c.state.Open? && req in c.pending && req >= connStart
    requires result.Some? ==> NewId(c, result.value)
    ensures ClientInv(Replied(c, req, result), connStart)
  {
    var s, taken := c.pending[req], c.(pending := c.pending - {req});
    assert forall p :: p in taken.pending && p >= connStart ==> taken.pending[p] != s;
    if result.Some? && s in c.subs {
      RegisteredKeeps(taken, s, result.value);
    }
  }

  lemma EndedKeeps(c: Client, connStart: ReqId, id: SubId, resumeSince: Option<int>)
    requires ClientInv(c, connStart) && c.state.Open?
    ensures ClientInv(Ended(c, id, resumeSince), connStart)
  {
  }

  lemma OpenedOwners(c: Client, connStart: ReqId)
    ensures var n := Opened(c);
            ClientInv(c, connStart) && c.state.Connecting? ==>
              && ClientInv(n, c.nextReq) && n.subs == c.subs
              && forall s :: s in n.subs ==> Outstanding(n, c.nextReq, s) && s !in n.subIds
  {
    if ClientInv(c, connStart) && c.state.Connecting? {
      OpenedKeeps(c, connStart);
      SendAllFrame(c.(state := Open), c.subs);
      SendAllForgets(c.(state := Open), c.subs);
      SendAllAsks(c.(state := Open), c.subs);
      var n := Opened(c);
      forall s | s in n.subs
        ensures Outstanding(n, c.nextReq, s)
      {
        var i :| 0 <= i < |c.subs| && c.subs[i] == s;
        var req := c.nextReq + i;
        assert req in n.pending && n.pending[req] == s;
      }
    }
  }

  // Striking one out keeps the order of the others.
  lemma {:induction false} WithoutKeepsOrder(a: seq<Handle>, s: Handle, b: seq<Handle>)
    requires s !in a && s !in b
    ensures Without(a + [s] + b, s) == a + b
    decreases |a| + |b|
  {
    var all := a + [s] + b;
    if b != [] {
      WithoutKeepsOrder(a, s, b[..|b| - 1]);
      assert all[..|all| - 1] == a + [s] + b[..|b| - 1];
      assert a + b == (a + b[..|b| - 1]) + [b[|b| - 1]];
    } else {
      assert all[..|all| - 1] == a && a + b == a;
      WithoutNone(a, s);
      assert Without(a, s) + [] == a;
    }
  }

  lemma {:induction false} WithoutNone(subs: seq<Handle>, s: Handle)
    requires s !in subs
    ensures Without(subs, s) == subs
    decreases |subs|
  {
    if subs == [] {
    } else {
      var init, last := subs[..|subs| - 1], subs[|subs| - 1];
      assert subs == init + [last];
      WithoutNone(init, s);
    }
  }

  // Sending the requests touches nothing but the ids, the requests and the messages.
}
