/**
 The WebSocket client object (ts-sdk/src/transport/ws.ts, `PodWsClient`). Its methods are the
 operations of `WsClient`, and each says what it means for the owner concerned.

 The invariant is kept whenever it holds, provided the server answers requests of the current
 connection with new ids; a server that does not may break it, so no method requires it.
 */
module WsClientObject {
  import opened Wrappers
  import opened WsClient

  // ----- what the operations mean for an owner -----

  lemma SubscribedOwner(c: Client, connStart: ReqId, since: Option<int>)
    ensures var n, s := Subscribed(c, since), c.nextHandle;
            ClientInv(c, connStart) ==>
              && ClientInv(n, connStart) && s !in c.subs && s in n.subs && s !in n.subIds
              && (Outstanding(n, connStart, s) <==> n.state.Open?)
  {
    if ClientInv(c, connStart) {
      SubscribedKeeps(c, connStart, since);
      var n := Subscribed(c, since);
      assert n.state.Open? ==> c.nextReq in n.pending && n.pending[c.nextReq] == c.nextHandle;
    }
  }

  lemma RemovedOwner(c: Client, connStart: ReqId, s: Handle)
    ensures var n := Removed(c, s);
            ClientInv(c, connStart) ==>
              ClientInv(n, connStart) && s !in n.subs && forall id :: id in n.bySubId ==> n.bySubId[id] != s
  {
    if ClientInv(c, connStart) {
      RemovedKeeps(c, connStart, s);
      WithoutExact(c.subs, s);
    }
  }

  lemma ResubscribedOwner(c: Client, connStart: ReqId, s: Handle)
    ensures var n := Resubscribed(c, s);
            ClientInv(c, connStart) && s < c.nextHandle && !Outstanding(c, connStart, s) ==>
              && ClientInv(n, connStart)
              && (c.state.Open? ==> Outstanding(n, connStart, s) && s !in n.subIds)
  {
    if ClientInv(c, connStart) && s < c.nextHandle && !Outstanding(c, connStart, s) {
      ResubscribedKeeps(c, connStart, s);
      var n := Resubscribed(c, s);
      assert c.state.Open? ==> c.nextReq in n.pending && n.pending[c.nextReq] == s;
    }
  }

  lemma LostOwners(c: Client, connStart: ReqId)
    ensures ClientInv(c, connStart) ==> ClientInv(Lost(c), connStart)
  {
    if ClientInv(c, connStart) {
      LostKeeps(c, connStart);
    }
  }

  lemma RepliedOwner(c: Client, connStart: ReqId, req: ReqId, result: Option<SubId>)
    ensures var n := Replied(c, req, result);
            ClientInv(c, connStart) && c.state.Open? && req >= connStart && (result.Some? ==> NewId(c, result.value)) ==>
              && ClientInv(n, connStart)
              && (req in c.pending && c.pending[req] in c.subs ==> !Outstanding(n, connStart, c.pending[req]))
  {
    if ClientInv(c, connStart) && c.state.Open? && req >= connStart && (result.Some? ==> NewId(c, result.value))
       && req in c.pending {
      RepliedKeeps(c, connStart, req, result);
    }
  }

  lemma EndedOwner(c: Client, connStart: ReqId, id: SubId, resumeSince: Option<int>)
    ensures ClientInv(c, connStart) ==> ClientInv(Ended(c, id, resumeSince), connStart)
  {
    if ClientInv(c, connStart) && id in c.bySubId {
      EndedKeeps(c, connStart, id, resumeSince);
    }
  }

  class PodWsClient {
    var state: ConnectionState
    var wantOpen: bool
    var subs: seq<Handle>
    var subIds: map<Handle, SubId>
    var since: map<Handle, Option<int>>
    var bySubId: map<SubId, Handle>
    var pending: map<ReqId, Handle>
    var nextReq: ReqId
    var nextHandle: Handle
    var sent: seq<Message>
    ghost var connStart: ReqId  // the first request of the current connection

    ghost function Fields(): Client
      reads this
    {
      Client(state, wantOpen, subs, subIds, since, bySubId, pending, nextReq, nextHandle, sent)
    }

    // The registry is exact and no subscription has two requests outstanding.
    ghost predicate Valid()
      reads this
    {
      ClientInv(Fields(), connStart)
    }

    // The server sends updates for `s` under `id`.
    ghost predicate RunsUnder(s: Handle, id: SubId)
      reads this
    {
      s in subs && s in subIds && subIds[s] == id
    }

    constructor ()
      ensures Fields() == INITIAL && Valid()
    {
      state, wantOpen, subs, nextReq, nextHandle, sent, connStart := Closed, false, [], 1, 0, [], 1;
      subIds, since, bySubId, pending := map[], map[], map[], map[];
    }

    method SendSubscribeRequest(s: Handle)
      modifies this
      ensures Fields() == SendSubscribe(old(Fields()), s) && connStart == old(connStart)
    {
      if !state.Open? {
        return;
      }
      var id := nextReq;
      nextReq := nextReq + 1;
      pending := pending[id := s];
      sent := sent + [EthSubscribe(id, s, if s in since then since[s] else None)];
    }

    method SendUnsubscribeRequest(subId: SubId)
      modifies this
      ensures Fields() == SendUnsubscribe(old(Fields()), subId) && connStart == old(connStart)
    {
      if !state.Open? {
        return;
      }
      sent := sent + [EthUnsubscribe(nextReq, subId)];
      nextReq := nextReq + 1;
    }

    /** `subscribe`: a new owner, not running before a reply comes; its request goes out at
        once on an open connection. */
    method Subscribe(since': Option<int>) returns (s: Handle)
      modifies this
      ensures s == old(nextHandle) && Fields() == Subscribed(old(Fields()), since')
      ensures old(Valid()) ==>
                && Valid() && s !in old(subs) && s in subs && s !in subIds
                && (Outstanding(Fields(), connStart, s) <==> state.Open?)
    {
      SubscribedOwner(Fields(), connStart, since');
      s := Add(since');
      if state.Open? {
        SendSubscribeRequest(s);
      }
    }

    // The subscription is stored, and the connection is opened if it was closed.
    method Add(since': Option<int>) returns (s: Handle)
      modifies this
      ensures s == old(nextHandle) && Fields() == Added(old(Fields()), since') && connStart == old(connStart)
    {
      s := nextHandle;
      nextHandle := nextHandle + 1;
      since := since[s := since'];
      subs := subs + [s];
      wantOpen := true;
      if state.Closed? {
        state := Connecting;
      }
    }

    /** `unsubscribe`, that is `removeSub`: no update reaches the owner any more, and what it
        was running is cancelled. */
    method Unsubscribe(s: Handle)
      modifies this
      ensures Fields() == Removed(old(Fields()), s)
      ensures old(Valid()) ==> Valid() && s !in subs && forall id :: id in bySubId ==> bySubId[id] != s
      ensures forall id :: old(RunsUnder(s, id)) && state.Open? ==>
                sent == old(sent) + [EthUnsubscribe(old(nextReq), id)]
    {
      RemovedOwner(Fields(), connStart, s);
      subs := Without(subs, s);
      if s in subIds {
        var id := subIds[s];
        bySubId := bySubId - {id};
        SendUnsubscribeRequest(id);
        subIds := subIds - {s};
      }
    }

    method Update(s: Handle, since': Option<int>)
      modifies this
      ensures Fields() == Updated(old(Fields()), s, since') && (old(Valid()) ==> Valid())
    {
      since := since[s := since'];
    }

    /** `resubscribe`: on an open connection the owner stops running and waits for a new reply. */
    method Resubscribe(s: Handle)
      modifies this
      ensures Fields() == Resubscribed(old(Fields()), s)
      ensures old(Valid() && s < nextHandle && !Outstanding(Fields(), connStart, s)) ==>
                Valid() && (state.Open? ==> Outstanding(Fields(), connStart, s) && forall id: SubId :: !RunsUnder(s, id))
    {
      ResubscribedOwner(Fields(), connStart, s);
      if !state.Open? {
        return;
      }
      if s in subIds {
        bySubId := bySubId - {subIds[s]};
        subIds := subIds - {s};
      }
      SendSubscribeRequest(s);
    }

    /** `ws.onopen`: every subscription waits for a reply on the new connection and none runs. */
    method OnOpen()
      modifies this
      ensures Fields() == Opened(old(Fields())) && connStart == old(nextReq)
      ensures old(Valid() && state.Connecting?) ==>
                && Valid() && subs == old(subs)
                && forall s :: s in subs ==> Outstanding(Fields(), connStart, s) && forall id: SubId :: !RunsUnder(s, id)
    {
      OpenedOwners(Fields(), connStart);
      connStart := nextReq;
      state := Open;
      ghost var start := Fields();
      var all := subs;
      for i := 0 to |all|
        invariant Fields() == SendAll(start, all[..i]) && connStart == old(nextReq)
      {
        assert all[..i + 1][..i] == all[..i];
        subIds := subIds - {all[i]};
        SendSubscribeRequest(all[i]);
      }
      assert all[..|all|] == all;
    }

    /** `ws.onclose`: nothing runs any more, every subscription is kept for the next connection,
        and the client goes on to connect for as long as it is wanted open. */
    method OnClose()
      modifies this
      ensures Fields() == Lost(old(Fields()))
      ensures state == (if old(wantOpen) then Connecting else ConnectionState.Closed) && wantOpen == old(wantOpen)
      ensures pending == old(pending) && since == old(since)
      ensures old(Valid()) ==> Valid() && subs == old(subs) && forall s: Handle, id: SubId :: !RunsUnder(s, id)
    {
      LostOwners(Fields(), connStart);
      ForgetAll();
      state := if wantOpen then Connecting else Closed;
    }

    // Every subscription loses its id, on both sides.
    method ForgetAll()
      modifies this
      ensures Fields() == old(Fields()).(bySubId := map[], subIds := ForgetIds(old(subIds), old(subs)))
      ensures connStart == old(connStart)
    {
      bySubId := map[];
      ghost var before := subIds;
      var all := subs;
      for i := 0 to |all|
        invariant connStart == old(connStart)
        invariant Fields() == old(Fields()).(bySubId := map[], subIds := ForgetIds(before, all[..i]))
      {
        subIds := subIds - {all[i]};
      }
      assert all[..|all|] == all;
    }

    /** `close` */
    method Close()
      modifies this
      ensures Fields() == ShutDown(old(Fields())) && (old(Valid()) ==> Valid())
    {
      wantOpen := false;
      subs, bySubId, pending := [], map[], map[];
      state := Closed;
    }

    /** A reply on the socket. `refused` is the owner to be told of an error. */
    method OnReply(req: ReqId, result: Option<SubId>) returns (refused: Option<Handle>)
      modifies this
      ensures Fields() == Replied(old(Fields()), req, result)
      ensures pending == old(pending) - {req}
      ensures refused == if result == None && req in old(pending) then Some(old(pending)[req]) else None
      ensures old(Valid() && state.Open? && req >= connStart && (result.Some? ==> NewId(Fields(), result.value))) ==>
                && Valid()
                && (req in old(pending) && result.Some? ==>
                      var s, id := old(pending)[req], result.value;
                      if s in subs then RunsUnder(s, id) && !Outstanding(Fields(), connStart, s)
                      else id !in bySubId && sent == old(sent) + [EthUnsubscribe(old(nextReq), id)])
    {
      RepliedOwner(Fields(), connStart, req, result);
      if req !in pending {
        return None;
      }
      var s := pending[req];
      pending := pending - {req};
      if result == None {
        return Some(s);
      }
      if s !in subs {
        SendUnsubscribeRequest(result.value);
        return None;
      }
      subIds := subIds[s := result.value];
      bySubId := bySubId[result.value := s];
      refused := None;
    }

    /** An update on the socket goes to the one subscription running under its id, and to
        nobody when there is none. */
    method OnUpdate(subId: SubId) returns (owner: Option<Handle>)
      ensures owner == if subId in bySubId then Some(bySubId[subId]) else None
      ensures Valid() ==> forall s: Handle :: owner == Some(s) <==> RunsUnder(s, subId)
    {
      owner := if subId in bySubId then Some(bySubId[subId]) else None;
    }

    /** A close frame for a subscription. */
    method OnEnd(subId: SubId, resumeSince: Option<int>) returns (owner: Option<Handle>)
      modifies this
      ensures Fields() == Ended(old(Fields()), subId, resumeSince)
      ensures old(Valid()) ==>
                && Valid() && (forall s: Handle :: owner == Some(s) <==> old(RunsUnder(s, subId)))
                && (forall s: Handle :: !RunsUnder(s, subId))
    {
      EndedOwner(Fields(), connStart, subId, resumeSince);
      if subId !in bySubId {
        return None;
      }
      var s := bySubId[subId];
      bySubId := bySubId - {subId};
      subIds := subIds - {s};
      if resumeSince.Some? {
        since := since[s := resumeSince];
      }
      owner := Some(s);
    }
  }
}
