/** The three handlers of the relay over the connection table: connect
    (register a connection), message (relay a result to the room+mode and reap
    disconnected peers) and disconnect (unregister a connection). */
module Registry {
  import opened Protocol
  import opened Admission
  import opened Messages
  import opened Store

  /** The response to a connect request and the table afterwards. The checks run
      in this order: mode format, room id format, the count scan and the global
      ceiling, the room_mode query and the room's capacity, then the write. */
  function RegisterOutcome(t: Table, maxConnections: int, c: ConnId, p: ConnectParams, fails: set<StoreCall>): (Response, Table)
  {
    var mode := ParseMode(p.mode);
    if mode.None? then (Response(500, ModeFormatError), t)
    else if !RoomIdParamValid(p.roomId) then (Response(500, RoomIdFormatError), t)
    else if Scan in fails then (Response(500, ConnectFailed), t)
    else if |t| >= maxConnections then (Response(403, TooManyConnections), t)
    else if Query in fails then (Response(500, ConnectFailed), t)
    else if RoomIsFull(mode.value, |Members(t, Entry(p.roomId.value, mode.value))|) then
      (Response(500, CapacityExceeded), t)
    else if Put in fails then (Response(500, ConnectFailed), t)
    else (Response(200, Empty), t[c := Entry(p.roomId.value, mode.value)])
  }

  /** A mode that is absent or not one of "1".."6" is refused first, whatever
      the room id, and the table is neither read nor changed. */
  lemma RegisterRejectsBadMode(t: Table, maxConnections: int, c: ConnId, p: ConnectParams, fails: set<StoreCall>)
    requires forall k :: 1 <= k <= 6 ==> p.mode != Some(ModeName(k))
    ensures RegisterOutcome(t, maxConnections, c, p, fails) == (Response(500, ModeFormatError), t)
  {
  }

  /** With a good mode, a room id that is absent or not of the room id form is
      refused before the table is read. */
  lemma RegisterRejectsBadRoomId(t: Table, maxConnections: int, c: ConnId, p: ConnectParams, fails: set<StoreCall>, k: int)
    requires 1 <= k <= 6 && p.mode == Some(ModeName(k))
    requires p.roomId.None? || !IsRoomId(p.roomId.value)
    ensures RegisterOutcome(t, maxConnections, c, p, fails) == (Response(500, RoomIdFormatError), t)
  {
    ParseModeName(k);
  }

  /** A well-formed request is refused with 403 once the table holds the
      global maximum or more. */
  lemma RegisterRejectsAtCeiling(t: Table, maxConnections: int, c: ConnId, p: ConnectParams, fails: set<StoreCall>, k: int)
    requires 1 <= k <= 6 && p.mode == Some(ModeName(k))
    requires p.roomId.Some? && IsRoomId(p.roomId.value)
    requires Scan !in fails && |t| >= maxConnections
    ensures RegisterOutcome(t, maxConnections, c, p, fails) == (Response(403, TooManyConnections), t)
  {
    ParseModeName(k);
  }

  /** A well-formed request below the ceiling is refused when its room+mode
      already holds its mode's capacity: 4 in modes 1, 2, 4, 5 and 2 in modes 3, 6. */
  lemma RegisterRejectsFullRoom(t: Table, maxConnections: int, c: ConnId, p: ConnectParams, fails: set<StoreCall>, k: int)
    requires 1 <= k <= 6 && p.mode == Some(ModeName(k))
    requires p.roomId.Some? && IsRoomId(p.roomId.value)
    requires Scan !in fails && Query !in fails && |t| < maxConnections
    requires |Members(t, Entry(p.roomId.value, k))| >= Capacity(k)
    ensures RegisterOutcome(t, maxConnections, c, p, fails) == (Response(500, CapacityExceeded), t)
  {
    ParseModeName(k);
  }

  /** A well-formed request below the ceiling, into a room+mode with a free
      seat, records `c ↦ (room, mode)` and answers 200; a record that `c` had
      before is overwritten and every other record stays as it was. */
  lemma RegisterAdmits(t: Table, maxConnections: int, c: ConnId, p: ConnectParams, fails: set<StoreCall>, k: int)
    requires 1 <= k <= 6 && p.mode == Some(ModeName(k))
    requires p.roomId.Some? && IsRoomId(p.roomId.value)
    requires Scan !in fails && Query !in fails && Put !in fails && |t| < maxConnections
    requires |Members(t, Entry(p.roomId.value, k))| < Capacity(k)
    ensures var (r, t') := RegisterOutcome(t, maxConnections, c, p, fails);
      && r == Response(200, Empty)
      && t'.Keys == t.Keys + {c} && t'[c] == Entry(p.roomId.value, k)
      && forall id :: id in t && id != c ==> t'[id] == t[id]
  {
    ParseModeName(k);
  }

  /** A connect request changes the table only when it answers 200, and then
      only by recording the caller in a room+mode that had a free seat. */
  lemma RegisterChangesOnlyOnSuccess(t: Table, maxConnections: int, c: ConnId, p: ConnectParams, fails: set<StoreCall>)
    ensures var (r, t') := RegisterOutcome(t, maxConnections, c, p, fails);
      && (r.status != 200 ==> t' == t && r.body != Empty)
      && (r.status == 200 ==>
            r.body == Empty && Scan !in fails && Query !in fails && Put !in fails &&
            |t| < maxConnections && p.roomId.Some? && IsRoomId(p.roomId.value) &&
            exists k :: 1 <= k <= 6 && p.mode == Some(ModeName(k)) &&
              |Members(t, Entry(p.roomId.value, k))| < Capacity(k) &&
              t' == t[c := Entry(p.roomId.value, k)])
  {
    var (r, t') := RegisterOutcome(t, maxConnections, c, p, fails);
    if r.status == 200 {
      var k := ParseMode(p.mode).value;
      assert 1 <= k <= 6 && p.mode == Some(ModeName(k));
    }
  }

  /** Admission keeps the registry consistent: no room+mode goes over its
      capacity, the table stays within the global maximum, and only room ids
      of the room id form are recorded. */
  lemma RegisterKeepsConsistent(t: Table, maxConnections: int, c: ConnId, p: ConnectParams, fails: set<StoreCall>)
    requires Consistent(t, maxConnections)
    ensures Consistent(RegisterOutcome(t, maxConnections, c, p, fails).1, maxConnections)
  {
    var (r, t') := RegisterOutcome(t, maxConnections, c, p, fails);
    if r.status == 200 {
      var e := Entry(p.roomId.value, ParseMode(p.mode).value);
      assert t' == t[c := e];
      PutKeepsWithinCapacity(t, c, e);
      assert t'.Keys == t.Keys + {c};
      assert |t'.Keys| <= |t.Keys| + 1;
    }
  }

  /** The response to a disconnect and the table afterwards: the record is
      deleted, whether or not there is one. */
  function UnregisterOutcome(t: Table, c: ConnId, fails: set<StoreCall>): (Response, Table)
  {
    if Delete(c) in fails then (Response(500, ConnectFailed), t)
    else (Response(200, Empty), t - {c})
  }

  /** A disconnect answers 200 and removes exactly the caller's record, unless
      the delete fails, which answers 500 and changes nothing. */
  lemma UnregisterRemovesOnlyCaller(t: Table, c: ConnId, fails: set<StoreCall>)
    ensures var (r, t') := UnregisterOutcome(t, c, fails);
      && (Delete(c) in fails ==> r == Response(500, ConnectFailed) && t' == t)
      && (Delete(c) !in fails ==>
            r == Response(200, Empty) && c !in t' && t'.Keys == t.Keys - {c} &&
            forall id :: id in t' ==> t'[id] == t[id])
  {
  }

  /** Disconnecting twice has the effect of disconnecting once, and
      disconnecting an id that has no record answers 200 and changes nothing. */
  lemma UnregisterIdempotent(t: Table, c: ConnId)
    ensures UnregisterOutcome(UnregisterOutcome(t, c, {}).1, c, {}) == UnregisterOutcome(t, c, {})
    ensures c !in t ==> UnregisterOutcome(t, c, {}) == (Response(200, Empty), t)
  {
    assert t - {c} - {c} == t - {c};
    if c !in t {
      assert t - {c} == t;
    }
  }

  lemma UnregisterKeepsConsistent(t: Table, maxConnections: int, c: ConnId, fails: set<StoreCall>)
    requires Consistent(t, maxConnections)
    ensures Consistent(UnregisterOutcome(t, c, fails).1, maxConnections)
  {
    RemoveKeepsConsistent(t, maxConnections, {c});
  }

  /** Where a message goes: the room+mode it names, when its required fields
      are all truthy and `int(mode)` succeeds. */
  function Destination(msg: Message): Option<Entry> {
    if !HasRequiredFields(msg) then None
    else
      match ModeValue(msg.mode.value)
      case None => None
      case Some(m) => Some(Entry(msg.roomId.value, m))
  }

  /** A non-zero mode sent as the text of a number addresses the same
      room+mode as the number. Zero is the exception: the number 0 is falsy
      and the message is refused, while the text "0" is truthy. */
  lemma ModeTextAddressesSameRoom(msg: Message, n: int)
    requires n != 0
    ensures Destination(msg.(mode := Some(ModeText(FormatInt(n))))) == Destination(msg.(mode := Some(ModeNumber(n))))
  {
    ModeTextMatchesNumber(n);
    FormatNatDigits(if n < 0 then -n else n);
  }

  /** A message reaches the fan-out when it has a destination, the room_mode
      query succeeds and the room+mode has at least one member. */
  predicate HasAudience(t: Table, msg: Message, fails: set<StoreCall>) {
    Destination(msg).Some? && Query !in fails && Members(t, Destination(msg).value) != {}
  }

  /** One attempted send: to whom, and what. */
  datatype Delivery = Delivery(to: ConnId, payload: Payload)

  function Recipients(sent: seq<Delivery>): set<ConnId> {
    set d | d in sent :: d.to
  }

  /** The ids among `ids` whose send reports a disconnected peer. */
  function DisconnectedAmong(ids: set<ConnId>, send: ConnId -> SendOutcome): set<ConnId> {
    set id | id in ids && send(id) == PeerDisconnected
  }

  /** `ids` lists every element of `s` exactly once. */
  predicate Enumerates(ids: seq<ConnId>, s: set<ConnId>) {
    (forall i, j :: 0 <= i < j < |ids| ==> ids[i] != ids[j]) &&
    (forall id :: id in ids ==> id in s) &&
    (forall id :: id in s ==> id in ids)
  }

  /** How far a fan-out got: whether it went through every id, the sends it
      attempted, and the table it left behind. */
  datatype FanOutResult = FanOutResult(completed: bool, sent: seq<Delivery>, table: Table)

  /** The fan-out over `ids` in order, starting from table `t`: each id is sent
      the payload; a disconnected peer's record is deleted; any other outcome
      changes nothing; a delete that fails ends the fan-out on the spot. */
  function FanOutSpec(t: Table, ids: seq<ConnId>, payload: Payload, send: ConnId -> SendOutcome, fails: set<StoreCall>): FanOutResult
    decreases |ids|
  {
    if ids == [] then FanOutResult(true, [], t)
    else
      var r := FanOutSpec(t, ids[..|ids| - 1], payload, send, fails);
      var id := ids[|ids| - 1];
      var sent := r.sent + [Delivery(id, payload)];
      if !r.completed then r
      else if send(id) != PeerDisconnected then FanOutResult(true, sent, r.table)
      else if Delete(id) in fails then FanOutResult(false, sent, r.table)
      else FanOutResult(true, sent, r.table - {id})
  }

  /** Once a failing delete has ended the fan-out, the ids after it are never
      sent to: the fan-out of the whole list is the fan-out of the prefix. */
  lemma {:induction false} FanOutStopsAtFailure(t: Table, ids: seq<ConnId>, k: nat, payload: Payload, send: ConnId -> SendOutcome, fails: set<StoreCall>)
    requires k <= |ids| && !FanOutSpec(t, ids[..k], payload, send, fails).completed
    ensures FanOutSpec(t, ids, payload, send, fails) == FanOutSpec(t, ids[..k], payload, send, fails)
    decreases |ids| - k
  {
    if k < |ids| {
      var prefix := ids[..|ids| - 1];
      assert prefix[..k] == ids[..k];
      FanOutStopsAtFailure(t, prefix, k, payload, send, fails);
    } else {
      assert ids[..k] == ids;
    }
  }

  /** The fan-out sends position by position: the i-th send goes to the i-th
      id. It goes through every id exactly when no disconnected peer's delete
      fails; otherwise its last send went to the first such peer. */
  lemma {:induction false} FanOutSendsInOrder(t: Table, ids: seq<ConnId>, payload: Payload, send: ConnId -> SendOutcome, fails: set<StoreCall>)
    ensures var r := FanOutSpec(t, ids, payload, send, fails);
      && |r.sent| <= |ids|
      && (forall j :: 0 <= j < |r.sent| ==> r.sent[j] == Delivery(ids[j], payload))
      && (r.completed ==> |r.sent| == |ids|)
      && (r.completed <==>
            forall j :: 0 <= j < |ids| && send(ids[j]) == PeerDisconnected ==> Delete(ids[j]) !in fails)
      && (!r.completed ==>
            |r.sent| > 0 && send(ids[|r.sent| - 1]) == PeerDisconnected && Delete(ids[|r.sent| - 1]) in fails &&
            forall j :: 0 <= j < |r.sent| - 1 && send(ids[j]) == PeerDisconnected ==> Delete(ids[j]) !in fails)
    decreases |ids|
  {
    if ids != [] {
      var prefix := ids[..|ids| - 1];
      FanOutSendsInOrder(t, prefix, payload, send, fails);
      var p := FanOutSpec(t, prefix, payload, send, fails);
      if !p.completed {
        assert ids[|p.sent| - 1] == prefix[|p.sent| - 1];
      }
    }
  }

  /** Adding one recipient adds it to the disconnected ones exactly when its
      send reports a disconnected peer. */
  lemma DisconnectedAmongAdd(ids: set<ConnId>, id: ConnId, send: ConnId -> SendOutcome)
    ensures DisconnectedAmong(ids + {id}, send) ==
      if send(id) == PeerDisconnected then DisconnectedAmong(ids, send) + {id} else DisconnectedAmong(ids, send)
  {
  }

  /** A list without repeats sends to its last id only once. */
  lemma LastNotSentBefore(ids: seq<ConnId>, sent: seq<Delivery>, payload: Payload)
    requires |ids| > 0 && |sent| == |ids| - 1
    requires forall i, j :: 0 <= i < j < |ids| ==> ids[i] != ids[j]
    requires forall j :: 0 <= j < |sent| ==> sent[j] == Delivery(ids[j], payload)
    ensures ids[|ids| - 1] !in Recipients(sent)
  {
    forall d | d in sent
      ensures d.to != ids[|ids| - 1]
    {
      var j :| 0 <= j < |sent| && sent[j] == d;
    }
  }

  /** Over a list without repeats, the fan-out deletes exactly the
      disconnected peers it sent to, except the one whose delete failed. */
  lemma {:induction false} FanOutDeletes(t: Table, ids: seq<ConnId>, payload: Payload, send: ConnId -> SendOutcome, fails: set<StoreCall>)
    requires forall i, j :: 0 <= i < j < |ids| ==> ids[i] != ids[j]
    ensures var r := FanOutSpec(t, ids, payload, send, fails);
      && (r.completed ==> r.table == t - DisconnectedAmong(Recipients(r.sent), send))
      && (!r.completed ==>
            |r.sent| > 0 && r.table == t - DisconnectedAmong(Recipients(r.sent) - {r.sent[|r.sent| - 1].to}, send))
    decreases |ids|
  {
    if ids != [] {
      var prefix := ids[..|ids| - 1];
      var id := ids[|ids| - 1];
      FanOutDeletes(t, prefix, payload, send, fails);
      var p := FanOutSpec(t, prefix, payload, send, fails);
      if p.completed {
        FanOutSendsInOrder(t, prefix, payload, send, fails);
        LastNotSentBefore(ids, p.sent, payload);
        var before := Recipients(p.sent);
        var sent := p.sent + [Delivery(id, payload)];
        assert Recipients(sent) == before + {id};
        DisconnectedAmongAdd(before, id, send);
        if send(id) == PeerDisconnected && Delete(id) in fails {
          assert Recipients(sent) - {id} == before;
        } else if send(id) == PeerDisconnected {
          assert p.table - {id} == t - (DisconnectedAmong(before, send) + {id});
        }
      }
    }
  }

  /** The fan-out over the room+mode's members, in whatever order the index
      returns them: one send per member and no other, all with the same
      payload; it completes exactly when no disconnected member's delete fails,
      and then exactly the disconnected members are gone and nothing else
      changed. */
  lemma FanOutOverAudience(t: Table, audience: set<ConnId>, ids: seq<ConnId>, payload: Payload, send: ConnId -> SendOutcome, fails: set<StoreCall>)
    requires Enumerates(ids, audience)
    ensures var r := FanOutSpec(t, ids, payload, send, fails);
      && (forall i, j :: 0 <= i < j < |r.sent| ==> r.sent[i].to != r.sent[j].to)
      && (forall d :: d in r.sent ==> d.to in audience && d.payload == payload)
      && (r.completed <==> forall id :: id in audience && send(id) == PeerDisconnected ==> Delete(id) !in fails)
      && (r.completed ==> Recipients(r.sent) == audience && r.table == t - DisconnectedAmong(audience, send))
  {
    FanOutSendsInOrder(t, ids, payload, send, fails);
    FanOutDeletes(t, ids, payload, send, fails);
    var r := FanOutSpec(t, ids, payload, send, fails);
    forall d | d in r.sent
      ensures d.to in audience && d.payload == payload
    {
      var j :| 0 <= j < |r.sent| && r.sent[j] == d;
    }
    if r.completed {
      forall id | id in audience
        ensures id in Recipients(r.sent)
      {
        var j :| 0 <= j < |ids| && ids[j] == id;
        assert r.sent[j].to == id;
      }
    } else {
      var j := |r.sent| - 1;
      assert ids[j] in audience;
    }
  }

  /** A fan-out only deletes records, so it keeps the registry consistent. */
  lemma {:induction false} FanOutKeepsConsistent(t: Table, maxConnections: int, ids: seq<ConnId>, payload: Payload, send: ConnId -> SendOutcome, fails: set<StoreCall>)
    requires Consistent(t, maxConnections)
    ensures Consistent(FanOutSpec(t, ids, payload, send, fails).table, maxConnections)
    decreases |ids|
  {
    if ids != [] {
      var prefix := ids[..|ids| - 1];
      FanOutKeepsConsistent(t, maxConnections, prefix, payload, send, fails);
      RemoveKeepsConsistent(FanOutSpec(t, prefix, payload, send, fails).table, maxConnections, {ids[|ids| - 1]});
    }
  }

  /** Something that happens to the table between requests: a connect, a
      disconnect, or the reaping a message's fan-out does. */
  datatype Event =
    | Connect(id: ConnId, params: ConnectParams, fails: set<StoreCall>)
    | Disconnect(id: ConnId, fails: set<StoreCall>)
    | Reap(gone: set<ConnId>)

  function Step(t: Table, maxConnections: int, e: Event): Table {
    match e
    case Connect(id, p, fails) => RegisterOutcome(t, maxConnections, id, p, fails).1
    case Disconnect(id, fails) => UnregisterOutcome(t, id, fails).1
    case Reap(gone) => t - gone
  }

  /** The table after a sequence of events, one request at a time. */
  function Run(t: Table, maxConnections: int, events: seq<Event>): Table
    decreases |events|
  {
    if events == [] then t else Run(Step(t, maxConnections, events[0]), maxConnections, events[1..])
  }

  /** Whatever sequence of requests runs one at a time from a consistent table,
      the table stays consistent: every room+mode within its capacity. */
  lemma {:induction false} RunKeepsConsistent(t: Table, maxConnections: int, events: seq<Event>)
    requires Consistent(t, maxConnections)
    ensures Consistent(Run(t, maxConnections, events), maxConnections)
    decreases |events|
  {
    if events != [] {
      match events[0] {
        case Connect(id, p, fails) => RegisterKeepsConsistent(t, maxConnections, id, p, fails);
        case Disconnect(id, fails) => UnregisterKeepsConsistent(t, maxConnections, id, fails);
        case Reap(gone) => RemoveKeepsConsistent(t, maxConnections, gone);
      }
      RunKeepsConsistent(Step(t, maxConnections, events[0]), maxConnections, events[1..]);
    }
  }

  /** In a consistent table, no room+mode of a known mode holds more members
      than its capacity, including rooms with no record at all. */
  lemma ConsistentBoundsEveryRoom(t: Table, maxConnections: int, key: Entry)
    requires Consistent(t, maxConnections) && 1 <= key.mode <= 6
    ensures |Members(t, key)| <= Capacity(key.mode)
  {
    if Members(t, key) != {} {
      var id :| id in Members(t, key);
      assert t[id] == key;
    }
  }

  /** The registry: the connection table, shared by all handlers, and the
      global connection ceiling. */
  class ConnectionRegistry {
    var table: Table
    const maxConnections: int

    constructor (maxConnections: int)
      ensures this.maxConnections == maxConnections && table == map[]
      ensures WithinCapacity(table)
      ensures maxConnections >= 0 ==> Consistent(table, maxConnections)
    {
      this.maxConnections := maxConnections;
      table := map[];
    }

    /** The room_mode index query: the members of `key`, each once, in an
        order the store chooses. */
    method QueryRoomMode(key: Entry) returns (ids: seq<ConnId>)
      ensures Enumerates(ids, Members(table, key))
      ensures |ids| == |Members(table, key)|
    {
      var pending := Members(table, key);
      ids := [];
      while pending != {}
        invariant pending <= Members(table, key)
        invariant forall id :: id in ids <==> id in Members(table, key) && id !in pending
        invariant forall i, j :: 0 <= i < j < |ids| ==> ids[i] != ids[j]
        invariant |ids| + |pending| == |Members(table, key)|
        decreases |pending|
      {
        var id :| id in pending;
        ids := ids + [id];
        pending := pending - {id};
      }
    }

    /** The connect handler. */
    method Register(c: ConnId, p: ConnectParams, fails: set<StoreCall>) returns (resp: Response)
      modifies this
      ensures (resp, table) == RegisterOutcome(old(table), maxConnections, c, p, fails)
      ensures Consistent(old(table), maxConnections) ==> Consistent(table, maxConnections)
    {
      if Consistent(table, maxConnections) {
        RegisterKeepsConsistent(table, maxConnections, c, p, fails);
      }
      var mode := ParseMode(p.mode);
      if mode.None? {
        return Response(500, ModeFormatError);
      }
      if !RoomIdParamValid(p.roomId) {
        return Response(500, RoomIdFormatError);
      }
      if Scan in fails {
        return Response(500, ConnectFailed);
      }
      var active := |table|;
      if active >= maxConnections {
        return Response(403, TooManyConnections);
      }
      if Query in fails {
        return Response(500, ConnectFailed);
      }
      var key := Entry(p.roomId.value, mode.value);
      var ids := QueryRoomMode(key);
      if RoomIsFull(mode.value, |ids|) {
        return Response(500, CapacityExceeded);
      }
      if Put in fails {
        return Response(500, ConnectFailed);
      }
      table := table[c := key];
      resp := Response(200, Empty);
    }

    /** The disconnect handler. */
    method Unregister(c: ConnId, fails: set<StoreCall>) returns (resp: Response)
      modifies this
      ensures (resp, table) == UnregisterOutcome(old(table), c, fails)
      ensures Consistent(old(table), maxConnections) ==> Consistent(table, maxConnections)
    {
      if Consistent(table, maxConnections) {
        UnregisterKeepsConsistent(table, maxConnections, c, fails);
      }
      if Delete(c) in fails {
        return Response(500, ConnectFailed);
      }
      table := table - {c};
      resp := Response(200, Empty);
    }

    /** The fan-out loop of the message handler, over `ids` in order. */
    method FanOut(ids: seq<ConnId>, payload: Payload, send: ConnId -> SendOutcome, fails: set<StoreCall>)
      returns (completed: bool, sent: seq<Delivery>)
      modifies this
      ensures FanOutSpec(old(table), ids, payload, send, fails) == FanOutResult(completed, sent, table)
    {
      sent := [];
      var i := 0;
      while i < |ids|
        invariant 0 <= i <= |ids|
        invariant FanOutSpec(old(table), ids[..i], payload, send, fails) == FanOutResult(true, sent, table)
      {
        var id := ids[i];
        assert ids[..i + 1][..i] == ids[..i];
        sent := sent + [Delivery(id, payload)];
        if send(id) == PeerDisconnected {
          if Delete(id) in fails {
            FanOutStopsAtFailure(old(table), ids, i + 1, payload, send, fails);
            return false, sent;
          }
          table := table - {id};
        }
        i := i + 1;
      }
      assert ids[..i] == ids;
      completed := true;
    }

    /** The message handler. Without an audience (a required field missing,
        `int(mode)` failing, the room_mode query failing or no member) it
        answers 500, sends nothing and changes nothing. Otherwise it runs the
        fan-out over the members in the order the index returns them and
        answers 200 when the fan-out went through every member, 500 when a
        failing delete stopped it. */
    method Broadcast(msg: Message, send: ConnId -> SendOutcome, fails: set<StoreCall>)
      returns (resp: Response, sent: seq<Delivery>)
      modifies this
      ensures !HasAudience(old(table), msg, fails) ==>
        resp == Response(500, SendFailed) && sent == [] && table == old(table)
      ensures HasAudience(old(table), msg, fails) ==>
        exists ids :: Enumerates(ids, Members(old(table), Destination(msg).value)) &&
          var r := FanOutSpec(old(table), ids, BuildPayload(msg), send, fails);
          && resp == (if r.completed then Response(200, Empty) else Response(500, SendFailed))
          && sent == r.sent && table == r.table
      ensures Consistent(old(table), maxConnections) ==> Consistent(table, maxConnections)
    {
      if !HasRequiredFields(msg) {
        return Response(500, SendFailed), [];
      }
      var mode := ModeValue(msg.mode.value);
      if mode.None? {
        return Response(500, SendFailed), [];
      }
      var key := Entry(msg.roomId.value, mode.value);
      assert Destination(msg) == Some(key);
      if Query in fails {
        return Response(500, SendFailed), [];
      }
      var ids := QueryRoomMode(key);
      if |ids| == 0 {
        assert Members(table, key) == {};
        return Response(500, SendFailed), [];
      }
      var payload := BuildPayload(msg);
      ghost var before := table;
      var completed;
      completed, sent := FanOut(ids, payload, send, fails);
      resp := if completed then Response(200, Empty) else Response(500, SendFailed);
      assert Enumerates(ids, Members(before, key));
      if Consistent(before, maxConnections) {
        FanOutKeepsConsistent(before, maxConnections, ids, payload, send, fails);
      }
    }
  }
}
