/** SteamServer: accepts Steam peer-to-peer connections, keeps each client in a
    registry reachable by its numeric id and by its Steam id, hands out ids from a
    FIFO pool, tells every client when another one joins or leaves, and dispatches
    the messages its clients send. */
module Server {
  import opened Common
  import opened SteamNet
  import opened Connection
  import opened Registry

  /** The events the server raises to the application. */
  datatype ServerEvent =
    | OnClientConnected(id: ushort)
    | OnClientDisconnected(id: ushort)
    | OnMessageReceived(fromId: ushort, messageId: ushort)

  /** ESteamNetworkingConnectionState, as reported by a status-changed callback. */
  datatype SteamConnectionState =
    | StateNone
    | StateConnecting
    | StateFindingRoute
    | StateConnected
    | StateClosedByPeer
    | StateProblemDetectedLocally

  /** A SteamNetConnectionStatusChangedCallback_t: the connection handle, the
      remote peer's Steam id and the new state. */
  datatype StatusChange = StatusChange(conn: Handle, remote: SteamId, state: SteamConnectionState)

  /** What handling received messages produces: raised events and sent messages. */
  datatype Effect = Effect(events: seq<ServerEvent>, sent: seq<Outgoing>) {
    function Then(next: Effect): Effect {
      Effect(events + next.events, sent + next.sent)
    }
  }

  /** What one received message from `from` produces while `cs` are registered:
      data messages reach the application with the sender's id; auto-relay
      messages are forwarded to every other client when relaying is allowed and
      otherwise reach the application; a welcome reply is only checked; the rest
      is ignored. */
  function MessageEffect(cs: seq<SteamConnection>, from: SteamConnection, m: Message, relay: bool): Effect
  {
    match m.header
    case Unreliable | Reliable => Effect([OnMessageReceived(from.id, m.value)], [])
    case UnreliableAutoRelay | ReliableAutoRelay =>
      if relay then Effect([], SendsTo(ExceptId(cs, from.id), m))
      else Effect([OnMessageReceived(from.id, m.value)], [])
    case _ => Effect([], [])
  }

  /** The messages received from one client, handled in the order Steam returned them. */
  function MessagesEffect(cs: seq<SteamConnection>, from: SteamConnection, ms: seq<Message>, relay: bool): Effect
  {
    if ms == [] then Effect([], [])
    else MessagesEffect(cs, from, ms[..|ms| - 1], relay).Then(MessageEffect(cs, from, ms[|ms| - 1], relay))
  }

  /** What ReceiveMessagesOnConnection returns for a client's handle. */
  function Inbox(inbox: map<Handle, seq<Message>>, c: SteamConnection): seq<Message>
  {
    if c.handle in inbox then inbox[c.handle] else []
  }

  /** One tick: the clients in `visited`, in registry order, each with its inbox. */
  function TickEffect(cs: seq<SteamConnection>, visited: seq<SteamConnection>, inbox: map<Handle, seq<Message>>, relay: bool): Effect
  {
    if visited == [] then Effect([], [])
    else
      var last := visited[|visited| - 1];
      TickEffect(cs, visited[..|visited| - 1], inbox, relay).Then(MessagesEffect(cs, last, Inbox(inbox, last), relay))
  }

  lemma ThenAssociative(a: Effect, b: Effect, c: Effect)
    ensures a.Then(b).Then(c) == a.Then(b.Then(c))
  {
    assert a.events + b.events + c.events == a.events + (b.events + c.events);
    assert a.sent + b.sent + c.sent == a.sent + (b.sent + c.sent);
  }

  /** Handling one more message appends its effect. */
  lemma MessagesEffectStep(cs: seq<SteamConnection>, from: SteamConnection, ms: seq<Message>, j: nat, relay: bool)
    requires j < |ms|
    ensures MessagesEffect(cs, from, ms[..j + 1], relay)
            == MessagesEffect(cs, from, ms[..j], relay).Then(MessageEffect(cs, from, ms[j], relay))
  {
    assert ms[..j + 1][..j] == ms[..j];
  }

  /** Visiting one more client appends the effect of its inbox. */
  lemma TickEffectStep(cs: seq<SteamConnection>, visited: seq<SteamConnection>, i: nat, inbox: map<Handle, seq<Message>>, relay: bool)
    requires i < |visited|
    ensures TickEffect(cs, visited[..i + 1], inbox, relay)
            == TickEffect(cs, visited[..i], inbox, relay).Then(MessagesEffect(cs, visited[i], Inbox(inbox, visited[i]), relay))
  {
    assert visited[..i + 1][..i] == visited[..i];
  }

  /** Data messages reach the application one event each, carrying the sender's
      id and the message id, in the order they were received; nothing is sent. */
  lemma {:induction false} DataMessagesInOrder(cs: seq<SteamConnection>, from: SteamConnection, ms: seq<Message>, relay: bool)
    requires forall i :: 0 <= i < |ms| ==> ms[i].header == Unreliable || ms[i].header == Reliable
    ensures MessagesEffect(cs, from, ms, relay).sent == []
    ensures |MessagesEffect(cs, from, ms, relay).events| == |ms|
    ensures forall i :: 0 <= i < |ms| ==>
              MessagesEffect(cs, from, ms, relay).events[i] == OnMessageReceived(from.id, ms[i].value)
  {
    if ms != [] {
      DataMessagesInOrder(cs, from, ms[..|ms| - 1], relay);
    }
  }

  /** With relaying allowed, an auto-relay message raises no event and is
      forwarded once to each registered client whose id differs from the
      sender's, in registry order; the sender itself never gets it back. */
  lemma RelayReachesOthers(cs: seq<SteamConnection>, from: SteamConnection, m: Message)
    requires m.header == UnreliableAutoRelay || m.header == ReliableAutoRelay
    requires from in cs && KeysDistinct(cs)
    ensures MessageEffect(cs, from, m, true).events == []
    ensures MessageEffect(cs, from, m, true).sent == SendsTo(Without(cs, from), m)
    ensures |Without(cs, from)| == |cs| - 1 && KeysDistinct(Without(cs, from))
    ensures forall i :: 0 <= i < |Without(cs, from)| ==> Without(cs, from)[i] in cs && Without(cs, from)[i] != from
    ensures forall i :: 0 <= i < |cs| && cs[i] != from ==> cs[i] in Without(cs, from)
  {
    ExceptIdIsWithout(cs, from);
    WithoutRegistered(cs, from);
    WithoutMembers(cs, from);
  }

  /** For a registry whose keys are distinct, filtering by a registered client's
      id is removing that client. */
  lemma {:induction false} ExceptIdIsWithout(cs: seq<SteamConnection>, c: SteamConnection)
    requires c in cs && KeysDistinct(cs)
    ensures ExceptId(cs, c.id) == Without(cs, c)
  {
    var init, last := cs[..|cs| - 1], cs[|cs| - 1];
    assert cs == init + [last];
    KeysDistinctInit(cs);
    if last == c {
      forall k | 0 <= k < |init|
        ensures init[k].id != c.id
      {
        KeysDistinctAt(cs, k, |cs| - 1);
      }
      ExceptIdNone(init, c.id);
      WithoutAbsent(init, c);
    } else {
      var k :| 0 <= k < |init| && init[k] == c;
      KeysDistinctAt(cs, k, |cs| - 1);
      ExceptIdIsWithout(init, c);
    }
  }

  lemma {:induction false} ExceptIdNone(cs: seq<SteamConnection>, id: ushort)
    requires forall i :: 0 <= i < |cs| ==> cs[i].id != id
    ensures ExceptId(cs, id) == cs
  {
    if cs != [] {
      ExceptIdNone(cs[..|cs| - 1], id);
      assert cs == cs[..|cs| - 1] + [cs[|cs| - 1]];
    }
  }

  /** The id GetAvailableClientId hands out for a pool: its first id, or 0 when
      the pool is empty. */
  function NextClientId(pool: seq<ushort>): ushort
  {
    if |pool| > 0 then pool[0] else 0
  }

  /** `pool` is what is left of `before` once GetAvailableClientId has run: the
      first id was taken, or nothing was when `before` is empty. */
  ghost predicate TookClientId(before: seq<ushort>, pool: seq<ushort>)
  {
    if |before| > 0 then before == [before[0]] + pool else pool == before
  }

  /** `c` is the connection created for a newly connected peer. */
  ghost predicate Joined(c: SteamConnection, id: ushort, steamId: SteamId, conn: Handle)
    reads c
  {
    c.id == id && c.steamId == steamId && c.handle == conn && c.state == Connecting
  }

  class SteamServer {
    /** The Steam API this server calls. */
    const net: Net
    var port: ushort
    var maxClientCount: ushort
    var allowAutoMessageRelay: bool
    /** DoubleKeyDictionary<ushort, CSteamID, SteamConnection>: two indexes over one
        set of records, and `values`, the order in which it enumerates them. */
    var byId: map<ushort, SteamConnection>
    var bySteamId: map<SteamId, SteamConnection>
    var values: seq<SteamConnection>
    /** Client ids not in use, in the order they will be handed out. */
    var availableClientIds: seq<ushort>
    var listenSocket: Handle
    /** Whether the status-changed callback is registered. */
    var callbackRegistered: bool
    /** The events raised so far. */
    var events: seq<ServerEvent>

    /** The registry invariant: the three views of the DoubleKeyDictionary agree. */
    ghost predicate Valid()
      reads this`byId, this`bySteamId, this`values
    {
      Indexed(byId, bySteamId, values)
    }

    /** Every id from 1 to MaxClientCount is either pooled or held by exactly one client. */
    ghost predicate IdsAccounted()
      reads this`availableClientIds, this`values, this`maxClientCount
    {
      Accounted(availableClientIds, values, maxClientCount)
    }

    function ClientCount(): nat
      reads this`byId
    {
      |byId|
    }

    /** The server before Start: nothing registered, nothing pooled (the source
        creates both collections only in Start). */
    constructor (net: Net)
      ensures this.net == net
      ensures values == [] && byId == map[] && bySteamId == map[] && availableClientIds == []
      ensures events == [] && !callbackRegistered && !allowAutoMessageRelay
      ensures maxClientCount == 0 && port == 0 && listenSocket == 0
      ensures Valid() && IdsAccounted()
    {
      this.net := net;
      port, maxClientCount, allowAutoMessageRelay := 0, 0, false;
      byId, bySteamId, values := map[], map[], [];
      availableClientIds := [];
      listenSocket, callbackRegistered, events := 0, false, [];
    }

    /** Start: an empty registry, the pool 1..maxClientCount in ascending order,
        the callback registered and the listen socket Steam created. A failing
        relay initialisation is only logged. */
    method Start(port: ushort, maxClientCount: ushort, listenSocket: Handle)
      requires maxClientCount < 0xFFFF
      modifies this
      ensures this.port == port && this.maxClientCount == maxClientCount
      ensures values == [] && byId == map[] && bySteamId == map[]
      ensures availableClientIds == InitialIds(maxClientCount)
      ensures callbackRegistered && this.listenSocket == listenSocket
      ensures events == old(events) && allowAutoMessageRelay == old(allowAutoMessageRelay)
      ensures Valid() && IdsAccounted()
    {
      this.port := port;
      this.maxClientCount := maxClientCount;
      byId, bySteamId, values := map[], map[], [];
      InitializeClientIds();
      callbackRegistered := true;
      this.listenSocket := listenSocket;
    }

    method InitializeClientIds()
      requires maxClientCount < 0xFFFF
      modifies this`availableClientIds
      ensures availableClientIds == InitialIds(maxClientCount)
    {
      availableClientIds := [];
      var i: ushort := 1;
      while i <= maxClientCount
        invariant 1 <= i <= maxClientCount + 1
        invariant availableClientIds == InitialIds(i - 1)
        decreases maxClientCount - i
      {
        availableClientIds := availableClientIds + [i];
        i := (i + 1) % 0x1_0000;
      }
    }

    /** Takes the first pooled id; with an empty pool, returns 0 (logging an
        error) and leaves the pool as it is. */
    method GetAvailableClientId() returns (id: ushort)
      modifies this`availableClientIds
      ensures id == NextClientId(old(availableClientIds))
      ensures TookClientId(old(availableClientIds), availableClientIds)
    {
      if |availableClientIds| > 0 {
        id := availableClientIds[0];
        availableClientIds := availableClientIds[1..];
        assert old(availableClientIds) == [id] + availableClientIds;
      } else {
        id := 0;
      }
    }

    /** The status-changed callback. A connecting peer is accepted while fewer than
        MaxClientCount clients are registered and otherwise closed with "Server full";
        a connected peer is registered; a peer that closed or failed is torn down
        if its Steam id is registered; every other state is only logged. */
    method OnConnectionStatusChanged(change: StatusChange) returns (outcome: Outcome)
      requires Valid() && callbackRegistered
      modifies this`byId, this`bySteamId, this`values, this`availableClientIds, this`events
      modifies net`sent, net`closed, net`accepted
      ensures Valid()
      ensures change.state == StateConnecting ==>
                && outcome == Pass && unchanged(this) && net.sent == old(net.sent)
                && if old(ClientCount()) < maxClientCount
                   then net.accepted == old(net.accepted) + [change.conn] && net.closed == old(net.closed)
                   else net.closed == old(net.closed) + [Closure(change.conn, "Server full")]
                        && net.accepted == old(net.accepted)
      ensures change.state == StateConnected ==>
                && net.accepted == old(net.accepted) && net.closed == old(net.closed)
                && TookClientId(old(availableClientIds), availableClientIds)
                && (outcome.Pass? <==> NextClientId(old(availableClientIds)) !in old(byId) && change.remote !in old(bySteamId))
      ensures change.state == StateConnected && outcome.Fail? ==>
                && outcome.error == DuplicateKey
                && values == old(values) && byId == old(byId) && bySteamId == old(bySteamId)
                && events == old(events)
                && net.sent == old(net.sent) + [Outgoing(change.conn, WelcomeMessage(NextClientId(old(availableClientIds))))]
      ensures change.state == StateConnected && outcome.Pass? ==>
                && |values| == |old(values)| + 1 && values[..|old(values)|] == old(values)
                && Joined(values[|old(values)|], NextClientId(old(availableClientIds)), change.remote, change.conn)
                && fresh(values[|old(values)|])
                && byId == old(byId)[values[|old(values)|].id := values[|old(values)|]]
                && bySteamId == old(bySteamId)[change.remote := values[|old(values)|]]
                && ClientCount() == old(ClientCount()) + 1
      ensures change.state == StateConnected && outcome.Pass? ==>
                && events == old(events) + [ServerEvent.OnClientConnected(NextClientId(old(availableClientIds)))]
                && net.sent == old(net.sent) + [Outgoing(change.conn, WelcomeMessage(NextClientId(old(availableClientIds))))]
                               + SendsTo(old(values), Message(ClientConnected, NextClientId(old(availableClientIds))))
      ensures (change.state == StateClosedByPeer || change.state == StateProblemDetectedLocally) ==>
                && outcome == Pass && net.accepted == old(net.accepted)
                && if change.remote in old(bySteamId)
                   then var c := old(bySteamId)[change.remote];
                        && values == Without(old(values), c)
                        && availableClientIds == old(availableClientIds) + [c.id]
                        && events == old(events) + [ServerEvent.OnClientDisconnected(c.id)]
                        && net.closed == old(net.closed) + [Closure(c.handle, "Disconnected")]
                        && net.sent == old(net.sent) + SendsTo(values, Message(ClientDisconnected, c.id))
                   else unchanged(this) && net.sent == old(net.sent) && net.closed == old(net.closed)
      ensures (change.state == StateNone || change.state == StateFindingRoute) ==>
                && outcome == Pass && unchanged(this)
                && net.sent == old(net.sent) && net.closed == old(net.closed) && net.accepted == old(net.accepted)
    {
      outcome := Pass;
      match change.state {
        case StateConnecting =>
          if |byId| < maxClientCount {
            net.accepted := net.accepted + [change.conn];
          } else {
            net.Close(change.conn, "Server full");
          }
        case StateConnected =>
          outcome := NewClientConnected(change.remote, change.conn);
        case StateClosedByPeer | StateProblemDetectedLocally =>
          if change.remote in bySteamId {
            LocalDisconnect(bySteamId[change.remote], "Disconnected");
          }
        case _ =>
      }
    }

    /** Registers a newly connected peer: takes an id from the pool, creates its
        connection (which sends the welcome), adds it under both keys, raises
        ClientConnected and tells every earlier client. Adding under a key that is
        already present throws, after the id was taken and the welcome sent. */
    method NewClientConnected(steamId: SteamId, conn: Handle) returns (outcome: Outcome)
      requires Valid()
      modifies this`byId, this`bySteamId, this`values, this`availableClientIds, this`events, net`sent
      ensures Valid()
      ensures TookClientId(old(availableClientIds), availableClientIds)
      ensures outcome.Pass? <==> NextClientId(old(availableClientIds)) !in old(byId) && steamId !in old(bySteamId)
      ensures outcome.Fail? ==>
                && outcome.error == DuplicateKey
                && values == old(values) && byId == old(byId) && bySteamId == old(bySteamId)
                && events == old(events)
                && net.sent == old(net.sent) + [Outgoing(conn, WelcomeMessage(NextClientId(old(availableClientIds))))]
      ensures outcome.Pass? ==>
                && |values| == |old(values)| + 1 && values[..|old(values)|] == old(values)
                && Joined(values[|old(values)|], NextClientId(old(availableClientIds)), steamId, conn)
                && fresh(values[|old(values)|])
      ensures outcome.Pass? ==>
                && byId == old(byId)[values[|old(values)|].id := values[|old(values)|]]
                && bySteamId == old(bySteamId)[steamId := values[|old(values)|]]
                && ClientCount() == old(ClientCount()) + 1
      ensures outcome.Pass? ==>
                && events == old(events) + [ServerEvent.OnClientConnected(NextClientId(old(availableClientIds)))]
                && net.sent == old(net.sent) + [Outgoing(conn, WelcomeMessage(NextClientId(old(availableClientIds))))]
                               + SendsTo(old(values), Message(ClientConnected, NextClientId(old(availableClientIds))))
    {
      var id := GetAvailableClientId();
      var c := new SteamConnection(net, steamId, id, conn);
      outcome := Register(c);
    }

    /** The part of NewClientConnected after the connection exists: add it to the
        registry and, when that succeeds, raise ClientConnected and tell every
        earlier client. */
    method Register(c: SteamConnection) returns (outcome: Outcome)
      requires Valid()
      modifies this`byId, this`bySteamId, this`values, this`events, net`sent
      ensures Valid()
      ensures outcome.Pass? <==> c.id !in old(byId) && c.steamId !in old(bySteamId)
      ensures outcome.Fail? ==>
                && outcome.error == DuplicateKey
                && values == old(values) && byId == old(byId) && bySteamId == old(bySteamId)
                && events == old(events) && net.sent == old(net.sent)
      ensures outcome.Pass? ==>
                && values == old(values) + [c]
                && byId == old(byId)[c.id := c] && bySteamId == old(bySteamId)[c.steamId := c]
                && ClientCount() == old(ClientCount()) + 1
                && events == old(events) + [ServerEvent.OnClientConnected(c.id)]
                && net.sent == old(net.sent) + SendsTo(old(values), Message(ClientConnected, c.id))
    {
      ghost var before := values;
      outcome := AddClient(c);
      if outcome.Fail? {
        return;
      }
      Announce(before, c);
    }

    /** OnClientConnected for a newcomer `c` just appended to `before`: the
        notice reaches exactly the clients registered before it. */
    method Announce(ghost before: seq<SteamConnection>, c: SteamConnection)
      requires values == before + [c] && |byId| == |values|
      requires forall i :: 0 <= i < |before| ==> before[i].steamId != c.steamId
      modifies this`events, net`sent
      ensures events == old(events) + [ServerEvent.OnClientConnected(c.id)]
      ensures net.sent == old(net.sent) + SendsTo(before, Message(ClientConnected, c.id))
    {
      NoticeAfterAdd(before, c, Message(ClientConnected, c.id));
      OnClientConnected(c);
    }

    /** DoubleKeyDictionary.Add: the connection goes in under its id and its Steam
        id at once; when either key is already present it throws and nothing is added. */
    method AddClient(c: SteamConnection) returns (outcome: Outcome)
      requires Valid()
      modifies this`byId, this`bySteamId, this`values
      ensures Valid()
      ensures outcome.Pass? <==> c.id !in old(byId) && c.steamId !in old(bySteamId)
      ensures outcome.Fail? ==>
                outcome.error == DuplicateKey && values == old(values) && byId == old(byId) && bySteamId == old(bySteamId)
      ensures outcome.Pass? ==>
                && values == old(values) + [c]
                && byId == old(byId)[c.id := c] && bySteamId == old(bySteamId)[c.steamId := c]
                && |byId| == |old(byId)| + 1
                && forall i :: 0 <= i < |old(values)| ==> old(values)[i].steamId != c.steamId
    {
      if c.id in byId || c.steamId in bySteamId {
        return Fail(DuplicateKey);
      }
      AddKeepsIndexed(byId, bySteamId, values, c);
      byId := byId[c.id := c];
      bySteamId := bySteamId[c.steamId := c];
      values := values + [c];
      outcome := Pass;
    }

    /** Raises ClientConnected and sends the client-connected notice. */
    method OnClientConnected(c: SteamConnection)
      modifies this`events, net`sent
      ensures events == old(events) + [ServerEvent.OnClientConnected(c.id)]
      ensures net.sent == old(net.sent) + (if ClientCount() <= 1 then []
                                           else SendsTo(ExceptSteamId(values, c.steamId), Message(ClientConnected, c.id)))
    {
      events := events + [ServerEvent.OnClientConnected(c.id)];
      SendClientConnected(c.steamId, c.id);
    }

    /** The client-connected notice: skipped when at most one client is
        registered, otherwise sent to every client except the one with `steamId`. */
    method SendClientConnected(steamId: SteamId, id: ushort)
      modifies net`sent
      ensures net.sent == old(net.sent) + (if ClientCount() <= 1 then []
                                           else SendsTo(ExceptSteamId(values, steamId), Message(ClientConnected, id)))
    {
      if |byId| <= 1 {
        return;
      }
      var message := Message(ClientConnected, id);
      for i := 0 to |values|
        invariant net.sent == old(net.sent) + SendsTo(ExceptSteamId(values[..i], steamId), message)
      {
        var client := values[i];
        SendsToExceptSteamIdStep(values, i, steamId, message);
        if client.steamId != steamId {
          net.Send(client.handle, message);
        }
      }
      assert values[..|values|] == values;
    }

    /** Raises ClientDisconnected and sends the client-disconnected notice. */
    method OnClientDisconnected(id: ushort)
      modifies this`events, net`sent
      ensures events == old(events) + [ServerEvent.OnClientDisconnected(id)]
      ensures net.sent == old(net.sent) + SendsTo(values, Message(ClientDisconnected, id))
    {
      events := events + [ServerEvent.OnClientDisconnected(id)];
      SendClientDisconnected(id);
    }

    /** The client-disconnected notice goes to every client still registered. */
    method SendClientDisconnected(id: ushort)
      modifies net`sent
      ensures net.sent == old(net.sent) + SendsTo(values, Message(ClientDisconnected, id))
    {
      var message := Message(ClientDisconnected, id);
      for i := 0 to |values|
        invariant net.sent == old(net.sent) + SendsTo(values[..i], message)
      {
        assert values[..i + 1][..i] == values[..i];
        net.Send(values[i].handle, message);
      }
      assert values[..|values|] == values;
    }

    /** Send to one client: nothing is sent when no client has that id. */
    method Send(message: Message, toClientId: ushort)
      requires Valid()
      modifies net`sent
      ensures net.sent == old(net.sent) + (if toClientId in byId then [Outgoing(byId[toClientId].handle, message)]
                                           else [])
      ensures toClientId in byId ==> byId[toClientId].id == toClientId
    {
      if toClientId in byId {
        net.Send(byId[toClientId].handle, message);
      }
    }

    /** Sends the message once to every registered client, in registry order. */
    method SendToAll(message: Message)
      modifies net`sent
      ensures net.sent == old(net.sent) + SendsTo(values, message)
    {
      for i := 0 to |values|
        invariant net.sent == old(net.sent) + SendsTo(values[..i], message)
      {
        assert values[..i + 1][..i] == values[..i];
        net.Send(values[i].handle, message);
      }
      assert values[..|values|] == values;
    }

    /** Sends the message once to every registered client whose id differs from
        `exceptToClientId`, in registry order. */
    method SendToAllExcept(message: Message, exceptToClientId: ushort)
      modifies net`sent
      ensures net.sent == old(net.sent) + SendsTo(ExceptId(values, exceptToClientId), message)
    {
      for i := 0 to |values|
        invariant net.sent == old(net.sent) + SendsTo(ExceptId(values[..i], exceptToClientId), message)
      {
        var client := values[i];
        SendsToExceptIdStep(values, i, exceptToClientId, message);
        if client.id != exceptToClientId {
          net.Send(client.handle, message);
        }
      }
      assert values[..|values|] == values;
    }

    /** Kicks a client: tears it down and then returns its id to the pool a second
        time. For an id that is not registered, the warning reads the missing
        client's Steam id and throws a null reference. */
    method DisconnectClient(clientId: ushort) returns (outcome: Outcome)
      requires Valid()
      modifies this`byId, this`bySteamId, this`values, this`availableClientIds, this`events
      modifies net`sent, net`closed
      ensures Valid()
      ensures clientId !in old(byId) ==>
                outcome == Fail(NullReference) && unchanged(this)
                && net.sent == old(net.sent) && net.closed == old(net.closed)
      ensures clientId in old(byId) ==>
                var c := old(byId)[clientId];
                && outcome == Pass
                && values == Without(old(values), c) && ClientCount() == old(ClientCount()) - 1
                && byId == old(byId) - {clientId} && bySteamId == old(bySteamId) - {c.steamId}
                && availableClientIds == old(availableClientIds) + [clientId] + [clientId]
                && events == old(events) + [ServerEvent.OnClientDisconnected(clientId)]
                && net.closed == old(net.closed) + [Closure(c.handle, "Kicked by server")]
                && net.sent == old(net.sent) + SendsTo(values, Message(ClientDisconnected, clientId))
    {
      if clientId in byId {
        var client := byId[clientId];
        assert client.id == clientId && client in values;
        Kick(client);
        outcome := Pass;
      } else {
        outcome := Fail(NullReference);
      }
    }

    /** The registered branch of DisconnectClient: LocalDisconnect with "Kicked by
        server", then the id is appended to the pool once more. */
    method Kick(client: SteamConnection)
      requires Valid() && client in values
      modifies this`byId, this`bySteamId, this`values, this`availableClientIds, this`events
      modifies net`sent, net`closed
      ensures Valid()
      ensures values == Without(old(values), client) && |values| == |old(values)| - 1
      ensures byId == old(byId) - {client.id} && bySteamId == old(bySteamId) - {client.steamId}
      ensures availableClientIds == old(availableClientIds) + [client.id] + [client.id]
      ensures events == old(events) + [ServerEvent.OnClientDisconnected(client.id)]
      ensures net.closed == old(net.closed) + [Closure(client.handle, "Kicked by server")]
      ensures net.sent == old(net.sent) + SendsTo(values, Message(ClientDisconnected, client.id))
    {
      LocalDisconnect(client, "Kicked by server");
      availableClientIds := availableClientIds + [client.id];
    }

    /** Tears a registered client down: closes its handle, removes it under both
        keys, raises ClientDisconnected, tells the remaining clients and appends
        its id to the end of the pool. */
    method LocalDisconnect(client: SteamConnection, reason: string)
      requires Valid() && client in values
      modifies this`byId, this`bySteamId, this`values, this`availableClientIds, this`events
      modifies net`sent, net`closed
      ensures Valid()
      ensures net.closed == old(net.closed) + [Closure(client.handle, reason)]
      ensures values == Without(old(values), client) && |values| == |old(values)| - 1
      ensures byId == old(byId) - {client.id} && bySteamId == old(bySteamId) - {client.steamId}
      ensures events == old(events) + [ServerEvent.OnClientDisconnected(client.id)]
      ensures net.sent == old(net.sent) + SendsTo(values, Message(ClientDisconnected, client.id))
      ensures availableClientIds == old(availableClientIds) + [client.id]
    {
      net.Close(client.handle, reason);
      RemoveClient(client);
      Depart(client.id);
    }

    /** The tail of LocalDisconnect, once the client is out of the registry:
        ClientDisconnected is raised, the remaining clients are told, and the id
        goes to the end of the pool. */
    method Depart(id: ushort)
      modifies this`events, this`availableClientIds, net`sent
      ensures events == old(events) + [ServerEvent.OnClientDisconnected(id)]
      ensures net.sent == old(net.sent) + SendsTo(values, Message(ClientDisconnected, id))
      ensures availableClientIds == old(availableClientIds) + [id]
    {
      OnClientDisconnected(id);
      availableClientIds := availableClientIds + [id];
    }

    /** DoubleKeyDictionary.Remove(id, steamId): both index entries go together. */
    method RemoveClient(client: SteamConnection)
      requires Valid() && client in values
      modifies this`byId, this`bySteamId, this`values
      ensures Valid()
      ensures values == Without(old(values), client) && |values| == |old(values)| - 1
      ensures byId == old(byId) - {client.id} && bySteamId == old(bySteamId) - {client.steamId}
    {
      RemoveKeepsIndexed(byId, bySteamId, values, client);
      values := Without(values, client);
      byId := byId - {client.id};
      bySteamId := bySteamId - {client.steamId};
      WithoutRegistered(old(values), client);
    }

    /** Shutdown: closes every client's handle with "Server stopped.", empties the
        registry and closes the listen socket. No event is raised and the pool is
        left as it is. */
    method Shutdown()
      modifies this`byId, this`bySteamId, this`values, this`callbackRegistered
      modifies net`closed, net`closedListenSockets
      ensures Valid() && !callbackRegistered
      ensures values == [] && byId == map[] && bySteamId == map[]
      ensures net.closed == old(net.closed) + ClosuresOf(old(values), "Server stopped.")
      ensures net.closedListenSockets == old(net.closedListenSockets) + [listenSocket]
    {
      callbackRegistered := false;
      for i := 0 to |values|
        invariant net.closed == old(net.closed) + ClosuresOf(values[..i], "Server stopped.")
        modifies net`closed
      {
        assert values[..i + 1][..i] == values[..i];
        net.Close(values[i].handle, "Server stopped.");
      }
      assert values[..|values|] == values;
      byId, bySteamId, values := map[], map[], [];
      net.closedListenSockets := net.closedListenSockets + [listenSocket];
    }

    /** Tick: every registered client, in registry order, has the messages Steam
        returns for its handle dispatched in the order they were received. */
    method HandleMessages(inbox: map<Handle, seq<Message>>)
      modifies this`events, net`sent
      ensures Effect(events, net.sent)
              == Effect(old(events), old(net.sent)).Then(TickEffect(values, values, inbox, allowAutoMessageRelay))
    {
      for i := 0 to |values|
        invariant Effect(events, net.sent)
                  == Effect(old(events), old(net.sent)).Then(TickEffect(values, values[..i], inbox, allowAutoMessageRelay))
      {
        var client := values[i];
        HandleClientMessages(client, Inbox(inbox, client));
        TickEffectStep(values, values, i, inbox, allowAutoMessageRelay);
        ThenAssociative(Effect(old(events), old(net.sent)), TickEffect(values, values[..i], inbox, allowAutoMessageRelay),
                        MessagesEffect(values, client, Inbox(inbox, client), allowAutoMessageRelay));
      }
      assert values[..|values|] == values;
    }

    /** The messages one client sent this tick, handled in the order Steam returned them. */
    method HandleClientMessages(client: SteamConnection, messages: seq<Message>)
      modifies this`events, net`sent
      ensures Effect(events, net.sent)
              == Effect(old(events), old(net.sent)).Then(MessagesEffect(values, client, messages, allowAutoMessageRelay))
    {
      ghost var start := Effect(events, net.sent);
      for j := 0 to |messages|
        invariant Effect(events, net.sent) == start.Then(MessagesEffect(values, client, messages[..j], allowAutoMessageRelay))
      {
        HandleMessage(client, messages[j]);
        MessagesEffectStep(values, client, messages, j, allowAutoMessageRelay);
        ThenAssociative(start, MessagesEffect(values, client, messages[..j], allowAutoMessageRelay),
                        MessageEffect(values, client, messages[j], allowAutoMessageRelay));
      }
      assert messages[..|messages|] == messages;
    }

    /** Dispatches one received message by its header. */
    method HandleMessage(client: SteamConnection, message: Message)
      modifies this`events, net`sent
      ensures Effect(events, net.sent)
              == Effect(old(events), old(net.sent)).Then(MessageEffect(values, client, message, allowAutoMessageRelay))
    {
      match message.header {
        case Unreliable | Reliable =>
          events := events + [ServerEvent.OnMessageReceived(client.id, message.value)];
        case UnreliableAutoRelay | ReliableAutoRelay =>
          if allowAutoMessageRelay {
            SendToAllExcept(message, client.id);
          } else {
            events := events + [ServerEvent.OnMessageReceived(client.id, message.value)];
          }
        case Welcome =>
          var _ := client.HandleWelcomeReceived(message);
        case _ =>
      }
    }
  }

  /** The two keys of a valid registry agree: the connection found under an id is
      found under its Steam id too, and the other way round. */
  lemma KeysAgree(s: SteamServer)
    requires s.Valid()
    ensures forall k :: k in s.byId ==> s.byId[k].steamId in s.bySteamId && s.bySteamId[s.byId[k].steamId] == s.byId[k]
    ensures forall t :: t in s.bySteamId ==> s.bySteamId[t].id in s.byId && s.byId[s.bySteamId[t].id] == s.bySteamId[t]
  {
  }
}
