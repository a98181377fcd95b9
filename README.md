# RiptideSteamTransport connection layer in Dafny

This project models the connection-lifecycle layer of RiptideSteamTransport. That layer connects the Riptide networking library to Steam's peer-to-peer sockets. The model covers five parts:

- **`SteamServer`** keeps a registry of connected clients. Each client can be looked up by its `ushort` client id and by its Steam id (Riptide's `DoubleKeyDictionary`). The server also does the following:
  - hands out client ids from a FIFO pool holding `1..MaxClientCount`;
  - accepts or rejects incoming connections against that capacity;
  - tells every client when another client joins or leaves;
  - dispatches received messages by their header.
- **`SteamClient`** connects in one of two ways: to a host given as a decimal Steam id, or to a server in the same process over a loopback socket pair. It then does the following:
  - filters status callbacks by its host handle;
  - defers messages that arrive before it counts as connected, and handles them in arrival order once it does;
  - answers the server's welcome;
  - disconnects idempotently.
- **`SteamConnection`** is the server's record of one client. Its identity is fixed, it starts in the connecting state, and it sends the welcome when it is created.
- **`SteamCommon`** holds the helpers shared by server and client. It maps a send mode to a Steam send flag, hands the written prefix of a message to Steam, and copies a received native message into a Riptide message buffer.
- **`SteamPeer`** holds the receive loop, which drains native messages into one shared receive buffer, and the raw unreliable send.

## How Steam and the application appear in the model

- **Calls into Steam.** The class `SteamNet.Net` records the Steamworks calls the transport makes, one sequence per kind of call, each in call order:
  - `SendMessageToConnection`, for Riptide messages (`sent`) and for raw byte buffers (`frames`);
  - `CloseConnection` with its reason (`closed`);
  - `AcceptConnection` (`accepted`);
  - `CloseListenSocket`;
  - the release of native messages.
- **What Steam returns** comes in as method parameters:
  - status-changed callbacks;
  - the messages `ReceiveMessagesOnConnection` returns;
  - send results;
  - the socket pair `CreateSocketPair` creates;
  - the handle `ConnectP2P` returns;
  - whether relay initialisation throws.
- **Events for the application** (`ClientConnected`, `MessageReceived`, `Connected`, and so on) are appended to an `events` sequence.
- **Messages, two ways.**
  - The server and client layers see a Riptide message as its header and the first `ushort` of its payload: the message id of a data message, or the client id of a control message.
  - `SteamCommon` and `SteamPeer` work on the bytes themselves.
- **Exceptions.** An exception the C# code lets escape is an `Outcome` value: `Fail(DuplicateKey)`, `Fail(NullReference)` or `Fail(CopyOutOfRange)`.

## Behaviour kept as written

The model does what the code does, including behaviour that looks unintended. Each of the following is stated in a contract or a lemma:

- **A kick returns the id to the pool twice.**
  - `DisconnectClient` appends the id after `LocalDisconnect` has already appended it.
  - `Server.SteamServer.DisconnectClient` states the resulting pool.
  - `Registry.ReleaseTwiceBreaksAccounted` shows that the pool then holds the id twice.
- **Kicking an unknown id throws.** The warning in the unregistered branch reads a member of the null client. `DisconnectClient` returns `Fail(NullReference)` and changes nothing else.
- **An empty pool yields id 0.** `GetAvailableClientId` returns 0 when the pool is empty. Two paths register a client without a capacity check, and both can take id 0 this way:
  - the loopback join (`Client.SteamClient.ConnectLocal`);
  - a `Connected` callback for a peer accepted when the server still had room.

  `Registry.AllocateFromEmptyPool` shows that the registry then holds one client more than `MaxClientCount`.
- **The pool is FIFO, not smallest-free.** Released ids go to the end of the pool.
- **A server-side connection never reaches `Connected`.** `HandleWelcomeReceived` only compares the echoed id.
- **The client is never in the connecting state.** Nothing assigns `connecting`. `Client.SteamClient.Valid` is this fact, and every client method keeps it. As a result `Disconnect` does nothing while a peer-to-peer attempt is still pending.
- **The receive loop copies the full size, not the clamped count.**
  - `SteamPeer.Receive` clamps the byte count it reports, but copies `m_cbSize` bytes.
  - A message longer than the buffer therefore makes `Marshal.Copy` throw, and the loop stops at that message.
  - So the clamped count never differs from the size of a message that was delivered (`Peer.ReceiveFailsIffOversize`, `Peer.ReceiveDeliversInOrder`).
- **The received length is not passed on.** `SteamProcessMessage` passes the buffer length, not the received size, to `PrepareForUse` in both branches.
- **`SteamPeer.Receive` never releases the native messages it reads.** `SteamCommon.SteamProcessMessage` does release them.

## Model

| member | source | states |
|---|---|---|
| Connection.SteamConnection.constructor | Assets/RiptideSteamTransport/Transport/SteamConnection.cs:32-41 | id, Steam id and handle are the given ones and cannot change later; the state starts as connecting; exactly one welcome carrying the id goes out over the connection's own handle |
| Connection.SteamConnection.Disconnect | Assets/RiptideSteamTransport/Transport/SteamConnection.cs:43-46 | the state becomes not connected |
| Connection.SteamConnection.SendWelcome | Assets/RiptideSteamTransport/Transport/SteamConnection.cs:50-56 | exactly one welcome with the connection's id is sent over its handle |
| Connection.SteamConnection.HandleWelcomeReceived | Assets/RiptideSteamTransport/Transport/SteamConnection.cs:60-65 | reports a mismatch exactly when the echoed id differs from the connection's id, and changes no state either way |
| Connection.ExactlyOneState | Assets/RiptideSteamTransport/Transport/SteamConnection.cs:21-25 | exactly one of IsNotConnected, IsConnecting and IsConnected holds |
| SteamCommon.SendFlagFor | Assets/RiptideSteamTransport/Transport/SteamCommon.cs:34 | the flag is reliable if and only if the send mode is reliable, and unreliable for every other mode |
| SteamCommon.Clamp | Assets/RiptideSteamTransport/Transport/SteamPeer.cs:43-48 | the count is the size when the payload fits and the capacity otherwise; it never exceeds either |
| SteamCommon.CopyPrefix | Assets/RiptideSteamTransport/Transport/SteamCommon.cs:29-30 | the new array has length n and holds exactly the first n bytes of the source |
| SteamCommon.CopyInto | Assets/RiptideSteamTransport/Transport/SteamCommon.cs:51-57 | the first n bytes of the destination become the source's first n bytes; the rest of the destination is untouched |
| SteamCommon.SteamSend | Assets/RiptideSteamTransport/Transport/SteamCommon.cs:27-41 | one frame goes to Steam: exactly the first WrittenLength bytes, with the flag of the message's send mode; Steam's result comes back unchanged |
| SteamCommon.SteamProcessMessage | Assets/RiptideSteamTransport/Transport/SteamCommon.cs:43-64 | the payload is copied, truncated to the buffer when longer; bytes past the copy keep their old values; the header is byte 0 of the buffer after the copy; the prepared length is the buffer length; the native message is released exactly once |
| Registry.InitialIdsAscending | Assets/RiptideSteamTransport/Transport/SteamServer.cs:256-261 | the pool InitializeClientIds builds is 1, 2, …, MaxClientCount at positions 0 … MaxClientCount-1 |
| Registry.InitialIdsOnce | Assets/RiptideSteamTransport/Transport/SteamServer.cs:256-261 | every id from 1 to MaxClientCount occurs in the initial pool exactly once, and no other id occurs |
| Registry.AccountedFacts | Assets/RiptideSteamTransport/Transport/SteamServer.cs:256-278 | when the pool and the registered ids together make up the initial pool: registry size plus pool size is MaxClientCount, so capacity is not exceeded; pooled ids are in 1..MaxClientCount, free and not duplicated; registered ids are in 1..MaxClientCount |
| Registry.AllocateKeepsAccounted | Assets/RiptideSteamTransport/Transport/SteamServer.cs:265-272 | giving the first pooled id to a new connection keeps that accounting |
| Registry.AllocateFromEmptyPool | Assets/RiptideSteamTransport/Transport/SteamServer.cs:273-277 | registering under id 0 from an empty pool makes the registry one larger than MaxClientCount and breaks the accounting |
| Registry.ReleaseKeepsAccounted | Assets/RiptideSteamTransport/Transport/SteamServer.cs:229-236 | removing a registered client and appending its id once keeps the accounting |
| Registry.ReleaseTwiceBreaksAccounted | Assets/RiptideSteamTransport/Transport/SteamServer.cs:216-227 | appending the id twice, as a kick does, breaks the accounting and leaves the id pooled at least twice |
| Registry.SendsTo | Assets/RiptideSteamTransport/Transport/SteamServer.cs:308-309 | one send per connection, in registry order, each over that connection's handle |
| Registry.ClosuresOf | Assets/RiptideSteamTransport/Transport/SteamServer.cs:247-248 | one CloseConnection with the reason per connection, in registry order |
| Registry.WithoutMembers | Assets/RiptideSteamTransport/Transport/SteamServer.cs:232 | removal keeps exactly the connections other than the removed one |
| Registry.WithoutRegistered | Assets/RiptideSteamTransport/Transport/SteamServer.cs:232 | removing a client registered once shrinks the registry by one, keeps both keys distinct, and drops exactly that client's id |
| Registry.ExceptIdMembers | Assets/RiptideSteamTransport/Transport/SteamServer.cs:207-209 | the filter keeps exactly the connections whose id differs from the excluded id |
| Registry.ExceptSteamIdMembers | Assets/RiptideSteamTransport/Transport/SteamServer.cs:292-296 | the filter keeps exactly the connections whose Steam id differs from the excluded one |
| Registry.NoticeAfterAdd | Assets/RiptideSteamTransport/Transport/SteamServer.cs:284-299 | the client-connected notice for a newcomer reaches exactly the clients registered before it, and nobody when it is the first |
| Registry.AddKeepsIndexed | Assets/RiptideSteamTransport/Transport/SteamServer.cs:120 | adding under two fresh keys keeps both indexes in agreement with the registry and the keys distinct |
| Registry.RemoveKeepsIndexed | Assets/RiptideSteamTransport/Transport/SteamServer.cs:232 | removing a registered client under both keys keeps both indexes in agreement and the keys distinct |
| Server.DataMessagesInOrder | Assets/RiptideSteamTransport/Transport/SteamServer.cs:140-148 | each data message raises one MessageReceived with the sender's id and its message id, in arrival order, and sends nothing |
| Server.RelayReachesOthers | Assets/RiptideSteamTransport/Transport/SteamServer.cs:149-155 | with relaying on, an auto-relay message raises no event, and what is sent is exactly one copy per registered client other than the sender, in registry order: the recipients are the registry without the sender, |cs| - 1 clients with distinct keys, each of them registered and none of them the sender, and every other registered client is among them |
| Server.ExceptIdIsWithout | Assets/RiptideSteamTransport/Transport/SteamServer.cs:207-209 | in a registry with distinct keys, skipping every client with a registered client's id skips exactly that client |
| Server.KeysAgree | Assets/RiptideSteamTransport/Transport/SteamServer.cs:37 | in a consistent registry, the client found under an id is found under its Steam id, and the other way round |
| Server.SteamServer.constructor | Assets/RiptideSteamTransport/Transport/SteamServer.cs:43-46 | a new server has an empty registry and an empty pool (the source leaves both null until Start), no callback and relaying off, and its invariants hold |
| Server.SteamServer.Start | Assets/RiptideSteamTransport/Transport/SteamServer.cs:50-77 | after Start the registry is empty, the pool is 1..MaxClientCount in ascending order, the callback is registered, the listen socket is kept, and the id accounting holds |
| Server.SteamServer.InitializeClientIds | Assets/RiptideSteamTransport/Transport/SteamServer.cs:256-261 | the loop leaves the pool as the initial pool for MaxClientCount |
| Server.SteamServer.GetAvailableClientId | Assets/RiptideSteamTransport/Transport/SteamServer.cs:265-278 | returns and removes the first pooled id; with an empty pool returns 0 and leaves the pool unchanged |
| Server.SteamServer.OnConnectionStatusChanged | Assets/RiptideSteamTransport/Transport/SteamServer.cs:79-114 | called only while the callback is registered. **Connecting:** accepted if and only if ClientCount < MaxClientCount, otherwise closed with "Server full"; the server is unchanged either way. **Connected:** exactly what NewClientConnected states: the head of the pool is taken (nothing from an empty pool) and the welcome carrying it is sent over the new handle; it succeeds if and only if that id and the Steam id are both unregistered, and then the new connection is appended under both keys, ClientConnected is raised and every earlier client is told; otherwise the result is DuplicateKey, the registry and events are unchanged, and only the welcome went out. **Closed or problem:** a registered Steam id is torn down exactly as LocalDisconnect does: it leaves the registry, its id goes to the end of the pool, ClientDisconnected is raised, its connection is closed with "Disconnected" and every remaining client is told of the disconnect; an unknown one changes nothing. **Other states:** change nothing |
| Server.SteamServer.NewClientConnected | Assets/RiptideSteamTransport/Transport/SteamServer.cs:116-122 | **Id:** the first pooled id is taken (or 0). **Success iff:** neither key is already present. **Success:** one fresh connecting record is reachable under both keys, ClientCount grows by one, the welcome goes first, then ClientConnected and the notice to earlier clients. **Failure:** the id is still consumed and the welcome still sent, but the registry is unchanged and no event is raised |
| Server.SteamServer.Register | Assets/RiptideSteamTransport/Transport/SteamServer.cs:120-121 | adds the record under both keys if and only if both are free; on success raises ClientConnected and notifies exactly the earlier clients |
| Server.SteamServer.Announce | Assets/RiptideSteamTransport/Transport/SteamServer.cs:121 | the connected event is raised, and the notice reaches exactly the clients registered before the newcomer |
| Server.SteamServer.AddClient | Assets/RiptideSteamTransport/Transport/SteamServer.cs:120 | DoubleKeyDictionary.Add: succeeds if and only if both keys are free, then adds under both; otherwise DuplicateKey and nothing changes |
| Server.SteamServer.OnClientConnected | Assets/RiptideSteamTransport/Transport/SteamServer.cs:319-325 | raises ClientConnected, then sends the notice |
| Server.SteamServer.SendClientConnected | Assets/RiptideSteamTransport/Transport/SteamServer.cs:284-299 | nothing is sent when ClientCount ≤ 1; otherwise one notice goes to every client whose Steam id differs from the newcomer's, in registry order |
| Server.SteamServer.OnClientDisconnected | Assets/RiptideSteamTransport/Transport/SteamServer.cs:336-342 | raises ClientDisconnected, then notifies every registered client |
| Server.SteamServer.SendClientDisconnected | Assets/RiptideSteamTransport/Transport/SteamServer.cs:303-312 | one client-disconnected notice goes to every registered client, in registry order |
| Server.SteamServer.Send | Assets/RiptideSteamTransport/Transport/SteamServer.cs:177-192 | an unknown id sends nothing; a registered id sends once over that client's handle |
| Server.SteamServer.SendToAll | Assets/RiptideSteamTransport/Transport/SteamServer.cs:195-202 | one send per registered client, in registry order |
| Server.SteamServer.SendToAllExcept | Assets/RiptideSteamTransport/Transport/SteamServer.cs:205-213 | one send to each registered client whose id differs from the excluded id, in registry order |
| Server.SteamServer.DisconnectClient | Assets/RiptideSteamTransport/Transport/SteamServer.cs:216-227 | **Unknown id:** Fail(NullReference) with nothing changed. **Registered id:** the client is removed under both keys, ClientCount drops by one, its handle is closed with "Kicked by server", ClientDisconnected is raised, the remaining clients are notified, and the id is appended to the pool twice |
| Server.SteamServer.Kick | Assets/RiptideSteamTransport/Transport/SteamServer.cs:218-224 | the registered branch: LocalDisconnect's effects, then a second copy of the id at the end of the pool |
| Server.SteamServer.LocalDisconnect | Assets/RiptideSteamTransport/Transport/SteamServer.cs:229-236 | closes the client's handle with the reason, removes it under both keys (one client fewer), raises ClientDisconnected, notifies exactly the remaining clients, and appends the id once to the end of the pool |
| Server.SteamServer.Depart | Assets/RiptideSteamTransport/Transport/SteamServer.cs:234-235 | ClientDisconnected is raised, the remaining clients are notified, and the id goes to the end of the pool |
| Server.SteamServer.RemoveClient | Assets/RiptideSteamTransport/Transport/SteamServer.cs:232 | both keys and the record go together, and the registry stays consistent |
| Server.SteamServer.Shutdown | Assets/RiptideSteamTransport/Transport/SteamServer.cs:239-253 | closes every client's handle with "Server stopped." in registry order, empties the registry, unregisters the callback and closes the listen socket; raises no event and leaves the pool alone |
| Server.SteamServer.HandleMessages | Assets/RiptideSteamTransport/Transport/SteamServer.cs:130-168 | the events and sends of a tick are those of each registered client's messages, client by client in registry order, message by message in arrival order |
| Server.SteamServer.HandleClientMessages | Assets/RiptideSteamTransport/Transport/SteamServer.cs:137-165 | one client's messages are dispatched in arrival order |
| Server.SteamServer.HandleMessage | Assets/RiptideSteamTransport/Transport/SteamServer.cs:142-164 | dispatch by header: data messages raise MessageReceived; auto-relay messages are relayed to the other clients, or raise MessageReceived when relaying is off; a welcome reply is only checked; other headers are ignored |
| Client.ParseULongAccepts | Assets/RiptideSteamTransport/Transport/SteamClient.cs:87 | ulong.TryParse reads every string made of white space, an optional sign, at least one digit, white space and trailing NULs: as the digits' value when that fits in 64 bits and is not negative, and as a failure otherwise |
| Client.ParseULongSound | Assets/RiptideSteamTransport/Transport/SteamClient.cs:87 | every string ulong.TryParse accepts has that form, and the result is the value of its digits |
| Client.NotLoopback | Assets/RiptideSteamTransport/Transport/SteamClient.cs:85-88 | no string of that form is "localhost" or "127.0.0.1", so the loopback test never hides a Steam id |
| Client.Classify | Assets/RiptideSteamTransport/Transport/SteamClient.cs:85-90 | loopback if and only if the address is "localhost" or "127.0.0.1"; a Steam address only when it parses as a ulong; invalid exactly when neither |
| Client.DecimalRoundTrip | Assets/RiptideSteamTransport/Transport/SteamClient.cs:87 | reading back the decimal form of a number gives the number |
| Client.ClassifySteamId | Assets/RiptideSteamTransport/Transport/SteamClient.cs:87-88 | every Steam id written in decimal, with optional white space around it, an optional plus sign and trailing NULs, is classified as a connection to that Steam id |
| Client.HandleOne | Assets/RiptideSteamTransport/Transport/SteamClient.cs:209-232 | handling one message adds at most one event and keeps earlier ones; it sends only the welcome reply; only a welcome changes the id, to its payload |
| Client.HandleAllAppend | Assets/RiptideSteamTransport/Transport/SteamClient.cs:195-204 | handling two batches one after the other equals handling their concatenation, so deferral keeps arrival order |
| Client.HandleDataInOrder | Assets/RiptideSteamTransport/Transport/SteamClient.cs:213-216 | data messages raise one MessageReceived each, in arrival order, keeping the id and sending nothing |
| Client.WelcomeEchoesId | Assets/RiptideSteamTransport/Transport/SteamClient.cs:278-293 | a welcome sets the id to its payload, the reply welcome carries that same id, and Connected is raised after the reply |
| Client.DisconnectClosures | Assets/RiptideSteamTransport/Transport/SteamClient.cs:268-272 | a host handle is closed exactly when it is non-zero, once, with "Disconnected" |
| Client.SteamClient.constructor | Assets/RiptideSteamTransport/Transport/SteamClient.cs:52-57 | keeps the local server and timeout; starts not connected with an empty action queue |
| Client.SteamClient.ChangeLocalServer | Assets/RiptideSteamTransport/Transport/SteamClient.cs:59-62 | the local server becomes the given one |
| Client.SteamClient.Connect | Assets/RiptideSteamTransport/Transport/SteamClient.cs:66-91 | **Relay failure or invalid address:** ConnectionFailed is raised, the client is torn down and nothing is sent. **Steam id:** the callback is registered and the host is set, with no other change. **Loopback, no server:** fails like an invalid address. **Loopback, server:** the server gains one client if and only if both keys are free, and the client is then connected |
| Client.SteamClient.TryConnect | Assets/RiptideSteamTransport/Transport/SteamClient.cs:93-106 | registers the callback and records the host Steam id and the peer-to-peer handle |
| Client.SteamClient.TimeoutElapsed | Assets/RiptideSteamTransport/Transport/SteamClient.cs:108-112 | a connected client is unchanged; any other ends not connected and torn down, with ConnectionFailed raised |
| Client.SteamClient.ConnectLocal | Assets/RiptideSteamTransport/Transport/SteamClient.cs:120-143 | **No server:** ConnectionFailed, nothing sent. **Server:** the join succeeds if and only if the pooled id and the Steam id are new to it. **Success:** the server holds the client under that id with its Steam id and handle, one client more; the client is connected with an empty queue; its messages, events and id are those of handling the queue after the welcome and the notices |
| Client.SteamClient.JoinLocalServer | Assets/RiptideSteamTransport/Transport/SteamClient.cs:130-142 | the server branch of ConnectLocal, with the same guarantees |
| Client.SteamClient.OnConnectionStatusChanged | Assets/RiptideSteamTransport/Transport/SteamClient.cs:145-173 | called only while the callback is registered; a callback for another handle changes nothing; connected promotes and drains the queue in order; closed by peer or a locally detected problem tears down and raises Disconnected; other states change nothing |
| Client.SteamClient.ConnectionStatusChangedToConnected | Assets/RiptideSteamTransport/Transport/SteamClient.cs:175-180 | the client becomes connected, and the deferred messages are handled in arrival order and dropped from the queue |
| Client.SteamClient.HandleMessages | Assets/RiptideSteamTransport/Transport/SteamClient.cs:188-207 | **Connected:** the messages are handled in order and the queue is untouched. **Otherwise:** they are appended to the queue in order and nothing is handled |
| Client.SteamClient.Handle | Assets/RiptideSteamTransport/Transport/SteamClient.cs:209-232 | the client's id, events and sends change exactly as handling that one message over the host handle prescribes |
| Client.SteamClient.HandleWelcome | Assets/RiptideSteamTransport/Transport/SteamClient.cs:278-284 | the id becomes the payload, the reply carrying it goes to the host, then Connected is raised |
| Client.SteamClient.SendWelcomeReceived | Assets/RiptideSteamTransport/Transport/SteamClient.cs:287-293 | one welcome with the current id goes over the host handle |
| Client.SteamClient.Send | Assets/RiptideSteamTransport/Transport/SteamClient.cs:240-246 | every message goes once over the host handle |
| Client.SteamClient.Disconnect | Assets/RiptideSteamTransport/Transport/SteamClient.cs:249-256 | a no-op when not connected; otherwise the client is torn down |
| Client.SteamClient.LocalDisconnect | Assets/RiptideSteamTransport/Transport/SteamClient.cs:258-273 | always ends not connected, with no callback and handle 0; closes the old handle only when it was non-zero, so a second call closes nothing |
| Client.SteamClient.ConnectionFailed | Assets/RiptideSteamTransport/Transport/SteamClient.cs:319-325 | tears the client down and then raises ConnectionFailed |
| Peer.Overlay | Assets/RiptideSteamTransport/Transport/SteamPeer.cs:50 | copying into the buffer replaces exactly its prefix; the rest keeps what an earlier message left |
| Peer.ReceiveDeliversInOrder | Assets/RiptideSteamTransport/Transport/SteamPeer.cs:37-52 | when every message fits: the loop completes; empty messages raise nothing; every other message raises one DataReceived, in index order, with its own size as the amount, its bytes at the start of the buffer, and the sender |
| Peer.ReceiveFailsIffOversize | Assets/RiptideSteamTransport/Transport/SteamPeer.cs:41-50 | the loop fails if and only if some message is longer than the buffer, and then with the copy's out-of-range exception |
| Peer.FailureIsFinal | Assets/RiptideSteamTransport/Transport/SteamPeer.cs:37-52 | after the exception, later messages change neither the buffer nor the events |
| Peer.OversizeDropsTheRest | Assets/RiptideSteamTransport/Transport/SteamPeer.cs:44-50 | after an oversize message, the events are exactly those of the messages before it |
| Peer.DeliveryBounds | Assets/RiptideSteamTransport/Transport/SteamPeer.cs:43-51 | every reported amount is positive and at most the buffer length; every event shows a buffer of full length |
| Peer.SteamPeer.constructor | Assets/RiptideSteamTransport/Transport/SteamPeer.cs:24-27 | the receive buffer holds Message.MaxSize + 2 bytes |
| Peer.SteamPeer.Receive | Assets/RiptideSteamTransport/Transport/SteamPeer.cs:29-55 | the array loop leaves the buffer, the raised events and the outcome exactly as Peer.ReceiveAll prescribes for the old buffer and the messages |
| Peer.SteamPeer.Deliver | Assets/RiptideSteamTransport/Transport/SteamPeer.cs:50-51 | the payload overwrites the buffer's prefix, then one DataReceived with the buffer and the amount is raised |
| Peer.SteamPeer.Send | Assets/RiptideSteamTransport/Transport/SteamPeer.cs:57-67 | exactly the first numBytes bytes go to Steam, always with the unreliable flag; a warning is produced exactly when the result is not OK |

## Left out

- **The Steamworks API** (`SteamNetworkingSockets`, `SteamNetworkingUtils.InitRelayNetworkAccess`, `SteamUser.GetSteamID`, `Callback.Create`) is not modelled. Its results are parameters, and its calls are recorded in `SteamNet.Net`.
- **`AcceptConnection`'s result** is only logged by the server, so it is not modelled.
- **Logging** (`RiptideLogger`, `Debug.Log*`) is not modelled. The one log result that matters, a welcome reply with a mismatched id, is returned as a flag.
- **Riptide's `Message` internals** (`GetUShort`, `Add`, `Release`, message pooling, header byte values) are not modelled. The server and client layers see a message as its header and one `ushort`. `SteamCommon` and `SteamPeer` work on bytes. A header byte is not decoded into a `HeaderType`.
- **Message Release calls** after handling are not recorded. Only the native-message release in `SteamProcessMessage` is.
- **The mapping from native messages to Riptide messages** is not connected: the server and client receive loops take the `Message` values that `SteamProcessMessage` would produce as input.
- **A negative `messageCount` from `ReceiveMessagesOnConnection`** (an error) is modelled as no messages, which is what the code does with it.
- **`DoubleKeyDictionary` and `ActionQueue`** are not modelled as objects.
  - The dictionary is two maps plus its enumeration order, which is taken to be insertion order with removals closing the gap. This is the model's choice, not .NET's: after a `Remove`, .NET's `Dictionary` puts the next `Add` in the freed slot, so a later client can be enumerated before earlier ones. After a disconnect, the order of the notices in `SendToAll`, `SendClientConnected` and `Shutdown` is therefore the model's order, not necessarily the program's.
  - The action queue is the sequence of deferred messages, not closures.
- **`FlushMessages`** on both server and client is not modelled: it only forwards to Steam.
- **`async`/`Task.Delay` in `TryConnect`** is not modelled. The wait is the separate `TimeoutElapsed` step, which the caller invokes when the timeout has passed. Exceptions thrown inside `TryConnect` are not modelled.
- **`TimeoutTime`, `Port`, `AllowAutoMessageRelay` and `ShouldOutputInfoLogs`** are plain fields. Their property accessors are not modelled.
- **The ignored custom-data warning in `Connect`** (a non-null `message`) is not modelled. It only logs.
- **`RTT` and `SmoothRTT`** are not modelled: they only throw `NotImplementedException`.
- **The `Clients` array view** of the server is not modelled. The registry order is `values`.
- **`SteamPeer.Receive`'s exception** stops the loop. Whatever the caller does with the exception is not modelled.
- **The Demos scripts and `MessageExtensions.cs`** are not part of this model: they are game code, UI and floating-point serialisation.
- Server.SteamServer.Start: requires MaxClientCount < 65535. With 65535 the `ushort` loop counter in InitializeClientIds wraps to 0 and the loop never ends, and that case is not modelled.
- Server.SteamServer.InitializeClientIds: requires MaxClientCount < 65535, for the same reason.
- Server.SteamServer.constructor: the source leaves `clients` and `availableClientIds` null until Start, so Shutdown, Send, SendToAll, Tick, DisconnectClient and a loopback join before Start throw a NullReferenceException. The model starts with an empty registry and pool instead, so those calls on a server that was never started are not modelled.
- Server.SteamServer.AddClient: the source of `DoubleKeyDictionary` is not part of this model. Its Add is taken to check both keys before changing anything. If it is two `Dictionary.Add` calls in a row, a duplicate Steam id under a fresh id would throw after the id entry was added, and that half-added entry is not modelled.
- Client.ParseULong: models `ulong.TryParse` with `NumberStyles.Integer` under invariant-culture rules. Signs are '+' and '-', white space is U+0009 to U+000D and U+0020, digits are '0' to '9'. Culture-specific sign strings are not modelled.
- Server.SteamServer.NewClientConnected: does not itself state that the id accounting is kept. The pool and registry it leaves are exactly those Registry.AllocateKeepsAccounted and Registry.AllocateFromEmptyPool relate.
- Server.SteamServer.LocalDisconnect: does not itself state that the id accounting is kept. The pool and registry it leaves are exactly those Registry.ReleaseKeepsAccounted relates.
- Server.SteamServer.DisconnectClient: does not itself state that the id accounting breaks. Registry.ReleaseTwiceBreaksAccounted shows it for exactly the pool and registry it leaves.
- Client.SteamClient.Connect: the loopback-with-server case states the outcome, the server's client count and the client's state, not the client's view or the server's events. Client.SteamClient.ConnectLocal states the view.
- Client.SteamClient.ConnectLocal: states the server's client count and the new entry under its id. The server's pool, events and Steam-id index after the join are what Server.SteamServer.NewClientConnected states, and they are not repeated here.
- Client.SteamClient.JoinLocalServer: the same as ConnectLocal.
- Client.SteamClient.Connect and Client.SteamClient.ConnectLocal: may modify the local server object as a whole. The fields they change are named only in JoinLocalServer.
- Peer.SteamPeer.Send: requires numBytes to be at most the buffer length. A larger count makes Steam read past the pinned array, which is not modelled.
- Peer.SteamPeer.Receive: each delivered buffer is a snapshot. Handlers see the shared array, which later messages overwrite; that aliasing is not modelled.
