/** SteamConnection: the server's record of one connected client. Its identity
    (Id, SteamId and Steam handle) is fixed at construction; only its state changes. */
module Connection {
  import opened Common
  import opened SteamNet

  /** The welcome a server sends to a client: a Welcome header and the client's id. */
  function WelcomeMessage(id: ushort): Message
  {
    Message(Welcome, id)
  }

  class SteamConnection {
    const id: ushort
    const steamId: SteamId
    const handle: Handle
    /** The Steam API the owning server sends through. */
    const net: Net
    var state: ConnectionState

    predicate IsNotConnected() reads this { state == NotConnected }
    predicate IsConnecting() reads this { state == Connecting }
    predicate IsConnected() reads this { state == Connected }

    /** Creating a connection puts it in the connecting state and sends the client
        exactly one welcome carrying its id, over the connection's own handle. */
    constructor (net: Net, steamId: SteamId, id: ushort, handle: Handle)
      modifies net`sent
      ensures this.net == net && this.steamId == steamId && this.id == id && this.handle == handle
      ensures state == Connecting
      ensures net.sent == old(net.sent) + [Outgoing(handle, WelcomeMessage(id))]
    {
      this.net := net;
      this.steamId := steamId;
      this.id := id;
      this.handle := handle;
      state := Connecting;
      new;
      SendWelcome();
    }

    method Disconnect()
      modifies this`state
      ensures state == NotConnected
    {
      state := NotConnected;
    }

    method SendWelcome()
      modifies net`sent
      ensures net.sent == old(net.sent) + [Outgoing(handle, WelcomeMessage(id))]
    {
      net.Send(handle, WelcomeMessage(id));
    }

    /** The reply to a welcome echoes an id; a different id is only logged as an
        error (reported here as `mismatch`) and changes nothing. */
    method HandleWelcomeReceived(message: Message) returns (mismatch: bool)
      ensures mismatch <==> message.value != id
    {
      mismatch := id != message.value;
    }
  }

  /** Exactly one of the three state predicates holds for every connection. */
  lemma ExactlyOneState(c: SteamConnection)
    ensures c.IsNotConnected() || c.IsConnecting() || c.IsConnected()
    ensures !(c.IsNotConnected() && c.IsConnecting())
    ensures !(c.IsNotConnected() && c.IsConnected())
    ensures !(c.IsConnecting() && c.IsConnected())
  {
  }
}
