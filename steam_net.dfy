/** The process-wide Steamworks networking API (SteamNetworkingSockets) as the
    transport uses it. Every call the transport makes is recorded here instead of
    being performed; what the API returns is passed to the transport as input. */
module SteamNet {
  import opened Common

  /** A message sent with SendMessageToConnection, at the level of Riptide messages. */
  datatype Outgoing = Outgoing(conn: Handle, message: Message)

  /** A byte buffer handed to SendMessageToConnection with its send flag. */
  datatype Frame = Frame(conn: Handle, bytes: seq<byte>, flag: SendFlag)

  /** A CloseConnection call with its reason text. */
  datatype Closure = Closure(conn: Handle, reason: string)

  /** A native SteamNetworkingMessage_t: m_cbSize is |data|. */
  datatype NativeMessage = NativeMessage(data: seq<byte>)

  class Net {
    /** SendMessageToConnection calls made on behalf of Riptide messages. */
    var sent: seq<Outgoing>
    /** SendMessageToConnection calls made with raw byte buffers. */
    var frames: seq<Frame>
    /** CloseConnection calls. */
    var closed: seq<Closure>
    /** AcceptConnection calls. */
    var accepted: seq<Handle>
    /** CloseListenSocket calls. */
    var closedListenSockets: seq<Handle>
    /** SteamNetworkingMessage_t.Release calls. */
    var released: seq<NativeMessage>

    constructor ()
      ensures sent == [] && frames == [] && closed == []
      ensures accepted == [] && closedListenSockets == [] && released == []
    {
      sent, frames, closed := [], [], [];
      accepted, closedListenSockets, released := [], [], [];
    }

    /** SendMessageToConnection for a Riptide message. */
    method Send(conn: Handle, message: Message)
      modifies this`sent
      ensures sent == old(sent) + [Outgoing(conn, message)]
    {
      sent := sent + [Outgoing(conn, message)];
    }

    /** CloseConnection(conn, 0, reason, false). */
    method Close(conn: Handle, reason: string)
      modifies this`closed
      ensures closed == old(closed) + [Closure(conn, reason)]
    {
      closed := closed + [Closure(conn, reason)];
    }
  }
}
