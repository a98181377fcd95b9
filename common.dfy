/** Value types shared by every part of the Steam transport: the integer widths of
    the C# source, connection states, Riptide message headers and send modes, and
    the abstract message the connection layer exchanges. */
module Common {

  type byte = x: int | 0 <= x < 0x100
  type ushort = x: int | 0 <= x < 0x1_0000

  /** A 64-bit Steam id (CSteamID / ulong). */
  type SteamId = x: int | 0 <= x < 0x1_0000_0000_0000_0000

  /** A Steam connection or listen-socket handle (a uint); 0 is the invalid handle. */
  type Handle = x: int | 0 <= x < 0x1_0000_0000

  /** Riptide's ConnectionState; the C# default value is notConnected. */
  datatype ConnectionState = NotConnected | Connecting | Connected

  /** The Riptide header kinds the transport dispatches on; every other header
      (acks, heartbeats, ...) is OtherHeader and falls to a `default:` branch. */
  datatype HeaderType =
    | Unreliable
    | UnreliableAutoRelay
    | Reliable
    | ReliableAutoRelay
    | Welcome
    | ClientConnected
    | ClientDisconnected
    | OtherHeader

  /** A Riptide message as the connection layer sees it: its header and the
      first ushort of its payload (the message id of an application message,
      the client id of a control message). */
  datatype Message = Message(header: HeaderType, value: ushort)

  /** Riptide's MessageSendMode. */
  datatype SendMode = SendUnreliable | SendReliable

  /** The Steamworks send flags k_nSteamNetworkingSend_Unreliable / _Reliable. */
  datatype SendFlag = FlagUnreliable | FlagReliable

  /** Steamworks EResult: OK or any other result code. */
  datatype EResult = ResultOK | ResultOther(code: int)

  /** Exceptions the C# code lets escape, modelled as values. */
  datatype Failure =
    | DuplicateKey      // Dictionary.Add on a key that is already present
    | NullReference     // a member read through a null reference
    | CopyOutOfRange    // Marshal.Copy asked to write past the end of an array

  datatype Outcome = Pass | Fail(error: Failure)

  datatype Option<T> = None | Some(value: T)
}
