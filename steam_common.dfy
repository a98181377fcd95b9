/** The helpers the Steam server and client share (the C# base class SteamCommon):
    choosing the send flag, handing a message's written bytes to Steam, and copying
    a received native message into a Riptide message buffer. */
module SteamCommon {
  import opened Common
  import opened SteamNet

  /** The most messages one ReceiveMessagesOnConnection call may return. */
  const MaxMessages: nat := 256

  /** The Steam send flag for a Riptide send mode: reliable messages go reliably,
      every other mode unreliably. */
  function SendFlagFor(mode: SendMode): (flag: SendFlag)
    ensures flag == FlagReliable <==> mode == SendReliable
    ensures flag == FlagUnreliable <==> mode != SendReliable
  {
    if mode == SendReliable then FlagReliable else FlagUnreliable
  }

  /** How many bytes of a `size`-byte payload fit into a `capacity`-byte buffer:
      the whole payload when it fits, otherwise exactly the buffer. */
  function Clamp(size: nat, capacity: nat): (n: nat)
    ensures n <= size && n <= capacity
    ensures n == size || n == capacity
    ensures size <= capacity ==> n == size
  {
    if size > capacity then capacity else size
  }

  /** A pooled Riptide message: its fixed-size buffer and the fields the transport
      reads (WrittenLength, SendMode) or sets (through PrepareForUse). */
  class RawMessage {
    const bytes: array<byte>
    var writtenLength: nat
    var sendMode: SendMode
    var preparedHeader: byte
    var preparedLength: ushort

    constructor (bytes: array<byte>, writtenLength: nat, sendMode: SendMode)
      ensures this.bytes == bytes && this.writtenLength == writtenLength && this.sendMode == sendMode
      ensures preparedHeader == 0 && preparedLength == 0
    {
      this.bytes := bytes;
      this.writtenLength := writtenLength;
      this.sendMode := sendMode;
      preparedHeader, preparedLength := 0, 0;
    }
  }

  /** `new byte[n]` followed by Array.Copy(src, dst, n). */
  method CopyPrefix(src: array<byte>, n: nat) returns (dst: array<byte>)
    requires n <= src.Length
    ensures dst.Length == n
    ensures dst[..] == src[..n]
  {
    dst := new byte[n];
    for i := 0 to n
      invariant forall k :: 0 <= k < i ==> dst[k] == src[k]
    {
      dst[i] := src[i];
    }
  }

  /** Marshal.Copy(source, dst, 0, n): the first n bytes of dst are overwritten. */
  method CopyInto(dst: array<byte>, source: seq<byte>, n: nat)
    requires n <= |source| && n <= dst.Length
    modifies dst
    ensures dst[..n] == source[..n]
    ensures dst[n..] == old(dst[n..])
  {
    for i := 0 to n
      invariant forall k :: 0 <= k < i ==> dst[k] == source[k]
      invariant forall k :: n <= k < dst.Length ==> dst[k] == old(dst[k])
    {
      dst[i] := source[i];
    }
  }

  /** SteamSend: hands exactly the first WrittenLength bytes of the message to Steam
      with the flag of its send mode, and returns Steam's result unchanged (a result
      other than OK is only logged). */
  method SteamSend(net: Net, message: RawMessage, conn: Handle, result: EResult) returns (res: EResult)
    requires message.writtenLength <= message.bytes.Length
    modifies net`frames
    ensures net.frames == old(net.frames)
                          + [Frame(conn, message.bytes[..message.writtenLength], SendFlagFor(message.sendMode))]
    ensures res == result
  {
    var data := CopyPrefix(message.bytes, message.writtenLength);
    var sendFlag := SendFlagFor(message.sendMode);
    net.frames := net.frames + [Frame(conn, data[..], sendFlag)];
    res := result;
  }

  /** SteamProcessMessage: copies a received payload into the message buffer,
      truncated to the buffer when it is longer, reads the header from byte 0,
      prepares the message and releases the native message. As written, both
      branches pass the buffer's length, not the received size, to PrepareForUse. */
  method SteamProcessMessage(net: Net, native: NativeMessage, message: RawMessage) returns (header: byte)
    requires message.bytes.Length > 0
    modifies message.bytes, message`preparedHeader, message`preparedLength, net`released
    ensures var n := Clamp(|native.data|, message.bytes.Length);
            && message.bytes[..n] == native.data[..n]
            && message.bytes[n..] == old(message.bytes[n..])
    ensures header == if |native.data| > 0 then native.data[0] else old(message.bytes[0])
    ensures message.preparedHeader == header
    ensures message.preparedLength == message.bytes.Length % 0x1_0000
    ensures net.released == old(net.released) + [native]
  {
    if |native.data| > message.bytes.Length {
      CopyInto(message.bytes, native.data, message.bytes.Length);
      header := message.bytes[0];
      message.preparedHeader, message.preparedLength := header, message.bytes.Length % 0x1_0000;
    } else {
      CopyInto(message.bytes, native.data, |native.data|);
      header := message.bytes[0];
      message.preparedHeader, message.preparedLength := header, message.bytes.Length % 0x1_0000;
    }
    net.released := net.released + [native];
  }
}
