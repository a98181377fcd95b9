/** SteamPeer: the receive loop that drains one connection's native messages into a
    shared receive buffer and raises DataReceived for each, and the raw send of a
    byte buffer with the unreliable flag. */
module Peer {
  import opened Common
  import opened SteamNet
  import opened SteamCommon
  import opened Connection

  /** One DataReceived event: the shared receive buffer as it stood when the event
      was raised, the amount the handler is told to read, and the sender. */
  datatype Delivery = Delivery(buffer: seq<byte>, amount: nat, from: SteamConnection)

  /** What a Receive call leaves behind: the receive buffer, the events raised in
      order, and whether the loop ran to the end or stopped on an exception. */
  datatype Receipt = Receipt(buffer: seq<byte>, deliveries: seq<Delivery>, outcome: Outcome)

  /** Marshal.Copy of `data` to the start of `buffer`: the prefix is replaced and
      the rest keeps what an earlier message left there. */
  function Overlay(buffer: seq<byte>, data: seq<byte>): (r: seq<byte>)
    requires |data| <= |buffer|
    ensures |r| == |buffer|
    ensures r[..|data|] == data && r[|data|..] == buffer[|data|..]
  {
    data + buffer[|data|..]
  }

  /** One iteration of the receive loop on the payload `data` of one native
      message: after an exception nothing more happens; an empty message is
      skipped; a message longer than the buffer makes Marshal.Copy throw (it is
      asked for the full m_cbSize, not the clamped count), leaving the buffer
      untouched; any other message is copied in and reported with the clamped
      count. */
  function Step(prior: Receipt, data: seq<byte>, from: SteamConnection): (r: Receipt)
    ensures |r.buffer| == |prior.buffer|
  {
    if prior.outcome.Fail? || |data| == 0 then prior
    else if |data| > |prior.buffer| then Receipt(prior.buffer, prior.deliveries, Fail(CopyOutOfRange))
    else
      var after := Overlay(prior.buffer, data);
      Receipt(after, prior.deliveries + [Delivery(after, Clamp(|data|, |prior.buffer|), from)], Pass)
  }

  /** The effect of receiving `messages`, in index order, into `buffer`. */
  function ReceiveAll(buffer: seq<byte>, messages: seq<NativeMessage>, from: SteamConnection): (r: Receipt)
    ensures |r.buffer| == |buffer|
    decreases |messages|
  {
    if messages == [] then Receipt(buffer, [], Pass)
    else Step(ReceiveAll(buffer, messages[..|messages| - 1], from), messages[|messages| - 1].data, from)
  }

  /** Every message fits the receive buffer. */
  predicate AllFit(messages: seq<NativeMessage>, capacity: nat)
  {
    forall i :: 0 <= i < |messages| ==> |messages[i].data| <= capacity
  }

  /** The payloads of the non-empty messages, in the order Steam returned them. */
  function Payloads(messages: seq<NativeMessage>): (r: seq<seq<byte>>)
    ensures |r| <= |messages|
    ensures forall k :: 0 <= k < |r| ==> |r[k]| > 0
    decreases |messages|
  {
    if messages == [] then []
    else
      var data := messages[|messages| - 1].data;
      Payloads(messages[..|messages| - 1]) + (if |data| == 0 then [] else [data])
  }

  /** The step of ReceiveAll for one more message, as the receive loop uses it. */
  lemma ReceiveStep(buffer: seq<byte>, messages: seq<NativeMessage>, i: nat, from: SteamConnection)
    requires i < |messages|
    ensures ReceiveAll(buffer, messages[..i + 1], from)
            == Step(ReceiveAll(buffer, messages[..i], from), messages[i].data, from)
  {
    assert messages[..i + 1][..i] == messages[..i];
  }

  /** When every message fits, the loop runs to the end and raises exactly one
      event per non-empty message, in index order; each event reports the whole
      payload and the buffer starts with it. */
  lemma {:induction false} ReceiveDeliversInOrder(buffer: seq<byte>, messages: seq<NativeMessage>, from: SteamConnection)
    requires AllFit(messages, |buffer|)
    ensures var r := ReceiveAll(buffer, messages, from);
            && r.outcome == Pass
            && |r.deliveries| == |Payloads(messages)|
            && forall k :: 0 <= k < |r.deliveries| ==>
                 && r.deliveries[k].amount == |Payloads(messages)[k]|
                 && Payloads(messages)[k] <= r.deliveries[k].buffer
                 && r.deliveries[k].from == from
    decreases |messages|
  {
    if messages != [] {
      var init := messages[..|messages| - 1];
      assert AllFit(init, |buffer|) by {
        forall i | 0 <= i < |init| ensures |init[i].data| <= |buffer| {
          assert init[i] == messages[i];
        }
      }
      ReceiveDeliversInOrder(buffer, init, from);
      var prior := ReceiveAll(buffer, init, from);
      var r := ReceiveAll(buffer, messages, from);
      var data := messages[|messages| - 1].data;
      assert Payloads(messages) == Payloads(init) + (if |data| == 0 then [] else [data]);
      forall k | 0 <= k < |r.deliveries|
        ensures r.deliveries[k].amount == |Payloads(messages)[k]|
        ensures Payloads(messages)[k] <= r.deliveries[k].buffer
        ensures r.deliveries[k].from == from
      {
        if k < |prior.deliveries| {
          assert r.deliveries[k] == prior.deliveries[k];
          assert Payloads(messages)[k] == Payloads(init)[k];
        }
      }
    }
  }

  /** The loop ends in an exception exactly when some message is longer than the
      buffer, and that exception is always the out-of-range copy. */
  lemma {:induction false} ReceiveFailsIffOversize(buffer: seq<byte>, messages: seq<NativeMessage>, from: SteamConnection)
    ensures var r := ReceiveAll(buffer, messages, from);
            && (r.outcome.Fail? <==> !AllFit(messages, |buffer|))
            && (r.outcome.Fail? ==> r.outcome == Fail(CopyOutOfRange))
    decreases |messages|
  {
    if messages != [] {
      var init := messages[..|messages| - 1];
      ReceiveFailsIffOversize(buffer, init, from);
      assert forall j :: 0 <= j < |init| ==> messages[j] == init[j];
      assert AllFit(messages, |buffer|)
             <==> AllFit(init, |buffer|) && |messages[|messages| - 1].data| <= |buffer|;
    }
  }

  /** Once the loop has stopped on an exception, later messages change nothing:
      they are neither copied nor reported. */
  lemma {:induction false} FailureIsFinal(buffer: seq<byte>, done: seq<NativeMessage>, rest: seq<NativeMessage>, from: SteamConnection)
    requires ReceiveAll(buffer, done, from).outcome.Fail?
    ensures ReceiveAll(buffer, done + rest, from) == ReceiveAll(buffer, done, from)
    decreases |rest|
  {
    if rest == [] {
      assert done + rest == done;
    } else {
      var init := rest[..|rest| - 1];
      FailureIsFinal(buffer, done, init, from);
      assert (done + rest)[..|done + rest| - 1] == done + init;
    }
  }

  /** The loop's early exit: once a prefix has failed, the whole batch ends as
      that prefix did. */
  lemma StopsEarly(buffer: seq<byte>, messages: seq<NativeMessage>, n: nat, from: SteamConnection)
    requires n <= |messages| && ReceiveAll(buffer, messages[..n], from).outcome.Fail?
    ensures ReceiveAll(buffer, messages, from) == ReceiveAll(buffer, messages[..n], from)
  {
    FailureIsFinal(buffer, messages[..n], messages[n..], from);
    assert messages[..n] + messages[n..] == messages;
  }

  /** A message longer than the buffer after messages that all fit: the events
      already raised stay, the oversize message and everything after it are lost. */
  lemma OversizeDropsTheRest(buffer: seq<byte>, done: seq<NativeMessage>, big: NativeMessage, rest: seq<NativeMessage>, from: SteamConnection)
    requires AllFit(done, |buffer|) && |big.data| > |buffer|
    ensures var r := ReceiveAll(buffer, done + [big] + rest, from);
            && r.outcome == Fail(CopyOutOfRange)
            && r.deliveries == ReceiveAll(buffer, done, from).deliveries
  {
    ReceiveFailsIffOversize(buffer, done, from);
    assert (done + [big])[..|done|] == done;
    FailureIsFinal(buffer, done + [big], rest, from);
  }

  /** Every event reports a positive amount no larger than the buffer, which is
      also what min(m_cbSize, receiveBuffer.Length) gives; the buffer keeps its
      length. */
  lemma {:induction false} DeliveryBounds(buffer: seq<byte>, messages: seq<NativeMessage>, from: SteamConnection)
    ensures forall d :: d in ReceiveAll(buffer, messages, from).deliveries ==>
              0 < d.amount <= |buffer| && |d.buffer| == |buffer|
    decreases |messages|
  {
    if messages != [] {
      var init := messages[..|messages| - 1];
      DeliveryBounds(buffer, init, from);
    }
  }

  class SteamPeer {
    /** The Steam API used for raw sends. */
    const net: Net
    /** The buffer every received message is copied into, shared by all of them. */
    const receiveBuffer: array<byte>
    /** The DataReceived events raised so far. */
    var received: seq<Delivery>

    /** The receive buffer holds a largest Riptide message (Message.MaxSize, from the
        Riptide library, given here as `maxSize`) plus a ushort. */
    constructor (net: Net, maxSize: nat)
      ensures this.net == net && receiveBuffer.Length == maxSize + 2
      ensures fresh(receiveBuffer) && received == []
    {
      this.net := net;
      receiveBuffer := new byte[maxSize + 2];
      received := [];
    }

    /** Receive: `messages` are the native messages ReceiveMessagesOnConnection
        returned for `from` (none when it returned 0 or an error). */
    method Receive(from: SteamConnection, messages: seq<NativeMessage>) returns (outcome: Outcome)
      modifies receiveBuffer, this`received
      ensures var r := ReceiveAll(old(receiveBuffer[..]), messages, from);
              && receiveBuffer[..] == r.buffer
              && received == old(received) + r.deliveries
              && outcome == r.outcome
    {
      ghost var initial := receiveBuffer[..];
      outcome := Pass;
      var i := 0;
      while i < |messages|
        invariant 0 <= i <= |messages|
        invariant var r := ReceiveAll(initial, messages[..i], from);
                  && receiveBuffer[..] == r.buffer
                  && received == old(received) + r.deliveries
                  && r.outcome == Pass
      {
        ReceiveStep(initial, messages, i, from);
        var data := messages[i].data;
        if |data| > 0 {
          var byteCount := |data|;
          if |data| > receiveBuffer.Length {
            byteCount := receiveBuffer.Length;
          }
          if |data| > receiveBuffer.Length {
            StopsEarly(initial, messages, i + 1, from);
            outcome := Fail(CopyOutOfRange);
            return;
          }
          Deliver(from, data, byteCount);
        }
        i := i + 1;
      }
      assert messages[..i] == messages;
    }

    /** The body of Receive for a message that fits: Marshal.Copy into the
        buffer, then DataReceived with the buffer and `amount`. */
    method Deliver(from: SteamConnection, data: seq<byte>, amount: nat)
      requires |data| <= receiveBuffer.Length
      modifies receiveBuffer, this`received
      ensures receiveBuffer[..] == Overlay(old(receiveBuffer[..]), data)
      ensures received == old(received) + [Delivery(receiveBuffer[..], amount, from)]
    {
      CopyInto(receiveBuffer, data, |data|);
      assert receiveBuffer[..] == receiveBuffer[..|data|] + receiveBuffer[|data|..];
      received := received + [Delivery(receiveBuffer[..], amount, from)];
    }

    /** Send: hands the first `numBytes` bytes of `dataBuffer` to Steam, always with
        the unreliable flag; `result` is what Steam answers, and a result other than
        OK only produces a warning. */
    method Send(dataBuffer: array<byte>, numBytes: nat, toConnection: Handle, result: EResult) returns (warned: bool)
      requires numBytes <= dataBuffer.Length
      modifies net`frames
      ensures net.frames == old(net.frames) + [Frame(toConnection, dataBuffer[..numBytes], FlagUnreliable)]
      ensures warned <==> result != ResultOK
    {
      net.frames := net.frames + [Frame(toConnection, dataBuffer[..numBytes], FlagUnreliable)];
      warned := result != ResultOK;
    }
  }
}
