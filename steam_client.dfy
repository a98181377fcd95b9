/** SteamClient: connects to a host given by Steam id, or directly to a server in
    the same process over a loopback socket pair, answers the server's welcome,
    and raises the application's client events. Messages that arrive before the
    client counts as connected are deferred and handled, in arrival order, once it does. */
module Client {
  import opened Common
  import opened SteamNet
  import opened Connection
  import Registry
  import S = Server

  /** The events the client raises to the application. */
  datatype ClientEvent =
    | OnConnected
    | OnConnectionFailed
    | OnMessageReceived(messageId: ushort)
    | OnDisconnected
    | OnClientConnected(id: ushort)
    | OnClientDisconnected(id: ushort)

  /** What Connect makes of a host address. */
  datatype Address = Loopback | SteamAddress(hostId: SteamId) | Invalid

  predicate IsDigit(ch: char) { '0' <= ch <= '9' }

  /** The white space .NET number parsing skips: the space and U+0009 to U+000D. */
  predicate IsWhite(ch: char) { ch == ' ' || '\t' <= ch <= '\r' }

  predicate IsNul(ch: char) { ch == '\0' }

  predicate All(s: string, p: char -> bool)
  {
    forall i :: 0 <= i < |s| ==> p(s[i])
  }

  predicate AllDigits(s: string)
  {
    All(s, IsDigit)
  }

  function DigitValue(ch: char): nat
    requires IsDigit(ch)
  {
    (ch as int) - ('0' as int)
  }

  function DigitChar(d: nat): (ch: char)
    requires d < 10
    ensures IsDigit(ch) && DigitValue(ch) == d
  {
    (('0' as int) + d) as char
  }

  /** The value of a string of decimal digits, most significant first. */
  function DecimalValue(s: string): nat
    requires AllDigits(s)
  {
    if s == [] then 0 else DecimalValue(s[..|s| - 1]) * 10 + DigitValue(s[|s| - 1])
  }

  /** The decimal digits of n, without leading zeros. */
  function Decimal(n: nat): (s: string)
    ensures |s| > 0 && AllDigits(s)
  {
    if n < 10 then [DigitChar(n)] else Decimal(n / 10) + [DigitChar(n % 10)]
  }

  /** The length of the longest prefix of `s` whose characters all satisfy `p`. */
  function Run(s: string, p: char -> bool): (n: nat)
    ensures n <= |s| && All(s[..n], p)
    ensures n < |s| ==> !p(s[n])
  {
    if s == [] || !p(s[0]) then 0
    else
      var n := 1 + Run(s[1..], p);
      assert forall i :: 1 <= i < n ==> s[..n][i] == s[1..][..n - 1][i - 1];
      n
  }

  /** ulong.TryParse with NumberStyles.Integer: optional white space, an optional
      sign, decimal digits, optional white space, then only NUL characters (which
      .NET ignores at the end). The value must fit in 64 bits, and a minus sign is
      accepted only before a zero value. */
  function ParseULong(s: string): Option<SteamId>
  {
    ParseSigned(s[Run(s, IsWhite)..])
  }

  /** The part after the leading white space: an optional sign, then the digits. */
  function ParseSigned(t: string): Option<SteamId>
  {
    if |t| > 0 && t[0] == '+' then ParseDigits(t[1..], false)
    else if |t| > 0 && t[0] == '-' then ParseDigits(t[1..], true)
    else ParseDigits(t, false)
  }

  /** The part after the sign: at least one digit, then a valid ending. */
  function ParseDigits(u: string, negative: bool): Option<SteamId>
  {
    var digits := u[..Run(u, IsDigit)];
    if |digits| > 0 && TrailingOk(u[|digits|..])
       && DecimalValue(digits) < 0x1_0000_0000_0000_0000 && (negative ==> DecimalValue(digits) == 0)
    then Some(DecimalValue(digits))
    else None
  }

  /** What may follow the digits: white space, then NUL characters only. */
  predicate TrailingOk(rest: string)
  {
    All(rest[Run(rest, IsWhite)..], IsNul)
  }

  /** The strings ulong.TryParse reads as an integer: white space, an optional
      sign, at least one digit, white space and NULs, in that order. */
  predicate IntegerForm(w1: string, sign: string, digits: string, w2: string, z: string)
  {
    && All(w1, IsWhite) && (sign == "" || sign == "+" || sign == "-")
    && |digits| > 0 && AllDigits(digits) && All(w2, IsWhite) && All(z, IsNul)
  }

  /** A run of characters that satisfy `p`, followed by one that does not, is a
      run of exactly that length. */
  lemma {:induction false} RunOfPrefix(a: string, b: string, p: char -> bool)
    requires All(a, p) && (b == [] || !p(b[0]))
    ensures Run(a + b, p) == |a|
  {
    if a != [] {
      assert (a + b)[0] == a[0] && (a + b)[1..] == a[1..] + b;
      assert All(a[1..], p) by {
        forall i | 0 <= i < |a[1..]| ensures p(a[1..][i]) {
          assert a[1..][i] == a[i + 1];
        }
      }
      RunOfPrefix(a[1..], b, p);
    }
  }

  lemma TrailingOkOf(w2: string, z: string)
    requires All(w2, IsWhite) && All(z, IsNul)
    ensures TrailingOk(w2 + z)
  {
    assert z == [] || !IsWhite(z[0]) by {
      if z != [] { assert IsNul(z[0]); }
    }
    RunOfPrefix(w2, z, IsWhite);
    assert (w2 + z)[|w2|..] == z;
  }

  lemma ParseDigitsOf(digits: string, w2: string, z: string, negative: bool)
    requires |digits| > 0 && AllDigits(digits) && All(w2, IsWhite) && All(z, IsNul)
    ensures ParseDigits(digits + (w2 + z), negative)
            == if DecimalValue(digits) < 0x1_0000_0000_0000_0000 && (negative ==> DecimalValue(digits) == 0)
               then Some(DecimalValue(digits)) else None
  {
    var rest := w2 + z;
    assert rest == [] || !IsDigit(rest[0]) by {
      if rest != [] && w2 == [] { assert rest[0] == z[0] && IsNul(z[0]); }
      if rest != [] && w2 != [] { assert rest[0] == w2[0] && IsWhite(w2[0]); }
    }
    RunOfPrefix(digits, rest, IsDigit);
    var u := digits + rest;
    assert u[..|digits|] == digits && u[|digits|..] == rest;
    TrailingOkOf(w2, z);
  }

  lemma ParseSignedOf(sign: string, u: string)
    requires sign == "" || sign == "+" || sign == "-"
    requires sign == "" ==> |u| > 0 && IsDigit(u[0])
    ensures ParseSigned(sign + u) == ParseDigits(u, sign == "-")
  {
    if sign == "" {
      assert sign + u == u;
    } else {
      assert (sign + u)[0] == sign[0] && (sign + u)[1..] == u;
    }
  }

  /** Leading white space is skipped. */
  lemma ParseULongOf(w1: string, t: string)
    requires All(w1, IsWhite) && |t| > 0 && !IsWhite(t[0])
    ensures ParseULong(w1 + t) == ParseSigned(t)
  {
    RunOfPrefix(w1, t, IsWhite);
    assert (w1 + t)[|w1|..] == t;
  }

  /** Every string of integer form is parsed: to its digits' value when that fits
      in 64 bits and is not negative, and otherwise rejected. */
  lemma ParseULongAccepts(w1: string, sign: string, digits: string, w2: string, z: string)
    requires IntegerForm(w1, sign, digits, w2, z)
    ensures ParseULong(w1 + sign + digits + w2 + z)
            == if DecimalValue(digits) < 0x1_0000_0000_0000_0000 && (sign == "-" ==> DecimalValue(digits) == 0)
               then Some(DecimalValue(digits)) else None
  {
    var u := digits + (w2 + z);
    assert u[0] == digits[0] && IsDigit(digits[0]);
    var t := sign + u;
    assert w1 + sign + digits + w2 + z == w1 + t;
    assert t[0] == if sign == "" then u[0] else sign[0];
    ParseULongOf(w1, t);
    ParseSignedOf(sign, u);
    ParseDigitsOf(digits, w2, z, sign == "-");
  }

  /** An ending TrailingOk accepts is white space followed by NULs. */
  lemma TrailingSplit(rest: string) returns (w2: string, z: string)
    requires TrailingOk(rest)
    ensures All(w2, IsWhite) && All(z, IsNul) && rest == w2 + z
  {
    w2, z := rest[..Run(rest, IsWhite)], rest[Run(rest, IsWhite)..];
    assert rest == w2 + z;
  }

  lemma ParseDigitsSound(u: string, negative: bool) returns (digits: string, w2: string, z: string)
    requires ParseDigits(u, negative).Some?
    ensures |digits| > 0 && AllDigits(digits) && All(w2, IsWhite) && All(z, IsNul)
    ensures u == digits + w2 + z && ParseDigits(u, negative) == Some(DecimalValue(digits))
    ensures negative ==> DecimalValue(digits) == 0
  {
    digits := u[..Run(u, IsDigit)];
    w2, z := TrailingSplit(u[|digits|..]);
    assert u == digits + (w2 + z);
  }

  lemma ParseSignedSound(t: string) returns (sign: string, u: string)
    requires ParseSigned(t).Some?
    ensures (sign == "" || sign == "+" || sign == "-") && t == sign + u
    ensures ParseSigned(t) == ParseDigits(u, sign == "-")
  {
    if |t| > 0 && (t[0] == '+' || t[0] == '-') {
      sign, u := t[..1], t[1..];
    } else {
      sign, u := "", t;
    }
    assert t == sign + u;
  }

  lemma ConcatFive(a: string, b: string, c: string, d: string, e: string)
    ensures a + b + c + d + e == a + (b + (c + d + e))
  {
    assert b + c + d + e == b + (c + d + e);
  }

  /** Every string ulong.TryParse accepts is of integer form, with that value. */
  lemma ParseULongSound(s: string) returns (w1: string, sign: string, digits: string, w2: string, z: string)
    requires ParseULong(s).Some?
    ensures IntegerForm(w1, sign, digits, w2, z) && s == w1 + sign + digits + w2 + z
    ensures ParseULong(s) == Some(DecimalValue(digits))
  {
    w1 := s[..Run(s, IsWhite)];
    var t := s[Run(s, IsWhite)..];
    assert s == w1 + t;
    assert ParseULong(s) == ParseSigned(t);
    var u;
    sign, u := ParseSignedSound(t);
    digits, w2, z := ParseDigitsSound(u, sign == "-");
    ConcatFive(w1, sign, digits, w2, z);
  }

  /** Connect's reading of a host address: "localhost" and "127.0.0.1" mean the
      local server, a string ulong.TryParse reads as a 64-bit number is a Steam id,
      anything else is invalid. */
  function Classify(hostAddress: string): (a: Address)
    ensures a.Loopback? <==> hostAddress == "localhost" || hostAddress == "127.0.0.1"
    ensures a.SteamAddress? ==> ParseULong(hostAddress) == Some(a.hostId)
    ensures a.Invalid? <==> hostAddress != "localhost" && hostAddress != "127.0.0.1" && ParseULong(hostAddress).None?
  {
    if hostAddress == "localhost" || hostAddress == "127.0.0.1" then Loopback
    else match ParseULong(hostAddress)
      case Some(hostId) => SteamAddress(hostId)
      case None => Invalid
  }

  lemma {:induction false} DecimalRoundTrip(n: nat)
    ensures DecimalValue(Decimal(n)) == n
    decreases n
  {
    if n >= 10 {
      DecimalRoundTrip(n / 10);
      var s := Decimal(n);
      assert s[..|s| - 1] == Decimal(n / 10);
    }
  }

  /** Every Steam id, written in decimal with optional white space around it, an
      optional plus sign and trailing NULs, is read back by Connect as that Steam id. */
  lemma ClassifySteamId(w1: string, sign: string, hostId: SteamId, w2: string, z: string)
    requires All(w1, IsWhite) && (sign == "" || sign == "+") && All(w2, IsWhite) && All(z, IsNul)
    ensures Classify(w1 + sign + Decimal(hostId) + w2 + z) == SteamAddress(hostId)
  {
    DecimalRoundTrip(hostId);
    ParseULongAccepts(w1, sign, Decimal(hostId), w2, z);
    NotLoopback(w1, sign, Decimal(hostId), w2, z);
  }

  /** A string of integer form is neither loopback address. */
  lemma NotLoopback(w1: string, sign: string, digits: string, w2: string, z: string)
    requires IntegerForm(w1, sign, digits, w2, z)
    ensures w1 + sign + digits + w2 + z != "localhost" && w1 + sign + digits + w2 + z != "127.0.0.1"
  {
    var s := w1 + sign + digits + w2 + z;
    forall i | 0 <= i < |s|
      ensures IsWhite(s[i]) || s[i] == '+' || s[i] == '-' || IsDigit(s[i]) || IsNul(s[i])
    {
      if i < |w1| {
        assert s[i] == w1[i];
      } else if i < |w1| + |sign| {
        assert s[i] == sign[i - |w1|];
      } else if i < |w1| + |sign| + |digits| {
        assert s[i] == digits[i - |w1| - |sign|];
      } else if i < |w1| + |sign| + |digits| + |w2| {
        assert s[i] == w2[i - |w1| - |sign| - |digits|];
      } else {
        assert s[i] == z[i - |w1| - |sign| - |digits| - |w2|];
      }
    }
    assert "localhost"[0] == 'l' && "127.0.0.1"[3] == '.';
  }

  /** The part of the client that handling a message changes: its id, the events
      it raised and the messages sent through Steam. */
  datatype View = View(id: ushort, events: seq<ClientEvent>, sent: seq<Outgoing>)

  /** Handling one message received over `host`: data messages reach the
      application with their message id; a welcome sets the id to its payload,
      replies with a welcome carrying that id and raises Connected; client
      connected and disconnected notices raise the matching event; every other
      header is ignored. */
  function HandleOne(v: View, host: Handle, m: Message): (r: View)
    ensures |v.events| <= |r.events| <= |v.events| + 1 && r.events[..|v.events|] == v.events
    ensures r.sent == v.sent || (m.header == Welcome && r.sent == v.sent + [Outgoing(host, WelcomeMessage(r.id))])
    ensures r.id != v.id ==> m.header == Welcome && r.id == m.value
  {
    match m.header
    case Unreliable | Reliable => v.(events := v.events + [OnMessageReceived(m.value)])
    case Welcome => View(m.value, v.events + [OnConnected], v.sent + [Outgoing(host, WelcomeMessage(m.value))])
    case ClientConnected => v.(events := v.events + [OnClientConnected(m.value)])
    case ClientDisconnected => v.(events := v.events + [OnClientDisconnected(m.value)])
    case _ => v
  }

  /** Handling a batch of messages in the order they were received. */
  function HandleAll(v: View, host: Handle, ms: seq<Message>): View
  {
    if ms == [] then v else HandleOne(HandleAll(v, host, ms[..|ms| - 1]), host, ms[|ms| - 1])
  }

  lemma HandleAllStep(v: View, host: Handle, ms: seq<Message>, i: nat)
    requires i < |ms|
    ensures HandleAll(v, host, ms[..i + 1]) == HandleOne(HandleAll(v, host, ms[..i]), host, ms[i])
  {
    assert ms[..i + 1][..i] == ms[..i];
  }

  /** Handling two batches one after the other is handling them as one batch:
      deferring messages and handling them later keeps their order. */
  lemma {:induction false} HandleAllAppend(v: View, host: Handle, a: seq<Message>, b: seq<Message>)
    ensures HandleAll(v, host, a + b) == HandleAll(HandleAll(v, host, a), host, b)
    decreases |b|
  {
    if b == [] {
      assert a + b == a;
    } else {
      var b' := b[..|b| - 1];
      assert (a + b)[..|a + b| - 1] == a + b';
      HandleAllAppend(v, host, a, b');
    }
  }

  /** Data messages only: one MessageReceived per message, with its message id,
      in arrival order; the id is kept and nothing is sent. */
  lemma {:induction false} HandleDataInOrder(v: View, host: Handle, ms: seq<Message>)
    requires forall i :: 0 <= i < |ms| ==> ms[i].header == Unreliable || ms[i].header == Reliable
    ensures HandleAll(v, host, ms).id == v.id && HandleAll(v, host, ms).sent == v.sent
    ensures |HandleAll(v, host, ms).events| == |v.events| + |ms|
    ensures HandleAll(v, host, ms).events[..|v.events|] == v.events
    ensures forall i :: 0 <= i < |ms| ==> HandleAll(v, host, ms).events[|v.events| + i] == OnMessageReceived(ms[i].value)
  {
    if ms != [] {
      HandleDataInOrder(v, host, ms[..|ms| - 1]);
    }
  }

  /** A welcome sets the id to its payload and the reply echoes exactly that id;
      Connected is raised after the reply. */
  lemma WelcomeEchoesId(v: View, host: Handle, m: Message)
    requires m.header == Welcome
    ensures HandleOne(v, host, m).id == m.value
    ensures HandleOne(v, host, m).sent == v.sent + [Outgoing(host, Message(Welcome, m.value))]
    ensures HandleOne(v, host, m).events == v.events + [OnConnected]
  {
  }

  /** The CloseConnection calls LocalDisconnect makes for a host handle: one when
      the handle is set, none when it is 0. */
  function DisconnectClosures(hostConnection: Handle): (cs: seq<Closure>)
    ensures |cs| <= 1
    ensures cs == [] <==> hostConnection == 0
    ensures cs != [] ==> cs[0] == Closure(hostConnection, "Disconnected")
  {
    if hostConnection != 0 then [Closure(hostConnection, "Disconnected")] else []
  }

  /** What the server sends its earlier clients when `newId` joins. */
  function SendsToOthers(values: seq<SteamConnection>, newId: ushort): (r: seq<Outgoing>)
    ensures |r| == |values|
  {
    Registry.SendsTo(values, Message(ClientConnected, newId))
  }

  class SteamClient {
    /** The Steam API this client calls. */
    const net: Net
    var id: ushort
    /** Milliseconds after which a connection attempt is given up. */
    var timeoutTime: ushort
    /** Whether the status-changed callback is registered. */
    var callbackRegistered: bool
    var hostSteamId: SteamId
    var hostConnection: Handle
    var connectionState: ConnectionState
    var localServer: S.SteamServer?
    /** The ActionQueue: messages received before the client counted as connected,
        in arrival order. */
    var actionQueue: seq<Message>
    /** The events raised so far. */
    var events: seq<ClientEvent>

    predicate IsNotConnected() reads this`connectionState { connectionState == NotConnected }
    predicate IsConnecting() reads this`connectionState { connectionState == Connecting }
    predicate IsConnected() reads this`connectionState { connectionState == Connected }

    /** A local server, when one is set, is a consistent server on the same Steam API. */
    ghost predicate ServerReady(server: S.SteamServer?)
      reads server
    {
      server != null ==> server.Valid() && server.net == net
    }

    /** The client invariant: nothing ever puts the client in the connecting
        state. */
    ghost predicate Valid()
      reads this`connectionState
    {
      connectionState != Connecting
    }

    function CurrentView(): View
      reads this`id, this`events, net`sent
    {
      View(id, events, net.sent)
    }

    constructor (net: Net, localServer: S.SteamServer?, timeoutTime: ushort)
      ensures this.net == net && this.localServer == localServer && this.timeoutTime == timeoutTime
      ensures connectionState == NotConnected && id == 0 && hostConnection == 0 && hostSteamId == 0
      ensures !callbackRegistered && actionQueue == [] && events == []
      ensures Valid()
    {
      this.net := net;
      this.localServer := localServer;
      this.timeoutTime := timeoutTime;
      connectionState, id, hostConnection, hostSteamId := NotConnected, 0, 0, 0;
      callbackRegistered, actionQueue, events := false, [], [];
    }

    method ChangeLocalServer(newLocalServer: S.SteamServer?)
      modifies this`localServer
      ensures localServer == newLocalServer
    {
      localServer := newLocalServer;
    }

    /** Connect. Relay initialisation failing (`relayFails`) and an invalid host
        address both end in ConnectionFailed; a loopback address connects to the
        local server; a Steam id starts a peer-to-peer attempt whose handle Steam
        returns as `p2pConnection`. `ownSteamId` is what SteamUser.GetSteamID returns
        and `toClient`/`toServer` the socket pair CreateSocketPair creates. */
    method Connect(hostAddress: string, relayFails: bool, ownSteamId: SteamId,
                   toClient: Handle, toServer: Handle, p2pConnection: Handle) returns (outcome: Outcome)
      requires Valid() && ServerReady(localServer)
      modifies this`callbackRegistered, this`hostSteamId, this`hostConnection, this`connectionState
      modifies this`id, this`actionQueue, this`events, net`sent, net`closed
      modifies localServer
      ensures Valid() && ServerReady(localServer)
      ensures (relayFails || Classify(hostAddress).Invalid?) ==>
                outcome == Pass && TornDown(old(net.closed), old(hostConnection))
                && id == old(id) && hostSteamId == old(hostSteamId) && actionQueue == old(actionQueue)
                && events == old(events) + [OnConnectionFailed] && net.sent == old(net.sent)
      ensures !relayFails && Classify(hostAddress).SteamAddress? ==>
                outcome == Pass && callbackRegistered && hostSteamId == Classify(hostAddress).hostId
                && hostConnection == p2pConnection && connectionState == old(connectionState)
                && id == old(id) && actionQueue == old(actionQueue) && events == old(events)
                && net.sent == old(net.sent) && net.closed == old(net.closed)
      ensures !relayFails && Classify(hostAddress).Loopback? && old(localServer) == null ==>
                outcome == Pass && TornDown(old(net.closed), old(hostConnection))
                && id == old(id) && hostSteamId == old(hostSteamId) && actionQueue == old(actionQueue)
                && events == old(events) + [OnConnectionFailed] && net.sent == old(net.sent)
      ensures !relayFails && Classify(hostAddress).Loopback? && old(localServer) != null ==>
                && callbackRegistered && hostSteamId == ownSteamId && hostConnection == toServer
                && net.closed == old(net.closed)
                && (outcome.Pass? <==> S.NextClientId(old(localServer.availableClientIds)) !in old(localServer.byId)
                                       && ownSteamId !in old(localServer.bySteamId))
                && (outcome.Pass? ==> localServer.ClientCount() == old(localServer.ClientCount()) + 1
                                      && IsConnected() && actionQueue == [])
                && (outcome.Fail? ==> connectionState == old(connectionState) && actionQueue == old(actionQueue))
    {
      if relayFails {
        ConnectionFailed();
        return Pass;
      }
      match Classify(hostAddress)
      case Loopback =>
        outcome := ConnectLocal(ownSteamId, toClient, toServer);
      case SteamAddress(hostId) =>
        TryConnect(hostId, p2pConnection);
        outcome := Pass;
      case Invalid =>
        ConnectionFailed();
        outcome := Pass;
    }

    /** The client state after OnConnectionFailed or OnDisconnected: the
        connection torn down by LocalDisconnect from host handle `before`, with
        `closedBefore` the CloseConnection calls made until then. */
    ghost predicate TornDown(closedBefore: seq<Closure>, before: Handle)
      reads this`connectionState, this`callbackRegistered, this`hostConnection, net`closed
    {
      connectionState == NotConnected && !callbackRegistered && hostConnection == 0
      && net.closed == closedBefore + DisconnectClosures(before)
    }

    /** The synchronous part of TryConnect: register the callback, remember the
        host and start the peer-to-peer connection. The wait for the timeout is
        TimeoutElapsed. */
    method TryConnect(hostId: SteamId, p2pConnection: Handle)
      modifies this`callbackRegistered, this`hostSteamId, this`hostConnection
      ensures callbackRegistered && hostSteamId == hostId && hostConnection == p2pConnection
    {
      callbackRegistered := true;
      hostSteamId := hostId;
      hostConnection := p2pConnection;
    }

    /** TryConnect after TimeoutTime has elapsed: unless connected by then, the
        attempt fails and the client ends not connected. */
    method TimeoutElapsed()
      requires Valid()
      modifies this`connectionState, this`callbackRegistered, this`hostConnection, this`events, net`closed
      ensures Valid()
      ensures old(IsConnected()) ==> unchanged(this) && net.closed == old(net.closed)
      ensures !old(IsConnected()) ==> IsNotConnected() && TornDown(old(net.closed), old(hostConnection))
                                      && events == old(events) + [OnConnectionFailed]
    {
      if !IsConnected() {
        ConnectionFailed();
      }
    }

    /** ConnectLocal: fails without a local server; otherwise registers the client
        on that server over a fresh socket pair and counts as connected at once. A
        duplicate key in the server's registry escapes as the outcome. */
    method ConnectLocal(ownSteamId: SteamId, toClient: Handle, toServer: Handle) returns (outcome: Outcome)
      requires Valid() && ServerReady(localServer)
      modifies this`callbackRegistered, this`hostSteamId, this`hostConnection, this`connectionState
      modifies this`id, this`actionQueue, this`events, net`sent, net`closed
      modifies localServer
      ensures Valid() && ServerReady(localServer)
      ensures localServer == null ==>
                outcome == Pass && TornDown(old(net.closed), old(hostConnection))
                && id == old(id) && hostSteamId == old(hostSteamId) && actionQueue == old(actionQueue)
                && events == old(events) + [OnConnectionFailed] && net.sent == old(net.sent)
      ensures localServer != null ==>
                && callbackRegistered && hostSteamId == ownSteamId && hostConnection == toServer
                && net.closed == old(net.closed)
                && (outcome.Pass? <==> S.NextClientId(old(localServer.availableClientIds)) !in old(localServer.byId)
                                       && ownSteamId !in old(localServer.bySteamId))
                && (outcome.Fail? ==> connectionState == old(connectionState) && actionQueue == old(actionQueue)
                                      && id == old(id) && events == old(events))
      ensures localServer != null && outcome.Pass? ==>
                var newId := S.NextClientId(old(localServer.availableClientIds));
                && localServer.ClientCount() == old(localServer.ClientCount()) + 1
                && newId in localServer.byId && localServer.byId[newId].steamId == ownSteamId
                && localServer.byId[newId].handle == toClient
                && IsConnected() && actionQueue == []
                && CurrentView() == HandleAll(View(old(id), old(events),
                                                   old(net.sent) + [Outgoing(toClient, WelcomeMessage(newId))]
                                                   + SendsToOthers(old(localServer.values), newId)),
                                              toServer, old(actionQueue))
    {
      if localServer == null {
        ConnectionFailed();
        return Pass;
      }
      outcome := JoinLocalServer(localServer, ownSteamId, toClient, toServer);
    }

    /** The branch of ConnectLocal with a local server: the callback is registered,
        the host becomes this process, the server registers the client's end of
        the socket pair, and the client is promoted to connected at once. */
    method JoinLocalServer(server: S.SteamServer, ownSteamId: SteamId, toClient: Handle, toServer: Handle)
      returns (outcome: Outcome)
      requires Valid() && localServer == server && ServerReady(server)
      modifies this`callbackRegistered, this`hostSteamId, this`hostConnection, this`connectionState
      modifies this`id, this`actionQueue, this`events, net`sent
      modifies server`byId, server`bySteamId, server`values, server`availableClientIds, server`events
      ensures Valid() && ServerReady(server)
      ensures callbackRegistered && hostSteamId == ownSteamId && hostConnection == toServer
      ensures outcome.Pass? <==> S.NextClientId(old(server.availableClientIds)) !in old(server.byId)
                                 && ownSteamId !in old(server.bySteamId)
      ensures outcome.Fail? ==> connectionState == old(connectionState) && actionQueue == old(actionQueue)
                                && id == old(id) && events == old(events)
      ensures outcome.Pass? ==>
                var newId := S.NextClientId(old(server.availableClientIds));
                && server.ClientCount() == old(server.ClientCount()) + 1
                && newId in server.byId && server.byId[newId].steamId == ownSteamId
                && server.byId[newId].handle == toClient
                && IsConnected() && actionQueue == []
                && CurrentView() == HandleAll(View(old(id), old(events),
                                                   old(net.sent) + [Outgoing(toClient, WelcomeMessage(newId))]
                                                   + SendsToOthers(old(server.values), newId)),
                                              toServer, old(actionQueue))
    {
      callbackRegistered, hostSteamId, hostConnection := true, ownSteamId, toServer;
      outcome := server.NewClientConnected(hostSteamId, toClient);
      if outcome.Fail? {
        return;
      }
      ghost var joined := server.byId;
      ConnectionStatusChangedToConnected();
      assert server.byId == joined;
    }

    /** The status-changed callback: ignored unless it is about the host
        connection; connected promotes the client, closed by peer or problem
        detected locally disconnects it, every other state is only logged. */
    method OnConnectionStatusChanged(change: S.StatusChange)
      requires Valid() && callbackRegistered
      modifies this`connectionState, this`callbackRegistered, this`hostConnection
      modifies this`id, this`actionQueue, this`events, net`sent, net`closed
      ensures Valid()
      ensures change.conn != old(hostConnection) ==> unchanged(this) && net.sent == old(net.sent) && net.closed == old(net.closed)
      ensures change.conn == old(hostConnection) && change.state == S.StateConnected ==>
                && IsConnected() && actionQueue == [] && net.closed == old(net.closed)
                && CurrentView() == HandleAll(old(CurrentView()), hostConnection, old(actionQueue))
      ensures change.conn == old(hostConnection)
              && (change.state == S.StateClosedByPeer || change.state == S.StateProblemDetectedLocally) ==>
                && TornDown(old(net.closed), old(hostConnection)) && events == old(events) + [OnDisconnected]
                && id == old(id) && actionQueue == old(actionQueue) && net.sent == old(net.sent)
      ensures change.conn == old(hostConnection)
              && (change.state == S.StateNone || change.state == S.StateConnecting || change.state == S.StateFindingRoute) ==>
                unchanged(this) && net.sent == old(net.sent) && net.closed == old(net.closed)
    {
      if change.conn != hostConnection {
        return;
      }
      match change.state {
        case StateConnected =>
          ConnectionStatusChangedToConnected();
        case StateClosedByPeer | StateProblemDetectedLocally =>
          LocalDisconnect();
          events := events + [OnDisconnected];
        case _ =>
      }
    }

    /** Promotion to connected: the deferred messages are handled in arrival order
        and the queue is emptied. */
    method ConnectionStatusChangedToConnected()
      requires Valid()
      modifies this`connectionState, this`id, this`actionQueue, this`events, net`sent
      ensures Valid() && IsConnected() && actionQueue == []
      ensures CurrentView() == HandleAll(old(CurrentView()), hostConnection, old(actionQueue))
    {
      connectionState := Connected;
      var deferred := actionQueue;
      actionQueue := [];
      for i := 0 to |deferred|
        modifies this`id, this`events, net`sent
        invariant CurrentView() == HandleAll(old(CurrentView()), hostConnection, deferred[..i])
      {
        HandleAllStep(old(CurrentView()), hostConnection, deferred, i);
        Handle(deferred[i]);
      }
      assert deferred[..|deferred|] == deferred;
    }

    /** HandleMessages: while connected each message is handled at once; before
        that each is appended to the queue. */
    method HandleMessages(messages: seq<Message>)
      modifies this`id, this`actionQueue, this`events, net`sent
      ensures IsConnected() ==> actionQueue == old(actionQueue)
                                && CurrentView() == HandleAll(old(CurrentView()), hostConnection, messages)
      ensures !IsConnected() ==> actionQueue == old(actionQueue) + messages && CurrentView() == old(CurrentView())
    {
      for i := 0 to |messages|
        invariant IsConnected() ==> actionQueue == old(actionQueue)
                                    && CurrentView() == HandleAll(old(CurrentView()), hostConnection, messages[..i])
        invariant !IsConnected() ==> actionQueue == old(actionQueue) + messages[..i] && CurrentView() == old(CurrentView())
      {
        if IsConnected() {
          HandleAllStep(old(CurrentView()), hostConnection, messages, i);
          Handle(messages[i]);
        } else {
          assert messages[..i + 1] == messages[..i] + [messages[i]];
          actionQueue := actionQueue + [messages[i]];
        }
      }
      assert messages[..|messages|] == messages;
    }

    /** Dispatches one message by its header. */
    method Handle(message: Message)
      modifies this`id, this`events, net`sent
      ensures CurrentView() == HandleOne(old(CurrentView()), hostConnection, message)
    {
      match message.header {
        case Unreliable | Reliable =>
          events := events + [OnMessageReceived(message.value)];
        case Welcome =>
          HandleWelcome(message);
        case ClientConnected =>
          events := events + [OnClientConnected(message.value)];
        case ClientDisconnected =>
          events := events + [OnClientDisconnected(message.value)];
        case _ =>
      }
    }

    /** Takes the id the server assigned, echoes it back and raises Connected. */
    method HandleWelcome(message: Message)
      modifies this`id, this`events, net`sent
      ensures id == message.value
      ensures net.sent == old(net.sent) + [Outgoing(hostConnection, WelcomeMessage(id))]
      ensures events == old(events) + [OnConnected]
    {
      id := message.value;
      SendWelcomeReceived();
      events := events + [OnConnected];
    }

    method SendWelcomeReceived()
      modifies net`sent
      ensures net.sent == old(net.sent) + [Outgoing(hostConnection, WelcomeMessage(id))]
    {
      Send(WelcomeMessage(id));
    }

    /** Every message goes to the host connection. */
    method Send(message: Message)
      modifies net`sent
      ensures net.sent == old(net.sent) + [Outgoing(hostConnection, message)]
    {
      net.Send(hostConnection, message);
    }

    /** Disconnect: does nothing unless the client is connected (it is never
        connecting, so this includes a pending attempt). */
    method Disconnect()
      requires Valid()
      modifies this`connectionState, this`callbackRegistered, this`hostConnection, net`closed
      ensures Valid()
      ensures old(IsNotConnected()) ==> unchanged(this) && net.closed == old(net.closed)
      ensures !old(IsNotConnected()) ==> TornDown(old(net.closed), old(hostConnection))
    {
      if IsNotConnected() {
        return;
      }
      LocalDisconnect();
    }

    /** Always ends not connected with the callback gone and the handle 0; closes
        the handle only when it was set, so a second call closes nothing. */
    method LocalDisconnect()
      requires Valid()
      modifies this`connectionState, this`callbackRegistered, this`hostConnection, net`closed
      ensures Valid() && TornDown(old(net.closed), old(hostConnection))
    {
      connectionState := NotConnected;
      callbackRegistered := false;
      if hostConnection != 0 {
        net.Close(hostConnection, "Disconnected");
        hostConnection := 0;
      }
    }

    /** OnConnectionFailed: LocalDisconnect, then ConnectionFailed is raised. */
    method ConnectionFailed()
      requires Valid()
      modifies this`connectionState, this`callbackRegistered, this`hostConnection, this`events, net`closed
      ensures Valid() && TornDown(old(net.closed), old(hostConnection))
      ensures events == old(events) + [OnConnectionFailed]
    {
      LocalDisconnect();
      events := events + [OnConnectionFailed];
    }
  }
}
