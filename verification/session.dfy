/** The connection and credential state of the client, as an immutable record
    with one transition function per operation. Sockets, streams and tasks are
    reduced to their effect on the record; whether a connect or a write
    succeeds, what a read returns, the clock, the nonce and the stored secret
    are parameters. */
module Session {
  import opened Bytes
  import opened Wrappers
  import opened Frame
  import opened Commands
  import opened Inbound

  /** `socket` stands for the socket and its two streams, which are always
      set and cleared together; `listeners` counts the running listener
      tasks; `connected` is the flag the UI observes. */
  datatype Session = Session(
    secret: Option<string>,
    socket: bool,
    connected: bool,
    listeners: nat,
    color: Rgb)

  /** The state before any connection: no secret read yet, colour black. */
  const Initial: Session := Session(None, false, false, 0, Rgb(0, 0, 0))

  /** Nothing is open and nothing is listening. */
  predicate Disconnected(s: Session) {
    !s.socket && !s.connected && s.listeners == 0
  }

  /** The flag agrees with the socket, and listeners run exactly while
      connected. */
  predicate Consistent(s: Session) {
    s.connected == s.socket && (s.listeners > 0 <==> s.connected)
  }

  /** Cancels every task, closes and forgets socket and streams, clears the
      flag. The secret and the last colour are kept. */
  function Disconnect(s: Session): (t: Session)
    ensures Disconnected(t) && Consistent(t)
    ensures t.secret == s.secret && t.color == s.color
  {
    s.(socket := false, connected := false, listeners := 0)
  }

  /** Disconnecting twice is disconnecting once; disconnecting a session
      that is already disconnected changes nothing. */
  lemma DisconnectIdempotent(s: Session)
    ensures Disconnect(Disconnect(s)) == Disconnect(s)
    ensures Disconnected(s) ==> Disconnect(s) == s
  {
  }

  /** A stored secret the MAC accepts as a key. */
  predicate Usable(stored: Option<string>) {
    stored.Some? && KeyAccepted(stored.value)
  }

  /** The result of running a command under the secret guard: the session
      (whose secret was just re-read), the packet handed to a send task if
      one was built, and whether the command threw because the MAC refused
      an empty secret. */
  datatype Issued = Issued(session: Session, packet: Option<seq<byte>>, raised: bool)

  /** Re-reads the secret from the settings store (`stored`) and, only if it
      is present, builds the packet for `c` with a fresh header. Without a
      secret the result is null; an empty secret gets past the null check and
      makes the MAC throw. */
  function WithSharedSecret(s: Session, stored: Option<string>, c: Command,
                            timestamp: int64, nonce: int64, mac: Hmac): (r: Issued)
    ensures r.session.secret == stored
    ensures r.session.(secret := s.secret) == s
    ensures r.packet.Some? <==> Usable(stored)
    ensures r.raised <==> stored == Some("")
    ensures r.packet.Some? ==>
      var p := r.packet.value;
      && |p| == PayloadOffset + |Payload(c)|
      && p[..HeaderLength] == GenerateHeader(OpOf(c), timestamp, nonce)
      && p[HeaderLength..PayloadOffset] == mac(stored.value, p[..HeaderLength] + Payload(c))
      && p[PayloadOffset..] == Payload(c)
  {
    var s' := s.(secret := stored);
    if stored.None? then Issued(s', None, false)
    else if !KeyAccepted(stored.value) then Issued(s', None, true)
    else Issued(s', Some(CreatePacket(s'.secret, mac, GenerateHeader(OpOf(c), timestamp, nonce), Payload(c))), false)
  }

  /** What any packet the guard lets out means to its receiver: the header
      carries the timestamp, nonce, version 4 and the command's opcode, the
      payload decodes to the command (arguments cut to bytes), and the tag
      verifies under the stored secret. */
  lemma IssuedPacketDecodes(s: Session, stored: Option<string>, c: Command,
                            timestamp: int64, nonce: int64, mac: Hmac)
    requires WithSharedSecret(s, stored, c, timestamp, nonce, mac).packet.Some?
    ensures var p := WithSharedSecret(s, stored, c, timestamp, nonce, mac).packet.value;
      && ParseFrame(p).Some?
      && ParseFrame(p).value.header == Header(timestamp, nonce, Version, OpOf(c).Value())
      && DecodeCommand(OpOf(c), ParseFrame(p).value.payload) == Some(Normalize(c))
      && Authentic(stored.value, mac, p)
  {
    PacketRoundTrip(stored.value, mac, OpOf(c), timestamp, nonce, Payload(c));
    DecodeEncode(c);
  }

  /** `sendColor`: opcode 0 with `[r, g, b, 0, 0]`. */
  function SendColor(s: Session, stored: Option<string>, red: int, green: int, blue: int,
                     timestamp: int64, nonce: int64, mac: Hmac): (r: Issued)
    ensures r.packet.Some? <==> Usable(stored)
    ensures r.raised <==> stored == Some("")
    ensures r.packet.Some? ==>
      var p := r.packet.value;
      |p| == BufferSize && p[OpcodeOffset] == 0 &&
      p[PayloadOffset..] == [ToByte(red), ToByte(green), ToByte(blue), 0, 0]
  {
    WithSharedSecret(s, stored, SetColor(red, green, blue), timestamp, nonce, mac)
  }

  /** `sendSuspend`: opcode 4 with the fixed marker payload. */
  function SendSuspend(s: Session, stored: Option<string>,
                       timestamp: int64, nonce: int64, mac: Hmac): (r: Issued)
    ensures r.packet.Some? <==> Usable(stored)
    ensures r.raised <==> stored == Some("")
    ensures r.packet.Some? ==>
      var p := r.packet.value;
      |p| == BufferSize && p[OpcodeOffset] == 4 && p[PayloadOffset..] == [209, 0, 255, 3, 0]
  {
    WithSharedSecret(s, stored, ToggleSuspend, timestamp, nonce, mac)
  }

  /** `startFadeAnimation`: opcode 2 with `[r, g, b, duration, speed]`, each
      cut to its low byte. */
  function StartFadeAnimation(s: Session, stored: Option<string>, red: int, green: int, blue: int,
                              duration: int, speed: int,
                              timestamp: int64, nonce: int64, mac: Hmac): (r: Issued)
    ensures r.packet.Some? <==> Usable(stored)
    ensures r.raised <==> stored == Some("")
    ensures r.packet.Some? ==>
      var p := r.packet.value;
      |p| == BufferSize && p[OpcodeOffset] == 2 &&
      p[PayloadOffset..] == [ToByte(red), ToByte(green), ToByte(blue), duration % 256, speed % 256]
  {
    WithSharedSecret(s, stored, StartFade(red, green, blue, duration, speed), timestamp, nonce, mac)
  }

  /** `startPulseAnimation`: opcode 3 with the same layout as fade. */
  function StartPulseAnimation(s: Session, stored: Option<string>, red: int, green: int, blue: int,
                               duration: int, speed: int,
                               timestamp: int64, nonce: int64, mac: Hmac): (r: Issued)
    ensures r.packet.Some? <==> Usable(stored)
    ensures r.raised <==> stored == Some("")
    ensures r.packet.Some? ==>
      var p := r.packet.value;
      |p| == BufferSize && p[OpcodeOffset] == 3 &&
      p[PayloadOffset..] == [ToByte(red), ToByte(green), ToByte(blue), duration % 256, speed % 256]
  {
    WithSharedSecret(s, stored, StartPulse(red, green, blue, duration, speed), timestamp, nonce, mac)
  }

  /** `requestColor`: opcode 1 with an empty payload, so the packet is just
      header and tag. */
  function RequestCurrentColor(s: Session, stored: Option<string>,
                               timestamp: int64, nonce: int64, mac: Hmac): (r: Issued)
    ensures r.packet.Some? <==> Usable(stored)
    ensures r.raised <==> stored == Some("")
    ensures r.packet.Some? ==>
      var p := r.packet.value;
      |p| == PayloadOffset && p[OpcodeOffset] == 1
  {
    WithSharedSecret(s, stored, RequestColor, timestamp, nonce, mac)
  }

  /** Without a stored secret no command builds a packet, and nothing but the
      (still absent) secret changes in the session. */
  lemma NoSecretNoPacket(s: Session, c: Command, timestamp: int64, nonce: int64, mac: Hmac)
    ensures WithSharedSecret(s, None, c, timestamp, nonce, mac) == Issued(s.(secret := None), None, false)
  {
  }

  /** An empty secret passes the guard, but the MAC refuses it: the command
      throws, builds nothing, and only the re-read secret changes. */
  lemma EmptySecretRaises(s: Session, c: Command, timestamp: int64, nonce: int64, mac: Hmac)
    ensures WithSharedSecret(s, Some(""), c, timestamp, nonce, mac) == Issued(s.(secret := Some("")), None, true)
  {
  }

  /** What the environment answered to the connect attempt. */
  datatype ConnectOutcome = Established | Refused

  /** The session after `connect`, its boolean result, and the packet of the
      implicit colour request (none when the connect failed). */
  datatype Connected = Connected(session: Session, ok: bool, request: Option<seq<byte>>)

  /** On success: socket and streams set, flag raised, one more listener
      started, then the current colour requested. The request runs inside
      the same `try`, on an I/O thread: with no secret the guard's warning
      toast throws there (the thread has no message loop), and with an empty
      secret the MAC throws, so either way the catch disconnects and the
      result is false, as it is when the socket cannot connect. Any failure
      ends in a full disconnect, whatever was open before. */
  function Connect(s: Session, outcome: ConnectOutcome, stored: Option<string>,
                   timestamp: int64, nonce: int64, mac: Hmac): (r: Connected)
    ensures r.ok <==> outcome.Established? && Usable(stored)
    ensures r.ok ==> r.session.connected && r.session.socket && r.session.listeners == s.listeners + 1
    ensures r.ok ==> r.request.Some?
    ensures !r.ok ==> Disconnected(r.session) && r.request.None?
    ensures outcome.Refused? ==> r.session == Disconnect(s)
    ensures outcome.Established? ==> r.session.secret == stored
    ensures r.session.color == s.color
  {
    if outcome.Refused? then Connected(Disconnect(s), false, None)
    else
      var live := s.(socket := true, connected := true, listeners := s.listeners + 1);
      var issued := RequestCurrentColor(live, stored, timestamp, nonce, mac);
      if issued.packet.None? then Connected(Disconnect(issued.session), false, None)
      else Connected(issued.session, true, issued.packet)
  }

  /** A successful connect's only packet is the colour request: opcode 1, an
      empty payload, a tag over the header alone. */
  lemma ConnectRequestsColor(s: Session, stored: string, timestamp: int64, nonce: int64, mac: Hmac)
    requires KeyAccepted(stored)
    ensures var r := Connect(s, Established, Some(stored), timestamp, nonce, mac);
      && r.ok
      && r.request.Some?
      && ParseFrame(r.request.value) == Some(Packet(Header(timestamp, nonce, Version, LedGetCurrentColor.Value()),
                                                    mac(stored, GenerateHeader(LedGetCurrentColor, timestamp, nonce)),
                                                    []))
  {
    var h := GenerateHeader(LedGetCurrentColor, timestamp, nonce);
    PacketRoundTrip(stored, mac, LedGetCurrentColor, timestamp, nonce, []);
    assert h + [] == h;
  }

  /** `sendPacket`: writes and flushes. With no stream the write is skipped
      and nothing fails; a failing write disconnects. */
  function SendPacket(s: Session, writeFails: bool): (t: Session)
    ensures !s.socket ==> t == s
    ensures s.socket && !writeFails ==> t == s
    ensures s.socket && writeFails ==> Disconnected(t)
    ensures t.secret == s.secret && t.color == s.color
  {
    if s.socket && writeFails then Disconnect(s) else s
  }

  /** Sending after a disconnect never fails and changes nothing. */
  lemma SendAfterDisconnect(s: Session, writeFails: bool)
    ensures SendPacket(Disconnect(s), writeFails) == Disconnect(s)
  {
  }

  /** One blocking read into a fresh 55-byte buffer: `count` bytes arrived
      (0 or -1 when nothing did), or the read threw. */
  datatype ReadResult = Read(count: int, buffer: seq<byte>) | ReadFailed

  /** What `InputStream.read` guarantees about a buffer of 55 bytes. */
  predicate ValidRead(r: ReadResult) {
    r.Read? ==> |r.buffer| == BufferSize && -1 <= r.count <= BufferSize
  }

  /** The received prefix of a read, when there is one. */
  function Received(r: ReadResult): (o: Option<seq<byte>>)
    requires ValidRead(r)
    ensures o.Some? <==> r.Read? && r.count > 0
    ensures o.Some? ==> |o.value| == r.count && o.value == r.buffer[..r.count]
  {
    if r.Read? && r.count > 0 then Some(r.buffer[..r.count]) else None
  }

  /** One iteration of the listener loop on a session whose socket is set:
      a failed read disconnects; a read of `n > 0` bytes dispatches the
      `n`-byte prefix, and a chunk too short for its opcode is dropped;
      a read of zero or -1 bytes does nothing and the loop goes on. */
  function ListenStep(s: Session, r: ReadResult): (t: Session)
    requires ValidRead(r)
    ensures r.ReadFailed? ==> t == Disconnect(s)
    ensures r.Read? ==> t.(color := s.color) == s
    ensures r.Read? && (r.count <= 0 || !IsColorPush(r.buffer[..r.count])) ==> t == s
    ensures r.Read? && r.count > 0 && IsColorPush(r.buffer[..r.count]) ==>
      t.color == Rgb(r.buffer[50], r.buffer[51], r.buffer[52])
  {
    if r.ReadFailed? then Disconnect(s)
    else match Received(r)
      case None => s
      case Some(data) =>
        match HandleReceivedData(s.color, data)
        case Success(c) => s.(color := c)
        case Failure(_) => s
  }

  /** As written, an end of stream (-1) is handled like an empty read: the
      session keeps its socket and its connected flag, and the loop, whose
      condition only asks whether a socket is set, reads again at once. */
  lemma EndOfStreamKeepsConnection(s: Session, buffer: seq<byte>)
    requires |buffer| == BufferSize && s.connected
    ensures ListenStep(s, Read(-1, buffer)).connected
    ensures ListenStep(s, Read(-1, buffer)) == s
  {
  }

  /** The listener step with the end-of-stream exit restored: a read that
      reports the end of the stream ends the connection like a failed read;
      every other read is handled as before. */
  function ListenStepClosing(s: Session, r: ReadResult): (t: Session)
    requires ValidRead(r)
    ensures (r.ReadFailed? || r.count < 0) ==> Disconnected(t) && t.color == s.color
    ensures r.Read? && r.count >= 0 ==> t == ListenStep(s, r)
  {
    if r.Read? && r.count < 0 then Disconnect(s) else ListenStep(s, r)
  }

  /** With the correction, a peer that closes the stream can never leave the
      session reporting a live connection. */
  lemma EndOfStreamDisconnects(s: Session, buffer: seq<byte>)
    requires |buffer| == BufferSize
    ensures !ListenStepClosing(s, Read(-1, buffer)).connected
    ensures Consistent(ListenStepClosing(s, Read(-1, buffer)))
  {
  }

  /** The colour a listener ends with after the dispatched reads `rs`,
      starting from `c`: the last well-formed colour-changed push wins. */
  function LastPushedColor(c: Rgb, rs: seq<ReadResult>): Rgb
    requires forall i :: 0 <= i < |rs| ==> ValidRead(rs[i])
  {
    if rs == [] then c
    else
      var r := rs[|rs| - 1];
      assert ValidRead(r);
      var before := LastPushedColor(c, rs[..|rs| - 1]);
      if r.Read? && r.count > 0 && IsColorPush(r.buffer[..r.count])
      then Rgb(r.buffer[50], r.buffer[51], r.buffer[52])
      else before
  }

  /** The listener task: reads while the socket is set and reads remain.
      It stops at the first failed read, which disconnected the session; until then the socket stays set and the colour is the last
      pushed one. An end of stream (-1) does not stop it. */
  method Listen(s: Session, results: seq<ReadResult>) returns (t: Session, consumed: nat)
    requires forall i :: 0 <= i < |results| ==> ValidRead(results[i])
    ensures consumed <= |results|
    ensures !s.socket ==> t == s && consumed == 0
    ensures s.socket ==> consumed == |results| || (0 < consumed && results[consumed - 1].ReadFailed?)
    ensures s.socket && consumed > 0 && results[consumed - 1].ReadFailed? ==> Disconnected(t)
    ensures forall i :: 0 <= i < consumed - 1 ==> results[i].Read?
    ensures s.socket && (forall i :: 0 <= i < |results| ==> results[i].Read?) ==>
      consumed == |results| && t.socket == s.socket && t.connected == s.connected && t.listeners == s.listeners
    ensures t.secret == s.secret
    ensures t.color == LastPushedColor(s.color, results[..consumed])
  {
    t := s;
    consumed := 0;
    while consumed < |results| && t.socket
      invariant consumed <= |results|
      invariant t.secret == s.secret
      invariant t.color == LastPushedColor(s.color, results[..consumed])
      invariant !s.socket ==> t == s && consumed == 0
      invariant consumed == 0 ==> t == s
      invariant s.socket && consumed > 0 && !t.socket ==> results[consumed - 1].ReadFailed?
      invariant s.socket && consumed > 0 && results[consumed - 1].ReadFailed? ==> Disconnected(t)
      invariant forall i :: 0 <= i < consumed - 1 ==> results[i].Read?
      invariant s.socket && consumed > 0 && t.socket ==> results[consumed - 1].Read?
      invariant t.socket ==> t == s.(color := t.color)
    {
      var r := results[consumed];
      t := ListenStep(t, r);
      assert results[..consumed + 1][..consumed] == results[..consumed];
      consumed := consumed + 1;
    }
  }

  /** Every transition keeps the session consistent. */
  lemma TransitionsPreserveConsistency(s: Session, stored: Option<string>, c: Command, outcome: ConnectOutcome,
                                       writeFails: bool, r: ReadResult,
                                       timestamp: int64, nonce: int64, mac: Hmac)
    requires Consistent(s) && ValidRead(r)
    ensures Consistent(Initial)
    ensures Consistent(Disconnect(s))
    ensures Consistent(WithSharedSecret(s, stored, c, timestamp, nonce, mac).session)
    ensures Consistent(Connect(s, outcome, stored, timestamp, nonce, mac).session)
    ensures Consistent(SendPacket(s, writeFails))
    ensures Consistent(ListenStep(s, r))
  {
  }
}
