/** The wire frame: an 18-byte header (timestamp, nonce, protocol version,
    opcode), a 32-byte authentication tag, then the payload. */
module Frame {
  import opened Bytes
  import opened Wrappers

  /** Protocol version written into every header. */
  const Version: byte := 4

  const HeaderLength: nat := 18
  const VersionOffset: nat := 16
  const OpcodeOffset: nat := 17
  const TagLength: nat := 32
  /** Where the payload starts: right after header and tag. */
  const PayloadOffset: nat := 50
  /** Size of the listener's read buffer: header, tag and a 5-byte payload. */
  const BufferSize: nat := 55

  /** The operations of the protocol; each constructor's wire value is its opcode. */
  datatype Op =
    | LedSetColor
    | LedGetCurrentColor
    | AnimSetFade
    | AnimSetPulse
    | SysToggleSuspend
    | SysColorChanged
  {
    function Value(): (v: byte)
      ensures v < 6
      ensures v == 5 <==> this == SysColorChanged
    {
      match this
      case LedSetColor => 0
      case LedGetCurrentColor => 1
      case AnimSetFade => 2
      case AnimSetPulse => 3
      case SysToggleSuspend => 4
      case SysColorChanged => 5
    }
  }

  /** The operation whose opcode is `v`, if any. */
  function OpOfValue(v: int): (o: Option<Op>)
    ensures o.Some? <==> 0 <= v < 6
    ensures o.Some? ==> o.value.Value() == v
  {
    if v == 0 then Some(LedSetColor)
    else if v == 1 then Some(LedGetCurrentColor)
    else if v == 2 then Some(AnimSetFade)
    else if v == 3 then Some(AnimSetPulse)
    else if v == 4 then Some(SysToggleSuspend)
    else if v == 5 then Some(SysColorChanged)
    else None
  }

  /** Opcodes are pairwise distinct, so an opcode names exactly one operation. */
  lemma OpValueInjective(a: Op, b: Op)
    ensures a.Value() == b.Value() <==> a == b
    ensures OpOfValue(a.Value()) == Some(a)
  {
  }

  /** A keyed MAC with a 32-byte digest (HMAC-SHA256 keyed by the shared
      secret); its internals are not modelled. */
  type Hmac = f: (string, seq<byte>) -> seq<byte> | forall key, msg :: |f(key, msg)| == TagLength
    witness (key: string, msg: seq<byte>) => seq(32, i => 0)

  /** The key rule of `SecretKeySpec`, which `hmacSha256` builds from the
      secret's UTF-8 bytes: an empty key is refused with an exception, so the
      MAC yields a tag only for a non-empty secret. */
  predicate KeyAccepted(secret: string) {
    secret != ""
  }

  /** The decoded fields of a header. */
  datatype Header = Header(timestamp: int64, nonce: int64, version: byte, opcode: byte)

  /** Reads the header fields from the first 18 bytes of `raw`. */
  function ParseHeader(raw: seq<byte>): (h: Header)
    requires |raw| >= HeaderLength
    ensures h.version == raw[VersionOffset] && h.opcode == raw[OpcodeOffset]
  {
    Header(DecodeInt64(raw[0..8]), DecodeInt64(raw[8..16]), raw[16], raw[17])
  }

  /** The header for `op`, with the clock reading (seconds) and the random
      nonce supplied by the caller. */
  function GenerateHeader(op: Op, timestamp: int64, nonce: int64): (h: seq<byte>)
    ensures |h| == HeaderLength
    ensures h[VersionOffset] == Version && h[OpcodeOffset] == op.Value()
    ensures ParseHeader(h) == Header(timestamp, nonce, Version, op.Value())
  {
    Int64RoundTrip(timestamp);
    Int64RoundTrip(nonce);
    var h := EncodeInt64(timestamp) + EncodeInt64(nonce) + [Version, op.Value()];
    assert h[0..8] == EncodeInt64(timestamp);
    assert h[8..16] == EncodeInt64(nonce);
    h
  }

  /** Bytes 0..7 and 8..15 of a header are the big-endian two's-complement
      encodings of the timestamp and the nonce. */
  lemma HeaderDigits(op: Op, timestamp: int64, nonce: int64)
    ensures forall i :: 0 <= i < 8 ==>
      GenerateHeader(op, timestamp, nonce)[i] == timestamp % Two64 / Pow256(7 - i) % 256
    ensures forall i :: 8 <= i < 16 ==>
      GenerateHeader(op, timestamp, nonce)[i] == nonce % Two64 / Pow256(15 - i) % 256
  {
    var h := GenerateHeader(op, timestamp, nonce);
    forall i | 0 <= i < 8
      ensures h[i] == timestamp % Two64 / Pow256(7 - i) % 256
    {
      Int64Digit(timestamp, i);
    }
    forall i | 8 <= i < 16
      ensures h[i] == nonce % Two64 / Pow256(15 - i) % 256
    {
      Int64Digit(nonce, i - 8);
    }
  }

  /** Every 18-byte string with version 4 and a known opcode is the header
      of its own decoded fields: parsing loses nothing. */
  lemma HeaderFromParsed(raw: seq<byte>)
    requires |raw| == HeaderLength && raw[VersionOffset] == Version && raw[OpcodeOffset] < 6
    ensures OpOfValue(raw[OpcodeOffset]).Some?
    ensures var h := ParseHeader(raw);
      GenerateHeader(OpOfValue(h.opcode).value, h.timestamp, h.nonce) == raw
  {
    var h := ParseHeader(raw);
    var g := GenerateHeader(OpOfValue(h.opcode).value, h.timestamp, h.nonce);
    Int64RoundTripBytes(raw[0..8]);
    Int64RoundTripBytes(raw[8..16]);
    assert g == raw[0..8] + raw[8..16] + [raw[16], raw[17]];
    assert raw == raw[0..8] + raw[8..16] + [raw[16], raw[17]];
  }

  /** `header ‖ tag ‖ payload`, the tag being the MAC of `header ‖ payload`
      under the shared secret; nothing at all without a secret. */
  function CreatePacket(secret: Option<string>, mac: Hmac, header: seq<byte>, payload: seq<byte>): (p: seq<byte>)
    ensures secret.None? ==> p == []
    ensures secret.Some? ==>
      && |p| == |header| + TagLength + |payload|
      && p[..|header|] == header
      && p[|header|..|header| + TagLength] == mac(secret.value, header + payload)
      && p[|header| + TagLength..] == payload
  {
    if secret.None? then []
    else header + mac(secret.value, header + payload) + payload
  }

  /** A received frame split at the fixed offsets. */
  datatype Packet = Packet(header: Header, tag: seq<byte>, payload: seq<byte>)

  function ParseFrame(raw: seq<byte>): (r: Option<Packet>)
    ensures r.Some? <==> |raw| >= PayloadOffset
    ensures r.Some? ==> |r.value.tag| == TagLength && |r.value.payload| == |raw| - PayloadOffset
  {
    if |raw| < PayloadOffset then None
    else Some(Packet(ParseHeader(raw), raw[HeaderLength..PayloadOffset], raw[PayloadOffset..]))
  }

  /** The tag of `raw` is the MAC of its header and payload under `secret`. */
  predicate Authentic(secret: string, mac: Hmac, raw: seq<byte>)
    requires |raw| >= PayloadOffset
  {
    raw[HeaderLength..PayloadOffset] == mac(secret, raw[..HeaderLength] + raw[PayloadOffset..])
  }

  /** A packet built from a generated header parses back into the header's
      fields, the tag and the payload, and carries a valid tag. */
  lemma PacketRoundTrip(secret: string, mac: Hmac, op: Op, timestamp: int64, nonce: int64, payload: seq<byte>)
    ensures var header := GenerateHeader(op, timestamp, nonce);
      var p := CreatePacket(Some(secret), mac, header, payload);
      && ParseFrame(p) == Some(Packet(Header(timestamp, nonce, Version, op.Value()), mac(secret, header + payload), payload))
      && Authentic(secret, mac, p)
  {
    var header := GenerateHeader(op, timestamp, nonce);
    var p := CreatePacket(Some(secret), mac, header, payload);
    assert p[..HeaderLength] == header;
    assert ParseHeader(p) == ParseHeader(header) by {
      assert p[0..8] == header[0..8] && p[8..16] == header[8..16];
    }
  }
}
