/** Dispatch of one received chunk: the opcode is read at offset 17 and only
    the colour-changed push has an effect, taking the new colour from the
    three bytes right after the authentication tag. The tag is not checked. */
module Inbound {
  import opened Bytes
  import opened Wrappers
  import opened Frame
  import opened Commands

  /** A chunk too short for the offsets its opcode needs; the source fails
      with an index-out-of-bounds exception in the dispatching task. */
  datatype DispatchError = TooShort(length: nat, needed: nat)

  const ColorEnd: nat := PayloadOffset + 3

  /** The colour after handling `data`, starting from `color`. */
  function HandleReceivedData(color: Rgb, data: seq<byte>): (r: Result<Rgb, DispatchError>)
    ensures |data| < HeaderLength ==> r == Failure(TooShort(|data|, HeaderLength))
    ensures |data| >= HeaderLength && data[OpcodeOffset] != SysColorChanged.Value() ==>
      r == Success(color)
    ensures |data| >= HeaderLength && data[OpcodeOffset] == SysColorChanged.Value() ==>
      && (r.Success? <==> |data| >= ColorEnd)
      && (r.Success? ==> r.value == Rgb(data[50], data[51], data[52]))
  {
    if |data| < HeaderLength then Failure(TooShort(|data|, HeaderLength))
    else
      var receivedVersion := Signed(data[VersionOffset]);
      var receivedOp := Signed(data[OpcodeOffset]);
      if receivedOp == SysColorChanged.Value() then
        if |data| < ColorEnd then Failure(TooShort(|data|, ColorEnd))
        else Success(Rgb(data[PayloadOffset], data[PayloadOffset + 1], data[PayloadOffset + 2]))
      else
        Success(color)
  }

  /** The version byte is read but plays no part in the outcome. */
  lemma VersionIgnored(color: Rgb, data: seq<byte>, v: byte)
    requires |data| >= HeaderLength
    ensures HandleReceivedData(color, data[VersionOffset := v]) == HandleReceivedData(color, data)
  {
  }

  /** Only a well-formed colour-changed push alters the colour. */
  predicate IsColorPush(data: seq<byte>) {
    |data| >= ColorEnd && data[OpcodeOffset] == SysColorChanged.Value()
  }

  lemma ColorChangesOnlyOnPush(color: Rgb, data: seq<byte>)
    requires HandleReceivedData(color, data).Success?
    ensures IsColorPush(data) ==>
      HandleReceivedData(color, data).value == Rgb(data[50], data[51], data[52])
    ensures !IsColorPush(data) ==> HandleReceivedData(color, data).value == color
  {
  }

  /** The hard-coded offsets agree with the outbound layout: in a frame built
      like an outgoing packet, header (18 bytes) and tag (32 bytes) put
      payload bytes 0..2 at offsets 50..52. So a colour-changed push built
      with the set-colour payload layout delivers exactly its colour. */
  lemma PushFrameCarriesColor(secret: string, mac: Hmac, timestamp: int64, nonce: int64, color: Rgb, previous: Rgb)
    ensures var push := CreatePacket(Some(secret), mac, GenerateHeader(SysColorChanged, timestamp, nonce),
                                     [color.red, color.green, color.blue, 0, 0]);
      && |push| == BufferSize
      && HandleReceivedData(previous, push) == Success(color)
  {
    var payload := [color.red, color.green, color.blue, 0, 0];
    var push := CreatePacket(Some(secret), mac, GenerateHeader(SysColorChanged, timestamp, nonce), payload);
    assert push[PayloadOffset..] == payload;
    assert push[50] == payload[0] && push[51] == payload[1] && push[52] == payload[2];
  }

  /** Every command the client itself sends, if echoed back, leaves the colour
      alone: none of them uses the colour-changed opcode. */
  lemma OwnCommandsIgnored(secret: string, mac: Hmac, timestamp: int64, nonce: int64, c: Command, color: Rgb)
    ensures HandleReceivedData(color,
      CreatePacket(Some(secret), mac, GenerateHeader(OpOf(c), timestamp, nonce), Payload(c))) == Success(color)
  {
    var p := CreatePacket(Some(secret), mac, GenerateHeader(OpOf(c), timestamp, nonce), Payload(c));
    assert p[..HeaderLength] == GenerateHeader(OpOf(c), timestamp, nonce);
    assert p[OpcodeOffset] == OpOf(c).Value();
    OpValueInjective(OpOf(c), SysColorChanged);
  }
}
