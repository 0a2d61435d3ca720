/** The command encoder: the opcode and payload layout of each outbound
    command. Colour channels arrive as the integers the source computes from
    the unit-interval floats, `(channel * 255).toInt()`; they and the
    animation parameters are cut to one byte by Kotlin's `toByte()`. */
module Commands {
  import opened Bytes
  import opened Wrappers
  import opened Frame

  /** A colour as three unsigned channel bytes. */
  datatype Rgb = Rgb(red: byte, green: byte, blue: byte)

  /** The client-to-server commands, with their arguments as the source
      receives them. */
  datatype Command =
    | SetColor(red: int, green: int, blue: int)
    | StartFade(red: int, green: int, blue: int, duration: int, speed: int)
    | StartPulse(red: int, green: int, blue: int, duration: int, speed: int)
    | ToggleSuspend
    | RequestColor

  /** The fixed payload of the toggle-suspend command; the client attaches
      no meaning to its bytes. */
  const SuspendMarker: seq<byte> := [209, 0, 255, 3, 0]

  /** The opcode each command is sent with. */
  function OpOf(c: Command): (op: Op)
    ensures c.SetColor? <==> op.Value() == 0
    ensures c.RequestColor? <==> op.Value() == 1
    ensures c.StartFade? <==> op.Value() == 2
    ensures c.StartPulse? <==> op.Value() == 3
    ensures c.ToggleSuspend? <==> op.Value() == 4
    ensures op != SysColorChanged
  {
    match c
    case SetColor(_, _, _) => LedSetColor
    case StartFade(_, _, _, _, _) => AnimSetFade
    case StartPulse(_, _, _, _, _) => AnimSetPulse
    case ToggleSuspend => SysToggleSuspend
    case RequestColor => LedGetCurrentColor
  }

  /** The payload bytes of each command. */
  function Payload(c: Command): (p: seq<byte>)
    ensures c.RequestColor? <==> p == []
    ensures !c.RequestColor? ==> |p| == 5
    ensures c.ToggleSuspend? ==> p == SuspendMarker
    ensures c.SetColor? ==> p[3] == 0 && p[4] == 0
    ensures (c.SetColor? || c.StartFade? || c.StartPulse?) ==>
      p[0] == ToByte(c.red) && p[1] == ToByte(c.green) && p[2] == ToByte(c.blue)
    ensures (c.StartFade? || c.StartPulse?) ==>
      p[3] == ToByte(c.duration) && p[4] == ToByte(c.speed)
  {
    match c
    case SetColor(r, g, b) => [ToByte(r), ToByte(g), ToByte(b), 0, 0]
    case StartFade(r, g, b, d, s) => [ToByte(r), ToByte(g), ToByte(b), ToByte(d), ToByte(s)]
    case StartPulse(r, g, b, d, s) => [ToByte(r), ToByte(g), ToByte(b), ToByte(d), ToByte(s)]
    case ToggleSuspend => SuspendMarker
    case RequestColor => []
  }

  /** Every argument already fits in one byte. */
  predicate Canonical(c: Command) {
    match c
    case SetColor(r, g, b) => IsByte(r) && IsByte(g) && IsByte(b)
    case StartFade(r, g, b, d, s) => IsByte(r) && IsByte(g) && IsByte(b) && IsByte(d) && IsByte(s)
    case StartPulse(r, g, b, d, s) => IsByte(r) && IsByte(g) && IsByte(b) && IsByte(d) && IsByte(s)
    case ToggleSuspend => true
    case RequestColor => true
  }

  predicate IsByte(x: int) {
    0 <= x < 256
  }

  /** The command with each argument cut to the byte `toByte()` keeps. */
  function Normalize(c: Command): (n: Command)
    ensures Canonical(n)
    ensures OpOf(n) == OpOf(c)
  {
    match c
    case SetColor(r, g, b) => SetColor(ToByte(r), ToByte(g), ToByte(b))
    case StartFade(r, g, b, d, s) => StartFade(ToByte(r), ToByte(g), ToByte(b), ToByte(d), ToByte(s))
    case StartPulse(r, g, b, d, s) => StartPulse(ToByte(r), ToByte(g), ToByte(b), ToByte(d), ToByte(s))
    case ToggleSuspend => ToggleSuspend
    case RequestColor => RequestColor
  }

  /** How a receiver reads a command back from its opcode and payload: the
      reference against which the encoder is checked. The colour-changed
      opcode is server-to-client only and names no command. */
  function DecodeCommand(op: Op, p: seq<byte>): (r: Option<Command>)
    ensures r.Some? ==> Canonical(r.value) && OpOf(r.value) == op
  {
    match op
    case LedSetColor =>
      if |p| == 5 && p[3] == 0 && p[4] == 0 then Some(SetColor(p[0], p[1], p[2])) else None
    case LedGetCurrentColor =>
      if p == [] then Some(RequestColor) else None
    case AnimSetFade =>
      if |p| == 5 then Some(StartFade(p[0], p[1], p[2], p[3], p[4])) else None
    case AnimSetPulse =>
      if |p| == 5 then Some(StartPulse(p[0], p[1], p[2], p[3], p[4])) else None
    case SysToggleSuspend =>
      if p == SuspendMarker then Some(ToggleSuspend) else None
    case SysColorChanged =>
      None
  }

  /** Decoding an encoded command gives back the command with its arguments
      truncated to bytes; a command whose arguments already fit comes back
      unchanged. */
  lemma DecodeEncode(c: Command)
    ensures DecodeCommand(OpOf(c), Payload(c)) == Some(Normalize(c))
    ensures Canonical(c) ==> Normalize(c) == c
  {
  }

  /** Whatever decodes re-encodes to the same opcode and payload bytes. */
  lemma EncodeDecode(op: Op, p: seq<byte>)
    requires DecodeCommand(op, p).Some?
    ensures OpOf(DecodeCommand(op, p).value) == op
    ensures Payload(DecodeCommand(op, p).value) == p
  {
    var c := DecodeCommand(op, p).value;
    assert Payload(c) == p;
  }

  /** Truncation is all that is lost: two commands have the same wire form
      exactly when they agree after cutting their arguments to bytes. */
  lemma EncodingDeterminedByBytes(a: Command, b: Command)
    ensures (OpOf(a) == OpOf(b) && Payload(a) == Payload(b)) <==> Normalize(a) == Normalize(b)
  {
    if OpOf(a) == OpOf(b) && Payload(a) == Payload(b) {
      DecodeEncode(a);
      DecodeEncode(b);
    }
  }
}
