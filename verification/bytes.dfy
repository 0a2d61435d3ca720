/** Byte-level conventions of the JVM as the protocol engine uses them:
    unsigned views of bytes, Kotlin's truncating `toByte()`, the signed
    `Byte.toInt()`, and the big-endian two's-complement layout that
    `ByteBuffer.putLong` writes for a 64-bit `Long`.
 */
module Bytes {

  /** A byte, seen as its unsigned value. */
  type byte = b: int | 0 <= b < 256

  const Two63: int := 0x8000_0000_0000_0000
  const Two64: int := 0x1_0000_0000_0000_0000

  /** The range of a Kotlin `Long`. */
  type int64 = x: int | -0x8000_0000_0000_0000 <= x < 0x8000_0000_0000_0000

  /** Kotlin `Int.toByte()` / `Long.toByte()`: keeps the low eight bits of the
      two's-complement representation, seen here unsigned. */
  function ToByte(x: int): (b: byte)
    ensures exists k :: x == k * 256 + b
    ensures 0 <= x < 256 ==> b == x
  {
    var b := x % 256;
    assert x == (x / 256) * 256 + b;
    b
  }

  /** Kotlin `Byte.toInt()`: sign-extends the byte. */
  function Signed(b: byte): (v: int)
    ensures -128 <= v < 128
    ensures ToByte(v) == b
  {
    if b < 128 then b else b - 256
  }

  /** Two bytes are equal exactly when their signed views are. */
  lemma SignedInjective(a: byte, b: byte)
    ensures Signed(a) == Signed(b) <==> a == b
  {
    if Signed(a) == Signed(b) {
      assert ToByte(Signed(a)) == ToByte(Signed(b));
    }
  }

  function Pow256(n: nat): (p: int)
    ensures p >= 1
  {
    if n == 0 then 1 else 256 * Pow256(n - 1)
  }

  lemma Pow256Eight()
    ensures Pow256(8) == Two64
    ensures Pow256(7) * 128 == Two63
  {
    assert Pow256(1) == 256;
    assert Pow256(2) == 0x1_0000;
    assert Pow256(3) == 0x100_0000;
    assert Pow256(4) == 0x1_0000_0000;
    assert Pow256(5) == 0x100_0000_0000;
    assert Pow256(6) == 0x1_0000_0000_0000;
    assert Pow256(7) == 0x100_0000_0000_0000;
  }

  /** The `n`-byte big-endian encoding of an unsigned value that fits. */
  function UintBE(u: nat, n: nat): (s: seq<byte>)
    requires u < Pow256(n)
    ensures |s| == n
  {
    if n == 0 then [] else UintBE(u / 256, n - 1) + [u % 256]
  }

  /** Reads a byte string as a big-endian unsigned value. */
  function ParseUintBE(s: seq<byte>): (u: nat)
    ensures u < Pow256(|s|)
  {
    if s == [] then 0 else ParseUintBE(s[..|s| - 1]) * 256 + s[|s| - 1]
  }

  lemma {:induction false} ParseUintBE_UintBE(u: nat, n: nat)
    requires u < Pow256(n)
    ensures ParseUintBE(UintBE(u, n)) == u
    decreases n
  {
    if n > 0 {
      var s := UintBE(u, n);
      assert s[..n - 1] == UintBE(u / 256, n - 1);
      ParseUintBE_UintBE(u / 256, n - 1);
    }
  }

  lemma {:induction false} UintBE_ParseUintBE(s: seq<byte>)
    ensures UintBE(ParseUintBE(s), |s|) == s
    decreases |s|
  {
    if s != [] {
      var init := s[..|s| - 1];
      var u := ParseUintBE(s);
      assert u / 256 == ParseUintBE(init) && u % 256 == s[|s| - 1];
      UintBE_ParseUintBE(init);
      assert s == init + [s[|s| - 1]];
    }
  }

  /** Division by a product is repeated division. */
  lemma DivDiv(a: nat, b: int, c: int)
    requires b >= 1 && c >= 1
    ensures a / b / c == a / (b * c)
  {
    var q := a / (b * c);
    var r := a % (b * c);
    var r1 := r / b;
    MulLower(r1, c, b, r);
    assert a == (q * c + r1) * b + r % b;
    DivUnique(a, b, q * c + r1, r % b);
    DivUnique(q * c + r1, c, q, r1);
  }

  /** If `r1 * b <= r < c * b` then `r1 < c`. */
  lemma MulLower(r1: int, c: int, b: int, r: int)
    requires b >= 1 && r1 == r / b && 0 <= r < b * c
    ensures 0 <= r1 < c
  {
    assert r1 * b <= r;
    assert r1 * b < c * b;
    assert (c - r1) * b > 0;
  }

  lemma DivUnique(a: int, b: int, q: int, r: int)
    requires b >= 1 && a == q * b + r && 0 <= r < b
    ensures a / b == q
  {
    var k := q - a / b;
    assert k * b == a % b - r;
    assert -b < k * b < b;
    ProductBound(k, b);
  }

  /** The only multiple of `b` strictly between `-b` and `b` is zero. */
  lemma ProductBound(k: int, b: int)
    requires b >= 1 && -b < k * b < b
    ensures k == 0
  {
    MulCancelLt(k, 1, b);
    MulCancelLt(-1, k, b);
  }

  lemma MulCancelLt(a: int, c: int, p: int)
    requires p >= 1 && a * p < c * p
    ensures a < c
  {
    assert (c - a) * p > 0;
  }

  /** Bounds on a quotient from bounds on the dividend. */
  lemma DivRange(u: nat, p: int, lo: int, hi: int)
    requires p >= 1 && lo * p <= u < hi * p
    ensures lo <= u / p < hi
  {
    var d := u / p;
    assert u == d * p + u % p;
    MulCancelLt(d, hi, p);
    MulCancelLt(lo, d + 1, p);
  }

  /** Byte `i` of the big-endian encoding is digit `n - 1 - i` of `u` in base 256:
      the most significant byte comes first. */
  lemma {:induction false} UintBE_Digit(u: nat, n: nat, i: nat)
    requires u < Pow256(n) && i < n
    ensures UintBE(u, n)[i] == u / Pow256(n - 1 - i) % 256
    decreases n
  {
    if i < n - 1 {
      UintBE_Digit(u / 256, n - 1, i);
      DivDiv(u, 256, Pow256(n - 2 - i));
    }
  }

  /** `ByteBuffer.allocate(8).putLong(x).array()`. */
  function EncodeInt64(x: int64): (s: seq<byte>)
    ensures |s| == 8
    ensures DecodeInt64(s) == x
  {
    Pow256Eight();
    ParseUintBE_UintBE(x % Two64, 8);
    UintBE(x % Two64, 8)
  }

  /** `ByteBuffer.wrap(s).getLong()`: big-endian, two's complement. */
  function DecodeInt64(s: seq<byte>): (x: int64)
    requires |s| == 8
  {
    Pow256Eight();
    var u := ParseUintBE(s);
    if u < Two63 then u else u - Two64
  }

  lemma Int64RoundTrip(x: int64)
    ensures DecodeInt64(EncodeInt64(x)) == x
  {
    Pow256Eight();
    ParseUintBE_UintBE(x % Two64, 8);
  }

  lemma Int64RoundTripBytes(s: seq<byte>)
    requires |s| == 8
    ensures EncodeInt64(DecodeInt64(s)) == s
  {
    Pow256Eight();
    var u := ParseUintBE(s);
    var x := DecodeInt64(s);
    if u < Two63 {
      assert x % Two64 == u;
    } else {
      assert x == u - Two64;
      assert x % Two64 == u;
    }
    UintBE_ParseUintBE(s);
  }

  /** Byte `i` of the encoding is digit `7 - i` of the value modulo 2^64,
      which is the two's-complement representation. */
  lemma Int64Digit(x: int64, i: nat)
    requires i < 8
    ensures EncodeInt64(x)[i] == x % Two64 / Pow256(7 - i) % 256
  {
    Pow256Eight();
    UintBE_Digit(x % Two64, 8, i);
  }

  /** The top bit of the first byte is the sign bit. */
  lemma Int64SignBit(x: int64)
    ensures EncodeInt64(x)[0] >= 128 <==> x < 0
  {
    Pow256Eight();
    Int64Digit(x, 0);
    var u := x % Two64;
    if x < 0 {
      assert u == x + Two64;
      DivRange(u, Pow256(7), 128, 256);
    } else {
      assert u == x;
      DivRange(u, Pow256(7), 0, 128);
    }
  }
}
