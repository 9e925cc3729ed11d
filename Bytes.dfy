/** Byte sequences and the few .NET helpers the strong namer applies to them:
    `Enumerable.Reverse`, `BitConverter.ToString(...).Replace("-", "")` and the
    little-endian truncating stores `(byte)(n >> k)`. */
module Bytes {

  newtype byte = b: int | 0 <= b < 256

  /** `Enumerable.Reverse`: the same elements, last first. */
  function Reverse<T>(s: seq<T>): (r: seq<T>)
    ensures |r| == |s|
    ensures forall i :: 0 <= i < |s| ==> r[i] == s[|s| - 1 - i]
  {
    if s == [] then [] else Reverse(s[1..]) + [s[0]]
  }

  // ---------------------------------------------------------------------------
  // Little-endian 32-bit length fields

  const TwoTo32: nat := 0x1_0000_0000

  /** The four stores `(byte)(n >> 0)`, `(byte)(n >> 8)`, `(byte)(n >> 16)`,
      `(byte)(n >> 24)`: each shift keeps the bits above k and the cast keeps
      the low eight of those. */
  function Le32(n: nat): (b: seq<byte>)
    ensures |b| == 4
  {
    [(n % 256) as byte, (n / 0x100 % 256) as byte,
     (n / 0x1_0000 % 256) as byte, (n / 0x100_0000 % 256) as byte]
  }

  /** Reads four bytes as an unsigned little-endian number. */
  function DecodeLe32(b: seq<byte>): (n: nat)
    requires |b| == 4
    ensures n < TwoTo32
  {
    b[0] as nat + 0x100 * b[1] as nat + 0x1_0000 * b[2] as nat + 0x100_0000 * b[3] as nat
  }

  /** Storing a length and reading it back gives the length modulo 2^32; in
      particular every length below 2^32 survives unchanged. */
  lemma DecodeLe32OfLe32(n: nat)
    ensures DecodeLe32(Le32(n)) == n % TwoTo32
    ensures n < TwoTo32 ==> DecodeLe32(Le32(n)) == n
  {
    var q1, q2, q3 := n / 0x100, n / 0x1_0000, n / 0x100_0000;
    assert q2 == q1 / 0x100;
    assert q3 == q2 / 0x100;
    assert n == n % 256 + 0x100 * q1;
    assert q1 == q1 % 256 + 0x100 * q2;
    assert q2 == q2 % 256 + 0x100 * q3;
    assert q3 == q3 % 256 + 0x100 * (n / TwoTo32);
    assert n == DecodeLe32(Le32(n)) + TwoTo32 * (n / TwoTo32);
  }

  // ---------------------------------------------------------------------------
  // Upper-case hexadecimal text

  const HexDigits: string := "0123456789ABCDEF"

  function HexByte(b: byte): string {
    [HexDigits[b / 16], HexDigits[b % 16]]
  }

  /** `BitConverter.ToString(bytes).Replace("-", "")`: two upper-case digits per
      byte, the high nibble first, the bytes in their own order, no separators. */
  function Hex(bytes: seq<byte>): (s: string)
    ensures |s| == 2 * |bytes|
    ensures forall k :: 0 <= k < |bytes| ==>
      s[2 * k] == HexDigits[bytes[k] / 16] && s[2 * k + 1] == HexDigits[bytes[k] % 16]
  {
    if bytes == [] then "" else HexByte(bytes[0]) + Hex(bytes[1..])
  }

  /** The value of one hexadecimal digit as written by `Hex`. */
  function DigitValue(c: char): (v: nat)
    ensures v < 16
  {
    if '0' <= c <= '9' then (c - '0') as nat
    else if 'A' <= c <= 'F' then (c - 'A') as nat + 10
    else 0
  }

  /** Reads the text back into bytes, two digits at a time. */
  function UnHex(s: string): (bytes: seq<byte>)
    requires |s| % 2 == 0
    ensures |bytes| == |s| / 2
  {
    if s == [] then []
    else [(16 * DigitValue(s[0]) + DigitValue(s[1])) as byte] + UnHex(s[2..])
  }

  lemma DigitValueOfHexDigit(n: nat)
    requires n < 16
    ensures DigitValue(HexDigits[n]) == n
  {
  }

  /** One byte survives its two digits. */
  lemma HexByteRoundTrip(b: byte)
    ensures (16 * DigitValue(HexByte(b)[0]) + DigitValue(HexByte(b)[1])) as byte == b
  {
    DigitValueOfHexDigit(b as nat / 16);
    DigitValueOfHexDigit(b as nat % 16);
  }

  /** The key text appended to a friend declaration determines the key: `Hex`
      loses nothing. */
  lemma {:induction false} UnHexOfHex(bytes: seq<byte>)
    ensures UnHex(Hex(bytes)) == bytes
  {
    if bytes != [] {
      var s := Hex(bytes);
      HexByteRoundTrip(bytes[0]);
      assert s[..2] == HexByte(bytes[0]) && s[2..] == Hex(bytes[1..]);
      UnHexOfHex(bytes[1..]);
    }
  }
}
