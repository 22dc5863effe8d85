/**
 * Octets, the big-endian two's-complement int32 that java.io.DataInput.readInt
 * reads, the 48-byte SHA-384 digest (FIPS 180-4, section 6.5), and lower-case
 * hexadecimal text as org.apache.commons.codec.binary.Hex.encodeHexString
 * produces it.
 */
module Bytes {

  /** One octet of a file. Java's `byte` is signed; the model keeps the raw octet. */
  newtype uint8 = x: int | 0 <= x < 0x100

  const INT32_MIN: int := -0x8000_0000
  const INT32_MAX: int := 0x7FFF_FFFF

  predicate IsInt32(n: int) { INT32_MIN <= n <= INT32_MAX }

  function Min(a: int, b: int): int { if a <= b then a else b }

  /** The value `readInt` yields for four octets, high octet first. */
  function BigEndianInt32(b: seq<uint8>): (n: int)
    requires |b| == 4
    ensures IsInt32(n)
    ensures n < 0 <==> b[0] >= 0x80
  {
    var u := (b[0] as int) * 0x100_0000 + (b[1] as int) * 0x1_0000 + (b[2] as int) * 0x100 + b[3] as int;
    if u <= INT32_MAX then u else u - 0x1_0000_0000
  }

  /** The four octets `DataOutput.writeInt` writes for `n`. */
  function Int32Bytes(n: int): (b: seq<uint8>)
    requires IsInt32(n)
    ensures |b| == 4
  {
    var u := if n < 0 then n + 0x1_0000_0000 else n;
    [(u / 0x100_0000) as uint8, (u / 0x1_0000 % 0x100) as uint8, (u / 0x100 % 0x100) as uint8, (u % 0x100) as uint8]
  }

  /** `readInt` reads back what `writeInt` wrote. */
  lemma Int32RoundTrip(n: int)
    requires IsInt32(n)
    ensures BigEndianInt32(Int32Bytes(n)) == n
  {
    var u := if n < 0 then n + 0x1_0000_0000 else n;
    var q1 := u / 0x100;
    var q2 := u / 0x1_0000;
    var q3 := u / 0x100_0000;
    assert q1 / 0x100 == q2;
    assert q2 / 0x100 == q3;
    assert q2 == q3 * 0x100 + q2 % 0x100;
    assert q1 == q2 * 0x100 + q1 % 0x100;
    assert u == q1 * 0x100 + u % 0x100;
    var b := Int32Bytes(n);
    assert b[0] as int == q3 && b[1] as int == q2 % 0x100 && b[2] as int == q1 % 0x100 && b[3] as int == u % 0x100;
  }

  /** Length of a SHA-384 digest in octets (FIPS 180-4, section 6.5: 384 bits). */
  const HASH_LENGTH: nat := 48

  /** `n` zero bytes. */
  function Zeros(n: nat): (z: seq<uint8>)
    ensures |z| == n && forall i :: 0 <= i < n ==> z[i] == 0
  {
    if n == 0 then [] else Zeros(n - 1) + [0]
  }

  /** A freshly allocated `new byte[48]`: all zero. */
  const ZERO_HASH: seq<uint8> := Zeros(HASH_LENGTH)

  type Hash48 = s: seq<uint8> | |s| == HASH_LENGTH witness ZERO_HASH

  predicate IsHexDigit(c: char) { '0' <= c <= '9' || 'a' <= c <= 'f' }

  /** The lower-case digit for a nibble, as in "0123456789abcdef". */
  function HexDigit(v: nat): (c: char)
    requires v < 16
    ensures IsHexDigit(c)
  {
    if v < 10 then ('0' as int + v) as char else ('a' as int + v - 10) as char
  }

  /** Lower-case hexadecimal, two characters per octet, high nibble first. */
  function Hex(s: seq<uint8>): (h: string)
    ensures |h| == 2 * |s|
    ensures forall i :: 0 <= i < |h| ==> IsHexDigit(h[i])
  {
    if s == [] then [] else [HexDigit(s[0] as int / 16), HexDigit(s[0] as int % 16)] + Hex(s[1..])
  }

  /** The nibble a hexadecimal digit stands for. */
  function DigitValue(c: char): (v: nat)
    requires IsHexDigit(c)
    ensures v < 16 && HexDigit(v) == c
  {
    if '0' <= c <= '9' then c as int - '0' as int else c as int - 'a' as int + 10
  }

  predicate IsHex(h: string) { |h| % 2 == 0 && forall i :: 0 <= i < |h| ==> IsHexDigit(h[i]) }

  /** The octets a lower-case hexadecimal string spells. */
  function UnHex(h: string): (s: seq<uint8>)
    requires IsHex(h)
    ensures |s| == |h| / 2
  {
    if h == [] then []
    else [(DigitValue(h[0]) * 16 + DigitValue(h[1])) as uint8] + UnHex(h[2..])
  }

  /** Hex loses nothing: the octets can be read back from the text. */
  lemma {:induction false} UnHexHex(s: seq<uint8>)
    ensures IsHex(Hex(s)) && UnHex(Hex(s)) == s
  {
    if s != [] {
      var h := Hex(s);
      assert h[2..] == Hex(s[1..]);
      UnHexHex(s[1..]);
      assert DigitValue(h[0]) == s[0] as int / 16;
      assert DigitValue(h[1]) == s[0] as int % 16;
    }
  }

}
