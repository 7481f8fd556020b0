/** Bytes, the fixed escaping tables and the output stream shared by both
    passes of the URL normaliser (Normalisation.java). Java's signed bytes
    masked with 0xFF are plain values 0..255 here. */
module Bytes {

  type Byte = b: int | 0 <= b < 256
  type Bytes = seq<Byte>

  const PERCENT: Byte := '%' as int
  const SPACE: Byte := ' ' as int
  const PLUS: Byte := '+' as int
  const QUESTION: Byte := '?' as int
  const HASH: Byte := '#' as int
  const SLASH: Byte := '/' as int

  /** The escape `%25` written for a `%` that does not start a valid escape. */
  const ESCAPED_PERCENT: Bytes := [PERCENT, '2' as int, '5' as int]

  /** The table of lower-case hex digits, "0123456789abcdef" as bytes. */
  const HEX: Bytes := ['0' as int, '1' as int, '2' as int, '3' as int, '4' as int, '5' as int,
                       '6' as int, '7' as int, '8' as int, '9' as int, 'a' as int, 'b' as int,
                       'c' as int, 'd' as int, 'e' as int, 'f' as int]

  predicate IsHex(b: Byte) {
    ('0' as int <= b <= '9' as int) || ('a' as int <= b <= 'f' as int) || ('A' as int <= b <= 'F' as int)
  }

  predicate IsLowerHex(b: Byte) {
    ('0' as int <= b <= '9' as int) || ('a' as int <= b <= 'f' as int)
  }

  function HexDigitValue(b: Byte): (v: int)
    requires IsHex(b)
    ensures 0 <= v < 16
  {
    if b <= '9' as int then b - '0' as int
    else if b >= 'a' as int then b - 'a' as int + 10
    else b - 'A' as int + 10
  }

  /** The value of the two hex digits of an escape, as Integer.parseInt(.., 16) reads them. */
  function HexValue(hi: Byte, lo: Byte): Byte
    requires IsHex(hi) && IsHex(lo)
  {
    16 * HexDigitValue(hi) + HexDigitValue(lo)
  }

  /** Entry `k` of the table is the lower-case hex digit of value `k`. */
  lemma HexTableEntry(k: int)
    requires 0 <= k < 16
    ensures IsLowerHex(HEX[k]) && HexDigitValue(HEX[k]) == k
  {
  }

  /** The three bytes hexEscape writes: `%` and two lower-case digits that read back as `c`. */
  function HexEscaped(c: Byte): (r: Bytes)
    ensures |r| == 3 && r[0] == PERCENT
    ensures IsLowerHex(r[1]) && IsLowerHex(r[2])
    ensures HexValue(r[1], r[2]) == c
  {
    HexTableEntry(c / 16);
    HexTableEntry(c % 16);
    [PERCENT, HEX[c / 16], HEX[c % 16]]
  }

  /** Some low-order characters must always be escaped. */
  predicate MustEscape(c: Byte) {
    c == SPACE || c == PERCENT
  }

  /** An escape of one of these characters is kept as an escape. */
  predicate KeepEscape(c: Byte) {
    c == HASH
  }

  // UTF-8 byte classes. The source tests bit masks; each class is the
  // range of bytes its mask test accepts (see MaskClasses).

  /** `(0b10000000 & c) == 0` */
  predicate IsAscii(c: Byte) { c < 0x80 }
  /** `(0b11000000 & c) == 0b10000000` */
  predicate IsContinuation(c: Byte) { 0x80 <= c < 0xC0 }
  /** `(0b11100000 & c) == 0b11000000` */
  predicate IsLead2(c: Byte) { 0xC0 <= c < 0xE0 }
  /** `(0b11110000 & c) == 0b11100000` */
  predicate IsLead3(c: Byte) { 0xE0 <= c < 0xF0 }
  /** `(0b11111000 & c) == 0b11110000` */
  predicate IsLead4(c: Byte) { 0xF0 <= c < 0xF8 }

  /** Each range predicate accepts exactly the bytes that pass the source's mask test. */
  lemma MaskClasses(c: Byte)
    ensures IsAscii(c) <==> (c as bv8) & 0x80 == 0
    ensures IsContinuation(c) <==> (c as bv8) & 0xC0 == 0x80
    ensures IsLead2(c) <==> (c as bv8) & 0xE0 == 0xC0
    ensures IsLead3(c) <==> (c as bv8) & 0xF0 == 0xE0
    ensures IsLead4(c) <==> (c as bv8) & 0xF8 == 0xF0
  {
  }

  /** The escapes hexEscape writes for each byte of `bs` in turn. */
  function HexEscapedAll(bs: Bytes): (r: Bytes)
    ensures |r| == 3 * |bs|
    decreases |bs|
  {
    if bs == [] then [] else HexEscapedAll(bs[..|bs| - 1]) + HexEscaped(bs[|bs| - 1])
  }

  /** An append-only byte buffer: the ByteArrayOutputStream both passes write to. */
  class ByteStream {
    var data: Bytes

    constructor ()
      ensures data == []
    {
      data := [];
    }

    method Write(b: Byte)
      modifies this
      ensures data == old(data) + [b]
    {
      data := data + [b];
    }
  }

  /** Writes `%` and the two lower-case hex digits of `codePoint`. */
  method HexEscape(codePoint: Byte, sb: ByteStream)
    modifies sb
    ensures sb.data == old(sb.data) + HexEscaped(codePoint)
  {
    sb.Write(PERCENT);
    sb.Write(HEX[codePoint / 16]);
    sb.Write(HEX[codePoint % 16]);
  }
}
