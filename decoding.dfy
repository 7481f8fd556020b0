/** Reference readings of a URL's bytes, independent of how the normaliser
    chooses to escape them. Escape repair preserves both readings;
    re-escaping turns the parameter-convention reading of its input into the
    plain percent-decoding of its output. */
module Decoding {
  import opened Bytes

  /** Plain percent-decoding: `%` and two hex digits stand for the byte they
      spell; every other byte, a stray `%` included, stands for itself. */
  function Decode(s: Bytes): Bytes
    decreases |s|
  {
    if s == [] then []
    else if s[0] == PERCENT && |s| >= 3 && IsHex(s[1]) && IsHex(s[2]) then
      [HexValue(s[1], s[2])] + Decode(s[3..])
    else
      [s[0]] + Decode(s[1..])
  }

  /** A space read inside the parameter section is a `+`. */
  function FormByte(b: Byte, inParams: bool): Byte {
    if inParams && b == SPACE then PLUS else b
  }

  /** Percent-decoding with the parameter convention of the normaliser: the
      parameter section starts at the first literal `?` (an escaped `%3F`
      does not start it) and inside it a space, literal or escaped, reads
      as `+`. */
  function FormDecode(s: Bytes, inParams: bool): Bytes
    decreases |s|
  {
    if s == [] then []
    else
      var p := inParams || s[0] == QUESTION;
      if s[0] == PERCENT && |s| >= 3 && IsHex(s[1]) && IsHex(s[2]) then
        [FormByte(HexValue(s[1], s[2]), p)] + FormDecode(s[3..], p)
      else
        [FormByte(s[0], p)] + FormDecode(s[1..], p)
  }

  /** Inside the parameter section no space survives decoding. */
  lemma {:induction false} FormDecodeInParams(s: Bytes)
    ensures SPACE !in FormDecode(s, true)
    decreases |s|
  {
    if s != [] {
      if s[0] == PERCENT && |s| >= 3 && IsHex(s[1]) && IsHex(s[2]) {
        FormDecodeInParams(s[3..]);
      } else {
        FormDecodeInParams(s[1..]);
      }
    }
  }

  /** Before any literal `?`, the parameter convention changes nothing. */
  lemma {:induction false} FormDecodeBeforeParams(s: Bytes)
    requires QUESTION !in s
    ensures FormDecode(s, false) == Decode(s)
    decreases |s|
  {
    if s != [] {
      if s[0] == PERCENT && |s| >= 3 && IsHex(s[1]) && IsHex(s[2]) {
        assert QUESTION !in s[3..] by { assert forall b | b in s[3..] :: b in s; }
        FormDecodeBeforeParams(s[3..]);
      } else {
        assert QUESTION !in s[1..] by { assert forall b | b in s[1..] :: b in s; }
        FormDecodeBeforeParams(s[1..]);
      }
    }
  }

  /** Bytes without a `%` decode to themselves, whatever follows them. */
  lemma {:induction false} DecodeRaw(a: Bytes, b: Bytes)
    requires PERCENT !in a
    ensures Decode(a + b) == a + Decode(b)
    decreases |a|
  {
    if a != [] {
      assert a[0] in a && (a + b)[0] == a[0];
      assert (a + b)[1..] == a[1..] + b;
      assert PERCENT !in a[1..] by { assert forall x | x in a[1..] :: x in a; }
      DecodeRaw(a[1..], b);
      assert a == [a[0]] + a[1..];
    } else {
      assert a + b == b;
    }
  }

  /** An escape written by hexEscape decodes to the byte it escapes. */
  lemma DecodeHexEscaped(c: Byte, b: Bytes)
    ensures Decode(HexEscaped(c) + b) == [c] + Decode(b)
  {
    assert (HexEscaped(c) + b)[3..] == b;
  }
}
