/** The second byte pass, escapeUTF8 (Normalisation.java:127-214): the
    intermediate buffer is walked unit by unit (an escape, an ASCII byte, a
    UTF-8 sequence or a stray byte) and written out with lower-case escapes,
    `+` for spaces in the parameter section and the flag-dependent choice
    between raw and escaped bytes. */
module Reescape {
  import opened Bytes
  import opened Decoding
  import opened EscapeRepair

  /** What escapeUTF8 writes for the unit at the start of `s`, and how many
      bytes of `s` that unit is. `inParams` is the parameter flag after the
      unit's first byte has been looked at. */
  function EscapeToken(s: Bytes, inParams: bool, escapeHighOrder: bool, normaliseLowOrder: bool): (t: (Bytes, nat))
    requires s != [] && EscapesComplete(s)
    ensures 1 <= t.1 <= |s|
  {
    var c := s[0];
    if inParams && c == SPACE then
      ([PLUS], 1)
    else if c == PERCENT then
      assert EscapeAt(s, 0);
      var codePoint := HexValue(s[1], s[2]);
      (if inParams && codePoint == SPACE then [PLUS]
       else if MustEscape(codePoint) || KeepEscape(codePoint) || !normaliseLowOrder then HexEscaped(codePoint)
       else [codePoint],
       3)
    else if IsAscii(c) then
      (if MustEscape(c) then HexEscaped(c) else [c], 1)
    else if IsContinuation(c) then
      (HexEscaped(c), 1)
    else if IsLead2(c) then
      if |s| < 2 || !IsContinuation(s[1]) then (HexEscaped(c), 1)
      else if escapeHighOrder then (HexEscapedAll(s[..2]), 2)
      else (s[..2], 2)
    else if IsLead3(c) then
      if |s| < 3 || !IsContinuation(s[1]) || !IsContinuation(s[2]) then (HexEscaped(c), 1)
      else (HexEscapedAll(s[..3]), 3)
    else if IsLead4(c) then
      if |s| < 4 || !IsContinuation(s[1]) || !IsContinuation(s[2]) || !IsContinuation(s[3]) then (HexEscaped(c), 1)
      else (HexEscapedAll(s[..4]), 4)
    else
      (HexEscaped(c), 1)
  }

  /** The bytes escapeUTF8 writes for `s` when the parameter section has
      (`inParams`) or has not yet started. The flag is switched on by a
      literal `?` and never off. */
  function Escape(s: Bytes, inParams: bool, escapeHighOrder: bool, normaliseLowOrder: bool): Bytes
    requires EscapesComplete(s)
    decreases |s|
  {
    if s == [] then []
    else
      var p := inParams || s[0] == QUESTION;
      var t := EscapeToken(s, p, escapeHighOrder, normaliseLowOrder);
      EscapesCompleteSuffix(s, t.1);
      t.0 + Escape(s[t.1..], p, escapeHighOrder, normaliseLowOrder)
  }

  /** escapeUTF8, which demands the well-formed escapes that escape repair produces. */
  method EscapeUtf8(utf8: Bytes, escapeHighOrder: bool, normaliseLowOrder: bool) returns (r: Bytes)
    requires EscapesComplete(utf8)
    ensures r == Escape(utf8, false, escapeHighOrder, normaliseLowOrder)
  {
    var sb := new ByteStream();
    var i := 0;
    var paramSection := false;  // affects handling of space and plus
    assert utf8[i..] == utf8;
    while i < |utf8|
      invariant 0 <= i <= |utf8|
      invariant EscapesComplete(utf8[i..])
      invariant sb.data + Escape(utf8[i..], paramSection, escapeHighOrder, normaliseLowOrder)
                == Escape(utf8, false, escapeHighOrder, normaliseLowOrder)
    {
      ghost var before, start, wasInParams := sb.data, i, paramSection;
      var c := utf8[i];
      paramSection := paramSection || c == QUESTION;
      i := WriteUnit(utf8, i, paramSection, escapeHighOrder, normaliseLowOrder, sb);
      i := i + 1;
      EscapeAdvance(utf8, start, i, wasInParams, paramSection, escapeHighOrder, normaliseLowOrder, before, sb.data);
    }
    r := sb.data;
    assert utf8[i..] == [];
  }

  /** One pass of escapeUTF8's loop body after the parameter flag is updated:
      writes the unit starting at `start` and returns the index of its last byte. */
  method WriteUnit(utf8: Bytes, start: nat, paramSection: bool, escapeHighOrder: bool, normaliseLowOrder: bool,
                   sb: ByteStream) returns (i: nat)
    requires start < |utf8| && EscapesComplete(utf8[start..])
    modifies sb
    ensures var t := EscapeToken(utf8[start..], paramSection, escapeHighOrder, normaliseLowOrder);
            sb.data == old(sb.data) + t.0 && i + 1 == start + t.1
  {
    i := start;
    var c := utf8[i];
    if paramSection && c == SPACE {  // in parameters, space becomes plus
      sb.Write(PLUS);
    } else if c == PERCENT {
      assert utf8[i..][0] == PERCENT && EscapeAt(utf8[i..], 0);
      var codePoint := HexValue(utf8[i + 1], utf8[i + 2]);
      if paramSection && codePoint == SPACE {
        sb.Write(PLUS);
      } else if MustEscape(codePoint) || KeepEscape(codePoint) || !normaliseLowOrder {  // pass on unmodified
        HexEscape(codePoint, sb);
      } else {  // normalise to ASCII
        sb.Write(codePoint);
      }
      i := i + 2;
    } else if IsAscii(c) {
      if MustEscape(c) {
        HexEscape(c, sb);
      } else {
        sb.Write(c);
      }
    } else if IsContinuation(c) {  // continuation byte where a first byte belongs
      HexEscape(c, sb);
    } else {
      i := WriteSequence(utf8, start, paramSection, escapeHighOrder, normaliseLowOrder, sb);
    }
  }

  /** The branches of escapeUTF8 for a byte that can only start a multi-byte
      UTF-8 sequence, or no UTF-8 at all. */
  method WriteSequence(utf8: Bytes, start: nat, paramSection: bool, escapeHighOrder: bool, normaliseLowOrder: bool,
                       sb: ByteStream) returns (i: nat)
    requires start < |utf8| && EscapesComplete(utf8[start..])
    requires !IsAscii(utf8[start]) && !IsContinuation(utf8[start])
    modifies sb
    ensures var t := EscapeToken(utf8[start..], paramSection, escapeHighOrder, normaliseLowOrder);
            sb.data == old(sb.data) + t.0 && i + 1 == start + t.1
  {
    i := start;
    var c := utf8[i];
    if IsLead2(c) {
      i := WriteTwoByte(utf8, start, paramSection, escapeHighOrder, normaliseLowOrder, sb);
    } else if IsLead3(c) {
      i := WriteThreeByte(utf8, start, paramSection, escapeHighOrder, normaliseLowOrder, sb);
    } else if IsLead4(c) {
      i := WriteFourByte(utf8, start, paramSection, escapeHighOrder, normaliseLowOrder, sb);
    } else {  // illegal first byte for UTF-8
      HexEscape(c, sb);
    }
  }

  /** A two-byte sequence: the only one written raw, and only when high-order
      characters are not to be escaped. */
  method WriteTwoByte(utf8: Bytes, start: nat, paramSection: bool, escapeHighOrder: bool, normaliseLowOrder: bool,
                       sb: ByteStream) returns (i: nat)
    requires start < |utf8| && EscapesComplete(utf8[start..])
    requires IsLead2(utf8[start])
    modifies sb
    ensures var t := EscapeToken(utf8[start..], paramSection, escapeHighOrder, normaliseLowOrder);
            sb.data == old(sb.data) + t.0 && i + 1 == start + t.1
  {
    i := start;
    var c := utf8[i];
    ghost var rest := utf8[start..];
    if i >= |utf8| - 1 || !IsContinuation(utf8[i + 1]) {  // no byte or wrong byte follows
      StrayToken(rest, paramSection, escapeHighOrder, normaliseLowOrder);
      HexEscape(c, sb);
    } else if escapeHighOrder {
      SequenceToken(rest, 2, paramSection, escapeHighOrder, normaliseLowOrder);
      assert rest[..2] == utf8[start..start + 2] && utf8[start..start] == [];
      HexEscapeNext(utf8, start, i, old(sb.data), sb); i := i + 1;
      HexEscapeNext(utf8, start, i, old(sb.data), sb);
    } else {
      assert rest[..2] == [c, utf8[i + 1]];
      sb.Write(utf8[i]); i := i + 1;
      sb.Write(utf8[i]);
    }
  }

  /** A three-byte sequence: always escaped. */
  method WriteThreeByte(utf8: Bytes, start: nat, paramSection: bool, escapeHighOrder: bool, normaliseLowOrder: bool,
                       sb: ByteStream) returns (i: nat)
    requires start < |utf8| && EscapesComplete(utf8[start..])
    requires IsLead3(utf8[start])
    modifies sb
    ensures var t := EscapeToken(utf8[start..], paramSection, escapeHighOrder, normaliseLowOrder);
            sb.data == old(sb.data) + t.0 && i + 1 == start + t.1
  {
    i := start;
    var c := utf8[i];
    ghost var rest := utf8[start..];
    if i >= |utf8| - 2 || !IsContinuation(utf8[i + 1]) || !IsContinuation(utf8[i + 2]) {
      StrayToken(rest, paramSection, escapeHighOrder, normaliseLowOrder);
      HexEscape(c, sb);
    } else {
      SequenceToken(rest, 3, paramSection, escapeHighOrder, normaliseLowOrder);
      assert rest[..3] == utf8[start..start + 3] && utf8[start..start] == [];
      HexEscapeNext(utf8, start, i, old(sb.data), sb); i := i + 1;
      HexEscapeNext(utf8, start, i, old(sb.data), sb); i := i + 1;
      HexEscapeNext(utf8, start, i, old(sb.data), sb);
    }
  }

  /** A four-byte sequence: always escaped. */
  method WriteFourByte(utf8: Bytes, start: nat, paramSection: bool, escapeHighOrder: bool, normaliseLowOrder: bool,
                       sb: ByteStream) returns (i: nat)
    requires start < |utf8| && EscapesComplete(utf8[start..])
    requires IsLead4(utf8[start])
    modifies sb
    ensures var t := EscapeToken(utf8[start..], paramSection, escapeHighOrder, normaliseLowOrder);
            sb.data == old(sb.data) + t.0 && i + 1 == start + t.1
  {
    i := start;
    var c := utf8[i];
    ghost var rest := utf8[start..];
    if i >= |utf8| - 3 || !IsContinuation(utf8[i + 1]) || !IsContinuation(utf8[i + 2])
       || !IsContinuation(utf8[i + 3]) {
      StrayToken(rest, paramSection, escapeHighOrder, normaliseLowOrder);
      HexEscape(c, sb);
    } else {
      SequenceToken(rest, 4, paramSection, escapeHighOrder, normaliseLowOrder);
      assert rest[..4] == utf8[start..start + 4] && utf8[start..start] == [];
      HexEscapeNext(utf8, start, i, old(sb.data), sb); i := i + 1;
      HexEscapeNext(utf8, start, i, old(sb.data), sb); i := i + 1;
      HexEscapeNext(utf8, start, i, old(sb.data), sb); i := i + 1;
      HexEscapeNext(utf8, start, i, old(sb.data), sb);
    }
  }

  /** A complete UTF-8 sequence of `n` bytes is one unit, escaped byte by
      byte: always for three and four bytes, for two only when high-order
      characters are escaped. */
  lemma SequenceToken(s: Bytes, n: nat, inParams: bool, escapeHighOrder: bool, normaliseLowOrder: bool)
    requires 2 <= n <= 4 && n <= |s| && EscapesComplete(s)
    requires n == 2 ==> IsLead2(s[0]) && escapeHighOrder
    requires n == 3 ==> IsLead3(s[0])
    requires n == 4 ==> IsLead4(s[0])
    requires IsContinuation(s[1]) && (n >= 3 ==> IsContinuation(s[2])) && (n == 4 ==> IsContinuation(s[3]))
    ensures EscapeToken(s, inParams, escapeHighOrder, normaliseLowOrder) == (HexEscapedAll(s[..n]), n)
  {
  }

  /** A byte that is neither ASCII nor the start of a complete sequence is
      escaped on its own. */
  lemma StrayToken(s: Bytes, inParams: bool, escapeHighOrder: bool, normaliseLowOrder: bool)
    requires s != [] && EscapesComplete(s) && !IsAscii(s[0])
    requires IsLead2(s[0]) ==> |s| < 2 || !IsContinuation(s[1])
    requires IsLead3(s[0]) ==> |s| < 3 || !IsContinuation(s[1]) || !IsContinuation(s[2])
    requires IsLead4(s[0]) ==> |s| < 4 || !IsContinuation(s[1]) || !IsContinuation(s[2]) || !IsContinuation(s[3])
    ensures EscapeToken(s, inParams, escapeHighOrder, normaliseLowOrder) == (HexEscaped(s[0]), 1)
  {
  }

  /** hexEscape of the byte at `i`, the bytes from `start` on having been
      escaped after `before`. */
  method HexEscapeNext(utf8: Bytes, start: nat, i: nat, ghost before: Bytes, sb: ByteStream)
    requires start <= i < |utf8|
    requires sb.data == before + HexEscapedAll(utf8[start..i])
    modifies sb
    ensures sb.data == before + HexEscapedAll(utf8[start..i + 1])
  {
    HexEscape(utf8[i], sb);
    ghost var run := utf8[start..i + 1];
    assert run[..|run| - 1] == utf8[start..i] && run[|run| - 1] == utf8[i];
    assert HexEscapedAll(run) == HexEscapedAll(utf8[start..i]) + HexEscaped(utf8[i]);
    assert (before + HexEscapedAll(utf8[start..i])) + HexEscaped(utf8[i])
           == before + (HexEscapedAll(utf8[start..i]) + HexEscaped(utf8[i]));
  }

  lemma EscapesCompleteSuffix(s: Bytes, n: nat)
    requires n <= |s| && EscapesComplete(s)
    ensures EscapesComplete(s[n..])
  {
    forall j | 0 <= j < |s[n..]| && s[n..][j] == PERCENT
      ensures EscapeAt(s[n..], j)
    {
      assert s[n..][j] == s[n + j];
    }
  }

  /** Writing the unit at `start` and moving to `next` keeps the loop's
      account of the output. */
  lemma EscapeAdvance(s: Bytes, start: nat, next: nat, wasInParams: bool, inParams: bool,
                      escapeHighOrder: bool, normaliseLowOrder: bool, before: Bytes, after: Bytes)
    requires start < |s| && EscapesComplete(s[start..])
    requires inParams == (wasInParams || s[start] == QUESTION)
    requires var t := EscapeToken(s[start..], inParams, escapeHighOrder, normaliseLowOrder);
             after == before + t.0 && next == start + t.1
    ensures next <= |s| && EscapesComplete(s[next..])
    ensures after + Escape(s[next..], inParams, escapeHighOrder, normaliseLowOrder)
            == before + Escape(s[start..], wasInParams, escapeHighOrder, normaliseLowOrder)
  {
    var t := EscapeToken(s[start..], inParams, escapeHighOrder, normaliseLowOrder);
    assert s[start..][t.1..] == s[next..];
    EscapesCompleteSuffix(s[start..], t.1);
    assert (before + t.0) + Escape(s[next..], inParams, escapeHighOrder, normaliseLowOrder)
           == before + (t.0 + Escape(s[next..], inParams, escapeHighOrder, normaliseLowOrder));
  }
}
