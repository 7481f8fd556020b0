/** What the second pass promises about its output: the form every byte of
    it takes (canonical escapes, no spaces, ASCII only when high-order
    characters are escaped) and that it still says what its input said,
    except that in the parameter section a space and `+` read alike. */
module EscapeProperties {
  import opened Bytes
  import opened Decoding
  import opened EscapeRepair
  import opened Reescape

  /** The values escapeUTF8 keeps escaped when it normalises low-order escapes. */
  predicate Reserved(v: Byte) {
    MustEscape(v) || KeepEscape(v) || !IsAscii(v)
  }

  /** An escape at `j`, spelled with lower-case digits, of a value that is
      reserved whenever low-order escapes are normalised. */
  predicate CanonicalEscapeAt(r: Bytes, j: int, normaliseLowOrder: bool)
    requires 0 <= j < |r|
  {
    j + 2 < |r| && IsLowerHex(r[j + 1]) && IsLowerHex(r[j + 2])
    && (normaliseLowOrder ==> Reserved(HexValue(r[j + 1], r[j + 2])))
  }

  /** The form of escapeUTF8's output: no space, every `%` a canonical
      escape, and only ASCII bytes when high-order characters are escaped. */
  predicate Canonical(r: Bytes, escapeHighOrder: bool, normaliseLowOrder: bool) {
    && SPACE !in r
    && (forall j | 0 <= j < |r| && r[j] == PERCENT :: CanonicalEscapeAt(r, j, normaliseLowOrder))
    && (escapeHighOrder ==> forall j | 0 <= j < |r| :: IsAscii(r[j]))
  }

  lemma CanonicalConcat(a: Bytes, b: Bytes, escapeHighOrder: bool, normaliseLowOrder: bool)
    requires Canonical(a, escapeHighOrder, normaliseLowOrder) && Canonical(b, escapeHighOrder, normaliseLowOrder)
    ensures Canonical(a + b, escapeHighOrder, normaliseLowOrder)
  {
    var r := a + b;
    forall j | 0 <= j < |r| && r[j] == PERCENT
      ensures CanonicalEscapeAt(r, j, normaliseLowOrder)
    {
      if j < |a| {
        assert a[j] == PERCENT && CanonicalEscapeAt(a, j, normaliseLowOrder);
      } else {
        assert b[j - |a|] == PERCENT && CanonicalEscapeAt(b, j - |a|, normaliseLowOrder);
      }
    }
    if escapeHighOrder {
      forall j | 0 <= j < |r|
        ensures IsAscii(r[j])
      {
        if j >= |a| {
          assert r[j] == b[j - |a|];
        }
      }
    }
  }

  lemma HexEscapedCanonical(c: Byte, escapeHighOrder: bool, normaliseLowOrder: bool)
    requires normaliseLowOrder ==> Reserved(c)
    ensures Canonical(HexEscaped(c), escapeHighOrder, normaliseLowOrder)
  {
    var r := HexEscaped(c);
    assert SPACE !in r by {
      assert forall j | 0 <= j < 3 :: r[j] != SPACE;
    }
  }

  lemma {:induction false} HexEscapedAllCanonical(bs: Bytes, escapeHighOrder: bool, normaliseLowOrder: bool)
    requires forall k | 0 <= k < |bs| :: !IsAscii(bs[k])
    ensures Canonical(HexEscapedAll(bs), escapeHighOrder, normaliseLowOrder)
    decreases |bs|
  {
    if bs != [] {
      var init := bs[..|bs| - 1];
      HexEscapedAllCanonical(init, escapeHighOrder, normaliseLowOrder);
      HexEscapedCanonical(bs[|bs| - 1], escapeHighOrder, normaliseLowOrder);
      CanonicalConcat(HexEscapedAll(init), HexEscaped(bs[|bs| - 1]), escapeHighOrder, normaliseLowOrder);
    }
  }

  /** Each unit escapeUTF8 writes for an intermediate buffer is in canonical form. */
  lemma EscapeTokenCanonical(s: Bytes, inParams: bool, escapeHighOrder: bool, normaliseLowOrder: bool)
    requires s != [] && AsciiEscaped(s)
    ensures Canonical(EscapeToken(s, inParams, escapeHighOrder, normaliseLowOrder).0, escapeHighOrder, normaliseLowOrder)
  {
    var eh, nl := escapeHighOrder, normaliseLowOrder;
    var t := EscapeToken(s, inParams, eh, nl);
    var c := s[0];
    if inParams && c == SPACE {
    } else if c == PERCENT {
      assert EscapeAt(s, 0) && IsAscii(HexValue(s[1], s[2]));
      var u := HexValue(s[1], s[2]);
      if !(inParams && u == SPACE) && (MustEscape(u) || KeepEscape(u) || !nl) {
        HexEscapedCanonical(u, eh, nl);
      }
    } else if IsAscii(c) {
      if MustEscape(c) {
        HexEscapedCanonical(c, eh, nl);
      }
    } else if IsLead2(c) && |s| >= 2 && IsContinuation(s[1]) {
      if eh {
        HexEscapedAllCanonical(s[..2], eh, nl);
      } else {
        assert t.0 == [s[0], s[1]];
      }
    } else if IsLead3(c) && |s| >= 3 && IsContinuation(s[1]) && IsContinuation(s[2]) {
      HexEscapedAllCanonical(s[..3], eh, nl);
    } else if IsLead4(c) && |s| >= 4 && IsContinuation(s[1]) && IsContinuation(s[2]) && IsContinuation(s[3]) {
      HexEscapedAllCanonical(s[..4], eh, nl);
    } else {
      assert t.0 == HexEscaped(c);
      HexEscapedCanonical(c, eh, nl);
    }
  }

  /** The output of escapeUTF8 for an intermediate buffer is canonical:
      lower-case escapes only, no space, `+` for spaces in parameters, only
      reserved values escaped when normalising, only ASCII when escaping
      high-order characters. */
  lemma {:induction false} EscapeCanonical(s: Bytes, inParams: bool, escapeHighOrder: bool, normaliseLowOrder: bool)
    requires AsciiEscaped(s)
    ensures Canonical(Escape(s, inParams, escapeHighOrder, normaliseLowOrder), escapeHighOrder, normaliseLowOrder)
    decreases |s|
  {
    if s != [] {
      var p := inParams || s[0] == QUESTION;
      var t := EscapeToken(s, p, escapeHighOrder, normaliseLowOrder);
      EscapeTokenCanonical(s, p, escapeHighOrder, normaliseLowOrder);
      AsciiEscapedSuffix(s, t.1);
      EscapeCanonical(s[t.1..], p, escapeHighOrder, normaliseLowOrder);
      CanonicalConcat(t.0, Escape(s[t.1..], p, escapeHighOrder, normaliseLowOrder), escapeHighOrder, normaliseLowOrder);
    }
  }

  /** The escapes of a run of bytes decode to that run. */
  lemma {:induction false} DecodeHexEscapedAll(bs: Bytes, y: Bytes)
    ensures Decode(HexEscapedAll(bs) + y) == bs + Decode(y)
    decreases |bs|
  {
    if bs != [] {
      var init, last := bs[..|bs| - 1], bs[|bs| - 1];
      var e, h, d := HexEscapedAll(init), HexEscaped(last), Decode(y);
      assert HexEscapedAll(bs) == e + h;
      assert (e + h) + y == e + (h + y);
      DecodeHexEscapedAll(init, h + y);
      DecodeHexEscaped(last, y);
      assert bs == init + [last];
      assert init + ([last] + d) == (init + [last]) + d;
    } else {
      assert HexEscapedAll(bs) + y == y;
    }
  }

  /** High-order bytes read as themselves, and leave the parameter flag alone. */
  lemma {:induction false} FormDecodeHighBytes(s: Bytes, n: nat, inParams: bool)
    requires n <= |s| && forall k | 0 <= k < n :: !IsAscii(s[k])
    ensures FormDecode(s, inParams) == s[..n] + FormDecode(s[n..], inParams)
    decreases n
  {
    if n > 0 {
      FormDecodeHighBytes(s[1..], n - 1, inParams);
      assert s[1..][n - 1..] == s[n..];
      assert s[..n] == [s[0]] + s[1..][..n - 1];
    }
  }

  /** Each unit escapeUTF8 writes percent-decodes to the parameter-convention
      reading of the unit it replaces. */
  lemma EscapeTokenDecodes(s: Bytes, wasInParams: bool, escapeHighOrder: bool, normaliseLowOrder: bool, y: Bytes)
    requires s != [] && EscapesComplete(s)
    requires var p := wasInParams || s[0] == QUESTION;
             var t := EscapeToken(s, p, escapeHighOrder, normaliseLowOrder);
             Decode(y) == FormDecode(s[t.1..], p)
    ensures var p := wasInParams || s[0] == QUESTION;
            Decode(EscapeToken(s, p, escapeHighOrder, normaliseLowOrder).0 + y) == FormDecode(s, wasInParams)
  {
    var eh, nl := escapeHighOrder, normaliseLowOrder;
    var p := wasInParams || s[0] == QUESTION;
    var t := EscapeToken(s, p, eh, nl);
    var c := s[0];
    if IsAscii(c) {
      AsciiTokenDecodes(s, wasInParams, eh, nl, y);
    } else {
      HighTokenDecodes(s, wasInParams, eh, nl, y);
    }
  }

  lemma AsciiTokenDecodes(s: Bytes, wasInParams: bool, escapeHighOrder: bool, normaliseLowOrder: bool, y: Bytes)
    requires s != [] && EscapesComplete(s)
    requires IsAscii(s[0])
    requires var p := wasInParams || s[0] == QUESTION;
             var t := EscapeToken(s, p, escapeHighOrder, normaliseLowOrder);
             Decode(y) == FormDecode(s[t.1..], p)
    ensures var p := wasInParams || s[0] == QUESTION;
            Decode(EscapeToken(s, p, escapeHighOrder, normaliseLowOrder).0 + y) == FormDecode(s, wasInParams)
  {
    var eh, nl := escapeHighOrder, normaliseLowOrder;
    var p := wasInParams || s[0] == QUESTION;
    var t := EscapeToken(s, p, eh, nl);
    var c := s[0];
    if p && c == SPACE {
      assert t.0 == [PLUS];
      assert ([PLUS] + y)[1..] == y;
    } else if c == PERCENT {
      assert EscapeAt(s, 0);
      var u := HexValue(s[1], s[2]);
      assert FormDecode(s, wasInParams) == [FormByte(u, p)] + FormDecode(s[3..], p);
      if p && u == SPACE {
        assert t.0 == [PLUS];
        assert ([PLUS] + y)[1..] == y;
      } else if MustEscape(u) || KeepEscape(u) || !nl {
        assert t.0 == HexEscaped(u);
        DecodeHexEscaped(u, y);
      } else {
        assert t.0 == [u];
        assert ([u] + y)[1..] == y;
      }
    } else {
      assert FormDecode(s, wasInParams) == [FormByte(c, p)] + FormDecode(s[1..], p);
      if MustEscape(c) {
        assert t.0 == HexEscaped(c);
        DecodeHexEscaped(c, y);
      } else {
        assert t.0 == [c];
        assert ([c] + y)[1..] == y;
      }
    }
  }

  lemma HighTokenDecodes(s: Bytes, wasInParams: bool, escapeHighOrder: bool, normaliseLowOrder: bool, y: Bytes)
    requires s != [] && EscapesComplete(s)
    requires !IsAscii(s[0])
    requires var p := wasInParams || s[0] == QUESTION;
             var t := EscapeToken(s, p, escapeHighOrder, normaliseLowOrder);
             Decode(y) == FormDecode(s[t.1..], p)
    ensures var p := wasInParams || s[0] == QUESTION;
            Decode(EscapeToken(s, p, escapeHighOrder, normaliseLowOrder).0 + y) == FormDecode(s, wasInParams)
  {
    var eh, nl := escapeHighOrder, normaliseLowOrder;
    var p := wasInParams || s[0] == QUESTION;
    var t := EscapeToken(s, p, eh, nl);
    var c := s[0];
    assert p == wasInParams;
    if IsLead2(c) && |s| >= 2 && IsContinuation(s[1]) && !eh {
      assert t == (s[..2], 2);
      FormDecodeHighBytes(s, 2, p);
      assert PERCENT !in s[..2] by { assert s[..2] == [s[0], s[1]]; }
      DecodeRaw(s[..2], y);
    } else {
      var n := if IsLead2(c) && |s| >= 2 && IsContinuation(s[1]) then 2
               else if IsLead3(c) && |s| >= 3 && IsContinuation(s[1]) && IsContinuation(s[2]) then 3
               else if IsLead4(c) && |s| >= 4 && IsContinuation(s[1]) && IsContinuation(s[2]) && IsContinuation(s[3]) then 4
               else 1;
      if n == 1 {
        StrayToken(s, p, eh, nl);
        FormDecodeHighBytes(s, 1, p);
        assert s[..1] == [c];
        DecodeHexEscaped(c, y);
      } else {
        SequenceToken(s, n, p, eh, nl);
        EscapedRunDecodes(s, n, p, y);
      }
    }
  }

  /** A run of high-order bytes escaped one by one reads as the run. */
  lemma EscapedRunDecodes(s: Bytes, n: nat, inParams: bool, y: Bytes)
    requires n <= |s| && forall k | 0 <= k < n :: !IsAscii(s[k])
    requires Decode(y) == FormDecode(s[n..], inParams)
    ensures Decode(HexEscapedAll(s[..n]) + y) == FormDecode(s, inParams)
  {
    FormDecodeHighBytes(s, n, inParams);
    DecodeHexEscapedAll(s[..n], y);
  }

  /** escapeUTF8 preserves what a URL says, except that in the parameter
      section a space and `+` read alike: its output percent-decodes to the
      input read with the parameter convention, so `%2B` and `%20` after a
      `?` both come out as `+`. */
  lemma {:induction false} EscapeDecodes(s: Bytes, inParams: bool, escapeHighOrder: bool, normaliseLowOrder: bool)
    requires EscapesComplete(s)
    ensures Decode(Escape(s, inParams, escapeHighOrder, normaliseLowOrder)) == FormDecode(s, inParams)
    decreases |s|
  {
    if s != [] {
      var p := inParams || s[0] == QUESTION;
      var t := EscapeToken(s, p, escapeHighOrder, normaliseLowOrder);
      EscapesCompleteSuffix(s, t.1);
      EscapeDecodes(s[t.1..], p, escapeHighOrder, normaliseLowOrder);
      EscapeTokenDecodes(s, inParams, escapeHighOrder, normaliseLowOrder,
                         Escape(s[t.1..], p, escapeHighOrder, normaliseLowOrder));
    }
  }

  /** A literal space is `+` in the parameter section and `%20` before it. */
  lemma SpaceUnit(s: Bytes, inParams: bool, escapeHighOrder: bool, normaliseLowOrder: bool)
    requires s != [] && EscapesComplete(s) && s[0] == SPACE
    ensures EscapeToken(s, inParams, escapeHighOrder, normaliseLowOrder)
            == (if inParams then [PLUS] else [PERCENT, '2' as int, '0' as int], 1)
  {
  }

  /** An escape is one unit of three bytes. In the parameter section an
      escaped space is `+`. Otherwise the escape is re-emitted in lower case
      unless low-order escapes are normalised, in which case only space, `%`
      and `#` stay escaped and every other value is written raw. */
  lemma PercentUnit(s: Bytes, inParams: bool, escapeHighOrder: bool, normaliseLowOrder: bool)
    requires s != [] && EscapesComplete(s) && s[0] == PERCENT
    ensures |s| >= 3 && IsHex(s[1]) && IsHex(s[2])
    ensures var u := HexValue(s[1], s[2]);
            var t := EscapeToken(s, inParams, escapeHighOrder, normaliseLowOrder);
            t.1 == 3
            && (inParams && u == SPACE ==> t.0 == [PLUS])
            && (!(inParams && u == SPACE) && !normaliseLowOrder ==> t.0 == HexEscaped(u))
            && (!(inParams && u == SPACE) && normaliseLowOrder ==>
                  t.0 == if u == SPACE || u == PERCENT || u == HASH then HexEscaped(u) else [u])
  {
    assert EscapeAt(s, 0);
  }

  /** From the first literal `?` on, no space survives in what the output
      says; before any `?`, the output says exactly what the input did. */
  lemma EscapeParamSection(s: Bytes, escapeHighOrder: bool, normaliseLowOrder: bool)
    requires EscapesComplete(s)
    ensures SPACE !in Decode(Escape(s, true, escapeHighOrder, normaliseLowOrder))
    ensures QUESTION !in s ==> Decode(Escape(s, false, escapeHighOrder, normaliseLowOrder)) == Decode(s)
  {
    EscapeDecodes(s, true, escapeHighOrder, normaliseLowOrder);
    FormDecodeInParams(s);
    EscapeDecodes(s, false, escapeHighOrder, normaliseLowOrder);
    if QUESTION !in s {
      FormDecodeBeforeParams(s);
    }
  }

  /** A valid two-byte sequence is written raw exactly when high-order
      characters are not escaped. */
  lemma TwoByteUnit(s: Bytes, inParams: bool, escapeHighOrder: bool, normaliseLowOrder: bool)
    requires |s| >= 2 && EscapesComplete(s) && IsLead2(s[0]) && IsContinuation(s[1])
    ensures var t := EscapeToken(s, inParams, escapeHighOrder, normaliseLowOrder);
            t.1 == 2 && (t.0 == s[..2] <==> !escapeHighOrder)
    ensures escapeHighOrder ==> EscapeToken(s, inParams, escapeHighOrder, normaliseLowOrder).0 == HexEscapedAll(s[..2])
  {
    if escapeHighOrder {
      var t := EscapeToken(s, inParams, escapeHighOrder, normaliseLowOrder);
      assert t.0 == HexEscapedAll(s[..2]);
      assert |t.0| == 6 != |s[..2]|;
    }
  }

  lemma EscapesCompleteAppend(s: Bytes, b: Byte)
    requires EscapesComplete(s) && b != PERCENT
    ensures EscapesComplete(s + [b])
  {
    var u := s + [b];
    forall j | 0 <= j < |u| && u[j] == PERCENT
      ensures EscapeAt(u, j)
    {
      assert j < |s| && s[j] == PERCENT && EscapeAt(s, j);
    }
  }

  /** A unit ends where it did when an ASCII byte that is not `%` is appended. */
  lemma EscapeTokenAppend(s: Bytes, b: Byte, inParams: bool, escapeHighOrder: bool, normaliseLowOrder: bool)
    requires s != [] && EscapesComplete(s) && IsAscii(b) && b != PERCENT
    ensures EscapesComplete(s + [b])
    ensures EscapeToken(s + [b], inParams, escapeHighOrder, normaliseLowOrder)
            == EscapeToken(s, inParams, escapeHighOrder, normaliseLowOrder)
  {
    EscapesCompleteAppend(s, b);
    var u := s + [b];
    assert u[0] == s[0];
    if s[0] == PERCENT {
      assert EscapeAt(s, 0) && u[1] == s[1] && u[2] == s[2];
    } else if IsLead2(s[0]) || IsLead3(s[0]) || IsLead4(s[0]) {
      assert forall k | 1 <= k < |s| :: u[k] == s[k];
      assert !IsContinuation(u[|s|]);
      if |s| >= 4 {
        assert u[..4] == s[..4];
      }
      if |s| >= 3 {
        assert u[..3] == s[..3];
      }
      if |s| >= 2 {
        assert u[..2] == s[..2];
      }
    }
  }

  /** An ASCII byte other than space and `%` passes through escapeUTF8 as
      itself, at the end of any buffer. */
  lemma {:induction false} EscapeAppend(s: Bytes, b: Byte, inParams: bool, escapeHighOrder: bool, normaliseLowOrder: bool)
    requires EscapesComplete(s) && IsAscii(b) && !MustEscape(b)
    ensures EscapesComplete(s + [b])
    ensures Escape(s + [b], inParams, escapeHighOrder, normaliseLowOrder)
            == Escape(s, inParams, escapeHighOrder, normaliseLowOrder) + [b]
    decreases |s|
  {
    EscapesCompleteAppend(s, b);
    var u := s + [b];
    if s == [] {
      assert u == [b] && u[1..] == [];
      assert EscapeToken(u, inParams || b == QUESTION, escapeHighOrder, normaliseLowOrder) == ([b], 1);
    } else {
      var p := inParams || s[0] == QUESTION;
      var t := EscapeToken(s, p, escapeHighOrder, normaliseLowOrder);
      EscapeTokenAppend(s, b, p, escapeHighOrder, normaliseLowOrder);
      assert u[t.1..] == s[t.1..] + [b];
      EscapesCompleteSuffix(s, t.1);
      EscapeAppend(s[t.1..], b, p, escapeHighOrder, normaliseLowOrder);
      assert (t.0 + Escape(s[t.1..], p, escapeHighOrder, normaliseLowOrder)) + [b]
             == t.0 + (Escape(s[t.1..], p, escapeHighOrder, normaliseLowOrder) + [b]);
    }
  }

  /** Bytes without `%` in front of a buffer with valid escapes leave its
      escapes valid. */
  lemma EscapesCompletePrefix(a: Bytes, b: Bytes)
    requires PERCENT !in a && EscapesComplete(b)
    ensures EscapesComplete(a + b)
  {
    var u := a + b;
    forall j | 0 <= j < |u| && u[j] == PERCENT
      ensures EscapeAt(u, j)
    {
      assert j >= |a| && b[j - |a|] == PERCENT && EscapeAt(b, j - |a|);
    }
  }

  /** A valid escape in front of a buffer with valid escapes leaves its
      escapes valid. */
  lemma EscapesCompleteEscapePrefix(h1: Byte, h2: Byte, b: Bytes)
    requires IsHex(h1) && IsHex(h2) && EscapesComplete(b)
    ensures EscapesComplete([PERCENT, h1, h2] + b)
  {
    var u := [PERCENT, h1, h2] + b;
    forall j | 0 <= j < |u| && u[j] == PERCENT
      ensures EscapeAt(u, j)
    {
      if j >= 3 {
        assert b[j - 3] == PERCENT && EscapeAt(b, j - 3);
      }
    }
  }

  /** A run of ASCII bytes other than space, `%` and `?` passes through
      escapeUTF8 as itself, whatever follows it, and leaves the parameter
      flag as it was. */
  lemma {:induction false} EscapePlainPrefix(a: Bytes, b: Bytes, inParams: bool, escapeHighOrder: bool,
                                             normaliseLowOrder: bool)
    requires forall k | 0 <= k < |a| :: IsAscii(a[k]) && !MustEscape(a[k]) && a[k] != QUESTION
    requires EscapesComplete(b)
    ensures EscapesComplete(a + b)
    ensures Escape(a + b, inParams, escapeHighOrder, normaliseLowOrder)
            == a + Escape(b, inParams, escapeHighOrder, normaliseLowOrder)
    decreases |a|
  {
    if a == [] {
      assert a + b == b;
    } else {
      var e := Escape(b, inParams, escapeHighOrder, normaliseLowOrder);
      assert a + e == [a[0]] + (a[1..] + e);
      var u := a + b;
      assert u[0] == a[0] && u[1..] == a[1..] + b;
      EscapesCompletePrefix(a, b);
      EscapePlainPrefix(a[1..], b, inParams, escapeHighOrder, normaliseLowOrder);
      assert EscapeToken(u, inParams, escapeHighOrder, normaliseLowOrder) == ([a[0]], 1);
    }
  }

  /** The escapes of a run end in a lower-case hex digit. */
  lemma HexEscapedAllLast(bs: Bytes)
    requires bs != []
    ensures var r := HexEscapedAll(bs); IsLowerHex(r[|r| - 1])
  {
    var r := HexEscapedAll(bs);
    var e := HexEscaped(bs[|bs| - 1]);
    assert r == HexEscapedAll(bs[..|bs| - 1]) + e;
    assert r[|r| - 1] == e[2];
  }

  /** Every unit escapeUTF8 reads is written as at least one byte, and with
      escapes kept, a unit ends in `/` only when it is a literal `/`. */
  lemma EscapeTokenLastSlash(s: Bytes, inParams: bool, escapeHighOrder: bool)
    requires s != [] && EscapesComplete(s)
    ensures var t := EscapeToken(s, inParams, escapeHighOrder, false);
            t.0 != [] && (t.0[|t.0| - 1] == SLASH ==> t.1 == 1 && s[0] == SLASH)
  {
    var c := s[0];
    if !(inParams && c == SPACE) && c != PERCENT && !IsAscii(c) && !IsContinuation(c) {
      if IsLead2(c) && |s| >= 2 && IsContinuation(s[1]) {
        if escapeHighOrder {
          HexEscapedAllLast(s[..2]);
        } else {
          assert s[..2][1] == s[1];
        }
      } else if IsLead3(c) && |s| >= 3 && IsContinuation(s[1]) && IsContinuation(s[2]) {
        HexEscapedAllLast(s[..3]);
      } else if IsLead4(c) && |s| >= 4 && IsContinuation(s[1]) && IsContinuation(s[2]) && IsContinuation(s[3]) {
        HexEscapedAllLast(s[..4]);
      }
    }
  }

  /** escapeUTF8 writes something for every byte it reads. */
  lemma EscapeNonEmpty(s: Bytes, inParams: bool, escapeHighOrder: bool, normaliseLowOrder: bool)
    requires EscapesComplete(s)
    ensures s != [] ==> Escape(s, inParams, escapeHighOrder, normaliseLowOrder) != []
  {
    if s != [] {
      var p := inParams || s[0] == QUESTION;
      var t := EscapeToken(s, p, escapeHighOrder, normaliseLowOrder);
      assert |t.0| >= 1;
    }
  }

  /** With escapes kept, escapeUTF8 ends its output in `/` only where its
      input ended in one. */
  lemma {:induction false} EscapeLastSlash(s: Bytes, inParams: bool, escapeHighOrder: bool)
    requires EscapesComplete(s)
    ensures var r := Escape(s, inParams, escapeHighOrder, false);
            r != [] && r[|r| - 1] == SLASH ==> s != [] && s[|s| - 1] == SLASH
    decreases |s|
  {
    if s != [] {
      var p := inParams || s[0] == QUESTION;
      var t := EscapeToken(s, p, escapeHighOrder, false);
      var rest := s[t.1..];
      EscapesCompleteSuffix(s, t.1);
      EscapeLastSlash(rest, p, escapeHighOrder);
      EscapeNonEmpty(rest, p, escapeHighOrder, false);
      EscapeTokenLastSlash(s, p, escapeHighOrder);
      LastSlashStep(s, t.1, t.0, Escape(rest, p, escapeHighOrder, false));
    }
  }

  /** One unit and the rest of the output: the output ends in `/` only if
      the last unit that is not empty does. */
  lemma LastSlashStep(s: Bytes, n: nat, x: Bytes, e: Bytes)
    requires 1 <= n <= |s| && x != []
    requires x[|x| - 1] == SLASH ==> n == 1 && s[0] == SLASH
    requires s[n..] != [] ==> e != []
    requires s[n..] == [] ==> e == []
    requires e != [] && e[|e| - 1] == SLASH ==> s[n..] != [] && s[n..][|s[n..]| - 1] == SLASH
    ensures x + e != []
    ensures (x + e)[|x + e| - 1] == SLASH ==> s[|s| - 1] == SLASH
  {
    if e != [] {
      assert s[n..][|s[n..]| - 1] == s[|s| - 1];
      assert (x + e)[|x + e| - 1] == e[|e| - 1];
    } else {
      assert x + e == x;
    }
  }
}
