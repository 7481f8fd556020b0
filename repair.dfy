/** The first byte pass, fixEscapeErrorsAndUnescapeHighOrderUTF8
    (Normalisation.java:100-125): malformed `%` signs are escaped as `%25`,
    valid escapes of ASCII values are kept exactly as written and valid
    escapes of high-order values become the raw byte. */
module EscapeRepair {
  import opened Bytes
  import opened Decoding

  /** A valid escape starts at index `j`: two hex digits follow the byte there. */
  predicate EscapeAt(s: Bytes, j: int)
    requires 0 <= j < |s|
  {
    j + 2 < |s| && IsHex(s[j + 1]) && IsHex(s[j + 2])
  }

  /** Every `%` starts a valid escape: what escapeUTF8 demands of its input
      (Normalisation.java:127), so that its reads at line 138 are in bounds. */
  predicate EscapesComplete(s: Bytes) {
    forall j | 0 <= j < |s| && s[j] == PERCENT :: EscapeAt(s, j)
  }

  /** Every `%` starts a valid escape of an ASCII value: the form of the
      intermediate buffer that escape repair produces. */
  predicate AsciiEscaped(s: Bytes) {
    forall j | 0 <= j < |s| && s[j] == PERCENT :: EscapeAt(s, j) && IsAscii(HexValue(s[j + 1], s[j + 2]))
  }

  /** What repair writes for the token at the start of `s`, and how many
      bytes of `s` that token is. */
  function RepairToken(s: Bytes): (t: (Bytes, nat))
    requires s != []
    ensures 1 <= t.1 <= |s|
  {
    if s[0] == PERCENT then
      if |s| >= 3 && IsHex(s[1]) && IsHex(s[2]) then
        var u := HexValue(s[1], s[2]);
        (if IsAscii(u) then s[..3] else [u], 3)
      else
        (ESCAPED_PERCENT, 1)
    else
      ([s[0]], 1)
  }

  /** The bytes escape repair writes for `s`, token by token. */
  function Repair(s: Bytes): Bytes
    decreases |s|
  {
    if s == [] then []
    else
      var t := RepairToken(s);
      t.0 + Repair(s[t.1..])
  }

  /** fixEscapeErrorsAndUnescapeHighOrderUTF8: never fails, and its result
      meets escapeUTF8's precondition. */
  method FixEscapeErrors(url: Bytes) returns (r: Bytes)
    ensures r == Repair(url)
    ensures AsciiEscaped(r) && EscapesComplete(r)
  {
    var sb := new ByteStream();
    var i := 0;
    assert url[i..] == url;
    while i < |url|
      invariant 0 <= i <= |url|
      invariant sb.data + Repair(url[i..]) == Repair(url)
    {
      ghost var before, start, token := sb.data, i, RepairToken(url[i..]);
      var c := url[i];
      if c == PERCENT {
        if i < |url| - 2 && IsHex(url[i + 1]) && IsHex(url[i + 2]) {
          var u := HexValue(url[i + 1], url[i + 2]);
          if IsAscii(u) {  // ASCII, so don't touch
            sb.Write(PERCENT); sb.Write(url[i + 1]); sb.Write(url[i + 2]);
            assert token.0 == [PERCENT, url[i + 1], url[i + 2]];
          } else {  // high-order: write the raw byte
            sb.Write(u);
            assert token.0 == [u];
          }
          i := i + 3;
        } else {  // faulty: escape the percent sign itself
          sb.Write(PERCENT); sb.Write('2' as int); sb.Write('5' as int);
          assert token.0 == ESCAPED_PERCENT;
          i := i + 1;
        }
      } else {
        sb.Write(url[i]);
        assert token.0 == [c];
        i := i + 1;
      }
      RepairAdvance(url, start, i, before, sb.data);
    }
    r := sb.data;
    assert url[i..] == [];
    RepairAsciiEscaped(url);
  }

  /** Writing the token at `start` and moving to `next` keeps the loop's
      account of the output. */
  lemma RepairAdvance(s: Bytes, start: nat, next: nat, before: Bytes, after: Bytes)
    requires start < |s|
    requires var t := RepairToken(s[start..]); after == before + t.0 && next == start + t.1
    ensures next <= |s| && after + Repair(s[next..]) == before + Repair(s[start..])
  {
    var t := RepairToken(s[start..]);
    assert s[start..][t.1..] == s[next..];
    assert (before + t.0) + Repair(s[next..]) == before + (t.0 + Repair(s[next..]));
  }

  lemma AsciiEscapedSuffix(s: Bytes, n: nat)
    requires n <= |s| && AsciiEscaped(s)
    ensures AsciiEscaped(s[n..])
  {
    forall j | 0 <= j < |s[n..]| && s[n..][j] == PERCENT
      ensures EscapeAt(s[n..], j) && IsAscii(HexValue(s[n..][j + 1], s[n..][j + 2]))
    {
      assert s[n..][j] == s[n + j];
    }
  }

  lemma AsciiEscapedConcat(a: Bytes, b: Bytes)
    requires AsciiEscaped(a) && AsciiEscaped(b)
    ensures AsciiEscaped(a + b)
  {
    forall j | 0 <= j < |a + b| && (a + b)[j] == PERCENT
      ensures EscapeAt(a + b, j) && IsAscii(HexValue((a + b)[j + 1], (a + b)[j + 2]))
    {
      if j < |a| {
        assert a[j] == PERCENT;
      } else {
        assert b[j - |a|] == PERCENT;
      }
    }
  }

  /** The central property: escape repair leaves only valid ASCII escapes. */
  lemma {:induction false} RepairAsciiEscaped(s: Bytes)
    ensures AsciiEscaped(Repair(s)) && EscapesComplete(Repair(s))
    decreases |s|
  {
    if s != [] {
      var head: Bytes, tail: Bytes;
      if s[0] == PERCENT && |s| >= 3 && IsHex(s[1]) && IsHex(s[2]) {
        var u := HexValue(s[1], s[2]);
        head, tail := if IsAscii(u) then s[..3] else [u], s[3..];
        assert AsciiEscaped(head) by {
          if IsAscii(u) {
            assert head == [PERCENT, s[1], s[2]];
          }
        }
      } else if s[0] == PERCENT {
        head, tail := ESCAPED_PERCENT, s[1..];
        assert HexValue(head[1], head[2]) == 0x25;
      } else {
        head, tail := [s[0]], s[1..];
      }
      assert Repair(s) == head + Repair(tail);
      RepairAsciiEscaped(tail);
      AsciiEscapedConcat(head, Repair(tail));
    }
  }

  /** Repair leaks nothing through: an intermediate buffer is left as it is. */
  lemma {:induction false} RepairKeepsAsciiEscaped(s: Bytes)
    requires AsciiEscaped(s)
    ensures Repair(s) == s
    decreases |s|
  {
    if s != [] {
      if s[0] == PERCENT {
        assert EscapeAt(s, 0) && IsAscii(HexValue(s[1], s[2]));
        assert RepairToken(s) == (s[..3], 3);
        AsciiEscapedSuffix(s, 3);
        RepairKeepsAsciiEscaped(s[3..]);
        assert s == s[..3] + s[3..];
      } else {
        assert RepairToken(s) == ([s[0]], 1);
        AsciiEscapedSuffix(s, 1);
        RepairKeepsAsciiEscaped(s[1..]);
        assert s == [s[0]] + s[1..];
      }
    }
  }

  /** The bytes repair leaves unchanged are exactly those already in intermediate form. */
  lemma RepairFixpoint(s: Bytes)
    ensures Repair(s) == s <==> AsciiEscaped(s)
  {
    RepairAsciiEscaped(s);
    if AsciiEscaped(s) {
      RepairKeepsAsciiEscaped(s);
    }
  }

  lemma RepairIdempotent(s: Bytes)
    ensures Repair(Repair(s)) == Repair(s)
  {
    RepairAsciiEscaped(s);
    RepairKeepsAsciiEscaped(Repair(s));
  }

  /** Repair does not change what the URL says: a malformed `%` meant itself,
      and still does as `%25`; a high-order escape and its raw byte read the same. */
  lemma {:induction false} RepairPreservesDecode(s: Bytes)
    ensures Decode(Repair(s)) == Decode(s)
    decreases |s|
  {
    if s != [] {
      if s[0] == PERCENT && |s| >= 3 && IsHex(s[1]) && IsHex(s[2]) {
        var u := HexValue(s[1], s[2]);
        if IsAscii(u) {
          assert (s[..3] + Repair(s[3..]))[3..] == Repair(s[3..]);
        } else {
          assert ([u] + Repair(s[3..]))[1..] == Repair(s[3..]);
        }
        RepairPreservesDecode(s[3..]);
      } else if s[0] == PERCENT {
        assert (ESCAPED_PERCENT + Repair(s[1..]))[3..] == Repair(s[1..]);
        RepairPreservesDecode(s[1..]);
      } else {
        assert ([s[0]] + Repair(s[1..]))[1..] == Repair(s[1..]);
        RepairPreservesDecode(s[1..]);
      }
    }
  }

  /** The same holds of the reading with the parameter convention: repair
      neither adds nor removes a literal `?`. */
  lemma {:induction false} RepairPreservesFormDecode(s: Bytes, inParams: bool)
    ensures FormDecode(Repair(s), inParams) == FormDecode(s, inParams)
    decreases |s|
  {
    if s != [] {
      var p := inParams || s[0] == QUESTION;
      if s[0] == PERCENT && |s| >= 3 && IsHex(s[1]) && IsHex(s[2]) {
        var u := HexValue(s[1], s[2]);
        if IsAscii(u) {
          assert (s[..3] + Repair(s[3..]))[3..] == Repair(s[3..]);
        } else {
          assert ([u] + Repair(s[3..]))[1..] == Repair(s[3..]);
        }
        RepairPreservesFormDecode(s[3..], p);
      } else if s[0] == PERCENT {
        assert (ESCAPED_PERCENT + Repair(s[1..]))[3..] == Repair(s[1..]);
        RepairPreservesFormDecode(s[1..], p);
      } else {
        assert ([s[0]] + Repair(s[1..]))[1..] == Repair(s[1..]);
        RepairPreservesFormDecode(s[1..], p);
      }
    }
  }

  /** A valid escape of an ASCII value is copied as written, hex case included. */
  lemma RepairAsciiEscapeKept(s: Bytes)
    requires |s| >= 3 && s[0] == PERCENT && IsHex(s[1]) && IsHex(s[2]) && IsAscii(HexValue(s[1], s[2]))
    ensures Repair(s) == [PERCENT, s[1], s[2]] + Repair(s[3..])
  {
    assert s[..3] == [PERCENT, s[1], s[2]];
    var t := RepairToken(s);
    assert t.1 == 3 && t.0 == s[..3];
    assert Repair(s) == t.0 + Repair(s[t.1..]);
  }

  /** A valid escape of a high-order value becomes exactly one raw byte. */
  lemma RepairHighOrderEscape(s: Bytes)
    requires |s| >= 3 && s[0] == PERCENT && IsHex(s[1]) && IsHex(s[2]) && !IsAscii(HexValue(s[1], s[2]))
    ensures Repair(s) == [HexValue(s[1], s[2])] + Repair(s[3..])
  {
  }

  /** A `%` without two hex digits after it becomes `%25`, and only the `%`
      itself is consumed. */
  lemma RepairMalformedPercent(s: Bytes)
    requires s != [] && s[0] == PERCENT && !(|s| >= 3 && IsHex(s[1]) && IsHex(s[2]))
    ensures Repair(s) == ESCAPED_PERCENT + Repair(s[1..])
  {
  }

  /** Every other byte is copied unchanged. */
  lemma RepairOtherByte(s: Bytes)
    requires s != [] && s[0] != PERCENT
    ensures Repair(s) == [s[0]] + Repair(s[1..])
  {
  }

  /** Repair reads a byte that is neither `%` nor a hex digit as a token of
      its own, whatever precedes it. */
  lemma {:induction false} RepairAppend(s: Bytes, b: Byte)
    requires b != PERCENT && !IsHex(b)
    ensures Repair(s + [b]) == Repair(s) + [b]
    decreases |s|
  {
    var u := s + [b];
    if s == [] {
      assert u == [b] && u[1..] == [];
    } else {
      var t := RepairToken(s);
      var head, rest := t.0, Repair(s[t.1..]);
      assert (head + rest) + [b] == head + (rest + [b]);
      if |s| < 3 && s[0] == PERCENT {
        assert !(IsHex(u[1]) && IsHex(u[2])) || |u| < 3;
      } else if s[0] == PERCENT && |s| >= 3 {
        assert u[..3] == s[..3];
      }
      assert RepairToken(u) == t;
      assert u[t.1..] == s[t.1..] + [b];
      RepairAppend(s[t.1..], b);
    }
  }

  /** A run without `%` is copied unchanged, whatever follows it. */
  lemma {:induction false} RepairPlainPrefix(a: Bytes, b: Bytes)
    requires PERCENT !in a
    ensures Repair(a + b) == a + Repair(b)
    decreases |a|
  {
    if a == [] {
      assert a + b == b;
    } else {
      var u := a + b;
      assert u[0] == a[0] && u[1..] == a[1..] + b;
      RepairPlainPrefix(a[1..], b);
      assert ([a[0]] + a[1..]) + Repair(b) == [a[0]] + (a[1..] + Repair(b));
      assert a == [a[0]] + a[1..];
    }
  }

  /** Every token repair reads is written as at least one byte. */
  lemma RepairTokenNonEmpty(s: Bytes)
    requires s != []
    ensures RepairToken(s).0 != []
  {
  }

  /** Repair writes something for every byte it reads. */
  lemma RepairNonEmpty(s: Bytes)
    ensures s != [] ==> Repair(s) != []
  {
    if s != [] {
      RepairTokenNonEmpty(s);
    }
  }

  /** Repair ends its output in `/` only where the input ended in one: a kept
      escape ends in a hex digit, `%25` in `5`, and a decoded escape is a
      high-order byte. */
  lemma {:induction false} RepairLastSlash(s: Bytes)
    ensures Repair(s) != [] && Repair(s)[|Repair(s)| - 1] == SLASH ==> s != [] && s[|s| - 1] == SLASH
    decreases |s|
  {
    if s != [] {
      var t := RepairToken(s);
      var rest := s[t.1..];
      RepairLastSlash(rest);
      RepairNonEmpty(rest);
      RepairTokenNonEmpty(s);
      assert t.0[|t.0| - 1] == SLASH ==> t.1 == 1 && s[0] == SLASH;
      if rest != [] {
        assert s[|s| - 1] == rest[|rest| - 1];
        assert (t.0 + Repair(rest))[|t.0| + |Repair(rest)| - 1] == Repair(rest)[|Repair(rest)| - 1];
      } else {
        assert Repair(s) == t.0 + [];
      }
    }
  }
}
