/** canonicaliseURL (Normalisation.java:58-96) and its two shorthands: the
    external canonicaliser, the protocol and slash glue, then both byte
    passes. The external canonicaliser (AggressiveUrlCanonicalizer) and the
    NORMALISE_URLS property are parameters. */
module Normalisation {
  import opened Bytes
  import opened Decoding
  import opened EscapeRepair
  import opened Reescape
  import opened EscapeProperties
  import opened UrlGlue

  /** What canonicaliseURL returns for `url`. */
  function Canonicalise(url: Bytes, allowHighOrder: bool, createUnambiguous: bool,
                        normaliseUrls: bool, canon: Bytes -> Bytes): Bytes
  {
    if !normaliseUrls || url == [] then url
    else
      var urlBytes := Repair(SlashPolicy(canon(url)));
      RepairAsciiEscaped(SlashPolicy(canon(url)));
      Escape(urlBytes, false, !allowHighOrder, createUnambiguous)
  }

  /** Multi-step URL canonicalisation. */
  method CanonicaliseUrlWith(url: Bytes, allowHighOrder: bool, createUnambiguous: bool,
                             normaliseUrls: bool, canon: Bytes -> Bytes) returns (r: Bytes)
    ensures r == Canonicalise(url, allowHighOrder, createUnambiguous, normaliseUrls, canon)
    ensures normaliseUrls && url != [] ==>
              Canonical(r, !allowHighOrder, createUnambiguous)
              && Decode(r) == FormDecode(SlashPolicy(canon(url)), false)
  {
    if !normaliseUrls {
      return url;
    }
    if |url| == 0 {
      return url;
    }
    var u := canon(url);
    u := if StartsWith(u, HTTPS) then HTTP + u[|HTTPS|..] else u;
    ghost var downgraded := u;
    while |u| > 0 && u[|u| - 1] == SLASH
      invariant StripSlashes(u) == StripSlashes(downgraded)
      decreases |u|
    {
      u := u[..|u| - 1];
    }
    if DomainOnly(u) {
      u := u + [SLASH];
    }
    var urlBytes := FixEscapeErrors(u);
    r := EscapeUtf8(urlBytes, !allowHighOrder, createUnambiguous);
    CanonicaliseMeaning(url, allowHighOrder, createUnambiguous, canon);
  }

  /** The output of a normalising run is canonical and reads as the URL the
      glue produced, with the parameter convention. */
  lemma CanonicaliseMeaning(url: Bytes, allowHighOrder: bool, createUnambiguous: bool, canon: Bytes -> Bytes)
    requires url != []
    ensures var r := Canonicalise(url, allowHighOrder, createUnambiguous, true, canon);
            Canonical(r, !allowHighOrder, createUnambiguous)
            && Decode(r) == FormDecode(SlashPolicy(canon(url)), false)
  {
    var t := SlashPolicy(canon(url));
    RepairAsciiEscaped(t);
    EscapeCanonical(Repair(t), false, !allowHighOrder, createUnambiguous);
    EscapeDecodes(Repair(t), false, !allowHighOrder, createUnambiguous);
    RepairPreservesFormDecode(t, false);
  }

  /** The default, aggressive normaliser: high-order characters raw, escapes
      normalised. */
  method CanonicaliseUrl(url: Bytes, normaliseUrls: bool, canon: Bytes -> Bytes) returns (r: Bytes)
    ensures r == Canonicalise(url, true, true, normaliseUrls, canon)
    ensures normaliseUrls && url != [] ==>
              Canonical(r, false, true) && Decode(r) == FormDecode(SlashPolicy(canon(url)), false)
  {
    r := CanonicaliseUrlWith(url, true, true, normaliseUrls, canon);
  }

  /** Corrects errors in URLs: high-order characters escaped, valid escapes
      kept (in lower case), so the result is plain ASCII. */
  method FixUrlErrors(url: Bytes, normaliseUrls: bool, canon: Bytes -> Bytes) returns (r: Bytes)
    ensures r == Canonicalise(url, false, false, normaliseUrls, canon)
    ensures normaliseUrls && url != [] ==>
              Canonical(r, true, false) && Decode(r) == FormDecode(SlashPolicy(canon(url)), false)
  {
    r := CanonicaliseUrlWith(url, false, false, normaliseUrls, canon);
  }

  /** Null checks aside, empty input and a disabled normaliser pass the URL through. */
  lemma CanonicalisePassThrough(url: Bytes, allowHighOrder: bool, createUnambiguous: bool,
                                normaliseUrls: bool, canon: Bytes -> Bytes)
    requires !normaliseUrls || url == []
    ensures Canonicalise(url, allowHighOrder, createUnambiguous, normaliseUrls, canon) == url
  {
  }

  /** Protocol downgrade: URLs the external canonicaliser leaves as the https
      and the http form of one address come out alike. */
  lemma CanonicaliseHttps(url1: Bytes, url2: Bytes, rest: Bytes, allowHighOrder: bool, createUnambiguous: bool,
                          canon: Bytes -> Bytes)
    requires url1 != [] && url2 != []
    requires canon(url1) == HTTPS + rest && canon(url2) == HTTP + rest
    ensures Canonicalise(url1, allowHighOrder, createUnambiguous, true, canon)
            == Canonicalise(url2, allowHighOrder, createUnambiguous, true, canon)
  {
    SlashPolicyHttps(rest);
  }

  /** Trailing slash removal: a trailing slash after what the external
      canonicaliser returns changes nothing. */
  lemma CanonicaliseTrailingSlash(url1: Bytes, url2: Bytes, allowHighOrder: bool, createUnambiguous: bool,
                                  canon: Bytes -> Bytes)
    requires url1 != [] && url2 != []
    requires StartsWith(canon(url2), HTTP) || StartsWith(canon(url2), HTTPS)
    requires canon(url1) == canon(url2) + [SLASH]
    ensures Canonicalise(url1, allowHighOrder, createUnambiguous, true, canon)
            == Canonicalise(url2, allowHighOrder, createUnambiguous, true, canon)
  {
    SlashPolicyTrailingSlash(canon(url2));
  }

  /** Domain-only slash: an address the external canonicaliser leaves as a
      bare domain comes out ending in a slash, and in exactly one when valid
      escapes are kept as escapes. */
  lemma CanonicaliseBareDomain(url: Bytes, host: Bytes, allowHighOrder: bool, createUnambiguous: bool,
                               canon: Bytes -> Bytes)
    requires url != [] && canon(url) == HTTP + host
    requires host != [] && SLASH !in host
    ensures var r := Canonicalise(url, allowHighOrder, createUnambiguous, true, canon);
            EndsWithSlash(r) && (!createUnambiguous ==> !EndsWithSlash(r[..|r| - 1]))
  {
    var d := HTTP + host;
    SlashPolicyBareDomain(host);
    assert d[|d| - 1] == host[|host| - 1] && host[|host| - 1] in host;
    RepairAsciiEscaped(d + [SLASH]);
    SlashThroughPasses(d, !allowHighOrder, createUnambiguous);
  }

  /** A `/` appended to a URL survives both byte passes as the last byte.
      With escapes kept it is the only trailing `/` when the URL had none. */
  lemma SlashThroughPasses(d: Bytes, escapeHighOrder: bool, normaliseLowOrder: bool)
    requires !EndsWithSlash(d)
    ensures EscapesComplete(Repair(d + [SLASH]))
    ensures var r := Escape(Repair(d + [SLASH]), false, escapeHighOrder, normaliseLowOrder);
            EndsWithSlash(r) && (!normaliseLowOrder ==> !EndsWithSlash(r[..|r| - 1]))
  {
    RepairAppend(d, SLASH);
    RepairAsciiEscaped(d);
    EscapeAppend(Repair(d), SLASH, false, escapeHighOrder, normaliseLowOrder);
    var e := Escape(Repair(d), false, escapeHighOrder, normaliseLowOrder);
    assert (e + [SLASH])[..|e|] == e;
    if !normaliseLowOrder {
      EscapeLastSlash(Repair(d), false, escapeHighOrder);
      RepairLastSlash(d);
    }
  }

  /** `%3F%20`: an escaped `?` and an escaped space. */
  const ESCAPED_QUESTION_SPACE: Bytes := [PERCENT, '3' as int, 'F' as int, PERCENT, '2' as int, '0' as int]
  /** `?%20`: what the default normaliser makes of it. */
  const QUESTION_ESCAPED_SPACE: Bytes := [QUESTION, PERCENT, '2' as int, '0' as int]

  /** With escapes normalised, `%3F%20` becomes `?%20`: the `?` is decoded,
      but no parameter section starts, so the space stays escaped. */
  lemma EscapedQuestionExample()
    ensures Canonicalise(ESCAPED_QUESTION_SPACE, true, true, true, u => u) == QUESTION_ESCAPED_SPACE
  {
    var a := ESCAPED_QUESTION_SPACE;
    ShortUrlSlashPolicy(a);
    EscapedQuestionRepair();
    EscapedQuestionEscape();
  }

  /** Both escapes of `%3F%20` are valid and of ASCII values, so repair keeps them. */
  lemma EscapedQuestionRepair()
    ensures Repair(ESCAPED_QUESTION_SPACE) == ESCAPED_QUESTION_SPACE
  {
    var a := ESCAPED_QUESTION_SPACE;
    var tail := a[3..];
    assert tail == [PERCENT, '2' as int, '0' as int] && tail[..3] == tail && tail[3..] == [];
    assert RepairToken(a) == (a[..3], 3);
    assert RepairToken(tail) == (tail, 3);
    assert Repair(tail) == tail;
  }

  /** Re-escaping `%3F%20` decodes the `?` and keeps the space escaped. */
  lemma EscapedQuestionEscape()
    ensures EscapesComplete(ESCAPED_QUESTION_SPACE)
    ensures Escape(ESCAPED_QUESTION_SPACE, false, false, true) == QUESTION_ESCAPED_SPACE
  {
    var a := ESCAPED_QUESTION_SPACE;
    var tail := a[3..];
    assert tail == [PERCENT, '2' as int, '0' as int] && tail[..3] == tail && tail[3..] == [];
    assert EscapesComplete(a) by {
      EscapedQuestionRepair();
      RepairAsciiEscaped(a);
    }
    assert EscapeToken(tail, false, false, true) == (HexEscaped(SPACE), 3);
    assert HexEscaped(SPACE) == tail;
    assert Escape(tail, false, false, true) == tail;
    assert EscapeToken(a, false, false, true) == ([QUESTION], 3);
  }

  /** `?%20` becomes `?+`: the literal `?` starts the parameter section. */
  lemma LiteralQuestionExample()
    ensures Canonicalise(QUESTION_ESCAPED_SPACE, true, true, true, u => u) == [QUESTION, PLUS]
  {
    var b := QUESTION_ESCAPED_SPACE;
    ShortUrlSlashPolicy(b);
    LiteralQuestionRepair();
    LiteralQuestionEscape();
  }

  /** Repair keeps `?%20` as it is. */
  lemma LiteralQuestionRepair()
    ensures Repair(QUESTION_ESCAPED_SPACE) == QUESTION_ESCAPED_SPACE
  {
    var b := QUESTION_ESCAPED_SPACE;
    var tail := b[1..];
    assert tail == [PERCENT, '2' as int, '0' as int] && tail[..3] == tail && tail[3..] == [];
    assert RepairToken(b) == ([QUESTION], 1);
    assert RepairToken(tail) == (tail, 3);
    assert Repair(tail) == tail;
  }

  /** Re-escaping `?%20` writes the escaped space as `+`. */
  lemma LiteralQuestionEscape()
    ensures EscapesComplete(QUESTION_ESCAPED_SPACE)
    ensures Escape(QUESTION_ESCAPED_SPACE, false, false, true) == [QUESTION, PLUS]
  {
    var b := QUESTION_ESCAPED_SPACE;
    var tail := b[1..];
    assert tail == [PERCENT, '2' as int, '0' as int] && tail[..3] == tail && tail[3..] == [];
    assert EscapesComplete(b) by {
      LiteralQuestionRepair();
      RepairAsciiEscaped(b);
    }
    assert EscapeToken(tail, true, false, true) == ([PLUS], 3);
    assert Escape(tail, true, false, true) == [PLUS];
    assert EscapeToken(b, false, false, true) == ([QUESTION], 1);
  }

  /** Neither example URL is touched by the slash policy. */
  lemma ShortUrlSlashPolicy(u: Bytes)
    requires 0 < |u| < |HTTP| && u[|u| - 1] != SLASH
    ensures SlashPolicy(u) == u
  {
  }

  /** Canonicalisation is not idempotent: an escaped `?` is decoded to a
      literal one, so a second run sees a parameter section the first did
      not and turns the escaped space after it into `+`. */
  lemma CanonicaliseNotIdempotent()
    ensures var once := Canonicalise(ESCAPED_QUESTION_SPACE, true, true, true, u => u);
            Canonicalise(once, true, true, true, u => u) != once
  {
    EscapedQuestionExample();
    LiteralQuestionExample();
    assert [QUESTION, PLUS] != QUESTION_ESCAPED_SPACE;
  }
}
