/** The examples in the source's comments (Normalisation.java:38, 54 and
    90-92), and three counterexamples to properties the code does not
    have (a bare domain with one trailing slash, a plus kept apart from a
    space in the parameter section, printable output), worked through the
    model with the external canonicaliser taken as the identity. Each URL
    is written as its units, so that each step of a proof reads one unit. */
module DocumentedExamples {
  import opened Bytes
  import opened EscapeRepair
  import opened Reescape
  import opened EscapeProperties
  import opened UrlGlue
  import opened Normalisation

  /** `http://example.com/` */
  const SITE: Bytes := ['h' as int, 't' as int, 't' as int, 'p' as int, ':' as int, '/' as int, '/' as int, 'e' as int, 'x' as int, 'a' as int, 'm' as int, 'p' as int, 'l' as int, 'e' as int, '.' as int, 'c' as int, 'o' as int, 'm' as int, '/' as int]
  /** `http://example.com/all` */
  const SITE_ALL: Bytes := ['h' as int, 't' as int, 't' as int, 'p' as int, ':' as int, '/' as int, '/' as int, 'e' as int, 'x' as int, 'a' as int, 'm' as int, 'p' as int, 'l' as int, 'e' as int, '.' as int, 'c' as int, 'o' as int, 'm' as int, '/' as int, 'a' as int, 'l' as int, 'l' as int]
  /** `%2A`, an escaped `*`, and `%2a`, the same in lower case. */
  const STAR_ESCAPE: Bytes := [PERCENT, '2' as int, 'A' as int]
  const STAR_ESCAPE_LOWER: Bytes := [PERCENT, '2' as int, 'a' as int]
  const STAR: Byte := '*' as int
  const HTML: Bytes := ['.' as int, 'h' as int, 't' as int, 'm' as int, 'l' as int]
  const ESCAPED_SPACE: Bytes := [PERCENT, '2' as int, '0' as int]
  const ROS: Bytes := ['r' as int, 'o' as int, 's' as int]
  /** `é` in UTF-8, and its escapes `%c3%a9`. */
  const E_ACUTE: Bytes := [0xC3, 0xA9]
  const E_ACUTE_ESCAPED: Bytes := [PERCENT, 'c' as int, '3' as int, PERCENT, 'a' as int, '9' as int]
  const TEN: Bytes := ['1' as int, '0' as int]
  const WINE: Bytes := ['w' as int, 'i' as int, 'n' as int, 'e' as int]
  const TWELVE: Bytes := ['1' as int, '2' as int]
  const PROOF: Bytes := ['p' as int, 'r' as int, 'o' as int, 'o' as int, 'f' as int]

  // http://example.com/%2A.html (Normalisation.java:54)

  const STAR_URL: Bytes := SITE + (STAR_ESCAPE + HTML)
  const STAR_URL_UNAMBIGUOUS: Bytes := SITE + ([STAR] + HTML)
  const STAR_URL_KEPT: Bytes := SITE + (STAR_ESCAPE_LOWER + HTML)

  /** With escapes normalised `%2A` becomes `*`; with escapes kept it stays
      an escape, written in lower case. */
  lemma StarUrlExample(allowHighOrder: bool)
    ensures Canonicalise(STAR_URL, allowHighOrder, true, true, u => u) == STAR_URL_UNAMBIGUOUS
    ensures Canonicalise(STAR_URL, allowHighOrder, false, true, u => u) == STAR_URL_KEPT
  {
    assert STAR_URL[..|HTTP|] == HTTP;
    assert STAR_URL[|HTTP|..][11] == SLASH;
    SlashPolicyKeepsPath(STAR_URL);
    StarUrlRepair();
    StarUrlEscape(!allowHighOrder, true);
    StarUrlEscape(!allowHighOrder, false);
  }

  lemma StarUrlRepair()
    ensures Repair(STAR_URL) == STAR_URL
  {
    PlainRepair(HTML);
    StarEscapeRepair(HTML);
    RepairPlainPrefix(SITE, STAR_ESCAPE + HTML);
  }

  lemma StarUrlEscape(escapeHighOrder: bool, normaliseLowOrder: bool)
    ensures EscapesComplete(STAR_URL)
    ensures Escape(STAR_URL, false, escapeHighOrder, normaliseLowOrder)
            == if normaliseLowOrder then STAR_URL_UNAMBIGUOUS else STAR_URL_KEPT
  {
    StarShapeEscape(SITE, HTML, escapeHighOrder, normaliseLowOrder);
  }

  lemma StarShapeEscape(site: Bytes, html: Bytes, escapeHighOrder: bool, normaliseLowOrder: bool)
    requires PlainRun(site) && PlainRun(html)
    ensures EscapesComplete(site + (STAR_ESCAPE + html))
    ensures Escape(site + (STAR_ESCAPE + html), false, escapeHighOrder, normaliseLowOrder)
            == site + ((if normaliseLowOrder then [STAR] else STAR_ESCAPE_LOWER) + html)
  {
    PlainEscape(html, escapeHighOrder, normaliseLowOrder);
    StarEscapeThen(html, escapeHighOrder, normaliseLowOrder);
    EscapePlainPrefix(site, STAR_ESCAPE + html, false, escapeHighOrder, normaliseLowOrder);
  }

  // http://example.com/all%2A rosé 10%.html (Normalisation.java:90-92)

  const ROSE_URL: Bytes :=
    SITE_ALL + (STAR_ESCAPE + ([SPACE] + (ROS + (E_ACUTE + ([SPACE] + (TEN + ([PERCENT] + HTML)))))))
  const ROSE_REPAIRED: Bytes :=
    SITE_ALL + (STAR_ESCAPE + ([SPACE] + (ROS + (E_ACUTE + ([SPACE] + (TEN + (ESCAPED_PERCENT + HTML)))))))
  /** `http://example.com/all*%20rosé%2010%25.html` */
  const ROSE_READABLE: Bytes :=
    SITE_ALL + ([STAR] + (ESCAPED_SPACE + (ROS + (E_ACUTE + (ESCAPED_SPACE + (TEN + (ESCAPED_PERCENT + HTML)))))))
  /** `http://example.com/all*%20ros%c3%a9%2010%25.html` */
  const ROSE_ASCII: Bytes :=
    SITE_ALL + ([STAR] + (ESCAPED_SPACE + (ROS + (E_ACUTE_ESCAPED + (ESCAPED_SPACE + (TEN + (ESCAPED_PERCENT + HTML)))))))

  /** With escapes normalised, `%2A` becomes `*`, spaces become `%20` and the
      stray `%` becomes `%25`; `é` stays raw when high-order characters are
      allowed and is escaped in lower case otherwise. */
  lemma RoseUrlExample()
    ensures Canonicalise(ROSE_URL, true, true, true, u => u) == ROSE_READABLE
    ensures Canonicalise(ROSE_URL, false, true, true, u => u) == ROSE_ASCII
  {
    assert ROSE_URL[..|HTTP|] == HTTP;
    assert ROSE_URL[|HTTP|..][11] == SLASH;
    SlashPolicyKeepsPath(ROSE_URL);
    RoseUrlRepair();
    RoseUrlEscape(false);
    RoseUrlEscape(true);
  }

  lemma RoseUrlRepair()
    ensures Repair(ROSE_URL) == ROSE_REPAIRED
  {
    RoseShapeRepair(SITE_ALL, ROS, TEN, HTML);
  }

  lemma RoseShapeRepair(site: Bytes, ros: Bytes, ten: Bytes, html: Bytes)
    requires PERCENT !in site && PERCENT !in ros && PERCENT !in ten && PERCENT !in html
    requires html != [] && !IsHex(html[0])
    ensures Repair(site + (STAR_ESCAPE + ([SPACE] + (ros + (E_ACUTE + ([SPACE] + (ten + ([PERCENT] + html))))))))
            == site + (STAR_ESCAPE + ([SPACE] + (ros + (E_ACUTE + ([SPACE] + (ten + (ESCAPED_PERCENT + html)))))))
  {
    var t2 := [SPACE] + (ros + (E_ACUTE + ([SPACE] + (ten + ([PERCENT] + html)))));
    RoseTailRepair(ros, ten, html);
    StarEscapeRepair(t2);
    RepairPlainPrefix(site, STAR_ESCAPE + t2);
  }

  /** The part of the rose URL after `%2A`. */
  lemma RoseTailRepair(ros: Bytes, ten: Bytes, html: Bytes)
    requires PERCENT !in ros && PERCENT !in ten && PERCENT !in html
    requires html != [] && !IsHex(html[0])
    ensures Repair([SPACE] + (ros + (E_ACUTE + ([SPACE] + (ten + ([PERCENT] + html))))))
            == [SPACE] + (ros + (E_ACUTE + ([SPACE] + (ten + (ESCAPED_PERCENT + html)))))
  {
    var t6 := ten + ([PERCENT] + html);
    PlainRepair(html);
    StrayPercentRepair(html);
    RepairPlainPrefix(ten, [PERCENT] + html);
    RepairPlainPrefix([SPACE], t6);
    RepairPlainPrefix(E_ACUTE, [SPACE] + t6);
    RepairPlainPrefix(ros, E_ACUTE + ([SPACE] + t6));
    RepairPlainPrefix([SPACE], ros + (E_ACUTE + ([SPACE] + t6)));
  }

  lemma RoseUrlEscape(escapeHighOrder: bool)
    ensures EscapesComplete(ROSE_REPAIRED)
    ensures Escape(ROSE_REPAIRED, false, escapeHighOrder, true)
            == if escapeHighOrder then ROSE_ASCII else ROSE_READABLE
  {
    RoseShapeEscape(SITE_ALL, ROS, TEN, HTML, escapeHighOrder);
  }

  lemma RoseShapeEscape(site: Bytes, ros: Bytes, ten: Bytes, html: Bytes, escapeHighOrder: bool)
    requires PlainRun(site) && PlainRun(ros) && PlainRun(ten) && PlainRun(html)
    ensures var s := site + (STAR_ESCAPE + ([SPACE] + (ros + (E_ACUTE + ([SPACE] + (ten + (ESCAPED_PERCENT + html)))))));
            EscapesComplete(s)
            && Escape(s, false, escapeHighOrder, true)
               == site + ([STAR] + (ESCAPED_SPACE + (ros + ((if escapeHighOrder then E_ACUTE_ESCAPED else E_ACUTE)
                  + (ESCAPED_SPACE + (ten + (ESCAPED_PERCENT + html)))))))
  {
    var e6 := ten + (ESCAPED_PERCENT + html);
    PlainEscape(html, escapeHighOrder, true);
    PercentEscapeThen(html, escapeHighOrder, true);
    EscapePlainPrefix(ten, ESCAPED_PERCENT + html, false, escapeHighOrder, true);
    SpaceThen(e6, escapeHighOrder, true);
    EAcuteThen([SPACE] + e6, escapeHighOrder, true);
    var e3 := ros + (E_ACUTE + ([SPACE] + e6));
    EscapePlainPrefix(ros, E_ACUTE + ([SPACE] + e6), false, escapeHighOrder, true);
    SpaceThen(e3, escapeHighOrder, true);
    StarEscapeThen([SPACE] + e3, escapeHighOrder, true);
    EscapePlainPrefix(site, STAR_ESCAPE + ([SPACE] + e3), false, escapeHighOrder, true);
  }

  // "...wine 12% proof..." (Normalisation.java:38)

  const WINE_URL: Bytes := SITE + (WINE + ([SPACE] + (TWELVE + ([PERCENT] + ([SPACE] + PROOF)))))
  const WINE_REPAIRED: Bytes := SITE + (WINE + ([SPACE] + (TWELVE + (ESCAPED_PERCENT + ([SPACE] + PROOF)))))
  /** `http://example.com/wine%2012%25%20proof` */
  const WINE_FIXED: Bytes := SITE + (WINE + (ESCAPED_SPACE + (TWELVE + (ESCAPED_PERCENT + (ESCAPED_SPACE + PROOF)))))

  /** The faulty escape becomes `%25` and the spaces `%20`, in every mode and
      so in particular for fixURLErrors. */
  lemma WineUrlExample(allowHighOrder: bool, createUnambiguous: bool)
    ensures Canonicalise(WINE_URL, allowHighOrder, createUnambiguous, true, u => u) == WINE_FIXED
  {
    assert WINE_URL[..|HTTP|] == HTTP;
    assert WINE_URL[|HTTP|..][11] == SLASH;
    SlashPolicyKeepsPath(WINE_URL);
    WineUrlRepair();
    WineUrlEscape(!allowHighOrder, createUnambiguous);
  }

  lemma WineUrlRepair()
    ensures Repair(WINE_URL) == WINE_REPAIRED
  {
    WineShapeRepair(SITE, WINE, TWELVE, PROOF);
  }

  lemma WineShapeRepair(site: Bytes, wine: Bytes, twelve: Bytes, proof: Bytes)
    requires PERCENT !in site && PERCENT !in wine && PERCENT !in twelve && PERCENT !in proof
    ensures Repair(site + (wine + ([SPACE] + (twelve + ([PERCENT] + ([SPACE] + proof))))))
            == site + (wine + ([SPACE] + (twelve + (ESCAPED_PERCENT + ([SPACE] + proof)))))
  {
    var t5 := [SPACE] + proof;
    PlainRepair(t5);
    StrayPercentRepair(t5);
    RepairPlainPrefix(twelve, [PERCENT] + t5);
    RepairPlainPrefix([SPACE], twelve + ([PERCENT] + t5));
    RepairPlainPrefix(wine, [SPACE] + (twelve + ([PERCENT] + t5)));
    RepairPlainPrefix(site, wine + ([SPACE] + (twelve + ([PERCENT] + t5))));
  }

  lemma WineUrlEscape(escapeHighOrder: bool, normaliseLowOrder: bool)
    ensures EscapesComplete(WINE_REPAIRED)
    ensures Escape(WINE_REPAIRED, false, escapeHighOrder, normaliseLowOrder) == WINE_FIXED
  {
    WineShapeEscape(SITE, WINE, TWELVE, PROOF, escapeHighOrder, normaliseLowOrder);
  }

  lemma WineShapeEscape(site: Bytes, wine: Bytes, twelve: Bytes, proof: Bytes,
                        escapeHighOrder: bool, normaliseLowOrder: bool)
    requires PlainRun(site) && PlainRun(wine) && PlainRun(twelve) && PlainRun(proof)
    ensures var s := site + (wine + ([SPACE] + (twelve + (ESCAPED_PERCENT + ([SPACE] + proof)))));
            EscapesComplete(s)
            && Escape(s, false, escapeHighOrder, normaliseLowOrder)
               == site + (wine + (ESCAPED_SPACE + (twelve + (ESCAPED_PERCENT + (ESCAPED_SPACE + proof)))))
  {
    var e4 := ESCAPED_PERCENT + ([SPACE] + proof);
    PlainEscape(proof, escapeHighOrder, normaliseLowOrder);
    SpaceThen(proof, escapeHighOrder, normaliseLowOrder);
    PercentEscapeThen([SPACE] + proof, escapeHighOrder, normaliseLowOrder);
    EscapePlainPrefix(twelve, e4, false, escapeHighOrder, normaliseLowOrder);
    SpaceThen(twelve + e4, escapeHighOrder, normaliseLowOrder);
    EscapePlainPrefix(wine, [SPACE] + (twelve + e4), false, escapeHighOrder, normaliseLowOrder);
    EscapePlainPrefix(site, wine + ([SPACE] + (twelve + e4)), false, escapeHighOrder, normaliseLowOrder);
  }

  // http://a%2F: a bare domain ending in an escaped `/`

  /** `%2F`, an escaped `/`. */
  const SLASH_ESCAPE: Bytes := [PERCENT, '2' as int, 'F' as int]
  const SLASH_ESCAPE_LOWER: Bytes := [PERCENT, '2' as int, 'f' as int]
  /** `http://a` */
  const BARE_A: Bytes := HTTP + ['a' as int]
  const BARE_SLASH_URL: Bytes := BARE_A + SLASH_ESCAPE
  const BARE_SLASH_GLUED: Bytes := BARE_A + (SLASH_ESCAPE + [SLASH])
  /** `http://a//` and `http://a%2f/` */
  const BARE_DOUBLE_SLASH: Bytes := BARE_A + ([SLASH] + [SLASH])
  const BARE_SLASH_KEPT: Bytes := BARE_A + (SLASH_ESCAPE_LOWER + [SLASH])

  /** With escapes normalised a bare domain can end in two slashes:
      `http://a%2F` is domain-only, so the glue appends `/`, and
      normalisation then decodes `%2F` to a second `/` after the slash
      stripping has run. With escapes kept it ends `%2f/`. */
  lemma BareDomainDoubleSlash(allowHighOrder: bool)
    ensures var r := Canonicalise(BARE_SLASH_URL, allowHighOrder, true, true, u => u);
            r == BARE_DOUBLE_SLASH && EndsWithSlash(r[..|r| - 1])
    ensures Canonicalise(BARE_SLASH_URL, allowHighOrder, false, true, u => u) == BARE_SLASH_KEPT
  {
    BareSlashGlue();
    BareSlashRepair();
    BareSlashEscape(!allowHighOrder, true);
    BareSlashEscape(!allowHighOrder, false);
    var r := BARE_DOUBLE_SLASH;
    assert r[..|r| - 1] == BARE_A + [SLASH];
  }

  /** `http://a%2F` is domain-only, so the glue appends a `/`. */
  lemma BareSlashGlue()
    ensures SlashPolicy(BARE_SLASH_URL) == BARE_SLASH_GLUED
  {
    BareGlueShape(['a' as int]);
  }

  lemma BareGlueShape(host: Bytes)
    requires host != [] && SLASH !in host
    ensures SlashPolicy(HTTP + host + SLASH_ESCAPE) == HTTP + host + (SLASH_ESCAPE + [SLASH])
  {
    var h := host + SLASH_ESCAPE;
    assert SLASH !in h by {
      forall k | 0 <= k < |h| ensures h[k] != SLASH {
        if k >= |host| { assert h[k] == SLASH_ESCAPE[k - |host|]; } else { assert h[k] == host[k]; }
      }
    }
    assert HTTP + host + SLASH_ESCAPE == HTTP + h;
    SlashPolicyBareDomain(h);
  }

  lemma BareSlashRepair()
    ensures Repair(BARE_SLASH_GLUED) == BARE_SLASH_GLUED
  {
    BareSlashShape(BARE_A, false, false);
  }

  lemma BareSlashEscape(escapeHighOrder: bool, normaliseLowOrder: bool)
    ensures EscapesComplete(BARE_SLASH_GLUED)
    ensures Escape(BARE_SLASH_GLUED, false, escapeHighOrder, normaliseLowOrder)
            == if normaliseLowOrder then BARE_DOUBLE_SLASH else BARE_SLASH_KEPT
  {
    BareSlashShape(BARE_A, escapeHighOrder, normaliseLowOrder);
  }

  lemma BareSlashShape(d: Bytes, escapeHighOrder: bool, normaliseLowOrder: bool)
    requires PlainRun(d)
    ensures Repair(d + (SLASH_ESCAPE + [SLASH])) == d + (SLASH_ESCAPE + [SLASH])
    ensures EscapesComplete(d + (SLASH_ESCAPE + [SLASH]))
    ensures Escape(d + (SLASH_ESCAPE + [SLASH]), false, escapeHighOrder, normaliseLowOrder)
            == d + ((if normaliseLowOrder then [SLASH] else SLASH_ESCAPE_LOWER) + [SLASH])
  {
    assert PlainRun([SLASH]);
    PlainRepair([SLASH]);
    AsciiEscapeRepair('2' as int, 'F' as int, [SLASH]);
    RepairPlainPrefix(d, SLASH_ESCAPE + [SLASH]);
    PlainEscape([SLASH], escapeHighOrder, normaliseLowOrder);
    SlashEscapeThen([SLASH], escapeHighOrder, normaliseLowOrder);
    EscapePlainPrefix(d, SLASH_ESCAPE + [SLASH], false, escapeHighOrder, normaliseLowOrder);
  }

  // ?%2B and ?%20: a plus and a space in the parameter section

  /** `?%2B`: a `?` and an escaped `+`. */
  const QUESTION_ESCAPED_PLUS: Bytes := [QUESTION, PERCENT, '2' as int, 'B' as int]

  /** With escapes normalised, an escaped `+` and an escaped space after a
      `?` come out alike, as `?+`: the `+` is decoded, and the space is
      written as `+`. */
  lemma PlusSpaceAlike()
    ensures Canonicalise(QUESTION_ESCAPED_PLUS, true, true, true, u => u) == [QUESTION, PLUS]
    ensures Canonicalise(QUESTION_ESCAPED_SPACE, true, true, true, u => u) == [QUESTION, PLUS]
  {
    ShortUrlSlashPolicy(QUESTION_ESCAPED_PLUS);
    EscapedPlusRepair();
    EscapedPlusEscape();
    LiteralQuestionExample();
  }

  lemma EscapedPlusRepair()
    ensures Repair(QUESTION_ESCAPED_PLUS) == QUESTION_ESCAPED_PLUS
  {
    var b := QUESTION_ESCAPED_PLUS;
    var tail := b[1..];
    assert tail == [PERCENT, '2' as int, 'B' as int] && tail[..3] == tail && tail[3..] == [];
    assert RepairToken(b) == ([QUESTION], 1);
    assert RepairToken(tail) == (tail, 3);
    assert Repair(tail) == tail;
  }

  lemma EscapedPlusEscape()
    ensures EscapesComplete(QUESTION_ESCAPED_PLUS)
    ensures Escape(QUESTION_ESCAPED_PLUS, false, false, true) == [QUESTION, PLUS]
  {
    var b := QUESTION_ESCAPED_PLUS;
    var tail := b[1..];
    assert tail == [PERCENT, '2' as int, 'B' as int] && tail[..3] == tail && tail[3..] == [];
    assert EscapesComplete(b) by {
      EscapedPlusRepair();
      RepairAsciiEscaped(b);
    }
    assert HexValue(tail[1], tail[2]) == PLUS;
    assert EscapeToken(tail, true, false, true) == ([PLUS], 3);
    assert Escape(tail, true, false, true) == [PLUS];
    assert EscapeToken(b, false, false, true) == ([QUESTION], 1);
  }

  // %09 and a raw TAB: control characters in the output

  const TAB: Byte := 9
  /** `%09`, an escaped TAB. */
  const ESCAPED_TAB: Bytes := [PERCENT, '0' as int, '9' as int]

  /** The output is not always printable: with escapes normalised `%09` is
      decoded to a raw TAB, and a raw TAB is written as itself in every mode. */
  lemma ControlByteExample(allowHighOrder: bool, createUnambiguous: bool)
    ensures Canonicalise(ESCAPED_TAB, allowHighOrder, true, true, u => u) == [TAB]
    ensures Canonicalise([TAB], allowHighOrder, createUnambiguous, true, u => u) == [TAB]
  {
    ShortUrlSlashPolicy(ESCAPED_TAB);
    ShortUrlSlashPolicy([TAB]);
    EscapedTabRepair();
    EscapedTabEscape(!allowHighOrder);
    RawTabPasses(!allowHighOrder, createUnambiguous);
  }

  lemma EscapedTabRepair()
    ensures Repair(ESCAPED_TAB) == ESCAPED_TAB
  {
    var a := ESCAPED_TAB;
    assert a[..3] == a && a[3..] == [];
    assert RepairToken(a) == (a, 3);
  }

  lemma EscapedTabEscape(escapeHighOrder: bool)
    ensures EscapesComplete(ESCAPED_TAB)
    ensures Escape(ESCAPED_TAB, false, escapeHighOrder, true) == [TAB]
  {
    var a := ESCAPED_TAB;
    assert a[3..] == [];
    assert EscapesComplete(a) by {
      EscapedTabRepair();
      RepairAsciiEscaped(a);
    }
    assert HexValue(a[1], a[2]) == TAB;
    assert EscapeToken(a, false, escapeHighOrder, true) == ([TAB], 3);
  }

  lemma RawTabPasses(escapeHighOrder: bool, normaliseLowOrder: bool)
    ensures Repair([TAB]) == [TAB]
    ensures EscapesComplete([TAB])
    ensures Escape([TAB], false, escapeHighOrder, normaliseLowOrder) == [TAB]
  {
    assert PlainRun([TAB]);
    PlainRepair([TAB]);
    PlainEscape([TAB], escapeHighOrder, normaliseLowOrder);
  }

  // The units of the examples, each in front of any remainder.

  /** A run without `%` is repaired to itself. */
  lemma PlainRepair(a: Bytes)
    requires PERCENT !in a
    ensures Repair(a) == a
  {
    assert a + [] == a;
    RepairPlainPrefix(a, []);
  }

  /** A valid escape of an ASCII value is kept as it is. */
  lemma AsciiEscapeRepair(h1: Byte, h2: Byte, b: Bytes)
    requires IsHex(h1) && IsHex(h2) && IsAscii(HexValue(h1, h2))
    ensures Repair([PERCENT, h1, h2] + b) == [PERCENT, h1, h2] + Repair(b)
  {
    var s := [PERCENT, h1, h2] + b;
    assert s[3..] == b;
    RepairAsciiEscapeKept(s);
  }

  /** `%2A` is the escape of an ASCII value, so repair keeps it. */
  lemma StarEscapeRepair(b: Bytes)
    ensures Repair(STAR_ESCAPE + b) == STAR_ESCAPE + Repair(b)
  {
    assert HexValue('2' as int, 'A' as int) == STAR;
    AsciiEscapeRepair('2' as int, 'A' as int, b);
  }

  /** A `%` followed by a byte that is not a hex digit becomes `%25`. */
  lemma StrayPercentRepair(b: Bytes)
    requires b != [] && !IsHex(b[0])
    ensures Repair([PERCENT] + b) == ESCAPED_PERCENT + Repair(b)
  {
    var s := [PERCENT] + b;
    assert s[1..] == b;
    RepairMalformedPercent(s);
  }

  /** ASCII bytes that escapeUTF8 writes as themselves and that do not start
      the parameter section. */
  predicate PlainRun(a: Bytes) {
    forall k | 0 <= k < |a| :: IsAscii(a[k]) && !MustEscape(a[k]) && a[k] != QUESTION
  }

  /** A run of plain ASCII bytes is written as itself. */
  lemma PlainEscape(a: Bytes, escapeHighOrder: bool, normaliseLowOrder: bool)
    requires PlainRun(a)
    ensures EscapesComplete(a)
    ensures Escape(a, false, escapeHighOrder, normaliseLowOrder) == a
  {
    assert a + [] == a;
    EscapePlainPrefix(a, [], false, escapeHighOrder, normaliseLowOrder);
  }

  /** Before the parameter section a space is written `%20`. */
  lemma SpaceThen(b: Bytes, escapeHighOrder: bool, normaliseLowOrder: bool)
    requires EscapesComplete(b)
    ensures EscapesComplete([SPACE] + b)
    ensures Escape([SPACE] + b, false, escapeHighOrder, normaliseLowOrder)
            == ESCAPED_SPACE + Escape(b, false, escapeHighOrder, normaliseLowOrder)
  {
    var s := [SPACE] + b;
    EscapesCompletePrefix([SPACE], b);
    assert s[1..] == b;
    SpaceUnit(s, false, escapeHighOrder, normaliseLowOrder);
  }

  /** `%2A` is decoded when escapes are normalised and re-escaped in lower
      case when they are kept. */
  lemma StarEscapeThen(b: Bytes, escapeHighOrder: bool, normaliseLowOrder: bool)
    requires EscapesComplete(b)
    ensures EscapesComplete(STAR_ESCAPE + b)
    ensures Escape(STAR_ESCAPE + b, false, escapeHighOrder, normaliseLowOrder)
            == (if normaliseLowOrder then [STAR] else STAR_ESCAPE_LOWER)
               + Escape(b, false, escapeHighOrder, normaliseLowOrder)
  {
    var s := STAR_ESCAPE + b;
    EscapesCompleteEscapePrefix('2' as int, 'A' as int, b);
    assert s[3..] == b;
    PercentUnit(s, false, escapeHighOrder, normaliseLowOrder);
    assert HexValue(s[1], s[2]) == STAR;
    assert HexEscaped(STAR) == STAR_ESCAPE_LOWER;
  }

  /** `%2F` is decoded when escapes are normalised and re-escaped in lower
      case when they are kept. */
  lemma SlashEscapeThen(b: Bytes, escapeHighOrder: bool, normaliseLowOrder: bool)
    requires EscapesComplete(b)
    ensures EscapesComplete(SLASH_ESCAPE + b)
    ensures Escape(SLASH_ESCAPE + b, false, escapeHighOrder, normaliseLowOrder)
            == (if normaliseLowOrder then [SLASH] else SLASH_ESCAPE_LOWER)
               + Escape(b, false, escapeHighOrder, normaliseLowOrder)
  {
    var s := SLASH_ESCAPE + b;
    EscapesCompleteEscapePrefix('2' as int, 'F' as int, b);
    assert s[3..] == b;
    PercentUnit(s, false, escapeHighOrder, normaliseLowOrder);
    assert HexValue(s[1], s[2]) == SLASH;
    assert HexEscaped(SLASH) == SLASH_ESCAPE_LOWER;
  }

  /** `%25` stays an escape in every mode. */
  lemma PercentEscapeThen(b: Bytes, escapeHighOrder: bool, normaliseLowOrder: bool)
    requires EscapesComplete(b)
    ensures EscapesComplete(ESCAPED_PERCENT + b)
    ensures Escape(ESCAPED_PERCENT + b, false, escapeHighOrder, normaliseLowOrder)
            == ESCAPED_PERCENT + Escape(b, false, escapeHighOrder, normaliseLowOrder)
  {
    var s := ESCAPED_PERCENT + b;
    EscapesCompleteEscapePrefix('2' as int, '5' as int, b);
    assert s[3..] == b;
    PercentUnit(s, false, escapeHighOrder, normaliseLowOrder);
    assert HexValue(s[1], s[2]) == PERCENT;
    assert HexEscaped(PERCENT) == ESCAPED_PERCENT;
  }

  /** `é` is kept raw or escaped in lower case, as high-order characters are. */
  lemma EAcuteThen(b: Bytes, escapeHighOrder: bool, normaliseLowOrder: bool)
    requires EscapesComplete(b)
    ensures EscapesComplete(E_ACUTE + b)
    ensures Escape(E_ACUTE + b, false, escapeHighOrder, normaliseLowOrder)
            == (if escapeHighOrder then E_ACUTE_ESCAPED else E_ACUTE)
               + Escape(b, false, escapeHighOrder, normaliseLowOrder)
  {
    var s := E_ACUTE + b;
    EscapesCompletePrefix(E_ACUTE, b);
    assert s[..2] == E_ACUTE && s[2..] == b;
    TwoByteUnit(s, false, escapeHighOrder, normaliseLowOrder);
    EAcuteEscaped();
  }

  /** `%c3%a9`, the escapes of the two bytes of `é`. */
  lemma EAcuteEscaped()
    ensures HexEscapedAll(E_ACUTE) == E_ACUTE_ESCAPED
  {
    assert E_ACUTE[..1] == [0xC3] && [0xC3][..0] == [];
    assert HexEscaped(0xC3) == E_ACUTE_ESCAPED[..3];
    assert HexEscaped(0xA9) == E_ACUTE_ESCAPED[3..];
  }
}
