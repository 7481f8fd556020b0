# URL canonicalisation of SolrWayback's `Normalisation`

This project models the URL canonicaliser in SolrWayback's `Normalisation`
class and proves properties of the model. The canonicaliser is what
`canonicaliseURL` and `fixURLErrors` do to a URL:

1. The external canonicaliser runs.
2. A leading `https://` becomes `http://`.
3. Every trailing `/` is removed, and one is added back for a domain-only URL.
4. Two byte passes run over the URL's UTF-8 bytes.
   - **Escape repair** (`fixEscapeErrorsAndUnescapeHighOrderUTF8`) makes every
     `%` start a valid escape and turns escapes of high-order bytes into raw
     bytes.
   - **Re-escaping** (`escapeUTF8`) writes units (an escape, a byte, a UTF-8
     sequence) with lower-case `%xx` escapes, and writes `+` for spaces after
     the first literal `?`. Two flags decide raw or escaped output:
     `escapeHighOrder` for high-order characters and `normaliseLowOrder` for
     low-order escapes.

Modules, in dependency order:

- `Bytes` (`bytes.dfy`): byte values, the hex table, `hexEscape`,
  `mustEscape` and `keepEscape`, the UTF-8 byte classes, and
  `ByteStream`, a class standing for `ByteArrayOutputStream`.
- `Decoding` (`decoding.dfy`): two reference readings of a URL:
  - `Decode`, plain percent-decoding;
  - `FormDecode`, the same with the parameter convention, where a space
    after the first literal `?` reads as `+`.

  Repair preserves both readings. Re-escaping turns the parameter-convention
  reading of its input into the plain percent-decoding of its output.
  Re-escaping preserves neither reading on its own: it turns `? ` into `?+`,
  and it decodes `%3F` into a `?` that starts no parameter section.
- `EscapeRepair` (`repair.dfy`): the first pass.
  - `FixEscapeErrors` is a method with the source's loop, proved equal to
    the recursive function `Repair`.
  - Lemmas about `Repair`.
- `Reescape` (`reescape.dfy`): the second pass.
  - `EscapeUtf8` is a method with the source's loop, one helper method per
    group of branches, proved equal to the recursive function `Escape`.
  - `EscapeToken` is the unit the loop body writes.
- `EscapeProperties` (`escape_props.dfy`): what the second pass guarantees.
  - `Canonical` is the form of its output.
  - Its output percent-decodes to its input's parameter-convention reading.
  - Unit lemmas for each branch.
- `UrlGlue` (`glue.dfy`): the protocol downgrade, slash stripping and
  `DOMAIN_ONLY`, with lemmas about the slash policy.
- `Normalisation` (`normalisation.dfy`): `canonicaliseURL` as a method with
  the source's slash loop, proved equal to the function `Canonicalise`, and
  the two shorthands.
- `DocumentedExamples` (`documented_examples.dfy`): the example URLs in the
  source's comments and three counterexamples (a bare domain ending in
  `%2F`, an escaped `+` in the parameter section, an escaped TAB), worked
  through `Canonicalise` with the external canonicaliser taken as the identity.

The central result is `EscapeRepair.RepairAsciiEscaped`. It proves that the
output of repair meets the precondition `escapeUTF8` states in its comment
(Normalisation.java line 127). That precondition is what keeps the reads of
`utf8[i + 1]` and `utf8[i + 2]` at line 138 in bounds.
`Reescape.EscapeUtf8` requires it, and `Normalisation.CanonicaliseUrlWith`
discharges it.

Seven behaviours of the code worth knowing. The model follows the code:

- **Parameter section.** It starts only at a literal `?` byte (line 134).
  An escaped `%3F` does not start it, even when normalisation decodes it to
  a `?`.
- **Multi-byte sequences.** This point differs from the code's own
  documentation. Only two-byte UTF-8 sequences honour `allowHighOrder`
  (lines 158-163). Valid three- and four-byte sequences are always escaped
  (lines 169-173 and 178-183), although the comment at line 50 says all
  high-order characters are kept raw.
- **Hex case.** This point also differs from the comments. The table at
  line 204 is lower-case, and every escape in the output goes through it.
  The comment at line 92 shows `ros%C3%A9`, but the code writes `ros%c3%a9`
  (`DocumentedExamples.RoseUrlExample`). The comment at line 55 says valid
  escapes are "kept as-is" when `createUnambiguous` is false, but `%2A`
  comes out as `%2a` (`DocumentedExamples.StarUrlExample`).
- **Idempotence.** Canonicalisation is not idempotent.
  `Normalisation.CanonicaliseNotIdempotent` exhibits an input with the
  external canonicaliser taken as the identity:
  - `%3F%20` becomes `?%20`, because the `?` is decoded but starts no
    parameter section;
  - a second run then gives `?+`.

  An escaped `/` decoded at the end of a URL has the same effect, because the
  slash stripping has already run.
- **Domain-only slash.** With escapes normalised, the default mode, a bare
  domain does not always end in exactly one `/`. The glue appends `/` to
  `http://a%2F` because it is domain-only. Repair keeps the escape, and
  re-escaping then decodes `%2F` to a second `/`, giving `http://a//`
  (`DocumentedExamples.BareDomainDoubleSlash`). With escapes kept, exactly
  one trailing `/` is guaranteed (`Normalisation.CanonicaliseBareDomain`).
  The comment at line 80 says only that such a URL must end with a slash.
- **Plus and space.** With escapes normalised, a `+` and a space in the
  parameter section get one canonical form. Line 141 lets `%2B` through to
  line 144, which writes a raw `+`, and line 139 writes `%20` there as `+`,
  so `?%2B` and `?%20` both become `?+`
  (`DocumentedExamples.PlusSpaceAlike`). What re-escaping preserves is
  therefore the reading in which a space and `+` after the first `?` are
  the same.
- **Control characters.** The output is not always printable. With escapes
  normalised, `%09` is decoded to a raw TAB (lines 141-144), and a raw
  control byte is written as itself in every mode (lines 147-152)
  (`DocumentedExamples.ControlByteExample`).

## Model

| member | source | states |
|---|---|---|
| Bytes.HexEscaped | src/main/java/dk/kb/netarchivesuite/solrwayback/parsers/Normalisation.java:199-204 | an escape is three bytes: `%` and two lower-case hex digits that read back as the escaped value |
| Bytes.HexEscape | src/main/java/dk/kb/netarchivesuite/solrwayback/parsers/Normalisation.java:199-203 | hexEscape appends exactly the three bytes of the escape of its code point to the stream |
| Bytes.HexTableEntry | src/main/java/dk/kb/netarchivesuite/solrwayback/parsers/Normalisation.java:204 | entry k of HEX is the lower-case hex digit of value k |
| Bytes.MaskClasses | src/main/java/dk/kb/netarchivesuite/solrwayback/parsers/Normalisation.java:147-174 | each byte-class range accepts exactly the bytes that pass the source's bit-mask test |
| Bytes.IsHex | src/main/java/dk/kb/netarchivesuite/solrwayback/parsers/Normalisation.java:216-218 | a byte is a hex digit exactly when it is `0`-`9`, `a`-`f` or `A`-`F` |
| Bytes.HexValue | src/main/java/dk/kb/netarchivesuite/solrwayback/parsers/Normalisation.java:108 | the value of two hex digits, high digit first, in either case, as `Integer.parseInt(.., 16)` reads them (also at line 138) |
| Bytes.MustEscape | src/main/java/dk/kb/netarchivesuite/solrwayback/parsers/Normalisation.java:207-209 | space and `%` are the low-order characters that are always escaped |
| Bytes.KeepEscape | src/main/java/dk/kb/netarchivesuite/solrwayback/parsers/Normalisation.java:212-214 | an escape of `#` is the one kept as an escape when escapes are normalised |
| Bytes.ByteStream.Write | src/main/java/dk/kb/netarchivesuite/solrwayback/parsers/Normalisation.java:110-121 | each `sb.write` appends exactly one byte to what the stream holds and changes nothing else |
| EscapeRepair.RepairToken | src/main/java/dk/kb/netarchivesuite/solrwayback/parsers/Normalisation.java:106-121 | one pass of the loop: the bytes written for the `%` or byte at the front, and how many input bytes it consumes (one or three, never more than remain) |
| EscapeRepair.Repair | src/main/java/dk/kb/netarchivesuite/solrwayback/parsers/Normalisation.java:100-125 | the whole repaired buffer: the units of successive tokens, each read from where the previous one stopped |
| EscapeRepair.FixEscapeErrors | src/main/java/dk/kb/netarchivesuite/solrwayback/parsers/Normalisation.java:100-125 | the loop writes `Repair(url)`, never fails, and its output has only valid escapes, all of ASCII values |
| EscapeRepair.RepairAsciiEscaped | src/main/java/dk/kb/netarchivesuite/solrwayback/parsers/Normalisation.java:104-127 | every `%` in repair output is followed by two hex digits encoding a value below 128, which is what escapeUTF8 demands |
| EscapeRepair.RepairAsciiEscapeKept | src/main/java/dk/kb/netarchivesuite/solrwayback/parsers/Normalisation.java:107-110 | a valid escape of an ASCII value is copied as written, hex case included, and consumes three bytes |
| EscapeRepair.RepairHighOrderEscape | src/main/java/dk/kb/netarchivesuite/solrwayback/parsers/Normalisation.java:111-114 | a valid escape of a value with the high bit set becomes exactly one raw byte of that value |
| EscapeRepair.RepairMalformedPercent | src/main/java/dk/kb/netarchivesuite/solrwayback/parsers/Normalisation.java:115-118 | a `%` with fewer than two following bytes or a non-hex follower becomes `%25`, consuming only the `%` |
| EscapeRepair.RepairOtherByte | src/main/java/dk/kb/netarchivesuite/solrwayback/parsers/Normalisation.java:120-121 | every byte other than `%` is copied unchanged |
| EscapeRepair.RepairKeepsAsciiEscaped | src/main/java/dk/kb/netarchivesuite/solrwayback/parsers/Normalisation.java:104-121 | a buffer already in repaired form is left unchanged |
| EscapeRepair.RepairFixpoint | src/main/java/dk/kb/netarchivesuite/solrwayback/parsers/Normalisation.java:104-121 | repair leaves a buffer unchanged exactly when all its escapes are valid and of ASCII values |
| EscapeRepair.RepairIdempotent | src/main/java/dk/kb/netarchivesuite/solrwayback/parsers/Normalisation.java:100-125 | repairing twice is repairing once |
| EscapeRepair.RepairPreservesDecode | src/main/java/dk/kb/netarchivesuite/solrwayback/parsers/Normalisation.java:104-121 | repair does not change what the URL percent-decodes to |
| EscapeRepair.RepairPreservesFormDecode | src/main/java/dk/kb/netarchivesuite/solrwayback/parsers/Normalisation.java:104-121 | repair does not change the reading with the parameter convention either, since it adds and removes no literal `?` |
| EscapeRepair.RepairAppend | src/main/java/dk/kb/netarchivesuite/solrwayback/parsers/Normalisation.java:104-121 | a final byte that is neither `%` nor a hex digit is its own token and comes out unchanged at the end |
| EscapeRepair.RepairPlainPrefix | src/main/java/dk/kb/netarchivesuite/solrwayback/parsers/Normalisation.java:120-121 | a run of bytes without `%` is copied unchanged, whatever follows it |
| EscapeRepair.RepairLastSlash | src/main/java/dk/kb/netarchivesuite/solrwayback/parsers/Normalisation.java:104-121 | repair ends its output in `/` only where the input ended in one: no unit it writes ends in `/` unless it is a literal `/` |
| Reescape.EscapeToken | src/main/java/dk/kb/netarchivesuite/solrwayback/parsers/Normalisation.java:133-189 | one pass of the loop body for a buffer with complete escapes: the bytes written for the unit at the front, and how many input bytes it consumes (at least one, never more than remain) |
| Reescape.Escape | src/main/java/dk/kb/netarchivesuite/solrwayback/parsers/Normalisation.java:128-197 | the whole re-escaped buffer: the units of successive tokens, with the parameter flag set from the first literal `?` on and never reset |
| Reescape.EscapeUtf8 | src/main/java/dk/kb/netarchivesuite/solrwayback/parsers/Normalisation.java:128-197 | given valid escapes, the loop writes `Escape(utf8, false, ..)`, unit by unit with the monotonic parameter flag |
| Reescape.WriteUnit | src/main/java/dk/kb/netarchivesuite/solrwayback/parsers/Normalisation.java:135-154 | one loop pass writes the unit at the index and returns the index of its last byte |
| Reescape.WriteSequence | src/main/java/dk/kb/netarchivesuite/solrwayback/parsers/Normalisation.java:155-189 | the branches for a byte that is neither ASCII nor a continuation byte write its unit |
| Reescape.WriteTwoByte | src/main/java/dk/kb/netarchivesuite/solrwayback/parsers/Normalisation.java:155-164 | a two-byte lead writes its unit: escaped alone when no continuation follows, else the pair raw or escaped |
| Reescape.WriteThreeByte | src/main/java/dk/kb/netarchivesuite/solrwayback/parsers/Normalisation.java:165-173 | a three-byte lead writes its unit: escaped alone when incomplete, else all three bytes escaped |
| Reescape.WriteFourByte | src/main/java/dk/kb/netarchivesuite/solrwayback/parsers/Normalisation.java:174-183 | a four-byte lead writes its unit: escaped alone when incomplete, else all four bytes escaped |
| Reescape.SequenceToken | src/main/java/dk/kb/netarchivesuite/solrwayback/parsers/Normalisation.java:155-183 | a complete three- or four-byte sequence is always escaped byte by byte; a two-byte one is escaped when high-order characters are |
| Reescape.StrayToken | src/main/java/dk/kb/netarchivesuite/solrwayback/parsers/Normalisation.java:153-185 | a stray continuation byte, a lead byte without its continuation bytes, or an illegal lead byte is escaped alone and consumes only itself |
| EscapeProperties.EscapeCanonical | src/main/java/dk/kb/netarchivesuite/solrwayback/parsers/Normalisation.java:133-189 | for repaired input, the output has no space, every `%` starts a lower-case escape of a reserved value when normalising, and only ASCII bytes when escaping high-order characters |
| EscapeProperties.EscapeDecodes | src/main/java/dk/kb/netarchivesuite/solrwayback/parsers/Normalisation.java:128-197 | the output percent-decodes to the input read with the parameter convention: re-escaping preserves meaning, except that in the parameter section a space and `+` read alike |
| EscapeProperties.EscapeParamSection | src/main/java/dk/kb/netarchivesuite/solrwayback/parsers/Normalisation.java:131-142 | inside the parameter section no space survives decoding; with no literal `?` the output decodes exactly as the input |
| EscapeProperties.SpaceUnit | src/main/java/dk/kb/netarchivesuite/solrwayback/parsers/Normalisation.java:134-152 | a literal space is `+` in the parameter section and `%20` before it |
| EscapeProperties.PercentUnit | src/main/java/dk/kb/netarchivesuite/solrwayback/parsers/Normalisation.java:137-146 | an escape is a three-byte unit: `+` for a space in parameters, else re-emitted in lower case, or with normalisation decoded unless it is space, `%` or `#` |
| EscapeProperties.TwoByteUnit | src/main/java/dk/kb/netarchivesuite/solrwayback/parsers/Normalisation.java:155-164 | a valid two-byte sequence is written raw exactly when high-order characters are not escaped, and escaped byte by byte otherwise |
| EscapeProperties.EscapeAppend | src/main/java/dk/kb/netarchivesuite/solrwayback/parsers/Normalisation.java:147-152 | an ASCII byte other than space and `%` at the end of a buffer is written as itself at the end of the output |
| EscapeProperties.EscapePlainPrefix | src/main/java/dk/kb/netarchivesuite/solrwayback/parsers/Normalisation.java:147-152 | a run of ASCII bytes other than space, `%` and `?` is written as itself, whatever follows it |
| EscapeProperties.EscapeTokenLastSlash | src/main/java/dk/kb/netarchivesuite/solrwayback/parsers/Normalisation.java:135-189 | with escapes kept, every unit is written as at least one byte, and only a literal `/` is written ending in `/` |
| EscapeProperties.EscapeLastSlash | src/main/java/dk/kb/netarchivesuite/solrwayback/parsers/Normalisation.java:128-197 | with escapes kept, escapeUTF8 ends its output in `/` only where its input ended in one |
| UrlGlue.Downgrade | src/main/java/dk/kb/netarchivesuite/solrwayback/parsers/Normalisation.java:72 | a URL starting `https://` has that prefix replaced by `http://`; any other URL is unchanged |
| UrlGlue.StripSlashes | src/main/java/dk/kb/netarchivesuite/solrwayback/parsers/Normalisation.java:76-78 | the result is a prefix of the URL that does not end in `/`, and every removed byte is a `/` |
| UrlGlue.DomainOnly | src/main/java/dk/kb/netarchivesuite/solrwayback/parsers/Normalisation.java:97 | the whole URL matches `https?://[^/]+`: a scheme followed by a non-empty run without `/` |
| UrlGlue.SlashPolicy | src/main/java/dk/kb/netarchivesuite/solrwayback/parsers/Normalisation.java:72-83 | the downgrade, then the slash stripping, then one `/` appended when what remains is domain-only |
| UrlGlue.DowngradeMeaning | src/main/java/dk/kb/netarchivesuite/solrwayback/parsers/Normalisation.java:72 | a leading `https://` becomes `http://` with the rest unchanged; other URLs are untouched; no result starts with `https://` |
| UrlGlue.SlashPolicyEnds | src/main/java/dk/kb/netarchivesuite/solrwayback/parsers/Normalisation.java:76-83 | after the glue the URL ends in `/` exactly when the stripped URL matches `https?://[^/]+`, and then in exactly one `/` |
| UrlGlue.SlashPolicyIdempotent | src/main/java/dk/kb/netarchivesuite/solrwayback/parsers/Normalisation.java:72-83 | applying the glue to its own result changes nothing |
| UrlGlue.SlashPolicyHttps | src/main/java/dk/kb/netarchivesuite/solrwayback/parsers/Normalisation.java:72 | the https and the http form of a URL give the same result |
| UrlGlue.SlashPolicyTrailingSlash | src/main/java/dk/kb/netarchivesuite/solrwayback/parsers/Normalisation.java:76-78 | for a URL with a scheme, one more trailing `/` gives the same result |
| UrlGlue.SlashPolicyBareDomain | src/main/java/dk/kb/netarchivesuite/solrwayback/parsers/Normalisation.java:81-83 | `http://` and a non-empty host without `/` gets exactly one `/` and nothing after it |
| UrlGlue.SlashPolicyKeepsPath | src/main/java/dk/kb/netarchivesuite/solrwayback/parsers/Normalisation.java:72-83 | an `http://` URL with a path and no trailing slash passes the glue unchanged |
| Normalisation.Canonicalise | src/main/java/dk/kb/netarchivesuite/solrwayback/parsers/Normalisation.java:58-96 | the URL unchanged when normalisation is off or it is empty; otherwise the external canonicaliser, the glue, repair, and re-escaping with `!allowHighOrder` and `createUnambiguous` |
| Normalisation.CanonicaliseUrlWith | src/main/java/dk/kb/netarchivesuite/solrwayback/parsers/Normalisation.java:58-96 | the method computes `Canonicalise`; a normalising run on non-empty input gives canonical output that reads as the glued URL |
| Normalisation.CanonicaliseMeaning | src/main/java/dk/kb/netarchivesuite/solrwayback/parsers/Normalisation.java:85-93 | the two passes together give canonical output that decodes to the glued URL read with the parameter convention |
| Normalisation.CanonicaliseUrl | src/main/java/dk/kb/netarchivesuite/solrwayback/parsers/Normalisation.java:33-35 | the default normaliser runs with high-order characters allowed and escapes normalised |
| Normalisation.FixUrlErrors | src/main/java/dk/kb/netarchivesuite/solrwayback/parsers/Normalisation.java:40-42 | fixURLErrors gives plain-ASCII output with lower-case escapes and no space, reading as the glued URL |
| Normalisation.CanonicalisePassThrough | src/main/java/dk/kb/netarchivesuite/solrwayback/parsers/Normalisation.java:60-67 | with normalisation switched off, or for empty input, the URL is returned unchanged |
| Normalisation.CanonicaliseHttps | src/main/java/dk/kb/netarchivesuite/solrwayback/parsers/Normalisation.java:69-72 | URLs the external canonicaliser turns into the https and http forms of one address come out the same |
| Normalisation.CanonicaliseTrailingSlash | src/main/java/dk/kb/netarchivesuite/solrwayback/parsers/Normalisation.java:69-78 | for a canonicaliser output with a scheme (`http://` or `https://`), an extra trailing `/` changes nothing |
| Normalisation.CanonicaliseBareDomain | src/main/java/dk/kb/netarchivesuite/solrwayback/parsers/Normalisation.java:80-93 | a URL that is a bare `http://` domain comes out ending in `/`; with escapes kept, as fixURLErrors does, in exactly one `/` |
| Normalisation.SlashThroughPasses | src/main/java/dk/kb/netarchivesuite/solrwayback/parsers/Normalisation.java:81-93 | the `/` added to a URL without a trailing slash is still the last byte after both passes, and with escapes kept the only trailing one |
| Normalisation.EscapedQuestionExample | src/main/java/dk/kb/netarchivesuite/solrwayback/parsers/Normalisation.java:134-146 | `%3F%20` canonicalises to `?%20`: the decoded `?` starts no parameter section |
| Normalisation.LiteralQuestionExample | src/main/java/dk/kb/netarchivesuite/solrwayback/parsers/Normalisation.java:134-140 | `?%20` canonicalises to `?+`: the literal `?` starts the parameter section |
| Normalisation.CanonicaliseNotIdempotent | src/main/java/dk/kb/netarchivesuite/solrwayback/parsers/Normalisation.java:58-96 | there is a URL whose canonical form changes when it is canonicalised again |
| DocumentedExamples.StarUrlExample | src/main/java/dk/kb/netarchivesuite/solrwayback/parsers/Normalisation.java:53-55 | `http://example.com/%2A.html` becomes `http://example.com/*.html` with escapes normalised, and `http://example.com/%2a.html` with escapes kept |
| DocumentedExamples.RoseUrlExample | src/main/java/dk/kb/netarchivesuite/solrwayback/parsers/Normalisation.java:90-93 | `http://example.com/all%2A rosé 10%.html` becomes `http://example.com/all*%20rosé%2010%25.html`, or `...ros%c3%a9...` with high-order characters escaped |
| DocumentedExamples.BareDomainDoubleSlash | src/main/java/dk/kb/netarchivesuite/solrwayback/parsers/Normalisation.java:80-93 | with escapes normalised, `http://a%2F` ends in two slashes, `http://a//`: the glue appends `/` before normalisation decodes `%2F`; with escapes kept it becomes `http://a%2f/` |
| DocumentedExamples.PlusSpaceAlike | src/main/java/dk/kb/netarchivesuite/solrwayback/parsers/Normalisation.java:134-146 | with escapes normalised, `?%2B` and `?%20` both become `?+`: an escaped plus is decoded and a space in the parameter section is written as `+` |
| DocumentedExamples.ControlByteExample | src/main/java/dk/kb/netarchivesuite/solrwayback/parsers/Normalisation.java:137-152 | with escapes normalised `%09` becomes a raw TAB, and a raw TAB is written as itself in every mode: the output need not be printable |
| DocumentedExamples.WineUrlExample | src/main/java/dk/kb/netarchivesuite/solrwayback/parsers/Normalisation.java:37-42 | the faulty escape in `http://example.com/wine 12% proof` becomes `%25` and the spaces `%20`, in every mode including fixURLErrors |

## Left out

- Null input (line 65): Dafny values cannot be null, so only the empty-input case is modelled.
- The external canonicaliser `AggressiveUrlCanonicalizer.canonicalize` (line 69) is a foreign library. It is the function parameter `canon`, and nothing is assumed about it.
- `PropertiesLoader.NORMALISE_URLS` (line 60) is global configuration. It is the boolean parameter `normaliseUrls`.
- The String-to-UTF-8 conversions (lines 102 and 193) are not modelled: the model takes and returns bytes. So it does not cover:
  - lone surrogates turning into `?` on encoding;
  - malformed output bytes turning into U+FFFD on decoding;
  - the `UnsupportedEncodingException` handling (lines 194-196).
- The string steps of `canonicaliseURL` run on the URL's UTF-8 bytes, not on its characters. Every test there (`https://`, `/` and `[^/]`) is on ASCII characters, so the result is the same.
- The regular expression machinery behind `DOMAIN_ONLY` (line 97) is not modelled. `UrlGlue.DomainOnly` is a predicate for the same pattern.
- Debug logging (lines 186-188) is not modelled.
- The initial capacity of the output streams (lines 101 and 129) is not modelled; it has no effect on the result.
- `resolveRelative` (lines 220-229) is not modelled. It parses and merges URLs with `java.net.URL`, which is not part of this model, and has no logic of its own beyond that.
- EscapeProperties.EscapeCanonical: when high-order characters are allowed, it does not state that raw high-order bytes occur only as complete two-byte sequences. `EscapeProperties.TwoByteUnit` and `Reescape.StrayToken` state this unit by unit.
