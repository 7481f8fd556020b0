/** The string steps canonicaliseURL takes between the external
    canonicaliser and the byte passes (Normalisation.java:71-83): `https://`
    becomes `http://`, trailing slashes go, and a domain-only URL gets back
    exactly one. The URL is handled as its UTF-8 bytes; every test here is
    on ASCII bytes, so it agrees with the source's tests on characters. */
module UrlGlue {
  import opened Bytes

  const HTTP: Bytes := ['h' as int, 't' as int, 't' as int, 'p' as int, ':' as int, '/' as int, '/' as int]
  const HTTPS: Bytes := ['h' as int, 't' as int, 't' as int, 'p' as int, 's' as int, ':' as int, '/' as int, '/' as int]

  predicate StartsWith(s: Bytes, prefix: Bytes) {
    |prefix| <= |s| && s[..|prefix|] == prefix
  }

  predicate EndsWithSlash(s: Bytes) {
    s != [] && s[|s| - 1] == SLASH
  }

  /** Protocol: https → http. */
  function Downgrade(url: Bytes): Bytes {
    if StartsWith(url, HTTPS) then HTTP + url[|HTTPS|..] else url
  }

  /** The URL without the slashes the loop at Normalisation.java:76-78 removes. */
  function StripSlashes(s: Bytes): (r: Bytes)
    ensures |r| <= |s| && r == s[..|r|]
    ensures !EndsWithSlash(r)
    ensures forall k | |r| <= k < |s| :: s[k] == SLASH
    decreases |s|
  {
    if EndsWithSlash(s) then StripSlashes(s[..|s| - 1]) else s
  }

  /** The pattern `https?://[^/]+` matched against the whole URL. */
  predicate DomainOnly(s: Bytes) {
    || (StartsWith(s, HTTP) && |s| > |HTTP| && SLASH !in s[|HTTP|..])
    || (StartsWith(s, HTTPS) && |s| > |HTTPS| && SLASH !in s[|HTTPS|..])
  }

  /** The glue as a whole, applied to what the external canonicaliser returned. */
  function SlashPolicy(url: Bytes): Bytes {
    var t := StripSlashes(Downgrade(url));
    if DomainOnly(t) then t + [SLASH] else t
  }

  /** A leading `https://` becomes `http://` with the rest unchanged, and no
      result starts with `https://`. */
  lemma DowngradeMeaning(url: Bytes)
    ensures StartsWith(url, HTTPS) ==> StartsWith(Downgrade(url), HTTP) && Downgrade(url)[|HTTP|..] == url[|HTTPS|..]
    ensures !StartsWith(url, HTTPS) ==> Downgrade(url) == url
    ensures !StartsWith(Downgrade(url), HTTPS)
  {
    var d := Downgrade(url);
    if StartsWith(url, HTTPS) {
      assert d[..|HTTP|] == HTTP;
    }
    if StartsWith(d, HTTP) {
      HttpNotHttps(d);
    }
  }

  /** A prefix of a URL that does not start with `https://` does not either. */
  lemma NotHttpsPrefix(s: Bytes, n: nat)
    requires n <= |s| && !StartsWith(s, HTTPS)
    ensures !StartsWith(s[..n], HTTPS)
  {
    if n >= |HTTPS| {
      assert s[..n][..|HTTPS|] == s[..|HTTPS|];
    }
  }

  /** An `http://` URL does not start with `https://`. */
  lemma HttpNotHttps(s: Bytes)
    requires StartsWith(s, HTTP)
    ensures !StartsWith(s, HTTPS)
  {
    assert s[4] == s[..|HTTP|][4] == ':' as int;
    if |s| >= |HTTPS| {
      assert s[..|HTTPS|][4] == s[4];
    }
  }

  /** A URL without trailing slashes is left as it is. */
  lemma StripSlashesNone(s: Bytes)
    requires !EndsWithSlash(s)
    ensures StripSlashes(s) == s
  {
  }

  /** The slash is added back exactly when the stripped URL is domain-only,
      and then once: the character before it is not a slash. */
  lemma SlashPolicyEnds(url: Bytes)
    ensures var t := StripSlashes(Downgrade(url));
            EndsWithSlash(SlashPolicy(url)) <==> DomainOnly(t)
    ensures var r := SlashPolicy(url);
            EndsWithSlash(r) ==> !EndsWithSlash(r[..|r| - 1])
  {
    var t := StripSlashes(Downgrade(url));
    if DomainOnly(t) {
      assert (t + [SLASH])[..|t|] == t;
    }
  }

  /** The slash policy is already in its own normal form. */
  lemma SlashPolicyIdempotent(url: Bytes)
    ensures SlashPolicy(SlashPolicy(url)) == SlashPolicy(url)
  {
    var d := Downgrade(url);
    var t := StripSlashes(d);
    var r := SlashPolicy(url);
    DowngradeMeaning(url);
    NotHttpsPrefix(d, |t|);
    if DomainOnly(t) {
      assert r == t + [SLASH];
      assert !StartsWith(r, HTTPS) by {
        assert r[..|HTTPS|] == t[..|HTTPS|];
      }
      assert Downgrade(r) == r;
      assert r[..|r| - 1] == t;
      assert StripSlashes(r) == StripSlashes(t);
      StripSlashesNone(t);
    } else {
      assert Downgrade(t) == t;
      StripSlashesNone(t);
    }
  }

  /** Protocol downgrade: the https and the http form of a URL are treated alike. */
  lemma SlashPolicyHttps(rest: Bytes)
    ensures SlashPolicy(HTTPS + rest) == SlashPolicy(HTTP + rest)
  {
    assert (HTTPS + rest)[..|HTTPS|] == HTTPS;
    assert (HTTPS + rest)[|HTTPS|..] == rest;
    assert (HTTP + rest)[..|HTTP|] == HTTP;
    HttpNotHttps(HTTP + rest);
  }

  /** Trailing slash removal: a URL with a scheme reads the same with one
      more slash at its end. */
  lemma SlashPolicyTrailingSlash(url: Bytes)
    requires StartsWith(url, HTTP) || StartsWith(url, HTTPS)
    ensures SlashPolicy(url + [SLASH]) == SlashPolicy(url)
  {
    var u := url + [SLASH];
    if StartsWith(url, HTTPS) {
      assert u[..|HTTPS|] == url[..|HTTPS|];
      assert u[|HTTPS|..] == url[|HTTPS|..] + [SLASH];
      assert Downgrade(u) == Downgrade(url) + [SLASH];
    } else {
      assert u[..|HTTP|] == url[..|HTTP|];
      HttpNotHttps(url);
      HttpNotHttps(u);
    }
    var d := Downgrade(url);
    assert (d + [SLASH])[..|d|] == d;
  }

  /** A bare domain gets exactly one slash and nothing beyond it. */
  lemma SlashPolicyBareDomain(host: Bytes)
    requires host != [] && SLASH !in host
    ensures SlashPolicy(HTTP + host) == HTTP + host + [SLASH]
  {
    var u := HTTP + host;
    assert u[..|HTTP|] == HTTP && u[|HTTP|..] == host;
    HttpNotHttps(u);
    assert u[|u| - 1] == host[|host| - 1];
    assert host[|host| - 1] in host;
  }

  /** An `http://` URL with a path and no trailing slash passes the glue unchanged. */
  lemma SlashPolicyKeepsPath(url: Bytes)
    requires StartsWith(url, HTTP) && !EndsWithSlash(url) && SLASH in url[|HTTP|..]
    ensures SlashPolicy(url) == url
  {
    HttpNotHttps(url);
    StripSlashesNone(url);
  }
}
