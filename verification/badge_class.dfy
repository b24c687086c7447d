/**
 * The Badge Class URL rewrite, `url.replace(/^http:/, "https:")`: a leading
 * `http:` (case-sensitive) becomes `https:`, every other string is returned unchanged.
 */
module BadgeClass {
  import opened AsciiText

  const PlainScheme := "http:"
  const SecureScheme := "https:"

  function EnsureHttps(url: string): (r: string)
    ensures StartsWith(url, PlainScheme) ==> StartsWith(r, SecureScheme) && r[|SecureScheme|..] == url[|PlainScheme|..]
    ensures !StartsWith(url, PlainScheme) ==> r == url
    ensures !StartsWith(r, PlainScheme)
    ensures |r| == |url| || |r| == |url| + 1
  {
    if StartsWith(url, PlainScheme) then
      var r := SecureScheme + url[|PlainScheme|..];
      assert r[4] == 's';
      r
    else url
  }

  /** Rewriting twice is rewriting once. */
  lemma EnsureHttpsIdempotent(url: string)
    ensures EnsureHttps(EnsureHttps(url)) == EnsureHttps(url)
  {
  }

  /** The rewrite only replaces the scheme: nothing after it is lost or changed. */
  lemma EnsureHttpsKeepsRest(rest: string)
    ensures EnsureHttps(PlainScheme + rest) == SecureScheme + rest
    ensures EnsureHttps(SecureScheme + rest) == SecureScheme + rest
  {
    assert (PlainScheme + rest)[..|PlainScheme|] == PlainScheme;
    assert (PlainScheme + rest)[|PlainScheme|..] == rest;
  }

  /** The match is case-sensitive and anchored: upper-case schemes and inner occurrences are kept. */
  lemma EnsureHttpsLeavesOthers()
    ensures EnsureHttps("HTTP://example.org/c.json") == "HTTP://example.org/c.json"
    ensures EnsureHttps("see http://x") == "see http://x"
    ensures EnsureHttps("") == ""
  {
    assert "HTTP://example.org/c.json"[0] == 'H';
    assert "see http://x"[0] == 's';
  }
}
