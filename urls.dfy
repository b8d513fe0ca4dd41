/**
 * `NormalizeUrl` of src/Shortener.Api/Program.cs: an original URL that does
 * not begin with `http://` or `https://` (in any letter case) gets `https://`
 * put in front of it, and the outcome is trimmed.
 */
module Urls {

  import opened Text

  const HttpPrefix := "http://"
  const HttpsPrefix := "https://"

  /** The regular expression `^https?://` matched ignoring case. */
  predicate HasHttpScheme(s: string) {
    StartsWithIgnoreCase(s, HttpPrefix) || StartsWithIgnoreCase(s, HttpsPrefix)
  }

  function NormalizeUrl(url: string): string {
    Trim(if HasHttpScheme(url) then url else HttpsPrefix + url)
  }

  /** The result of `NormalizeUrl` always starts with a scheme and has no white
      space at either end. An input that already has a scheme is only trimmed;
      for any other input the scheme goes in front of the untrimmed text, so
      its leading white space stays and only its trailing white space goes. */
  lemma NormalizeUrlShape(url: string)
    ensures HasHttpScheme(NormalizeUrl(url)) && IsTrimmed(NormalizeUrl(url))
    ensures HasHttpScheme(url) ==> NormalizeUrl(url) == Trim(url)
    ensures !HasHttpScheme(url) ==> NormalizeUrl(url) == HttpsPrefix + TrimEnd(url)
  {
    TrimShape(if HasHttpScheme(url) then url else HttpsPrefix + url);
    if HasHttpScheme(url) {
      if StartsWithIgnoreCase(url, HttpPrefix) {
        SchemeIsSolid(url, HttpPrefix);
      } else {
        SchemeIsSolid(url, HttpsPrefix);
      }
    } else {
      var prefixed := HttpsPrefix + url;
      assert prefixed[..|HttpsPrefix|] == HttpsPrefix;
      assert TrimStart(prefixed) == prefixed;
      TrimEndAfterSolidEnd(HttpsPrefix, url);
      assert NormalizeUrl(url)[..|HttpsPrefix|] == HttpsPrefix;
    }
  }

  /** Normalizing a normalized URL changes nothing. */
  lemma NormalizeIdempotent(url: string)
    ensures NormalizeUrl(NormalizeUrl(url)) == NormalizeUrl(url)
  {
    NormalizeUrlShape(url);
    TrimmedIsFixed(NormalizeUrl(url));
  }

  /** A string that starts with a scheme prefix keeps that start when trimmed;
      the characters of the start are not white space. */
  lemma SchemeIsSolid(s: string, prefix: string)
    requires prefix == HttpPrefix || prefix == HttpsPrefix
    requires StartsWithIgnoreCase(s, prefix)
    ensures forall i :: 0 <= i < |prefix| ==> !IsWhiteSpace(s[i])
    ensures StartsWithIgnoreCase(Trim(s), prefix)
  {
    forall i | 0 <= i < |prefix| ensures !IsWhiteSpace(s[i]) {
      assert FoldChar(s[i]) == FoldChar(prefix[i]);
    }
    TrimKeepsSolidPrefix(s, |prefix|);
    assert Trim(s)[..|prefix|] == s[..|prefix|];
  }

  /** Removing trailing white space from `p + u`, where `p` does not end in
      white space, only ever touches `u`. */
  lemma {:induction false} TrimEndAfterSolidEnd(p: string, u: string)
    requires p != [] && !IsWhiteSpace(p[|p| - 1])
    ensures TrimEnd(p + u) == p + TrimEnd(u)
    decreases |u|
  {
    if u == [] {
      assert p + u == p;
    } else if IsWhiteSpace(u[|u| - 1]) {
      assert (p + u)[..|p + u| - 1] == p + u[..|u| - 1];
      TrimEndAfterSolidEnd(p, u[..|u| - 1]);
    }
  }
}
