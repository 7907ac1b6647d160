/** The fully-qualified shortened URL reported for a link (backend/src/main.rs, lines 37 and 112). */
module Urls {

  /** `s.trim_end_matches("/")`: `s` without its run of trailing slashes. */
  function TrimTrailingSlashes(s: string): (r: string)
    ensures r <= s
    ensures |r| == 0 || r[|r| - 1] != '/'
    ensures forall i :: |r| <= i < |s| ==> s[i] == '/'
  {
    if |s| > 0 && s[|s| - 1] == '/' then TrimTrailingSlashes(s[..|s| - 1]) else s
  }

  /** `format!("{}/{}", forward_url.trim_end_matches("/"), slug)`. */
  function ShortenedUrl(forwardUrl: string, slug: string): string
  {
    TrimTrailingSlashes(forwardUrl) + "/" + slug
  }

  /** The three properties of TrimTrailingSlashes determine its result. */
  lemma TrimUnique(s: string, r: string)
    requires r <= s
    requires |r| == 0 || r[|r| - 1] != '/'
    requires forall i :: |r| <= i < |s| ==> s[i] == '/'
    ensures r == TrimTrailingSlashes(s)
  {
  }

  /** Trimming is idempotent. */
  lemma TrimIdempotent(s: string)
    ensures TrimTrailingSlashes(TrimTrailingSlashes(s)) == TrimTrailingSlashes(s)
  {
    var t := TrimTrailingSlashes(s);
    TrimUnique(t, t);
  }

  /** The forward URL may be configured with or without trailing slashes. */
  lemma {:induction false} ShortenedUrlIgnoresTrailingSlashes(forwardUrl: string, slashes: nat, slug: string)
    ensures ShortenedUrl(forwardUrl + seq(slashes, _ => '/'), slug) == ShortenedUrl(forwardUrl, slug)
  {
    var base := forwardUrl + seq(slashes, _ => '/');
    TrimUnique(base, TrimTrailingSlashes(forwardUrl));
  }

  /** Two forward URLs give the same shortened URL for a slug exactly when they trim to the same base. */
  lemma ShortenedUrlSameBase(f: string, g: string, slug: string)
    ensures ShortenedUrl(f, slug) == ShortenedUrl(g, slug) <==> TrimTrailingSlashes(f) == TrimTrailingSlashes(g)
  {
    var a, b := TrimTrailingSlashes(f), TrimTrailingSlashes(g);
    if ShortenedUrl(f, slug) == ShortenedUrl(g, slug) {
      assert |a| == |b|;
      assert a == ShortenedUrl(f, slug)[..|a|] == b;
    }
  }

  /** Under one forward URL the slug can be read back from the shortened URL. */
  lemma ShortenedUrlInjective(forwardUrl: string, slug1: string, slug2: string)
    requires ShortenedUrl(forwardUrl, slug1) == ShortenedUrl(forwardUrl, slug2)
    ensures slug1 == slug2
  {
    var base := TrimTrailingSlashes(forwardUrl);
    assert slug1 == ShortenedUrl(forwardUrl, slug1)[|base| + 1..];
    assert slug2 == ShortenedUrl(forwardUrl, slug2)[|base| + 1..];
  }
}
