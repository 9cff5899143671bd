/** The redirect URL of app.py: the base URL without its trailing slashes,
    then `/`, then the slug. The base is the configured one (the BASE_URL
    setting) when that is non-empty, otherwise the root URL of the request
    being served; both are parameters here. */
module RedirectUrl {

  /** `p` is `base` with every trailing `/` removed. */
  predicate SlashTrimmed(base: string, p: string) {
    |p| <= |base| && p == base[..|p|]
    && (forall k :: |p| <= k < |base| ==> base[k] == '/')
    && (p == [] || p[|p| - 1] != '/')
  }

  /** Removing trailing slashes has exactly one outcome. */
  lemma SlashTrimmedUnique(base: string, p: string, q: string)
    requires SlashTrimmed(base, p) && SlashTrimmed(base, q)
    ensures p == q
  {
  }

  /** `base.rstrip("/")`. */
  function TrimSlashes(base: string): (p: string)
    ensures SlashTrimmed(base, p)
    decreases |base|
  {
    if base != [] && base[|base| - 1] == '/' then TrimSlashes(base[..|base| - 1]) else base
  }

  /** `_build_redirect_url(slug)`, with `configured` the value of BASE_URL
      (empty when it is unset) and `urlRoot` the request's root URL. */
  function BuildRedirectUrl(configured: string, urlRoot: string, slug: string): (url: string)
    ensures |url| > |slug|
    ensures url[|url| - |slug|..] == slug && url[|url| - |slug| - 1] == '/'
    ensures configured != [] ==> SlashTrimmed(configured, url[..|url| - |slug| - 1])
    ensures configured == [] ==> SlashTrimmed(urlRoot, url[..|url| - |slug| - 1])
  {
    var base := if configured != [] then TrimSlashes(configured) else TrimSlashes(urlRoot);
    var url := base + "/" + slug;
    assert url[..|url| - |slug| - 1] == base;
    url
  }

  /** The URL depends on the base only up to trailing slashes: a configured
      base with any number of extra trailing slashes gives the same URL. */
  lemma TrailingSlashIrrelevant(configured: string, slashes: string, urlRoot: string, slug: string)
    requires configured != []
    requires forall k :: 0 <= k < |slashes| ==> slashes[k] == '/'
    ensures BuildRedirectUrl(configured + slashes, urlRoot, slug) == BuildRedirectUrl(configured, urlRoot, slug)
  {
    var base := configured + slashes;
    var p := TrimSlashes(configured);
    assert base[..|configured|] == configured;
    assert SlashTrimmed(base, p) by {
      forall k | |p| <= k < |base|
        ensures base[k] == '/'
      {
        if k >= |configured| {
          assert base[k] == slashes[k - |configured|];
        }
      }
    }
    SlashTrimmedUnique(base, p, TrimSlashes(base));
  }
}
