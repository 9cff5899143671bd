/** Worked examples of the registry's behaviour, checked against the
    contracts alone. */
module Scenarios {
  import opened Sanitizer
  import opened UniqueSlug
  import opened RedirectUrl
  import opened Redirects

  /** A string that starts and ends with slug characters has no
      surrounding whitespace to strip. */
  lemma StripOfSlugEnds(s: string)
    requires s != [] && IsSlugChar(s[0]) && IsSlugChar(s[|s| - 1])
    ensures Strip(s) == s
  {
    var c, d := s[0], s[|s| - 1];
    assert !IsWhitespace(c) && !IsWhitespace(d);
  }

  /** A single space before a slug is a run of length one. */
  lemma RunOfOneSpace(b: string)
    requires b != [] && IsSlug(b)
    ensures RunLen(" " + b) == 1
  {
    var t := " " + b;
    assert t[1..] == b;
    assert IsSlugChar(b[0]);
  }

  /** A space between two slugs becomes a dash: `"a b"` gives `"a-b"`. */
  lemma SanitizeSpace(a: string, b: string)
    requires a != [] && b != [] && IsSlug(a) && IsSlug(b)
    ensures Sanitize(a + " " + b) == a + "-" + b
  {
    var s := a + " " + b;
    var n := |a|;
    RunOfOneSpace(b);
    assert s[..n] == a && s[n..] == " " + b && s[n + 1..] == b;
    SplitAtRun(s, n, n + 1);
    ScanKeepsSlug(b, false);
    assert s[0] == a[0] && s[|s| - 1] == b[|b| - 1];
    StripOfSlugEnds(s);
  }

  /** Dashes and underscores are kept. */
  lemma SanitizeKeepsDashAndUnderscore()
    ensures Sanitize("a-b") == "a-b"
    ensures Sanitize("a_b") == "a_b"
  {
    assert IsSlug("a-b") && IsSlug("a_b");
    SanitizeKeepsSlug("a-b");
    SanitizeKeepsSlug("a_b");
  }

  /** Only a blank id falls back to `link`. */
  lemma SanitizeBlankExample()
    ensures Sanitize(" \t") == "link"
  {
    assert AllWhitespace(" \t");
    SanitizeCases(" \t");
  }

  /** The base URL loses its trailing slashes before the slug is joined. */
  lemma RedirectUrlExample()
    ensures BuildRedirectUrl("https://go.example//", "http://localhost:5000/", "a-b") == "https://go.example/a-b"
    ensures BuildRedirectUrl("", "http://localhost:5000/", "a-b") == "http://localhost:5000/a-b"
  {
    assert TrimSlashes("https://go.example//") == "https://go.example";
    assert TrimSlashes("http://localhost:5000/") == "http://localhost:5000";
  }

  /** A second id that sanitises to a slug already assigned gets that slug
      with the suffix `-1`. */
  lemma CollisionGetsSuffixOne(first: string, second: string, url: string)
    requires Sanitize(second) == Sanitize(first)
    ensures NewSlug(second, map[first := Entry(url, Sanitize(first))]) == Sanitize(first) + "-1"
  {
    var c := Sanitize(first);
    var m := map[first := Entry(url, c)];
    assert m[first].slug == c;
    OnlyCandidateTaken(c, SlugSet(m));
  }

  /** Registering an id twice: created with its sanitised slug, then updated
      with the same slug, which resolves to the latest final URL. */
  method UpdateThenResolve(id: string, url1: string, url2: string)
    requires id != [] && Strip(id) == id && url1 != [] && url2 != []
  {
    var registry := new Registry();
    var first := registry.Register(id, url1, "", "http://localhost:5000/");
    assert first.Ok? && first.value.status == Created;
    assert first.value.entry == Entry(url1, Sanitize(id));

    var again := registry.Register(id, url2, "", "http://localhost:5000/");
    assert again.Ok? && again.value.status == Updated;
    assert again.value.entry == Entry(url2, Sanitize(id));

    var hit := registry.Resolve(Sanitize(id));
    assert registry.entries[id].slug == Sanitize(id);
    assert hit == Redirect(url2);
  }
}
