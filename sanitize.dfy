/** The slug sanitiser of app.py: strip surrounding whitespace, replace every
    maximal run of characters outside `[A-Za-z0-9_-]` by one `-`, and fall back
    to `"link"` when nothing is left. */
module Sanitizer {

  /** Python's `str.isspace()`, the characters `str.strip()` removes. */
  predicate IsWhitespace(c: char) {
    ('\t' <= c <= '\r') || ('\U{1C}' <= c <= ' ') || c == '\U{85}' || c == '\U{A0}'
    || c == '\U{1680}' || ('\U{2000}' <= c <= '\U{200A}') || c == '\U{2028}' || c == '\U{2029}'
    || c == '\U{202F}' || c == '\U{205F}' || c == '\U{3000}'
  }

  /** The characters the pattern `[^a-zA-Z0-9_-]` does not match. */
  predicate IsSlugChar(c: char) {
    ('a' <= c <= 'z') || ('A' <= c <= 'Z') || ('0' <= c <= '9') || c == '_' || c == '-'
  }

  predicate IsSlug(s: string) {
    forall k :: 0 <= k < |s| ==> IsSlugChar(s[k])
  }

  predicate NoSlugChar(s: string) {
    forall k :: 0 <= k < |s| ==> !IsSlugChar(s[k])
  }

  predicate AllWhitespace(s: string) {
    forall k :: 0 <= k < |s| ==> IsWhitespace(s[k])
  }

  /** Drops leading whitespace: what is left is a suffix of `s` that does not
      start with whitespace, and everything dropped is whitespace. */
  function TrimStart(s: string): (r: string)
    ensures |r| <= |s| && r == s[|s| - |r|..]
    ensures AllWhitespace(s[..|s| - |r|])
    ensures r != [] ==> !IsWhitespace(r[0])
    decreases |s|
  {
    if s != [] && IsWhitespace(s[0]) then
      var r := TrimStart(s[1..]);
      assert s[..|s| - |r|] == [s[0]] + s[1..][..|s| - 1 - |r|];
      r
    else s
  }

  /** Drops trailing whitespace: what is left is a prefix of `s` that does not
      end with whitespace, and everything dropped is whitespace. */
  function TrimEnd(s: string): (r: string)
    ensures |r| <= |s| && r == s[..|r|]
    ensures AllWhitespace(s[|r|..])
    ensures r != [] ==> !IsWhitespace(r[|r| - 1])
    decreases |s|
  {
    if s != [] && IsWhitespace(s[|s| - 1]) then
      var r := TrimEnd(s[..|s| - 1]);
      assert s[|r|..] == s[..|s| - 1][|r|..] + [s[|s| - 1]];
      r
    else s
  }

  /** `r` is `s` without its first `i` characters and the ones after `r`,
      all of which are whitespace. */
  predicate StrippedAt(s: string, i: nat, r: string) {
    i + |r| <= |s| && r == s[i..i + |r|]
    && AllWhitespace(s[..i]) && AllWhitespace(s[i + |r|..])
  }

  /** Dropping a whitespace prefix and then a whitespace suffix leaves a
      middle part of `s`, with whitespace only before and after it. */
  lemma TrimBothEnds(s: string, t: string, r: string)
    requires |t| <= |s| && t == s[|s| - |t|..] && AllWhitespace(s[..|s| - |t|])
    requires |r| <= |t| && r == t[..|r|] && AllWhitespace(t[|r|..])
    ensures StrippedAt(s, |s| - |t|, r)
    ensures r == [] ==> AllWhitespace(s)
  {
  }

  /** `str.strip()`: `s` with its leading and trailing whitespace removed.
      It is empty exactly for an all-whitespace string, otherwise neither end
      is whitespace; a string without surrounding whitespace is kept as it is. */
  function Strip(s: string): (r: string)
    ensures r == [] <==> AllWhitespace(s)
    ensures r != [] ==> !IsWhitespace(r[0]) && !IsWhitespace(r[|r| - 1])
    ensures (s == [] || (!IsWhitespace(s[0]) && !IsWhitespace(s[|s| - 1]))) ==> r == s
    ensures exists i: nat :: StrippedAt(s, i, r)
  {
    var t := TrimStart(s);
    var r := TrimEnd(t);
    TrimBothEnds(s, t, r);
    r
  }

  /** The substitution as a left-to-right scan. A slug character is copied;
      any other character starts (when `inRun` is false) or continues (when it
      is true) a run, and only the start of a run emits a `-`. */
  function ScanRuns(s: string, inRun: bool): (r: string)
    ensures IsSlug(r)
    ensures |r| <= |s|
    ensures !inRun ==> (r == [] <==> s == [])
    decreases |s|
  {
    if s == [] then []
    else if IsSlugChar(s[0]) then [s[0]] + ScanRuns(s[1..], false)
    else if inRun then ScanRuns(s[1..], true)
    else ['-'] + ScanRuns(s[1..], true)
  }

  /** `re.sub(r"[^a-zA-Z0-9_-]+", "-", s)`. */
  function ReplaceRuns(s: string): (r: string)
    ensures IsSlug(r) && (r == [] <==> s == [])
  {
    ScanRuns(s, false)
  }

  /** `_sanitize_unique_id`: a non-empty string of slug characters. */
  function Sanitize(raw: string): (slug: string)
    ensures slug != [] && IsSlug(slug)
  {
    var cleaned := ReplaceRuns(Strip(raw));
    if cleaned == [] then "link" else cleaned
  }

  // ----- The substitution as a regular-expression engine performs it -----

  /** Length of the longest prefix made of slug characters. */
  function SlugPrefixLen(s: string): (k: nat)
    ensures k <= |s| && IsSlug(s[..k])
    ensures k < |s| ==> !IsSlugChar(s[k])
    decreases |s|
  {
    if s != [] && IsSlugChar(s[0]) then 1 + SlugPrefixLen(s[1..]) else 0
  }

  /** Length of the maximal run of non-slug characters at the front. */
  function RunLen(s: string): (k: nat)
    ensures k <= |s| && NoSlugChar(s[..k])
    ensures k < |s| ==> IsSlugChar(s[k])
    decreases |s|
  {
    if s != [] && !IsSlugChar(s[0]) then 1 + RunLen(s[1..]) else 0
  }

  /** Match by match: keep the text before the next match, replace the
      maximal run that matches by one `-`, and go on after it. */
  function SubstituteRuns(s: string): (r: string)
    ensures IsSlug(r)
    decreases |s|
  {
    var k := SlugPrefixLen(s);
    if k == |s| then s
    else
      var m := k + RunLen(s[k..]);
      assert m > k by { assert s[k..][0] == s[k]; }
      s[..k] + "-" + SubstituteRuns(s[m..])
  }

  /** A prefix of slug characters is copied through. */
  lemma {:induction false} ScanSlugPrefix(s: string, k: nat)
    requires k <= |s| && IsSlug(s[..k])
    ensures ScanRuns(s, false) == s[..k] + ScanRuns(s[k..], false)
    decreases k
  {
    if k > 0 {
      assert s[..k][0] == s[0];
      assert s[1..][..k - 1] == s[..k][1..];
      ScanSlugPrefix(s[1..], k - 1);
      assert s[1..][k - 1..] == s[k..];
      assert [s[0]] + s[1..][..k - 1] == s[..k];
    }
  }

  /** Inside a run, further non-slug characters emit nothing. */
  lemma {:induction false} ScanSkipsRun(b: string, t: string)
    requires NoSlugChar(b)
    ensures ScanRuns(b + t, true) == ScanRuns(t, true)
    decreases |b|
  {
    if b != [] {
      assert (b + t)[1..] == b[1..] + t;
      ScanSkipsRun(b[1..], t);
    } else {
      assert b + t == t;
    }
  }

  /** A run ends at a slug character or at the end of the input, where the
      scan no longer depends on whether it was inside a run. */
  lemma ScanAfterRun(t: string)
    requires t == [] || IsSlugChar(t[0])
    ensures ScanRuns(t, true) == ScanRuns(t, false)
  {
  }

  /** A maximal run at the front of the input becomes one `-`. */
  lemma ScanLeadingRun(t: string, j: nat)
    requires j == RunLen(t) && j > 0
    ensures ScanRuns(t, false) == "-" + ScanRuns(t[j..], false)
  {
    var run := t[1..j];
    assert NoSlugChar(run) by {
      assert run == t[..j][1..];
    }
    assert t[1..] == run + t[j..];
    ScanSkipsRun(run, t[j..]);
    ScanAfterRun(t[j..]);
  }

  /** Splits `s` at its first match: slug prefix, maximal run, rest. */
  lemma SplitAtRun(s: string, k: nat, m: nat)
    requires k < m <= |s| && IsSlug(s[..k]) && m - k == RunLen(s[k..])
    ensures ReplaceRuns(s) == s[..k] + "-" + ScanRuns(s[m..], false)
  {
    var t := s[k..];
    var x := ScanRuns(s[m..], false);
    assert ScanRuns(t, false) == "-" + x by {
      ScanLeadingRun(t, m - k);
      assert t[m - k..] == s[m..];
    }
    ScanSlugPrefix(s, k);
    assert s[..k] + ("-" + x) == s[..k] + "-" + x;
  }

  /** The scan computes the match-by-match substitution. */
  lemma {:induction false} ScanIsSubstitution(s: string)
    ensures ReplaceRuns(s) == SubstituteRuns(s)
    decreases |s|
  {
    var k := SlugPrefixLen(s);
    if k == |s| {
      ScanSlugPrefix(s, k);
    } else {
      var m := k + RunLen(s[k..]);
      assert m > k by { assert s[k..][0] == s[k]; }
      SplitAtRun(s, k, m);
      ScanIsSubstitution(s[m..]);
    }
  }

  // ----- Properties of the sanitiser -----

  /** A string of slug characters passes the scan unchanged. */
  lemma {:induction false} ScanKeepsSlug(s: string, inRun: bool)
    requires IsSlug(s)
    ensures ScanRuns(s, inRun) == s
    decreases |s|
  {
    if s != [] {
      ScanKeepsSlug(s[1..], false);
      assert s == [s[0]] + s[1..];
    }
  }

  /** Sanitising a slug returns it unchanged; in particular sanitising twice
      is the same as sanitising once. */
  lemma SanitizeKeepsSlug(s: string)
    requires s != [] && IsSlug(s)
    ensures Sanitize(s) == s
  {
    assert Strip(s) == s;
    ScanKeepsSlug(s, false);
  }

  lemma SanitizeIdempotent(raw: string)
    ensures Sanitize(Sanitize(raw)) == Sanitize(raw)
  {
    SanitizeKeepsSlug(Sanitize(raw));
  }

  /** The fallback `"link"` is taken exactly when the input is blank; any
      other input gives the regular-expression substitution of its stripped
      form. */
  lemma SanitizeCases(raw: string)
    ensures AllWhitespace(raw) ==> Sanitize(raw) == "link"
    ensures !AllWhitespace(raw) ==> Sanitize(raw) == SubstituteRuns(Strip(raw))
  {
    ScanIsSubstitution(Strip(raw));
  }

  /** A non-blank input with no slug character at all becomes a lone `-`,
      not the fallback. */
  lemma SanitizeOfPunctuation(raw: string)
    requires !AllWhitespace(raw) && NoSlugChar(Strip(raw))
    ensures Sanitize(raw) == "-"
  {
    var t := Strip(raw);
    assert t == [t[0]] + t[1..];
    assert t[1..] == t[1..] + [];
    ScanSkipsRun(t[1..], []);
  }
}
