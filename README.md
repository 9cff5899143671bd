# Redirect registry of a QR-code redirect service

This project models the redirect registry of a small URL-shortening service
written in Python and Flask (`app.py`). A caller registers an external
*unique id* with a *final URL*. The service assigns the id a URL-safe *slug*
and returns a *redirect URL* (base URL + `/` + slug). A later request for the
slug is redirected to the final URL. The registry is an in-memory table from
unique id to (final URL, slug). Its central invariant is that no two entries
share a slug.

The model is written in Dafny and split into modules:

- `Decimal` (decimal.dfy) renders a natural number as decimal digits, as
  Python's `str(n)` does for the collision suffix. It also reads them back.
- `Sanitizer` (sanitize.dfy) models `_sanitize_unique_id`. It gives
  `str.strip()` with Python's whitespace set. It writes the regular-expression
  substitution `[^a-zA-Z0-9_-]+ → -` as a left-to-right scan and proves the
  scan equal to a match-by-match definition of the substitution. It ends with
  the `"link"` fallback.
- `UniqueSlug` (unique_slug.dfy) models `_ensure_unique_slug`. The method
  keeps the source's `while` loop. Its specification is the least free round
  (`candidate`, `candidate-1`, `candidate-2`, …). The loop terminates because
  the round numbers tried are at most the number of slugs already taken. That
  bound rests on the tried slugs being pairwise distinct.
- `RedirectUrl` (redirect_url.dfy) models `_build_redirect_url`. The BASE_URL
  setting and the request's root URL are parameters.
- `Listing` (listing.dfy) defines the rows of the admin listing, Python's
  string order, and the sort of the rows by unique id.
- `Redirects` (registry.dfy) holds the class `Registry`. Its fields are the
  table (`entries`) and the keys in registration order (`order`, the
  iteration order of the Python dict). `Register`, `Resolve` and
  `ViewEntries` are its methods, and `Valid()` is the slug-uniqueness
  invariant that every method keeps.
- `Scenarios` (scenarios.dfy) holds worked examples derived from the
  contracts. `UpdateThenResolve` registers an id twice and resolves its slug.

Two behaviours of the sanitiser follow from its code:

- Only an id that is blank after stripping falls back to `"link"`. A
  non-blank id ends up as `"link"` only when it sanitises to that, as
  `"link"` itself does. An id made only of punctuation, such as `"!!!"`,
  sanitises to `"-"` (`SanitizeCases`, `SanitizeOfPunctuation`).
- The underscore is kept. So `"a b"` and `"a-b"` collide, and they get
  `a-b` and `a-b-1`, while `"a_b"` stays `a_b`
  (`SanitizeSpace`, `SanitizeKeepsDashAndUnderscore`,
  `CollisionGetsSuffixOne`).

## Model

| member | source | states |
|---|---|---|
| `Decimal.NatToString` | app.py:73 | `str(suffix)` is a non-empty string of decimal digits with no leading zero |
| `Decimal.ParseOfNatToString` | app.py:73 | reading the rendered suffix back as a decimal number gives the suffix (round trip) |
| `Decimal.NatToStringInjective` | app.py:73 | different suffixes render as different strings |
| `Sanitizer.IsWhitespace` | app.py:34 | Python's whitespace set for `str.strip()` (`str.isspace`): U+0009–000D, U+001C–0020, U+0085, U+00A0, U+1680, U+2000–200A, U+2028, U+2029, U+202F, U+205F, U+3000 |
| `Sanitizer.IsSlugChar` | app.py:34 | the characters the pattern's negated class `[^a-zA-Z0-9_-]` does not match: ASCII letters, digits, `_` and `-` |
| `Sanitizer.TrimStart` | app.py:34 | the result is a suffix of the input, everything dropped is whitespace, and the result does not start with whitespace |
| `Sanitizer.TrimEnd` | app.py:34 | the result is a prefix of the input, everything dropped is whitespace, and the result does not end with whitespace |
| `Sanitizer.TrimBothEnds` | app.py:34 | dropping a whitespace prefix and then a whitespace suffix leaves a middle part of the string with only whitespace around it, and it is empty only when the whole string is whitespace |
| `Sanitizer.Strip` | app.py:34 | `strip()` is the input with its leading and trailing whitespace removed: a middle part of the input, with only whitespace before and after it, that neither starts nor ends with whitespace; it is empty exactly for an all-whitespace string; a string without surrounding whitespace is unchanged |
| `Sanitizer.ScanRuns` | app.py:34 | the scan emits only characters of `[A-Za-z0-9_-]`, never more characters than it reads, and, outside a run, is empty only for empty input |
| `Sanitizer.SlugPrefixLen` | app.py:34 | the longest prefix of allowed characters: all of it is allowed and the next character is not |
| `Sanitizer.RunLen` | app.py:34 | the maximal run of disallowed characters at the front: all of it is disallowed and the next character is allowed |
| `Sanitizer.ReplaceRuns` | app.py:34 | `re.sub(r"[^a-zA-Z0-9_-]+", "-", ·)` as the scan started outside a run; the result holds only allowed characters and is empty exactly for empty input |
| `Sanitizer.SubstituteRuns` | app.py:34 | the substitution match by match, as a regular-expression engine performs it: keep the allowed prefix, replace the maximal disallowed run after it by one `-`, continue after the run; the result holds only allowed characters |
| `Sanitizer.ScanSkipsRun` | app.py:34 | inside a run, further disallowed characters emit nothing, so a whole run yields a single `-` |
| `Sanitizer.ScanIsSubstitution` | app.py:34 | the left-to-right scan equals the match-by-match substitution: keep the allowed prefix, replace the maximal run after it by one `-`, continue after the run |
| `Sanitizer.ScanKeepsSlug` | app.py:34 | a string of allowed characters passes the substitution unchanged |
| `Sanitizer.Sanitize` | app.py:29-35 | the sanitised id is non-empty and contains only ASCII letters, digits, `-` and `_` |
| `Sanitizer.SanitizeKeepsSlug` | app.py:29-35 | sanitising a non-empty string of allowed characters returns it unchanged |
| `Sanitizer.SanitizeIdempotent` | app.py:29-35 | sanitising a sanitised id returns it unchanged |
| `Sanitizer.SanitizeCases` | app.py:34-35 | a blank id gives `"link"`; any other id gives the regular-expression substitution of its stripped form, which is never empty |
| `Sanitizer.SanitizeOfPunctuation` | app.py:34-35 | a non-blank id with no allowed character sanitises to `"-"`, not to the fallback |
| `UniqueSlug.Attempt` | app.py:70-73 | the slug tried in round `k`: the candidate itself in round 0, otherwise the candidate, `-`, and decimal digits without a leading zero that read back as `k`, i.e. `f"{candidate}-{k}"` |
| `UniqueSlug.AttemptsDistinct` | app.py:70-73 | the candidates tried in different rounds (`candidate`, `candidate-1`, …) are different strings |
| `UniqueSlug.Attempts` | app.py:70-74 | the first `n` rounds try exactly `n` different slugs |
| `UniqueSlug.AttemptsWithin` | app.py:72 | if every one of the first `n` rounds hit a taken slug, those `n` slugs are all among the taken ones |
| `UniqueSlug.TakenRoundsBounded` | app.py:72 | if the first `n` rounds all hit taken slugs, then `n` is at most the number of taken slugs |
| `UniqueSlug.FreeFrom` | app.py:72-74 | searching on from a round before which every slug was taken finds a free round, no later than the number of taken slugs, with every earlier round taken |
| `UniqueSlug.LeastFreeRound` | app.py:67-75 | the least round whose slug is free; it is at most the number of taken slugs, so the loop runs at most \|existing\|+1 times |
| `UniqueSlug.OnlyCandidateTaken` | app.py:70-74 | when the candidate is the only taken slug, the result is `candidate-1` |
| `UniqueSlug.EnsureUniqueSlug` | app.py:67-75 | the returned slug is not taken; it is the candidate itself when the candidate is free; otherwise it is `candidate-k` for the least `k ≥ 1` that is free |
| `RedirectUrl.SlashTrimmedUnique` | app.py:47 | removing trailing slashes has exactly one outcome |
| `RedirectUrl.TrimSlashes` | app.py:47 | `rstrip("/")` is a prefix of the base, removes only `/` characters, and does not end in `/` |
| `RedirectUrl.BuildRedirectUrl` | app.py:38-50 | the URL ends in `/` + slug; before that comes the configured base with its trailing slashes removed when the base is non-empty, else the request root treated the same way |
| `RedirectUrl.TrailingSlashIrrelevant` | app.py:45-50 | any number of extra trailing slashes on a non-empty configured base do not change the redirect URL |
| `Listing.LexLess` | app.py:317 | Python's `<` on the unique ids the sort compares: code point by code point, a proper prefix first; no id is below itself |
| `Listing.LexLessTotal` | app.py:317 | any two unique ids are equal or one sorts before the other |
| `Listing.LexLessTransitive` | app.py:317 | if one id sorts before a second and the second before a third, the first sorts before the third |
| `Listing.LexLessAsymmetric` | app.py:317 | no two ids each sort before the other |
| `Listing.InsertRow` | app.py:317 | inserting a row into sorted rows keeps them sorted and adds exactly that row |
| `Listing.SortRows` | app.py:317 | the sorted rows are ordered by unique id and are a permutation of the input rows |
| `Redirects.SlugSet` | app.py:68 | `existing_slugs`: every entry's slug is in the set, and every slug in it belongs to some entry |
| `Redirects.TableValid` | app.py:89-97 | the table's invariant: the key order lists every unique id of the table exactly once, and no two ids share a slug |
| `Redirects.Registry.Valid` | app.py:26 | the registry's fields satisfy `TableValid` |
| `Redirects.ListingRow` | app.py:308-315 | the row of a unique id: the id, its final URL, and a redirect URL ending in `/` and the id's slug |
| `Redirects.UpdateKeepsValid` | app.py:89-92 | replacing the final URL of a known id keeps every key listed once and all slugs distinct |
| `Redirects.InsertKeepsValid` | app.py:93-99 | adding a new id with a slug not yet taken keeps every key listed once and all slugs distinct |
| `Redirects.AttemptIsSlug` | app.py:73 | appending `-` and a number to a slug gives a slug |
| `Redirects.NewSlug` | app.py:94 | a new id's slug is non-empty, URL-safe and not yet taken, and it is the sanitised id itself whenever that is free |
| `Redirects.ListingOfPermutation` | app.py:306-317 | any permutation of the per-entry rows has one row per entry, and each row carries that entry's redirect URL and final URL |
| `Redirects.Registry.constructor` | app.py:26 | the registry starts empty, which satisfies the invariant |
| `Redirects.Registry.Register` | app.py:78-102 | a blank id fails with "unique_id is required" and an empty final URL fails with "final_url is required", both leaving the table unchanged. A known stripped id gets its final URL replaced, keeps its slug, every other entry stays the same, and the status is `updated`. A new stripped id is appended with slug `_ensure_unique_slug(_sanitize_unique_id(id))`, and the status is `created`. The redirect URL is built from the slug, and slugs stay pairwise distinct |
| `Redirects.Registry.Resolve` | app.py:110-114 | the answer is not-found exactly when no entry has the slug; otherwise it is a redirect to the final URL of the one entry that has it |
| `Redirects.Registry.ViewEntries` | app.py:306-318 | the listing is sorted by unique id and has one row per registered id, with that id's redirect URL and final URL |
| `Scenarios.SanitizeSpace` | app.py:34 | a single space between two non-empty slugs becomes a dash, so `"a b"` sanitises to `"a-b"` |
| `Scenarios.SanitizeKeepsDashAndUnderscore` | app.py:34 | `"a-b"` and `"a_b"` sanitise to themselves |
| `Scenarios.SanitizeBlankExample` | app.py:35 | a blank id sanitises to `"link"` |
| `Scenarios.RedirectUrlExample` | app.py:45-50 | a configured base with trailing slashes, or an empty one that falls back to the request root, gives the expected redirect URL |
| `Scenarios.CollisionGetsSuffixOne` | app.py:67-75 | a second id that sanitises to an already assigned slug gets that slug with `-1` |

## Left out

- HTTP surface: the Flask routes, JSON and HTML responses, status codes,
  templates and `url_for` (app.py:105-318) are not modelled. This includes
  the duplicate checks in `handle_webhook` and the stripping of the final URL
  in `admin_form`. `Resolve` returns `Redirect(url)` or `NotFound` in place
  of the 302 and 404 responses.
- Route precedence is not modelled. A slug that equals an explicit route
  name, such as `health`, is shadowed by that route (app.py:105, 117-121).
- QR generation and base64 encoding (app.py:53-64, `serve_qr_code`,
  qr_server.py) are not modelled. They call libraries that are not part of
  this model.
- The BASE_URL environment variable and `request.url_root` are not read.
  They are the `configured` and `urlRoot` parameters of `BuildRedirectUrl`,
  and an unset BASE_URL is passed as the empty string.
- Python's dynamic type handling (`str(unique_id)`, the `isinstance` check
  and its `TypeError`, app.py:79, 84-85) has no counterpart. The Dafny
  parameters are strings already. `if not final_url` is modelled for strings
  only, so it means "is empty".
- Concurrency is not modelled. The unguarded global dict under a
  multi-threaded server is modelled as one single-threaded object.
- scripts/send_test_request.py is not part of this model. It is a
  command-line HTTP client.
- Redirects.Registry.Register: returns the entry as a value. In the source
  the returned dict is the stored one, so a later update is visible through
  it. That aliasing is not captured.
- Redirects.Registry.Register: `if existing_entry:` is modelled as "the id is
  a key". A stored entry is a non-empty dict and so is always truthy.
- Listing.SortRows: the model sorts with a stable insertion sort, not
  Python's Timsort. Both are stable, and unique ids are distinct, so both
  give the same order. The contract states sortedness and permutation, not
  stability.
- Listing.LexLess: compares characters as Unicode scalar values. Python
  strings may also hold lone surrogates, which Dafny's `char` cannot
  represent. The same holds for every string of the model: a unique id with
  a lone surrogate, which the sanitiser would turn into part of a `-` run,
  cannot be passed to `Sanitizer.Sanitize` or `Redirects.Registry.Register`.
