/** The in-memory redirect registry of app.py: a table from a caller's unique
    id to its final URL and its assigned slug, in which no two entries share a
    slug. Registration creates an entry or updates the final URL of an
    existing one; resolution looks a slug up; the admin listing shows every
    entry sorted by unique id. */
module Redirects {
  import opened Sanitizer
  import opened UniqueSlug
  import opened RedirectUrl
  import opened Listing

  /** A registered redirect: where it leads and the slug that names it. */
  datatype Entry = Entry(finalUrl: string, slug: string)

  datatype Status = Created | Updated

  /** The two `ValueError`s of registration: "unique_id is required" and
      "final_url is required". */
  datatype RegisterError = UniqueIdRequired | FinalUrlRequired

  /** What a successful registration returns: the entry, its redirect URL and
      whether it was created or updated. */
  datatype Registration = Registration(entry: Entry, redirectUrl: string, status: Status)

  datatype Result<T, E> = Ok(value: T) | Err(error: E)

  /** Resolution: an HTTP 302 to the final URL, or the 404 "redirect_not_found". */
  datatype Response = Redirect(location: string) | NotFound

  /** The slugs already assigned. */
  function SlugSet(entries: map<string, Entry>): (slugs: set<string>)
    ensures forall id :: id in entries ==> entries[id].slug in slugs
    ensures forall slug :: slug in slugs ==> exists id :: id in entries && entries[id].slug == slug
  {
    set id | id in entries :: entries[id].slug
  }

  /** No two unique ids share a slug. */
  predicate SlugsDistinct(entries: map<string, Entry>) {
    forall a, b :: a in entries && b in entries && entries[a].slug == entries[b].slug ==> a == b
  }

  /** The registry's invariant over its table and key order: `order` lists
      every key of `entries` exactly once, and no two entries share a slug. */
  predicate TableValid(entries: map<string, Entry>, order: seq<string>) {
    (forall i :: 0 <= i < |order| ==> order[i] in entries)
    && (forall id :: id in entries ==> id in order)
    && (forall i, j :: 0 <= i < j < |order| ==> order[i] != order[j])
    && SlugsDistinct(entries)
  }

  /** Replacing the final URL of a known id keeps the invariant. */
  lemma UpdateKeepsValid(entries: map<string, Entry>, order: seq<string>, id: string, finalUrl: string)
    requires TableValid(entries, order) && id in entries
    ensures TableValid(entries[id := Entry(finalUrl, entries[id].slug)], order)
  {
  }

  /** Adding a new id with a slug not yet assigned keeps the invariant. */
  lemma InsertKeepsValid(entries: map<string, Entry>, order: seq<string>, id: string, entry: Entry)
    requires TableValid(entries, order) && id !in entries && entry.slug !in SlugSet(entries)
    ensures TableValid(entries[id := entry], order + [id])
  {
  }

  /** Appending `-` and a number to a slug gives a slug. */
  lemma AttemptIsSlug(candidate: string, k: nat)
    requires IsSlug(candidate)
    ensures IsSlug(Attempt(candidate, k))
  {
  }

  /** The slug a new unique id receives:
      `_ensure_unique_slug(_sanitize_unique_id(unique_id))`. It is a
      non-empty slug not yet assigned, and it is the sanitised id itself
      whenever that is still free. */
  function NewSlug(uniqueId: string, entries: map<string, Entry>): (slug: string)
    ensures slug !in SlugSet(entries)
    ensures slug != [] && IsSlug(slug)
    ensures Sanitize(uniqueId) !in SlugSet(entries) ==> slug == Sanitize(uniqueId)
  {
    var candidate := Sanitize(uniqueId);
    var k := LeastFreeRound(candidate, SlugSet(entries));
    AttemptIsSlug(candidate, k);
    Attempt(candidate, k)
  }

  /** The listing row of a registered unique id. */
  function ListingRow(entries: map<string, Entry>, id: string, configured: string, urlRoot: string): (row: Row)
    requires id in entries
    ensures row.uniqueId == id && row.finalUrl == entries[id].finalUrl
    ensures var url, slug := row.redirectUrl, entries[id].slug;
      |url| > |slug| && url[|url| - |slug|..] == slug && url[|url| - |slug| - 1] == '/'
  {
    Row(id, BuildRedirectUrl(configured, urlRoot, entries[id].slug), entries[id].finalUrl)
  }

  /** A permutation of the rows of the ids in `order`, when `order` lists
      every key of `entries`, holds each such row and the row of each key. */
  lemma ListingOfPermutation(entries: map<string, Entry>, order: seq<string>, configured: string,
                             urlRoot: string, unsorted: seq<Row>, rows: seq<Row>)
    requires forall id :: id in entries ==> id in order
    requires |unsorted| == |order|
    requires forall j :: 0 <= j < |order| ==>
      order[j] in entries && unsorted[j] == ListingRow(entries, order[j], configured, urlRoot)
    requires multiset(rows) == multiset(unsorted)
    ensures |rows| == |order|
    ensures forall k :: 0 <= k < |rows| ==>
      rows[k].uniqueId in entries && rows[k] == ListingRow(entries, rows[k].uniqueId, configured, urlRoot)
    ensures forall id :: id in entries ==> exists k :: 0 <= k < |rows| && rows[k].uniqueId == id
  {
    assert |rows| == |unsorted| by {
      assert |multiset(rows)| == |multiset(unsorted)|;
    }
    forall k | 0 <= k < |rows|
      ensures rows[k].uniqueId in entries && rows[k] == ListingRow(entries, rows[k].uniqueId, configured, urlRoot)
    {
      assert rows[k] in multiset(unsorted);
      var j :| 0 <= j < |unsorted| && unsorted[j] == rows[k];
    }
    forall id | id in entries
      ensures exists k :: 0 <= k < |rows| && rows[k].uniqueId == id
    {
      var j :| 0 <= j < |order| && order[j] == id;
      assert unsorted[j] in multiset(rows);
      var k :| 0 <= k < |rows| && rows[k] == unsorted[j];
    }
  }

  /** The registry: `entries` is the table, `order` its keys in the order
      they were first registered (the iteration order of a Python dict). */
  class Registry {
    var entries: map<string, Entry>
    var order: seq<string>

    ghost predicate Valid()
      reads this
    {
      TableValid(entries, order)
    }

    /** The registry starts empty. */
    constructor ()
      ensures Valid()
      ensures entries == map[] && order == []
    {
      entries := map[];
      order := [];
    }

    /** `_register_redirect`, with BASE_URL (`configured`, empty when unset)
        and the request's root URL passed in. A blank unique id or an empty
        final URL is refused and changes nothing; a known id gets its final
        URL replaced and keeps its slug; a new id is added with a fresh slug.
        Slugs stay pairwise distinct. */
    method Register(uniqueId: string, finalUrl: string, configured: string, urlRoot: string)
      returns (r: Result<Registration, RegisterError>)
      requires Valid()
      modifies this
      ensures Valid()
      ensures AllWhitespace(uniqueId) ==>
        r == Err(UniqueIdRequired) && entries == old(entries) && order == old(order)
      ensures !AllWhitespace(uniqueId) && finalUrl == [] ==>
        r == Err(FinalUrlRequired) && entries == old(entries) && order == old(order)
      ensures var id := Strip(uniqueId);
        id != [] && finalUrl != [] && id in old(entries) ==>
          var slug := old(entries)[id].slug;
          && entries == old(entries)[id := Entry(finalUrl, slug)]
          && order == old(order)
          && r == Ok(Registration(Entry(finalUrl, slug), BuildRedirectUrl(configured, urlRoot, slug), Updated))
      ensures var id := Strip(uniqueId);
        id != [] && finalUrl != [] && id !in old(entries) ==>
          var slug := NewSlug(id, old(entries));
          && entries == old(entries)[id := Entry(finalUrl, slug)]
          && order == old(order) + [id]
          && r == Ok(Registration(Entry(finalUrl, slug), BuildRedirectUrl(configured, urlRoot, slug), Created))
    {
      var id := Strip(uniqueId);
      if id == [] {
        return Err(UniqueIdRequired);
      }
      if finalUrl == [] {
        return Err(FinalUrlRequired);
      }
      var slug;
      var status;
      if id in entries {
        slug := entries[id].slug;
        UpdateKeepsValid(entries, order, id, finalUrl);
        entries := entries[id := Entry(finalUrl, slug)];
        status := Updated;
      } else {
        slug := EnsureUniqueSlug(Sanitize(id), SlugSet(entries));
        assert slug == NewSlug(id, entries);
        InsertKeepsValid(entries, order, id, Entry(finalUrl, slug));
        entries := entries[id := Entry(finalUrl, slug)];
        order := order + [id];
        status := Created;
      }
      var redirectUrl := BuildRedirectUrl(configured, urlRoot, slug);
      r := Ok(Registration(entries[id], redirectUrl, status));
    }

    /** `_resolve_redirect`: the entries are scanned in registration order
        for the slug. The answer is a redirect to the final URL of the one
        entry with that slug, and not-found when no entry has it. */
    method Resolve(slug: string) returns (response: Response)
      requires Valid()
      ensures response == NotFound <==> slug !in SlugSet(entries)
      ensures forall id :: id in entries && entries[id].slug == slug ==>
        response == Redirect(entries[id].finalUrl)
    {
      for i := 0 to |order|
        invariant forall j :: 0 <= j < i ==> entries[order[j]].slug != slug
      {
        var entry := entries[order[i]];
        if entry.slug == slug {
          return Redirect(entry.finalUrl);
        }
      }
      return NotFound;
    }

    /** The rows of `view_entries`: one row per registered unique id, with
        its redirect URL and final URL, sorted by unique id. */
    method ViewEntries(configured: string, urlRoot: string) returns (rows: seq<Row>)
      requires Valid()
      ensures SortedById(rows)
      ensures |rows| == |order|
      ensures forall k :: 0 <= k < |rows| ==>
        rows[k].uniqueId in entries && rows[k] == ListingRow(entries, rows[k].uniqueId, configured, urlRoot)
      ensures forall id :: id in entries ==> exists k :: 0 <= k < |rows| && rows[k].uniqueId == id
    {
      var unsorted: seq<Row> := [];
      for i := 0 to |order|
        invariant |unsorted| == i
        invariant forall j :: 0 <= j < i ==>
          order[j] in entries && unsorted[j] == ListingRow(entries, order[j], configured, urlRoot)
      {
        var id := order[i];
        var entry := entries[id];
        unsorted := unsorted + [Row(id, BuildRedirectUrl(configured, urlRoot, entry.slug), entry.finalUrl)];
      }
      rows := SortRows(unsorted);
      ListingOfPermutation(entries, order, configured, urlRoot, unsorted, rows);
    }
  }
}
