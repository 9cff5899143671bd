/** The collision resolver of app.py: a candidate slug that is already taken
    gets the suffix `-1`, `-2`, ... with the least number that makes it free. */
module UniqueSlug {
  import opened Decimal

  /** The slug tried in round `k`: the candidate itself, then `candidate-k`. */
  function Attempt(candidate: string, k: nat): (slug: string)
    ensures k == 0 ==> slug == candidate
    ensures k > 0 ==>
      (&& |slug| > |candidate| + 1 && slug[..|candidate|] == candidate
       && slug[|candidate|] == '-' && IsDigits(slug[|candidate| + 1..])
       && ParseDigits(slug[|candidate| + 1..]) == k
       && (|slug| > |candidate| + 2 ==> slug[|candidate| + 1] != '0'))
  {
    if k == 0 then candidate
    else
      var slug := candidate + "-" + NatToString(k);
      assert slug[|candidate| + 1..] == NatToString(k);
      ParseOfNatToString(k);
      slug
  }

  /** Different rounds try different slugs, so the search cannot cycle. */
  lemma AttemptsDistinct(candidate: string, i: nat, j: nat)
    requires i != j
    ensures Attempt(candidate, i) != Attempt(candidate, j)
  {
  }

  /** The slugs tried in the first `n` rounds. */
  ghost function Attempts(candidate: string, n: nat): (s: set<string>)
    ensures |s| == n
    ensures forall i :: 0 <= i < n ==> Attempt(candidate, i) in s
    ensures forall i :: n <= i ==> Attempt(candidate, i) !in s
  {
    if n == 0 then {}
    else
      var prev := Attempts(candidate, n - 1);
      assert forall i :: n <= i ==> Attempt(candidate, i) != Attempt(candidate, n - 1) by {
        forall i | n <= i { AttemptsDistinct(candidate, i, n - 1); }
      }
      prev + {Attempt(candidate, n - 1)}
  }

  lemma {:induction false} AttemptsWithin(candidate: string, existing: set<string>, n: nat)
    requires forall i :: 0 <= i < n ==> Attempt(candidate, i) in existing
    ensures Attempts(candidate, n) <= existing
  {
    if n > 0 {
      AttemptsWithin(candidate, existing, n - 1);
    }
  }

  /** Rounds whose slugs are all taken are at most as many as the taken slugs. */
  lemma TakenRoundsBounded(candidate: string, existing: set<string>, n: nat)
    requires forall i :: 0 <= i < n ==> Attempt(candidate, i) in existing
    ensures n <= |existing|
  {
    var tried := Attempts(candidate, n);
    AttemptsWithin(candidate, existing, n);
    assert existing == tried + (existing - tried);
  }

  /** The first free round at or after round `i`, every round before `i`
      being taken. */
  function FreeFrom(candidate: string, existing: set<string>, i: nat): (k: nat)
    requires forall j :: 0 <= j < i ==> Attempt(candidate, j) in existing
    ensures i <= k <= |existing|
    ensures Attempt(candidate, k) !in existing
    ensures forall j :: 0 <= j < k ==> Attempt(candidate, j) in existing
    decreases |existing| - i
  {
    TakenRoundsBounded(candidate, existing, i);
    if Attempt(candidate, i) !in existing then i
    else
      assert forall j :: 0 <= j < i + 1 ==> Attempt(candidate, j) in existing;
      TakenRoundsBounded(candidate, existing, i + 1);
      FreeFrom(candidate, existing, i + 1)
  }

  /** The least round whose slug is free; it is at most the number of taken
      slugs, so the search ends after at most |existing| + 1 rounds. */
  function LeastFreeRound(candidate: string, existing: set<string>): (k: nat)
    ensures k <= |existing|
    ensures Attempt(candidate, k) !in existing
    ensures forall j :: 0 <= j < k ==> Attempt(candidate, j) in existing
  {
    FreeFrom(candidate, existing, 0)
  }

  /** When the candidate is the only slug taken, the first suffix frees it. */
  lemma OnlyCandidateTaken(candidate: string, existing: set<string>)
    requires candidate in existing
    requires forall s :: s in existing ==> s == candidate
    ensures Attempt(candidate, LeastFreeRound(candidate, existing)) == candidate + "-1"
  {
    assert |Attempt(candidate, 1)| > |candidate|;
    assert NatToString(1) == "1";
  }

  /** `_ensure_unique_slug`, against the set of slugs already assigned. */
  method EnsureUniqueSlug(candidate: string, existing: set<string>) returns (slug: string)
    ensures slug !in existing
    ensures candidate !in existing ==> slug == candidate
    ensures slug == Attempt(candidate, LeastFreeRound(candidate, existing))
  {
    ghost var last := LeastFreeRound(candidate, existing);
    slug := candidate;
    var original := slug;
    var suffix := 1;
    while slug in existing
      invariant 1 <= suffix <= last + 1
      invariant slug == Attempt(original, suffix - 1)
      invariant forall j :: 0 <= j < suffix - 1 ==> Attempt(original, j) in existing
      decreases last + 1 - suffix
    {
      slug := original + "-" + NatToString(suffix);
      suffix := suffix + 1;
    }
  }
}
