/** The rows of the admin listing and their order: one row per registered
    unique id, sorted by unique id the way Python compares strings (code point
    by code point, a proper prefix first). */
module Listing {

  /** One row of the listing: the unique id, its redirect URL and its final URL. */
  datatype Row = Row(uniqueId: string, redirectUrl: string, finalUrl: string)

  /** Python's `a < b` on strings. */
  predicate LexLess(a: string, b: string)
    ensures LexLess(a, b) ==> a != b
    decreases |a|
  {
    b != [] && (a == [] || a[0] < b[0] || (a[0] == b[0] && LexLess(a[1..], b[1..])))
  }

  /** Two strings are equal or one is below the other. */
  lemma {:induction false} LexLessTotal(a: string, b: string)
    ensures a == b || LexLess(a, b) || LexLess(b, a)
    decreases |a|
  {
    if a != [] && b != [] && a[0] == b[0] {
      LexLessTotal(a[1..], b[1..]);
      if a[1..] == b[1..] {
        assert a == [a[0]] + a[1..] && b == [b[0]] + b[1..];
      }
    }
  }

  /** No string is below itself, and never both ways round. */
  lemma {:induction false} LexLessAsymmetric(a: string, b: string)
    ensures !(LexLess(a, b) && LexLess(b, a))
    decreases |a|
  {
    if a != [] && b != [] && a[0] == b[0] {
      LexLessAsymmetric(a[1..], b[1..]);
    }
  }

  /** The order is transitive, so rows that are sorted pairwise are sorted
      as a whole. */
  lemma {:induction false} LexLessTransitive(a: string, b: string, c: string)
    requires LexLess(a, b) && LexLess(b, c)
    ensures LexLess(a, c)
    decreases |a|
  {
    if a != [] && a[0] == b[0] && b[0] == c[0] {
      LexLessTransitive(a[1..], b[1..], c[1..]);
    }
  }

  /** Sorted by unique id: no row is below the one before it. */
  predicate SortedById(rows: seq<Row>) {
    forall k :: 0 < k < |rows| ==> !LexLess(rows[k].uniqueId, rows[k - 1].uniqueId)
  }

  /** Inserts `row` after every row it is not below (a stable insertion). */
  function InsertRow(sorted: seq<Row>, row: Row): (r: seq<Row>)
    requires SortedById(sorted)
    ensures SortedById(r)
    ensures multiset(r) == multiset(sorted) + multiset{row}
    ensures |r| == |sorted| + 1
    ensures r[0] == row || (sorted != [] && r[0] == sorted[0])
    decreases |sorted|
  {
    if sorted == [] then [row]
    else if LexLess(row.uniqueId, sorted[0].uniqueId) then
      LexLessAsymmetric(row.uniqueId, sorted[0].uniqueId);
      [row] + sorted
    else
      var rest := InsertRow(sorted[1..], row);
      assert sorted == [sorted[0]] + sorted[1..];
      [sorted[0]] + rest
  }

  /** `rows.sort(key=lambda row: row[0])`: the rows in order of unique id,
      a permutation of the input. */
  function SortRows(rows: seq<Row>): (r: seq<Row>)
    ensures SortedById(r)
    ensures multiset(r) == multiset(rows)
    decreases |rows|
  {
    if rows == [] then []
    else
      var init := rows[..|rows| - 1];
      assert rows == init + [rows[|rows| - 1]];
      InsertRow(SortRows(init), rows[|rows| - 1])
  }
}
