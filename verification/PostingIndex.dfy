/** The older index: every substring of a name posted at its own position. */
module PostingIndex {
  import opened CTypes
  import opened Substrings

  datatype Posting = Posting(term: Text, position: nat)

  /** How many substrings start before offset `i` of a name of length `n`. */
  function RowStart(n: nat, i: nat): (p: nat)
    requires i <= n
  {
    if i == 0 then 0 else RowStart(n, i - 1) + (n - i + 1)
  }

  /** The postings of a name: the substring of length `j` at offset `i` stands at position
      `RowStart(n, i) + j`, and positions run from one without gap or repeat. */
  ghost predicate PostsSubstrings(name: Text, postings: seq<Posting>)
  {
    && |postings| == RowStart(|name|, |name|)
    && (forall k :: 0 <= k < |postings| ==> postings[k].position == k + 1)
    && forall i, j :: 0 <= i < |name| && 1 <= j <= |name| - i ==> PostedAt(name, postings, i, j)
  }

  ghost predicate PostedAt(name: Text, postings: seq<Posting>, i: nat, j: nat)
    requires i < |name| && 1 <= j <= |name| - i
  {
    var k := RowStart(|name|, i) + j - 1;
    k < |postings| && postings[k].term == name[i..i + j]
  }

  /** The nested loops of `index`. */
  method IndexName(name: Text) returns (postings: seq<Posting>)
    ensures PostsSubstrings(name, postings)
  {
    postings := [];
    var cnt := 1;
    var i := 0;
    while i < |name|
      invariant 0 <= i <= |name| && |postings| == RowStart(|name|, i) == cnt - 1
      invariant forall k :: 0 <= k < |postings| ==> postings[k].position == k + 1
      invariant forall a, j :: 0 <= a < i && 1 <= j <= |name| - a ==> PostedAt(name, postings, a, j)
    {
      var j := 1;
      while j + i - 1 < |name|
        invariant 1 <= j <= |name| - i + 1 && |postings| == RowStart(|name|, i) + j - 1 == cnt - 1
        invariant forall k :: 0 <= k < |postings| ==> postings[k].position == k + 1
        invariant forall a, b :: 0 <= a < i && 1 <= b <= |name| - a ==> PostedAt(name, postings, a, b)
        invariant forall b :: 1 <= b < j ==> PostedAt(name, postings, i, b)
      {
        ghost var before := postings;
        postings := postings + [Posting(name[i..i + j], cnt)];
        assert forall a, b | 0 <= a < |name| && 1 <= b <= |name| - a && PostedAt(name, before, a, b) ::
          PostedAt(name, postings, a, b);
        assert PostedAt(name, postings, i, j);
        cnt := cnt + 1;
        j := j + 1;
      }
      i := i + 1;
    }
  }

  // ----- positions

  lemma {:induction false} RowStartClosed(n: nat, i: nat)
    requires i <= n
    ensures 2 * RowStart(n, i) == 2 * (i * n) - i * (i - 1)
  {
    if i > 0 {
      RowStartClosed(n, i - 1);
      assert (i - 1) * n == i * n - n;
      assert (i - 1) * (i - 2) == i * (i - 1) - 2 * (i - 1);
    }
  }

  /** The position of a substring, and the number of postings. */
  lemma PositionFormula(n: nat, i: nat, j: nat)
    requires i <= n
    ensures RowStart(n, i) + j == i * n - i * (i - 1) / 2 + j
    ensures RowStart(n, n) == n * (n + 1) / 2
  {
    RowStartClosed(n, i);
    Halves(RowStart(n, i), i * n, i * (i - 1));
    RowStartClosed(n, n);
    LastRow(RowStart(n, n), n);
  }

  lemma LastRow(p: int, n: int)
    requires 2 * p == 2 * (n * n) - n * (n - 1)
    ensures p == n * (n + 1) / 2
  {
    assert n * (n - 1) == n * n - n && n * (n + 1) == n * n + n;
  }

  lemma Halves(p: int, a: int, b: int)
    requires 2 * p == 2 * a - b
    ensures p == a - b / 2
  {
  }

  lemma {:induction false} RowStartGrows(n: nat, a: nat, b: nat)
    requires a < b <= n
    ensures RowStart(n, a) + (n - a) <= RowStart(n, b)
    decreases b
  {
    if a < b - 1 {
      RowStartGrows(n, a, b - 1);
    }
  }

  /** Different substrings, by offset and length, stand at different positions. */
  lemma PositionsUnique(n: nat, i: nat, j: nat, i': nat, j': nat)
    requires i < n && 1 <= j <= n - i && i' < n && 1 <= j' <= n - i'
    requires RowStart(n, i) + j == RowStart(n, i') + j'
    ensures i == i' && j == j'
  {
    if i < i' {
      RowStartGrows(n, i, i');
    } else if i' < i {
      RowStartGrows(n, i', i);
    }
  }

  /** Every position up to the last belongs to a substring. */
  lemma {:induction false} PositionTaken(n: nat, rows: nat, k: nat) returns (i: nat, j: nat)
    requires rows <= n && k < RowStart(n, rows)
    ensures i < rows && 1 <= j <= n - i && k == RowStart(n, i) + j - 1
  {
    if k >= RowStart(n, rows - 1) {
      i, j := rows - 1, k - RowStart(n, rows - 1) + 1;
    } else {
      i, j := PositionTaken(n, rows - 1, k);
    }
  }

  // ----- queries

  ghost predicate Posted(postings: seq<Posting>, term: Text)
  {
    exists k :: 0 <= k < |postings| && postings[k].term == term
  }

  /** The terms are exactly the non-empty substrings. */
  lemma TermsAreSubstrings(name: Text, postings: seq<Posting>, term: Text)
    requires PostsSubstrings(name, postings)
    ensures Posted(postings, term) <==> term != [] && Contains(name, term)
  {
    if Posted(postings, term) {
      var k :| 0 <= k < |postings| && postings[k].term == term;
      var i, j := PositionTaken(|name|, |name|, k);
      assert PostedAt(name, postings, i, j);
      assert At(name, term, i);
    }
    if term != [] && Contains(name, term) {
      var i :| At(name, term, i);
      assert PostedAt(name, postings, i, |term|);
    }
  }

  /** A document matches an OR query when it has one of its terms. */
  ghost predicate MatchesOr(postings: seq<Posting>, query: seq<Text>)
  {
    exists t :: 0 <= t < |query| && Posted(postings, query[t])
  }

  /** An OR query matches exactly the names in which some query term occurs. */
  lemma OrQueryIsScan(name: Text, postings: seq<Posting>, query: seq<Text>)
    requires PostsSubstrings(name, postings)
    ensures MatchesOr(postings, query)
            <==> exists t :: 0 <= t < |query| && query[t] != [] && Contains(name, query[t])
  {
    forall t | 0 <= t < |query|
      ensures Posted(postings, query[t]) <==> query[t] != [] && Contains(name, query[t])
    {
      TermsAreSubstrings(name, postings, query[t]);
    }
  }
}
