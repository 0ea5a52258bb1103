/** What is handed to the index, the terms it is filed under, and what a search should find. */
module Documents {
  import opened CTypes
  import opened Substrings

  /** The arguments of `DB::add`. */
  datatype Doc = Doc(path: Text, name: Text, content: Text)

  /** A stored document: its data and its terms with prefixes N, P and C. */
  datatype Record = Record(data: Text, nameTerms: set<Text>, pathTerms: set<Text>, contentTerms: set<Text>)

  /** The terms of the first `n` suffixes of a name. */
  function SuffixTerms(word: byte -> bool, name: Text, n: nat): set<Text>
    requires n <= |name|
  {
    if n == 0 then {} else SuffixTerms(word, name, n - 1) + Tokens(word, name[n - 1..])
  }

  function RecordOf(word: byte -> bool, doc: Doc): Record
  {
    Record(doc.path, SuffixTerms(word, doc.name, |doc.name|),
           Tokens(word, doc.path), Tokens(word, doc.content))
  }

  /** A partial query for one word: some term starts with it. */
  ghost predicate PartialMatch(terms: set<Text>, q: Text)
  {
    exists term :: term in terms && q <= term
  }

  lemma {:induction false} SuffixTermOf(word: byte -> bool, name: Text, n: nat, term: Text) returns (i: nat)
    requires n <= |name| && term in SuffixTerms(word, name, n)
    ensures i < n && term in Tokens(word, name[i..])
  {
    if term in Tokens(word, name[n - 1..]) {
      i := n - 1;
    } else {
      i := SuffixTermOf(word, name, n - 1, term);
    }
  }

  lemma {:induction false} SuffixTermIn(word: byte -> bool, name: Text, n: nat, i: nat)
    requires i < n <= |name|
    ensures Tokens(word, name[i..]) <= SuffixTerms(word, name, n)
  {
    if i < n - 1 {
      SuffixTermIn(word, name, n - 1, i);
    }
  }

  lemma TermsAreSubstrings(word: byte -> bool, name: Text, term: Text, q: Text)
    requires term in SuffixTerms(word, name, |name|) && q <= term
    ensures Contains(name, q)
  {
    var i := SuffixTermOf(word, name, |name|, term);
    TokenIsMaximalRun(word, name[i..], term);
    var j :| MaximalRun(word, name[i..], term, j);
    PrefixAt(name[i..], term, q, j);
    ShiftAt(name, q, i, j);
  }

  lemma PrefixAt(t: Text, term: Text, q: Text, j: int)
    requires At(t, term, j) && q <= term
    ensures At(t, q, j)
  {
    assert t[j..j + |term|][..|q|] == t[j..j + |q|];
  }

  lemma SubstringsAreTerms(word: byte -> bool, name: Text, q: Text, i: int)
    requires SingleWord(word, q) && At(name, q, i)
    ensures PartialMatch(SuffixTerms(word, name, |name|), q)
  {
    assert name[i..][..|q|] == name[i..i + |q|];
    FirstToken(word, name[i..], q);
    var term :| term in Tokens(word, name[i..]) && q <= term;
    SuffixTermIn(word, name, |name|, i);
    assert term in SuffixTerms(word, name, |name|);
  }

  /** Indexing all suffixes and asking a partial query is substring search. */
  lemma SuffixSearchIsSubstring(word: byte -> bool, name: Text, q: Text)
    requires SingleWord(word, q)
    ensures PartialMatch(SuffixTerms(word, name, |name|), q) <==> Contains(name, q)
  {
    if PartialMatch(SuffixTerms(word, name, |name|), q) {
      var term :| term in SuffixTerms(word, name, |name|) && q <= term;
      TermsAreSubstrings(word, name, term, q);
    }
    if Contains(name, q) {
      var i :| At(name, q, i);
      SubstringsAreTerms(word, name, q, i);
    }
  }

  // ----- brute-force scans

  /** The paths of the documents that match, in the order of the index. */
  ghost function PathsWhere(matches: Doc -> bool, docs: seq<Doc>): seq<Text>
  {
    if |docs| == 0 then []
    else
      var k := |docs| - 1;
      PathsWhere(matches, docs[..k]) + if matches(docs[k]) then [docs[k].path] else []
  }

  /** The name of a document contains the query. */
  ghost function NameHas(q: Text): Doc -> bool
  {
    (doc: Doc) => Contains(doc.name, q)
  }

  /** The content of a document has the query as a word. */
  ghost function ContentHas(word: byte -> bool, q: Text): Doc -> bool
  {
    (doc: Doc) => exists i :: MaximalRun(word, doc.content, q, i)
  }

  predicate DistinctPaths(docs: seq<Doc>)
  {
    forall i, j :: 0 <= i < j < |docs| ==> docs[i].path != docs[j].path
  }

  lemma {:induction false} WhereHas(matches: Doc -> bool, docs: seq<Doc>, p: Text)
    ensures p in PathsWhere(matches, docs)
            <==> exists i :: 0 <= i < |docs| && docs[i].path == p && matches(docs[i])
  {
    if |docs| > 0 {
      var k := |docs| - 1;
      WhereHas(matches, docs[..k], p);
      forall i | 0 <= i < k && docs[i].path == p && matches(docs[i])
        ensures p in PathsWhere(matches, docs[..k])
      {
        assert docs[..k][i].path == p;
      }
      if p in PathsWhere(matches, docs[..k]) {
        var i :| 0 <= i < k && docs[..k][i].path == p && matches(docs[..k][i]);
        assert docs[i].path == p && matches(docs[i]);
      }
    }
  }

  /** Documents with distinct paths are found at most once. */
  lemma {:induction false} WhereOnce(matches: Doc -> bool, docs: seq<Doc>, p: Text)
    requires DistinctPaths(docs)
    ensures multiset(PathsWhere(matches, docs))[p] <= 1
  {
    if |docs| > 0 {
      var k := |docs| - 1;
      WhereOnce(matches, docs[..k], p);
      if p == docs[k].path {
        WhereHas(matches, docs[..k], p);
        assert p !in PathsWhere(matches, docs[..k]);
      }
    }
  }

  /** A maximal run is a token: the converse of `TokenIsMaximalRun`. */
  lemma {:induction false} MaximalRunIsToken(word: byte -> bool, t: Text, token: Text, i: int)
    requires MaximalRun(word, t, token, i)
    ensures token in Tokens(word, t)
    decreases |t|
  {
    var w := WordLength(word, t);
    assert forall j :: 0 <= j < |token| ==> t[i + j] == token[j];
    if i == 0 {
      assert t[0] == token[0];
      assert w == |token| && t[..w] == token;
    } else {
      var k := if word(t[0]) then w else 1;
      assert word(t[0]) ==> w < |t| && w <= i - 1;
      assert t[k..][i - k..i - k + |token|] == token;
      assert i - k > 0 ==> t[k..][i - k - 1] == t[i - 1];
      assert i + |token| < |t| ==> t[k..][i - k + |token|] == t[i + |token|];
      MaximalRunIsToken(word, t[k..], token, i - k);
    }
  }

  /** The stored terms, in the words of the texts: of every suffix of the name, of the path and of the
      content. */
  lemma RecordTerms(word: byte -> bool, doc: Doc, term: Text)
    ensures RecordOf(word, doc).data == doc.path
    ensures term in RecordOf(word, doc).nameTerms
            <==> exists i, j :: 0 <= i < |doc.name| && MaximalRun(word, doc.name[i..], term, j)
    ensures term in RecordOf(word, doc).pathTerms <==> exists j :: MaximalRun(word, doc.path, term, j)
    ensures term in RecordOf(word, doc).contentTerms <==> exists j :: MaximalRun(word, doc.content, term, j)
  {
    if term in RecordOf(word, doc).nameTerms {
      var i := SuffixTermOf(word, doc.name, |doc.name|, term);
      TokenIff(word, doc.name[i..], term);
    }
    if i, j :| 0 <= i < |doc.name| && MaximalRun(word, doc.name[i..], term, j) {
      TokenIff(word, doc.name[i..], term);
      SuffixTermIn(word, doc.name, |doc.name|, i);
    }
    TokenIff(word, doc.path, term);
    TokenIff(word, doc.content, term);
  }

  /** The tokens of a text are exactly its maximal runs. */
  lemma TokenIff(word: byte -> bool, t: Text, term: Text)
    ensures term in Tokens(word, t) <==> exists j :: MaximalRun(word, t, term, j)
  {
    if term in Tokens(word, t) {
      TokenIsMaximalRun(word, t, term);
    }
    if j :| MaximalRun(word, t, term, j) {
      MaximalRunIsToken(word, t, term, j);
    }
  }
}
