/** The index behind the walk: an inverted index standing for the Xapian database. */
module Database {
  import opened CTypes
  import opened Substrings
  import opened Documents

  class DB {
    /** The word characters of the tokeniser. */
    const word: byte -> bool
    var records: seq<Record>

    /** The documents added so far. */
    ghost var contents: seq<Doc>

    ghost predicate Valid()
      reads this
    {
      && |records| == |contents|
      && forall i :: 0 <= i < |records| ==> records[i] == RecordOf(word, contents[i])
    }

    constructor (word: byte -> bool)
      ensures this.word == word
      ensures Valid() && contents == []
    {
      this.word := word;
      records := [];
      contents := [];
    }

    /** `DB::add` */
    method Add(path: Text, name: Text, content: Text)
      requires Valid()
      modifies this
      ensures Valid()
      ensures contents == old(contents) + [Doc(path, name, content)]
    {
      var nameTerms: set<Text> := {};
      for i := 0 to |name|
        invariant nameTerms == SuffixTerms(word, name, i)
      {
        nameTerms := nameTerms + Tokens(word, name[i..]);
      }
      records := records + [Record(path, nameTerms, Tokens(word, path), Tokens(word, content))];
      contents := contents + [Doc(path, name, content)];
    }

    /** `DB::search` for a query of one word: a partial query on names and an exact one on contents. */
    method Search(q: Text) returns (names: seq<Text>, texts: seq<Text>)
      requires Valid() && SingleWord(word, q)
      ensures multiset(names) == multiset(PathsWhere(NameHas(q), contents))
      ensures multiset(texts) == multiset(PathsWhere(ContentHas(word, q), contents))
    {
      names, texts := [], [];
      for i := 0 to |records|
        invariant names == PathsWhere(NameHas(q), contents[..i])
        invariant texts == PathsWhere(ContentHas(word, q), contents[..i])
      {
        var r := records[i];
        assert contents[..i + 1][..i] == contents[..i];
        SuffixSearchIsSubstring(word, contents[i].name, q);
        if exists term :: term in r.nameTerms && q <= term {
          names := names + [r.data];
        }
        WordQuery(word, contents[i].content, q);
        if q in r.contentTerms {
          texts := texts + [r.data];
        }
      }
      assert contents[..|records|] == contents;
    }
  }

  /** An exact query for one word finds the texts in which it is a maximal run. */
  lemma WordQuery(word: byte -> bool, t: Text, q: Text)
    ensures q in Tokens(word, t) <==> exists i :: MaximalRun(word, t, q, i)
  {
    TokenIff(word, t, q);
  }
}
