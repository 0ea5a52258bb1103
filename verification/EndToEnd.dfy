/** From an image to search results. */
module EndToEnd {
  import opened CTypes
  import opened Geometry
  import opened Image
  import opened DirectoryParse
  import opened Sequences
  import opened Substrings
  import opened Documents
  import opened Highlighting
  import opened WalkSpec
  import opened WalkPaths
  import opened WalkAborts
  import opened WalkLogs
  import opened WalkChoices
  import opened Database
  import opened Walker
  import opened ReadInode

  // ----- what a search finds

  /** A path stands for a chain of entries from the root, none above its directory's cut, whose
      document matches. */
  ghost predicate StandsFor(v: View, p: Text, matches: Doc -> bool, c: seq<Entry>)
  {
    && IsChain(v, ROOT_INODE, c) && WithinCuts(v, ROOT_INODE, c)
    && p == ROOT_PREFIX + RelativePath(c)
    && matches(ChainDoc(v, ROOT_PREFIX, c))
  }

  /** Nothing is found but such paths. */
  ghost predicate FindsOnly(v: View, found: seq<Text>, matches: Doc -> bool)
  {
    forall p :: p in found ==> exists c :: StandsFor(v, p, matches, c)
  }

  /** Nothing is found twice, and a chain of entries that every run emits is found exactly when its
      document matches. */
  ghost predicate FindsAll(v: View, found: seq<Text>, matches: Doc -> bool)
  {
    && (forall p :: multiset(found)[p] <= 1)
    && forall c :: IsChain(v, ROOT_INODE, c) && Certain(v, ROOT_INODE, c) ==>
         (ROOT_PREFIX + RelativePath(c) in found <==> matches(ChainDoc(v, ROOT_PREFIX, c)))
  }

  lemma SearchFindsOnly(v: View, r: Run, matches: Doc -> bool, found: seq<Text>)
    requires ValidRun(v, ROOT_INODE, r)
    requires multiset(found) == multiset(PathsWhere(matches, DocsOf(RunLog(v, ROOT_PREFIX, r))))
    ensures FindsOnly(v, found, matches)
  {
    var log := RunLog(v, ROOT_PREFIX, r);
    SameElements(found, PathsWhere(matches, DocsOf(log)));
    forall p | p in found
      ensures exists c :: StandsFor(v, p, matches, c)
    {
      WhereHas(matches, DocsOf(log), p);
      var i :| 0 <= i < |log| && log[i].doc.path == p && matches(log[i].doc);
      var c, k := EmittedChain(v, ROOT_INODE, ROOT_PREFIX, r, log[i]);
      ChainDocument(v, ROOT_PREFIX, c);
      assert StandsFor(v, p, matches, c);
    }
  }

  lemma FindsChain(v: View, rank: map<int, nat>, r: Run, matches: Doc -> bool, c: seq<Entry>)
    requires Ranked(v, rank) && LegalNames(v, rank) && ROOT_INODE in rank
    requires ValidRun(v, ROOT_INODE, r) && IsChain(v, ROOT_INODE, c) && Certain(v, ROOT_INODE, c)
    ensures ROOT_PREFIX + RelativePath(c) in PathsWhere(matches, DocsOf(RunLog(v, ROOT_PREFIX, r)))
            <==> matches(ChainDoc(v, ROOT_PREFIX, c))
  {
    var log, doc := RunLog(v, ROOT_PREFIX, r), ChainDoc(v, ROOT_PREFIX, c);
    ExactlyOnce(v, rank, ROOT_INODE, ROOT_PREFIX, r, c);
    WhereHas(matches, DocsOf(log), doc.path);
    var x := Emission(c[|c| - 1], doc);
    assert x in multiset(log);
    var i :| 0 <= i < |log| && log[i] == x;
    assert DocsOf(log)[i] == doc;
    forall j | 0 <= j < |log| && log[j].doc.path == doc.path
      ensures log[j].doc == doc
    {
      assert log[j] in log;
    }
  }

  lemma SearchFindsAll(v: View, rank: map<int, nat>, r: Run, matches: Doc -> bool, found: seq<Text>)
    requires Ranked(v, rank) && LegalNames(v, rank) && ROOT_INODE in rank
    requires ValidRun(v, ROOT_INODE, r)
    requires multiset(found) == multiset(PathsWhere(matches, DocsOf(RunLog(v, ROOT_PREFIX, r))))
    ensures FindsAll(v, found, matches)
  {
    var docs := DocsOf(RunLog(v, ROOT_PREFIX, r));
    RunPaths(v, rank, ROOT_INODE, ROOT_PREFIX, r);
    forall p
      ensures multiset(found)[p] <= 1
    {
      WhereOnce(matches, docs, p);
    }
    SameElements(found, PathsWhere(matches, docs));
    forall c | IsChain(v, ROOT_INODE, c) && Certain(v, ROOT_INODE, c)
      ensures ROOT_PREFIX + RelativePath(c) in found <==> matches(ChainDoc(v, ROOT_PREFIX, c))
    {
      FindsChain(v, rank, r, matches, c);
    }
  }

  /** With agreeing types that settles the fate of every chain of entries of type 0, 1 and 2. */
  lemma LowTypesFound(v: View, rank: map<int, nat>, matches: Doc -> bool, found: seq<Text>, c: seq<Entry>)
    requires Ranked(v, rank) && TypesAgree(v, rank) && ROOT_INODE in rank
    requires FindsAll(v, found, matches) && IsChain(v, ROOT_INODE, c) && LowTypes(c)
    ensures multiset(found)[ROOT_PREFIX + RelativePath(c)]
            == if matches(ChainDoc(v, ROOT_PREFIX, c)) then 1 else 0
  {
    LowTypesBelowCuts(v, rank, ROOT_INODE, c);
    BelowIsCertain(v, ROOT_INODE, c);
    var p := ROOT_PREFIX + RelativePath(c);
    assert p in found <==> p in multiset(found);
  }

  /** Indexing an image into an empty database and, unless an assertion ends the program, searching it:
      what is found by name and by content, and how the names are printed. */
  method IndexAndSearch(sb: SuperBlock, dev: Device, db: DB, q: Text, ghost rank: map<int, nat>)
    returns (outcome: Outcome, names: seq<Text>, texts: seq<Text>, ghost run: Run)
    requires db.Valid() && db.contents == [] && SingleWord(db.word, q)
    requires Ready(sb, dev, rank)
    modifies db
    ensures outcome.Indexed? <==>
      && Accepts(sb) && JournalPasses(ImageOf(sb, dev), sb)
      && ViewOf(ImageOf(sb, dev)).isDir(ROOT_INODE)
      && ValidRun(ViewOf(ImageOf(sb, dev)), ROOT_INODE, run)
      && !Aborts(ViewOf(ImageOf(sb, dev)), RunLog(ViewOf(ImageOf(sb, dev)), ROOT_PREFIX, run))
    ensures Accepts(sb) && JournalPasses(ImageOf(sb, dev), sb) && ViewOf(ImageOf(sb, dev)).isDir(ROOT_INODE) ==>
      && ((forall c :: !LeadsToAbort(ViewOf(ImageOf(sb, dev)), ROOT_INODE, c)) ==> outcome.Indexed?)
      && (MustAbort(ViewOf(ImageOf(sb, dev)), rank, ROOT_INODE) ==> outcome.Aborted?)
    ensures !outcome.Indexed? ==> names == [] && texts == []
    ensures Accepts(sb) ==> Ranked(ViewOf(ImageOf(sb, dev)), rank)
    ensures outcome.Indexed? ==>
      && FindsOnly(ViewOf(ImageOf(sb, dev)), names, NameHas(q))
      && FindsOnly(ViewOf(ImageOf(sb, dev)), texts, ContentHas(db.word, q))
    ensures outcome.Indexed? && LegalNames(ViewOf(ImageOf(sb, dev)), rank) ==>
      && FindsAll(ViewOf(ImageOf(sb, dev)), names, NameHas(q))
      && FindsAll(ViewOf(ImageOf(sb, dev)), texts, ContentHas(db.word, q))
      && (q[0] != SLASH ==> forall p :: p in names ==> HighlightedFirst(p, q))
  {
    ghost var overruns;
    outcome, run, overruns := ReadInode.ReadInode(sb, dev, db, rank);
    if Accepts(sb) && JournalPasses(ImageOf(sb, dev), sb) {
      WhenIndexed(ImageOf(sb, dev), rank, run, db.contents, overruns, outcome);
    }
    if outcome.Aborted? {
      return outcome, [], [], run;
    }
    names, texts := db.Search(q);
    if outcome.Indexed? {
      ghost var v := ViewOf(ImageOf(sb, dev));
      LivedWhole(v, RunLog(v, ROOT_PREFIX, run));
      assert db.contents == DocsOf(RunLog(v, ROOT_PREFIX, run));
      Found(v, rank, run, NameHas(q), names);
      Found(v, rank, run, ContentHas(db.word, q), texts);
      if LegalNames(v, rank) && q[0] != SLASH {
        FoundAreHighlighted(v, rank, names, q);
      }
    } else {
      SameElements(names, []);
      SameElements(texts, []);
    }
  }

  /** With the checks passed, indexing comes to its end exactly if the root is a directory that can be
      listed and no assertion ends the run over it. */
  lemma WhenIndexed(img: Image, rank: map<int, nat>, run: Run, docs: seq<Doc>, overruns: int, outcome: Outcome)
    requires RootIndexed(img, run, [], docs, overruns, outcome)
    requires ValidInode(img.consts, ROOT_INODE) && Ranked(ViewOf(img), rank)
    requires ViewOf(img).isDir(ROOT_INODE) ==> ROOT_INODE in rank
    ensures outcome.Indexed? <==>
      && ViewOf(img).isDir(ROOT_INODE) && ValidRun(ViewOf(img), ROOT_INODE, run)
      && !Aborts(ViewOf(img), RunLog(ViewOf(img), ROOT_PREFIX, run))
    ensures ViewOf(img).isDir(ROOT_INODE) ==>
      && ((forall c :: !LeadsToAbort(ViewOf(img), ROOT_INODE, c)) ==> outcome.Indexed?)
      && (MustAbort(ViewOf(img), rank, ROOT_INODE) ==> outcome.Aborted?)
  {
    var v := ViewOf(img);
    if v.isDir(ROOT_INODE) {
      if Aborts(v, RunLog(v, ROOT_PREFIX, run)) {
        var c := AbortingChain(v, ROOT_INODE, ROOT_PREFIX, run);
      }
      if MustAbort(v, rank, ROOT_INODE) {
        MustAbortSound(v, rank, ROOT_INODE, ROOT_PREFIX, run);
      }
    }
  }

  lemma Found(v: View, rank: map<int, nat>, r: Run, matches: Doc -> bool, found: seq<Text>)
    requires Ranked(v, rank) && ROOT_INODE in rank && ValidRun(v, ROOT_INODE, r)
    requires multiset(found) == multiset(PathsWhere(matches, DocsOf(RunLog(v, ROOT_PREFIX, r))))
    ensures FindsOnly(v, found, matches)
    ensures LegalNames(v, rank) ==> FindsAll(v, found, matches)
  {
    SearchFindsOnly(v, r, matches, found);
    if LegalNames(v, rank) {
      SearchFindsAll(v, rank, r, matches, found);
    }
  }

  /** Two walks over the same directory, whatever groups their caches hold and whatever their sorts do,
      add the same documents for entries of type 0, 1 and 2, equally many documents in all, and count
      the same files, unless an assertion ends one of them. */
  method WalkTwice(a: Walker, b: Walker, n: int, prefix: Text, ghost rank: map<int, nat>)
    returns (aborted: bool, ghost first: seq<Emission>, ghost second: seq<Emission>)
    requires a.Valid() && b.Valid() && a.Footprint() !! b.Footprint()
    requires a.cache.img == b.cache.img && WellFormed(a.cache.img, rank) && TypesAgree(a.View(), rank)
    requires ValidInode(a.cache.img.consts, n) && n in rank && NUL !in prefix
    modifies a.Footprint(), b.Footprint()
    ensures exists r :: ValidRun(a.View(), n, r) && first == RunLog(a.View(), prefix, r)
    ensures exists s :: ValidRun(a.View(), n, s) && second == RunLog(a.View(), prefix, s)
    ensures aborted == (Aborts(a.View(), first) || Aborts(a.View(), second))
    ensures a.db.contents == old(a.db.contents) + DocsOf(Lived(a.View(), first))
    ensures b.db.contents == old(b.db.contents) + DocsOf(Lived(a.View(), second))
    ensures forall x: Emission :: x.entry.fileType <= 2 ==> multiset(first)[x] == multiset(second)[x]
    ensures |first| == |second|
    ensures !aborted ==>
      && Lived(a.View(), first) == first && Lived(a.View(), second) == second
      && a.sumFiles - old(a.sumFiles) == b.sumFiles - old(b.sumFiles)
  {
    ghost var v, r, s := a.View(), Run([], []), Run([], []);
    var ret, x, y;
    x, ret, r := a.ReadDirectoryInode(n, prefix, rank);
    y, ret, s := b.ReadDirectoryInode(n, prefix, rank);
    aborted := x || y;
    first, second := RunLog(v, prefix, r), RunLog(v, prefix, s);
    SortIndependent(v, rank, n, prefix, r, s);
    if !aborted {
      LivedWhole(v, first);
      LivedWhole(v, second);
    }
  }

  // ----- highlighting of what was found

  lemma {:induction false} ChainComponent(c: seq<Entry>, prefix: Text)
    requires |c| > 0 && LegalChain(c)
    requires |prefix| > 0 && prefix[|prefix| - 1] == SLASH
    ensures var p := prefix + RelativePath(c);
      var e := c[|c| - 1];
      p[ComponentStart(p)..] == if DirBranch(e) then e.name + [SLASH] else e.name
    decreases |c|
  {
    var name := c[0].name;
    if |c| > 1 {
      assert prefix + RelativePath(c) == (prefix + name + [SLASH]) + RelativePath(c[1..]);
      ChainComponent(c[1..], prefix + name + [SLASH]);
    } else if DirBranch(c[0]) {
      DirComponent(prefix, name);
      assert prefix + RelativePath(c) == prefix + name + [SLASH];
    } else {
      FileComponent(prefix, name);
    }
  }

  /** The path is printed with the query highlighted at its first occurrence in the last
      component. */
  ghost predicate HighlightedFirst(p: Text, q: Text)
  {
    match Highlight(p, q)
    case None => false
    case Some((before, hit, after)) =>
      && before + hit + after == p
      && hit == q
      && ComponentStart(p) <= |before|
      && forall i :: At(p[ComponentStart(p)..], q, i) ==> |before| - ComponentStart(p) <= i
  }

  lemma OccurrenceHighlighted(p: Text, q: Text)
    requires q != [] && q[0] != SLASH
    requires Contains(p[ComponentStart(p)..], q)
    ensures HighlightedFirst(p, q)
  {
    HighlightIff(p, q);
    HighlightExact(p, q);
    SlicesRestorePath(p, q);
  }

  /** A path whose last name contains the query is highlighted correctly. */
  lemma NameHighlighted(c: seq<Entry>, q: Text)
    requires |c| > 0 && LegalChain(c)
    requires q != [] && q[0] != SLASH && Contains(c[|c| - 1].name, q)
    ensures HighlightedFirst(ROOT_PREFIX + RelativePath(c), q)
  {
    ChainComponent(c, ROOT_PREFIX);
    ContainsExtended(c[|c| - 1].name, [SLASH], q);
    OccurrenceHighlighted(ROOT_PREFIX + RelativePath(c), q);
  }

  lemma ContainsExtended(t: Text, rest: Text, q: Text)
    requires Contains(t, q)
    ensures Contains(t + rest, q)
  {
    var i :| At(t, q, i);
    assert (t + rest)[i..i + |q|] == t[i..i + |q|];
    assert At(t + rest, q, i);
  }

  /** Every path found by its name is highlighted correctly. */
  lemma FoundAreHighlighted(v: View, rank: map<int, nat>, names: seq<Text>, q: Text)
    requires Ranked(v, rank) && LegalNames(v, rank) && ROOT_INODE in rank
    requires q != [] && q[0] != SLASH && FindsOnly(v, names, NameHas(q))
    ensures forall p :: p in names ==> HighlightedFirst(p, q)
  {
    forall p | p in names
      ensures HighlightedFirst(p, q)
    {
      var c :| StandsFor(v, p, NameHas(q), c);
      ChainLegal(v, rank, ROOT_INODE, c);
      NameHighlighted(c, q);
    }
  }
}
