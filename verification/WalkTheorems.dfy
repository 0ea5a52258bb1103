/** What every run emits, whatever order the sort picks among equal file types. */
module WalkTheorems {
  import opened CTypes
  import opened Sequences
  import opened DirectoryParse
  import opened WalkSpec

  // ----- which entries are processed

  /** The loop over `order` ends after `k` entries: at the first blocker, or at the end. */
  predicate EndsAt(v: View, order: seq<Entry>, k: nat)
  {
    && k <= |order|
    && (forall i :: 0 <= i < k - 1 ==> !Blocks(v, order[i]))
    && (k < |order| ==> 0 < k && Blocks(v, order[k - 1]))
  }

  lemma RunEnds(v: View, d: int, r: Run)
    requires ValidRun(v, d, r)
    ensures SortedPermutation(r.order, v.listing(d).entries) && EndsAt(v, r.order, |r.subs|)
  {
  }

  lemma TypesOrdered(order: seq<Entry>, i: nat, j: nat)
    requires SortedBy(TypeOf, order) && i <= j < |order|
    ensures order[i].fileType <= order[j].fileType
  {
    if i < j {
      assert TypeOf(order[i]) <= TypeOf(order[j]);
    }
  }

  /** Wherever a blocker stands, the processed entries have no higher type. */
  lemma BelowBlocker(v: View, order: seq<Entry>, k: nat, e: Entry)
    requires SortedBy(TypeOf, order) && EndsAt(v, order, k)
    requires e in order && Blocks(v, e)
    ensures 0 < k && Blocks(v, order[k - 1])
    ensures forall i :: 0 <= i < k ==> order[i].fileType <= e.fileType
  {
    var j :| 0 <= j < |order| && order[j] == e;
    assert k - 1 <= j;
    if k == |order| {
      assert k - 1 == j;
    }
    forall i | 0 <= i < k
      ensures order[i].fileType <= e.fileType
    {
      TypesOrdered(order, i, j);
    }
  }

  lemma InListing(order: seq<Entry>, es: seq<Entry>)
    requires multiset(order) == multiset(es)
    ensures forall i :: 0 <= i < |order| ==> order[i] in es
  {
    SameElements(order, es);
    assert forall i :: 0 <= i < |order| ==> order[i] in order;
  }

  lemma CutOfOrder(v: View, es: seq<Entry>, order: seq<Entry>, k: nat)
    requires SortedPermutation(order, es) && EndsAt(v, order, k)
    ensures forall i :: 0 <= i < k ==> order[i].fileType <= Cut(v, es)
    ensures forall i :: k <= i < |order| ==> Cut(v, es) <= order[i].fileType
    ensures (0 < k && Blocks(v, order[k - 1])) <==> Cut(v, es) < 256
    ensures 0 < k && Blocks(v, order[k - 1]) ==> order[k - 1].fileType == Cut(v, es)
  {
    SameElements(order, es);
    assert forall i :: 0 <= i < |order| ==> order[i] in order;
    if Cut(v, es) < 256 {
      var e :| e in es && Blocks(v, e) && e.fileType == Cut(v, es);
      BelowBlocker(v, order, k, e);
      forall i | k <= i < |order|
        ensures Cut(v, es) <= order[i].fileType
      {
        TypesOrdered(order, k - 1, i);
      }
    }
  }

  /** In every run everything below the cut is processed, nothing above it, and of the blockers at
      the cut exactly one: the last entry processed. */
  lemma ProcessedByType(v: View, d: int, r: Run)
    requires ValidRun(v, d, r)
    ensures |r.subs| <= |r.order|
    ensures forall i :: 0 <= i < |r.subs| ==> InReach(v, v.listing(d).entries, r.order[i])
    ensures forall i :: |r.subs| <= i < |r.order| ==> Cut(v, v.listing(d).entries) <= r.order[i].fileType
    ensures Stopped(v, r) <==> Cut(v, v.listing(d).entries) < 256
    ensures Stopped(v, r) ==> r.order[|r.subs| - 1].fileType == Cut(v, v.listing(d).entries)
    ensures forall i :: 0 <= i < |r.subs| - 1 ==> !Blocks(v, r.order[i])
    ensures forall i :: 0 <= i < |r.order| ==> r.order[i] in v.listing(d).entries
  {
    RunEnds(v, d, r);
    InListing(r.order, v.listing(d).entries);
    CutOfOrder(v, v.listing(d).entries, r.order, |r.subs|);
  }

  /** A loop that has met no blocker yet has an entry in reach before it. */
  lemma NextInReach(v: View, es: seq<Entry>, order: seq<Entry>, i: nat)
    requires SortedPermutation(order, es) && i < |order|
    requires forall j :: 0 <= j < i ==> !Blocks(v, order[j])
    ensures InReach(v, es, order[i])
  {
    SameElements(order, es);
    assert order[i] in order;
    if Cut(v, es) < 256 {
      var b :| b in es && Blocks(v, b) && b.fileType == Cut(v, es);
      var j :| 0 <= j < |order| && order[j] == b;
      TypesOrdered(order, i, j);
    }
  }

  /** With agreeing types a blocker in reach has type 3, 6, 7 or any higher type with the same bit. */
  lemma CutType(v: View, rank: map<int, nat>, d: int)
    requires Ranked(v, rank) && TypesAgree(v, rank) && d in rank
    ensures var cut := Cut(v, v.listing(d).entries);
      && (cut < 256 ==> 2 < cut && cut / 2 % 2 == 1)
      && (cut <= 7 ==> cut in {3, 6, 7})
  {
    var es := v.listing(d).entries;
    if Cut(v, es) < 256 {
      var b :| b in es && Blocks(v, b) && b.fileType == Cut(v, es);
      assert InReach(v, es, b);
    }
  }

  // ----- the guaranteed part of a log

  /** What the guaranteed emissions of one directory depend on: its rank, cut and path prefix. */
  datatype Level = Level(v: View, rank: map<int, nat>, bound: nat, cut: int, prefix: Text)

  /** The entry is below the cut and leads into a directory of lower rank. */
  predicate Descends(l: Level, e: Entry)
  {
    e.fileType < l.cut && Recurses(l.v, e) && e.inode in l.rank && l.rank[e.inode] < l.bound
  }

  /** The emissions every run makes for an entry. */
  function CoreStep(l: Level, e: Entry): multiset<Emission>
    decreases l.bound, 0
  {
    if IsDot(e) || l.cut <= e.fileType then multiset{}
    else if Descends(l, e) then
      multiset{EmissionOf(l.v, l.prefix, e)} + Core(l.v, l.rank, e.inode, DirPrefix(l.prefix, e))
    else multiset{EmissionOf(l.v, l.prefix, e)}
  }

  function CoreSteps(l: Level): Entry -> multiset<Emission>
    decreases l.bound, 1
  {
    e => CoreStep(l, e)
  }

  function LevelOf(v: View, rank: map<int, nat>, d: int, prefix: Text): Level
    requires d in rank && v.listing(d).Parsed?
  {
    Level(v, rank, rank[d], Cut(v, v.listing(d).entries), prefix)
  }

  /** The emissions for the entries below the cut, taken in the order of the block and without any
      reference to a sort. */
  function Core(v: View, rank: map<int, nat>, d: int, prefix: Text): multiset<Emission>
    requires d in rank
    decreases rank[d], 2
  {
    match v.listing(d)
    case Parsed(es) => Total(MapSeq(CoreSteps(LevelOf(v, rank, d, prefix)), es))
    case _ => multiset{}
  }

  /** A sum over a listing that counts only entries below the cut can be taken over the processed
      entries of any run instead. */
  lemma SumOverRun<T>(f: Entry -> multiset<T>, v: View, d: int, r: Run)
    requires ValidRun(v, d, r)
    requires forall e: Entry :: Cut(v, v.listing(d).entries) <= e.fileType ==> f(e) == multiset{}
    ensures |r.subs| <= |r.order|
    ensures Total(MapSeq(f, v.listing(d).entries)) == Total(MapSeq(f, r.order[..|r.subs|]))
  {
    ProcessedByType(v, d, r);
    MapPermutes(f, r.order, v.listing(d).entries);
    TotalPermutes(MapSeq(f, r.order), MapSeq(f, v.listing(d).entries));
    TotalFront(MapSeq(f, r.order), |r.subs|);
    assert MapSeq(f, r.order)[..|r.subs|] == MapSeq(f, r.order[..|r.subs|]);
  }

  // ----- the part that depends on the sort

  function TieStep(v: View, cut: int, prefix: Text, e: Entry, sub: Run): seq<Emission>
    decreases sub, 2
  {
    if e.fileType == cut then StepLog(v, prefix, e, sub)
    else if Recurses(v, e) then TieLog(v, e.inode, DirPrefix(prefix, e), sub)
    else []
  }

  function TieSteps(v: View, cut: int, prefix: Text, order: seq<Entry>, subs: seq<Run>)
    : (logs: seq<seq<Emission>>)
    requires |subs| <= |order|
    ensures |logs| == |subs|
    ensures forall i :: 0 <= i < |subs| ==> logs[i] == TieStep(v, cut, prefix, order[i], subs[i])
    decreases subs, 3
  {
    seq(|subs|, i requires 0 <= i < |subs| => TieStep(v, cut, prefix, order[i], subs[i]))
  }

  /** The emissions for the entries at the cuts that the run came to, and for what lies behind
      them. */
  function TieLog(v: View, d: int, prefix: Text, r: Run): seq<Emission>
    decreases r, 1
  {
    if v.listing(d).Parsed? && |r.subs| <= |r.order| then
      Concat(TieSteps(v, Cut(v, v.listing(d).entries), prefix, r.order, r.subs))
    else []
  }

  lemma StepSplits(l: Level, e: Entry, sub: Run)
    requires e.fileType <= l.cut
    requires Recurses(l.v, e) && e.fileType < l.cut ==>
      && Descends(l, e)
      && var deeper := DirPrefix(l.prefix, e);
         multiset(RunLog(l.v, deeper, sub))
         == Core(l.v, l.rank, e.inode, deeper) + multiset(TieLog(l.v, e.inode, deeper, sub))
    ensures multiset(StepLog(l.v, l.prefix, e, sub))
            == CoreStep(l, e) + multiset(TieStep(l.v, l.cut, l.prefix, e, sub))
  {
    if Recurses(l.v, e) && e.fileType < l.cut {
      var x, deeper := EmissionOf(l.v, l.prefix, e), DirPrefix(l.prefix, e);
      ConsSplits(x, RunLog(l.v, deeper, sub), Core(l.v, l.rank, e.inode, deeper),
                 TieLog(l.v, e.inode, deeper, sub));
    }
  }

  lemma ConsSplits<T>(x: T, log: seq<T>, core: multiset<T>, ties: seq<T>)
    requires multiset(log) == core + multiset(ties)
    ensures multiset([x] + log) == multiset{x} + core + multiset(ties)
  {
  }

  lemma {:induction false} StepsSplit(v: View, rank: map<int, nat>, d: int, prefix: Text, r: Run)
    requires Ranked(v, rank) && d in rank && ValidRun(v, d, r)
    ensures |r.subs| <= |r.order|
    ensures multiset(RunLog(v, prefix, r))
            == Total(MapSeq(CoreSteps(LevelOf(v, rank, d, prefix)), r.order[..|r.subs|]))
               + multiset(TieLog(v, d, prefix, r))
    decreases r, 0
  {
    ProcessedByType(v, d, r);
    var l := LevelOf(v, rank, d, prefix);
    var logs, ties := StepLogs(v, prefix, r.order, r.subs), TieSteps(v, l.cut, prefix, r.order, r.subs);
    var cores := MapSeq(CoreSteps(l), r.order[..|r.subs|]);
    forall i | 0 <= i < |r.subs|
      ensures multiset(logs[i]) == cores[i] + multiset(ties[i])
    {
      var e := r.order[i];
      assert InReach(v, v.listing(d).entries, e);
      if Recurses(v, e) {
        LogSplits(v, rank, e.inode, DirPrefix(prefix, e), r.subs[i]);
      }
      StepSplits(l, e, r.subs[i]);
    }
    ConcatSplits(logs, cores, ties);
  }

  /** The exact emissions of any run: the guaranteed part, which no sort can change, and what was
      emitted for entries at the cuts. */
  lemma {:induction false} LogSplits(v: View, rank: map<int, nat>, d: int, prefix: Text, r: Run)
    requires Ranked(v, rank) && d in rank && ValidRun(v, d, r)
    ensures multiset(RunLog(v, prefix, r)) == Core(v, rank, d, prefix) + multiset(TieLog(v, d, prefix, r))
    decreases r, 1
  {
    StepsSplit(v, rank, d, prefix, r);
    SumOverRun(CoreSteps(LevelOf(v, rank, d, prefix)), v, d, r);
  }

  // ----- with agreeing types, one document for each directory cut short

  /** The prefix under which a directory document was added. */
  function ParentOf(x: Emission): Text
  {
    var k := |x.doc.path| - |x.doc.name| - 1;
    if k >= 0 then x.doc.path[..k] else []
  }

  function CutStep(l: Level, e: Entry): multiset<Text>
    decreases l.bound, 0
  {
    if Descends(l, e) then CutDirs(l.v, l.rank, e.inode, DirPrefix(l.prefix, e)) else multiset{}
  }

  function CutSteps(l: Level): Entry -> multiset<Text>
    decreases l.bound, 1
  {
    e => CutStep(l, e)
  }

  /** The prefixes of the directories that end early, without any reference to a sort. */
  function CutDirs(v: View, rank: map<int, nat>, d: int, prefix: Text): multiset<Text>
    requires d in rank
    decreases rank[d], 2
  {
    match v.listing(d)
    case Parsed(es) =>
      Total(MapSeq(CutSteps(LevelOf(v, rank, d, prefix)), es))
      + if Cut(v, es) < 256 then multiset{prefix} else multiset{}
    case _ => multiset{}
  }

  /** Of the entries in reach, exactly the blockers and `.` are at the cut. */
  lemma TiesBlock(v: View, rank: map<int, nat>, d: int, e: Entry)
    requires Ranked(v, rank) && TypesAgree(v, rank) && d in rank
    requires InReach(v, v.listing(d).entries, e) && !IsDot(e)
    ensures Blocks(v, e) <==> e.fileType == Cut(v, v.listing(d).entries)
  {
    CutType(v, rank, d);
  }

  lemma ParentOfEmission(v: View, prefix: Text, e: Entry)
    requires DirBranch(e)
    ensures ParentOf(EmissionOf(v, prefix, e)) == prefix
  {
    var path := DirPrefix(prefix, e);
    assert path[..|prefix|] == prefix;
  }

  /** The parents of what is emitted for an entry at a cut or behind one below it. */
  lemma ParentsOfStep(l: Level, e: Entry, sub: Run)
    requires e.fileType <= l.cut
    requires !IsDot(e) ==> (Blocks(l.v, e) <==> e.fileType == l.cut)
    requires Recurses(l.v, e) ==>
      && Descends(l, e)
      && var deeper := DirPrefix(l.prefix, e);
         multiset(MapSeq(ParentOf, TieLog(l.v, e.inode, deeper, sub)))
         == CutDirs(l.v, l.rank, e.inode, deeper)
    ensures multiset(MapSeq(ParentOf, TieStep(l.v, l.cut, l.prefix, e, sub)))
            == CutStep(l, e) + if Blocks(l.v, e) then multiset{l.prefix} else multiset{}
  {
    if Blocks(l.v, e) {
      ParentOfEmission(l.v, l.prefix, e);
      assert MapSeq(ParentOf, TieStep(l.v, l.cut, l.prefix, e, sub)) == [l.prefix];
    }
  }

  function StopMark(l: Level, e: Entry): multiset<Text>
  {
    CutStep(l, e) + if Blocks(l.v, e) then multiset{l.prefix} else multiset{}
  }

  /** Only the last of the processed entries can be a blocker. */
  lemma OneStop(l: Level, es: seq<Entry>)
    requires forall i :: 0 <= i < |es| - 1 ==> !Blocks(l.v, es[i])
    ensures Total(MapSeq(e => StopMark(l, e), es))
            == Total(MapSeq(CutSteps(l), es))
               + if |es| > 0 && Blocks(l.v, es[|es| - 1]) then multiset{l.prefix} else multiset{}
  {
    if |es| > 0 {
      var k := |es| - 1;
      var marks, cuts := MapSeq(e => StopMark(l, e), es), MapSeq(CutSteps(l), es);
      forall i | 0 <= i < k
        ensures marks[i] == cuts[i]
      {
        assert !Blocks(l.v, es[i]);
      }
      assert marks[..k] == cuts[..k];
    }
  }

  lemma {:induction false} ParentsOfRun(v: View, rank: map<int, nat>, d: int, prefix: Text, r: Run)
    requires Ranked(v, rank) && TypesAgree(v, rank) && d in rank && ValidRun(v, d, r)
    ensures |r.subs| <= |r.order|
    ensures multiset(MapSeq(ParentOf, TieLog(v, d, prefix, r)))
            == Total(MapSeq(e => StopMark(LevelOf(v, rank, d, prefix), e), r.order[..|r.subs|]))
    decreases r, 0
  {
    ProcessedByType(v, d, r);
    var l := LevelOf(v, rank, d, prefix);
    var ties := TieSteps(v, l.cut, prefix, r.order, r.subs);
    var marks := MapSeq(e => StopMark(l, e), r.order[..|r.subs|]);
    forall i | 0 <= i < |r.subs|
      ensures multiset(MapSeq(ParentOf, ties[i])) == marks[i]
    {
      var e := r.order[i];
      assert InReach(v, v.listing(d).entries, e);
      if !IsDot(e) {
        TiesBlock(v, rank, d, e);
      }
      if Recurses(v, e) {
        OneTiePerCut(v, rank, e.inode, DirPrefix(prefix, e), r.subs[i]);
      }
      ParentsOfStep(l, e, r.subs[i]);
    }
    MapConcat(ParentOf, ties, marks);
  }

  /** With agreeing types the part that depends on the sort holds exactly one document for each
      directory that ends early, added directly under its prefix. */
  lemma {:induction false} OneTiePerCut(v: View, rank: map<int, nat>, d: int, prefix: Text, r: Run)
    requires Ranked(v, rank) && TypesAgree(v, rank) && d in rank && ValidRun(v, d, r)
    ensures multiset(MapSeq(ParentOf, TieLog(v, d, prefix, r))) == CutDirs(v, rank, d, prefix)
    ensures |TieLog(v, d, prefix, r)| == |CutDirs(v, rank, d, prefix)|
    decreases r, 1
  {
    var l := LevelOf(v, rank, d, prefix);
    ParentsOfRun(v, rank, d, prefix, r);
    ProcessedByType(v, d, r);
    OneStop(l, r.order[..|r.subs|]);
    SumOverRun(CutSteps(l), v, d, r);
    assert |MapSeq(ParentOf, TieLog(v, d, prefix, r))| == |multiset(MapSeq(ParentOf, TieLog(v, d, prefix, r)))|;
  }

  lemma TieStepOf(v: View, d: int, prefix: Text, r: Run, x: Emission) returns (i: nat)
    requires x in TieLog(v, d, prefix, r)
    ensures v.listing(d).Parsed? && i < |r.subs| <= |r.order|
    ensures x in TieStep(v, Cut(v, v.listing(d).entries), prefix, r.order[i], r.subs[i])
  {
    var ties := TieSteps(v, Cut(v, v.listing(d).entries), prefix, r.order, r.subs);
    InConcat(ties, x);
    i :| 0 <= i < |r.subs| && x in ties[i];
  }

  /** With agreeing types every document that depends on the sort is a blocker's. */
  lemma {:induction false} TiesAreBlockers(v: View, rank: map<int, nat>, d: int, prefix: Text, r: Run, x: Emission)
    requires Ranked(v, rank) && TypesAgree(v, rank) && d in rank
    requires ValidRun(v, d, r) && x in TieLog(v, d, prefix, r)
    ensures Blocks(v, x.entry) && 2 < x.entry.fileType
    decreases r
  {
    ProcessedByType(v, d, r);
    CutType(v, rank, d);
    var i := TieStepOf(v, d, prefix, r, x);
    var e := r.order[i];
    assert InReach(v, v.listing(d).entries, e);
    if e.fileType == Cut(v, v.listing(d).entries) {
      TiesBlock(v, rank, d, e);
    } else {
      TiesAreBlockers(v, rank, e.inode, DirPrefix(prefix, e), r.subs[i], x);
    }
  }
}
