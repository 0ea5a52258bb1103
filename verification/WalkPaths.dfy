/** Emitted paths: which chains of entries they stand for, that they decode, and that they differ. */
module WalkPaths {
  import opened CTypes
  import opened Sequences
  import opened DirectoryParse
  import opened Documents
  import opened Paths
  import opened WalkSpec
  import opened WalkTheorems
  import opened WalkChoices

  // ----- chains of entries

  /** The entries on the way from directory `d` to a document. */
  predicate IsChain(v: View, d: int, c: seq<Entry>)
    decreases |c|
  {
    && |c| > 0
    && v.listing(d).Parsed?
    && c[0] in v.listing(d).entries
    && !IsDot(c[0])
    && (|c| > 1 ==> Recurses(v, c[0]) && IsChain(v, c[0].inode, c[1..]))
  }

  function ChainEmission(v: View, prefix: Text, c: seq<Entry>): Emission
    requires |c| > 0
    decreases |c|
  {
    if |c| == 1 then EmissionOf(v, prefix, c[0])
    else ChainEmission(v, DirPrefix(prefix, c[0]), c[1..])
  }

  /** Every entry of the chain is below the cut of its directory. */
  predicate BelowCuts(v: View, d: int, c: seq<Entry>)
    requires IsChain(v, d, c)
    decreases |c|
  {
    && c[0].fileType < Cut(v, v.listing(d).entries)
    && (|c| > 1 ==> BelowCuts(v, c[0].inode, c[1..]))
  }

  /** No entry of the chain is above the cut of its directory. */
  predicate WithinCuts(v: View, d: int, c: seq<Entry>)
    requires IsChain(v, d, c)
    decreases |c|
  {
    && c[0].fileType <= Cut(v, v.listing(d).entries)
    && (|c| > 1 ==> WithinCuts(v, c[0].inode, c[1..]))
  }

  lemma LogHas(v: View, prefix: Text, r: Run, i: nat, x: Emission)
    requires i < |r.subs| <= |r.order|
    requires x in StepLog(v, prefix, r.order[i], r.subs[i])
    ensures x in RunLog(v, prefix, r)
  {
    InConcat(StepLogs(v, prefix, r.order, r.subs), x);
  }

  lemma LogStep(v: View, prefix: Text, r: Run, x: Emission) returns (i: nat)
    requires x in RunLog(v, prefix, r)
    ensures i < |r.subs| <= |r.order|
    ensures x in StepLog(v, prefix, r.order[i], r.subs[i])
  {
    InConcat(StepLogs(v, prefix, r.order, r.subs), x);
    i :| 0 <= i < |r.subs| && x in StepLogs(v, prefix, r.order, r.subs)[i];
  }

  /** The entry is below the cut, or no blocker at the cut is any other entry. */
  predicate Sure(v: View, es: seq<Entry>, e: Entry)
  {
    e.fileType < Cut(v, es) || forall b :: b in es && Blocks(v, b) && b.fileType == Cut(v, es) ==> b == e
  }

  /** Every entry of the chain is sure to be processed. */
  predicate Certain(v: View, d: int, c: seq<Entry>)
    requires IsChain(v, d, c)
    decreases |c|
  {
    && Sure(v, v.listing(d).entries, c[0])
    && (|c| > 1 ==> Certain(v, c[0].inode, c[1..]))
  }

  lemma {:induction false} BelowIsCertain(v: View, d: int, c: seq<Entry>)
    requires IsChain(v, d, c) && BelowCuts(v, d, c)
    ensures Certain(v, d, c)
    decreases |c|
  {
    if |c| > 1 {
      BelowIsCertain(v, c[0].inode, c[1..]);
    }
  }

  lemma SureProcessed(v: View, d: int, r: Run, e: Entry) returns (i: nat)
    requires ValidRun(v, d, r)
    requires e in v.listing(d).entries && Sure(v, v.listing(d).entries, e)
    ensures i < |r.subs| <= |r.order| && r.order[i] == e
  {
    ProcessedByType(v, d, r);
    if e.fileType < Cut(v, v.listing(d).entries) {
      SameElements(r.order, v.listing(d).entries);
      i :| 0 <= i < |r.order| && r.order[i] == e;
    } else {
      i := |r.subs| - 1;
    }
  }

  /** Completeness: a certain chain is emitted by every run. */
  lemma {:induction false} ChainEmitted(v: View, d: int, prefix: Text, r: Run, c: seq<Entry>)
    requires ValidRun(v, d, r) && IsChain(v, d, c) && Certain(v, d, c)
    ensures ChainEmission(v, prefix, c) in RunLog(v, prefix, r)
    decreases |c|
  {
    var i := SureProcessed(v, d, r, c[0]);
    if |c| > 1 {
      ChainEmitted(v, c[0].inode, DirPrefix(prefix, c[0]), r.subs[i], c[1..]);
    }
    LogHas(v, prefix, r, i, ChainEmission(v, prefix, c));
  }

  /** Soundness: every emission of a step stands for a chain within the cuts that starts at its entry
      and goes on in the run behind it. */
  lemma {:induction false} StepChain(v: View, d: int, prefix: Text, r: Run, i: nat, x: Emission)
    returns (c: seq<Entry>)
    requires ValidRun(v, d, r) && i < |r.subs| <= |r.order|
    requires x in StepLog(v, prefix, r.order[i], r.subs[i])
    ensures IsChain(v, d, c) && WithinCuts(v, d, c)
    ensures ChainEmission(v, prefix, c) == x && r.order[i] == c[0]
    ensures |c| > 1 ==>
      ChainEmission(v, DirPrefix(prefix, c[0]), c[1..]) in RunLog(v, DirPrefix(prefix, c[0]), r.subs[i])
    decreases r
  {
    ProcessedByType(v, d, r);
    var e := r.order[i];
    assert e in v.listing(d).entries;
    if x == EmissionOf(v, prefix, e) {
      c := [e];
    } else {
      var j := LogStep(v, DirPrefix(prefix, e), r.subs[i], x);
      var rest := StepChain(v, e.inode, DirPrefix(prefix, e), r.subs[i], j, x);
      c := [e] + rest;
      assert c[1..] == rest;
    }
  }

  /** The same for a whole run. */
  lemma EmittedChain(v: View, d: int, prefix: Text, r: Run, x: Emission) returns (c: seq<Entry>, i: nat)
    requires ValidRun(v, d, r) && x in RunLog(v, prefix, r)
    ensures IsChain(v, d, c) && WithinCuts(v, d, c)
    ensures ChainEmission(v, prefix, c) == x
    ensures i < |r.subs| <= |r.order| && r.order[i] == c[0]
    ensures |c| > 1 ==>
      ChainEmission(v, DirPrefix(prefix, c[0]), c[1..]) in RunLog(v, DirPrefix(prefix, c[0]), r.subs[i])
  {
    i := LogStep(v, prefix, r, x);
    c := StepChain(v, d, prefix, r, i, x);
  }

  lemma ReplaceSub(v: View, d: int, r: Run, p: nat, sub: Run) returns (t: Run)
    requires ValidRun(v, d, r) && p < |r.subs| <= |r.order|
    requires Recurses(v, r.order[p]) ==> ValidRun(v, r.order[p].inode, sub)
    ensures t == Run(r.order, r.subs[p := sub]) && ValidRun(v, d, t)
  {
    t := Run(r.order, r.subs[p := sub]);
  }

  /** Every chain within the cuts is emitted by some run. */
  lemma {:induction false} SomeRunEmits(v: View, rank: map<int, nat>, d: int, prefix: Text, c: seq<Entry>)
    returns (r: Run)
    requires Ranked(v, rank) && d in rank && IsChain(v, d, c) && WithinCuts(v, d, c)
    ensures ValidRun(v, d, r) && ChainEmission(v, prefix, c) in RunLog(v, prefix, r)
    decreases |c|
  {
    assert InReach(v, v.listing(d).entries, c[0]);
    var order, p := FirstOfItsType(v, v.listing(d).entries, c[0]);
    r := RunExists(v, rank, d, order);
    if |c| > 1 {
      var sub := SomeRunEmits(v, rank, c[0].inode, DirPrefix(prefix, c[0]), c[1..]);
      r := ReplaceSub(v, d, r, p, sub);
    }
    LogHas(v, prefix, r, p, ChainEmission(v, prefix, c));
  }

  /** Over all runs, exactly the chains within the cuts are emitted. */
  lemma EmittedIffWithin(v: View, rank: map<int, nat>, d: int, prefix: Text, x: Emission)
    requires Ranked(v, rank) && d in rank
    ensures (exists r :: ValidRun(v, d, r) && x in RunLog(v, prefix, r))
            <==> exists c :: IsChain(v, d, c) && WithinCuts(v, d, c) && ChainEmission(v, prefix, c) == x
  {
    if exists r :: ValidRun(v, d, r) && x in RunLog(v, prefix, r) {
      var r :| ValidRun(v, d, r) && x in RunLog(v, prefix, r);
      var c, i := EmittedChain(v, d, prefix, r, x);
      assert IsChain(v, d, c) && WithinCuts(v, d, c) && ChainEmission(v, prefix, c) == x;
    }
    if exists c :: IsChain(v, d, c) && WithinCuts(v, d, c) && ChainEmission(v, prefix, c) == x {
      var c :| IsChain(v, d, c) && WithinCuts(v, d, c) && ChainEmission(v, prefix, c) == x;
      var r := SomeRunEmits(v, rank, d, prefix, c);
      assert ValidRun(v, d, r) && x in RunLog(v, prefix, r);
    }
  }

  /** What the sort decides: the emissions outside the guaranteed part stand for chains that touch
      a cut. */
  lemma {:induction false} TieChain(v: View, d: int, prefix: Text, r: Run, x: Emission)
    returns (c: seq<Entry>)
    requires ValidRun(v, d, r) && x in TieLog(v, d, prefix, r)
    ensures IsChain(v, d, c) && WithinCuts(v, d, c) && !BelowCuts(v, d, c)
    ensures ChainEmission(v, prefix, c) == x
    decreases r
  {
    ProcessedByType(v, d, r);
    var i := TieStepOf(v, d, prefix, r, x);
    var e := r.order[i];
    assert InReach(v, v.listing(d).entries, e);
    if x == EmissionOf(v, prefix, e) && e.fileType == Cut(v, v.listing(d).entries) {
      c := [e];
    } else {
      var rest, j;
      if e.fileType == Cut(v, v.listing(d).entries) {
        rest, j := EmittedChain(v, e.inode, DirPrefix(prefix, e), r.subs[i], x);
      } else {
        rest := TieChain(v, e.inode, DirPrefix(prefix, e), r.subs[i], x);
      }
      c := [e] + rest;
      assert c[1..] == rest;
    }
  }

  /** Entries of type 0, 1 and 2 only. */
  predicate LowTypes(c: seq<Entry>)
  {
    forall i :: 0 <= i < |c| ==> c[i].fileType <= 2
  }

  /** With agreeing types every chain of entries of type 0, 1 and 2 is below the cuts. */
  lemma {:induction false} LowTypesBelowCuts(v: View, rank: map<int, nat>, d: int, c: seq<Entry>)
    requires Ranked(v, rank) && TypesAgree(v, rank) && d in rank
    requires IsChain(v, d, c) && LowTypes(c)
    ensures BelowCuts(v, d, c)
    decreases |c|
  {
    CutType(v, rank, d);
    if |c| > 1 {
      assert InReach(v, v.listing(d).entries, c[0]);
      LowTypesBelowCuts(v, rank, c[0].inode, c[1..]);
    }
  }

  // ----- decoding

  function Names(c: seq<Entry>): (names: seq<Text>)
    ensures |names| == |c|
    ensures forall i :: 0 <= i < |c| ==> names[i] == c[i].name
  {
    seq(|c|, i requires 0 <= i < |c| => c[i].name)
  }

  function RelativePath(c: seq<Entry>): Text
    requires |c| > 0
    decreases |c|
  {
    if |c| > 1 then c[0].name + [SLASH] + RelativePath(c[1..])
    else if DirBranch(c[0]) then c[0].name + [SLASH]
    else c[0].name
  }

  /** The document of a chain: its path, the name of its last entry, and for files their text. */
  function ChainDoc(v: View, prefix: Text, c: seq<Entry>): Doc
    requires |c| > 0
  {
    var e := c[|c| - 1];
    Doc(prefix + RelativePath(c), e.name, if DirBranch(e) then [] else v.text(e.inode))
  }

  lemma {:induction false} ChainDocument(v: View, prefix: Text, c: seq<Entry>)
    requires |c| > 0
    ensures ChainEmission(v, prefix, c) == Emission(c[|c| - 1], ChainDoc(v, prefix, c))
    decreases |c|
  {
    if |c| > 1 {
      ChainDocument(v, DirPrefix(prefix, c[0]), c[1..]);
      Assoc(prefix, c[0].name + [SLASH], RelativePath(c[1..]));
      Assoc(prefix, c[0].name, [SLASH]);
    } else {
      Assoc(prefix, c[0].name, [SLASH]);
    }
  }

  predicate LegalChain(c: seq<Entry>)
  {
    forall i :: 0 <= i < |c| ==> LegalName(c[i].name)
  }

  /** A directory path ends in a slash, which splits off an empty part. */
  function EndOf(c: seq<Entry>): seq<Text>
    requires |c| > 0
  {
    if DirBranch(c[|c| - 1]) then [[]] else []
  }

  /** Splitting at slashes gives the names on the way, followed by an empty part exactly for
      directories. */
  lemma {:induction false} PathSplits(c: seq<Entry>)
    requires |c| > 0 && LegalChain(c)
    ensures Split(RelativePath(c)) == Names(c) + EndOf(c)
    decreases |c|
  {
    if |c| > 1 {
      PathSplits(c[1..]);
      FirstPart(c);
      Assoc([c[0].name], Names(c[1..]), EndOf(c));
    } else {
      assert c == [c[0]];
      LastPart(c[0]);
    }
    NamesOf(c);
  }

  lemma NamesOf(c: seq<Entry>)
    requires |c| > 0
    ensures Names(c) == [c[0].name] + Names(c[1..])
  {
  }

  lemma FirstPart(c: seq<Entry>)
    requires |c| > 1 && LegalName(c[0].name)
    ensures Split(RelativePath(c)) == [c[0].name] + Split(RelativePath(c[1..]))
  {
    SplitComponent(c[0].name, RelativePath(c[1..]));
  }

  lemma LastPart(e: Entry)
    requires LegalName(e.name)
    ensures Split(RelativePath([e])) == [e.name] + EndOf([e])
  {
    if DirBranch(e) {
      SplitComponent(e.name, []);
      SplitName([]);
      assert RelativePath([e]) == e.name + [SLASH] + [];
    } else {
      SplitName(e.name);
    }
  }

  /** The names a path stands for, and whether it is a directory path. */
  function Decode(path: Text): (seq<Text>, bool)
  {
    var parts := Split(path);
    var k := |parts| - 1;
    if k >= 0 && parts[k] == [] then (parts[..k], true) else (parts, false)
  }

  /** Every emitted path decodes to its names and kind. */
  lemma PathDecodes(c: seq<Entry>)
    requires |c| > 0 && LegalChain(c)
    ensures Decode(RelativePath(c)) == (Names(c), DirBranch(c[|c| - 1]))
  {
    PathSplits(c);
    var parts, k := Split(RelativePath(c)), |Names(c)|;
    if DirBranch(c[|c| - 1]) {
      assert parts[..k] == Names(c);
    } else {
      assert parts == Names(c) && parts[k - 1] == c[k - 1].name;
    }
  }

  /** Chains within the cuts stay on ranked directories, whose names are legal. */
  lemma {:induction false} ChainLegal(v: View, rank: map<int, nat>, d: int, c: seq<Entry>)
    requires Ranked(v, rank) && LegalNames(v, rank) && d in rank
    requires IsChain(v, d, c) && WithinCuts(v, d, c)
    ensures LegalChain(c)
    decreases |c|
  {
    assert LegalListing(v.listing(d).entries);
    if |c| > 1 {
      assert InReach(v, v.listing(d).entries, c[0]);
      ChainLegal(v, rank, c[0].inode, c[1..]);
      assert forall i :: 1 <= i < |c| ==> c[i] == c[1..][i - 1];
    }
  }

  lemma NameIsKey(es: seq<Entry>, a: Entry, b: Entry)
    requires KeysDistinct(NameOf, es) && a in es && b in es && a.name == b.name
    ensures a == b
  {
    var i :| 0 <= i < |es| && es[i] == a;
    var j :| 0 <= j < |es| && es[j] == b;
    assert NameOf(es[i]) == NameOf(es[j]);
  }

  lemma {:induction false} NamesDetermineChain(v: View, rank: map<int, nat>, d: int, a: seq<Entry>, b: seq<Entry>)
    requires Ranked(v, rank) && LegalNames(v, rank) && d in rank
    requires IsChain(v, d, a) && WithinCuts(v, d, a) && IsChain(v, d, b) && Names(a) == Names(b)
    ensures a == b
    decreases |a|
  {
    assert |a| == |Names(a)| == |Names(b)| == |b|;
    assert a[0].name == Names(a)[0] == Names(b)[0] == b[0].name;
    assert LegalListing(v.listing(d).entries);
    NameIsKey(v.listing(d).entries, a[0], b[0]);
    if |a| > 1 {
      forall i | 0 <= i < |a| - 1
        ensures Names(a[1..])[i] == Names(b[1..])[i]
      {
        assert Names(a)[i + 1] == Names(b)[i + 1];
      }
      assert InReach(v, v.listing(d).entries, a[0]);
      NamesDetermineChain(v, rank, a[0].inode, a[1..], b[1..]);
      assert a == [a[0]] + a[1..] && b == [b[0]] + b[1..];
    }
  }

  /** Distinct chains have distinct paths, whether or not the second is within the cuts. */
  lemma PathsInjective(v: View, rank: map<int, nat>, d: int, prefix: Text, a: seq<Entry>, b: seq<Entry>)
    requires Ranked(v, rank) && LegalNames(v, rank) && d in rank
    requires IsChain(v, d, a) && WithinCuts(v, d, a) && IsChain(v, d, b) && LegalChain(b)
    requires ChainEmission(v, prefix, a).doc.path == ChainEmission(v, prefix, b).doc.path
    ensures a == b
  {
    ChainDocument(v, prefix, a);
    ChainDocument(v, prefix, b);
    ChainLegal(v, rank, d, a);
    var p := prefix + RelativePath(a);
    assert RelativePath(a) == p[|prefix|..] == RelativePath(b);
    PathDecodes(a);
    PathDecodes(b);
    NamesDetermineChain(v, rank, d, a, b);
  }

  // ----- no path is emitted twice

  predicate Distinct(log: seq<Emission>)
  {
    forall i, j :: 0 <= i < j < |log| ==> log[i].doc.path != log[j].doc.path
  }

  lemma {:induction false} ConcatDistinct(ls: seq<seq<Emission>>)
    requires forall i :: 0 <= i < |ls| ==> Distinct(ls[i])
    requires forall i, j, x, y :: 0 <= i < j < |ls| && x in ls[i] && y in ls[j] ==> x.doc.path != y.doc.path
    ensures Distinct(Concat(ls))
  {
    if |ls| > 0 {
      var k := |ls| - 1;
      ConcatDistinct(ls[..k]);
      var front, last := Concat(ls[..k]), ls[k];
      forall a, b | 0 <= a < |front| && 0 <= b < |last|
        ensures front[a].doc.path != last[b].doc.path
      {
        InConcat(ls[..k], front[a]);
        var i :| 0 <= i < k && front[a] in ls[..k][i];
        assert front[a] in ls[i] && last[b] in ls[k];
      }
    }
  }

  /** A path that starts with `prefix` and then a component `name`. */
  predicate Under(prefix: Text, name: Text, path: Text)
  {
    prefix <= path && Head(path[|prefix|..]) == name
  }

  lemma UnderName(prefix: Text, name: Text, rest: Text)
    requires SLASH !in name && (|rest| > 0 ==> rest[0] == SLASH)
    ensures Under(prefix, name, prefix + name + rest)
  {
    HeadOfName(name, rest);
    assert (prefix + name + rest)[|prefix|..] == name + rest;
  }

  /** Paths below a directory lie under its name, and differ from its own. */
  lemma InnerPaths(prefix: Text, name: Text, deeper: Text, path: Text)
    requires SLASH !in name && deeper == prefix + name + [SLASH] && deeper < path
    ensures Under(prefix, name, path) && path != deeper
  {
    var rest := [SLASH] + path[|deeper|..];
    assert path == deeper + path[|deeper|..] == prefix + name + rest;
    UnderName(prefix, name, rest);
  }

  lemma ConsDistinct(x: Emission, log: seq<Emission>)
    requires Distinct(log) && forall y :: y in log ==> y.doc.path != x.doc.path
    ensures Distinct([x] + log)
  {
    assert forall i :: 0 <= i < |log| ==> log[i] in log;
  }

  /** All paths of a directory lie strictly below its prefix, the paths of an entry under its name,
      and no two are the same. */
  lemma {:induction false} StepPaths(v: View, rank: map<int, nat>, prefix: Text, e: Entry, sub: Run)
    requires Ranked(v, rank) && LegalNames(v, rank) && LegalName(e.name)
    requires Recurses(v, e) ==> e.inode in rank && ValidRun(v, e.inode, sub)
    ensures Distinct(StepLog(v, prefix, e, sub))
    ensures forall x :: x in StepLog(v, prefix, e, sub) ==> Under(prefix, e.name, x.doc.path)
    decreases sub, 2
  {
    var deeper := DirPrefix(prefix, e);
    assert prefix + e.name + [] == prefix + e.name;
    UnderName(prefix, e.name, []);
    UnderName(prefix, e.name, [SLASH]);
    if Recurses(v, e) {
      RunPaths(v, rank, e.inode, deeper, sub);
      var log := RunLog(v, deeper, sub);
      forall x | x in log
        ensures Under(prefix, e.name, x.doc.path) && x.doc.path != deeper
      {
        InnerPaths(prefix, e.name, deeper, x.doc.path);
      }
      ConsDistinct(EmissionOf(v, prefix, e), log);
    }
  }

  lemma {:induction false} RunPaths(v: View, rank: map<int, nat>, d: int, prefix: Text, r: Run)
    requires Ranked(v, rank) && LegalNames(v, rank) && d in rank
    requires ValidRun(v, d, r)
    ensures Distinct(RunLog(v, prefix, r))
    ensures forall x :: x in RunLog(v, prefix, r) ==> prefix < x.doc.path
    decreases r, 1
  {
    var es := v.listing(d).entries;
    assert LegalListing(es);
    ProcessedByType(v, d, r);
    var logs := StepLogs(v, prefix, r.order, r.subs);
    forall i | 0 <= i < |logs|
      ensures Distinct(logs[i])
      ensures forall x: Emission :: x in logs[i] ==> Under(prefix, r.order[i].name, x.doc.path)
    {
      assert InReach(v, es, r.order[i]);
      StepPaths(v, rank, prefix, r.order[i], r.subs[i]);
    }
    KeysDistinctPermutes(NameOf, r.order, es);
    forall i, j | 0 <= i < j < |logs|
      ensures r.order[i].name != r.order[j].name
    {
      assert NameOf(r.order[i]) != NameOf(r.order[j]);
    }
    ConcatDistinct(logs);
    forall x | x in RunLog(v, prefix, r)
      ensures prefix < x.doc.path
    {
      var i := LogStep(v, prefix, r, x);
      assert r.order[i] in es && x in logs[i];
      assert Under(prefix, r.order[i].name, x.doc.path);
    }
  }

  lemma {:induction false} DistinctOnce(log: seq<Emission>, x: Emission)
    requires Distinct(log) && x in log
    ensures multiset(log)[x] == 1
  {
    var i :| 0 <= i < |log| && log[i] == x;
    assert log == log[..i] + [x] + log[i + 1..];
    assert x !in log[..i] && x !in log[i + 1..];
  }

  lemma OnlyOfItsPath(log: seq<Emission>, y: Emission)
    requires Distinct(log) && y in log
    ensures forall x :: x in log && x.doc.path == y.doc.path ==> x == y
  {
    var j :| 0 <= j < |log| && log[j] == y;
    forall x | x in log && x.doc.path == y.doc.path
      ensures x == y
    {
      var i :| 0 <= i < |log| && log[i] == x;
      assert i == j;
    }
  }

  // ----- main results

  /** Every certain chain of entries yields exactly one document, in every run, and no other document
      has its path. */
  lemma ExactlyOnce(v: View, rank: map<int, nat>, d: int, prefix: Text, r: Run, c: seq<Entry>)
    requires Ranked(v, rank) && LegalNames(v, rank) && d in rank
    requires ValidRun(v, d, r)
    requires IsChain(v, d, c) && Certain(v, d, c)
    ensures var x := Emission(c[|c| - 1], ChainDoc(v, prefix, c));
      && multiset(RunLog(v, prefix, r))[x] == 1
      && forall y :: y in RunLog(v, prefix, r) && y.doc.path == x.doc.path ==> y == x
  {
    var log, y := RunLog(v, prefix, r), ChainEmission(v, prefix, c);
    ChainEmitted(v, d, prefix, r, c);
    RunPaths(v, rank, d, prefix, r);
    DistinctOnce(log, y);
    ChainDocument(v, prefix, c);
    OnlyOfItsPath(log, y);
  }

  /** With agreeing types that covers every chain of entries of type 0, 1 and 2. */
  lemma LowTypesOnce(v: View, rank: map<int, nat>, d: int, prefix: Text, r: Run, c: seq<Entry>)
    requires Ranked(v, rank) && TypesAgree(v, rank) && LegalNames(v, rank) && d in rank
    requires ValidRun(v, d, r)
    requires IsChain(v, d, c) && LowTypes(c)
    ensures var x := Emission(c[|c| - 1], ChainDoc(v, prefix, c));
      && multiset(RunLog(v, prefix, r))[x] == 1
      && forall y :: y in RunLog(v, prefix, r) && y.doc.path == x.doc.path ==> y == x
  {
    LowTypesBelowCuts(v, rank, d, c);
    BelowIsCertain(v, d, c);
    ExactlyOnce(v, rank, d, prefix, r, c);
  }

  /** A chain that rises above a cut is emitted by no run. */
  lemma AboveCutNever(v: View, rank: map<int, nat>, d: int, prefix: Text, r: Run, c: seq<Entry>)
    requires Ranked(v, rank) && LegalNames(v, rank) && d in rank
    requires ValidRun(v, d, r)
    requires IsChain(v, d, c) && LegalChain(c) && !WithinCuts(v, d, c)
    ensures forall x :: x in RunLog(v, prefix, r) ==> x.doc.path != prefix + RelativePath(c)
  {
    ChainDocument(v, prefix, c);
    forall x | x in RunLog(v, prefix, r)
      ensures x.doc.path != prefix + RelativePath(c)
    {
      var b, i := EmittedChain(v, d, prefix, r, x);
      if x.doc.path == prefix + RelativePath(c) {
        PathsInjective(v, rank, d, prefix, b, c);
      }
    }
  }

  // ----- what every run emits

  lemma NotEmitted(v: View, rank: map<int, nat>, d: int, prefix: Text, r: Run, c: seq<Entry>)
    requires Ranked(v, rank) && LegalNames(v, rank) && d in rank
    requires ValidRun(v, d, r) && IsChain(v, d, c) && LegalChain(c)
    requires forall i :: 0 <= i < |r.subs| <= |r.order| && r.order[i] == c[0] ==>
      |c| > 1
      && ChainEmission(v, DirPrefix(prefix, c[0]), c[1..]) !in RunLog(v, DirPrefix(prefix, c[0]), r.subs[i])
    ensures ChainEmission(v, prefix, c) !in RunLog(v, prefix, r)
  {
    if ChainEmission(v, prefix, c) in RunLog(v, prefix, r) {
      var b, i := EmittedChain(v, d, prefix, r, ChainEmission(v, prefix, c));
      PathsInjective(v, rank, d, prefix, b, c);
    }
  }

  /** If another blocker stands at the cut, some run does not come to an entry at the cut or above. */
  lemma RunPastBlocker(v: View, rank: map<int, nat>, d: int, e: Entry) returns (r: Run)
    requires Ranked(v, rank) && d in rank
    requires !Sure(v, v.listing(d).entries, e)
    ensures ValidRun(v, d, r)
    ensures forall i :: 0 <= i < |r.subs| <= |r.order| ==> r.order[i] != e
  {
    var es := v.listing(d).entries;
    var b :| b in es && Blocks(v, b) && b.fileType == Cut(v, es) && b != e;
    var order, p := FirstOfItsType(v, es, b);
    r := RunExists(v, rank, d, order);
  }

  lemma DistinctPlaces(es: seq<Entry>, order: seq<Entry>, i: nat, j: nat)
    requires KeysDistinct(NameOf, es) && multiset(order) == multiset(es)
    requires i < |order| && j < |order| && order[i] == order[j]
    ensures i == j
  {
    KeysDistinctPermutes(NameOf, order, es);
    assert NameOf(order[i]) == NameOf(order[j]);
  }

  /** A chain that is not certain is left out by some run. */
  lemma {:induction false} SomeRunMisses(v: View, rank: map<int, nat>, d: int, prefix: Text, c: seq<Entry>)
    returns (r: Run)
    requires Ranked(v, rank) && LegalNames(v, rank) && d in rank
    requires IsChain(v, d, c) && LegalChain(c) && !Certain(v, d, c)
    ensures ValidRun(v, d, r) && ChainEmission(v, prefix, c) !in RunLog(v, prefix, r)
    decreases |c|
  {
    var es := v.listing(d).entries;
    if !Sure(v, es, c[0]) {
      r := RunPastBlocker(v, rank, d, c[0]);
    } else {
      assert InReach(v, es, c[0]);
      assert LegalChain(c[1..]);
      var sub := SomeRunMisses(v, rank, c[0].inode, DirPrefix(prefix, c[0]), c[1..]);
      var order, p := FirstOfItsType(v, es, c[0]);
      r := RunExists(v, rank, d, order);
      r := ReplaceSub(v, d, r, p, sub);
      forall i | 0 <= i < |r.subs| <= |r.order| && r.order[i] == c[0]
        ensures r.subs[i] == sub
      {
        assert LegalListing(es);
        DistinctPlaces(es, order, i, p);
      }
    }
    NotEmitted(v, rank, d, prefix, r, c);
  }

  /** The certain chains are exactly those that every run emits. */
  lemma EmittedAlwaysIff(v: View, rank: map<int, nat>, d: int, prefix: Text, c: seq<Entry>)
    requires Ranked(v, rank) && LegalNames(v, rank) && d in rank
    requires IsChain(v, d, c) && LegalChain(c)
    ensures (forall r :: ValidRun(v, d, r) ==> ChainEmission(v, prefix, c) in RunLog(v, prefix, r))
            <==> Certain(v, d, c)
  {
    if Certain(v, d, c) {
      forall r | ValidRun(v, d, r)
        ensures ChainEmission(v, prefix, c) in RunLog(v, prefix, r)
      {
        ChainEmitted(v, d, prefix, r, c);
      }
    } else {
      var r := SomeRunMisses(v, rank, d, prefix, c);
      assert ValidRun(v, d, r) && ChainEmission(v, prefix, c) !in RunLog(v, prefix, r);
    }
  }

  // ----- when an assertion ends the walk

  /** A chain within the cuts that leads to an entry at which an assertion fires. */
  predicate LeadsToAbort(v: View, d: int, c: seq<Entry>)
  {
    IsChain(v, d, c) && WithinCuts(v, d, c) && Fatal(v, c[|c| - 1])
  }

  lemma AbortsAt(v: View, prefix: Text, r: Run, c: seq<Entry>)
    requires |c| > 0 && ChainEmission(v, prefix, c) in RunLog(v, prefix, r) && Fatal(v, c[|c| - 1])
    ensures Aborts(v, RunLog(v, prefix, r))
  {
    ChainDocument(v, prefix, c);
    var log := RunLog(v, prefix, r);
    var i :| 0 <= i < |log| && log[i] == ChainEmission(v, prefix, c);
    assert Fatal(v, log[i].entry);
  }

  lemma AbortingChain(v: View, d: int, prefix: Text, r: Run) returns (c: seq<Entry>)
    requires ValidRun(v, d, r) && Aborts(v, RunLog(v, prefix, r))
    ensures LeadsToAbort(v, d, c)
  {
    var log := RunLog(v, prefix, r);
    var i :| 0 <= i < |log| && Fatal(v, log[i].entry);
    var k;
    c, k := EmittedChain(v, d, prefix, r, log[i]);
    ChainDocument(v, prefix, c);
  }

  /** Some run ends at an assertion exactly when such a chain exists. */
  lemma AbortPossibleIff(v: View, rank: map<int, nat>, d: int, prefix: Text)
    requires Ranked(v, rank) && d in rank
    ensures (exists r :: ValidRun(v, d, r) && Aborts(v, RunLog(v, prefix, r)))
            <==> exists c :: LeadsToAbort(v, d, c)
  {
    if exists r :: ValidRun(v, d, r) && Aborts(v, RunLog(v, prefix, r)) {
      var r :| ValidRun(v, d, r) && Aborts(v, RunLog(v, prefix, r));
      var c := AbortingChain(v, d, prefix, r);
    }
    if exists c :: LeadsToAbort(v, d, c) {
      var c :| LeadsToAbort(v, d, c);
      var r := SomeRunEmits(v, rank, d, prefix, c);
      AbortsAt(v, prefix, r, c);
    }
  }

  /** Every run ends there if the chain is certain. */
  lemma CertainAborts(v: View, d: int, prefix: Text, r: Run, c: seq<Entry>)
    requires ValidRun(v, d, r) && IsChain(v, d, c) && Certain(v, d, c) && Fatal(v, c[|c| - 1])
    ensures Aborts(v, RunLog(v, prefix, r))
  {
    ChainEmitted(v, d, prefix, r, c);
    AbortsAt(v, prefix, r, c);
  }
}
