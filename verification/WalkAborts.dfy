/** What a walk adds when an assertion may end it: which runs end there, and which documents come
    before that. */
module WalkAborts {
  import opened CTypes
  import opened Sequences
  import opened DirectoryParse
  import opened WalkSpec
  import opened WalkTheorems
  import opened WalkChoices
  import opened WalkPaths
  import opened WalkLogs

  // ----- aborts and added documents, step by step

  lemma {:induction false} AbortsConcat(v: View, ls: seq<seq<Emission>>)
    ensures Aborts(v, Concat(ls)) <==> exists i :: 0 <= i < |ls| && Aborts(v, ls[i])
  {
    if |ls| > 0 {
      var k := |ls| - 1;
      AbortsConcat(v, ls[..k]);
      AbortsAppend(v, Concat(ls[..k]), ls[k]);
      assert forall i :: 0 <= i < k ==> ls[..k][i] == ls[i];
    }
  }

  /** What is added is part of the log, and never a file at which the program ends. */
  lemma {:induction false} LivedIn(v: View, log: seq<Emission>, x: Emission)
    requires x in Lived(v, log)
    ensures x in log && (DirBranch(x.entry) || !Fatal(v, x.entry))
    decreases |log|
  {
    if x != log[0] {
      LivedIn(v, log[1..], x);
    }
  }

  /** An emission is added in a piece before which no piece ends the program. */
  predicate LivedAt(v: View, ls: seq<seq<Emission>>, i: int, x: Emission)
  {
    0 <= i < |ls| && x in Lived(v, ls[i]) && forall j :: 0 <= j < i ==> !Aborts(v, ls[j])
  }

  lemma LivedAtFront(v: View, ls: seq<seq<Emission>>, i: int, x: Emission)
    requires |ls| > 0
    ensures LivedAt(v, ls[..|ls| - 1], i, x) <==> i < |ls| - 1 && LivedAt(v, ls, i, x)
  {
    assert forall j :: 0 <= j < |ls| - 1 ==> ls[..|ls| - 1][j] == ls[j];
  }

  lemma {:induction false} LivedConcat(v: View, ls: seq<seq<Emission>>, x: Emission)
    ensures x in Lived(v, Concat(ls)) <==> exists i :: LivedAt(v, ls, i, x)
  {
    if |ls| > 0 {
      var k := |ls| - 1;
      LivedConcat(v, ls[..k], x);
      forall i
        ensures LivedAt(v, ls[..k], i, x) <==> i < k && LivedAt(v, ls, i, x)
      {
        LivedAtFront(v, ls, i, x);
      }
      LivedLast(v, ls, x);
    }
  }

  /** The last piece adds only if no piece before it ends the program. */
  lemma LivedLast(v: View, ls: seq<seq<Emission>>, x: Emission)
    requires |ls| > 0
    ensures x in Lived(v, Concat(ls))
            <==> x in Lived(v, Concat(ls[..|ls| - 1])) || LivedAt(v, ls, |ls| - 1, x)
  {
    var k := |ls| - 1;
    var front := Concat(ls[..k]);
    LivedAppend(v, front, ls[k]);
    AbortsConcat(v, ls[..k]);
    assert forall j :: 0 <= j < k ==> ls[..k][j] == ls[j];
    if !Aborts(v, front) {
      LivedWhole(v, front);
    }
  }

  /** A step ends the program at its own entry or in the directory behind it. */
  lemma StepAbortsIff(v: View, prefix: Text, e: Entry, sub: Run)
    ensures Aborts(v, StepLog(v, prefix, e, sub))
            <==> Fatal(v, e) || (Recurses(v, e) && Aborts(v, RunLog(v, DirPrefix(prefix, e), sub)))
  {
    if !IsDot(e) {
      var x := EmissionOf(v, prefix, e);
      assert Fatal(v, e) ==> Fatal(v, [x][0].entry);
      assert Aborts(v, [x]) <==> Fatal(v, e);
      if Recurses(v, e) {
        AbortsAppend(v, [x], RunLog(v, DirPrefix(prefix, e), sub));
      }
    }
  }

  /** A step adds its own document, unless it is a file at which the program ends, and what is added in
      the directory behind it. */
  lemma StepLivedIff(v: View, prefix: Text, e: Entry, sub: Run, x: Emission)
    ensures x in Lived(v, StepLog(v, prefix, e, sub))
            <==> || (!IsDot(e) && x == EmissionOf(v, prefix, e) && (DirBranch(e) || !Fatal(v, e)))
                 || (Recurses(v, e) && x in Lived(v, RunLog(v, DirPrefix(prefix, e), sub)))
  {
    if !IsDot(e) {
      var y, inner := EmissionOf(v, prefix, e), RunLog(v, DirPrefix(prefix, e), sub);
      assert ([y] + inner)[1..] == inner && [y][1..] == [];
    }
  }

  lemma RunAbortsIff(v: View, prefix: Text, r: Run)
    requires |r.subs| <= |r.order|
    ensures Aborts(v, RunLog(v, prefix, r))
            <==> exists i :: 0 <= i < |r.subs| && Aborts(v, StepLog(v, prefix, r.order[i], r.subs[i]))
  {
    var logs := StepLogs(v, prefix, r.order, r.subs);
    AbortsConcat(v, logs);
    assert forall i :: 0 <= i < |r.subs| ==> logs[i] == StepLog(v, prefix, r.order[i], r.subs[i]);
  }

  /** A step of a run adds an emission, and no step before it ends the program. */
  predicate LivedStep(v: View, prefix: Text, r: Run, i: int, x: Emission)
  {
    && 0 <= i < |r.subs| <= |r.order|
    && x in Lived(v, StepLog(v, prefix, r.order[i], r.subs[i]))
    && forall j :: 0 <= j < i ==> !Aborts(v, StepLog(v, prefix, r.order[j], r.subs[j]))
  }

  lemma RunLivedIff(v: View, prefix: Text, r: Run, x: Emission)
    requires |r.subs| <= |r.order|
    ensures x in Lived(v, RunLog(v, prefix, r)) <==> exists i :: LivedStep(v, prefix, r, i, x)
  {
    var logs := StepLogs(v, prefix, r.order, r.subs);
    LivedConcat(v, logs, x);
    forall i
      ensures LivedAt(v, logs, i, x) <==> LivedStep(v, prefix, r, i, x)
    {
    }
  }

  lemma AddedAt(v: View, prefix: Text, r: Run, i: nat, x: Emission)
    requires i < |r.subs| <= |r.order|
    requires forall j :: 0 <= j < i ==> !Aborts(v, StepLog(v, prefix, r.order[j], r.subs[j]))
    requires x in Lived(v, StepLog(v, prefix, r.order[i], r.subs[i]))
    ensures x in Lived(v, RunLog(v, prefix, r))
  {
    RunLivedIff(v, prefix, r, x);
    assert LivedStep(v, prefix, r, i, x);
  }

  // ----- when every run ends at an assertion

  /** Every run over the directory ends the program: at an entry below the cut, or because every
      blocker at the cut does. */
  ghost predicate MustAbort(v: View, rank: map<int, nat>, d: int)
    requires d in rank
    decreases rank[d], 1
  {
    && v.listing(d).Parsed?
    && var es := v.listing(d).entries;
       || (exists e :: e in es && e.fileType < Cut(v, es) && Doomed(v, rank, rank[d], e))
       || (Cut(v, es) < 256
           && forall b :: b in es && Blocks(v, b) && b.fileType == Cut(v, es) ==> Fatal(v, b))
  }

  /** Processing the entry ends the program whatever the sorts do. */
  ghost predicate Doomed(v: View, rank: map<int, nat>, bound: nat, e: Entry)
    decreases bound, 0
  {
    || Fatal(v, e)
    || (Recurses(v, e) && e.inode in rank && rank[e.inode] < bound && MustAbort(v, rank, e.inode))
  }

  lemma {:induction false} MustAbortSound(v: View, rank: map<int, nat>, d: int, prefix: Text, r: Run)
    requires Ranked(v, rank) && d in rank && MustAbort(v, rank, d)
    requires ValidRun(v, d, r)
    ensures Aborts(v, RunLog(v, prefix, r))
    decreases rank[d], 1
  {
    var es := v.listing(d).entries;
    ProcessedByType(v, d, r);
    var i: nat;
    if e :| e in es && e.fileType < Cut(v, es) && Doomed(v, rank, rank[d], e) {
      i := SureProcessed(v, d, r, e);
      DoomedAborts(v, rank, rank[d], prefix, e, r.subs[i]);
    } else {
      i := |r.subs| - 1;
      DoomedAborts(v, rank, rank[d], prefix, r.order[i], r.subs[i]);
    }
    RunAbortsIff(v, prefix, r);
  }

  lemma {:induction false} DoomedAborts(v: View, rank: map<int, nat>, bound: nat, prefix: Text, e: Entry, sub: Run)
    requires Ranked(v, rank) && Doomed(v, rank, bound, e)
    requires Recurses(v, e) ==> ValidRun(v, e.inode, sub)
    ensures Aborts(v, StepLog(v, prefix, e, sub))
    decreases bound, 0
  {
    if !Fatal(v, e) {
      MustAbortSound(v, rank, e.inode, DirPrefix(prefix, e), sub);
    }
    StepAbortsIff(v, prefix, e, sub);
  }

  /** The loop comes to the entry, and some choice of the sorts gets past it. */
  ghost predicate Passable(v: View, rank: map<int, nat>, d: int, e: Entry)
    requires d in rank
  {
    v.listing(d).Parsed? && InReach(v, v.listing(d).entries, e) && !Doomed(v, rank, rank[d], e)
  }

  lemma {:induction false} SafeSub(v: View, rank: map<int, nat>, d: int, prefix: Text, e: Entry)
    returns (sub: Run)
    requires Ranked(v, rank) && d in rank && Passable(v, rank, d, e)
    ensures Recurses(v, e) ==> ValidRun(v, e.inode, sub)
    ensures !Aborts(v, StepLog(v, prefix, e, sub))
    decreases rank[d], 0
  {
    sub := Run([], []);
    if Recurses(v, e) {
      sub := SafeRun(v, rank, e.inode, DirPrefix(prefix, e));
    }
    StepAbortsIff(v, prefix, e, sub);
  }

  lemma {:induction false} SafeSteps(v: View, rank: map<int, nat>, d: int, prefix: Text, order: seq<Entry>, k: nat)
    returns (subs: seq<Run>)
    requires Ranked(v, rank) && d in rank && k <= |order|
    requires forall i :: 0 <= i < k ==> Passable(v, rank, d, order[i])
    ensures |subs| == k
    ensures forall i :: 0 <= i < k && Recurses(v, order[i]) ==> ValidRun(v, order[i].inode, subs[i])
    ensures forall i :: 0 <= i < k ==> !Aborts(v, StepLog(v, prefix, order[i], subs[i]))
    decreases rank[d], 1, k
  {
    subs := [];
    if k > 0 {
      var front := SafeSteps(v, rank, d, prefix, order, k - 1);
      var sub := SafeSub(v, rank, d, prefix, order[k - 1]);
      subs := OneMoreSafe(v, prefix, order, front, sub);
    }
  }

  lemma OneMoreSafe(v: View, prefix: Text, order: seq<Entry>, front: seq<Run>, sub: Run) returns (subs: seq<Run>)
    requires |front| < |order|
    requires forall i :: 0 <= i < |front| && Recurses(v, order[i]) ==> ValidRun(v, order[i].inode, front[i])
    requires forall i :: 0 <= i < |front| ==> !Aborts(v, StepLog(v, prefix, order[i], front[i]))
    requires var e := order[|front|];
      (Recurses(v, e) ==> ValidRun(v, e.inode, sub)) && !Aborts(v, StepLog(v, prefix, e, sub))
    ensures |subs| == |front| + 1
    ensures forall i :: 0 <= i < |subs| && Recurses(v, order[i]) ==> ValidRun(v, order[i].inode, subs[i])
    ensures forall i :: 0 <= i < |subs| ==> !Aborts(v, StepLog(v, prefix, order[i], subs[i]))
  {
    subs := front + [sub];
  }

  /** An order that comes only to entries that can be got past. */
  lemma SafeOrder(v: View, rank: map<int, nat>, d: int) returns (order: seq<Entry>)
    requires Ranked(v, rank) && d in rank && !MustAbort(v, rank, d)
    ensures SortedPermutation(order, v.listing(d).entries)
    ensures forall i :: 0 <= i < EndOfLoop(v, order) ==> Passable(v, rank, d, order[i])
  {
    var es := v.listing(d).entries;
    if Cut(v, es) < 256 {
      var b :| b in es && Blocks(v, b) && b.fileType == Cut(v, es) && !Fatal(v, b);
      var p;
      order, p := FirstOfItsType(v, es, b);
    } else {
      order := SomeOrder(es);
    }
    InListing(order, es);
  }

  lemma {:induction false} SafeRun(v: View, rank: map<int, nat>, d: int, prefix: Text) returns (r: Run)
    requires Ranked(v, rank) && d in rank && !MustAbort(v, rank, d)
    ensures ValidRun(v, d, r) && !Aborts(v, RunLog(v, prefix, r))
    decreases rank[d], 2
  {
    var order := SafeOrder(v, rank, d);
    var subs := SafeSteps(v, rank, d, prefix, order, EndOfLoop(v, order));
    r := Run(order, subs);
    RunAbortsIff(v, prefix, r);
  }

  /** Whether every run ends at an assertion is decided by the image alone. */
  lemma EveryRunAbortsIff(v: View, rank: map<int, nat>, d: int, prefix: Text)
    requires Ranked(v, rank) && d in rank
    ensures (forall r :: ValidRun(v, d, r) ==> Aborts(v, RunLog(v, prefix, r))) <==> MustAbort(v, rank, d)
  {
    if MustAbort(v, rank, d) {
      forall r | ValidRun(v, d, r)
        ensures Aborts(v, RunLog(v, prefix, r))
      {
        MustAbortSound(v, rank, d, prefix, r);
      }
    } else {
      var r := SafeRun(v, rank, d, prefix);
      assert ValidRun(v, d, r) && !Aborts(v, RunLog(v, prefix, r));
    }
  }

  // ----- what some run adds

  /** The loop comes to each entry of the chain, what must be processed before it can be got past, and
      the last entry is no file at which the program ends. */
  ghost predicate MayBeAdded(v: View, rank: map<int, nat>, d: int, c: seq<Entry>)
    requires IsChain(v, d, c) && d in rank
    decreases |c|
  {
    var es := v.listing(d).entries;
    && InReach(v, es, c[0])
    && (forall e :: e in es && e.fileType < c[0].fileType ==> !Doomed(v, rank, rank[d], e))
    && (if |c| == 1 then DirBranch(c[0]) || !Fatal(v, c[0])
        else c[0].inode in rank && MayBeAdded(v, rank, c[0].inode, c[1..]))
  }

  /** Entries of lower type come before a processed one. */
  lemma LowerProcessed(v: View, d: int, r: Run, i: nat, e: Entry) returns (j: nat)
    requires ValidRun(v, d, r) && i < |r.subs| <= |r.order|
    requires e in v.listing(d).entries && e.fileType < r.order[i].fileType
    ensures j < i && r.order[j] == e
  {
    SameElements(r.order, v.listing(d).entries);
    j :| 0 <= j < |r.order| && r.order[j] == e;
    if i <= j {
      TypesOrdered(r.order, i, j);
    }
  }

  lemma {:induction false} AddedChain(v: View, rank: map<int, nat>, d: int, prefix: Text, r: Run, x: Emission)
    returns (c: seq<Entry>)
    requires Ranked(v, rank) && d in rank
    requires ValidRun(v, d, r) && x in Lived(v, RunLog(v, prefix, r))
    ensures IsChain(v, d, c) && MayBeAdded(v, rank, d, c) && ChainEmission(v, prefix, c) == x
    decreases r
  {
    ProcessedByType(v, d, r);
    RunLivedIff(v, prefix, r, x);
    var i :| LivedStep(v, prefix, r, i, x);
    var e := r.order[i];
    assert InReach(v, v.listing(d).entries, e);
    StepLivedIff(v, prefix, e, r.subs[i], x);
    if !IsDot(e) && x == EmissionOf(v, prefix, e) && (DirBranch(e) || !Fatal(v, e)) {
      c := [e];
    } else {
      var rest := AddedChain(v, rank, e.inode, DirPrefix(prefix, e), r.subs[i], x);
      c := [e] + rest;
      assert c[1..] == rest;
    }
    forall f | f in v.listing(d).entries && f.fileType < e.fileType
      ensures !Doomed(v, rank, rank[d], f)
    {
      var j := LowerProcessed(v, d, r, i, f);
      if Doomed(v, rank, rank[d], f) {
        DoomedAborts(v, rank, rank[d], prefix, f, r.subs[j]);
      }
    }
  }

  /** A run that starts with given sub-runs. */
  lemma RunWith(v: View, rank: map<int, nat>, d: int, order: seq<Entry>, subs: seq<Run>) returns (r: Run)
    requires Ranked(v, rank) && d in rank && SortedPermutation(order, v.listing(d).entries)
    requires |subs| <= EndOfLoop(v, order)
    requires forall i :: 0 <= i < |subs| && Recurses(v, order[i]) ==> ValidRun(v, order[i].inode, subs[i])
    ensures ValidRun(v, d, r) && r.order == order && |subs| <= |r.subs| <= |r.order|
    ensures forall i :: 0 <= i < |subs| ==> r.subs[i] == subs[i]
  {
    var full := RunExists(v, rank, d, order);
    r := Splice(v, d, subs, full);
  }

  lemma SomeSub(v: View, rank: map<int, nat>, d: int, e: Entry) returns (sub: Run)
    requires Ranked(v, rank) && d in rank && InReach(v, v.listing(d).entries, e)
    ensures Recurses(v, e) ==> ValidRun(v, e.inode, sub)
  {
    sub := Run([], []);
    if Recurses(v, e) {
      var inner := SomeOrder(v.listing(e.inode).entries);
      sub := RunExists(v, rank, e.inode, inner);
    }
  }

  /** A run that gets past everything of lower type and then has a given run behind the entry. */
  lemma RunSafelyTo(v: View, rank: map<int, nat>, d: int, prefix: Text, e: Entry, sub: Run)
    returns (r: Run, p: nat)
    requires Ranked(v, rank) && d in rank && InReach(v, v.listing(d).entries, e)
    requires forall f :: f in v.listing(d).entries && f.fileType < e.fileType ==> !Doomed(v, rank, rank[d], f)
    requires Recurses(v, e) ==> ValidRun(v, e.inode, sub)
    ensures ValidRun(v, d, r) && p < |r.subs| <= |r.order| && r.order[p] == e && r.subs[p] == sub
    ensures forall j :: 0 <= j < p ==> !Aborts(v, StepLog(v, prefix, r.order[j], r.subs[j]))
  {
    var order;
    order, p := FirstOfItsType(v, v.listing(d).entries, e);
    InListing(order, v.listing(d).entries);
    var front := SafeSteps(v, rank, d, prefix, order, p);
    r := RunWith(v, rank, d, order, front + [sub]);
  }

  lemma {:induction false} SomeRunAdds(v: View, rank: map<int, nat>, d: int, prefix: Text, c: seq<Entry>)
    returns (r: Run)
    requires Ranked(v, rank) && d in rank && IsChain(v, d, c) && MayBeAdded(v, rank, d, c)
    ensures ValidRun(v, d, r) && ChainEmission(v, prefix, c) in Lived(v, RunLog(v, prefix, r))
    decreases |c|
  {
    var sub := SomeSub(v, rank, d, c[0]);
    if |c| > 1 {
      sub := SomeRunAdds(v, rank, c[0].inode, DirPrefix(prefix, c[0]), c[1..]);
    }
    var p;
    r, p := RunSafelyTo(v, rank, d, prefix, c[0], sub);
    StepLivedIff(v, prefix, c[0], sub, ChainEmission(v, prefix, c));
    AddedAt(v, prefix, r, p, ChainEmission(v, prefix, c));
  }

  /** The emission is that of a chain that may be added. */
  ghost predicate Addable(v: View, rank: map<int, nat>, d: int, prefix: Text, x: Emission)
    requires d in rank
  {
    exists c :: IsChain(v, d, c) && MayBeAdded(v, rank, d, c) && ChainEmission(v, prefix, c) == x
  }

  lemma AddedIsAddable(v: View, rank: map<int, nat>, d: int, prefix: Text, r: Run, x: Emission)
    requires Ranked(v, rank) && d in rank
    requires ValidRun(v, d, r) && x in Lived(v, RunLog(v, prefix, r))
    ensures Addable(v, rank, d, prefix, x)
  {
    var c := AddedChain(v, rank, d, prefix, r, x);
  }

  /** Over all runs, exactly the documents of these chains are added. */
  lemma AddedBySomeIff(v: View, rank: map<int, nat>, d: int, prefix: Text, x: Emission)
    requires Ranked(v, rank) && d in rank
    ensures (exists r :: ValidRun(v, d, r) && x in Lived(v, RunLog(v, prefix, r)))
            <==> Addable(v, rank, d, prefix, x)
  {
    if exists r :: ValidRun(v, d, r) && x in Lived(v, RunLog(v, prefix, r)) {
      var r :| ValidRun(v, d, r) && x in Lived(v, RunLog(v, prefix, r));
      AddedIsAddable(v, rank, d, prefix, r, x);
    }
    if Addable(v, rank, d, prefix, x) {
      var c :| IsChain(v, d, c) && MayBeAdded(v, rank, d, c) && ChainEmission(v, prefix, c) == x;
      var r := SomeRunAdds(v, rank, d, prefix, c);
      assert ValidRun(v, d, r) && x in Lived(v, RunLog(v, prefix, r));
    }
  }

  // ----- what every run adds

  /** Some choice of the sorts ends the program at the entry or behind it. */
  ghost predicate CanAbort(v: View, e: Entry)
  {
    Fatal(v, e) || (Recurses(v, e) && exists c :: LeadsToAbort(v, e.inode, c))
  }

  /** Each entry of the chain is sure to be processed, nothing that may come before it can end the
      program, and the last entry is no file at which the program ends. */
  ghost predicate SurelyAdded(v: View, d: int, c: seq<Entry>)
    requires IsChain(v, d, c)
    decreases |c|
  {
    var es := v.listing(d).entries;
    && Sure(v, es, c[0])
    && (forall e :: e in es && e != c[0] && e.fileType <= c[0].fileType ==> !CanAbort(v, e))
    && (if |c| == 1 then DirBranch(c[0]) || !Fatal(v, c[0]) else SurelyAdded(v, c[0].inode, c[1..]))
  }

  lemma CannotAbort(v: View, prefix: Text, e: Entry, sub: Run)
    requires !CanAbort(v, e) && (Recurses(v, e) ==> ValidRun(v, e.inode, sub))
    ensures !Aborts(v, StepLog(v, prefix, e, sub))
  {
    StepAbortsIff(v, prefix, e, sub);
    if Recurses(v, e) && Aborts(v, RunLog(v, DirPrefix(prefix, e), sub)) {
      var c := AbortingChain(v, e.inode, DirPrefix(prefix, e), sub);
    }
  }

  lemma {:induction false} FirstPlace(order: seq<Entry>, e: Entry, i: nat) returns (k: nat)
    requires i < |order| && order[i] == e
    ensures k <= i && order[k] == e && forall j :: 0 <= j < k ==> order[j] != e
    decreases i
  {
    if j :| 0 <= j < i && order[j] == e {
      k := FirstPlace(order, e, j);
    } else {
      k := i;
    }
  }

  lemma {:induction false} ChainAdded(v: View, d: int, prefix: Text, r: Run, c: seq<Entry>)
    requires ValidRun(v, d, r) && IsChain(v, d, c) && SurelyAdded(v, d, c)
    ensures ChainEmission(v, prefix, c) in Lived(v, RunLog(v, prefix, r))
    decreases |c|
  {
    ProcessedByType(v, d, r);
    var at := SureProcessed(v, d, r, c[0]);
    var i := FirstPlace(r.order, c[0], at);
    forall j | 0 <= j < i
      ensures !Aborts(v, StepLog(v, prefix, r.order[j], r.subs[j]))
    {
      TypesOrdered(r.order, j, i);
      CannotAbort(v, prefix, r.order[j], r.subs[j]);
    }
    if |c| > 1 {
      ChainAdded(v, c[0].inode, DirPrefix(prefix, c[0]), r.subs[i], c[1..]);
    }
    var x := ChainEmission(v, prefix, c);
    StepLivedIff(v, prefix, c[0], r.subs[i], x);
    AddedAt(v, prefix, r, i, x);
  }

  /** With legal names a chain can only be added by a step at its first entry. */
  lemma NotAdded(v: View, rank: map<int, nat>, d: int, prefix: Text, r: Run, c: seq<Entry>)
    requires Ranked(v, rank) && LegalNames(v, rank) && d in rank
    requires ValidRun(v, d, r) && |r.subs| <= |r.order| && IsChain(v, d, c) && LegalChain(c)
    requires forall i :: 0 <= i < |r.subs| && r.order[i] == c[0] ==>
      !LivedStep(v, prefix, r, i, ChainEmission(v, prefix, c))
    ensures ChainEmission(v, prefix, c) !in Lived(v, RunLog(v, prefix, r))
  {
    var x := ChainEmission(v, prefix, c);
    RunLivedIff(v, prefix, r, x);
    if x in Lived(v, RunLog(v, prefix, r)) {
      var i :| LivedStep(v, prefix, r, i, x);
      LivedIn(v, StepLog(v, prefix, r.order[i], r.subs[i]), x);
      var b := StepChain(v, d, prefix, r, i, x);
      PathsInjective(v, rank, d, prefix, b, c);
    }
  }

  /** A run that an entry ends before anything else of its type or above. */
  lemma RunEndedBy(v: View, rank: map<int, nat>, d: int, prefix: Text, e: Entry) returns (r: Run, p: nat)
    requires Ranked(v, rank) && d in rank
    requires InReach(v, v.listing(d).entries, e) && CanAbort(v, e)
    ensures ValidRun(v, d, r) && p < |r.subs| <= |r.order| && r.order[p] == e
    ensures forall i :: 0 <= i < p ==> r.order[i].fileType < e.fileType
    ensures Aborts(v, StepLog(v, prefix, e, r.subs[p]))
  {
    var order;
    order, p := FirstOfItsType(v, v.listing(d).entries, e);
    r := RunExists(v, rank, d, order);
    if !Fatal(v, e) {
      var c :| LeadsToAbort(v, e.inode, c);
      var sub := SomeRunEmits(v, rank, e.inode, DirPrefix(prefix, e), c);
      AbortsAt(v, DirPrefix(prefix, e), sub, c);
      r := ReplaceSub(v, d, r, p, sub);
    }
    StepAbortsIff(v, prefix, e, r.subs[p]);
  }

  /** A run over the directory with a given run behind the first entry of the chain. */
  lemma RunThrough(v: View, rank: map<int, nat>, d: int, e: Entry, sub: Run) returns (r: Run)
    requires Ranked(v, rank) && LegalNames(v, rank) && d in rank
    requires InReach(v, v.listing(d).entries, e) && Recurses(v, e) && ValidRun(v, e.inode, sub)
    ensures ValidRun(v, d, r) && |r.subs| <= |r.order|
    ensures forall i :: 0 <= i < |r.subs| && r.order[i] == e ==> r.subs[i] == sub
  {
    var es := v.listing(d).entries;
    var order, p := FirstOfItsType(v, es, e);
    r := RunExists(v, rank, d, order);
    r := ReplaceSub(v, d, r, p, sub);
    forall i | 0 <= i < |r.subs| && r.order[i] == e
      ensures r.subs[i] == sub
    {
      assert LegalListing(es);
      DistinctPlaces(es, order, i, p);
    }
  }

  /** A run without a step at the chain's first entry that an assertion has not ended before. */
  lemma OmittedAtEntry(v: View, rank: map<int, nat>, d: int, prefix: Text, c: seq<Entry>) returns (r: Run)
    requires Ranked(v, rank) && LegalNames(v, rank) && d in rank
    requires IsChain(v, d, c) && LegalChain(c)
    requires var es := v.listing(d).entries;
      || !Sure(v, es, c[0])
      || exists e :: e in es && e != c[0] && e.fileType <= c[0].fileType && CanAbort(v, e)
    ensures ValidRun(v, d, r) && ChainEmission(v, prefix, c) !in Lived(v, RunLog(v, prefix, r))
  {
    var es := v.listing(d).entries;
    if !Sure(v, es, c[0]) {
      r := RunPastBlocker(v, rank, d, c[0]);
      ProcessedByType(v, d, r);
    } else {
      var e :| e in es && e != c[0] && e.fileType <= c[0].fileType && CanAbort(v, e);
      var p;
      SureInReach(v, d, c[0]);
      r, p := RunEndedBy(v, rank, d, prefix, e);
      assert forall i :: 0 <= i < |r.subs| && r.order[i] == c[0] ==> p < i;
    }
    NotAdded(v, rank, d, prefix, r, c);
  }

  /** What a run behind the first entry of a chain leaves out, a run through that entry does. */
  lemma OmittedBehind(v: View, rank: map<int, nat>, d: int, prefix: Text, c: seq<Entry>, sub: Run)
    returns (r: Run)
    requires Ranked(v, rank) && LegalNames(v, rank) && d in rank
    requires IsChain(v, d, c) && LegalChain(c) && |c| > 1 && Sure(v, v.listing(d).entries, c[0])
    requires ValidRun(v, c[0].inode, sub)
    requires ChainEmission(v, prefix, c) !in Lived(v, RunLog(v, DirPrefix(prefix, c[0]), sub))
    ensures ValidRun(v, d, r) && ChainEmission(v, prefix, c) !in Lived(v, RunLog(v, prefix, r))
  {
    SureInReach(v, d, c[0]);
    r := RunThrough(v, rank, d, c[0], sub);
    OwnDiffers(v, prefix, c);
    StepLivedIff(v, prefix, c[0], sub, ChainEmission(v, prefix, c));
    NotAdded(v, rank, d, prefix, r, c);
  }

  /** A chain that is not sure to be added is left out by some run. */
  lemma {:induction false} SomeRunOmits(v: View, rank: map<int, nat>, d: int, prefix: Text, c: seq<Entry>)
    returns (r: Run)
    requires Ranked(v, rank) && LegalNames(v, rank) && d in rank
    requires IsChain(v, d, c) && LegalChain(c) && !SurelyAdded(v, d, c)
    ensures ValidRun(v, d, r) && ChainEmission(v, prefix, c) !in Lived(v, RunLog(v, prefix, r))
    decreases |c|
  {
    var es := v.listing(d).entries;
    if !Sure(v, es, c[0])
       || exists e :: e in es && e != c[0] && e.fileType <= c[0].fileType && CanAbort(v, e) {
      r := OmittedAtEntry(v, rank, d, prefix, c);
    } else if |c| == 1 {
      var order := SomeOrder(es);
      r := RunExists(v, rank, d, order);
      FatalFileNotAdded(v, prefix, r, c[0]);
    } else {
      SureInReach(v, d, c[0]);
      assert LegalChain(c[1..]);
      var sub := SomeRunOmits(v, rank, c[0].inode, DirPrefix(prefix, c[0]), c[1..]);
      r := OmittedBehind(v, rank, d, prefix, c, sub);
    }
  }

  lemma SureInReach(v: View, d: int, e: Entry)
    requires v.listing(d).Parsed? && e in v.listing(d).entries && Sure(v, v.listing(d).entries, e)
    ensures InReach(v, v.listing(d).entries, e)
  {
  }

  lemma FatalFileNotAdded(v: View, prefix: Text, r: Run, e: Entry)
    requires FileBranch(e) && Fatal(v, e)
    ensures EmissionOf(v, prefix, e) !in Lived(v, RunLog(v, prefix, r))
  {
    if EmissionOf(v, prefix, e) in Lived(v, RunLog(v, prefix, r)) {
      LivedIn(v, RunLog(v, prefix, r), EmissionOf(v, prefix, e));
    }
  }

  /** A document behind a directory is not the directory's own. */
  lemma OwnDiffers(v: View, prefix: Text, c: seq<Entry>)
    requires |c| > 1 && LegalChain(c) && Recurses(v, c[0])
    ensures ChainEmission(v, prefix, c) != EmissionOf(v, prefix, c[0])
  {
    ChainDocument(v, prefix, c);
    var own, rest := DirPrefix(prefix, c[0]), RelativePath(c[1..]);
    assert LegalName(c[1].name) && c[1..][0] == c[1];
    assert |rest| > 0;
    Assoc(prefix, c[0].name + [SLASH], rest);
    Assoc(prefix, c[0].name, [SLASH]);
    assert |prefix + RelativePath(c)| > |own|;
  }

  /** With legal names, exactly these chains have their document added by every run. */
  lemma AddedByAllIff(v: View, rank: map<int, nat>, d: int, prefix: Text, c: seq<Entry>)
    requires Ranked(v, rank) && LegalNames(v, rank) && d in rank
    requires IsChain(v, d, c) && LegalChain(c)
    ensures (forall r :: ValidRun(v, d, r) ==> ChainEmission(v, prefix, c) in Lived(v, RunLog(v, prefix, r)))
            <==> SurelyAdded(v, d, c)
  {
    if SurelyAdded(v, d, c) {
      forall r | ValidRun(v, d, r)
        ensures ChainEmission(v, prefix, c) in Lived(v, RunLog(v, prefix, r))
      {
        ChainAdded(v, d, prefix, r, c);
      }
    } else {
      var r := SomeRunOmits(v, rank, d, prefix, c);
      assert ValidRun(v, d, r) && ChainEmission(v, prefix, c) !in Lived(v, RunLog(v, prefix, r));
    }
  }

  lemma {:induction false} LivedPrefix(v: View, log: seq<Emission>)
    ensures Lived(v, log) <= log
  {
    if |log| > 0 && !Fatal(v, log[0].entry) {
      LivedPrefix(v, log[1..]);
      assert log == [log[0]] + log[1..];
    }
  }

  /** Such a chain has exactly one document in the index after every run, aborted or not, and no other
      document has its path. */
  lemma AddedOnce(v: View, rank: map<int, nat>, d: int, prefix: Text, r: Run, c: seq<Entry>)
    requires Ranked(v, rank) && LegalNames(v, rank) && d in rank
    requires ValidRun(v, d, r) && IsChain(v, d, c) && SurelyAdded(v, d, c)
    ensures var x := Emission(c[|c| - 1], ChainDoc(v, prefix, c));
      && multiset(Lived(v, RunLog(v, prefix, r)))[x] == 1
      && forall y :: y in Lived(v, RunLog(v, prefix, r)) && y.doc.path == x.doc.path ==> y == x
  {
    var log := RunLog(v, prefix, r);
    ChainAdded(v, d, prefix, r, c);
    ChainDocument(v, prefix, c);
    RunPaths(v, rank, d, prefix, r);
    LivedPrefix(v, log);
    assert Distinct(Lived(v, log));
    DistinctOnce(Lived(v, log), ChainEmission(v, prefix, c));
    OnlyOfItsPath(Lived(v, log), ChainEmission(v, prefix, c));
  }

  /** Without entries that end the program, what is sure to be added is what every run emits. */
  lemma {:induction false} CertainIsAdded(v: View, d: int, c: seq<Entry>)
    requires IsChain(v, d, c) && Certain(v, d, c)
    requires forall b :: !LeadsToAbort(v, d, b)
    ensures SurelyAdded(v, d, c)
    decreases |c|
  {
    var es := v.listing(d).entries;
    SureInReach(v, d, c[0]);
    forall e | e in es && InReach(v, es, e)
      ensures !CanAbort(v, e)
    {
      NoAbortBehind(v, d, e);
    }
    if |c| > 1 {
      assert !CanAbort(v, c[0]);
      CertainIsAdded(v, c[0].inode, c[1..]);
    }
  }

  lemma NoAbortBehind(v: View, d: int, e: Entry)
    requires v.listing(d).Parsed? && InReach(v, v.listing(d).entries, e)
    requires forall b :: !LeadsToAbort(v, d, b)
    ensures !CanAbort(v, e)
  {
    if Fatal(v, e) {
      assert LeadsToAbort(v, d, [e]);
    }
    if Recurses(v, e) {
      forall b
        ensures !LeadsToAbort(v, e.inode, b)
      {
        if LeadsToAbort(v, e.inode, b) {
          assert ([e] + b)[1..] == b;
          assert LeadsToAbort(v, d, [e] + b);
        }
      }
    }
  }
}
