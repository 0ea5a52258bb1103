/** Logs put together piece by piece, as the walk adds documents. */
module WalkLogs {
  import opened CTypes
  import opened Sequences
  import opened DirectoryParse
  import opened Documents
  import opened WalkSpec

  lemma DocsOfAppend(a: seq<Emission>, b: seq<Emission>)
    ensures DocsOf(a + b) == DocsOf(a) + DocsOf(b)
  {
  }

  lemma {:induction false} FileCountAppend(a: seq<Emission>, b: seq<Emission>)
    ensures FileCount(a + b) == FileCount(a) + FileCount(b)
    decreases |b|
  {
    if |b| == 0 {
      assert a + b == a;
    } else {
      var k := |b| - 1;
      FileCountAppend(a, b[..k]);
      assert (a + b)[..|a + b| - 1] == a + b[..k];
    }
  }

  lemma {:induction false} OverrunCountAppend(v: View, a: seq<Emission>, b: seq<Emission>)
    ensures OverrunCount(v, a + b) == OverrunCount(v, a) + OverrunCount(v, b)
    decreases |b|
  {
    if |b| == 0 {
      assert a + b == a;
    } else {
      var k := |b| - 1;
      OverrunCountAppend(v, a, b[..k]);
      assert (a + b)[..|a + b| - 1] == a + b[..k];
    }
  }

  /** Some terminator misses its buffer exactly when a log holds a file that overruns it. */
  lemma {:induction false} OverrunCountIff(v: View, log: seq<Emission>)
    ensures OverrunCount(v, log) > 0 <==> exists x :: x in log && Overruns(v, x)
  {
    if |log| > 0 {
      var k := |log| - 1;
      OverrunCountIff(v, log[..k]);
      assert log == log[..k] + [log[k]];
    }
  }

  lemma {:induction false} LivedAppend(v: View, a: seq<Emission>, b: seq<Emission>)
    ensures Lived(v, a + b) == if Aborts(v, a) then Lived(v, a) else a + Lived(v, b)
  {
    if |a| == 0 {
      assert a + b == b;
    } else if Fatal(v, a[0].entry) {
      assert (a + b)[0] == a[0];
    } else {
      LivedAppend(v, a[1..], b);
      AbortsRest(v, a);
      assert (a + b)[1..] == a[1..] + b;
      assert a == [a[0]] + a[1..];
      Assoc([a[0]], a[1..], Lived(v, b));
    }
  }

  lemma AbortsRest(v: View, log: seq<Emission>)
    requires |log| > 0 && !Fatal(v, log[0].entry)
    ensures Aborts(v, log) <==> Aborts(v, log[1..])
  {
    if Aborts(v, log) {
      var i :| 0 <= i < |log| && Fatal(v, log[i].entry);
      assert log[1..][i - 1] == log[i];
    }
  }

  lemma AbortsAppend(v: View, a: seq<Emission>, b: seq<Emission>)
    ensures Aborts(v, a + b) <==> Aborts(v, a) || Aborts(v, b)
  {
    if Aborts(v, a) {
      var i :| 0 <= i < |a| && Fatal(v, a[i].entry);
      assert (a + b)[i] == a[i];
    }
    if Aborts(v, b) {
      var i :| 0 <= i < |b| && Fatal(v, b[i].entry);
      assert (a + b)[|a| + i] == b[i];
    }
  }

  lemma LivedWhole(v: View, log: seq<Emission>)
    requires !Aborts(v, log)
    ensures Lived(v, log) == log
  {
    LivedAppend(v, log, []);
    assert log + [] == log;
  }

  lemma NextStep(v: View, prefix: Text, order: seq<Entry>, subs: seq<Run>, sub: Run)
    requires |subs| < |order|
    ensures RunLog(v, prefix, Run(order, subs + [sub]))
            == RunLog(v, prefix, Run(order, subs)) + StepLog(v, prefix, order[|subs|], sub)
  {
    ConcatAppend(StepLogs(v, prefix, order, subs), StepLog(v, prefix, order[|subs|], sub));
    assert StepLogs(v, prefix, order, subs + [sub])
        == StepLogs(v, prefix, order, subs) + [StepLog(v, prefix, order[|subs|], sub)];
  }

  // ----- what a step and a run leave behind

  /** The documents of the index, the counter of files, and how many terminators missed their buffer. */
  datatype Effect = Effect(docs: seq<Doc>, files: int, overruns: int)

  /** A log took the index and the counters from `first` to `after`, up to the entry that ended the
      program if there is one; the file counter is of no use after that. */
  ghost predicate Left(v: View, log: seq<Emission>, first: Effect, after: Effect, aborted: bool)
  {
    && aborted == Aborts(v, log)
    && after.docs == first.docs + DocsOf(Lived(v, log))
    && after.overruns == first.overruns + OverrunCount(v, Lived(v, log))
    && (!aborted ==> after.files == first.files + FileCount(log))
  }

  lemma LeftAppend(v: View, a: seq<Emission>, b: seq<Emission>,
                   first: Effect, mid: Effect, after: Effect, aborted: bool)
    requires Left(v, a, first, mid, false) && Left(v, b, mid, after, aborted)
    ensures Left(v, a + b, first, after, aborted)
  {
    LivedWhole(v, a);
    LivedAppend(v, a, b);
    AbortsAppend(v, a, b);
    DocsOfAppend(a, Lived(v, b));
    OverrunCountAppend(v, a, Lived(v, b));
    FileCountAppend(a, b);
    Assoc(first.docs, DocsOf(a), DocsOf(Lived(v, b)));
  }

  /** What would have come after the end of the program does not matter. */
  lemma LeftAborted(v: View, a: seq<Emission>, b: seq<Emission>, first: Effect, after: Effect)
    requires Left(v, a, first, after, true)
    ensures Left(v, a + b, first, after, true)
  {
    LivedAppend(v, a, b);
    AbortsAppend(v, a, b);
  }

  /** One emission that does not end the program. */
  lemma LeftOne(v: View, x: Emission, first: Effect)
    requires !Fatal(v, x.entry)
    ensures Left(v, [x], first,
                 Effect(first.docs + [x.doc], first.files + (if FileBranch(x.entry) then 1 else 0),
                        first.overruns + (if Overruns(v, x) then 1 else 0)), false)
  {
    assert [x][0] == x && [x][1..] == [] && [x][..0] == [];
    assert Lived(v, [x]) == [x];
  }

  /** One emission that does. */
  lemma LeftFatal(v: View, x: Emission, first: Effect, after: Effect)
    requires Fatal(v, x.entry) && after.overruns == first.overruns
    requires after.docs == if DirBranch(x.entry) then first.docs + [x.doc] else first.docs
    ensures Left(v, [x], first, after, true)
  {
    assert [x][0] == x && [x][..0] == [];
    assert Fatal(v, [x][0].entry);
    assert DocsOf([x]) == [x.doc];
  }

  /** Processing an entry took the index and the counters from `first` to `after`. */
  ghost predicate Stepped(v: View, prefix: Text, e: Entry, sub: Run,
                          first: Effect, after: Effect, aborted: bool)
  {
    && (Recurses(v, e) ==> ValidRun(v, e.inode, sub))
    && Left(v, StepLog(v, prefix, e, sub), first, after, aborted)
  }

  /** A run over directory `d` took the index and the counters from `first` to `after`. */
  ghost predicate Walked(v: View, d: int, prefix: Text, run: Run,
                         first: Effect, after: Effect, aborted: bool)
  {
    && ValidRun(v, d, run)
    && Left(v, RunLog(v, prefix, run), first, after, aborted)
  }

  /** An entry of the directory branch adds its own document, then those of the directory. */
  lemma DirectoryStep(v: View, prefix: Text, e: Entry, sub: Run,
                      first: Effect, own: Effect, after: Effect, aborted: bool)
    requires DirBranch(e)
    requires own == first.(docs := first.docs + [Doc(DirPrefix(prefix, e), e.name, [])])
    requires v.isDir(e.inode) ==>
      !v.fatal(e) && Walked(v, e.inode, DirPrefix(prefix, e), sub, own, after, aborted)
    requires !v.isDir(e.inode) ==> after == own && aborted == v.fatal(e)
    ensures Stepped(v, prefix, e, sub, first, after, aborted)
  {
    var x := EmissionOf(v, prefix, e);
    if v.fatal(e) {
      LeftFatal(v, x, first, after);
    } else {
      LeftOne(v, x, first);
      if v.isDir(e.inode) {
        LeftAppend(v, [x], RunLog(v, DirPrefix(prefix, e), sub), first, own, after, aborted);
      }
    }
  }

  /** An entry of the file branch adds one document and counts one file, unless it ends the program. */
  lemma FileStep(v: View, prefix: Text, e: Entry, sub: Run, first: Effect, after: Effect, aborted: bool)
    requires FileBranch(e) && aborted == v.fatal(e)
    requires aborted ==> after.docs == first.docs && after.overruns == first.overruns
    requires !aborted ==>
      after == Effect(first.docs + [Doc(prefix + e.name, e.name, v.text(e.inode))], first.files + 1,
                      first.overruns + if v.overruns(e.inode) then 1 else 0)
    ensures Stepped(v, prefix, e, sub, first, after, aborted)
  {
    var x := EmissionOf(v, prefix, e);
    if aborted {
      LeftFatal(v, x, first, after);
    } else {
      LeftOne(v, x, first);
    }
  }

  /** The entry `.` adds nothing. */
  lemma DotStep(v: View, prefix: Text, e: Entry, sub: Run, first: Effect)
    requires IsDot(e)
    ensures Stepped(v, prefix, e, sub, first, first, false)
  {
  }

  /** The entries processed so far, none of them a blocker. */
  predicate StepsDone(v: View, order: seq<Entry>, subs: seq<Run>)
  {
    && |subs| <= |order|
    && forall i :: 0 <= i < |subs| ==>
         && !Blocks(v, order[i])
         && (Recurses(v, order[i]) ==> ValidRun(v, order[i].inode, subs[i]))
  }

  /** What has been done since the start of the loop, when the index and the counters stood at
      `first`. */
  ghost predicate Progress(v: View, prefix: Text, order: seq<Entry>, subs: seq<Run>, first: Effect, mid: Effect)
  {
    |subs| <= |order| && Left(v, RunLog(v, prefix, Run(order, subs)), first, mid, false)
  }

  lemma NoProgress(v: View, prefix: Text, order: seq<Entry>, first: Effect)
    ensures StepsDone(v, order, []) && Progress(v, prefix, order, [], first, first)
  {
  }

  lemma OneMoreStep(v: View, order: seq<Entry>, subs: seq<Run>, sub: Run)
    requires StepsDone(v, order, subs) && |subs| < |order|
    requires Recurses(v, order[|subs|]) ==> ValidRun(v, order[|subs|].inode, sub)
    ensures !Blocks(v, order[|subs|]) ==> StepsDone(v, order, subs + [sub])
    ensures ValidSteps(v, order, subs + [sub])
  {
  }

  /** One more entry brings the loop forward. */
  lemma Advance(v: View, prefix: Text, order: seq<Entry>, subs: seq<Run>, sub: Run,
                first: Effect, mid: Effect, after: Effect, aborted: bool)
    requires |subs| < |order| && Progress(v, prefix, order, subs, first, mid)
    requires Stepped(v, prefix, order[|subs|], sub, mid, after, aborted)
    ensures Left(v, RunLog(v, prefix, Run(order, subs + [sub])), first, after, aborted)
  {
    NextStep(v, prefix, order, subs, sub);
    LeftAppend(v, RunLog(v, prefix, Run(order, subs)), StepLog(v, prefix, order[|subs|], sub),
               first, mid, after, aborted);
  }

  /** An entry brings the loop forward, or ends a complete run if it is a blocker. */
  lemma LoopStep(v: View, d: int, prefix: Text, order: seq<Entry>, subs: seq<Run>, sub: Run,
                 first: Effect, mid: Effect, after: Effect)
    requires v.listing(d).Parsed? && SortedPermutation(order, v.listing(d).entries)
    requires StepsDone(v, order, subs) && |subs| < |order|
    requires Progress(v, prefix, order, subs, first, mid)
    requires Stepped(v, prefix, order[|subs|], sub, mid, after, false)
    ensures !Blocks(v, order[|subs|]) ==>
      StepsDone(v, order, subs + [sub]) && Progress(v, prefix, order, subs + [sub], first, after)
    ensures Blocks(v, order[|subs|]) ==>
      && Stopped(v, Run(order, subs + [sub]))
      && Walked(v, d, prefix, Run(order, subs + [sub]), first, after, false)
  {
    OneMoreStep(v, order, subs, sub);
    Advance(v, prefix, order, subs, sub, first, mid, after, false);
  }

  /** A loop that goes through leaves a complete run behind. */
  lemma LoopEnd(v: View, d: int, prefix: Text, order: seq<Entry>, subs: seq<Run>, first: Effect, after: Effect)
    requires v.listing(d).Parsed? && SortedPermutation(order, v.listing(d).entries)
    requires StepsDone(v, order, subs) && |subs| == |order|
    requires Progress(v, prefix, order, subs, first, after)
    ensures !Stopped(v, Run(order, subs))
    ensures Walked(v, d, prefix, Run(order, subs), first, after, false)
  {
  }

  lemma MoreSteps(v: View, prefix: Text, order: seq<Entry>, subs: seq<Run>, more: seq<Run>)
    returns (tail: seq<Emission>)
    requires |subs| + |more| <= |order|
    ensures RunLog(v, prefix, Run(order, subs + more)) == RunLog(v, prefix, Run(order, subs)) + tail
  {
    var logs := StepLogs(v, prefix, order, subs + more);
    assert logs[..|subs|] == StepLogs(v, prefix, order, subs);
    assert logs == logs[..|subs|] + logs[|subs|..];
    ConcatJoin(logs[..|subs|], logs[|subs|..]);
    tail := Concat(logs[|subs|..]);
  }

  /** A run may go on with the sub-runs of another over the same order. */
  lemma Splice(v: View, d: int, subs: seq<Run>, full: Run) returns (run: Run)
    requires ValidRun(v, d, full) && |full.subs| <= |full.order|
    requires |subs| <= |full.subs| && ValidSteps(v, full.order, subs)
    requires |subs| < |full.subs| ==> StepsDone(v, full.order, subs)
    ensures run == Run(full.order, subs + full.subs[|subs|..])
    ensures ValidRun(v, d, run)
  {
    run := Run(full.order, subs + full.subs[|subs|..]);
    assert forall i :: 0 <= i < |run.subs| ==> run.subs[i] == if i < |subs| then subs[i] else full.subs[i];
  }

  /** A loop that an assertion ends has done what a complete run would have done so far. */
  lemma LoopAborts(v: View, d: int, prefix: Text, subs: seq<Run>, sub: Run, full: Run,
                   first: Effect, mid: Effect, after: Effect) returns (run: Run)
    requires ValidRun(v, d, full) && |subs| < |full.subs| <= |full.order|
    requires StepsDone(v, full.order, subs) && Progress(v, prefix, full.order, subs, first, mid)
    requires Stepped(v, prefix, full.order[|subs|], sub, mid, after, true)
    ensures Walked(v, d, prefix, run, first, after, true)
  {
    var order, done := full.order, subs + [sub];
    OneMoreStep(v, order, subs, sub);
    Advance(v, prefix, order, subs, sub, first, mid, after, true);
    run := Splice(v, d, done, full);
    var tail := MoreSteps(v, prefix, order, done, full.subs[|done|..]);
    LeftAborted(v, RunLog(v, prefix, Run(order, done)), tail, first, after);
  }
}
