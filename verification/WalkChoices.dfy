/** What does and what does not depend on the order the unstable sort picks. */
module WalkChoices {
  import opened CTypes
  import opened Sequences
  import opened DirectoryParse
  import opened WalkSpec
  import opened WalkTheorems

  /** The sort of a listing by `file_type`. */
  method SortEntries(es: seq<Entry>) returns (order: seq<Entry>)
    ensures SortedPermutation(order, es)
  {
    order := Sort(TypeOf, es);
  }

  // ----- runs exist

  /** How many entries the loop goes through. */
  function EndOfLoop(v: View, order: seq<Entry>): (k: nat)
    ensures EndsAt(v, order, k)
  {
    if |order| == 0 then 0
    else if Blocks(v, order[0]) then 1
    else
      var k := EndOfLoop(v, order[1..]);
      assert forall i :: 1 <= i < |order| ==> order[i] == order[1..][i - 1];
      1 + k
  }

  lemma SomeOrder(es: seq<Entry>) returns (order: seq<Entry>)
    ensures SortedPermutation(order, es)
  {
    order := SortBy(TypeOf, es);
  }

  lemma {:induction false} StepsExist(v: View, rank: map<int, nat>, d: int, order: seq<Entry>, k: nat)
    returns (subs: seq<Run>)
    requires Ranked(v, rank) && d in rank && k <= |order|
    requires forall i :: 0 <= i < k ==> InReach(v, v.listing(d).entries, order[i])
    ensures |subs| == k
    ensures forall i :: 0 <= i < k && Recurses(v, order[i]) ==> ValidRun(v, order[i].inode, subs[i])
    decreases rank[d], k
  {
    subs := [];
    if k > 0 {
      var front := StepsExist(v, rank, d, order, k - 1);
      var e := order[k - 1];
      var sub := Run([], []);
      if Recurses(v, e) {
        assert InReach(v, v.listing(d).entries, e);
        var inner := SomeOrder(v.listing(e.inode).entries);
        sub := RunExists(v, rank, e.inode, inner);
      }
      subs := front + [sub];
    }
  }

  /** Every sorted permutation of a listing belongs to some run. */
  lemma {:induction false} RunExists(v: View, rank: map<int, nat>, d: int, order: seq<Entry>) returns (r: Run)
    requires Ranked(v, rank) && d in rank
    requires SortedPermutation(order, v.listing(d).entries)
    ensures ValidRun(v, d, r) && r.order == order && |r.subs| == EndOfLoop(v, order)
    decreases rank[d], |order| + 1
  {
    var es, k := v.listing(d).entries, EndOfLoop(v, order);
    forall i | 0 <= i < k
      ensures InReach(v, es, order[i])
    {
      NextInReach(v, es, order, i);
    }
    var subs := StepsExist(v, rank, d, order, k);
    r := Run(order, subs);
  }

  // ----- which entries are looked up

  lemma ComesTo(v: View, order: seq<Entry>, p: nat)
    requires p < |order| && forall i :: 0 <= i < p ==> !Blocks(v, order[i])
    ensures p < EndOfLoop(v, order)
  {
  }

  lemma Inserted(e: Entry, s: seq<Entry>) returns (p: nat)
    requires SortedBy(TypeOf, s)
    ensures p < |InsertBy(TypeOf, e, s)| && InsertBy(TypeOf, e, s)[p] == e
    ensures forall i :: 0 <= i < p ==> InsertBy(TypeOf, e, s)[i].fileType < e.fileType
  {
    p := InsertPoint(TypeOf, e, s);
    assert forall i :: 0 <= i < p ==> TypeOf(s[i]) < TypeOf(e);
  }

  lemma LowPassed(v: View, es: seq<Entry>, order: seq<Entry>, p: nat)
    requires multiset(order) == multiset(es) && p <= |order|
    requires forall i :: 0 <= i < p ==> order[i].fileType < Cut(v, es)
    ensures forall i :: 0 <= i < p ==> !Blocks(v, order[i])
  {
    SameElements(order, es);
    assert forall i :: 0 <= i < p ==> order[i] in order;
  }

  /** An order that puts an entry before all others of its type. */
  lemma FirstOfItsType(v: View, es: seq<Entry>, e: Entry) returns (order: seq<Entry>, p: nat)
    requires InReach(v, es, e)
    ensures SortedPermutation(order, es) && p < EndOfLoop(v, order) && order[p] == e
    ensures forall i :: 0 <= i < p ==> order[i].fileType < e.fileType
  {
    var at :| 0 <= at < |es| && es[at] == e;
    var others := es[..at] + es[at + 1..];
    RemoveOne(es, at);
    var s := SortBy(TypeOf, others);
    order := InsertBy(TypeOf, e, s);
    p := Inserted(e, s);
    assert multiset(order) == multiset(es) by {
      assert e in multiset(es);
    }
    LowPassed(v, es, order, p);
    ComesTo(v, order, p);
  }

  /** The entries in reach are exactly those that some run processes, and so looks up if no assertion
      ends it before. */
  lemma ProcessedIffInReach(v: View, rank: map<int, nat>, d: int, e: Entry)
    requires Ranked(v, rank) && d in rank
    ensures InReach(v, v.listing(d).entries, e)
            <==> exists r :: ValidRun(v, d, r) && e in r.order[..Min(|r.subs|, |r.order|)]
  {
    var es := v.listing(d).entries;
    if InReach(v, es, e) {
      var order, p := FirstOfItsType(v, es, e);
      var r := RunExists(v, rank, d, order);
      assert r.order[..Min(|r.subs|, |r.order|)][p] == e;
      assert ValidRun(v, d, r) && e in r.order[..Min(|r.subs|, |r.order|)];
    }
    if exists r :: ValidRun(v, d, r) && e in r.order[..Min(|r.subs|, |r.order|)] {
      var r :| ValidRun(v, d, r) && e in r.order[..Min(|r.subs|, |r.order|)];
      ProcessedByType(v, d, r);
    }
  }

  // ----- when the sort cannot hide an entry of type 0, 1 or 2

  predicate LowProcessed(r: Run)
  {
    forall i :: |r.subs| <= i < |r.order| ==> IsDot(r.order[i]) || 2 < r.order[i].fileType
  }

  /** A type-2 entry whose inode is not a directory, if there is one, is the only type-2 entry
      besides `.`. */
  predicate LoneStop(v: View, es: seq<Entry>)
  {
    forall b, e :: b in es && Blocks(v, b) && b.fileType == 2 && e in es && e.fileType == 2 && !IsDot(e) ==>
      e == b && multiset(es)[b] == 1
  }

  lemma LoneStopSuffices(v: View, d: int, r: Run)
    requires ValidRun(v, d, r) && LoneStop(v, v.listing(d).entries)
    ensures LowProcessed(r)
  {
    RunEnds(v, d, r);
    SameElements(r.order, v.listing(d).entries);
    var k := |r.subs|;
    forall i | k <= i < |r.order|
      ensures IsDot(r.order[i]) || 2 < r.order[i].fileType
    {
      var b, e := r.order[k - 1], r.order[i];
      assert b in r.order && e in r.order;
      TypesOrdered(r.order, k - 1, i);
      if e == b {
        TwiceIn(r.order, k - 1, i);
      }
    }
  }

  lemma HidingOrder(v: View, es: seq<Entry>, b: Entry, e: Entry) returns (order: seq<Entry>)
    requires b in es && Blocks(v, b) && b.fileType == 2
    requires e in es && e.fileType == 2 && !IsDot(e)
    requires e != b || multiset(es)[b] != 1
    ensures SortedPermutation(order, es)
    ensures exists i :: EndOfLoop(v, order) <= i < |order| && order[i] == e
  {
    var at :| 0 <= at < |es| && es[at] == b;
    var others := es[..at] + es[at + 1..];
    RemoveOne(es, at);
    assert e in multiset(es) && b in multiset(es);
    assert e in multiset(others);
    order := BlockerFirst(v, others, b, e);
  }

  lemma BlockerFirst(v: View, others: seq<Entry>, b: Entry, e: Entry) returns (order: seq<Entry>)
    requires Blocks(v, b) && e in others && e.fileType == b.fileType
    ensures SortedBy(TypeOf, order) && multiset(order) == multiset{b} + multiset(others)
    ensures exists i :: EndOfLoop(v, order) <= i < |order| && order[i] == e
  {
    var s := SortBy(TypeOf, others);
    order := InsertBy(TypeOf, b, s);
    SameElements(s, others);
    var m :| 0 <= m < |s| && s[m] == e;
    assert InsertPoint(TypeOf, b, s) <= m;
    assert order[m + 1] == e;
    EndAtInsert(v, b, s);
  }

  lemma EndAtInsert(v: View, b: Entry, s: seq<Entry>)
    requires SortedBy(TypeOf, s) && Blocks(v, b)
    ensures EndOfLoop(v, InsertBy(TypeOf, b, s)) <= InsertPoint(TypeOf, b, s) + 1
  {
    var order, p := InsertBy(TypeOf, b, s), InsertPoint(TypeOf, b, s);
    var k := EndOfLoop(v, order);
    assert order[p] == b;
    assert forall i :: 0 <= i < k - 1 ==> !Blocks(v, order[i]);
  }

  /** Exactly when no type-2 blocker has a rival does every run process all entries of type 0, 1
      and 2. */
  lemma LowProcessedIff(v: View, rank: map<int, nat>, d: int)
    requires Ranked(v, rank) && d in rank
    ensures (forall r :: ValidRun(v, d, r) ==> LowProcessed(r)) <==> LoneStop(v, v.listing(d).entries)
  {
    var es := v.listing(d).entries;
    if LoneStop(v, es) {
      forall r | ValidRun(v, d, r)
        ensures LowProcessed(r)
      {
        LoneStopSuffices(v, d, r);
      }
    } else {
      var b, e :| b in es && Blocks(v, b) && b.fileType == 2 && e in es && e.fileType == 2 && !IsDot(e)
                  && !(e == b && multiset(es)[b] == 1);
      var order := HidingOrder(v, es, b, e);
      var r := RunExists(v, rank, d, order);
      assert ValidRun(v, d, r) && !LowProcessed(r);
    }
  }

  /** With agreeing types the condition holds. */
  lemma AgreementLeavesNoStop(v: View, rank: map<int, nat>, d: int)
    requires Ranked(v, rank) && TypesAgree(v, rank) && d in rank
    ensures LoneStop(v, v.listing(d).entries)
    ensures forall r :: ValidRun(v, d, r) ==> LowProcessed(r)
  {
    assert LoneStop(v, v.listing(d).entries);
    LowProcessedIff(v, rank, d);
  }

  // ----- what two runs share

  lemma {:induction false} FileCountRemove(log: seq<Emission>, i: nat)
    requires i < |log|
    ensures FileCount(log)
            == FileCount(log[..i] + log[i + 1..]) + if FileBranch(log[i].entry) then 1 else 0
    decreases |log|
  {
    var k := |log| - 1;
    var front := log[..k];
    if i == k {
      assert log[..i] + log[i + 1..] == front;
    } else {
      FileCountRemove(front, i);
      var rest := log[..i] + log[i + 1..];
      assert rest[..|rest| - 1] == front[..i] + front[i + 1..];
      assert rest[|rest| - 1] == log[k];
    }
  }

  predicate SameFiles(a: multiset<Emission>, b: multiset<Emission>)
  {
    forall x :: x in a + b && FileBranch(x.entry) ==> a[x] == b[x]
  }

  lemma DropFromBoth(a: multiset<Emission>, b: multiset<Emission>, x: Emission)
    requires SameFiles(a, b) && x in a && x in b
    ensures SameFiles(a - multiset{x}, b - multiset{x})
  {
    forall y | y in (a - multiset{x}) + (b - multiset{x}) && FileBranch(y.entry)
      ensures (a - multiset{x})[y] == (b - multiset{x})[y]
    {
      assert y in a + b;
    }
  }

  lemma DropOther(a: multiset<Emission>, b: multiset<Emission>, x: Emission)
    requires SameFiles(a, b) && !FileBranch(x.entry)
    ensures SameFiles(a - multiset{x}, b) && SameFiles(a, b - multiset{x})
  {
    forall y | y in a + b && FileBranch(y.entry)
      ensures (a - multiset{x})[y] == b[y] && a[y] == (b - multiset{x})[y]
    {
    }
  }

  lemma MatchLast(a: seq<Emission>, b: seq<Emission>) returns (rest: seq<Emission>)
    requires SameFiles(multiset(a), multiset(b))
    requires |a| > 0 && FileBranch(a[|a| - 1].entry)
    ensures SameFiles(multiset(a[..|a| - 1]), multiset(rest))
    ensures FileCount(b) == FileCount(rest) + 1 && |rest| < |b|
  {
    var x := a[|a| - 1];
    RemoveLast(a);
    assert x in multiset(a) && x in multiset(a) + multiset(b);
    assert x in b;
    var i :| 0 <= i < |b| && b[i] == x;
    rest := b[..i] + b[i + 1..];
    RemoveOne(b, i);
    FileCountRemove(b, i);
    DropFromBoth(multiset(a), multiset(b), x);
  }

  lemma {:induction false} SameFileCount(a: seq<Emission>, b: seq<Emission>)
    requires SameFiles(multiset(a), multiset(b))
    ensures FileCount(a) == FileCount(b)
    decreases |a| + |b|
  {
    if |a| > 0 && FileBranch(a[|a| - 1].entry) {
      var rest := MatchLast(a, b);
      SameFileCount(a[..|a| - 1], rest);
    } else if |a| > 0 {
      RemoveLast(a);
      DropOther(multiset(a), multiset(b), a[|a| - 1]);
      SameFileCount(a[..|a| - 1], b);
    } else if |b| > 0 {
      RemoveLast(b);
      assert b[|b| - 1] in multiset(b) && b[|b| - 1] in multiset(a) + multiset(b);
      DropOther(multiset(a), multiset(b), b[|b| - 1]);
      SameFileCount(a, b[..|b| - 1]);
    }
  }

  /** Whatever the sorts do, two walks add the same documents for entries of type 0, 1 and 2, the
      same number of times, the same number of documents in all, and count the same files. */
  lemma SortIndependent(v: View, rank: map<int, nat>, d: int, prefix: Text, r: Run, s: Run)
    requires Ranked(v, rank) && TypesAgree(v, rank) && d in rank
    requires ValidRun(v, d, r) && ValidRun(v, d, s)
    ensures forall x: Emission :: x.entry.fileType <= 2 ==>
      multiset(RunLog(v, prefix, r))[x] == multiset(RunLog(v, prefix, s))[x]
    ensures |RunLog(v, prefix, r)| == |RunLog(v, prefix, s)|
    ensures FileCount(RunLog(v, prefix, r)) == FileCount(RunLog(v, prefix, s))
  {
    var a, b := RunLog(v, prefix, r), RunLog(v, prefix, s);
    LogSplits(v, rank, d, prefix, r);
    LogSplits(v, rank, d, prefix, s);
    OneTiePerCut(v, rank, d, prefix, r);
    OneTiePerCut(v, rank, d, prefix, s);
    var x, y := TieLog(v, d, prefix, r), TieLog(v, d, prefix, s);
    SameSize(a, x, b, y, Core(v, rank, d, prefix));
    forall z | z in x
      ensures Blocks(v, z.entry) && 2 < z.entry.fileType
    {
      TiesAreBlockers(v, rank, d, prefix, r, z);
    }
    forall z | z in y
      ensures Blocks(v, z.entry) && 2 < z.entry.fileType
    {
      TiesAreBlockers(v, rank, d, prefix, s, z);
    }
    SameElsewhere(v, a, x, b, y, Core(v, rank, d, prefix));
    SameFileCount(a, b);
  }

  lemma SameElsewhere(v: View, a: seq<Emission>, x: seq<Emission>, b: seq<Emission>, y: seq<Emission>,
                      core: multiset<Emission>)
    requires multiset(a) == core + multiset(x) && multiset(b) == core + multiset(y)
    requires forall z :: z in x ==> Blocks(v, z.entry) && 2 < z.entry.fileType
    requires forall z :: z in y ==> Blocks(v, z.entry) && 2 < z.entry.fileType
    ensures forall z: Emission :: z.entry.fileType <= 2 ==> multiset(a)[z] == multiset(b)[z]
    ensures SameFiles(multiset(a), multiset(b))
  {
    forall z: Emission | z.entry.fileType <= 2 || FileBranch(z.entry)
      ensures multiset(a)[z] == multiset(b)[z]
    {
      assert z !in x && z !in y;
    }
  }

  lemma SameSize<T>(a: seq<T>, x: seq<T>, b: seq<T>, y: seq<T>, core: multiset<T>)
    requires multiset(a) == core + multiset(x) && multiset(b) == core + multiset(y) && |x| == |y|
    ensures |a| == |b|
  {
    assert |a| == |multiset(a)| == |core| + |multiset(x)|;
    assert |b| == |multiset(b)| == |core| + |multiset(y)|;
  }
}
