/** Ranked images are exactly the acyclic ones. */
module WalkOrder {
  import opened Sequences
  import opened Geometry
  import opened Image
  import opened DirectoryParse
  import opened WalkSpec
  import opened WalkPaths

  /** Directory `b` may be read while directory `a` is. */
  ghost predicate Edge(v: View, a: int, b: int)
  {
    && v.listing(a).Parsed?
    && exists e :: InReach(v, v.listing(a).entries, e) && Recurses(v, e) && e.inode == b
  }

  ghost predicate IsPath(v: View, path: seq<int>)
  {
    forall i :: 0 <= i < |path| - 1 ==> Edge(v, path[i], path[i + 1])
  }

  ghost predicate Within(path: seq<int>, s: set<int>)
  {
    forall i :: 0 <= i < |path| ==> path[i] in s
  }

  ghost predicate IsCycle(v: View, path: seq<int>)
  {
    |path| >= 2 && IsPath(v, path) && path[0] == path[|path| - 1]
  }

  ghost predicate Acyclic(v: View, s: set<int>)
  {
    forall path :: Within(path, s) ==> !IsCycle(v, path)
  }

  /** A set of directories that can be listed and lead to nothing outside the set. */
  ghost predicate Closed(v: View, s: set<int>)
  {
    forall d :: d in s ==>
      && v.isDir(d)
      && v.listing(d).Parsed?
      && forall e :: InReach(v, v.listing(d).entries, e) && Recurses(v, e) ==> e.inode in s
  }

  lemma EdgeOf(v: View, s: set<int>, a: int, b: int)
    requires Closed(v, s) && a in s && Edge(v, a, b)
    ensures b in s
  {
  }

  // ----- a rank excludes cycles

  lemma {:induction false} RankFalls(v: View, rank: map<int, nat>, path: seq<int>)
    requires Ranked(v, rank) && |path| >= 2 && IsPath(v, path) && path[0] in rank
    ensures path[|path| - 1] in rank && rank[path[|path| - 1]] < rank[path[0]]
    decreases |path|
  {
    assert Edge(v, path[0], path[1]);
    var rest := path[1..];
    if |rest| >= 2 {
      forall i | 0 <= i < |rest| - 1
        ensures Edge(v, rest[i], rest[i + 1])
      {
        assert Edge(v, path[i + 1], path[i + 2]);
      }
      RankFalls(v, rank, rest);
    }
  }

  // ----- without cycles there is a rank

  /** A sequence longer than a set has a repetition in it. */
  lemma {:induction false} Repetition(path: seq<int>, s: set<int>) returns (i: nat, j: nat)
    requires Within(path, s) && |path| > |s|
    ensures i < j < |path| && path[i] == path[j]
    decreases |path|
  {
    var k := |path| - 1;
    var last := path[k];
    if last in path[..k] {
      i :| 0 <= i < k && path[i] == last;
      j := k;
    } else {
      assert last in s;
      i, j := Repetition(path[..k], s - {last});
    }
  }

  ghost predicate LeadsOn(v: View, u: set<int>, d: int)
  {
    exists b :: b in u && Edge(v, d, b)
  }

  ghost predicate AllLeadOn(v: View, u: set<int>)
  {
    forall d {:trigger LeadsOn(v, u, d)} :: d in u ==> LeadsOn(v, u, d)
  }

  /** Where every directory leads on within the set, paths of any length exist. */
  lemma {:induction false} LongPath(v: View, u: set<int>, start: int, n: nat) returns (path: seq<int>)
    requires start in u && AllLeadOn(v, u)
    ensures |path| == n + 1 && Within(path, u) && IsPath(v, path)
  {
    if n == 0 {
      path := [start];
    } else {
      var front := LongPath(v, u, start, n - 1);
      var d := front[n - 1];
      assert d in u && LeadsOn(v, u, d);
      var b :| b in u && Edge(v, d, b);
      path := front + [b];
      Extend(v, front, b);
      assert forall i :: 0 <= i < |path| ==> path[i] == if i < n then front[i] else b;
    }
  }

  lemma Extend(v: View, path: seq<int>, b: int)
    requires |path| > 0 && IsPath(v, path) && Edge(v, path[|path| - 1], b)
    ensures IsPath(v, path + [b])
  {
  }

  lemma CycleIn(v: View, path: seq<int>, s: set<int>, i: nat, j: nat)
    requires Within(path, s) && IsPath(v, path) && i < j < |path| && path[i] == path[j]
    ensures Within(path[i..j + 1], s) && IsCycle(v, path[i..j + 1])
  {
  }

  lemma LeadsOut(v: View, s: set<int>, u: set<int>, start: int) returns (d: int)
    requires Acyclic(v, s) && u <= s && start in u
    ensures d in u && !LeadsOn(v, u, d)
  {
    if AllLeadOn(v, u) {
      var path := LongPath(v, u, start, |u|);
      var i, j := Repetition(path, u);
      CycleIn(v, path, s, i, j);
      assert false;
    }
    d :| d in u && !LeadsOn(v, u, d);
  }

  /** The directories outside `u` are ranked already, and lead only to each other. */
  ghost predicate RankedOutside(v: View, s: set<int>, u: set<int>, rank: map<int, nat>)
  {
    && rank.Keys == s - u
    && forall a, b :: a in rank && Edge(v, a, b) ==> b in rank && rank[b] < rank[a]
  }

  lemma RankNext(v: View, s: set<int>, u: set<int>, start: int, rank: map<int, nat>, top: nat) returns (d: int)
    requires Closed(v, s) && Acyclic(v, s) && u <= s && start in u
    requires RankedOutside(v, s, u, rank) && forall a :: a in rank ==> rank[a] < top
    ensures d in u && RankedOutside(v, s, u - {d}, rank[d := top])
  {
    d := LeadsOut(v, s, u, start);
    var next := rank[d := top];
    assert next.Keys == s - (u - {d});
    forall a, b | a in next && Edge(v, a, b)
      ensures b in next && next[b] < next[a]
    {
      EdgeOf(v, s, a, b);
    }
  }

  lemma {:induction false} RankFrom(v: View, s: set<int>, u: set<int>, rank: map<int, nat>, top: nat)
    returns (r: map<int, nat>)
    requires Closed(v, s) && Acyclic(v, s) && u <= s
    requires RankedOutside(v, s, u, rank) && forall a :: a in rank ==> rank[a] < top
    ensures RankedOutside(v, s, {}, r)
    decreases |u|
  {
    if u == {} {
      r := rank;
    } else {
      var start := Member(u);
      var d := RankNext(v, s, u, start, rank, top);
      r := RankFrom(v, s, u - {d}, rank[d := top], top + 1);
    }
  }

  lemma AllRanked(v: View, s: set<int>, r: map<int, nat>)
    requires Closed(v, s) && RankedOutside(v, s, {}, r)
    ensures r.Keys == s && Ranked(v, r)
  {
    forall d, e | d in r && InReach(v, v.listing(d).entries, e) && Recurses(v, e)
      ensures e.inode in r && r[e.inode] < r[d]
    {
      assert Edge(v, d, e.inode);
    }
  }

  /** A closed set of directories has a rank exactly when no chain of entries leads from one of them
      back to itself. */
  lemma RankedIffAcyclic(v: View, s: set<int>)
    requires Closed(v, s)
    ensures (exists rank: map<int, nat> :: rank.Keys == s && Ranked(v, rank)) <==> Acyclic(v, s)
  {
    if exists rank: map<int, nat> :: rank.Keys == s && Ranked(v, rank) {
      var rank: map<int, nat> :| rank.Keys == s && Ranked(v, rank);
      forall path | Within(path, s)
        ensures !IsCycle(v, path)
      {
        if IsCycle(v, path) {
          RankFalls(v, rank, path);
        }
      }
    }
    if Acyclic(v, s) {
      var r := RankFrom(v, s, s, map[], 0);
      AllRanked(v, s, r);
    }
  }

  // ----- images

  /** Some path of directories leads from `root` to `d`. */
  ghost predicate Leads(v: View, root: int, d: int)
  {
    exists path :: |path| > 0 && IsPath(v, path) && path[0] == root && path[|path| - 1] == d
  }

  lemma LeadsFurther(v: View, root: int, d: int, b: int)
    requires Leads(v, root, d) && Edge(v, d, b)
    ensures Leads(v, root, b)
  {
    var path :| |path| > 0 && IsPath(v, path) && path[0] == root && path[|path| - 1] == d;
    Extend(v, path, b);
    var longer := path + [b];
    assert longer[0] == root && longer[|longer| - 1] == b;
  }

  /** What is reached from the root can be listed and looked up, and leads back nowhere. */
  ghost predicate Walkable(img: Image, root: int)
  {
    var v := ViewOf(img);
    && ValidInode(img.consts, root) && v.isDir(root)
    && (forall d :: Leads(v, root, d) ==>
          && v.listing(d).Parsed?
          && forall e :: InReach(v, v.listing(d).entries, e) && !IsDot(e) ==>
               LookUpDefined(img.consts, e.inode))
    && (forall path :: |path| > 0 && Leads(v, root, path[0]) ==> !IsCycle(v, path))
  }

  /** The directories reached from the root. */
  ghost function ReachedFrom(img: Image, root: int): set<int>
  {
    set d | 1 <= d <= img.consts.inodeCount && Leads(ViewOf(img), root, d)
  }

  lemma RootLeads(v: View, root: int)
    ensures Leads(v, root, root)
  {
    var path := [root];
    assert |path| > 0 && IsPath(v, path) && path[0] == root && path[|path| - 1] == root;
  }

  lemma StepReached(img: Image, root: int, d: int, e: Entry)
    requires Walkable(img, root) && Leads(ViewOf(img), root, d)
    requires InReach(ViewOf(img), ViewOf(img).listing(d).entries, e) && Recurses(ViewOf(img), e)
    ensures e.inode in ReachedFrom(img, root)
  {
    assert Edge(ViewOf(img), d, e.inode);
    LeadsFurther(ViewOf(img), root, d, e.inode);
  }

  lemma ReachedDir(v: View, root: int, d: int)
    requires v.isDir(root) && Leads(v, root, d)
    ensures v.isDir(d)
  {
    var path :| |path| > 0 && IsPath(v, path) && path[0] == root && path[|path| - 1] == d;
    var k := |path| - 1;
    if k > 0 {
      assert Edge(v, path[k - 1], path[k - 1 + 1]);
    }
  }

  lemma ReachedClosed(img: Image, root: int)
    requires Walkable(img, root)
    ensures Closed(ViewOf(img), ReachedFrom(img, root))
  {
    var v, s := ViewOf(img), ReachedFrom(img, root);
    forall d | d in s
      ensures v.isDir(d) && v.listing(d).Parsed?
    {
      ReachedDir(v, root, d);
    }
    forall d, e | d in s && InReach(v, v.listing(d).entries, e) && Recurses(v, e)
      ensures e.inode in s
    {
      StepReached(img, root, d, e);
    }
  }

  /** Directories with a rank are only left for directories with a rank. */
  lemma {:induction false} PathRanked(v: View, rank: map<int, nat>, path: seq<int>, k: nat)
    requires Ranked(v, rank) && k < |path| && IsPath(v, path) && path[0] in rank
    ensures path[k] in rank
  {
    if k > 0 {
      PathRanked(v, rank, path, k - 1);
      assert Edge(v, path[k - 1], path[k - 1 + 1]);
    }
  }

  lemma LeadsRanked(v: View, rank: map<int, nat>, root: int, d: int)
    requires Ranked(v, rank) && root in rank && Leads(v, root, d)
    ensures d in rank
  {
    var path :| |path| > 0 && IsPath(v, path) && path[0] == root && path[|path| - 1] == d;
    PathRanked(v, rank, path, |path| - 1);
  }

  lemma RankOfWalkable(img: Image, root: int) returns (rank: map<int, nat>)
    requires Walkable(img, root)
    ensures root in rank && WellFormed(img, rank)
  {
    var v, s := ViewOf(img), ReachedFrom(img, root);
    RootLeads(v, root);
    ReachedClosed(img, root);
    forall path | Within(path, s)
      ensures !IsCycle(v, path)
    {
      assert |path| > 0 ==> path[0] in s;
    }
    RankedIffAcyclic(v, s);
    rank :| rank.Keys == s && Ranked(v, rank);
  }

  /** An image can be walked from a root exactly when a rank for it exists: what every walk needs of
      an image is listable directories, existing inode numbers and no cycle among what is reached. */
  lemma WalkableIffRanked(img: Image, root: int)
    ensures Walkable(img, root)
            <==> exists rank: map<int, nat> :: root in rank && WellFormed(img, rank)
  {
    var v := ViewOf(img);
    if Walkable(img, root) {
      var rank := RankOfWalkable(img, root);
      assert root in rank && WellFormed(img, rank);
    }
    if exists rank: map<int, nat> :: root in rank && WellFormed(img, rank) {
      var rank: map<int, nat> :| root in rank && WellFormed(img, rank);
      forall d | Leads(v, root, d)
        ensures d in rank
      {
        LeadsRanked(v, rank, root, d);
      }
      forall path | |path| > 0 && Leads(v, root, path[0])
        ensures !IsCycle(v, path)
      {
        if IsCycle(v, path) {
          RankFalls(v, rank, path);
        }
      }
    }
  }

  // ----- cycles that every walk enters

  /** A run over a directory holds one over each directory that a certain chain leads to. */
  lemma {:induction false} RunBehind(v: View, d: int, r: Run, c: seq<Entry>) returns (s: Run)
    requires ValidRun(v, d, r) && IsChain(v, d, c) && Certain(v, d, c) && Recurses(v, c[|c| - 1])
    ensures ValidRun(v, c[|c| - 1].inode, s) && s < r
    decreases |c|
  {
    var i := SureProcessed(v, d, r, c[0]);
    s := r.subs[i];
    if |c| > 1 {
      s := RunBehind(v, c[0].inode, s, c[1..]);
    }
  }

  lemma {:induction false} NoRunOnCycle(v: View, d: int, c: seq<Entry>, r: Run)
    requires IsChain(v, d, c) && Certain(v, d, c) && Recurses(v, c[|c| - 1]) && c[|c| - 1].inode == d
    ensures !ValidRun(v, d, r)
    decreases r
  {
    if ValidRun(v, d, r) {
      var s := RunBehind(v, d, r, c);
      NoRunOnCycle(v, d, c, s);
    }
  }

  /** Where a certain chain leads to a directory and another back to it, there is no run at all: no walk
      comes to an end. */
  lemma NoRunToCycle(v: View, d: int, a: seq<Entry>, c: seq<Entry>, r: Run)
    requires IsChain(v, d, a) && Certain(v, d, a) && Recurses(v, a[|a| - 1])
    requires var e := a[|a| - 1].inode;
      IsChain(v, e, c) && Certain(v, e, c) && Recurses(v, c[|c| - 1]) && c[|c| - 1].inode == e
    ensures !ValidRun(v, d, r)
  {
    if ValidRun(v, d, r) {
      var s := RunBehind(v, d, r, a);
      NoRunOnCycle(v, a[|a| - 1].inode, c, s);
    }
  }
}
