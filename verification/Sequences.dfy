/** Concatenations and sums of sequences. */
module Sequences {
  function Concat<T>(ls: seq<seq<T>>): seq<T>
  {
    if |ls| == 0 then [] else Concat(ls[..|ls| - 1]) + ls[|ls| - 1]
  }

  function Total<T>(ms: seq<multiset<T>>): multiset<T>
  {
    if |ms| == 0 then multiset{} else Total(ms[..|ms| - 1]) + ms[|ms| - 1]
  }

  lemma ConcatAppend<T>(ls: seq<seq<T>>, l: seq<T>)
    ensures Concat(ls + [l]) == Concat(ls) + l
  {
    assert (ls + [l])[..|ls|] == ls;
  }

  lemma {:induction false} ConcatJoin<T>(a: seq<seq<T>>, b: seq<seq<T>>)
    ensures Concat(a + b) == Concat(a) + Concat(b)
    decreases |b|
  {
    if |b| == 0 {
      assert a + b == a;
    } else {
      var k := |b| - 1;
      ConcatJoin(a, b[..k]);
      assert (a + b)[..|a| + k] == a + b[..k];
      Assoc(Concat(a), Concat(b[..k]), b[k]);
    }
  }

  lemma {:induction false} InConcat<T>(ls: seq<seq<T>>, x: T)
    ensures x in Concat(ls) <==> exists i :: 0 <= i < |ls| && x in ls[i]
  {
    if |ls| > 0 {
      var k := |ls| - 1;
      InConcat(ls[..k], x);
      if exists i :: 0 <= i < |ls| && x in ls[i] {
        var i :| 0 <= i < |ls| && x in ls[i];
        assert i < k ==> x in ls[..k][i];
      }
      if x in Concat(ls[..k]) {
        var i :| 0 <= i < k && x in ls[..k][i];
        assert x in ls[i];
      }
    }
  }

  /** Splitting every piece splits the whole. */
  lemma {:induction false} ConcatSplits<T>(ls: seq<seq<T>>, ms: seq<multiset<T>>, rs: seq<seq<T>>)
    requires |ls| == |ms| == |rs|
    requires forall i :: 0 <= i < |ls| ==> multiset(ls[i]) == ms[i] + multiset(rs[i])
    ensures multiset(Concat(ls)) == Total(ms) + multiset(Concat(rs))
  {
    if |ls| > 0 {
      var k := |ls| - 1;
      ConcatSplits(ls[..k], ms[..k], rs[..k]);
    }
  }

  lemma {:induction false} TotalSplits<T>(a: seq<multiset<T>>, k: nat)
    requires k <= |a|
    ensures Total(a) == Total(a[..k]) + Total(a[k..])
    decreases |a|
  {
    if k == |a| {
      assert a[..k] == a;
    } else {
      var n := |a| - 1;
      TotalSplits(a[..n], k);
      assert a[..n][..k] == a[..k] && a[..n][k..] == a[k..][..n - k];
    }
  }

  lemma TotalRemove<T>(a: seq<multiset<T>>, i: nat)
    requires i < |a|
    ensures Total(a) == Total(a[..i] + a[i + 1..]) + a[i]
  {
    var rest := a[..i] + a[i + 1..];
    TotalSplits(a, i);
    TotalSplits(a[i..], 1);
    TotalSplits(rest, i);
    assert a[i..][..1] == [a[i]] && a[i..][1..] == a[i + 1..];
    assert rest[..i] == a[..i] && rest[i..] == a[i + 1..];
    assert Total([a[i]]) == Total([a[i]][..0]) + a[i];
  }

  /** A sum does not depend on the order of its terms. */
  lemma {:induction false} TotalPermutes<T>(a: seq<multiset<T>>, b: seq<multiset<T>>)
    requires multiset(a) == multiset(b)
    ensures Total(a) == Total(b)
    decreases |a|
  {
    SameElements(a, b);
    if |a| > 0 {
      assert a[0] in b;
      var j :| 0 <= j < |b| && b[j] == a[0];
      RestsSame(a, 0, b, j);
      TotalPermutes(a[..0] + a[0 + 1..], b[..j] + b[j + 1..]);
      TotalWith(a, 0, b, j);
    }
  }

  lemma TotalWith<T>(a: seq<multiset<T>>, i: nat, b: seq<multiset<T>>, j: nat)
    requires i < |a| && j < |b| && a[i] == b[j]
    requires Total(a[..i] + a[i + 1..]) == Total(b[..j] + b[j + 1..])
    ensures Total(a) == Total(b)
  {
    TotalRemove(a, i);
    TotalRemove(b, j);
  }

  /** Empty terms at the end add nothing. */
  lemma {:induction false} TotalFront<T>(a: seq<multiset<T>>, k: nat)
    requires k <= |a|
    requires forall i :: k <= i < |a| ==> a[i] == multiset{}
    ensures Total(a) == Total(a[..k])
    decreases |a|
  {
    if k == |a| {
      assert a[..k] == a;
    } else {
      var n := |a| - 1;
      TotalFront(a[..n], k);
      assert a[..n][..k] == a[..k];
    }
  }

  lemma Assoc<T>(a: seq<T>, b: seq<T>, c: seq<T>)
    ensures a + (b + c) == a + b + c
  {
  }

  lemma SubSlice<T>(s: seq<T>, a: nat, b: nat, i: nat, j: nat)
    requires a <= b <= |s| && i <= j <= b - a
    ensures s[a..b][i..j] == s[a + i..a + j]
  {
    var t, u := s[a..b][i..j], s[a + i..a + j];
    assert |t| == |u| && forall k :: 0 <= k < |u| ==> t[k] == s[a..b][i + k] == u[k];
  }

  lemma SplitAt<T>(s: seq<T>, k: nat, a: seq<T>, b: seq<T>)
    requires k <= |s| && s[k..] == a + b
    ensures k + |a| <= |s| && s[k..k + |a|] == a && s[k + |a|..] == b
  {
    assert s[k..k + |a|] == s[k..][..|a|];
    assert s[k + |a|..] == s[k..][|a|..];
  }

  lemma Member<T>(s: set<T>) returns (x: T)
    requires s != {}
    ensures x in s
  {
    x :| x in s;
  }

  // ----- sorting by an integer key

  predicate SortedBy<T>(key: T -> int, s: seq<T>)
  {
    forall i, j :: 0 <= i < j < |s| ==> key(s[i]) <= key(s[j])
  }

  /** The place in front of the elements with the same key. */
  function InsertPoint<T>(key: T -> int, e: T, s: seq<T>): (p: nat)
    requires SortedBy(key, s)
    ensures p <= |s|
    ensures forall i :: 0 <= i < p ==> key(s[i]) < key(e)
    ensures forall i :: p <= i < |s| ==> key(e) <= key(s[i])
  {
    if |s| == 0 || key(e) <= key(s[0]) then 0 else 1 + InsertPoint(key, e, s[1..])
  }

  function InsertBy<T>(key: T -> int, e: T, s: seq<T>): (r: seq<T>)
    requires SortedBy(key, s)
    ensures SortedBy(key, r) && multiset(r) == multiset{e} + multiset(s)
  {
    var p := InsertPoint(key, e, s);
    InsertKeepsSorted(key, s[..p], e, s[p..]);
    InsertAdds(s, p, e);
    s[..p] + [e] + s[p..]
  }

  lemma InsertAdds<T>(s: seq<T>, p: nat, e: T)
    requires p <= |s|
    ensures multiset(s[..p] + [e] + s[p..]) == multiset{e} + multiset(s)
  {
    assert s == s[..p] + s[p..];
  }

  lemma InsertKeepsSorted<T>(key: T -> int, a: seq<T>, e: T, b: seq<T>)
    requires SortedBy(key, a) && SortedBy(key, b)
    requires forall i :: 0 <= i < |a| ==> key(a[i]) <= key(e)
    requires forall i :: 0 <= i < |b| ==> key(e) <= key(b[i])
    ensures SortedBy(key, a + [e] + b)
  {
    SortedAppend(key, a, [e]);
    SortedAppend(key, a + [e], b);
  }

  lemma SortedAppend<T>(key: T -> int, a: seq<T>, b: seq<T>)
    requires SortedBy(key, a) && SortedBy(key, b)
    requires forall i, j :: 0 <= i < |a| && 0 <= j < |b| ==> key(a[i]) <= key(b[j])
    ensures SortedBy(key, a + b)
  {
  }

  function SortBy<T>(key: T -> int, es: seq<T>): (s: seq<T>)
    ensures SortedBy(key, s) && multiset(s) == multiset(es)
  {
    if |es| == 0 then []
    else
      assert es == [es[0]] + es[1..];
      InsertBy(key, es[0], SortBy(key, es[1..]))
  }

  /** std::sort, of which callers only know that it yields some sorted permutation. */
  method Sort<T>(key: T -> int, es: seq<T>) returns (s: seq<T>)
    ensures SortedBy(key, s) && multiset(s) == multiset(es)
  {
    s := SortBy(key, es);
  }

  lemma SameElements<T>(a: seq<T>, b: seq<T>)
    requires multiset(a) == multiset(b)
    ensures |a| == |b|
    ensures forall e :: e in a <==> e in b
  {
    assert |a| == |multiset(a)| == |multiset(b)| == |b|;
    assert forall e :: e in a <==> e in multiset(a);
    assert forall e :: e in b <==> e in multiset(b);
  }

  lemma RemoveOne<T>(s: seq<T>, i: nat)
    requires i < |s|
    ensures multiset(s[..i] + s[i + 1..]) == multiset(s) - multiset{s[i]}
  {
    assert s == s[..i] + [s[i]] + s[i + 1..];
  }

  lemma RestsSame<T>(a: seq<T>, i: nat, b: seq<T>, j: nat)
    requires multiset(a) == multiset(b) && i < |a| && j < |b| && a[i] == b[j]
    ensures multiset(a[..i] + a[i + 1..]) == multiset(b[..j] + b[j + 1..])
  {
    RemoveOne(a, i);
    RemoveOne(b, j);
  }

  lemma FrontsSame<T>(a: seq<T>, b: seq<T>)
    requires multiset(a) == multiset(b) && |a| == |b| > 0 && a[|a| - 1] == b[|b| - 1]
    ensures multiset(a[..|a| - 1]) == multiset(b[..|b| - 1])
  {
    RemoveLast(a);
    RemoveLast(b);
  }

  lemma RemoveLast<T>(s: seq<T>)
    requires |s| > 0
    ensures multiset(s[..|s| - 1]) == multiset(s) - multiset{s[|s| - 1]}
  {
    var k := |s| - 1;
    RemoveOne(s, k);
    assert s[..k] + s[k + 1..] == s[..k];
  }

  lemma TwiceIn<T>(s: seq<T>, i: nat, j: nat)
    requires i < j < |s| && s[i] == s[j]
    ensures multiset(s)[s[i]] >= 2
  {
    assert s == s[..j] + s[j..];
    assert s[..j][i] == s[i] && s[j..][0] == s[j];
    assert s[i] in multiset(s[..j]) && s[j] in multiset(s[j..]);
  }

  predicate KeysDistinct<T, K(==)>(key: T -> K, s: seq<T>)
  {
    forall i, j :: 0 <= i < j < |s| ==> key(s[i]) != key(s[j])
  }

  lemma {:induction false} OnceIn<T, K>(key: T -> K, s: seq<T>, e: T)
    requires KeysDistinct(key, s)
    ensures multiset(s)[e] <= 1
    decreases |s|
  {
    if |s| > 0 {
      var k := |s| - 1;
      OnceIn(key, s[..k], e);
      assert s == s[..k] + [s[k]];
      if e == s[k] {
        assert forall i :: 0 <= i < k ==> key(s[..k][i]) != key(e);
        assert e !in s[..k];
      }
    }
  }

  /** Distinct keys stay distinct in any order. */
  lemma KeysDistinctPermutes<T, K>(key: T -> K, a: seq<T>, b: seq<T>)
    requires multiset(a) == multiset(b) && KeysDistinct(key, b)
    ensures KeysDistinct(key, a)
  {
    SameElements(a, b);
    forall i, j | 0 <= i < j < |a|
      ensures key(a[i]) != key(a[j])
    {
      assert a[i] in a && a[j] in a;
      OnceIn(key, b, a[i]);
      if a[i] == a[j] {
        TwiceIn(a, i, j);
      }
    }
  }

  function MapSeq<A, B>(f: A -> B, s: seq<A>): (r: seq<B>)
    ensures |r| == |s|
    ensures forall i :: 0 <= i < |s| ==> r[i] == f(s[i])
  {
    seq(|s|, i requires 0 <= i < |s| => f(s[i]))
  }

  lemma MapAppend<A, B>(f: A -> B, s: seq<A>, x: A)
    ensures MapSeq(f, s + [x]) == MapSeq(f, s) + [f(x)]
  {
  }

  lemma MapRemove<A, B>(f: A -> B, s: seq<A>, i: nat)
    requires i < |s|
    ensures multiset(MapSeq(f, s[..i] + s[i + 1..])) == multiset(MapSeq(f, s)) - multiset{f(s[i])}
    ensures f(s[i]) in multiset(MapSeq(f, s))
  {
    var r, rest := MapSeq(f, s), s[..i] + s[i + 1..];
    var t := r[..i] + r[i + 1..];
    forall k | 0 <= k < |rest|
      ensures MapSeq(f, rest)[k] == t[k]
    {
      assert rest[k] == if k < i then s[k] else s[k + 1];
    }
    assert MapSeq(f, rest) == t;
    RemoveOne(r, i);
    assert r[i] == f(s[i]) && r[i] in r;
  }

  lemma BackTogether<B>(m: multiset<B>, n: multiset<B>, x: B)
    requires x in m && x in n && m - multiset{x} == n - multiset{x}
    ensures m == n
  {
    assert m == (m - multiset{x}) + multiset{x};
    assert n == (n - multiset{x}) + multiset{x};
  }

  lemma MapSplits<A, B>(f: A -> B, a: seq<A>, b: seq<A>, i: nat, j: nat)
    requires i < |a| && j < |b| && a[i] == b[j]
    requires multiset(MapSeq(f, a[..i] + a[i + 1..])) == multiset(MapSeq(f, b[..j] + b[j + 1..]))
    ensures multiset(MapSeq(f, a)) == multiset(MapSeq(f, b))
  {
    MapRemove(f, a, i);
    MapRemove(f, b, j);
    BackTogether(multiset(MapSeq(f, a)), multiset(MapSeq(f, b)), f(a[i]));
  }

  lemma {:induction false} MapPermutes<A, B>(f: A -> B, a: seq<A>, b: seq<A>)
    requires multiset(a) == multiset(b)
    ensures multiset(MapSeq(f, a)) == multiset(MapSeq(f, b))
    decreases |a|
  {
    SameElements(a, b);
    if |a| > 0 {
      assert a[0] in b;
      var j :| 0 <= j < |b| && b[j] == a[0];
      RestsSame(a, 0, b, j);
      MapPermutes(f, a[..0] + a[0 + 1..], b[..j] + b[j + 1..]);
      MapSplits(f, a, b, 0, j);
    }
  }

  lemma MapJoin<A, B>(f: A -> B, a: seq<A>, b: seq<A>)
    ensures MapSeq(f, a + b) == MapSeq(f, a) + MapSeq(f, b)
  {
  }

  lemma {:induction false} MapConcat<A, B>(f: A -> B, ls: seq<seq<A>>, ms: seq<multiset<B>>)
    requires |ls| == |ms|
    requires forall i :: 0 <= i < |ls| ==> multiset(MapSeq(f, ls[i])) == ms[i]
    ensures multiset(MapSeq(f, Concat(ls))) == Total(ms)
  {
    if |ls| > 0 {
      var k := |ls| - 1;
      MapConcat(f, ls[..k], ms[..k]);
      MapJoin(f, Concat(ls[..k]), ls[k]);
    }
  }
}
