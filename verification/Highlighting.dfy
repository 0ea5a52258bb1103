/** Where a search result is highlighted. */
module Highlighting {
  import opened CTypes
  import opened Substrings

  /** `t.rfind("/")`, with -1 for npos. */
  function LastSlash(t: Text): (k: int)
    ensures -1 <= k < |t|
    ensures k >= 0 ==> t[k] == SLASH
    ensures forall i :: k < i < |t| ==> t[i] != SLASH
  {
    if |t| == 0 then -1
    else if t[|t| - 1] == SLASH then |t| - 1
    else LastSlash(t[..|t| - 1])
  }

  /** The offset of the last path component; a trailing slash counts as part of it. */
  function ComponentStart(p: Text): (n: nat)
    ensures n <= |p|
  {
    var n := LastSlash(p) + 1;
    if n == |p| && |p| > 0 then LastSlash(p[..|p| - 1]) + 1 else n
  }

  /** The three printed slices, or nothing when `substr` throws. A failed `find` leaves the position
      one before the component. */
  function Highlight(p: Text, q: Text): Option<(Text, Text, Text)>
  {
    var n := ComponentStart(p);
    var light := FindFrom(p[n..], q, 0) + n;
    if light < 0 || light + |q| > |p| then None
    else Some((p[..light], p[light..light + |q|], p[light + |q|..]))
  }

  /** Whatever is printed is the path. */
  lemma SlicesRestorePath(p: Text, q: Text)
    ensures Highlight(p, q).Some? ==>
      var (before, hit, after) := Highlight(p, q).value; before + hit + after == p
  {
  }

  /** The highlighted slice is the query exactly when the query occurs in the last component or one
      place before it; in the first case it is the first occurrence in the component. */
  lemma HighlightExact(p: Text, q: Text)
    ensures var n := ComponentStart(p);
      (Highlight(p, q).Some? && Highlight(p, q).value.1 == q)
      <==> Contains(p[n..], q) || (n > 0 && At(p, q, n - 1))
    ensures Contains(p[ComponentStart(p)..], q) ==>
      var k := |Highlight(p, q).value.0| - ComponentStart(p);
      && At(p[ComponentStart(p)..], q, k)
      && forall i :: At(p[ComponentStart(p)..], q, i) ==> k <= i
  {
    var n := ComponentStart(p);
    var k := FindFrom(p[n..], q, 0);
    if Contains(p[n..], q) {
      var i :| At(p[n..], q, i);
      assert k >= 0;
      ShiftAt(p, q, n, k);
    }
  }

  /** For a query that does not start with a slash the highlighted slice is the query exactly when the
      query occurs in the last component. */
  lemma HighlightIff(p: Text, q: Text)
    requires q != [] && q[0] != SLASH
    ensures Contains(p[ComponentStart(p)..], q)
            <==> Highlight(p, q).Some? && Highlight(p, q).value.1 == q
  {
    HighlightExact(p, q);
    var n := ComponentStart(p);
    assert n > 0 && At(p, q, n - 1) ==> q[0] == p[n - 1];
    if n > 0 {
      SlashBeforeComponent(p);
    }
  }

  lemma SlashBeforeComponent(p: Text)
    requires ComponentStart(p) > 0
    ensures p[ComponentStart(p) - 1] == SLASH
  {
  }

  /** The search fails with an exception exactly when the query is not found and too long for the rest
      of the path. */
  lemma HighlightThrows(p: Text, q: Text)
    ensures Highlight(p, q).None?
            <==> var n := ComponentStart(p);
                 !Contains(p[n..], q) && (n == 0 || n - 1 + |q| > |p|)
  {
    var n := ComponentStart(p);
    var k := FindFrom(p[n..], q, 0);
    if Contains(p[n..], q) {
      var i :| At(p[n..], q, i);
      assert k >= 0;
    }
  }

  /** The path of a file named `a` and queries that it does not contain: the slash is highlighted, and a
      longer query makes `substr` throw. */
  lemma MissesHighlight()
    ensures Highlight([SLASH, 97], [99]) == Some(([], [SLASH], [97]))
    ensures Highlight([SLASH, 97], [99, 99, 99]) == None
  {
    var p: Text := [SLASH, 97];
    LastSlashAt(p, 0);
    assert p[1..] == [97] && p[..0] == [] && p[0..1] == [SLASH];
    assert !At([97], [99], 0) && !At([97], [99, 99, 99], 0);
  }

  /** A name that holds a slash is found by what stands before it, and the slash is highlighted. */
  lemma SlashInName()
    ensures Contains([99, SLASH, 97], [99])
    ensures Highlight([SLASH, 99, SLASH, 97], [99]) == Some(([SLASH, 99], [SLASH], [97]))
  {
    var p: Text := [SLASH, 99, SLASH, 97];
    LastSlashAt(p, 2);
    assert p[3..] == [97] && p[..2] == [SLASH, 99] && p[2..3] == [SLASH];
    assert !At([97], [99], 0);
    assert At([99, SLASH, 97], [99], 0);
  }

  /** The last component of a file path is the name of its entry. */
  lemma FileComponent(prefix: Text, name: Text)
    requires |prefix| > 0 && prefix[|prefix| - 1] == SLASH
    requires name != [] && SLASH !in name
    ensures ComponentStart(prefix + name) == |prefix|
    ensures (prefix + name)[|prefix|..] == name
  {
    var p := prefix + name;
    assert p[|prefix|..] == name;
    assert forall i :: |prefix| <= i < |p| ==> p[i] == name[i - |prefix|];
    LastSlashAt(p, |prefix| - 1);
  }

  /** The last component of a directory path is the name with its slash. */
  lemma DirComponent(prefix: Text, name: Text)
    requires |prefix| > 0 && prefix[|prefix| - 1] == SLASH
    requires name != [] && SLASH !in name
    ensures ComponentStart(prefix + name + [SLASH]) == |prefix|
    ensures (prefix + name + [SLASH])[|prefix|..] == name + [SLASH]
  {
    var p := prefix + name + [SLASH];
    FileComponent(prefix, name);
    LastSlashAt(p, |p| - 1);
    assert p[..|p| - 1] == prefix + name;
  }

  lemma LastSlashAt(t: Text, k: nat)
    requires k < |t| && t[k] == SLASH && forall i :: k < i < |t| ==> t[i] != SLASH
    ensures LastSlash(t) == k
  {
  }
}
