/** Splitting path strings at slashes. */
module Paths {
  import opened CTypes

  function FirstSlash(t: Text): (k: nat)
    ensures k <= |t| && SLASH !in t[..k]
    ensures k < |t| ==> t[k] == SLASH
  {
    if |t| == 0 || t[0] == SLASH then 0 else 1 + FirstSlash(t[1..])
  }

  /** The text up to the first slash. */
  function Head(t: Text): Text
  {
    t[..FirstSlash(t)]
  }

  function Split(t: Text): seq<Text>
    decreases |t|
  {
    var k := FirstSlash(t);
    if k == |t| then [t] else [t[..k]] + Split(t[k + 1..])
  }

  lemma HeadOfName(name: Text, rest: Text)
    requires SLASH !in name
    requires |rest| > 0 ==> rest[0] == SLASH
    ensures FirstSlash(name + rest) == |name| && Head(name + rest) == name
  {
    var t := name + rest;
    var k := FirstSlash(t);
    assert t[..|name|] == name;
    forall i | 0 <= i < k ensures t[i] != SLASH {
      assert t[i] == t[..k][i];
    }
    assert forall i :: 0 <= i < |name| ==> t[i] == name[i] && name[i] in name;
  }

  lemma SplitName(name: Text)
    requires SLASH !in name
    ensures Split(name) == [name]
  {
    assert name + [] == name;
    HeadOfName(name, []);
  }

  lemma SplitComponent(name: Text, rest: Text)
    requires SLASH !in name
    ensures Split(name + [SLASH] + rest) == [name] + Split(rest)
  {
    var t := name + [SLASH] + rest;
    assert t == name + ([SLASH] + rest);
    HeadOfName(name, [SLASH] + rest);
    assert t[|name| + 1..] == rest;
  }
}
