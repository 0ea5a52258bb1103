/** Occurrences of one text in another, and the words of a text. */
module Substrings {
  import opened CTypes

  predicate At(t: Text, q: Text, i: int)
  {
    0 <= i && i + |q| <= |t| && t[i..i + |q|] == q
  }

  ghost predicate Contains(t: Text, q: Text)
  {
    exists i :: At(t, q, i)
  }

  /** `t.find(q, start)`, with -1 for npos. */
  function FindFrom(t: Text, q: Text, start: nat): (k: int)
    ensures k == -1 || (start <= k && At(t, q, k))
    ensures forall i :: start <= i && At(t, q, i) ==> 0 <= k <= i
    decreases |t| - start
  {
    if At(t, q, start) then start
    else if start >= |t| then -1
    else FindFrom(t, q, start + 1)
  }

  // ----- words

  predicate SingleWord(word: byte -> bool, q: Text)
  {
    |q| > 0 && forall i :: 0 <= i < |q| ==> word(q[i])
  }

  /** The length of the run of word characters at the front. */
  function WordLength(word: byte -> bool, t: Text): (k: nat)
    ensures k <= |t|
    ensures forall i :: 0 <= i < k ==> word(t[i])
    ensures k < |t| ==> !word(t[k])
  {
    if |t| == 0 || !word(t[0]) then 0 else 1 + WordLength(word, t[1..])
  }

  /** The maximal runs of word characters: the terms of `index_text`. */
  function Tokens(word: byte -> bool, t: Text): set<Text>
    decreases |t|
  {
    if |t| == 0 then {}
    else if !word(t[0]) then Tokens(word, t[1..])
    else {t[..WordLength(word, t)]} + Tokens(word, t[WordLength(word, t)..])
  }

  /** Tokens are exactly the maximal runs. */
  ghost predicate MaximalRun(word: byte -> bool, t: Text, token: Text, i: int)
  {
    && At(t, token, i)
    && SingleWord(word, token)
    && (i > 0 ==> !word(t[i - 1]))
    && (i + |token| < |t| ==> !word(t[i + |token|]))
  }

  lemma ShiftAt(t: Text, q: Text, k: nat, i: int)
    requires k <= |t| && At(t[k..], q, i)
    ensures At(t, q, i + k)
  {
    assert t[k..][i..i + |q|] == t[i + k..i + k + |q|];
  }

  /** A maximal run of a rest of a text is one of the text, if it does not go on to the left. */
  lemma ShiftRun(word: byte -> bool, t: Text, token: Text, k: nat, i: int)
    requires k <= |t| && MaximalRun(word, t[k..], token, i)
    requires i == 0 && k > 0 ==> !word(t[k - 1])
    ensures MaximalRun(word, t, token, i + k)
  {
    ShiftAt(t, token, k, i);
    assert i > 0 ==> t[k..][i - 1] == t[k + i - 1];
    assert i + |token| < |t| - k ==> t[k..][i + |token|] == t[k + i + |token|];
  }

  lemma {:induction false} TokenIsMaximalRun(word: byte -> bool, t: Text, token: Text)
    requires token in Tokens(word, t)
    ensures exists i :: MaximalRun(word, t, token, i)
    decreases |t|
  {
    var k := if word(t[0]) then WordLength(word, t) else 1;
    if word(t[0]) && token == t[..k] {
      assert t[0..0 + |token|] == token;
      assert MaximalRun(word, t, token, 0);
    } else {
      TokenIsMaximalRun(word, t[k..], token);
      var i :| MaximalRun(word, t[k..], token, i);
      assert token[0] == t[k..][i..i + |token|][0] == t[k + i];
      ShiftRun(word, t, token, k, i);
    }
  }

  /** The first token of a text that starts with a word starts with that word. */
  lemma FirstToken(word: byte -> bool, t: Text, q: Text)
    requires SingleWord(word, q) && q <= t
    ensures exists token :: token in Tokens(word, t) && q <= token
  {
    var k := WordLength(word, t);
    assert forall i :: 0 <= i < |q| ==> t[i] == q[i];
    assert |q| <= k;
    assert t[..k] in Tokens(word, t) && q <= t[..k];
  }
}
