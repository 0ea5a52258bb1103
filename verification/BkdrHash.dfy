/** The string hash that selects a bucket. */
module BkdrHash {
  import opened Arithmetic
  import opened CTypes

  const SEED := 131
  const WORD := 0x1_0000_0000
  const BUCKETS := 0x1_0000

  /** A plain `char` is signed. */
  function SignedChar(c: byte): int
  {
    if c < 128 then c as int else c as int - 256
  }

  /** The base-131 polynomial of a string, without any wrap. */
  function Polynomial(s: Text): int
  {
    if |s| == 0 then 0 else SEED * Polynomial(s[..|s| - 1]) + SignedChar(s[|s| - 1])
  }

  function Power(k: nat): int
  {
    if k == 0 then 1 else SEED * Power(k - 1)
  }

  function Hash(s: Text): (h: int)
    ensures 0 <= h < BUCKETS
  {
    Polynomial(s) % BUCKETS
  }

  /** The loop over the characters up to the NUL, with its 32-bit wrap and final mask. */
  method BKDRHash(str: array<byte>) returns (code: nat)
    requires NUL in str[..]
    ensures code == Hash(CStr(str[..])) < BUCKETS
  {
    ghost var s := CStr(str[..]);
    Terminated(str[..]);
    var hash := 0;
    var i := 0;
    while str[i] != NUL
      invariant 0 <= i <= |s| < str.Length
      invariant 0 <= hash < WORD && hash % BUCKETS == Polynomial(s[..i]) % BUCKETS
      decreases |s| - i
    {
      assert str[..][i] == s[i];
      assert s[..i + 1][..i] == s[..i];
      Step(hash, Polynomial(s[..i]), SignedChar(str[i]));
      hash := (hash * SEED + SignedChar(str[i])) % WORD;
      i := i + 1;
    }
    assert forall k :: 0 <= k < |s| ==> str[..][k] == s[k] && s[k] in s;
    assert s[..i] == s;
    code := hash % BUCKETS;
  }

  lemma Terminated(s: seq<byte>)
    requires NUL in s
    ensures |CStr(s)| < |s| && s[|CStr(s)|] == NUL
  {
  }

  /** One turn of the loop keeps the residue, wrap and all. */
  lemma Step(hash: int, p: int, c: int)
    requires hash % BUCKETS == p % BUCKETS
    ensures (hash * SEED + c) % WORD % BUCKETS == (SEED * p + c) % BUCKETS
  {
  }

  lemma {:induction false} PolynomialAppend(s: Text, t: Text)
    ensures Polynomial(s + t) == Polynomial(s) * Power(|t|) + Polynomial(t)
    decreases |t|
  {
    if |t| == 0 {
      assert s + t == s;
    } else {
      var k := |t| - 1;
      PolynomialAppend(s, t[..k]);
      assert (s + t)[..|s + t| - 1] == s + t[..k];
      Distribute(Polynomial(s), Power(k), Polynomial(t[..k]));
    }
  }

  lemma Distribute(a: int, b: int, c: int)
    ensures SEED * (a * b + c) == a * (SEED * b) + SEED * c
  {
  }

  /** The hash of a concatenation from the hashes of its parts. */
  lemma HashAppend(s: Text, t: Text)
    ensures Hash(s + t) == (Hash(s) * Power(|t|) + Hash(t)) % BUCKETS
  {
    PolynomialAppend(s, t);
    ResidueOf(Polynomial(s), Polynomial(t), Power(|t|), Hash(s), Hash(t));
  }

  lemma ResidueOf(p: int, q: int, w: int, r: int, t: int)
    requires r == p % BUCKETS && t == q % BUCKETS
    ensures (p * w + q) % BUCKETS == (r * w + t) % BUCKETS
  {
    var a, b := p / BUCKETS, q / BUCKETS;
    Expand(p, a, r, w, q, b, t);
    SameResidue(p * w + q, r * w + t, BUCKETS, a * w + b);
  }

  lemma Expand(p: int, a: int, r: int, w: int, q: int, b: int, t: int)
    requires p == a * BUCKETS + r && q == b * BUCKETS + t
    ensures p * w + q == r * w + t + (a * w + b) * BUCKETS
  {
    assert (a * BUCKETS + r) * w == a * BUCKETS * w + r * w;
    assert a * BUCKETS * w == a * w * BUCKETS;
  }

  /** The polynomials of strings of one and two characters; from 128 on they count as negative. */
  lemma ShortPolynomials(a: byte, b: byte)
    ensures Polynomial([a]) == if a < 128 then a as int else a as int - 256
    ensures Polynomial([a, b]) == 131 * Polynomial([a]) + if b < 128 then b as int else b as int - 256
  {
    assert [a, b][..1] == [a] && [a][..0] == [];
    assert Polynomial([a]) == SEED * Polynomial([]) + SignedChar(a);
  }

  /** The hash is the polynomial in the low sixteen bits. */
  lemma HashIs(s: Text)
    ensures Hash(s) == Polynomial(s) % 0x1_0000
  {
  }
}
