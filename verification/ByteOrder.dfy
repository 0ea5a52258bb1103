/** Big-endian fields, read as little-endian words and swapped by `be2le`. */
module ByteOrder {
  import opened CTypes

  function Reverse(s: seq<byte>): (r: seq<byte>)
    ensures |r| == |s|
    ensures forall i :: 0 <= i < |s| ==> r[i] == s[|s| - 1 - i]
  {
    if |s| == 0 then [] else Reverse(s[1..]) + [s[0]]
  }

  lemma ReverseTwice(s: seq<byte>)
    ensures Reverse(Reverse(s)) == s
  {
  }

  /** `be2le` on 32 bits: the same bytes in the opposite order. */
  function Be2Le(v: u32): u32
  {
    Pow256Values();
    LeNat(Reverse(PutLe(v, 4)))
  }

  /** The bytes of a word written most significant first. */
  function PutBe32(v: u32): (s: seq<byte>)
    ensures |s| == 4
  {
    Reverse(PutLe(v, 4))
  }

  /** `be2le` is its own inverse. */
  lemma Be2LeTwice(v: u32)
    ensures Be2Le(Be2Le(v)) == v
  {
    Pow256Values();
    PutLeLeNat(Reverse(PutLe(v, 4)));
    ReverseTwice(PutLe(v, 4));
    LeNatPutLe(v, 4);
  }

  /** Swapping a word read in machine order gives the value that was written big-endian. */
  lemma Be2LeReadsBe(s: seq<byte>, i: nat, v: u32)
    requires i + 4 <= |s| && s[i..i + 4] == PutBe32(v)
    ensures Be2Le(Le32(s, i)) == v
  {
    Pow256Values();
    PutLeLeNat(PutBe32(v));
    ReverseTwice(PutLe(v, 4));
    LeNatPutLe(v, 4);
  }

  /** Only the word written big-endian reads back as a value. */
  lemma BeReadsOnly(s: seq<byte>, i: nat)
    requires i + 4 <= |s|
    ensures PutBe32(Be2Le(Le32(s, i))) == s[i..i + 4]
  {
    Pow256Values();
    var bytes := s[i..i + 4];
    PutLeLeNat(bytes);
    PutLeLeNat(Reverse(bytes));
    ReverseTwice(bytes);
  }

  /** A big-endian number, byte by byte. */
  lemma BeValue(s: seq<byte>, i: nat)
    requires i + 4 <= |s|
    ensures Be2Le(Le32(s, i))
            == 0x100_0000 * (s[i] as int) + 0x1_0000 * (s[i + 1] as int) + 0x100 * (s[i + 2] as int) + s[i + 3] as int
  {
    var t := s[i..i + 4];
    PutLeLeNat(t);
    var u := Reverse(t);
    assert u[0..4] == u;
    Le32Value(u, 0);
  }
}
