/** Testing one bit of a bitmap through a 64-bit word. */
module Bitmap {
  import opened Arithmetic
  import opened CTypes

  /** The bitwise conjunction of two words. */
  function And(a: nat, b: nat): nat
  {
    if a == 0 || b == 0 then 0 else a % 2 * (b % 2) + 2 * And(a / 2, b / 2)
  }

  /** Bit `p` of a word is set. */
  predicate Bit(w: nat, p: nat)
  {
    if p == 0 then w % 2 == 1 else Bit(w / 2, p - 1)
  }

  datatype BitmapPtr = BitmapPtr(index: nat, mask: nat)

  /** Zero bytes but for one. */
  function ByteInPlace(count: nat, k: nat, x: byte): (s: seq<byte>)
    ensures |s| == count
    ensures forall i :: 0 <= i < count ==> s[i] == if i == k then x else 0
  {
    seq(count, i => if i == k then x else 0)
  }

  /** `get_bitmap_mask`: one byte of the zeroed union is written, and the union is read as a word. The
      mask has exactly the bit that its position within the word calls for. */
  method GetBitmapMask(bit: nat) returns (result: BitmapPtr)
    ensures result == BitmapPtr(bit / 64, Pow2(bit % 64))
  {
    var bytes := new byte[8](_ => 0);
    var k, s := bit % 64 / 8, bit % 8;
    BitParts(bit);
    OneBitIsByte(s);
    bytes[k] := Pow2(s);
    assert bytes[..] == ByteInPlace(8, k, Pow2(s));
    OneBitWord(k, s);
    result := BitmapPtr(bit / 64, LeNat(bytes[..]));
  }

  lemma BitParts(bit: nat)
    ensures bit % 64 / 8 < 8 && bit % 64 == bit % 8 + 8 * (bit % 64 / 8)
    ensures bit / 8 == 8 * (bit / 64) + bit % 64 / 8
  {
    var q, r := bit / 64, bit % 64;
    var k, s := r / 8, r % 8;
    assert bit == 64 * q + r && r == 8 * k + s;
    DivUnique(bit, 8, 8 * q + k, s);
  }

  lemma WordInBitmap(size: nat, bit: nat)
    requires size % 8 == 0 && bit < 8 * size
    ensures 8 * (bit / 64) + 8 <= size
  {
    var q, r, words := bit / 64, bit % 64, size / 8;
    assert bit == 64 * q + r && size == 8 * words;
  }

  lemma OneBitWord(k: nat, s: nat)
    requires k < 8 && s < 8 && Pow2(s) < 256
    ensures LeNat(ByteInPlace(8, k, Pow2(s))) == Pow2(s + 8 * k)
  {
    MaskValue(8, k, Pow2(s));
    Pow256IsPow2(k);
    Pow2Sum(s, 8 * k);
  }

  /** The bitmap as an array of 64-bit words. */
  function WordAt(bitmap: seq<byte>, index: nat): nat
    requires 8 * index + 8 <= |bitmap|
  {
    LeNat(bitmap[8 * index..8 * index + 8])
  }

  /** For every bit of a bitmap, masking its word is non-zero exactly when the bit is set in its
      byte. */
  lemma WordTestIsByteTest(bitmap: seq<byte>, bit: nat)
    requires |bitmap| % 8 == 0 && bit < 8 * |bitmap|
    ensures 8 * (bit / 64) + 8 <= |bitmap|
    ensures And(WordAt(bitmap, bit / 64), Pow2(bit % 64)) != 0
            <==> And(bitmap[bit / 8], Pow2(bit % 8)) != 0
  {
    var index, k, s := bit / 64, bit % 64 / 8, bit % 8;
    BitParts(bit);
    WordInBitmap(|bitmap|, bit);
    WordBit(bitmap[8 * index..8 * index + 8], k, s);
  }

  lemma WordBit(bytes: seq<byte>, k: nat, s: nat)
    requires |bytes| == 8 && k < 8 && s < 8
    ensures And(LeNat(bytes), Pow2(8 * k + s)) != 0 <==> And(bytes[k], Pow2(s)) != 0
  {
    var p := 8 * k + s;
    assert p / 8 == k && p % 8 == s;
    BitOfBytes(bytes, p);
    AndPow2(LeNat(bytes), p);
    AndPow2(bytes[k], s);
  }

  /** Different bits have different places. */
  lemma PlacesDistinct(a: nat, b: nat)
    requires a / 64 == b / 64 && Pow2(a % 64) == Pow2(b % 64)
    ensures a == b
  {
    Pow2Injective(a % 64, b % 64);
  }

  // ----- masks

  lemma OneBitIsByte(k: nat)
    requires k < 8
    ensures Pow2(k) < 256
  {
    Pow2Sum(k, 7 - k);
    assert Pow2(7) == 2 * Pow2(6) == 4 * Pow2(5) == 8 * Pow2(4) == 16 * Pow2(3);
    assert Pow2(3) == 2 * Pow2(2) == 4 * Pow2(1) == 8;
    MulAtLeast(Pow2(7 - k), Pow2(k));
  }

  lemma {:induction false} MaskValue(count: nat, k: nat, x: byte)
    requires k < count
    ensures LeNat(ByteInPlace(count, k, x)) == x * Pow256(k)
    decreases count
  {
    var s := ByteInPlace(count, k, x);
    if k == 0 {
      ZeroBytes(s[1..]);
    } else {
      MaskValue(count - 1, k - 1, x);
      assert s[1..] == ByteInPlace(count - 1, k - 1, x);
      assert 256 * (x * Pow256(k - 1)) == x * (256 * Pow256(k - 1));
    }
  }

  lemma {:induction false} ZeroBytes(s: seq<byte>)
    requires forall i :: 0 <= i < |s| ==> s[i] == 0
    ensures LeNat(s) == 0
    decreases |s|
  {
    if |s| > 0 {
      ZeroBytes(s[1..]);
    }
  }

  lemma {:induction false} Pow256IsPow2(k: nat)
    ensures Pow256(k) == Pow2(8 * k)
  {
    if k > 0 {
      Pow256IsPow2(k - 1);
      Pow2Of8();
      Pow2Sum(8, 8 * (k - 1));
    }
  }

  lemma Pow2Of8()
    ensures Pow2(8) == 256
  {
  }

  // ----- bits

  lemma {:induction false} AndPow2(w: nat, p: nat)
    ensures And(w, Pow2(p)) == if Bit(w, p) then Pow2(p) else 0
    decreases p
  {
    if p == 0 {
      assert And(w / 2, 0) == 0;
    } else {
      AndPow2(w / 2, p - 1);
      if w == 0 {
        ZeroHasNoBits(p);
      }
    }
  }

  lemma {:induction false} ZeroHasNoBits(p: nat)
    ensures !Bit(0, p)
  {
    if p > 0 {
      ZeroHasNoBits(p - 1);
    }
  }

  lemma {:induction false} BitBelow(a: nat, y: nat, k: nat, p: nat)
    requires p < k
    ensures Bit(a + Pow2(k) * y, p) <==> Bit(a, p)
    decreases k
  {
    var h := Pow2(k - 1) * y;
    assert Pow2(k) * y == 2 * h;
    assert (a + 2 * h) % 2 == a % 2 && (a + 2 * h) / 2 == a / 2 + h;
    if p > 0 {
      BitBelow(a / 2, y, k - 1, p - 1);
    }
  }

  lemma {:induction false} BitAbove(a: nat, y: nat, k: nat, p: nat)
    requires k <= p && a < Pow2(k)
    ensures Bit(a + Pow2(k) * y, p) <==> Bit(y, p - k)
    decreases k
  {
    if k > 0 {
      var h := Pow2(k - 1) * y;
      assert Pow2(k) * y == 2 * h;
      assert (a + 2 * h) / 2 == a / 2 + h;
      BitAbove(a / 2, y, k - 1, p - 1);
    }
  }

  /** A bit of a little-endian word is a bit of one of its bytes. */
  lemma {:induction false} BitOfBytes(s: seq<byte>, p: nat)
    requires p < 8 * |s|
    ensures Bit(LeNat(s), p) <==> Bit(s[p / 8], p % 8)
    decreases |s|
  {
    Pow2Of8();
    var low: nat, rest := s[0], LeNat(s[1..]);
    assert LeNat(s) == low + Pow2(8) * rest;
    if p < 8 {
      BitBelow(low, rest, 8, p);
    } else {
      BitAbove(low, rest, 8, p);
      BitOfBytes(s[1..], p - 8);
      assert s[1..][(p - 8) / 8] == s[p / 8];
    }
  }

  /** What a bit and a conjunction are, by division. */
  lemma {:induction false} BitByDivision(w: nat, p: nat)
    ensures Bit(w, p) <==> w / Pow2(p) % 2 == 1
    decreases p
  {
    if p > 0 {
      BitByDivision(w / 2, p - 1);
      HalfFirst(w, Pow2(p - 1));
    }
  }

  lemma HalfFirst(w: nat, d: nat)
    requires d > 0
    ensures w / 2 / d == w / (2 * d)
  {
    var h, r := w / 2, w % 2;
    var q, s := h / d, h % d;
    assert h == q * d + s;
    assert w == q * (2 * d) + (2 * s + r) by {
      assert q * (2 * d) == 2 * (q * d);
    }
    DivUnique(w, 2 * d, q, 2 * s + r);
  }

  lemma {:induction false} AndBits(a: nat, b: nat, p: nat)
    ensures Bit(And(a, b), p) <==> Bit(a, p) && Bit(b, p)
    decreases p
  {
    if a == 0 || b == 0 {
      ZeroHasNoBits(p);
    } else if p > 0 {
      AndBits(a / 2, b / 2, p - 1);
    }
  }
}
