/** The C value types the walker works with: bytes, fixed-width integers, NUL-terminated strings
    and little-endian fields of raw buffers. */
module CTypes {
  type byte = x: int | 0 <= x < 256
  type u16 = x: int | 0 <= x < 0x1_0000
  type u32 = x: int | 0 <= x < 0x1_0000_0000
  type Text = seq<byte>

  const NUL: byte := 0
  const DOT: byte := 46
  const SLASH: byte := 47

  datatype Option<+T> = None | Some(value: T)

  /** A device is a constant function from byte offsets to bytes. */
  type Device = int -> byte

  function Read(dev: Device, offset: int, n: nat): (bytes: seq<byte>)
    ensures |bytes| == n
  {
    seq(n, i => dev(offset + i))
  }

  /** Conversion of an unsigned 32-bit value to a two's complement `int`. */
  function ToInt32(x: int): (r: int)
    ensures -0x8000_0000 <= r < 0x8000_0000
    ensures (r - x) % 0x1_0000_0000 == 0
    ensures -0x8000_0000 <= x < 0x8000_0000 ==> r == x
  {
    var m := x % 0x1_0000_0000;
    if m < 0x8000_0000 then m else m - 0x1_0000_0000
  }

  lemma ToInt32Cases(x: int)
    requires -0x1_0000_0000 <= x < 0x1_0000_0000
    ensures ToInt32(x) == if x < -0x8000_0000 then x + 0x1_0000_0000
                          else if x < 0x8000_0000 then x
                          else x - 0x1_0000_0000
  {
    assert x % 0x1_0000_0000 == if x < 0 then x + 0x1_0000_0000 else x;
  }

  function Min(a: int, b: int): int { if a < b then a else b }

  function Pow256(n: nat): (p: int)
    ensures p >= 1
  {
    if n == 0 then 1 else 256 * Pow256(n - 1)
  }

  lemma Pow256Values()
    ensures Pow256(2) == 0x1_0000
    ensures Pow256(4) == 0x1_0000_0000
  {
    assert Pow256(2) == 256 * Pow256(1);
    assert Pow256(4) == 256 * Pow256(3) == 0x1_0000 * Pow256(2);
  }

  /** The value of a little-endian field. */
  function LeNat(s: seq<byte>): (v: nat)
    ensures v < Pow256(|s|)
  {
    if |s| == 0 then 0 else s[0] as int + 256 * LeNat(s[1..])
  }

  function Le16(s: seq<byte>, i: nat): u16
    requires i + 2 <= |s|
  {
    Pow256Values();
    LeNat(s[i..i + 2])
  }

  function Le32(s: seq<byte>, i: nat): u32
    requires i + 4 <= |s|
  {
    Pow256Values();
    LeNat(s[i..i + 4])
  }

  lemma Le16Value(s: seq<byte>, i: nat)
    requires i + 2 <= |s|
    ensures Le16(s, i) == s[i] as int + 0x100 * (s[i + 1] as int)
  {
    var t := s[i..i + 2];
    assert LeNat(t[1..]) == t[1];
  }

  lemma Le32Value(s: seq<byte>, i: nat)
    requires i + 4 <= |s|
    ensures Le32(s, i) == s[i] as int + 0x100 * (s[i + 1] as int)
                          + 0x1_0000 * (s[i + 2] as int) + 0x100_0000 * (s[i + 3] as int)
  {
    var t := s[i..i + 4];
    assert t[1..][1..] == t[2..] && t[2..][1..] == t[3..];
    assert LeNat(t[3..]) == t[3];
    assert LeNat(t[2..]) == t[2] as int + 256 * LeNat(t[3..]);
    assert LeNat(t[1..]) == t[1] as int + 256 * LeNat(t[2..]);
  }

  /** The little-endian field of `n` bytes that holds `v`. */
  function PutLe(v: nat, n: nat): (s: seq<byte>)
    ensures |s| == n
  {
    if n == 0 then [] else [v % 256] + PutLe(v / 256, n - 1)
  }

  lemma {:induction false} LeNatPutLe(v: nat, n: nat)
    requires v < Pow256(n)
    ensures LeNat(PutLe(v, n)) == v
  {
    if n > 0 {
      LeNatPutLe(v / 256, n - 1);
    }
  }

  lemma {:induction false} PutLeLeNat(s: seq<byte>)
    ensures PutLe(LeNat(s), |s|) == s
  {
    if |s| > 0 {
      PutLeLeNat(s[1..]);
      var low: int, rest := s[0], LeNat(s[1..]);
      assert LeNat(s) % 256 == low && LeNat(s) / 256 == rest;
      assert s == [s[0]] + s[1..];
    }
  }

  /** The characters of a buffer before its first NUL: what strlen, strcmp, strcpy and
      std::string(char*) see of it. */
  function CStr(s: seq<byte>): (t: Text)
    ensures |t| <= |s| && t == s[..|t|]
    ensures NUL !in t
    ensures |t| < |s| ==> s[|t|] == NUL
  {
    if |s| == 0 || s[0] == NUL then [] else [s[0]] + CStr(s[1..])
  }

  /** Only one text satisfies the contract of `CStr`. */
  lemma CStrUnique(s: seq<byte>, t: Text)
    requires |t| <= |s| && t == s[..|t|] && NUL !in t
    requires |t| < |s| ==> s[|t|] == NUL
    ensures CStr(s) == t
  {
    var c := CStr(s);
    assert NUL !in c && NUL !in t;
    assert |c| == |t|;
  }
}
