/** The blocks named by a revoke record of the journal. */
module Revoke {
  import opened Arithmetic
  import opened CTypes
  import opened ByteOrder
  import opened Sequences

  /** `sizeof(journal_revoke_header_t)`: three header words and the byte count. */
  const SIZEOF_REVOKE_HEADER := 16
  const COUNT_OFFSET := 12

  function ByteCount(block: seq<byte>): u32
    requires SIZEOF_REVOKE_HEADER <= |block|
  {
    Be2Le(Le32(block, COUNT_OFFSET))
  }

  /** The assertions of the constructor, with the value of the variable `block_size_`. */
  predicate RevokePasses(block: seq<byte>, blockSize: int)
  {
    && SIZEOF_REVOKE_HEADER <= |block|
    && SIZEOF_REVOKE_HEADER <= ByteCount(block) <= blockSize
    && (ByteCount(block) - SIZEOF_REVOKE_HEADER) % 4 == 0
  }

  /** A buffer in pieces of four bytes. */
  function Chunks(s: seq<byte>): (cs: seq<seq<byte>>)
    requires |s| % 4 == 0
    ensures |cs| == |s| / 4
    ensures forall i :: 0 <= i < |cs| ==> |cs[i]| == 4
  {
    if |s| == 0 then []
    else
      FourLess(|s|);
      Chunks(s[..|s| - 4]) + [s[|s| - 4..]]
  }

  lemma FourLess(n: nat)
    requires n % 4 == 0 && n > 0
    ensures n >= 4 && (n - 4) % 4 == 0 && (n - 4) / 4 == n / 4 - 1
  {
    DivUnique(n - 4, 4, n / 4 - 1, 0);
  }

  /** `be2le` of one word. */
  function BeWord(c: seq<byte>): u32
  {
    if |c| == 4 then Be2Le(Le32(c, 0)) else 0
  }

  /** The blocks that a record names: the words between the header and its byte count. */
  function RevokedBlocks(block: seq<byte>): seq<u32>
    requires RevokePasses(block, |block|)
  {
    MapSeq(BeWord, Chunks(block[SIZEOF_REVOKE_HEADER..ByteCount(block)]))
  }

  class DescriptorRevoke {
    const block: u32
    const sequence: u32
    var blocks: seq<u32>

    /** Every read stays inside the block, and nothing but the named blocks is kept. */
    constructor (block: u32, sequence: u32, header: seq<byte>, blockSize: int)
      requires RevokePasses(header, blockSize) && blockSize <= |header|
      ensures this.block == block && this.sequence == sequence
      ensures blocks == RevokedBlocks(header)
    {
      this.block := block;
      this.sequence := sequence;
      this.blocks := [];
      new;
      var count := (ByteCount(header) - SIZEOF_REVOKE_HEADER) / 4;
      var b := 0;
      while b < count
        invariant 0 <= b <= count
        invariant blocks == FirstWords(header, b)
      {
        var offset := SIZEOF_REVOKE_HEADER + 4 * b;
        NextWord(header, b);
        blocks := blocks + [BeWord(header[offset..offset + 4])];
        b := b + 1;
      }
    }
  }

  /** The first words after the header. */
  function FirstWords(block: seq<byte>, count: nat): seq<u32>
    requires SIZEOF_REVOKE_HEADER + 4 * count <= |block|
  {
    MapSeq(BeWord, Chunks(block[SIZEOF_REVOKE_HEADER..SIZEOF_REVOKE_HEADER + 4 * count]))
  }

  lemma NextWord(block: seq<byte>, b: nat)
    requires SIZEOF_REVOKE_HEADER + 4 * (b + 1) <= |block|
    ensures var offset := SIZEOF_REVOKE_HEADER + 4 * b;
      FirstWords(block, b + 1) == FirstWords(block, b) + [BeWord(block[offset..offset + 4])]
  {
    var start := SIZEOF_REVOKE_HEADER;
    SubSlice(block, start, start + 4 * b + 4, 0, 4 * b);
    SubSlice(block, start, start + 4 * b + 4, 4 * b, 4 * b + 4);
    ChunksStep(block[start..start + 4 * b + 4]);
  }

  lemma ChunksStep(s: seq<byte>)
    requires |s| % 4 == 0 && |s| > 0
    ensures MapSeq(BeWord, Chunks(s)) == MapSeq(BeWord, Chunks(s[..|s| - 4])) + [BeWord(s[|s| - 4..])]
  {
    MapAppend(BeWord, Chunks(s[..|s| - 4]), s[|s| - 4..]);
  }

  // ----- encoding

  function PutWord(w: u32): seq<byte>
  {
    PutBe32(w)
  }

  function PutWords(ws: seq<u32>): seq<byte>
  {
    Concat(MapSeq(PutWord, ws))
  }

  /** A revoke block: a header, the byte count, the words, and whatever fills the rest. */
  function EncodeRevoke(header: seq<byte>, ws: seq<u32>, rest: seq<byte>): seq<byte>
    requires |header| == COUNT_OFFSET && SIZEOF_REVOKE_HEADER + 4 * |ws| < 0x1_0000_0000
  {
    header + PutBe32(SIZEOF_REVOKE_HEADER + 4 * |ws|) + PutWords(ws) + rest
  }

  lemma {:induction false} ChunksOfConcat(cs: seq<seq<byte>>)
    requires forall i :: 0 <= i < |cs| ==> |cs[i]| == 4
    ensures |Concat(cs)| == 4 * |cs|
    ensures Chunks(Concat(cs)) == cs
  {
    if |cs| > 0 {
      var k := |cs| - 1;
      ChunksOfConcat(cs[..k]);
      var s := Concat(cs);
      assert s[..4 * k] == Concat(cs[..k]) && s[4 * k..] == cs[k];
    }
  }

  lemma {:induction false} ConcatOfChunks(s: seq<byte>)
    requires |s| % 4 == 0
    ensures Concat(Chunks(s)) == s
    decreases |s|
  {
    if |s| > 0 {
      var k := |s| - 4;
      ConcatOfChunks(s[..k]);
      ConcatAppend(Chunks(s[..k]), s[k..]);
      assert s == s[..k] + s[k..];
    }
  }

  lemma WordOfBytes(w: u32)
    ensures BeWord(PutWord(w)) == w
  {
    var c := PutWord(w);
    assert c[0..4] == c;
    Be2LeReadsBe(c, 0, w);
  }

  lemma BytesOfWord(c: seq<byte>)
    requires |c| == 4
    ensures PutWord(BeWord(c)) == c
  {
    assert c[0..4] == c;
    BeReadsOnly(c, 0);
  }

  lemma WordsOfPutWords(ws: seq<u32>)
    ensures |PutWords(ws)| == 4 * |ws|
    ensures MapSeq(BeWord, Chunks(PutWords(ws))) == ws
  {
    var cs := MapSeq(PutWord, ws);
    assert forall i :: 0 <= i < |cs| ==> |PutWord(ws[i])| == 4;
    ChunksOfConcat(cs);
    forall i | 0 <= i < |ws|
      ensures MapSeq(BeWord, cs)[i] == ws[i]
    {
      WordOfBytes(ws[i]);
    }
  }

  /** Decoding a revoke block inverts encoding, whatever stands around the list; it passes exactly when
      the list fits the block size. */
  lemma DecodeInvertsEncode(header: seq<byte>, ws: seq<u32>, rest: seq<byte>, blockSize: int)
    requires |header| == COUNT_OFFSET && SIZEOF_REVOKE_HEADER + 4 * |ws| < 0x1_0000_0000
    ensures RevokePasses(EncodeRevoke(header, ws, rest), blockSize)
            <==> SIZEOF_REVOKE_HEADER + 4 * |ws| <= blockSize
    ensures RevokePasses(EncodeRevoke(header, ws, rest), |EncodeRevoke(header, ws, rest)|)
    ensures RevokedBlocks(EncodeRevoke(header, ws, rest)) == ws
  {
    var end := SIZEOF_REVOKE_HEADER + 4 * |ws|;
    var block := EncodeRevoke(header, ws, rest);
    WordsOfPutWords(ws);
    assert block[COUNT_OFFSET..COUNT_OFFSET + 4] == PutBe32(end);
    Be2LeReadsBe(block, COUNT_OFFSET, end);
    assert block[SIZEOF_REVOKE_HEADER..end] == PutWords(ws);
  }

  lemma PutWordsOfWords(s: seq<byte>)
    requires |s| % 4 == 0
    ensures PutWords(MapSeq(BeWord, Chunks(s))) == s
  {
    var cs := Chunks(s);
    forall i | 0 <= i < |cs|
      ensures MapSeq(PutWord, MapSeq(BeWord, cs))[i] == cs[i]
    {
      BytesOfWord(cs[i]);
    }
    assert MapSeq(PutWord, MapSeq(BeWord, cs)) == cs;
    ConcatOfChunks(s);
  }

  /** Every block that passes the assertions is an encoding of the list it names. */
  lemma EncodeInvertsDecode(block: seq<byte>, blockSize: int)
    requires RevokePasses(block, blockSize) && blockSize <= |block|
    ensures block == EncodeRevoke(block[..COUNT_OFFSET], RevokedBlocks(block), block[ByteCount(block)..])
  {
    var end := ByteCount(block);
    PutWordsOfWords(block[SIZEOF_REVOKE_HEADER..end]);
    BeReadsOnly(block, COUNT_OFFSET);
    assert SIZEOF_REVOKE_HEADER + 4 * |RevokedBlocks(block)| == end;
    FourParts(block, COUNT_OFFSET, SIZEOF_REVOKE_HEADER, end);
  }

  lemma FourParts(s: seq<byte>, a: nat, b: nat, c: nat)
    requires a <= b <= c <= |s|
    ensures s == s[..a] + s[a..b] + s[b..c] + s[c..]
  {
  }

  // ----- the format, byte by byte

  lemma {:induction false} ChunkAt(s: seq<byte>, k: nat)
    requires |s| % 4 == 0 && 4 * k + 4 <= |s|
    ensures Chunks(s)[k] == s[4 * k..4 * k + 4]
    decreases |s|
  {
    var n := |s| - 4;
    FourLess(|s|);
    if 4 * k < n {
      ChunkAt(s[..n], k);
      assert s[..n][4 * k..4 * k + 4] == s[4 * k..4 * k + 4];
    }
  }

  /** The byte count stands at 12, the named blocks from 16 on, all of them big-endian. */
  lemma RevokeBytes(block: seq<byte>, k: nat)
    requires RevokePasses(block, |block|)
    ensures ByteCount(block) == 0x100_0000 * (block[12] as int) + 0x1_0000 * (block[13] as int)
                                + 0x100 * (block[14] as int) + block[15] as int
    ensures 4 * |RevokedBlocks(block)| == ByteCount(block) - 16
    ensures k < |RevokedBlocks(block)| ==>
      var at := 16 + 4 * k;
      at + 4 <= |block|
      && RevokedBlocks(block)[k] == 0x100_0000 * (block[at] as int) + 0x1_0000 * (block[at + 1] as int)
                                    + 0x100 * (block[at + 2] as int) + block[at + 3] as int
  {
    BeValue(block, 12);
    if k < |RevokedBlocks(block)| {
      var tail, at := block[16..ByteCount(block)], 16 + 4 * k;
      ChunkAt(tail, k);
      SubSlice(block, 16, ByteCount(block), 4 * k, 4 * k + 4);
      BeValue(block[at..at + 4], 0);
    }
  }
}
