/** Decoding a directory block by its chain of record lengths, and the encoding it inverts. */
module DirectoryParse {
  import opened CTypes
  import opened Sequences

  const HEADER := 8
  const PARENT: Text := [DOT, DOT]
  const LOST_FOUND: Text := [108, 111, 115, 116, 43, 102, 111, 117, 110, 100]

  /** A decoded entry; `name` is what the string functions see of the copied characters. */
  datatype Entry = Entry(inode: u32, recLen: u16, nameLen: byte, fileType: byte, name: Text)

  /** The loop ends normally, on the assertion about `name_len`, or by reading past the block. */
  datatype Listing = Parsed(entries: seq<Entry>) | NameTooLong | Overrun

  predicate Skipped(name: Text)
  {
    name == PARENT || name == LOST_FOUND
  }

  /** The entry whose header starts at `base`. */
  function EntryAt(block: seq<byte>, base: nat): Entry
    requires base + HEADER <= |block| && base + HEADER + block[base + 6] <= |block|
  {
    Entry(Le32(block, base), Le16(block, base + 4), block[base + 6], block[base + 7],
          CStr(block[base + HEADER..base + HEADER + block[base + 6]]))
  }

  function Prepend(es: seq<Entry>, rest: Listing): Listing
  {
    match rest
    case Parsed(entries) => Parsed(es + entries)
    case _ => rest
  }

  /** `..` and `lost+found` are left out of the listing. */
  function Listed(entry: Entry, rest: Listing): Listing
  {
    if Skipped(entry.name) then rest else Prepend([entry], rest)
  }

  /** What the loop yields from offset `base` on. */
  function ParseFrom(block: seq<byte>, base: nat): Listing
    decreases |block| - base
  {
    if base >= |block| then Parsed([])
    else if base + HEADER > |block| then Overrun
    else if block[base + 6] == 255 then NameTooLong
    else if base + HEADER + block[base + 6] > |block| then Overrun
    else
      var entry := EntryAt(block, base);
      if entry.recLen == 0 then Parsed([])
      else Listed(entry, ParseFrom(block, base + entry.recLen))
  }

  function Parse(block: seq<byte>): Listing
  {
    ParseFrom(block, 0)
  }

  /** Copies the header and the characters of one entry. */
  method ReadEntry(block: array<byte>, base: nat) returns (entry: Entry)
    requires base + HEADER <= block.Length && base + HEADER + block[base + 6] <= block.Length
    ensures entry == EntryAt(block[..], base)
  {
    var name: seq<byte> := [];
    for i := 0 to block[base + 6]
      invariant name == block[base + HEADER..base + HEADER + i]
    {
      name := name + [block[base + HEADER + i]];
    }
    assert name == block[..][base + HEADER..base + HEADER + block[base + 6]];
    entry := Entry(Le32(block[..], base), Le16(block[..], base + 4),
                   block[base + 6], block[base + 7], CStr(name));
  }

  /** The parse loop of `read_current_directory`. */
  method ParseBlock(block: array<byte>) returns (listing: Listing)
    ensures listing == Parse(block[..])
  {
    var entries: seq<Entry> := [];
    var base: nat := 0;
    ghost var bytes := block[..];
    while base < block.Length
      invariant Parse(bytes) == Prepend(entries, ParseFrom(bytes, base))
      decreases block.Length - base
    {
      if base + HEADER > block.Length {
        return Overrun;
      }
      if block[base + 6] == 255 {
        return NameTooLong;
      }
      if base + HEADER + block[base + 6] > block.Length {
        return Overrun;
      }
      var entry := ReadEntry(block, base);
      ParseStep(bytes, base, entry);
      base := base + entry.recLen;
      if entry.recLen == 0 {
        break;
      }
      if Skipped(entry.name) {
        continue;
      }
      PrependTwice(entries, [entry], ParseFrom(bytes, base));
      entries := entries + [entry];
    }
    return Parsed(entries);
  }

  lemma ParseStep(block: seq<byte>, base: nat, entry: Entry)
    requires base + HEADER <= |block| && block[base + 6] != 255
    requires base + HEADER + block[base + 6] <= |block|
    requires entry == EntryAt(block, base)
    ensures ParseFrom(block, base)
            == if entry.recLen == 0 then Parsed([])
               else Listed(entry, ParseFrom(block, base + entry.recLen))
  {
  }

  lemma PrependTwice(a: seq<Entry>, b: seq<Entry>, rest: Listing)
    ensures Prepend(a, Prepend(b, rest)) == Prepend(a + b, rest)
  {
    if rest.Parsed? {
      assert a + (b + rest.entries) == a + b + rest.entries;
    }
  }

  /** The name seen by the string functions is no longer than `name_len` and holds no NUL. */
  predicate Tidy(e: Entry)
  {
    |e.name| <= e.nameLen && NUL !in e.name
  }

  lemma {:induction false} ParsedEntriesTidy(block: seq<byte>, base: nat)
    requires ParseFrom(block, base).Parsed?
    ensures forall e :: e in ParseFrom(block, base).entries ==> Tidy(e)
    decreases |block| - base
  {
    if base < |block| {
      var entry := EntryAt(block, base);
      if entry.recLen != 0 {
        ParsedEntriesTidy(block, base + entry.recLen);
      }
    }
  }

  // ----- encoding

  /** A directory record as it is written: the padding makes up the rest of `rec_len`. */
  datatype Record = Record(inode: u32, fileType: byte, name: seq<byte>, padding: seq<byte>)

  predicate Encodable(r: Record)
  {
    |r.name| < 255 && HEADER + |r.name| + |r.padding| < 0x1_0000
  }

  predicate AllEncodable(rs: seq<Record>)
  {
    forall i :: 0 <= i < |rs| ==> Encodable(rs[i])
  }

  function RecLen(r: Record): nat
  {
    HEADER + |r.name| + |r.padding|
  }

  function EncodeRecord(r: Record): (s: seq<byte>)
    requires Encodable(r)
    ensures |s| == RecLen(r)
  {
    PutLe(r.inode, 4) + PutLe(RecLen(r), 2) + [|r.name|] + [r.fileType] + r.name + r.padding
  }

  function Encode(rs: seq<Record>): seq<byte>
    requires AllEncodable(rs)
  {
    if |rs| == 0 then [] else EncodeRecord(rs[0]) + Encode(rs[1..])
  }

  function EntryOf(r: Record): Entry
    requires Encodable(r)
  {
    Entry(r.inode, RecLen(r), |r.name|, r.fileType, CStr(r.name))
  }

  /** The listing a reader is meant to see: every record except `..` and `lost+found`, in order. */
  function Visible(rs: seq<Record>): seq<Entry>
    requires AllEncodable(rs)
  {
    if |rs| == 0 then []
    else
      var entry := EntryOf(rs[0]);
      if Skipped(entry.name) then Visible(rs[1..]) else [entry] + Visible(rs[1..])
  }

  /** A record stands at offset `base`. */
  predicate RecordAt(block: seq<byte>, base: nat, r: Record)
    requires Encodable(r)
  {
    var text, end := base + HEADER + |r.name|, base + RecLen(r);
    && end <= |block|
    && Le32(block, base) == r.inode
    && Le16(block, base + 4) == RecLen(r)
    && block[base + 6] == |r.name|
    && block[base + 7] == r.fileType
    && block[base + HEADER..text] == r.name
    && block[text..end] == r.padding
  }

  /** The records fill the block from `base` to its end. */
  predicate Chained(block: seq<byte>, base: nat, rs: seq<Record>)
    requires AllEncodable(rs)
    decreases |rs|
  {
    if |rs| == 0 then base == |block|
    else RecordAt(block, base, rs[0]) && Chained(block, base + RecLen(rs[0]), rs[1..])
  }

  lemma EntryAtRecord(block: seq<byte>, base: nat, r: Record)
    requires Encodable(r) && RecordAt(block, base, r)
    ensures ParseFrom(block, base) == Listed(EntryOf(r), ParseFrom(block, base + RecLen(r)))
  {
    ParseStep(block, base, EntryOf(r));
  }

  lemma VisibleStep(rs: seq<Record>)
    requires AllEncodable(rs) && |rs| > 0
    ensures Parsed(Visible(rs)) == Listed(EntryOf(rs[0]), Parsed(Visible(rs[1..])))
  {
  }

  lemma {:induction false} ParseChained(block: seq<byte>, base: nat, rs: seq<Record>)
    requires AllEncodable(rs) && Chained(block, base, rs)
    ensures ParseFrom(block, base) == Parsed(Visible(rs))
    decreases |rs|
  {
    if |rs| > 0 {
      ParseChained(block, base + RecLen(rs[0]), rs[1..]);
      EntryAtRecord(block, base, rs[0]);
      VisibleStep(rs);
    }
  }

  lemma Parts(s: seq<byte>, base: nat, text: nat, end: nat)
    requires base + HEADER <= text <= end <= |s|
    ensures s[base..end]
            == s[base..base + 4] + s[base + 4..base + 6] + [s[base + 6]] + [s[base + 7]]
               + s[base + HEADER..text] + s[text..end]
  {
  }

  lemma SixPieces(a: seq<byte>, b: seq<byte>, c: byte, d: byte, e: seq<byte>, f: seq<byte>, s: seq<byte>)
    requires |a| == 4 && |b| == 2 && s == a + b + [c] + [d] + e + f
    ensures s[..4] == a && s[4..6] == b && s[6] == c && s[7] == d
    ensures s[8..8 + |e|] == e && s[8 + |e|..|s|] == f
  {
  }

  lemma BytesOfRecord(block: seq<byte>, base: nat, r: Record)
    requires Encodable(r) && RecordAt(block, base, r)
    ensures block[base..base + RecLen(r)] == EncodeRecord(r)
  {
    PutLeLeNat(block[base..base + 4]);
    PutLeLeNat(block[base + 4..base + 6]);
    Parts(block, base, base + HEADER + |r.name|, base + RecLen(r));
  }

  lemma RecordOfBytes(block: seq<byte>, base: nat, r: Record)
    requires Encodable(r)
    requires base + RecLen(r) <= |block| && block[base..base + RecLen(r)] == EncodeRecord(r)
    ensures RecordAt(block, base, r)
  {
    var s := block[base..base + RecLen(r)];
    Pow256Values();
    LeNatPutLe(r.inode, 4);
    LeNatPutLe(RecLen(r), 2);
    SixPieces(PutLe(r.inode, 4), PutLe(RecLen(r), 2), |r.name|, r.fileType, r.name, r.padding, s);
    SubSlice(block, base, base + RecLen(r), 0, 4);
    SubSlice(block, base, base + RecLen(r), 4, 6);
    SubSlice(block, base, base + RecLen(r), HEADER, HEADER + |r.name|);
    SubSlice(block, base, base + RecLen(r), HEADER + |r.name|, RecLen(r));
    assert block[base + 6] == s[6] && block[base + 7] == s[7];
  }

  lemma {:induction false} ChainedOfEncode(block: seq<byte>, base: nat, rs: seq<Record>)
    requires AllEncodable(rs) && base <= |block| && block[base..] == Encode(rs)
    ensures Chained(block, base, rs)
    decreases |rs|
  {
    if |rs| > 0 {
      SplitAt(block, base, EncodeRecord(rs[0]), Encode(rs[1..]));
      RecordOfBytes(block, base, rs[0]);
      ChainedOfEncode(block, base + RecLen(rs[0]), rs[1..]);
    }
  }

  lemma {:induction false} EncodeOfChained(block: seq<byte>, base: nat, rs: seq<Record>)
    requires AllEncodable(rs) && Chained(block, base, rs)
    ensures base <= |block| && block[base..] == Encode(rs)
    decreases |rs|
  {
    if |rs| > 0 {
      var end := base + RecLen(rs[0]);
      BytesOfRecord(block, base, rs[0]);
      EncodeOfChained(block, end, rs[1..]);
      assert block[base..] == block[base..end] + block[end..];
    }
  }

  /** Parsing inverts encoding: a block filled by any list of records gives back that list without
      `..` and `lost+found`, in order. */
  lemma ParseInvertsEncode(rs: seq<Record>)
    requires AllEncodable(rs)
    ensures Parse(Encode(rs)) == Parsed(Visible(rs))
  {
    ChainedOfEncode(Encode(rs), 0, rs);
    ParseChained(Encode(rs), 0, rs);
  }

  /** A chain of positive record lengths that hold their names and end at the block end. */
  predicate WellChained(block: seq<byte>, base: nat)
    decreases |block| - base
  {
    || base == |block|
    || (&& base + HEADER <= |block|
        && block[base + 6] < 255
        && base + HEADER + block[base + 6] <= base + Le16(block, base + 4) <= |block|
        && WellChained(block, base + Le16(block, base + 4)))
  }

  function RecordFrom(block: seq<byte>, base: nat): Record
    requires base + HEADER <= |block|
    requires base + HEADER + block[base + 6] <= base + Le16(block, base + 4) <= |block|
  {
    var text := base + HEADER + block[base + 6];
    Record(Le32(block, base), block[base + 7], block[base + HEADER..text],
           block[text..base + Le16(block, base + 4)])
  }

  lemma {:induction false} RecordsOfChain(block: seq<byte>, base: nat) returns (rs: seq<Record>)
    requires WellChained(block, base)
    ensures AllEncodable(rs) && Chained(block, base, rs)
    decreases |block| - base
  {
    if base == |block| {
      rs := [];
    } else {
      var r := RecordFrom(block, base);
      assert RecordAt(block, base, r);
      var rest := RecordsOfChain(block, base + RecLen(r));
      rs := [r] + rest;
      assert rs[1..] == rest;
    }
  }

  lemma {:induction false} ChainOfRecords(block: seq<byte>, base: nat, rs: seq<Record>)
    requires AllEncodable(rs) && Chained(block, base, rs)
    ensures WellChained(block, base)
    decreases |rs|
  {
    if |rs| > 0 {
      ChainOfRecords(block, base + RecLen(rs[0]), rs[1..]);
    }
  }

  /** Exactly the well-chained blocks are encodings of record lists. */
  lemma WellChainedIffEncoded(block: seq<byte>)
    ensures WellChained(block, 0) <==> exists rs :: AllEncodable(rs) && Encode(rs) == block
  {
    if WellChained(block, 0) {
      var rs := RecordsOfChain(block, 0);
      EncodeOfChained(block, 0, rs);
      assert block[0..] == block;
    }
    if exists rs :: AllEncodable(rs) && Encode(rs) == block {
      var rs :| AllEncodable(rs) && Encode(rs) == block;
      ChainedOfEncode(block, 0, rs);
      ChainOfRecords(block, 0, rs);
    }
  }

  // ----- the format, byte by byte

  /** Where the fields of an entry stand. */
  lemma EntryBytes(block: seq<byte>, base: nat)
    requires base + 8 <= |block| && base + 8 + block[base + 6] <= |block|
    ensures var e := EntryAt(block, base);
      && e.inode == block[base] as int + 0x100 * (block[base + 1] as int)
                    + 0x1_0000 * (block[base + 2] as int) + 0x100_0000 * (block[base + 3] as int)
      && e.recLen == block[base + 4] as int + 0x100 * (block[base + 5] as int)
      && e.nameLen == block[base + 6]
      && e.fileType == block[base + 7]
      && e.name == CStr(block[base + 8..base + 8 + block[base + 6]])
  {
    Le32Value(block, base);
    Le16Value(block, base + 4);
  }

  /** Where the loop stops, and what it does with an entry. */
  lemma ParseCases(block: seq<byte>, base: nat)
    ensures base >= |block| ==> ParseFrom(block, base) == Parsed([])
    ensures base < |block| < base + 8 ==> ParseFrom(block, base) == Overrun
    ensures base + 8 <= |block| && block[base + 6] == 255 ==> ParseFrom(block, base) == NameTooLong
    ensures base + 8 <= |block| && block[base + 6] < 255 && base + 8 + block[base + 6] > |block| ==>
      ParseFrom(block, base) == Overrun
    ensures base + 8 <= |block| && block[base + 6] < 255 && base + 8 + block[base + 6] <= |block| ==>
      var e := EntryAt(block, base);
      && (e.recLen == 0 ==> ParseFrom(block, base) == Parsed([]))
      && (e.recLen > 0 && ParseFrom(block, base + e.recLen).Parsed? ==>
            ParseFrom(block, base)
            == Parsed((if e.name == [46, 46] || e.name == [108, 111, 115, 116, 43, 102, 111, 117, 110, 100]
                       then [] else [e])
                      + ParseFrom(block, base + e.recLen).entries))
      && (e.recLen > 0 && !ParseFrom(block, base + e.recLen).Parsed? ==>
            ParseFrom(block, base) == ParseFrom(block, base + e.recLen))
  {
    if base + 8 <= |block| && block[base + 6] < 255 && base + 8 + block[base + 6] <= |block| {
      var e := EntryAt(block, base);
      if e.recLen > 0 && ParseFrom(block, base + e.recLen).Parsed? {
        var rest := ParseFrom(block, base + e.recLen).entries;
        assert [] + rest == rest;
      }
    }
  }

  /** A record read back alone: all but `..` and `lost+found` are listed. */
  lemma ParseOne(r: Record)
    requires Encodable(r)
    ensures Parse(Encode([r]))
            == Parsed(if CStr(r.name) == [46, 46]
                         || CStr(r.name) == [108, 111, 115, 116, 43, 102, 111, 117, 110, 100]
                      then [] else [EntryOf(r)])
  {
    ParseInvertsEncode([r]);
    assert Visible([r][1..]) == [];
  }

  lemma VisibleHead(rs: seq<Record>)
    requires AllEncodable(rs) && |rs| > 0
    ensures Visible(rs) == (if Skipped(EntryOf(rs[0]).name) then [] else [EntryOf(rs[0])]) + Visible(rs[1..])
  {
    assert [] + Visible(rs[1..]) == Visible(rs[1..]);
  }

  lemma {:induction false} VisibleAppend(a: seq<Record>, b: seq<Record>)
    requires AllEncodable(a) && AllEncodable(b)
    ensures AllEncodable(a + b) && Visible(a + b) == Visible(a) + Visible(b)
  {
    if |a| == 0 {
      assert a + b == b;
    } else {
      VisibleAppend(a[1..], b);
      VisibleHead(a);
      VisibleHead(a + b);
      assert (a + b)[0] == a[0] && (a + b)[1..] == a[1..] + b;
      var head := if Skipped(EntryOf(a[0]).name) then [] else [EntryOf(a[0])];
      Assoc(head, Visible(a[1..]), Visible(b));
    }
  }

  /** Any list of records is read back record by record. */
  lemma ParseAppend(a: seq<Record>, b: seq<Record>)
    requires AllEncodable(a) && AllEncodable(b)
    ensures AllEncodable(a + b) && Parse(Encode(a)).Parsed? && Parse(Encode(b)).Parsed?
    ensures Parse(Encode(a + b)) == Parsed(Parse(Encode(a)).entries + Parse(Encode(b)).entries)
  {
    VisibleAppend(a, b);
    ParseInvertsEncode(a);
    ParseInvertsEncode(b);
    ParseInvertsEncode(a + b);
  }

  /** The fields of a record that is read back. */
  lemma EntryFields(r: Record)
    requires Encodable(r)
    ensures EntryOf(r) == Entry(r.inode, 8 + |r.name| + |r.padding|, |r.name|, r.fileType, CStr(r.name))
  {
  }
}
