/** A small image on which some of the program's defects show: the sort hides an entry, a text overruns
    its buffer, and an inode number ends the program. */
module Witnesses {
  import opened Arithmetic
  import opened CTypes
  import opened Sequences
  import opened Geometry
  import opened Image
  import opened DirectoryParse
  import opened WalkSpec
  import opened WalkTheorems
  import opened WalkChoices
  import opened WalkPaths
  import opened WalkLogs
  import opened InodeCache
  import opened Database
  import opened Walker
  import opened ReadInode

  /** Two groups of eight inodes, blocks of 1024 bytes, and a journal in inode 8. */
  const SMALL: SuperBlock := SuperBlock(16, 8, 0, 0, 128, 0xEF53, 0, 0, 8, 0)

  function Zeros(n: nat): (s: seq<byte>)
    ensures |s| == n
  {
    seq(n, _ => 0)
  }

  /** The inode tables of the groups are in blocks 5 and 9. Inode 2 is a directory, mode 0x41ED, with
      block 6; inode 8 has block 4, the journal's; inode 11 is a file, mode 0x81A4, that fills its block 7
      with text; everything else is zero. */
  function DeviceWith(directory: seq<byte>): Device
    requires |directory| == 1024
  {
    x => if 6144 <= x < 7168 then directory[x - 6144]
         else if 7168 <= x < 8192 then 65
         else if x == 2056 then 5
         else if x == 2088 then 9
         else if x == 4096 then 0xC0
         else if x == 4097 then 0x3B
         else if x == 4098 then 0x39
         else if x == 4099 then 0x98
         else if x == 4110 then 4
         else if x == 5248 then 0xED
         else if x == 5249 then 0x41
         else if x == 5288 then 6
         else if x == 6056 then 4
         else if x == 9472 then 0xA4
         else if x == 9473 then 0x81
         else if x == 9477 then 4
         else if x == 9512 then 7
         else 0
  }

  ghost predicate IsSmall(img: Image, directory: seq<byte>)
  {
    && |directory| == 1024
    && img.consts == Consts(2, 1024, 10, 8, 128, 16, 2)
    && img.dev == DeviceWith(directory)
  }

  lemma SmallAccepted(directory: seq<byte>)
    requires |directory| == 1024
    ensures Accepts(SMALL)
    ensures IsSmall(ImageOf(SMALL, DeviceWith(directory)), directory)
  {
    assert Pow2(0) == 1;
    AssertionsIff(SMALL);
    InitConstsAre(SMALL);
  }

  // ----- the inodes and the root directory

  lemma SmallTables(img: Image, directory: seq<byte>)
    requires IsSmall(img, directory)
    ensures DescAt(img, 0).inodeTable == 5 && DescAt(img, 1).inodeTable == 9
  {
    DescBytes(img, 0);
    DescBytes(img, 1);
  }

  lemma SmallPlace(img: Image, directory: seq<byte>, n: int, group: int, at: int)
    requires IsSmall(img, directory) && 1 <= n <= 16 && 8 * group < n <= 8 * group + 8
    requires at == (if group == 0 then 5120 else 9216) + 128 * (n - 1 - 8 * group)
    ensures ValidInode(img.consts, n) && InodeOffset(img, n) == at
    ensures DescAt(img, (n - 1) / img.consts.inodesPerGroup).inodeTable < 0x8000_0000
  {
    SmallTables(img, directory);
    DescBytes(img, group);
    assert (n - 1) / 8 == group && (n - 1) % 8 == n - 1 - 8 * group;
  }

  lemma SmallInode(img: Image, directory: seq<byte>, n: int, group: int, at: int)
    requires IsSmall(img, directory) && 1 <= n <= 16 && 8 * group < n <= 8 * group + 8
    requires at == (if group == 0 then 5120 else 9216) + 128 * (n - 1 - 8 * group)
    ensures InodeAt(img, n)
            == Inode(img.dev(at) as int + 0x100 * (img.dev(at + 1) as int), Word(img.dev, at + 4),
                     Word(img.dev, at + 40))
  {
    SmallPlace(img, directory, n, group, at);
    InodeBytes(img, n);
  }

  lemma SmallInodes(img: Image, directory: seq<byte>)
    requires IsSmall(img, directory)
    ensures InodeAt(img, 2) == Inode(0x41ED, 0, 6)
    ensures InodeAt(img, 3) == InodeAt(img, 4) == Inode(0, 0, 0)
    ensures InodeAt(img, 8) == Inode(0, 0, 4)
    ensures InodeAt(img, 11) == Inode(0x81A4, 1024, 7)
  {
    SmallInode(img, directory, 2, 0, 5248);
    SmallInode(img, directory, 3, 0, 5376);
    SmallInode(img, directory, 4, 0, 5504);
    SmallInode(img, directory, 8, 0, 6016);
    SmallInode(img, directory, 11, 1, 9472);
  }

  lemma SmallJournalWords(directory: seq<byte>)
    requires |directory| == 1024
    ensures BeWordAt(DeviceWith(directory), 4096) == 0xC03B_3998
    ensures BeWordAt(DeviceWith(directory), 4108) == 1024
  {
  }

  lemma SmallJournal(img: Image, directory: seq<byte>)
    requires IsSmall(img, directory)
    ensures ValidInode(img.consts, SMALL.journalInum) && JournalPasses(img, SMALL)
  {
    SmallInodes(img, directory);
    SmallJournalWords(directory);
    JournalNumbers(img, SMALL, 4);
  }

  lemma SmallListing(img: Image, directory: seq<byte>)
    requires IsSmall(img, directory)
    ensures ListingOf(img, 2) == Parse(directory)
    ensures IsDir(img, 2) && !IsDir(img, 3) && !IsDir(img, 4)
  {
    SmallInodes(img, directory);
    BlockOffsets(img.consts, 6);
    assert ReadBlock(img, 6) == directory;
  }

  lemma SmallRoot(img: Image, directory: seq<byte>)
    requires IsSmall(img, directory) && Parse(directory).Parsed?
    ensures ViewOf(img).listing(2) == Parse(directory) && ViewOf(img).isDir(2)
    ensures !ViewOf(img).isDir(3) && !ViewOf(img).isDir(4)
  {
    SmallListing(img, directory);
  }

  // ----- an entry that is hidden

  /** A directory block with two records of type 2, named `a` and `b`. */
  lemma TwoRecords() returns (block: seq<byte>, a: Entry, b: Entry)
    ensures |block| == 1024 && Parse(block) == Parsed([a, b])
    ensures a.inode == 3 && a.fileType == 2 && a.name == [97]
    ensures b.inode == 4 && b.fileType == 2 && b.name == [98]
  {
    var first, second := Record(3, 2, [97], Zeros(3)), Record(4, 2, [98], Zeros(1003));
    var rs := [first, second];
    assert Encode(rs[1..]) == EncodeRecord(second) + Encode([]) == EncodeRecord(second);
    block := Encode(rs);
    ParseInvertsEncode(rs);
    CStrUnique([97], [97]);
    CStrUnique([98], [98]);
    a, b := EntryOf(first), EntryOf(second);
    assert Visible(rs[1..]) == [b];
    assert Visible(rs) == [a, b];
  }

  /** A root directory of two type-2 entries that are no directories. */
  ghost predicate HasTwoBlockers(c: Consts, v: View, a: Entry, b: Entry)
  {
    && ValidInode(c, ROOT_INODE) && v.isDir(ROOT_INODE)
    && v.listing(ROOT_INODE) == Parsed([a, b])
    && Blocks(v, a) && a.fileType == 2 && ValidInode(c, a.inode)
    && Blocks(v, b) && b.fileType == 2 && ValidInode(c, b.inode)
  }

  lemma BlockerOf(v: View, e: Entry, c: byte)
    requires !v.isDir(e.inode) && e.fileType == 2 && e.name == [c] && c != DOT
    ensures Blocks(v, e)
  {
  }

  lemma BlockersOf(c: Consts, v: View, a: Entry, b: Entry)
    requires c.inodeCount == 16 && v.isDir(ROOT_INODE) && v.listing(ROOT_INODE) == Parsed([a, b])
    requires !v.isDir(3) && a.inode == 3 && a.fileType == 2 && a.name == [97]
    requires !v.isDir(4) && b.inode == 4 && b.fileType == 2 && b.name == [98]
    ensures HasTwoBlockers(c, v, a, b)
  {
    BlockerOf(v, a, 97);
    BlockerOf(v, b, 98);
  }

  /** In such a directory some run leaves out the second entry. */
  lemma SecondHidden(c: Consts, v: View, a: Entry, b: Entry)
    requires HasTwoBlockers(c, v, a, b)
    ensures exists r :: ValidRun(v, ROOT_INODE, r) && !LowProcessed(r)
  {
    var es := [a, b];
    var r := Run(es, [Run([], [])]);
    assert SortedBy(TypeOf, es);
    assert ValidSteps(v, r.order, r.subs) && Stopped(v, r);
    assert r.order[1] == b;
    assert ValidRun(v, ROOT_INODE, r) && !LowProcessed(r);
  }

  lemma BlockersRanked(c: Consts, v: View, a: Entry, b: Entry)
    requires HasTwoBlockers(c, v, a, b)
    ensures Ranked(v, map[ROOT_INODE := 0])
    ensures forall e :: e in v.listing(ROOT_INODE).entries ==> ValidInode(c, e.inode)
  {
    assert forall e :: e in [a, b] ==> e == a || e == b;
  }

  lemma BlockersWellFormed(img: Image, a: Entry, b: Entry)
    requires HasTwoBlockers(img.consts, ViewOf(img), a, b)
    ensures WellFormed(img, map[ROOT_INODE := 0])
  {
    BlockersRanked(img.consts, ViewOf(img), a, b);
  }

  lemma ReadyToWalk(dev: Device, directory: seq<byte>, rank: map<int, nat>)
    requires Accepts(SMALL) && IsSmall(ImageOf(SMALL, dev), directory)
    requires ROOT_INODE in rank && WellFormed(ImageOf(SMALL, dev), rank)
    ensures Ready(SMALL, dev, rank) && JournalPasses(ImageOf(SMALL, dev), SMALL)
  {
    SmallJournal(ImageOf(SMALL, dev), directory);
  }

  /** A superblock and a device that pass all checks and can be walked, and a run over the root
      directory that leaves out one of its two type-2 entries. */
  lemma StopHidesEntry() returns (sb: SuperBlock, dev: Device)
    ensures Accepts(sb) && Ready(sb, dev, map[ROOT_INODE := 0])
    ensures JournalPasses(ImageOf(sb, dev), sb) && ViewOf(ImageOf(sb, dev)).isDir(ROOT_INODE)
    ensures exists r :: ValidRun(ViewOf(ImageOf(sb, dev)), ROOT_INODE, r) && !LowProcessed(r)
  {
    var directory, a, b;
    sb := SMALL;
    directory, a, b := TwoRecords();
    dev := DeviceWith(directory);
    SmallAccepted(directory);
    var img := ImageOf(sb, dev);
    SmallRoot(img, directory);
    BlockersOf(img.consts, ViewOf(img), a, b);
    SecondHidden(img.consts, ViewOf(img), a, b);
    BlockersWellFormed(img, a, b);
    ReadyToWalk(dev, directory, map[ROOT_INODE := 0]);
  }

  // ----- a byte that is overwritten

  /** A root directory of one file that fills its first block with text. */
  ghost predicate HasOneFile(c: Consts, v: View, a: Entry)
  {
    && ValidInode(c, ROOT_INODE) && v.isDir(ROOT_INODE)
    && v.listing(ROOT_INODE) == Parsed([a])
    && FileBranch(a) && ValidInode(c, a.inode) && !Fatal(v, a) && v.overruns(a.inode)
  }

  lemma OneFileRanked(c: Consts, v: View, a: Entry)
    requires HasOneFile(c, v, a)
    ensures Ranked(v, map[ROOT_INODE := 0])
    ensures forall e :: e in v.listing(ROOT_INODE).entries ==> ValidInode(c, e.inode)
  {
    assert forall e :: e in [a] ==> e == a;
  }

  lemma OneFileWellFormed(img: Image, a: Entry)
    requires HasOneFile(img.consts, ViewOf(img), a)
    ensures WellFormed(img, map[ROOT_INODE := 0])
  {
    OneFileRanked(img.consts, ViewOf(img), a);
  }

  lemma OneFileSafe(c: Consts, v: View, a: Entry, chain: seq<Entry>)
    requires HasOneFile(c, v, a)
    ensures !LeadsToAbort(v, ROOT_INODE, chain)
  {
    if IsChain(v, ROOT_INODE, chain) {
      assert chain[0] in [a];
    }
  }

  /** No assertion ends a run over such a directory, and every run reads the file. */
  lemma EveryRunOverruns(c: Consts, v: View, a: Entry, r: Run)
    requires HasOneFile(c, v, a) && ValidRun(v, ROOT_INODE, r)
    ensures !Aborts(v, RunLog(v, ROOT_PREFIX, r))
    ensures OverrunCount(v, RunLog(v, ROOT_PREFIX, r)) > 0
  {
    forall chain
      ensures !LeadsToAbort(v, ROOT_INODE, chain)
    {
      OneFileSafe(c, v, a, chain);
    }
    OneFileRanked(c, v, a);
    AbortPossibleIff(v, map[ROOT_INODE := 0], ROOT_INODE, ROOT_PREFIX);
    assert a in [a] && IsChain(v, ROOT_INODE, [a]) && Certain(v, ROOT_INODE, [a]);
    ChainEmitted(v, ROOT_INODE, ROOT_PREFIX, r, [a]);
    assert Overruns(v, EmissionOf(v, ROOT_PREFIX, a));
    OverrunCountIff(v, RunLog(v, ROOT_PREFIX, r));
  }

  /** A directory block with one record of type 1, named `a`. */
  lemma OneRecord(inode: u32) returns (block: seq<byte>, a: Entry)
    ensures |block| == 1024 && Parse(block) == Parsed([a])
    ensures a.inode == inode && a.fileType == 1 && a.name == [97]
  {
    var r := Record(inode, 1, [97], Zeros(1015));
    var rs := [r];
    assert Encode(rs) == EncodeRecord(r) + Encode([]) == EncodeRecord(r);
    block := Encode(rs);
    ParseInvertsEncode(rs);
    CStrUnique([97], [97]);
    a := EntryOf(r);
    assert Visible(rs[1..]) == [];
    assert Visible(rs) == [a];
  }

  /** Reads a file into a buffer of ones, and nothing else: its content is there, and the byte after the
      allocation is zero exactly if the file overruns it. */
  method ByteAfter(img: Image, n: int) returns (walker: Walker)
    requires ValidInode(img.consts, n)
    ensures fresh(walker) && walker.sumFiles == 1
    ensures walker.fileContent.Length == img.consts.blockSize + 1
    ensures CStr(walker.fileContent[..]) == FileText(img, n)
    ensures walker.fileContent[img.consts.blockSize] == if Overflows(img, n) then NUL else 1
    ensures walker.overruns == if Overflows(img, n) then 1 else 0
  {
    var cache := new InodeCache(img.consts, img.dev);
    var db := new DB(c => c != 0);
    walker := new Walker(cache, db);
    walker.fileContent := new byte[cache.img.consts.blockSize + 1](_ => 1);
    var aborted := walker.ReadFileInode(n);
  }

  lemma SmallOverflows(img: Image, directory: seq<byte>)
    requires IsSmall(img, directory)
    ensures ValidInode(img.consts, 11) && Overflows(img, 11)
  {
    SmallInodes(img, directory);
    BlockOffsets(img.consts, 7);
  }

  lemma FileOf(img: Image, a: Entry)
    requires img.consts.inodeCount == 16 && ViewOf(img).isDir(ROOT_INODE)
    requires ViewOf(img).listing(ROOT_INODE) == Parsed([a]) && Overflows(img, 11)
    requires a.inode == 11 && a.fileType == 1 && a.name == [97]
    ensures HasOneFile(img.consts, ViewOf(img), a)
  {
  }

  /** A superblock and a device that pass all checks and can be walked, and on which every run from the
      root writes a terminator past its buffer. */
  lemma TerminatorOutOfBounds() returns (sb: SuperBlock, dev: Device)
    ensures Accepts(sb) && Ready(sb, dev, map[ROOT_INODE := 0])
    ensures JournalPasses(ImageOf(sb, dev), sb) && ViewOf(ImageOf(sb, dev)).isDir(ROOT_INODE)
    ensures var v := ViewOf(ImageOf(sb, dev));
      forall r :: ValidRun(v, ROOT_INODE, r) ==>
        && !Aborts(v, RunLog(v, ROOT_PREFIX, r))
        && OverrunCount(v, RunLog(v, ROOT_PREFIX, r)) > 0
  {
    var directory, a;
    sb := SMALL;
    directory, a := OneRecord(11);
    dev := DeviceWith(directory);
    SmallAccepted(directory);
    var img := ImageOf(sb, dev);
    SmallRoot(img, directory);
    SmallOverflows(img, directory);
    FileOf(img, a);
    OneFileWellFormed(img, a);
    ReadyToWalk(dev, directory, map[ROOT_INODE := 0]);
    var v := ViewOf(img);
    forall r | ValidRun(v, ROOT_INODE, r)
      ensures !Aborts(v, RunLog(v, ROOT_PREFIX, r)) && OverrunCount(v, RunLog(v, ROOT_PREFIX, r)) > 0
    {
      EveryRunOverruns(img.consts, v, a, r);
    }
  }

  // ----- an inode number that ends the program

  /** A root directory of one entry for inode zero. */
  ghost predicate HasZeroInode(c: Consts, v: View, a: Entry)
  {
    && ValidInode(c, ROOT_INODE) && v.isDir(ROOT_INODE)
    && v.listing(ROOT_INODE) == Parsed([a])
    && FileBranch(a) && Fatal(v, a) && LookUpDefined(c, a.inode)
  }

  lemma ZeroInodeRanked(c: Consts, v: View, a: Entry)
    requires HasZeroInode(c, v, a)
    ensures Ranked(v, map[ROOT_INODE := 0])
    ensures forall e :: e in v.listing(ROOT_INODE).entries ==> LookUpDefined(c, e.inode)
  {
    assert forall e :: e in [a] ==> e == a;
  }

  lemma ZeroInodeWellFormed(img: Image, a: Entry)
    requires HasZeroInode(img.consts, ViewOf(img), a)
    ensures WellFormed(img, map[ROOT_INODE := 0])
  {
    ZeroInodeRanked(img.consts, ViewOf(img), a);
  }

  lemma ZeroInodeOf(img: Image, a: Entry)
    requires img.consts.inodeCount == 16 && ViewOf(img).isDir(ROOT_INODE)
    requires ViewOf(img).listing(ROOT_INODE) == Parsed([a])
    requires a.inode == 0 && a.fileType == 1 && a.name == [97]
    ensures HasZeroInode(img.consts, ViewOf(img), a)
  {
    ZeroFails(img.consts);
  }

  /** Every run over such a directory ends the program, before anything is added. */
  lemma EveryRunEnds(c: Consts, v: View, a: Entry, r: Run)
    requires HasZeroInode(c, v, a) && ValidRun(v, ROOT_INODE, r)
    ensures Aborts(v, RunLog(v, ROOT_PREFIX, r)) && Lived(v, RunLog(v, ROOT_PREFIX, r)) == []
  {
    ProcessedByType(v, ROOT_INODE, r);
    assert a in [a] && Cut(v, [a]) == 256;
    assert IsChain(v, ROOT_INODE, [a]) && Certain(v, ROOT_INODE, [a]);
    CertainAborts(v, ROOT_INODE, ROOT_PREFIX, r, [a]);
    var log := RunLog(v, ROOT_PREFIX, r);
    assert |log| > 0;
    var i := LogStep(v, ROOT_PREFIX, r, log[0]);
    assert log[0] in log && r.order[i] == a;
    assert log[0] == EmissionOf(v, ROOT_PREFIX, a);
  }

  /** A superblock and a device that pass all checks and can be walked, and on which every run ends at
      the lookup of inode zero with nothing in the index. */
  lemma ZeroInodeAborts() returns (sb: SuperBlock, dev: Device)
    ensures Accepts(sb) && Ready(sb, dev, map[ROOT_INODE := 0])
    ensures JournalPasses(ImageOf(sb, dev), sb) && ViewOf(ImageOf(sb, dev)).isDir(ROOT_INODE)
    ensures var v := ViewOf(ImageOf(sb, dev));
      forall r :: ValidRun(v, ROOT_INODE, r) ==>
        Aborts(v, RunLog(v, ROOT_PREFIX, r)) && Lived(v, RunLog(v, ROOT_PREFIX, r)) == []
  {
    var directory, a;
    sb := SMALL;
    directory, a := OneRecord(0);
    dev := DeviceWith(directory);
    SmallAccepted(directory);
    var img := ImageOf(sb, dev);
    SmallRoot(img, directory);
    ZeroInodeOf(img, a);
    ZeroInodeWellFormed(img, a);
    ReadyToWalk(dev, directory, map[ROOT_INODE := 0]);
    var v := ViewOf(img);
    forall r | ValidRun(v, ROOT_INODE, r)
      ensures Aborts(v, RunLog(v, ROOT_PREFIX, r)) && Lived(v, RunLog(v, ROOT_PREFIX, r)) == []
    {
      EveryRunEnds(img.consts, v, a, r);
    }
  }
}
