/** `read_inode`: the checks on the superblock and the journal, and the walk from the root. */
module ReadInode {
  import opened CTypes
  import opened ByteOrder
  import opened Geometry
  import opened Image
  import opened DirectoryParse
  import opened Documents
  import opened WalkSpec
  import opened WalkLogs
  import opened InodeCache
  import opened Database
  import opened Walker

  const JFS_MAGIC_NUMBER := 0xc03b3998
  const SIZEOF_JOURNAL_SUPERBLOCK := 1024
  const ROOT_INODE := 2
  const ROOT_PREFIX: Text := [SLASH]

  /** An assertion ends the program, the walk is skipped, or the number of files is printed. */
  datatype Outcome = Aborted | NoRootDirectory | Indexed(files: int)

  predicate Accepts(sb: SuperBlock)
  {
    InitPasses(sb) && ReadInodePasses(sb)
  }

  function ImageOf(sb: SuperBlock, dev: Device): Image
    requires Accepts(sb)
  {
    AssertionsSuffice(sb);
    Image(InitConsts(sb), dev)
  }

  function JournalSuperBlock(img: Image, first: int): (s: seq<byte>)
    ensures |s| == SIZEOF_JOURNAL_SUPERBLOCK
  {
    Read(img.dev, BlockToOffset(img.consts, first), SIZEOF_JOURNAL_SUPERBLOCK)
  }

  /** The assertions on the journal's superblock: the magic number and the block size. */
  predicate JournalBlockPasses(s: seq<byte>, blockSize: int)
    requires |s| == SIZEOF_JOURNAL_SUPERBLOCK
  {
    Be2Le(Le32(s, 0)) == JFS_MAGIC_NUMBER && ToInt32(Be2Le(Le32(s, 12))) == blockSize
  }

  /** The assertions on an internal journal: its inode, a first block, and what is in there. */
  predicate JournalPasses(img: Image, sb: SuperBlock)
  {
    sb.journalDev == 0 ==>
      var first := InodeAt(img, sb.journalInum).block0;
      && ValidInode(img.consts, sb.journalInum)
      && first != 0
      && JournalBlockPasses(JournalSuperBlock(img, first), img.consts.blockSize)
  }

  /** What the lookups after the checks demand. */
  ghost predicate Ready(sb: SuperBlock, dev: Device, rank: map<int, nat>)
  {
    Accepts(sb) ==>
      var img := ImageOf(sb, dev);
      && (sb.journalDev == 0 ==> LookUpDefined(img.consts, sb.journalInum))
      && ValidInode(img.consts, ROOT_INODE)
      && WellFormed(img, rank)
      && (ViewOf(img).isDir(ROOT_INODE) ==> ROOT_INODE in rank)
  }

  method CheckJournal(cache: InodeCache, sb: SuperBlock) returns (passes: bool)
    requires cache.Valid()
    requires sb.journalDev == 0 ==> LookUpDefined(cache.img.consts, sb.journalInum)
    modifies cache.Footprint()
    ensures cache.Valid()
    ensures passes <==> JournalPasses(cache.img, sb)
  {
    if sb.journalDev == 0 {
      EntryNumber(cache.img.consts, sb.journalInum);
      var found, inode := cache.GetInode(ToInt32(sb.journalInum));
      if !found || inode.block0 == 0 {
        return false;
      }
      var s := JournalSuperBlock(cache.img, inode.block0);
      if Be2Le(Le32(s, 0)) != JFS_MAGIC_NUMBER {
        return false;
      }
      if ToInt32(Be2Le(Le32(s, 12))) != cache.img.consts.blockSize {
        return false;
      }
      found, inode := cache.GetInode(ToInt32(sb.journalInum));
    }
    return true;
  }

  function FilesOf(outcome: Outcome): int
  {
    if outcome.Indexed? then outcome.files else 0
  }

  /** What the part after the checks does with an image: nothing without a root directory, nothing if
      its listing ends the program, and else a walk, which may end the program too. */
  ghost predicate RootIndexed(img: Image, run: Run, before: seq<Doc>, after: seq<Doc>,
                              overruns: int, outcome: Outcome)
  {
    if !IsDir(img, ROOT_INODE) then outcome.NoRootDirectory? && after == before && overruns == 0
    else if ListingOf(img, ROOT_INODE) == NameTooLong then
      outcome.Aborted? && after == before && overruns == 0
    else
      && !outcome.NoRootDirectory?
      && Walked(ViewOf(img), ROOT_INODE, ROOT_PREFIX, run, Effect(before, 0, 0),
                Effect(after, FilesOf(outcome), overruns), outcome.Aborted?)
  }

  /** Reads the root directory and walks it, with a walker that has counted nothing yet. */
  method WalkRoot(walker: Walker, block0: u32, ghost rank: map<int, nat>)
    returns (aborted: bool, ghost run: Run)
    requires walker.Valid() && WellFormed(walker.cache.img, rank)
    requires ListingOf(walker.cache.img, ROOT_INODE) != NameTooLong ==> ROOT_INODE in rank
    requires block0 == InodeAt(walker.cache.img, ROOT_INODE).block0
    modifies walker.Footprint()
    ensures walker.Valid()
    ensures ListingOf(walker.cache.img, ROOT_INODE) == NameTooLong ==>
      aborted && walker.State() == old(walker.State())
    ensures ListingOf(walker.cache.img, ROOT_INODE) != NameTooLong ==>
      Walked(walker.View(), ROOT_INODE, ROOT_PREFIX, run, old(walker.State()), walker.State(), aborted)
  {
    var block := walker.ReadBuffer(block0);
    var ret;
    aborted, ret, run := walker.ReadCurrentDirectory(block, ROOT_PREFIX, ROOT_INODE, rank);
  }

  /** The walk from the root, if it is a directory. */
  method IndexRoot(cache: InodeCache, db: DB, ghost rank: map<int, nat>)
    returns (outcome: Outcome, ghost run: Run, ghost overruns: int)
    requires cache.Valid() && db.Valid() && db as object !in cache.Footprint()
    requires ValidInode(cache.img.consts, ROOT_INODE) && WellFormed(cache.img, rank)
    requires ViewOf(cache.img).isDir(ROOT_INODE) ==> ROOT_INODE in rank
    modifies cache.Footprint(), db
    ensures db.Valid()
    ensures RootIndexed(cache.img, run, old(db.contents), db.contents, overruns, outcome)
  {
    run, overruns := Run([], []), 0;
    var found, root := cache.GetInode(ROOT_INODE);
    if !IsDirectory(root) {
      return NoRootDirectory, run, overruns;
    }
    var walker := new Walker(cache, db);
    var aborted;
    aborted, run := WalkRoot(walker, root.block0, rank);
    overruns := walker.overruns;
    outcome := if aborted then Aborted else Indexed(walker.sumFiles);
    AfterAbort(walker.View(), run, old(db.contents), walker.State(), aborted);
  }

  /** The number of files is of no interest once an assertion has ended the program. */
  lemma AfterAbort(v: View, run: Run, before: seq<Doc>, after: Effect, aborted: bool)
    ensures Walked(v, ROOT_INODE, ROOT_PREFIX, run, Effect(before, 0, 0), after, aborted) ==>
      Walked(v, ROOT_INODE, ROOT_PREFIX, run, Effect(before, 0, 0),
             Effect(after.docs, if aborted then 0 else after.files, after.overruns), aborted)
  {
  }

  method ReadInode(sb: SuperBlock, dev: Device, db: DB, ghost rank: map<int, nat>)
    returns (outcome: Outcome, ghost run: Run, ghost overruns: int)
    requires db.Valid() && Ready(sb, dev, rank)
    modifies db
    ensures db.Valid()
    ensures !(Accepts(sb) && JournalPasses(ImageOf(sb, dev), sb)) ==>
      outcome.Aborted? && db.contents == old(db.contents) && overruns == 0
    ensures Accepts(sb) && JournalPasses(ImageOf(sb, dev), sb) ==>
      RootIndexed(ImageOf(sb, dev), run, old(db.contents), db.contents, overruns, outcome)
  {
    run, overruns := Run([], []), 0;
    if !Accepts(sb) {
      return Aborted, run, overruns;
    }
    AssertionsSuffice(sb);
    var cache := new InodeCache(InitConsts(sb), dev);
    var passes := CheckJournal(cache, sb);
    if !passes {
      return Aborted, run, overruns;
    }
    outcome, run, overruns := IndexRoot(cache, db, rank);
  }

  /** The root is inode 2, and its entries are found under a slash. */
  lemma RootIs()
    ensures ROOT_INODE == 2 && ROOT_PREFIX == [47]
  {
  }

  lemma Digits(a: byte, b: byte, c: byte, d: byte)
    ensures 0x100_0000 * (a as int) + 0x1_0000 * (b as int) + 0x100 * (c as int) + d as int == 0xC03B_3998
            <==> a == 0xC0 && b == 0x3B && c == 0x39 && d == 0x98
  {
  }

  /** The big-endian number at an offset of a device. */
  function BeWordAt(dev: Device, at: int): int
  {
    0x100_0000 * (dev(at) as int) + 0x1_0000 * (dev(at + 1) as int) + 0x100 * (dev(at + 2) as int)
    + dev(at + 3) as int
  }

  lemma BeWordRead(dev: Device, at: int, n: nat, i: nat)
    requires i + 4 <= n
    ensures Be2Le(Le32(Read(dev, at, n), i)) == BeWordAt(dev, at + i)
  {
    BeValue(Read(dev, at, n), i);
  }

  lemma JournalBlockIff(dev: Device, at: int, blockSize: int)
    requires 0 <= blockSize < 0x8000_0000
    ensures JournalBlockPasses(Read(dev, at, SIZEOF_JOURNAL_SUPERBLOCK), blockSize)
            <==> BeWordAt(dev, at) == 0xC03B_3998 && BeWordAt(dev, at + 12) == blockSize
  {
    BeWordRead(dev, at, SIZEOF_JOURNAL_SUPERBLOCK, 0);
    BeWordRead(dev, at, SIZEOF_JOURNAL_SUPERBLOCK, 12);
  }

  lemma JournalNumbers(img: Image, sb: SuperBlock, first: int)
    requires first == InodeAt(img, sb.journalInum).block0 && 0 <= first < 0x8000_0000
    ensures JournalPasses(img, sb)
            <==> || sb.journalDev != 0
                 || (&& 1 <= sb.journalInum <= img.consts.inodeCount && first != 0
                     && BeWordAt(img.dev, first * img.consts.blockSize) == 0xC03B_3998
                     && BeWordAt(img.dev, first * img.consts.blockSize + 12) == img.consts.blockSize)
  {
    BlockOffsets(img.consts, first);
    JournalBlockIff(img.dev, first * img.consts.blockSize, img.consts.blockSize);
  }

  /** The checks on an internal journal, from the device: the magic number and the block size stand at 0
      and 12 of its first block, both big-endian. */
  lemma JournalBytes(img: Image, sb: SuperBlock, first: int)
    requires first == InodeAt(img, sb.journalInum).block0 && 0 <= first < 0x8000_0000
    ensures var at := first * img.consts.blockSize;
      JournalPasses(img, sb)
      <==> || sb.journalDev != 0
           || (&& 1 <= sb.journalInum <= img.consts.inodeCount && first != 0
               && img.dev(at) == 0xC0 && img.dev(at + 1) == 0x3B
               && img.dev(at + 2) == 0x39 && img.dev(at + 3) == 0x98
               && BeWordAt(img.dev, at + 12) == img.consts.blockSize)
  {
    var at := first * img.consts.blockSize;
    JournalNumbers(img, sb, first);
    Digits(img.dev(at), img.dev(at + 1), img.dev(at + 2), img.dev(at + 3));
  }
}
