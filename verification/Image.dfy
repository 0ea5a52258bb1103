/** Direct lookups in a device image: group descriptors, inodes, directory blocks and file text. */
module Image {
  import opened Arithmetic
  import opened CTypes
  import opened Geometry

  datatype Image = Image(consts: Consts, dev: Device)

  datatype GroupDesc = GroupDesc(blockBitmap: u32, inodeBitmap: u32, inodeTable: u32)

  datatype Inode = Inode(mode: u16, size: u32, block0: u32)

  /** `block_to_offset`: the block number arrives as an `int` and is shifted as a 64-bit offset. */
  function BlockToOffset(c: Consts, block: int): int
  {
    ToInt32(block) * Pow2(c.blockSizeLog)
  }

  /** Block numbers that fit an `int` lie at multiples of the block size; larger ones arrive negative. */
  lemma BlockOffsets(c: Consts, block: int)
    requires 0 <= block < 0x1_0000_0000
    ensures BlockToOffset(c, block)
            == (if block < 0x8000_0000 then block else block - 0x1_0000_0000) * c.blockSize
  {
  }

  function ReadBlock(img: Image, block: int): (bytes: seq<byte>)
    ensures |bytes| == img.consts.blockSize
  {
    Read(img.dev, BlockToOffset(img.consts, block), img.consts.blockSize)
  }

  function DecodeDesc(s: seq<byte>): GroupDesc
    requires |s| == SIZEOF_GROUP_DESC
  {
    GroupDesc(Le32(s, 0), Le32(s, 4), Le32(s, 8))
  }

  function DecodeInode(s: seq<byte>): Inode
    requires |s| == SIZEOF_INODE
  {
    Inode(Le16(s, 0), Le32(s, 4), Le32(s, 40))
  }

  /** The bytes of an inode table seen as an array of inodes. */
  function DecodeTable(s: seq<byte>, count: nat): (table: seq<Inode>)
    requires |s| == count * SIZEOF_INODE
    ensures |table| == count
  {
    seq(count, i requires 0 <= i < count => DecodeInode(s[i * SIZEOF_INODE..(i + 1) * SIZEOF_INODE]))
  }

  /** The bytes of the descriptor table seen as an array of descriptors. */
  function DecodeDescs(s: seq<byte>, count: nat): (table: seq<GroupDesc>)
    requires |s| == count * SIZEOF_GROUP_DESC
    ensures |table| == count
  {
    seq(count, i requires 0 <= i < count => DecodeDesc(s[i * SIZEOF_GROUP_DESC..(i + 1) * SIZEOF_GROUP_DESC]))
  }

  function DescAt(img: Image, group: int): GroupDesc
  {
    DecodeDesc(Read(img.dev,
                    BlockToOffset(img.consts, img.consts.descTableBlock) + group * SIZEOF_GROUP_DESC,
                    SIZEOF_GROUP_DESC))
  }

  function TableOffset(img: Image, group: int): int
  {
    BlockToOffset(img.consts, DescAt(img, group).inodeTable)
  }

  /** What `load_inodes` reads for a group. */
  function GroupTable(img: Image, group: int): (table: seq<Inode>)
    ensures |table| == img.consts.inodesPerGroup
  {
    var count := img.consts.inodesPerGroup;
    DecodeTable(Read(img.dev, TableOffset(img, group), count * SIZEOF_INODE), count)
  }

  /** The inode as it stands on disk, without any cache. */
  function InodeAt(img: Image, n: int): Inode
  {
    var group := (n - 1) / img.consts.inodesPerGroup;
    var bit := n - 1 - group * img.consts.inodesPerGroup;
    DecodeInode(Read(img.dev, TableOffset(img, group) + bit * SIZEOF_INODE, SIZEOF_INODE))
  }

  predicate IsDirectory(inode: Inode)
  {
    inode.mode / 0x1000 == 4
  }

  predicate IsDir(img: Image, n: int)
  {
    IsDirectory(InodeAt(img, n))
  }

  predicate Ascii(s: seq<byte>)
  {
    forall i :: 0 <= i < |s| ==> s[i] < 128
  }

  /** The inodes whose first block `read_file_inode` reads. */
  predicate HasText(inode: Inode)
  {
    !IsDirectory(inode) && inode.block0 != 0
  }

  /** Where `read_file_inode` puts the terminator, given the inode and its first block. */
  function TextLength(inode: Inode, block: seq<byte>): (n: nat)
    ensures n <= |block|
  {
    var size := Min(inode.size, |block|);
    if HasText(inode) && Ascii(block[..Min(100, size)]) then size else 0
  }

  /** The content indexed for a file: its first block, cut at the file size and at the first NUL,
      or nothing when the first characters are not ASCII. */
  function FileText(img: Image, n: int): Text
  {
    var inode := InodeAt(img, n);
    var block := ReadBlock(img, inode.block0);
    CStr(block[..TextLength(inode, block)])
  }

  /** Decoding a whole table and indexing it is the same as decoding one inode in place. */
  lemma TableRefinesLookup(img: Image, group: int, bit: int)
    requires 0 <= bit < img.consts.inodesPerGroup
    ensures GroupTable(img, group)[bit]
            == DecodeInode(Read(img.dev, TableOffset(img, group) + bit * SIZEOF_INODE, SIZEOF_INODE))
  {
    var k := img.consts.inodesPerGroup;
    var offset := TableOffset(img, group);
    var bytes := Read(img.dev, offset, k * SIZEOF_INODE);
    assert bytes[bit * SIZEOF_INODE..(bit + 1) * SIZEOF_INODE]
        == Read(img.dev, offset + bit * SIZEOF_INODE, SIZEOF_INODE);
  }

  /** The table read for a group holds the inodes numbered in that group. */
  lemma TableHoldsInodes(img: Image, group: int)
    requires 0 <= group < img.consts.groups
    ensures forall bit :: 0 <= bit < img.consts.inodesPerGroup ==>
      GroupTable(img, group)[bit] == InodeAt(img, InodeNumber(img.consts, group, bit))
  {
    forall bit | 0 <= bit < img.consts.inodesPerGroup
      ensures GroupTable(img, group)[bit] == InodeAt(img, InodeNumber(img.consts, group, bit))
    {
      TableRefinesLookup(img, group, bit);
      LocateOnto(img.consts, group, bit);
    }
  }

  /** A file that fills its first block and starts with ASCII characters. */
  predicate Overflows(img: Image, n: int)
  {
    var inode, blockSize := InodeAt(img, n), img.consts.blockSize;
    && HasText(inode)
    && inode.size >= blockSize
    && Ascii(Read(img.dev, BlockToOffset(img.consts, inode.block0), 100))
  }

  /** The text of exactly those files reaches the end of the block, so that its terminator misses an
      allocation of one block. */
  lemma TerminatorInBounds(img: Image, n: int)
    ensures var inode := InodeAt(img, n);
      TextLength(inode, ReadBlock(img, inode.block0)) == img.consts.blockSize <==> Overflows(img, n)
  {
    var inode := InodeAt(img, n);
    assert ReadBlock(img, inode.block0)[..100] == Read(img.dev, BlockToOffset(img.consts, inode.block0), 100);
  }

  /** Decoding the whole descriptor table and indexing it is the same as decoding one in place. */
  lemma DescsRefineLookup(img: Image, count: nat, group: int)
    requires 0 <= group < count
    ensures var offset := BlockToOffset(img.consts, img.consts.descTableBlock);
      DecodeDescs(Read(img.dev, offset, count * SIZEOF_GROUP_DESC), count)[group] == DescAt(img, group)
  {
    var offset := BlockToOffset(img.consts, img.consts.descTableBlock);
    var bytes := Read(img.dev, offset, count * SIZEOF_GROUP_DESC);
    assert bytes[group * SIZEOF_GROUP_DESC..(group + 1) * SIZEOF_GROUP_DESC]
        == Read(img.dev, offset + group * SIZEOF_GROUP_DESC, SIZEOF_GROUP_DESC);
  }

  // ----- where everything stands on the device, byte by byte

  /** The 32-bit number at an offset of a device. */
  function Word(dev: Device, at: int): int
  {
    dev(at) as int + 0x100 * (dev(at + 1) as int)
    + 0x1_0000 * (dev(at + 2) as int) + 0x100_0000 * (dev(at + 3) as int)
  }

  lemma WordRead(dev: Device, at: int, n: nat, i: nat)
    requires i + 4 <= n
    ensures Le32(Read(dev, at, n), i) == Word(dev, at + i)
  {
    Le32Value(Read(dev, at, n), i);
  }

  /** Group descriptors take 32 bytes each; bitmaps and table are their first three numbers. */
  lemma DescBytes(img: Image, group: int)
    requires 0 <= img.consts.descTableBlock < 0x8000_0000
    ensures var at := img.consts.descTableBlock * img.consts.blockSize + 32 * group;
      DescAt(img, group) == GroupDesc(Word(img.dev, at), Word(img.dev, at + 4), Word(img.dev, at + 8))
  {
    BlockOffsets(img.consts, img.consts.descTableBlock);
    var at := img.consts.descTableBlock * img.consts.blockSize + 32 * group;
    WordRead(img.dev, at, SIZEOF_GROUP_DESC, 0);
    WordRead(img.dev, at, SIZEOF_GROUP_DESC, 4);
    WordRead(img.dev, at, SIZEOF_GROUP_DESC, 8);
  }

  /** Where the inode with a number stands on the device. */
  function InodeOffset(img: Image, n: int): int
    requires ValidInode(img.consts, n)
  {
    var group, bit := (n - 1) / img.consts.inodesPerGroup, (n - 1) % img.consts.inodesPerGroup;
    var desc := img.consts.descTableBlock * img.consts.blockSize + 32 * group;
    Word(img.dev, desc + 8) * img.consts.blockSize + 128 * bit
  }

  lemma InodePlace(img: Image, n: int)
    requires ValidInode(img.consts, n) && 0 <= img.consts.descTableBlock < 0x8000_0000
    requires DescAt(img, (n - 1) / img.consts.inodesPerGroup).inodeTable < 0x8000_0000
    ensures InodeAt(img, n) == DecodeInode(Read(img.dev, InodeOffset(img, n), SIZEOF_INODE))
  {
    var k := img.consts.inodesPerGroup;
    var group := (n - 1) / k;
    DescBytes(img, group);
    BlockOffsets(img.consts, DescAt(img, group).inodeTable);
    assert n - 1 - group * k == (n - 1) % k;
  }

  /** Inodes take 128 bytes each in the table of their group; mode, size and first block stand at 0, 4
      and 40. */
  lemma InodeBytes(img: Image, n: int)
    requires ValidInode(img.consts, n) && 0 <= img.consts.descTableBlock < 0x8000_0000
    requires DescAt(img, (n - 1) / img.consts.inodesPerGroup).inodeTable < 0x8000_0000
    ensures var at := InodeOffset(img, n);
      && InodeAt(img, n).mode == img.dev(at) as int + 0x100 * (img.dev(at + 1) as int)
      && InodeAt(img, n).size == Word(img.dev, at + 4)
      && InodeAt(img, n).block0 == Word(img.dev, at + 40)
  {
    InodePlace(img, n);
    InodeRead(img.dev, InodeOffset(img, n));
  }

  lemma InodeRead(dev: Device, at: int)
    ensures var inode := DecodeInode(Read(dev, at, SIZEOF_INODE));
      && inode.mode == dev(at) as int + 0x100 * (dev(at + 1) as int)
      && inode.size == Word(dev, at + 4)
      && inode.block0 == Word(dev, at + 40)
  {
    Le16Value(Read(dev, at, SIZEOF_INODE), 0);
    WordRead(dev, at, SIZEOF_INODE, 4);
    WordRead(dev, at, SIZEOF_INODE, 40);
  }

  /** Whatever its permission bits, an inode is a directory by the top four bits of its mode. */
  lemma DirectoryModes(inode: Inode)
    ensures IsDirectory(inode) <==> 0x4000 <= inode.mode < 0x5000
  {
  }

  /** The bytes that a block number leads to. */
  lemma BlockBytes(img: Image, block: int, i: int)
    requires 0 <= block < 0x8000_0000 && 0 <= i < img.consts.blockSize
    ensures ReadBlock(img, block)[i] == img.dev(block * img.consts.blockSize + i)
  {
    BlockOffsets(img.consts, block);
  }

  /** The content of a file, from the device: the first `size` bytes of its first block, at most a
      block, up to a NUL, if the first hundred of them are below 128. */
  lemma FileTextBytes(img: Image, n: int)
    requires 0 < InodeAt(img, n).block0 < 0x8000_0000
    requires !(0x4000 <= InodeAt(img, n).mode < 0x5000)
    ensures var inode, blockSize := InodeAt(img, n), img.consts.blockSize;
      var size := if inode.size < blockSize then inode.size else blockSize;
      var bytes := Read(img.dev, inode.block0 * blockSize, size);
      FileText(img, n)
      == if forall i :: 0 <= i < size && i < 100 ==> bytes[i] < 128 then CStr(bytes) else []
  {
    var inode, blockSize := InodeAt(img, n), img.consts.blockSize;
    BlockOffsets(img.consts, inode.block0);
    var size := if inode.size < blockSize then inode.size else blockSize;
    var block, bytes := ReadBlock(img, inode.block0), Read(img.dev, inode.block0 * blockSize, size);
    assert block[..size] == bytes && block[..0] == [];
    assert Ascii(block[..Min(100, size)]) <==> forall i :: 0 <= i < size && i < 100 ==> bytes[i] < 128 by {
      assert forall i :: 0 <= i < Min(100, size) ==> block[..Min(100, size)][i] == bytes[i];
    }
  }

  /** Directories and files without a first block have no content. */
  lemma NoText(img: Image, n: int)
    requires 0x4000 <= InodeAt(img, n).mode < 0x5000 || InodeAt(img, n).block0 == 0
    ensures FileText(img, n) == [] && !Overflows(img, n)
  {
  }

  /** The files that overrun their buffer, from the device. */
  lemma OverflowBytes(img: Image, n: int)
    requires 0 < InodeAt(img, n).block0 < 0x8000_0000
    ensures var inode, blockSize := InodeAt(img, n), img.consts.blockSize;
      var bytes := Read(img.dev, inode.block0 * blockSize, 100);
      Overflows(img, n)
      <==> && !(0x4000 <= inode.mode < 0x5000)
           && inode.size >= blockSize
           && forall i :: 0 <= i < 100 ==> bytes[i] < 128
  {
    BlockOffsets(img.consts, InodeAt(img, n).block0);
    DirectoryModes(InodeAt(img, n));
  }
}
