/** The superblock constants and the assertions that make inode addressing sound. */
module Geometry {
  import opened Arithmetic
  import opened CTypes

  /** Counts that the program keeps in an `int`. */
  type Count = x: int | 0 <= x < 0x8000_0000

  /** Shifts of 1024 that stay within an `int`. */
  type LogSize = x: int | 0 <= x <= 20

  datatype SuperBlock = SuperBlock(
    inodesCount: Count,
    inodesPerGroup: Count,
    logBlockSize: LogSize,
    logFragSize: LogSize,
    inodeSize: u16,
    magic: u16,
    creatorOs: u32,
    blockGroupNr: u16,
    journalInum: u32,
    journalDev: u32)

  const SUPER_BLOCK_OFFSET := 1024
  const SUPER_BLOCK_BYTES := 1024
  const SIZEOF_INODE := 128
  const SIZEOF_GROUP_DESC := 32
  const EXT3_MAGIC := 0xEF53

  function BlockSize(sb: SuperBlock): int { SUPER_BLOCK_OFFSET * Pow2(sb.logBlockSize) }

  function FragmentSize(sb: SuperBlock): int { SUPER_BLOCK_OFFSET * Pow2(sb.logFragSize) }

  function InodeBlocksPerGroup(sb: SuperBlock): int
  {
    sb.inodesPerGroup * sb.inodeSize / BlockSize(sb)
  }

  /** The globals that `init_consts` assigns. */
  datatype RawConsts = Consts(
    groups: int,
    blockSize: int,
    blockSizeLog: int,
    inodesPerGroup: int,
    inodeSize: int,
    inodeCount: int,
    descTableBlock: int)

  /** What the divisions and assertions of `init_consts` demand. */
  predicate InitPasses(sb: SuperBlock)
  {
    && sb.inodesPerGroup != 0
    && sb.inodeSize == SIZEOF_INODE
    && BlockSize(sb) / SIZEOF_GROUP_DESC * SIZEOF_GROUP_DESC == BlockSize(sb)
  }

  function InitConsts(sb: SuperBlock): RawConsts
    requires InitPasses(sb)
  {
    Consts(sb.inodesCount / sb.inodesPerGroup,
           BlockSize(sb),
           sb.logBlockSize + 10,
           sb.inodesPerGroup,
           sb.inodeSize,
           sb.inodesCount,
           SUPER_BLOCK_OFFSET / BlockSize(sb) + 1)
  }

  /** The assertions of `read_inode`. */
  predicate ReadInodePasses(sb: SuperBlock)
    requires InitPasses(sb)
  {
    var c := InitConsts(sb);
    && sb.magic == EXT3_MAGIC
    && sb.creatorOs == 0
    && sb.blockGroupNr == 0
    && c.groups * sb.inodesPerGroup == c.inodeCount
    && c.blockSize == FragmentSize(sb)
    && sb.inodesPerGroup <= ToInt32(8 * c.blockSize)
    && c.blockSize / c.inodeSize * c.inodeSize == c.blockSize
    && (c.inodesPerGroup * c.inodeSize - 1) / c.blockSize + 1 == InodeBlocksPerGroup(sb)
  }

  /** What the rest of the walk relies on. */
  predicate Sound(c: RawConsts)
  {
    && 0 <= c.groups
    && 1024 <= c.blockSize <= 0x800_0000 && c.blockSize % 1024 == 0
    && 10 <= c.blockSizeLog && c.blockSize == Pow2(c.blockSizeLog)
    && 0 < c.inodesPerGroup <= 8 * c.blockSize
    && c.inodeSize == SIZEOF_INODE
    && c.inodeCount == c.groups * c.inodesPerGroup < 0x8000_0000
    && c.inodesPerGroup * c.inodeSize % c.blockSize == 0
    && SUPER_BLOCK_OFFSET + SUPER_BLOCK_BYTES <= c.descTableBlock * c.blockSize
  }

  type Consts = c: RawConsts | Sound(c) witness Consts(0, 1024, 10, 8, 128, 0, 2)

  predicate ValidInode(c: Consts, n: int)
  {
    1 <= n <= c.inodeCount
  }

  /** Division of C: towards zero. */
  function TruncDiv(a: int, b: int): int
    requires b > 0
  {
    if a >= 0 then a / b else -(-a / b)
  }

  /** The bit that `get_inode` computes for any `int`, as an unsigned number. */
  function LookUpBit(c: Consts, n: int): int
  {
    (n - 1 - TruncDiv(n - 1, c.inodesPerGroup) * c.inodesPerGroup) % 0x1_0000_0000
  }

  /** The assertion of `get_inode` fires. */
  predicate LookUpFails(c: Consts, n: int)
  {
    -0x8000_0000 < n < 0x8000_0000 && LookUpBit(c, n) >= 8 * c.blockSize
  }

  /** An inode number of an entry that `get_inode` either finds or stops at. */
  predicate LookUpDefined(c: Consts, n: int)
  {
    ValidInode(c, n) || LookUpFails(c, ToInt32(n))
  }

  /** The group and the position in the group's table, as `get_inode` computes them. */
  function Locate(c: Consts, n: int): (int, int)
    requires ValidInode(c, n)
  {
    var group := (n - 1) / c.inodesPerGroup;
    (group, n - 1 - group * c.inodesPerGroup)
  }

  function InodeNumber(c: Consts, group: int, bit: int): int
  {
    group * c.inodesPerGroup + bit + 1
  }

  // ----- block sizes

  lemma BlockSizes(sb: SuperBlock)
    ensures 1024 <= BlockSize(sb) && BlockSize(sb) % 1024 == 0
    ensures BlockSize(sb) == Pow2(sb.logBlockSize + 10)
  {
    Pow2Plus(sb.logBlockSize);
  }

  lemma {:induction false} Pow2Monotone(a: nat, b: nat)
    requires a <= b
    ensures Pow2(a) <= Pow2(b)
  {
    if a < b {
      Pow2Monotone(a, b - 1);
    }
  }

  lemma LargePowers()
    ensures Pow2(17) == 0x2_0000 && Pow2(18) == 0x4_0000 && Pow2(19) == 0x8_0000 && Pow2(20) == 0x10_0000
  {
    assert Pow2(7) == 2 * Pow2(6) == 4 * Pow2(5) == 8 * Pow2(4) == 16 * Pow2(3);
    assert Pow2(3) == 2 * Pow2(2) == 4 * Pow2(1) == 8;
    Pow2Plus(7);
    assert Pow2(20) == 2 * Pow2(19) == 4 * Pow2(18) == 8 * Pow2(17);
  }

  /** On larger blocks eight times the block size wraps to zero or below. */
  lemma BlocksNotTooLarge(sb: SuperBlock)
    requires 0 < sb.inodesPerGroup <= ToInt32(8 * BlockSize(sb))
    ensures BlockSize(sb) <= 0x800_0000
    ensures ToInt32(8 * BlockSize(sb)) == 8 * BlockSize(sb)
  {
    LargePowers();
    if sb.logBlockSize <= 17 {
      Pow2Monotone(sb.logBlockSize, 17);
    }
  }

  lemma {:induction false} Pow2Plus(k: nat)
    ensures Pow2(k + 10) == 1024 * Pow2(k)
  {
    if k == 0 {
      assert Pow2(10) == 2 * Pow2(9) == 4 * Pow2(8) == 8 * Pow2(7) == 16 * Pow2(6);
      assert Pow2(6) == 2 * Pow2(5) == 4 * Pow2(4) == 8 * Pow2(3) == 16 * Pow2(2);
      assert Pow2(2) == 2 * Pow2(1) == 4;
    } else {
      Pow2Plus(k - 1);
    }
  }

  /** The equality asserted on inode tables holds exactly when they fill whole blocks. */
  lemma WholeBlockTables(bytes: int, blockSize: int)
    requires 0 < bytes && 0 < blockSize
    ensures (bytes - 1) / blockSize + 1 == bytes / blockSize <==> bytes % blockSize == 0
  {
    var q, r := bytes / blockSize, bytes % blockSize;
    assert bytes == q * blockSize + r;
    if r == 0 {
      DivUnique(bytes - 1, blockSize, q - 1, blockSize - 1);
    } else {
      DivUnique(bytes - 1, blockSize, q, r - 1);
    }
  }

  /** For every block size of 1024 times a power of two the descriptor table starts past the bytes of
      the superblock, in the block after the one that holds them. */
  lemma DescTablePastSuperBlock(k: nat)
    ensures var blockSize := SUPER_BLOCK_OFFSET * Pow2(k);
      var table := SUPER_BLOCK_OFFSET / blockSize + 1;
      && (table - 1) * blockSize <= SUPER_BLOCK_OFFSET < table * blockSize
      && SUPER_BLOCK_OFFSET + SUPER_BLOCK_BYTES <= table * blockSize
  {
    if k > 0 {
      assert Pow2(k) == 2 * Pow2(k - 1);
      DivUnique(1024, 1024 * Pow2(k), 0, 1024);
    }
  }

  lemma QuotientNotNegative(a: int, b: int)
    requires 0 <= a && 0 < b
    ensures 0 <= a / b
  {
  }

  /** The program's assertions establish everything the walk relies on. */
  lemma AssertionsSuffice(sb: SuperBlock)
    requires InitPasses(sb) && ReadInodePasses(sb)
    ensures Sound(InitConsts(sb))
  {
    var c := InitConsts(sb);
    assert 0 <= c.groups by {
      QuotientNotNegative(sb.inodesCount, sb.inodesPerGroup);
    }
    BlockSizes(sb);
    BlocksNotTooLarge(sb);
    assert SUPER_BLOCK_OFFSET + SUPER_BLOCK_BYTES <= c.descTableBlock * c.blockSize by {
      DescTablePastSuperBlock(sb.logBlockSize);
    }
    assert c.inodesPerGroup * c.inodeSize % c.blockSize == 0 by {
      WholeBlockTables(sb.inodesPerGroup * sb.inodeSize, BlockSize(sb));
    }
  }

  // ----- inode addressing

  /** `Locate` lands inside the arrays, passes the assertion of `get_inode` and has `InodeNumber`
      as its inverse. */
  lemma LocateInverse(c: Consts, n: int)
    requires ValidInode(c, n)
    ensures var (group, bit) := Locate(c, n);
      && 0 <= group < c.groups
      && 0 <= bit < c.inodesPerGroup
      && bit < 8 * c.blockSize
      && InodeNumber(c, group, bit) == n
  {
    DivBounds(n - 1, c.inodesPerGroup, c.groups);
  }

  lemma DivBounds(x: int, d: int, m: int)
    requires 0 < d && 0 <= x < m * d
    ensures 0 <= x / d < m
    ensures 0 <= x - x / d * d < d
  {
    var q := x / d;
    assert x == q * d + x % d;
    MulAtLeast(q - m, d);
    assert (q - m) * d == q * d - m * d;
  }

  /** The assertion fires exactly for numbers from zero down that are not one more than a multiple of
      the group size. */
  lemma LookUpFailsIff(c: Consts, n: int)
    requires -0x8000_0000 < n < 0x8000_0000
    ensures LookUpFails(c, n) <==> n <= 0 && (1 - n) % c.inodesPerGroup != 0
  {
    var k := c.inodesPerGroup;
    if n > 0 {
      var q := (n - 1) / k;
      assert n - 1 == q * k + (n - 1) % k;
    } else {
      var q, r := (1 - n) / k, (1 - n) % k;
      assert 1 - n == q * k + r;
      assert n - 1 - (-q) * k == -r by {
        assert (-q) * k == -(q * k);
      }
      assert (-r) % 0x1_0000_0000 == if r == 0 then 0 else 0x1_0000_0000 - r;
    }
  }

  /** For a number in range it is the bit of its group, and the assertion holds. */
  lemma LookUpPlace(c: Consts, n: int)
    requires ValidInode(c, n)
    ensures (TruncDiv(n - 1, c.inodesPerGroup), LookUpBit(c, n)) == Locate(c, n)
    ensures LookUpBit(c, n) < 8 * c.blockSize && !LookUpFails(c, n)
  {
    LocateInverse(c, n);
  }

  /** In particular for inode number zero. */
  lemma ZeroFails(c: Consts)
    ensures LookUpFails(c, 0)
  {
    LookUpFailsIff(c, 0);
    assert c.inodesPerGroup != 1;
  }

  /** Every slot of every group's table belongs to one inode number. */
  lemma LocateOnto(c: Consts, group: int, bit: int)
    requires 0 <= group < c.groups && 0 <= bit < c.inodesPerGroup
    ensures ValidInode(c, InodeNumber(c, group, bit))
    ensures Locate(c, InodeNumber(c, group, bit)) == (group, bit)
  {
    var k := c.inodesPerGroup;
    MulAtLeast(c.groups - group, k);
    MulAtLeast(group, k);
    assert (c.groups - group) * k == c.groups * k - group * k;
    DivUnique(group * k + bit, k, group, bit);
  }

  /** No inode straddles two blocks and none lies past its group's table. */
  lemma InodeInOneBlock(c: Consts, bit: int)
    requires 0 <= bit < c.inodesPerGroup
    ensures var first := bit * c.inodeSize;
      var last := first + c.inodeSize - 1;
      && first / c.blockSize == last / c.blockSize
      && last / c.blockSize < c.inodesPerGroup * c.inodeSize / c.blockSize
  {
    BlocksHoldInodes(c.blockSize);
    InodeFits(c.blockSize, bit, c.inodesPerGroup);
  }

  lemma BlocksHoldInodes(blockSize: int)
    requires blockSize % 1024 == 0
    ensures blockSize % SIZEOF_INODE == 0
  {
    DivUnique(blockSize, SIZEOF_INODE, 8 * (blockSize / 1024), 0);
  }

  lemma InodeFits(blockSize: int, bit: int, count: int)
    requires 0 < blockSize && blockSize % SIZEOF_INODE == 0
    requires 0 <= bit < count && count * SIZEOF_INODE % blockSize == 0
    ensures bit * SIZEOF_INODE / blockSize == (bit * SIZEOF_INODE + SIZEOF_INODE - 1) / blockSize
    ensures (bit * SIZEOF_INODE + SIZEOF_INODE - 1) / blockSize < count * SIZEOF_INODE / blockSize
  {
    var per := blockSize / SIZEOF_INODE;
    var q, r := bit / per, bit % per;
    assert bit == q * per + r;
    assert bit * SIZEOF_INODE == q * blockSize + r * SIZEOF_INODE by {
      assert (q * per + r) * SIZEOF_INODE == q * (per * SIZEOF_INODE) + r * SIZEOF_INODE;
    }
    DivUnique(bit * SIZEOF_INODE, blockSize, q, r * SIZEOF_INODE);
    DivUnique(bit * SIZEOF_INODE + SIZEOF_INODE - 1, blockSize, q, r * SIZEOF_INODE + SIZEOF_INODE - 1);
    var blocks := count * SIZEOF_INODE / blockSize;
    assert count * SIZEOF_INODE == blocks * blockSize;
    MulAtLeast(q - blocks, blockSize);
    assert (q - blocks) * blockSize == q * blockSize - blocks * blockSize;
  }

  // ----- what the assertions say of the superblock, number by number

  lemma SameBlockAndFragment(sb: SuperBlock)
    ensures BlockSize(sb) == FragmentSize(sb) <==> sb.logBlockSize == sb.logFragSize
  {
    if BlockSize(sb) == FragmentSize(sb) {
      Pow2Injective(sb.logBlockSize, sb.logFragSize);
    }
  }

  lemma WholeGroups(count: int, per: int)
    requires 0 < per
    ensures count / per * per == count <==> count % per == 0
  {
    assert count == count / per * per + count % per;
  }

  lemma BitmapFits(sb: SuperBlock)
    requires 0 < sb.inodesPerGroup
    ensures sb.inodesPerGroup <= ToInt32(8 * BlockSize(sb))
            <==> sb.logBlockSize <= 17 && sb.inodesPerGroup <= 8192 * Pow2(sb.logBlockSize)
  {
    LargePowers();
    if sb.logBlockSize <= 17 {
      Pow2Monotone(sb.logBlockSize, 17);
    }
  }

  lemma WholeBlocks(blockSize: int)
    requires blockSize % 1024 == 0
    ensures blockSize / 32 * 32 == blockSize && blockSize / 128 * 128 == blockSize
  {
    DivUnique(blockSize, 32, 32 * (blockSize / 1024), 0);
    DivUnique(blockSize, 128, 8 * (blockSize / 1024), 0);
  }

  lemma InitPassesIff(sb: SuperBlock)
    ensures InitPasses(sb) <==> 0 < sb.inodesPerGroup && sb.inodeSize == 128
  {
    WholeBlocks(BlockSize(sb));
  }

  lemma ReadInodePassesIff(sb: SuperBlock)
    requires InitPasses(sb)
    ensures ReadInodePasses(sb)
            <==> && sb.magic == 0xEF53 && sb.creatorOs == 0 && sb.blockGroupNr == 0
                 && sb.logFragSize == sb.logBlockSize <= 17
                 && sb.inodesPerGroup <= 8192 * Pow2(sb.logBlockSize)
                 && sb.inodesCount % sb.inodesPerGroup == 0
                 && sb.inodesPerGroup * 128 % (1024 * Pow2(sb.logBlockSize)) == 0
  {
    var c := InitConsts(sb);
    assert c.groups * sb.inodesPerGroup == c.inodeCount <==> sb.inodesCount % sb.inodesPerGroup == 0 by {
      WholeGroups(sb.inodesCount, sb.inodesPerGroup);
    }
    assert c.blockSize == FragmentSize(sb) <==> sb.logFragSize == sb.logBlockSize by {
      SameBlockAndFragment(sb);
    }
    assert c.blockSize / c.inodeSize * c.inodeSize == c.blockSize by {
      WholeBlocks(c.blockSize);
    }
    BitmapFits(sb);
    WholeBlockTables(sb.inodesPerGroup * 128, BlockSize(sb));
  }

  /** The assertions of `init_consts` and `read_inode` together, in the fields of the superblock. */
  lemma AssertionsIff(sb: SuperBlock)
    ensures InitPasses(sb) && ReadInodePasses(sb)
            <==> && 0 < sb.inodesPerGroup && sb.inodeSize == 128
                 && sb.magic == 0xEF53 && sb.creatorOs == 0 && sb.blockGroupNr == 0
                 && sb.logFragSize == sb.logBlockSize <= 17
                 && sb.inodesPerGroup <= 8192 * Pow2(sb.logBlockSize)
                 && sb.inodesCount % sb.inodesPerGroup == 0
                 && sb.inodesPerGroup * 128 % (1024 * Pow2(sb.logBlockSize)) == 0
  {
    InitPassesIff(sb);
    if InitPasses(sb) {
      ReadInodePassesIff(sb);
    }
  }

  /** The constants in those fields; the descriptor table is in block 2 of small blocks, else in
      block 1. */
  lemma InitConstsAre(sb: SuperBlock)
    requires InitPasses(sb)
    ensures InitConsts(sb)
            == Consts(sb.inodesCount / sb.inodesPerGroup, 1024 * Pow2(sb.logBlockSize), sb.logBlockSize + 10,
                      sb.inodesPerGroup, 128, sb.inodesCount, if sb.logBlockSize == 0 then 2 else 1)
  {
    if sb.logBlockSize > 0 {
      assert Pow2(sb.logBlockSize) == 2 * Pow2(sb.logBlockSize - 1);
      DivUnique(1024, BlockSize(sb), 0, 1024);
    }
  }
}
