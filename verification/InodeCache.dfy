/** The lazily filled tables behind `get_inode`. */
module InodeCache {
  import opened CTypes
  import opened Geometry
  import opened Image

  class InodeCache {
    const img: Image
    const descTable: seq<GroupDesc>
    const blockBitmap: array<Option<seq<byte>>>
    const inodeBitmap: array<seq<byte>>
    const allInodes: array<seq<Inode>>

    /** How often an inode table has been read from the device. */
    ghost var tableReads: nat

    /** The part that never changes after `init_consts`. */
    ghost predicate Shape()
    {
      && |descTable| == img.consts.groups
      && blockBitmap.Length == inodeBitmap.Length == allInodes.Length == img.consts.groups
      && blockBitmap as object != inodeBitmap
      && blockBitmap as object != allInodes
      && inodeBitmap as object != allInodes
      && forall g :: 0 <= g < img.consts.groups ==> descTable[g] == DescAt(img, g)
    }

    ghost function Footprint(): set<object>
    {
      {this, blockBitmap, inodeBitmap, allInodes}
    }

    ghost predicate BitmapsRead(g: int)
      requires Shape() && 0 <= g < img.consts.groups
      reads blockBitmap, inodeBitmap
    {
      && blockBitmap[g] == Some(ReadBlock(img, descTable[g].blockBitmap))
      && inodeBitmap[g] == ReadBlock(img, descTable[g].inodeBitmap)
    }

    ghost predicate GroupRead(g: int)
      requires Shape() && 0 <= g < img.consts.groups
      reads blockBitmap, inodeBitmap, allInodes
    {
      && BitmapsRead(g)
      && |allInodes[g]| == img.consts.inodesPerGroup
      && forall bit :: 0 <= bit < img.consts.inodesPerGroup ==>
           allInodes[g][bit] == InodeAt(img, InodeNumber(img.consts, g, bit))
    }

    ghost predicate ValidExcept(except: int)
      reads blockBitmap, inodeBitmap, allInodes
    {
      && Shape()
      && forall g :: 0 <= g < img.consts.groups && g != except && blockBitmap[g].Some? ==> GroupRead(g)
    }

    /** A non-null block bitmap means that the whole group has been read. */
    ghost predicate Valid()
      reads blockBitmap, inodeBitmap, allInodes
    {
      ValidExcept(-1)
    }

    ghost function LoadedGroups(): set<int>
      requires Shape()
      reads blockBitmap
    {
      set g | 0 <= g < img.consts.groups && blockBitmap[g].Some?
    }

    constructor (consts: Consts, dev: Device)
      ensures img == Image(consts, dev)
      ensures Valid() && LoadedGroups() == {}
      ensures tableReads == 0
      ensures fresh(Footprint())
    {
      var image := Image(consts, dev);
      img := image;
      var offset := BlockToOffset(consts, consts.descTableBlock);
      descTable := DecodeDescs(Read(dev, offset, consts.groups * SIZEOF_GROUP_DESC), consts.groups);
      blockBitmap := new Option<seq<byte>>[consts.groups](_ => None);
      inodeBitmap := new seq<byte>[consts.groups];
      allInodes := new seq<Inode>[consts.groups];
      tableReads := 0;
      new;
      forall g | 0 <= g < consts.groups
        ensures descTable[g] == DescAt(img, g)
      {
        DescsRefineLookup(image, consts.groups, g);
      }
      assert forall g :: 0 <= g < consts.groups ==> blockBitmap[g].None?;
    }

    /** Entered with the bitmap pointer set, this is the second half of `LoadMetaData`; entered with
        a null pointer it goes through `LoadMetaData`, which comes back here, and so reads the table
        twice. */
    method LoadInodes(group: int)
      requires ValidExcept(group) && 0 <= group < img.consts.groups
      requires blockBitmap[group].Some? ==> BitmapsRead(group)
      modifies Footprint()
      ensures Valid()
      ensures LoadedGroups() == old(LoadedGroups()) + {group}
      ensures tableReads == old(tableReads) + (if old(blockBitmap[group].Some?) then 1 else 2)
      decreases if blockBitmap[group].Some? then 0 else 2
    {
      if blockBitmap[group].None? {
        LoadMetaData(group);
      }
      var blockNumber := ToInt32(descTable[group].inodeTable);
      var count := img.consts.inodesPerGroup;
      var bytes := Read(img.dev, BlockToOffset(img.consts, blockNumber), count * SIZEOF_INODE);
      allInodes[group] := DecodeTable(bytes, count);
      tableReads := tableReads + 1;
      TableHoldsInodes(img, group);
    }

    method LoadMetaData(group: int)
      requires Valid() && 0 <= group < img.consts.groups
      modifies Footprint()
      ensures Valid()
      ensures LoadedGroups() == old(LoadedGroups()) + {group}
      ensures blockBitmap[group] == Some(ReadBlock(img, DescAt(img, group).blockBitmap))
      ensures inodeBitmap[group] == ReadBlock(img, DescAt(img, group).inodeBitmap)
      ensures tableReads == old(tableReads) + (if old(blockBitmap[group].Some?) then 0 else 1)
      decreases if blockBitmap[group].Some? then 0 else 1
    {
      if blockBitmap[group].Some? {
        return;
      }
      blockBitmap[group] := Some(ReadBlock(img, descTable[group].blockBitmap));
      inodeBitmap[group] := ReadBlock(img, descTable[group].inodeBitmap);
      LoadInodes(group);
    }

    /** `get_inode`, with its assertion. Whatever has been loaded before, the result is the inode on
        disk, and each group is read at most once. */
    method GetInode(n: int) returns (passes: bool, inode: Inode)
      requires Valid() && (ValidInode(img.consts, n) || LookUpFails(img.consts, n))
      modifies Footprint()
      ensures Valid()
      ensures passes <==> ValidInode(img.consts, n)
      ensures passes ==>
        && inode == InodeAt(img, n)
        && LoadedGroups() == old(LoadedGroups()) + {Locate(img.consts, n).0}
        && tableReads == old(tableReads)
                         + (if Locate(img.consts, n).0 in old(LoadedGroups()) then 0 else 1)
      ensures !passes ==> LoadedGroups() == old(LoadedGroups()) && tableReads == old(tableReads)
    {
      var group := TruncDiv(n - 1, img.consts.inodesPerGroup);
      var bit := LookUpBit(img.consts, n);
      if ValidInode(img.consts, n) {
        LookUpPlace(img.consts, n);
      }
      if !(bit < 8 * img.consts.blockSize) {
        inode := Inode(0, 0, 0);
        return false, inode;
      }
      LocateInverse(img.consts, n);
      if blockBitmap[group].None? {
        LoadMetaData(group);
      }
      assert group in LoadedGroups();
      inode := allInodes[group][bit];
      passes := true;
    }
  }
}
