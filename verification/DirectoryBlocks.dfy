/** The linked list of directory entries that `read_block` builds inside a vector. */
module DirectoryBlocks {
  import opened CTypes
  import opened Sequences
  import opened DirectoryParse

  /** The filter results that are copied into an entry. */
  datatype Flags = Flags(isDeleted: bool, isAllocated: bool, isReallocated: bool, zeroInode: bool,
                         isLinked: bool, isFiltered: bool)

  /** The union of the temporary pointer into the block buffer, as an offset, and the indices. */
  datatype Link = Pointer(offset: nat) | Index(cur: int, next: int)

  datatype DirEntry = DirEntry(fileType: int, inode: int, name: Text, flags: Flags, link: Link)

  /** An entry that the directory iteration reports: where it stands, and its flags. */
  datatype Found = Found(offset: nat, flags: Flags)

  predicate InBlock(buf: seq<byte>, f: Found)
  {
    f.offset + HEADER <= |buf| && f.offset + HEADER + buf[f.offset + 6] <= |buf|
  }

  function RecLenAt(buf: seq<byte>, offset: nat): nat
    requires offset + HEADER <= |buf|
  {
    Le16(buf, offset + 4)
  }

  /** `read_dir_entry`: only three bits of the type are kept, and the name may hold any bytes. */
  function EntryOfFound(buf: seq<byte>, f: Found): DirEntry
    requires InBlock(buf, f)
  {
    DirEntry(buf[f.offset + 7] % 8, ToInt32(Le32(buf, f.offset)),
             buf[f.offset + HEADER..f.offset + HEADER + buf[f.offset + 6]], f.flags, Pointer(f.offset))
  }

  function OffsetOf(f: Found): int { f.offset }

  predicate Increasing(offsets: seq<nat>)
  {
    forall i, j :: 0 <= i < j < |offsets| ==> offsets[i] < offsets[j]
  }

  predicate AllInBlock(buf: seq<byte>, offsets: seq<nat>)
  {
    forall i :: 0 <= i < |offsets| ==> offsets[i] + HEADER <= |buf|
  }

  /** `next` leads to the entry that the record length points at, or is zero at the block end. */
  predicate LinksTo(buf: seq<byte>, offsets: seq<nat>, i: int, next: int)
    requires AllInBlock(buf, offsets) && 0 <= i < |offsets|
  {
    var target := offsets[i] + RecLenAt(buf, offsets[i]);
    || (0 < next < |offsets| && offsets[next] == target)
    || (next == 0 && target == |buf|)
  }

  /** The assertion on an entry: its record length leads to a later-stored entry or to the end. */
  ghost predicate Leads(buf: seq<byte>, offsets: seq<nat>, i: int)
    requires AllInBlock(buf, offsets) && 0 <= i < |offsets|
  {
    exists next :: LinksTo(buf, offsets, i, next)
  }

  /** A finished vector: `cur` is the position in address order and `next` mirrors the chain. */
  predicate Linked(buf: seq<byte>, offsets: seq<nat>, entries: seq<DirEntry>)
  {
    && |entries| == |offsets|
    && Increasing(offsets) && AllInBlock(buf, offsets)
    && forall i :: 0 <= i < |entries| ==>
         && entries[i].link.Index?
         && entries[i].link.cur == i
         && LinksTo(buf, offsets, i, entries[i].link.next)
  }

  function Offsets(found: seq<Found>): (offsets: seq<nat>)
    ensures |offsets| == |found|
    ensures forall i :: 0 <= i < |found| ==> offsets[i] == found[i].offset
  {
    seq(|found|, i requires 0 <= i < |found| => found[i].offset)
  }

  predicate SamePayload(a: DirEntry, b: DirEntry)
  {
    a.fileType == b.fileType && a.inode == b.inode && a.name == b.name && a.flags == b.flags
  }

  function AddressOf(e: DirEntry): int
  {
    if e.link.Pointer? then e.link.offset else 0
  }

  class DirectoryBlock {
    var dirEntry: seq<DirEntry>

    constructor ()
      ensures dirEntry == []
    {
      dirEntry := [];
    }

    /** Appends the entry at an offset: where a record stands, its fields. */
    method ReadDirEntry(buf: seq<byte>, f: Found)
      requires InBlock(buf, f)
      modifies this
      ensures dirEntry == old(dirEntry) + [EntryOfFound(buf, f)]
    {
      dirEntry := dirEntry + [EntryOfFound(buf, f)];
    }

    /** The entries in the order in which the iteration reports them. */
    method ReadAll(buf: seq<byte>, found: seq<Found>)
      requires dirEntry == []
      requires forall f :: f in found ==> InBlock(buf, f)
      modifies this
      ensures |dirEntry| == |found|
      ensures forall i :: 0 <= i < |found| ==> dirEntry[i] == EntryOfFound(buf, found[i])
    {
      for i := 0 to |found|
        invariant |dirEntry| == i
        invariant forall j :: 0 <= j < i ==> dirEntry[j] == EntryOfFound(buf, found[j])
      {
        ReadDirEntry(buf, found[i]);
      }
    }

    /** The index of the entry that stands at `target`, or zero. */
    method FindTarget(offsets: seq<nat>, target: nat) returns (next: nat)
      ensures next == 0 || (next < |offsets| && offsets[next] == target)
      ensures next == 0 && Increasing(offsets) ==> forall j :: 0 < j < |offsets| ==> offsets[j] != target
    {
      next := 0;
      var j := 0;
      while j < |offsets|
        invariant 0 <= j <= |offsets|
        invariant next == 0
        invariant forall k :: 0 <= k < j ==> offsets[k] != target
      {
        if offsets[j] == target {
          next := j;
          break;
        }
        j := j + 1;
      }
    }

    /** `read_block`; the result tells whether the assertions hold. On success the vector is the
        address order of what was found, linked along the record lengths. A block written from records
        that are all found passes, and the vector mirrors the records in order. */
    method ReadBlock(buf: seq<byte>, found: seq<Found>) returns (passes: bool, ghost order: seq<Found>)
      requires dirEntry == []
      requires forall f :: f in found ==> InBlock(buf, f)
      requires KeysDistinct(OffsetOf, found)
      modifies this
      ensures multiset(order) == multiset(found) && Increasing(Offsets(order))
      ensures AllInBlock(buf, Offsets(order))
      ensures passes <==> 2 <= |found| && forall i :: 0 <= i < |order| ==> Leads(buf, Offsets(order), i)
      ensures passes ==> Linked(buf, Offsets(order), dirEntry)
      ensures passes ==> forall i :: 0 <= i < |order| ==>
        InBlock(buf, order[i]) && SamePayload(dirEntry[i], EntryOfFound(buf, order[i]))
      ensures forall rs :: Written(buf, found, rs) ==> passes && Mirrors(dirEntry, rs)
      ensures passes ==> forall i :: 0 <= i < |order| ==> dirEntry[i].flags == order[i].flags
    {
      forall rs | Written(buf, found, rs)
        ensures 2 <= |found|
      {
        WrittenSize(buf, found, rs);
      }
      ReadAll(buf, found);
      ghost var unsorted := dirEntry;
      dirEntry := Sort(AddressOf, dirEntry);
      order := OrderOf(buf, found, unsorted, dirEntry);
      ghost var sorted := dirEntry;
      if |dirEntry| < 2 {
        return false, order;
      }
      var addresses := NumberEntries();
      assert addresses == Offsets(order);
      passes := LinkEntries(buf, addresses);
      forall rs | Written(buf, found, rs)
        ensures passes && Mirrors(dirEntry, rs)
      {
        WrittenLeads(buf, found, order, rs);
        WrittenMirrors(buf, found, order, dirEntry, rs);
      }
    }

    /** Saves the pointers and overwrites them with the positions. */
    method NumberEntries() returns (addresses: seq<nat>)
      requires forall i :: 0 <= i < |dirEntry| ==> dirEntry[i].link.Pointer?
      modifies this
      ensures |addresses| == |dirEntry| == |old(dirEntry)|
      ensures forall i :: 0 <= i < |addresses| ==> addresses[i] == old(dirEntry)[i].link.offset
      ensures Numbered(dirEntry)
      ensures forall i :: 0 <= i < |dirEntry| ==> SamePayload(dirEntry[i], old(dirEntry)[i])
    {
      addresses := [];
      var i := 0;
      while i < |dirEntry|
        invariant 0 <= i <= |dirEntry| == |old(dirEntry)|
        invariant |addresses| == i
        invariant forall j :: 0 <= j < i ==> addresses[j] == old(dirEntry)[j].link.offset
        invariant forall j :: 0 <= j < i ==>
          dirEntry[j].link == Index(j, 0) && SamePayload(dirEntry[j], old(dirEntry)[j])
        invariant forall j :: i <= j < |dirEntry| ==> dirEntry[j] == old(dirEntry)[j]
      {
        addresses := addresses + [dirEntry[i].link.offset];
        dirEntry := dirEntry[i := dirEntry[i].(link := Index(i, 0))];
        i := i + 1;
      }
    }

    /** Replaces every record length by the index of the entry it leads to. */
    method LinkEntries(buf: seq<byte>, addresses: seq<nat>) returns (passes: bool)
      requires |addresses| == |dirEntry| && Numbered(dirEntry)
      requires Increasing(addresses) && AllInBlock(buf, addresses)
      modifies this
      ensures passes <==> forall i :: 0 <= i < |addresses| ==> Leads(buf, addresses, i)
      ensures passes ==> Linked(buf, addresses, dirEntry)
      ensures passes ==> forall i :: 0 <= i < |dirEntry| ==> SamePayload(dirEntry[i], old(dirEntry)[i])
    {
      var i := 0;
      while i < |dirEntry|
        invariant 0 <= i <= |dirEntry| == |old(dirEntry)|
        invariant Numbered(dirEntry)
        invariant forall j :: 0 <= j < |dirEntry| ==> SamePayload(dirEntry[j], old(dirEntry)[j])
        invariant forall j :: 0 <= j < i ==> LinksTo(buf, addresses, j, dirEntry[j].link.next)
      {
        var address := addresses[dirEntry[i].link.cur];
        var target := address + RecLenAt(buf, address);
        var next := FindTarget(addresses, target);
        if !(next > 0 || target == |buf|) {
          assert !Leads(buf, addresses, i);
          return false;
        }
        assert LinksTo(buf, addresses, i, next);
        dirEntry := dirEntry[i := dirEntry[i].(link := Index(dirEntry[i].link.cur, next))];
        i := i + 1;
      }
      forall j | 0 <= j < |addresses|
        ensures Leads(buf, addresses, j)
      {
        assert LinksTo(buf, addresses, j, dirEntry[j].link.next);
      }
      return true;
    }

    /** `exactly_equal` on two finished blocks: the assertion inside never fires, and the answer is
        whether both hold the same entries with the same links. */
    method ExactlyEqual(dir: DirectoryBlock) returns (equal: bool)
      requires Numbered(dirEntry) && Numbered(dir.dirEntry)
      ensures equal <==> SameEntries(dirEntry, dir.dirEntry)
      ensures equal <==> |dirEntry| == |dir.dirEntry| && forall i :: 0 <= i < |dirEntry| ==>
        && dirEntry[i].inode == dir.dirEntry[i].inode
        && dirEntry[i].name == dir.dirEntry[i].name
        && dirEntry[i].fileType == dir.dirEntry[i].fileType
        && dirEntry[i].link.next == dir.dirEntry[i].link.next
    {
      if |dirEntry| != |dir.dirEntry| {
        return false;
      }
      var i := 0;
      while i < |dirEntry|
        invariant 0 <= i <= |dirEntry|
        invariant forall j :: 0 <= j < i ==> EntryEqual(dirEntry[j], dir.dirEntry[j])
      {
        if !EntryEqual(dirEntry[i], dir.dirEntry[i]) {
          return false;
        }
        i := i + 1;
      }
      return true;
    }
  }

  predicate Numbered(entries: seq<DirEntry>)
  {
    forall i :: 0 <= i < |entries| ==> entries[i].link.Index? && entries[i].link.cur == i
  }

  /** `DirEntry::exactly_equal`, with its assertion as a precondition. */
  predicate EntryEqual(a: DirEntry, b: DirEntry)
    requires a.link.Index? && b.link.Index? && a.link.cur == b.link.cur
  {
    a.inode == b.inode && a.name == b.name && a.fileType == b.fileType && a.link.next == b.link.next
  }

  predicate SameEntries(a: seq<DirEntry>, b: seq<DirEntry>)
    requires Numbered(a) && Numbered(b)
  {
    |a| == |b| && forall i :: 0 <= i < |a| ==> EntryEqual(a[i], b[i])
  }

  // ----- sorting by address

  /** The report that an entry came from. */
  function FoundOf(e: DirEntry): Found
  {
    Found(if e.link.Pointer? then e.link.offset else 0, e.flags)
  }

  /** The reports in address order. */
  lemma OrderOf(buf: seq<byte>, found: seq<Found>, unsorted: seq<DirEntry>, sorted: seq<DirEntry>)
    returns (order: seq<Found>)
    requires forall f :: f in found ==> InBlock(buf, f)
    requires KeysDistinct(OffsetOf, found)
    requires |unsorted| == |found|
    requires forall i :: 0 <= i < |found| ==> unsorted[i] == EntryOfFound(buf, found[i])
    requires SortedBy(AddressOf, sorted) && multiset(sorted) == multiset(unsorted)
    ensures multiset(order) == multiset(found) && |order| == |sorted|
    ensures Increasing(Offsets(order)) && AllInBlock(buf, Offsets(order))
    ensures forall i :: 0 <= i < |order| ==> InBlock(buf, order[i]) && sorted[i] == EntryOfFound(buf, order[i])
  {
    order := MapSeq(FoundOf, sorted);
    MapPermutes(FoundOf, sorted, unsorted);
    assert MapSeq(FoundOf, unsorted) == found;
    SameElements(sorted, unsorted);
    SameElements(order, found);
    forall i | 0 <= i < |order|
      ensures InBlock(buf, order[i]) && sorted[i] == EntryOfFound(buf, order[i])
    {
      assert sorted[i] in sorted;
      var j :| 0 <= j < |unsorted| && unsorted[j] == sorted[i];
      assert found[j] in found;
    }
    KeysDistinctPermutes(OffsetOf, order, found);
    forall i, j | 0 <= i < j < |order|
      ensures Offsets(order)[i] < Offsets(order)[j]
    {
      assert AddressOf(sorted[i]) <= AddressOf(sorted[j]);
      assert OffsetOf(order[i]) != OffsetOf(order[j]);
    }
  }

  // ----- following the links

  predicate Forward(entries: seq<DirEntry>)
    requires Numbered(entries)
  {
    forall i :: 0 <= i < |entries| ==>
      entries[i].link.next == 0 || i < entries[i].link.next < |entries|
  }

  predicate PositiveLengths(buf: seq<byte>, offsets: seq<nat>)
    requires AllInBlock(buf, offsets)
  {
    forall i :: 0 <= i < |offsets| ==> 0 < RecLenAt(buf, offsets[i])
  }

  /** All links of a finished block lead forward exactly when no record length is zero. */
  lemma ForwardIff(buf: seq<byte>, offsets: seq<nat>, entries: seq<DirEntry>)
    requires Linked(buf, offsets, entries)
    ensures Forward(entries) <==> PositiveLengths(buf, offsets)
  {
    forall i | 0 <= i < |entries| && RecLenAt(buf, offsets[i]) > 0
      ensures entries[i].link.next == 0 || i < entries[i].link.next < |entries|
    {
      assert LinksTo(buf, offsets, i, entries[i].link.next);
    }
    forall i | 0 <= i < |entries| && RecLenAt(buf, offsets[i]) == 0
      ensures entries[i].link.next == i && i != 0
    {
      assert LinksTo(buf, offsets, i, entries[i].link.next);
    }
  }

  /** The indices reached from entry `i`. */
  function Follow(entries: seq<DirEntry>, i: nat): (path: seq<nat>)
    requires Numbered(entries) && Forward(entries) && i < |entries|
    ensures |path| > 0 && path[0] == i
    decreases |entries| - i
  {
    if entries[i].link.next == 0 then [i] else [i] + Follow(entries, entries[i].link.next)
  }

  function TotalLength(buf: seq<byte>, offsets: seq<nat>, path: seq<nat>): nat
    requires AllInBlock(buf, offsets)
    requires forall k :: 0 <= k < |path| ==> path[k] < |offsets|
  {
    if |path| == 0 then 0 else RecLenAt(buf, offsets[path[0]]) + TotalLength(buf, offsets, path[1..])
  }

  /** The links lead through strictly increasing indices to an entry whose link is zero. */
  lemma {:induction false} FollowIncreases(entries: seq<DirEntry>, i: nat)
    requires Numbered(entries) && Forward(entries) && i < |entries|
    ensures Increasing(Follow(entries, i))
    ensures forall k :: 0 <= k < |Follow(entries, i)| ==> i <= Follow(entries, i)[k] < |entries|
    ensures var path := Follow(entries, i); entries[path[|path| - 1]].link.next == 0
    decreases |entries| - i
  {
    var next := entries[i].link.next;
    if next != 0 {
      FollowIncreases(entries, next);
      var path, rest := Follow(entries, i), Follow(entries, next);
      assert forall k :: 1 <= k < |path| ==> path[k] == rest[k - 1];
      assert path[|path| - 1] == rest[|rest| - 1];
    }
  }

  /** From any entry the record lengths along the links add up to exactly the rest of the block. */
  lemma {:induction false} FollowCoversBlock(buf: seq<byte>, offsets: seq<nat>, entries: seq<DirEntry>, i: nat)
    requires Linked(buf, offsets, entries) && Forward(entries) && i < |entries|
    ensures forall k :: 0 <= k < |Follow(entries, i)| ==> Follow(entries, i)[k] < |offsets|
    ensures TotalLength(buf, offsets, Follow(entries, i)) == |buf| - offsets[i]
    decreases |entries| - i
  {
    FollowIncreases(entries, i);
    var next := entries[i].link.next;
    var path := Follow(entries, i);
    assert LinksTo(buf, offsets, i, next);
    if next == 0 {
      assert path[1..] == [];
    } else {
      FollowCoversBlock(buf, offsets, entries, next);
      assert path[1..] == Follow(entries, next);
    }
  }

  /** On success of `read_block` with positive record lengths, both hold from every entry. */
  lemma FinishedBlock(buf: seq<byte>, offsets: seq<nat>, entries: seq<DirEntry>, i: nat)
    requires Linked(buf, offsets, entries) && PositiveLengths(buf, offsets) && i < |entries|
    ensures Forward(entries)
    ensures Increasing(Follow(entries, i))
    ensures forall k :: 0 <= k < |Follow(entries, i)| ==> Follow(entries, i)[k] < |offsets|
    ensures TotalLength(buf, offsets, Follow(entries, i)) == |buf| - offsets[i]
  {
    ForwardIff(buf, offsets, entries);
    FollowIncreases(entries, i);
    FollowCoversBlock(buf, offsets, entries, i);
  }

  /** `exactly_equal` is an equivalence, and equal blocks are followed alike. */
  lemma SameEntriesEquivalence(a: seq<DirEntry>, b: seq<DirEntry>, c: seq<DirEntry>)
    requires Numbered(a) && Numbered(b) && Numbered(c)
    ensures SameEntries(a, a)
    ensures SameEntries(a, b) ==> SameEntries(b, a)
    ensures SameEntries(a, b) && SameEntries(b, c) ==> SameEntries(a, c)
  {
  }

  lemma {:induction false} EqualBlocksFollowAlike(a: seq<DirEntry>, b: seq<DirEntry>, i: nat)
    requires Numbered(a) && Numbered(b) && SameEntries(a, b)
    requires Forward(a) && Forward(b) && i < |a|
    ensures Follow(a, i) == Follow(b, i)
    decreases |a| - i
  {
    assert EntryEqual(a[i], b[i]);
    if a[i].link.next != 0 {
      EqualBlocksFollowAlike(a, b, a[i].link.next);
    }
  }

  // ----- blocks written from records

  /** The fields of a record, as an entry keeps them. */
  predicate HoldsRecord(e: DirEntry, r: Record)
  {
    e.inode == ToInt32(r.inode) && e.fileType == r.fileType % 8 && e.name == r.name
  }

  /** Where a record stands, its fields are read, all bytes of its name included. */
  lemma EntryOfRecord(buf: seq<byte>, f: Found, r: Record)
    requires Encodable(r) && RecordAt(buf, f.offset, r)
    ensures InBlock(buf, f)
    ensures HoldsRecord(EntryOfFound(buf, f), r)
    ensures EntryOfFound(buf, f).flags == f.flags
    ensures RecLenAt(buf, f.offset) == RecLen(r)
  {
  }

  /** The offsets of consecutive records. */
  function Starts(base: nat, rs: seq<Record>): (starts: seq<nat>)
    ensures |starts| == |rs|
    decreases |rs|
  {
    if |rs| == 0 then [] else [base] + Starts(base + RecLen(rs[0]), rs[1..])
  }

  /** The end of a record is the start of the next or the end of the block. */
  lemma {:induction false} StartsChain(buf: seq<byte>, base: nat, rs: seq<Record>, k: nat)
    requires AllEncodable(rs) && Chained(buf, base, rs) && k < |rs|
    ensures RecordAt(buf, Starts(base, rs)[k], rs[k])
    ensures Starts(base, rs)[k] + RecLen(rs[k]) == if k + 1 < |rs| then Starts(base, rs)[k + 1] else |buf|
    decreases k
  {
    var next := base + RecLen(rs[0]);
    if k > 0 {
      StartsChain(buf, next, rs[1..], k - 1);
    } else if |rs| > 1 {
      assert Starts(base, rs)[1] == Starts(next, rs[1..])[0] == next;
    }
  }

  lemma {:induction false} StartsIncrease(base: nat, rs: seq<Record>)
    ensures Increasing(Starts(base, rs))
    ensures forall k :: 0 <= k < |rs| ==> base <= Starts(base, rs)[k]
    decreases |rs|
  {
    if |rs| > 0 {
      StartsIncrease(base + RecLen(rs[0]), rs[1..]);
    }
  }

  /** The block was written from records, at least two, each of which is reported once. */
  predicate Written(buf: seq<byte>, found: seq<Found>, rs: seq<Record>)
  {
    && AllEncodable(rs) && 2 <= |rs|
    && buf == Encode(rs)
    && multiset(Offsets(found)) == multiset(Starts(0, rs))
  }

  /** The entries hold the records in order, each linked to the next and the last to zero. */
  predicate Mirrors(entries: seq<DirEntry>, rs: seq<Record>)
  {
    && |entries| == |rs|
    && forall k :: 0 <= k < |rs| ==>
         && HoldsRecord(entries[k], rs[k])
         && entries[k].link == Index(k, if k + 1 < |rs| then k + 1 else 0)
  }

  lemma WrittenSize(buf: seq<byte>, found: seq<Found>, rs: seq<Record>)
    requires Written(buf, found, rs)
    ensures |found| == |rs|
  {
    SameElements(Offsets(found), Starts(0, rs));
  }

  lemma SameLast(a: seq<nat>, b: seq<nat>)
    requires Increasing(a) && Increasing(b) && multiset(a) == multiset(b) && |a| > 0
    ensures |a| == |b| && a[|a| - 1] == b[|b| - 1]
  {
    SameElements(a, b);
    assert a[|a| - 1] in b && b[|b| - 1] in a;
  }

  /** There is only one way to put offsets in order. */
  lemma {:induction false} IncreasingUnique(a: seq<nat>, b: seq<nat>)
    requires Increasing(a) && Increasing(b) && multiset(a) == multiset(b)
    ensures a == b
    decreases |a|
  {
    SameElements(a, b);
    if |a| > 0 {
      var k := |a| - 1;
      SameLast(a, b);
      FrontsSame(a, b);
      IncreasingUnique(a[..k], b[..k]);
      assert a == a[..k] + [a[k]] && b == b[..k] + [b[k]];
    }
  }

  lemma OffsetsPermute(a: seq<Found>, b: seq<Found>)
    requires multiset(a) == multiset(b)
    ensures multiset(Offsets(a)) == multiset(Offsets(b))
  {
    var offset: Found -> nat := (f: Found) => f.offset;
    MapPermutes(offset, a, b);
    assert Offsets(a) == MapSeq(offset, a) && Offsets(b) == MapSeq(offset, b);
  }

  lemma WrittenOrder(buf: seq<byte>, found: seq<Found>, order: seq<Found>, rs: seq<Record>)
    requires Written(buf, found, rs)
    requires multiset(order) == multiset(found) && Increasing(Offsets(order))
    ensures Offsets(order) == Starts(0, rs)
  {
    OffsetsPermute(order, found);
    StartsIncrease(0, rs);
    IncreasingUnique(Offsets(order), Starts(0, rs));
  }

  lemma WrittenLeads(buf: seq<byte>, found: seq<Found>, order: seq<Found>, rs: seq<Record>)
    requires Written(buf, found, rs)
    requires multiset(order) == multiset(found) && Increasing(Offsets(order)) && AllInBlock(buf, Offsets(order))
    ensures forall k :: 0 <= k < |order| ==> Leads(buf, Offsets(order), k)
  {
    WrittenOrder(buf, found, order, rs);
    ChainedOfEncode(buf, 0, rs);
    forall k | 0 <= k < |order|
      ensures Leads(buf, Offsets(order), k)
    {
      StartsChain(buf, 0, rs, k);
      EntryOfRecord(buf, order[k], rs[k]);
      assert LinksTo(buf, Offsets(order), k, if k + 1 < |rs| then k + 1 else 0);
    }
  }

  /** The link of an entry is determined by its record length. */
  lemma LinkUnique(buf: seq<byte>, offsets: seq<nat>, k: nat, next: int, m: int)
    requires AllInBlock(buf, offsets) && Increasing(offsets) && k < |offsets|
    requires LinksTo(buf, offsets, k, next) && LinksTo(buf, offsets, k, m)
    ensures next == m
  {
  }

  lemma WrittenMirrors(buf: seq<byte>, found: seq<Found>, order: seq<Found>, entries: seq<DirEntry>,
                       rs: seq<Record>)
    requires Written(buf, found, rs)
    requires multiset(order) == multiset(found)
    requires Linked(buf, Offsets(order), entries)
    requires forall k :: 0 <= k < |order| ==>
      InBlock(buf, order[k]) && SamePayload(entries[k], EntryOfFound(buf, order[k]))
    ensures Mirrors(entries, rs)
  {
    WrittenOrder(buf, found, order, rs);
    ChainedOfEncode(buf, 0, rs);
    forall k | 0 <= k < |rs|
      ensures HoldsRecord(entries[k], rs[k])
      ensures entries[k].link == Index(k, if k + 1 < |rs| then k + 1 else 0)
    {
      StartsChain(buf, 0, rs, k);
      EntryOfRecord(buf, order[k], rs[k]);
      LinkUnique(buf, Offsets(order), k, entries[k].link.next, if k + 1 < |rs| then k + 1 else 0);
    }
  }

  // ----- a record length of zero

  lemma TwoOffsets(order: seq<Found>, a: Found, b: Found)
    requires multiset(order) == multiset([a, b]) && Increasing(Offsets(order)) && a.offset < b.offset
    ensures order == [a, b]
  {
    SameElements(order, [a, b]);
    assert order[0] in order && order[1] in order;
    assert Offsets(order)[0] < Offsets(order)[1];
  }

  /** A block of 1024 bytes with entries `.` at 0 and `..` at 12, the second with a record length of
      zero. */
  method ZeroLengthBlock(a: Found, b: Found) returns (buf: seq<byte>)
    requires a.offset == 0 && b.offset == 12
    ensures |buf| == 1024
    ensures InBlock(buf, a) && EntryOfFound(buf, a).name == [DOT] && RecLenAt(buf, 0) == 12
    ensures InBlock(buf, b) && EntryOfFound(buf, b).name == [DOT, DOT] && RecLenAt(buf, 12) == 0
  {
    var first: seq<byte> := [2, 0, 0, 0, 12, 0, 1, 2, DOT, 0, 0, 0];
    var second: seq<byte> := [2, 0, 0, 0, 0, 0, 2, 2, DOT, DOT, 0, 0];
    var rest: seq<byte> := seq(1000, _ => 0);
    buf := first + second + rest;
    assert forall i :: 0 <= i < 12 ==> buf[i] == first[i];
    assert forall i :: 12 <= i < 24 ==> buf[i] == second[i - 12];
    Le16Value(buf, 4);
    Le16Value(buf, 16);
    assert buf[8..9] == [DOT];
    assert buf[20..22] == [DOT, DOT];
  }

  lemma ZeroLengthLinks(buf: seq<byte>, offsets: seq<nat>)
    requires |buf| == 1024 && offsets == [0, 12]
    requires RecLenAt(buf, 0) == 12 && RecLenAt(buf, 12) == 0
    ensures AllInBlock(buf, offsets) && LinksTo(buf, offsets, 0, 1) && LinksTo(buf, offsets, 1, 1)
  {
  }

  /** A record length of zero in any entry but the first passes the assertions and links the entry to
      itself: here the entry `..` of a block of 1024 bytes. */
  method ZeroLengthLoops() returns (buf: seq<byte>, passes: bool, dir: DirectoryBlock)
    ensures |buf| == 1024 && RecLenAt(buf, 0) == 12 && RecLenAt(buf, 12) == 0
    ensures passes && Linked(buf, [0, 12], dir.dirEntry)
    ensures dir.dirEntry[0].name == [DOT] && dir.dirEntry[1].name == [DOT, DOT]
    ensures dir.dirEntry[1].link == Index(1, 1)
  {
    var flags := Flags(false, true, false, false, true, false);
    var a, b := Found(0, flags), Found(12, flags);
    buf := ZeroLengthBlock(a, b);
    dir := new DirectoryBlock();
    ghost var order;
    passes, order := dir.ReadBlock(buf, [a, b]);
    TwoOffsets(order, a, b);
    ghost var offsets := Offsets(order);
    assert offsets == [0, 12];
    ZeroLengthLinks(buf, offsets);
    assert passes;
    LinkUnique(buf, offsets, 1, dir.dirEntry[1].link.next, 1);
  }
}
