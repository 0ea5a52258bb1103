/** The walk itself: `read_inode`, `read_directory_inode`, `read_current_directory` and
    `read_file_inode` over the inode cache and the index. */
module Walker {
  import opened CTypes
  import opened Sequences
  import opened Geometry
  import opened Image
  import opened DirectoryParse
  import opened Documents
  import opened WalkSpec
  import opened WalkTheorems
  import opened WalkChoices
  import opened WalkLogs
  import opened InodeCache
  import opened Database

  /** An entry may be looked up from a directory of rank `bound`. */
  ghost predicate MayLookUp(img: Image, rank: map<int, nat>, bound: nat, e: Entry)
  {
    && (!IsDot(e) ==> LookUpDefined(img.consts, e.inode))
    && (Recurses(ViewOf(img), e) ==> e.inode in rank && rank[e.inode] < bound)
  }

  /** As long as the loop has met no blocker, its next entry may be looked up. */
  lemma NextLookUp(img: Image, rank: map<int, nat>, d: int, order: seq<Entry>, subs: seq<Run>)
    requires WellFormed(img, rank) && d in rank
    requires SortedPermutation(order, ViewOf(img).listing(d).entries)
    requires StepsDone(ViewOf(img), order, subs) && |subs| < |order|
    ensures MayLookUp(img, rank, rank[d], order[|subs|])
  {
    NextInReach(ViewOf(img), ViewOf(img).listing(d).entries, order, |subs|);
  }

  lemma EntriesTidy(block: seq<byte>, order: seq<Entry>)
    requires Parse(block).Parsed? && multiset(order) == multiset(Parse(block).entries)
    ensures forall i :: 0 <= i < |order| ==> Tidy(order[i])
  {
    ParsedEntriesTidy(block, 0);
    SameElements(order, Parse(block).entries);
    assert forall i :: 0 <= i < |order| ==> order[i] in order;
  }

  /** Copies a text and its terminator into a buffer. */
  method CopyString(buf: array<byte>, at: nat, s: Text)
    requires at + |s| < buf.Length
    modifies buf
    ensures buf[..at] == old(buf[..at])
    ensures buf[at..at + |s|] == s && buf[at + |s|] == NUL
  {
    for i := 0 to |s|
      invariant buf[..at] == old(buf[..at])
      invariant buf[at..at + i] == s[..i]
    {
      buf[at + i] := s[i];
      assert buf[at..at + i + 1] == s[..i] + [s[i]];
    }
    buf[at + |s|] := NUL;
    assert s[..|s|] == s;
  }

  /** The path buffer of a subdirectory, allocated from `name_len`: the string and its terminator
      fit, and fill it exactly when the name has no NUL. */
  method PathBuffer(prefix: Text, e: Entry) returns (buf: array<byte>)
    requires NUL !in prefix && Tidy(e)
    ensures fresh(buf) && buf.Length == |prefix| + e.nameLen + 2
    ensures CStr(buf[..]) == DirPrefix(prefix, e)
    ensures |DirPrefix(prefix, e)| + 1 == buf.Length <==> |e.name| == e.nameLen
  {
    buf := new byte[|prefix| + e.nameLen + 2];
    CopyString(buf, 0, prefix);
    CopyString(buf, |prefix|, e.name);
    ghost var named := buf[..];
    CopyString(buf, |prefix| + |e.name|, [SLASH]);
    var path := DirPrefix(prefix, e);
    assert buf[..|prefix| + |e.name|] == named[..|prefix| + |e.name|] == prefix + e.name;
    assert buf[..|path|] == path;
    CStrUnique(buf[..], path);
  }

  /** The buffer holds the block, if one was read, with a terminator at the text length; every other
      cell, and so any past the block, is as before. */
  predicate Terminated(before: seq<byte>, after: seq<byte>, inode: Inode, block: seq<byte>)
  {
    && |before| == |after| > |block|
    && forall i :: 0 <= i < |after| ==>
         after[i] == if i == TextLength(inode, block) then NUL
                     else if i < |block| && HasText(inode) then block[i]
                     else before[i]
  }

  class Walker {
    const cache: InodeCache
    const db: DB
    var fileContent: array<byte>
    var sumFiles: int

    /** How often a terminator has been written past the allocation. */
    ghost var overruns: int

    ghost function Footprint(): set<object>
    {
      {this, db} + cache.Footprint()
    }

    ghost predicate Valid()
      reads db, cache.blockBitmap, cache.inodeBitmap, cache.allInodes
    {
      && cache.Valid() && db.Valid()
      && this as object !in cache.Footprint() && db as object !in cache.Footprint()
    }

    /** The index and the counters. */
    ghost function State(): Effect
      reads this, db
    {
      Effect(db.contents, sumFiles, overruns)
    }

    ghost function View(): View
    {
      ViewOf(cache.img)
    }

    constructor (cache: InodeCache, db: DB)
      requires cache.Valid() && db.Valid() && db as object !in cache.Footprint()
      ensures this.cache == cache && this.db == db && fresh(this)
      ensures Valid() && sumFiles == 0 && overruns == 0
    {
      this.cache := cache;
      this.db := db;
      this.fileContent := new byte[0];
      this.sumFiles := 0;
      this.overruns := 0;
    }

    /** Reads a block into a new buffer. */
    method ReadBuffer(block: int) returns (buf: array<byte>)
      ensures fresh(buf) && buf[..] == ReadBlock(cache.img, block)
    {
      var bytes := ReadBlock(cache.img, block);
      buf := new byte[|bytes|](i requires 0 <= i < |bytes| => bytes[i]);
    }

    /** The check of the first characters. */
    method StartsAscii(count: nat) returns (isAscii: bool)
      requires count <= fileContent.Length
      ensures isAscii <==> Ascii(fileContent[..count])
    {
      isAscii := true;
      var i := 0;
      while i < count && isAscii
        invariant 0 <= i <= count
        invariant isAscii ==> forall j :: 0 <= j < i ==> fileContent[j] < 128
        invariant !isAscii ==> exists j :: 0 <= j < count && fileContent[j] >= 128
      {
        if !(0 <= fileContent[i] < 128) {
          isAscii := false;
        }
        i := i + 1;
      }
    }

    /** Fills the buffer for an inode and ends the text; the last cell of the buffer stands for the
        byte after the allocation. */
    method LoadText(inode: Inode)
      requires fileContent.Length == cache.img.consts.blockSize + 1
      modifies fileContent, this`overruns
      ensures var block := ReadBlock(cache.img, inode.block0);
        CStr(fileContent[..]) == CStr(block[..TextLength(inode, block)])
      ensures var block := ReadBlock(cache.img, inode.block0);
        && Terminated(old(fileContent[..]), fileContent[..], inode, block)
        && overruns == old(overruns) + if TextLength(inode, block) == |block| then 1 else 0
    {
      var blockSize := cache.img.consts.blockSize;
      var block := ReadBlock(cache.img, inode.block0);
      var size := 0;
      if !IsDirectory(inode) && inode.block0 != 0 {
        forall i | 0 <= i < blockSize {
          fileContent[i] := block[i];
        }
        assert fileContent[..blockSize] == block;
        size := if inode.size > blockSize then blockSize else inode.size;
        assert fileContent[..Min(100, size)] == block[..Min(100, size)];
        var isAscii := StartsAscii(Min(100, size));
        if !isAscii {
          size := 0;
        }
      }
      assert size == TextLength(inode, block);
      fileContent[size] := NUL;
      if size == blockSize {
        overruns := overruns + 1;
      }
      assert fileContent[..size] == block[..size];
      TerminatedText(fileContent[..], block, size);
    }

    /** `read_file_inode`, unless the lookup ends the program; the byte after the allocation is
        overwritten exactly when the file fills its first block and starts with ASCII characters. */
    method ReadFileInode(n: int) returns (aborted: bool)
      requires Valid() && (ValidInode(cache.img.consts, n) || LookUpFails(cache.img.consts, n))
      requires fileContent.Length == cache.img.consts.blockSize + 1
      requires fileContent as object !in Footprint()
      modifies this`sumFiles, this`overruns, fileContent, cache.Footprint()
      ensures Valid()
      ensures sumFiles == old(sumFiles) + 1
      ensures aborted <==> !ValidInode(cache.img.consts, n)
      ensures aborted ==> overruns == old(overruns)
      ensures !aborted ==>
        && CStr(fileContent[..]) == FileText(cache.img, n)
        && Terminated(old(fileContent[..]), fileContent[..], InodeAt(cache.img, n),
                      ReadBlock(cache.img, InodeAt(cache.img, n).block0))
        && fileContent[cache.img.consts.blockSize]
           == (if Overflows(cache.img, n) then NUL else old(fileContent[cache.img.consts.blockSize]))
        && overruns == old(overruns) + (if Overflows(cache.img, n) then 1 else 0)
    {
      sumFiles := sumFiles + 1;
      var passes, inode := cache.GetInode(n);
      if !passes {
        return true;
      }
      LoadText(inode);
      TerminatorInBounds(cache.img, n);
      return false;
    }

    /** `read_directory_inode`: a non-directory is reported to the caller, but what happened inside a
        directory is not. */
    method ReadDirectoryInode(n: int, prefix: Text, ghost rank: map<int, nat>)
      returns (aborted: bool, ret: int, ghost run: Run)
      requires Valid() && WellFormed(cache.img, rank)
      requires ValidInode(cache.img.consts, n) || LookUpFails(cache.img.consts, n)
      requires View().isDir(n) ==> n in rank
      requires NUL !in prefix
      modifies Footprint()
      ensures Valid()
      ensures !aborted ==> ret == if View().isDir(n) then 0 else -1
      ensures View().isDir(n) ==> Walked(View(), n, prefix, run, old(State()), State(), aborted)
      ensures !View().isDir(n) ==> State() == old(State()) && aborted == EntryAborts(cache.img, n)
      decreases if View().isDir(n) then rank[n] else 0, if View().isDir(n) then 6 else 1
    {
      run := Run([], []);
      var passes, inode := cache.GetInode(n);
      if !passes {
        return true, 0, run;
      }
      if IsDirectory(inode) {
        var block := ReadBuffer(inode.block0);
        var inner;
        aborted, inner, run := ReadCurrentDirectory(block, prefix, n, rank);
      } else {
        return false, -1, run;
      }
      return aborted, 0, run;
    }

    /** Builds the path of a subdirectory and adds its own document. */
    method AddPath(prefix: Text, e: Entry) returns (path: Text)
      requires Valid() && DirBranch(e) && Tidy(e) && NUL !in prefix
      modifies db
      ensures Valid()
      ensures path == DirPrefix(prefix, e) && NUL !in path
      ensures db.contents == old(db.contents) + [Doc(path, e.name, [])]
    {
      var buf := PathBuffer(prefix, e);
      path := CStr(buf[..]);
      db.Add(path, e.name, []);
    }

    /** The directory branch of the loop. */
    method AddDirectory(prefix: Text, e: Entry, ghost bound: nat, ghost rank: map<int, nat>)
      returns (aborted: bool, ret: int, ghost sub: Run)
      requires Valid() && WellFormed(cache.img, rank)
      requires MayLookUp(cache.img, rank, bound, e) && DirBranch(e) && Tidy(e)
      requires NUL !in prefix
      modifies Footprint()
      ensures Valid()
      ensures !aborted ==> ret == if Blocks(View(), e) then -1 else 0
      ensures Stepped(View(), prefix, e, sub, old(State()), State(), aborted)
      decreases bound, 2
    {
      var path := AddPath(prefix, e);
      ghost var own := State();
      DirectoryNumber(cache.img, e);
      aborted, ret, sub := ReadDirectoryInode(ToInt32(e.inode), path, rank);
      DirectoryStep(View(), prefix, e, sub, old(State()), own, State(), aborted);
    }

    /** Reads a file into a new buffer, and takes its content from there. */
    method ReadContent(n: int) returns (aborted: bool, content: Text)
      requires Valid() && (ValidInode(cache.img.consts, n) || LookUpFails(cache.img.consts, n))
      modifies this, cache.Footprint()
      ensures Valid()
      ensures sumFiles == old(sumFiles) + 1
      ensures aborted <==> !ValidInode(cache.img.consts, n)
      ensures aborted ==> overruns == old(overruns)
      ensures !aborted ==>
        && content == FileText(cache.img, n)
        && overruns == old(overruns) + (if Overflows(cache.img, n) then 1 else 0)
    {
      fileContent := new byte[cache.img.consts.blockSize + 1];
      aborted := ReadFileInode(n);
      content := if aborted then [] else CStr(fileContent[..]);
    }

    /** The file branch of the loop. */
    method AddFile(prefix: Text, e: Entry, ghost sub: Run) returns (aborted: bool)
      requires Valid() && FileBranch(e) && LookUpDefined(cache.img.consts, e.inode)
      modifies Footprint()
      ensures Valid()
      ensures Stepped(View(), prefix, e, sub, old(State()), State(), aborted)
    {
      FileNumber(cache.img, e);
      var content;
      aborted, content := ReadContent(ToInt32(e.inode));
      if !aborted {
        db.Add(prefix + e.name, e.name, content);
      }
      FileStep(View(), prefix, e, sub, old(State()), State(), aborted);
    }

    /** The body of the loop. */
    method ProcessEntry(prefix: Text, e: Entry, ghost bound: nat, ghost rank: map<int, nat>)
      returns (aborted: bool, ret: int, ghost sub: Run)
      requires Valid() && WellFormed(cache.img, rank)
      requires MayLookUp(cache.img, rank, bound, e) && Tidy(e)
      requires NUL !in prefix
      modifies Footprint()
      ensures Valid()
      ensures !aborted ==> ret == if Blocks(View(), e) then -1 else 0
      ensures Stepped(View(), prefix, e, sub, old(State()), State(), aborted)
      decreases bound, 3
    {
      aborted, ret, sub := false, 0, Run([], []);
      if Marked(e) && !IsDot(e) {
        aborted, ret, sub := AddDirectory(prefix, e, bound, rank);
      } else if !IsDot(e) {
        aborted := AddFile(prefix, e, sub);
      } else {
        DotStep(View(), prefix, e, sub, State());
      }
    }

    /** The second loop of `read_current_directory`, over the sorted entries. */
    method ProcessEntries(order: seq<Entry>, prefix: Text, ghost d: int, ghost rank: map<int, nat>)
      returns (aborted: bool, ret: int, ghost run: Run)
      requires Valid() && WellFormed(cache.img, rank) && d in rank
      requires SortedPermutation(order, View().listing(d).entries)
      requires forall i :: 0 <= i < |order| ==> Tidy(order[i])
      requires NUL !in prefix
      modifies Footprint()
      ensures Valid()
      ensures !aborted ==> ret == if Stopped(View(), run) then -1 else 0
      ensures Walked(View(), d, prefix, run, old(State()), State(), aborted)
      decreases rank[d], 4
    {
      ghost var subs: seq<Run> := [];
      NoProgress(View(), prefix, order, State());
      var i := 0;
      while i < |order|
        invariant 0 <= i <= |order| && |subs| == i
        invariant Valid()
        invariant StepsDone(View(), order, subs)
        invariant Progress(View(), prefix, order, subs, old(State()), State())
      {
        NextLookUp(cache.img, rank, d, order, subs);
        ghost var mid := State();
        var a, r, sub := ProcessEntry(prefix, order[i], rank[d], rank);
        if a {
          ghost var full := FullRun(View(), rank, d, order, subs);
          run := LoopAborts(View(), d, prefix, subs, sub, full, old(State()), mid, State());
          return true, r, run;
        }
        LoopStep(View(), d, prefix, order, subs, sub, old(State()), mid, State());
        subs := subs + [sub];
        if r < 0 {
          return false, r, Run(order, subs);
        }
        i := i + 1;
      }
      LoopEnd(View(), d, prefix, order, subs, old(State()), State());
      return false, 0, Run(order, subs);
    }

    /** `read_current_directory` on the block of directory `d`; the assertion on name lengths ends the
        program before anything is added. */
    method ReadCurrentDirectory(block: array<byte>, prefix: Text, ghost d: int, ghost rank: map<int, nat>)
      returns (aborted: bool, ret: int, ghost run: Run)
      requires Valid() && WellFormed(cache.img, rank)
      requires block[..] == ReadBlock(cache.img, InodeAt(cache.img, d).block0)
      requires ListingOf(cache.img, d) != NameTooLong ==> d in rank
      requires NUL !in prefix
      modifies Footprint()
      ensures Valid()
      ensures ListingOf(cache.img, d) == NameTooLong ==> aborted && State() == old(State())
      ensures ListingOf(cache.img, d) != NameTooLong ==>
        && (!aborted ==> ret == if Stopped(View(), run) then -1 else 0)
        && Walked(View(), d, prefix, run, old(State()), State(), aborted)
      decreases if ListingOf(cache.img, d) != NameTooLong then rank[d] else 0,
                if ListingOf(cache.img, d) != NameTooLong then 5 else 0
    {
      var listing := ParseBlock(block);
      if listing.NameTooLong? {
        return true, 0, Run([], []);
      }
      assert listing == View().listing(d);
      var order := SortEntries(listing.entries);
      EntriesTidy(block[..], order);
      aborted, ret, run := ProcessEntries(order, prefix, d, rank);
    }
  }

  /** The number of an entry, as an `int`, is found or refused like the number itself. */
  lemma EntryNumber(c: Consts, n: u32)
    requires LookUpDefined(c, n)
    ensures ValidInode(c, n) ==> ToInt32(n) == n
    ensures !ValidInode(c, n) ==> !ValidInode(c, ToInt32(n)) && LookUpFails(c, ToInt32(n))
  {
    if !ValidInode(c, n) {
      LookUpFailsIff(c, ToInt32(n));
    }
  }

  lemma DirectoryNumber(img: Image, e: Entry)
    requires DirBranch(e) && LookUpDefined(img.consts, e.inode)
    ensures ViewOf(img).isDir(e.inode) ==> ToInt32(e.inode) == e.inode && !ViewOf(img).fatal(e)
    ensures ViewOf(img).isDir(ToInt32(e.inode)) == ViewOf(img).isDir(e.inode)
    ensures EntryAborts(img, ToInt32(e.inode)) == ViewOf(img).fatal(e)
    ensures ValidInode(img.consts, ToInt32(e.inode)) || LookUpFails(img.consts, ToInt32(e.inode))
  {
    EntryNumber(img.consts, e.inode);
  }

  lemma FileNumber(img: Image, e: Entry)
    requires FileBranch(e) && LookUpDefined(img.consts, e.inode)
    ensures ViewOf(img).fatal(e) == !ValidInode(img.consts, ToInt32(e.inode))
    ensures !ViewOf(img).fatal(e) ==>
      && FileText(img, ToInt32(e.inode)) == ViewOf(img).text(e.inode)
      && Overflows(img, ToInt32(e.inode)) == ViewOf(img).overruns(e.inode)
    ensures ValidInode(img.consts, ToInt32(e.inode)) || LookUpFails(img.consts, ToInt32(e.inode))
  {
    EntryNumber(img.consts, e.inode);
  }

  /** A complete run that goes on at least to the next entry. */
  lemma FullRun(v: View, rank: map<int, nat>, d: int, order: seq<Entry>, subs: seq<Run>) returns (full: Run)
    requires Ranked(v, rank) && d in rank && SortedPermutation(order, v.listing(d).entries)
    requires StepsDone(v, order, subs) && |subs| < |order|
    ensures ValidRun(v, d, full) && full.order == order && |subs| < |full.subs| <= |order|
  {
    full := RunExists(v, rank, d, order);
    ComesTo(v, order, |subs|);
  }

  lemma TerminatedText(buffer: seq<byte>, block: seq<byte>, size: nat)
    requires size <= |block| && size < |buffer|
    requires buffer[..size] == block[..size] && buffer[size] == NUL
    ensures CStr(buffer) == CStr(block[..size])
  {
    var t := CStr(block[..size]);
    assert t == block[..size][..|t|] == buffer[..size][..|t|] == buffer[..|t|];
    assert |t| < size ==> block[..size][|t|] == buffer[|t|];
    CStrUnique(buffer, t);
  }
}
