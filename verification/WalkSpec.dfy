/** What a walk over an image may emit, as a function of the choices of the unstable sort. */
module WalkSpec {
  import opened CTypes
  import opened Sequences
  import opened Geometry
  import opened Image
  import opened DirectoryParse
  import opened Documents

  /** A document together with the entry it was made for. */
  datatype Emission = Emission(entry: Entry, doc: Doc)

  /** The file system as the walk sees it: which numbers name directories it can list, which entries
      end the program at an assertion, and which files overrun their buffer. */
  datatype View = View(listing: int -> Listing, isDir: int -> bool, text: int -> Text,
                       fatal: Entry -> bool, overruns: int -> bool)

  function ListingOf(img: Image, n: int): Listing
  {
    Parse(ReadBlock(img, InodeAt(img, n).block0))
  }

  /** Entering an inode as a directory ends the program: at the assertion of the lookup, or at the one
      on the name lengths of its block. */
  predicate EntryAborts(img: Image, n: int)
  {
    !ValidInode(img.consts, n) || (IsDir(img, n) && ListingOf(img, n) == NameTooLong)
  }

  function ViewOf(img: Image): View
  {
    View(n => ListingOf(img, n),
         n => !EntryAborts(img, n) && IsDir(img, n),
         n => FileText(img, n),
         e => if Marked(e) then EntryAborts(img, e.inode) else !ValidInode(img.consts, e.inode),
         n => Overflows(img, n))
  }

  // ----- entries

  /** `file_type & 2` */
  predicate Marked(e: Entry)
  {
    e.fileType / 2 % 2 == 1
  }

  predicate IsDot(e: Entry)
  {
    e.name == [DOT]
  }

  predicate DirBranch(e: Entry)
  {
    Marked(e) && !IsDot(e)
  }

  predicate FileBranch(e: Entry)
  {
    !Marked(e) && !IsDot(e)
  }

  predicate Recurses(v: View, e: Entry)
  {
    DirBranch(e) && v.isDir(e.inode)
  }

  /** An entry for which `read_directory_inode` returns -1 or ends the program. */
  predicate Blocks(v: View, e: Entry)
  {
    DirBranch(e) && !v.isDir(e.inode)
  }

  /** An entry at which an assertion ends the program. */
  predicate Fatal(v: View, e: Entry)
  {
    !IsDot(e) && !Recurses(v, e) && v.fatal(e)
  }

  function DirPrefix(prefix: Text, e: Entry): Text
  {
    prefix + e.name + [SLASH]
  }

  function EmissionOf(v: View, prefix: Text, e: Entry): Emission
  {
    if DirBranch(e) then Emission(e, Doc(DirPrefix(prefix, e), e.name, []))
    else Emission(e, Doc(prefix + e.name, e.name, v.text(e.inode)))
  }

  /** The key of the sort. */
  function TypeOf(e: Entry): int { e.fileType }

  function NameOf(e: Entry): Text { e.name }

  /** All that is known of the result of std::sort. */
  predicate SortedPermutation(order: seq<Entry>, es: seq<Entry>)
  {
    multiset(order) == multiset(es) && SortedBy(TypeOf, order)
  }

  /** The least file type of a blocker, or 256 without one. */
  function Cut(v: View, es: seq<Entry>): (cut: int)
    ensures cut <= 256
    ensures forall e :: e in es && Blocks(v, e) ==> cut <= e.fileType
    ensures cut < 256 ==> exists e :: e in es && Blocks(v, e) && e.fileType == cut
  {
    if |es| == 0 then 256
    else
      var rest := Cut(v, es[1..]);
      assert forall e :: e in es <==> e == es[0] || e in es[1..];
      if Blocks(v, es[0]) && es[0].fileType < rest then es[0].fileType else rest
  }

  /** An entry that no blocker comes before in every order. */
  predicate InReach(v: View, es: seq<Entry>, e: Entry)
  {
    e in es && e.fileType <= Cut(v, es)
  }

  // ----- runs

  /** One run over a directory: the order the sort came up with, and for each entry that was
      processed the run over the directory behind it (anything, if there is none). */
  datatype Run = Run(order: seq<Entry>, subs: seq<Run>)

  function StepLog(v: View, prefix: Text, e: Entry, sub: Run): seq<Emission>
    decreases sub, 2
  {
    if IsDot(e) then []
    else if Recurses(v, e) then [EmissionOf(v, prefix, e)] + RunLog(v, DirPrefix(prefix, e), sub)
    else [EmissionOf(v, prefix, e)]
  }

  function StepLogs(v: View, prefix: Text, order: seq<Entry>, subs: seq<Run>): (logs: seq<seq<Emission>>)
    requires |subs| <= |order|
    ensures |logs| == |subs|
    ensures forall i :: 0 <= i < |subs| ==> logs[i] == StepLog(v, prefix, order[i], subs[i])
    decreases subs, 3
  {
    seq(|subs|, i requires 0 <= i < |subs| => StepLog(v, prefix, order[i], subs[i]))
  }

  /** The documents a run adds, in order, if no assertion ends it. */
  function RunLog(v: View, prefix: Text, r: Run): seq<Emission>
    decreases r, 1
  {
    if |r.subs| <= |r.order| then Concat(StepLogs(v, prefix, r.order, r.subs)) else []
  }

  /** The loop went through the first entries of the order, none but the last being a blocker. */
  predicate ValidSteps(v: View, order: seq<Entry>, subs: seq<Run>)
    decreases subs, 0
  {
    && |subs| <= |order|
    && (forall i :: 0 <= i < |subs| - 1 ==> !Blocks(v, order[i]))
    && (forall i :: 0 <= i < |subs| && Recurses(v, order[i]) ==> ValidRun(v, order[i].inode, subs[i]))
  }

  /** The run ended at a blocker. */
  predicate Stopped(v: View, r: Run)
  {
    0 < |r.subs| <= |r.order| && Blocks(v, r.order[|r.subs| - 1])
  }

  /** A complete run over directory `d`: it ends after the first blocker or with the listing. */
  predicate ValidRun(v: View, d: int, r: Run)
    decreases r, 1
  {
    && v.listing(d).Parsed?
    && SortedPermutation(r.order, v.listing(d).entries)
    && ValidSteps(v, r.order, r.subs)
    && (|r.subs| < |r.order| ==> Stopped(v, r))
  }

  function DocsOf(log: seq<Emission>): (docs: seq<Doc>)
    ensures |docs| == |log|
    ensures forall i :: 0 <= i < |log| ==> docs[i] == log[i].doc
  {
    if |log| == 0 then [] else DocsOf(log[..|log| - 1]) + [log[|log| - 1].doc]
  }

  /** How many files a log holds: what `sum_files` counts. */
  function FileCount(log: seq<Emission>): nat
  {
    if |log| == 0 then 0
    else FileCount(log[..|log| - 1]) + if FileBranch(log[|log| - 1].entry) then 1 else 0
  }

  /** A file whose terminator misses its buffer. */
  predicate Overruns(v: View, x: Emission)
  {
    FileBranch(x.entry) && v.overruns(x.entry.inode)
  }

  /** How many terminators miss their buffer. */
  function OverrunCount(v: View, log: seq<Emission>): nat
  {
    if |log| == 0 then 0
    else OverrunCount(v, log[..|log| - 1]) + if Overruns(v, log[|log| - 1]) then 1 else 0
  }

  // ----- assertions

  /** Some emission of a log is for an entry that ends the program. */
  predicate Aborts(v: View, log: seq<Emission>)
  {
    exists i :: 0 <= i < |log| && Fatal(v, log[i].entry)
  }

  /** What is added before the program ends: the document of a directory comes before the lookup, that
      of a file after it. */
  function Lived(v: View, log: seq<Emission>): seq<Emission>
  {
    if |log| == 0 then []
    else if Fatal(v, log[0].entry) then (if DirBranch(log[0].entry) then [log[0]] else [])
    else [log[0]] + Lived(v, log[1..])
  }

  // ----- images

  /** Every directory in `rank` can be listed, and directories reached from it have a lower rank:
      there are no cycles apart from `.`, `..` and `lost+found`. */
  ghost predicate Ranked(v: View, rank: map<int, nat>)
  {
    forall d :: d in rank ==>
      && v.isDir(d)
      && v.listing(d).Parsed?
      && forall e :: InReach(v, v.listing(d).entries, e) && Recurses(v, e) ==>
           e.inode in rank && rank[e.inode] < rank[d]
  }

  /** What the walk demands of an image: it is ranked, and the inode number of every entry that is
      looked up is found or refused by the lookup's assertion. */
  ghost predicate WellFormed(img: Image, rank: map<int, nat>)
  {
    && Ranked(ViewOf(img), rank)
    && forall d :: d in rank ==>
         && ValidInode(img.consts, d)
         && forall e :: InReach(ViewOf(img), ViewOf(img).listing(d).entries, e) && !IsDot(e) ==>
              LookUpDefined(img.consts, e.inode)
  }

  /** File types agree with inode modes where the walk looks at both. */
  ghost predicate TypesAgree(v: View, rank: map<int, nat>)
    requires Ranked(v, rank)
  {
    forall d, e :: d in rank && InReach(v, v.listing(d).entries, e) && DirBranch(e) ==>
      (e.fileType == 2 <==> v.isDir(e.inode))
  }

  predicate LegalName(name: Text)
  {
    name != [] && SLASH !in name
  }

  predicate LegalListing(es: seq<Entry>)
  {
    KeysDistinct(NameOf, es) && forall e :: e in es ==> LegalName(e.name)
  }

  ghost predicate LegalNames(v: View, rank: map<int, nat>)
    requires Ranked(v, rank)
  {
    forall d :: d in rank ==> LegalListing(v.listing(d).entries)
  }

  // ----- what the bits of a type and the view of an image stand for

  /** Types 2, 3, 6 and 7 take the directory branch, and of the others from zero to seven 0, 1, 4 and 5
      the file branch; above seven bit 1 decides in the same way. Only the name `.` takes neither. */
  lemma BranchTypes(v: View, prefix: Text, e: Entry)
    ensures e.name == [46] ==> !DirBranch(e) && !FileBranch(e)
    ensures e.name != [46] ==> DirBranch(e) == !FileBranch(e)
    ensures e.name != [46] && e.fileType <= 7 ==>
      (DirBranch(e) <==> e.fileType == 2 || e.fileType == 3 || e.fileType == 6 || e.fileType == 7)
    ensures e.name != [46] ==> (DirBranch(e) <==> e.fileType % 4 >= 2)
    ensures DirBranch(e) ==>
      && EmissionOf(v, prefix, e) == Emission(e, Doc(prefix + e.name + [47], e.name, []))
      && (Blocks(v, e) <==> !v.isDir(e.inode))
      && (Recurses(v, e) <==> v.isDir(e.inode))
    ensures FileBranch(e) ==>
      && EmissionOf(v, prefix, e) == Emission(e, Doc(prefix + e.name, e.name, v.text(e.inode)))
      && !Blocks(v, e) && !Recurses(v, e)
  {
  }

  /** The view of an image: directories by mode, unless their number or their block ends the program. */
  lemma ViewMeans(img: Image, n: int)
    ensures ViewOf(img).listing(n) == ListingOf(img, n)
    ensures ViewOf(img).isDir(n)
            <==> && 1 <= n <= img.consts.inodeCount
                 && 0x4000 <= InodeAt(img, n).mode < 0x5000
                 && ListingOf(img, n) != NameTooLong
    ensures ViewOf(img).text(n) == FileText(img, n)
    ensures ViewOf(img).overruns(n) == Overflows(img, n)
  {
    DirectoryModes(InodeAt(img, n));
  }

  /** The listing of an inode is that of its first block. */
  lemma ListingIs(img: Image, n: int, first: int)
    requires InodeAt(img, n).block0 == first
    ensures ListingOf(img, n) == Parse(ReadBlock(img, first))
  {
  }

  /** The entries at which an assertion fires: their number is out of range, or they are taken for
      directories, are directories, and hold a name of 255 bytes. */
  lemma FatalMeans(img: Image, e: Entry)
    ensures Fatal(ViewOf(img), e)
            <==> && e.name != [46]
                 && (|| !(1 <= e.inode <= img.consts.inodeCount)
                     || (&& e.fileType % 4 >= 2
                         && 0x4000 <= InodeAt(img, e.inode).mode < 0x5000
                         && ListingOf(img, e.inode) == NameTooLong))
  {
    DirectoryModes(InodeAt(img, e.inode));
    ViewMeans(img, e.inode);
    BranchTypes(ViewOf(img), [], e);
  }
}
