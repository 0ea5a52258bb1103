# An ext3 walk that feeds a substring index

The repository reads an ext3 image block by block, walks its directories from the root and adds one
document per entry to a full-text index that answers substring queries on file names. Beside the walk
it carries helpers for recovering a file system: a linked list of directory entries inside a block, a
vector packed into one machine word, the decoder of journal revoke records, wrapping comparisons of
transaction numbers, a string hash and bitmap masks.

The project models these parts and proves what they promise:

- `CTypes`, `Arithmetic`, `ByteOrder`, `Sequences`, `Paths`, `Substrings`: bytes, fixed-width integers,
  C strings, byte order, sequences and texts.
- `Geometry`, `Image`, `InodeCache`: the constants of an image, direct lookups in it, and the lazily
  filled tables that must agree with direct lookup.
- `DirectoryParse`: the chain of records in a directory block, decoded and encoded.
- `WalkSpec`, `WalkTheorems`, `WalkChoices`, `WalkPaths`, `WalkOrder`, `WalkLogs`, `WalkAborts`: what a
  walk may emit.
  A `Run` records the order each unstable sort came up with; everything the walk adds is a function of
  the image and the run, and the theorems quantify over all runs. The cut of a directory is the least
  file type of a blocker, an entry of the directory branch on which the loop returns early or the program
  ends; entries above it are never looked up (`WalkChoices.ProcessedIffInReach`), and nothing is asked of
  them. The log of a run, its emissions, is what it adds if no assertion ends it; `Lived` cuts a log at
  the first entry for which one fires, and `WalkAborts` says what is added in any case.
- `Walker`, `ReadInode`: the walk itself as methods over mutable state, each proved to add exactly the
  documents of some run, up to the entry at which an assertion ends the program if there is one.
- `Documents`, `Database`, `Highlighting`, `EndToEnd`: the index, its search, and the way from an image
  to highlighted search results.
- `Witnesses`: small images with two groups, permission bits and an internal journal, which pass every
  check and on which some of the defects below show; they also meet everything that the walk demands.
- `DirectoryBlocks`, `BlocknrVector`, `Revoke`, `PostingIndex`, `TransactionId`, `BkdrHash`, `Bitmap`:
  the other parts named above.

A device is a constant function from byte offsets to bytes; the superblock is a record of its decoded
fields. The tokeniser's word characters are a parameter. Offsets inside on-disk structures follow the
ext2 format; `ext2fs/ext2_fs.h` is not part of this model.

Where the code does not do what it was meant to do, the model follows the code:

- A type-2 entry whose inode is not a directory ends its directory early and can hide its type-2
  neighbours, depending on the sort. `WalkChoices.LowProcessedIff` gives the exact condition,
  `Witnesses.StopHidesEntry` an image.
- A full block of ASCII text makes `read_file_inode` write its terminator one byte past the allocation.
  The model gives the buffer that byte; `Walker.Walker.ReadFileInode` states that it changes exactly for
  the files of `Image.Overflows`, a counter follows these writes through a whole walk
  (`WalkLogs.OverrunCountIff`), and `Witnesses.TerminatorOutOfBounds` gives an image on which every run
  makes one.
- An entry with inode number zero in reach, or a directory with a name of 255 bytes, ends the program at
  an assertion in the middle of the walk (`Geometry.LookUpFailsIff`, `WalkPaths.AbortPossibleIff`,
  `WalkAborts.EveryRunAbortsIff`); `Witnesses.ZeroInodeAborts` gives an image on which nothing is indexed.
- `load_inodes`, entered on an unloaded group, reads the inode table twice.
- A zero `rec_len` in any entry but the first of a block links the entry to itself
  (`DirectoryBlocks.ForwardIff`, `DirectoryBlocks.ZeroLengthLoops`).
- Collapsing a two-entry vector shifts an `int`; with wrap-around it is exact below 2^30 and from
  3·2^30 on (`BlocknrVector.TaggedIntExact`, `BlocknrVector.RemoveExact`, `BlocknrVector.CollapseGarbles`).
- A query that is not found in the last path component is highlighted one place too early, or
  `substr` throws (`Highlighting.HighlightExact`, `Highlighting.HighlightThrows`, and
  `Highlighting.MissesHighlight` for both). One-word queries that do not start with a slash never get
  there on images with legal names (`EndToEnd.IndexAndSearch`); a name that holds a slash does
  (`Highlighting.SlashInName`), and so can queries that the index matches word by word.
- The revoke decoder compares a record's byte count with the `block_size_` of src/blocknr_vector_type.h:18,
  a file-static that nothing assigns, so that it is zero and every record is refused. `Revoke.RevokePasses`
  takes the value as a parameter, and the theorems hold for every value up to the length of the buffer.

## Model

| member | source | states |
|---|---|---|
| `Geometry.AssertionsSuffice` | src/read_inode.cpp:59-117 | the assertions on the superblock leave only images whose groups, blocks and inode tables fit together as every later lookup needs |
| `Geometry.AssertionsIff` | src/read_inode.cpp:59-117 | the assertions pass exactly for magic 0xEF53, creator and group number zero, inodes of 128 bytes, equal block and fragment sizes up to 2^27, groups that divide the inode count, a bitmap of one block and inode tables of whole blocks |
| `Geometry.InitConstsAre` | src/read_inode.cpp:31-70 | every constant in the fields of the superblock; the descriptor table is in block 2 for blocks of 1024 bytes and else in block 1 |
| `Geometry.WholeBlockTables` | src/read_inode.cpp:117 | the asserted equality on table sizes holds exactly when an inode table fills whole blocks |
| `Geometry.DescTablePastSuperBlock` | src/read_inode.cpp:66-75 | for every block size of 1024 times a power of two the descriptor table starts past the bytes of the superblock, in the block after theirs |
| `Geometry.LocateInverse` | src/ostream.h:210-223 | every inode number up to the count gets a group and a bit within the arrays and the bitmap assertion, and they give the number back |
| `Geometry.LocateOnto` | src/ostream.h:210-223 | every slot of every table belongs to exactly the inode number computed from it |
| `Geometry.InodeInOneBlock` | src/read_inode.cpp:114-117 | no inode straddles two blocks or lies past its group's table |
| `Geometry.LookUpFailsIff` | src/ostream.h:210-214 | for any `int` the assertion of the lookup fires exactly for numbers from zero down that are not one more than a multiple of the group size |
| `Geometry.ZeroFails` | src/ostream.h:210-214 | inode number zero always makes it fire |
| `Image.BlockOffsets` | src/ostream.h:88-93 | block numbers that fit an `int` are shifted to multiples of the block size, larger ones arrive negative |
| `Image.DescBytes` | src/read_inode.cpp:66-77 | the descriptor of any group is the three numbers at 32 bytes times the group from the start of the descriptor table |
| `Image.InodeBytes` | src/ostream.h:161-223 | mode, size and first block of any inode stand at 0, 4 and 40 of its 128 bytes in the table of its group |
| `Image.DirectoryModes` | src/ostream.h:248-251 | a directory is a mode from 0x4000 to 0x4FFF |
| `Image.BlockBytes` | src/ostream.h:238-244 | the bytes of a block are those of the device from the block number times the block size on |
| `Image.FileTextBytes` | src/ostream.h:362-390 | the content of a file is the bytes of its first block up to its size and to a NUL if the first hundred are below 128, and nothing otherwise |
| `Image.NoText` | src/ostream.h:367-371 | directories and files without a first block have no content and overrun no buffer |
| `Image.OverflowBytes` | src/ostream.h:371-390 | the files that overrun their buffer, by mode, size and the first hundred bytes on the device |
| `Image.TableRefinesLookup` | src/ostream.h:174-179 | an inode found in a table read as a whole is the inode read from the device in place |
| `Image.TerminatorInBounds` | src/ostream.h:366-390 | the text reaches the end of its block, so that the terminator misses the allocation, exactly for files with a block, at least a block long and starting with 100 ASCII characters |
| `Witnesses.TerminatorOutOfBounds` | src/ostream.h:331-390 | an image that passes all checks and can be walked, on which every run ends normally and writes a terminator past its buffer |
| `Witnesses.ByteAfter` | src/ostream.h:331-390 | after reading one file into a buffer of ones its content is there, and the byte after the allocation is zero for a file that fills its block and still one for every other file |
| `Witnesses.ZeroInodeAborts` | src/ostream.h:210-214 | an image that passes all checks and can be walked, on which every run ends at the lookup of inode zero and nothing is added |
| `InodeCache.InodeCache.constructor` | src/read_inode.cpp:47-78 | after start-up no group is loaded, and the descriptors cut from one run of bytes are those of every group on disk |
| `InodeCache.InodeCache.LoadInodes` | src/ostream.h:156-192 | terminates from either entry, leaves the group's on-disk table behind, and reads it once or twice depending on the entry |
| `InodeCache.InodeCache.LoadMetaData` | src/ostream.h:194-206 | terminates, loads exactly this group if it was not loaded, leaves both its bitmaps as on disk, and keeps every non-null bitmap a sign of a loaded table |
| `InodeCache.InodeCache.GetInode` | src/ostream.h:210-224 | whatever is loaded, a number in range gives the inode on disk, and a group's table is read only on its first use; a number that the assertion refuses changes nothing |
| `DirectoryParse.ReadEntry` | src/ostream.h:286-298 | the copied header and name are those at the given offset |
| `DirectoryParse.EntryBytes` | src/ostream.h:287-298 | inode, record length, name length, type and name stand at 0, 4, 6, 7 and 8 of an entry |
| `DirectoryParse.EntryFields` | src/ostream.h:287-298 | a record that is read back keeps its inode, length, type and name up to a NUL |
| `DirectoryParse.ParseCases` | src/ostream.h:284-306 | from any offset the loop ends at the block end, at a header or name past it, at a name of 255 bytes or at a record length of zero; else it goes on behind the entry and lists it unless it is named `..` or `lost+found` |
| `DirectoryParse.ParseBlock` | src/ostream.h:281-306 | on any block the loop ends with the listing of the record chain, at the name-length assertion, or at a read past the block |
| `DirectoryParse.ParsedEntriesTidy` | src/ostream.h:292-298 | a listed name is no longer than `name_len` and has no NUL |
| `DirectoryParse.ParseInvertsEncode` | src/ostream.h:281-306 | parsing a block written from any list of records gives the list without `..` and `lost+found`, in order |
| `DirectoryParse.ParseOne` | src/ostream.h:302-303 | a record read back alone is listed unless its name up to a NUL is `..` or `lost+found` |
| `DirectoryParse.ParseAppend` | src/ostream.h:284-306 | any list of records is read back as the lists it is put together from |
| `DirectoryParse.WellChainedIffEncoded` | src/ostream.h:284-300 | the blocks written from record lists are exactly those whose chain of positive lengths holds its names and ends at the block end |
| `WalkSpec.BranchTypes` | src/ostream.h:312-338 | except for `.`, types 2, 3, 6 and 7 add the path with a slash and no content and block unless the inode is a directory; types 0, 1, 4 and 5 add the path with the file's text; above seven bit 1 decides |
| `WalkSpec.ViewMeans` | src/ostream.h:345-393 | what the walk sees of an inode: a directory by its mode, unless its number or its block ends the program, and the content of a file |
| `WalkSpec.ListingIs` | src/ostream.h:345-353 | the listing of a directory is that of its first block |
| `WalkSpec.FatalMeans` | src/ostream.h:210-292 | the entries at which an assertion fires, by inode number, type, mode and listing |
| `WalkTheorems.ProcessedByType` | src/ostream.h:308-324 | in every run all entries below the least blocking type are processed, none above it, and of the blockers exactly one, the last processed |
| `WalkTheorems.LogSplits` | src/ostream.h:261-343 | on any ranked image the multiset of emissions of any run is a part computed from the image alone, without a sort, plus what was emitted for entries at the cuts |
| `WalkPaths.TieChain` | src/ostream.h:310-341 | that remainder stands only for chains of entries that touch a cut |
| `WalkTheorems.OneTiePerCut` | src/ostream.h:308-324 | with types that agree with inode modes the remainder holds exactly one document for each directory cut short, counted from the image alone, directly under that directory's prefix |
| `WalkTheorems.TiesAreBlockers` | src/ostream.h:308-324 | and each of them is the document of a blocker of a type above 2 |
| `WalkTheorems.SumOverRun` | src/ostream.h:308-343 | a sum over a listing that counts only entries below the cut is the same sum over the entries that any run processed |
| `WalkChoices.SortEntries` | src/ostream.h:253-308 | the sort gives some permutation ordered by file type, and nothing more is known of it |
| `WalkChoices.RunExists` | src/ostream.h:308-343 | on a ranked image every ordered permutation of a listing belongs to some complete run |
| `WalkChoices.LowProcessedIff` | src/ostream.h:310-324 | every run processes all entries of type 0, 1 and 2 exactly when a type-2 blocker, if any, is the only type-2 entry besides `.` |
| `WalkChoices.ProcessedIffInReach` | src/ostream.h:308-324 | an entry is not above its directory's cut exactly when some run processes it, assertions aside |
| `Witnesses.StopHidesEntry` | src/ostream.h:310-324 | a superblock and a device that pass all checks and can be walked, whose root holds two type-2 entries, neither a directory, and a run that leaves one out |
| `WalkChoices.AgreementLeavesNoStop` | src/ostream.h:310-324 | with types that agree with inode modes, every run processes them all |
| `WalkChoices.SortIndependent` | src/ostream.h:308-341 | the logs of two runs hold every document for a type 0, 1 or 2 entry equally often, equally many documents in all, and equally many files |
| `WalkPaths.ChainEmitted` | src/ostream.h:310-341 | the log of every run holds a chain each entry of which is below its directory's cut or is itself the only blocker at it |
| `WalkPaths.EmittedAlwaysIff` | src/ostream.h:308-341 | and with legal names those are exactly the chains that all logs hold |
| `WalkPaths.EmittedChain` | src/ostream.h:310-341 | every emission stands for a chain of entries none of which is above its directory's cut |
| `WalkPaths.EmittedIffWithin` | src/ostream.h:308-341 | over all runs, exactly the chains with no entry above a cut are in a log |
| `WalkPaths.ChainDocument` | src/ostream.h:312-338 | the document of a chain has the joined names as path, with a trailing slash for directories, the last name, and for files their text |
| `WalkPaths.PathDecodes` | src/ostream.h:314-337 | splitting an emitted path at slashes gives back the names on the way and whether it is a directory path |
| `WalkPaths.PathsInjective` | src/ostream.h:314-337 | distinct chains have distinct paths, also when one of them rises above a cut |
| `WalkPaths.RunPaths` | src/ostream.h:310-341 | no run emits a path twice, and all paths lie below the directory's prefix |
| `WalkPaths.ExactlyOnce` | src/ostream.h:261-343 | the log of every run holds exactly one document for such a chain, with its full path, name and content, and no other document with that path |
| `WalkPaths.LowTypesOnce` | src/ostream.h:261-343 | with types that agree with inode modes that holds for every chain of entries of type 0, 1 and 2 |
| `WalkPaths.AbortPossibleIff` | src/ostream.h:210-360 | some run ends at an assertion of a lookup or a listing exactly when a chain with no entry above a cut leads to an entry that makes it fire |
| `WalkPaths.CertainAborts` | src/ostream.h:210-360 | every run ends there if all logs hold that chain |
| `WalkAborts.EveryRunAbortsIff` | src/ostream.h:210-360 | every run ends at an assertion exactly when, in the directory or in one that must be entered, an entry below the cut makes one fire or all blockers at the cut do |
| `WalkAborts.AddedBySomeIff` | src/ostream.h:210-360 | assertions included, some run adds a document exactly when it stands for a chain with no entry above a cut, before which nothing of lower type must end the program, and which is no file whose lookup ends it |
| `WalkAborts.AddedByAllIff` | src/ostream.h:210-360 | assertions included, with legal names every run adds a chain's document exactly when all logs hold the chain, nothing that can come before any of its entries can end the program, and it is no file whose lookup ends it |
| `WalkAborts.AddedOnce` | src/ostream.h:210-360 | every run adds exactly one document for such a chain, and no other with its path |
| `WalkAborts.CertainIsAdded` | src/ostream.h:210-360 | on images on which no assertion can fire, those are the chains that all logs hold |
| `WalkPaths.AboveCutNever` | src/ostream.h:310-324 | a chain that rises above a cut is emitted by no run |
| `WalkOrder.RankedIffAcyclic` | src/ostream.h:301-321 | a closed set of directories can be ranked, so that the recursion ends, exactly when no chain of entries leads from one of them back to itself |
| `WalkOrder.WalkableIffRanked` | src/ostream.h:261-360 | an image is one the walk is proved for exactly when what is reached from the root can be listed, has inode numbers that are found or refused by the lookup's assertion, and leads back nowhere |
| `WalkOrder.NoRunToCycle` | src/ostream.h:301-321 | where a chain that every run follows leads to a directory and another one back to it, there is no run, so that no walk over it comes to an end of its own |
| `WalkLogs.OverrunCountIff` | src/ostream.h:331-390 | the counter of terminators past a buffer is positive after a walk exactly when its log holds a file that fills a block |
| `Walker.PathBuffer` | src/ostream.h:314-317 | the string functions stay inside the buffer allocated from `name_len`, build the directory path, and fill the buffer exactly when the name has no NUL |
| `Walker.Walker.LoadText` | src/ostream.h:366-390 | the buffer afterwards reads as the indexed text of the inode; the terminator is put at its end, the block before and after it is copied if there is one, every other cell keeps its value, and a write past the allocation is counted |
| `Walker.Walker.ReadFileInode` | src/ostream.h:362-393 | a number that the lookup refuses ends the program; else the content is that of the image whatever was cached, and the byte after the allocation is overwritten, and counted, exactly for the files that fill a block; the file counter goes up by one |
| `Walker.Walker.ReadDirectoryInode` | src/ostream.h:345-360 | a non-directory gives -1 and adds nothing; a directory gives 0 and adds the documents of a run, even if that run was cut short; a refused number or an unlistable block ends the program |
| `Walker.Walker.AddDirectory` | src/ostream.h:312-325 | adds the directory's own document, then those of a run inside it, and reports a blocker |
| `Walker.Walker.AddFile` | src/ostream.h:326-340 | adds one document with path, name and content, and counts one file, unless the lookup ends the program |
| `Walker.Walker.ProcessEntries` | src/ostream.h:310-342 | the loop over the sorted entries adds exactly the documents of a run, in order, and stops at the first blocker or at the first entry for which an assertion fires, with just what the run adds up to there |
| `Walker.Walker.ReadCurrentDirectory` | src/ostream.h:261-343 | terminates on every ranked image, adds exactly the documents of a run from any state of the cache, counts its files and the terminators past a buffer, and ends the program exactly if the run holds an entry for which an assertion fires |
| `ReadInode.ReadInode` | src/read_inode.cpp:83-185 | aborts exactly when an assertion on superblock, journal or root listing fails or the run from the root meets one; otherwise the index gains the documents of that run and the printed number is its file count |
| `ReadInode.CheckJournal` | src/read_inode.cpp:135-155 | an internal journal passes exactly with an inode that is found, a first block, the magic number and the block size |
| `ReadInode.RootIs` | src/read_inode.cpp:165-168 | the walk starts at inode 2 with the prefix `/` |
| `ReadInode.JournalBytes` | src/read_inode.cpp:135-153 | the journal passes exactly if it is external or has an inode in range with a first block that starts with the bytes C0 3B 39 98 and holds the block size, big-endian, at 12 |
| `Documents.SuffixSearchIsSubstring` | src/DB.cpp:47-71 | for a one-word query, some token of some suffix starts with the query exactly when the query occurs in the name |
| `Database.DB.Add` | src/DB.cpp:41-56 | files the document under the tokens of all suffixes of its name, of its path and of its content |
| `Documents.RecordTerms` | src/DB.cpp:41-56 | the terms of a document are exactly the words of the suffixes of its name, of its path and of its content |
| `Database.DB.Search` | src/DB.cpp:65-103 | finds by name exactly the documents a scan for the substring finds, and by content exactly those with the query as a word |
| `Database.WordQuery` | src/DB.cpp:88-90 | a word is a token of a text exactly when it is one of its maximal runs of word characters |
| `Highlighting.SlicesRestorePath` | src/DB.cpp:85 | the printed slices always make up the path |
| `Highlighting.HighlightExact` | src/DB.cpp:81-85 | the middle slice is the query exactly when the query occurs in the last component or one place before it; in the first case it is the first occurrence in the component |
| `Highlighting.HighlightIff` | src/DB.cpp:81-85 | for queries that do not start with a slash that is exactly when the query occurs in the last component |
| `Highlighting.HighlightThrows` | src/DB.cpp:81-85 | the exact condition under which a slice is out of range |
| `Highlighting.MissesHighlight` | src/DB.cpp:81-85 | on the path of a file `a` the query `c` highlights the slash, and `ccc` throws |
| `Highlighting.SlashInName` | src/DB.cpp:81-85 | a name that holds a slash contains a query, but on its path the slash is highlighted |
| `EndToEnd.SearchFindsOnly` | src/DB.cpp:65-103 | after any run that no assertion ends, whatever a search finds is the path of a chain of entries, none above a cut, whose name or content matches |
| `EndToEnd.SearchFindsAll` | src/DB.cpp:65-103 | after any such run, no path is found twice, and a chain that all logs hold is found exactly when its name or content matches |
| `EndToEnd.LowTypesFound` | src/DB.cpp:65-103 | with types that agree with inode modes every chain of entries of type 0, 1 and 2 is found once if it matches and otherwise not |
| `EndToEnd.IndexAndSearch` | src/desktop_search.cpp:63-77 | indexing an image into an empty database comes to its end exactly when the checks pass, the root is a directory that can be listed, and no assertion ends the run over it, which is certain if no chain leads to one and ruled out if every run must meet one; searching then finds by name and by content only what `SearchFindsOnly` allows; where names are legal and distinct in each directory it finds all that `SearchFindsAll` demands, and highlights every path found by name at the query unless that starts with a slash |
| `EndToEnd.WalkTwice` | src/ostream.h:345-360 | two walks over one directory from any two states of the cache, with any two sorts, add what two runs over it add; their logs agree on the documents for types 0, 1 and 2 and on the number of documents, and without an assertion the same files are counted |
| `EndToEnd.FoundAreHighlighted` | src/DB.cpp:80-85 | every path found by its name is printed whole, with the first occurrence of the query in the last component highlighted |
| `DirectoryBlocks.EntryOfRecord` | src/directory_struction.h:94-112 | where a record stands, the entry made for it has its inode number as an `int`, three bits of its type, all bytes of its name, and the reported flags |
| `DirectoryBlocks.DirectoryBlock.ReadBlock` | src/directory_struction.h:118-159 | the assertions hold exactly when two entries were found and each record length leads to a later-stored entry or the end; then the vector is the address order of what was found, linked along the record lengths; a block written from two or more records, all found, passes and the vector mirrors the records in order, each linked to the next |
| `DirectoryBlocks.DirectoryBlock.LinkEntries` | src/directory_struction.h:140-156 | every `next` is the index of the entry the record length points at, or zero at the block end, and nothing else of an entry changes |
| `DirectoryBlocks.ForwardIff` | src/directory_struction.h:141-156 | all links of a finished block lead forward or to zero exactly when no record length is zero |
| `DirectoryBlocks.ZeroLengthLoops` | src/directory_struction.h:118-159 | reading a block of 1024 bytes with `.` at 0 and `..` at 12, the second with a record length of zero, passes the assertions and leaves `..` linked to itself |
| `DirectoryBlocks.FollowIncreases` | src/directory_struction.h:24-27 | following the links visits strictly increasing indices and ends at a zero link |
| `DirectoryBlocks.FollowCoversBlock` | src/directory_struction.h:141-156 | from any entry the record lengths along the links add up to exactly the rest of the block |
| `DirectoryBlocks.FinishedBlock` | src/directory_struction.h:118-159 | on a finished block with positive record lengths both hold from every entry |
| `DirectoryBlocks.SameEntriesEquivalence` | src/directory_struction.h:50-83 | the comparison of finished blocks is reflexive, symmetric and transitive |
| `DirectoryBlocks.DirectoryBlock.ExactlyEqual` | src/directory_struction.h:50-83 | on finished blocks the inner assertion never fires and the answer is whether both hold the same inodes, names, types and links, entry by entry |
| `DirectoryBlocks.EqualBlocksFollowAlike` | src/directory_struction.h:73-83 | equal blocks are followed alike from every entry |
| `BlocknrVector.TaggedExact` | src/blocknr_vector_type.h:45-62 | a singleton stored with the 32-bit shift reads back exactly when it is below 2^31 |
| `BlocknrVector.TaggedWord` | src/blocknr_vector_type.h:45-62 | the stored word is twice the number plus one, without the bit shifted out |
| `BlocknrVector.TaggedIntExact` | src/blocknr_vector_type.h:99-104 | a collapse with the `int` shift is exact only below 2^30 or from 3·2^30 on |
| `BlocknrVector.RemoveExact` | src/blocknr_vector_type.h:85-105 | a removal acts as on a sequence exactly when more than two entries were there or the one left is below 2^30 or from 3·2^30 on |
| `BlocknrVector.TwoBlocks` | src/blocknr_vector_type.h:57-83 | pushing block 2^30 and another block gives a vector of both |
| `BlocknrVector.CollapseGarbles` | src/blocknr_vector_type.h:85-105 | removing the other block from it leaves 3·2^30 instead of 2^30 |
| `BlocknrVector.SwapRemoveMultiset` | src/blocknr_vector_type.h:85-98 | a removal takes away exactly one occurrence, the first, puts the last entry in its place and leaves every other in its own |
| `BlocknrVector.BlocknrVector.Erase` | src/blocknr_vector_type.h:26 | leaves the empty sequence and frees exactly the owned array |
| `BlocknrVector.BlocknrVector.Assign` | src/blocknr_vector_type.h:37-55 | stores the given sequence, frees the old array and owns the new one |
| `BlocknrVector.BlocknrVector.PushBack` | src/blocknr_vector_type.h:57-83 | appends, keeping heap form to at least two entries and leaking nothing |
| `BlocknrVector.BlocknrVector.Remove` | src/blocknr_vector_type.h:85-105 | swaps the last entry into the first occurrence and collapses one remaining entry, freeing the array |
| `BlocknrVector.BlocknrVector.Size` | src/blocknr_vector_type.h:32 | the length of the contents in either form |
| `BlocknrVector.BlocknrVector.FirstEntry` | src/blocknr_vector_type.h:33 | the first of the contents in either form |
| `BlocknrVector.BlocknrVector.Get` | src/blocknr_vector_type.h:34 | the contents at an index in either form |
| `BlocknrVector.BlocknrVector.Perform` | src/blocknr_vector_type.h:20-105 | any legal run of operations on values below 2^30 acts on the contents as on a plain sequence, and over the whole run nothing is leaked and nothing that belongs to others is touched |
| `ByteOrder.Be2LeTwice` | src/blocknr_vector_type.h:10-15 | swapping the bytes of a word twice gives it back |
| `ByteOrder.Be2LeReadsBe` | src/blocknr_vector_type.h:11 | a word read in machine order and swapped is the value written most significant byte first |
| `ByteOrder.BeValue` | src/blocknr_vector_type.h:10-11 | the swapped word has the byte read first as its most significant |
| `Revoke.DescriptorRevoke.constructor` | src/blocknr_vector_type.h:206-216 | for any block size up to the buffer length it keeps exactly the words between header and byte count, with every read inside the buffer |
| `Revoke.RevokeBytes` | src/blocknr_vector_type.h:206-216 | the byte count stands at 12 and the named blocks from 16 on, all big-endian |
| `Revoke.DecodeInvertsEncode` | src/blocknr_vector_type.h:206-216 | a block written from any list passes the assertions exactly when the list fits the block size, and decodes to the list |
| `Revoke.EncodeInvertsDecode` | src/blocknr_vector_type.h:206-216 | every block that passes the assertions, for any block size up to its length, is the encoding of the list it decodes to |
| `PostingIndex.IndexName` | src/index.cpp:64-69 | posts every substring by offset and length at its own position, positions running from one without gap or repeat, and nothing else |
| `PostingIndex.PositionFormula` | src/index.cpp:64-69 | the closed form of a substring's position, and n(n+1)/2 postings in all |
| `PostingIndex.PositionsUnique` | src/index.cpp:64-69 | different offsets or lengths have different positions |
| `PostingIndex.TermsAreSubstrings` | src/index.cpp:64-69 | the posted terms are exactly the non-empty substrings |
| `PostingIndex.OrQueryIsScan` | src/search.cpp:44-47 | an OR query matches a name exactly when one of its non-empty terms occurs in it |
| `TransactionId.ComparesCounters` | src/kernel-jbd.h:803-813 | counters less than 2^31 apart are compared correctly across any number of wraps |
| `TransactionId.TotalOrderOnWindow` | src/kernel-jbd.h:803-813 | on the numbers of a window shorter than 2^31 the comparisons are a total order and its strict part |
| `TransactionId.Trichotomy` | src/kernel-jbd.h:803-813 | any two numbers are equal or ordered one way, except when they are 2^31 apart |
| `TransactionId.CycleBeyondWindow` | src/kernel-jbd.h:803-807 | three numbers that are each greater than the next, in a circle |
| `BkdrHash.BKDRHash` | src/hashsearch.h:5-16 | the masked loop with its 32-bit wrap gives the base-131 polynomial of the signed characters modulo 2^16, always a bucket index |
| `BkdrHash.ShortPolynomials` | src/hashsearch.h:5-16 | the polynomials of one and two characters, with base 131 and characters from 128 on negative |
| `BkdrHash.HashIs` | src/hashsearch.h:5-16 | the hash is the low sixteen bits of the polynomial |
| `BkdrHash.HashAppend` | src/hashsearch.h:5-16 | the hash of a concatenation follows from the hashes of its parts |
| `Bitmap.GetBitmapMask` | src/directory_struction.h:11-18 | writing one byte of the union leaves a mask with exactly the bit of that position within the word |
| `Bitmap.WordTestIsByteTest` | src/directory_struction.h:11-18 | masking a word is non-zero exactly when the bit is set in its byte of the bitmap |
| `Bitmap.AndBits` | src/directory_struction.h:11-18 | the conjunction of two words has exactly the bits both have |
| `Bitmap.BitByDivision` | src/directory_struction.h:11-18 | a bit of a word is the parity of its quotient by a power of two |
| `Bitmap.PlacesDistinct` | src/directory_struction.h:11-18 | different bits never share word and mask |

## Left out

- Xapian: ranking, stemming, case folding, commits, metadata, multi-word queries and the cut to ten results in src/search.cpp; search results are compared as multisets.
- Device streams: short reads, stream error states and console output.
- Superblock decoding: counts are below 2^31 and shift amounts at most 20, beyond which a count or `1024 << shift` leaves the `int` it is kept in. Eight times the block size wraps as an `int`, so that blocks above 2^27 bytes are refused; the bytes of an inode table are computed exactly, where the original multiplies in an `int` and an overflow is undefined.
- Block buffers of the inode cache are values: the pointers in `block_bitmap`, `inode_bitmap` and `all_inodes` are not modelled as aliases of heap memory.
- Walker.Walker.ReadCurrentDirectory: takes images that are ranked and in which the inode numbers of all entries in reach are found or refused by the lookup's assertion, because the original can recurse without end or index outside its arrays on others; its file counter is unbounded, because an overflow would need 2^31 files, and is not stated once an assertion has ended the program.
- Database.DB.Search: takes queries of one word, because what more words mean is decided inside Xapian.
- BlocknrVector.BlocknrVector.PushBack: takes vectors of fewer than 2^31 entries, the range of the `int` index in `remove`.
- BlocknrVector.BlocknrVector.Perform: covers values below 2^30, because the `int` shift of line 103 is exact only there for values that can also be stored alone; single operations are stated for all values.
- BlocknrVector.TaggedIntExact: takes the overflowing `int` shift to wrap, which the language leaves undefined.
- ReadInode.ReadInode: journal constants other than the block size are not kept, because nothing reads them.
- `iterate_over_directory`, `parent_directory`, `path_exists` and `add_block_descriptor` are declared or called but not defined; `read_block` is proved for any set of entries at distinct offsets of the block.
- The hash table of src/hashsearch.h: insertion never links the nodes it makes, and searching assigns to a parameter.
- By-value copies of `DB`, and `delete` applied to arrays: one owner is modelled.
- Printing operators, hex dumps, descriptors other than revoke records, the command line and kernel-only declarations.
