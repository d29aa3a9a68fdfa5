# littlefs and its clock, modelled

This project models the power-loss-resilient flash filesystem of this firmware
(`UserSources/LittleFS/lfs.c` with `lfs_util.h` and `lfs_util.c`) and the calendar arithmetic of its
real-time clock (`src/tm_stm32f4_rtc.c`), and proves what they are for. `dafny verify dfyconfig.toml`
checks all of it.

## The layers

| files | layer |
|---|---|
| `DirLog`, `Compaction`, `Splitting`, `OpenHandles` | a directory as a log of decoded tags: lookup, rewriting, splitting, open handles |
| `Crc32`, `TagWord`, `TagChain`, `Commit` | the same log as bytes: packed and chained tags, checksums, the commit writer |
| `MetadataPair`, `PowerLoss` | two blocks, revisions, and every prefix of a commit's erase and program steps |
| `GlobalState`, `DirCommit`, `Rename` | records spread over all pairs, one commit to a directory, and the two-commit rename that relies on them |
| `DiskCommit`, `RenameOnDisk` | commits, renames and recovery on the blocks themselves, with power failing anywhere in them |
| `CtzIndex`, `CtzList`, `FileBlocks`, `CowFile`, `Npw2` | the skip list of a file's blocks and out-of-place writing |
| `Bitmap`, `Allocator`, `FileSpace` | the lookahead window on the ring of blocks, and what files get from it |
| `BlockCache` | read and program caches over a raw device |
| `TailList` | cycle detection along the list of all pairs |
| `Calendar` | seconds, dates, and setting the clock |

Code that changes state step by step is modelled as classes and loops (`Writer`, `FileSystem`, `File`,
`Allocator`, `Device`, `Handle`, `DateTime`), each proved against a specification function or predicate
about which the theorems are then proved. `Common` and `Arith` are shared vocabulary.

## Assumptions

- A torn commit is detected: `ChecksumSound` and `RewriteSound` say that tags read from a torn block down to
  a matching checksum are, in every byte the checksums cover, what was being written there. They say nothing
  of padding, which no checksum covers (`SoundUpToPadding`). What a fetch then accepts is proved from that.
  The same is assumed of what an append that runs out of room leaves on its block.
- Behind an append that runs out of room the next byte has its top bit set (`BlankBehind`), as erased flash has,
  so that it does not read as a tag.
  Erasing a block is one step; programming happens in whole program units, of which the last may be torn and
  hold anything.
- A pair can be fetched and a block can be read without device errors, except where a parameter says
  otherwise (`Alloc` takes a failing traversal).
- A copied entry is followed in its commit by splices only (`MovesStand`): a rename is the one caller that
  copies, and it adds nothing but a delete.
- The block count is at most 2^31 (`Allocator.Counters`). Beyond that the unsigned ring distance is wrong
  for some blocks; `UnsignedDistanceExact` says for which.
- The hint of a read is positive and the program size is a multiple of the read size (`Geometry`). The code
  asserts neither. `BypassGetsOn` and `LoadGetsOn` say exactly when the read loop gets stuck otherwise.
- `LFS_MIGRATE`, `LFS_MULTIVERSION` and `LFS_READONLY` are off.

## Where the code does not do what one would expect

- A handle whose entry was deleted is meant to lose its pair. If its id is at or past the end of a first
  pair that is split, the walk along the tails fetches a pair for it again: `DeletedHandle` (exactly when),
  `DeletedHandleRevived` (an instance).
- Seeking while reading takes a shortcut when the new position is in the block of the old one and in the
  cached part. A reader that has just used up a block still names that block while its position is in the
  next, so the shortcut leaves it in the wrong block: `SeekKeepsPlace` (exactly when), `SeekGoesAstray`.
- `lfs_npw2` without a built-in is described as the next power of two but returns 1 for 1 and 32 for 0:
  `Npw2Exact`. The list search never passes less than 2.
- A time before 2000 does not survive its date, because the year field counts from 2000 in eight bits:
  `UnixRoundTrip`.
- The clock accepts bytes that are not BCD (0x1A decodes to 20 as 0x20 does): `BcdExact`.
- A flush that does not validate keeps the read cache, which may then be stale: `StaleAfterProgram`. The
  callers that flush this way go through a sync, which drops it.

## Model

| member | source | states |
|---|---|---|
| DirLog.LookupRefinesReplay | UserSources/LittleFS/lfs.c:674-734 | the backward scan with its running id shift finds, for every well-formed log, mask, key and id, exactly the attribute that replaying creates, deletes and attributes forwards assigns to that id, and nothing exactly where replay has nothing |
| DirLog.HiddenLookup | UserSources/LittleFS/lfs.c:679-686 | with a pending move the same scan answers as the directory with the moved entry taken out and the later ids moved down |
| DirLog.NameFound | UserSources/LittleFS/lfs.c:1367-1385 | the lookup of names under 0x780 finds the newest name of an entry whatever kind of file it names, as long as its type is below 0x80 |
| DirLog.NameWritten | UserSources/LittleFS/lfs.c:1367-1385 | a name of any such type just written is what it finds |
| TagWord.MatchesBits | UserSources/LittleFS/lfs.c:706-711 | what the three masks accept, in the bits of a packed tag: (mask & tag) == (mask & wanted) with 0x700, 0x780 and 0x7ff over the type |
| TagWord.KeyBits | UserSources/LittleFS/lfs.c:810-818 | which tags overwrite each other, in bits: under 0x7ff if bit 0x100 of the later one's type is set, and otherwise under 0x700 |
| TagWord.FirstStored | UserSources/LittleFS/lfs.c:1100 | the first tag of a block is stored as its complement |
| Compaction.ScanForDuplicates | UserSources/LittleFS/lfs.c:805-832 | one forward pass over everything behind a tag computes the filter: the renumbered tag, or that it is redundant |
| Compaction.EmitItem | UserSources/LittleFS/lfs.c:966-1024 | what the traversal hands on for one stored tag or copied entry |
| Compaction.Traverse | UserSources/LittleFS/lfs.c:865-1057 | the traversal over a log and its pending attributes hands on the filtered, renumbered tags in order |
| Compaction.FilterKeeps | UserSources/LittleFS/lfs.c:805-832 | a tag the filter keeps under a new id is met again by a backward lookup of that id, unless a newer value is met first |
| Compaction.FilterReached | UserSources/LittleFS/lfs.c:805-832 | a tag a backward lookup reaches is kept, under the id the lookup started from |
| Compaction.CompactedWalk | UserSources/LittleFS/lfs.c:1951-1964 | a backward lookup over the rewritten log ends as the lookup over the old log with the pending attributes appended |
| Compaction.CompactionPreservesEntries | UserSources/LittleFS/lfs.c:1951-1964 | every entry of [begin, end) keeps every attribute, renumbered from 0 |
| Compaction.CompactionKeepsLookups | UserSources/LittleFS/lfs.c:1951-1964 | in the lookups readers make: names and structs under 0x700 and user attributes by their exact type answer the same before and after |
| Compaction.CompactionKeepsNames | UserSources/LittleFS/lfs.c:1951-1964 | so do names of files and directories under 0x780 |
| Compaction.CompactionLeavesOne | UserSources/LittleFS/lfs.c:805-832 | without a pending copy the rewritten log has, for each id, at most one name, one struct and one user attribute of each type |
| Compaction.CompactionStaysInRange | UserSources/LittleFS/lfs.c:1024-1040 | the rewritten log has nothing under ids past end - begin |
| Compaction.CompactionCount | UserSources/LittleFS/lfs.c:2019-2020 | a later fetch counts end - begin entries if and only if the last of them has a name |
| Compaction.CompactedAttrs | UserSources/LittleFS/lfs.c:1951-1964 | the rewritten log consists of attributes below end - begin only and is well formed again |
| Splitting.FindSplit | UserSources/LittleFS/lfs.c:2064-2103 | the split is the first of the halvings whose back part fits or has one entry; a range is left whole if and only if it fits |
| Splitting.FitsBelow | UserSources/LittleFS/lfs.c:2094-2103 | a range that fits has fewer than 255 entries, and unless it is a single one its tags take no more room than allowed |
| Splitting.SplittingCompact | UserSources/LittleFS/lfs.c:2061-2130 | the chain covers [begin, end) with consecutive ranges joined by hard tails, ends in the old tail, and every pair split off is non-empty and fits; a range that fits stays one pair; pairs are named in the order they are handed out, and the blocks run out only if every one was used and the front still does not fit |
| Splitting.SplitOff | UserSources/LittleFS/lfs.c:1816-1847 | a pair split off takes over the directory's tail and becomes its hard tail |
| Splitting.SplitPreservesEntries | UserSources/LittleFS/lfs.c:2061-2130 | walking the hard tails, every id leads to one pair and local id under which every attribute of the entry is found |
| Splitting.ChainSizes | UserSources/LittleFS/lfs.c:2061-2130 | the pairs of the chain add up to the range they took over: nothing is lost or doubled |
| DiskCommit.SizeIsRoom | UserSources/LittleFS/lfs.c:1851-1857 | the measure used for splitting is the room the tags take on a block |
| DiskCommit.FitsOnBlock | UserSources/LittleFS/lfs.c:2084-2103 | the forty bytes the measure leaves free are enough for the revision, a tail, a record and the seal, so what fits by measure can be committed to an erased block |
| OpenHandles.Handle.Fix | UserSources/LittleFS/lfs.c:2298-2325 | the update of one open handle: renumbered past every create and delete, then carried along the tails to its pair |
| OpenHandles.FixAll | UserSources/LittleFS/lfs.c:2295-2330 | only handles on the committed pair change |
| OpenHandles.HandleFollowsEntry | UserSources/LittleFS/lfs.c:2299-2316 | renumbering an id past any edits ends at the entry it named, and is marked gone exactly when that entry is no longer there |
| OpenHandles.FixedHandleNamesEntry | UserSources/LittleFS/lfs.c:2287-2330 | after any edits and split, the pair and id a fixed handle is left with name the entry it named before, unless that was deleted |
| OpenHandles.DeletedHandle | UserSources/LittleFS/lfs.c:2301-2304 | a handle whose entry was deleted is left without a pair, except exactly when its id is at or past the end of a split first pair |
| OpenHandles.DeletedHandleRevived | UserSources/LittleFS/lfs.c:2318-2325 | an instance of that exception: the walk along the tails gives the handle of a deleted entry a pair again |
| OpenHandles.SplitChainLaysOut | UserSources/LittleFS/lfs.c:2061-2130 | a chain produced by splitting sits at the offsets of its ranges and is hard-linked up to a soft tail, so the handle theorems apply to it |
| Crc32.LfsCrc | UserSources/LittleFS/lfs_util.c:15-31 | the 16-entry table method computes the bit-serial reflected CRC-32 of section 3.2.9 of IEEE 802.3, without final complement |
| Crc32.NibbleStep | UserSources/LittleFS/lfs_util.c:26-27 | one table step is four bit steps |
| Crc32.CrcConcat | UserSources/LittleFS/lfs_util.c:15-31 | checksumming two pieces one after the other is checksumming them joined |
| Crc32.CheckValue | UserSources/LittleFS/lfs_util.c:15-31 | the digits 1 to 9 give the check value 0xcbf43926 of CRC-32 after the final complement |
| TagChain.StartsAsCrc32 | UserSources/LittleFS/lfs.c:1112-1115 | a commit's checksum starts with the register of CRC-32 |
| Crc32.BdCrc | UserSources/LittleFS/lfs.c:154-173 | eight bytes at a time gives the checksum of the whole range |
| Crc32.CrcOfItself | UserSources/LittleFS/lfs.c:1734-1744 | any register followed by its own four little-endian bytes becomes zero |
| Crc32.CrcInjective | UserSources/LittleFS/lfs_util.c:15-31 | over the same bytes different registers stay different, so a damaged checksum never heals |
| TagWord.UnpackMkTag | UserSources/LittleFS/lfs.c:335-373 | the fields of a packed tag are the values it was made of |
| TagWord.BeRoundTrip | UserSources/LittleFS/lfs.c:1563-1570 | a tag survives its four big-endian bytes |
| TagWord.ValidXor | UserSources/LittleFS/lfs.c:1116-1135 | the valid bit of a decoded tag is the exclusive or of the stored bit and the previous tag's |
| TagChain.ScanWritten | UserSources/LittleFS/lfs.c:1116-1235 | scanning what was written advances over exactly the written entries and remembers the last complete commit |
| TagChain.EndsCommitBits | UserSources/LittleFS/lfs.c:1146 | which tags end a commit, in bits: the type under 0x780 is 0x500 |
| TagChain.NextPtagBits | UserSources/LittleFS/lfs.c:1165 | what the next tag is chained to, in bits: behind a checksum tag the lowest bit of its type is added to the valid bit |
| TagChain.LengthBits | UserSources/LittleFS/lfs.c:339-373 | the length of a tag, in bits: its size field, increased by one without a carry if it is all ones |
| TagChain.CountMatchesReplay | UserSources/LittleFS/lfs.c:1199-1210 | the entry count in the cursor a fetch ends with is the count of the replayed directory |
| TagChain.TailRemembered | UserSources/LittleFS/lfs.c:1215-1225 | the tail and split flag remembered are those of the newest tail tag: its first eight bytes, and the lowest bit of its type; none without such a tag |
| TagChain.TailTypes | UserSources/LittleFS/lfs.c:1215-1216 | type 0x601 is a hard tail and 0x600 a soft one |
| TagChain.StepOver | UserSources/LittleFS/lfs.c:688-699 | one step backwards recovers the tag in front and its offset |
| TagChain.MoreBehind | UserSources/LittleFS/lfs.c:688-699 | the loop condition holds exactly while there are tags in front; the walk stops behind the revision word |
| TagChain.GetSlice | UserSources/LittleFS/lfs.c:674-734 | the lookup on bytes, from the end of the last commit back, answers what the abstract lookup answers and fills the buffer from the given offset into the value; it fails exactly where the bytes read would pass the block's end |
| TagChain.SliceOfValue | UserSources/LittleFS/lfs.c:716-727 | a slice that ends inside the value is that slice of the value |
| Commit.Writer.CommitAttr | UserSources/LittleFS/lfs.c:1557-1600 | appends one tag with its payload, or nothing if it would pass the end; what is written so far reads back; no other byte changes |
| Commit.Writer.CommitFcrc | UserSources/LittleFS/lfs.c:1626-1657 | the forward checksum describes the next program unit as it is |
| Commit.Writer.Seal | UserSources/LittleFS/lfs.c:1659-1703 | a checksum tag seals the commit, and the next tag's expected valid bit is the opposite of what the erased byte reads as |
| Commit.Writer.CommitCrc | UserSources/LittleFS/lfs.c:1605-1717 | padding with as many checksum tags as needed ends at a program unit, and only the last of them does; the added tags are seals only; a following unit is foreseen as it is. Where the padding takes one tag it succeeds if and only if a forward checksum fits or the padding ends the block; out of room, nothing has been added if and only if it takes one tag |
| Commit.Writer.CommitAll | UserSources/LittleFS/lfs.c:2202-2256 | a whole commit reads back as its attributes and seals, and succeeds if and only if attributes and seal fit. Out of room, what is left is a front part of it: without a seal if and only if not all attributes fit or the padding takes one tag, and otherwise all attributes, already sealed |
| Commit.SmallUnitsTakeOneTag | UserSources/LittleFS/lfs.c:1605-1717 | with program units up to 1006 bytes the padding takes one tag, so a failing commit leaves no seal |
| Commit.LargeUnitsMayNot | UserSources/LittleFS/lfs.c:1605-1717 | an instance with units of 2048 bytes, where it takes more and a failing commit may be sealed |
| Commit.StopsAtErased | UserSources/LittleFS/lfs.c:1116-1139 | whatever the erased byte value, a scan behind a foreseen end stops there and takes the rest as possibly erased |
| Commit.StopsAtBlank | UserSources/LittleFS/lfs.c:1116-1139 | behind a tag with its valid bit clear a scan stops at a byte with its top bit set |
| Commit.FcrcPredicts | UserSources/LittleFS/lfs.c:1297-1306 | a forward checksum of a unit left alone matches it |
| MetadataPair.ScanBlock | UserSources/LittleFS/lfs.c:1111-1275 | the fetch loop over one block computes the forward scan |
| MetadataPair.Fetch | UserSources/LittleFS/lfs.c:1074-1332 | the newer block is tried first and the other one only if no commit is found in it |
| MetadataPair.NextRevision | UserSources/LittleFS/lfs.c:1074-1090 | the revision after any other, wrapping included, counts as newer and never as older |
| MetadataPair.NewerIsAhead | UserSources/LittleFS/lfs_util.h:164-166 | a revision is newer than another if and only if it is 1 to 2^31 - 1 ahead of it, modulo 2^32 |
| MetadataPair.FetchPrefers | UserSources/LittleFS/lfs.c:1074-1098 | a fetch of a pair takes the block that is ahead if there is a commit in it, and otherwise the other |
| MetadataPair.FetchedTail | UserSources/LittleFS/lfs.c:1170-1180 | the tail and split flag a fetch restores are those of the newest tail tag among the tags it has read |
| MetadataPair.SealsChangeNothing | UserSources/LittleFS/lfs.c:1605-1717 | checksum tags change no count, tail or entry |
| MetadataPair.ScanAccepts | UserSources/LittleFS/lfs.c:1111-1275 | whatever a scan accepts it has read tag by tag, down to a matching checksum |
| PowerLoss.AcceptedWasWritten | UserSources/LittleFS/lfs.c:1140-1183 | with checksums that speak truly for the bytes they cover, what is accepted in a torn image is a front part of what is being written, up to padding that no checksum covers, also where that is a commit that will be abandoned |
| PowerLoss.SoundUpToPadding | UserSources/LittleFS/lfs.c:1605-1717 | the assumption about torn images holds of every image that differs from the finished block in checksum padding only, so it is no stronger than what checksums cover |
| PowerLoss.SoundWhereUnread | UserSources/LittleFS/lfs.c:1134-1138 | it holds where a scan reads nothing, as on the block before the append |
| PowerLoss.TornScan | UserSources/LittleFS/lfs.c:1111-1275 | a scan of a torn append, abandoned or not, goes on behind the old log and accepts a front part of what was written, or nothing |
| PowerLoss.AppendIsAtomic | UserSources/LittleFS/lfs.c:2203-2272 | after any prefix of an append's programs, the last of them torn, the pair is fetched from the same block, exactly as before or with exactly the new directory |
| PowerLoss.AbandonedIsAtomic | UserSources/LittleFS/lfs.c:2202-2256 | after any prefix of the programs of an append that runs out of room the pair is fetched from the same block, exactly as before or, where the padding had sealed all attributes already, with exactly the new directory |
| PowerLoss.AppendDurable | UserSources/LittleFS/lfs.c:2203-2272 | from the moment a first sealed part of the commit can be read, the new directory is what a fetch finds |
| PowerLoss.AppendFetched | UserSources/LittleFS/lfs.c:2203-2272 | the finished append is what a fetch of the pair finds, with nothing assumed of checksums |
| PowerLoss.TornIsNotErased | UserSources/LittleFS/lfs.c:1276-1306 | after a torn append the block is taken for erased only behind the whole commit, or where not one unit was written and the unit there keeps its erased checksum; never behind a front part of the commit, so the next commit compacts |
| PowerLoss.CompactionIsAtomic | UserSources/LittleFS/lfs.c:1915-2028 | before, while and after the other block is erased and programmed up to a torn unit, a fetch finds the old block as it was or the new directory |
| PowerLoss.CompactionDurable | UserSources/LittleFS/lfs.c:1915-2028 | the finished rewrite is what a fetch finds, also when the revision wraps, with nothing assumed of checksums |
| PowerLoss.AppendCommit | UserSources/LittleFS/lfs.c:2202-2256 | the writer's append is the one the crash theorems are about, and leaves the rest of the block foreseen; it fails only out of room, and what it then leaves is an abandoned append in the sense of those theorems |
| PowerLoss.CommitFitsLimit | UserSources/LittleFS/lfs.c:2202-2212 | with program units up to 1006 bytes and commits allowed up to eight bytes in front of the end of the block, a commit succeeds if and only if its attributes end there |
| PowerLoss.RewriteBlock | UserSources/LittleFS/lfs.c:1915-2021 | erase, next revision and commit are the rewrite the crash theorems are about, and leave the rest of the block foreseen |
| PowerLoss.AppendKeepsInUse | UserSources/LittleFS/lfs.c:2202-2272 | after an append the block is again in a state the next append may start from |
| PowerLoss.RewriteInUse | UserSources/LittleFS/lfs.c:2016-2021 | so it is after a rewrite |
| GlobalState.DecodeEncode | UserSources/LittleFS/lfs.c:429-441 | a record survives its twelve bytes |
| GlobalState.DecodeBytes | UserSources/LittleFS/lfs.c:429-441 | the twelve bytes are the tag and the two blocks of the pair, little-endian |
| GlobalState.FileSystem.AppendCommit | UserSources/LittleFS/lfs.c:2231-2270 | an appending commit publishes the state and keeps the sum of all records equal to gdisk xor gdelta; the record of the pair is its old one with the pending change mixed in |
| GlobalState.FileSystem.RewriteCommit | UserSources/LittleFS/lfs.c:1981-2027 | a rewriting commit keeps it too; during a relocation it folds in gdelta but publishes nothing. The record the pair is left with is the same as for an append |
| GlobalState.FileSystem.SplitCommit | UserSources/LittleFS/lfs.c:1816-1847 | a rewrite with any number of new tails keeps it: the tails take the pending change, the front keeps its record |
| GlobalState.FileSystem.Drop | UserSources/LittleFS/lfs.c:2377-2397 | dropping a pair moves its record into the predecessor's commit, appended, rewritten or relocated, and keeps it |
| GlobalState.FileSystem.Mount | UserSources/LittleFS/lfs.c:4440-4461 | mounting recovers the sum of all records as the state, and the orphan count in its low ten bits is 1 if the flag on disk says there are orphans, and 0 otherwise |
| GlobalState.MountRecovers | UserSources/LittleFS/lfs.c:4440-4461 | what a mount recovers is what the last commit published |
| GlobalState.DeltaPublishes | UserSources/LittleFS/lfs.c:2231-2239 | the record difference turns the sum from gdisk xor gdelta into the new state |
| Rename.RenameIsAtomic | UserSources/LittleFS/lfs.c:3965-3994 | between the two commits, with the note on disk, every pair already answers, at every id, as after the deletion, and pairs not involved answer as before |
| Rename.RenameVacatesOld | UserSources/LittleFS/lfs.c:679-686 | from the first commit on the entry is gone from its old place and later ids have moved up |
| Rename.RenameFillsNew | UserSources/LittleFS/lfs.c:3969-3977 | from the first commit on the entry is at its new place with the new name and every other attribute of the old |
| Rename.RenameKeepsOthers | UserSources/LittleFS/lfs.c:3969-3977 | every other id of the target directory, also past its end, answers as before, shifted by one unless an entry is replaced |
| Rename.MovedAnswers | UserSources/LittleFS/lfs.c:992-1010 | the attributes copied from the old entry answer as the old entry did |
| Rename.PreparedHides | UserSources/LittleFS/lfs.c:4745-4751 | preparing a move hides that id in that pair only; preparing none hides nothing |
| Rename.HiddenOnDisk | UserSources/LittleFS/lfs.c:415-427 | the bits kept in memory only do not matter for what is hidden |
| Rename.PrepareKeepsOrphans | UserSources/LittleFS/lfs.c:4745-4751 | noting a move, or that there is none, keeps the orphan flag and the orphan count |
| Rename.HasMoveBits | UserSources/LittleFS/lfs.c:415-417 | a move is pending if and only if the type of the state's tag under 0x700 is not zero |
| Rename.OverlapShares | UserSources/LittleFS/lfs.c:296-301 | pairs are taken for the same if and only if they share a block, in whatever order the blocks are named |
| Rename.RenameAcross | UserSources/LittleFS/lfs.c:3965-3994 | both commits of a rename across pairs, each appended or rewritten, pass through exactly the three disks of the rename theorems, and leave the file system at rest for the next |
| Rename.Demove | UserSources/LittleFS/lfs.c:4794-4826 | recovery deletes the entry a pending move names and clears the note, leaving every other pair alone and the file system at rest; with no move pending nothing changes |
| Rename.RecoveredRun | UserSources/LittleFS/lfs.c:4794-4826 | where the logs found were those between the commits of a rename, recovery leaves the disk as that rename could have ended |
| Rename.RenameWithin | UserSources/LittleFS/lfs.c:3922-3977 | a rename within one pair is one commit, with the copy followed by the deletion of the shifted old id |
| Rename.SamePairReplays | UserSources/LittleFS/lfs.c:3922-3977 | the shifted id is the old entry, and deleting it leaves the new one in place and every other entry in order |
| Rename.SamePairRename | UserSources/LittleFS/lfs.c:3922-3977 | afterwards lookups find the entry at its new place only, with the new name and every other attribute, and every other id but a replaced one, also past the end, answers as before under its shifted id |
| DirCommit.CommitTo | UserSources/LittleFS/lfs.c:2202-2285 | a commit, appended or rewritten, leaves a log that denotes the old directory with the attributes applied, ends in a checksum tag and names every entry |
| DirCommit.RewrittenDirectory | UserSources/LittleFS/lfs.c:1951-1964 | a rewritten log counts and names exactly the entries it was written for |
| DiskCommit.BeforeHolds | UserSources/LittleFS/lfs.c:1338-1344 | before a commit a fetch finds exactly the log it starts from |
| DiskCommit.AfterHolds | UserSources/LittleFS/lfs.c:2166-2285 | after it, what means the same as the log written |
| DiskCommit.CrashHolds | UserSources/LittleFS/lfs.c:2166-2285 | wherever power fails in a commit, appended, rewritten, or rewritten after an append that ran out of room, a fetch of the pair finds exactly the old log, or what means the same as the new one or as what the abandoned append adds up to |
| DiskCommit.AppendImages | UserSources/LittleFS/lfs.c:2203-2272 | whatever the program unit cut off holds, the block is among the images this is about, as long as checksums are sound on it |
| DiskCommit.CommitIsAtomic | UserSources/LittleFS/lfs.c:2166-2285 | so a mount finds exactly the old directory, or one that answers at every id, also past its end, as the old directory with the items applied |
| DiskCommit.TriedCommitted | UserSources/LittleFS/lfs.c:2202-2256 | what an abandoned append adds up to means the same as what the commit leaves: count, entries and record |
| DiskCommit.WritesCommitted | UserSources/LittleFS/lfs.c:1966-2000 | a tail repeated behind the attributes changes neither entries nor record |
| DiskCommit.EntriesRoundTrip | UserSources/LittleFS/lfs.c:1557-1600 | every log of tags that fit their fields can be handed to the writer and reads back as itself |
| DiskCommit.ReadIsStorable | UserSources/LittleFS/lfs.c:1557-1600 | every tag a scan can read, other than a commit's checksum, fits its fields and can be written again |
| DiskCommit.AppendOnDisk | UserSources/LittleFS/lfs.c:2202-2272 | programming an append on the block in use is such a commit |
| DiskCommit.AbandonOnDisk | UserSources/LittleFS/lfs.c:2202-2256 | an append that runs out of room, of which the program cache has reached the device in part, is an abandoned append |
| DiskCommit.RetryOnDisk | UserSources/LittleFS/lfs.c:2202-2285 | rewriting the other block after it is a commit of the third kind |
| DiskCommit.RewriteOnDisk | UserSources/LittleFS/lfs.c:1915-2021 | so is erasing and programming the other block |
| RenameOnDisk.HoldsReads | UserSources/LittleFS/lfs.c:674-734 | lookups on a mounted disk answer as on any logs that mean the same |
| RenameOnDisk.PowerLossInFirst | UserSources/LittleFS/lfs.c:3965-3981 | every lookup after a power loss inside the first commit of a rename answers as before it, or as between the two commits |
| RenameOnDisk.PowerLossInSecond | UserSources/LittleFS/lfs.c:3985-3994 | every lookup after a power loss inside the second, made by the rename or by recovery after a first one that was cut off, answers as between the two, or as after both |
| RenameOnDisk.RenameSurvivesPowerLoss | UserSources/LittleFS/lfs.c:3965-3994 | on every disk a power loss in a rename can leave behind, a mount reads everything as before, or the entry at its new place only: at every id, also past the ends, the old directory answers as after the deletion and every other entry is where it belongs |
| RenameOnDisk.RenameCompletes | UserSources/LittleFS/lfs.c:3965-3994 | after both commits it reads the entry at its new place only |
| RenameOnDisk.RenameReachesDisk | UserSources/LittleFS/lfs.c:3965-3994 | the commits of a rename, programmed on the device, also after abandoned appends, are the ones these theorems are about |
| RenameOnDisk.MountFindsMove | UserSources/LittleFS/lfs.c:4440-4461 | after any power loss in a rename a mount finds the move pending if and only if the disk is one between the two commits |
| RenameOnDisk.CutOffIsPending | UserSources/LittleFS/lfs.c:4794-4826 | then the source pair is found exactly as it was, so recovery can delete the entry |
| RenameOnDisk.RecoveryReachesDisk | UserSources/LittleFS/lfs.c:4794-4826 | the recovering commit, programmed on the device, deletes the entry and clears the note |
| RenameOnDisk.RecoverySurvivesPowerLoss | UserSources/LittleFS/lfs.c:4794-4826 | wherever power fails in it, a mount reads the entry at its new place only, and finds the move still pending or the rename completed |
| RenameOnDisk.RepeatedRecovery | UserSources/LittleFS/lfs.c:4794-4826 | so it does however often power fails in recovery |
| CtzIndex.FirstByteClosed | UserSources/LittleFS/lfs.c:2802-2813 | the sum of block capacities in closed form with a population count |
| CtzIndex.PointersClosed | UserSources/LittleFS/lfs.c:2802-2813 | pointers of blocks 1 to n number 2n less the ones of n |
| CtzIndex.IndexCorrect | UserSources/LittleFS/lfs.c:2802-2813 | for block sizes from 128 and 32-bit offsets one correction suffices: the computed block contains the offset |
| CtzIndex.IndexUnique | UserSources/LittleFS/lfs.c:2802-2813 | no other block contains it |
| CtzIndex.LfsCtzIndex | UserSources/LittleFS/lfs.c:2802-2813 | the in-place computation never underflows and yields block and offset inside it, behind the pointers |
| CtzList.HopShortens | UserSources/LittleFS/lfs.c:2828-2842 | a hop never overshoots the target and lowers a logarithmic bound |
| CtzList.CtzFind | UserSources/LittleFS/lfs.c:2815-2847 | the search ends at the target block after at most 2 log2 + 1 hops |
| CtzList.CtzTraverse | UserSources/LittleFS/lfs.c:2949-2990 | the traversal reports every block once, newest first |
| CtzList.CtzBecomes | UserSources/LittleFS/lfs.c:2908-2937 | the block a lower pointer leads to has exactly that many trailing zeros, so the next pointer is there to be read |
| FileBlocks.LinkBack | UserSources/LittleFS/lfs.c:2908-2937 | the new block's pointers lead to n - 2^k for every k up to ctz(n) |
| FileBlocks.CopyFront | UserSources/LittleFS/lfs.c:2876-2901 | copies the filled part of the last block |
| FileBlocks.StoresAppend | UserSources/LittleFS/lfs.c:2903-2941 | a block with these pointers continues the list |
| FileBlocks.StoresCopy | UserSources/LittleFS/lfs.c:2876-2905 | a copy of the last block's filled part stands in for it |
| FileBlocks.StoresPrefix | UserSources/LittleFS/lfs.c:3503-3511 | the blocks up to a byte store the file up to that byte |
| FileBlocks.StoresMore | UserSources/LittleFS/lfs.c:3534-3560 | programming behind the filled part lengthens the contents |
| CowFile.File.Find | UserSources/LittleFS/lfs.c:2815-2847 | finds the block and offset of a byte of the committed list, from the head and the size alone |
| CowFile.File.Extend | UserSources/LittleFS/lfs.c:2850-2946 | makes room in a block of its own; nothing committed changes, and it fails only without free blocks |
| CowFile.File.FlushedRead | UserSources/LittleFS/lfs.c:3406-3464 | sequential reading returns the committed bytes at its place |
| CowFile.File.FlushedWrite | UserSources/LittleFS/lfs.c:3486-3572 | sequential writing appends to what is being written; every committed block stays byte for byte |
| CowFile.File.Flush | UserSources/LittleFS/lfs.c:3273-3351 | the rest of the old contents is copied behind what was written, then head and size move; old blocks stay byte for byte |
| CowFile.File.Write | UserSources/LittleFS/lfs.c:3574-3615 | a reader then sees old[..pos] + data + old[pos + len..], zero-filled past the end; FBIG exactly over the limit; nothing committed changes |
| CowFile.OverwrittenBytes | UserSources/LittleFS/lfs.c:3574-3615 | byte by byte: the data where they are written, zeros in a gap in front of them, and elsewhere what was there |
| CowFile.File.Read | UserSources/LittleFS/lfs.c:3467-3482 | returns what was written, flushing first if need be |
| CowFile.File.WriteAndSync | UserSources/LittleFS/lfs.c:3574-3615 | a write and its flush turn the committed contents into the overwritten ones, or leave them alone |
| CowFile.File.Seek | UserSources/LittleFS/lfs.c:3618-3678 | contents do not change and the position does; the handle stays usable except in the case of the next two rows |
| CowFile.SeekKeepsPlace | UserSources/LittleFS/lfs.c:3648-3665 | the shortcut inside a cached block leaves the reader in the block of its position if and only if it had not just used up its block |
| CowFile.SeekGoesAstray | UserSources/LittleFS/lfs.c:3648-3665 | a concrete file and seek after which the reader is in the block before the one of its position |
| Npw2.LfsNpw2 | UserSources/LittleFS/lfs_util.h:126-139 | the portable five-step search computes the stated value for every 32-bit argument |
| Npw2.Npw2Exact | UserSources/LittleFS/lfs_util.h:124-139 | that value is the exponent of the smallest power of two not below the argument if and only if the argument is at least 2 |
| Npw2.HopIsLog | UserSources/LittleFS/lfs.c:2829-2831 | the skip count of the list search is the binary logarithm of the distance |
| Npw2.LowBitGivesCtz | UserSources/LittleFS/lfs_util.h:143-149 | from the lowest set bit it yields the trailing zeros |
| Bitmap.WithHas | UserSources/LittleFS/lfs.c:602-604 | setting a bit of the lookahead buffer changes the test of that bit only |
| Allocator.UnsignedDistanceExact | UserSources/LittleFS/lfs.c:599-600 | the unsigned ring distance is right if and only if adding the block count does not overflow |
| Allocator.RingApart | UserSources/LittleFS/lfs.c:635 | places less than a turn apart are different blocks |
| Allocator.Allocator.constructor | UserSources/LittleFS/lfs.c:4463-4464 | a mounted allocator starts at a seeded place with nothing looked at |
| Allocator.Allocator.Mark | UserSources/LittleFS/lfs.c:597-607 | marks exactly the window's place of a block |
| Allocator.Allocator.Scan | UserSources/LittleFS/lfs.c:660-663 | after clearing and traversing, the marks are exactly the blocks in use |
| Allocator.Allocator.Refill | UserSources/LittleFS/lfs.c:654-668 | the next window starts where the turn has got to, is as large as the buffer and the turn allow, and meets nothing handed out in this turn; a failed traversal drops it |
| Allocator.Allocator.Ack | UserSources/LittleFS/lfs.c:613-615 | a new turn starts; the invariant is kept |
| Allocator.Allocator.Drop | UserSources/LittleFS/lfs.c:619-623 | the window is forgotten; the invariant is kept |
| Allocator.Allocator.Alloc | UserSources/LittleFS/lfs.c:626-670 | a block handed out is not in use and was not handed out since the acknowledgement; the places in use behind it are passed at once; no space only after every block was handed out or seen in use; it terminates |
| FileSpace.TakeBlocks | UserSources/LittleFS/lfs.c:3524-3531 | the blocks handed out while a file is extended, each after an acknowledgement, are all different and none was in use; fewer than wanted only when a traversal fails or every block was seen in use |
| FileSpace.TakenIsPool | UserSources/LittleFS/lfs.c:2850-2860 | so they are what `CowFile` takes its free blocks to be: in no list of the file |
| BlockCache.BypassGetsOn | UserSources/LittleFS/lfs.c:88-101 | a direct read always gets on if and only if the program size is a multiple of the read size |
| BlockCache.LoadGetsOn | UserSources/LittleFS/lfs.c:103-115 | loading the cache brings the wanted byte in if and only if the hint is positive or the place is inside a read unit |
| BlockCache.Device.Read | UserSources/LittleFS/lfs.c:44-125 | returns the device overlaid with what is pending, for every place and positive hint, keeps the read cache coherent and terminates; Corrupt exactly outside the device |
| BlockCache.Device.Cmp | UserSources/LittleFS/lfs.c:127-152 | comparing eight bytes at a time gives the order of the whole |
| BlockCache.CompareParts | UserSources/LittleFS/lfs.c:127-152 | the first piece that differs decides |
| BlockCache.CompareDiffer | UserSources/LittleFS/lfs.c:147-150 | the first byte that differs decides, and the smaller byte on the device makes the device smaller |
| BlockCache.Device.Flush | UserSources/LittleFS/lfs.c:176-208 | what was pending is on the device and nothing else has changed; validating, it reads back equal and the read cache is coherent |
| BlockCache.Device.Sync | UserSources/LittleFS/lfs.c:211-223 | the same, and the read cache holds nothing stale |
| BlockCache.Device.Prog | UserSources/LittleFS/lfs.c:227-271 | contiguous programs change what a reader sees as writes would; every program of the device is of whole units |
| BlockCache.Device.ProgAllAndSync | UserSources/LittleFS/lfs.c:211-271 | any pieces programmed one behind the other and synced leave the device as if they had gone straight to it |
| BlockCache.Device.OnePageEach | UserSources/LittleFS/lfs_plat.c:58-63 | with all sizes 256 each program is of exactly one aligned page |
| BlockCache.StaleAfterProgram | UserSources/LittleFS/lfs.c:192-203 | a read cache not dropped over a program goes stale if and only if a byte it holds is programmed to something else than the erased value |
| TailList.WalkTails | UserSources/LittleFS/lfs.c:4314-4335 | on any finite readable tail graph the walk ends, reports corruption exactly on cyclic lists and otherwise fetches each pair once, in order |
| TailList.SyncIsSame | UserSources/LittleFS/lfs.c:303-308 | the tortoise is met if and only if the pair has the same two blocks, in either order |
| TailList.NullPairs | UserSources/LittleFS/lfs.c:292-294 | the list ends at a pair either block of which is none |
| TailList.CompleteIsNotCyclic | UserSources/LittleFS/lfs.c:4314-4335 | a list that ends has no cycle |
| TailList.CompleteHasNoRepeat | UserSources/LittleFS/lfs.c:4536-4564 | a list that ends has no pair twice |
| TailList.Met | UserSources/LittleFS/lfs.c:4541-4551 | a tortoise far enough along is met again within as many places as there are pairs |
| Calendar.DateTime.FromUnixTime | src/tm_stm32f4_rtc.c:478-538 | the loops compute the date of the moment, with the year in its 8-bit field, and the weekday |
| Calendar.DateTime.GetUnixTimeStamp | src/tm_stm32f4_rtc.c:451-476 | the loops compute the moment of the date modulo 2^32 |
| Calendar.FromUnixIsInverse | src/tm_stm32f4_rtc.c:478-538 | the date at a moment is a valid leap-aware date and is that moment |
| Calendar.FromUnixOfSeconds | src/tm_stm32f4_rtc.c:451-538 | every valid date is what its moment is converted to |
| Calendar.SecondsUnique | src/tm_stm32f4_rtc.c:451-476 | different valid dates are different moments |
| Calendar.UnixRoundTrip | src/tm_stm32f4_rtc.c:451-538 | through the date and back is the identity if and only if the time is in or after 2000, and the date is always valid |
| Calendar.DateRoundTrip | src/tm_stm32f4_rtc.c:451-538 | through the time stamp and back is the identity on a valid date if and only if its moment fits 32 bits, which it does up to 2099 |
| Calendar.WeekdayAdvances | src/tm_stm32f4_rtc.c:496-498 | the weekday of 1 January 1970 is Thursday and each day is followed by the next, modulo 7 |
| Calendar.YearsClosed | src/tm_stm32f4_rtc.c:29-30 | the days in front of a year in closed form, with every fourth year a leap year but of the centuries only every fourth |
| Calendar.MonthsClosed | src/tm_stm32f4_rtc.c:51-54 | the days in front of a month in closed form |
| Calendar.Clock.SetDateTime | src/tm_stm32f4_rtc.c:145-221 | accepts exactly valid dates of 2000 to 2099 with a weekday, and otherwise leaves the registers alone |
| Calendar.SettableRoundTrip | src/tm_stm32f4_rtc.c:167-184 | every date the clock accepts survives its time stamp |
| Calendar.BcdExact | src/tm_stm32f4_rtc.c:35 | decoding a BCD byte loses nothing if and only if its low digit is a digit |

## Left out

- Compaction.CompactionPreservesEntries: assumes that nothing deletes a copied attribute in the same commit (`MovesStand`), because the filter lets such a copy through; no caller commits that.
- Compaction.CompactionCount: the count a compaction keeps in memory is end - begin in any case; the lemma says when a later fetch agrees.
- PowerLoss.AppendIsAtomic: rests on `ChecksumSound`, an idealisation of the checksum, and on appends that begin at the end of the last commit.
- PowerLoss.CompactionIsAtomic: rests on `RewriteSound`; relocation to a third block and the retry after a bad block are not in it.
- Commit.Writer.CommitCrc: the padding bytes between checksum tags are left as they are and count as payload of the seal; the reading back of the commit afterwards is not modelled.
- TagChain.GetSlice: lookups under a mask without id bits, and the lookup of tags that have no id, are not modelled; the latter is `DirLog.NewestGlobal`.
- GlobalState.FileSystem.Mount: the bit that asks for a superblock rewrite, set while mounting an older version, is left out.
- GlobalState.FileSystem.RewriteCommit: the error returns between changing the disk and changing memory are left out.
- PowerLoss.AbandonedIsAtomic: rests on `ChecksumSound`, and on the byte behind what was written not reading as a tag.
- DiskCommit.CommitIsAtomic: commits that split, relocate or drop a pair, and device errors, are not in it.
- RenameOnDisk.RenameSurvivesPowerLoss: commits that split, relocate or drop a pair, and the orphan handling around replacing a directory, are not in it; a mount reads all pairs without device errors.
- CowFile.File.Write: inline files and their outlining, program errors and the relocation of a file's last block, and the error flag are left out; a buffer is no longer than the largest file.
- CowFile.File.Extend: blocks come from a list of blocks in no list of the file, which `FileSpace` shows the allocator to hand out; that list is not tied to the calls one by one, and nothing else allocates or frees meanwhile.
- CowFile.File.Seek: positions relative to the current one or the end are not modelled; the cached part is a parameter.
- BlockCache.Device.Prog: covers programs that follow each other in erased space, which is how littlefs programs; inline files, whose buffer is never flushed, are left out.
- BlockCache.Device.Read: offset plus size is not reduced modulo 2^32.
- Allocator.Allocator.Alloc: which blocks are live changes only between calls; the traversal is the sequence of blocks it reports.
- OpenHandles.Handle.Fix: the position of an open directory iterator, adjusted beside its id, is left out, and so is the committing handle, whose id its caller sets.
- Splitting.SplittingCompact: error returns other than running out of blocks, what decides on expanding the superblock (a parameter), and wear-levelling relocation are left out.
- Npw2.LowBitGivesCtz: that a & -a is the lowest set bit is taken for granted; so is the bit-parallel population count, which the build replaces by a built-in.
- Calendar.DateTime.GetUnixTimeStamp: months up to 13 only, beyond which the code reads outside its table; the branch for years before 1970 is left out, as no 8-bit year reaches it.
- BlockCache.Device.Cmp: the hint is at least the length compared, as in every call; a smaller one would wrap below zero.
- TailList.WalkTails: every pair on the list can be read; a failing fetch ends the walk with its own error. The 32-bit counters are unbounded here; they cannot overflow on fewer than 2^30 pairs.
- Calendar.Clock.SetDateTime: the registers are plain fields; subseconds, the string parser and the alarm functions are left out.
- Orphans, half-orphans and parents of relocated directories (`lfs_fs_deorphan`, `lfs_dir_orphaningcommit` beyond dropping a pair).
- Path lookup, name order and the name matching of a fetch (`lfs_dir_find`, `lfs_dir_find_match`).
- Truncation of files, user attributes, directory reading, formatting and the superblock's own fields.
- Migration from version 1, locking wrappers, logging and memory allocation.
- Flash chip, SPI, clock and interrupt drivers; the network code.
