# Verified model of the boot loader's stateful core

Dafny models, with proofs, of the parts of the 3DS boot loader that carry state. All of
them follow the code branch by branch; each module's heading names the source file.

- **FAT driver** (`Disk`, `Window`, `FatLayout`, `FatFormat`, `FatEntry`, `Chain`, `ChainOps`,
  `FileMap`, `File`, `FileRead`, `FileWrite`, `FileSeek`, `FileResize`, `FileExpand`,
  `FileShare`, `FileRun`, `Mount`, `FreeCount`). A stack of layers, each of whose methods call the
  layer below: a device of 512-byte sectors whose calls may fail at any time (failures are
  counted in a ghost field), a one-sector write-back window, the packed FAT entries, cluster
  chains, and files with a cursor and a dirty sector buffer. Every layer is tied to a simpler
  view: the logical disk, an array of numbers, a set of disjoint chains, a sequence of bytes.
- **Long names** (`Utf`, `Lfn`, `LfnRead`, `LfnKeep`, `LongName`, `NameTrip`): UTF-8 and
  UTF-16 conversion, directory entries, and the way from a path segment to a listing.
- **Configuration text** (`ConfigText`, `ConfigPrint`, `ConfigRun`, `Config`, `ConfigKeys`): a buffer
  edited in place and a table of slices into it, against a fresh parse of the text.
- **VRAM pool** (`MemSpans`, `MemPool`, `MemRun`): a first-fit allocator on a doubly
  linked list, against the set of free addresses, and its runs.
- **Two-core protocols** (`Pxi`, `PxiRun`, `Ipc`, `Launch`): state machines whose actors take
  turns in any order, and the requests they carry.
- **FIRM images and NAND protection** (`Firm`, `NandProt`): checks and copies in 32-bit
  arithmetic, and a write loop that must step around protected regions.
- **Bounded formatter** (`FmtNumber`, `FmtOut`, `FmtText`, `Fmt`, `FmtLaws`): what a format means,
  how much of it a limited buffer receives, and what each directive prints.

Conventions. Bytes, words and counters are integers with explicit bounds; wrap-around is
written out where the code's result depends on it. Shifts and masks are the divisions and
remainders they stand for. A device or allocation call that fails is a nondeterministic
choice counted in a ghost field, so "as long as no call fails" is a statement about that
count. Pointers into a buffer are indices.

`dafny verify dfyconfig.toml` checks the whole project.

Where the code and what is written about it disagree, the model follows the code:

- `f_getfree` is documented to count free clusters; its FAT16/FAT32 scan also counts the two
  reserved entries when they are zero (`ChainOps.GetFree`, `FreeCount.CountIt`).
- `f_expand`'s search carries its count across the wrap-around and stops where it began, so
  it may refuse although a run exists (`FileExpand.RefusedIff`, `FileExpand.RunMissed`), and
  may find a run split between both ends, which it then fails to link and leaves behind half
  linked (`FileExpand.FoundWraps`, `FileExpand.LeftBehind`).
- NAND protection depends on the order of the partition table: a write may take the sectors
  of a firmware partition that lies in front of sector 0x96 (`NandProt.GuardedIffSafe`, `NandProt.LowPartition`).
- A limited buffer need not receive the start of what `%#x` prints (`FmtText.PrefixIff`).
- An allocation of 0 bytes may leave two free blocks that touch, which no larger request can
  then use together (`MemSpans.EmptyCarve`, `MemSpans.CutRefuses`).
- The size of a boot image may be short of a section inside another (`Firm.HiddenEnd`).
- The UTF-8 decoder rejects only overlong forms of one-byte characters (`Utf.OverlongAccepted`).
- A name with U+FFFF does not survive in general (`LfnKeep.SpeltIsName`).
- A boot sector whose sizes wrap at 32 bits is accepted (`Mount.WrapAccepted`).
- A new configuration line is printed through a buffer size of 0x1000, so that a value that
  passes every length test against the file's size can be cut after 0xFFF characters of its
  line, while its slice is recorded in full length (`ConfigText.AddKeepsIndex`, `ConfigRun.LongPath`).
- Deleting a definition behind a text that is one end-of-line character takes that character
  along (`ConfigText.WholeLineIsCut`).
- An update of a configuration value that does not fit still reports success and records
  length 0 (`ConfigRun.Unfitting`, `ConfigRun.UnfittingExists`).

## Model

| member | source | states |
|---|---|---|
| Window.SyncWindow | thirdparty/fatfs/ff.c:1042-1062 | writing the window back never changes the logical disk (device overlaid by a dirty window) outside the second FAT; it can only fail when a device call does, and unless one does the second FAT goes on following the first; after a success the disk is the logical disk and, while mirrored, both FATs are equal |
| Window.MoveWindow | thirdparty/fatfs/ff.c:1064-1085 | a successful move leaves the window equal to the logical sector asked for; success or not, no logical sector outside the second FAT changes and a failed write-back keeps the dirty window |
| Window.FlushMirrors | thirdparty/fatfs/ff.c:1050-1057 | after a first-FAT sector and its copy are written no first-FAT sector differs from its second-FAT copy |
| FatLayout.EntryFits | thirdparty/fatfs/ff.c:3394-3403 | the driver's FAT size test puts every byte of every 12-, 16- and 32-bit entry inside the first FAT |
| FatFormat.EntryDigits | thirdparty/fatfs/ff.c:1149-1194 | an entry is the number in its cell, for every FAT type: the FAT is an array of cells of 3, 4 or 8 half-bytes, the lower half of a byte first, and the first 3, 4 or 7 of a cell are the digits of the entry, lowest first |
| FatLayout.PutIsArrayUpdate | thirdparty/fatfs/ff.c:1226-1275 | the byte stores of put_fat update one element of the FAT seen as an array of numbers: the entry becomes the value cut to 12, 16 or 28 bits and every other cluster keeps its value, shared bytes, sector straddling and FAT32's top four bits included |
| FatLayout.EocIsBeyondAllClusters | thirdparty/fatfs/ff.c:40-42 | the end-of-chain mark, cut to the entry width, reads back at or above the number of entries |
| FatLayout.TornStore12 | thirdparty/fatfs/ff.c:1239-1251 | when only the first of a 12-bit entry's two byte stores reaches the window every other entry still keeps its value |
| FatEntry.GetFat | thirdparty/fatfs/ff.c:1149-1194 | through the window, for all FAT types: the value is the entry of the FAT array, 1 for a number out of range, 0xFFFFFFFF only when a device call failed; nothing but the window moves |
| FatEntry.PutFat | thirdparty/fatfs/ff.c:1226-1275 | through the window: success means exactly one array element changed, to the cut value; an invalid number changes nothing; after a device failure every other entry is intact; whatever the outcome no half-byte of the first FAT changes but those of that entry, so the spare bits of a FAT32 cell stay |
| Chain.ChainDistinct | thirdparty/fatfs/ff.c:1440-1473 | a chain never revisits a cluster |
| Chain.ChainsUnique | thirdparty/fatfs/ff.c:1416-1602 | a FAT has at most one reading as disjoint, covering, terminated chains |
| Chain.ApplyKeepsChains | thirdparty/fatfs/ff.c:1416-1602 | appending a free cluster, starting a chain, shortening a chain, removing one and linking a free run each turn a FAT of disjoint acyclic chains into one whose chains differ in exactly that chain |
| Chain.ApplyCounts | thirdparty/fatfs/ff.c:1593-1596 | each operation changes the number of free clusters by exactly what it took or returned |
| Chain.RunKeepsChains | thirdparty/fatfs/ff.c:1416-1602 | over any sequence of these operations the FAT stays a set of disjoint, terminated, covering chains and free clusters are conserved |
| Chain.FreedIsZeroed | thirdparty/fatfs/ff.c:1440-1473 | on a chain, remove_chain's walk zeroes exactly the chain's clusters (the walk itself is defined on every FAT, cyclic and cross-linked ones included, and ends because each step zeroes a used entry) |
| Chain.CountZero | thirdparty/fatfs/ff.c:1573-1586 | the free count is zero exactly when no cluster is free |
| ChainOps.CreateChain | thirdparty/fatfs/ff.c:1511-1603 | takes the cluster behind the given tail when that is free, else the first free one behind the cluster taken last, or behind the tail when none is remembered, counted round the end of the FAT (for a new chain: behind the cluster taken last, or from the start), marks it the end, links it from the tail and remembers it, changing nothing else; keeps a right free count right; answers 0 only when no cluster is free, provided the remembered count is right or unknown |
| ChainOps.CreatedIsApply | thirdparty/fatfs/ff.c:1511-1603 | a create_chain that took a cluster is one of the chain operations: a new chain, or an append to the chain that ends with the given cluster |
| ChainOps.DroppedIsApply | thirdparty/fatfs/ff.c:1416-1507 | removing a whole chain by its head is one of the chain operations |
| ChainOps.ShortenedIsApply | thirdparty/fatfs/ff.c:1416-1507 | removing the rest of a chain behind a cluster is one of the chain operations |
| ChainOps.RemoveChain | thirdparty/fatfs/ff.c:1416-1507 | on every FAT it terminates and leaves exactly the FAT of the freeing walk, with the previous cluster marked as the end first; it reports an internal error exactly when the arguments are out of range or the walk meets the value 1; a right free count stays right; after a device failure at least every entry that the walk would not have cleared is intact |
| ChainOps.GetFree | thirdparty/fatfs/ff.c:4634-4713 | a remembered count is returned as it is; a scan returns the number of free clusters, except that on FAT16 and FAT32 the two reserved entries are counted too, so there it is right exactly when both are nonzero |
| Chain.CountZerosIsCountFree | thirdparty/fatfs/ff.c:4655-4664 | counting zero entries cluster by cluster gives the number of free clusters |
| FreeCount.CountIt | thirdparty/fatfs/ff.c:4634-4713 | at a concrete boot sector and device image: the volume mounts, its reserved entries are zero, and f_getfree answers two clusters more than are free |
| FileMap.SectorOfInjective | thirdparty/fatfs/ff.c:1132-1140 | two positions in the data area share a sector only if they are the same sector of the same cluster |
| FileMap.SecsContiguous | thirdparty/fatfs/ff.c:3783-3787 | inside one cluster, file order is disk order, so a multi-sector transfer moves the right sectors |
| FileMap.SpliceTwice | thirdparty/fatfs/ff.c:3861-3862 | writing two adjacent pieces one after the other is writing their concatenation |
| FileRead.Read | thirdparty/fatfs/ff.c:3737-3827 | with successful device calls exactly min(count, rest) bytes arrive and they are the file's bytes from the cursor on, pending buffer included, for any mix of direct transfers, partial sectors and cluster crossings; the rest of the caller's buffer, the file and the FAT are unchanged, and whatever the outcome no sector outside the FATs changes but the file's own |
| FileRead.ReadDirect | thirdparty/fatfs/ff.c:3788-3798 | a direct transfer delivers the file's sectors even when one of them is still only in the file's dirty buffer |
| FileRead.Flush | thirdparty/fatfs/ff.c:3806-3809 | writing the dirty buffer back touches its own sector alone and changes none of the file's bytes |
| FileWrite.Follow | thirdparty/fatfs/ff.c:3865-3886 | stepping to the next cluster of a written file either follows its chain or extends it by one cluster that was free, and keeps the file's bytes; whatever the outcome the entries of all other clusters in use and all sectors outside the FATs stay |
| FileWrite.WriteDirect | thirdparty/fatfs/ff.c:3898-3918 | a direct write changes exactly the sectors written, and the file's own buffer is refreshed when it showed one of them |
| FileWrite.WritePart | thirdparty/fatfs/ff.c:3934-3942 | a partial write changes exactly the bytes given, in the buffer, which stays pending |
| FileWrite.StretchedTwice | thirdparty/fatfs/ff.c:3861-3944 | growing a chain in steps is growing it: earlier clusters, other FAT entries and a right free count are kept across the whole loop |
| FileWrite.Write | thirdparty/fatfs/ff.c:3837-3949 | the bytes written replace or extend exactly that slice of the file and the cursor ends behind them; the chain only grows, by clusters that were free and by the one behind its end wherever that is, and a FAT that was a set of chains stays one in which only this chain differs; whatever the outcome no sector outside the FATs but the file's own and no entry of another cluster in use changes; fewer bytes than asked for are written only at the 4 GiB limit or when no cluster is free |
| FileWrite.GrowsOn | thirdparty/fatfs/ff.c:1562-1571 | a chain that grows where the clusters behind its end are free continues with exactly those, in one piece |
| FileWrite.InPlaceTwice | thirdparty/fatfs/ff.c:3861-3944 | growing in place is kept across the steps of the loop, although the FAT changes in between |
| FileWrite.GainedAreFree | thirdparty/fatfs/ff.c:3861-3944 | every cluster a chain gained in the loop was free before |
| FileWrite.StretchedKeepsChains | thirdparty/fatfs/ff.c:3861-3944 | growing one chain keeps the FAT a set of disjoint, covering, terminated chains: all others stay and this one is replaced by the longer one |
| FileShare.OtherFileStays | thirdparty/fatfs/ff.c:3837-3949 | whatever a write or seek did, another chain of the volume has the same clusters and its sectors hold what they held |
| FileShare.WriteBeside | thirdparty/fatfs/ff.c:3837-3949 | a write, successful or not, leaves alone the clusters and bytes of another open file whose buffer is empty or shows one of its own sectors, and after a success that file is consistent and can go on |
| FileShare.SeekBeside | thirdparty/fatfs/ff.c:4254-4407 | the same for a seek that stretches its file |
| FileShare.PlaceStays | thirdparty/fatfs/ff.c:4723-4764 | the same for a chain that is cut or replaced |
| FileShare.TruncateBeside | thirdparty/fatfs/ff.c:4723-4764 | the same for a truncation; after a success the clusters it freed may be taken by the other file |
| FileShare.ExpandBeside | thirdparty/fatfs/ff.c:5370-5447 | the same for an allocation, after which the other file is consistent whatever the outcome |
| FileRun.PlacedAfter | thirdparty/fatfs/ff.c:1416-1602 | when one file's chain is replaced by one that starts where it did or with a free cluster, the map from files to chains follows: the FAT is the chains of the files and those of all others, each another one |
| FileRun.Perform | thirdparty/fatfs/ff.c:3737-5447 | a read, write, seek, truncation or allocation on one of any number of files of a volume leaves every other file's clusters, buffer, cursor and bytes and the contents of all files that are not open; after a success or a refusal the FAT is again the chains of these files beside the others, and the called file's bytes, cursor and result are what such a call makes of them |
| FileRun.CallAll | thirdparty/fatfs/ff.c:3737-5447 | over any sequence of such calls on the files the FAT stays the chains of these files beside an unchanged set of others, and each file shows what the calls made of it; a failing call ends the run with the other files intact |
| FileRun.Alone | thirdparty/fatfs/ff.c:3737-5447 | in such a run the bytes, the cursor and every byte read of a file are those of a run of its own calls alone |
| FileRun.OpenAnother | thirdparty/fatfs/ff.c:3684-3699 | a file that is opened on a chain of the volume joins the files of such a run |
| FileSeek.ClusterOfByte | thirdparty/fatfs/ff.c:4340-4342 | dividing a byte position by the cluster size and dividing its sector by the sectors per cluster name the same cluster |
| FileSeek.SeekStart | thirdparty/fatfs/ff.c:4338-4356 | starting from the remembered cluster or from the first one, which is created from a free cluster when there is none, both start at the cluster that the chain has at that place |
| FileSeek.SeekWalk | thirdparty/fatfs/ff.c:4357-4378 | the walk ends in the chain's cluster for the target, the chain having grown by free clusters only, or at the end of the last cluster when the volume is full |
| FileSeek.Lseek | thirdparty/fatfs/ff.c:4254-4407 | the cursor lands on the offset, clipped to the size when read-only, extended with clusters that were free when writable, or at the end of the chain on a full volume; clust is the chain's cluster of byte fptr-1 whichever way the walk began; the bytes the file had stay, the file is marked as changed exactly when its size grew, other chains stay chains, and whatever the outcome no sector outside the FATs but the file's own changes |
| FileResize.CutIsApply | thirdparty/fatfs/ff.c:4736-4748 | truncating a chain is removing it or shortening it, one of the operations on the set of chains |
| FileResize.Truncate | thirdparty/fatfs/ff.c:4723-4764 | the file keeps exactly its bytes before the cursor; the chain keeps exactly the clusters up to the cursor and the freed ones are zero; a right free count stays right; whatever the outcome no sector outside the FATs changes but those the file had, and no entry of another cluster in use |
| FileExpand.FindRun | thirdparty/fatfs/ff.c:5409-5420 | the search succeeds exactly when the clusters from the start point round to it again hold a free run of that length, counted cyclically, and then finds the first one |
| FileExpand.RefusedIff | thirdparty/fatfs/ff.c:5409-5420 | it refuses exactly when every free run of the FAT straddles the start point and none in that turn straddles the end of the FAT |
| FileExpand.RunMissed | thirdparty/fatfs/ff.c:5409-5420 | so it can refuse although there is a run: a FAT, a start point and a length |
| FileExpand.FoundWraps | thirdparty/fatfs/ff.c:5409-5420 | the run found wraps exactly when it straddles the end of the FAT |
| FileExpand.LinkRun | thirdparty/fatfs/ff.c:5421-5428 | linking stops with an internal error exactly at the end of the FAT, with the clusters up to there linked; a device failure leaves the links made before it |
| FileExpand.LeftBehind | thirdparty/fatfs/ff.c:5421-5428 | a run that wraps leaves a chain of its clusters up to the end of the FAT that belongs to no file, and the remembered free count too high by their number |
| FileExpand.ExpandedIsApply | thirdparty/fatfs/ff.c:5421-5428 | a successful allocation is one of the operations on the set of chains |
| FileExpand.ClustersFor | thirdparty/fatfs/ff.c:5387-5388 | the number of clusters is the least that holds the size |
| FileExpand.Expand | thirdparty/fatfs/ff.c:5370-5447 | a successful allocation gives the file the first run found, one contiguous chain of clusters that were all free, and changes no other entry; a successful suggestion changes no entry; it refuses exactly when the search finds no run; an internal error means an entry of value 1 in the way, or a run that wraps, with what is left linked and the free count not corrected; a right free count stays right after a success; whatever the outcome no entry in use and no sector outside the FATs changes |
| FileExpand.SuggestionIsTaken | thirdparty/fatfs/ff.c:5428-5435 | what a successful suggestion is for: a chain that create_chain then grows from nothing lies in the suggested run cluster by cluster, even where that run goes over the end of the FAT |
| Mount.ReadBootSector | thirdparty/fatfs/ff.c:3354-3403 | in wrapping 32-bit arithmetic: the volume accepted has ordered regions inside the volume, room in the FAT for every cluster and a data area that fits, exactly when no 32-bit sum wraps; and then it is accepted exactly when the boot sector is supported by the FAT rules in plain arithmetic, with the layout those describe; all of it for whatever values the named fields hold as little-endian bytes at their offsets |
| Mount.CarriedIsRead | thirdparty/fatfs/ff.c:3354-3374 | a sector that holds these values in the bytes of the named fields is read as them, either sector count from its 16-bit field, or from the 32-bit one when that is zero |
| Mount.MountCard | thirdparty/fatfs/ff.c:3354-3403 | a FAT32 boot sector, given byte by byte with different values in all 32-bit fields, mounts with exactly this layout and root cluster |
| Mount.NeedIsLastEntry | thirdparty/fatfs/ff.c:3394-3403 | the size the driver demands of a FAT is where the last entry ends |
| Mount.AcceptsIsSupported | thirdparty/fatfs/ff.c:3354-3403 | where nothing wraps the driver's tests decide the same as the rules in unbounded numbers |
| Mount.WrapAccepted | thirdparty/fatfs/ff.c:3357-3382 | a 512-byte boot sector whose FAT size wraps when doubled is accepted although its layout is broken: the data area starts inside the first FAT |
| Mount.ByteTest | thirdparty/fatfs/ff.c:3364-3365 | a byte shares no bit with its predecessor exactly when it is a power of two, so the bit test accepts exactly the eight cluster sizes |
| Mount.OrderedIffNoWrap | thirdparty/fatfs/ff.c:3376-3391 | the wrapped region bounds are in order exactly when nothing wrapped |
| Mount.RegionsInOrder | thirdparty/fatfs/ff.c:3388-3403 | reserved, FAT, root directory and data regions follow each other inside the volume, and all FAT bytes of valid clusters are in the first FAT |
| Mount.ClusterSector | thirdparty/fatfs/ff.c:1132-1140 | on a good layout clst2sect answers 0 exactly for invalid numbers and otherwise a cluster-sized range inside the data area, without wrapping |
| Mount.ClustersDisjoint | thirdparty/fatfs/ff.c:1132-1140 | distinct clusters have disjoint sector ranges |
| Utf.TcharToUni | thirdparty/fatfs/ff.c:745-814 | the decoder answers a character exactly when the bytes at the pointer are a form of one, possibly an overlong one, and never reads past the terminator |
| Utf.PutUtf | thirdparty/fatfs/ff.c:818-899 | stores the shortest UTF-8 form of a character (RFC 3629, section 3) within the room given; says 0, storing nothing, exactly when the word is no character or its form does not fit |
| Utf.ShortestIsForm | thirdparty/fatfs/ff.c:762-786 | every character's shortest form decodes to that character |
| Utf.FormIsShortest | thirdparty/fatfs/ff.c:786-786 | no accepted form is shorter than the shortest form, and one of that length is it |
| Utf.OverlongAccepted | thirdparty/fatfs/ff.c:786-786 | a three-byte form of a two-byte character is accepted |
| Utf.FormLengths | thirdparty/fatfs/ff.c:762-786 | exactly which lengths of form are accepted for a character: the shortest and every longer one up to four bytes, but one byte only for a character of one byte |
| Utf.PairTest | thirdparty/fatfs/ff.c:861-864 | the wrapping subtractions accept exactly the surrogate pairs and recombine them (RFC 2781, section 2) |
| Utf.OneReading | thirdparty/fatfs/ff.c:762-786 | a stretch of bytes has one reading as characters |
| Utf.Utf16Prefix | thirdparty/fatfs/ff.c:2671-2682 | text in UTF-16 starts with the characters read so far whatever follows |
| Lfn.PutLfn | thirdparty/fatfs/ff.c:1945-1970 | part n of a name fills one 32-byte entry: 13 units, terminator, filler, its number with the last mark, attribute, checksum |
| Lfn.StoreName | thirdparty/fatfs/ff.c:2553-2567 | the parts of a name go into consecutive entries, last part first, and nothing else is touched |
| Lfn.NameBytes | thirdparty/fatfs/ff.c:1945-1970 | where the bytes of a stored name are: each unit low byte first, in the entry and at the offset its position says |
| Lfn.PickLfn | thirdparty/fatfs/ff.c:1907-1936 | accepts an entry exactly when its units fit the buffer and only filler follows a zero, and then puts them in their place |
| LfnRead.CollectName | thirdparty/fatfs/ff.c:2343-2386 | finds the first short-name entry; a long name is reported exactly when the entries before it form a complete run with matching numbers and checksum, and the buffer then holds its units |
| LfnRead.GatheredIsRun | thirdparty/fatfs/ff.c:2371-2384 | the driver is in the middle of a name only behind consecutive acceptable parts with descending numbers and one checksum, the first of them marked as the last part and none of them deleted, a dot entry or a label |
| LfnRead.RunIsGathered | thirdparty/fatfs/ff.c:2371-2384 | and behind every such run |
| LfnRead.SumTellsOne | thirdparty/fatfs/ff.c:2040-2051 | short names that differ in one character have different checksums |
| LfnRead.SumOfReadme | thirdparty/fatfs/ff.c:2040-2051 | the checksum of one short name |
| LfnKeep.StoredIsSpelt | thirdparty/fatfs/ff.c:1945-1970 | a stored name is collected as the text its entries spell, or not at all when that is too long for the buffer |
| LfnKeep.SpeltIsName | thirdparty/fatfs/ff.c:1961-1968 | the entries spell the name itself exactly when the value 0xFFFF occurs nowhere in it except at the end of a full last part |
| LongName.CreateLfn | thirdparty/fatfs/ff.c:2843-2874 | a segment is accepted exactly when it reads as legal characters of at most 255 units up to a separator or the end and something is left after trailing dots and spaces; the buffer then holds just that |
| LongName.RefusedForGood | thirdparty/fatfs/ff.c:2843-2874 | a refused segment has no other acceptable reading |
| LongName.FileInfo | thirdparty/fatfs/ff.c:2671-2685 | the listed name is the UTF-8 text of the collected units, or empty exactly when they are broken or do not fit |
| NameTrip.StoreThenList | thirdparty/fatfs/ff.c:2553-2567 | end to end: for every accepted segment the listed name equals the segment exactly when the segment is in shortest form, ends in no dot or space, has no misplaced 0xFFFF and is at most 255 bytes |
| NameTrip.ListedIsDurable | thirdparty/fatfs/ff.c:2671-2685 | only such a segment is listed as itself |
| NameTrip.DurableIsListed | thirdparty/fatfs/ff.c:2671-2685 | every such segment is listed as itself |
| ConfigKeys.KeyStringsAreGood | source/arm11/config.c:69-103 | the real keys are distinct and free of spaces, equals signs and line ends |
| Config.ConfigFile.FindNextDefinition | source/arm11/config.c:413-484 | the next definition in the buffer is the next one of the text: longest matching key, value behind the equals sign and spaces |
| Config.ConfigFile.ParseConfigFile | source/arm11/config.c:508-558 | the table becomes an index of the text: for every key the slice of its first definition |
| Config.ConfigFile.WriteUpdateDefinitionText | source/arm11/config.c:605-651 | in place: the text becomes the text with that value replaced and every later slice moves along; or nothing changes when it does not fit |
| Config.ConfigFile.WriteAddDefinitionText | source/arm11/config.c:561-603 | the text gains a terminator where its last line has none and the line with the key and the value as far as the formatter prints it, its first 0xFFF characters, and the value starts where that says; or nothing changes when the whole line does not fit |
| ConfigPrint.PrintedIsRendered | source/arm11/fmt.c:383-390 | what the formatter renders for that line, in the room ee_sprintf gives it, is those first 0xFFF characters |
| ConfigText.LineIsWhole | source/arm11/config.c:599-600 | the text gains the whole terminated line exactly when key, equals sign, value and line end together are no longer than that |
| Config.ConfigFile.RemoveDefinition | source/arm11/config.c:667-720 | for any slice the code does not stop at: everything from behind the last line end in front of it to behind its own line end is cut, and every later slice moves |
| ConfigRun.CutOutIsStep | source/arm11/config.c:667-720 | for a right slice that is the line of the definition, with the neighbouring empty line the code takes along |
| Config.ConfigFile.WriteAttributeText | source/arm11/config.c:653-665 | the table still indexes the text afterwards exactly when the value reads back as written and, on a new line, is printed whole; or when it did not fit and there was nothing to lose |
| Config.ConfigFile.SetKeyData | source/arm11/config.c:1101-1126 | the same through the public call, for any table whose slices lie in the text: its result is true exactly when the file is loaded, the key exists and there is a value, even when the text did not fit |
| Config.ConfigFile.DeleteKey | source/arm11/config.c:1143-1168 | succeeds exactly for a nonempty value of a loaded file and cuts the line its slice lies in; when that slice is right, whatever the others are, the definition goes, and a table that indexed the text still does exactly when the key was defined once |
| ConfigText.UpdateKeepsIndex | source/arm11/config.c:605-651 | replacing a value keeps the index exactly when the value has no line end and no leading space |
| ConfigText.AddKeepsIndex | source/arm11/config.c:561-603 | adding a definition keeps the index exactly when the value has no line end and no leading space and key, equals sign and value together are at most 0xFFF characters |
| ConfigText.RemoveKeepsIndex | source/arm11/config.c:667-720 | cutting a definition keeps the index exactly when its key is not defined again further down |
| ConfigText.UpdateSetsValue | source/arm11/config.c:605-651 | a fresh parse then finds the new value for the key and the old one for every other key |
| ConfigText.AddSetsValue | source/arm11/config.c:561-603 | for such a value a fresh parse then finds the added value and every other key's old one |
| ConfigText.RemoveKeepsValues | source/arm11/config.c:667-720 | a fresh parse then finds every other key's old value |
| ConfigText.SampleText | source/arm11/config.c:413-484 | a text of three definitions and what a parse finds in it: every end-of-line character ends a line, the longer key is meant, and the first definition counts |
| ConfigText.WholeLineIsCut | source/arm11/config.c:667-720 | a line that ends with CR LF is cut with both characters and nothing else, unless the text in front of it is a single end-of-line character, which goes too |
| ConfigText.AddThenCut | source/arm11/config.c:561-720 | cutting the line that was just added gives the terminated text back, but for that one text |
| ConfigRun.SetKeepsIndex | source/arm11/config.c:1101-1126 | a fitting set keeps the index exactly for values that read back and, for a key that was missing, are printed whole |
| ConfigRun.LongPath | source/arm11/config.c:653-665 | a boot path of 4110 characters set in an empty file passes every length test, is cut in the text, and is recorded with a slice that ends behind the text |
| ConfigRun.DeleteKeepsIndex | source/arm11/config.c:1143-1168 | a delete keeps it exactly for keys defined once |
| ConfigRun.SetThenDelete | source/arm11/config.c:1101-1168 | setting a missing key and deleting it again gives text and table back |
| ConfigRun.Unfitting | source/arm11/config.c:612-613 | what an update that does not fit does to the index: it records length 0, which is right only for an empty value |
| ConfigRun.UnfittingExists | source/arm11/config.c:605-651 | for every key a text and two values, of which the first fits and the second does not and breaks the index |
| ConfigRun.StepKeepsOk | source/arm11/config.c:1101-1168 | one set or delete keeps the table what a fresh parse builds exactly when the value set reads back and, for a key the text did not define, is printed whole |
| ConfigRun.EditsKeepOk | source/arm11/config.c:1101-1168 | after any sequence of deletes and of such sets the table is what a fresh parse builds, no key is defined twice, and the text holds exactly the map the edits describe |
| MemPool.Pool.InsertBefore | source/arm11/allocator/mem_pool.h:52-59 | the doubly linked list gains the node in front of the given one, ends included |
| MemPool.Pool.InsertAfter | source/arm11/allocator/mem_pool.h:61-68 | the same behind the given one |
| MemPool.Pool.DelBlock | source/arm11/allocator/mem_pool.h:43-50 | the list loses exactly that node |
| MemPool.Pool.CoalesceRight | source/arm11/allocator/mem_pool.cpp:19-31 | a block takes over its successors as long as they touch |
| MemPool.Pool.Allocate | source/arm11/allocator/mem_pool.cpp:33-95 | from any list without an address twice: on success exactly the chunk, aligned and no smaller than the padded size, leaves the free set (the block's tail with it when its node cannot be created); it fails only for a bad alignment, on padding overflow or when no block fits; from a coalesced list the chunk is the lowest aligned free range, a refusal means there is none, and the list stays linked, sorted, disjoint and coalesced; a size of 0 gets an empty chunk at the first aligned address and cuts the block there |
| MemPool.Pool.Deallocate | source/arm11/allocator/mem_pool.cpp:97-138 | exactly the chunk's addresses, none for an empty one, become free again and no address is free twice; a sorted, disjoint and coalesced list stays one unless the chunk is empty; when no node can be created nothing changes |
| MemPool.Pool.GetFreeSpace | source/arm11/allocator/mem_pool.cpp:148-154 | the sum of the block sizes in 32-bit arithmetic |
| MemSpans.FirstFitIsLowest | source/arm11/allocator/mem_pool.cpp:57-69 | the first block that fits holds the lowest aligned free range |
| MemSpans.NoFit | source/arm11/allocator/mem_pool.cpp:57-69 | when no block fits there is no aligned free range anywhere |
| MemSpans.PaddedIsLeast | source/arm11/allocator/mem_pool.cpp:43-54 | rounding by mask gives the least multiple of the unit that holds the size |
| MemPool.UnitAdds | source/arm11/allocator/mem_pool.cpp:43-43 | the unit of an alignment is a power of two with that exponent: 2 for 1, and the unit of a sum is the product |
| MemPool.OverflowIff | source/arm11/allocator/mem_pool.cpp:46-54 | a size is refused for overflow exactly when its padded size has no 32-bit value |
| MemSpans.AlignUpIsLeast | source/arm11/allocator/mem_pool.cpp:59-63 | the aligned address is the least multiple of the unit in the block |
| MemSpans.EmptyCarve | source/arm11/allocator/mem_pool.cpp:57-92 | cutting a block at an address without taking anything keeps the free addresses, and leaves the list coalesced exactly when the address is at an end of the block |
| MemSpans.CutRefuses | source/arm11/allocator/mem_pool.cpp:57-69 | such a cut can make a later request fail although an aligned range for it is free: a list of one block |
| MemSpans.CutHeals | source/arm11/allocator/mem_pool.cpp:97-138 | the cut is gone when the block in front of it has been taken as a whole and comes back |
| MemSpans.SameAddresses | source/arm11/allocator/mem_pool.cpp:97-138 | a sorted, coalesced list is determined by the addresses it covers, so the order of frees cannot matter |
| MemRun.RunKeepsInv | source/arm11/allocator/mem_pool.cpp:33-138 | over every run of allocations, of any size, and frees of live chunks, also those whose node cannot be created, live chunks, lost chunks and free blocks partition the pool |
| MemRun.RunStaysCanonical | source/arm11/allocator/mem_pool.cpp:33-138 | the list stays sorted, disjoint and coalesced over every run without empty chunks |
| MemRun.LiveChunksApart | source/arm11/allocator/mem_pool.cpp:33-138 | over every such run, empty requests included, live chunks overlap neither each other nor the free list nor a lost chunk |
| MemRun.LostForGood | source/arm11/allocator/mem_pool.cpp:97-138 | the chunks lost are exactly those whose node could not be created, and none comes back |
| MemRun.RunRestoresPool | source/arm11/allocator/mem_pool.cpp:97-138 | when no chunk with bytes is live any more, in whatever order they came back, the free list is the one original block exactly when it is coalesced, which it always is without empty chunks, and every node for bytes could be created |
| MemRun.TotalCounts | source/arm11/allocator/mem_pool.cpp:148-154 | the sum of the block sizes is the number of free addresses, however the list is cut |
| MemRun.RunConserves | source/arm11/allocator/mem_pool.cpp:33-154 | over every run free space drops by what it takes and rises by what it gives back; a lost chunk stays taken |
| MemRun.Serve | source/arm11/allocator/mem_pool.cpp:33-138 | what the linked list goes through under any client that asks for any size and frees only what it holds is such a run, and without a failed node no chunk is lost |
| MemRun.TakeThenGive | source/arm11/allocator/mem_pool.cpp:33-138 | giving back what was just taken restores the list |
| Pxi.MainKeepsInv | source/hardware/pxi.c:105-144 | a step of the caller keeps the protocol invariant |
| Pxi.InterruptKeepsInv | source/hardware/pxi.c:79-87 | a step of the caller's interrupt handler keeps it |
| Pxi.ServerKeepsInv | source/hardware/pxi.c:89-103 | a step of the server keeps it |
| PxiRun.CallsAreCorrect | source/hardware/pxi.c:79-144 | in every interleaving the server sees exactly the calls made so far with their parameters, the j-th result is the server's answer to the j-th call, never a stale one, nobody panics, and both FIFOs are empty between calls |
| PxiRun.NeverStuck | source/hardware/pxi.c:79-144 | with two words of FIFO some actor can always move until all calls are done |
| PxiRun.StepCounts | source/hardware/pxi.c:79-144 | every step reduces the work left by one |
| PxiRun.RunsFinish | source/hardware/pxi.c:79-144 | so every run has the same bounded number of steps and ends with every call answered and everything quiet |
| PxiRun.SmallGetsStuck | source/hardware/pxi.c:100-102 | with less than two words of FIFO a run gets stuck with the first call unanswered |
| PxiRun.DepthTwoIsNeeded | source/hardware/pxi.c:79-144 | all maximal runs finish exactly when the FIFOs hold two words |
| Ipc.AnnouncedWords | include/ipc_handler.h:24-32 | a command word made of an identifier and three counts announces two words for every buffer and one for every parameter |
| Ipc.FlagIsId | include/ipc_handler.h:25-32 | identifiers below 128 leave the response flag clear, and the flagged word is the one with 128 added to the identifier |
| Ipc.PackedIsGood | source/arm9/ipc_handler.c:32-38 | a request within the limits makes a call the protocol takes, from which the server reads back its identifier, both words of every buffer and every parameter |
| Ipc.RequestsAreServed | source/hardware/pxi.c:79-144 | in every interleaving the server has been asked exactly the requests made so far, buffer for buffer and parameter for parameter, and the j-th result answers the j-th request |
| Ipc.RequestsFinish | source/hardware/pxi.c:79-144 | with two words of FIFO every run that cannot go on has served them all |
| Launch.HandshakeIsSafe | source/arm9/firm.c:123-183 | in every interleaving of both cores, the copy engine and the launched code: nothing is copied before ARM11 posted from its stub, ARM11 runs new code only after every section is copied and at exactly the nonzero entry point, and ARM9 jumps only after ARM11 read the entry |
| Launch.NeverStuck | source/arm9/firm.c:123-183 | with an ARM11 entry point somebody can always move until both cores run |
| Launch.WaitsForFallback | source/arm11/firm.c:43-45 | without one, ARM11 moves on exactly when the launched code stores a fallback entry |
| Launch.RunsFinish | source/arm9/firm.c:123-183 | every run is bounded and one that cannot go on has launched both cores with every section copied |
| Firm.CheckImage | source/arm9/firm.c:237-298 | the checks, in 32-bit arithmetic and in the code's order, give the first error there is, or 0 for an acceptable image |
| Firm.AcceptedIff | source/arm9/firm.c:237-298 | an image is accepted exactly when it is longer than its header, has the magic and an ARM9 entry point, and every section with bytes has the right hash, lies in the image behind the header, up to its very end, and goes to one of the places allowed |
| Firm.RefusedBecause | source/arm9/firm.c:237-298 | what each result means: the header tests first, then the first section that is not so, and which of its tests fails |
| Firm.BootPlaces | source/arm9/firm.c:45-62 | the address ranges a section may go to for booting |
| Firm.InstallPlaces | source/arm9/firm.c:64-81 | and for installing |
| Firm.NoSectionError | source/arm9/firm.c:246-298 | no section is reported exactly when every one passes |
| Firm.AcceptedIsSafe | source/arm9/firm.c:45-62 | in an accepted boot image every section's source lies in the loaded image behind the header and its destination in one whitelist range, clear of the image buffer, both launch stubs and the arguments |
| Firm.InstallMayOverlap | source/arm9/firm.c:64-81 | an image that passes every check for installing and whose section lands on the image buffer; for booting it is refused |
| Firm.CpuCopy | source/arm9/firm.c:155-164 | the four-word loop copies the size rounded up to four words |
| Firm.CpuBytesFit | source/arm9/firm.c:158-164 | that is the section exactly when its size is a multiple of 16, and stays inside it exactly when at most three bytes are odd |
| Firm.CopySections | source/arm9/firm.c:137-169 | with disjoint destinations, and CPU-copied sizes that leave at most three odd bytes, every destination ends up equal to its section, up to the odd bytes the copies leave out, and no byte of memory outside the destinations changes, whatever order the copy engine works in |
| Firm.MovedWhole | source/arm9/firm.c:137-169 | a section arrives whole exactly when its size is a multiple of 4 for the copy engine, of 16 for the CPU |
| Firm.LaunchDataSurvives | source/arm9/firm.c:137-169 | no destination of an accepted, disjoint image touches the image buffer, either stub or the arguments, so the copies leave those unchanged |
| Firm.FirmSize | source/arm9/firm.c:88-120 | the size is the furthest end of the sections that start behind every later one, at least the header; refused exactly when one of those is too big; it is the furthest end of all sections exactly when each of the others ends inside the header or in front of the end of one of those |
| Firm.SeparateReach | source/arm9/firm.c:88-120 | sections that share no byte of the image meet that condition in any order |
| Firm.HiddenEnd | source/arm9/firm.c:88-120 | a section inside an earlier one does not: a concrete header |
| NandProt.Protection.GetNandProtRegion | source/arm9/fs.c:76-99 | the first region in table order that the range meets; none for an empty or wrapping range |
| NandProt.Protection.WriteFromBuffer | source/arm9/fs.c:461-523 | for any table the sectors the loop skips keep their contents and on success the others hold their parts of the buffer; with a guarded table those skipped are exactly the protected ones of the range; it fails exactly when a device call does, and always ends |
| NandProt.WritesRange | source/arm9/fs.c:481-514 | the loop writes nothing outside the range and, for any table, every unprotected sector in it |
| NandProt.GuardedIffSafe | source/arm9/fs.c:461-514 | no write that a 32-bit byte offset and size can name alters a protected sector exactly when no region in the table comes before another one that covers a sector in front of it, within reach of one such write, which no earlier region covers |
| NandProt.InReachIff | source/arm9/fs.c:472-473 | two sectors are within reach exactly when some such write goes over both |
| NandProt.GuardedWrites | source/arm9/fs.c:481-514 | with such a table the loop writes exactly the unprotected sectors of the range |
| NandProt.Protection.SetNandProtection | source/arm9/fs.c:813-871 | switches protection on and off and builds the table from the firmware partitions of the eight slots, in 32-bit arithmetic |
| NandProt.BuiltCovers | source/arm9/fs.c:834-863 | unless a sum wraps, sector 0, sector 0x96 and every firmware partition are protected, merged or not |
| NandProt.BuiltIsExact | source/arm9/fs.c:834-863 | for partitions that share no sector, in any order, nothing wraps and nothing else is protected |
| NandProt.PartitionsSafeIffSorted | source/arm9/fs.c:813-871 | such partitions, sector 0 and sector 0x96 are safe from every such write exactly when the table built from them is sorted, but for pairs out of reach of one write |
| NandProt.NearIsSorted | source/arm9/fs.c:813-871 | which is sorted outright when all regions start below sector 0x7FFFFF |
| NandProt.BuiltIsSorted | source/arm9/fs.c:834-863 | ascending firmware partitions from 0x96 on give a sorted table |
| NandProt.LowPartition | source/arm9/fs.c:834-863 | a firmware partition at sector 0x10 gives a table that is not: a write from sector 1 on writes over it |
| NandProt.OverwriteLow | source/arm9/fs.c:461-523 | the same through both calls: with protection switched on for that partition a successful write replaces its first sector |
| FmtNumber.DigitsDenote | source/arm11/fmt.c:123-131 | the digits denote the number, read back in the same base |
| FmtNumber.FitsScratch | source/arm11/fmt.c:114-131 | every 64-bit number's digits fit the 20-character scratch buffer |
| FmtNumber.NumberReadsBack | source/arm11/fmt.c:87-180 | a formatted number, whatever its width, precision, flags, sign and base, scans back as the number |
| FmtNumber.FieldWidth | source/arm11/fmt.c:133-176 | its length is the field width or, if larger, sign, prefix and the larger of precision and digits |
| FmtOut.ProcessNumber | source/arm11/fmt.c:87-180 | writes exactly as much of that text as fits, except that "0x" is written whole or ends the number |
| FmtText.PrefixIff | source/arm11/fmt.c:149-154 | for every list of pieces and every room the bounded output is the start of the full text exactly when, should the room end inside or right behind the "0x" of a number, the pieces behind it happen to supply the missing characters |
| FmtText.HashNotPrefix | source/arm11/fmt.c:149-154 | with `#` bounded output need not be a prefix: "%#xZ" of 1 in three bytes gives "Z" |
| FmtText.NoHashIsPlain | source/arm11/fmt.c:201-212 | only the `#` flag makes such a prefix |
| FmtText.RenderIsPrefix | source/arm11/fmt.c:182-376 | pieces without it are cut to the first characters of their full text |
| Fmt.VsnPrintf | source/arm11/fmt.c:182-376 | the buffer receives the rendered pieces of the format and a terminator within the size given, the length is returned, and no byte behind the terminator changes; the text is the start of the full text exactly under the condition of PrefixIff; what piece a directive gives is in the rows of FmtLaws |
| Fmt.BoundedIsPrefix | source/arm11/fmt.c:182-376 | for formats without `#` the text is the first min(size-1, full) characters of the unbounded text |
| FmtLaws.DirectiveIsRead | source/arm11/fmt.c:195-267 | a directive spelled with flags in any order, a width, a precision and a length qualifier, digits or stars, is read as what it says |
| FmtLaws.DirectiveInFormat | source/arm11/fmt.c:182-376 | inside any format it gives one piece, and the format goes on behind it with the arguments it has not taken |
| FmtLaws.IntegerPiece | source/arm11/fmt.c:320-370 | the piece of d, i, u, x and X is the argument cut to the type its qualifier names, signed for d and i: its sign, prefix and shortest digits in the right case, at least as many as the precision asks for, padded behind after `-`, with zeros between or blanks in front otherwise; and it scans back as that number |
| FmtLaws.PrintedReadsBack | source/arm11/fmt.c:182-376 | so an argument that fits the type of its directive is printed as text that scans back as the argument, whatever flags, width and precision |
| FmtLaws.PointerPiece | source/arm11/fmt.c:311-318 | a pointer is its 32-bit number in hexadecimal, eight digits when no width is given |
| FmtLaws.CharPiece | source/arm11/fmt.c:271-285 | a character is the argument cut to a byte, in its field |
| FmtLaws.StringPiece | source/arm11/fmt.c:287-309 | a string, or its first characters up to the precision, in its field; "<NULL>" for the null string |
| FmtLaws.OtherPiece | source/arm11/fmt.c:336-348 | an unknown conversion is printed with its percent sign, and two percent signs give one |
| FmtLaws.TextIsCopied | source/arm11/fmt.c:188-194 | text without directives is printed as it stands |
| FmtLaws.LastPercent | source/arm11/fmt.c:336-348 | a percent sign at the end of the format is printed |

## Left out

- FatEntry.PutFat: after a device failure the contract leaves the written cluster's own entry open, because the code does.
- ChainOps.CreateChain: after a device failure it says only that clusters in use, other than the one linked from, keep their entries.
- FileWrite.Write: on an error it says that the error is latched and what stays untouched, not how many bytes arrived.
- FileResize.Truncate: after a device failure it does not say which clusters of its own chain were already freed.
- MemPool.Pool.Deallocate: a chunk whose list node cannot be created is lost, as in the code.
- NandProt.Protection.WriteFromBuffer: the handle checks before the loop are not part of it.
- NandProt.GuardedIffSafe: speaks of tables none of whose regions wraps at 32 bits.
- Config.ConfigFile.ParseConfigFile: builds the table; the pass after it that turns each key's text into its native data is not part of it.
- Config.ConfigFile.SetKeyData: the conversion of each key's data to text (paths, pad buttons, numbers) is a parameter, the text or nothing.
- Config.ConfigFile.DeleteKey: a slice at the very start of the text, where the code stops with an error, and slices that end behind the text, as a cut value leaves one (`ConfigRun.LongPath`), are outside the contract.
- Config.ConfigFile.WriteAttributeText: slices that end behind the text, which a value cut by the formatter leaves, are outside its contract; the code would then read behind the terminator.
- LongName.CreateLfn: stops at the finished long name; the skip of repeated separators, which looks at the byte behind the terminator, and the short name are not part of this model.
- NameTrip.StoreThenList: the directory slots are one array instead of sectors moved through the window, and names that need only a short entry are not stored by it.
- LfnRead.CollectName: reads the slots of one array; the end of the slots stands for the end of the directory.
- Mount.ReadBootSector: takes the boot sector and its position; the partition table search, the signature test and the FSInfo sector (whose free count the driver trusts) are not part of it.
- Fmt.VsnPrintf: an argument that is missing or of the wrong kind reads as 0 or the null string, and widths are not limited to 32 bits; the code leaves both undefined.
- FmtOut.ProcessNumber: negating the smallest 64-bit number is taken to give its magnitude, as two's complement does.
- Firm.CheckImage: hashing is an input (whether the section's hash matches); reading the image from a file or a partition is not modelled.
- Firm.CopySections: each copy of the engine is one step between two steps of the CPU, so words of two copies do not interleave; overlapping destinations, whose outcome then depends on timing, and CPU-copied sections that run over their end are outside the contract.
- Launch.HandshakeIsSafe: FIFO depth is not limited there, since at most one word is ever queued in each direction, which the lemma states.
- Cache maintenance, DMA timing, hardware registers beyond the FIFOs and the copy engine's channels, AES, SHA, RSA, SD and NAND drivers, displays and menus.
- exFAT, fast seek, file locks, directory search, creation and removal, timestamps, labels and formatting of volumes, which the driver's configuration switches off or which sit beside the core.
- FileRun.CallAll: a run stops in front of a truncation at a sector boundary of a file whose buffer was used, as the buffer may go on showing a sector that the file gives up and another file then takes; what a seek stretches a file by, and how much of a write fits on a full volume, is left open.
- FileShare.WriteBeside: two objects open on the same file are not modelled.
- Requests from ARM9 to ARM11 and the panic paths of the remote call.
- configRestoreDefaults, which leaves stale slices, and loading and saving the configuration file.
