# A verified model of the convolution engine and its file library

The repository holds firmware for a real-time convolution reverb: an FFT-based
engine that convolves two audio channels with long impulse responses, and the
FAT16/32 library through which it reads and writes files. This project models
both and proves what they compute.

The file library is proved layer by layer, each a refinement of a simpler form:

- `Bytes`, `FatWindows`, `FatScans`, `FatEntries`, `FatTable`: the linked list of
  FAT sector buffers is a flat FAT; which lookups keep it so is stated exactly.
- `Chains`, `ChainRuns`: over whole runs of starts, growths and releases, cluster
  chains stay ended, acyclic and disjoint, and clusters are conserved; release
  clears exactly what is reachable.
- `FileLayout`, `FileIo`: a file handle with its one-sector dirty buffer and
  remembered cluster is a byte array with a cursor, over whole runs of calls.
- `Lfn`, `DirSlots`, `Directory`: long names survive encoding; adding an entry
  adds exactly one line to the listing.
- `DirSearch`: looking a name up and the listing's cursor, with their long-name
  cache, are the search and the listing of the slot sequence.
- `CompareNames`, `HandleLists`, `ShortNames`, `ShortForms`: file handles stay
  partitioned and uniquely named; when a free short name is found, when it still
  equals the name it was made from, and that no directory gets one twice.
- `FileCreate`: a file is created exactly when the directory, the table and the
  short names allow it, and is then found; otherwise nothing is lost.
- `Format`, `Mount`: formatting and mounting again recovers the geometry on exactly
  which volumes, and hands the allocator a table it can use.

The engine, bottom up:

- `Arith`, `Complex`, `Fourier`: sums, transforms, inversion, convolution theorem.
- `Factor`, `KissFft`: the mixed-radix recursive FFT with its butterflies.
- `FftCfp`: the iterative FFT with bit reversal.
- `Partition`, `Engine`: FIR plus partitioned overlap-add through a ring of
  spectra is the 4096-tap convolution, from the sample loop down, for as many
  samples as that loop takes.
- `Split`, `FixedPoint`: two channels in one transform, and the 9q23
  multiply-accumulate.

`Sequences` holds what several modules share.

Code that updates state is modelled by classes and methods with loops, each
proved against a function or relation on values whose properties are lemmas.
Run the verifier with `dafny verify dfyconfig.toml`.

Where code and intent part, the code is modelled and the exact condition proved:
the sample loop does not end with its input but after 12288 samples, so shorter
files are read past their end and files under 6528 samples overrun the output
(`Engine.Test`); on a full volume growth hands out clusters that do not exist
(`Chains.GrowStaysBelow`); windows of more than one sector can hide a value
(`FatWindows.StaleLookup`, `FatWindows.MissTruthful`, `FatWindows.ApartIffClear`); long names with a 0xFF
byte do not come back (`Lfn.RoundTrip`); small volumes and those just below
4194304 sectors do not mount as the type formatted (`Format.TypeAgrees`,
`Format.Misread`); seeks from the cursor wrap at 2^32 (`FileIo.SeekWraps`);
entries with a short extension do not compare equal to their own name
(`ShortForms.ShortNameTells`); a short name starting with 0xE5 is written but never listed
(`Directory.Dir.AddFileEntry`); for a name with a leading dot what
the stack held is the short name's base, and a zero byte in it can make one short
name block all 9999 candidates (`ShortNames.AlwaysFree`, `ShortNames.StaleBase`);
one product in 2^128 overflows its 64-bit intermediate
(`FixedPoint.IntermediateFits`).

## Model

| member | source | states |
|---|---|---|
| Bytes.ReadBack16 | software/src/fatlib/fat_misc.h:17-19 | a 16-bit word set in a sector reads back as itself and leaves every word apart from it as it was |
| Bytes.ReadBack32 | software/src/fatlib/fat_misc.h:16-25 | the same for 32-bit words |
| FatWindows.CoherentSeen | software/src/fatlib/fat_table.c:116-147 | a buffer list whose windows are apart and mirror the flat image answers every FAT lookup from that image, though the search returns the first window it meets |
| FatWindows.FlushKeeps | software/src/fatlib/fat_table.c:83-112 | writing a window back and marking it clean keeps the list coherent with the same flat image |
| FatWindows.FlushStaysInFat | software/src/fatlib/fat_table.c:83-112 | a write-back changes no sector outside the first FAT, although a window may hang over its end |
| FatWindows.EvictionKeeps | software/src/fatlib/fat_table.c:150-160 | taking the last buffer off the list never loses a dirty sector |
| FatWindows.MissTruthful | software/src/fatlib/fat_table.c:150-175 | after a miss every FAT lookup is still right if and only if no sector of the window loaded has a newer copy in a window that stayed |
| FatWindows.ApartIffClear | software/src/fatlib/fat_table.c:116-175 | a lookup leaves the windows apart if and only if the sector is resident or no surviving window starts inside the one that would be loaded; a caller can check this beforehand |
| FatWindows.LookupKeeps | software/src/fatlib/fat_table.c:116-175 | such a lookup finds the flat image's sector and keeps the list coherent |
| FatWindows.OneSectorIsClear | software/src/fatlib/fat_table.c:163-166 | with one-sector windows every lookup is of that kind |
| FatWindows.SettledStays | software/src/fatlib/fat_table.c:116-175 | so it is for ever once the windows hold the whole FAT or are one sector wide: every reachable lookup stays clear |
| FatWindows.UpdateKeeps | software/src/fatlib/fat_table.c:349-383 | a write through a window that holds the sector is a write to the flat image |
| FatWindows.CleanIsCurrent | software/src/fatlib/fat_table.c:179-195 | when no window is dirty the disk is the flat image |
| FatWindows.StaleLookup | software/src/fatlib/fat_table.c:163-166 | a concrete run with two-sector windows in which a lookup that is not clear makes a value just set unreadable: windows start at the asked sector, not at an aligned one |
| FatWindows.DataKeeps | software/src/fatlib/fat_access.c:212-215 | writes past the FAT keep the buffers coherent and the table unchanged |
| FatScans.BehindIsClear | software/src/fatlib/fat_table.c:116-175 | a lookup at or past the start of every window is clear and starts no window past itself: so is every step of an ascending scan, whatever the window size |
| FatScans.ScanGoesOn | software/src/fatlib/fat_table.c:452-473 | an ascending scan of a list just initialised stacks windows one behind another from the start of the FAT, evicting none while the buffers can hold the FAT |
| FatScans.ScanSettles | software/src/fatlib/fat_table.c:445-478 | when it ends the windows hold the whole FAT, with a buffer to spare when one fewer would do |
| FatEntries.SetOneEntry | software/src/fatlib/fat_table.c:349-383 | rewriting cluster c's word in its sector changes entry c of the table and no other, for both entry widths |
| FatEntries.CutKeeps | software/src/fatlib/fat_table.c:349-383 | a value that fits the entry's width is kept and the end mark fills it |
| FatEntries.SectorOfTable | software/src/fatlib/fat_table.c:445-478 | the words of FAT sector i are exactly its share of the entries |
| FatEntries.CountSector | software/src/fatlib/fat_table.c:454-473 | the word loop counts the zero words of a sector |
| FatTable.FatFs.FatInit | software/src/fatlib/fat_table.c:60-79 | every buffer ends up on the list once, clean and invalid, and the list is coherent with the disk |
| FatTable.FatFs.Writeback | software/src/fatlib/fat_table.c:83-112 | the dirty window goes to its place on disk, cut at the end of the FAT |
| FatTable.FatFs.Search | software/src/fatlib/fat_table.c:121-141 | the walk returns the first buffer whose range holds the sector, or unlinks the last one and proves none does |
| FatTable.FatFs.Recycle | software/src/fatlib/fat_table.c:150-174 | the last buffer moves to the front, written back if dirty, and is loaded from the asked sector |
| FatTable.FatFs.ReadSector | software/src/fatlib/fat_table.c:116-175 | over the linked heap list: the buffer returned shows what the list showed for that sector, disk and list become those of the lookup on values, and the list stays a reordering of the same fixed buffers |
| FatTable.FatFs.FindNextCluster | software/src/fatlib/fat_table.c:205-256 | the link of the flat table, cluster 0 read as 2, end marks made uniform, 28 bits on FAT32 |
| FatTable.FatFs.SetCluster | software/src/fatlib/fat_table.c:349-383 | the flat table changes in this entry alone, to the value cut to the entry's width |
| FatTable.FatFs.SetFsInfoNextFree | software/src/fatlib/fat_table.c:260-283 | on FAT32 the hint is written straight to the FSINFO sector and the buffer emptied, without disturbing the table; on FAT16 nothing happens |
| FatTable.FatFs.ForgetHint | software/src/fatlib/fat_write.c:51-53 | on FAT32 the word at 492 of the FSINFO sector on disk is 0xFFFFFFFF afterwards, unless the hint was unknown, and nothing else of the sector changes |
| FatTable.FatFs.Purge | software/src/fatlib/fat_table.c:179-195 | afterwards the disk is the flat image, and only the first FAT changed |
| FatTable.FatFs.FindBlankCluster | software/src/fatlib/fat_table.c:288-342 | finds the least blank entry at or after the start, or says there is none, from every list that is settled or whose windows start behind the scan |
| FatTable.FatFs.CountFreeClusters | software/src/fatlib/fat_table.c:445-478 | the number of zero words of the flat table, from every such list; from a list just initialised it leaves every later lookup of the FAT right when the buffers hold the FAT |
| FatTable.FatFs.AddClusterToChain | software/src/fatlib/fat_table.c:414-440 | links the entry after the last cluster of the trail and marks it as the end; does nothing exactly when the walk meets a zero link or starts at the end mark |
| FatTable.FatFs.FreeClusterChain | software/src/fatlib/fat_table.c:389-407 | terminates on every table with links in range, cyclic ones included, and leaves the table Chains.Freed describes |
| FatTable.FatFs.AddFreeSpace | software/src/fatlib/fat_write.c:45-76 | the table grows as Chains.Grow describes, success and first new cluster included, through any state of the buffers that is poised; a hint in the FSINFO sector is gone on FAT32, that sector else unchanged |
| FatTable.FatFs.StartChain | software/src/fatlib/fat_write.c:82-120 | for a new file of one cluster the least blank cluster becomes a chain of its own; no other entry changes; fails exactly when none is blank; the same of the hint |
| Chains.ChainIsAcyclic | software/src/fatlib/fat_table.c:205-256 | a chain that ends in an end mark visits no cluster twice |
| Chains.GrowAppends | software/src/fatlib/fat_write.c:45-76 | with room, growing from a tail appends exactly the asked number of clusters, all blank before and ascending, gives one well-ended chain, and changes no other entry |
| Chains.GrowSucceeds | software/src/fatlib/fat_write.c:58-73 | growing succeeds if and only if that many blank entries are left from the root cluster on; when it fails none is |
| Chains.GrowStaysBelow | software/src/fatlib/fat_write.c:45-76 | the table has entries past the last cluster: growth succeeds with clusters of the volume alone if and only if enough of those are blank from the root on |
| Chains.GrowTwice | software/src/fatlib/fat_write.c:45-76 | growing by n and then by m is growing by n + m |
| Chains.FamilyGrows | software/src/fatlib/fat_write.c:45-76 | growing one chain keeps all owned chains ended, acyclic and pairwise disjoint, changes no other chain, and conserves free plus owned clusters |
| Chains.FamilyAfter | software/src/fatlib/fat_filelib.c:806-889 | the same after any sequence of growths that a run of file operations makes |
| Chains.FreesExactlyReachable | software/src/fatlib/fat_table.c:389-407 | releasing zeroes an entry if and only if its cluster is reachable from the start, on every table, cyclic ones included |
| Chains.FreeCountRises | software/src/fatlib/fat_table.c:389-478 | the count of free clusters rises by the number of distinct clusters released |
| Chains.FamilyShrinks | software/src/fatlib/fat_table.c:389-407 | releasing a whole chain clears just its clusters and leaves every other owned chain whole |
| ChainRuns.ExtendKeeps | software/src/fatlib/fat_write.c:45-76 | growing one of the owned chains keeps them all ended and disjoint, and free plus owned clusters constant |
| ChainRuns.ReleaseKeeps | software/src/fatlib/fat_table.c:389-407 | so does releasing one |
| ChainRuns.StartKeeps | software/src/fatlib/fat_write.c:82-120 | so does starting a new one |
| ChainRuns.RunKeeps | software/src/fatlib/fat_write.c:45-120 | after any run of starts, growths and releases in any order all chains are ended, acyclic and pairwise disjoint, and free plus owned clusters are what they were |
| FileLayout.LbaApart | software/src/fatlib/fat_access.c:195-201 | different sectors of data clusters have different addresses |
| FileLayout.LbaSteps | software/src/fatlib/fat_access.c:195-201 | clusters lie one behind another from the start of the data area, the first of them number 2 |
| FileLayout.WriteReplaces | software/src/fatlib/fat_filelib.c:816-889 | writing sectors of one cluster of a chain replaces exactly those sectors of the file |
| FileLayout.OthersKept | software/src/fatlib/fat_filelib.c:882-889 | no file on a disjoint chain changes |
| FileLayout.FlushedCached | software/src/fatlib/fat_filelib.c:894-918 | writing the dirty sector back changes nothing the user sees, also when it lies just past the end of the chain |
| FileLayout.TouchedSplices | software/src/fatlib/fat_filelib.c:1324-1364 | copying bytes into the one-sector buffer is a splice of the file's contents |
| FileLayout.WholeSplices | software/src/fatlib/fat_filelib.c:1290-1317 | writing whole sectors past the buffer is the same splice |
| FileIo.FlFile.FollowTo | software/src/fatlib/fat_filelib.c:564-608 | the walk finds cluster idx of the chain, starting from the remembered lookup when that is the one before |
| FileIo.FlFile.ReadSectors | software/src/fatlib/fat_filelib.c:548-622 | reads the file's sectors from the offset, cut at the end of the cluster, none past the chain; the remembered lookup stays true |
| FileIo.FlFile.WriteSectors | software/src/fatlib/fat_filelib.c:806-889 | writes the same sectors of the file, growing the chain when the offset is its end; every earlier sector and every other file stays |
| FileIo.FlFile.Flush | software/src/fatlib/fat_filelib.c:894-918 | the buffer is clean and the contents are unchanged |
| FileIo.FlFile.FRead | software/src/fatlib/fat_filelib.c:1011-1109 | a permitted read with bytes left returns the lesser of the count and the bytes left, and that slice of the contents, and moves the cursor past it; -1 and nothing without permission or at the end |
| FileIo.FlFile.FWrite | software/src/fatlib/fat_filelib.c:1251-1392 | in append mode the contents are the old ones and then the data; otherwise the bytes from the cursor on are the data, all others stay, and the length is the greater of the old one and the new position; -1 without permission |
| FileIo.FlFile.FSeek | software/src/fatlib/fat_filelib.c:1113-1178 | the cursor moves inside the file for the three origins with their error cases; the contents are unchanged with a clean buffer; a dirty one is lost, and what is left is a whole file if and only if the clusters on disk still cover the length; a place inside the file is reached exactly, from the start or from the cursor |
| FileIo.FlFile.Run | software/src/fatlib/fat_filelib.c:1011-1392 | every run of reads, writes, flushes and seeks answers as a byte array with a cursor does, keeps the handle's invariant (chain, remembered lookup, dirty sector), and touches no other file |
| FileIo.Written | software/src/fatlib/fat_filelib.c:1276-1384 | what a write does to a byte array, byte by byte, in both modes |
| FileIo.SeekLands | software/src/fatlib/fat_filelib.c:1123-1173 | where each origin lands: at the place asked for, clamped to the file; a negative place set counts down from 2^32 |
| FileIo.SeekWraps | software/src/fatlib/fat_filelib.c:1142-1151 | a seek from the cursor past the end stops at the end if and only if the place is below 2^32, since the sum wraps; below 2^31 it is the seek to that place |
| FileIo.WriteThenRead | software/src/fatlib/fat_filelib.c:1011-1392 | in every run data written at the cursor, flushed, sought and read come back, and the rest of the file is as it was |
| FileIo.AppendsConcatenate | software/src/fatlib/fat_filelib.c:1276-1278 | data appended by any number of calls stand one behind another at the end, wherever the cursor was |
| Lfn.FilenameToLfn | software/src/fatlib/fat_misc.c:207-244 | fills the slot: ordinal with the last mark, attribute, checksum, thirteen characters with terminator and padding |
| Lfn.AllLengths | software/src/fatlib/fat_misc.c:193-202 | every text of 1 to 260 characters takes 1 to 20 slots |
| Lfn.SlotBytes | software/src/fatlib/fat_misc.c:207-244 | every byte of a slot in literal places: characters with a zero high byte, a terminator, padding of 0xFF |
| Lfn.LfnCache.Init | software/src/fatlib/fat_misc.c:39-52 | forgets the count, and the text when asked |
| Lfn.LfnCache.Entry | software/src/fatlib/fat_misc.c:58-93 | replaces the slot's row, padding as spaces; the first slot seen sets the count; bad ordinals change nothing |
| Lfn.LfnCache.Get | software/src/fatlib/fat_misc.c:97-108 | ends the text after the last row and returns it up to the first terminator |
| Lfn.Collect | software/src/fatlib/fat_misc.c:58-108 | a cache with any stale text, fed the slots of a name highest first, returns the name |
| Lfn.RoundTrip | software/src/fatlib/fat_misc.c:39-108 | encode, collect and read back gives the same name if and only if it has no 0xFF byte, for every length, multiples of 13 included; each of those comes back as a space |
| DirSlots.PlacedLists | software/src/fatlib/fat_access.c:768-903 | a new entry written into a free run adds exactly one line, with its own long-name slots, to the listing |
| DirSlots.SilentLists | software/src/fatlib/fat_access.c:768-903 | slots without a short entry in use, written into a free run, change no listing |
| DirSlots.PlacedKeeps | software/src/fatlib/fat_write.c:130-262 | placing an entry in a free run overwrites no short entry in use and no long-name slot belonging to one |
| DirSlots.ListingSplits | software/src/fatlib/fat_access.c:768-903 | a listing splits where no long name is being collected |
| DirSlots.ScanSector | software/src/fatlib/fat_write.c:147-225 | the scan of one sector stops exactly when a run long enough ends at a free short slot, across sector borders |
| DirSlots.FitIsWindow | software/src/fatlib/fat_write.c:147-225 | a run holds n slots if and only if n slots in a row are free or long-name slots by their bytes, the last of them not a long-name slot |
| DirSlots.SpareAtEnd | software/src/fatlib/fat_write.c:147-225 | the slots counted at the end are usable by their bytes, and the one in front of them is not |
| DirSlots.ShortEntryReads | software/src/fatlib/fat_misc.c:250-278 | cluster and size read back from the short entry, which is listed unless its first byte marks it free |
| DirSlots.ShortEntryBytes | software/src/fatlib/fat_misc.c:250-278 | all eleven bytes of the name given, the attribute, the stamps of 1980, and cluster and size with their low bytes first |
| DirSlots.ChecksumTurns | software/src/fatlib/fat_write.c:302-305 | each byte is added to the checksum turned right by one bit |
| DirSlots.ByAttribute | software/src/fatlib/fat_misc.c:114-167 | for every slot and every attribute byte: listed if and only if in use, not hidden, not system and not the volume's label |
| DirSlots.ListsTheShown | software/src/fatlib/fat_access.c:768-903 | a listing has one line for each such slot, in order, whatever stands between them |
| DirSlots.SectorHasName | software/src/fatlib/fat_access.c:513-558 | finds a listed short entry of that name in a sector if there is one, names being compared up to the first zero byte |
| DirSlots.SameShortName | software/src/fatlib/fat_access.c:548 | the comparison of eleven bytes that stops at a zero byte: equality of what stands before the first one |
| Directory.Dir.SectorReader | software/src/fatlib/fat_access.c:220-268 | brings sector offset of the directory into the working buffer, from its chain or from the FAT16 root area, or reports its end |
| Directory.Dir.Extend | software/src/fatlib/fat_write.c:228-246 | links a blank cluster to the directory and erases it, the old sectors staying; on a table without a blank entry, and only there, it fails and changes nothing |
| Directory.Dir.FindFreeDirOffset | software/src/fatlib/fat_write.c:130-262 | fails if and only if no run fits and the table has no blank entry; else finds a free run for the entries, in the directory as it is if it has one, the FAT16 root included, or right after the last entry in use with a blank cluster added |
| Directory.Dir.WriteEntry | software/src/fatlib/fat_write.c:307-372 | lays the slots over the run in order, over as many sectors as it takes, writing each sector back |
| Directory.FirstIsMarked | software/src/fatlib/fat_misc.c:222-229 | the slots written count down to 1, and the first of them alone carries the mark 0x40 |
| Directory.Dir.AddFileEntry | software/src/fatlib/fat_write.c:266-372 | succeeds if and only if the name is not empty, a run fits or the table has a blank entry, and the slots fit that run or the end with one cluster more; a later listing then shows the old lines and exactly the new one, also across clusters, and the old lines alone otherwise; the new slots lie over free ones and the chain grows by at most one cluster |
| Directory.Dir.SfnExists | software/src/fatlib/fat_access.c:513-558 | true if and only if the directory lists a short entry whose name is the same up to the first zero byte |
| CompareNames.StrCmpNoCase | software/src/fatlib/fat_string.c:182-212 | zero if and only if the first n characters agree up to case, that is, are the same byte or one ASCII letter in its two cases |
| CompareNames.GetExtension | software/src/fatlib/fat_string.c:217-232 | the place of the last dot, or -1 |
| CompareNames.TrimLength | software/src/fatlib/fat_string.c:237-255 | the length without trailing spaces |
| CompareNames.CompareNames | software/src/fatlib/fat_string.c:260-319 | true if and only if the normal forms agree (base without trailing spaces, extension after the last dot, both without case), so it is an equivalence |
| CompareNames.FoldedFolds | software/src/fatlib/fat_string.c:189-209 | folding makes equal exactly the same letters, given by their ranges |
| CompareNames.SplitExists | software/src/fatlib/fat_string.c:217-255 | every name can be taken apart into base, trailing spaces and an extension without dots, if it has a dot |
| CompareNames.SameNormal | software/src/fatlib/fat_string.c:260-319 | names taken apart at the last dot compare equal if and only if their bases without trailing spaces and their extensions are the same letters |
| CompareNames.CaseAside | software/src/fatlib/fat_string.c:260-319 | names that differ in the case of letters alone compare equal |
| DirSearch.FindSplits | software/src/fatlib/fat_access.c:407-507 | looking up in slots one behind another is looking up in the first and, if nothing is found, in the rest with the cache they leave |
| DirSearch.KnownByName | software/src/fatlib/fat_misc.c:58-108 | fed a name's slots, an empty cache over any stale text gives the next entry that name, its 0xFF bytes as spaces |
| DirSearch.AddedIsFound | software/src/fatlib/fat_access.c:407-507 | a name not found before is found once its slots and a shown short entry lie over a free run, whatever the directory holds, if those spaces do not change how the name compares: what is found is the new entry |
| DirSearch.AddedLastIsFound | software/src/fatlib/fat_access.c:407-507 | where no entry follows the new one this condition, and the short entry being shown, are needed too |
| DirSearch.AlikeFind | software/src/fatlib/fat_misc.c:97-108 | what the byte behind the table held never decides a look-up |
| DirSearch.ShortFilename | software/src/fatlib/fat_access.c:464-486 | an entry's eleven bytes as the text NAME.EXT, the dot only before an extension that is not blank and not after a leading dot |
| DirSearch.LookAt | software/src/fatlib/fat_access.c:438-494 | one slot is collected, resets the cache, is passed over, or is the match: exactly the slots of the name looked for, up to the comparison |
| DirSearch.ByAttribute | software/src/fatlib/fat_misc.c:114-167 | looked up by its own short name an entry is found if and only if its attribute byte has it listed |
| DirSearch.GetFileEntry | software/src/fatlib/fat_access.c:407-507 | walking the sectors with one cache returns the first matching entry of the slot sequence, also when a long name crosses sectors or clusters |
| DirSearch.DisplayName | software/src/fatlib/fat_string.c:345-364 | the short text without spaces in lower case, twelve characters at most |
| DirSearch.DisplaySplits | software/src/fatlib/fat_string.c:345-364 | the parts of a text are shown one after the other |
| DirSearch.DisplayOne | software/src/fatlib/fat_string.c:350-359 | a space is not shown, any other character as the same letter, not in upper case |
| DirSearch.ListedByName | software/src/fatlib/fat_access.c:806-810 | the entry behind a name's slots is listed by the name, cut at 259 characters: the same name if and only if it has no 0xFF byte and no more than that |
| DirSearch.DirList.Next | software/src/fatlib/fat_access.c:768-903 | from a cursor that stands where a listing splits, the call fills in the next line of the listing and stands behind it, or reports the end if and only if no line is left |
| DirSearch.DirList.ShowsWhatWasMade | software/src/fatlib/fat_access.c:826-827 | for an entry made for a cluster, a size and a kind the listing shows these |
| DirSearch.ListAll | software/src/fatlib/fat_access.c:756-903 | calls from the start on until the end give every line of the listing once, in order |
| HandleLists.FatList.Remove | software/src/fatlib/fat_list.h:55-69 | unlinks one node of the heap list; pointers both ways, head and tail stay right |
| HandleLists.FatList.InsertAfter | software/src/fatlib/fat_list.h:73-86 | links a node after another, likewise |
| HandleLists.FatList.InsertBefore | software/src/fatlib/fat_list.h:90-103 | links a node before another, likewise |
| HandleLists.FatList.InsertFirst | software/src/fatlib/fat_list.h:107-121 | links a node at the front, likewise |
| HandleLists.FatList.InsertLast | software/src/fatlib/fat_list.h:125-134 | links a node at the end, likewise |
| HandleLists.FatList.PopHead | software/src/fatlib/fat_list.h:147-158 | takes the first node off, if any |
| HandleLists.FileLib.AllocateFile | software/src/fatlib/fat_filelib.c:71-81 | moves the first free handle to the end of the open list; fails exactly when none is free |
| HandleLists.FileLib.FreeFile | software/src/fatlib/fat_filelib.c:108-115 | moves an open handle back; the lists still partition the fixed pool |
| HandleLists.FileLib.CheckFileOpen | software/src/fatlib/fat_filelib.c:85-104 | true if and only if another open handle has the same path and name up to the comparison |
| HandleLists.NeverTwice | software/src/fatlib/fat_filelib.c:85-104 | of two open handles whose paths are the same letters up to case the names are not |
| HandleLists.FileLib.Acquire | software/src/fatlib/fat_filelib.c:324-457 | opening or creating keeps the partition and never leaves two open handles with matching path and name; says exactly when a handle is returned |
| HandleLists.FileLib.Close | software/src/fatlib/fat_filelib.c:922-960 | closing keeps both |
| HandleLists.FileLib.constructor | software/src/fatlib/fat_filelib.c:631-643 | all handles are free and none is open |
| ShortNames.CreateSfn | software/src/fatlib/fat_misc.c:285-343 | the eight and three places of the short name in upper case; refuses exactly a leading dot |
| ShortNames.SfnAt | software/src/fatlib/fat_misc.c:285-343 | place by place: the base's kept characters, from the ninth the extension's in upper case, blanks elsewhere |
| ShortNames.SqueezedOne | software/src/fatlib/fat_misc.c:321-330 | blanks and dots go, every other character stays as the same letter, not in lower case |
| ShortForms.ShortNameTells | software/src/fatlib/fat_misc.c:285-343 | an entry made from a name compares equal to the name if and only if the base has no blank, no dot and at most eight characters, and the extension, if any, has three, not all blank |
| ShortNames.SfnIsUpper | software/src/fatlib/fat_misc.c:285-343 | a short name has no terminator and no lower-case letter |
| ShortNames.Itoa | software/src/fatlib/fat_misc.c:350-371 | the decimal digits of the number |
| ShortNames.DecimalReads | software/src/fatlib/fat_misc.c:350-371 | the digits read back as the number, so printing is injective |
| ShortNames.GenerateTail | software/src/fatlib/fat_misc.c:380-401 | the tilde and number right-aligned at column 8; refused above 99999 |
| ShortNames.TailShape | software/src/fatlib/fat_misc.c:380-401 | base, tilde and decimal number without leading zero up to column 8, then the base's extension |
| ShortNames.TailsDiffer | software/src/fatlib/fat_misc.c:380-401 | different tails give different names, also when their lengths differ |
| ShortNames.HeldAreMany | software/src/fatlib/fat_filelib.c:460-491 | a directory that holds every candidate of a base holds as many short names as there are tails that no zero byte of the base hides |
| ShortNames.AlwaysFree | software/src/fatlib/fat_filelib.c:460-491 | fewer than 9998 short names leave a candidate free in every directory if and only if the base has no zero byte among its first six |
| ShortNames.AlikeHeld | software/src/fatlib/fat_filelib.c:460-491 | with a zero byte among the first three all candidates are held if and only if that one text is |
| ShortNames.StaleBase | software/src/fatlib/fat_filelib.c:460-491 | a base left over on the stack for which one short name in the directory holds all 9999 candidates |
| ShortNames.BaseIsText | software/src/fatlib/fat_misc.c:285-343 | the base made from a name without a leading dot has no zero byte, whatever was there before |
| ShortNames.ChooseShortName | software/src/fatlib/fat_filelib.c:460-491 | the name accepted is the first candidate that the directory does not hold, as short names are compared; it fails if and only if all are held, which for a name without a leading dot takes 9998 short names, and for another base as many as there are tails its zero bytes do not hide |
| ShortForms.StillUnique | software/src/fatlib/fat_filelib.c:460-491 | an entry with a name no entry had keeps the short names of a directory all different, and is there if shown |
| FileCreate.NoneLeft | software/src/fatlib/fat_write.c:82-120 | the search for a blank entry fails if and only if none is counted, and using the one it finds lowers the count by one |
| FileCreate.StillChain | software/src/fatlib/fat_write.c:45-76 | growing a directory's chain leaves it and a new file's chain whole and apart, and uses up as many blank entries as it has clusters more |
| FileCreate.EntryFound | software/src/fatlib/fat_filelib.c:517-518 | the entry written gives the file's cluster and no length, and the name then leads to it |
| FileCreate.StartFile | software/src/fatlib/fat_filelib.c:453-458 | the least blank cluster becomes a chain apart from the directory's, whose slots stay; fails exactly when none is blank |
| FileCreate.DropFile | software/src/fatlib/fat_filelib.c:484-491 | that cluster is blank again and nothing else has changed |
| FileCreate.AddEntry | software/src/fatlib/fat_filelib.c:517-525 | the entry is added if and only if the directory takes it, and the file's chain and the volume's stay sound while the directory grows |
| FileCreate.CreateFile | software/src/fatlib/fat_filelib.c:444-542 | creates the file if and only if the name is not found, a cluster is blank, some short name is free and the directory takes the entry; the name is then found with the cluster taken and no length, its eleven bytes are the short name chosen, which no entry had, and the disk is the flat image; else the directory lists what it did; short names that were all different stay so, and blank entries are conserved, in every case |
| FileCreate.OpenFile | software/src/fatlib/fat_filelib.c:365-391 | opens if and only if the name is found and is a file, with the entry's cluster and length |
| FileCreate.CreateThenOpen | software/src/fatlib/fat_filelib.c:365-542 | a file just created opens, empty, at the cluster taken for it, unless its short name starts as a free entry or its 0xFF bytes tell |
| Format.CalcClusterSize | software/src/fatlib/fat_format.c:77-95 | the table search returns the size of the first row that covers the volume |
| Format.LeastSize | software/src/fatlib/fat_format.c:46-72 | above the smallest volumes the size is the least power of two, from 4 on FAT16 and 8 on FAT32, that keeps clusters within 65536 or covers its share of the volume |
| Format.LeastFat | software/src/fatlib/fat_format.c:276-277 | a FAT has the least number of sectors with more entries than clusters and one more |
| Format.TypeAgrees | software/src/fatlib/fat_access.c:149-190 | the mounter's cluster count gives the type the formatter picked if and only if the volume has at least 8244 sectors and is not one of 4194152 to 4194304 |
| Format.GeometryFits | software/src/fatlib/fat_format.c:140-347 | on those volumes the FAT has an entry for every cluster and two more, and boot area, FATs, root and clusters lie one after another inside the volume |
| Format.Misread | software/src/fatlib/fat_access.c:149-190 | what happens on the others: from 42 sectors up too small reads as FAT12, just below the limit reads as FAT32 |
| Format.FileSystem.CreateBootSector | software/src/fatlib/fat_format.c:115-347 | the sector says of the volume what the formatter keeps in its fields |
| Format.FileSystem.EraseFat | software/src/fatlib/fat_format.c:392-422 | both copies hold zeroes, but for the reserved entries in the first sector of the first copy |
| Format.FirstEntries | software/src/fatlib/fat_format.c:400-409 | the reserved entries and FAT32's root by their values, every other byte zero |
| Format.FileSystem.FormatFat16 | software/src/fatlib/fat_format.c:426-470 | fields, boot sector, FATs and a blank root area, in disjoint places |
| Format.FileSystem.FormatFat32 | software/src/fatlib/fat_format.c:475-520 | the same with an FSINFO sector of known contents, free count and hint unknown, and a blank root cluster |
| Format.FileSystem.Init | software/src/fatlib/fat_access.c:43-190 | mounting a formatted volume yields a type by the cluster count and, when that is the one formatted, every field of the geometry |
| Format.FileSystem.FormatThenMount | software/src/fatlib/fat_format.c:524-531 | format then mount recovers type and geometry if and only if the volume size is one of those above |
| Format.FormattedTable | software/src/fatlib/fat_format.c:392-422 | the table a format leaves has room for every cluster of the volume but the root's, and the FAT32 root is a chain of one cluster, so the allocator's preconditions hold from the start |
| Format.DefaultBuffers | software/src/fatlib/fat_opts.h:28-36 | the default 16 buffers of 16 sectors hold the whole FAT of a mounting volume if and only if it is FAT16 and not a few sectors below a change of cluster size; never on FAT32 |
| Mount.OpenTable | software/src/fatlib/fat_access.c:43-190 | a mounted volume's FAT buffers start unused and coherent with the disk |
| Mount.FormatMountCount | software/src/fatlib/fat_table.c:445-478 | format, mount and one count, on every volume up to the device's own size: if the buffers hold the FAT, every lookup from then on is right, the count is that of the blank entries, and the allocator has every cluster but the root's to give |
| Fourier.QuarterTurns | software/src/kiss_fft.c:351-357 | the quarter turn meets the law asked of a twiddle table, so that law is not empty |
| Fourier.Orthogonal | software/src/kiss_fft.c:351-357 | the powers of a primitive root sum to n or to zero |
| Fourier.Inversion | software/src/fft_fp.c:77-84 | the backward transform of the transform is n times the input |
| Fourier.InverseOfForward | software/src/main.c:402-489 | the forward transform followed by the scaled inverse returns the input |
| Fourier.ConvolutionTheorem | software/src/main.c:1032-1050 | the product of the spectra of zero-extended blocks is the spectrum of their convolution, nothing wrapping round |
| Fourier.Decimation | software/src/kiss_fft.c:232-296 | a transform of p*m points from p transforms of m points |
| Factor.KfFactor | software/src/kiss_fft.c:303-324 | terminates, fits the buffer, the pairs multiply up to n and end at 1; for n of 2 or more every radix is 4 or prime, although trial division stops at the root of the original n |
| Factor.NextFastSize | software/src/kiss_fft.c:390-402 | the least number not below n whose only prime factors are 2, 3 and 5, and no power of two between is passed over |
| KissFft.Bfly2 | software/src/kiss_fft.c:15-36 | every lane is replaced by its twiddled 2-point transform, nothing else changes |
| KissFft.Bfly3 | software/src/kiss_fft.c:86-128 | the same for 3 points, from sum, difference and one root |
| KissFft.Bfly4 | software/src/kiss_fft.c:38-84 | the same for 4 points in both directions |
| KissFft.Bfly5 | software/src/kiss_fft.c:130-189 | the same for 5 points, from two roots and conjugate pairs |
| KissFft.BflyGeneric | software/src/kiss_fft.c:192-229 | the same for any radix with the wrapped running index: so each fixed radix agrees with the generic one |
| KissFft.StageDft | software/src/kiss_fft.c:288-295 | recombining the sub-transforms by any radix gives the whole transform |
| KissFft.KfWork | software/src/kiss_fft.c:232-296 | the recursion over any factor list leaves at k the sum of f[j*fstride*in_stride] times w(j*k*fstride) |
| KissFft.TransformStride | software/src/kiss_fft.c:365-377 | the transform of the strided input, also in place, where a copy is made |
| KissFft.Transform | software/src/kiss_fft.c:379-382 | the transform of the input |
| FftCfp.RevInvolution | software/src/fft_fp.c:24-36 | reversing the bits twice gives the index back |
| FftCfp.BitReverse | software/src/fft_fp.c:20-36 | the swap loop with its reversed counter permutes by bit reversal |
| FftCfp.StageCorrect | software/src/fft_fp.c:40-75 | a stage turns runs of l entries holding transforms of decimated subsequences into runs of 2l |
| FftCfp.Stages | software/src/fft_fp.c:38-75 | after all stages the array is the transform, in either direction |
| FftCfp.FftCfp | software/src/fft_fp.c:9-85 | the transform of 2^m points, or the inverse divided by n, in place |
| Partition.OverlapAdd | software/src/main.c:1027-1093 | the first 512 taps plus the overlapping outputs of 14 partitions are the 4096-tap convolution, for every causal input |
| Partition.AllTaps | software/src/defines.h:15-20 | these are 4096 in all |
| Partition.ProductsAreSpectrum | software/src/main.c:1032-1050 | the 14 accumulated products are the spectrum of what the run must add |
| Partition.RunOutput | software/src/main.c:1072-1088 | their inverse transform is what the run must add |
| Partition.SampleFinished | software/src/main.c:924-1093 | every contribution to sample n was added before sample n is processed |
| Engine.Channel.ShiftIn | software/src/main.c:886-893 | the register moves on by one sample |
| Engine.Channel.FirSample | software/src/fir.c:125-175 | the sum of the first 512 taps |
| Engine.Channel.ProcessHeaderBlock | software/src/main.c:390-428 | the spectrum of the zero-extended block is stored in its slot and no other slot changes |
| Engine.Channel.HeaderMac | software/src/main.c:1020-1050 | walking the ring backwards pairs every partition with the right past block |
| Engine.Channel.AddHeader | software/src/main.c:1080-1088 | the run's output lands on the right 512 samples |
| Engine.Channel.HeaderRun | software/src/main.c:936-1102 | one header run keeps the ring, the partitions and the output invariant |
| Engine.ThereAndBack | software/src/main.c:394-489 | kiss_fft forwards and then fft_cfp backwards, run one after the other, give the input array back, for every power of two |
| Engine.PreProcess | software/src/main.c:342-388 | partition b holds the spectrum of taps 512 + 256 b onwards, for an impulse response of any length, a short one going on with what lies behind it |
| Engine.ZeroExtend | software/src/main.c:1502-1511 | the second half is zero, the first kept |
| Engine.AllInside | software/src/main.c:1082-1086 | the writes of the whole loop stay inside an output buffer if and only if it has 13056 places |
| Engine.FirstOutsideIs | software/src/main.c:1082-1086 | the first sample whose header run writes outside output buffers of a given size |
| Engine.BodyAddsNothing | software/src/main.c:1313-1319 | the range over which the body's results would be added is empty in every run |
| Engine.OneSample | software/src/main.c:806-1102 | one pass takes the sample, filters it and makes the header run it completes; every sample up to this one is then final; or it stops exactly where a write would leave the output buffers |
| Engine.MoveOn | software/src/main.c:1093-1157 | the counters stay those of the samples taken, and the only way out is the third full body block, sample 12287 |
| Engine.SampleLoop | software/src/main.c:806-1345 | the loop ignores the end of the input: it takes 12288 samples and returns if and only if the output buffers have 13056 places, and everything it has taken is final, however it ends |
| Engine.Test | software/src/main.c:509-1345 | for every input: the loop returns without leaving the output buffers if and only if the file has 6528 samples, and then reads past the file if and only if that has fewer than 12288; every sample taken from the file comes out as its convolution with the first 4096 taps, in both channels, whatever lies behind the file; when it does not return, the number of samples taken is exact; an impulse response goes on with what lies behind it |
| Split.Separation | software/src/fft.c:263-281 | two real signals are recovered from the spectrum of left + i*right at k and -k |
| Split.SplitChannels | software/src/fft.c:263-281 | the in-place loop, which reads what it has overwritten, leaves in both arrays the two half sums and differences |
| Split.SplitIsSpectrum | software/src/fft.c:263-281 | from a joint spectrum known to within s per component these are the two spectra to within s and the half lost in the shift, each on its known side |
| Split.OuterBinsExact | software/src/fft.c:263-281 | bins 0 and 256, which the loop skips, are known to within s, their imaginary parts exactly |
| Split.MirrorSymmetric | software/src/fft.c:263-281 | the outputs are conjugate symmetric at every mirrored pair |
| FixedPoint.IntermediateFits | software/src/complex.c:93-104 | the 64-bit intermediates overflow if and only if all four operands are -2^31, and then only in the imaginary part |
| FixedPoint.PartsOfProduct | software/src/complex.c:84-107 | the two intermediates are the real and the imaginary part of the product of the operands as complex numbers |
| FixedPoint.ShiftRoundsDown | software/src/complex.c:97-102 | the shift is the floor of the quotient by 2^23 |
| FixedPoint.AccumulatedWraps | software/src/main.c:1434-1440 | any number of multiply-accumulates in 32 bits is the sum of the floors modulo 2^32, whatever overflowed on the way |
| FixedPoint.ErrorBound | software/src/complex.c:84-107 | the accumulator holds the sum of floors if and only if that fits a word, and then each component is at or below the exact sum and less than one unit per call from it |
| FixedPoint.CloseToSum | software/src/main.c:1434-1440 | whatever wrapped on the way, the accumulator is that close to the exact sum of complex products wherever the sum is representable |
| FixedPoint.MacRun | software/src/main.c:1410-1444 | a whole run over the blocks leaves these accumulators in every bin, and each component is at or below the sum of the complex products of the blocks, scaled by 2^23, and less than one unit per block from it, wherever that sum is representable |

## Left out

- Floating point and the fixed-point conversions of the FFT path: the transforms and the convolution are proved in exact real arithmetic; only c_mul and its accumulation and the channel split are modelled with their words and shifts. The truncation of results to 16 bits in main.c is not modelled.
- The cosines and sines: the twiddle table and the root function are parameters assumed to satisfy the exponent law, the conjugate law, w(n) = 1, w(k) != 1 in between and, where 4 divides n, the quarter-turn value; that this can be met is shown for four points (Fourier.QuarterTurns) only.
- Engine.Test: what a read past the end of the input or of an impulse response finds is an arbitrary input; what the code does after a write outside the output buffers is not modelled: the model stops there, before the header run concerned.
- The body path's output mixing, whose loop bound uses the header's constants and which never runs, and process_body_block_hw; no convolution claim is made for them.
- The hardware branches of the FIR and FFT (registers and FIFOs), audio, display, media drivers and the SD card; the SRAM is an array of blocks and the disk a list of sectors. The parallel branch of kf_work (OpenMP) is not modelled.
- Split.SplitChannels: requires that no sum or difference the loop forms leaves 32 bits.
- Bit masks and shifts are written as remainders and quotients; no bit-vector is used.
- FatTable.FatFs.AddFreeSpace: needs the buffers steady, that is one-sector windows, or windows that hold the whole FAT and, on FAT32, still do after one FSINFO update; with wider windows a lookup that is not clear can be wrong (FatWindows.StaleLookup), so the results on chains, files and chain directories are stated for that case, which one count of the free clusters establishes (Mount.FormatMountCount). In the default build that covers most FAT16 volumes and no FAT32 volume (Format.DefaultBuffers). The single lookups and updates are proved for every clear lookup, and the scans for every list whose windows start behind them, at any window size.
- The ptr field of a buffer is a sector index, not a pointer, and the buffer's sectors are a list that is replaced, not bytes changed in place.
- The cluster cache (fat_cache.c) is compiled out; the second FAT copy is written only by format; locks, printing, time and date stamps, and read-only media are not modelled. Media calls succeed, except that mounting fails past the end of the device.
- FileIo.FlFile.FWrite: needs enough free clusters for the length it reaches, since the code returns the full count whatever happened; positions stay below 2^32.
- FileIo.FlFile.Run: a seek in a run needs a clean buffer, since the code throws a dirty one away; FileIo.FlFile.FSeek says what is then left.
- FileIo.FlFile.FRead: the data are returned as a sequence instead of filling the caller's buffer; a count stands for size times length.
- Directory.Dir.AddFileEntry: where no run fits, two cases are not covered: the FAT16 root while an entry of the table is blank (growing it would follow cluster 0, which is read as 2), and a chain directory when the only blank entries lie past the volume's last cluster. FileCreate.CreateFile leaves out the same two, for the table it starts from.
- FileCreate.CreateFile: splitting the path, finding the parent directory and the handle are not part of it; the fields it sets in the handle are those of a closed, empty file (FileIo).
- HandleLists.FileLib.Acquire: splitting the path is one input and what the directory and the disk decide is another, one boolean; that decision itself is proved as the outcome of FileCreate.CreateFile and FileCreate.OpenFile.
- Erasing an existing file in mode "w": the flag is set but the file is reopened as it is. fatfs_allocate_free_space is modelled for new files of one cluster, which is what creating a file asks for; for several it never reports the start.
- ShortNames.ChooseShortName: a name with a leading dot is refused by CreateSfn but the caller goes on, so the base is then whatever the buffer held; that content is an input, and a zero byte in it can hide the tails (ShortNames.AlwaysFree, ShortNames.StaleBase).
- DirSearch.AddedIsFound: goes one way, since entries behind the new one are read over other stale text than before, so in a damaged directory one of them may match where none did; DirSearch.AddedLastIsFound is the exact condition where none follows.
- Lfn.LfnCache.Get: the table and the terminator byte after it are one array of 261 bytes.
- Format.FileSystem.Init: the ghost type and volume only name what the boot sector was made for; foreign boot sectors get no claim. The FSINFO sector number is recovered on FAT32 only.
- fatfs_update_file_length, fatfs_mark_file_deleted, fl_remove, path splitting, fgets and the other calls built from these.
