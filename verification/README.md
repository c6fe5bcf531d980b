# Block-level file systems, figure routing and two NachOS tools

This project models four parts of the repository and proves what they promise.

**Linked-block file system** (`Blocks`, `Volumes`, `Steps`, `Deletion`, `Reading`, `FileSystem`,
`Theorems`, `BlockBytes`, `Sessions`). The disk is a sequence of 256-byte blocks: a flag byte, 251 bytes of
payload, a four-byte pointer. `SuperBlock` and `File_system` share one disk and one set of
counters, so they are one class, `FileSystem`, whose methods update those fields in place. The
invariant `Volumes.Inv` carries a ghost layout: the files with their texts and chains, and for
every block in use the one thing that owns it. Two results sit on top of it. `Sessions.Run`: from
a fresh disk, every sequence of makes, reads, deletes and restarts answers exactly like a finite
map from names to texts, and ends with counters computed from the calls alone.
`Theorems.MakeThenDelete`: making a file and deleting it gives the disk back byte for byte, up to
zero blocks at its end, if and only if its text was not empty. An empty text takes a data block
that `rm_file` never frees; the layout calls such a block an orphan, and `Sessions.OrphansOverRun`
shows that over every run there are as many orphans as empty texts ever made, and that without
them the files' blocks are exactly the flagged ones.

**Figure store** (`Figures`, `FigureDisk`, `FigureNames`, `FigureSessions`). A chain of seven-entry directory
blocks from block 0, and every content in consecutive blocks. After any sequence of additions the
catalogue of first additions determines the answer to every query and the size of the disk
(`FigureSessions.Serve`). The reader looks for a NUL, so a content that fills its last block is read
on into whatever follows, which the catalogue determines too; `Figures.ReadsBackExactlyWhen` says
exactly when a content comes back as it was stored. Where no NUL follows at all, the program's loop
never ends, because a read past the end leaves its buffer as it was; the model answers None there,
and `Figures.LoopMeans` shows that this is what None stands for.

**Discovery and requests** (`Strings`, `Tables`, `Routing`, `Datagrams`, `Requests`, `RouteTable`,
`Discovery`). Each routing table is determined by the messages received (`Routing.TableFromLog`,
`RouteTable.TableFromAnswers`); a printed catalogue parses back to exactly its names in both
protocols, up to and including the store it is printed from (`Discovery.AnnounceCatalogue`); a
requested name passes two printers and two parsers unchanged if and only if it is not empty and has
no space, CR or LF (`Requests.NameSurvives`).

**NachOS tools** (`Multiplier`, `Noff`). MULT leaves the exact signed product if and only if the three
low parts it drops sum below 2^16. Exactly when the COFF to NOFF converter succeeds is
`Noff.ConvertsExactlyWhen`, for every section table. For sections that do not overlap in memory it then
keeps the program if and only if at most one `.text` is live and every live `.bss` and `.sbss` lies in
the range that starts at the first of them and is as long as all of them (`Noff.FaithfulExactlyWhen`).

Conventions. A byte is a `char`, so that file texts and messages share one type; `Blocks.CString` is
what a `char*` reader sees. The definitions that everything else is stated through are themselves
pinned down by what the source's callers see: byte positions and block counts in numbers
(`BlockBytes`), names by strncmp (`FigureNames`), datagrams and requests by their characters
(`Datagrams`, the end of `Requests`), segments by section name (`Noff.Describes`). The precondition of a session says what the source needs: names its
assertion accepts, NUL-terminated texts, and block numbers, sizes and counters that stay inside a
C int. `empty_B` never returns a negative number, so the exits that test for one do not occur. Where
the source prints or locks, the model does nothing.

Where the code and its comments differ, the model follows the code. The converter's comment asks for
contiguous `.bss` and `.sbss`; the code refuses contiguous ones and merges all others.
A shutdown message carries a server name, but the code looks for it inside the stored ip
(`Routing.ShutdownByName`).

## Model

| member | source | states |
|---|---|---|
| FileSystems.FileSystem.ExtendDisk | Trabajo_clase_18/PruebaFileSystem/File_system.cc:63-80 | Growing the disk appends zero blocks, leaves every old block alone, raises total and free by the same number, and keeps the accounting. |
| FileSystems.FileSystem.ClaimFirstFree | Trabajo_clase_18/PruebaFileSystem/SuperBlock.cc:243-259 | One scan claims the lowest-numbered free block and changes only its flag and the counters; it fails, changing nothing, only when every block is owned. |
| FileSystems.FileSystem.EmptyB | Trabajo_clase_18/PruebaFileSystem/SuperBlock.cc:241-264 | First fit terminates after at most one extension, extends by 64 blocks exactly when the free counter is 0, and returns the lowest block that nothing owns. |
| FileSystems.FileSystem.FindInode | Trabajo_clase_18/PruebaFileSystem/SuperBlock.cc:290-297 | The index of an entry with this name, or -1 exactly when there is none. |
| FileSystems.FileSystem.RecordInode | Trabajo_clase_18/PruebaFileSystem/SuperBlock.cc:73-86 | Writing the new inode and linking it from the previous last one keeps the whole invariant and touches no owned block. |
| Steps.AppendKeepsLinks | Trabajo_clase_18/PruebaFileSystem/SuperBlock.cc:75-84 | A table whose entries point to one another in order still does after an inode is added; of the old entries only the last one changes, and only its pointer. |
| FileSystems.FileSystem.AdIno | Trabajo_clase_18/PruebaFileSystem/SuperBlock.cc:61-89 | Fails exactly for a taken name and then changes nothing; otherwise one block more is in use and owned by the new inode. |
| FileSystems.FileSystem.FillBlock | Trabajo_clase_18/PruebaFileSystem/SuperBlock.cc:115-129 | The block gets the next 251 or fewer bytes of the text, and a next block is claimed exactly when text is left. |
| FileSystems.FileSystem.LinkBlock | Trabajo_clase_18/PruebaFileSystem/SuperBlock.cc:132-137 | The pointer is written into the last four bytes only, and the inode counts the block. |
| FileSystems.FileSystem.WriteChunk | Trabajo_clase_18/PruebaFileSystem/SuperBlock.cc:114-138 | After one turn the block holds its piece and its successor, and every other block in use is unchanged. |
| FileSystems.FileSystem.StartFile | Trabajo_clase_18/PruebaFileSystem/SuperBlock.cc:98-112 | Claiming the first block and filling in the inode establishes the writer's invariant. |
| FileSystems.FileSystem.WriteTurn | Trabajo_clase_18/PruebaFileSystem/SuperBlock.cc:114-138 | Every turn of the writer keeps its invariant: the chain so far holds the text so far and leads to the current block. |
| FileSystems.FileSystem.WrFile | Trabajo_clase_18/PruebaFileSystem/SuperBlock.cc:91-141 | Afterwards the file has its whole text, the new blocks are its own (one orphan for an empty text), and the number of blocks taken is exact. |
| FileSystems.FileSystem.AdFile | Trabajo_clase_18/PruebaFileSystem/SuperBlock.cc:45-59 | A make fails exactly when the name is present and then changes nothing; otherwise the new file is last, owns every newly used block, and nothing else changed. |
| FileSystems.FileSystem.ReadBlocks | Trabajo_clase_18/PruebaFileSystem/SuperBlock.cc:196-238 | The loop terminates and gathers exactly the payloads along the pointers, or gives up where the source does. |
| FileSystems.FileSystem.RdFile | Trabajo_clase_18/PruebaFileSystem/SuperBlock.cc:180-239 | Returns the stored text of every non-empty file, and null for an absent name and for an empty file. |
| FileSystems.FileSystem.ClearBlock | Trabajo_clase_18/PruebaFileSystem/SuperBlock.cc:299-310 | The block becomes zero and its old pointer is returned. |
| FileSystems.FileSystem.FreeNext | Trabajo_clase_18/PruebaFileSystem/SuperBlock.cc:156-158 | One turn frees one more block of the chain and moves to the next. |
| FileSystems.FileSystem.FreeChain | Trabajo_clase_18/PruebaFileSystem/SuperBlock.cc:152-159 | The loop frees the whole chain of the file and no other block. |
| Deletion.RemovalKeepsLinks | Trabajo_clase_18/PruebaFileSystem/SuperBlock.cc:163-175 | A table whose entries point to one another in order still does after any entry is taken out, at the head, in the middle or at the tail; of the others at most one pointer changes. |
| FileSystems.FileSystem.FinishRemoval | Trabajo_clase_18/PruebaFileSystem/SuperBlock.cc:161-175 | Once the chain is free, dropping the inode restores the invariant for the layout without the file. |
| FileSystems.FileSystem.RemoveFile | Trabajo_clase_18/PruebaFileSystem/SuperBlock.cc:151-175 | Deleting keeps the invariant, frees exactly 1 + chain length blocks, and leaves every block that is still owned alone. |
| FileSystems.FileSystem.RmFile | Trabajo_clase_18/PruebaFileSystem/SuperBlock.cc:143-178 | Fails exactly for an absent name and then changes nothing; otherwise that file is gone and no other. |
| FileSystems.FileSystem.SaveInode | Trabajo_clase_18/PruebaFileSystem/SuperBlock.cc:281-285 | Writing one inode back keeps the ones already written and every file's text. |
| FileSystems.FileSystem.SaveBs | Trabajo_clase_18/PruebaFileSystem/SuperBlock.cc:266-288 | Afterwards the disk alone carries the whole state; only block 0 and inode blocks changed. |
| FileSystems.FileSystem.LoadHeader | Trabajo_clase_18/PruebaFileSystem/SuperBlock.cc:14-29 | A fresh disk gets the initial counters, a saved one its own. |
| FileSystems.FileSystem.LoadInodes | Trabajo_clase_18/PruebaFileSystem/SuperBlock.cc:31-42 | The walk through nextInode terminates and rebuilds exactly the saved table. |
| FileSystems.FileSystem.constructor | Trabajo_clase_18/PruebaFileSystem/SuperBlock.cc:11-43 | Opening a saved disk gives back every counter and the inode table; opening a fresh one gives the empty file system. |
| Volumes.InodeRoundTrip | Trabajo_clase_18/PruebaFileSystem/SuperBlock.cc:36-40 | The 52 bytes of an inode decode to the inode that was written. |
| Volumes.FullExactlyWhenAllOwned | Trabajo_clase_18/PruebaFileSystem/SuperBlock.cc:241-264 | In every sound state the free counter is 0 exactly when no block is free, so the scan can rely on it. |
| Volumes.TakeManyMeans | Trabajo_clase_18/PruebaFileSystem/SuperBlock.cc:241-264 | k allocations put exactly k more blocks in use and grow the disk by just enough whole extensions of 64. |
| Steps.WritingAdvances | Trabajo_clase_18/PruebaFileSystem/SuperBlock.cc:114-138 | A turn of the writer keeps separation, accounting, the table and the texts of all other files. |
| Deletion.TabledWithout | Trabajo_clase_18/PruebaFileSystem/SuperBlock.cc:161-175 | After a removal anywhere in the table, every nextInode is again the next entry's block, and 0 for the last. |
| Deletion.DeletingDone | Trabajo_clase_18/PruebaFileSystem/SuperBlock.cc:151-175 | The state at the end of a removal is sound and lacks exactly the blocks of that file. |
| Reading.FileReadsBack | Trabajo_clase_18/PruebaFileSystem/SuperBlock.cc:180-239 | Byte-level round trip for every non-empty text, exact multiples of 251 included: following the chain returns the text. |
| Reading.HeaderFields | Trabajo_clase_18/PruebaFileSystem/SuperBlock.cc:267-279 | The saved header decodes to the counters and to the first inode's block. |
| Reading.PersistentList | Trabajo_clase_18/PruebaFileSystem/SuperBlock.cc:281-285 | On a saved disk every inode block decodes to its table entry and points to the next one. |
| Theorems.FilesAreSeparate | Trabajo_clase_18/PruebaFileSystem/SuperBlock.cc:61-178 | Blocks of different files are disjoint, no chain repeats a block or contains its inode, and all are flagged and inside the disk. |
| Theorems.PointersFollowChain | Trabajo_clase_18/PruebaFileSystem/SuperBlock.cc:114-138 | From a file's first block the pointers on disk lead through its whole chain, of countBlock = ceil(size/251) blocks, and then to 0. |
| Theorems.Conservation | Trabajo_clase_18/PruebaFileSystem/SuperBlock.cc:143-264 | usedBlocks is the number of flagged blocks, free plus used is all, and the flagged blocks are the files' blocks and the orphans, disjointly; without orphans they are exactly the files' blocks. |
| Theorems.MakeThenDelete | Trabajo_clase_18/PruebaFileSystem/SuperBlock.cc:45-178 | Make then delete restores the inode table; it restores the disk bytes, up to zero blocks at the end, if and only if the text was not empty. |
| Theorems.ReadsStoredText | Trabajo_clase_18/PruebaFileSystem/SuperBlock.cc:180-239 | In every sound state, reading by name from the raw disk and table gives exactly the stored text. |
| Theorems.MakeFrame | Trabajo_clase_18/PruebaFileSystem/SuperBlock.cc:91-141 | A make, disk extensions included, changes what is read for no other name. |
| Theorems.DeleteFrame | Trabajo_clase_18/PruebaFileSystem/SuperBlock.cc:143-178 | A delete changes what is read for no other name. |
| Theorems.SaveFrame | Trabajo_clase_18/PruebaFileSystem/SuperBlock.cc:266-288 | Saving writes into no data chain and changes nothing that is read. |
| Theorems.DiskDeterminesState | Trabajo_clase_18/PruebaFileSystem/SuperBlock.cc:11-43 | Two saved states with the same disk image are the same state, so reloading can only give back what was saved. |
| BlockBytes.ChainBytes | Trabajo_clase_18/PruebaFileSystem/SuperBlock.cc:114-138 | The blocks of a file are ceil(n/251) many; each but the last holds 251 bytes of the text at its bytes 1 to 251, with a flag byte of 1 before them and the next block's number in bytes 252 to 255. |
| BlockBytes.FlagBytes | Trabajo_clase_18/PruebaFileSystem/SuperBlock.cc:244-253 | The flag byte of a block in use is 1, and a free block is 256 zero bytes. |
| BlockBytes.SavedInodeBytes | Trabajo_clase_18/PruebaFileSystem/SuperBlock.cc:281-285 | On a saved disk an inode is behind its block's flag byte: a name field of 32 bytes, then size, origBlock, startBlock, countBlock and nextInode. |
| BlockBytes.MakeCost | Trabajo_clase_18/PruebaFileSystem/SuperBlock.cc:45-59 | A make of n > 0 bytes raises usedBlocks by exactly 1 + ceil(n/251), of an empty text by 2, and grows the disk by as many whole extensions of 64 blocks as that needs. |
| BlockBytes.DeleteCost | Trabajo_clase_18/PruebaFileSystem/SuperBlock.cc:143-178 | A delete lowers usedBlocks by exactly 1 + ceil(n/251) and leaves the size of the disk. |
| Sessions.CallCost | Trabajo_clase_18/PruebaFileSystem/SuperBlock.cc:45-178 | Every call changes the blocks in use by exactly what the stored texts need more or less, plus one for an empty text. |
| Sessions.UsedOverRun | Trabajo_clase_18/PruebaFileSystem/SuperBlock.cc:45-178 | Over every run the counters alone show the blocks the stored texts need, plus one for every empty text ever made. |
| Sessions.OrphansMade | Trabajo_clase_18/PruebaFileSystem/SuperBlock.cc:91-141 | A make leaves exactly one new orphan, its data block, if its text is empty, and none otherwise. |
| Sessions.OrphansWithout | Trabajo_clase_18/PruebaFileSystem/SuperBlock.cc:143-178 | A delete gives no orphan back. |
| Sessions.OrphansOverRun | Trabajo_clase_18/PruebaFileSystem/SuperBlock.cc:45-178 | In every state a run reaches, the orphans are as many as the empty texts ever made; with none, the files' blocks are exactly the flagged ones. |
| Sessions.Perform | Trabajo_clase_18/PruebaFileSystem/File_system.cc:42-61 | Each call, a restart included, gives the finite map's answer and moves to the finite map's next state. |
| Sessions.Session | Trabajo_clase_18/PruebaFileSystem/File_system.cc:12-80 | After every permitted sequence of calls, restarts included, the file system is sound and holds the finite map's texts, counters and number of orphans. |
| Sessions.Run | Trabajo_clase_18/PruebaFileSystem/File_system.cc:12-80 | From a fresh disk, every permitted sequence of calls gets the answers of a finite map from names to texts, across any restarts, and ends with the predicted counters, which are numbers of 251-byte pieces and of 64-block extensions. |
| FigureDisks.FigureDisk.InitDisk | Tarea_corta_22/src/FileSystem.cc:42-51 | The first n blocks are an empty directory chain, and the store is sound; for n = 0 the disk is empty. |
| FigureDisks.FigureDisk.WriteBlock | Tarea_corta_22/src/FileSystem.cc:14-19 | One block changes and no other. |
| FigureDisks.FigureDisk.AppendData | Tarea_corta_22/src/FileSystem.cc:106-111 | Allocating a block and writing it makes the disk longer by exactly those bytes. |
| FigureDisks.FigureDisk.StoreChunk | Tarea_corta_22/src/FileSystem.cc:105-113 | One more block of a content makes the last run longer by that piece and keeps the partition of the disk. |
| FigureDisks.FigureDisk.StoreFigureData | Tarea_corta_22/src/FileSystem.cc:102-115 | A content goes into exactly ceil(len/256) consecutive fresh blocks, as a new run. |
| FigureDisks.FigureDisk.FindEntry | Tarea_corta_22/src/FileSystem.cc:53-67 | The directory walk terminates and finds the slot that holds the name, or shows that none does. |
| FigureDisks.FigureDisk.FigureExists | Tarea_corta_22/src/FileSystem.cc:53-67 | True exactly for a stored name, and for the empty name while a slot is free. |
| FigureDisks.FigureDisk.ReadRunFrom | Tarea_corta_22/src/FileSystem.cc:195-203 | Reads blocks until one holds a NUL; None where the loop never ends. |
| FigureDisks.FigureDisk.GetFigureContent | Tarea_corta_22/src/FileSystem.cc:186-210 | The run of a stored name, and the not-found text for every other non-empty name; the empty name reads from block 0 while a slot is free. |
| FigureDisks.FigureDisk.LinkNewBlock | Tarea_corta_22/src/FileSystem.cc:87-94 | A new last block is linked from the old last one, and no other block changes. |
| FigureDisks.FigureDisk.ExtendChain | Tarea_corta_22/src/FileSystem.cc:86-96 | Growing the directory keeps it an acyclic chain from block 0 and the disk partitioned. |
| FigureDisks.FigureDisk.AppendToDirectory | Tarea_corta_22/src/FileSystem.cc:69-100 | The name becomes the last of the directory; a block is added exactly when all slots are taken. |
| FigureDisks.FigureDisk.AddFigure | Tarea_corta_22/src/FileSystem.cc:117-125 | A stored name changes nothing, nor does the empty name while a slot is free; a new one is added last with its content as a new run, and the disk grows by exactly the blocks needed. |
| FigureDisks.FigureDisk.GetFigureNamesCSV | Tarea_corta_22/src/Server.cc:134-154 | The printed list is the stored names as they print, in the order they were added, joined with commas; a name of 32 bytes prints with the start of its block number. |
| FigureDisks.FigureDisk.JoinBlock | Tarea_corta_22/src/Server.cc:142-148 | One directory block adds exactly its names, with a comma before each but the very first. |
| FigureDisks.FigureDisk.CountBlocks | Tarea_corta_22/src/FileSystem.cc:162-171 | The count of blocks up to the first with a NUL; None where the loop never ends. |
| FigureDisks.FigureDisk.GetFigureList | Tarea_corta_22/src/FileSystem.cc:148-183 | For every store, each stored name in order with the blocks counted for it; None exactly when some count never ends. |
| FigureDisks.ShortNamesPrint | Tarea_corta_22/src/Server.cc:143-146 | Names shorter than 32 bytes print as they were stored. |
| Figures.EntryPrints | Tarea_corta_22/src/Server.cc:145 | An entry prints as its name, and a name of 32 bytes runs on into the block number behind it. |
| Figures.CountsExactlyWhen | Tarea_corta_22/src/FileSystem.cc:162-171 | The list shows ceil(len/256) blocks for a content if and only if no NUL comes before its last block and the reader finds its end. |
| Figures.LoopMeans | Tarea_corta_22/src/FileSystem.cc:195-203 | The read loop, with a buffer that a read past the end leaves alone, ends with exactly the text and count the model gives, and never ends where the model says None. |
| Figures.RunExtended | Tarea_corta_22/src/FileSystem.cc:105-113 | Appending a block to the newest run keeps the whole invariant. |
| Figures.NameInNewBlock | Tarea_corta_22/src/FileSystem.cc:86-96 | A name in a freshly linked directory block keeps the whole invariant. |
| Figures.DirWalk | Tarea_corta_22/src/FileSystem.cc:63-64 | The i-th directory block points to the next, and to 0 exactly for the last one. |
| FigureNames.SameKeyExactlyWhen | Tarea_corta_22/src/FileSystem.cc:59 | The store takes two names for the same exactly when strncmp finds them equal up to 32 characters. |
| FigureNames.EntryMatchesExactlyWhen | Tarea_corta_22/src/FileSystem.cc:194 | A directory entry matches a name exactly when strncmp with its 32-byte field says so. |
| FigureNames.EntryHolds | Tarea_corta_22/src/FileSystem.cc:79 | An entry's field holds what strncpy leaves: up to 32 characters of the name, then zeros. |
| FigureNames.DirectoryBytes | Tarea_corta_22/src/FileSystem.cc:69-96 | Rank 7i + e of the names is in slot e of the i-th directory block, at byte 36e, with its block number at 36e + 32, and the link to the next block is at byte 252. |
| FigureNames.ContentBytes | Tarea_corta_22/src/FileSystem.cc:102-115 | A content is on the disk byte for byte from its first block on, filled up with zeros to whole blocks of 256. |
| FigureNames.FullNamePrintsOn | Tarea_corta_22/src/Server.cc:145 | A name of 32 characters prints with the low byte of its block number behind it, a shorter one as it is. |
| Figures.RunReadsBack | Tarea_corta_22/src/FileSystem.cc:195-203 | From any of its blocks on, a content that ends inside its own blocks reads back up to its first NUL. |
| Figures.UnterminatedReadsOn | Tarea_corta_22/src/FileSystem.cc:195-203 | A content that fills its last block without a NUL is read on into whatever follows it. |
| Figures.ReadsBackExactlyWhen | Tarea_corta_22/src/FileSystem.cc:195-203 | A stored figure reads back as it was added if and only if it has no NUL and either its length is not a multiple of 256 or the block behind it starts with a NUL. |
| Figures.CharactersReadBack | Tarea_corta_22/src/FileSystem.cc:195-203 | Among figures that start with a character, exactly those without a NUL whose length is not a multiple of 256 read back. |
| FigureSessions.CatalogueIsFirstAdditions | Tarea_corta_22/src/FileSystem.cc:117-125 | In the catalogue of any log, every name added is listed with the content of its first addition. |
| FigureSessions.NotAddedNotListed | Tarea_corta_22/src/FileSystem.cc:117-125 | A name that was never added is not listed. |
| FigureSessions.FirstAdditionAnswers | Tarea_corta_22/src/FileSystem.cc:117-125 | A name answers with the content of the first addition whose name strncmp finds equal to it, up to that content's first NUL, for every content the reader finds the end of. |
| FigureSessions.NeverAddedAnswers | Tarea_corta_22/src/FileSystem.cc:209 | A name that equals none that was added answers with the not-found text. |
| FigureSessions.FittingNames | Tarea_corta_22/src/FileSystem.cc:59 | For NUL-free names of 1 to 32 characters, being the same name is being equal. |
| FigureSessions.ReadsMeans | Tarea_corta_22/src/FileSystem.cc:195-203 | Reading any stored content, terminated or not, gives what the catalogue determines: its text, or its text and that of the directory block or content behind it, or an endless loop. |
| FigureSessions.WhatFollows | Tarea_corta_22/src/FileSystem.cc:117-125 | Behind every content lies the directory block its name needed, or the next content, or the end of the disk. |
| FigureSessions.Query | Tarea_corta_22/src/FileSystem.cc:186-210 | Every name, stored or not, empty or not, gets the answer the catalogue determines. |
| FigureSessions.Build | Tarea_corta_22/src/FileSystem.cc:42-125 | Any permitted sequence of additions from initDisk leaves a sound store that matches the catalogue of the log. |
| FigureSessions.Serve | Tarea_corta_22/src/FileSystem.cc:42-210 | Every query after every sequence of additions gets the answer the catalogue determines: the first content added under an equal name, or the not-found text; and the disk has exactly the directory and data blocks the catalogue needs. |
| Routing.TableFromLog | Tarea_corta_22/src/Tenedor.cc:82-127 | A figure maps to the ip of the last message that announced it, unless a later shutdown names a substring of that ip. |
| Routing.ShutdownByName | Tarea_corta_22/src/Tenedor.cc:116-126 | A shutdown under the server's own name removes its figures if and only if the name is a substring of the ip. |
| Datagrams.ReceivedMeans | Tarea_corta_22/src/Tenedor.cc:67-77 | A datagram is read as at most 4095 characters, up to the first NUL. |
| Datagrams.ParsesExactly | Tarea_corta_22/src/Tenedor.cc:82-127 | Exactly which texts are announcements, shutdowns (with everything behind 18 characters as the name), cut shutdowns or ignored. |
| Datagrams.ShutdownParses | Tarea_corta_22/src/Tenedor.cc:116-117 | The datagram "Request: Shutdown " followed by a name that fits is a shutdown of that name. |
| Datagrams.CutShutdownParses | Tarea_corta_22/src/Tenedor.cc:116-117 | The 17 characters "Request: Shutdown" alone are a cut shutdown. |
| Datagrams.AnnouncementParses | Tarea_corta_22/src/Tenedor.cc:82-101 | The characters of an announcement parse to what stands before, between and behind its first two pipes, trimmed. |
| Datagrams.ShutdownOverRun | Tarea_corta_22/src/Tenedor.cc:116-126 | After one more shutdown datagram a figure is routed if and only if it was and the name occurs nowhere in its ip; its ip is the same. |
| Datagrams.AnnouncementOverRun | Tarea_corta_22/src/Tenedor.cc:82-112 | After one more announcement datagram exactly its listed figures are routed to its ip, and every other route is as it was. |
| Datagrams.IgnoredOverRun | Tarea_corta_22/src/Tenedor.cc:82-127 | Any other datagram leaves the table as it was. |
| Datagrams.TrimMeans | Tarea_corta_22/src/Tenedor.cc:96-101 | Trimming takes the spaces and tabs off both ends, and nothing else. |
| Datagrams.ListRegistersExactly | Tarea_corta_22/src/Tenedor.cc:103-112 | A list registers exactly the names that its comma-separated pieces hold between spaces and tabs. |
| Routing.SplitInvertsJoin | Tarea_corta_22/src/Tenedor.cc:103-106 | Splitting a joined list of comma-free names gives the names back. |
| Routing.ParseAnnounce | Tarea_corta_22/src/Tenedor.cc:82-101 | A printed announcement parses to its trimmed fields when name and ip have no pipe. |
| Routing.CatalogueRoundTrip | Tarea_corta_22/src/Tenedor.cc:82-112 | An announced catalogue that fits the buffer routes exactly its names to that ip and changes no other route. |
| Discovery.AnnounceCatalogue | Tarea_corta_22/src/Server.cc:203-213 | For every store whose printed names are listable, announcing its catalogue routes exactly its figures to the server's ip and changes no other route. |
| Routing.Listener.RegisterAll | Tarea_corta_22/src/Tenedor.cc:103-112 | The loop over a list registers exactly its trimmed, non-empty names. |
| Routing.Listener.EraseMatching | Tarea_corta_22/src/Tenedor.cc:120-126 | Erasing while iterating removes exactly the entries whose ip contains the name. |
| Routing.Listener.Handle | Tarea_corta_22/src/Tenedor.cc:82-127 | One message takes the table to its next state; a shutdown cut before its name raises an exception nothing catches, which ends the whole process. |
| Routing.Listen | Tarea_corta_22/src/Tenedor.cc:62-128 | Any run leaves the table that is read off the messages before the first cut shutdown, with which the process ends; `Datagrams.Final` is that table, one datagram at a time. |
| Requests.BalancerParses | Tarea_corta_22/src/Tenedor.cc:164-174 | The balancer reads the client's name up to its first space. |
| Requests.BetweenPrinted | Tarea_corta_22/src/Server.cc:80-86 | The server finds the printed path between the verb and the version. |
| Requests.ServerParses | Tarea_corta_22/src/Server.cc:79-105 | The server asks for the forwarded name without its line ends, even when the request is cut behind its first line. |
| Requests.Task | Tarea_corta_22/src/Server.cc:79-105 | The figure server's parser, with its url edited in place, does what the request calls for, as the rows below say on the request's text. |
| Requests.ListAsks | Tarea_corta_22/src/Server.cc:95-97 | The request for /LIST asks for the list. |
| Requests.FigureAsks | Tarea_corta_22/src/Server.cc:98-107 | A path without /GET/ that is not /LIST asks for the figure behind its slash. |
| Requests.PrefixedAsks | Tarea_corta_22/src/Server.cc:98-107 | With /GET/ before it, any name asks for that figure. |
| Requests.BareNameAsks | Tarea_corta_22/src/Server.cc:98-107 | A name without a slash asks for that figure too. |
| Requests.InvalidExactlyWhen | Tarea_corta_22/src/Server.cc:80-119 | A request is invalid exactly when it does not start with "GET ". |
| Requests.NoResponseExactlyWhen | Tarea_corta_22/src/Server.cc:80-84 | A request gets no response text exactly when it starts with "GET " and has no " HTTP". |
| Requests.LineEndsVanish | Tarea_corta_22/src/Server.cc:88-90 | A carriage return or line feed anywhere in the path has no effect. |
| Requests.EmptyPathAsks | Tarea_corta_22/src/Server.cc:81-86 | With " HTTP" directly behind the verb, the rest of the request is the path. |
| Requests.BalancerParsesExactly | Tarea_corta_22/src/Tenedor.cc:164-174 | On any request the balancer takes the characters between the first "GET /" and the next space. |
| Requests.BalancerFindsNothing | Tarea_corta_22/src/Tenedor.cc:164-174 | A request without a "GET /" or without a space names no figure. |
| Requests.ForwardsExactlyWhen | Tarea_corta_22/src/Tenedor.cc:288-303 | A request is forwarded exactly when it names a routed figure, to that figure's server and with that figure's own request text. |
| Requests.ReadMeans | Tarea_corta_22/src/Server.cc:66-67 | One read takes the first 4095 characters. |
| Requests.NameSurvives | Tarea_corta_22/src/Client.cc:22 | A known name reaches the server it is routed to unchanged if and only if it is not empty and has no space, CR or LF. |
| RouteTable.SplitRegex | Trabajo_clase_24/Servergrupo nacho/Fork_Server.cc:40-53 | The non-empty pieces between successive leftmost, greedy matches of \s*sep\s*. |
| RouteTable.TokensArePieces | Trabajo_clase_24/Servergrupo nacho/Fork_Server.cc:40-53 | The computed tokens are pieces between successive matches of the regular expression. |
| RouteTable.PiecesUnique | Trabajo_clase_24/Servergrupo nacho/Fork_Server.cc:40-53 | There is only one way to cut a text at those matches. |
| RouteTable.SpacesAre | Trabajo_clase_24/Servergrupo nacho/Fork_Server.cc:64-69 | A space in the regular expressions is the blank or one of the characters 9 to 13. |
| RouteTable.ParsedExactlyWhen | Trabajo_clase_24/Servergrupo nacho/Fork_Server.cc:63-72 | An answer says something exactly when it has three non-empty pieces: name, ip, and the figures between the commas of the third. |
| RouteTable.OtherAnswersChangeNothing | Trabajo_clase_24/Servergrupo nacho/Fork_Server.cc:65 | An answer with any other number of pieces leaves every route as it was. |
| RouteTable.TableFromAnswers | Trabajo_clase_24/Servergrupo nacho/Fork_Server.cc:63-78 | A figure is routed to the sender of the last answer that lists it, and a figure that no answer lists is not routed. |
| RouteTable.ForkServer.AddRoute | Trabajo_clase_24/Servergrupo nacho/Fork_Server.cc:63-78 | An answer joins the log that the table stands for; one whose non-empty pieces are not exactly three leaves the table as it was. |
| RouteTable.ForkServer.SearchRoute | Trabajo_clase_24/Servergrupo nacho/Fork_Server.cc:101-105 | Found exactly for a figure some answer listed, with the sender of the last answer that did. |
| RouteTable.TokensOfJoin | Trabajo_clase_24/Servergrupo nacho/Fork_Server.cc:69 | The splitter inverts the joiner on routable names. |
| RouteTable.ResponseFields | Trabajo_clase_24/Servergrupo nacho/Figure_server.cc:187 | A printed answer has its name and ip as the first fields, and the list as third exactly when it is not empty. |
| RouteTable.RouteRoundTrip | Trabajo_clase_24/Servergrupo nacho/Fork_Server.cc:63-78 | Registering a printed answer routes exactly the listed names to that name and ip and leaves all other routes alone; an empty catalogue registers nothing. |
| RouteTable.ListFile | Trabajo_clase_24/Servergrupo nacho/File_system.cc:82-99 | The catalogue is the non-empty file names in table order, joined with commas. |
| RouteTable.StoredFilesAreRouted | Trabajo_clase_24/Servergrupo nacho/Figure_server.cc:177-187 | For every sound file system with routable names, its answer registers exactly its files. |
| Multiplier.MagnitudeHigh | Trabajo_clase_12/NachOSx64/code/bin/execute.c:152-156 | HI before the sign fix is the true high word less the dropped carry, which is 0, 1 or 2. |
| Multiplier.ComplementNegates | Trabajo_clase_12/NachOSx64/code/bin/execute.c:157-161 | The complement sequence is exact 64-bit negation of HI:LO. |
| Multiplier.Registers.Mult | Trabajo_clase_12/NachOSx64/code/bin/execute.c:140-163 | With 32-bit wrap-around, LO is the low word of the signed product for all operands, and HI:LO is the product moved towards zero by the dropped carry. |
| Multiplier.ErrorsOccur | Trabajo_clase_12/NachOSx64/code/bin/execute.c:156 | Concrete operands for which the product is two units of the high word too low, and one unit too high. |
| Multiplier.MultExactWhen | Trabajo_clase_12/NachOSx64/code/bin/execute.c:140-163 | MULT is exact if and only if the dropped low parts sum below 2^16; otherwise it is off by one or two units of the high word. |
| Noff.HeaderDescribes | Trabajo_clase_12/NachOSx64/code/bin/coff2noff.c:160-221 | After any list that converts, each header segment copies the last live section of its kind, and the uninitialised one has the size of all of them. |
| Noff.ImageByName | Trabajo_clase_12/NachOSx64/code/bin/coff2noff.c:155-223 | In every written image the ints at 4, 8 and 12 are address, position and size of the last .text with bytes, those at 16, 20 and 24 of the last .data or .rdata, those at 28 and 36 address of the first and size of all .bss and .sbss; a size is 0 exactly when there is none, and the positions hold the sections' bytes. |
| Noff.ConvertsByName | Trabajo_clase_12/NachOSx64/code/bin/coff2noff.c:164-221 | Exactly when a section table converts, said with section names. |
| Noff.ErrorByName | Trabajo_clase_12/NachOSx64/code/bin/coff2noff.c:184-219 | Which error the program exits with, from the name of the first section that does not convert and those before it. |
| Noff.FileLayout | Trabajo_clase_12/NachOSx64/code/bin/coff2noff.c:161-197 | A live file-backed section's segment starts right behind the header if it comes first, and right behind the other segment if it comes second; one alone starts behind the header. |
| Noff.SegmentsFillFile | Trabajo_clase_12/NachOSx64/code/bin/coff2noff.c:161-223 | The segments follow each other without a gap or an overlap, and with the header they fill the file. |
| Noff.LoadsTheSame | Trabajo_clase_12/NachOSx64/code/bin/coff2noff.c:160-223 | With at most one live section of each kind, loading the image by its header stores the same bytes at the same addresses as loading the sections, overlapping or not. |
| Noff.ConvertsExactlyWhen | Trabajo_clase_12/NachOSx64/code/bin/coff2noff.c:164-221 | For every section table the conversion succeeds if and only if every live section is known and inside the file, at most one data section is live, and no .bss or .sbss starts where those before it would end, counted from the first. |
| Noff.FaithfulExactlyWhen | Trabajo_clase_12/NachOSx64/code/bin/coff2noff.c:160-223 | For every converting table of sections that do not overlap, the image loads the same bytes at the same addresses if and only if at most one .text is live and every live .bss and .sbss lies in the zero segment's range. |
| Noff.BssCovers | Trabajo_clase_12/NachOSx64/code/bin/coff2noff.c:198-214 | Where disjoint .bss and .sbss sections fit a range as long as all of them, they cover every address of it. |
| Noff.EarlierTextLost | Trabajo_clase_12/NachOSx64/code/bin/coff2noff.c:170-179 | Where .bss and .sbss fit, two live .text sections that do not overlap keep the conversion from being faithful. |
| Noff.TwoBssAlone | Trabajo_clase_12/NachOSx64/code/bin/coff2noff.c:198-214 | A witness: a list of just two live .bss or .sbss sections is refused or not kept. |
| Noff.ThreeBssCanFit | Trabajo_clase_12/NachOSx64/code/bin/coff2noff.c:198-214 | A witness: a third section that fills the gap between two makes the conversion faithful. |
| Noff.TwoTextsAlone | Trabajo_clase_12/NachOSx64/code/bin/coff2noff.c:170-179 | A witness: in a list of just two live .text sections no byte of the first is loaded where the second does not reach. |
| Noff.HeaderRoundTrip | Trabajo_clase_12/NachOSx64/code/bin/coff2noff.c:222-223 | The 40 header bytes decode to the header and its magic number. |
| Noff.Convert | Trabajo_clase_12/NachOSx64/code/bin/coff2noff.c:155-225 | The loop writes exactly the converted image, whose header describes the sections by their names, or exits with exactly its error, and the header written last overwrites no segment. |

## Left out

- Sockets, SSL, threads, timeouts, `select`, signals and locks; received messages and requests are arbitrary inputs.
- The mechanics of `std::fstream` (reopening, flushing, stream state); a disk is its bytes, and a write past the end fills with zeros.
- Printing. `getFigureList` is modelled as the list of its figures and counts, without the heading and block lines around them.
- The server's second test of a content: a figure that is empty or equals the not-found text is answered with 404.
- The client's LIST request and the balancer's own 400, 404 and 5xx answers beyond the fact that nothing is forwarded.
- The connection table `sockets` of the fork server, and the reassembly of a response from short reads.
- Copies of the same file systems in other directories (`Trabajo_clase_18/ServidorHTTP`, `Trabajo_clase_22/PruebaFileSystem`, `Trabajo_clase_19/src`) and the file system part of `Trabajo_clase_24/Servergrupo nacho`, except its `list_file`.
- The FAT prototype, the semaphore simulation, the NachOS lists and stacks, and the rest of the MIPS interpreter.
- Opening the figure store on an existing disk (`nextFreeBlock` is not restored), an empty content under a new name (undefined `front()`), and adding an empty name once every slot is taken.
- Walking the directory of a store made by `initDisk(0)`: the block it reads is not there, and the structure it reads into is not initialised.
- Running out of 32-bit block numbers, sizes or counters: sessions whose disks would pass 2^23 blocks are outside the preconditions. The coff2noff sizes likewise have to stay inside an int.
- `strlen` of a full 256-byte buffer reads behind it in C; it is modelled as "there is a NUL among the 256 bytes".
- Addresses of NOFF segments that no section fills are not initialised by the program; the model has 0.
- The COFF file and system headers with their magic numbers, and the byte-order conversion of the section table.
- Regular expressions other than a separator between `\s*` and `\s*`, and `\s` beyond the six ASCII spaces.
- The order of entries in a `std::map`; only the mapping is modelled.
- Noff.LoadsTheSame: compares which bytes are stored at which addresses, not the order of the stores where sections overlap in memory.
- Noff.FaithfulExactlyWhen: is about sections that do not overlap in memory; where they do, the contents depend on the order of loading.
