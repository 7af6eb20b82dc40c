# Verified model of the MPSS host tools

This project models the parts of the Intel MPSS (Manycore Platform Software Stack) host software
that build a card's file system image, edit its configuration and user files, and run its DMA
channels, and proves what they keep and what they undo. `dafny verify dfyconfig.toml` checks it.

**The image.** `Overlay` is the specification of the overlay tree: a map from paths to entries
and what an insertion does to it. `FileTrees` is the C structure itself, nodes linked by
`subdir`, `next` and `prev`, and proves that the insertion code performs the map update on it.
`ImageSources` stacks base, common, overlay and card directories. `Preorder` says what a complete
listing is, `Newc` is the cpio record format with a reader, `ImageRecords` decides what record an
entry gets, `ImageWriter` is the walk over the linked tree with its wrapping offset counter,
`InitrdImage` puts these together, and `Unpacking` unpacks the image again. The chain ends in:
the tree determines every byte, readdir order does not matter for entries that cannot get in each
other's way, and reading and unpacking the image rebuilds the tree's path map under exact
conditions.

**The configuration.** `TextFiles` is reading by `fgets`, `ConfigLexer` the lexer that cuts words
out of the line buffer in place, `ConfigParser` the dispatch over the 26 parameters, `ConfigEdit`
the line editor, `PowerManagement` the power management setter and reader, and `RootDevice` the
change of root type. They compose: edit the text, lex and parse it again, read the value back.
`SafeRename` is the replacement of a file with a failure possible at every system call, and
`ConfigFiles` the editor on top of it.

**Smaller machines.** `DmaRegisters` and `DmaChannels` are the channel table and its registers,
`Fstab` and `Passwd` the editors of those files, and `CardList` the sorted list of cards.

Conventions. A C `char` is a Dafny `char`, and a C string is a sequence of them without NUL.
Integers have explicit widths where the code's width matters: the offset and inode counters, the
header fields, user and group ids, device numbers, registers. The file system of the host, the
result of `stat`, the time and the fate of system calls are parameters. Memory allocation
succeeds. `MKDEV`, `MAJOR` and `MINOR` are those of `linux/kdev_t.h`, and `atoi` is that of
glibc: it keeps to the range of a 64-bit long and is then cut to 32 bits.

Where the code and what it says or seems to intend part ways, the model follows the code:

- The comment on `mpssut_rename` says that a missing destination just proceeds. The code returns
  1 then, and has by that time removed an existing `.orig` file (`Install`). So
  `mpss_update_config` has a branch for a missing file but never creates one (`UpdateFile`).
- `mpssut_rename` takes a failed read for the end of the file and reports success (`Install` has
  the exact condition, `LossySuccess` a run).
- `mpss_update_config` looks at no result of its writes, and takes a file it cannot open for an
  empty one (`UpdateFile`, `UpdateIsMeant`; `LostUpdate` is a run that succeeds and loses the file).
- A parameter, user or NFS entry added to a file without a final newline is glued to its last
  line and lost (`GluedUpdateIsLost`, `GluedUserIsLost`, `GluedEntryIsLost`).
- `rootdev` skips a request that names the current type, but compares with the lower-case names
  only: `RamFS` on a card with that type is carried out (`SkippedInLowerCase`). An unknown type is
  noticed after the old lines are gone (`ChangeRoot`, `RunKeepsOneRoot`).
- A RootDevice line that does not fit the buffer is cut in the file (`SetRamfsRoot`).
- `mpss_update_config` with no prefix to match looks for the text DONOTMATCH, and replaces lines
  that start with it (`ChangeLeavesOne` gives the exact count).
- `_get_miclist_present` returns the node inserted last, not the first (`ReturnedIsComplete`), and
  `mpss_get_miclist` builds on that (`AllCardsPromised`).
- `remove_user` drops lines that do not parse along with the user's (`RemoveUser`,
  `RemoveUndoesInsert`).
- `insert_user` does not look for colons in a name (`RunStaysDistinct`, `ColonClash`).
- `insert_list` descends through an existing entry of any type. What ends up below a
  non-directory is kept in the tree, but no walk reaches it (`InsertMeaning`, `FollowDir`).
- A path that ends in a slash, or is empty, inserts directories on the way but no entry
  (`InsertMeaning`).
- Mount directories made of slashes only do not match the line written for them
  (`AddLeavesOne`).
- The parser compares keywords with the text at the start of the line, so a keyword behind
  leading white space, or a quoted one, is not recognised (`NotRecognised`).

## Model

| member | source | states |
|---|---|---|
| `Overlay.InsertMeaning` | mpss3/mpss-daemon/libmpssconfig/genfs.c:766-825 | what one insertion does to every single path, field by field: a new target is added as it is, an existing one of its type takes source, mode, uid and gid and keeps type, link target and device numbers, one of another type is left alone; missing directories on the way appear with mode 0755 and root as owner; nothing else changes |
| `Overlay.SameTypeMeans` | mpss3/mpss-daemon/libmpssconfig/genfs.c:723-749 | two entries are of one type when both are directories, both files, both links, both devices, both pipes or both sockets |
| `Overlay.RejectedShows` | mpss3/mpss-daemon/libmpssconfig/genfs.c:723-749 | an insertion is refused exactly when afterwards there is an entry of another type under its path |
| `Overlay.InsertKeepsClosed` | mpss3/mpss-daemon/libmpssconfig/genfs.c:640-825 | an insertion never loses a path, and every path in the tree keeps having its parent in the tree |
| `Overlay.RejectedChangesNothing` | mpss3/mpss-daemon/libmpssconfig/genfs.c:723-749 | an entry of another type under an existing name leaves the whole tree as it is |
| `Overlay.Commute` | mpss3/mpss-daemon/libmpssconfig/genfs.c:766-825 | two insertions at different paths can be swapped if and only if neither puts a new non-directory at a proper prefix of the other's path |
| `Overlay.OrderIndependent` | mpss3/mpss-daemon/libmpssconfig/genfs.c:766-825 | any two orders of the same insertions with pairwise different paths give the same tree, when no inserted non-directory is a prefix of another path |
| `Overlay.OrderMatters` | mpss3/mpss-daemon/libmpssconfig/genfs.c:766-825 | for insertions with pairwise different paths, all orders give the same tree if and only if none puts a new non-directory at a proper prefix of another's path |
| `Overlay.RunKeepsClosed` | mpss3/mpss-daemon/libmpssconfig/genfs.c:511-563 | every reachable tree is closed under parents and only grows |
| `Overlay.NodeIsKept` | mpss3/mpss-daemon/libmpssconfig/genfs.c:723-749 | over any run a path keeps its type, link target and device numbers |
| `Overlay.UntouchedIsKept` | mpss3/mpss-daemon/libmpssconfig/genfs.c:766-825 | a path that no insertion of a run names or passes through is as before |
| `Overlay.RunPaths` | mpss3/mpss-daemon/libmpssconfig/genfs.c:766-825 | over any run the tree holds exactly the paths it had and those that an insertion names or passes through |
| `Overlay.FirstTypeWins` | mpss3/mpss-daemon/libmpssconfig/genfs.c:723-749 | over any run a path has the type, link target and device numbers of the first insertion that reached it, a directory when that one only passed through |
| `Overlay.LastWriterWins` | mpss3/mpss-daemon/libmpssconfig/genfs.c:742-745 | over any run the source of a path is the source of the last insertion of the path with the path's type, and so are mode, uid and gid |
| `Overlay.InventedKeepsDefaults` | mpss3/mpss-daemon/libmpssconfig/genfs.c:618-638 | a directory that was only ever passed through keeps mode 0755 and root as owner |
| `FileTrees.FileTree.Missing` | mpss3/mpss-daemon/libmpssconfig/genfs.c:618-638 | an invented node is an empty default directory of the given name |
| `FileTrees.Image.constructor` | mpss3/mpss-daemon/libmpssconfig/genfs.c:516-527 | the empty image is well-formed and holds the root directory, mode 0555, alone |
| `FileTrees.Image.InsertList` | mpss3/mpss-daemon/libmpssconfig/genfs.c:766-825 | in a well-formed tree of linked nodes (siblings strictly ascending by strcmp, prev and next inverse to each other, no node in two lists) the code on linked nodes performs exactly the path-map insertion and returns 1 exactly on a type clash, and the tree stays well-formed |
| `FileTrees.Image.InsertAmong` | mpss3/mpss-daemon/libmpssconfig/genfs.c:788-824 | the walk along the siblings finds the one place: before a larger name (which then has a predecessor), on an equal one, or at the tail |
| `CText.StrLessMeans` | mpss3/mpss-daemon/libmpssconfig/genfs.c:788-824 | the comparison of sibling names: one is less if and only if it has the smaller character, or ends, where the two first differ |
| `FileTrees.Image.InsertSubdir` | mpss3/mpss-daemon/libmpssconfig/genfs.c:640-662 | the first child of an empty directory |
| `FileTrees.Image.InsertTop` | mpss3/mpss-daemon/libmpssconfig/genfs.c:664-691 | a child before the first one |
| `FileTrees.Image.InsertBefore` | mpss3/mpss-daemon/libmpssconfig/genfs.c:693-721 | a child between two others; reached only on a node whose prev is not null |
| `FileTrees.Image.InsertTail` | mpss3/mpss-daemon/libmpssconfig/genfs.c:803-824 | a child after the last one |
| `FileTrees.Image.OverwriteEntry` | mpss3/mpss-daemon/libmpssconfig/genfs.c:723-749 | an existing child: descend when path is left, whatever its type, otherwise overwrite or reject |
| `FileTrees.Image.TakeOver` | mpss3/mpss-daemon/libmpssconfig/genfs.c:742-745 | overwriting gives one path source, mode, uid and gid of the new entry, and keeps its type, link target and device numbers, its subtree and all other paths |
| `FileTrees.Image.ContentsClosed` | mpss3/mpss-daemon/libmpssconfig/genfs.c:640-825 | the paths of a well-formed image are closed under parents |
| `FileTrees.Image.KidNames` | mpss3/mpss-daemon/libmpssconfig/genfs.c:664-721 | the children of a node are strictly ascending and are all the paths one step below it |
| `ImageSources.TopmostLayerWins` | mpss3/mpss-daemon/libmpssconfig/genfs.c:511-563 | source, mode, uid and gid come, each unchanged, from the last layer, and within it from the last item, that has the path with its type |
| `ImageSources.MicDirWins` | mpss3/mpss-daemon/libmpssconfig/genfs.c:559-560 | when the card's own directory has the path with its type, source, mode, uid and gid are those of its last such item, whatever all other sources say |
| `ImageSources.OverlayWins` | mpss3/mpss-daemon/libmpssconfig/genfs.c:537-557 | otherwise they are those of the last such item of the last enabled overlay that has one |
| `ImageSources.CommonWins` | mpss3/mpss-daemon/libmpssconfig/genfs.c:534-535 | otherwise those of the last such item of the common directory |
| `ImageSources.BaseWins` | mpss3/mpss-daemon/libmpssconfig/genfs.c:529-532 | and otherwise those of the last such item of the base, when that is a directory |
| `ImageSources.LastItemWins` | mpss3/mpss-daemon/libmpssconfig/genfs.c:511-563 | the four in one: of the items that are read, ordered base, common, overlays in list order, card, the last one with the path and its type gives the attributes |
| `ImageSources.FirstItemDecides` | mpss3/mpss-daemon/libmpssconfig/genfs.c:511-563 | the first item in this order that names the path or passes through it decides its type, link target and device numbers |
| `ImageSources.OnlyItemsCount` | mpss3/mpss-daemon/libmpssconfig/genfs.c:511-563 | the tree holds the root and exactly the paths that an item that is read names or passes through: disabled overlays and a base that is no directory contribute nothing |
| `ImageSources.OriginsAre` | mpss3/mpss-daemon/libmpssconfig/genfs.c:511-563 | the order in which items are inserted lists each item that is read once: base, common, overlays in list order, card |
| `ImageSources.LayersAreItems` | mpss3/mpss-daemon/libmpssconfig/genfs.c:511-563 | the insertions made are those of the items in this order |
| `ImageSources.AddOverlays` | mpss3/mpss-daemon/libmpssconfig/genfs.c:537-557 | overlays are applied in list order, disabled ones not at all |
| `ImageSources.GenFsTree` | mpss3/mpss-daemon/libmpssconfig/genfs.c:511-563 | the linked tree that is built holds the insertions of base directory, common directory, enabled overlays and card directory, in this order; what that means for a path is said by the laws above |
| `Preorder.AscendingUnique` | mpss3/mpss-daemon/libmpssconfig/genfs.c:1604-1644 | a set of paths has only one ascending listing |
| `Preorder.ListsStep` | mpss3/mpss-daemon/libmpssconfig/genfs.c:1609-1643 | a directory, its contents and its smaller siblings' contents concatenate to an ascending, complete listing |
| `Newc.ParseHexUndoesHex` | mpss3/mpss-daemon/libmpssconfig/genfs.c:1267-1281 | reading undoes printing a number in fixed-width hexadecimal |
| `Newc.Layout` | mpss3/mpss-daemon/libmpssconfig/genfs.c:1567-1598 | where header, name, NUL and body of a written record are |
| `Newc.ReadOne` | mpss3/mpss-daemon/libmpssconfig/genfs.c:1567-1598 | a reader of the New ASCII Format of cpio(5) gets back every field, the name and the body of a written record and stops exactly at its end, which is a multiple of four |
| `Newc.ReadArchive` | mpss3/mpss-daemon/libmpssconfig/genfs.c:1646-1674 | reading a whole archive gives the records up to the first one named like the trailer |
| `Newc.UntilTrailerIsAll` | mpss3/mpss-daemon/libmpssconfig/genfs.c:1646-1674 | these are all records if and only if none of them has the trailer's name |
| `ImageRecords.DeviceNumbersKept` | mpss3/mpss-daemon/libmpssconfig/genfs.c:1303-1331 | major and minor number of a listed device come out as given if and only if major < 2^24 and minor < 256 |
| `ImageRecords.DeviceSplits` | mpss3/mpss-daemon/libmpssconfig/genfs.c:1303-1331 | what the two numbers become otherwise: the minor number is cut to eight bits, and its upper bits are mixed into the major number |
| `ImageRecords.ModeField` | mpss3/mpss-daemon/libmpssconfig/genfs.c:1567-1581 | the mode field holds the nine permission bits of the attributes and the type bits of the node |
| `ImageRecords.BitOrBits` | mpss3/mpss-daemon/libmpssconfig/genfs.c:1567-1581 | the bitwise or of the mode field has a bit exactly where one of its operands has it |
| `ImageRecords.RecordMeaning` | mpss3/mpss-daemon/libmpssconfig/genfs.c:1242-1602 | which entries get a record, and each field of it: a file's record has exactly the bytes of its source as body, a link's the target and a NUL; owner, permission bits, type bits, times and device numbers are those of the entry and its source |
| `ImageRecords.EmitAt` | mpss3/mpss-daemon/libmpssconfig/genfs.c:1604-1644 | the i-th record written belongs to the i-th usable path of the listing and has inode number first + i, modulo 2^32 |
| `ImageRecords.WidthDivides` | mpss3/mpss-daemon/libmpssconfig/genfs.c:1588-1597 | a counter that wraps at 2^32 still tells the position modulo 4 and 512 |
| `ImageWriter.CpioWriter.PushRest` | mpss3/mpss-daemon/libmpssconfig/genfs.c:1224-1240 | name, NUL and the padding counted from the start of the record |
| `ImageWriter.CpioWriter.PadToFour` | mpss3/mpss-daemon/libmpssconfig/genfs.c:1479-1482 | padding driven by the wrapped offset counter reaches the true multiple of four |
| `ImageWriter.CpioWriter.PadToBlock` | mpss3/mpss-daemon/libmpssconfig/genfs.c:1670-1673 | padding driven by the wrapped offset counter reaches the true multiple of 512 |
| `ImageWriter.Assembled` | mpss3/mpss-daemon/libmpssconfig/genfs.c:1234-1240 | record-relative and absolute padding agree when the record starts at a multiple of four |
| `ImageWriter.CpioWriter.GenDir` | mpss3/mpss-daemon/libmpssconfig/genfs.c:1242-1286 | writes the encoding of the directory's record, or nothing when its source cannot be looked up; the inode counter moves with it |
| `ImageWriter.CpioWriter.GenNode` | mpss3/mpss-daemon/libmpssconfig/genfs.c:1288-1338 | the same for a device node |
| `ImageWriter.CpioWriter.GenPipe` | mpss3/mpss-daemon/libmpssconfig/genfs.c:1340-1385 | the same for a pipe |
| `ImageWriter.CpioWriter.GenSock` | mpss3/mpss-daemon/libmpssconfig/genfs.c:1387-1430 | the same for a socket |
| `ImageWriter.CpioWriter.GenSlink` | mpss3/mpss-daemon/libmpssconfig/genfs.c:1432-1492 | the same for a symbolic link, whose body is the target and its NUL |
| `ImageWriter.CpioWriter.GenFile` | mpss3/mpss-daemon/libmpssconfig/genfs.c:1494-1602 | the same for a file, which is skipped when its source is missing, a link or too large, and whose body is the source's contents |
| `ImageWriter.CpioWriter.FollowDir` | mpss3/mpss-daemon/libmpssconfig/genfs.c:1604-1644 | the walk over the linked tree visits exactly the paths below the directory that are reachable through directories, in ascending preorder, and writes the records of the usable ones |
| `ImageWriter.CpioWriter.CpioTrailer` | mpss3/mpss-daemon/libmpssconfig/genfs.c:1646-1674 | what was written so far becomes a complete archive, padded to 512 |
| `InitrdImage.GenCpio` | mpss3/mpss-daemon/libmpssconfig/genfs.c:1766-1808 | the bytes are the archive of the tree's listing, with inode numbers from 721 |
| `InitrdImage.GenInitrd` | mpss3/mpss-daemon/libmpssconfig/genfs.c:565-583 | the same for the tree built from the sources |
| `InitrdImage.StorableHasImage` | mpss3/mpss-daemon/libmpssconfig/genfs.c:1604-1674 | every tree whose names and link targets fit has an image |
| `InitrdImage.ImageUnique` | mpss3/mpss-daemon/libmpssconfig/genfs.c:1604-1674 | the tree determines its listing and every byte of the image |
| `InitrdImage.ImageOrderIndependent` | mpss3/mpss-daemon/libmpssconfig/genfs.c:766-825 | orders of insertion that cannot conflict give byte-identical images at a given time, so readdir order does not matter |
| `InitrdImage.ImageRecord` | mpss3/mpss-daemon/libmpssconfig/genfs.c:1604-1644 | the i-th record is that of the i-th usable path: full name without leading slash, number 721 + i modulo 2^32, and body, owner, mode, times and device numbers field by field as the entry and its source have them |
| `InitrdImage.ReadImage` | mpss3/mpss-daemon/libmpssconfig/genfs.c:1604-1674 | reading the image returns exactly the records of the tree, in order, if and only if no usable path is the single name TRAILER!!! |
| `Unpacking.ParentBefore` | mpss3/mpss-daemon/libmpssconfig/genfs.c:1604-1644 | in the listing every path comes after its parent, which is a directory |
| `Unpacking.UnpackFrom` | mpss3/mpss-daemon/libmpssconfig/genfs.c:1604-1644 | unpacking the rest of the records on top of what is already there |
| `Unpacking.UnpackImage` | mpss3/mpss-daemon/libmpssconfig/genfs.c:1604-1674 | unpacking in order, with each name new and each parent already an unpacked directory, works if and only if no written path's directory was skipped, and then rebuilds a map of exactly the usable paths, each with the body, owner, mode, times and device numbers that its entry and source have |
| `Unpacking.FinalTreeSlashFree` | mpss3/mpss-daemon/libmpssconfig/genfs.c:777-780 | no name in a built tree contains a slash, so full names determine paths |
| `TextFiles.Fgets` | mpss3/mpss-daemon/libmpssconfig/mpssconfig.c:1185 | one call of fgets takes the next chunk off the front: not empty, with no newline except at its end, and ended by a newline, a full buffer or the end of the text |
| `TextFiles.ChunksOfText` | mpss3/mpss-daemon/libmpssconfig/mpssconfig.c:1235 | a text of newline-ended lines that fit the buffer is read line by line |
| `ConfigLexer.StrChr` | mpss3/mpss-daemon/libmpssconfig/mpssconfig.c:1365-1378 | the first place of a character in the part of the line not yet cut |
| `ConfigLexer.FindPiece` | mpss3/mpss-daemon/libmpssconfig/mpssconfig.c:1354-1380 | start and end of the next word: quoted, plain up to a blank or else a tab, or a comment that takes the rest |
| `ConfigLexer.CutPiece` | mpss3/mpss-daemon/libmpssconfig/mpssconfig.c:1354-1390 | writes one NUL behind the word and touches nothing else; says where the next word starts |
| `ConfigLexer.PieceMeaning` | mpss3/mpss-daemon/libmpssconfig/mpssconfig.c:1354-1380 | the next word of a line, by its delimiters: white space is skipped, a quoted word ends before the next quote, a plain one before the first blank or else the first tab, and a comment sign takes the rest |
| `ConfigLexer.CommentMeans` | mpss3/mpss-daemon/libmpssconfig/mpssconfig.c:1354-1362 | a line is a comment if and only if its first character that is not white space is the comment sign |
| `ConfigLexer.PlanOf` | mpss3/mpss-daemon/libmpssconfig/mpssconfig.c:1351-1393 | the words of a line lie one behind the other, each starting where the one before it ended |
| `ConfigLexer.LexInPlace` | mpss3/mpss-daemon/libmpssconfig/mpssconfig.c:1351-1393 | after lexing in place the pointers in args are C strings that are exactly the pieces of the line, the keyword is the C string at its start, the comment flag is exact, and no byte outside the line changed |
| `ConfigLexer.LexOfPrint` | mpss3/mpss-daemon/libmpssconfig/mpssconfig.c:1351-1393 | what any printed line of plain and quoted words lexes to, however many words: one word a slot, the tenth slot takes the rest of the line as printed |
| `ConfigLexer.LexUndoesPrint` | mpss3/mpss-daemon/libmpssconfig/mpssconfig.c:1351-1393 | a printed line lexes to its own words if and only if there are at most ten and the tenth is not quoted |
| `ConfigParser.FindRow` | mpss3/mpss-daemon/libmpssconfig/mpssconfig.c:1399-1413 | the loop stops at the first table row whose name is the keyword, ignoring case |
| `ConfigParser.HandlingMeaning` | mpss3/mpss-daemon/libmpssconfig/mpssconfig.c:1395-1416 | what a caller sees: a keyword no row has, or an argument count the row does not take, changes nothing; otherwise exactly one effect, the stored value for PowerManagement and one handler call for any other row, and only a failing call ends the parse |
| `ConfigParser.RecognisedAtStart` | mpss3/mpss-daemon/libmpssconfig/mpssconfig.c:1399-1401 | a line that is recognised starts, in its first column, with the row's name |
| `ConfigParser.NotRecognised` | mpss3/mpss-daemon/libmpssconfig/mpssconfig.c:1399-1401 | a line that starts with white space or a quote, or has one character, does nothing |
| `ConfigParser.ParseLine` | mpss3/mpss-daemon/libmpssconfig/mpssconfig.c:1351-1416 | one line, lexed in place and dispatched, has the effect of its specification and leaves the other lines alone |
| `ConfigParser.ParseConfigFile` | mpss3/mpss-daemon/libmpssconfig/mpssconfig.c:1343-1421 | parsing the file in place is the fold of the line handler over the file, with the last byte never starting a line |
| `ConfigParser.ParseOpenText` | mpss3/mpss-daemon/libmpssconfig/mpssconfig.c:1344-1349 | for any text whose lines fit, the last one ended by a newline or not, this is the fold over its lines |
| `ConfigParser.ParseText` | mpss3/mpss-daemon/libmpssconfig/mpssconfig.c:1344-1349 | the same for a text of newline-ended lines |
| `ConfigParser.ParseLinesAppend` | mpss3/mpss-daemon/libmpssconfig/mpssconfig.c:1395-1421 | lines take effect in order: one more line acts on what the lines before it left, unless they ended the parse |
| `ConfigEdit.UpdateConfig` | mpss3/mpss-daemon/libmpssconfig/mpssconfig.c:1221-1255 | the edited text, for any file: every chunk with the prefix, ignoring case, is replaced by the clipped line, every other one is printed up to its first NUL, and without any match the description and the line are appended |
| `ConfigEdit.UpdateTextLines` | mpss3/mpss-daemon/libmpssconfig/mpssconfig.c:1235-1255 | on newline-ended lines this replaces the matching lines, or appends one |
| `ConfigEdit.UpdateOpenText` | mpss3/mpss-daemon/libmpssconfig/mpssconfig.c:1235-1255 | on a file that does not end in a newline the appended line is glued to the last one; replaced lines are not affected |
| `ConfigEdit.UpdateKeepsOthers` | mpss3/mpss-daemon/libmpssconfig/mpssconfig.c:1235-1255 | lines that do not match keep content and order, and all that match afterwards are the new line |
| `ConfigEdit.UpdateIdempotent` | mpss3/mpss-daemon/libmpssconfig/mpssconfig.c:1235-1255 | a second update changes nothing |
| `ConfigEdit.RemoveConfig` | mpss3/mpss-daemon/libmpssconfig/mpssconfig.c:1185-1197 | the text, for any file, without the chunks that start with the prefix and without one blank line directly behind each run of them, the rest printed up to NULs |
| `ConfigFiles.UpdateFile` | mpss3/mpss-daemon/libmpssconfig/mpssconfig.c:1211-1268 | editing on disk, with any call failing: success and what is in place afterwards are told exactly from the files and the fates of the calls; the old text is whole before the last call and after every failure, and under its own name when the last call worked; files of other names are not touched; a missing file is never created; with no failing call the file holds the edited text and no other file is left |
| `ConfigFiles.EditIsSafe` | mpss3/mpss-daemon/libmpssconfig/mpssconfig.c:1257-1268 | unless another text than the one meant is put in place, after every system call the old file is whole under one of its two names or the edited one is in place |
| `ConfigFiles.UpdateIsMeant` | mpss3/mpss-daemon/libmpssconfig/mpssconfig.c:1231-1255 | another text is put in place only when opening the old file or writing the new one fails unnoticed, or the final copy is cut short |
| `ConfigFiles.RemovalIsMeant` | mpss3/mpss-daemon/libmpssconfig/mpssconfig.c:1163-1197 | for a removal only when the writing fails unnoticed or the final copy is cut short: a file that cannot be opened is not taken for an empty one |
| `ConfigFiles.LostUpdate` | mpss3/mpss-daemon/libmpssconfig/mpssconfig.c:1221-1268 | a run, for a file with any text: only the opening of the old file fails, the update reports success, and the new line is all that is left under any name |
| `ConfigFiles.RemoveFromFile` | mpss3/mpss-daemon/libmpssconfig/mpssconfig.c:1154-1209 | the same for removing; a missing file gives EEXIST and changes nothing |
| `PowerManagement.ReadFlags` | mpss3/mpss-daemon/libmpssconfig/config_pm.c:98-154 | the four fields are accepted if and only if they are the four expected ones in order |
| `PowerManagement.ReadPm` | mpss3/mpss-daemon/libmpssconfig/config_pm.c:98-158 | a value is accepted if and only if it is one of the sixteen that can be written, and then yields its own flags; otherwise the error is the one for malformed values |
| `PowerManagement.PmStringIs` | mpss3/mpss-daemon/libmpssconfig/config_pm.c:161-189 | the value written: the four names in order, each with its on or off suffix, with semicolons between |
| `PowerManagement.PmLineLexed` | mpss3/mpss-daemon/libmpssconfig/config_pm.c:181-183 | the line that is written lexes to the keyword and the value |
| `PowerManagement.PmLineHandled` | mpss3/mpss-daemon/libmpssconfig/mpssconfig.c:811-822 | that line sets the value and calls no other handler |
| `PowerManagement.MatchingLine` | mpss3/mpss-daemon/libmpssconfig/mpssconfig.c:1395-1421 | a line that an update replaces never called another handler nor ended the parse |
| `PowerManagement.OtherLine` | mpss3/mpss-daemon/libmpssconfig/mpssconfig.c:1395-1421 | any other line sets the value regardless of what it was, through an included file, or passes it on; everything else it does is independent of the value |
| `PowerManagement.RunReplaced` | mpss3/mpss-daemon/libmpssconfig/mpssconfig.c:1344-1421 | over a whole file, replacing the matching lines changes the value and nothing else |
| `PowerManagement.UpdateThenParse` | mpss3/mpss-daemon/libmpssconfig/config_pm.c:161-189 | parsing the updated file completes, calls all other handlers as before, and gives the value written unless a file included after the last matching line sets another; for every file whose lines fit, ended by a newline or having a line to replace |
| `PowerManagement.GluedUpdateIsLost` | mpss3/mpss-daemon/libmpssconfig/mpssconfig.c:1246-1255 | for the other files, with no final newline and no line to replace, the update is lost: the glued line is not recognised and the value stays what the rest of the file makes it |
| `PowerManagement.IncludesBefore` | mpss3/mpss-daemon/libmpssconfig/mpssconfig.c:262-284 | nothing overrules the value when all includes come before the last matching line |
| `PowerManagement.UpdatePmKeepsTheRest` | mpss3/mpss-daemon/libmpssconfig/config_pm.c:161-189 | all other lines keep content and order, and a second update changes nothing |
| `PowerManagement.UpdateAndRead` | mpss3/mpss-daemon/libmpssconfig/config_pm.c:69-189 | update, parse and read return the four flags written if and only if no file included later sets another value |
| `RootDevice.RemoveTextLines` | mpss3/mpss-daemon/libmpssconfig/mpssconfig.c:1185-1197 | removing on newline-ended lines drops the lines with the prefix and one blank line behind each run |
| `RootDevice.RemovedIsAll` | mpss3/mpss-daemon/libmpssconfig/mpssconfig.c:1185-1197 | removing changes nothing if and only if no line has the prefix |
| `RootDevice.RemovedMeaning` | mpss3/mpss-daemon/libmpssconfig/mpssconfig.c:1185-1197 | removing, line by line: a line stays if and only if it does not start with the prefix and is not a blank line directly behind one that does |
| `RootDevice.RemovedKeepsOthers` | mpss3/mpss-daemon/libmpssconfig/mpssconfig.c:1185-1197 | lines that neither start with the prefix nor are blank keep number, content and order |
| `RootDevice.AddTextLines` | mpss3/mpss-daemon/micctrl/rootdev.c:1432-1433 | appending adds description, line and a blank line, or doubles as a replacement of lines that start with DONOTMATCH |
| `RootDevice.SetRamfsRoot` | mpss3/mpss-daemon/micctrl/rootdev.c:599-622 | for any target: the old lines go, and description, line and a blank line are appended; a line longer than the buffer is cut and then not ended |
| `RootDevice.ChangeLeavesOne` | mpss3/mpss-daemon/micctrl/rootdev.c:599-622 | after a change the RootDevice lines are all the new one, and as many as the file has lines that start with DONOTMATCH, but at least one |
| `RootDevice.RootLineReadBack` | mpss3/mpss-daemon/libmpssconfig/mpssconfig.c:681-736 | the line written for a RAM file system type lexes to the keyword and two words, which the handler reads as the type and the target written |
| `RootDevice.ClearUndoesAppend` | mpss3/mpss-daemon/micctrl/rootdev.c:599-600 | removing description and parameter after appending them gives back the file, blank line included, if and only if it had neither before |
| `RootDevice.ChangedHasNone` | mpss3/mpss-daemon/libmpssconfig/mpssconfig.c:1221-1244 | whatever the file was, no line that starts with DONOTMATCH is left after a change |
| `RootDevice.SkippedInLowerCase` | mpss3/mpss-daemon/micctrl/rootdev.c:590 | a request is skipped if and only if it names the type that the card has, ignoring case, and is typed in lower case |
| `RootDevice.ChangeRoot` | mpss3/mpss-daemon/micctrl/rootdev.c:590-635 | one request on the text: skipped when typed exactly like the name of the current type, else the old lines go and those of the type named, ignoring case, are written, or none for an unknown type |
| `RootDevice.RunKeepsOneRoot` | mpss3/mpss-daemon/micctrl/rootdev.c:590-635 | over any run of requests on any file: nothing changes while all are skipped; otherwise the card is as the last request left it that was carried out, without a RootDevice line when its type is unknown, and else with its type and its line, once, or, when no earlier request wrote lines, once for each line that started with DONOTMATCH |
| `RootDevice.ChangeAll` | mpss3/mpss-daemon/micctrl/rootdev.c:590-635 | requests one after the other, each editing the text that the one before left, perform this run, and the file stays one of newline-ended lines that fit |
| `SafeRename.Disk.Install` | mpss3/mpss-daemon/libmpssconfig/utilfuncs.c:494-557 | how it ends, with its return code, is told exactly from the files and the fates of the calls; success means that a new version is in place, whole unless a read among the calls made failed before its end; unless that happens, after every single system call the old contents are whole under one of the two names or the new ones are in place; failure keeps the old contents, and puts them back under their own name when the last call worked; files of other names, and the input on failure, are not touched; a missing output always gives 1 and can cost the .orig file; when every call made works, except perhaps the second rename, the new file replaces the old and no other name is left |
| `SafeRename.Disk.PutInPlace` | mpss3/mpss-daemon/libmpssconfig/utilfuncs.c:525-557 | the second half, after the backup was made: on every failure the backup is renamed back, and unless that renaming fails the old contents have their own name again |
| `SafeRename.Disk.Restore` | mpss3/mpss-daemon/libmpssconfig/utilfuncs.c:526-547 | renaming the backup back |
| `SafeRename.LossySuccess` | mpss3/mpss-daemon/libmpssconfig/utilfuncs.c:542-556 | a run in which only a rename and the first read fail: success is returned, and neither version is left |
| `SafeRename.Disk.CopyOver` | mpss3/mpss-daemon/libmpssconfig/utilfuncs.c:525-552 | copying by hand keeps the old contents whole after every call and ends as the fates say; a refusal puts the backup back unless its renaming fails; when no call fails it does what renaming would have done |
| `SafeRename.Disk.CopyLoop` | mpss3/mpss-daemon/libmpssconfig/utilfuncs.c:542-549 | the copy is cut short exactly when a read among the calls made fails, refused exactly when a write fails first, and complete otherwise; a refusal puts the backup back unless its renaming fails |
| `DmaRegisters.RingReadBack` | mpss3/mpss-modules/dma/mic_dma_md.c:438-453 | the base address read back is the one set if and only if it is below 2^39 for a host-owned ring, 2^36 for a card-owned one on the card and 2^34 for one on the host |
| `DmaRegisters.RingFields` | mpss3/mpss-modules/dma/mic_dma_md.c:318-327 | size, base, system and page fields of the high register word can each be read back: they never overlap |
| `DmaRegisters.OwnerIsLocal` | mpss3/mpss-modules/dma/mic_dma_md.c:63-74 | the mask and shift that store a channel's owner: it reads back, the channel's enable bit stays, and no bit outside the channel's two changes |
| `DmaRegisters.EnableIsLocal` | mpss3/mpss-modules/dma/mic_dma_md.c:221-225 | the same for the enable bit, with the owner bit kept |
| `DmaRegisters.AllBits` | mpss3/mpss-modules/dma/mic_dma_md.c:63-74 | the two bits of each of the eight channels and the upper half determine the register |
| `DmaChannels.NotGrantedTwice` | mpss3/mpss-modules/dma/mic_dma_md.c:165-202 | over any run a channel that is granted twice was freed in between; what was not freed stays taken |
| `DmaChannels.InUseIsHeld` | mpss3/mpss-modules/dma/mic_dma_md.c:165-202 | after any run a channel is in use if and only if it was in use at first, or granted by an operation of the run, and not freed since |
| `DmaChannels.RequestsAreMet` | mpss3/mpss-modules/dma/mic_dma_md.c:165-190 | over any run a request is refused if and only if every channel is held in this sense, and otherwise gets the lowest one that is not |
| `DmaChannels.OwnerIsLast` | mpss3/mpss-modules/dma/mic_dma_md.c:165-190 | after any run the owner of a channel is the one that was last granted it |
| `DmaChannels.ControlIsLocal` | mpss3/mpss-modules/dma/mic_dma_md.c:63-227 | every operation leaves the two bits of all channels but its own, and the upper half of the control register, as they were; a refused request leaves the register |
| `DmaChannels.ControlOverRun` | mpss3/mpss-modules/dma/mic_dma_md.c:165-335 | over any run the enable bit of each channel is what the last operation on it made it, the upper half is never touched, and on the card the owner bit of each channel in use stays 1 exactly for the host's and for the AES channel, when it was so at first |
| `DmaChannels.UnconcernedKept` | mpss3/mpss-modules/dma/mic_dma_md.c:165-335 | over any run the bits of a channel that no operation concerns stay |
| `DmaChannels.RingSurvives` | mpss3/mpss-modules/dma/mic_dma_md.c:297-335 | a ring address set on a channel is read back after any later operations that do not set that channel's ring, if and only if it was below the limit of its owner |
| `DmaChannels.DmaDevice.constructor` | mpss3/mpss-modules/dma/mic_dma_md.c:132-149 | all channels are free at first |
| `DmaChannels.DmaDevice.RequestChan` | mpss3/mpss-modules/dma/mic_dma_md.c:165-190 | grants the lowest free channel to the owner, or none exactly when all are in use; no other channel's state changes |
| `DmaChannels.DmaDevice.FreeChan` | mpss3/mpss-modules/dma/mic_dma_md.c:196-202 | the channel is free and disabled afterwards, and no other channel's state changes |
| `DmaChannels.DmaDevice.EnableChan` | mpss3/mpss-modules/dma/mic_dma_md.c:212-227 | sets or clears the channel's enable bit in the register by the driver's masks, and nothing else |
| `DmaChannels.DmaDevice.SetDescRing` | mpss3/mpss-modules/dma/mic_dma_md.c:297-335 | disables the channel, writes its ring registers twice, both times while it is disabled, and enables it; every write of ring registers ever made found its channel disabled |
| `DmaChannels.DmaDevice.GetDescRingPhys` | mpss3/mpss-modules/dma/mic_dma_md.c:438-453 | the address the ring registers stand for |
| `Fstab.LineMatches` | mpss3/mpss-daemon/micctrl/rootdev.c:789-822 | the scan with moving pointers accepts any buffer it does not overrun if and only if its second field, without trailing slashes, is the directory without trailing slashes |
| `Fstab.Check` | mpss3/mpss-daemon/micctrl/rootdev.c:767-832 | true if and only if some buffer of the file is an entry for the directory |
| `Fstab.Remove` | mpss3/mpss-daemon/micctrl/rootdev.c:837-923 | drops exactly the buffers that are entries, prints the others in order, and reports 1 with the file unchanged when there is none |
| `Fstab.RemoveTextLines` | mpss3/mpss-daemon/micctrl/rootdev.c:837-923 | on newline-ended lines that fit, no scan overruns and this is done line by line |
| `Fstab.Add` | mpss3/mpss-daemon/micctrl/rootdev.c:739-762 | existing entries go, and the new line is written at the end |
| `Fstab.RestHasNone` | mpss3/mpss-daemon/micctrl/rootdev.c:837-923 | after removing, a check finds nothing and a second removal changes nothing |
| `Fstab.NewLineIsEntry` | mpss3/mpss-daemon/micctrl/rootdev.c:756-759 | the line written for a directory is an entry for it if and only if the directory is not all slashes |
| `Fstab.NewLineFields` | mpss3/mpss-daemon/micctrl/rootdev.c:756-759 | the line written has six fields: server and export, directory, nfs, the options or else defaults, 1 and 1 |
| `Fstab.AddLeavesOne` | mpss3/mpss-daemon/micctrl/rootdev.c:739-762 | adding leaves exactly one entry, and removing after adding gives back the other lines, if and only if the directory is not all slashes |
| `Fstab.TrailingSlash` | mpss3/mpss-daemon/micctrl/rootdev.c:783-815 | a slash at the end of the directory makes no difference |
| `Fstab.RemoveAfterAdd` | mpss3/mpss-daemon/micctrl/rootdev.c:739-923 | on the text: after adding a line that fits, the check finds it and removing gives back the other lines if and only if the directory is not all slashes, and nothing is found after removing |
| `Fstab.GluedEntryIsLost` | mpss3/mpss-daemon/micctrl/rootdev.c:739-762 | in a file whose last line has a second field and more but no newline, the new line is glued to that one and no entry is found afterwards, unless that line was itself the entry replaced |
| `Passwd.ParsePwfile` | mpss3/mpss-daemon/libmpssconfig/passwd.c:40-88 | accepts a buffer of fgets if and only if it holds a newline-ended line that can be cut at six colons, and yields its seven fields, ids read as atoi does |
| `Passwd.ParsePrinted` | mpss3/mpss-daemon/micctrl/user.c:2763 | parsing undoes printing if and only if user, comment and home have no colon |
| `Passwd.PrintedHead` | mpss3/mpss-daemon/micctrl/user.c:2763 | a printed line always parses; the name read back is the part before its first colon, and the id comes back when there is none |
| `Passwd.PrintUserIs` | mpss3/mpss-daemon/micctrl/user.c:2763 | what is printed: seven fields in order with colons between, ids in decimal |
| `Passwd.AtoiSigned` | mpss3/mpss-daemon/libmpssconfig/passwd.c:40-88 | atoi reads an optional sign and the digits behind it, whatever follows, within the range of a long |
| `Passwd.InsertUser` | mpss3/mpss-daemon/micctrl/user.c:1348-1375 | for any file: refuses a taken name with 2 and, when asked to, a taken id with 3; otherwise appends the printed line unless some line, parseable or not, starts with the name |
| `Passwd.InsertTextLines` | mpss3/mpss-daemon/micctrl/user.c:1348-1375 | on newline-ended lines that fit this is done line by line |
| `Passwd.NoConflict` | mpss3/mpss-daemon/micctrl/user.c:1348-1364 | nothing objects if and only if no parseable line has the name or, when asked for, the id |
| `Passwd.ConflictMeans` | mpss3/mpss-daemon/micctrl/user.c:1348-1363 | the code of the refusal is that of the first line that objects: 2 when it has the name, 3 when it has only the id |
| `Passwd.RemoveUser` | mpss3/mpss-daemon/micctrl/user.c:1159-1196 | for any file: returns 2 and changes nothing without a line of the user; otherwise keeps exactly the parseable lines of others, in order, and so drops an unended last line |
| `Passwd.RemoveTextLines` | mpss3/mpss-daemon/micctrl/user.c:1159-1196 | on newline-ended lines that fit this is done line by line |
| `Passwd.RemoveLeaves` | mpss3/mpss-daemon/micctrl/user.c:1159-1196 | which lines are left: all without a line of the user, otherwise exactly those that parse to another user |
| `Passwd.RemoveUndoesInsert` | mpss3/mpss-daemon/micctrl/user.c:1117-1197 | when nothing objects to an addition, removing the user gives back the file if and only if nothing was added or the name has no colon and every line parses |
| `Passwd.GluedUserIsLost` | mpss3/mpss-daemon/micctrl/user.c:1366-1375 | in a file without a final newline the user's line is glued to the last one: the name still counts as free, and there is no user of that name to remove |
| `Passwd.InsertKeeps` | mpss3/mpss-daemon/micctrl/user.c:1323-1383 | adding keeps a file parseable, and names pairwise different if and only if it is refused or no line has the name that will be read back; ids too with the unique flag and a name without colon |
| `Passwd.RemoveKeeps` | mpss3/mpss-daemon/micctrl/user.c:1117-1197 | so does removing |
| `Passwd.RunStaysDistinct` | mpss3/mpss-daemon/micctrl/user.c:1117-1383 | over any run of additions and removals names are pairwise different after every operation if and only if every addition is clear of the name that will be read back |
| `Passwd.RunKeepsDistinct` | mpss3/mpss-daemon/micctrl/user.c:1117-1383 | with names without colons every addition is, and ids stay pairwise different when every addition asks for it |
| `Passwd.ColonClash` | mpss3/mpss-daemon/micctrl/user.c:1348-1363 | a name with a colon, added with an id of its own beside the user whose name is the part before its first colon, gives two users of that name although ids had to be unique |
| `CardList.MergeMeaning` | mpss3/mpss-daemon/libmpssconfig/mpssconfig.c:1508-1546 | one merge adds the id, not present, exactly when it is new, and keeps the list strictly ascending and all other cards untouched |
| `CardList.MergeAllMeaning` | mpss3/mpss-daemon/libmpssconfig/mpssconfig.c:1502-1547 | merging any ids yields the union, strictly ascending, with the present flags of existing cards untouched |
| `CardList.MergeOrderIndependent` | mpss3/mpss-daemon/libmpssconfig/mpssconfig.c:1502-1547 | order and repetition of the ids make no difference |
| `CardList.AddNotPresent` | mpss3/mpss-daemon/libmpssconfig/mpssconfig.c:1508-1546 | the loop over linked nodes performs one merge |
| `CardList.AddMiclistNotPresent` | mpss3/mpss-daemon/libmpssconfig/mpssconfig.c:1487-1551 | the loop performs all merges and raises the count by the number of new ids |
| `CardList.ProbeAllMeaning` | mpss3/mpss-daemon/libmpssconfig/mpssconfig.c:1446-1481 | probing distinct ids in any order gives the strictly ascending list of them, all present |
| `CardList.ProbeListMeaning` | mpss3/mpss-daemon/libmpssconfig/mpssconfig.c:1446-1481 | for any ids, negative or repeated, the list from the first node on is sorted and holds exactly them and the sentinel |
| `CardList.SentinelInFront` | mpss3/mpss-daemon/libmpssconfig/mpssconfig.c:1455-1471 | without negative ids the sentinel stays in front of the list of ProbeAllMeaning |
| `CardList.GetMiclistPresent` | mpss3/mpss-daemon/libmpssconfig/mpssconfig.c:1428-1485 | the loop over linked nodes builds this list and returns the node inserted last |
| `CardList.ReturnedIsComplete` | mpss3/mpss-daemon/libmpssconfig/mpssconfig.c:1484 | the list from the returned node is the whole list if and only if the id probed last is the smallest |
| `CardList.AllCardsMeaning` | mpss3/mpss-daemon/libmpssconfig/mpssconfig.c:1553-1566 | which cards the combined list holds: a present card below the one probed last is lost, or comes back as not present when it has a configuration file |
| `CardList.AllCardsPromised` | mpss3/mpss-daemon/libmpssconfig/mpssconfig.c:1553-1566 | the list is the documented union, and the count its length, if and only if the id probed last is the smallest |
| `CardList.GetMiclist` | mpss3/mpss-daemon/libmpssconfig/mpssconfig.c:1553-1566 | both routines in turn on the linked list: without a device directory the cards with files, counted right; otherwise the list of AllCardsMeaning, with the count of the lost cards too many |

## Left out

- Walking source directories, file lists and RPMs: the items each source contributes are given as a list.
- The base cpio image that is prepended, compression and the cpio subprocesses, and `copy_nfs`.
- Names and link targets of PATH_MAX or more characters, which the writer would cut, and times beyond 32 bits.
- Failing memory allocation everywhere, and fields of freshly allocated nodes that the code leaves unset.
- FileTrees.Image.InsertList: the path is a value here, while the code cuts its buffer in place at the slashes.
- ConfigParser.ParseConfigFile: the handlers other than that of PowerManagement are parameters; a file that is included is a handler that may set the value, and its own parse is not modelled, since nothing stops files from including each other.
- PowerManagement.UpdateThenParse: for files whose lines have no NUL and fit the buffer of 1024, and that parse to the end; a longer line is cut into chunks that are matched one by one, which `ConfigEdit.UpdateConfig` covers as text.
- PowerManagement.UpdateAndRead: the same.
- PowerManagement.ReadPm: the value is cut as a value, not in its buffer, and what the four results hold after an error is left open.
- RootDevice.SetRamfsRoot: the two RAM file system types only, on files of newline-ended lines that fit; the clean-up of a former NFS root is not modelled.
- RootDevice.RunKeepsOneRoot: requests for the types NFS and SplitNFS are not modelled; a card whose file names no root type, where the code indexes its table of names out of range, is taken for one of another type.
- RootDevice.ChangeAll: the same, and for targets whose line fits the buffer, since the file after a cut line is not one of ended lines.
- RootDevice.RootLineReadBack: for a target that is one plain word; another one is lexed as several words, as `ConfigLexer.LexOfPrint` says.
- RootDevice.ChangeLeavesOne: counts lines by the capitalisation that is removed and written; the parser would also accept others.
- ConfigFiles.UpdateFile: all writes to the temporary file are one call that works or is lost as a whole.
- SafeRename.Disk.Install: names of PATH_MAX or more characters; access modes and ownership of the files.
- Fstab.LineMatches: for buffers in which the scan ends; an unended line without a blank behind its second field makes it run on into what the buffer held before.
- Fstab.NewLineFields: for a server, export, directory and options without white space, which would make more fields of them.
- Fstab.Check: for files of which no buffer makes the scan run past its end; failing to open the file is not modelled.
- Fstab.Remove: the same.
- Fstab.Add: the same.
- Passwd.ParsePwfile: fields are cut as values, not in the buffer.
- Passwd.InsertUser: the passwd file only; shadow and group files, home directories and ssh keys are not modelled.
- Passwd.RemoveUser: the same, and the file is replaced as a value.
- DmaChannels.DmaDevice.RequestChan: operations run one after the other; the register accesses have no lock, and interleavings are not modelled.
- DmaChannels.DmaDevice.SetDescRing: reading the tail pointer, interrupts and status write-back are not modelled.
- CardList.GetMiclistPresent: names and configuration fields of a card are not modelled.
- CardList.GetMiclist: for no device directory, or one with at least one card and no negative ids; otherwise the code hands out a list with its own local variable in it.
- SCIF, the network configuration, booting, power control commands, sysfs and option parsing.
