# U-Boot command algorithms, modelled and proved in Dafny

This project models the self-contained algorithms of U-Boot's `common/` commands and proves what
they promise. `dafny verify dfyconfig.toml` checks all of it.

The code works by updating buffers, lists and counters in place, and so do the methods here: arrays
for buffers, classes for the static state of a file, and loops where the source loops. Each method is
proved against a specification function, and the promises of the part are lemmas about that function.
Numbers are unbounded integers; 8-, 16- and 32-bit wrap-around is written out where the code relies
on it or suffers from it.

## Parts

**Partition tables** (`MtdText`, `MtdParse`, `MtdRoundTrip`, `MtdTies`, `MtdReread`, `MtdTable`,
`MtdAccepted`, `MtdNotation`, `MtdEnv`, `MtdCopy`, `MtdRun`, `MtdAdd`, `MtdByHand`, `MtdReach`, `MtdOwn`,
`MtdSaved`, `MtdLists`, `MtdStale`, `MtdIndex`, `MtdExamples`, `MtdParts`, `MtdCommands`). A table of flash devices and their partitions is read from
the environment variable `mtdparts`, edited by commands, and written back; `partition`, `mtddevnum` and
`mtddevname` keep the current partition; a copy of the text last seen decides whether the variable is
read again. The main results: reading the generated text gives the table back exactly when no partition
is below the minimum size and every run of equal offsets reads the same backwards. Over every run of
commands from power-up, including arbitrary changes of the environment behind the table's back, the
lists stay sorted; and the current partition exists in every state exactly when no command deletes a
partition behind the current one at the same offset while that is number 0 and at most 255 would remain.
The text that is not read again would give the same table, if that is rereadable, as long as every copy
of it was taken from where the text still was. For a text set by hand this is so exactly when none of
the three other variables stood before it, unless the text is shorter than the room deleted; and it is
always so when no one sets the text by hand. If such a run leaves the variable defined, a restart brings
the same devices back exactly when they are rereadable and their text is short enough to be read.
What each command does is also said in terms of what is written in it: a definition whose numbers are in
any notation and unit is read as it is meant, and `mtdparts add`, `del` and `chpart` make exactly the one
change asked for, or none.

**Kermit download** (`KermitSpec`, `KermitFrames`, `KermitReceiver`, `KermitSession`, `KermitDelivery`,
`KermitFile`, `KermitPort`, `KermitLoad`). The receiver writes data straight into memory while the packet may
still turn out bad, and goes back to a checkpoint when it does. It is proved to follow an automaton
over characters, the automaton is proved to agree with a judgement of frames, and whole downloads
over a line that loses replies and damages packets deliver each packet exactly once, unless a damaged
header follows right behind an acknowledge.

**S-records** (`SRecord`, `SRecordFile`, `SRecordPort`). A dump of memory as S3 records, loaded again,
reproduces the memory, also over the top of the address space; and any file of S-records of all kinds is
loaded as it is written.

**Environment** (`EnvSpec`, `EnvMap`, `EnvBytes`, `Environment`). The packed buffer of `name=value`
strings is proved to be a map under `setenv` and `getenv`, and the bytes of the whole buffer are
specified, so that it is known what an address kept from before a `setenv` points at afterwards.

**RAM test** (`MemTest`). The verdict of one test iteration is characterised for every address
decoding and every stuck bit.

**Flash ranges** (`FlashSpec`, `FlashRanges`, `FlashExact`, `PartCheck`, `Flash`). From an address
range to sector ranges per bank, and from an accepted partition to the bytes that are erased.

**Log ring** (`LogSpec`, `LogBuffer`), **floppy reads** (`Floppy`), **EEPROM transfers** (`Eeprom`)
and **image layout and chunked copies** (`Bootm`). `Common` and `DivMod` hold what they share.

## Where the code does less than it promises

Each of these is proved, with the exact condition under which the promise holds.

- `setenv serial#=x` deletes or replaces `serial#`: the search compares the text before `=`, the write
  protection the whole name (`EnvMap.ProtectionHoldsExactlyWithoutDisguise`, `EnvMap.DisguisedDeletion`).
- Partitions at equal offsets come back mirrored when the text is read (`MtdTies.SortAllMirrors`; a text
  of two partitions in `MtdExamples.MirroredText`), and partitions below the minimum size, which `-` can
  create, make the text unreadable (`MtdReread.RereadExactly`; a text in `MtdExamples.SmallRestText`).
- `part_del` compares offsets instead of positions, so deleting a partition behind the current one at
  the same offset moves the current number off its partition (`MtdTable.DelPartKeepsCurrentExactly`),
  and from 0 to 255, which no partition has unless more than 255 remain (`MtdTable.DelPartKeepsExactly`,
  `MtdTable.DeletionBreaksCurrent`).
- Partition numbers have 8 bits: adding a partition before number 255 makes number 0 the current one
  (`MtdTable.AddPartKeeps`).
- `mtdparts_init` copies the text it has read from an address it took before `devices_init` deleted
  `partition`, `mtddevnum` and `mtddevname`. If one of them stood before the text, the copy is only the
  text's end (`MtdCopy.StaleCopyExactly`). A text set by hand always stands behind them
  (`MtdStale.EditingMovesBehind`); setting the variable to the stale copy then makes the next command
  skip reading it, although reading it would give another table, or fail
  (`MtdStale.StaleCopySkipsReading`). Reading the text once more heals the copy
  (`MtdStale.RereadPutsInPlace`). A text shorter than the room deleted first escapes, because its old
  bytes survive behind the list (`MtdCopy.LastTextExactly`, `MtdCopy.ShortTextSurvives`).
- A damaged packet header right after an acknowledged data packet takes that packet's data back,
  although the sender will not send it again (`KermitFile.AcknowledgedDataIsLost`), and a file arrives
  exactly when that never happened (`KermitFile.FileArrives`).
- A reply to a peer that asks for another end-of-line character than CR would not pass the receiver's
  own frame checks (`KermitFrames.ReplyIsAcceptable`).
- A range that ends the address space wraps to address 0 and selects a bank there as well, if that
  bank comes later in the list (`FlashExact.TilesExactly`, `FlashExact.RangeOfOneBank`).
- A log text that is split inside its level prefix gets a second prefix (`LogSpec.SplitCall`).
- Loading a dump of no bytes reports two bytes. One of several records that runs over the top of the
  address space reports 0, 16 bytes too few, the bytes of the whole records below the top, or 2^32-16
  bytes (`SRecord.DumpLoaded`, `SRecord.SizeIsRightExactly`).
- Copying upwards over an overlap of more than one chunk spoils the copy
  (`Bootm.ChunksAreOneMoveExactly`).
- A page size above 256 bytes makes EEPROM transfers cross pages (`Eeprom.NeverCrossesExactly`).

The comment above `memsize_format` calls it the opposite of `memsize_parse`; that is what
`MtdText.MemsizeRoundTrip` proves. The comment in `generate_mtdparts` speaks of the buffer length, but
the nine characters of `mtdparts=` are not counted, so a text may be up to 520 characters long; the
model counts as the code does.

## Model

| member | source | states |
|---|---|---|
| `MtdText.MemsizeRoundTrip` | u-boot/common/cmd_jffs2.c:198-245 | parsing a formatted size gives the size and leaves the text behind it, for every 32-bit size and every text that does not continue the number |
| `MtdText.StrtoulDecimal` | u-boot/lib_generic/vsprintf.c:24-49 | a decimal number is read back as itself, whatever follows it but digits |
| `MtdNotation.NumberRead` | u-boot/lib_generic/vsprintf.c:24-49 | a number in decimal, octal behind `0` or hexadecimal behind `0x`, digits in either case, of any length, is read as its value in that base in 32 bits, up to the first character that is no digit of the base |
| `MtdNotation.SizeRead` | u-boot/common/cmd_jffs2.c:198-218 | a number in any notation with any of the six size letters, or none, is read as the number times 2^10, 2^20 or 2^30, in 32 bits |
| `MtdNotation.DefinitionRead` | u-boot/common/cmd_jffs2.c:602-710 | a definition with its size and offset in any notation, or `-`, a name or none and `ro` or not, is read as that size, offset, name and flag; it is refused exactly when the size is below 4096, more follows one that takes all that is left, or something else follows than the next partition, the next device or the end |
| `MtdNotation.BadNameRefused` | u-boot/common/cmd_jffs2.c:630-649 | an empty name, or one without a closing parenthesis, is refused |
| `MtdRoundTrip.PartRead` | u-boot/common/cmd_jffs2.c:602-710 | a written partition is parsed to its size, name and flag, with the offset present exactly when there was a gap |
| `MtdRoundTrip.PartsRead` | u-boot/common/cmd_jffs2.c:912-940 | a written list of partitions is parsed to the same list: omitted offsets are reconstructed |
| `MtdRoundTrip.DeviceRead` | u-boot/common/cmd_jffs2.c:867-992 | a written device is parsed to that device with its partitions sorted in again |
| `MtdRoundTrip.TableRead` | u-boot/common/cmd_jffs2.c:1107-1224 | a written table is parsed to the table with every list sorted in again |
| `MtdTies.SortAllMirrors` | u-boot/common/cmd_jffs2.c:517-571 | sorting an ordered list in again mirrors every run of equal offsets and moves nothing else |
| `MtdTies.UnchangedExactly` | u-boot/common/cmd_jffs2.c:978-987 | it gives the same list if and only if every run of equal offsets reads the same backwards, so always for distinct offsets |
| `MtdReread.RereadExactly` | u-boot/common/cmd_jffs2.c:1107-1224 | parsing the generated text rebuilds the table if and only if no partition is below the minimum size and runs of equal offsets are symmetric; with a smaller partition parsing fails |
| `MtdReread.DistinctMeansSymmetric` | u-boot/common/cmd_jffs2.c:550-561 | distinct offsets meet the condition on runs |
| `MtdExamples.MirroredText` | u-boot/common/cmd_jffs2.c:541-561 | a text with two different partitions at one offset is read, written in the other order, and read in the first order again |
| `MtdExamples.SmallRestText` | u-boot/common/cmd_jffs2.c:617-645 | a text in which `-` stands for 1024 bytes is read, but the text of that table is not |
| `MtdTable.SortAddIs` | u-boot/common/cmd_jffs2.c:541-570 | a new partition goes before the first one with the same or a higher offset, and only a second one at offset 0 is refused |
| `MtdTable.AddPartKeeps` | u-boot/common/cmd_jffs2.c:517-571 | adding keeps the whole table invariant, without condition, and keeps the current number on the same partition if and only if it does not have to go past 255 |
| `MtdTable.DelPartKeepsCurrentExactly` | u-boot/common/cmd_jffs2.c:446-486 | deleting adjusts the current number correctly if and only if the deleted partition does not lie behind the current one at the same offset |
| `MtdTable.DelPartSteps` | u-boot/common/cmd_jffs2.c:446-486 | every deletion of one of several partitions: lists in order, the current number on its partition, reset to 0 when that is deleted, or moved down by one when the comparison is misled |
| `MtdTable.DelPartKeepsExactly` | u-boot/common/cmd_jffs2.c:446-486 | the invariant, current partition included, survives a deletion if and only if it does not take the current number 0 off its partition with at most 255 partitions remaining |
| `MtdTable.DeletionBreaksCurrent` | u-boot/common/cmd_jffs2.c:464-468 | taking it off leaves the current number 255, which belongs to a partition if and only if more than 255 remain |
| `MtdTable.AddDeviceKeeps` | u-boot/common/cmd_jffs2.c:840-856 | adding a device keeps the invariant and the current partition |
| `MtdTable.DelDeviceKeeps` | u-boot/common/cmd_jffs2.c:788-810 | deleting a device keeps the invariant; a current partition of another device stays current |
| `MtdTable.GlobalIndexIsPosition` | u-boot/common/cmd_jffs2.c:252-285 | the number computed for `mtddevnum` is the position of the current partition among all partitions of all devices |
| `MtdAccepted.ParsedDeviceOk` | u-boot/common/cmd_jffs2.c:867-992 | every device the parser accepts is sorted, counted and fits its flash |
| `MtdAccepted.ReadListsAreShort` | u-boot/common/cmd_jffs2.c:1407-1430 | no list read from a text has more than half as many partitions as the text has characters |
| `MtdEnv.PartitionRead` | u-boot/common/cmd_jffs2.c:1309-1346 | the part-id that is stored for a partition is found again as that partition, as long as it exists |
| `MtdAdd.PartIdFound` | u-boot/common/cmd_jffs2.c:1309-1346 | a part-id with its two numbers in any notation names the device and partition with these numbers, taken in 8 bits, if they exist, and none with anything behind it |
| `MtdCopy.ForgettingMoves` | u-boot/common/cmd_jffs2.c:999-1006 | deleting the three variables leaves the text of `mtdparts` unchanged and moves it down by the bytes of those that stood before it |
| `MtdCopy.StaleCopyExactly` | u-boot/common/cmd_jffs2.c:1576-1645 | a text of any length is copied right if and only if its old address still shows it (`MtdCopy.CopySource`, from the definitions alone); for a text not shorter than the move the copy is the text's end behind as many characters as it was moved by, so right if and only if none of the three variables stood before it |
| `MtdCopy.CopyExactly` | u-boot/common/cmd_jffs2.c:1576-1645 | for texts of any length, what the copy holds is given by the definitions alone: a string of the list that the last deletion to reach the address leaves there |
| `MtdCopy.LastTextExactly` | u-boot/common/cmd_jffs2.c:1576-1645 | a text behind all other definitions, of any length, is copied right if and only if none of the three variables is defined or the one deleted first takes more room than the text |
| `MtdCopy.ShortTextSurvives` | u-boot/common/cmd_jffs2.c:1645 | a text shorter than the move can be copied whole although `partition` stood before it |
| `MtdStale.EditingMovesBehind` | u-boot/common/cmd_jffs2.c:1404-1645 | after the variable was set by hand it is in place if and only if the three variables are not defined |
| `MtdStale.RereadPutsInPlace` | u-boot/common/cmd_jffs2.c:1635-1683 | after a text was read none of the three variables stands before it |
| `MtdStale.RereadKeepsCurrent` | u-boot/common/cmd_jffs2.c:1664-1678 | reading a text keeps the current partition that `partition` named, if there still is one of that number on that device |
| `MtdStale.StaleCopySkipsReading` | u-boot/common/cmd_jffs2.c:1635-1645 | in every state in which one of the three variables is defined: `setenv mtdparts` of a readable text, `chpart`, `setenv mtdparts` of what the copy then holds, and the next command does not read the variable, which would not parse unless it begins with the prefix |
| `MtdRun.SyncKeeps` | u-boot/common/cmd_jffs2.c:1556-1684 | bringing the table in step with the variables keeps the whole invariant, whatever they hold |
| `MtdRun.HarmlessExactly` | u-boot/common/cmd_jffs2.c:2017-2112 | a command on a table in order leaves it in order, current partition included, if and only if it does not delete a partition behind the current one at the same offset while that is number 0 and at most 255 would remain; adding and selecting partitions always leave it so |
| `MtdAdd.AddsOnePartition` | u-boot/common/cmd_jffs2.c:2047-2102 | `mtdparts add` of one definition, in any notation, whose description fits: if the partition it describes passes the check (its offset being that given or the end of the last partition) and is not a second one at offset 0, the devices are what they were with exactly that size, offset, name and flag in addition, before the first partition with the same or a higher offset, or on a new device; otherwise they are unchanged |
| `MtdAdd.AddsWhatIsRead` | u-boot/common/cmd_jffs2.c:2077-2096 | an argument of any other form: what is read from it becomes a new device, or only its first partition goes onto the device that is there; what cannot be read changes nothing |
| `MtdAdd.LongDescriptionIgnored` | u-boot/common/cmd_jffs2.c:2064-2073 | a description whose length, in 8 bits and with a flag counted only if it has two characters, is 64 or more changes nothing |
| `MtdAdd.UnknownDeviceIgnored` | u-boot/common/cmd_jffs2.c:2056-2062 | neither does one for an id that is none or not in the list of known devices |
| `MtdAdd.DelRemoves` | u-boot/common/cmd_jffs2.c:1357-1381 | `mtdparts del` removes exactly the named partition, or its device with the last one, and does nothing if there is none |
| `MtdAdd.ChpartSelects` | u-boot/common/cmd_jffs2.c:1979-2004 | `chpart` makes exactly the named partition current and leaves the devices as they are, or does nothing if there is none |
| `MtdAdd.DelAllClears` | u-boot/common/cmd_jffs2.c:2027-2038 | `mtdparts delall` leaves no device and none of the four variables |
| `MtdByHand.TextDeleted` | u-boot/common/cmd_jffs2.c:1610-1622 | without the variable the devices and what named the current partition are forgotten |
| `MtdByHand.TooLongFails` | u-boot/common/cmd_jffs2.c:1581-1584 | a text of 512 characters or more fails and changes nothing |
| `MtdByHand.UnreadableFails` | u-boot/common/cmd_jffs2.c:1635-1650 | a new text that cannot be read, or holds no device, fails and leaves no device |
| `MtdByHand.NewTextIsRead` | u-boot/common/cmd_jffs2.c:1635-1650 | a new text that can be read gives its devices |
| `MtdByHand.PartitionByHand` | u-boot/common/cmd_jffs2.c:1658-1684 | a `partition` set by hand becomes current if it names a partition, and else nothing changes |
| `MtdByHand.PartitionDeleted` | u-boot/common/cmd_jffs2.c:1658-1664 | one that was deleted is stored anew |
| `MtdReach.ExecKeepsExactly` | u-boot/common/cmd_jffs2.c:2017-2112 | the same for whole commands, with the reading before them and changes of the environment: the condition is on the table in step with the variables |
| `MtdReach.EveryReachableState` | u-boot/common/cmd_jffs2.c:2017-2112 | from power-up with any environment and over every run of commands: lists sorted, counted and fitting their flash, devices distinct, a current device unless the table is empty, the environment in order |
| `MtdReach.CurrentAlwaysExists` | u-boot/common/cmd_jffs2.c:252-312 | over every run from power-up the current partition exists, with its global number as its position, in every state if and only if no command makes such a deletion |
| `MtdReach.FreshExactly` | u-boot/common/cmd_jffs2.c:1635-1645 | a command that reads the text, of any length, takes a true copy if and only if its old address still shows it; for a text not shorter than the move, if and only if it is in place |
| `MtdReach.SkippingIsSound` | u-boot/common/cmd_jffs2.c:1635-1656 | over every run in which every copy was true, the text that would not be read again gives the table, if that is rereadable |
| `MtdOwn.OwnTextIsTheTable` | u-boot/common/cmd_jffs2.c:1234-1246 | over every run from power-up without `mtdparts` in which no command sets it by hand (names and arguments being C strings): every copy is true, the variable is never read, it holds the table's text if it is defined, and that gives the table if and only if it is rereadable |
| `MtdOwn.RestartRestoresExactly` | u-boot/common/cmd_jffs2.c:1635-1656 | if such a run leaves the variable defined, the first command after the next power-up has the same devices if and only if the table is rereadable and its text is shorter than 512 characters |
| `MtdSaved.ChangesAreStored` | u-boot/common/cmd_jffs2.c:1233-1246 | whatever `add` or `del` changes, afterwards the variable and its copy hold the text of the new table, if there is room and it is shorter than 521 characters, and else nothing |
| `MtdSaved.CurrentStored` | u-boot/common/cmd_jffs2.c:290-312 | making a partition current stores its part-id if there is room for it, and a copy of it |
| `MtdSaved.NameStored` | u-boot/common/cmd_jffs2.c:252-285 | numbering stores the current partition's name in `mtddevname` |
| `MtdSaved.PartitionAlwaysNamed` | u-boot/common/cmd_jffs2.c:290-312 | over every run of commands that do not set `partition` themselves it names the current partition, if it holds anything and there is one |
| `MtdSaved.RestartRestoresTable` | u-boot/common/cmd_jffs2.c:1556-1684 | after a run in which neither variable is set by hand and both are left defined, the first command after the next power-up has the whole table again, current partition included, if and only if it is rereadable, its text shorter than 512 characters and its current partition exists |
| `MtdLists.CountersDoNotWrap` | u-boot/include/jffs2/load_kernel.h:38 | over every run of n commands with descriptions that fit their buffer, no list has more than 256 + n partitions, so the 16-bit count is exact for n up to 65279 |
| `MtdIndex.ReindexStores` | u-boot/common/cmd_jffs2.c:252-285 | numbering stores the current partition's global number if and only if the environment has room for it |
| `MtdIndex.NumberAlwaysInStep` | u-boot/common/cmd_jffs2.c:252-312 | over every run of commands that do not set `mtddevnum` themselves it holds that number or nothing |
| `MtdParts.SimpleStrtoul` | u-boot/lib_generic/vsprintf.c:24-49 | the digit loop reads the number and stops where the specification says |
| `MtdParts.ParseMemsize` | u-boot/common/cmd_jffs2.c:198-218 | the fall-through of shifts equals one multiplication, with 32-bit wrap-around |
| `MtdParts.ParsePartition` | u-boot/common/cmd_jffs2.c:602-710 | the pointer-moving parser accepts, rejects and stops exactly as the specified grammar |
| `MtdParts.Validate` | u-boot/common/cmd_jffs2.c:322-435 | the sector-walking check accepts exactly the partitions of the specified check, and fills in the remaining size |
| `MtdParts.SortInto` | u-boot/common/cmd_jffs2.c:541-570 | the list walk inserts at the specified place or refuses, and tells the place |
| `MtdParts.IdParse` | u-boot/common/cmd_jffs2.c:1071-1094 | the device id parser equals the specified one |
| `MtdParts.SortParts` | u-boot/common/cmd_jffs2.c:978-987 | the list built partition by partition is the specified one or refused, and the partitions are numbered anew as often as specified |
| `MtdParts.ParseDeviceDef` | u-boot/common/cmd_jffs2.c:867-992 | the device parser with its temporary list equals the specified one, errors and the numbering on the way included |
| `MtdParts.ParseMtdparts` | u-boot/common/cmd_jffs2.c:1390-1436 | the table parser equals the specified one, redefined devices and a missing prefix included |
| `MtdParts.GenerateMtdparts` | u-boot/common/cmd_jffs2.c:1107-1224 | the piecewise writer with its length budget produces the table's text exactly when it fits, and fails otherwise |
| `MtdCommands.PartitionTable.IndexPartitions` | u-boot/common/cmd_jffs2.c:252-285 | the counting loop stores the specified number and name in the environment |
| `MtdCommands.PartitionTable.CurrentSave` | u-boot/common/cmd_jffs2.c:290-312 | the current partition goes into the variable and its copy, then the numbers are stored |
| `MtdCommands.PartitionTable.PartSortAdd` | u-boot/common/cmd_jffs2.c:517-571 | linking a partition in changes list, count, current number and variables as specified, or nothing |
| `MtdCommands.PartitionTable.PartDel` | u-boot/common/cmd_jffs2.c:446-486 | likewise for deleting one |
| `MtdCommands.PartitionTable.DeviceDel` | u-boot/common/cmd_jffs2.c:788-810 | likewise for a device, with the new current partition |
| `MtdCommands.PartitionTable.FindDevAndPart` | u-boot/common/cmd_jffs2.c:1309-1346 | a part-id selects the specified device and partition, or nothing |
| `MtdCommands.PartitionTable.ReadTable` | u-boot/common/cmd_jffs2.c:1390-1436 | the devices are forgotten, the variable is read anew, and the copy is taken from the address it had before |
| `MtdCommands.PartitionTable.MtdpartsInit` | u-boot/common/cmd_jffs2.c:1556-1684 | the variable is read exactly when it differs from the copy, the current partition is restored from `partition`, and every error path leaves the specified state |
| `MtdCommands.PartitionTable.AddPartition` | u-boot/common/cmd_jffs2.c:2047-2102 | `mtdparts add`, with everything it stores on success and on failure |
| `MtdCommands.PartitionTable.DeletePartition` | u-boot/common/cmd_jffs2.c:1357-1381 | `mtdparts del`, likewise |
| `MtdCommands.PartitionTable.ChangePartition` | u-boot/common/cmd_jffs2.c:1979-2004 | `chpart`, likewise |
| `MtdCommands.PartitionTable.Execute` | u-boot/common/cmd_jffs2.c:2017-2112 | each command on the mutable table and environment takes them to the state that the run specification gives |
| `KermitReceiver.TailRun` | u-boot/common/cmd_load.c:903-976 | for every input, the receiver accepts, rejects or waits exactly as the judgement of the frame says, with all its effects |
| `KermitReceiver.PacketRun` | u-boot/common/cmd_load.c:856-976 | a packet behind any noise is delivered and acknowledged, or leaves the checkpoint and a negative acknowledge |
| `KermitFrames.ShortFrameAccepted` | u-boot/common/cmd_load.c:868-960 | every frame in the ordinary packet format is accepted with its type and data |
| `KermitFrames.LongFrameAccepted` | u-boot/common/cmd_load.c:910-960 | every frame in the extended-length format is accepted with its type and data |
| `KermitFrames.ReplyIsAcceptable` | u-boot/common/cmd_load.c:602-626 | any reply passes the receiver's own frame checks with the same number, type and data if and only if it ends in CR |
| `KermitFrames.RepliesAreValid` | u-boot/common/cmd_load.c:717-801 | whatever parameters the peer sent, the replies are of that form |
| `KermitSession.StepReplies` | u-boot/common/cmd_load.c:717-801 | on every character at most one reply is sent, with the parameters last taken over, and only a send-initiate packet changes them |
| `KermitSession.ReplyAsAsked` | u-boot/common/cmd_load.c:593-600 | every reply is preceded by as many padding characters as the peer asked for with its third and fourth parameters and ended by the character asked for with the fifth, whichever of them were sent |
| `KermitSession.SendInitAnswered` | u-boot/common/cmd_load.c:717-801 | a send-initiate packet behind any noise is answered by one reply in the way it asks for |
| `KermitSession.OfferedIs` | u-boot/common/cmd_load.c:735-795 | the parameters offered in the answer, one for each received and three more for the tenth, as octets |
| `KermitSession.NackReply` | u-boot/common/cmd_load.c:615-626 | the six octets of a negative acknowledge |
| `KermitSession.Interrupted` | u-boot/common/cmd_load.c:856-866 | ^C between packets ends the receiver |
| `KermitSession.KnownSession` | u-boot/common/cmd_load.c:804-980 | a download given octet by octet, with another quote character, stores one octet and is answered by these octets |
| `KermitFile.QuotingRoundTrip` | u-boot/common/cmd_load.c:573-581 | unquoting undoes control quoting for every text if and only if the quote character is usable |
| `KermitFile.EncodedIsPrintable` | u-boot/common/cmd_load.c:935-939 | quoted text holds no character that the frame checks take for damage |
| `KermitFile.PacketsDeliverFile` | u-boot/common/cmd_load.c:694-709 | the packets of a file, quoted with the sixth parameter if the sender announced it and `#` otherwise, deliver the file wherever its quoted text is cut, the pending escape carrying over the cut |
| `KermitDelivery.DownloadInv` | u-boot/common/cmd_load.c:884-901 | over every run of transmissions the receiver is at the packets settled so far, or one tried packet ahead with a checkpoint behind it |
| `KermitDelivery.KeptExactly` | u-boot/common/cmd_load.c:884-901 | no acknowledged packet is taken back if and only if no header damage hit the first transmission after an acknowledged data packet; the bytes stored follow in `KermitFile.FileArrives` |
| `KermitDelivery.DeliveredExactlyOnce` | u-boot/common/cmd_load.c:839-979 | when a download ends, what is stored is every packet that was not taken back, decoded exactly once and in order; every packet if there was no such damage (the converse fails for packets quoted in any way, `KermitFile.LossNeedNotShow`, and holds for those of a file, `KermitFile.FileArrives`) |
| `KermitFile.QuotingIsShortest` | u-boot/common/cmd_load.c:573-581 | no quoted text is shorter than the quoting of what it stores |
| `KermitFile.LostDataShows` | u-boot/common/cmd_load.c:660-709 | the packets of a file, some of them without their data, do not store the file |
| `KermitFile.FileArrives` | u-boot/common/cmd_load.c:804-980 | a download of a file, quoted with the character announced or `#`, that ends has stored exactly the file if and only if no header damage hit the first transmission after an acknowledged data packet, however else the line behaved |
| `KermitFile.RedundantQuote` | u-boot/common/cmd_load.c:660-709 | a quote before a character that stands for itself makes no difference |
| `KermitFile.LossNeedNotShow` | u-boot/common/cmd_load.c:660-709 | a download of the packets `#` and c, the first of them taken back after its acknowledge, ends with the same bytes stored as without damage, for every c that stands for itself |
| `KermitFile.AcknowledgedDataIsLost` | u-boot/common/cmd_load.c:869-881 | header damage after an acknowledge takes acknowledged data back |
| `KermitPort.KermitPort.KDataChar` | u-boot/common/cmd_load.c:660-709 | a character reaches memory through the unquoting without touching the checkpoint |
| `KermitPort.KermitPort.SequenceNumber` | u-boot/common/cmd_load.c:891-900 | saving or restoring the checkpoint in the file-level variables |
| `KermitPort.KermitPort.ReceivePacket` | u-boot/common/cmd_load.c:868-960 | reading one packet into memory follows the automaton, whatever arrives |
| `KermitPort.KermitPort.Chk1` | u-boot/common/cmd_load.c:583-591 | the sum up to the NUL gives the block check of the frame |
| `KermitPort.KermitPort.HandleSendPacket` | u-boot/common/cmd_load.c:717-801 | the reply built in the 24-byte buffer is the specified frame and the peer's parameters are taken over; `KermitSession` and `KermitFile.PacketsDeliverFile` say what they then do |
| `KermitPort.KermitPort.SendNack` | u-boot/common/cmd_load.c:615-626 | likewise for a negative acknowledge |
| `KermitPort.KermitPort.KRecv` | u-boot/common/cmd_load.c:804-980 | the receiver on memory, buffers and saved copies follows the automaton; at the end the size and the memory are what the automaton stored |
| `KermitLoad.LineDrivesReceiver` | u-boot/common/cmd_load.c:839-978 | the characters of a whole download drive the automaton to the state of the download |
| `KermitLoad.LoadSerialBin` | u-boot/common/cmd_load.c:535-558 | over every such line, whatever quote character the sender announces, the memory from the load address on holds the file for the size returned if and only if no such damage occurred |
| `SRecord.BytesRead` | u-boot/common/s_record.c:172-195 | numbers written in hexadecimal are read back |
| `SRecord.RecordDecoded` | u-boot/common/s_record.c:30-170 | a record of any kind is decoded to its address and data, its checksum being accepted |
| `SRecord.RecordSum` | u-boot/common/cmd_load.c:360-376 | the octets of a record text, as many as its length octet says and one more, sum up to 0xFF |
| `SRecord.RecordsLoaded` | u-boot/common/cmd_load.c:162-191 | loading the records of a dump stores the dumped bytes one behind the other, over the top of the address space too, and counts the records' first and last addresses |
| `SRecord.DumpLoaded` | u-boot/common/cmd_load.c:336-389 | loading a dump of any range with any offset reproduces the dumped memory there, changes nothing else and reports the size given by a closed form |
| `SRecord.SizeIsRightExactly` | u-boot/common/cmd_load.c:192-207 | the reported size is right if and only if something was dumped and it stays below the top of the address space, is one record, or agrees by accident |
| `SRecordFile.FileLoaded` | u-boot/common/cmd_load.c:145-210 | loading any list of S0, S1, S2, S3 and S5 records with arbitrary addresses and data, digits in either case, behind an offset and ended by an S7, S8 or S9 record, ends with its entry address; each byte of memory is then that of the last data record that covers it, or the old one, and the size reported is the span of the addresses |
| `SRecordFile.WrongChecksumAborts` | u-boot/common/cmd_load.c:160-200 | a record with another checksum ends the load with an error, what came before it being stored |
| `SRecordFile.InterruptionAborts` | u-boot/common/cmd_load.c:222-258 | so does a NUL or ^C |
| `SRecordFile.JunkIgnored` | u-boot/common/s_record.c:36-50 | what stands in front of the `S` of a record is skipped, and so is a line without one |
| `SRecordFile.LongLineCut` | u-boot/common/cmd_load.c:222-258 | a line of more than 516 characters is taken for two |
| `SRecordFile.KnownFileLoaded` | u-boot/common/cmd_load.c:145-210 | a file of three lines given character by character, with two address lengths, is loaded to three bytes |
| `SRecordFile.DumpIsFile` | u-boot/common/cmd_load.c:336-389 | a dump is a start record, lines of 16 bytes each with the right checksum, the last one shorter, and an end record |
| `SRecordPort.Console.ReadLine` | u-boot/common/cmd_load.c:222-258 | the character loop yields the specified line, interruption or truncation |
| `SRecordPort.Console.LoadSerial` | u-boot/common/cmd_load.c:147-220 | the loader's result and memory are those of the load specification, for every input; `SRecordFile.FileLoaded` says what that is for any file of records |
| `SRecordPort.Console.Dump` | u-boot/common/cmd_load.c:358-383 | the checksum accumulated over data, length and address makes the specified record |
| `SRecordPort.Console.SaveSerial` | u-boot/common/cmd_load.c:336-389 | the byte-collecting loop writes the dump specified by the memory |
| `EnvSpec.ImageDeterminesList` | u-boot/common/cmd_nvedit.c:485-505 | a buffer holds at most one list of definitions |
| `EnvSpec.NoEarlyDoubleNul` | u-boot/common/cmd_nvedit.c:295-296 | the first double NUL is the end of the list |
| `EnvMap.SetEnvIsMapUpdate` | u-boot/common/cmd_nvedit.c:169-323 | setenv updates the map of values at its name only, and keeps names distinct, on every path |
| `EnvMap.SetEnvKeepsOrder` | u-boot/common/cmd_nvedit.c:257-323 | the list afterwards is the old one without the name, in order, with the new definition appended exactly when it fits |
| `EnvMap.StoredValue` | u-boot/common/cmd_nvedit.c:312-320 | a plain name gets its arguments joined by spaces |
| `EnvMap.JoinedIsSpaceSeparated` | u-boot/common/cmd_nvedit.c:314-320 | joining puts one space before every further argument |
| `EnvMap.RefusedExactly` | u-boot/common/cmd_nvedit.c:183-245 | a call is refused if and only if the variable is defined and the name is `serial#` or `ethaddr`, one of the three consoles and is deleted or not accepted, or `baudrate` and not accepted; nothing changes then |
| `EnvMap.ProtectionHoldsExactlyWithoutDisguise` | u-boot/common/cmd_nvedit.c:183-199 | a name leaves a defined `serial#` or `ethaddr` alone in every call if and only if it does not disguise it |
| `EnvMap.ProtectedForever` | u-boot/common/cmd_nvedit.c:183-323 | `serial#` and `ethaddr` keep their values over every run of setenv calls with undisguised names, overflowing and deleting ones included |
| `EnvMap.DisguisedDeletion` | u-boot/common/cmd_nvedit.c:190-198 | a name with `=` deletes `serial#` or `ethaddr` |
| `EnvBytes.PutOk` | u-boot/common/cmd_nvedit.c:169-326 | a call keeps the buffer's size, its packed list and the values of all other variables |
| `EnvBytes.PutWrites` | u-boot/common/cmd_nvedit.c:257-323 | the bytes a call writes: the list without the definition, then the list with the new one, and nothing behind them |
| `EnvBytes.UnsetMoves` | u-boot/common/cmd_nvedit.c:257-271 | deleting a variable moves the value of another one down by the bytes it took in front of it |
| `EnvBytes.ValueAt` | u-boot/common/cmd_nvedit.c:485-505 | at an address inside a value lies the rest of the value |
| `EnvBytes.RoomForShorter` | u-boot/common/cmd_nvedit.c:299-311 | a value that is no longer than the old one always fits |
| `Environment.Environment.EnvMatch` | u-boot/common/cmd_nvedit.c:558-568 | the comparison finds the value exactly of the definition whose text before `=` is that of the name |
| `Environment.Environment.Search` | u-boot/common/cmd_nvedit.c:172-178 | the scan finds the bounds of the one definition of the name and its value, or nothing when the map has none |
| `Environment.Environment.Delete` | u-boot/common/cmd_nvedit.c:257-271 | the shift in place writes the list without the definition over the buffer and leaves the bytes behind it |
| `Environment.Environment.Append` | u-boot/common/cmd_nvedit.c:312-323 | the strings are written behind the list, and nothing else |
| `Environment.Environment.SetEnv` | u-boot/common/cmd_nvedit.c:154-326 | one call takes list and bytes to the specified ones; the checksum is current after every success and nothing is written on a refusal; a defined `serial#` or `ethaddr` is refused with return code 1 |
| `Environment.Environment.GetEnv` | u-boot/common/cmd_nvedit.c:485-505 | the index returned is where the map's value lies, NUL-terminated, or there is none |
| `MemTest.ComplementsExposeStuckBits` | u-boot/common/cmd_mem.c:919-945 | a cell that reads two complementary patterns right has no stuck bit |
| `MemTest.Wiring.ChecksImplyGood` | u-boot/common/cmd_mem.c:919-945 | two passed checks imply an injective decoding and sound cells, for every decoding |
| `MemTest.WalkIsLowRunOfOnes` | u-boot/common/cmd_mem.c:856-858 | the offsets visited are the powers of two in the low run of ones of the mask |
| `MemTest.Wiring.ProbeDetectsAliases` | u-boot/common/cmd_mem.c:880-893 | on sound cells a probe passes exactly when no visited offset is an alias of the probed one |
| `MemTest.Wiring.NoAliasMeansInjective` | u-boot/common/cmd_mem.c:860-893 | no probe finding an alias is injectivity on offset 0 and the visited offsets |
| `MemTest.Memory.CheckPattern` | u-boot/common/cmd_mem.c:883-891 | the verdict of the reading loop |
| `MemTest.Memory.WalkingOnesTest` | u-boot/common/cmd_mem.c:845-893 | on sound cells it passes if and only if the decoding is injective on offset 0 and the visited powers of two |
| `MemTest.Memory.IncrementDecrementTest` | u-boot/common/cmd_mem.c:907-945 | it passes if and only if the decoding is injective on the tested words and no tested cell has a stuck bit; the region is then zero |
| `MemTest.Memory.Iteration` | u-boot/common/cmd_mem.c:845-945 | so does the whole iteration: the walking-ones test rejects no good memory |
| `FlashExact.TilesExactly` | u-boot/common/cmd_flash.c:197-278 | for banks in any order the sectors of a plan without error tile a prefix of the range if and only if the end of the range does not wrap onto a later bank |
| `FlashExact.ExactOnChain` | u-boot/common/cmd_flash.c:197-278 | on adjacent banks a plan succeeds with something to do if and only if the range begins and ends on sector boundaries, and then reaches its end |
| `FlashExact.RangeIsSelected` | u-boot/common/cmd_flash.c:197-278 | and then selects exactly the bytes of the range |
| `FlashExact.RangeOfOneBank` | u-boot/common/cmd_flash.c:262-264 | a range of whole sectors of one bank is planned exactly if and only if its end does not wrap onto a later bank at address 0 |
| `Flash.FillSectRanges` | u-boot/common/cmd_flash.c:197-278 | the loops fill the arrays with the specified selection and count its sectors, or report an error exactly when there is one |
| `Flash.FlashMemory.SectErase` | u-boot/common/cmd_flash.c:403-442 | erasing succeeds exactly when something is planned without error, and erases the selected sectors and nothing else |
| `Flash.FlashMemory.SectProtect` | u-boot/common/cmd_flash.c:621-672 | protecting or unprotecting changes exactly the selected sectors, under the same condition, and no other sector's flag |
| `Flash.FlashMemory.ErasePartition` | u-boot/common/cmd_flash.c:345-363 | an accepted partition is erased without boundary error, and no byte outside it, unless its end wraps onto a later bank at address 0: then nothing is erased, or address 0 as well |
| `Flash.AlignedMeansSectors` | u-boot/common/cmd_jffs2.c:322-360 | the alignment check accepts exactly runs of whole sectors |
| `Flash.PartitionIsErasable` | u-boot/common/cmd_jffs2.c:407-435 | the range of an accepted partition is planned exactly, if and only if its end does not wrap onto a later bank |
| `PartCheck.AcceptedFits` | u-boot/common/cmd_jffs2.c:407-435 | an accepted partition is not empty and lies inside its device, in spite of wrapping sums |
| `PartCheck.AcceptedExactly` | u-boot/common/cmd_jffs2.c:407-435 | a partition is accepted if and only if it is not empty, lies inside its device and is aligned, and 0xFFFFFFFF stands for what is left |
| `PartCheck.NandAlignment` | u-boot/common/cmd_jffs2.c:362-398 | on NAND flash aligned means whole erase blocks |
| `Flash.LeastSectorEnd` | u-boot/common/cmd_flash.c:161-185 | the end of the sector that holds an address is the least sector end at or behind it, over all banks |
| `Flash.RoundToSectorEnd` | u-boot/common/cmd_flash.c:144-192 | `start +length` is rounded to the least sector end at or behind start+length-1, or refused when that is not in flash |
| `LogSpec.CallIsPrefixed` | u-boot/common/cmd_log.c:225-261 | one call adds lines that carry a prefix each, after the rest of an open line |
| `LogSpec.EveryLineIsPrefixed` | u-boot/common/cmd_log.c:215-263 | over every run of calls every line of the log carries a level prefix, however many calls it spans |
| `LogSpec.NoSecondPrefix` | u-boot/common/cmd_log.c:227-241 | text that carries its prefixes is logged unchanged |
| `LogSpec.SplitCall` | u-boot/common/cmd_log.c:220-260 | splitting a text over two calls changes the log if and only if the break falls inside a prefix |
| `LogBuffer.LoggedAtStart` | u-boot/common/cmd_log.c:215-241 | text on a new line is logged behind `<4>`, with level 4, unless it begins with its own level `<0>` to `<7>` |
| `LogBuffer.AppendedText` | u-boot/common/cmd_log.c:167-174 | the calls of `log append`, concatenated, are the arguments joined by single spaces and ended by a line feed |
| `LogBuffer.AppendLogsLine` | u-boot/common/cmd_log.c:167-174 | on no open line it logs exactly one line, `<4>` in front of it unless the first argument brings its level |
| `LogBuffer.AppendOnLine` | u-boot/common/cmd_log.c:167-174 | on an open line it continues and ends that line |
| `LogBuffer.LogBuffer.Contents` | u-boot/common/cmd_log.c:243-250 | the ring holds exactly the last 16384 characters of everything logged, oldest first, past any wrap of the counters |
| `LogBuffer.LogBuffer.Store` | u-boot/common/cmd_log.c:244-250 | storing a character appends it to that stream |
| `LogBuffer.LogBuffer.OpenLine` | u-boot/common/cmd_log.c:227-241 | the prefix is written over consumed bytes of the work buffer without touching the line |
| `LogBuffer.LogBuffer.Printk` | u-boot/common/cmd_log.c:215-263 | one call appends the normalised text and leaves the specified open level |
| `LogBuffer.LogBuffer.Append` | u-boot/common/cmd_log.c:167-174 | `log append` logs its arguments, spaces and line feed as one run of calls |
| `Floppy.PlaceOfBlockAt` | u-boot/common/cmd_fdc.c:307-325 | every place on the disk is selected by the number of its block |
| `Floppy.BlockAtPlaceOf` | u-boot/common/cmd_fdc.c:307-325 | every block selects a place on the disk, the one with its number, in spite of the 8-bit registers |
| `Floppy.NextSide` | u-boot/common/cmd_fdc.c:307-325 | as many blocks further on as a track has sectors is the same sector under the next head, or under the first head of the next track; block 0 is the first sector of all |
| `Floppy.PassingIsImage` | u-boot/common/cmd_fdc.c:512-532 | up to the end of a track, consecutive sectors under one head are consecutive blocks |
| `Floppy.NextTrack` | u-boot/common/cmd_fdc.c:570-580 | a chunk that reaches the end of its track leaves a whole track for the next one |
| `Floppy.Controller.ReadChunk` | u-boot/common/cmd_fdc.c:520-569 | a transfer from the track the head is at stores the blocks, or breaks off without touching bytes outside its chunk |
| `Floppy.Controller.Retry` | u-boot/common/cmd_fdc.c:542-562 | the two retry counters stand for the number of errors so far; every fifth error is followed by a recalibration and the 25th ends the call |
| `Floppy.Controller.FdcReadData` | u-boot/common/cmd_fdc.c:482-598 | TRUE exactly when no command was refused and at most 24 transfers failed; then the buffer holds the blocks, for any first block and number; every read stays on one track under one head; the drive was recalibrated once for every five errors, but not after the 25th |
| `Eeprom.LengthStaysInside` | u-boot/common/cmd_eeprom.c:255-278 | no transfer crosses a page or a block of 256 bytes |
| `Eeprom.NeverCrossesExactly` | u-boot/common/cmd_eeprom.c:255-278 | no transfer ever crosses a page of the configured size if and only if that is at most 256 bytes |
| `Eeprom.LengthIsLargest` | u-boot/common/cmd_eeprom.c:255-278 | every transfer is as long as the page, 128 bytes and the range let it be |
| `Eeprom.CellsAreDistinct` | u-boot/common/cmd_eeprom.c:234-253 | different offsets select different cells, whatever the device address, unless their selectors interfere with it |
| `Eeprom.CellIs` | u-boot/common/cmd_eeprom.c:234-253 | the cell of an offset is its remainder within the device at the bus address that is the device address plus its quotient |
| `Eeprom.OctetsSelect` | u-boot/common/cmd_eeprom.c:234-253 | the two or three address octets select that cell |
| `Eeprom.TransferIsFlat` | u-boot/common/cmd_eeprom.c:365-370 | on a device whose address counter wraps inside a page, a transfer stores its bytes at their offsets and nowhere else |
| `Eeprom.ReadBack` | u-boot/common/cmd_eeprom.c:132-195 | what a flat write stored is what the range then holds |
| `Eeprom.Bus.EepromWrite` | u-boot/common/cmd_eeprom.c:206-380 | the return code tells whether every transfer was acknowledged; then the effect is one flat write, the cells being selected by the address octets sent; no offset outside the range changes in any case |
| `Eeprom.Bus.EepromRead` | u-boot/common/cmd_eeprom.c:132-195 | the same for reading: the buffer then holds the bytes of the range |
| `Bootm.SizeRead` | u-boot/README:3038-3043 | the size list holds each image's size at its place and a zero behind them |
| `Bootm.KernelImage` | u-boot/common/cmd_bootm.c:280-287 | the loop over the size list finds the data behind its terminator |
| `Bootm.RamdiskImage` | u-boot/common/cmd_bootm.c:715-732 | likewise for the second image, with the alignment of the first |
| `Bootm.KernelFound` | u-boot/common/cmd_bootm.c:280-287 | wherever a multi-file image of any number of images lies, that is exactly its first image |
| `Bootm.RamdiskFound` | u-boot/common/cmd_bootm.c:715-732 | and exactly its second one |
| `Bootm.CopyInChunks` | u-boot/common/cmd_bootm.c:335-342 | the copy loop over memory equals one memmove when the destination is not above the source, the regions are disjoint or there is one chunk |
| `Bootm.ChunksAreOneMoveExactly` | u-boot/common/cmd_bootm.c:335-342 | and it does so for every memory contents in no other case |

## Left out

- MtdCommands.PartitionTable.Execute: lists are sequences of values, so pointers into them, freed memory and allocation failure are not modelled; names made up for unnamed partitions, and what is read where there is no partition, are a parameter of each command.
- MtdCommands.PartitionTable.MtdpartsInit: the device names (`mtdids`) are fixed; parsing them and the `default` command are not modelled. A `partition` or a stale copy that fills its buffer without a NUL is taken to end there.
- MtdCommands.PartitionTable.AddPartition: the checked length has 8 bits and takes a flag of any length for none or two characters, so a description of 256 characters or with a longer flag overruns its buffer of 64; the model takes the description as a whole. So it does with generated texts of 512 to 520 characters, which overrun the copy's buffer.
- MtdReach.EveryReachableState: the number of partitions is unbounded where the code keeps 16 bits (`num_parts`), so it differs from the code once 65536 partitions were added to one device; `MtdLists.CountersDoNotWrap` bounds the runs for which it cannot.
- MtdTable.GlobalIndexIsPosition: the stored variable keeps 16 bits of the number.
- KermitLoad.LoadSerialBin: damage that the frame checks do not find, a damaged but printable sequence number, and a start character inside damage are outside the assumptions on the line; the receiver itself is modelled for every input.
- KermitPort.KermitPort.KRecv: memory behind the returned size is not described, and the line ends where the input ends.
- SRecordPort.Console.LoadSerial: records for flash addresses, echo and the interrupt key are not modelled; a data record whose length octet is below 5 ends the model where the code would copy a negative number of bytes.
- Environment.Environment.SetEnv: the effects of `stdin`, `baudrate`, `ipaddr` and the like outside the environment are not modelled; whether such a value is accepted is a parameter.
- EnvMap.SetEnvIsMapUpdate: `getenv_r` and `env_get_char` caching are not part of this model.
- MemTest.Memory.Iteration: the data-line test before it, the other test algorithm and the endless outer loop are left out; a memory cell is a word with stuck bits and no other fault.
- Flash.FlashMemory.SectErase: a chip that fails to erase or protect is not modelled, nor is the text syntax of `addr_spec`.
- FlashExact.ExactOnChain: is stated for banks in ascending order without gaps; for other orders `FlashExact.TilesExactly` holds.
- LogBuffer.LogBuffer.Printk: the console output and the console level are left out; lines too long for the work buffer are excluded.
- LogBuffer.LogBuffer.Reset: empties the ring but leaves an open line open, as the code does, so that the next line may lack a prefix; `log show` is left out.
- Floppy.Controller.FdcReadData: the FIFO handshake, time-outs and the drive select are one answer per command; a block behind the disk is whatever the drive delivers for its registers.
- Eeprom.Bus.EepromWrite: the I2C variant without the X40430 control register; FRAM and SPI variants and write delays are left out.
- Bootm.KernelImage: headers, checksums, decompression and everything after the copy are left out.
- Drivers, consoles, IDE, PCMCIA, NAND, I2C, MII and FPGA commands, `circbuf.c`, `bedbug.c` and `ymodem`: their meaning lies in hardware or in libraries, or they would only add easy members.
