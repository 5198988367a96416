# A verified model of U-Boot's stateful commands

This project models, in Dafny, the parts of U-Boot's command layer that keep
state or translate between bytes, text and tables, and proves what they promise
over all inputs and all runs:

- the in-RAM environment (`cmd_nvedit.c`), a byte array edited in place, against
  an insertion-ordered map;
- the MTD partition table (`cmd_jffs2.c`): validation, sorted lists with a
  current-partition cursor, the `mtdparts` parser and printer, and the cache that
  skips parsing;
- the Kermit receiver (`cmd_load.c`) with its checkpoints, against a reference
  that groups the trace into runs of equal sequence numbers;
- S-records (`cmd_load.c`, `s_record.c`): printing memory, decoding, loading;
- flash sector planning (`cmd_flash.c`) and the erase and protect operations on it;
- the table-driven CRC-16 (`crc16.c`), against polynomial division;
- the log ring with its level tags (`cmd_log.c`), the EEPROM page splitter
  (`cmd_eeprom.c`), the multi-file image layout (`cmd_ximg.c`, `cmd_bootm.c`) and
  the circular buffer (`circbuf.c`).

Code that works by updating state is modelled as classes and methods with loops,
each proved equal to a specification function; the theorems are lemmas about
those functions. `dafny verify dfyconfig.toml` checks everything.

## Files

| files | content |
|---|---|
| `EnvSpec`, `EnvStore`, `EnvTheorems` | the ordered list and its byte image; the in-place array code; theorems over calls and runs |
| `MtdText`, `MtdNumbers`, `MtdPart`, `MtdTable`, `MtdTies`, `MtdParse`, `MtdDriver`, `MtdCache`, `MtdCommands` | number and size text; what numerals mean; one partition; device lists and cursor; equal offsets; table parser and printer as functions; the same as loops; the cache; the commands over the globals |
| `KermitData`, `KermitSpec`, `KermitReceiver` | control prefixing; traces, the receiver's step and its theorems; the receiver as an object |
| `SRecord`, `SRecordTransfer`, `SRecordFiles`, `SRecordSize` | record text, decoder, loader as functions; the loops and the save/load round trip; any file of good records, and bad lines; the reported size |
| `FlashPlan`, `FlashDriver` | the plan and its theorems; the loops, protection and erasure |
| `Crc16Table`, `Crc16` | the 256 entries; division, the byte loop, error detection |
| `LogStream`, `LogBuffer` | the tagged stream; the ring and its scratch buffer |
| `Eeprom`, `MultiImage`, `CircBuf` | one component each |
| `Common` | shared types |

## Where code and promise differ

The model follows the code. Each of these is a lemma with a concrete input or an
explicit family; wherever a promise fails, the exact condition under which it
holds is proved beside it.

- `serial#` and `ethaddr` are documented as settable once, but the guard compares
  the whole argument while the search stops at '='. `setenv serial#=x` finds
  `serial#`, is not refused, and deletes it (`EnvTheorems.WriteOnceBypassed`). The
  protection holds exactly against names that are not the protected name followed
  by '=' (`EnvTheorems.WriteOnceExact`).
- A Kermit frame whose length or sequence character is a control character makes
  the receiver restore its checkpoint before it knows the sequence number. This
  drops data exactly when the last frame was a non-empty good data frame, which
  was already acknowledged (`KermitSpec.HeaderErrorExact`); over whole traces a bad
  header acts as a corrupt frame of the number before it
  (`KermitSpec.EventsDelivered`).
- Sector planning adds one to the last address of a bank. For a bank that ends at
  the top of the address space this is zero, and planning goes on in a later bank
  at address zero (`FlashPlan.WrapPlansMore`, `FlashPlan.RunExact`).
- The printer writes partitions smaller than the parser's minimum of 4096 bytes,
  and lists equal offsets in an order that the parser turns round. Printing and
  parsing gives the table back exactly when neither happens
  (`MtdParse.PrintParseExact`).
- Deleting a partition behind the current one, but at the same offset, moves the
  cursor, to 255 when it was 0 (`MtdTable.DeleteMovesCursor`,
  `MtdTable.CursorLostOnTie`). `index_partitions`, which runs next, then asks for the
  name of a partition that does not exist (`cmd_jffs2.c`, lines 274-275).
- When the printed table is too long, the table stays in memory and nothing is
  cached. If `mtdids` is then set to another text, even one with the same meaning,
  initialisation frees the ids and keeps the devices, which refer to them
  (`MtdCache.StaleReached` is such a run from power-up). The ids stay alive exactly
  when the text is unchanged (`MtdCache.StaleTable`), and `MtdCache.SyncExact` gives
  the check that avoids it. What the code does with freed ids is not modelled.
- The printer's length limit does not count the prefix `mtdparts=`, the limit of
  `mtdparts_init` does. A saved table is accepted by the next call exactly when its
  text behind the prefix has at most 502 characters (`MtdCache.SavedAccepted`, with an input in `MtdCache.SavedRefused`).
- Loading an S-record file without data records reports a file size of 2, and a
  saved range that wraps at the top of memory is mostly reported wrongly
  (`SRecordSize.WrongSizes`). `SRecordSize.ReportedExact` says when the size is
  right.
- The EEPROM splitter takes the page offset from the low eight bits of the offset,
  so pages above 256 bytes are crossed (`Eeprom.StaysInPageExact`,
  `Eeprom.LargePageWraps`), and a write is a flat write exactly when pages have at
  most 256 bytes or the device is one page (`Eeprom.FlatExact`). A range that reaches the top of the 32-bit offsets is
  skipped with result 0 (`Eeprom.Device.EepromWrite`).
- A level tag that is cut by the end of a log call gets a default tag in front
  (`LogStream.SplitExact`). `log reset` in the middle of a line leaves the rest of
  the line without a tag (`LogStream.ResetLosesTag`), unless that rest begins with a
  tag itself (`LogStream.ResetExact`).

## Model

| member | source | states |
|---|---|---|
| EnvStore.EnvMatch | u-boot/common/cmd_nvedit.c:558-568 | On a stored `name=value`, the scan answers exactly whether the argument up to its first '=' is the name, and then gives the index of the value. |
| EnvStore.CutOut | u-boot/common/cmd_nvedit.c:257-272 | The in-place shift removes exactly the bytes of one entry and stops at the double NUL. |
| EnvStore.CutLast | u-boot/common/cmd_nvedit.c:257-272 | Deleting the last entry, or the only one, re-terminates the image there. |
| EnvStore.EntryLength | u-boot/common/cmd_nvedit.c:295-310 | The computed length is that of the new text with both terminators. |
| EnvStore.WriteEntry | u-boot/common/cmd_nvedit.c:311-323 | Copying the name and the arguments with their separators writes the new text and a double NUL behind it, and nothing before it changes. |
| EnvStore.Environment.Search | u-boot/common/cmd_nvedit.c:171-180 | The search gives start, end and value of the entry for the key, or shows that there is none. |
| EnvStore.Environment.Guard | u-boot/common/cmd_nvedit.c:183-255 | A call is refused exactly for write-once variables and for console or baud-rate values that the device layer rejects. |
| EnvStore.Environment.DeleteEntry | u-boot/common/cmd_nvedit.c:257-272 | The bytes then hold the same entries in the same order without the deleted one. |
| EnvStore.Environment.Append | u-boot/common/cmd_nvedit.c:295-323 | The entry is added at the end, or refused with nothing changed exactly when it does not fit with both terminators; writes stay inside the array. |
| EnvStore.Environment.DoSetEnv | u-boot/common/cmd_nvedit.c:154-326 | The whole operation on the raw bytes equals the specification on the ordered list: refuse, or remove the key and append the joined arguments. |
| EnvStore.Environment.GetEnv | u-boot/common/cmd_nvedit.c:485-505 | Finds a value exactly when the list has the key, and the string at the returned index is that value. |
| EnvTheorems.SetEnvKeepsWf | u-boot/common/cmd_nvedit.c:154-326 | Every call leaves well-formed entries with unique names that fit the store, also when it fails. |
| EnvTheorems.OthersKept | u-boot/common/cmd_nvedit.c:154-326 | Whatever the outcome, every other variable keeps its value. |
| EnvTheorems.KeyAfter | u-boot/common/cmd_nvedit.c:154-326 | The variable is unchanged when refused, new on success, gone when deleted or overflowed. |
| EnvTheorems.SetThenGet | u-boot/common/cmd_nvedit.c:154-326 | After a successful set of an '='-free name the list is the old one without it plus the new entry, and looking it up gives the arguments joined by spaces. |
| EnvTheorems.OverflowExact | u-boot/common/cmd_nvedit.c:295-323 | A call fails exactly when refused or when the new image would exceed the store; on overflow the list is the old one minus that name. |
| EnvTheorems.RunKeepsWf | u-boot/common/cmd_nvedit.c:154-326 | Every environment reached by any sequence of calls is well-formed and fits. |
| EnvTheorems.UntouchedOverRun | u-boot/common/cmd_nvedit.c:154-326 | Any sequence of calls on other keys leaves a variable as it was. |
| EnvTheorems.WriteOnce | u-boot/common/cmd_nvedit.c:183-199 | Once set, `serial#` and `ethaddr` keep their value over every run of calls whose names are not the protected name followed by '='. |
| EnvTheorems.WriteOnceExact | u-boot/common/cmd_nvedit.c:183-199 | A name is harmless, for all arguments, if and only if it is not of that form. |
| EnvTheorems.WriteOnceBypassed | u-boot/README:2577-2579 | `setenv serial#=x` deletes a serial number. |
| EnvTheorems.RefusedExactly | u-boot/common/cmd_nvedit.c:183-255 | A call on a variable that is set returns 1 and changes nothing exactly for `serial#`, for `ethaddr` with a value other than the configured one (both only without the overwrite option), for a console that is deleted or not accepted, and for a baud rate that is not accepted; no other name is refused. |
| EnvTheorems.FirstSetNotRefused | u-boot/common/cmd_nvedit.c:154-326 | A call on a variable that is not set, whatever its name, fails only when the entry does not fit. |
| EnvTheorems.SerialKept | u-boot/common/cmd_nvedit.c:190-199 | Without the overwrite option a serial number keeps its value over every run of names without '='. |
| EnvTheorems.EthaddrKept | u-boot/common/cmd_nvedit.c:190-199 | So does an Ethernet address other than the one configured as replaceable. |
| EnvTheorems.ReplaceableOnce | u-boot/common/cmd_nvedit.c:190-199 | The configured Ethernet address, and with the overwrite option both variables, can be deleted, and replaced by any arguments that fit. |
| EnvTheorems.JoinBySpaces | u-boot/common/cmd_nvedit.c:311-320 | The arguments are joined by single spaces. |
| MtdText.MemsizeRoundTrip | u-boot/common/cmd_jffs2.c:197-244 | Parsing a printed size gives the size and the rest of the text, for every 32-bit size. |
| MtdText.StrToUlOfDecimal | u-boot/lib_generic/vsprintf.c:24-49 | Reading decimal text gives back the number. |
| MtdNumbers.NumeralRead | u-boot/lib_generic/vsprintf.c:24-49 | Every numeral in base 10, with "0x" in base 16, and with another leading zero in base 8, in either case, reads as its positional value modulo 2^32, and leaves the text behind it. |
| MtdNumbers.SizeRead | u-boot/common/cmd_jffs2.c:197-217 | With each of G, g, M, m, K and k behind it, or none, that is the value times 2^30, 2^20, 2^10 or 1 modulo 2^32, and the text behind the letter is left. |
| MtdNumbers.LargestUnit | u-boot/common/cmd_jffs2.c:230-244 | Sizes are printed in the largest unit that divides them. |
| MtdPart.ValidatedIsInDevice | u-boot/common/cmd_jffs2.c:321-436 | An accepted partition is non-empty, inside the device without wrap-around and aligned, and every such partition is accepted unchanged. |
| MtdPart.ValidateExact | u-boot/common/cmd_jffs2.c:321-436 | A partition is accepted exactly when, with '-' replaced by all that is left of the device, it is not empty, lies in the device and on erase boundaries; a fill-up partition ends with the device, and nothing but the size changes. |
| MtdPart.PartRoundTrip | u-boot/common/cmd_jffs2.c:601-709 | A printed partition parses to the same size, offset (or none when it was left out as contiguous), name and flag; below 4096 bytes, or when anything but a comma, a semicolon or the end follows, it is refused. |
| MtdPart.FillUpRead | u-boot/common/cmd_jffs2.c:601-709 | A definition with '-' for its size takes all that is left, and no other definition may follow it. |
| MtdTable.FindInsertion | u-boot/common/cmd_jffs2.c:516-570 | The list walk finds the insertion place, or the clash of two partitions at offset zero. |
| MtdTable.AddExact | u-boot/common/cmd_jffs2.c:579-590 | For every device and cursor, an addition fails exactly when the partition is not valid or would be the second at offset zero; otherwise the device's list gains the validated partition behind all that start earlier, and every other device is unchanged. |
| MtdTable.DeleteExact | u-boot/common/cmd_jffs2.c:445-485 | For every device and cursor, the device's list loses exactly the partition given and every other device is unchanged; a device with one partition goes as a whole. |
| MtdTable.DeviceDelExact | u-boot/common/cmd_jffs2.c:787-809 | For every cursor the other devices stay in order; when the current one went, the first partition of the first device is current, otherwise the same device stays current. |
| MtdTable.DeviceAddExact | u-boot/common/cmd_jffs2.c:839-855 | A new device goes to the end; the first of all becomes current. |
| MtdTable.PartAddKeepsInv | u-boot/common/cmd_jffs2.c:579-590 | Adding keeps lists sorted, counts right and partitions valid. |
| MtdTable.PartDelKeepsInv | u-boot/common/cmd_jffs2.c:445-485 | Deleting keeps them too; the last partition takes its device with it. |
| MtdTable.DeviceDelKeepsInv | u-boot/common/cmd_jffs2.c:787-809 | Removing a device keeps the table invariant. |
| MtdTable.AddKeepsCurrent | u-boot/common/cmd_jffs2.c:516-590 | Adding a partition anywhere leaves the same partition current. |
| MtdTable.DeleteMovesCursor | u-boot/common/cmd_jffs2.c:445-485 | Deleting another partition of the device keeps the current one if and only if it is not a later one at the same offset; deleting the current one selects index 0. |
| MtdTable.DeleteKeepsCurrent | u-boot/common/cmd_jffs2.c:445-485 | With distinct offsets the current partition survives every deletion elsewhere, in any device. |
| MtdTable.CursorLostOnTie | u-boot/common/cmd_jffs2.c:445-485 | In a valid table with two partitions at one offset, the first current, deleting the second turns the cursor into 255, where there is no partition for `index_partitions` to name. |
| MtdTable.DevNumIsIndex | u-boot/common/cmd_jffs2.c:251-284 | The published number is the index of the current partition among all partitions. |
| MtdTable.RunsKeepGood | u-boot/common/cmd_jffs2.c:445-590 | Every table reached by additions, deletions, new devices and selections has sorted lists with at most one partition at zero, right counts, valid partitions, and a cursor on an existing partition. |
| MtdTable.RunsKeepCurrent | u-boot/common/cmd_jffs2.c:445-590 | Over any run of additions, deletions and new devices that spares the current partition, the cursor goes on naming that partition. |
| MtdTable.PartitionTable.IndexPartitions | u-boot/common/cmd_jffs2.c:251-284 | The counting loop sets `mtddevnum` to the specified index, or unsets it. |
| MtdTable.PartitionTable.PartSortAdd | u-boot/common/cmd_jffs2.c:516-570 | Equals the specified sorted insertion with its cursor move, or fails with nothing changed. |
| MtdTable.PartitionTable.AddPartition | u-boot/common/cmd_jffs2.c:579-590 | Validates, then inserts; a refused partition changes nothing. |
| MtdTable.PartitionTable.RemoveDevice | u-boot/common/cmd_jffs2.c:787-809 | Equals the specified removal, with the first device current when the current one went. |
| MtdTable.PartitionTable.DeletePartition | u-boot/common/cmd_jffs2.c:445-485 | Equals the specified deletion with its cursor move. |
| MtdTable.PartitionTable.AddDevice | u-boot/common/cmd_jffs2.c:839-855 | Appends the device; the first one becomes current. |
| MtdTies.MirrorSnoc | u-boot/common/cmd_jffs2.c:516-570 | Inserting in ascending order turns every group of equal offsets round. |
| MtdTies.MirrorTwice | u-boot/common/cmd_jffs2.c:516-570 | Doing it twice restores the order. |
| MtdParse.PartsBack | u-boot/common/cmd_jffs2.c:866-991 | A printed list of valid partitions parses to the same list, with left-out offsets rebuilt from the ends of their predecessors, if and only if none is too small. |
| MtdParse.SortAllMirrors | u-boot/common/cmd_jffs2.c:516-570 | Reading an ascending list gives it with equal offsets turned round, and never fails. |
| MtdParse.DeviceBack | u-boot/common/cmd_jffs2.c:866-991 | A printed device parses to its mirrored form, or to nothing when a partition is too small. |
| MtdParse.PrintParseMirrors | u-boot/common/cmd_jffs2.c:1106-1223 | For every valid table, parsing the printed text gives the same devices in the same order, each mirrored, or fails when a partition is too small. |
| MtdParse.PrintParseExact | u-boot/common/cmd_jffs2.c:1389-1436 | Printing then parsing is the identity on a valid table if and only if no partition is too small and tied partitions agree. |
| MtdParse.PrintParse | u-boot/common/cmd_jffs2.c:1389-1436 | With distinct offsets it is the identity unless a partition is too small. |
| MtdParse.ReadBackExact | u-boot/common/cmd_jffs2.c:1389-1436 | Under any list of ids, different valid devices are read back if and only if each is found by its own mtd-id, no partition is too small, and tied partitions agree. |
| MtdParse.TiesNotRestored | u-boot/common/cmd_jffs2.c:516-570 | Two partitions at one offset are not given back. |
| MtdParse.SmallNotRestored | u-boot/common/cmd_jffs2.c:601-709 | '-' at the last erase block of a device gives a 512-byte partition, which is printed and then refused. |
| MtdParse.SmallEndsDevice | u-boot/common/cmd_jffs2.c:406-436 | In every table read from text, a partition below the minimum is one that '-' filled up to the end of its device. |
| MtdParse.FirstIdFound | u-boot/common/cmd_jffs2.c:1036-1057 | A name is found exactly when an id has it, and the first such id is the one found. |
| MtdParse.DistinctIdsFound | u-boot/common/cmd_jffs2.c:1036-1057 | With distinct mtd-ids every id is found by its own name. |
| MtdParse.ParsedTableValid | u-boot/common/cmd_jffs2.c:1389-1436 | Whatever text is accepted, it begins with `mtdparts=` and the table consists of different known devices with sorted lists of valid partitions. |
| MtdParse.SameDeviceExact | u-boot/common/cmd_jffs2.c:819-832 | Devices are the same exactly when type and number agree. |
| MtdParse.ContinuesDevice | u-boot/common/cmd_jffs2.c:908-914 | A definition without an offset for a device in the table continues where its last partition ends. |
| MtdDriver.ScanDigits | u-boot/lib_generic/vsprintf.c:24-49 | The digit loop computes the specified number, 32 bits wide, and stops behind it. |
| MtdDriver.ScanMemsize | u-boot/common/cmd_jffs2.c:197-217 | The scanner equals the specified size parser. |
| MtdDriver.ScanFor | u-boot/common/cmd_jffs2.c:634-648 | The search for a closing character finds its first place or reports that there is none. |
| MtdDriver.ScanPart | u-boot/common/cmd_jffs2.c:601-709 | The partition scanner, field by field over the text, equals the specified partition parser, with all its error exits. |
| MtdDriver.ScanParts | u-boot/common/cmd_jffs2.c:907-945 | The loop over partition definitions equals the specified list parser. |
| MtdDriver.LookupId | u-boot/common/cmd_jffs2.c:1036-1057 | The list walk finds the first id with the name. |
| MtdDriver.LookupDevice | u-boot/common/cmd_jffs2.c:819-832 | The list walk finds the device of the same type and number. |
| MtdDriver.SortParts | u-boot/common/cmd_jffs2.c:977-985 | The loop that links the parsed partitions equals repeated sorted insertion, or fails at the clash. |
| MtdDriver.ScanDevice | u-boot/common/cmd_jffs2.c:866-991 | The device scanner, assembled from these loops, equals the specified device parser. |
| MtdDriver.ScanMtdparts | u-boot/common/cmd_jffs2.c:1389-1436 | The loop over devices, each read by the device scanner, equals the specified table parser. |
| MtdDriver.PutPart | u-boot/common/cmd_jffs2.c:1141-1204 | One partition goes out in full exactly when it fits. |
| MtdDriver.PutDevices | u-boot/common/cmd_jffs2.c:1106-1223 | All devices go out exactly when their text fits. |
| MtdDriver.GenerateMtdparts | u-boot/common/cmd_jffs2.c:1106-1223 | The printer gives the specified text, or fails, exactly by its length. |
| MtdCache.InitMeansParse | u-boot/common/cmd_jffs2.c:1555-1683 | From any sound state, a call succeeds if and only if the texts have at most 127 and 511 characters and a meaning; then the table is that meaning, whether it parsed or skipped, and otherwise it is unchanged or empty. The variables and the cached texts afterwards are given, and the ids stay alive if and only if the call does not re-read them under an uncached table that nothing removes. |
| MtdCache.SaveExact | u-boot/common/cmd_jffs2.c:1233-1245 | For different valid devices under any ids, the saved text parses to the table if and only if the table is empty, its text does not fit, or all devices are known, no partition is too small and tied partitions agree. |
| MtdCache.SaveTexts | u-boot/common/cmd_jffs2.c:1233-1245 | Saving leaves the same text in the variable and in the cache, or nothing in both when the table is empty or its text has more than 511 characters. |
| MtdCache.ExecuteSound | u-boot/common/cmd_jffs2.c:1356-1380 | From a state with the invariant (sound cache, valid table, living ids, only a table too long uncached), every command whose own arguments pass their check leads to such a state. |
| MtdCache.CacheSound | u-boot/common/cmd_jffs2.c:1555-1683 | From power-up, over every run of initialisations, edits and variable changes, with checks on each command alone, a cached text parses to the table in memory, the table is valid and refers to existing ids, and only a table too long has no cached text. |
| MtdCache.EditKeepsTable | u-boot/common/cmd_jffs2.c:445-590 | Adding with an unused offset and a sufficient size, deleting, and adding a known new device keep a table valid, with distinct offsets and no partition too small. |
| MtdCache.EditedExact | u-boot/common/cmd_jffs2.c:1356-1380 | What each editing command makes of the list of devices. |
| MtdCache.DelAllExact | u-boot/common/cmd_jffs2.c:2020-2035 | `mtdparts delall` leaves no table, no variable and no cached text. |
| MtdCache.SyncExact | u-boot/common/cmd_jffs2.c:1555-1683 | From a valid table with living ids, initialisation leaves one if and only if the text it reads is tidy and, for an uncached table, the ids text is unchanged. |
| MtdCache.StaleTable | u-boot/common/cmd_jffs2.c:1461-1468 | When ids are set and read while a table too long to be cached is in memory, the call succeeds and keeps the table, and the ids it refers to are alive afterwards if and only if the ids text is the cached one. |
| MtdCache.StaleReached | u-boot/common/cmd_jffs2.c:1634-1658 | A run from power-up with texts that the commands accept: a text of 489 characters is read, a partition with a 30-character name makes the table too long, and another text for the same ids then frees the ids it refers to. |
| MtdCache.SavedAccepted | u-boot/common/cmd_jffs2.c:1604-1613 | A saved table is accepted by the next initialisation if and only if its text behind the prefix has at most 502 characters. |
| MtdCache.SavedRefused | u-boot/common/cmd_jffs2.c:1613-1616 | With a 20-character name the same run saves a table of 505 characters, and the next initialisation refuses its text. |
| MtdCommands.MtdGlobals.ParseOrSkip | u-boot/common/cmd_jffs2.c:1633-1664 | The partition half of initialisation equals its specification. |
| MtdCommands.MtdGlobals.MtdpartsInit | u-boot/common/cmd_jffs2.c:1555-1683 | Initialisation on the globals equals its specification, with all its length checks and early exits. |
| MtdCommands.MtdGlobals.GenerateSave | u-boot/common/cmd_jffs2.c:1233-1245 | Saves the printed text in cache and variable, or clears both when it does not fit. |
| KermitData.FeedConcat | u-boot/common/cmd_load.c:673-704 | Decoding does not depend on how the stream is cut into packets, even between a prefix and its operand. |
| KermitData.DecodeEncode | u-boot/common/cmd_load.c:568-576 | Decoding inverts control prefixing for every byte string and legal prefix. |
| KermitData.EncodedIsPrintable | u-boot/common/cmd_load.c:568-576 | The prefixed text contains no control character, so it can travel in frames. |
| KermitSpec.RunStartIsMaximal | u-boot/common/cmd_load.c:878-896 | The reference's runs are maximal runs of equal sequence numbers. |
| KermitSpec.ReceiverCorrect | u-boot/common/cmd_load.c:799-975 | For every trace the memory image is the concatenation, over maximal runs, of the decoded payload of the run's last frame if it is a good data frame; the checkpoint holds the completed runs. |
| KermitSpec.BelowCheckpointKept | u-boot/common/cmd_load.c:637-663 | Memory below the checkpoint is never rewritten, and checkpoints only advance. |
| KermitSpec.HeaderErrorExact | u-boot/common/cmd_load.c:864-886 | A header error preserves the image if and only if the trace does not end in a non-empty good data frame. |
| KermitSpec.HeaderErrorLosesData | u-boot/common/cmd_load.c:864-886 | One data frame, a broken header, the next frame: the first byte is gone. |
| KermitSpec.EventsDelivered | u-boot/common/cmd_load.c:864-975 | For every mixture of frames and bad headers, the image is what the reference delivers when each bad header counts as a corrupt frame of the number before it. |
| KermitSpec.DoneExact | u-boot/common/cmd_load.c:963-971 | The receiver is done exactly when a good frame of type B has arrived. |
| KermitSpec.Letters | u-boot/common/cmd_load.c:405-430 | Data, send-initiate and break frames carry the letters D, S and B; the prefix is # by default. |
| KermitSpec.PrefixExact | u-boot/common/cmd_load.c:712-796 | The prefix in force is the sixth parameter of the last good send-initiate frame, or # when there is none. |
| KermitSpec.PacketDelivered | u-boot/common/cmd_load.c:799-975 | However often a packet is repeated or corrupted, it is delivered once. |
| KermitSpec.FileArrives | u-boot/common/cmd_load.c:799-975 | A file sent in any packets, with any repetition and corruption, lies in memory byte for byte. |
| KermitSpec.SessionDelivers | u-boot/common/cmd_load.c:799-975 | After a send-initiate frame that names the prefix, a file sent with it in any packets, with any repetition and corruption, lies in memory byte for byte. |
| KermitReceiver.Receiver.KDataChar | u-boot/common/cmd_load.c:689-704 | One character of the prefix decoder, written to memory. |
| KermitReceiver.Receiver.CheckSequence | u-boot/common/cmd_load.c:886-896 | A repeated number restores the checkpoint, a new one takes it. |
| KermitReceiver.Receiver.TakeData | u-boot/common/cmd_load.c:929-946 | The payload loop equals the specified decoding. |
| KermitReceiver.Receiver.TakeParms | u-boot/common/cmd_load.c:929-946 | Parameters are kept in a fixed buffer whose last cell absorbs any excess. |
| KermitReceiver.Receiver.HandleSendPacket | u-boot/common/cmd_load.c:712-796 | The sixth parameter, when present, becomes the prefix. |
| KermitReceiver.Receiver.ReceiveFrame | u-boot/common/cmd_load.c:799-975 | One frame equals one step of the specification, for all types, good or corrupt. |
| KermitReceiver.Receiver.KRecv | u-boot/common/cmd_load.c:799-975 | The loop over frames and bad headers stops one past the first good frame of type B, or at the end; memory and the reported size are what the events deliver, and a control-C in place of a packet reports 0. |
| SRecord.AcceptedExact | u-boot/common/s_record.c:30-170 | A record of type 0, 1, 5, 9 (two address bytes), 2, 8 (three), 3 or 7 (four) with the right length byte is accepted if and only if all its bytes add up to 0xFF, and yields its own address and data. |
| SRecord.WrongByteCaught | u-boot/common/s_record.c:150-170 | One wrong byte in address, data or checksum of a good record is always reported as a checksum error. |
| SRecord.ChunksCarry | u-boot/common/cmd_load.c:329-382 | The data records together carry exactly the bytes, in order. |
| SRecord.ChunksPlaced | u-boot/common/cmd_load.c:329-382 | Each record carries 1 to 16 bytes, all but the last 16, under the address of its first byte. |
| SRecord.DecodeSaved | u-boot/common/cmd_load.c:352-372 | Every printed record adds up to 0xFF and decodes to its own address and data. |
| SRecord.PrintedUpper | u-boot/common/cmd_load.c:332-346 | Hexadecimal digits are printed in upper case. |
| SRecordTransfer.SaveThenLoad | u-boot/common/cmd_load.c:141-213 | Loading what was saved writes exactly the saved range, moved by the offset, and nothing else, for every address, count and offset, with wrap-around. |
| SRecordFiles.FileLoads | u-boot/common/cmd_load.c:141-213 | Loading any file of good records of type 0, 1, 2, 3 and 5 that ends in one of type 7, 8 or 9, with any line ends: each byte lies at its own address plus the offset, later records win, other bytes are unchanged, and the entry is the end record's own address. |
| SRecordFiles.BadLineAborts | u-boot/common/cmd_load.c:158-165 | A line that is not a record, is malformed or has a wrong checksum ends the load at once, as do NUL and control-C; what was loaded stays. |
| SRecordFiles.ShortRecordUndefined | u-boot/common/cmd_load.c:164-180 | A data record whose length byte does not cover its own fields has no defined outcome. |
| SRecordFiles.MalformedExact | u-boot/common/s_record.c:58-170 | A record of a known type is malformed exactly when its length or one of the bytes that type and length ask for is not two hexadecimal digits. |
| SRecordFiles.UnknownType | u-boot/common/s_record.c:66-99 | Any other type is refused as such. |
| SRecordFiles.NoRecord | u-boot/common/s_record.c:42-54 | A line without an S, or with nothing behind the first one, is an empty record. |
| SRecordFiles.SkipsToS | u-boot/common/s_record.c:42-54 | Whatever stands before the first S of a line is skipped. |
| SRecordFiles.HexDigitExact | u-boot/common/s_record.c:172-181 | Hexadecimal digits are read in either case. |
| SRecordSize.ReportedSize | u-boot/common/cmd_load.c:141-213 | The size reported for every address, count and offset, in closed form, also for ranges that wrap. |
| SRecordSize.ReportedExact | u-boot/common/cmd_load.c:184-200 | The reported size is the saved count if and only if the range is not empty and does not wrap, is a single record, or has all but 16 bytes and starts off a record boundary away from both ends. |
| SRecordSize.WrongSizes | u-boot/common/cmd_load.c:184-200 | 32 bytes saved at 0xFFFFFFF0 are reported as 0, an empty file as 2. |
| SRecordTransfer.AddBytes | u-boot/common/cmd_load.c:357-363 | The two checksum loops add the low bytes of a number. |
| SRecordTransfer.FormatRecord | u-boot/common/cmd_load.c:352-372 | The formatted record is the specified line. |
| SRecordTransfer.SaveSerial | u-boot/common/cmd_load.c:329-382 | The collecting loop prints the specified text for every address and count. |
| SRecordTransfer.ReadLine | u-boot/common/cmd_load.c:216-251 | The line reader equals its specification, with truncation and both stop characters. |
| SRecordTransfer.ReadEnds | u-boot/common/cmd_load.c:216-251 | A line ends at a line feed or a carriage return; a NUL or a control-C in it stops the reader. |
| SRecordTransfer.ReadCuts | u-boot/common/cmd_load.c:216-251 | A longer line is cut where the buffer ends, and the rest is left. |
| SRecordTransfer.ReadHex | u-boot/common/s_record.c:102-158 | The loops over hex pairs give the bytes and their sum, or report a malformed pair. |
| SRecordTransfer.Decode | u-boot/common/s_record.c:30-170 | The decoder equals its specification on every text, with all error codes. |
| SRecordTransfer.LoadSerial | u-boot/common/cmd_load.c:141-213 | The loader equals its specification on every input stream. |
| FlashPlan.PlanExact | u-boot/common/cmd_flash.c:196-277 | For contiguous known banks and a range inside the flash, planning succeeds if and only if the ends lie on sector boundaries, and then covers exactly the range. |
| FlashPlan.OneBank | u-boot/common/cmd_flash.c:219-274 | The verdict on one bank in its own addresses, with the tolerated last address of a bank. |
| FlashPlan.RunUnlessWrapped | u-boot/common/cmd_flash.c:196-277 | For any bank order, a successful plan is one contiguous run from the first address, inside the range, unless it wraps around. |
| FlashPlan.RunExact | u-boot/common/cmd_flash.c:196-277 | For disjoint banks, all successful plans up to an address are such runs if and only if the address is below the top or no bank at zero follows a bank at the top. |
| FlashPlan.WrapPlansMore | u-boot/common/cmd_flash.c:244-263 | Planning the top bank also plans a later bank at zero. |
| FlashPlan.StartMissed | u-boot/common/cmd_flash.c:196-277 | Below contiguous banks nothing is ever planned. |
| FlashDriver.ScanBank | u-boot/common/cmd_flash.c:223-243 | The sector loop finds the sectors that start and end at the given addresses. |
| FlashDriver.PlanBank | u-boot/common/cmd_flash.c:219-274 | One bank's share of the plan, with all its error exits. |
| FlashDriver.FillSectRanges | u-boot/common/cmd_flash.c:196-277 | The nested loops fill both arrays, the count and the return code as specified. |
| FlashDriver.ProtectBank | u-boot/common/cmd_flash.c:655-669 | Sets the flags of the range and no others. |
| FlashDriver.SectProtect | u-boot/common/cmd_flash.c:631-682 | Sets exactly the planned flags and returns 0, or sets none and fails. |
| FlashDriver.SectErase | u-boot/common/cmd_flash.c:408-451 | Asks the hardware for exactly the planned ranges in bank order, stopping at its first failure, or for none and fails. |
| FlashDriver.CallsExact | u-boot/common/cmd_flash.c:418-440 | The calls are exactly the planned ranges, one for each bank, in ascending order. |
| FlashDriver.PlanRanges | u-boot/common/cmd_flash.c:196-277 | In a successful plan every range is unused or names sectors of its bank. |
| Crc16.TableIsGood | u-boot/common/crc16.c:58-92 | All 256 entries are eight division steps of their index. |
| Crc16.DivideIsRemainder | u-boot/common/crc16.c:94-105 | The shift register holds r if and only if r is the remainder of dividing by x^16+x^12+x^5+1. |
| Crc16.CrcIsRemainder | u-boot/common/crc16.c:94-105 | The table-driven value of any byte string is that remainder, and no other word is. |
| Crc16.CygCrc16 | u-boot/common/crc16.c:94-105 | The loop over the buffer computes the specified value. |
| Crc16.AdjacentBytesDetected | u-boot/common/crc16.c:94-105 | Messages that differ only within two adjacent bytes have different values. |
| Crc16.AppendedCrcIsZero | u-boot/common/crc16.c:94-105 | Two appended bytes give zero if and only if they are the message's own value, high byte first. |
| LogStream.LinesTagged | u-boot/common/cmd_log.c:215-263 | Within a call, every line that starts is tagged. |
| LogStream.AllLinesTagged | u-boot/common/cmd_log.c:215-263 | Over any sequence of calls, every line of the stream starts with a tag. |
| LogStream.ResetExact | u-boot/common/cmd_log.c:185-189 | After a reset, every line of the stream starts with a tag if and only if the line was closed at the reset, nothing was logged since, or the logged text begins with a tag of its own. |
| LogStream.RunTagged | u-boot/common/cmd_log.c:162-263 | The same over every run of calls and resets. |
| LogStream.NoResetTagged | u-boot/common/cmd_log.c:215-263 | A run without a reset has all its lines tagged. |
| LogStream.ResetLosesTag | u-boot/common/cmd_log.c:185-189 | Logging "ab", resetting and logging "c" leaves the untagged stream "c". |
| LogStream.StripEmit | u-boot/common/cmd_log.c:225-241 | Tagging adds tags and nothing else. |
| LogStream.UntaggedIsLevel4 | u-boot/common/cmd_log.c:62-63 | A line that brings no tag of its own gets level 4. |
| LogStream.TagExact | u-boot/common/cmd_log.c:228-233 | A tag is a digit from 0 to 7 between angle brackets. |
| LogStream.AppendText | u-boot/common/cmd_log.c:167-174 | `log append` logs its arguments with one space between them and a line feed at the end. |
| LogStream.SplitExact | u-boot/common/cmd_log.c:215-263 | Two calls give the stream of one if and only if the cut is not inside a tag; otherwise there is one default tag more. |
| LogStream.SplitIndependent | u-boot/common/cmd_log.c:215-263 | For lines that do not start with '<' the stream does not depend on the split into calls. |
| LogBuffer.Log.Put | u-boot/common/cmd_log.c:243-250 | One character enters the ring and the stream; the wrapped counters stay right. |
| LogBuffer.Log.ContentsAreLast | u-boot/common/cmd_log.c:243-250 | The ring, read through its counters, holds exactly the last 16384 characters of the stream, and the count of logged characters is its length modulo 2^32. |
| LogBuffer.Log.PutLine | u-boot/common/cmd_log.c:242-255 | The inner loop emits up to and including the line feed. |
| LogBuffer.StartLine | u-boot/common/cmd_log.c:226-241 | The tag written over the three characters before the line makes the inner loop emit the tagged line, and the level is that of the tag. |
| LogBuffer.Log.Printk | u-boot/common/cmd_log.c:215-263 | The call adds exactly the specified characters and leaves a line open exactly when its text does. |
| LogBuffer.Log.Putc | u-boot/common/cmd_log.c:128-134 | One character is a text of length one, a NUL an empty text. |
| LogBuffer.Log.Append | u-boot/common/cmd_log.c:167-174 | The arguments are logged as separate calls with a separator after each. |
| LogBuffer.Log.Reset | u-boot/common/cmd_log.c:185-189 | Empties the ring and leaves a line that is open open. |
| LogBuffer.Log.Run | u-boot/common/cmd_log.c:162-263 | Any run of calls, appends and resets on the ring gives the specified stream and line state. |
| Eeprom.WriteInPage | u-boot/common/cmd_eeprom.c:222-226 | Inside a page, the device with its wrapping counter is a flat array. |
| Eeprom.ReadInPage | u-boot/common/cmd_eeprom.c:138-141 | The same for reading inside a 256-byte block. |
| Eeprom.ChunksTile | u-boot/common/cmd_eeprom.c:206-280 | The transactions tile the range in order, each of 1 to 128 bytes. |
| Eeprom.ChunksLongest | u-boot/common/cmd_eeprom.c:258-278 | No transaction is shorter than it has to be: it ends the range, has 128 bytes, or ends at the end of its page. |
| Eeprom.StaysInPageExact | u-boot/common/cmd_eeprom.c:263-278 | No transaction leaves its page, for all offsets and lengths, if and only if a page has at most 256 bytes. |
| Eeprom.LargePageWraps | u-boot/common/cmd_eeprom.c:263-278 | With larger pages a two-byte write at the end of a page overwrites its first byte. |
| Eeprom.TransferIsFlat | u-boot/common/cmd_eeprom.c:206-380 | On a device with pages of at most 256 bytes, or of one page, a whole transfer is a write to a flat array. |
| Eeprom.FlatExact | u-boot/common/cmd_eeprom.c:206-380 | All transfers to a device are flat writes if and only if its pages have at most 256 bytes or it is one page. |
| Eeprom.Device.EepromWrite | u-boot/common/cmd_eeprom.c:206-380 | The result is 0 exactly when no transaction was refused; then the device holds what its transactions make of it, and on a device that suits the splitter the range is the buffer and no other byte ever changes. |
| Eeprom.Device.EepromRead | u-boot/common/cmd_eeprom.c:132-195 | Returns the bytes of the range when no transaction is refused; the device does not change. |
| Eeprom.Device.WriteThenRead | u-boot/common/cmd_eeprom.c:132-380 | Writing a range and reading it again returns the written bytes when nothing is refused, and leaves all other bytes unchanged in any case. |
| MultiImage.ImageAt | u-boot/README:3038-3043 | In the documented layout image k lies whole at the sum of table and rounded sizes before it. |
| MultiImage.WordAt | u-boot/README:3038-3043 | Every size reads back from the table, and the word behind them is zero. |
| MultiImage.NetworkOrder | u-boot/README:3038-3043 | Sizes are written most significant byte first. |
| MultiImage.ImgExtract | u-boot/common/cmd_ximg.c:106-125 | Part k is exactly image k; a part that does not exist is refused; without a part it is image 0. |
| MultiImage.BootmKernel | u-boot/common/cmd_bootm.c:288-295 | The kernel start and length are those of image 0. |
| MultiImage.BootmInitrd | u-boot/common/cmd_bootm.c:736-753 | The ramdisk start and length are those of image 1, or none when there is only one image. |
| CircBuf.CircularBuffer.constructor | u-boot/common/circbuf.c:27-41 | A new buffer is empty. |
| CircBuf.CircularBuffer.Push | u-boot/common/circbuf.c:81-110 | Contents become the last `totalsize` bytes of old contents and pushed bytes. |
| CircBuf.CircularBuffer.Pop | u-boot/common/circbuf.c:54-79 | Returns the oldest bytes, as many as asked for and held, and keeps the rest. |
| CircBuf.HeldIsRecent | u-boot/common/circbuf.c:54-110 | Over every history the buffer holds a suffix of everything pushed, within its capacity. |
| CircBuf.FifoExact | u-boot/common/circbuf.c:54-110 | Popped bytes followed by held bytes are all bytes pushed if and only if no push found too little room. |

## Left out

- EnvStore.Environment.DoSetEnv: console assignment and baud-rate changes are an oracle that may refuse; the checksum update and the copies of `ipaddr`, `bootfile` and Ethernet addresses are not modelled.
- EnvStore.Environment.DoSetEnv: deleting `baudrate` reads an absent argument in the source; the model gives that decision to the oracle.
- EnvStore.Environment.Guard: whether a console or a baud rate is accepted is a boolean that comes with the call.
- EnvStore.Environment.GetEnv: returns an index into the array, not a pointer.
- `getenv_r`, `askenv`, `printenv` and `saveenv`: they add no change of the map.
- MtdParse.PrintParse: generated partition names are not compared, because printing drops them; a partition carries its user-given name or none.
- MtdParse.PrintParseMirrors: at most 255 partitions per device, the width of the current-partition number.
- MtdDriver.GenerateMtdparts: text is a sequence; the length limit counts the text behind `mtdparts=`, as the source does.
- MtdCache.CacheSound: reading the `mtdids` text is a parameter that yields well-formed ids with distinct names. A command is checked before it is given: an addition for its offset, size and place, a new device for being valid and known, an initialisation by the exact condition of `MtdCache.SyncExact`.
- MtdCommands.MtdGlobals.MtdpartsInit: selecting the current partition from the `partition` variable is not modelled; the table and the cached texts are.
- MtdCache.StaleTable: ends where the ids are freed; using them afterwards has no defined meaning.
- MtdTable.RunsKeepGood: added partitions have offsets not yet in use, because the cursor claim fails otherwise.
- The commands around the table (`mtdparts`, `chpart`, listings, file-system access) and the single-device variant of `mtdparts_init`.
- KermitSpec.ReceiverCorrect: frames arrive with right length and sequence characters; resynchronisation on raw bytes, checksum arithmetic, replies and padding are not modelled. A length or sequence character that is a control character is treated in `KermitSpec.EventsDelivered`; one that arrives as another printable character is not.
- KermitReceiver.Receiver.KRecv: the attribute state and the byte count printed to the user are not modelled; a trace that ends without control-C stands for a sender that stops.
- KermitReceiver.Receiver.HandleSendPacket: only the prefix parameter is modelled; padding and end-of-line characters matter to replies alone.
- SRecordTransfer.SaveSerial: interruption from the console is not modelled.
- SRecordTransfer.LoadSerial: loading into flash is not modelled; a data record whose length byte does not cover its own fields has no defined outcome; a stream that ends counts as aborted.
- SRecord.WrongByteCaught: a wrong length byte is not covered, because it moves all later fields.
- FlashDriver.SectErase: what the hardware does is an oracle with one result per bank.
- FlashDriver.SectProtect: models the variant without hardware protection.
- LogBuffer.Log.Printk: texts fit the 1024-byte scratch buffer, which the source does not check; echoing to the console by level is not modelled.
- `log show`, which masks the size it prints, and the set-up of the log pointers from board memory.
- Eeprom.Device.EepromWrite: chip selection by the upper offset bits, write-enable, delays, SPI and the X40430 control register are not modelled; a refused transaction is taken to have no effect.
- MultiImage.ImgExtract: header checks, `crc32`, decompression and the hand-over to the operating system are not modelled; `MultiImage.BootmKernel` needs at least one image.
- The ymodem path and all drivers (IDE, SCSI, USB, PCI, NAND, I2C and others), memory commands and `cmd_bdr.c`: hardware access or thin wrappers.
