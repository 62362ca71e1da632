# Verified models of the U-Boot command layer

This project models the byte-level state machines and in-place data structures of the
command layer of U-Boot 2009.11 (`common/` and one call of `api/`) and proves what they are for.
Code that changes things in place is a class or a method with loops, proved against a function;
the properties are lemmas about that function. `dafny verify dfyconfig.toml` checks everything.

| files | part of U-Boot | main results |
|---|---|---|
| `EnvList`, `EnvStore` | environment store | the buffer refines an ordered list of variables, overflow is exact, exactly which requests are carried out, write-once variables survive every run, the enumeration visits every variable once |
| `Kermit`, `KermitSession`, `KermitExact`, `KermitReceiver` | `loadb` | every file arrives whatever is damaged and repeated; accepted are exactly the well-formed packets; every one-bit error behind the length is seen; the exact harm of a damaged header |
| `Srecord` | `saves` | an upload decodes to the uploaded memory; every wrong byte behind the length is seen |
| `MtdValidate` | partition check | accepts exactly the runs of erase blocks |
| `MtdText`, `MtdLayout`, `MtdTies`, `MtdSound`, `MtdParser` | partition text | parsing undoes printing, exactly up to partitions at equal offsets; whatever is accepted is a valid table |
| `MtdOrder`, `MtdTable` | partition table | sorted lists, the exact case in which the current partition is lost, positions over all devices |
| `FlashPlan`, `FlashErase`, `FlashTool` | `erase` | the planned sectors are one interval, rounding plans the least set, and exactly that is erased, once |
| `FloppyGeometry`, `FloppyReader` | floppy reads | the data is right after every pattern of retries, the head is where it has to be, 25 aborts end it, and every failure has its cause |
| `OneNand` | bad-block skipping | a run of writes is one write, and exactly when one read returns it |
| `LogStream`, `LogRing` | log buffer | the last 16384 characters of the marked stream in both layouts |
| `Eeprom` | EEPROM paging | exactly when a write is a flat copy on a device that wraps inside a page |
| `PpcBranch` | debugger | assembler, disassembler and stepper agree on branch targets; where a branch word leads |

`Arithmetic`, `Machine`, `Strings` and `Wrappers` are helpers.

## How to read the model

* Where the code meets its purpose only under a condition, the condition is stated as an equivalence:
  `SortAllExact` and `TableRoundTrip`, `ReadBackExact`, `HeaderDamageExact`, `FlatExact` and `FlatConfigs`,
  `PagesRespected`, `AddTracks`, `DeleteTracks`, `StampInPieces`, `AssembledTarget`, `TakenExact`,
  `ContiguousExact`, `ChooseExact`, `AcceptedExact`, `SpecialIsSet`, `WriteOnceIsExact`, `WalkEnds`.
* 32-bit, 16-bit and 8-bit counters wrap where the code's do: `mtddevnum` and `num_parts` in 16 bits,
  `current_mtd_partnum` in 8, the log counters, S-record addresses, EEPROM range ends and branch targets in 32.
* Hardware answers are parameters: which OneNAND blocks are bad or fail, which floppy transfers abort and how
  seeks end, which EEPROM transfers fail, what `flash_erase` returns. The theorems hold for all of them.
* The checksum of the environment is an unknown function of the data.
* Some names: `vars` is the ghost list behind the environment buffer; a `Sink` is the memory the Kermit
  receiver writes to; `Current` is the partition a number denotes, or null; a `Trace` is what a floppy read has
  asked of the hardware and where that has put the head.

Where code and comments differ, the model follows the code:

* a comment at `common/cmd_nvedit.c:246-247` says that `ver` is read-only; no code does that;
* deleting a partition at the same offset behind the current one makes the current number one too low, and 255
  if it was 0 (`DeleteLosesCurrent`); reading the name of that partition goes through a null pointer, which the
  table shows as the name `Dangling`;
* partitions at one offset are printed, but parsing reverses every group of them, and refuses two at offset 0
  (`SortingMirrors`, `SortAllExact`);
* after a late bad seek status the floppy reader returns with interrupts disabled (`ReadData`);
* with EEPROM pages of more than 256 bytes the page offset is taken from the low 8 bits only, so that writes
  cross pages (`CrossingExample`) and bytes stray (`FlatConfigs`);
* the stepper knows a conditional branch only when its don't-care bits are clear (`TakenExact`);
* a range end that passes 2^32 makes the EEPROM functions transfer nothing and return 0 (`EndInRange`);
* the prefix `mtdparts=` is not charged to the buffer, so `GenerateMtdparts` bounds what follows it.

## Model

| member | source | states |
|---|---|---|
| EnvList.NoDoubleNul | u-boot-2009.11/common/cmd_nvedit.c:323-326 | rendered variables never hold two NULs in a row, so the end scan cannot stop inside the list |
| EnvList.SetWellFormed | u-boot-2009.11/common/cmd_nvedit.c:176-354 | every request, also a refused or an overflowing one, keeps entries well formed and names distinct |
| EnvList.SetThenLookup | u-boot-2009.11/common/cmd_nvedit.c:242-351 | what a request means for every name: its own name has the joined arguments, is gone after a deletion or an overflow, and no other name changes |
| EnvList.SetKeepsOthersInOrder | u-boot-2009.11/common/cmd_nvedit.c:297-351 | the other variables stay in their relative order |
| EnvList.SetFits | u-boot-2009.11/common/cmd_nvedit.c:327-339 | a request that is not refused overflows exactly when the new list with its double NUL exceeds the buffer; what remains always fits |
| EnvList.OrdinaryIsSet | u-boot-2009.11/common/cmd_nvedit.c:176-354 | an ordinary variable can always be set, replaced and deleted: the new definition is there exactly when it fits, and is read back |
| EnvList.SpecialIsSet | u-boot-2009.11/common/cmd_nvedit.c:188-291 | for a name with `=`, the console devices, `baudrate`, `serial#` and `ethaddr`: exactly when the request is carried out, and the answer otherwise |
| EnvList.ImageReadsBack | u-boot-2009.11/common/cmd_nvedit.c:323-351 | a reader who splits the buffer at NULs and at the first `=` finds the variables, in order, and nothing else |
| Strings.JoinedWords | u-boot-2009.11/common/cmd_nvedit.c:342-348 | the words of a stored value are the arguments again |
| EnvList.DeleteUndoesSet | u-boot-2009.11/common/cmd_nvedit.c:297-318 | deleting after a successful set gives the list without the name |
| EnvList.WriteOnceSurvivesRuns | u-boot-2009.11/common/cmd_nvedit.c:242-264 | over any run of unforced requests `serial#` and `ethaddr` keep the value they have |
| EnvList.WriteOnceIsExact | u-boot-2009.11/common/cmd_nvedit.c:242-264 | a request that sets or deletes them is carried out exactly when overwriting is configured, the address is the factory default, or the force flag applies |
| EnvList.WriteOnceDeletion | u-boot-2009.11/common/cmd_nvedit.c:242-264 | a deletion takes the variable away exactly then |
| EnvList.EnumStep | u-boot-2009.11/api/api.c:532-553 | handing entry k back, as a name or as the whole pair, leads to entry k + 1 and from the last one to NULL |
| EnvList.WalkVisits | u-boot-2009.11/api/api.c:516-557 | iterating from NULL visits every entry once, in buffer order, then NULL |
| EnvList.WalkEmpty | u-boot-2009.11/api/api.c:526-532 | on an empty environment the walk hands out the end mark and then never NULL |
| EnvList.WalkEnds | u-boot-2009.11/api/api.c:516-557 | the walk comes to NULL exactly on environments that are not empty |
| EnvStore.NeededLength | u-boot-2009.11/common/cmd_nvedit.c:331-335 | the length that is tested against the room left |
| EnvStore.Environment.EnvMatch | u-boot-2009.11/common/cmd_nvedit.c:617-627 | a match against an entry exactly when the name part is its name; the answer is the index of the value |
| EnvStore.Environment.FindEntry | u-boot-2009.11/common/cmd_nvedit.c:200-206 | the first entry of the name that the argument begins with, the index of its value and of its NUL, or the end |
| EnvStore.Environment.SkipString | u-boot-2009.11/common/cmd_nvedit.c:202-203 | the NUL that closes an entry |
| EnvStore.Environment.ShiftDown | u-boot-2009.11/common/cmd_nvedit.c:303-310 | the copy loop moves the rest of the list down to the deleted entry and stops at the double NUL |
| EnvStore.Environment.DeleteEntry | u-boot-2009.11/common/cmd_nvedit.c:297-312 | in all its special cases the deletion leaves the list without entry k |
| EnvStore.Environment.FindEnd | u-boot-2009.11/common/cmd_nvedit.c:323-326 | the first free position, also for an empty list |
| EnvStore.Environment.CopyString | u-boot-2009.11/common/cmd_nvedit.c:340-347 | copies a string with its NUL |
| EnvStore.Environment.CopyArgs | u-boot-2009.11/common/cmd_nvedit.c:342-348 | the arguments behind `=` and separated by blanks |
| EnvStore.Environment.AppendEntry | u-boot-2009.11/common/cmd_nvedit.c:323-351 | appends the definition if the rendered list with it fits, else changes no byte |
| EnvStore.Environment.SetEnv | u-boot-2009.11/common/cmd_nvedit.c:176-354 | the byte-level code is the list operation; a zero result leaves the checksum of the data, any other leaves the old checksum, and a refusal changes no byte |
| EnvStore.Environment.IsKept | u-boot-2009.11/common/cmd_nvedit.c:249-263 | the write-protection test |
| EnvStore.Environment.StrEqual | u-boot-2009.11/common/cmd_nvedit.c:258 | strcmp of a stored value with a constant |
| EnvStore.Environment.GetEnv | u-boot-2009.11/common/cmd_nvedit.c:542-562 | the value of the first entry of that name with its NUL, or NULL when there is none; a name that holds `=` counts up to it |
| EnvStore.Environment.EnumNext | u-boot-2009.11/api/api.c:516-557 | one step of the enumeration on the bytes |
| EnvStore.Environment.ReadName | u-boot-2009.11/examples/api/glue.c:377-404 | the name part of an entry in the buffer |
| EnvStore.Environment.EnumerateAll | u-boot-2009.11/examples/api/demo.c:174-177 | the client loop sees all names once, in buffer order |
| Kermit.ScanUsed | u-boot-2009.11/common/cmd_load.c:848-940 | reading a packet consumes no more than what has arrived |
| KermitSession.DecodeEncode | u-boot-2009.11/common/cmd_load.c:675-690 | decoding a control-quoted file gives the file, for every file and quote character |
| KermitSession.DecodeConcat | u-boot-2009.11/common/cmd_load.c:656-690 | decoding in two pieces is decoding the whole: the cut may stand between the quote and the quoted character |
| KermitSession.LongLengthRoundTrip | u-boot-2009.11/common/cmd_load.c:891-913 | the extended length of a packet is read back |
| KermitSession.ScanWire | u-boot-2009.11/common/cmd_load.c:848-940 | a packet written by the rules of the protocol is accepted with its number, type and data, for short and for long packets |
| KermitSession.CheckOf | u-boot-2009.11/common/cmd_load.c:932-936 | the block check is the low six bits of the sum with bits 6 and 7 added to them |
| KermitSession.CheckSeesBit | u-boot-2009.11/common/cmd_load.c:932-936 | the check changes when any one bit of any character is flipped |
| KermitSession.BitErrorIsDamage | u-boot-2009.11/common/cmd_load.c:848-946 | a packet with one bit flipped anywhere behind its length is given up; behind the number that is one of the damages that `FileArrives` covers |
| KermitSession.ControlIsDamage | u-boot-2009.11/common/cmd_load.c:914-920 | a character below 32 in the data or the check ends a packet at once |
| KermitSession.KnownPackets | u-boot-2009.11/common/cmd_load.c:568-611 | the end packet and the two short answers are the bytes that every Kermit program sends |
| KermitExact.AcceptedExact | u-boot-2009.11/common/cmd_load.c:848-940 | accepted are exactly the well-formed packets: printable up to the check, as many data characters as announced, both checks right, a carriage return behind; number, type and data are those of the packet |
| KermitSession.ScanExtends | u-boot-2009.11/common/cmd_load.c:848-940 | what follows a complete packet does not change how it is read |
| KermitSession.StepIntact | u-boot-2009.11/common/cmd_load.c:864-957 | an intact packet leaves the decode of everything up to it and a checkpoint before it, whether it is new or repeated |
| KermitSession.StepDamaged | u-boot-2009.11/common/cmd_load.c:941-946 | a transmission whose damage is detected leaves the checkpoint and the content before it, and is answered with a negative acknowledge |
| KermitSession.ReceiveQuiet | u-boot-2009.11/common/cmd_load.c:836-847 | characters between packets are skipped |
| KermitSession.ReceiveOne | u-boot-2009.11/common/cmd_load.c:818-957 | the main loop reads one transmission from the line and goes on with the rest |
| KermitSession.Transmit | u-boot-2009.11/common/cmd_load.c:864-957 | the invariant of a session: checkpoint and content after any transmission, intact or damaged, first or repeated |
| KermitSession.ReceiveUpTo | u-boot-2009.11/common/cmd_load.c:818-957 | a run of transmissions that holds no end packet is received up to the first one that does |
| KermitSession.AfterAllIsPayload | u-boot-2009.11/common/cmd_load.c:921-923 | the content after all packets is the decode of the data fields put together, wherever the packets were cut |
| KermitSession.FileArrives | u-boot-2009.11/common/cmd_load.c:785-958 | for every file, every cutting into packets and every pattern of damaged and repeated transmissions whose last copy of each packet is intact, the receiver ends with the length of the file, the file in memory and the answers that belong to the transmissions |
| KermitSession.EveryFileCanBeSent | u-boot-2009.11/common/cmd_load.c:744-747 | every file can be sent so, with any quote that the initiate packet names: the premises of `FileArrives` can be met for all of them |
| KermitSession.ReplyIsPacket | u-boot-2009.11/common/cmd_load.c:568-611 | the answers are well-formed packets of the same protocol, whatever plain fields they carry |
| KermitSession.InitReplyIsPacket | u-boot-2009.11/common/cmd_load.c:698-781 | so is the answer to an initiate packet with any number of fields |
| KermitSession.FieldsAnnounce | u-boot-2009.11/common/cmd_load.c:698-747 | which field of an initiate packet is which parameter, and the defaults of those not sent |
| KermitSession.OwnFieldsAskNothing | u-boot-2009.11/common/cmd_load.c:714-769 | the receiver's own fields, read by the same rules, ask for the defaults and announce long packets of every length |
| KermitSession.CancelEnds | u-boot-2009.11/common/cmd_load.c:836-847 | an ETX between packets cancels the reception |
| KermitSession.HeaderDamageExact | u-boot-2009.11/common/cmd_load.c:864-880 | on the received bytes, for any damage to the transmission behind an intact packet: what follows is decoded behind that packet exactly when the damaged number reads as another one or the packet adds nothing, and a repetition of the packet counts once exactly when the number was not read, or read as that of the packet, or the packet adds nothing |
| KermitSession.NumberUnread | u-boot-2009.11/common/cmd_load.c:849-862 | the number stays unread exactly when the length or the number character reads as a control character |
| KermitSession.DecodeProgress | u-boot-2009.11/common/cmd_load.c:656-690 | every data character moves the decoding on |
| KermitReceiver.Downloader.OsDataChar | u-boot-2009.11/common/cmd_load.c:638-645 | stores a byte and advances |
| KermitReceiver.Downloader.KDataChar | u-boot-2009.11/common/cmd_load.c:675-690 | the escape state machine |
| KermitReceiver.Downloader.SaveState | u-boot-2009.11/common/cmd_load.c:663-667 | the checkpoint |
| KermitReceiver.Downloader.RestoreState | u-boot-2009.11/common/cmd_load.c:669-673 | the way back to it |
| KermitReceiver.Downloader.PacketError | u-boot-2009.11/common/cmd_load.c:941-946 | rolls back and answers with the number last read |
| KermitReceiver.Downloader.SaveSendParm | u-boot-2009.11/common/cmd_load.c:924-930 | keeps the initiate data in 20 bytes |
| KermitReceiver.Downloader.HandleSendPacket | u-boot-2009.11/common/cmd_load.c:698-781 | the parameters negotiated from however many fields were sent, and the fields of the answer |
| KermitReceiver.Downloader.ReadNumber | u-boot-2009.11/common/cmd_load.c:849-862 | the length and number bytes and their rejection |
| KermitReceiver.Downloader.BeginPacket | u-boot-2009.11/common/cmd_load.c:871-880 | checkpoint for a new number, rollback for a repeated one |
| KermitReceiver.Downloader.ReadHeader | u-boot-2009.11/common/cmd_load.c:848-889 | the header of a packet |
| KermitReceiver.Downloader.ReadLongLength | u-boot-2009.11/common/cmd_load.c:891-913 | the extended length and its header check |
| KermitReceiver.Downloader.TakeChar | u-boot-2009.11/common/cmd_load.c:921-930 | what becomes of a data character |
| KermitReceiver.Downloader.ReadSeen | u-boot-2009.11/common/cmd_load.c:914-931 | the data characters until the length is used up |
| KermitReceiver.Downloader.ReadBody | u-boot-2009.11/common/cmd_load.c:914-940 | the data, the block check and the end character |
| KermitReceiver.Downloader.ReadTail | u-boot-2009.11/common/cmd_load.c:932-940 | the block check and the end character |
| KermitReceiver.Downloader.ReadPacket | u-boot-2009.11/common/cmd_load.c:848-957 | one packet has the effect of one step of the receiver |
| KermitReceiver.Downloader.NextStart | u-boot-2009.11/common/cmd_load.c:836-847 | waits for a start or a cancel character |
| KermitReceiver.Downloader.KRecv | u-boot-2009.11/common/cmd_load.c:785-959 | the loop with its gotos computes the receiver function on everything that arrives |
| Srecord.RecordFits | u-boot-2009.11/common/cmd_load.c:327-336 | every data record with its NUL fits the 48-byte buffer; one of 16 bytes fills it |
| Srecord.AddressReads | u-boot-2009.11/common/s_record.c:102-148 | the four address bytes read back to the address |
| Srecord.SpelledReads | u-boot-2009.11/common/s_record.c:150-158 | hexadecimal bytes are read back |
| Srecord.SpelledReadsBack | u-boot-2009.11/common/s_record.c:30-170 | a line of any record type with a right checksum decodes to its address and data |
| Srecord.RecordReadsBack | u-boot-2009.11/common/cmd_load.c:353-369 | every record that is sent passes the checksum and decodes to its address and data |
| Srecord.RecordSums | u-boot-2009.11/common/cmd_load.c:353-369 | all bytes of a record, checksum included, add up to 0xFF in 8 bits |
| Srecord.AcceptedSums | u-boot-2009.11/common/s_record.c:147-167 | the decoder accepts exactly the records that do |
| Srecord.ByteErrorIsSeen | u-boot-2009.11/common/s_record.c:147-167 | a record with one wrong byte behind its length is refused |
| Srecord.HexDigits | u-boot-2009.11/common/cmd_load.c:335 | the digits are those of the table, and are read in either case |
| Srecord.OnlyHexDigits | u-boot-2009.11/common/s_record.c:172-181 | nothing else is a hexadecimal digit |
| Srecord.AddressLengths | u-boot-2009.11/common/s_record.c:61-100 | how long the address of each record type is |
| Srecord.DataHeld | u-boot-2009.11/common/s_record.c:64-102 | how many data bytes an accepted record holds: a count record none, whatever its length says |
| Srecord.EmptyLine | u-boot-2009.11/common/s_record.c:43-54 | a line without an `S`, or with nothing behind it, is an empty one |
| Srecord.JunkSkipped | u-boot-2009.11/common/s_record.c:43-51 | whatever stands in front of the first `S` of a line does not matter |
| Srecord.KnownRecord | u-boot-2009.11/common/cmd_load.c:328 | a record as it is on the line |
| Srecord.StartReads | u-boot-2009.11/common/cmd_load.c:327 | the header line decodes to an empty start record |
| Srecord.FinishReads | u-boot-2009.11/common/cmd_load.c:329 | the final line decodes to an end record |
| Srecord.UploadDecodes | u-boot-2009.11/common/cmd_load.c:332-385 | line by line, what the decoder makes of an upload |
| Srecord.BlocksCover | u-boot-2009.11/common/cmd_load.c:343-379 | the blocks of at most 16 bytes cover the memory, every byte at its address modulo 2^32 |
| Srecord.UploadReadsBack | u-boot-2009.11/common/cmd_load.c:332-385 | decoding the whole upload stores exactly the uploaded memory, for every address and count |
| Srecord.SaveSerial | u-boot-2009.11/common/cmd_load.c:332-385 | the upload, or its records up to the first one after which the console has hung up |
| Srecord.SendRecords | u-boot-2009.11/common/cmd_load.c:343-383 | the byte-by-byte loop writes exactly the header and the data records |
| Srecord.SendData | u-boot-2009.11/common/cmd_load.c:344-381 | the loop, with what is collected and what is out |
| Srecord.DumpRecord | u-boot-2009.11/common/cmd_load.c:351-374 | a record when anything was collected, and the next address |
| Srecord.BuildRecord | u-boot-2009.11/common/cmd_load.c:353-369 | the checksum continued over length and address belongs to the record |
| MtdValidate.RangeExact | u-boot-2009.11/common/cmd_mtdparts.c:398-425 | the three tests in 32 bits accept exactly the non-empty ranges inside the flash |
| MtdValidate.TiledExact | u-boot-2009.11/common/cmd_mtdparts.c:308-385 | with contiguous erase regions a partition is accepted if and only if it is a run of erase blocks inside the device |
| MtdValidate.UniformExact | u-boot-2009.11/common/cmd_mtdparts.c:308-385 | the same for chips with one erase size |
| MtdValidate.Search | u-boot-2009.11/common/cmd_mtdparts.c:347-376 | the search over regions and blocks finds an address exactly when a block starts there |
| MtdValidate.PartValidate | u-boot-2009.11/common/cmd_mtdparts.c:398-425 | the method computes these tests and the effective size: `-` takes all from the offset to the end of the flash, any other size stays |
| MtdValidate.EffectiveExact | u-boot-2009.11/common/cmd_mtdparts.c:400-401 | so does the function that the parser uses |
| MtdText.NumberReadsDigits | u-boot-2009.11/lib_generic/vsprintf.c:50-75 | the digits of a number read back to it |
| MtdText.SizeRoundTrip | u-boot-2009.11/common/cmd_mtdparts.c:184-231 | memsize_parse undoes memsize_format for every 32-bit size, also 0, which reads as octal |
| MtdText.ParseNameText | u-boot-2009.11/common/cmd_mtdparts.c:619-636 | a user name in parentheses is read back |
| MtdText.PartRoundTrip | u-boot-2009.11/common/cmd_mtdparts.c:584-692 | a printed partition is read back; its offset is open exactly when it was not printed |
| MtdText.PartsStep | u-boot-2009.11/common/cmd_mtdparts.c:868-903 | the omitted offset is the running one, and the rest of the list follows |
| MtdText.PartsRoundTrip | u-boot-2009.11/common/cmd_mtdparts.c:868-903 | all partitions of a device are read back |
| MtdText.SortAllSorted | u-boot-2009.11/common/cmd_mtdparts.c:499-553 | sorting strictly ascending partitions changes nothing |
| MtdText.EqualOffsetsReverse | u-boot-2009.11/common/cmd_mtdparts.c:499-553 | the smallest case: two partitions at one offset come out in reverse order, and at offset 0 they are refused |
| MtdText.DeviceRoundTrip | u-boot-2009.11/common/cmd_mtdparts.c:826-951 | one device is read back, its partitions in the order of the sorted insertion |
| MtdText.DevicesRoundTrip | u-boot-2009.11/common/cmd_mtdparts.c:1364-1411 | the same for all devices, and an error exactly when one of them is refused |
| MtdText.TableReadsBack | u-boot-2009.11/common/cmd_mtdparts.c:1067-1184 | parsing what was printed gives every valid table with its partitions sorted in again, whatever their offsets |
| MtdText.ResortExact | u-boot-2009.11/common/cmd_mtdparts.c:499-553 | that is the table itself exactly when sorting leaves every device alone |
| MtdTies.SortingMirrors | u-boot-2009.11/common/cmd_mtdparts.c:499-553 | sorting reverses every group of equal offsets of an ascending list |
| MtdTies.SortAllExact | u-boot-2009.11/common/cmd_mtdparts.c:499-553 | for every list of partitions: sorting leaves it alone if and only if it ascends, no two lie at offset 0, and every group of equal offsets reads the same backwards |
| MtdTies.TableRoundTrip | u-boot-2009.11/common/cmd_mtdparts.c:1067-1184 | for every table: parsing what was printed rebuilds it, devices, sizes, offsets, flags, user names and order, if and only if that holds for each device |
| MtdTies.TableRoundTripStrict | u-boot-2009.11/common/cmd_mtdparts.c:1067-1184 | for tables whose ties differ: if and only if the offsets of each device ascend strictly |
| MtdSound.ParsedIsSound | u-boot-2009.11/common/cmd_mtdparts.c:1364-1411 | only a text behind `mtdparts=` is accepted, and its table is valid: at least one device, known devices, each once, partitions that are runs of erase blocks inside their device, ascending, one at offset 0 at most |
| MtdSound.SortAllKeeps | u-boot-2009.11/common/cmd_mtdparts.c:499-553 | sorting loses no partition and makes none |
| MtdSound.DashTakesRest | u-boot-2009.11/common/cmd_mtdparts.c:594-598 | a partition with `-` gets exactly the space from its offset to the end of the flash, or is refused |
| MtdSound.DashReadsBack | u-boot-2009.11/common/cmd_mtdparts.c:594-598 | a table whose last partition reaches the end of the flash reads back with `-` for its size |
| MtdSound.HexReads | u-boot-2009.11/lib_generic/vsprintf.c:50-75 | behind `0x` a number is hexadecimal, in digits of either case |
| MtdSound.OctalReads | u-boot-2009.11/lib_generic/vsprintf.c:50-75 | behind another `0` it is octal |
| MtdSound.ZeroReads | u-boot-2009.11/lib_generic/vsprintf.c:54-75 | a zero in front of anything else is just that, and an `x` without hexadecimal digits is left |
| MtdSound.CapitalSuffix | u-boot-2009.11/common/cmd_mtdparts.c:184-203 | what the suffixes multiply by, in either case |
| MtdSound.SmallRefused | u-boot-2009.11/common/cmd_mtdparts.c:599-605 | a size is refused exactly when it is below 4096 |
| MtdSound.NameRefused | u-boot-2009.11/common/cmd_mtdparts.c:619-636 | a name that is empty or not closed is refused |
| MtdSound.EndRefused | u-boot-2009.11/common/cmd_mtdparts.c:645-665 | so is anything behind a partition but a comma, a semicolon or the end, and even a comma behind `-` |
| MtdLayout.FormatUnits | u-boot-2009.11/common/cmd_mtdparts.c:205-231 | a size is printed in the largest unit that divides it |
| MtdLayout.PartLayout | u-boot-2009.11/common/cmd_mtdparts.c:59-64 | the text of a partition is size, `@` and offset, name in parentheses, `ro` |
| MtdLayout.PartsLayout | u-boot-2009.11/common/cmd_mtdparts.c:59-64 | partitions are separated by commas |
| MtdLayout.TableLayout | u-boot-2009.11/common/cmd_mtdparts.c:55-64 | devices by semicolons, each with its id and a colon |
| MtdLayout.AdjoiningPrints | u-boot-2009.11/common/cmd_mtdparts.c:1117-1126 | for partitions that adjoin one another, the first one at 0, no offset is printed |
| MtdLayout.AdjoiningReads | u-boot-2009.11/common/cmd_mtdparts.c:867-893 | and from sizes, names and flags alone they are read back, each behind the one in front of it |
| MtdLayout.AddedBehind | u-boot-2009.11/common/cmd_mtdparts.c:871-893 | a partition that is given no offset starts where the last one of its device ends, or at 0 |
| MtdParser.SimpleStrtoul | u-boot-2009.11/lib_generic/vsprintf.c:50-75 | value and rest for decimal, octal and hexadecimal numbers |
| MtdParser.ReadMemsize | u-boot-2009.11/common/cmd_mtdparts.c:184-203 | the number with its suffix |
| MtdParser.ReadSize | u-boot-2009.11/common/cmd_mtdparts.c:598-610 | the size, `-`, or the error below the minimum |
| MtdParser.ReadOffset | u-boot-2009.11/common/cmd_mtdparts.c:612-617 | the offset if there is one |
| MtdParser.ReadName | u-boot-2009.11/common/cmd_mtdparts.c:619-636 | the name, or the error for an unclosed or empty one |
| MtdParser.ReadRo | u-boot-2009.11/common/cmd_mtdparts.c:638-643 | the read-only flag |
| MtdParser.ReadPart | u-boot-2009.11/common/cmd_mtdparts.c:584-692 | part_parse is the parser function, errors included |
| MtdParser.ReadParts | u-boot-2009.11/common/cmd_mtdparts.c:868-903 | the partition loop of device_parse |
| MtdParser.ReadSettled | u-boot-2009.11/common/cmd_mtdparts.c:883-893 | the running offset and the validation |
| MtdParser.SortParts | u-boot-2009.11/common/cmd_mtdparts.c:937-945 | moving the partitions into the device |
| MtdParser.ReadDevice | u-boot-2009.11/common/cmd_mtdparts.c:826-951 | device_parse |
| MtdParser.ReadTable | u-boot-2009.11/common/cmd_mtdparts.c:1364-1411 | parse_mtdparts: the whole table or none of it |
| MtdParser.PrintPart | u-boot-2009.11/common/cmd_mtdparts.c:1108-1154 | one partition within the room left |
| MtdParser.PrintPartOf | u-boot-2009.11/common/cmd_mtdparts.c:1108-1154 | one partition of a device and the comma behind it |
| MtdParser.PrintParts | u-boot-2009.11/common/cmd_mtdparts.c:1099-1165 | the partitions of a device, the offset left out when it is the running one |
| MtdParser.GenerateMtdparts | u-boot-2009.11/common/cmd_mtdparts.c:1067-1184 | prints the table exactly when what follows the prefix fits buflen - 1 |
| MtdOrder.Place | u-boot-2009.11/common/cmd_mtdparts.c:524-547 | the insertion point: in front of the first partition that is not below the new one |
| MtdOrder.InsertIsSortAdd | u-boot-2009.11/common/cmd_mtdparts.c:499-553 | the insertion into the linked list is the sorted insertion the parser relies on |
| MtdOrder.AddKeepsOrder | u-boot-2009.11/common/cmd_mtdparts.c:499-553 | an addition keeps every partition; it keeps the order unless it is refused, which is when offset 0 is taken |
| MtdOrder.RemoveKeepsOrder | u-boot-2009.11/common/cmd_mtdparts.c:462-464 | a deletion keeps the order and loses only that partition |
| MtdOrder.EditChanges | u-boot-2009.11/common/cmd_mtdparts.c:434-553 | an addition adds just that partition unless there would be two at offset 0, a deletion takes just that one away |
| MtdOrder.AddTracks | u-boot-2009.11/common/cmd_mtdparts.c:536-542 | the current partition stays the same object through an addition exactly unless its number passes 255 |
| MtdOrder.DeleteTracks | u-boot-2009.11/common/cmd_mtdparts.c:444-460 | the current partition stays the same object through the deletion of another one exactly unless that one lies behind it at the same offset |
| MtdOrder.DeleteLosesCurrent | u-boot-2009.11/common/cmd_mtdparts.c:444-460 | a concrete case in which the number becomes 255 and denotes no partition |
| MtdOrder.DeletedCurrentGoesFirst | u-boot-2009.11/common/cmd_mtdparts.c:444-460 | when the current partition is deleted the first one left becomes current |
| MtdOrder.NumberWhenLost | u-boot-2009.11/common/cmd_mtdparts.c:444-460 | what the number becomes where the current partition is lost, and that a dangling number stays |
| MtdOrder.RunTracks | u-boot-2009.11/common/cmd_mtdparts.c:434-553 | over any run of additions and deletions, up to the 16-bit count, the list stays sorted with one partition at offset 0 at most, and the current one stays the same object while the edits spare it |
| MtdTable.NumberIsPosition | u-boot-2009.11/common/cmd_mtdparts.c:248-258 | the sum over the device lists is the position in their concatenation |
| MtdTable.Table.MtdPartInfo | u-boot-2009.11/common/cmd_mtdparts.c:1668-1699 | the partition of a number, or NULL |
| MtdTable.Table.IndexPartitions | u-boot-2009.11/common/cmd_mtdparts.c:238-271 | the variables describe the current partition again |
| MtdTable.Table.NumberCurrent | u-boot-2009.11/common/cmd_mtdparts.c:248-258 | the 16-bit count up to the current device |
| MtdTable.Table.CurrentSave | u-boot-2009.11/common/cmd_mtdparts.c:277-300 | also the variable `partition` |
| MtdTable.Table.PartSortAdd | u-boot-2009.11/common/cmd_mtdparts.c:499-553 | the list after the addition, the refusal, the current number, and all table invariants |
| MtdTable.Table.PutBefore | u-boot-2009.11/common/cmd_mtdparts.c:532-546 | the branch that inserts in front of another partition |
| MtdTable.Table.DeviceAdd | u-boot-2009.11/common/cmd_mtdparts.c:799-815 | the device at the end of the list; the first one becomes current |
| MtdTable.Table.DeviceDel | u-boot-2009.11/common/cmd_mtdparts.c:747-769 | the list without the device, or as it was when the device is not in it; current falls back to the first partition of the first device, or to none |
| MtdTable.Table.TakeOff | u-boot-2009.11/common/cmd_mtdparts.c:750 | list_del, also of a device that was never linked |
| MtdTable.Table.PartDel | u-boot-2009.11/common/cmd_mtdparts.c:434-471 | the partition, or with the last one the device, is gone; the current number follows; the invariants hold |
| MtdTable.Table.ChPart | u-boot-2009.11/common/cmd_mtdparts.c:1715-1740 | makes a partition current |
| MtdTable.Table.DevicesInit | u-boot-2009.11/common/cmd_mtdparts.c:958-965 | empties the table |
| MtdTable.Table.VariablesNameCurrent | u-boot-2009.11/common/cmd_mtdparts.c:238-300 | in every valid table mtddevname is the name of the current partition, and names none exactly when the current number denotes none; mtddevnum is the position in the list of all partitions in 16 bits |
| FlashPlan.LookFinds | u-boot-2009.11/common/cmd_flash.c:237-252 | the sector scan finds the sector that starts at the range and the one that ends it, or none |
| FlashPlan.ChooseMeaning | u-boot-2009.11/common/cmd_flash.c:253-282 | what a bank contributes begins at the range and ends on a sector end inside it |
| FlashPlan.ChooseExact | u-boot-2009.11/common/cmd_flash.c:230-284 | exactly which ranges a bank takes up, passes by and refuses |
| FlashPlan.PlanIsInterval | u-boot-2009.11/common/cmd_flash.c:206-287 | the selected sectors cover exactly one interval from the start address and never leave the range |
| FlashPlan.ContiguousExact | u-boot-2009.11/common/cmd_flash.c:206-287 | with banks contiguous in table order a non-empty plan exists exactly when the range begins at a sector start and ends at a sector end or beyond the flash, and it reaches that end |
| FlashPlan.SectorsTile | u-boot-2009.11/common/cmd_flash.c:117-129 | the sectors of a bank are its addresses, from its start over its size: every one is in exactly one sector, and no other address is in any |
| FlashPlan.RoundedInBank | u-boot-2009.11/common/cmd_flash.c:110-146 | rounding gives the end of the sector that holds the address |
| FlashPlan.RoundedNone | u-boot-2009.11/common/cmd_flash.c:110-146 | it finds nothing exactly when no sector holds the address |
| FlashPlan.PlanInBank | u-boot-2009.11/common/cmd_flash.c:206-287 | a range of whole sectors in one bank plans exactly these sectors |
| FlashPlan.LengthFormIsLeast | u-boot-2009.11/common/cmd_flash.c:165-204 | for `start +len` on a sector boundary the planner selects the least set of sectors that covers the range |
| FlashTool.FlashCommands.FillSectRanges | u-boot-2009.11/common/cmd_flash.c:206-287 | the two tables and the count are those of the plan, or it is refused |
| FlashTool.FlashCommands.PlanBanks | u-boot-2009.11/common/cmd_flash.c:224-287 | the loop over the banks |
| FlashTool.FlashCommands.PlanBank | u-boot-2009.11/common/cmd_flash.c:230-284 | what one bank contributes |
| FlashTool.FlashCommands.FillBank | u-boot-2009.11/common/cmd_flash.c:237-252 | the loop over the sectors |
| FlashTool.FlashCommands.SectRoundB | u-boot-2009.11/common/cmd_flash.c:110-146 | the rounding loops |
| FlashTool.FlashCommands.SectErase | u-boot-2009.11/common/cmd_flash.c:422-461 | when it returns 0 the calls erase every sector of the planned interval, each once, and no other; else those up to the first failure, and nothing when the plan is refused or empty |
| FlashTool.FlashCommands.EraseRanges | u-boot-2009.11/common/cmd_flash.c:437-452 | the erase loop |
| FlashErase.NamedExact | u-boot-2009.11/common/cmd_flash.c:437-451 | which sectors the calls name: those of the ranges, from the first to the last |
| FlashErase.EraseIsExact | u-boot-2009.11/common/cmd_flash.c:437-452 | the addresses of the named sectors are the planned interval, no sector is named twice, and their number is the planned count |
| FlashErase.FailureIsExact | u-boot-2009.11/common/cmd_flash.c:437-452 | when a call fails, what was planned up to and with its bank has been tried and nothing behind it |
| FloppyGeometry.SplitIsOnDisk | u-boot-2009.11/common/cmd_fdc.c:305-309 | the split of a block number loses nothing and is on the disk exactly for the blocks of the disk |
| FloppyGeometry.SplitOfBlockAt | u-boot-2009.11/common/cmd_fdc.c:305-309 | every place is the split of its own block number |
| FloppyGeometry.RoomOnTrack | u-boot-2009.11/common/cmd_fdc.c:508 | the number of blocks to the end of the track side |
| FloppyGeometry.TrackIsImage | u-boot-2009.11/common/cmd_fdc.c:301-332 | sectors of a track side are consecutive blocks |
| FloppyGeometry.NextSide | u-boot-2009.11/common/cmd_fdc.c:572-576 | a chunk that does not finish the read ends with its side, so that a whole side may follow |
| FloppyGeometry.SizeIsShift | u-boot-2009.11/common/cmd_fdc.c:489 | the sector size |
| FloppyReader.Reader.IssueRead | u-boot-2009.11/common/cmd_fdc.c:301-332 | a read command names sectors of one track side that hold the blocks asked for |
| FloppyReader.Reader.Transfer | u-boot-2009.11/common/cmd_fdc.c:516-562 | the data phase fills its part of the buffer with what is under the head; complete exactly when the hardware does not abort inside it |
| FloppyReader.Reader.TransferBytes | u-boot-2009.11/common/cmd_fdc.c:516-562 | complete exactly when the hardware does not abort inside the chunk |
| FloppyReader.Reader.ReadData | u-boot-2009.11/common/cmd_fdc.c:478-594 | TRUE means the buffer holds exactly the blocks asked for, whatever was aborted, retried and recalibrated; every command stays on one side and names the cylinder the head was last sent to; every finished chunk but the last and every recalibration is followed by one seek, and a recalibration comes after every fifth abort; the aborts are the transfers that the hardware broke off, and the 25th ends the read; every other failure is the last answer of its kind, and all answers before were good; interrupts stay off exactly when that is a bad seek status after the first seek |
| FloppyReader.Reader.HarmlessSucceeds | u-boot-2009.11/common/cmd_fdc.c:478-594 | a read succeeds when transfers may break off at fewer than 25 requests and no other answer is bad |
| FloppyReader.BrokenBound | u-boot-2009.11/common/cmd_fdc.c:538-558 | no more transfers break off than there are requests at which they may |
| FloppyReader.Reader.ReadLoop | u-boot-2009.11/common/cmd_fdc.c:514-594 | the loop and what follows it: how it ends, for which reason, and what is in the buffer |
| FloppyReader.Reader.Turns | u-boot-2009.11/common/cmd_fdc.c:514-594 | the turns with the two jump targets, and the measure of the retries |
| FloppyReader.Reader.TurnedStep | u-boot-2009.11/common/cmd_fdc.c:514-594 | the invariant of every turn: requests, seeks, recalibrations, aborts and retry counters belong together, and a failure has its answer |
| FloppyReader.Reader.ReadTurn | u-boot-2009.11/common/cmd_fdc.c:515-577 | one turn up to the seek |
| FloppyReader.Reader.AfterAbort | u-boot-2009.11/common/cmd_fdc.c:538-558 | the two retry counters and what they lead to |
| FloppyReader.Reader.AbortedStep | u-boot-2009.11/common/cmd_fdc.c:538-558 | the two counters count the aborts; the 25th ends the read, and so does a recalibration that fails |
| OneNand.PlaceMeaning | u-boot-2009.11/common/cmd_onenand.c:138-159 | block i of the buffer stands in the i-th good block and no other block changes |
| OneNand.PlaceConcat | u-boot-2009.11/common/cmd_onenand.c:138-159 | writing a and then b behind it is writing both |
| OneNand.WriteContinues | u-boot-2009.11/common/cmd_onenand.c:129-136 | a write where the last one logically ended continues it, wherever the bad blocks are |
| OneNand.WriteElsewhere | u-boot-2009.11/common/cmd_onenand.c:129-136 | a write anywhere else starts at its own offset, whatever had been skipped |
| OneNand.WriteAtNext | u-boot-2009.11/common/cmd_onenand.c:129-136 | one where the last one logically ended starts so many blocks later as had been skipped |
| OneNand.GoodIsComplete | u-boot-2009.11/common/cmd_onenand.c:138-159 | the good blocks are all that are neither bad nor refuse to be written |
| OneNand.WriteRunIsOneWrite | u-boot-2009.11/common/cmd_onenand.c:119-162 | any run of such writes is one write of the concatenation |
| OneNand.ReadIsGood | u-boot-2009.11/common/cmd_onenand.c:89-114 | reading returns the good blocks in order as far as reading and writing find the same blocks usable |
| OneNand.ReadTakesLegible | u-boot-2009.11/common/cmd_onenand.c:89-114 | a read returns, in order, the first blocks that are neither bad nor refuse to be read |
| OneNand.ReadBackRun | u-boot-2009.11/common/cmd_onenand.c:72-162 | one read of the total length returns what a run of writes stored, if reading and writing agree up to the last block written |
| OneNand.ReadBackExact | u-boot-2009.11/common/cmd_onenand.c:72-162 | every content comes back if and only if reading and writing agree on all blocks up to the last one written |
| OneNand.StaleShows | u-boot-2009.11/common/cmd_onenand.c:147-152 | a block that can be read but not written is read in place of the next one |
| OneNand.LossShows | u-boot-2009.11/common/cmd_onenand.c:104-110 | a block that can be written but not read is lost |
| OneNand.WriteErrorShiftsRead | u-boot-2009.11/common/cmd_onenand.c:147-152 | a block that refuses only to be written makes the read return its stale contents |
| OneNand.Chip.BlockWrite | u-boot-2009.11/common/cmd_onenand.c:119-162 | the loop and the two static variables are the write function |
| OneNand.Chip.BlockRead | u-boot-2009.11/common/cmd_onenand.c:72-117 | the loop is the read function |
| LogStream.StampMarksEveryLine | u-boot-2009.11/common/cmd_log.c:272-317 | the logged stream is the text with `<4>` in front of every line that has no mark of its own |
| LogStream.StampInPieces | u-boot-2009.11/common/cmd_log.c:262-319 | a text logged in two calls gives the stream of one call exactly when the cut does not go through a level mark |
| LogStream.TagMeans | u-boot-2009.11/common/cmd_log.c:275-288 | a mark is one of `<0>` to `<7>`, and without one the level is 4 |
| LogStream.TagForMeans | u-boot-2009.11/common/cmd_log.c:275-288 | in the stream a line begins with the mark of its level, whether it brought one or not |
| LogStream.StampLeaves | u-boot-2009.11/common/cmd_log.c:274-317 | the level left behind: none after a line feed, else that of the last line |
| LogStream.AppendIsJoined | u-boot-2009.11/common/cmd_log.c:201-208 | the appended line is the arguments joined by blanks, and a line feed |
| LogStream.NoCutAtBlank | u-boot-2009.11/common/cmd_log.c:201-208 | no mark is cut in front of a blank or a line feed |
| LogStream.NoCutAfterBlank | u-boot-2009.11/common/cmd_log.c:201-208 | nor behind a blank |
| LogRing.ViewGrows | u-boot-2009.11/common/cmd_log.c:291-306 | a character added to a ring that is not full |
| LogRing.ViewSlides | u-boot-2009.11/common/cmd_log.c:291-306 | a character added to a full ring |
| LogRing.EndFromStart | u-boot-2009.11/common/cmd_log.c:292-296 | the end of the second layout in wrapping 32-bit arithmetic |
| LogRing.LogBuffer.Reset | u-boot-2009.11/common/cmd_log.c:119-141 | the buffer is empty; the level of an open line stays |
| LogRing.LogBuffer.AppendV2 | u-boot-2009.11/common/cmd_log.c:291-297 | the layout with start and end holds the last 16384 characters |
| LogRing.LogBuffer.AppendV1 | u-boot-2009.11/common/cmd_log.c:298-306 | the layout with start and size holds the same |
| LogRing.LogBuffer.Append | u-boot-2009.11/common/cmd_log.c:291-306 | either layout holds the last characters of the stream |
| LogRing.LogBuffer.LogLine | u-boot-2009.11/common/cmd_log.c:289-311 | the inner loop up to a line feed |
| LogRing.LogBuffer.OpenLine | u-boot-2009.11/common/cmd_log.c:274-288 | finds the mark of a line or writes one over characters already used |
| LogRing.LogBuffer.StartLine | u-boot-2009.11/common/cmd_log.c:274-288 | a new line gets its level, an open one keeps it |
| LogRing.LogBuffer.LogFrom | u-boot-2009.11/common/cmd_log.c:272-317 | one turn of the outer loop |
| LogRing.LogBuffer.Printk | u-boot-2009.11/common/cmd_log.c:262-319 | a call appends exactly the stamped text and keeps an open line open |
| LogRing.LogBuffer.PutC | u-boot-2009.11/common/cmd_log.c:162-168 | one character |
| LogRing.LogBuffer.LogAppend | u-boot-2009.11/common/cmd_log.c:201-208 | an appended message is logged as if in one call |
| Eeprom.WritesTile | u-boot-2009.11/common/cmd_eeprom.c:223-365 | the transfers of a write tile the range and none is longer than the bus allows |
| Eeprom.PagesRespected | u-boot-2009.11/common/cmd_eeprom.c:255-273 | no transfer crosses a page for any range if and only if pages have at most 256 bytes or transfers one byte |
| Eeprom.CrossingExample | u-boot-2009.11/common/cmd_eeprom.c:255-273 | a transfer that crosses a larger page |
| Eeprom.WritesInPages | u-boot-2009.11/common/cmd_eeprom.c:223-365 | all transfers of a write stay in their pages |
| Eeprom.LongestTransfers | u-boot-2009.11/common/cmd_eeprom.c:164-273 | no transfer is shorter than the range, the bus and the page allow |
| Eeprom.OrBits | u-boot-2009.11/common/cmd_eeprom.c:248 | a bit of the chip address is set exactly when it is in the block number or in the device address |
| Eeprom.ChipIsSum | u-boot-2009.11/common/cmd_eeprom.c:229-248 | without a common bit the chip is the device address plus the number of the block, and the rest of the offset counts inside it |
| Eeprom.ChipComesRound | u-boot-2009.11/common/cmd_eeprom.c:229-248 | the block number is cut to 8 bits: 256 blocks further the same cells come again |
| Eeprom.DisjointBits | u-boot-2009.11/common/cmd_eeprom.c:229-248 | with the device address disjoint from the block bits different offsets are different cells |
| Eeprom.PutIsFlat | u-boot-2009.11/common/cmd_eeprom.c:218-221 | one write along flat offsets is a flat copy although the address counter wraps |
| Eeprom.WriteIsFlatCopy | u-boot-2009.11/common/cmd_eeprom.c:201-375 | where the counter stays on flat offsets the whole write is one flat copy; with failed transfers each byte is new or old and nothing else changes |
| Eeprom.FitsIsFlat | u-boot-2009.11/common/cmd_eeprom.c:255-273 | it stays on them for every range when pages have at most 256 bytes or transfers one byte |
| Eeprom.FlatExact | u-boot-2009.11/common/cmd_eeprom.c:201-375 | for every range: every content is stored at its flat offsets if and only if the counter stays on them |
| Eeprom.FlatConfigs | u-boot-2009.11/common/cmd_eeprom.c:201-375 | that is so for all ranges exactly in those configurations, and in one more, in which pages are as large as a block and the device address leaves no room for block numbers |
| Eeprom.WrittenIsRead | u-boot-2009.11/common/cmd_eeprom.c:127-375 | the range then holds what was written |
| Eeprom.ReadCellIsFlat | u-boot-2009.11/common/cmd_eeprom.c:171-176 | inside 256 bytes a read comes from the flat offsets |
| Eeprom.WriteLength | u-boot-2009.11/common/cmd_eeprom.c:247-273 | between one byte and the bus limit, inside the range |
| Eeprom.ReadLength | u-boot-2009.11/common/cmd_eeprom.c:164-176 | the same for reads, inside 256 bytes |
| Eeprom.Bus.EndInRange | u-boot-2009.11/common/cmd_eeprom.c:203 | the end of the range in 32 bits: an overflow leaves nothing to do |
| Eeprom.Bus.EepromWrite | u-boot-2009.11/common/cmd_eeprom.c:201-375 | the loop makes exactly these transfers; the result is 0 exactly when none failed |
| Eeprom.Bus.WriteTurn | u-boot-2009.11/common/cmd_eeprom.c:223-365 | one turn of it keeps what the remaining writes lead to, and the result |
| Eeprom.Bus.WriteNext | u-boot-2009.11/common/cmd_eeprom.c:250-273 | the length and the transfer |
| Eeprom.Bus.EepromRead | u-boot-2009.11/common/cmd_eeprom.c:127-190 | the loop makes exactly these transfers; each byte of the range is the one of the device, or after a failure perhaps the old one; bytes beyond the range stay |
| Eeprom.Bus.ReadTurn | u-boot-2009.11/common/cmd_eeprom.c:131-187 | one turn of it |
| Eeprom.Bus.ReadNext | u-boot-2009.11/common/cmd_eeprom.c:164-186 | the length and the transfer |
| PpcBranch.EncodeSigned | u-boot-2009.11/common/bedbug.c:863-879 | the field holds a displacement exactly when it is a multiple of 4 in range |
| PpcBranch.StepIsPrinted | u-boot-2009.11/common/bedbug.c:261-271 | disassembler and stepper agree on every field |
| PpcBranch.AssembledTarget | u-boot-2009.11/common/bedbug.c:863-879 | disassembling and stepping give the target that was assembled if and only if its displacement fits, for 14 and 24 bits, relative and absolute |
| PpcBranch.DisassembledField | u-boot-2009.11/common/bedbug.c:261-271 | assembling what is disassembled gives the field back |
| PpcBranch.FieldKept | u-boot-2009.11/common/bedbug.c:373-400 | the operand is extracted from the instruction it was or-ed into, and the other bits stay |
| PpcBranch.ConditionKept | u-boot-2009.11/common/bedbug.c:1099-1102 | so do BO and BI |
| PpcBranch.TakenExact | u-boot-2009.11/common/bedbug.c:1158-1213 | the stepper takes a conditional branch exactly when its bits say so and its don't-care bits are clear |
| PpcBranch.SteppedAsAssembled | u-boot-2009.11/common/bedbug.c:1216-1234 | stepping an assembled branch goes to its target when taken and behind it when not; stepping over a linking one goes behind it |
| PpcBranch.BranchesExact | u-boot-2009.11/common/bedbug.c:1156-1213 | a conditional branch word leaves the straight line exactly when its BO field, its condition bit counted from the left, and the decremented counter say so |
| PpcBranch.ConditionIsBit | u-boot-2009.11/common/bedbug.c:1160-1192 | the condition bit is bit BI from the left |
| PpcBranch.SteppedToRegister | u-boot-2009.11/common/bedbug.c:1128-1234 | bcctr and bclr go to the counter and the link register when taken |
| PpcBranch.SteppedConditional | u-boot-2009.11/common/bedbug.c:1094-1234 | bc goes to the signed 14-bit distance, relative or absolute by its AA bit; stepping over a linking one goes behind it |
| PpcBranch.SteppedAlways | u-boot-2009.11/common/bedbug.c:1112-1234 | b does so with 24 bits, always |

## Left out

Contracts that say less than one might expect:

- EnvStore.Environment.SetEnv: the effects outside the buffer (console, baud rate, IP and load addresses, boot file) are not modelled; whether a device or a baud rate is accepted is a parameter of the request.
- EnvStore.Environment.GetEnv: the test against the buffer size inside the loops cannot fire on a well-formed buffer and is not modelled.
- KermitSession.FileArrives: assumes, as the comment at common/cmd_load.c:864-870 does, that length and number bytes arrive intact, and that noise between packets holds neither a start character nor ETX; HeaderDamageExact states what happens otherwise.
- MtdTies.TableRoundTrip: names generated by the parser are treated as absent; the premises are partitions that pass the validation, user names without `)` and distinct ids without `:`, each of which the text format needs.
- MtdParser.GenerateMtdparts: says nothing about the partial text left behind when the table does not fit.
- MtdParser.ReadTable: running out of memory is not modelled.
- MtdOrder.RunTracks: edits of one device with fewer than 65536 partitions that never take its last one, since the count has 16 bits and a device goes with its last partition; DeviceDel states what happens then.
- MtdTable.Table.ChPart: the search for a partition by name or id text is not modelled; the partition is given.
- KermitReceiver.Downloader.HandleSendPacket: the pad characters that are sent in front of an answer are not modelled.
- FlashPlan.PlanIsInterval: addresses do not wrap, so no bank may end at the top of the address space.
- FlashTool.FlashCommands.SectRoundB: the ends of the sectors are 32-bit addresses.
- FlashPlan.LengthFormIsLeast: the parsing of the two command-line numbers is not modelled.
- FlashTool.FlashCommands.FillSectRanges: a bank has at most 32767 sectors, since the code keeps the last one in a short.
- FloppyReader.Reader.ReadData: waiting for the controller has no bound in the code and none here.
- FloppyReader.Reader.Transfer: the 7 result bytes copied on an abort are not modelled.
- OneNand.Chip.BlockWrite: offsets and lengths are whole erase blocks, and there must be enough good blocks, because the loop of the code has no other end.
- OneNand.Chip.BlockRead: the returned length counts blocks, and the out-of-band variant is not modelled.
- LogRing.LogBuffer.Printk: the echo on the console is not modelled, and a line fits the line buffer.
- Eeprom.WriteIsFlatCopy: FRAM devices, SPI and the X40430 control register are not modelled.
- PpcBranch.SteppedAsAssembled: which opcode a word is, is given; the search in the opcode table and the other operand kinds are not modelled.

Not modelled at all:

- `flash_sect_protect`, `flinfo` and the `bank` forms of the flash commands: variations of the planner's use.
- `printenv`, `getenv_r`, `editenv`, `saveenv`: output, or bounded copies of what `getenv` finds.
- `load_serial`, the ymodem path, images and decompression.
- `parse_mtdids`, `mtdparts_init` and their caching of environment strings.
- `log show` and `log info`: they only print.
- Serial, console and bus input and output, delays, cache and interrupt control, boot progress codes.
- Storage enumeration, memory, PCI, MII, IDE, FPGA, I2C, date and register commands: hardware plumbing.
