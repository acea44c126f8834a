# U-Boot command core: environment, partitions, transfers, log, memory test

Models and proofs for the parts of U-Boot's monitor commands that hold state of their own. Code that changes
memory in place is written as classes and loops over arrays; each of these is proved against functions on
plain sequences, and the laws are stated about those functions, for all inputs and all command sequences.

- **Environment** (`EnvList`, `EnvStore`, `EnvLaws`): the flat array of NUL-terminated `name=value` strings.
  Every byte-level loop of `_do_setenv`, `getenv`, `getenv_r`, `envmatch` and `API_env_enum` refines an
  operation on an ordered list of variables, which the bytes determine.
- **Kermit download** (`KermitProtocol`, `KermitReceiver`, `KermitChecks`, `KermitLaws`): the receiver as a function
  of the bytes on the line, `k_recv` with its checkpoints proved to be that function, what it refuses and
  answers, and what it delivers from a stop-and-wait sender on a bad line.
- **S-records** (`SRecord`, `SRecordLaws`, `SRecordPort`): writer, decoder and loader; what is sent is loaded back,
  and what is no record is refused.
- **MTD partition tables** (`MtdText`, `MtdParts`, `MtdRoundTrip`, `MtdLaws`, `MtdParser`, `MtdPrinter`,
  `MtdTable`): parser, printer, their round trip, what every accepted text means, and the
  offset-sorted lists with the index of the current partition.
- **Log** (`LogText`, `LogBuffer`): two formats of one ring, and the line tagger that writes over bytes
  already logged.
- **Memory test** (`MemTest`, `MemWalk`): soundness and completeness against any address wiring and any
  stuck bits.
- **OneNAND, floppy, flash, EEPROM** (`Onenand`, `Floppy`, `FlashRanges`, `Eeprom`): ranges split over
  devices with bad blocks, track sides, sectors and pages.
- **PowerPC branches** (`Branch`): assembler, disassembler and single step agree with each other and with the
  Power ISA, Book I, section 2.4.

`Bytes` and `Arith` hold what the modules share. `dafny verify dfyconfig.toml` checks everything.

## Where the code does less than its description

Each of these is stated and proved as it is in the code, with the exact condition.

- `getenv_r` does not terminate the copy when the value is as long as the buffer or longer, and writes one
  byte behind the buffer when it is one shorter (`GetEnvRSafeIff`).
- `setenv` deletes the old value before it notices an overflow, and then, and only then, leaves a stale CRC
  (`Environment.SetEnv`, `SetChangesOneName`).
- A Kermit header lost after an acknowledged packet, or a damaged repetition of it, rolls that packet back
  (`LateErrorLosesData`); the image is whole exactly when the last attempt at each packet that carries data
  arrived intact (`WholeIff`). A sender that moves on only when its latest attempt was acknowledged sees to
  that by itself, as long as the header of each packet's first attempt arrives (`StopAndWaitDelivers`).
- The parser refuses partitions below 4096 bytes and takes the size 0xFFFFFFFF for "all that remains", so a
  printed table with such sizes is not read back (`RoundTrip`).
- `generate_mtdparts` does not count its nine-byte header against the buffer length, so a table that
  it accepts, or one it gives up on, can be written up to nine bytes past the end (`Printer.Generate`); it is
  not, exactly under the condition of `ExtentInside`.
- Inserting in front of the current partition when its index is 255 wraps the index (`InsertIndex`); deleting a
  partition that stands behind the current one at the same offset moves the index to the wrong one, or out of
  range (`MtdTable.PartDel`).
- `log show` prints nothing when the ring is full (`LogBuffer.Show`), and `log reset` keeps the level of a line
  under way (`LogBuffer.Reset`).
- `API_env_enum` answers an empty environment with an empty string (`EnumerationOfNothing`), and an unknown name
  with that name, as if it had found another (`SameIff`).
- An empty S-record upload is reported as two bytes when it is loaded (`UploadLoadsBack`).
- After a OneNAND write that skipped bad blocks, the next write's offset does not lead a reader to its data
  (`SecondWriteReadable`).
- `eeprom_write` and `eeprom_read` of a range that ends at 2^32 or behind it do nothing and report success
  (`Bus.EepromWrite`, `Bus.EepromRead`).
- A single step does not follow conditional branches with a z bit set (`TakenIs`), and keeps the low bits of a
  link or count register; `StepFollowsIsa` has the exact condition for all instructions and registers.

`Shortfalls` gives concrete inputs for several of these.

## Model

| member | source | states |
|---|---|---|
| EnvList.EntryBytes | u-boot/common/cmd_nvedit.c:198-206 | each variable of the list is the C string at its place in the byte array, in order |
| EnvList.DoubleNulOnlyAtEnd | u-boot/common/cmd_nvedit.c:304-310 | a double NUL occurs in a well-formed array at its end and nowhere else, which is what the copy loop stops at |
| EnvList.FirstByte | u-boot/common/cmd_nvedit.c:323-326 | only the empty environment begins with a NUL |
| EnvList.ImageDeterminesList | u-boot/common/cmd_nvedit.c:198-206 | the bytes mean one list of variables only, whatever follows the double NUL |
| EnvStore.KeyIff | u-boot/common/cmd_nvedit.c:617-626 | `envmatch`'s character loop accepts exactly the strings whose part before '=' is the stored name, given as `name` or as `name=value` |
| EnvStore.RemoveImage | u-boot/common/cmd_nvedit.c:297-311 | deleting a variable is closing the gap its string leaves in the bytes |
| EnvStore.AppendImage | u-boot/common/cmd_nvedit.c:323-351 | appending a variable is writing its string over the second NUL |
| EnvStore.Environment.EnvMatch | u-boot/common/cmd_nvedit.c:617-626 | matches just when the key of the first argument is the name stored at the index; the result is where the value begins |
| EnvStore.Environment.FindEntry | u-boot/common/cmd_nvedit.c:548-557 | the search that `getenv`, `getenv_r` and the enumeration share stops at the string whose key is the name's, or at the end exactly when there is none |
| EnvStore.Environment.GetEnv | u-boot/common/cmd_nvedit.c:542-562 | finds a value exactly when the list has one for that name, and points at it |
| EnvStore.Environment.GetEnvR | u-boot/common/cmd_nvedit.c:564-587 | copies the value found for the name, with the loop's own bounds; -1 exactly when there is none |
| EnvLaws.GetEnvRSafeIff | u-boot/common/cmd_nvedit.c:578-584 | the copy is NUL-terminated inside `len` exactly when one byte is to spare, or exactly the byte behind the buffer already was NUL; otherwise it is cut off unterminated or the byte behind is written |
| EnvStore.Environment.Search | u-boot/common/cmd_nvedit.c:200-206 | finds the string of that name, and its NUL, exactly when the list has one |
| EnvStore.Environment.ShiftDown | u-boot/common/cmd_nvedit.c:304-310 | the copy loop, ending at the first double NUL, moves down the whole tail and nothing else |
| EnvStore.Environment.Delete | u-boot/common/cmd_nvedit.c:297-311 | in place, the list loses exactly that variable |
| EnvStore.Environment.NeededLength | u-boot/common/cmd_nvedit.c:331-335 | the length tested is that of `name=value` and two NULs |
| EnvStore.Environment.Append | u-boot/common/cmd_nvedit.c:323-351 | the variable is appended exactly when the new array fits, the exact fit included; otherwise no byte changes |
| EnvStore.Environment.SetEnv | u-boot/common/cmd_nvedit.c:176-356 | the byte array goes from one list of variables to the next as the list-level command says; a correct CRC is left stale exactly when a variable that was found overflows with its new value, and `env_id` is stepped unless the name holds '=' |
| EnvLaws.WithoutIsOthers | u-boot/common/cmd_nvedit.c:297-311 | deleting the match is keeping all variables of another name, in their order |
| EnvLaws.SetChangesOneName | u-boot/common/cmd_nvedit.c:176-356 | a command changes only what is stored under its own name: the other variables keep value and order, a stored one stands at the end, an overflow leaves the list without the name, a rejected command leaves everything |
| EnvLaws.NotRefused | u-boot/common/cmd_nvedit.c:187-341 | a command on a plain name, or on `serial#`, `ethaddr` or `baudrate` while it is not set, is carried out: it deletes without arguments, and stores exactly when the text fits |
| EnvLaws.UnchangedIff | u-boot/common/cmd_nvedit.c:187-341 | exactly which commands are refused, by name, arguments and what is stored under the name, and exactly which leave the list as it was |
| EnvLaws.SplitJoin | u-boot/common/cmd_nvedit.c:343-349 | the arguments can be read off the stored value: they stand there in order with one space between two |
| EnvLaws.StepLookup | u-boot/common/cmd_nvedit.c:297-351 | after a stored command `getenv` yields the joined arguments for that name and the old value for any other |
| EnvLaws.RunKeeps | u-boot/common/cmd_nvedit.c:176-356 | after any sequence of commands the list is well formed, names are unique, the array fits, and a `serial#` or `ethaddr` once set is unchanged |
| EnvLaws.OthersUntouched | u-boot/common/cmd_nvedit.c:176-356 | a run of commands on other names leaves a variable alone |
| EnvLaws.LastCommandWins | u-boot/common/cmd_nvedit.c:542-562 | after a run `getenv` finds what the last stored command on the name left |
| EnvStore.Environment.EnvEnum | u-boot/api/api.c:516-557 | the next string is that of the successor in the list, NULL behind the last one, and `last` itself when it is unknown |
| EnvLaws.EnumerateFrom | u-boot/api/api.c:532-553 | feeding each answer back enumerates the rest of the list in order |
| EnvLaws.EnumerationVisitsAll | u-boot/api/api.c:516-557 | from NULL every variable is visited once, in stored order |
| EnvLaws.EnumerationEnds | u-boot/api/api.c:543-549 | and after the last one the answer is NULL |
| EnvLaws.SameIff | u-boot/api/api.c:530-541 | `last` comes back exactly when no variable has its name |
| EnvLaws.EnumerationOfNothing | u-boot/api/api.c:526-528 | an empty environment is enumerated as one empty string, not as NULL |
| KermitLaws.FeedQuoted | u-boot/common/cmd_load.c:558-690 | decoding the control-quoted form of any byte string gives it back and leaves no quote pending, for every legal quote character |
| KermitLaws.QuotedPrintable | u-boot/common/cmd_load.c:915-919 | a quoted string holds no character that the receiver takes for an error |
| KermitLaws.ParseEncoded | u-boot/common/cmd_load.c:849-940 | every packet built as the protocol says, short or extended, is received as what was sent, whatever follows |
| KermitLaws.ParseStable | u-boot/common/cmd_load.c:849-940 | what a packet is does not depend on the bytes behind it |
| KermitLaws.ReplyPasses | u-boot/common/cmd_load.c:587-611 | every packet the receiver sends, with any number it echoes, passes the receiver's own check, and its length counts the characters that follow |
| KermitChecks.GoodIff | u-boot/common/cmd_load.c:849-940 | for all bytes: a packet is taken for good if and only if no control character stands in it up to its block check, the checks of header and packet are those of the bytes in front of them, and the end of line follows; it is then read as it stands |
| KermitChecks.DamagedData | u-boot/common/cmd_load.c:912-940 | under an intact header, data damaged in any way is refused under the packet's number unless the check that arrived is right for it and the end is there |
| KermitChecks.DamagedHeader | u-boot/common/cmd_load.c:905-911 | an extended header with any other check than its own is refused |
| KermitChecks.ErrorNumber | u-boot/common/cmd_load.c:849-891 | errors behind the sequence number are charged to it, errors before it to none |
| KermitChecks.JudgedAtOnce | u-boot/common/cmd_load.c:849-940 | a packet is judged at the first byte that decides it, and no byte behind that is read |
| KermitChecks.OneBitIsFound | u-boot/common/cmd_load.c:934-938 | one bit of the data turned over is always found |
| KermitChecks.DamageFits | u-boot/common/cmd_load.c:932-942 | what arrives of an attempt is outside the sender's runs only if damaged data carries a check that is right for it |
| KermitChecks.Answers | u-boot/common/cmd_load.c:587-611 | every packet draws one reply, an ACK just when it was good, which by the receiver's own rules is a good packet with the right number, behind the padding and in front of the end of line the sender asked for |
| KermitChecks.WishesAreMet | u-boot/common/cmd_load.c:698-782 | the padding, end of line and quote that a sender asks for are what is used; what its packet is too short to say keeps its default |
| KermitChecks.OfferIsDefault | u-boot/common/cmd_load.c:698-782 | what the receiver offers is what it does itself |
| KermitChecks.SessionStops | u-boot/common/cmd_load.c:836-845 | a control-C between packets ends the download with everything before it answered, silence leaves it waiting |
| KermitReceiver.Receiver.KDataChar | u-boot/common/cmd_load.c:675-690 | one more data character in memory is one step of the decoder |
| KermitReceiver.Receiver.KDataSave | u-boot/common/cmd_load.c:626-630 | the checkpoint is the present state of the download |
| KermitReceiver.Receiver.KDataRestore | u-boot/common/cmd_load.c:632-636 | the download is back at its checkpoint |
| KermitReceiver.Receiver.Chk1 | u-boot/common/cmd_load.c:568-576 | computes the type 1 block check of the Kermit Protocol Manual, section 6 |
| KermitReceiver.Receiver.SendAck | u-boot/common/cmd_load.c:587-598 | sends the padding and a well-framed ACK for the sequence number, inside `a_b` |
| KermitReceiver.Receiver.SendNack | u-boot/common/cmd_load.c:600-611 | the same for a NACK |
| KermitReceiver.Receiver.HandleSendPacket | u-boot/common/cmd_load.c:698-782 | takes over the sender's parameters and answers as many as were sent, inside `a_b` |
| KermitReceiver.Receiver.ReceiveData | u-boot/common/cmd_load.c:914-931 | the data loop feeds exactly the packet's printable data to the decoder, or stops at the first control character |
| KermitReceiver.Receiver.ReceiveHeader | u-boot/common/cmd_load.c:849-889 | length, number and type; the number alone decides between rolling back and a new checkpoint |
| KermitReceiver.Receiver.ReceivePacket | u-boot/common/cmd_load.c:849-940 | ends as the bytes on the line say: good, bad header, bad packet, or cut off |
| KermitReceiver.Receiver.Turn | u-boot/common/cmd_load.c:819-957 | one turn of the loop is one packet to the link, with its answer and its roll-back |
| KermitReceiver.Receiver.KRecv | u-boot/common/cmd_load.c:785-959 | the whole receiver does what the session over the bytes says: the image in memory, its length, and all replies, also when the line falls silent; memory below the start address and behind the longest possible image is untouched |
| KermitLaws.SessionAttempts | u-boot/common/cmd_load.c:819-957 | a line that carries attempts after attempts, noise between them, is to the receiver one packet after the other |
| KermitLaws.MoreTries | u-boot/common/cmd_load.c:864-881 | repeated attempts at one packet start from the same checkpoint each time |
| KermitLaws.GroupEffect | u-boot/common/cmd_load.c:871-881 | a packet's payload counts once if its last attempt arrived intact, otherwise not at all |
| KermitLaws.DownloadDelivers | u-boot/common/cmd_load.c:785-959 | over every run of packets with lost ACKs, repetitions and corruption, the image is the concatenation of exactly the chunks whose last attempt arrived, and its length is returned |
| KermitLaws.WholeIff | u-boot/common/cmd_load.c:864-881 | the image is the whole file exactly when every non-empty chunk's last attempt arrived intact |
| KermitLaws.LateErrorLosesData | u-boot/common/cmd_load.c:852-881 | a lost header, or a damaged repetition of the same number, after an acknowledged packet takes that packet's data back |
| KermitLaws.AckIffKept | u-boot/common/cmd_load.c:864-899 | the reply to a packet's latest attempt is an ACK exactly when that attempt arrived intact, which is when its payload is kept |
| KermitLaws.StopAndWaitDelivers | u-boot/common/cmd_load.c:785-959 | a sender that moves on only at the ACK to its latest attempt gets the whole image across, once, whatever damage the block check finds, if the header of each packet's first attempt arrives |
| SRecord.HexRoundTrip | u-boot/common/s_record.c:174-195 | bytes written as hexadecimal digits are read back |
| SRecord.PaddedIsHexText | u-boot/common/cmd_load.c:329 | printf's padded hexadecimal is the digits of the big-endian bytes |
| SRecord.LineSum | u-boot/common/cmd_load.c:355-366 | length, address, data and checksum bytes of a record sum to 0xFF modulo 256 |
| SRecord.DecodeLine | u-boot/common/s_record.c:30-170 | the decoder reads every well-formed record, of each type, as what it was written for |
| SRecordLaws.HexDigits | u-boot/common/s_record.c:174-183 | digits of either case have their value |
| SRecordLaws.NoDigit | u-boot/common/s_record.c:174-183 | nothing else is a digit |
| SRecordLaws.AfterSIs | u-boot/common/s_record.c:41-51 | a line is read from behind its first 'S' on |
| SRecordLaws.WidthIs | u-boot/common/s_record.c:62-145 | how many address bytes each record type has |
| SRecordLaws.RecordIff | u-boot/common/s_record.c:30-170 | for every line: it is a record if and only if its type is known, all the bytes it announces stand there, and they sum to 0xFF modulo 256; the errors are told apart |
| SRecordLaws.ScanIs | u-boot/common/cmd_load.c:218-256 | for every input: the first CR or LF ends the line, NUL or control-C breaks it off, unless 516 characters come first |
| SRecordLaws.RecordsLoad | u-boot/common/cmd_load.c:143-216 | any records of any types, ended by any end record, leave their data in memory in order and are reported with the lowest and highest address and the one in the end record |
| SRecordLaws.BadLineAborts | u-boot/common/cmd_load.c:158-163 | a line that is no record ends the download with memory as it was; one without an 'S' is passed over |
| SRecord.RecordsPartition | u-boot/common/cmd_load.c:350-377 | the data records share out the range in order, sixteen bytes to each but the last |
| SRecord.DataStep | u-boot/common/cmd_load.c:164-183 | loading one data record copies its bytes and extends the range reported |
| SRecord.UploadLoadsBack | u-boot/common/cmd_load.c:143-216 | loading an upload reproduces its memory at the offset, leaves the rest alone and reports first and last address and size; an empty upload is reported as two bytes |
| SRecordPort.FormatIsLine | u-boot/common/cmd_load.c:355-369 | what `save_serial` prints for a record is that record |
| SRecordPort.Port.SaveSerial | u-boot/common/cmd_load.c:332-385 | sends the start record, the data records of exactly that range of memory, and the end record |
| SRecordPort.Port.ReadRecord | u-boot/common/cmd_load.c:218-256 | the next line of the input, cut off at the buffer's end |
| SRecordPort.Port.LoadSerial | u-boot/common/cmd_load.c:143-216 | memory and the reported addresses are those of the records read, up to the end record or the first bad line |
| MtdText.MemsizeRoundTrip | u-boot/common/cmd_mtdparts.c:184-231 | `memsize_parse` undoes `memsize_format` for every 32-bit size |
| MtdParser.SimpleStrtoul | u-boot/lib_generic/vsprintf.c:39-64 | value modulo 2^32 and the end of the number, with the base taken from the prefix |
| MtdParser.ParseMemsize | u-boot/common/cmd_mtdparts.c:184-204 | number and suffix, with shifts that wrap at 32 bits |
| MtdLaws.DecimalRead | u-boot/lib_generic/vsprintf.c:39-64 | a number without prefix is decimal, each digit with the weight of its place, modulo 2^32 |
| MtdLaws.OnlyDigits | u-boot/lib_generic/vsprintf.c:56-57 | the digits are 0-9, a-f and A-F |
| MtdLaws.HexadecimalRead | u-boot/lib_generic/vsprintf.c:39-64 | behind 0x it is hexadecimal |
| MtdLaws.OctalRead | u-boot/lib_generic/vsprintf.c:39-64 | behind any other 0 it is octal |
| MtdLaws.SuffixScales | u-boot/common/cmd_mtdparts.c:184-204 | k, m and g, in either case, stand for 2^10, 2^20 and 2^30, modulo 2^32 |
| MtdLaws.FormatIs | u-boot/common/cmd_mtdparts.c:218-231 | a size is printed in the largest unit that divides it |
| MtdLaws.WholeIff | u-boot/common/cmd_mtdparts.c:303-381 | the boundary tests by remainder are those by multiples: the partition is made of whole erase blocks |
| MtdParser.FindBlock | u-boot/common/cmd_mtdparts.c:340-373 | the loop over all erase blocks of all regions finds the address exactly when a block starts there |
| MtdParser.ValidateEraseblock | u-boot/common/cmd_mtdparts.c:303-381 | accepts exactly partitions made of whole erase blocks, on uniform and on non-uniform devices |
| MtdLaws.ValidIff | u-boot/common/cmd_mtdparts.c:398-427 | a partition is accepted if and only if it is not empty, ends inside the device and is made of whole erase blocks; one that fills up ends exactly where the device ends |
| MtdParser.ValidatePart | u-boot/common/cmd_mtdparts.c:398-427 | the tests in wrapping 32-bit arithmetic |
| MtdLaws.PartGrammar | u-boot/common/cmd_mtdparts.c:584-692 | exactly which texts are a partition definition, and what each part of them says |
| MtdLaws.PartsMeaning | u-boot/common/cmd_mtdparts.c:872-925 | for every text: the loop yields exactly the partitions its definitions stand for, one without an offset going on where the one before ends and one that fills up reaching the end of the device |
| MtdLaws.OffsetNeeded | u-boot/common/cmd_mtdparts.c:1122-1138 | an offset is printed exactly where the parser would otherwise put the partition elsewhere |
| MtdLaws.InsertAllIs | u-boot/common/cmd_mtdparts.c:499-553 | the list is sorted by offset, those at one offset in the reverse of their order in the text, and refused exactly for a second one at offset 0 |
| MtdLaws.SameMembers | u-boot/common/cmd_mtdparts.c:940-949 | sorting neither loses nor invents a partition |
| MtdLaws.FindIdIs | u-boot/common/cmd_mtdparts.c:996-1017 | the first entry of exactly that name |
| MtdLaws.DeviceSound | u-boot/common/cmd_mtdparts.c:826-951 | an accepted device is the one named in front of the first colon, with sorted partitions that fit it |
| MtdLaws.ParsedSound | u-boot/common/cmd_mtdparts.c:1370-1418 | whatever text is accepted: devices are known and named once, partitions sorted, inside the device, on whole erase blocks, and of 4096 bytes at least or up to the end of the device |
| MtdRoundTrip.PartRoundTrip | u-boot/common/cmd_mtdparts.c:584-692 | a printed partition is read back with size, flag and name, an omitted offset as unspecified, if its size is at least the minimum |
| MtdRoundTrip.PartsRoundTrip | u-boot/common/cmd_mtdparts.c:872-925 | a printed list is read back with its omitted offsets recomputed exactly when every size is readable |
| MtdRoundTrip.DeviceRoundTrip | u-boot/common/cmd_mtdparts.c:826-951 | the same for a device found by its mtd-id |
| MtdRoundTrip.RoundTrip | u-boot/common/cmd_mtdparts.c:1370-1418 | parsing the printed table rebuilds exactly it if every size is at least 4096 and none but a last one is 0xFFFFFFFF; otherwise the parser refuses it |
| MtdParser.ParsePart | u-boot/common/cmd_mtdparts.c:584-692 | the pointer-walking parser reads one partition as the string-level one does |
| MtdParser.ParseParts | u-boot/common/cmd_mtdparts.c:872-925 | the partition loop, with the running offset |
| MtdParser.ParseDevice | u-boot/common/cmd_mtdparts.c:826-951 | one device with its validated and sorted partitions, or none |
| MtdParser.ParseTable | u-boot/common/cmd_mtdparts.c:1370-1418 | the table the string means, or none |
| MtdPrinter.Printer.PutParts | u-boot/common/cmd_mtdparts.c:1104-1166 | one device's partitions, refused when they are longer than what is left |
| MtdPrinter.Printer.Generate | u-boot/common/cmd_mtdparts.c:1067-1184 | prints the whole table exactly when the text behind the header fits in `buflen - 1`; a refusal leaves the header and the pieces printed so far; in both cases the bytes up to the stated extent, and none behind it, are written |
| MtdPrinter.ExtentInside | u-boot/common/cmd_mtdparts.c:1067-1184 | the writing stays inside `buflen` on success exactly when header, text and NUL fit, on refusal exactly when the header fits with its NUL and the pieces printed before the refusal end inside |
| MtdPrinter.BodyFlat | u-boot/common/cmd_mtdparts.c:1096-1166 | the pieces printed one by one make up the table's text |
| MtdTable.MtdTable.PartSortAdd | u-boot/common/cmd_mtdparts.c:499-553 | the partition goes to its place, the list stays sorted and counted; refused exactly for a second one at offset zero; the current partition stays the same but for the index's wrap |
| MtdTable.MtdTable.PartDel | u-boot/common/cmd_mtdparts.c:434-471 | the partition is gone, the list stays sorted and counted, the last one takes its device along: if that was the current one, the first device takes over, otherwise the current partition stays; the index stays in range unless the partition stood behind a current index 0 at the same offset (and fewer than 256 are left), and it names the same partition exactly when the deleted one did not stand behind it at the same offset |
| MtdTable.MtdTable.DeviceAdd | u-boot/common/cmd_mtdparts.c:799-815 | the device goes to the end of the list; the first one becomes current |
| MtdTable.MtdTable.DeviceDel | u-boot/common/cmd_mtdparts.c:747-769 | the device is gone; if it was current, the first partition of the first device is |
| MtdTable.MtdTable.IndexPartitions | u-boot/common/cmd_mtdparts.c:238-270 | `mtddevnum` is the current partition's number among all partitions, modulo 2^16 |
| MtdTable.FlatAt | u-boot/common/cmd_mtdparts.c:248-259 | that number is the partition's position when all devices' partitions are counted through |
| MtdTable.InsertKeeps | u-boot/common/cmd_mtdparts.c:522-549 | insertion before the first partition at or above the offset keeps the list sorted and without repetition |
| MtdTable.InsertAtPlace | u-boot/common/cmd_mtdparts.c:522-549 | the in-place insertion is the one the parser's tables are built with |
| MtdTable.InsertIndex | u-boot/common/cmd_mtdparts.c:537-541 | after any insertion the index names the same partition exactly when its eight bits do not wrap |
| MtdTable.DeleteIndex | u-boot/common/cmd_mtdparts.c:450-458 | after another partition is deleted the index names the same one exactly when the deleted one did not stand behind the current one at the same offset |
| LogBuffer.PushKeepsSame | u-boot/common/cmd_log.c:291-306 | one more byte keeps (start, size) and (start, end) equivalent and goes to the same slot, also when the counters wrap |
| LogBuffer.Bisimilar | u-boot/common/cmd_log.c:290-306 | so does any number of bytes |
| LogBuffer.LogBuffer.PutByte | u-boot/common/cmd_log.c:290-306 | in either format the ring then holds the last LOGBUFF_LEN bytes of everything logged, in order, and the count of logged characters is one more |
| LogBuffer.LogBuffer.Show | u-boot/common/cmd_log.c:214-225 | shows everything logged while the ring is not full, and nothing once it is |
| LogBuffer.LogBuffer.PutLine | u-boot/common/cmd_log.c:290-311 | one line goes into the ring up to and with its newline |
| LogBuffer.LogBuffer.Printk | u-boot/common/cmd_log.c:262-319 | a call appends the text with default tags inserted where lines start untagged, though the tag is written over bytes before it |
| LogText.EmitTagsLines | u-boot/common/cmd_log.c:272-317 | the log is the lines of the text, each with exactly its own tag or the default one |
| LogText.LinesEnd | u-boot/common/cmd_log.c:307-310 | a newline ends a line, and only the last line may lack one |
| LogText.TagIff | u-boot/common/cmd_log.c:275-281 | the tags are <0> to <7> |
| LogText.LevelLeft | u-boot/common/cmd_log.c:272-317 | the level a text leaves is none at the end of a line, else the digit in the tag of the line under way |
| LogText.ChunkingIff | u-boot/common/cmd_log.c:262-319 | logging a text in two calls or in one gives the same bytes and the same state exactly when the cut is not inside a level tag |
| LogText.ManyCallsIff | u-boot/common/cmd_log.c:262-319 | any number of calls log what one call with the joined text does exactly when no call's end cuts a tag |
| MemTest.Memory.IncrementDecrement | u-boot/common/cmd_mem.c:865-914 | reports as many errors as there are reads that differ, on any wiring and any stuck bits, leaves zero in every tested cell and no other cell changed |
| MemTest.MissesCount | u-boot/common/cmd_mem.c:878-914 | the number of errors is that of the offsets, in either pass, that read wrong |
| MemTest.NoErrorsIffHealthy | u-boot/common/cmd_mem.c:865-914 | that is none if and only if no two tested words share a cell and no tested bit is stuck |
| MemTest.SilentApart | u-boot/common/cmd_mem.c:878-894 | two words in one cell are noticed where the cell is first used |
| MemTest.SilentCell | u-boot/common/cmd_mem.c:878-914 | a cell that shows both patterns has no stuck bit |
| MemWalk.Walker.Check | u-boot/common/cmd_mem.c:837-849 | one sweep finds an error exactly when another tested offset reaches the cell under test |
| MemWalk.Walker.WalkingOnes | u-boot/common/cmd_mem.c:805-851 | without stuck bits the pass reports none if and only if offset 0 and all power-of-two offsets reach cells of their own; it leaves the pattern in the tested cells and no other cell changed |
| Onenand.SlotsAscend | u-boot/common/cmd_onenand.c:133-155 | a transfer uses usable blocks in rising order |
| Onenand.SlotsLeaveNoneOut | u-boot/common/cmd_onenand.c:133-155 | and leaves out none in front of where it stops |
| Onenand.SlotsSplit | u-boot/common/cmd_onenand.c:133-155 | a longer transfer uses the blocks of its first part and then those from where that stopped |
| Onenand.BlocksUsed | u-boot/common/cmd_onenand.c:85-155 | in front of where it stops, a transfer uses exactly the blocks that are not marked bad and that the driver does not fail on |
| Onenand.SameSlots | u-boot/common/cmd_onenand.c:85-110 | reading and writing use the same blocks exactly when they pass over the same ones up to the stop |
| Onenand.WriteBegins | u-boot/common/cmd_onenand.c:125-157 | a write that does not continue the last one begins at its own offset and counts only the blocks it passes over itself; one that does begins that much further on and adds to the count |
| Onenand.TwoWritesAsOne | u-boot/common/cmd_onenand.c:115-158 | writing A and then B at the next logical offset leaves chip, `next_ofs` and `skip_ofs` as one write of A+B does, for any bad blocks and write failures |
| Onenand.PiecesAsOne | u-boot/common/cmd_onenand.c:115-158 | the same for any number of pieces |
| Onenand.ReadBack | u-boot/common/cmd_onenand.c:68-158 | a write that does not continue one that passed over blocks is read back from its logical offset when reading passes over the blocks that writing did |
| Onenand.SecondWriteReadable | u-boot/common/cmd_onenand.c:125-131 | the second write's logical offset leads the reader to its blocks exactly when the first write skipped none |
| Onenand.Device.BlockWrite | u-boot/common/cmd_onenand.c:115-158 | chip and statics after a write, which ends because enough usable blocks are left |
| Onenand.Device.BlockRead | u-boot/common/cmd_onenand.c:68-113 | the buffer holds the usable blocks from the offset on, and is otherwise unchanged |
| Floppy.PlaceOfBlockOf | u-boot/common/cmd_fdc.c:305-309 | every track, head and sector is the place of its block number |
| Floppy.BlockOfPlaceOf | u-boot/common/cmd_fdc.c:305-309 | every block number has a place on the disk and is found from it |
| Floppy.SameSide | u-boot/common/cmd_fdc.c:508-512 | while the side lasts the next block is the next sector |
| Floppy.StreamIsBlocks | u-boot/common/cmd_fdc.c:516-566 | a read command that stays on its side delivers consecutive blocks |
| Floppy.Drive.Seek | u-boot/common/cmd_fdc.c:431-439 | the arm is on the track of the current block, whose number is cut to a byte |
| Floppy.Drive.ReadCommand | u-boot/common/cmd_fdc.c:516-563 | one command reads from where the arm stands; a transfer that breaks off touches only its own part of the buffer |
| Floppy.Drive.ReadSides | u-boot/common/cmd_fdc.c:514-590 | the loop over the sides, with the retry counters of the whole call |
| Floppy.Drive.ReadData | u-boot/common/cmd_fdc.c:478-594 | on success the buffer holds exactly the blocks asked for, in order; success is exactly that every command went through and at most 24 transfers broke off; no read command leaves its track side or stops short of it before the end; on failure the blocks in front of the present one have been read |
| FlashRanges.Sides | u-boot/common/cmd_flash.c:206-287 | with contiguous banks every sector of an earlier bank lies below every later one |
| FlashRanges.Tiles | u-boot/common/cmd_flash.c:206-287 | the sectors in an acceptable range cover each of its flash addresses exactly once and nothing outside it |
| FlashRanges.SectorsFill | u-boot/common/cmd_flash.c:121-127 | the sectors of a bank share out exactly its bytes, and the next contiguous bank begins behind them |
| FlashRanges.RoundingCovers | u-boot/common/cmd_flash.c:185-201 | rounding the end of "first +length" up gives an acceptable range of exactly the sectors that hold one of its addresses |
| FlashRanges.OpenEnded | u-boot/common/cmd_flash.c:253-257 | an end behind all flash is accepted and takes every sector above the start |
| FlashRanges.TotalCounts | u-boot/common/cmd_flash.c:273-273 | the sum of the ranges' lengths is the number of sectors they choose |
| FlashRanges.Flash.RoundUp | u-boot/common/cmd_flash.c:110-146 | the end of the sector the address lies in, or failure when it lies in none |
| FlashRanges.Flash.AddrSpec | u-boot/common/cmd_flash.c:165-204 | the "+length" form ends with the sector that holds its last address and fails exactly when none does; from a sector's start it selects the minimal covering set |
| FlashRanges.Flash.ScanBank | u-boot/common/cmd_flash.c:237-252 | the sector that starts at the first address and the one that ends at the last, if the bank has them |
| FlashRanges.Flash.Account | u-boot/common/cmd_flash.c:253-283 | extends a range to the end of its bank, or proves the range unacceptable |
| FlashRanges.Flash.FillSectRanges | u-boot/common/cmd_flash.c:206-287 | succeeds with a nonzero count exactly for acceptable ranges; then the ranges choose exactly the sectors inside and the count is their number |
| FlashRanges.Flash.SectProtect | u-boot/common/cmd_flash.c:646-690 | sets the protection of exactly the sectors in the range, and of none when it fails |
| Eeprom.Injective | u-boot/common/cmd_eeprom.c:144-163 | with the block number's bits apart from the device address no two offsets reach the same byte |
| Eeprom.InsidePage | u-boot/common/cmd_eeprom.c:258-273 | inside a page the device's wrapping counter walks along with the offset |
| Eeprom.BurstIsStored | u-boot/common/cmd_eeprom.c:258-273 | a write transfer that stays in its page stores its bytes where they belong |
| Eeprom.AnswerIsFetched | u-boot/common/cmd_eeprom.c:168-178 | a read transfer that stays in its 256-byte block finds them there |
| Eeprom.ReadBack | u-boot/common/cmd_eeprom.c:133-190 | reading a written range back gives the data, and every other byte on the bus is unchanged |
| Eeprom.Bus.EepromWrite | u-boot/common/cmd_eeprom.c:201-370 | without failures the range holds the data, with failures the bytes of every transfer that went through; the transfers share it out in order, none crossing a page or the transfer limit or shorter than need be; a range that wraps at 2^32 is not touched |
| Eeprom.Bus.EepromRead | u-boot/common/cmd_eeprom.c:127-190 | the same for reading, with 256-byte blocks |
| Eeprom.Bus.WriteAndRead | u-boot/common/cmd_eeprom.c:127-370 | when a write and a read of the same range both report success the buffer holds the written data and every other byte on the bus is unchanged |
| Branch.AddressRoundTrip | u-boot/common/bedbug.c:863-879 | the disassembler shows the target the assembler was given exactly when its displacement is word-aligned and in the field's range |
| Branch.TakenIs | u-boot/common/bedbug.c:1160-1214 | the switch over BO takes a branch exactly when the ISA does and the z bits are clear |
| Branch.CrBitIs | u-boot/common/bedbug.c:1166-1166 | bit BI of the condition register is counted from the left |
| Branch.AgreesIff | u-boot/common/bedbug.c:1160-1214 | the z bits clear is exactly what it takes to agree with the ISA for all register contents |
| Branch.StepFollowsIsa | u-boot/common/bedbug.c:1053-1236 | for every instruction word and all registers, a single step goes to the processor's next address, but where the ISA takes a conditional branch with a z bit set and where a register branched to has low bits set |
| Branch.AssembledBc | u-boot/common/bedbug.c:753-838 | an assembled conditional branch is shown with its target and stepped to it exactly when the ISA takes it; a call is stepped over to its return address |
| Branch.AssembledB | u-boot/common/bedbug.c:753-838 | an assembled unconditional branch is shown with its target and stepped to it; a call is stepped over to its return address |
| Branch.RegisterBranch | u-boot/common/bedbug.c:1128-1152 | a branch to the link or count register, in the ISA's encoding, is followed when the ISA takes it and no z bit is set; a call is stepped over to its return address |
| Branch.NoBranch | u-boot/common/bedbug.c:1154-1158 | under any other primary opcode the next word comes next |
| Shortfalls.OverflowDeletes | u-boot/common/cmd_nvedit.c:297-341 | one environment and one `setenv` that overflows and loses the old value |
| Shortfalls.SmallPartitionRefused | u-boot/common/cmd_mtdparts.c:604-610 | one table whose printed form is refused |
| Shortfalls.ExactFitOverruns | u-boot/common/cmd_mtdparts.c:1067-1090 | a table whose text fits exactly is written past the buffer's length |
| Shortfalls.SecondWriteShifted | u-boot/common/cmd_onenand.c:115-157 | one bad block and two writes, the second of which a reader does not find at its offset |

## Left out

- EnvStore.Environment.SetEnv: whether a console device or a baud rate is accepted are two Boolean parameters; the side effects on console, baud rate, bd_info and load address that follow a stored value are not part of the model.
- EnvStore.Environment.GetEnvR: asks for one byte behind `len` in the buffer, because the code may write there.
- KermitReceiver.Receiver.KRecv: the line is a finite sequence of bytes, and the receiver is Silent when it ends; memory must have room for the bytes that come in, which the code does not check.
- KermitLaws.StopAndWaitDelivers: the header of a packet's first attempt arrives; one that does not counts, as for the receiver, as a late attempt at the packet before, and LateErrorLosesData says what it does.
- KermitLaws.DownloadDelivers: damaged data whose block check happens to be right for it (KermitChecks.DamageFits), and a sequence number turned into another legal one, are outside the sender's runs, as the code assumes.
- KermitReceiver.Receiver.SendAck: a NUL as the sender's end-of-line character ends the packet string and is not sent, as in the code.
- MtdRoundTrip.RoundTrip: the table's offsets rise strictly, ids are distinct without ':', names are non-empty without ')'; a generated name is an absent name; the MTD layer's geometry is a parameter of the id.
- MtdTable.MtdTable.PartSortAdd: a device has fewer than 65535 partitions, so that `num_parts` does not wrap.
- MtdTable.MtdTable.PartDel: Valid() does not always hold afterwards, because the code can leave the index out of range; the contract says exactly when.
- LogBuffer.LogBuffer.Printk: the text has at most 1020 characters, which is what the static buffer holds; the echo to the console and the `con` counter are not part of the model.
- MemTest.Memory.IncrementDecrement: the region has fewer than 2^32 - 1 words, so that the pattern does not repeat; the error count is unbounded.
- Onenand.ReadBack: what a failed write leaves in its block is taken to be what was there; a block that cannot be written but can be read breaks the agreement the lemma asks for.
- Onenand.Device.BlockWrite: asks for enough usable blocks; the code would look for them beyond the chip without end. Out-of-band reads are left out.
- Onenand.Device.BlockRead: asks for enough readable blocks, for the same reason.
- Floppy.Drive.ReadData: track numbers fit in the command's byte, and at most 256 heads and 255 sectors; the polling loop for one byte is taken to end in data or in a transfer error, which the code does not guarantee.
- FlashRanges.Flash.FillSectRanges: known banks lie one behind the other in rising order, and an unknown bank has no sectors.
- SRecordPort.Port.LoadSerial: addresses in flash are not told apart from memory; a data record whose length field leaves a negative count ends the model's run as Runaway.
- SRecordPort.Port.SaveSerial: the range does not wrap at 2^32; an interrupt from the console is left out.
- Eeprom.Bus.EepromWrite: plain I2C without FRAM, SPI or the X40430 control register; a transfer that fails stores nothing.
- Branch.StepFollowsIsa: the opcode table is taken to recognise the branch opcodes and nothing else as such; the bits of an instruction's fields are added where the code ors them into zero bits.
- Ymodem, binary loading without Kermit, `saveenv`, `printenv`, `askenv`, `editenv`: no further state, or protocol code that is not in these files.
- `mtdparts_init` with its caching of environment variables, mtdids parsing, the name variable `mtddevname`, and memory allocation.
- The sector specification `bank:first-last`, `flash_erase` and hardware protection: parsing of numbers and driver calls.
- The data line test of `mtest`, and the quick test without CONFIG_SYS_ALT_MEMTEST: fixed patterns and endless repetition.
- Operands of bedbug other than addresses, and its text output.
- Device enumeration of the API, boot dispatch, network, PCI, MII, IDE and register dumps: wrappers around drivers.
