# Boot-loader command verification

Dafny models, with proofs, of the parts of a U-Boot tree (`uboot-imx_fastboot`) whose correctness is a statement about
whole runs rather than single calls. `dafny verify dfyconfig.toml` checks everything.

| file | what it models |
|---|---|
| `KermitCoding`, `KermitSession`, `KermitFrame`, `KermitReceiver`, `KermitLine` | the Kermit receiver of `loadb`: control quoting, the checkpoint and restore protocol over retried packets, frame reading and replies, the receiver's code, and whole transmissions from bytes on the line to the file in memory |
| `SRecord` | Motorola S-record download and upload (`loads`, `saves`) |
| `FlashPlan`, `FlashCommands` | from an address interval to flash sectors, and the erase and protect commands on them |
| `MemTest` | the two RAM tests as decision procedures for wiring and stuck-bit faults |
| `FloppyRead` | track-bounded floppy reads under two nested retry budgets |
| `LogBuffer` | the log ring in its two header layouts, and the line-prefix rewriter in front of it |
| `EfiMemMap` | sorting (the library shell sort) and in-place compaction of the EFI memory map |
| `Eeprom` | page-bounded EEPROM transfers on a device whose address counter wraps inside a page |
| `StorageEnum` | the device enumeration state machine behind `API_dev_enum`, with its client loop |
| `FdtValue` | printing and parsing of device-tree property values |
| `ArmFlash` | the end-around-carry checksum of ARM flash footers |
| `Numbers` | hexadecimal digits and the number parser `simple_strtoul` |
| `Bytes`, `Arithmetic`, `Sequences` | shared definitions and facts |

Code that changes state is modelled by methods and classes with the same loops and branches, each proved against a
specification function; what the source promises is then proved of that function. Words are unbounded integers with the
source's 32- or 64-bit wrap-around written out. Device behaviour that cannot be seen from the code (transfer errors, bus
refusals, stuck bits, address wiring, driver results) is a parameter, and the theorems hold for all its values.

## Where the code does less than it promises

For each of these the model states exactly when the promise is kept, and for most a lemma gives a concrete input for which
it is not.

- The Kermit receiver takes the sequence byte of a frame at its word, before the check is known
  (`uboot-imx_fastboot/cmd/load.c:852-858` says that it is assumed to be received correctly). It acknowledges a data packet
  and later loses it if the next packet's first attempt arrives with a control character in its length or sequence byte
  (`LostHeaderLosesData`) or is refused under the previous packet's number (`WrongNumberLosesData`). It stores data twice if
  an accepted attempt is repeated and the repetition is refused under another number (`WrongNumberDoublesData`). When every
  packet carries whole encodings and nothing is doubled, memory holds the file up to the final address if and only if
  nothing is lost; when nothing is lost, if and only if nothing is doubled (`FileKeptExactly`, `TransferExact`). Both at once
  can cancel out (`LossAndDoublingMayCancel`), and between the halves of a quoted pair a loss can go unnoticed
  (`SplitPairMaySurvive`).
- The sector planner reports success for an interval that runs past the last sector and then plans a part of it only
  (`PlanPartial`; exact condition `PlanExact`).
- An empty S-record range reports a file size of 2 (`SaveLoadRoundTrip`).
- `eeprom_rw` returns the status of its last transfer only (`LostTransferReportedAsSuccess`): whatever the bus refuses, a
  zero result means that every transfer was done exactly for calls of at most one transfer (`StatusExact`). It also returns
  zero, without any transfer, when the end of the request wraps past 2^32. A zero result means that all bytes of the request
  were moved exactly if it is empty or lies inside the 32-bit offsets, one page and the bus limit (`RequestExact`). Its page
  arithmetic is right exactly for pages of at most 256 bytes (`PagesKeptExactly`).
- Device enumeration passes over the first configured group when there is a network device, the rest of a group behind an
  inactive device, and the group after it (`NetworkHidesDisk`; exact condition `CompleteExactly`).
- `h_cmp_entry` orders two addresses correctly exactly if they are less than half the address space apart (`HCmpExact`),
  and a map of two descriptors farther apart comes out unsorted (`FarApartUnsorted`).
- `fdc_read_data` returns with interrupts disabled for exactly the drives described by `LosesInterrupts` (`ReadData`): the
  first seek that fails after a read command fails with an error status. `CleanTransfersLose` says it for drives without
  transfer errors, `SecondTrackLosesInterrupts` gives a request of two blocks.
- A device-tree value printed as strings and given back as these strings comes back as it was if and only if it ended with
  a NUL and does not begin with an opening bracket (`StringsRoundTrip`). A line feed at its end comes back with a NUL more;
  the string `<a` is refused (`BracketRefused`).

Where a comment and the code disagree the model follows the code. The comment at
`uboot-imx_fastboot/api/api_storage.c:226-232` says that a group reached with a cookie of another group yields its first
available device; the code looks for that cookie in the group, does not find it and yields nothing. The comment at
`uboot-imx_fastboot/cmd/fdt.c:873-877` lists byte, word and double-word formats; the code prints cells when the length is a
multiple of four and bytes otherwise.

## Model

| member | source | states |
|---|---|---|
| `KermitCoding.EncodeByteDecodes` | uboot-imx_fastboot/cmd/load.c:663-678 | for every legal quote and every byte, the state machine undoes the sender's encoding of that byte and is not left inside an escape |
| `KermitCoding.DataCharsExtend` | uboot-imx_fastboot/cmd/load.c:663-678 | data characters only ever append to what was written |
| `KermitCoding.QuotingRoundTrip` | uboot-imx_fastboot/cmd/load.c:546-678 | for every byte string and legal quote character, feeding the control-quoted text writes exactly the string and ends unescaped |
| `KermitCoding.CutRoundTrip` | uboot-imx_fastboot/cmd/load.c:643-678 | the round trip survives cutting the encoding into packets anywhere, even inside a quoted pair |
| `KermitCoding.LegalQuoteExactly` | uboot-imx_fastboot/cmd/load.c:546-554 | among printable characters, the quotes 33-62 and 96-126 are exactly those for which every file survives quoting |
| `KermitCoding.IllegalQuoteBreaks` | uboot-imx_fastboot/cmd/load.c:546-554 | a quote from 63 to 95 cannot even transmit itself |
| `KermitCoding.EncodePrintable` | uboot-imx_fastboot/cmd/load.c:904-911 | encoded text has no control character, which the receiver would refuse |
| `KermitSession.CharsHolds` | uboot-imx_fastboot/cmd/load.c:602-678 | data characters extend what memory holds by their streaming decode and leave the checkpoint and everything below the start address alone |
| `KermitSession.StepHolds` | uboot-imx_fastboot/cmd/load.c:859-868 | for every frame outcome, where memory, the data state and the checkpoint stand afterwards |
| `KermitSession.AnyRunHolds` | uboot-imx_fastboot/cmd/load.c:773-947 | safety over every sequence of attempts without any assumption: from the start address on memory holds one stream without gaps, the checkpoint is a prefix of it, and nothing below the start address changed |
| `KermitSession.TriesLeave` | uboot-imx_fastboot/cmd/load.c:859-947 | over any number of attempts of one packet, refused under any number or repeated, all stand on one point, which only a repetition refused under another number moves |
| `KermitSession.DeliveryLeaves` | uboot-imx_fastboot/cmd/load.c:773-947 | a delivered packet's data is added once, behind whatever was doubled, on top of the previous state or, if its first header was lost or read as the previous number, of the previous checkpoint |
| `KermitSession.RunHolds` | uboot-imx_fastboot/cmd/load.c:773-947 | invariant over every sequence of attempts, whatever their numbers and headers, with one quote character in force: memory from the start address is the decode of the data on record, and nothing below it changed |
| `KermitSession.DeliveriesLeave` | uboot-imx_fastboot/cmd/load.c:838-947 | over every run of deliveries the data on record, and that behind the checkpoint, are the kept data as specified packet by packet |
| `KermitSession.KeptIsTotalExactly` | uboot-imx_fastboot/cmd/load.c:838-868 | the data kept is all data that was sent, and as long: without doubling, if and only if no packet after a data packet had its first attempt refused on its header or under the previous number; without such a loss, if and only if nothing was doubled |
| `KermitSession.FileKeptExactly` | uboot-imx_fastboot/cmd/load.c:773-947 | when packets carry whole encodings, memory always has the kept pieces; it has the whole file up to `os_data_addr`, without doubling, if and only if no header was lost right after data, and without such a loss, if and only if nothing was doubled |
| `KermitSession.PlainEncodes` | uboot-imx_fastboot/cmd/load.c:663-678 | with whole encodings, what is kept and what was sent are the encodings of the same parts of the file |
| `KermitSession.DownloadSafe` | uboot-imx_fastboot/cmd/load.c:773-947 | with neither loss nor doubling, memory up to `os_data_addr` is the decode of the accepted data packets in order, once each, whatever was refused or repeated |
| `KermitSession.FileArrives` | uboot-imx_fastboot/cmd/load.c:510-535 | with neither loss nor doubling, a file sent with any legal quote and any packet boundaries is what memory holds, and the size is its length |
| `KermitSession.LostHeaderLosesData` | uboot-imx_fastboot/cmd/load.c:838-850 | concrete run in which a control character in the length byte costs an acknowledged data packet |
| `KermitSession.WrongNumberLosesData` | uboot-imx_fastboot/cmd/load.c:859-868 | concrete run in which a packet refused under the previous number costs an acknowledged data packet |
| `KermitSession.WrongNumberDoublesData` | uboot-imx_fastboot/cmd/load.c:859-868 | concrete run in which a repetition refused under another number stores a data packet twice |
| `KermitSession.LossAndDoublingMayCancel` | uboot-imx_fastboot/cmd/load.c:859-868 | concrete run with both, in which the file is in memory all the same, so that neither condition can be dropped from the exact statements |
| `KermitSession.SplitPairMaySurvive` | uboot-imx_fastboot/cmd/load.c:663-678 | concrete run in which a lost quote character leaves the file intact, so that the exact condition needs whole encodings |
| `KermitSession.RunQuote` | uboot-imx_fastboot/cmd/load.c:686-770 | only accepted S packets change the quote character in force |
| `KermitFrame.FrameHeard` | uboot-imx_fastboot/cmd/load.c:831-934 | a normal packet with any byte in place of its check and anything behind it is taken if the check is right and the terminator follows, waits if nothing follows, and is refused otherwise, wherever it sits on the line |
| `KermitFrame.FrameTaken` | uboot-imx_fastboot/cmd/load.c:831-928 | a normal packet with printable data is taken whatever surrounds it on the line, and reading resumes right behind it |
| `KermitFrame.LongFrameTaken` | uboot-imx_fastboot/cmd/load.c:876-928 | the same for long packets with their extra header check |
| `KermitFrame.CheckSeesOneBit` | uboot-imx_fastboot/cmd/load.c:556-564 | the block check changes whenever the byte sum changes by a power of two up to 128 |
| `KermitFrame.ReplyTaken` | uboot-imx_fastboot/cmd/load.c:566-770 | for every terminator the sender asked for, every ack, nack and parameter ack is taken by the receiver's own reader, with the intended number, type and data, exactly if the byte behind its check is the one the reader expects |
| `KermitFrame.ReplyWellFormed` | uboot-imx_fastboot/cmd/load.c:574-599 | for any terminator the sender asked for, LEN counts the bytes up to the check, the check byte is right, and the 24-byte buffer suffices |
| `KermitFrame.AckFieldPrintable` | uboot-imx_fastboot/cmd/load.c:700-765 | for every number of S-packet parameters the answer has at most 13 data characters, none of them a control character |
| `KermitFrame.ParseAdvances` | uboot-imx_fastboot/cmd/load.c:831-928 | a frame that is read consumes input and never reads past it |
| `KermitFrame.ReadNumbers` | uboot-imx_fastboot/cmd/load.c:844-850 | sequence numbers heard on any line fit the reply's one-character field |
| `KermitReceiver.Receiver.constructor` | uboot-imx_fastboot/cmd/load.c:602-649 | the receiver's globals before a download |
| `KermitReceiver.Receiver.KDataChar` | uboot-imx_fastboot/cmd/load.c:663-678 | one data character acts on the globals as it does on the session |
| `KermitReceiver.Receiver.KDataSave` | uboot-imx_fastboot/cmd/load.c:614-655 | the checkpoint is the current data state |
| `KermitReceiver.Receiver.KDataRestore` | uboot-imx_fastboot/cmd/load.c:620-661 | the data state is the checkpoint again, memory is not touched |
| `KermitReceiver.Receiver.Chk1` | uboot-imx_fastboot/cmd/load.c:556-564 | the loop up to the NUL computes the block check of the bytes before it |
| `KermitReceiver.Receiver.S1SendPacket` | uboot-imx_fastboot/cmd/load.c:537-572 | exactly the padding and the buffer up to its NUL are sent |
| `KermitReceiver.Receiver.FinishReply` | uboot-imx_fastboot/cmd/load.c:575-599 | whatever reply stands in the buffer is sent sealed with its check byte and terminator, within the buffer |
| `KermitReceiver.Receiver.HandleSendPacket` | uboot-imx_fastboot/cmd/load.c:686-770 | the parameters in force are those the S packet gave, with defaults for the rest, and the answer has one entry for each |
| `KermitReceiver.Receiver.StoreParm` | uboot-imx_fastboot/cmd/load.c:913-918 | the parameter buffer never overflows and keeps the first bytes of any S packet |
| `KermitReceiver.Receiver.NewSequence` | uboot-imx_fastboot/cmd/load.c:859-868 | a repeated number goes back to the checkpoint, a new one takes one |
| `KermitReceiver.Receiver.ReadField` | uboot-imx_fastboot/cmd/load.c:901-928 | verdict, position and globals agree with the frame as specified, at every way a field can end |
| `KermitReceiver.Receiver.ReadLong` | uboot-imx_fastboot/cmd/load.c:876-900 | the same for the extended header |
| `KermitReceiver.Receiver.GetPacket` | uboot-imx_fastboot/cmd/load.c:831-928 | reading one frame leaves the globals where the specified attempt leaves the session just before its answer |
| `KermitReceiver.Receiver.Answer` | uboot-imx_fastboot/cmd/load.c:929-945 | after restore and nack, or ack, the globals are the session after the attempt and the reply is the specified one |
| `KermitReceiver.Receiver.MainLoop` | uboot-imx_fastboot/cmd/load.c:807-945 | for every input the loop runs the attempts it contains, in order, and answers each |
| `KermitReceiver.Receiver.Init` | uboot-imx_fastboot/cmd/load.c:773-798 | the settings before the loop are the start of a session, whatever the globals were |
| `KermitReceiver.Receiver.KRecv` | uboot-imx_fastboot/cmd/load.c:773-947 | whatever arrives, the globals end as the session run of the attempts heard, every attempt is answered, and the size is how far the address moved |
| `KermitLine.LineRead` | uboot-imx_fastboot/cmd/load.c:826-947 | from a line with frames, damaged frames and noise the receiver hears exactly their attempts, in order, and stops at the break packet |
| `KermitLine.WholeFrame` | uboot-imx_fastboot/cmd/load.c:831-928 | a normal or long frame that arrives whole is heard as an accepted packet in every surrounding |
| `KermitLine.DamagedFrame` | uboot-imx_fastboot/cmd/load.c:920-935 | a normal or long frame whose check byte does not match is heard as a refusal that had passed its data on, in every surrounding |
| `KermitLine.FlippedBitRefused` | uboot-imx_fastboot/cmd/load.c:831-935 | one flipped bit in any byte behind the start character of a normal or long frame, length, number, type, data, check or terminator: the frame is heard as one attempt that is not taken, under the number in its sequence byte, and nothing of it is left to be taken for a frame |
| `KermitLine.ParseIn` | uboot-imx_fastboot/cmd/load.c:831-928 | what a frame is heard as does not depend on what surrounds it on the line |
| `KermitLine.NeverWaits` | uboot-imx_fastboot/cmd/load.c:831-928 | a control character ends every frame, whatever its length bytes say |
| `KermitLine.TakenMeans` | uboot-imx_fastboot/cmd/load.c:920-935 | a frame is taken only with the right check byte and the terminator where its header puts them |
| `KermitLine.TransferArrives` | uboot-imx_fastboot/cmd/load.c:510-535 | end to end: if what is heard are deliveries with neither loss nor doubling that carry the encoding of a file, the file is in memory and the size is its length |
| `KermitLine.TransferExact` | uboot-imx_fastboot/cmd/load.c:510-535 | end to end, with whole encodings: the file is in memory, without doubling, if and only if no header was lost right after data, and without such a loss, if and only if nothing was doubled |
| `SRecord.RecordSum` | uboot-imx_fastboot/cmd/load.c:337-352 | the bytes of every S3 record sum to 0xFF modulo 256 |
| `SRecord.RecordDecodes` | uboot-imx_fastboot/common/s_record.c:14-154 | the decoder reads every written S3 record back: type, address, count and bytes |
| `SRecord.SaveSerial` | uboot-imx_fastboot/cmd/load.c:314-367 | the collecting loop writes the S3 lines of the range, sixteen bytes each but the last, between start and end record |
| `SRecord.LoadSerial` | uboot-imx_fastboot/cmd/load.c:129-199 | the download loop does what the specification of all line sequences says, to memory or flash, abort and end included |
| `SRecord.ReadLine` | uboot-imx_fastboot/cmd/load.c:201-236 | a line of printable characters below the maximum length is read whole and the rest is left |
| `SRecord.LoadRecords` | uboot-imx_fastboot/cmd/load.c:129-199 | loading the lines of a range, shifted by any offset, copies exactly that range and tracks its bounds |
| `SRecord.SaveLoadRoundTrip` | uboot-imx_fastboot/cmd/load.c:129-367 | what `save_serial` writes, `load_serial` puts back byte for byte at the shifted address and nowhere else; the reported size is the count as a 32-bit word, but 2 for an empty range |
| `SRecord.RefusalAborts` | uboot-imx_fastboot/cmd/load.c:154-163 | a record that the flash driver refuses ends the download |
| `SRecord.PutExact` | uboot-imx_fastboot/cmd/load.c:154-176 | loaded bytes are where they belong and every other address is as before |
| `FlashPlan.OneSector` | uboot-imx_fastboot/cmd/flash.c:193-273 | with disjoint banks every address belongs to at most one sector |
| `FlashPlan.PlanInvariant` | uboot-imx_fastboot/cmd/flash.c:193-273 | after any number of banks, without an error, what is planned tiles the interval up to the next address |
| `FlashPlan.PlanExact` | uboot-imx_fastboot/cmd/flash.c:193-273 | for banks in any order, a successful plan tiles [first, last] with no gap or excess if and only if the last address ends a sector, and the count is the number of sectors |
| `FlashPlan.PlanPartial` | uboot-imx_fastboot/cmd/flash.c:193-273 | concrete interval past the end of the flash that is planned in part and reported as success |
| `FlashPlan.PlanComplete` | uboot-imx_fastboot/cmd/flash.c:193-273 | with banks in address order planning reaches the last address exactly for intervals that are unions of whole sectors |
| `FlashPlan.PlanSucceeds` | uboot-imx_fastboot/cmd/flash.c:193-273 | for such intervals no bank raises an error, and planning stops only where a later bank has a sector start |
| `FlashPlan.TilesEnd` | uboot-imx_fastboot/cmd/flash.c:193-273 | a tiled interval ends where a sector ends |
| `FlashPlan.FindSector` | uboot-imx_fastboot/cmd/flash.c:219-226 | consecutive sectors leave no gap: every address between them is in one |
| `FlashCommands.ScanBank` | uboot-imx_fastboot/cmd/flash.c:219-240 | the sector loop finds the sector that begins at the one address and the sector that ends at the other, or neither |
| `FlashCommands.Fill` | uboot-imx_fastboot/cmd/flash.c:193-273 | the two nested loops compute the specified plan, and the error code says whether there is one |
| `FlashCommands.SectRoundb` | uboot-imx_fastboot/cmd/flash.c:96-132 | the address becomes the end of the one sector that holds it, and failure means no sector does |
| `FlashCommands.AddrSpec` | uboot-imx_fastboot/cmd/flash.c:152-190 | "start end" is taken as it is, "start +length" ends at the end of the sector that holds the last byte; failure if and only if an argument is no number or that byte is not in flash |
| `FlashCommands.SectProtect` | uboot-imx_fastboot/cmd/flash.c:619-666 | success sets the flag of exactly the planned sectors and reports their number; failure changes no flag |
| `FlashCommands.SectErase` | uboot-imx_fastboot/cmd/flash.c:402-438 | the driver is called for the planned ranges in order until one fails; success means all were called |
| `FlashCommands.CallsSelect` | uboot-imx_fastboot/cmd/flash.c:415-429 | the driver calls of a plan name exactly the sectors it selects |
| `FlashCommands.CallsCount` | uboot-imx_fastboot/cmd/flash.c:415-429 | the sectors named by the driver calls of a plan are as many as it selects |
| `FlashCommands.LeastCover` | uboot-imx_fastboot/cmd/flash.c:96-190 | a plan that tiles up to the end of the sector holding the last byte selects a sector if and only if the request touches it |
| `FlashCommands.ProtectSpan` | uboot-imx_fastboot/cmd/flash.c:605-613 | for a start and a length that do not wrap, success sets the flag of exactly the sectors touched, leaves every other one alone and reports the number planned; whatever the arguments, failure changes nothing |
| `FlashCommands.EraseSpan` | uboot-imx_fastboot/cmd/flash.c:386-395 | success means every driver call returned zero and their sectors are counted; for a start and a length that do not wrap the calls name exactly the sectors touched |
| `MemTest.ComplementFindsStuck` | uboot-imx_fastboot/cmd/mem.c:849-910 | a cell that gives back a pattern and its complement has no stuck bit |
| `MemTest.PatternsFindAliasing` | uboot-imx_fastboot/cmd/mem.c:866-891 | if every offset reads back its own pattern no two share a cell, whatever bits are stuck |
| `MemTest.PassesDecide` | uboot-imx_fastboot/cmd/mem.c:849-910 | the two checking passes find everything in order if and only if the wiring is one-to-one and no bit is stuck |
| `MemTest.FillPass` | uboot-imx_fastboot/cmd/mem.c:866-869 | after the pass every cell holds the pattern of the last offset wired to it |
| `MemTest.CheckPass` | uboot-imx_fastboot/cmd/mem.c:874-891 | the pass counts no error exactly if every pattern was found and leaves the inverted patterns behind |
| `MemTest.ZeroPass` | uboot-imx_fastboot/cmd/mem.c:894-908 | the same for the inverted patterns, leaving zeros |
| `MemTest.ShiftPattern` | uboot-imx_fastboot/cmd/mem.c:734-770 | the walking pattern ends, counts at most one error per written value, and none on sound cells with separate scratch cell |
| `MemTest.DataLines` | uboot-imx_fastboot/cmd/mem.c:715-771 | no error means that offset 0 keeps a value while the scratch cell gets its complement |
| `MemTest.AddressLines` | uboot-imx_fastboot/cmd/mem.c:773-847 | the walking-ones test raises no false alarm on healthy memory and its count stays small |
| `MemTest.MemTestAlt` | uboot-imx_fastboot/cmd/mem.c:689-911 | for every wiring and every set of stuck bits, the result is zero if and only if offsets 0..num_words have separate cells, none with a stuck bit, and the scratch cell is not that of offset 0 |
| `MemTest.QuickDecides` | uboot-imx_fastboot/cmd/mem.c:944-966 | the quick test finds every value if and only if the wiring is one-to-one and each cell keeps the value given to it |
| `MemTest.WriteQuick` | uboot-imx_fastboot/cmd/mem.c:944-950 | after the writing pass every cell holds the value of the last offset wired to it, counting up or down |
| `MemTest.ReadQuick` | uboot-imx_fastboot/cmd/mem.c:952-966 | the reading pass counts no error exactly if every offset reads back its own value |
| `MemTest.MemTestQuick` | uboot-imx_fastboot/cmd/mem.c:913-970 | the result is zero if and only if the wiring is one-to-one and every cell keeps the value given to it; with sound cells, if and only if the wiring is one-to-one |
| `FloppyRead.RegistersExact` | uboot-imx_fastboot/cmd/fdc.c:249-269 | the track, head and sector registers of a read command address the block they were computed from, for every block of the disk |
| `FloppyRead.SpanIsProduct` | uboot-imx_fastboot/cmd/fdc.c:445 | the byte count of a chunk is its number of sectors times the sector size |
| `FloppyRead.EndOfTrack` | uboot-imx_fastboot/cmd/fdc.c:437-508 | a chunk that does not finish the request ends at the end of a track |
| `FloppyRead.AdvanceLoaded` | uboot-imx_fastboot/cmd/fdc.c:498-508 | after a complete chunk the buffer holds the blocks so far, and either all are there or the next chunk starts a track |
| `FloppyRead.AdvanceCounted` | uboot-imx_fastboot/cmd/fdc.c:498-508 | a complete chunk keeps the account of commands, errors and both retry counters |
| `FloppyRead.BrokenOk` | uboot-imx_fastboot/cmd/fdc.c:461-489 | a broken transfer overwrites only what is not loaded yet and moves the two retry counters as the error total says |
| `FloppyRead.TransferBytes` | uboot-imx_fastboot/cmd/fdc.c:453-494 | the data phase stores the sectors of the addressed track, as far as the transfer gets, and nothing else |
| `FloppyRead.CompleteTurn` | uboot-imx_fastboot/cmd/fdc.c:495-522 | after a complete chunk: everything is loaded and the call succeeds, or the next chunk is due with a seek before it |
| `FloppyRead.BrokenTurn` | uboot-imx_fastboot/cmd/fdc.c:461-490 | after a broken one: retry, recalibrate or give up as the counters say, with what is loaded untouched |
| `FloppyRead.ReadTurn` | uboot-imx_fastboot/cmd/fdc.c:443-522 | one command decides between going on, retrying, recalibrating and giving up, and the retry measure falls |
| `FloppyRead.StopKeeps` | uboot-imx_fastboot/cmd/fdc.c:447-482 | no exit of a read command leaves interrupts disabled |
| `FloppyRead.SeekDecides` | uboot-imx_fastboot/cmd/fdc.c:509-521 | a seek that fails after a read command costs interrupts if and only if it fails with an error status |
| `FloppyRead.ReadLoop` | uboot-imx_fastboot/cmd/fdc.c:443-522 | for every pattern of transfer errors the loop ends; success means all blocks are in the buffer in order |
| `FloppyRead.ReadData` | uboot-imx_fastboot/cmd/fdc.c:406-527 | success exactly if at most 24 transfers break before all chunks are in, the 25th error ends the call, every command stays on one head's track, nothing beyond the request is written, the motor stops, and interrupts are restored for all drives but exactly those for which the first failing later seek ends with a status |
| `FloppyRead.CleanTransfersLose` | uboot-imx_fastboot/cmd/fdc.c:509-521 | without transfer errors, interrupts are lost if and only if the first seek after the initial one that does not succeed ends with a status before the last chunk |
| `FloppyRead.SecondTrackLosesInterrupts` | uboot-imx_fastboot/cmd/fdc.c:517-521 | concrete request of two blocks on two tracks that returns with interrupts disabled |
| `LogBuffer.EmitLine` | uboot-imx_fastboot/cmd/log.c:283-302 | within a line the text goes to the ring as it is |
| `LogBuffer.EmitLevelled` | uboot-imx_fastboot/cmd/log.c:265-311 | every line start in what one call sends carries a level prefix |
| `LogBuffer.EmitKeepsLevel` | uboot-imx_fastboot/cmd/log.c:265-280 | a level prefix already in the text is never broken up |
| `LogBuffer.StreamLevelled` | uboot-imx_fastboot/cmd/log.c:254-311 | across any calls from boot on, every line in the stream carries a level |
| `LogBuffer.MaskAfterWrap` | uboot-imx_fastboot/include/logbuff.h:13-14 | masking a wrapped counter gives the slot of the unwrapped one |
| `LogBuffer.DifferenceAfterWrap` | uboot-imx_fastboot/cmd/log.c:286-288 | counter differences survive the wrap |
| `LogBuffer.EndPosition` | uboot-imx_fastboot/cmd/log.c:284-292 | both layouts put the next character into the same slot |
| `LogBuffer.Log.Reset` | uboot-imx_fastboot/cmd/log.c:103-125 | after a reset the ring is empty in either layout |
| `LogBuffer.Log.StoreChar` | uboot-imx_fastboot/cmd/log.c:284-292 | a character displaces at most the oldest one |
| `LogBuffer.Log.Put` | uboot-imx_fastboot/cmd/log.c:283-298 | a stored character extends the history by exactly itself, whatever the counters |
| `LogBuffer.Log.ShowBounds` | uboot-imx_fastboot/cmd/log.c:200-209 | both layouts give the position and the number of the characters still in the ring |
| `LogBuffer.Log.Show` | uboot-imx_fastboot/cmd/log.c:200-214 | `log show` gives the last min(total, LOGBUFF_LEN) characters in order, after any history |
| `LogBuffer.Log.LogLine` | uboot-imx_fastboot/cmd/log.c:283-304 | the inner loop logs up to and including the next line feed |
| `LogBuffer.Log.StartLine` | uboot-imx_fastboot/cmd/log.c:265-281 | the header is written in front of the text and never over a character still to be logged |
| `LogBuffer.Log.PrintLine` | uboot-imx_fastboot/cmd/log.c:264-308 | one line is logged with its header and the text behind it waits unharmed |
| `LogBuffer.Log.PrintK` | uboot-imx_fastboot/cmd/log.c:254-311 | the history grows by the text with a default prefix at exactly the line starts that lack one, and an unfinished line is remembered |
| `LogBuffer.LayoutsAgree` | uboot-imx_fastboot/cmd/log.c:103-125 | two logs with the same history, one in each layout, are related by end = start + size |
| `LogBuffer.ShowAfter` | uboot-imx_fastboot/cmd/log.c:182-311 | boot, any calls, then show: the end of the prefixed stream appears, in either layout and however often counters wrap |
| `EfiMemMap.HCmpExact` | uboot-imx_fastboot/cmd/efi.c:56-67 | the signed 64-bit comparison is right if and only if the addresses are less than half the address space apart |
| `EfiMemMap.FarApartUnsorted` | uboot-imx_fastboot/cmd/efi.c:56-83 | two descriptors come out of the sort in address order if and only if they are less than half the address space apart |
| `EfiMemMap.LinkingDown` | uboot-imx_fastboot/lib/qsort.c:41-57 | moving an element down keeps its neighbours in the order of the comparison, whether that is right or wrong |
| `EfiMemMap.Insert` | uboot-imx_fastboot/lib/qsort.c:38-58 | moving an element down permutes, and with gap 1 extends the part that is sorted, and the part that is in the order of the comparison |
| `EfiMemMap.Pass` | uboot-imx_fastboot/lib/qsort.c:36-61 | a pass permutes for every gap, and with gap 1 sorts |
| `EfiMemMap.Qsort` | uboot-imx_fastboot/lib/qsort.c:22-66 | the gap sequence ends with 1, the result is a permutation with all neighbours in the order of the comparison, and sorted whenever the comparison can be trusted |
| `EfiMemMap.AppendStep` | uboot-imx_fastboot/cmd/efi.c:84-114 | a descriptor that starts a new entry keeps the meaning of the table |
| `EfiMemMap.MergeStep` | uboot-imx_fastboot/cmd/efi.c:105-106 | adding pages to the last entry keeps the meaning of the table, without overflow |
| `EfiMemMap.CompactRepresents` | uboot-imx_fastboot/cmd/efi.c:84-114 | in whatever order the map is, the table assigns each address the type the map gives it, boot-services types read as conventional; pages are conserved, and no two neighbouring conventional entries abut |
| `EfiMemMap.CompactSorted` | uboot-imx_fastboot/cmd/efi.c:84-114 | a sorted map gives a sorted table |
| `EfiMemMap.CompactAll` | uboot-imx_fastboot/cmd/efi.c:95-96 | without merging the table is the sorted map itself |
| `Sequences.TotalPermutes` | uboot-imx_fastboot/cmd/efi.c:82-83 | reordering does not change a sum, such as the number of pages or the sum of the words |
| `EfiMemMap.CompactOne` | uboot-imx_fastboot/cmd/efi.c:84-114 | one turn of the in-place loop: the write index never overtakes the read index, unread descriptors stay as they were |
| `EfiMemMap.BuildMemTable` | uboot-imx_fastboot/cmd/efi.c:69-120 | the finished table, against the map in its original order: same types with boot services as conventional, same number of pages, merged; sorted when all addresses are within half the address space; without `skip_bs` always a permutation in the order of the comparison |
| `Eeprom.PagesKeptExactly` | uboot-imx_fastboot/cmd/eeprom.c:107-128 | no transfer crosses a write page, wherever it starts, if and only if a page has at most 2^8 bytes |
| `Eeprom.TransfersTile` | uboot-imx_fastboot/cmd/eeprom.c:158-181 | the transfers of a call are non-empty, at most 128 bytes, each inside one page, and follow each other from offset to end |
| `Eeprom.WriteLinear` | uboot-imx_fastboot/cmd/eeprom.c:85-156 | on a device whose counter wraps inside a page, a transfer inside a page is a linear copy |
| `Eeprom.ReadLinear` | uboot-imx_fastboot/cmd/eeprom.c:85-156 | the same for reading |
| `Eeprom.WrittenLinear` | uboot-imx_fastboot/cmd/eeprom.c:158-181 | a whole call without refused transfers is the linear copy |
| `Eeprom.FilledLinear` | uboot-imx_fastboot/cmd/eeprom.c:158-181 | a whole read without refused transfers fetches the linear range |
| `Eeprom.RoundTripExact` | uboot-imx_fastboot/cmd/eeprom.c:85-105 | writing and reading back returns every buffer if and only if no two addresses of the range share a bus address and register |
| `Eeprom.BesideDevice` | uboot-imx_fastboot/cmd/eeprom.c:102 | block numbers that share no bit with the device address give separate cells |
| `Eeprom.StoreFrame` | uboot-imx_fastboot/cmd/eeprom.c:193-209 | cells of no address in the range keep their contents |
| `Eeprom.WriteThenRead` | uboot-imx_fastboot/cmd/eeprom.c:183-209 | a write call followed by a read call of the same range returns the written bytes and changes no other cell |
| `Eeprom.StatusExact` | uboot-imx_fastboot/cmd/eeprom.c:166-180 | for all patterns of refusals a zero result means that every transfer was done, if and only if the call makes at most one transfer |
| `Eeprom.OneTransfer` | uboot-imx_fastboot/cmd/eeprom.c:107-181 | a call makes at most one transfer if and only if it is empty, wraps past 2^32, or stays inside one page and 128 bytes |
| `Eeprom.RequestExact` | uboot-imx_fastboot/cmd/eeprom.c:107-181 | for all patterns of refusals a zero result means that all bytes of the request were moved, if and only if it is empty or stays below 2^32, inside one page and 128 bytes |
| `Eeprom.LostTransferReportedAsSuccess` | uboot-imx_fastboot/cmd/eeprom.c:166-180 | concrete call that loses its first 128 bytes and returns zero |
| `Eeprom.PerformedLinear` | uboot-imx_fastboot/cmd/eeprom.c:158-181 | from the state after a call: without refused transfers it returned zero and did the linear copy |
| `Eeprom.Bus.RwBlock` | uboot-imx_fastboot/cmd/eeprom.c:130-156 | one bus transfer moves its part of the buffer, or nothing if refused |
| `Eeprom.Bus.Rw` | uboot-imx_fastboot/cmd/eeprom.c:158-181 | for every page size and every pattern of refusals the call performs its transfers in order and reports the last; an end that wraps past 2^32 moves nothing and reports success |
| `Eeprom.Bus.Read` | uboot-imx_fastboot/cmd/eeprom.c:183-191 | performs the call, and without refusals, with pages of at most 256 bytes, fetches the linear range and leaves the device alone |
| `Eeprom.Bus.Write` | uboot-imx_fastboot/cmd/eeprom.c:193-209 | performs the call, and without refusals, with pages of at most 256 bytes, stores the buffer linearly and leaves it alone |
| `StorageEnum.ScanOn` | uboot-imx_fastboot/api/api_storage.c:173-284 | from untouched groups, entered with NULL or a foreign cookie, the machine stops at the first device of the specified list or runs out when it is empty |
| `StorageEnum.StepFrom` | uboot-imx_fastboot/api/api_storage.c:173-284 | after any returned device, the next scan stops at the next device of the list or runs out |
| `StorageEnum.EnumStarts` | uboot-imx_fastboot/api/api.c:197-227 | from a NULL cookie a call starts the list, whatever the flags were |
| `StorageEnum.EnumContinues` | uboot-imx_fastboot/api/api.c:197-227 | every further call moves one device down the list; the caller need only pass the cookie on |
| `StorageEnum.CompleteExactly` | uboot-imx_fastboot/api/api_storage.c:96-284 | the list is all active devices in group-then-index order if and only if nothing active is passed over |
| `StorageEnum.CompleteWhenAllActive` | uboot-imx_fastboot/api/api_storage.c:96-284 | with no network device and every present slot active, each storage device is seen exactly once, for any slot gaps and configured groups |
| `StorageEnum.NoRepeat` | uboot-imx_fastboot/api/api_storage.c:96-284 | no storage device is ever reported twice |
| `StorageEnum.NetworkHidesDisk` | uboot-imx_fastboot/api/api.c:214-224 | concrete set of devices in which an active network device hides the only disk |
| `StorageEnum.Api.FindLast` | uboot-imx_fastboot/api/api_storage.c:106-115 | the first loop ends behind the device last returned, or behind the last slot |
| `StorageEnum.Api.FindNext` | uboot-imx_fastboot/api/api_storage.c:117-124 | the second loop ends at the next occupied slot and leaves it in the cookie |
| `StorageEnum.Api.DevStorGet` | uboot-imx_fastboot/api/api_storage.c:96-147 | the device behind the cookie with its type and size, whether it is active and whether the group goes on |
| `StorageEnum.Api.DevStorType` | uboot-imx_fastboot/api/api_storage.c:152-162 | the first group that has the device, or none |
| `StorageEnum.Api.DevEnumStor` | uboot-imx_fastboot/api/api_storage.c:173-261 | one visit of a group changes flags and cookie as the machine specifies |
| `StorageEnum.Api.DevEnumReset` | uboot-imx_fastboot/api/api_storage.c:263-271 | all enumeration flags are cleared |
| `StorageEnum.Api.DevEnumStorage` | uboot-imx_fastboot/api/api_storage.c:273-284 | groups are visited in order up to the first device found |
| `StorageEnum.Api.DevEnum` | uboot-imx_fastboot/api/api.c:197-227 | one API call is one step of the machine |
| `StorageEnum.Api.UbDevEnum` | uboot-imx_fastboot/examples/api/glue.c:178-205 | the client's table is the list the devices determine, or as much of it as fits |
| `FdtValue.ScanHex` | uboot-imx_fastboot/lib/strto.c:17-45 | the number scanner reads back every zero-padded hexadecimal number |
| `FdtValue.WordBack` | uboot-imx_fastboot/cmd/fdt.c:772-774 | storing a cell big-endian undoes reading it |
| `FdtValue.InOneArgument` | uboot-imx_fastboot/cmd/fdt.c:766-769 | when a text is cut at spaces, a run without a space lies in one argument |
| `FdtValue.CellsRead` | uboot-imx_fastboot/cmd/fdt.c:758-790 | from any point of a printed cell list, however it is cut, the parser returns the remaining bytes |
| `FdtValue.StreamRead` | uboot-imx_fastboot/cmd/fdt.c:791-811 | the same for a printed byte stream |
| `FdtValue.RoundTrip` | uboot-imx_fastboot/cmd/fdt.c:746-926 | every value printed as cells or bytes, given back whole or cut at any of its spaces into arguments, parses to the same bytes |
| `FdtValue.PiecesBack` | uboot-imx_fastboot/cmd/fdt.c:890-899 | the strings of a value, each with its NUL, are the value |
| `FdtValue.StringsRoundTrip` | uboot-imx_fastboot/cmd/fdt.c:746-827 | a value printed as strings, given back as these strings, parses to the same bytes if and only if it ended with a NUL and does not begin with `<` or `[`; without such a bracket always to the value with the NUL of its last string |
| `FdtValue.StreamShort` | uboot-imx_fastboot/cmd/fdt.c:791-811 | a byte stream that parses is shorter than the text it is read from |
| `FdtValue.CellsShort` | uboot-imx_fastboot/cmd/fdt.c:758-790 | cells that parse without two NULs in a row take at least five characters for four bytes |
| `FdtValue.BracketRefused` | uboot-imx_fastboot/cmd/fdt.c:758-790 | concrete string that is printed as it is and refused when it is given back |
| `FdtValue.IsPrintableString` | uboot-imx_fastboot/cmd/fdt.c:835-870 | the loop accepts exactly text without two NULs in a row that ends with a NUL, or with a line feed when the byte behind the value is NUL |
| `FdtValue.PrintStrings` | uboot-imx_fastboot/cmd/fdt.c:889-901 | the loop prints each string of the value once, in order |
| `Numbers.SimpleStrtoul` | uboot-imx_fastboot/lib/strto.c:17-45 | value and end position of a number, base taken from the prefix when it is 0, modulo 2^32 |
| `FdtValue.PrintCells` | uboot-imx_fastboot/cmd/fdt.c:909-913 | the loop prints the cells with single spaces between them |
| `FdtValue.PrintBytes` | uboot-imx_fastboot/cmd/fdt.c:921-924 | the loop prints the bytes with single spaces between them |
| `FdtValue.PrintData` | uboot-imx_fastboot/cmd/fdt.c:878-927 | nothing for no data, strings for what looks like strings, only the address beyond 64 bytes, else cells or bytes by length |
| `FdtValue.ParseCells` | uboot-imx_fastboot/cmd/fdt.c:758-790 | the cell loop over the arguments, with both ways to fail |
| `FdtValue.ParseStream` | uboot-imx_fastboot/cmd/fdt.c:791-811 | the byte loop over the arguments, with both ways to fail |
| `FdtValue.ParseStrings` | uboot-imx_fastboot/cmd/fdt.c:812-825 | arguments that begin with no bracket are copied one after the other, each with its NUL |
| `FdtValue.ParseProp` | uboot-imx_fastboot/cmd/fdt.c:746-827 | the value a command line denotes, in all three notations |
| `ArmFlash.AddOne` | uboot-imx_fastboot/cmd/armflash.c:48-55 | adding with end-around carry in 32 bits keeps the unique residue modulo 2^32 - 1 that is zero for zero only |
| `ArmFlash.OrderFree` | uboot-imx_fastboot/cmd/armflash.c:38-57 | the checksum does not depend on the order of the words |
| `ArmFlash.ZeroExactly` | uboot-imx_fastboot/cmd/armflash.c:137-142 | the result is zero if and only if the words are not all zero and add up to a multiple of 2^32 - 1 |
| `ArmFlash.ComplementExactly` | uboot-imx_fastboot/cmd/armflash.c:137-142 | wherever it sits, the word that makes the result zero is the checksum of the others, or the other zero when that is zero |
| `ArmFlash.OneWordSeen` | uboot-imx_fastboot/cmd/armflash.c:137-142 | changing one word changes the checksum, except between the two zeros beside a non-zero word |
| `ArmFlash.AddWord` | uboot-imx_fastboot/cmd/armflash.c:48-55 | the two wrapping additions of the loop body give the representative, modulo 2^32 - 1, of the exact sum |
| `ArmFlash.ComputeCrc` | uboot-imx_fastboot/cmd/armflash.c:38-57 | the loop computes that checksum for every memory and start address, and refuses lengths that are no multiple of four with a zero |

## Left out

- `GUI_sources`: the flashing tool's user interface, subprocess calls and file rewriting.
- The other commands, drivers and board code of the tree, which are not part of this model.
- Ymodem and xmodem downloads; baud rate switching, echo, ^C inside a packet, the watchdog, delays and cache flushes.
- KermitReceiver.Receiver.KRecv: says nothing of memory when the input ends inside a packet, because the C code then waits in `getc` and does not return; the 32-bit wrap of the load address is not modelled.
- KermitSession.RunHolds: asks that the quote character in force was the same for all data packets; `AnyRunHolds` does not.
- KermitSession.FileKeptExactly: attempts that were taken are taken to be the packet that was sent, since they passed the check; it asks for packets with whole encodings; for packets that split quoted pairs `FileArrives` gives one direction and `SplitPairMaySurvive` shows that the other fails.
- SRecord.LoadSerial: a record whose byte count comes out negative ends the model with a result of its own, since the code then copies an unbounded amount; a flash write that succeeds is taken to store its bytes.
- SRecord.SaveLoadRoundTrip: ranges and shifted ranges that wrap the 32-bit address space are excluded, and so is a flash driver that refuses bytes (`RefusalAborts`).
- FlashCommands.SectProtect: hardware protection and its driver results are left out; an unidentified bank is taken to have no sectors.
- FlashCommands.AddrSpec: both arguments are present; the bank:sector notation of the commands is left out.
- FlashCommands.ProtectSpan: banks that reach the very top of the address space are excluded, and nothing is said of the sectors when a length wraps.
- FlashCommands.EraseSpan: banks that reach the very top of the address space are excluded, and nothing is said of the sectors when a length wraps.
- MemTest.MemTestAlt: interruption by ^C, the watchdog and the outer repetition of `mtest` are left out.
- FloppyRead.ReadData: hardware polling, time-outs inside a transfer and the result bytes are left out; what each command does is given.
- LogBuffer.Log.PrintK: texts of more than 1020 characters, which run over the working buffer at `uboot-imx_fastboot/cmd/log.c:261`, are excluded; the copy to the console and the initialisation from a buffer left by an earlier boot are left out.
- LogBuffer.ShowAfter: calls with texts of more than 1020 characters are excluded for the same reason.
- EfiMemMap.BuildMemTable: descriptors are taken to have the size of the structure, and memory allocation succeeds.
- Eeprom.Bus.Rw: FRAM and SPI devices, write delays and the write-enable hook are left out, and a refused transfer is taken to move nothing.
- StorageEnum.Api.DevEnum: opening, reading and closing devices, and device sets that change during an enumeration, are left out.
- FdtValue.PrintData: quotes and commas around printed strings are not modelled as characters.
- FdtValue.ParseProp: the size of the scratch area is not modelled, and reading past the argument list ends the model with a result of its own.
- ArmFlash.ComputeCrc: footer and image parsing are left out, and lengths from 2^31 on, where the signed counter of the loop overflows, are excluded.
