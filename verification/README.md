# A verified model of the Type 2 Tag reader/writer

The library reads and writes NDEF messages on NFC Forum Type 2 Tags (T2TOP 1.1). A tag is 4-byte blocks in sectors
of 1024 bytes; its data area is a stream of TLV blocks with lock and reserved bytes lying in between, and the reader
talks to it over a transport that may fail at any moment, lose an answer, or leave the tag back in sector 0.

This project models that reader as a Dafny class driving a tag class, and proves what its comments claim: that a retry
lands in the intended sector, that cached reads are fresh ones, that the skip-filtered data area and the writer's
address lookup are inverse to each other, that lock and reserved bytes are never modified, that the NDEF TLV of an
interrupted write is not torn, and that a written message is read back. Where a claim is not true of the code in
general, a tag that breaks it is given and the condition under which it is true is proved.

`dafny verify dfyconfig.toml` checks the whole project (Dafny 4.11).

## How the model is built

- `TagModel.dfy`: the tag and the transport. Each transmission takes one outcome from a schedule (delivered, refused,
  lost), so every behaviour of the environment is some schedule. A ghost log records every transmission with the
  sector it reached and the memory afterwards; statements about "every cut" and "every run" speak about this log.
  Assumed of the environment, and of nothing else: a block WRITE is atomic; an ACK to WRITE means the block was
  written; an answer of 16 bytes to READ holds the tag's bytes, and unspecified ones for blocks past the end of a sector;
  silence after SECTOR SELECT packet 2 means the sector was selected; READ and WRITE that are carried out or answered,
  with a NACK or a short answer included, leave the active sector alone; a frame other than packet 2 ends the tag's wait
  for packet 2. After a transport error the command may or may not have been applied and the tag may or may not have
  gone back to sector 0.
- `Retries.dfy`: what a sector selection and a transmission with retries come to, as functions of the schedule.
- `Reader.dfy`, `ReaderSupport.dfy`: `T2TReader` with its tracked sector, 16-byte cache and retries, and its
  procedures. Its invariant `Coupled` ties it to the tag.
- `Memory.dfy`, `UsableBytes.dfy`: Capability Container, areas, layouts; `Rank`, `Select`, `Gather`, `Scatter`.
- `TlvLength.dfy`, `Tlv.dfy`, `TlvParser.dfy`, `TlvScanner.dfy`: the TLV codec and the Terminator scanner.
- `NdefProcedures.dfy`: what detection, reading and the checks of writing compute from a memory.
- `PageWrites.dfy`, `CrashSafety.dfy`, `RoundTrip.dfy`, `RoundTripExact.dfy`, `CutReads.dfy`, `WriteGuarantees.dfy`: the
  states a write passes through, what is true of them, and what a read returns from them.
- `FormattedTag.dfy`, `FormattedExact.dfy`, `FormattedCuts.dfy`: tags as they are formatted in practice, where all
  conditions of the round trip are met and every write keeps them met, and exactly when writing to them is crash safe.
- `RoundTripTags.dfy`, `StaticCuts.dfy`: exactly when all tags that hold the same leading TLVs give back all messages of
  a length, and when no cut of a write to static ones presents another message.
- `Witnesses.dfy`: concrete tags that show where the guarantees end.

Integers are unbounded; u8/u16/u32 ranges are subset types, and wrapping (`wrapping_sub`), truncating casts and
saturating additions are written out. The byte totals inside `sector_count` are summed without the u32 bound, which a
layout described by a tag cannot reach. Buffers are unbounded, as in the `alloc` build.

## What the proofs found

- The offset that write_ndef sums up over the parsed TLVs is the position of the NDEF TLV if and only if every TLV
  before it is of a known kind with the shortest length field (`TlvParser.OffsetExact`); the parser skips unknown TLVs
  silently and accepts longer length fields, and then the offset is too small (`TlvParser.UnknownTlvMisplacesOffset`).
- "L is initially 0 for crash safety" holds for the NDEF TLV in the stream written through if the payload goes to it and
  its length field lies in one block; in the stream read with, too, if both layouts agree up to the payload's end
  (`WriteGuarantees.StateIsSafe`). On all tags formatted with the same leading TLVs, no message of a length is ever torn
  if and only if it is below 255 bytes or the number of bytes in front of the NDEF TLV is 0 or 3 modulo 4
  (`FormattedExact.CrashSafetyExact`); otherwise a formatted tag is given on which a half-written length declares a
  message that is neither old, empty nor new.
- A static tag is read without areas and written with them, so the claim can fail there with the payload in its place: if
  an area covers the length byte, a cut presents bytes of the payload under the old length (`Witnesses.LengthInArea`).
  On all static tags with the same leading TLVs and no area up to the NDEF TLV's tag, every cut presents the old, an
  empty or the new message or an error if and only if no area meets header or value, or the areas leave nothing of the
  data area behind the tag (`StaticCuts.StaticCutsExact`).
- What a read returns from a cut-off write is another matter. While the length is zero, the bytes behind it are parsed
  as TLVs, message bytes among them. If no area they describe meets the header, the tag reads as empty when they parse
  and cannot be read otherwise (`CutReads.ZeroLengthPresents`, `Witnesses.CutDoesNotParse`). On a dynamic tag the
  message can describe an area over its own header; the second pass then skips the header and returns a message that
  was never written (`Witnesses.CutPresentsAnotherMessage`). For messages of five bytes and more, on tags with any
  leading TLVs in front of their areas, all cuts present the old, an empty or the new message or an error if and only if
  the tags are static (`FormattedCuts.CutsExact`). Shorter messages are open.
- write_ndef reads a static tag without areas and writes it with them. Behind a canonical prefix the payload goes to the
  NDEF TLV if and only if no described area meets the bytes up to its tag (`RoundTrip.StaticPositionExact`; for all tags
  `RoundTrip.PositionExact`). On a static tag that reserves its own first byte, the write goes one byte too far, reports
  success, and another message is read back (`Witnesses.WriteMissesTlv`, `Witnesses.MissedWriteReadsWrong`).
- The first pass of a read goes straight through lock and reserved areas. All tags that hold the same leading TLVs give
  back all messages of a length if and only if no area meets the bytes up to the payload's end
  (`RoundTripTags.TagsRoundTripExact`): on static tags always, on dynamic ones with no area in the header of the NDEF TLV.
  For a single tag this holds once its areas hold control tags where an uninterrupted value would end
  (`RoundTripExact.RoundTripExact`). The write itself is right wherever the NDEF TLV was found
  (`RoundTrip.SameLayoutRoundTrip`); `Witnesses.AreaInsideValue` and `Witnesses.LengthInArea` are tags that do not give
  back the message.
- On a tag formatted with canonical TLVs and its areas behind them the round trip holds for every message that has room,
  over any sequence of writes (`FormattedTag.RepeatedWrites`).
- A NACK to READ is shorter than 16 bytes and therefore always reported as an invalid length; the branch of `read` that
  would report its code is never taken (`Reader.T2TReader.Read`, `TagModel.ParseAnswer`).
- The documentation of the length format names 0x00FF to 0xFFFE as the range of three-byte fields; the parser accepts
  every three-byte value, and the model follows the parser.

## Model

| member | source | states |
|---|---|---|
| TlvLength.LengthExact | src/tlv.rs:34-51 | a length is read exactly where its field is complete; the field is one byte below 0xFF or 0xFF and the length in two bytes |
| TlvLength.EncodeLength | src/tlv.rs:66-77 | appends the shortest field; refuses exactly the lengths above 0xFFFE, writing nothing |
| TlvLength.LengthRoundTrip | src/tlv.rs:34-77 | an encoded length is parsed back, both formats, whatever surrounds it |
| TlvLength.DeclaredLength | src/tlv.rs:34-51 | a field of either format, shortest or not, is read wherever it stands |
| TlvLength.LengthFieldDeclares | src/tlv.rs:66-77 | the printed field is the shortest of those that declare the length |
| Basics.ShiftLeftMultiplies | src/type2/tlv.rs:73-76 | a descriptor's address counts pages of two to the exponent bytes |
| Basics.PageSizes | src/type2/tlv.rs:73-86 | the exponents 1 to 15 stand for 2 to 32768 bytes |
| Tlv.LockControlValue.FromBytes | src/type2/tlv.rs:89-115 | every accepted Lock Control value is in range and describes an area inside the address space |
| Tlv.MemoryControlValue.FromBytes | src/type2/tlv.rs:159-179 | the same for Memory Control |
| Tlv.LockDescriptor | src/type2/tlv.rs:73-115 | which three bytes are accepted, all fields from the bytes, and the lock bytes they describe: start, number, limit of the address space |
| Tlv.MemoryDescriptor | src/type2/tlv.rs:153-179 | the same for the reserved bytes of Memory Control, whose upper nibble is ignored |
| Tlv.LockDescriptorAt160 | src/type2/tlv.rs:73-115 | A0 0C 34 describes two lock bytes at address 160 |
| Tlv.LockControlRoundTrip | src/type2/tlv.rs:89-130 | print-then-parse is the identity on exactly the well-formed lock descriptors, size 256 included |
| Tlv.MemoryControlRoundTrip | src/type2/tlv.rs:159-194 | the same for Memory Control |
| Tlv.LockControlPrintsBack | src/type2/tlv.rs:89-130 | parse-then-print returns the three bytes |
| Tlv.MemoryControlPrintsBack | src/type2/tlv.rs:159-194 | parse-then-print returns the bytes up to the ignored upper nibble |
| Tlv.Print | src/type2/tlv.rs:354-390 | the buffer-filling printer gives a block's canonical encoding; well-formed blocks always print, an oversized value emits nothing |
| Tlv.OversizedRefused | src/type2/tlv.rs:354-390 | printing fails, as out of range, for exactly the values longer than 0xFFFE bytes |
| TlvParser.NextBlock | src/type2/tlv.rs:253-326 | one turn of the parser's loop reads the block at an offset, with its errors |
| TlvParser.ParseTlvs | src/type2/tlv.rs:250-330 | the offset loop computes the parse of the stream: up to a Terminator, or the first error |
| TlvParser.OneByteBlocks | src/type2/tlv.rs:257-264 | 00 and FE are blocks of one byte: Null and Terminator |
| TlvParser.ValueBlock | src/type2/tlv.rs:293-325 | 03 and FD with a complete field and value are NDEF Message and Proprietary, other tags are stepped over and list nothing, control TLVs not of three bytes are errors |
| TlvParser.ControlBlock | src/type2/tlv.rs:265-292 | 01 and 02 with three bytes list what those bytes describe, or fail with them |
| TlvParser.BlockComplete | src/type2/tlv.rs:253-326 | every other block that parses is a tag, a field and exactly the declared bytes, all of them present |
| TlvParser.FirstNdefExact | src/type2/reader.rs:413-423 | the message found is that of the first NDEF Message TLV, empty where there is none |
| TlvParser.BlockIsLocal | src/type2/tlv.rs:253-326 | a block depends on no byte behind it |
| TlvParser.StreamRoundTrip | src/type2/tlv.rs:250-390 | parsing the concatenated encodings of well-formed TLVs, Terminator at most last, returns the list |
| TlvParser.ComputeOffset | src/type2/reader.rs:461-489 | the loop over parsed TLVs sums the shortest encodings up to the first NDEF TLV, none behind a Terminator |
| TlvParser.OffsetExact | src/type2/reader.rs:461-489 | the summed offset never exceeds the true position and equals it exactly on canonical prefixes of known TLVs |
| TlvParser.UnknownTlvMisplacesOffset | src/type2/tlv.rs:317-325 | an unknown TLV in front makes the offset wrong: a concrete stream |
| TlvParser.PrefixParses | src/type2/tlv.rs:250-330 | what precedes the NDEF TLV parses the same whatever replaces the rest |
| TlvScanner.Scanner.constructor | src/type2/reader.rs:667-672 | scanning starts at a tag |
| TlvScanner.Scanner.Feed | src/type2/reader.rs:676-713 | one byte moves the scanner as the state machine says and fires only on a Terminator tag |
| TlvScanner.FirstFireIsLocal | src/type2/reader.rs:676-713 | firing is decided by the bytes up to the firing position |
| TlvScanner.ScanBlock | src/type2/reader.rs:676-713 | from a tag the scanner goes exactly to the tag behind that block's value, or never fires |
| TlvScanner.ScannerAgrees | src/type2/reader.rs:643-714 | stopping where the scanner fires gives the same parse as the whole stream, errors included |
| TlvScanner.ScannerFindsTerminator | src/type2/reader.rs:643-714 | a stream that parses lists a Terminator iff the scanner fires, and was parsed exactly up to there |
| TlvScanner.TerminatorComesLast | src/type2/tlv.rs:261-264 | nothing is listed behind a Terminator |
| Memory.BuildLayout | src/type2/memory.rs:148-186 | the loop collects the areas of all control TLVs in order, and the default lock area only on a dynamic tag without Lock Control |
| Memory.SkippedExactly | src/type2/memory.rs:148-193 | an address is skipped iff a control TLV describes it or, on a dynamic tag without Lock Control, it is one of the default lock bytes from 16 + 8 * size on |
| Memory.SectorCountExact | src/type2/memory.rs:195-210 | the least number of sectors for header, data area and all areas, at most 255 |
| Memory.LockBitBytes | src/type2/memory.rs:80-86 | a lock bit stands for two to the exponent bytes |
| Memory.DescribedAreas | src/type2/memory.rs:64-126 | an accepted descriptor's area contains exactly its bytes; its end is never clamped |
| Memory.DefaultDynamicLockArea | src/type2/memory.rs:271-283 | starts right behind the data area, one lock bit per eight bytes beyond 48 |
| Memory.AddressToSectorBlock | src/type2/memory.rs:218-227 | defined exactly below sector 0xFF; sector, block and offset compose to the address |
| Memory.AddressRoundTrip | src/type2/memory.rs:218-237 | the two address conversions are inverse |
| UsableBytes.UsableOffsetToAddress | src/type2/memory.rs:252-267 | the walk returns the usable address with exactly n usable ones below it, none iff there are too few |
| UsableBytes.NthExists | src/type2/memory.rs:243-251 | where more than n usable bytes lie below an address, one of them has exactly n usable ones below it |
| UsableBytes.SelectOfRank | src/type2/memory.rs:243-247 | every usable address is the one selected by its rank |
| UsableBytes.SelectIncreasing | src/type2/memory.rs:252-267 | selected addresses strictly increase |
| UsableBytes.StreamIsSelected | src/type2/memory.rs:243-247 | selecting is the inverse of filtering: byte i of the data stream is the memory at the i-th usable address |
| UsableBytes.SkippedBytes | src/type2/memory.rs:189-210 | overlapping or outlying areas never skip more addresses than they have bytes |
| UsableBytes.SectorBound | src/type2/memory.rs:195-210 | an address reached before the data area is complete lies in a sector below sector_count, never 0xFF |
| UsableBytes.SpliceLaw | src/type2/reader.rs:570-641 | scattering data to the usable addresses from rank k is splicing it into the stream at k |
| NdefProcedures.ParsedControls | src/type2/tlv.rs:265-292 | parsed control TLVs are well-formed and took at least five bytes each |
| NdefProcedures.LookupBound | src/type2/memory.rs:248-267 | in a layout described by a tag every u16 offset has an address, at most 16 + n + all area bytes |
| NdefProcedures.DescribedAreaReadable | src/type2/reader.rs:305-307 | reading the data area of such a layout cannot run out of address space |
| NdefProcedures.PlanFits | src/type2/reader.rs:491-528 | after the capacity check the whole payload has usable addresses inside the data area |
| NdefProcedures.UnreadableRefused | src/type2/cc.rs:88-113 | a tag whose block 3 has another magic number or version, or no read access, is refused for reading and writing with the error of the first condition that fails |
| NdefProcedures.ReadableRead | src/type2/reader.rs:404-424 | every other tag presents the first NDEF message of its data area, or fails only because TLVs do not parse |
| NdefProcedures.ReadOnlyRefused | src/type2/reader.rs:440-442 | a readable tag is refused as read-only iff the low nibble of byte 15 is not zero, whatever its data area holds |
| NdefProcedures.PlannedIsWritable | src/type2/reader.rs:435-442 | a write is only planned if block 3 is E1, version 1, any size, 00 |
| NdefProcedures.RefusalsExact | src/type2/reader.rs:444-506 | on a writable tag: invalid iff unreadable or without NDEF TLV, out of range iff the length cannot be declared or tag, field, message and Terminator do not fit |
| TagModel.CommandRoundTrip | src/type2/mod.rs:155-180 | READ, WRITE and packet 1 frames are understood as the command sent |
| TagModel.FrameBytes | src/type2/mod.rs:155-180 | the bytes of the four frames |
| TagModel.ParseAnswer | src/type2/mod.rs:182-213 | READ succeeds on exactly 16 bytes or more and takes the first 16; WRITE and packet 1 are acknowledged on exactly an ACK nibble, packet 2 on exactly silence; a NACK carries its nibble |
| TagModel.Tag.Transceive | src/type2/mod.rs:97-105 | the step contract of a transmission: what each outcome may do to memory, sector and answer |
| TagModel.Tag.TransceiveNoResponse | src/type2/mod.rs:107-112 | packet 2: silence means the sector is selected |
| Retries.SelectionExact | src/type2/reader.rs:235-268 | a sector selection succeeds iff packet 1 is acknowledged and packet 2 is met with silence |
| Retries.ExchangeExact | src/type2/reader.rs:140-168 | packet by packet: the first transmission that is not lost decides; an error means that all of retries + 1 were lost or a re-selection failed, and is that of the last packet |
| Retries.ExchangeSucceeds | src/type2/reader.rs:140-168 | an exchange succeeds iff a transmission within the retries is reached and not lost |
| Retries.LossesRecovered | src/type2/reader.rs:140-168 | as many losses as there are retries are made good if the selections in between go through |
| Reader.T2TReader.constructor | src/type2/reader.rs:67-75 | a fresh reader on a tag in sector 0 is coupled to it and retries once |
| Reader.T2TReader.SetMaxRetries | src/type2/reader.rs:82-84 | sets the number of retries and nothing else |
| Reader.T2TReader.ForceSectorSelect | src/type2/reader.rs:235-268 | success makes the sector known and active; any failure leaves it unknown with an empty cache and reports the packet that failed; coupling kept |
| Reader.T2TReader.SectorSelect | src/type2/reader.rs:216-225 | sector 0xFF is refused without traffic; a known sector costs none |
| Reader.T2TReader.Retry | src/type2/reader.rs:149-156 | a retry re-selects first, so the transmission reaches the tag in the intended sector; it concludes the call or counts as one more loss |
| Reader.T2TReader.TransceiveWithRetry | src/type2/reader.rs:140-168 | the answer is that of the exchange with max_retries retries, or none from unknown, in `Retries`; every READ/WRITE sent reaches the sector active at the call; success keeps the sector, failure ends unknown with an empty cache |
| Reader.T2TReader.SendWithRetry | src/type2/reader.rs:144-167 | its loop, about the call it belongs to: counts the transmissions and follows the exchange loss by loss |
| Reader.T2TReader.Read | src/type2/reader.rs:175-192 | what is returned, cached or not, is what a fresh READ would return; a NACK or short answer is an invalid length; coupling kept through any faults |
| Reader.T2TReader.Write | src/type2/reader.rs:199-208 | at every step the memory is the old one or the old one with that block written in the active sector; success means written; a NACK is reported with its code, an empty answer as an invalid length |
| Reader.T2TReader.ReadCC | src/type2/reader.rs:271-277 | a returned container is the one in block 3 of sector 0 |
| Reader.T2TReader.FetchBlock | src/type2/reader.rs:317-341 | the modular cache test serves the block's true bytes, or one READ does |
| Reader.T2TReader.FetchAt | src/type2/reader.rs:305-341 | across sector switches the cache never serves a wrapped block, and READs stay within one per 16 bytes |
| Reader.T2TReader.ReadDataArea | src/type2/reader.rs:285-360 | a result is exactly the first data_area_size usable bytes cut after the first Terminator tag; out of range only if those do not exist; sectors below sector_count; a faultless pass sends at most one READ per 16 bytes |
| ReaderSupport.ConsumeBlock | src/type2/reader.rs:344-355 | the inner loop takes over a block's usable bytes, stopping at the size or the Terminator tag |
| Reader.T2TReader.ReadDataAreaWithLayout | src/type2/reader.rs:371-390 | the two-pass read gives the bytes of the two-pass specification and never runs out of range |
| Reader.T2TReader.ReadNdef | src/type2/reader.rs:404-424 | through any faults a returned message is the one the tag presents; without faults the answer, errors included, is determined |
| PageWrites.MergePage | src/type2/reader.rs:616-637 | read-modify-write changes exactly the page's share of the data; the limit trips only if the data does not fit below it, and a merged page ends below it |
| PageWrites.PageScatters | src/type2/reader.rs:597-640 | writing a merged page takes the memory from one number of bytes done to the next |
| Reader.T2TReader.WritePage | src/type2/reader.rs:592-640 | one page, outright or merged: the memory is the state before or after it at every step; success means below the limit; without faults a page that is covered costs one command, any other at most two |
| Reader.T2TReader.WriteUsableBytes | src/type2/reader.rs:579-641 | at every step the memory is the old one with the data scattered up to a page boundary; success means all of it, below the limit; the limit trips only if the data does not fit |
| Reader.T2TReader.PlanWrite | src/type2/reader.rs:435-506 | all checks come before any WRITE and decide as the specification says |
| Reader.T2TReader.WriteTlv | src/type2/reader.rs:513-565 | after the capacity check no bound can trip; payload first, length last; sectors below sector_count |
| Reader.T2TReader.RunWrite | src/type2/reader.rs:435-568 | the memory is a write state at every step of every run; a range error means no WRITE was sent; success went through all states |
| Reader.T2TReader.WriteNdef | src/type2/reader.rs:426-568 | at every step and in the end, failed or not, nothing outside the payload changed, a safely planned NDEF TLV is not torn in the stream written through, nor in the one read with where the layouts agree, and, unobstructed, it is known what a read returns; an unobstructed message is presented after success; success leaves the memory of a completed write; a tag whose block 3 does not allow writing is never written to |
| CrashSafety.WriteFrame | src/type2/reader.rs:550-551 | no state of a write differs outside the payload: lock and reserved bytes, rest of pages, other sectors |
| CrashSafety.CrashConsistency | src/type2/reader.rs:530-565 | with the tag in place and the length field in one block, every cut shows the old message, an empty one or the whole new one |
| CrashSafety.TornLength | src/type2/reader.rs:559-565 | a page boundary inside a three-byte length field tears every message that replaces a two-byte one of certain content |
| CrashSafety.ZeroLengthParses | src/type2/reader.rs:530-533 | a zero length parses as the earlier TLVs, an empty message and whatever the bytes behind it parse to |
| RoundTrip.WrittenStream | src/type2/reader.rs:534-565 | a completed write is the splice of one complete NDEF TLV and a Terminator |
| RoundTrip.PositionExact | src/type2/reader.rs:461-520 | the payload goes to the NDEF TLV's address iff that address is usable in the layout written through and has the summed offset as its rank there; with one layout for both, iff the prefix is canonical |
| RoundTrip.StaticPositionExact | src/type2/reader.rs:381-390 | on a static tag, behind a canonical prefix, iff no described area meets the bytes up to the tag |
| RoundTrip.TruePosition | src/type2/reader.rs:508-520 | where the layouts agree up to the tag, the stream written to starts with the TLVs that were read |
| RoundTrip.SameLayoutRoundTrip | src/type2/reader.rs:508-568 | where the NDEF TLV was found in the layout written through, afterwards the data area parses to the same earlier TLVs, the new message and a Terminator, areas inside the value included |
| RoundTrip.PlannedWriteIsCrashSafe | src/type2/reader.rs:530-565 | a write to the NDEF TLV's address with its length field in one block is crash safe in the stream written through |
| RoundTrip.ReadBack | src/type2/reader.rs:371-424 | a later detection that ends with an agreeing layout returns the message |
| RoundTrip.EndToEnd | src/type2/reader.rs:371-568 | canonical prefix and no area up to the payload's end: the two-pass read returns exactly the message |
| RoundTripExact.AreaInsideValueUnreadable | src/type2/reader.rs:375-377 | an area up to the payload's end, behind a clear header, makes the first pass fail on a suitable message |
| RoundTripExact.RoundTripExact | src/type2/reader.rs:371-568 | on a tag, static or dynamic, whose areas hold control tags at the value's end, all messages of n bytes are read back iff no area meets the bytes up to the payload's end |
| RoundTripTags.StaticShows | src/type2/reader.rs:381-424 | a static tag presents the NDEF TLV as it lies in the memory, if what is behind it parses |
| RoundTripTags.ObstructedTag | src/type2/reader.rs:375-377 | for every obstructed value or Terminator, a tag that holds the leading TLVs and hides a stray control tag |
| RoundTripTags.StaticObstructed | src/type2/reader.rs:381-390 | for every area up to the length byte, a static tag and a message that is not read back |
| RoundTripTags.TagsRoundTripExact | src/type2/reader.rs:371-568 | all tags that hold given leading TLVs give back all messages of n bytes iff no area meets the bytes up to the payload's end |
| StaticCuts.StaticCutsExact | src/type2/reader.rs:381-568 | on all static tags that hold given leading TLVs, with no area up to the tag, every cut of n bytes presents the old, an empty or the new message or an error iff no area meets header or value or nothing behind the tag is visible |
| CutReads.CutStates | src/type2/reader.rs:530-565 | with the length field in one block, a write to a clear place has three kinds of states: the old memory, a zero length behind the old TLVs, the complete write |
| CutReads.ZeroLengthPresents | src/type2/reader.rs:371-424 | with a zero length and no area described behind it over the header, both passes included: an empty message if the bytes behind parse, a parse error otherwise |
| CutReads.NoControlBehind | src/type2/reader.rs:375-387 | without control TLVs behind the zero length no such area arises |
| CutReads.CutPresents | src/type2/reader.rs:404-568 | every state of a safely planned, unobstructed write presents the old message, the new one or what a zero length presents |
| CutReads.StaticCutPresents | src/type2/reader.rs:381-390 | on a static tag that is the old message, an empty one, the new one or a parse error |
| WriteGuarantees.ReadConsistency | src/type2/reader.rs:530-565 | crash consistency carries over to the stream read with if the layouts agree up to the payload's end |
| WriteGuarantees.StateIsSafe | src/type2/reader.rs:530-565 | for every state of a write: the frame, crash consistency in the stream written through and, where the layouts agree, in the one read with, and what a read returns |
| WriteGuarantees.WriteIsGuaranteed | src/type2/reader.rs:426-568 | these hold at every step of every run and for the memory it ends with, failed or not |
| FormattedTag.FormatParses | src/type2/tlv.rs:250-390 | printed leading TLVs, an NDEF TLV and a Terminator parse to exactly these |
| FormattedTag.FormattedPresents | src/type2/reader.rs:404-424 | a formatted tag presents its message, found by both passes |
| FormattedTag.FormattedPlan | src/type2/reader.rs:435-506 | on a formatted tag exactly the messages that fit behind the leading TLVs pass the checks, all others are out of range |
| FormattedTag.WriteKeepsFormat | src/type2/reader.rs:426-568 | a completed write leaves the tag formatted with the same leading TLVs and the new message |
| FormattedTag.RepeatedWrites | src/type2/reader.rs:404-568 | after any sequence of completed writes the last message is presented and the tag is still formatted |
| FormattedTag.FormattedIsUnobstructed | src/type2/reader.rs:426-568 | every message with room on a formatted tag is planned under the conditions of the round trip |
| FormattedTag.BlankIsFormatted | src/type2/reader.rs:735-747 | a tag initialized with an empty NDEF TLV is formatted, for every size of the data area above zero |
| FormattedTag.TagWithFormat | src/type2/reader.rs:735-747 | every format that fits in front of the areas it describes is the format of some tag |
| FormattedExact.TornOnFormatted | src/type2/reader.rs:559-565 | a formatted tag on which a length field across two blocks tears every message |
| FormattedExact.CrashSafetyExact | src/type2/reader.rs:530-565 | on all tags formatted with given TLVs no message of n bytes is torn iff n is below 255 or those TLVs take 0 or 3 bytes modulo 4 |
| FormattedCuts.HidingCut | src/type2/reader.rs:375-387 | on every dynamic format, for every length from five bytes on, a tag, a message and a cut that present another message |
| FormattedCuts.CutsExact | src/type2/reader.rs:371-568 | on all tags of a format every cut of every message of n bytes, five or more, presents the old, an empty or the new one or an error iff the tags are static |
| Witnesses.CutPresentsAnotherMessage | src/type2/reader.rs:375-387 | a blank dynamic tag and a safely planned message of eight bytes whose cut presents a third message |
| Witnesses.CutDoesNotParse | src/type2/reader.rs:410-411 | a blank tag and a safely planned message of two bytes whose cut cannot be read |
| Witnesses.WriteMissesTlv | src/type2/reader.rs:508-520 | a static tag on which the payload goes to address 22 and the NDEF TLV is at 21 |
| Witnesses.MissedWriteReadsWrong | src/type2/reader.rs:404-568 | that write succeeds and another message is read back |
| Witnesses.LengthInArea | src/type2/reader.rs:381-390 | static tags with the length byte in an area: the write is safely planned, a cut presents a third message, and so does the completed write |
| Witnesses.AreaInsideValue | src/type2/reader.rs:375-377 | a dynamic tag that meets the conditions of the exact round trip with a reserved area inside the value: the write is planned and the read fails |

## Left out

- Custom commands through `transceiver()`, `mark_tag_state_unknown` and arbitrary frames to `transceive_with_retry`: they bypass the coupling by design; runs consist of READ, WRITE and SECTOR SELECT.
- The radio layer, CRC and timing: only the step contract of the transceiver is modelled.
- `Command::try_from` beyond what the tag needs to read a frame; packet 2 has no code of its own and is told by the tag's phase.
- `tag_state`, the serialization of the Capability Container and how access nibbles other than zero differ: small case tables; reading and writing only ask whether access is granted.
- Fixed-capacity `heapless` buffers: they only add BufferFull exits.
- `ndef_data`, `value_length`, error conversions and NDEF record contents.
- RoundTrip.EndToEnd: one direction; a message can by coincidence survive an area that shifts it, so the exact conditions are stated over all messages of a length, in RoundTripExact and RoundTripTags.
- RoundTripExact.RoundTripExact: assumes a clear header and control tags in the areas at the value's end, as a single tag has fixed bytes in its areas; over all tags, RoundTripTags.TagsRoundTripExact needs neither on static tags.
- RoundTripTags.TagsRoundTripExact: on dynamic tags assumes no area in the header of the NDEF TLV; the first pass then takes bytes of the area for the length, and for the empty message the second pass can still find it.
- StaticCuts.StaticCutsExact: assumes no area up to the NDEF TLV's tag; otherwise the payload goes to another place, as RoundTrip.StaticPositionExact states.
- FormattedCuts.CutsExact: messages of up to four bytes are not decided; a control TLV does not fit into them, and whether bytes behind the payload can complete one depends on how much of the data area is left there.
- CutReads.CutPresents: does not say what a read returns when an area described behind a zero length meets the header; the second pass then depends on all bytes of the tag.
- TagModel.Tag.Transceive: takes READ, WRITE and packet 1 frames only, as the reader sends no others by itself.
- Reader.T2TReader.TransceiveWithRetry: takes READ and WRITE frames only; other frames a caller may pass bypass the coupling by design.
