# A verified model of libts

libts packs programs into MPEG-2 transport streams (ISO/IEC 13818-1) and unpacks them: a program becomes units, units
become packets of 188 bytes, packets become bytes, and a second set of functions undoes each layer. This project models
every layer in Dafny, with the branches, error paths, integer widths and constants of the C code, and proves what the
layers promise, alone and together. The main results are:

- **The whole stack comes back.** A well-formed program that is packed to units, segmented, interleaved in any way that
  keeps the order of each PID, numbered from any counter table, packed to bytes, and unpacked all the way into an empty
  program is the same program in normal form (`EndToEnd.EndToEnd`; `EndToEnd.SaveAndLoad` runs the object methods).
- **Reassembly is per PID.** The packet loop with its list of incomplete units computes a declarative definition, and
  what it finds for a PID depends on that PID's packets alone.
- **Continuity counters count.** Over any history of pack calls, the k-th payload packet of a PID gets k mod 16.
- **The CRC table divides.** All 256 entries and the table loop agree with division one bit at a time; a section with its
  checksum leaves 0; any change within four consecutive bytes is detected.
- **The scheduler sends exactly the stamped prefixes**, in PTS order with ties to the earlier stream, with one clock.
- **The bytes are the standard's.** The headers of packets, sections, tables, PES packets and time stamps are given byte
  by byte in plain arithmetic, so that a packer and a parser cannot agree on a wrong layout; the checksum has its known
  values.
- **Every input is decided.** For any bytes, written by this library or not, each parser is equal to a reference that
  reads them by position: which are accepted, what they say, and what is left behind (`ParsedBytes.dfy`). For any units,
  unpacking a program succeeds exactly when all its tables parse, agree and fold (`ProgramProperties.UnpackExactly`).
- **The NAL loops invert their encodings**, in place, although each unit is overwritten while the search goes on.
- **Remultiplexing.** Of any 188 bytes it is decided, on the bytes, whether unpacking and packing again reproduces them
  (`Remultiplexing.ReproducedExactly`), and of any stream whether a packet list, which numbers its packets anew,
  reproduces it (`Remultiplexing.StreamExactly`).
- **Exact conditions.** Where the code does not meet a property on all inputs, the condition under which it does is
  proved as an if-and-only-if, and an input on which it fails is given: when a field or a packet fills its bytes, when it
  can be packed again, when a PES packet reads back, when tables can be folded twice, when a start code split is exact,
  when the loop over NAL units stays inside its input.

## How it is built

Each parser and printer is specified by a function on values: `Encode` gives the bytes a printer appends, `Decode` gives
the result of a parser with the input it leaves. An `Input` is either `Failed` or `Open` with the bytes that are left,
which is the sticky failure of `bytestream.c`; the same shape with `Output` for writing. The objects of the source are
classes (`Bytestream`, `Packets`, `Unit`, `Units`, `TsStream`) whose methods are the source's loops, proved to compute
the functions; the properties are lemmas about the functions. A record that the source fills once and hands on (a packet,
an adaptation field, a PES packet, a table) is a datatype.

| file | contents |
|---|---|
| `Words.dfy` | bit fields in words, big-endian numbers, wrap-around |
| `Bytestream.dfy` | reading and writing with sticky failure |
| `Pcr.dfy`, `AdaptationField.dfy`, `Packet.dfy` | clocks, adaptation fields, packets of 188 bytes |
| `Packets.dfy`, `PacketsProofs.dfy` | packet lists, framing, continuity counters |
| `Units.dfy`, `UnitsProofs.dfy` | segmentation and reassembly |
| `Crc.dfy`, `Psi.dfy`, `Pat.dfy`, `Pmt.dfy` | sections and tables |
| `Pes.dfy` | PES packets and time stamps |
| `StreamTable.dfy`, `Scheduler.dfy`, `TsStream.dfy`, `ProgramProofs.dfy` | programs |
| `EndToEnd.dfy` | the layers together |
| `WireFormats.dfy` | the packed headers byte by byte, in plain arithmetic |
| `ParsedBytes.dfy` | what the parsers make of any bytes, in plain arithmetic |
| `Remux.dfy` | which packets are reproduced when they are unpacked and packed again |
| `Nal.dfy` | the H.264 example |

## Where the code does not do what one would expect

- A bit mask is written `(1 << bits) - 1` (`src/ts/bytestream.c:97`), an `int` shift, and the PCR reader asks for 33 bits
  (`src/ts/ts_pcr.c:29`). The model uses the intended mask, 2^bits - 1.
- `ts_adaptation_field_size` may not count what the packer writes when the EBP marker is set or when the private flag and
  the private size disagree. `AdaptationFields.LengthExact` says exactly when the two agree, and
  `AdaptationFields.MiscountedField` is a field that is one byte short.
- A field that announced an extension, or whose private data was read as an EBP record, is not packed again as it was:
  the extension is dropped, and the record is counted twice. `AdaptationFields.Repack`, `TsPackets.Repack` and
  `PacketListProperties.ListRepack` say exactly when the bytes are the same.
- The parser checks neither the sync byte, nor stuffing, nor reserved bits, and accepts what the packer never writes.
  `Remultiplexing.ReproducedExactly` says which packets survive, and `Remultiplexing.NullPackets` is one that does and one
  that does not.
- A packet list overwrites the counters of the packets it packs. `Remultiplexing.EqualNullPackets` is a stream that is
  not reproduced for that reason, and `Remultiplexing.StreamExactly` says which are.
- A stream is loaded as a whole: if a packet behind a saved program has a field that is too long, nothing is loaded,
  although all packets before it were found (`EndToEnd.LoadsApart`). But up to 187 bytes behind it, and a packet whose
  private data is too long for the stream, are ignored without an error (`EndToEnd.TailIsIgnored`).
- A payload that is announced behind a field is what is left of 188 bytes; but without a payload a packet ends behind its
  field, and without either behind its header (`ParsedBytes.PacketParsed`).
- Without a buffer the padding loop of a section never ends (`PsiSections.PaddingNeedsBuffer`).
- At a start code with nothing behind it, at the end of the input or in front of another start code, `nal_unit_debug` reads
  the header byte of a unit that has none, and its size wraps. `NalUnits.NoneEmptyExactly` gives the condition on the
  bytes, and `NalUnits.EmptyUnits` two inputs.
- For stream ids 0xbe and 0xbf the PES packer counts a header it does not write, and an `int` counts the length.
  `PesPackets.RoundTrip` says exactly which packets read back.
- Folding the same tables a second time never changes the program but may be reported as an error;
  `StreamTable.RefoldCanFail` is an example, and `StreamTable.RefoldTablesExact` says when both times succeed.
- The program descriptor is written to the PMT (`src/ts/ts_stream.c:191`) but never restored from it, and a clock PID of 0
  comes back as 0x1fff. `EndToEnd.Restored` is the normal form, and `EndToEnd.RestoredTwice` says that it is one.

## Model

| member | source | states |
|---|---|---|
| Words.ReadField | src/ts/bytestream.c:94-142 | any fields that do not overlap, OR-ed into one word, each read back as their own value cut to their width, in whatever order they were written |
| Bytestreams.Bytestream.Read | src/ts/bytestream.c:47-60 | a read gives the next bytes and moves on if they are there; otherwise it gives zeros and the stream fails for good |
| Bytestreams.Bytestream.Write | src/ts/bytestream.c:101-112 | a write appends to the buffer, and fails for good without one |
| Bytestreams.Bytestream.Destruct | src/ts/bytestream.c:27-30 | a failed stream has no data, no buffer and no position left |
| Bytestreams.ReadBackNumber | src/ts/bytestream.c:62-135 | a big-endian number of n bytes is read back modulo 2^(8n), and the rest is left |
| Bytestreams.OneCheckIsEnough | src/ts/bytestream.c:32-60 | after any run of reads the stream is valid if and only if it was valid before and all sizes together fit; then exactly the rest is left |
| Bytestreams.ReadsAreSticky | src/ts/bytestream.c:47-92 | after any run of reads, the next one gives the right bytes if and only if everything up to it fits; otherwise zeros, and the stream stays failed |
| Pcr.Pack | src/ts/ts_pcr.c:11-22 | appends the six bytes of the clock and reports the stream's state |
| Pcr.Unpack | src/ts/ts_pcr.c:24-32 | takes six bytes and gives base * 300 + extension |
| Pcr.RoundTrip | src/ts/ts_pcr.c:11-32 | every 64-bit value comes back modulo 300 * 2^33, although shifts drop bits on the way |
| Pcr.EncodeOfReduced | src/ts/ts_pcr.c:11-22 | a value and its remainder modulo 300 * 2^33 are packed to the same bytes |
| AdaptationFields.PackField | src/ts/ts_adaptation_field.c:34-82 | for every field and every 64-bit size, appends what the specification gives, with the one-byte field, EBP bytes and the wrapped stuffing count |
| AdaptationFields.UnpackField | src/ts/ts_adaptation_field.c:84-134 | for every input, the status, the field and what is left are those of the specification, errors and short input included |
| AdaptationFields.LengthExact | src/ts/ts_adaptation_field.c:27-82 | packing fills exactly the bytes set aside if and only if one byte was, or the field's size fits in them and counts what is written |
| AdaptationFields.MiscountedField | src/ts/ts_adaptation_field.c:27-82 | a field that announces private data and has none is packed one byte short |
| AdaptationFields.RoundTrip | src/ts/ts_adaptation_field.c:34-134 | every field that fits is read back in normal form, in front of any bytes, and exactly those bytes are left; a field with the EBP marker comes back with its time and with the record as private data |
| AdaptationFields.Repack | src/ts/ts_adaptation_field.c:34-134 | packing the normal form of a field that fits gives the same bytes if and only if the field is the single byte, or no extension was announced and the private data sent is no EBP record |
| AdaptationFields.RecordReadsBack | src/ts/ts_adaptation_field.c:59-67 | the fixed EBP record that the packer writes is read as a record with the same time |
| TsPackets.PackPacket | src/ts/ts_packet.c:31-64 | sets the adaptation bit when the payload leaves room, appends the packet and reports the stream's state |
| TsPackets.UnpackPacket | src/ts/ts_packet.c:66-102 | for every input, the status, the packet and what is left are those of the specification |
| TsPackets.Exactly188 | src/ts/ts_packet.c:24-64 | a packet is packed to 188 bytes if and only if it fits: the payload leaves no byte over, and the unsigned count of stuffing neither wraps nor miscounts |
| TsPackets.NotExactly188 | src/ts/ts_packet.c:24-64 | a packet with a miscounted field, and one whose payload is a byte too long, do not take 188 bytes |
| TsPackets.SyncByte | src/ts/ts_packet.c:43-51 | every packet starts with 0x47 |
| TsPackets.RoundTrip | src/ts/ts_packet.c:31-102 | every packet that fits is read back in normal form and nothing after it is touched |
| TsPackets.Repack | src/ts/ts_packet.c:31-102 | for a packet that fits, packing what was unpacked from its bytes, with the counter kept, gives those bytes if and only if it has no adaptation field or one that can be packed again |
| PacketLists.Packets.LookupCounter | src/ts/ts_packets.c:63-75 | finds or makes the counter of a PID; the table never holds a PID twice and no value changes |
| PacketLists.Packets.Number | src/ts/ts_packets.c:111-114 | the packet gets the count of its PID modulo 16; only that PID's count goes up, and only for a packet that announces a payload |
| PacketLists.Packets.Pack | src/ts/ts_packets.c:102-122 | every packet is numbered, prepared and appended, in order; without a buffer the first one fails and the rest stay as they were |
| PacketLists.Packets.Unpack | src/ts/ts_packets.c:124-148 | packets are parsed until the input is empty or fails, and are appended to the list even when the result is an error |
| PacketLists.DecodeShrinks | src/ts/ts_packets.c:130-146 | the loop ends: every packet that is parsed consumes input |
| PacketListProperties.Framing | src/ts/ts_packets.c:102-122 | a list of n packets that fit takes 188 n bytes, packet i stands at byte 188 i, and that byte is 0x47 |
| PacketListProperties.ShortTailStays | src/ts/ts_packets.c:124-148 | up to 187 bytes behind packets that fit stay in the stream, which is no error |
| PacketListProperties.ListRoundTrip | src/ts/ts_packets.c:102-148 | packing then unpacking any list of packets that fit gives the same number of packets in normal form and drains the stream |
| PacketListProperties.ListRepack | src/ts/ts_packets.c:102-148 | packets that fit, packed, unpacked, and packed again by a list with any counter table, give the same bytes if and only if every packet can be packed again and carries the counter that the second packing gives it |
| PacketListProperties.TableCountsHistory | src/ts/ts_packets.c:63-122 | over any history of pack calls on one list object, the table holds for each PID the number of its packets that announced a payload |
| PacketListProperties.Continuity | src/ts/ts_packets.c:63-122 | the k-th payload packet of a PID, from zero, over any history of pack calls, gets k mod 16; other PIDs never disturb it; no PID is in the table twice (section 2.4.3.3 of ISO/IEC 13818-1) |
| UnitListProperties.UnitContinuity | src/ts/ts_units.c:38-53 | when lists of units are packed one after another by one packet list, the k-th packet of a PID among all their packets, from zero, gets k mod 16 |
| UnitLists.Unit.Pack | src/ts/ts_unit.c:28-72 | the loop appends exactly the segmentation of the unit to the packet list |
| UnitLists.Unit.Unpack | src/ts/ts_unit.c:74-78 | the payload is appended to the unit's data and nothing else changes |
| UnitListProperties.SegmentCount | src/ts/ts_unit.c:37-69 | n bytes give 1 + ceil(max(0, n - c) / 184) packets, where c is the capacity of the first: 184, 182 or 176 by its flags |
| UnitListProperties.SegmentByPlace | src/ts/ts_unit.c:37-69 | every packet of a segmentation, field by field: its flags, its field, and which bytes of the data it carries |
| UnitListProperties.SegmentKeepsData | src/ts/ts_unit.c:37-69 | the payloads of the packets, one after another, are the data, and none is empty |
| UnitListProperties.SegmentFits | src/ts/ts_unit.c:37-69 | every packet of a segmentation is packed to exactly 188 bytes, with a one-byte adaptation field when 183 bytes of payload leave one, and announces the payload it has |
| UnitLists.Units.Pack | src/ts/ts_units.c:38-53 | the units are segmented one after another into the packet list |
| UnitLists.Units.Unpack | src/ts/ts_units.c:55-100 | the loop with its incomplete list appends fresh, distinct units whose values are the declarative reassembly of the packets, and returns how many |
| UnitLists.AssembleSnoc | src/ts/ts_units.c:64-95 | the declarative reassembly is computed one packet at a time: a start opens a unit, any other packet goes to the last unit of its PID, or nowhere |
| UnitLists.TracksAfterStart | src/ts/ts_units.c:71-91 | a start keeps the invariant of the incomplete list: once the old unit of the PID is erased and the new one added, the list again holds exactly the last unit of every PID seen |
| UnitLists.NeverTwoOfOnePid | src/ts/ts_units.c:66-93 | the incomplete list never holds two units of one PID |
| UnitListProperties.PerPid | src/ts/ts_units.c:64-95 | the units of a PID are what reassembling that PID's packets alone gives |
| UnitListProperties.UnitByPlace | src/ts/ts_units.c:64-95 | there is a unit for every start packet, in their order, with its PID, flags and clock, and with the payloads of that PID from there to its next start |
| UnitListProperties.InterleavingIsFree | src/ts/ts_units.c:64-95 | two packet sequences with the same packets of a PID in the same order give the same units of that PID |
| UnitListProperties.DroppedBeforeStart | src/ts/ts_units.c:66-93 | packets before the first start are dropped |
| UnitListProperties.SegmentThenAssemble | src/ts/ts_units.c:38-100 | segmenting and reassembling any list of units gives back those with data, with PID, random access flag, clock flag and clock |
| UnitListProperties.SegmentInterleaveAssemble | src/ts/ts_units.c:38-100 | the same for every PID when the packets of different PIDs are interleaved in any way that keeps the order of each |
| UnitListProperties.ThroughBytes | src/ts/ts_units.c:38-100 | the same through numbering, bytes and parsing, with clocks reduced |
| Crc.TableEntry | src/ts/ts_psi.c:12-78 | each of the 256 constants is the remainder of its index after eight steps of division by 0x04c11db7 |
| Crc.TableStepIsDivision | src/ts/ts_psi.c:85-86 | one turn of the table loop equals feeding the byte into the division bit by bit, for every register and byte |
| Crc.ComputeCrc | src/ts/ts_psi.c:80-89 | the loop computes the division of every byte string, from the initial value 0xffffffff |
| Crc.EmptyValue | src/ts/ts_psi.c:82 | the register starts at 0xffffffff |
| Crc.CheckValue | src/ts/ts_psi.c:80-89 | the checksum of the nine digits "123456789" is 0x0376e6e7 |
| Crc.PatValue | src/ts/ts_psi.c:80-89 | the checksum of the section that names PID 256 for program 1 is 0xe8f95e7d |
| Crc.Residue | src/ts/ts_psi.c:80-89 | a byte string followed by the four bytes of its checksum has checksum 0 |
| Crc.FeedAllInjective | src/ts/ts_psi.c:80-89 | for fixed bytes the loop maps registers one to one |
| Crc.BurstDetected | src/ts/ts_psi.c:80-89 | two byte strings that differ only within four consecutive bytes have different checksums |
| PsiSections.PackPsi | src/ts/ts_psi.c:112-144 | refuses without writing, or appends header, data, checksum and padding, to any buffer |
| PsiSections.UnpackPsi | src/ts/ts_psi.c:146-179 | for every input, the status, the section header and what is left are those of the specification, including the early end at table id 0xff |
| PsiSections.RefusedWhenTooLong | src/ts/ts_psi.c:118-121 | sections above 1021 bytes are refused and no others, up to the 2 GB an int can count; beyond, exactly those whose wrapped length is above 1021 |
| PsiSections.PaddingAligns | src/ts/ts_psi.c:140-141 | the padding is shorter than 188 bytes and leaves size + 4 a multiple of 188 |
| PsiSections.Pad | src/ts/ts_psi.c:140-141 | the padding loop ends, and appends just the stuffing that reaches the boundary |
| PsiSections.PaddingNeedsBuffer | src/ts/ts_psi.c:140-141 | some number of stuffing bytes reaches the boundary if and only if there is a buffer to write them to |
| PsiSections.SectionChecks | src/ts/ts_psi.c:123-139 | the section that is written, with its own checksum, has checksum 0 |
| PsiSections.RoundTrip | src/ts/ts_psi.c:112-179 | a section header of any table id but 0xff, of any length: an error if the ten bits sent of it are below 9, incomplete if there is less data than they say, and otherwise read back with them, the data left |
| PsiSections.UnpackPointer | src/ts/ts_psi.c:187-194 | the pointer byte and as many bytes as it says are skipped, or the stream fails |
| ProgramAssociation.PackPat | src/ts/ts_pat.c:32-74 | a PAT is always packed, to the same bytes whether or not the buffer holds memory yet |
| ProgramAssociation.UnpackPat | src/ts/ts_pat.c:76-116 | for every input, the status and the table are those of the specification |
| ProgramAssociation.RoundTrip | src/ts/ts_pat.c:32-104 | every program number and program PID comes back through pointer, section, checksum and padding |
| ProgramMap.PackPmt | src/ts/ts_pmt.c:107-169 | refuses a table whose section is too long, and otherwise gives the specified bytes |
| ProgramMap.RefusedExactly | src/ts/ts_pmt.c:107-157 | a table is refused if and only if 4 bytes, 5 for each stream, the bytes of all descriptors and 9 more exceed 1021 |
| ProgramMap.UnpackPmt | src/ts/ts_pmt.c:171-264 | for every input, the status is that of the specification, and so is the table unless it is an error |
| ProgramMap.UnpackDescriptor | src/ts/ts_pmt.c:46-60 | takes the first descriptor of a loop and skips the rest, or fails |
| ProgramMap.FiveBytesEach | src/ts/ts_pmt.c:220-248 | on arbitrary bytes every turn of the stream loop takes at least five bytes or ends it, so n bytes hold at most n / 5 streams |
| ProgramMap.RoundTrip | src/ts/ts_pmt.c:107-252 | any clock PID, descriptor and list of streams in normal form whose section is at most 1021 bytes is not refused and comes back, in order |
| PesPackets.PackPes | src/ts/ts_pes.c:86-108 | refuses after the first four bytes, or appends the packet |
| PesPackets.UnpackPes | src/ts/ts_pes.c:110-166 | for every input, the status is that of the specification, and so is the packet unless it is an error |
| PesPackets.StampRoundTrip | src/ts/ts_pes.c:11-42 | every 64-bit time stamp comes back modulo 2^33 from five bytes, whatever the indicator bits |
| PesPackets.RefusedExactly | src/ts/ts_pes.c:96-100 | packing refuses exactly the packets that are not video and whose length reaches 65536, as an int that wraps at 2 GB counts it |
| PesPackets.RoundTrip | src/ts/ts_pes.c:66-166 | every packet that is not refused comes back in normal form if and only if it has a header and its written length is the one the parser expects, which all do below 2 GB, oversized video through length 0 included; the others are errors |
| PesPackets.NotReadBack | src/ts/ts_pes.c:94-105 | a packet of each of the two stream ids without a header is an error when it is read |
| WireFormats.PacketHeader | src/ts/ts_packet.c:35-51 | the four header bytes of every packet, by value (section 2.4.3.2 of ISO/IEC 13818-1) |
| WireFormats.FieldFlags | src/ts/ts_adaptation_field.c:40-48 | the flags byte of every adaptation field, by value (section 2.4.3.4 of ISO/IEC 13818-1) |
| WireFormats.FieldOrder | src/ts/ts_adaptation_field.c:34-82 | length, flags, clocks, countdown and private data of a field that fits stand in that order, and stuffing of 0xff fills it |
| WireFormats.RecordIs | src/ts/ts_adaptation_field.c:59-67 | the EBP record, by value, with its length in front |
| WireFormats.ClockBytes | src/ts/ts_pcr.c:11-22 | the six bytes of a clock, by value, with zero reserved bits |
| WireFormats.SectionHeader | src/ts/ts_psi.c:122-135 | the eight header bytes of every section, by value, whatever its length (section 2.4.4 of ISO/IEC 13818-1) |
| WireFormats.PatEntry | src/ts/ts_pat.c:45-48 | the four bytes of the program entry, by value |
| WireFormats.PatBytes | src/ts/ts_pat.c:32-62 | a packed PAT, byte by byte: pointer, a header with current 1 and sections 0 of 0, the entry, the checksum of those and 167 bytes of stuffing |
| WireFormats.PatUnitBytes | src/ts/ts_stream.c:119-150 | the unit with the PAT of a program has PID 0, no flags, and program number 1 |
| WireFormats.PatOf256 | src/ts/ts_stream.c:119-150 | all bytes of the PAT of a program on PID 256, checksum included |
| WireFormats.PmtEntry | src/ts/ts_pmt.c:121-141 | the bytes of a PID with its descriptor, by value |
| WireFormats.PmtBytes | src/ts/ts_pmt.c:107-157 | a packed PMT: 00 02, the length by the sizes of its descriptors and streams, 00 01 c1 00 00, and its data, checksum and stuffing |
| WireFormats.PmtUnitIs | src/ts/ts_stream.c:175-217 | the unit with the PMT of a program has the program PID and no flags, and its table names the clock PID, or 0x1fff, and every stream in order |
| WireFormats.StampBytes | src/ts/ts_pes.c:11-24 | the five bytes of a time stamp: 33 bits in three parts with a marker bit behind each (section 2.4.3.6 of ISO/IEC 13818-1) |
| WireFormats.PesStamps | src/ts/ts_pes.c:79-82 | which stamps a PES packet has, marked 2 or 3 and 1, and their bytes by value |
| WireFormats.PesStart | src/ts/ts_pes.c:71-108 | the bytes of a PES packet with a header, by value, around its stamps and data |
| ParsedBytes.PacketParsed | src/ts/ts_packet.c:66-102 | for any bytes, which are a packet, what its header, field and payload are, and what is left; fewer than 188 are incomplete and stay |
| ParsedBytes.FieldParsed | src/ts/ts_adaptation_field.c:84-134 | for any bytes, which are an adaptation field, what its flags, clocks, countdown, private data and record are, and what is left, with every error told apart |
| ParsedBytes.EbpParsed | src/ts/ts_ebp.c:21-43 | for any bytes, which are taken for an EBP record, and where its time stands behind what its flags announce |
| ParsedBytes.ClockParsed | src/ts/ts_pcr.c:24-32 | any six bytes as a clock, by value, whatever the reserved bits |
| ParsedBytes.PointerParsed | src/ts/ts_psi.c:187-194 | for any bytes, the pointer and as many bytes as it counts are passed over, or the stream fails |
| ParsedBytes.SectionParsed | src/ts/ts_psi.c:146-179 | for any bytes, whether they are a section, an error or incomplete, its header, and what is left |
| ParsedBytes.PatParsed | src/ts/ts_pat.c:76-104 | for any bytes, whether they are a PAT, an error or incomplete, and all its members |
| ParsedBytes.PmtParsed | src/ts/ts_pmt.c:171-252 | for any bytes, whether they are a PMT, an error or incomplete, and all its members |
| ParsedBytes.EntryParsed | src/ts/ts_pmt.c:200-218 | for any bytes, which are a PID with a loop of descriptors |
| ParsedBytes.StreamsParsed | src/ts/ts_pmt.c:220-249 | for any bytes, which are a list of streams up to the end |
| ParsedBytes.DescriptorParsed | src/ts/ts_pmt.c:46-60 | for any bytes and any length, the first descriptor of the loop is taken and the loop is passed over as a whole, or it is an error |
| ParsedBytes.RestOfLoopIsPassed | src/ts/ts_pmt.c:46-60 | a descriptor with a tag is read back whatever follows it in its loop, and what is behind the loop is left |
| ParsedBytes.PesParsed | src/ts/ts_pes.c:110-166 | for any bytes, which are a PES packet, and all its members: data begins behind all bytes that the header counts |
| ParsedBytes.CountedByteIsSkipped | src/ts/ts_pes.c:153 | a video packet with one stuffing byte in its header has only its last byte as data |
| ParsedBytes.StampParsed | src/ts/ts_pes.c:26-42 | any five bytes as a time stamp, by value, whatever the marker bits |
| Remultiplexing.ClockReproduced | src/ts/ts_pcr.c:11-32 | six bytes with zero reserved bits and an extension below 300 are reproduced by unpacking and packing the clock |
| Remultiplexing.FieldReproduced | src/ts/ts_adaptation_field.c:34-134 | the bytes of a canonical field are reproduced by packing what the parser makes of them |
| Remultiplexing.FieldIsCanonical | src/ts/ts_adaptation_field.c:34-134 | every field in normal form is packed to canonical bytes |
| Remultiplexing.ReproducedExactly | src/ts/ts_packet.c:31-102 | any 188 bytes, whatever follows them, are accepted and reproduced if and only if they have the sync byte, a payload or a field that fills the packet or both, no extension, clocks with zero reserved bits and extensions below 300, private data that is neither empty nor an EBP record, and stuffing of 0xff |
| Remultiplexing.NullPackets | src/ts/ts_packet.c:66-102 | a null packet is reproduced; with another sync byte it is accepted and not reproduced |
| Remultiplexing.StreamReproduced | src/ts/ts_packets.c:102-148 | a stream of such packets whose counters are those that the packing list gives them is unpacked completely and packed again to the same bytes |
| Remultiplexing.StreamExactly | src/ts/ts_packets.c:102-148 | for any bytes and any counter table, the packets unpacked from them are numbered and packed again to the same bytes, each to its own 188, if and only if all of them are such packets and carry the counters that numbering gives them |
| Remultiplexing.KeptExactly | src/ts/ts_packet.c:31-102 | the same for packets that are packed one by one, with their counters kept: the bytes are the same if and only if all are such packets |
| Remultiplexing.EqualNullPackets | src/ts/ts_packets.c:102-122 | two equal null packets are such packets, and are not reproduced: the second gets counter 1 |
| Remultiplexing.Remultiplex | examples/remux_packets.c:25-33 | fails on bytes that do not parse, and otherwise gives the bytes of their packets, numbered from an empty table |
| StreamTable.FoldKeepsPids | src/ts/ts_stream.c:78-105 | folding entries keeps PIDs pairwise distinct and packets unchanged even when it stops at an error, and leaves the PIDs in first-seen order |
| StreamTable.FoldAbsorbs | src/ts/ts_stream.c:248-265 | after a successful fold every nonzero type and nonempty descriptor seen for a PID is the stored one |
| StreamTable.Refold | src/ts/ts_stream.c:219-269 | folding a successful list again never changes the table |
| StreamTable.RefoldCanFail | src/ts/ts_stream.c:248-265 | but it can be reported as an error: an entry without a descriptor, then one with it, for one PID |
| StreamTable.RefoldExact | src/ts/ts_stream.c:248-265 | a list folds, and folds again, if and only if its entries for each PID all say the same and the table says nothing else |
| StreamTable.RefoldTablesExact | src/ts/ts_stream.c:219-269 | the same for whole tables: both passes succeed if and only if, besides, all name one clock PID and the program no other |
| StreamTable.TablesKeepTable | src/ts/ts_stream.c:219-269 | over any number of tables the PIDs stay distinct and in first-seen order and everything seen is stored |
| ProgramProperties.DisagreeingEntry | src/ts/ts_stream.c:248-265 | an entry that disagrees with the stream of its PID fails, and leaves the table as it is but for a type that was open |
| Scheduler.PickIsLeast | src/ts/ts_stream.c:290-296 | the stream picked has a stamped packet in front, with the least PTS, the earliest such stream; none is picked only if none is ready |
| Scheduler.SendsStampedPrefixes | src/ts/ts_stream.c:280-320 | of every stream exactly the longest prefix of packets with a PTS is sent, in order |
| Scheduler.ScheduleIsOrdered | src/ts/ts_stream.c:280-320 | if every such prefix is nondecreasing in PTS, so is everything sent, with ties in stream order |
| Scheduler.OneClock | src/ts/ts_stream.c:305-311 | the first unit of the clock PID, and no other, carries a clock, and it is PTS * 300 in 64 bits; all others have clock 0 |
| TsStreams.TsStream.Create | src/ts/ts_stream.c:89-105 | finds the stream of a PID, or appends an empty one for it |
| TsStreams.TsStream.PackPat | src/ts/ts_stream.c:119-150 | appends one fresh unit with the table, or fails for program PID 0 and appends nothing |
| TsStreams.TsStream.UnpackPat | src/ts/ts_stream.c:152-173 | adopts the first program PID and fails when another one follows |
| ProgramProperties.PatsAgree | src/ts/ts_stream.c:152-173 | for any units, unpacking succeeds if and only if all tables of PID 0 parse and, from the first PID that is not zero on, all name that one, which the program then has |
| TsStreams.TsStream.PackPmt | src/ts/ts_stream.c:175-217 | appends one fresh unit with the table of all streams, or fails and appends nothing |
| TsStreams.TsStream.UnpackPmt | src/ts/ts_stream.c:219-269 | folds all tables of the program PID into the program, up to the first error |
| ProgramProperties.UnitsFoldTables | src/ts/ts_stream.c:219-269 | when all tables in the units of the program PID parse, all of them are folded, in order |
| ProgramProperties.BadTableFails | src/ts/ts_stream.c:234-239 | when one does not parse, unpacking fails |
| ProgramProperties.UnitsKeepTable | src/ts/ts_stream.c:219-269 | over any units whose tables unpack, PIDs stay distinct and in first-seen order and everything the tables say is stored |
| TsStreams.TsStream.PackPes | src/ts/ts_stream.c:271-325 | the merge loop ends and appends fresh units for what the schedule sends, up to the first packet that is refused, and fails if and only if there is one |
| TsStreams.TsStream.UnpackPes | src/ts/ts_stream.c:327-363 | appends to each stream the packets of its PID's units that parse, in order, and skips those that do not |
| ProgramProperties.PesInIs | src/ts/ts_stream.c:335-360 | what the units of a PID give is the packets that their bytes are, in order, with the units' random access flags, and nothing for bytes that are none |
| TsStreams.TsStream.Pack | src/ts/ts_stream.c:377-387 | succeeds if and only if the program can be packed, and then appends its units; earlier units are never touched |
| TsStreams.TsStream.Unpack | src/ts/ts_stream.c:365-375 | the program afterwards and the result are those of unpacking all layers in turn, stopping at the first error |
| ProgramProperties.UnpackExactly | src/ts/ts_stream.c:365-375 | for any program and units, unpacking succeeds if and only if all PATs parse and agree on a PID, and all PMTs of that PID parse and fold; the result is the fold, with the packets of each stream's units behind its own |
| ProgramProperties.UnpackAppends | src/ts/ts_stream.c:365-375 | the streams a program had keep their places and packets, and get those of their units behind them |
| Scheduler.RefusesExactly | src/ts/ts_stream.c:280-320 | the merge meets a refused packet if and only if one is in the longest stamped prefix of some stream |
| EndToEnd.PacksExactly | src/ts/ts_stream.c:377-387 | a program packs if and only if it has a program PID, its table is not too long by the sizes of its descriptors, and no packet in a stamped prefix is refused |
| EndToEnd.OneProgram | src/ts/ts_stream.c:365-387 | a concrete well-formed program and what it comes back as: the copyright bit is dropped and the stamp reduced |
| EndToEnd.OneProgramIsSmall | src/ts/ts_stream.c:377-387 | the packets of that program stay within the size that EndToEnd.EndToEnd and EndToEnd.SaveAndLoad ask for |
| EndToEnd.RestoredTwice | src/ts/ts_stream.c:365-387 | what a program comes back as comes back as it is, for every program |
| EndToEnd.UnitsRoundTrip | src/ts/ts_stream.c:365-387 | a well-formed program packs, and its units unpack into an empty program to the restored program |
| EndToEnd.UnpackPerPid | src/ts/ts_stream.c:365-375 | unpacking into any program whose PIDs have 13 bits, with success or not, depends on the units of each PID in their order, and not on their interleaving or their clocks |
| EndToEnd.LoadPerPid | src/ts/ts_stream.c:389-405 | two streams that both parse or both do not, and whose packets are the same for every PID, in the same order, load into any program with the same result and the same error |
| EndToEnd.LoadsApart | src/ts/ts_stream.c:389-405 | a packet whose field is too long, behind a saved program, adds nothing to the packets found, but makes loading fail |
| EndToEnd.TailIsIgnored | src/ts/ts_stream.c:389-405 | up to 187 bytes behind a saved program, or a packet whose private data is too long for the stream, are ignored: the program is loaded |
| EndToEnd.ThroughInterleavedBytes | src/ts/ts_units.c:38-100 | units that are segmented, interleaved, numbered from any table, packed, unpacked and reassembled are the same for every PID, and the stream is drained |
| EndToEnd.EndToEnd | src/ts/ts_stream.c:365-424 | a well-formed program through all layers and any interleaving restores program PID, clock PID, and in order each stream's PID, type, descriptor and stamped packets with data, PTS, DTS and random access flag |
| EndToEnd.Save | src/ts/ts_stream.c:407-424 | saves, if and only if the program can be packed, the bytes of its numbered packets |
| EndToEnd.Load | src/ts/ts_stream.c:389-405 | loading into any program leaves it alone and fails on bytes that do not parse, and otherwise unpacks the reassembled units into it |
| EndToEnd.SaveAndLoad | src/ts/ts_stream.c:389-424 | loading what was saved of a well-formed program gives the restored program |
| NalUnits.Decode | examples/h264_debug.c:28-44 | the bytes of a unit are unescaped in place, the returned size is exact, the loop ends, and no byte outside the unit changes |
| NalUnits.UnescapeIsOnePass | examples/h264_debug.c:33-42 | searching again after every removal equals one pass that drops each 03 after two zeros and starts counting again |
| NalUnits.EscapeAvoids | examples/h264_debug.c:28-44 | emulation prevention leaves no 00 00 00, 00 00 01 or 00 00 02 (section 7.4.1 of ITU-T H.264) |
| NalUnits.EscapeRoundTrip | examples/h264_debug.c:28-44 | unescaping inverts emulation prevention for every byte string |
| NalUnits.ShowUnit | examples/h264_debug.c:46-62 | the header byte and the unescaped payload are shown, and nothing outside the unit changes |
| NalUnits.ShowStream | examples/h264_debug.c:64-82 | on every input in which no start code has nothing behind it, the units of the original bytes are shown, all and in order, although each is rewritten in place before the search goes on |
| NalUnits.FrontIsSkipped | examples/h264_debug.c:64-82 | bytes in front of the first start code are no unit, and without a start code there is none |
| NalUnits.NoneEmptyExactly | examples/h264_debug.c:64-82 | the loop meets no unit without bytes if and only if no start code ends the input or has another start code, of three or four bytes, right behind it |
| NalUnits.EmptyUnits | examples/h264_debug.c:46-82 | two inputs on which the loop meets a unit without bytes |
| NalUnits.SplitOfJoin | examples/h264_debug.c:64-82 | splitting gives back units joined by any mix of start codes if and only if none contains a start code or ends in a zero in front of a three-byte one (Annex B of ITU-T H.264) |
| NalUnits.ZeroIsLost | examples/h264_debug.c:64-82 | a unit that is one zero is lost in front of a three-byte start code and kept in front of a four-byte one |
| NalUnits.StreamRoundTrip | examples/h264_debug.c:28-82 | headers and payloads that are escaped and joined by any mix of start codes are shown as they were, all and in order, if and only if no unit that was made contains a start code or ends in a zero in front of a three-byte one |
| NalUnits.MadeUnitsAreTold | examples/h264_debug.c:28-82 | that is so in any mix of start codes if no header is zero and no payload ends in a zero |

## Left out

- Files: reading and writing them (`ts_packets_buffer_load`, `ts_packets_buffer_save`) is system calls; `EndToEnd.Save` and `EndToEnd.Load` work on bytes in memory, and the `ts_units_load`, `ts_units_save`, `ts_packets_load` and `ts_packets_save` wrappers are covered by the layers they call.
- All `*_debug` printing, the table of NAL unit names, every `main` and the other example programs.
- Memory: allocation, ownership, `abort` when out of memory, and leaks. A read longer than the stream fails; the model does not allocate first.
- Objects of libdynamic (`list`, `vector`, `buffer`) are sequences in the fields of the classes, and the packets in a list and the streams in a program are values: sharing one packet between two lists is not captured.
- Buffers: a stream over a buffer that holds no memory yet is invalid until the first write. Where the source's callers differ in that, it is the parameter `hasData`. A unit's buffer is taken to hold memory even when it is empty.
- Integer widths: 64-bit sizes, 32-bit lengths and the widths of all fields wrap as in the source. A counter value and a returned count are unbounded; the source's `int` would overflow after 2^31 packets.
- Host byte order: numbers are read and written as big-endian directly.
- `ts_packets_append`, `ts_stream_delete` and `ts_unit_compact`: easy members that nothing here calls.
- Contents after an error: what a failed `ts_pmt_unpack` or `ts_pes_unpack` leaves in its output is thrown away by all callers and is not specified. `ts_ebp.c` is modelled as far as the adaptation field calls it.
- PsiSections.PackPsi: requires a buffer; without one the source does not return.
- PacketListProperties.Continuity: packets must announce a payload exactly when they have one, as every packet of a segmentation does; the code counts announcements (`PacketListProperties.TableCountsHistory`).
- ProgramMap.RoundTrip: a descriptor with tag 0 is not written, so its data must be empty; only one descriptor per entry is modelled, as in the source.
- EndToEnd.EndToEnd: the bytes of all packets must number below 2^64, the range of `size_t`.
- NalUnits.ShowStream: what the source does at a start code with nothing behind it is undefined, and not modelled.
- NalUnits.EscapeRoundTrip: the encoder is the one of section 7.4.1 of ITU-T H.264 with a final 03 after two final zeros; the source has no encoder.
- Checks the code does not make: checksums and sync bytes on receipt, resynchronisation, scrambling, adaptation field extensions.
