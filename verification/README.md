# Verified model of gosmart

gosmart reads binary SMART sectors from ATA and NVMe drives, decodes them and shows them in
three modes: print everything, list the field names, get one field. This project models the
decoding, the printing and the mode logic in Dafny and proves what they promise about each other.

Run `dafny verify dfyconfig.toml` in this directory.

## What is modelled

- `GoInt`, `Bits`, `LittleEndian`: Go's fixed-width integers with the wrap-around written out,
  `|`, `&`, `<<`, `>>` defined bit by bit, and `encoding/binary`'s little-endian integers.
- `Sector`: what it means that a parser of a 512-byte sector has a layout. A *codec* pairs the
  parser's reading with a byte map written by position; it is *lawful* when the two determine
  each other. `Sector` proves once, for every lawful codec, that the inputs which parse to a value
  are exactly the sealed encodings of that value, that two sectors parse alike exactly when they
  agree on the used bytes, and that any single wrong byte is rejected. Each format then has one
  lemma saying that its codec is lawful; that lemma is what fixes offsets, strides, byte order,
  non-overlap and the exact set of ignored bytes.
- `Checksum`, `AtaErrorLog`, `AtaSmart`, `AtaSelfTest`, `AtaSelective`, `Identify`, `NvmeSmart`,
  `NvmeErrorLog`: the parsers, as methods that fill arrays in loops like the source, proved against those codecs.
- `ErrorRing`: the drive that writes errors into a five-slot ring with a 16-bit counter, and
  `printErrorLog`, which walks the ring backwards. Parser and walk together give back the latest
  errors of any history.
- `AttrTable`, `AttrModes`, `Scan`: the attribute name table and the three independent scans of it.
- `IdentifyLayout`: the IDENTIFY DEVICE layout the other way round: the bytes and bits, by
  position, that declare each thing the parser reads.
- `Commas`: thousands separators, as characters, and `NvmePrint`: the health section that uses them.
- `RunTimeout`: `runWithTimeout` as a transition system with a worker, a channel and a timer.
- `Commands`: the modes over an arbitrary device, whose reads return any bytes or any error.

Printing is modelled as the sequence of rows that is written, with the values each row shows.
Each printer is proved twice: against a function that its loops compute, and against a predicate
(`ShowsLog`, `ShowsAttributes`, `ShowsTests`, `ShowsSpans`, `ShowsEntries`, `ShowsRest`) that says on
the stored entries which lines there are, in which order, and what each of them tells.

## Findings

Each is stated as an exact condition, with the branch that fails.

- The 16-bit ATA error count wraps. The printed report is the true one exactly for histories of
  fewer than 65536 errors (`ReportTrueIff`, `OverflowExample`). Retained errors go missing exactly
  while the wrapped count is below 5 and the history is not (`NoneMissingIff`).
- The get mode returns the first attribute with a name, and names repeat: 191/221, 193/225 and
  194/231 share one, and restricted or unknown identifiers all collapse into one name each. A slot
  can be got exactly when no earlier present slot is in its name class (`ReachableIff`,
  `ShadowedExample`).
- Doubling the declared long logical sector size wraps in 32 bits. The capacity is the declared
  sectors times the declared size exactly when that product fits 64 bits and the size, unless
  there are no sectors, fits 32 (`CapacityExactIff`); a declaration of 2^31 words gives logical
  size 0 and capacity 0, and one of 2^31 + 256 words gives 512 (`ZeroSizeExample`,
  `WrappedSizeExample`). The physical size is the declared one exactly when it fits 32 bits
  (`PhysicalSizeExactIff`).
- The NVMe print mode shows the temperature in degrees where get returns kelvin; every other field
  reads back alike (`ShownNvmeAgrees`).
- The "captive" self-test names cannot be printed, because the mask clears the bit they need
  (`CaptiveUnreachable`).
- The comment on `highestBit` says 1-based; the code is 0-based, and 0 and 1 both give 0. The
  model follows the code (`Identify.HighestBit`).
- The comment on `LogPointer` says 1..5; the walk is total for every byte (`WalkTotal`).

## Model

| member | source | states |
|---|---|---|
| Checksum.ValidateChecksum | internal/ata/smart.go:318-324 | the wrapping uint8 loop accepts exactly the inputs, of any length, whose true byte sum is 0 modulo 256 |
| Checksum.OneLastByte | internal/ata/smart.go:316-324 | every prefix has exactly one last byte that is accepted |
| Checksum.ZerosAccepted | internal/ata/smart.go:318-324 | zeros are accepted, however many, which fixes the sum that is accepted |
| Checksum.SingleByteDetected | internal/ata/smart.go:316-324 | changing any one byte of accepted data makes it rejected |
| Checksum.TwoByteEscapes | internal/ata/smart.go:316-324 | a two-byte change is accepted if and only if the two differences cancel modulo 256 |
| Sector.ParseIffEncoding | internal/ata/smart.go:52-85 | for every lawful codec: data parses to v if and only if it is a checksummed encoding of v over some base sector |
| Sector.EncodeParses | internal/ata/smart.go:156-202 | for every lawful codec: the sealed encoding of any value over any base parses back to the value |
| Sector.GetAgrees | internal/ata/smart.go:61-82 | for every lawful codec: two sectors are decoded alike if and only if they agree on every byte the layout uses |
| Sector.CorruptionDetected | internal/ata/smart.go:56-58 | for every codec: one changed byte in an accepted sector gives the checksum error |
| AtaErrorLog.ErrorLogLawful | internal/ata/smart.go:165-201 | the error-log parser and a byte map written independently by position determine each other, for every log and every sector; of bytes 0..453 only the first byte of each error record is unused |
| AtaErrorLog.ErrorLogRoundTrip | internal/ata/smart.go:156-202 | every error log survives encoding, checksum and parsing over any base sector, and nothing else parses to it |
| AtaErrorLog.ParseSmartErrorLog | internal/ata/smart.go:157-202 | size and checksum errors exactly as specified; otherwise the decoded log, whose encoding over the input is the input |
| AtaErrorLog.ParseEntry | internal/ata/smart.go:169-197 | the inner loop: five commands at stride 12 and the error record at 60 |
| ErrorRing.PrintErrorLog | internal/printer/ata.go:274-312 | on the lines themselves: the version and the message when the count is 0; otherwise the version, the count, the heading, and for each n below min(count,5) in turn the text of entry (pointer+4-n) mod 5 under the number count-n |
| ErrorRing.WalkErrors | internal/printer/ata.go:284-311 | the loop visits min(count,5) slots; the printed uint16 number is count-n, at least 1 and without wrap-around |
| ErrorRing.PrintEntry | internal/printer/ata.go:292-310 | the lines of one error are its block, whose text is stated by `BlockText`; the inner loop reaches it from slot 4 down to slot 0 |
| ErrorRing.BlockText | internal/printer/ata.go:292-310 | the block of an entry is its number with timestampMin/60, then exactly the commands of slots 0..4 whose command byte is not 0, from the highest slot down, then its record |
| ErrorRing.LogShows | internal/printer/ata.go:274-312 | the report of every log says, line by line, what is asked of `PrintErrorLog` |
| ErrorRing.WalkTotal | internal/printer/ata.go:288-292 | for every pointer byte the visited indices are in 0..4 and pairwise distinct |
| ErrorRing.AppendTracks | internal/ata/smart.go:148-154 | every step of the drive keeps: the pointer, and error q in slot q mod 5 until five more have come |
| ErrorRing.WalkedLatest | internal/printer/ata.go:284-292 | walking the ring of such a drive meets exactly the latest errors of its history, newest first, as many as the counter admits, for every counter that does not overcount |
| ErrorRing.RingRefinement | internal/printer/ata.go:274-312 | end to end, for histories of any length: encode, checksum, parse and print gives the last min(n mod 65536, 5) errors numbered downwards |
| ErrorRing.HistoryReportShows | internal/printer/ata.go:274-312 | line by line: the j-th error of that report is the j-th latest of the history, with number (n mod 65536)-j, its hours, its issued commands from the highest slot down, and its record |
| ErrorRing.ReportTrueIff | internal/ata/smart.go:153 | that report equals the one with an unbounded counter if and only if the history is shorter than 65536 |
| ErrorRing.OverflowExample | internal/printer/ata.go:276-279 | after 65536 errors the report says that none are logged |
| ErrorRing.NoneMissingIff | internal/printer/ata.go:284-287 | no retained error is missing if and only if the history is shorter than 5 or the wrapped count is at least 5 |
| AtaSmart.RawValueIsLE | internal/ata/smart.go:19-26 | the six shifts and ors in 64 bits compute the little-endian value of the bytes |
| AtaSmart.RawValueBijective | internal/ata/smart.go:14-26 | raw values are equal only for equal bytes, and every number below 2^48 is one |
| AtaSmart.RawValueAt | internal/ata/smart.go:63-71 | through the parser a raw value is the little-endian number at bytes 5 to 10 of its slot |
| AtaSmart.SmartValuesLawful | internal/ata/smart.go:60-82 | the attribute parser and a positional byte map determine each other; only byte 11 of each slot, 366, 371 and 377..511 are unused |
| AtaSmart.SmartValuesRoundTrip | internal/ata/smart.go:51-85 | every table of values survives encoding, checksum and parsing, and nothing else parses to it |
| AtaSmart.ThresholdsLawful | internal/ata/smart.go:102-107 | likewise for thresholds: bytes 0, 1 and byte 1 of each slot are used, nothing else |
| AtaSmart.ThresholdsRoundTrip | internal/ata/smart.go:93-109 | every table of thresholds survives encoding, checksum and parsing, and nothing else parses to it |
| AtaSmart.ParseSmartValues | internal/ata/smart.go:52-85 | size and checksum errors, otherwise the decoded values, which re-encode to the input |
| AtaSmart.ParseSmartThresholds | internal/ata/smart.go:94-109 | size and checksum errors, otherwise the decoded thresholds, which re-encode to the input |
| AtaSelfTest.SelfTestLogLawful | internal/ata/smart.go:238-252 | the self-test parser and a positional byte map determine each other; bytes 0..506 are all used, each once |
| AtaSelfTest.SelfTestLogRoundTrip | internal/ata/smart.go:229-253 | every self-test log survives encoding, checksum and parsing, and nothing else parses to it |
| AtaSelfTest.ParseSmartSelfTestLog | internal/ata/smart.go:230-253 | size and checksum errors, otherwise the decoded log, which re-encodes to the input |
| AtaSelfTest.PrintSelfTestLog | internal/printer/ata.go:314-344 | the message iff every test number is 0; otherwise the header and, per slot with a test number in order, slot+1, type, status, ten times the low status nibble, hours, and no address iff the high nibble is 0 or the address is all ones |
| AtaSelfTest.RowsAreUsedSlots | internal/printer/ata.go:330-343 | the rows are exactly the slots with a test number, in slot order, each labelled slot+1 and describing the stored entry |
| AtaSelfTest.ReportShows | internal/printer/ata.go:314-344 | the report of every log says, line by line, what is asked of `PrintSelfTestLog` |
| AtaSelfTest.StatusNibbles | internal/ata/smart.go:216-220 | shift and mask are the two nibbles of the status, and ten times the low one does not wrap uint8 |
| AtaSelfTest.CaptiveUnreachable | internal/printer/ata.go:346-367 | only five names are ever printed; none of the captive ones |
| AtaSelective.SelectiveLogLawful | internal/ata/smart.go:275-285 | the selective-log parser and a positional byte map determine each other; of bytes 0..103 only the last two of each span are unused |
| AtaSelective.AcceptedIff | internal/ata/smart.go:269-286 | there is no checksum: data parses to a log if and only if it is a sector that writing the log over it does not change |
| AtaSelective.ParseSmartSelectiveSelfTestLog | internal/ata/smart.go:270-286 | the size error, otherwise the decoded log, which writes back onto the input unchanged |
| AtaSelective.PrintSelectiveSelfTestLog | internal/printer/ata.go:396-413 | the revision, for each of the five spans in order a row with its number, bounds and status, which is missing exactly when it is 0, and the flags with their lowest bit |
| AtaSelective.ReportInjective | internal/printer/ata.go:396-413 | different logs are printed differently |
| AttrTable.AttrNameClass | internal/ata/attr.go:18-102 | every name determines its identifier class: table names are distinct but for three pairs, and differ from the three unknown names |
| AttrTable.SameNameIff | internal/ata/attr.go:88-102 | two identifiers have the same name if and only if they are in the same class, for every rotation rate |
| AttrTable.UnknownRateMasksNothing | internal/ata/attr.go:88-102 | with rate 0 neither restricted name is given, and the unknown name only outside the table |
| AttrTable.UnknownIff | internal/ata/attr.go:18-102 | by identifier and rate: the unknown name exactly outside the table, the unknown-SSD name exactly for rate 1 and the hard-disk identifiers, the unknown-HDD name exactly for rates above 1 and the SSD identifiers |
| AttrModes.PrintAttributes | internal/printer/ata.go:235-272 | the revision; per slot with a nonzero identifier, in order, a row with the stored fields, the threshold of the same position and the little-endian raw value; flag bits 0, 1; failing now iff 0 < threshold and current <= threshold, in the past iff only worst is |
| AttrModes.PrintedDescribe | internal/printer/ata.go:235-272 | the same of the specified rows, for all values, thresholds and rates |
| AttrModes.AttrNames | internal/ata/smart.go:289-297 | for each slot whose identifier is not 0, in order, the name of its identifier |
| AttrModes.AttrByName | internal/ata/smart.go:300-308 | the first present slot with the name, or none when there is none |
| AttrModes.Found | internal/ata/smart.go:300-308 | the function behind it: a match, and no match before it |
| AttrModes.FoundFirst | internal/ata/smart.go:300-308 | slot i is found if and only if it is used, has the name, and no used slot before it has |
| AttrModes.FoundByBytes | internal/ata/smart.go:300-308 | over the bytes of the sector: slot i is found if and only if it is the first with a nonzero identifier byte of that name, and none is if and only if there is none |
| AttrModes.NamesAgree | internal/printer/ata.go:241-271 | printed rows and listed names agree in number and order, for all values, thresholds and rates |
| AttrModes.FoundIffListed | internal/ata/smart.go:289-308 | a name is found if and only if it is listed |
| AttrModes.FoundIsFirstRow | cmd/gosmart/main.go:308-312 | the value found is the raw value of the first printed row with the name, even when names repeat |
| AttrModes.ReachableIff | cmd/gosmart/main.go:308-312 | a slot is found by its own name if and only if no earlier present slot has an identifier of the same class |
| AttrModes.ShadowedExample | internal/ata/attr.go:52-78 | on a hard disk with attributes 194 and 231 the second is never found |
| AttrModes.ListByRateClass | internal/ata/smart.go:289-297 | the whole list depends on the rotation rate only through unknown, SSD or HDD |
| Identify.AtaString | internal/ata/identify.go:116-123 | fields of even length: the text without trailing spaces whose padded bytes are in the places of their neighbours in each pair; of odd length: the pairs exchanged and a zero |
| Identify.TrimRightExact | internal/ata/identify.go:122 | trimming removes exactly the trailing spaces |
| Identify.TextIff | internal/ata/identify.go:113-123 | a text is read from a field of even length if and only if it fits, has no trailing space, and each byte of the field is the neighbouring byte of the padded text |
| Identify.AtaStringRoundTrip | internal/ata/identify.go:113-123 | a padded, swapped string in an even field is read back if and only if it has no trailing space |
| Identify.StringsReadBack | internal/ata/identify.go:56-61 | for every sector: each of model, serial and firmware is the text that is read if and only if its field carries it, byte by byte |
| Identify.HighestBit | internal/ata/identify.go:126-135 | floor(log2 v), 0 for 0 and 1; the unsigned down-counter terminates |
| Bits.Log2Unique | internal/ata/identify.go:125-135 | that position is the only r with 2^r <= v < 2^(r+1) |
| Identify.ParseIdentify | internal/ata/identify.go:45-111 | the size error, otherwise every field as read at its place; what each field means is stated by `IdentifyLayout.DeclaredTold` |
| Identify.ReadSectors | internal/ata/identify.go:76-83 | the or/shift assembly of the words is their little-endian number, 64 or 32 bits wide; `IdentifyLayout.CountRead` says which bytes |
| Identify.CapacityExactIff | internal/ata/identify.go:84-93 | capacity is the declared sectors times the declared sector size if and only if that product fits 64 bits and the size, unless there are no sectors, fits 32; so always below 2^48 sectors of at most 65536 declared bytes, and with 28-bit addressing exactly when the size fits or there are no sectors |
| Identify.WrappedSizeExample | internal/ata/identify.go:86-93 | one 28-bit sector declared as 2^32+512 bytes is stored as 512 bytes and counted as 512 |
| Identify.LogicalSizeExactIff | internal/ata/identify.go:86-92 | the doubled long sector size is exact below 2^31 words and zero exactly at 2^31 |
| Identify.ZeroSizeExample | internal/ata/identify.go:86-92 | a sector that declares 2^31 words has logical size 0 |
| Identify.PhysicalSizeExactIff | internal/ata/identify.go:95-97 | the physical size is the declared size times the declared power of two if and only if that product fits 32 bits; always for declared sizes up to 65536 |
| Identify.RpmRange | internal/ata/identify.go:63-69 | the parsed rate is 0, 1 or 1025..65534; it is the number in bytes 434 and 435 exactly when that is 0, 1 or in that range, and otherwise 0 |
| IdentifyLayout.CountRead | internal/ata/identify.go:76-83 | the sector count read is n if and only if n is in bytes 200..207 when bit 2 of byte 167 is set, or in bytes 120..123 when it is not |
| IdentifyLayout.FlagsRead | internal/ata/identify.go:71-100 | SMART supported, SMART enabled and 48-bit addressing are bit 0 of byte 164, bit 0 of byte 170 and bit 2 of byte 167 |
| IdentifyLayout.DeclaredTold | internal/ata/identify.go:45-111 | for every declaration a sector carries by position: strings, flags, rate, version as floor(log2), SATA fields; logical size 2*words mod 2^32 or 512; capacity sectors*size mod 2^64; physical size size*2^shift mod 2^32 |
| IdentifyLayout.FilledReadBack | internal/ata/identify.go:45-111 | for every declaration and every base sector, filling in the declaration by position and parsing tells the declaration |
| IdentifyLayout.EverySectorDeclares | internal/ata/identify.go:45-111 | every sector carries a declaration, so the two statements above cover all inputs |
| NvmeErrorLog.ParseErrorLog | internal/nvme/nvme.go:139-157 | fails exactly on lengths that are not multiples of 64; otherwise length/64 entries, which re-encode to the input |
| NvmeErrorLog.ParsePut | internal/nvme/nvme.go:143-156 | parsing inverts the encoding of every list of entries, whatever fills the unused bytes |
| NvmeErrorLog.ParseIffEncoding | internal/nvme/nvme.go:139-157 | data parses to a list if and only if it is an encoding of it |
| NvmeErrorLog.ParseConcat | internal/nvme/nvme.go:143-156 | parsing distributes over concatenation of whole logs |
| NvmeErrorLog.EntryLocal | internal/nvme/nvme.go:145-154 | entry i is equal in two logs if and only if bytes 64i..64i+28 are |
| NvmeErrorLog.PrintErrorLog | internal/printer/nvme.go:105-129 | the title, then the message exactly when no entry has a count, otherwise the header and one row per counted entry, in order, under its index |
| NvmeErrorLog.RowsAreCounted | internal/printer/nvme.go:121-128 | the rows are exactly the entries with a count, in order, each under its index |
| NvmeErrorLog.MessageIff | internal/printer/nvme.go:108-118 | the message appears if and only if there are no rows |
| NvmeErrorLog.ReportedIff | internal/printer/nvme.go:105-129 | over the bytes: an entry is shown under a number if and only if it is stored in that 64-byte slot with a count above zero |
| NvmeSmart.SmartLogLawful | internal/nvme/nvme.go:98-121 | the health-log parser and a positional byte map determine each other; reserved bytes and counter high halves are unused |
| NvmeSmart.ParseSmartLog | internal/nvme/nvme.go:93-124 | the size error, otherwise the decoded log, which writes back onto the input unchanged |
| NvmeSmart.CounterIsLow64 | internal/nvme/nvme.go:203-206 | each of the ten counters is its 16-byte value modulo 2^64, and exact if and only if the high half is zero |
| NvmeSmart.FieldNames | internal/nvme/nvme.go:185-191 | the seventeen names, in table order |
| NvmeSmart.FieldValue | internal/nvme/nvme.go:194-201 | the value of the field with the name, or zero and false exactly when no field has it |
| NvmeSmart.NamesDistinct | internal/nvme/nvme.go:164-182 | no two fields share a name, so every getter is reachable |
| NvmeSmart.FieldsByLayout | internal/nvme/nvme.go:164-201 | over every log, the i-th name gets the little-endian number at the i-th offset and length |
| NvmePrint.PrintSmartSection | internal/printer/nvme.go:36-82 | the verdict passes exactly when the warning byte is 0; the explained bits are those set among bits 0..4, in order; after the fifteen value rows come the times that are not 0 and a row for each reporting sensor, in order, in degrees |
| NvmePrint.ReasonsIff | internal/printer/nvme.go:87-103 | of the warning bits, 0 to 4 are explained if and only if they are set and the others never |
| NvmePrint.SectionReads | internal/printer/nvme.go:53-76 | the i-th row, with commas removed, reads back as the i-th named field, in degrees for the temperature; the two times have a row if and only if they are not zero; the verdict and the explained bits are those of the warning byte |
| NvmePrint.SensorRowReads | internal/printer/nvme.go:77-81 | a sensor has a row if and only if it reports, under its number, in degrees |
| Commas.FormatComma | internal/printer/ata.go:416-427 | the digits grouped in threes from the right |
| Commas.GroupDigits | internal/printer/ata.go:418-425 | the loop, writing into a buffer of the reserved capacity d + d/3, which is never exceeded |
| Commas.GroupIsGrouped | internal/printer/ata.go:419-425 | counted from the right every fourth character is a comma and the others are the digits in order; length d + (d-1)/3 |
| Commas.FormatInverts | internal/printer/ata.go:416-427 | removing the commas gives the decimal, which evaluates to the number |
| Commas.FormatInjective | internal/printer/ata.go:416-427 | different numbers are formatted differently |
| Commas.GroupImage | internal/printer/ata.go:419-425 | a string is well grouped if and only if it is the grouping of its own value, with no bound on the value |
| Commas.FormatImage | internal/printer/ata.go:416-427 | the strings produced for uint64 arguments are exactly the well-grouped ones whose value is below 2^64 |
| Commas.FormatLength | internal/printer/ata.go:418 | at most 26 characters for every uint64 |
| RunTimeout.StepKeepsInv | cmd/gosmart/main.go:56-79 | every step keeps the invariant tying worker, channel, timer, exit code and message |
| RunTimeout.SendNeverBlocks | cmd/gosmart/main.go:57-58 | in every reachable state a pending send is possible, also after a timeout |
| RunTimeout.EachActionOnce | cmd/gosmart/main.go:56-79 | a run takes each of its at most four steps once; at most one value is sent |
| RunTimeout.ReturnsIff | cmd/gosmart/main.go:56-79 | over all interleavings, 0 is returned if and only if fn succeeds, 1 if and only if it fails, 2 if and only if a timeout is set |
| RunTimeout.StuckIff | cmd/gosmart/main.go:60-66 | main waits forever if and only if fn blocks and no timeout is set |
| Commands.RunATA | cmd/gosmart/main.go:111-170 | succeeds iff opening and the four required reads have no fault, else gives the first fault. Info, capacity digits, verdict, warning and attribute table are those of the bytes and status read; each log section is there iff its own read has accepted bytes, and lists their slots |
| Commands.ListATA | cmd/gosmart/main.go:217-246 | the names of the used slots in order, or the first fault in the order of the reads |
| Commands.GetATA | cmd/gosmart/main.go:283-314 | the raw value found; the not-found error; or the first fault in the order of the reads |
| Commands.LoadFirstFault | cmd/gosmart/main.go:217-314 | the common reads succeed if and only if none has a fault; otherwise the error is the first fault, in order: open, identify, attributes |
| Commands.GotIffListed | cmd/gosmart/main.go:217-314 | over every device, a name can be got if and only if it is listed; failures are the same |
| Commands.ShownAgrees | cmd/gosmart/main.go:111-314 | the report exists if and only if the list does and the thresholds are accepted; then names agree and each get returns the first row's value |
| Commands.GotByLayout | cmd/gosmart/main.go:308-312 | over the bytes: the value got is the little-endian number at bytes 5 to 10 of the first slot with the name, and the not-found error is given if and only if no slot has it |
| Commands.CapacityShownIff | internal/printer/ata.go:36-38 | the printed capacity reads back as declared sectors times declared size if and only if the product fits 64 bits and the size, unless there are no sectors, fits 32 |
| Commands.ErrorLogSeparate | cmd/gosmart/main.go:150-154 | what the error-log read returns decides its own section and nothing else |
| Commands.CorruptValuesRejected | cmd/gosmart/main.go:111-314 | one wrong byte in the attribute sector makes all three modes fail with the checksum error |
| Commands.HistoryShown | cmd/gosmart/main.go:150-168 | the report of a device that has recorded a history, of any length, has exactly the latest errors as its error section, line by line |
| Commands.CorruptLogOmitted | cmd/gosmart/main.go:150-154 | one wrong byte in the error log removes its section and nothing else |
| Commands.ListNVMe | cmd/gosmart/main.go:248-268 | the seventeen names in table order, or the first failure |
| Commands.GotNvmeIffListed | cmd/gosmart/main.go:248-338 | over every device, a field can be got if and only if it is listed; failures are the same |
| Commands.GetNVMe | cmd/gosmart/main.go:316-338 | the value of the field, the not-found error, or the first failure |
| Commands.GotNvmeByLayout | cmd/gosmart/main.go:316-338 | over every readable device the i-th name gets the number stored at its place |
| Commands.RunNVMe | cmd/gosmart/main.go:172-202 | succeeds iff the controller data is complete, else gives the first fault; each field it shows reads back as what get returns; both sections are there iff the health log is whole, with explained warnings, times, sensors and counted entries in order |
| Commands.ShownNvmeWhen | cmd/gosmart/main.go:172-202 | the report exists if and only if the controller data is complete, whatever else fails, and has both sections if and only if list works, otherwise neither |
| Commands.ShownNvmeAgrees | internal/printer/nvme.go:53-76 | over every device, each printed field read back without its commas is the value get returns, with the temperature in degrees, and the verdict passes if and only if get returns no warning |
| Commands.ShownNvmeErrors | internal/printer/nvme.go:105-129 | the error section lists exactly the counted 64-byte slots of the bytes read |
| Commands.UnreadableLogIsEmpty | cmd/gosmart/main.go:194-198 | an error log that cannot be read or has another length is reported like an empty one |
| Commands.ExitCodes | cmd/gosmart/main.go:56-79 | any mode, returning or blocking: 0 if and only if it returns and succeeds, 1 if and only if it returns and fails, 2 if and only if a timeout is set |
| Commands.GetExitCodes | cmd/gosmart/main.go:56-79 | getting an ATA field can exit with 0 if and only if no read blocks and the list shows it, with 1 if and only if none blocks and it does not, with 2 if and only if a timeout is set |
| Commands.GetNvmeExitCodes | cmd/gosmart/main.go:56-79 | likewise for NVMe devices |

## Left out

- Device access (ioctls, handles, Windows calls): each read is an arbitrary byte sequence or error.
- Detection of the device type, flag parsing, usage and header texts.
- `formatCapacity`: floating-point rounding.
- Commands.RunATA: the report leaves out the section of `printGeneralValues` and the fixed texts of `printATAInfo`; each line there shows one decoded field or one branch on it.
- The texts that explain NVMe warning bits, and the capacities in brackets.
- The fields of NVMe Identify Controller: only its length check is modelled.
- Column widths and number formats of the printed rows; rows carry the values.
- The "LBA" text of an error, which reuses the sector-count register: the row carries the record.
- Wrapping of error texts with the step that failed: the model keeps the underlying error.
- RunTimeout.ReturnsIff: real time is not modelled; the timer may fire at any moment after the call.
- ErrorRing.RingRefinement: the drive is not in the repository; its counter wraps, as the comment on the field allows. A counter that stops at 65535 is covered only by `WalkedLatest`.
- The texts of the self-test status and attribute name tables, beyond which names coincide and which are masked by the rate.
- `fmt`'s `%d` and `strings.TrimRight`, which are modelled by what they are documented to do.
