// internal/ata/smart.go: the SMART summary error log (log address 0x01).
module AtaErrorLog {
  import opened GoInt
  import opened LittleEndian
  import opened Checksum
  import opened Sector

  type Bytes19 = s: seq<byte> | |s| == 19 witness seq(19, _ => 0)
  type Commands = s: seq<ErrorCommand> | |s| == 5 witness seq(5, _ => ZERO_COMMAND)
  type Entries = s: seq<ErrorLogEntry> | |s| == 5 witness seq(5, _ => ZERO_ENTRY)

  datatype ErrorCommand = ErrorCommand(
    deviceControlReg: uint8, featuresReg: uint8, sectorCount: uint8, sectorNumber: uint8,
    cylinderLow: uint8, cylinderHigh: uint8, driveHead: uint8, commandReg: uint8,
    timestampMs: uint32)

  datatype ErrorRecord = ErrorRecord(
    errorReg: uint8, sectorCount: uint8, sectorNumber: uint8, cylinderLow: uint8,
    cylinderHigh: uint8, driveHead: uint8, status: uint8, extendedError: Bytes19,
    state: uint8, timestampMin: uint16)

  datatype ErrorLogEntry = ErrorLogEntry(commands: Commands, error: ErrorRecord)

  datatype SmartErrorLog = SmartErrorLog(
    revNumber: uint8, logPointer: uint8, entries: Entries, ataErrorCount: uint16)

  const ZERO_COMMAND := ErrorCommand(0, 0, 0, 0, 0, 0, 0, 0, 0)
  const ZERO_RECORD := ErrorRecord(0, 0, 0, 0, 0, 0, 0, seq(19, _ => 0), 0, 0)
  const ZERO_ENTRY := ErrorLogEntry(seq(5, _ => ZERO_COMMAND), ZERO_RECORD)

  // --- the layout, read from the sector ---

  ghost function CommandAt(s: seq<byte>, off: nat): ErrorCommand
    requires off + 12 <= |s|
  {
    ErrorCommand(s[off], s[off + 1], s[off + 2], s[off + 3], s[off + 4], s[off + 5], s[off + 6],
                 s[off + 7], U32(s, off + 8))
  }

  ghost function RecordAt(s: seq<byte>, off: nat): ErrorRecord
    requires off + 30 <= |s|
  {
    ErrorRecord(s[off + 1], s[off + 2], s[off + 3], s[off + 4], s[off + 5], s[off + 6], s[off + 7],
                s[off + 8..off + 27], s[off + 27], U16(s, off + 28))
  }

  ghost function EntryAt(s: seq<byte>, off: nat): ErrorLogEntry
    requires off + 90 <= |s|
  {
    ErrorLogEntry(seq(5, c requires 0 <= c < 5 => CommandAt(s, off + 12 * c)), RecordAt(s, off + 60))
  }

  ghost function ErrorLogAt(s: Sector): SmartErrorLog {
    SmartErrorLog(s[0], s[1], seq(5, i requires 0 <= i < 5 => EntryAt(s, 2 + 90 * i)), U16(s, 452))
  }

  // --- the layout, written by position ---

  ghost function CommandByte(c: ErrorCommand, k: nat): byte {
    if k == 0 then c.deviceControlReg
    else if k == 1 then c.featuresReg
    else if k == 2 then c.sectorCount
    else if k == 3 then c.sectorNumber
    else if k == 4 then c.cylinderLow
    else if k == 5 then c.cylinderHigh
    else if k == 6 then c.driveHead
    else if k == 7 then c.commandReg
    else Digit(c.timestampMs, k - 8)
  }

  ghost function RecordByte(e: ErrorRecord, k: nat): byte {
    if k <= 1 then e.errorReg
    else if k == 2 then e.sectorCount
    else if k == 3 then e.sectorNumber
    else if k == 4 then e.cylinderLow
    else if k == 5 then e.cylinderHigh
    else if k == 6 then e.driveHead
    else if k == 7 then e.status
    else if k < 27 then e.extendedError[k - 8]
    else if k == 27 then e.state
    else Digit(e.timestampMin, k - 28)
  }

  ghost function EntryByte(e: ErrorLogEntry, k: nat): byte {
    if k < 60 then CommandByte(e.commands[k / 12], k % 12) else RecordByte(e.error, k - 60)
  }

  ghost function ErrorLogByte(v: SmartErrorLog, p: nat): byte {
    if p == 0 then v.revNumber
    else if p == 1 then v.logPointer
    else if p < 452 then EntryByte(v.entries[(p - 2) / 90], (p - 2) % 90)
    else Digit(v.ataErrorCount, p - 452)
  }

  // Of bytes 0..453, only the first byte of each error record is skipped.
  ghost predicate ErrorLogUses(p: nat) {
    p < 454 && !(2 <= p < 452 && (p - 2) % 90 == 60)
  }

  ghost function ErrorLogCodec(): Codec<SmartErrorLog> {
    Codec(ErrorLogAt, ErrorLogByte, ErrorLogUses)
  }

  // --- the two readings determine each other ---

  // The triggers keep the byte maps folded until a proof names a position.

  ghost predicate CommandShown(s: seq<byte>, off: nat, c: ErrorCommand)
    requires off + 12 <= |s|
  {
    forall k: nat {:trigger CommandByte(c, k)} :: k < 12 ==> s[off + k] == CommandByte(c, k)
  }

  ghost predicate RecordShown(s: seq<byte>, off: nat, e: ErrorRecord)
    requires off + 30 <= |s|
  {
    forall k: nat {:trigger RecordByte(e, k)} :: 0 < k < 30 ==> s[off + k] == RecordByte(e, k)
  }

  ghost predicate CommandsShown(s: seq<byte>, off: nat, e: ErrorLogEntry)
    requires off + 90 <= |s|
  {
    forall k: nat {:trigger EntryByte(e, k)} :: k < 60 ==> s[off + k] == EntryByte(e, k)
  }

  ghost predicate EntryShown(s: seq<byte>, off: nat, e: ErrorLogEntry)
    requires off + 90 <= |s|
  {
    forall k: nat {:trigger EntryByte(e, k)} :: k < 90 && k != 60 ==> s[off + k] == EntryByte(e, k)
  }

  lemma CommandIff(s: seq<byte>, off: nat, c: ErrorCommand)
    requires off + 12 <= |s|
    ensures CommandAt(s, off) == c <==> CommandShown(s, off, c)
  {
    Pow256Values();
    FieldIff(s, off + 8, 4, c.timestampMs);
    if CommandShown(s, off, c) {
      assert s[off] == CommandByte(c, 0) && s[off + 1] == CommandByte(c, 1);
      assert s[off + 2] == CommandByte(c, 2) && s[off + 3] == CommandByte(c, 3);
      assert s[off + 4] == CommandByte(c, 4) && s[off + 5] == CommandByte(c, 5);
      assert s[off + 6] == CommandByte(c, 6) && s[off + 7] == CommandByte(c, 7);
      forall p | off + 8 <= p < off + 12 ensures s[p] == Digit(c.timestampMs, p - (off + 8)) {
        assert s[off + (p - off)] == CommandByte(c, p - off);
      }
    }
  }

  lemma RecordIff(s: seq<byte>, off: nat, e: ErrorRecord)
    requires off + 30 <= |s|
    ensures RecordAt(s, off) == e <==> RecordShown(s, off, e)
  {
    Pow256Values();
    FieldIff(s, off + 28, 2, e.timestampMin);
    var x := s[off + 8..off + 27];
    if RecordAt(s, off) == e {
      assert forall p :: off + 8 <= p < off + 27 ==> x[p - (off + 8)] == s[p];
    }
    if RecordShown(s, off, e) {
      assert s[off + 1] == RecordByte(e, 1) && s[off + 2] == RecordByte(e, 2);
      assert s[off + 3] == RecordByte(e, 3) && s[off + 4] == RecordByte(e, 4);
      assert s[off + 5] == RecordByte(e, 5) && s[off + 6] == RecordByte(e, 6);
      assert s[off + 7] == RecordByte(e, 7) && s[off + 27] == RecordByte(e, 27);
      assert s[off + 28] == RecordByte(e, 28) && s[off + 29] == RecordByte(e, 29);
      forall j | 0 <= j < 19 ensures x[j] == e.extendedError[j] {
        assert s[off + (8 + j)] == RecordByte(e, 8 + j);
      }
    }
  }

  lemma EntryIff(s: seq<byte>, off: nat, e: ErrorLogEntry)
    requires off + 90 <= |s|
    ensures EntryAt(s, off) == e <==> EntryShown(s, off, e)
  {
    RecordIff(s, off + 60, e.error);
    if EntryAt(s, off) == e {
      CommandsAtShown(s, off, e);
      forall k: nat | k < 90 && k != 60 ensures s[off + k] == EntryByte(e, k) {
        if k > 60 {
          assert s[off + 60 + (k - 60)] == RecordByte(e.error, k - 60);
        }
      }
    }
    if EntryShown(s, off, e) {
      CommandsShownAt(s, off, e);
      forall k: nat | 0 < k < 30 ensures s[off + 60 + k] == RecordByte(e.error, k) {
        assert s[off + (60 + k)] == EntryByte(e, 60 + k);
      }
    }
  }

  lemma CommandsAtShown(s: seq<byte>, off: nat, e: ErrorLogEntry)
    requires off + 90 <= |s| && EntryAt(s, off).commands == e.commands
    ensures CommandsShown(s, off, e)
  {
    forall k: nat | k < 60 ensures s[off + k] == EntryByte(e, k) {
      var c := k / 12;
      assert EntryAt(s, off).commands[c] == CommandAt(s, off + 12 * c);
      CommandIff(s, off + 12 * c, e.commands[c]);
      assert s[off + 12 * c + k % 12] == CommandByte(e.commands[c], k % 12);
    }
  }

  lemma CommandsShownAt(s: seq<byte>, off: nat, e: ErrorLogEntry)
    requires off + 90 <= |s| && CommandsShown(s, off, e)
    ensures EntryAt(s, off).commands == e.commands
  {
    forall c | 0 <= c < 5 ensures CommandAt(s, off + 12 * c) == e.commands[c] {
      forall k: nat | k < 12 ensures s[off + 12 * c + k] == CommandByte(e.commands[c], k) {
        CommandSlot(e, c, k);
        assert s[off + (12 * c + k)] == EntryByte(e, 12 * c + k);
      }
      CommandIff(s, off + 12 * c, e.commands[c]);
    }
  }

  lemma CommandSlot(e: ErrorLogEntry, c: nat, k: nat)
    requires c < 5 && k < 12
    ensures EntryByte(e, 12 * c + k) == CommandByte(e.commands[c], k)
  {
    assert (12 * c + k) / 12 == c && (12 * c + k) % 12 == k;
  }

  lemma ErrorLogIff(v: SmartErrorLog, s: Sector)
    ensures ErrorLogAt(s) == v <==> Shows(ErrorLogCodec(), s, v)
  {
    var c := ErrorLogCodec();
    Pow256Values();
    FieldIff(s, 452, 2, v.ataErrorCount);
    if ErrorLogAt(s) == v {
      EntriesAtShown(v, s);
      assert forall p: nat :: 2 <= p < 452 && c.uses(p) ==> c.byteAt(v, p) == ErrorLogByte(v, p);
    }
    if Shows(c, s, v) {
      assert c.uses(0) && c.uses(1) && c.uses(452) && c.uses(453);
      assert EntriesShown(v, s);
      EntriesShownAt(v, s);
    }
  }

  ghost predicate EntriesShown(v: SmartErrorLog, s: Sector) {
    forall p: nat {:trigger ErrorLogByte(v, p)} ::
      2 <= p < 452 && ErrorLogUses(p) ==> s[p] == ErrorLogByte(v, p)
  }

  lemma EntriesAtShown(v: SmartErrorLog, s: Sector)
    requires ErrorLogAt(s).entries == v.entries
    ensures EntriesShown(v, s)
  {
    forall p: nat | 2 <= p < 452 && ErrorLogUses(p) ensures s[p] == ErrorLogByte(v, p) {
      var i, k := (p - 2) / 90, (p - 2) % 90;
      assert ErrorLogAt(s).entries[i] == EntryAt(s, 2 + 90 * i);
      EntryIff(s, 2 + 90 * i, v.entries[i]);
      assert s[2 + 90 * i + k] == EntryByte(v.entries[i], k);
    }
  }

  lemma EntriesShownAt(v: SmartErrorLog, s: Sector)
    requires EntriesShown(v, s)
    ensures ErrorLogAt(s).entries == v.entries
  {
    forall i | 0 <= i < 5 ensures EntryAt(s, 2 + 90 * i) == v.entries[i] {
      forall k: nat | k < 90 && k != 60 ensures s[2 + 90 * i + k] == EntryByte(v.entries[i], k) {
        EntrySlot(v, i, k);
      }
      EntryIff(s, 2 + 90 * i, v.entries[i]);
    }
  }

  lemma EntrySlot(v: SmartErrorLog, i: nat, k: nat)
    requires i < 5 && k < 90
    ensures ErrorLogByte(v, 2 + 90 * i + k) == EntryByte(v.entries[i], k)
    ensures ErrorLogUses(2 + 90 * i + k) <==> k != 60
  {
    assert (90 * i + k) / 90 == i && (90 * i + k) % 90 == k;
  }

  // The parser reads exactly the bytes ErrorLogUses names, each into one place.
  lemma ErrorLogLawful()
    ensures Lawful(ErrorLogCodec())
  {
    forall v: SmartErrorLog, s: Sector
      ensures ErrorLogCodec().get(s) == v <==> Shows(ErrorLogCodec(), s, v)
    {
      ErrorLogIff(v, s);
    }
  }

  method ParseSmartErrorLog(data: seq<byte>) returns (r: Result<SmartErrorLog>)
    ensures r == Parse(ErrorLogCodec(), data)
    ensures r.Success? ==> Encode(ErrorLogCodec(), r.value, data) == data
  {
    if |data| != 512 {
      return Failure(WrongSize(512, |data|));
    }
    var ok := ValidateChecksum(data);
    if !ok {
      return Failure(ChecksumError);
    }
    var entries := new ErrorLogEntry[5](_ => ZERO_ENTRY);
    for i := 0 to 5
      invariant forall j :: 0 <= j < i ==> entries[j] == EntryAt(data, 2 + 90 * j)
    {
      entries[i] := ParseEntry(data, 2 + i * 90);
    }
    r := Success(SmartErrorLog(data[0], data[1], entries[..], U16(data, 452)));
    ErrorLogBuilt(data, r.value);
  }

  // The body of the loop over entries, with the inner loop over commands.
  method ParseEntry(data: seq<byte>, off: nat) returns (entry: ErrorLogEntry)
    requires off + 90 <= |data|
    ensures entry == EntryAt(data, off)
  {
    var commands := new ErrorCommand[5](_ => ZERO_COMMAND);
    for c := 0 to 5
      invariant forall d :: 0 <= d < c ==> commands[d] == CommandAt(data, off + 12 * d)
    {
      var cOff := off + c * 12;
      commands[c] := ErrorCommand(
        data[cOff], data[cOff + 1], data[cOff + 2], data[cOff + 3], data[cOff + 4],
        data[cOff + 5], data[cOff + 6], data[cOff + 7], U32(data, cOff + 8));
    }
    var eOff := off + 60;
    var record := ErrorRecord(
      data[eOff + 1], data[eOff + 2], data[eOff + 3], data[eOff + 4], data[eOff + 5],
      data[eOff + 6], data[eOff + 7], data[eOff + 8..eOff + 27], data[eOff + 27],
      U16(data, eOff + 28));
    assert commands[..] == EntryAt(data, off).commands;
    entry := ErrorLogEntry(commands[..], record);
  }

  lemma ErrorLogBuilt(s: Sector, v: SmartErrorLog)
    requires Balanced(s)
    requires v.revNumber == s[0] && v.logPointer == s[1] && v.ataErrorCount == U16(s, 452)
    requires forall i :: 0 <= i < 5 ==> v.entries[i] == EntryAt(s, 2 + 90 * i)
    ensures v == ErrorLogAt(s)
    ensures Encode(ErrorLogCodec(), v, s) == s
  {
    assert v.entries == ErrorLogAt(s).entries;
    ErrorLogLawful();
    Reencodes(ErrorLogCodec(), s);
  }

  // Every error log survives encoding, checksum and parsing, over any base sector, and
  // nothing else parses to it.
  lemma ErrorLogRoundTrip(v: SmartErrorLog, base: Sector, data: seq<byte>)
    ensures Parse(ErrorLogCodec(), Encode(ErrorLogCodec(), v, base)) == Success(v)
    ensures Parse(ErrorLogCodec(), data) == Success(v) <==> exists b: Sector :: data == Encode(ErrorLogCodec(), v, b)
  {
    ErrorLogLawful();
    EncodeParses(ErrorLogCodec(), v, base);
    ParseIffEncoding(ErrorLogCodec(), data, v);
  }
}
