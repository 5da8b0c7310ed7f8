// internal/ata/smart.go: the SMART self-test log (log address 0x06), and
// internal/printer/ata.go: printSelfTestLog.
module AtaSelfTest {
  import opened GoInt
  import opened Bits
  import opened LittleEndian
  import opened Checksum
  import opened Sector
  import opened Scan

  type Bytes15 = s: seq<byte> | |s| == 15 witness seq(15, _ => 0)
  type SelfTests = s: seq<SelfTestEntry> | |s| == 21 witness seq(21, _ => ZERO_ENTRY)

  const ZERO_ENTRY := SelfTestEntry(0, 0, 0, 0, 0, seq(15, _ => 0))

  datatype SelfTestEntry = SelfTestEntry(
    testNumber: uint8, selfTestStatus: uint8, timestampHours: uint16,
    failureCheckpoint: uint8, lbaFirstFailure: uint32, vendorSpecific: Bytes15) {

    function SelfTestResult(): nat { Shr(selfTestStatus, 4) }

    function SelfTestPercRemaining(): nat { BitAnd(selfTestStatus, 0x0f) }
  }

  datatype SmartSelfTestLog = SmartSelfTestLog(
    revNumber: uint16, entries: SelfTests, mostRecentTest: uint8)

  // --- the layout, read from the sector and written by position ---

  ghost function EntryAt(s: seq<byte>, off: nat): SelfTestEntry
    requires off + 24 <= |s|
  {
    SelfTestEntry(s[off], s[off + 1], U16(s, off + 2), s[off + 4], U32(s, off + 5), s[off + 9..off + 24])
  }

  ghost function SelfTestLogAt(s: Sector): SmartSelfTestLog {
    SmartSelfTestLog(U16(s, 0), seq(21, i requires 0 <= i < 21 => EntryAt(s, 2 + 24 * i)), s[506])
  }

  ghost function EntryByte(e: SelfTestEntry, k: nat): byte {
    if k == 0 then e.testNumber
    else if k == 1 then e.selfTestStatus
    else if k < 4 then Digit(e.timestampHours, k - 2)
    else if k == 4 then e.failureCheckpoint
    else if k < 9 then Digit(e.lbaFirstFailure, k - 5)
    else if k < 24 then e.vendorSpecific[k - 9]
    else 0
  }

  ghost function SelfTestLogByte(v: SmartSelfTestLog, p: nat): byte {
    if p < 2 then Digit(v.revNumber, p)
    else if p < 506 then EntryByte(v.entries[(p - 2) / 24], (p - 2) % 24)
    else v.mostRecentTest
  }

  // Bytes 0..506 are all used, each once.
  ghost predicate SelfTestLogUses(p: nat) { p <= 506 }

  ghost function SelfTestLogCodec(): Codec<SmartSelfTestLog> {
    Codec(SelfTestLogAt, SelfTestLogByte, SelfTestLogUses)
  }

  ghost predicate EntryShown(s: seq<byte>, off: nat, e: SelfTestEntry)
    requires off + 24 <= |s|
  {
    forall k: nat {:trigger EntryByte(e, k)} :: k < 24 ==> s[off + k] == EntryByte(e, k)
  }

  lemma EntryIff(s: seq<byte>, off: nat, e: SelfTestEntry)
    requires off + 24 <= |s|
    ensures EntryAt(s, off) == e <==> EntryShown(s, off, e)
  {
    Pow256Values();
    FieldIff(s, off + 2, 2, e.timestampHours);
    FieldIff(s, off + 5, 4, e.lbaFirstFailure);
    if EntryAt(s, off) == e { EntryAtShown(s, off, e); }
    if EntryShown(s, off, e) { EntryShownAt(s, off, e); }
  }

  lemma EntryAtShown(s: seq<byte>, off: nat, e: SelfTestEntry)
    requires off + 24 <= |s| && EntryAt(s, off) == e
    ensures EntryShown(s, off, e)
  {
    Pow256Values();
    FieldIff(s, off + 2, 2, e.timestampHours);
    FieldIff(s, off + 5, 4, e.lbaFirstFailure);
    var vendor := s[off + 9..off + 24];
    forall k: nat | k < 24 ensures s[off + k] == EntryByte(e, k) {
      if k >= 9 { assert s[off + k] == vendor[k - 9]; }
    }
  }

  lemma EntryShownAt(s: seq<byte>, off: nat, e: SelfTestEntry)
    requires off + 24 <= |s| && EntryShown(s, off, e)
    ensures EntryAt(s, off) == e
  {
    Pow256Values();
    FieldIff(s, off + 2, 2, e.timestampHours);
    FieldIff(s, off + 5, 4, e.lbaFirstFailure);
    var vendor := s[off + 9..off + 24];
    assert s[off] == EntryByte(e, 0) && s[off + 1] == EntryByte(e, 1);
    assert s[off + 4] == EntryByte(e, 4);
    forall p | off + 2 <= p < off + 9 ensures s[p] == EntryByte(e, p - off) {
      assert s[off + (p - off)] == EntryByte(e, p - off);
    }
    forall j | 0 <= j < 15 ensures vendor[j] == e.vendorSpecific[j] {
      assert s[off + (9 + j)] == EntryByte(e, 9 + j);
    }
  }

  lemma EntrySlot(v: SmartSelfTestLog, i: nat, k: nat)
    requires i < 21 && k < 24
    ensures SelfTestLogByte(v, 2 + 24 * i + k) == EntryByte(v.entries[i], k)
  {
    assert (24 * i + k) / 24 == i && (24 * i + k) % 24 == k;
  }

  ghost predicate EntriesShown(v: SmartSelfTestLog, s: Sector) {
    forall p: nat {:trigger SelfTestLogByte(v, p)} :: 2 <= p < 506 ==> s[p] == SelfTestLogByte(v, p)
  }

  lemma EntriesAtShown(v: SmartSelfTestLog, s: Sector)
    requires SelfTestLogAt(s).entries == v.entries
    ensures EntriesShown(v, s)
  {
    forall p: nat | 2 <= p < 506 ensures s[p] == SelfTestLogByte(v, p) {
      var i, k := (p - 2) / 24, (p - 2) % 24;
      assert SelfTestLogAt(s).entries[i] == EntryAt(s, 2 + 24 * i);
      EntryIff(s, 2 + 24 * i, v.entries[i]);
      assert s[2 + 24 * i + k] == EntryByte(v.entries[i], k);
    }
  }

  lemma EntriesShownAt(v: SmartSelfTestLog, s: Sector)
    requires EntriesShown(v, s)
    ensures SelfTestLogAt(s).entries == v.entries
  {
    forall i | 0 <= i < 21 ensures EntryAt(s, 2 + 24 * i) == v.entries[i] {
      forall k: nat | k < 24 ensures s[2 + 24 * i + k] == EntryByte(v.entries[i], k) {
        EntrySlot(v, i, k);
      }
      EntryIff(s, 2 + 24 * i, v.entries[i]);
    }
  }

  lemma SelfTestLogIff(v: SmartSelfTestLog, s: Sector)
    ensures SelfTestLogAt(s) == v <==> Shows(SelfTestLogCodec(), s, v)
  {
    var c := SelfTestLogCodec();
    Pow256Values();
    FieldIff(s, 0, 2, v.revNumber);
    if SelfTestLogAt(s) == v {
      EntriesAtShown(v, s);
      assert forall p: nat :: c.byteAt(v, p) == SelfTestLogByte(v, p);
    }
    if Shows(c, s, v) {
      assert c.uses(0) && c.uses(1) && c.uses(506);
      assert EntriesShown(v, s);
      EntriesShownAt(v, s);
    }
  }

  lemma SelfTestLogLawful()
    ensures Lawful(SelfTestLogCodec())
  {
    forall v: SmartSelfTestLog, s: Sector
      ensures SelfTestLogCodec().get(s) == v <==> Shows(SelfTestLogCodec(), s, v)
    {
      SelfTestLogIff(v, s);
    }
  }

  method ParseSmartSelfTestLog(data: seq<byte>) returns (r: Result<SmartSelfTestLog>)
    ensures r == Parse(SelfTestLogCodec(), data)
    ensures r.Success? ==> Encode(SelfTestLogCodec(), r.value, data) == data
  {
    if |data| != 512 {
      return Failure(WrongSize(512, |data|));
    }
    var ok := ValidateChecksum(data);
    if !ok {
      return Failure(ChecksumError);
    }
    var entries := new SelfTestEntry[21](_ => ZERO_ENTRY);
    for i := 0 to 21
      invariant forall j :: 0 <= j < i ==> entries[j] == EntryAt(data, 2 + 24 * j)
    {
      var off := 2 + i * 24;
      entries[i] := SelfTestEntry(
        data[off], data[off + 1], U16(data, off + 2), data[off + 4], U32(data, off + 5),
        data[off + 9..off + 24]);
    }
    assert entries[..] == SelfTestLogAt(data).entries;
    r := Success(SmartSelfTestLog(U16(data, 0), entries[..], data[506]));
    Reencodes(SelfTestLogCodec(), data) by { SelfTestLogLawful(); }
  }

  // --- printing ---

  datatype Line =
    | Revision(revision: uint16)
    | NoneLogged
    | Header
    | Row(num: nat, testType: string, status: string, remaining: nat, hours: uint16, lba: Option<uint32>)

  function SelfTestTypeName(num: uint8): string { MaskedTypeName(BitAnd(num, 0x7f)) }

  function MaskedTypeName(masked: nat): string {
    match masked
    case 0x01 => "Short offline"
    case 0x02 => "Extended offline"
    case 0x03 => "Conveyance offline"
    case 0x04 => "Selective offline"
    case 0x81 => "Short captive"
    case 0x82 => "Extended captive"
    case 0x83 => "Conveyance captive"
    case 0x84 => "Selective captive"
    case _ => "Unknown"
  }

  function SelfTestStatusString(result: nat): string {
    match result
    case 0 => "Completed without error"
    case 1 => "Aborted by host"
    case 2 => "Interrupted (host reset)"
    case 3 => "Fatal or unknown error"
    case 4 => "Completed: unknown failure"
    case 5 => "Completed: electrical failure"
    case 6 => "Completed: servo/seek failure"
    case 7 => "Completed: read failure"
    case 8 => "Completed: handling damage"
    case 15 => "Self-test in progress"
    case _ => "Unknown status"
  }

  ghost predicate Logged(e: SelfTestEntry) { e.testNumber != 0 }

  // The row of a slot: numbered from one, with ten times the low status nibble as
  // the percentage, and an address only when a failing test recorded one.
  ghost function RowOf(i: nat, e: SelfTestEntry): Line {
    var result := e.selfTestStatus / 16;
    Row(i + 1, SelfTestTypeName(e.testNumber), SelfTestStatusString(result),
        10 * (e.selfTestStatus % 16), e.timestampHours,
        if result == 0 || e.lbaFirstFailure == 0xffff_ffff then None else Some(e.lbaFirstFailure))
  }

  ghost function SelfTestReport(sl: SmartSelfTestLog): seq<Line> {
    [Revision(sl.revNumber)] +
    if forall i :: 0 <= i < 21 ==> !Logged(sl.entries[i]) then [NoneLogged]
    else [Header] + Rows(sl.entries, Logged, RowOf)
  }

  // --- what the report must say, stated on the stored entries ---

  ghost function UsedSlots(sl: SmartSelfTestLog): set<nat> {
    set p: nat | p < 21 && sl.entries[p].testNumber != 0
  }

  // The line of the test in slot p.
  ghost predicate Describes(line: Line, p: nat, e: SelfTestEntry) {
    && line.Row? && line.num == p + 1 && line.hours == e.timestampHours
    && line.testType == MaskedTypeName(e.testNumber % 128)
    && line.status == SelfTestStatusString(e.selfTestStatus / 16)
    && line.remaining == 10 * (e.selfTestStatus % 16)
    && (line.lba.None? <==> e.selfTestStatus / 16 == 0 || e.lbaFirstFailure == 0xffff_ffff)
    && (line.lba.Some? ==> line.lba.value == e.lbaFirstFailure)
  }

  // One line for each used slot, in order.
  ghost predicate TestLines(lines: seq<Line>, sl: SmartSelfTestLog) {
    exists slots ::
      && Lists(slots, UsedSlots(sl)) && |lines| == |slots|
      && forall j :: 0 <= j < |slots| ==>
           slots[j] < 21 && Describes(lines[j], slots[j], sl.entries[slots[j]])
  }

  // The message exactly when no slot is used.
  ghost predicate ShowsTests(w: seq<Line>, sl: SmartSelfTestLog) {
    if UsedSlots(sl) == {} then w == [Revision(sl.revNumber), NoneLogged]
    else |w| >= 2 && w[..2] == [Revision(sl.revNumber), Header] && TestLines(w[2..], sl)
  }

  lemma RowDescribes(i: nat, e: SelfTestEntry)
    ensures Describes(RowOf(i, e), i, e)
  {
    TypeNameMasked(e.testNumber);
  }

  // The rows are exactly the used slots, in slot order, each labelled with its slot number
  // and describing the stored test.
  lemma RowsAreUsedSlots(sl: SmartSelfTestLog)
    ensures var rows, used := Rows(sl.entries, Logged, RowOf), Selected(sl.entries, Logged);
            && |rows| == |used| && Lists(used, UsedSlots(sl))
            && (forall j :: 0 <= j < |used| ==> used[j] < 21 && rows[j] == RowOf(used[j], sl.entries[used[j]]))
            && (forall j :: 0 <= j < |used| ==> Describes(rows[j], used[j], sl.entries[used[j]]))
            && (forall i, j :: 0 <= i < j < |used| ==> rows[i].num < rows[j].num)
            && (forall p: nat :: p < 21 ==> (sl.entries[p].testNumber != 0 <==> p in used))
  {
    var used := Selected(sl.entries, Logged);
    SelectedLists(sl.entries, Logged, UsedSlots(sl));
    RowsOfSelected(sl.entries, Logged, RowOf);
    forall j | 0 <= j < |used| ensures Describes(RowOf(used[j], sl.entries[used[j]]), used[j], sl.entries[used[j]]) {
      RowDescribes(used[j], sl.entries[used[j]]);
    }
  }

  lemma ReportShows(sl: SmartSelfTestLog)
    ensures ShowsTests(SelfTestReport(sl), sl)
  {
    NoneUsedIff(sl);
    if UsedSlots(sl) != {} {
      HeaderThenRows(sl);
      RowsShow(sl);
    }
  }

  lemma RowsShow(sl: SmartSelfTestLog)
    ensures TestLines(Rows(sl.entries, Logged, RowOf), sl)
  {
    RowsAreUsedSlots(sl);
  }

  lemma HeaderThenRows(sl: SmartSelfTestLog)
    requires exists i :: 0 <= i < 21 && Logged(sl.entries[i])
    ensures var w := SelfTestReport(sl);
            |w| >= 2 && w[..2] == [Revision(sl.revNumber), Header] && w[2..] == Rows(sl.entries, Logged, RowOf)
  {
  }

  lemma NoneUsedIff(sl: SmartSelfTestLog)
    ensures UsedSlots(sl) == {} <==> forall i :: 0 <= i < 21 ==> !Logged(sl.entries[i])
  {
    if i :| 0 <= i < 21 && Logged(sl.entries[i]) {
      assert i in UsedSlots(sl);
    } else {
      forall p: nat | p < 21 ensures sl.entries[p].testNumber == 0 {
        assert !Logged(sl.entries[p]);
      }
    }
  }

  // The status byte is the pair of its nibbles, and the percentage fits a uint8.
  lemma StatusNibbles(e: SelfTestEntry)
    ensures e.SelfTestResult() == e.selfTestStatus / 16
    ensures e.SelfTestPercRemaining() == e.selfTestStatus % 16
    ensures Wrap8(e.SelfTestPercRemaining() * 10) == 10 * (e.selfTestStatus % 16)
  {
    AndMasks(e.selfTestStatus);
    ShrFour(e.selfTestStatus);
  }

  // The mask drops the top bit, so the test name ignores it, and the captive cases,
  // which all have it set, are never taken.
  lemma TypeNameMasked(num: uint8)
    ensures SelfTestTypeName(num) == MaskedTypeName(num % 128)
  {
    AndMasks(num);
  }

  lemma CaptiveUnreachable(num: uint8)
    ensures SelfTestTypeName(num)
            in ["Short offline", "Extended offline", "Conveyance offline", "Selective offline", "Unknown"]
  {
    TypeNameMasked(num);
    NamesBelow128(num % 128);
  }

  lemma NamesBelow128(m: nat)
    requires m < 128
    ensures MaskedTypeName(m)
            in ["Short offline", "Extended offline", "Conveyance offline", "Selective offline", "Unknown"]
  {
  }

  method PrintSelfTestLog(sl: SmartSelfTestLog) returns (w: seq<Line>)
    ensures w == SelfTestReport(sl)
    ensures ShowsTests(w, sl)
  {
    w := [Revision(sl.revNumber)];
    var hasEntries := false;
    for i := 0 to 21
      invariant !hasEntries
      invariant forall j :: 0 <= j < i ==> !Logged(sl.entries[j])
    {
      if sl.entries[i].testNumber != 0 {
        hasEntries := true;
        assert Logged(sl.entries[i]);
        break;
      }
    }
    if !hasEntries {
      w := w + [NoneLogged];
    } else {
      var rows := PrintRows(sl.entries);
      w := w + [Header] + rows;
    }
    assert w == SelfTestReport(sl);
    ReportShows(sl);
  }

  method PrintRows(entries: SelfTests) returns (w: seq<Line>)
    ensures w == Rows(entries, Logged, RowOf)
  {
    w := [];
    for i := 0 to 21
      invariant w == Rows(entries[..i], Logged, RowOf)
    {
      RowsStep(entries, i, Logged, RowOf);
      var e := entries[i];
      if e.testNumber == 0 {
        continue;
      }
      StatusNibbles(e);
      var remaining := Wrap8(e.SelfTestPercRemaining() * 10);
      var lba := None;
      if e.SelfTestResult() != 0 && e.lbaFirstFailure != 0xffff_ffff {
        lba := Some(e.lbaFirstFailure);
      }
      w := w + [Row(i + 1, SelfTestTypeName(e.testNumber), SelfTestStatusString(e.SelfTestResult()),
                    remaining, e.timestampHours, lba)];
    }
    assert entries[..21] == entries;
  }

  // Every self-test log survives encoding, checksum and parsing, over any base sector, and
  // nothing else parses to it.
  lemma SelfTestLogRoundTrip(v: SmartSelfTestLog, base: Sector, data: seq<byte>)
    ensures Parse(SelfTestLogCodec(), Encode(SelfTestLogCodec(), v, base)) == Success(v)
    ensures Parse(SelfTestLogCodec(), data) == Success(v)
            <==> exists b: Sector :: data == Encode(SelfTestLogCodec(), v, b)
  {
    SelfTestLogLawful();
    EncodeParses(SelfTestLogCodec(), v, base);
    ParseIffEncoding(SelfTestLogCodec(), data, v);
  }
}
