// cmd/gosmart/main.go: the three modes, as compositions of device reads, parsers,
// lookups and printers.  A device is the collection of what its reads return.
module Commands {
  import opened GoInt
  import opened Sector
  import opened AtaSmart
  import opened AttrModes
  import opened Checksum
  import AtaErrorLog
  import AtaSelective
  import AtaSelfTest
  import Commas
  import ErrorRing
  import Identify
  import LittleEndian
  import NvmeErrorLog
  import NvmePrint
  import NvmeSmart
  import RunTimeout

  // The status command returns its flag together with an optional error.
  datatype Status = Status(failing: bool, error: Option<Error>)

  datatype AtaDevice = AtaDevice(
    open: Result<()>,
    identify: Result<seq<byte>>,
    smartData: Result<seq<byte>>,
    thresholds: Result<seq<byte>>,
    status: Status,
    errorLog: Result<seq<byte>>,
    selfTestLog: Result<seq<byte>>,
    selectiveLog: Result<seq<byte>>)

  // The report, with the warning that goes to standard error.
  datatype AtaReport = AtaReport(
    info: Identify.IdentifyInfo,
    capacity: string,
    failing: bool,
    warning: Option<Error>,
    attributes: Table,
    errorLog: Option<seq<ErrorRing.Line>>,
    selfTestLog: Option<seq<AtaSelfTest.Line>>,
    selectiveLog: Option<seq<AtaSelective.Line>>)

  // --- what the modes return ---

  ghost function ParseIdentify(data: seq<byte>): Result<Identify.IdentifyInfo> {
    if |data| != SIZE then Failure(WrongSize(SIZE, |data|)) else Success(Identify.InfoAt(data))
  }

  // The reads that all three modes begin with, in order; the first failure is the result.
  ghost function Load(dev: AtaDevice): Result<(int, SmartValues)> {
    var _ :- dev.open;
    var idData :- dev.identify;
    var id :- ParseIdentify(idData);
    var svData :- dev.smartData;
    var sv :- Parse(SmartValuesCodec(), svData);
    Success((id.rpm, sv))
  }

  ghost function Listed(dev: AtaDevice): Result<seq<string>> {
    var l :- Load(dev);
    Success(ListedNames(l.1, l.0))
  }

  ghost function Got(dev: AtaDevice, name: string): Result<uint64> {
    var l :- Load(dev);
    var i := Found(l.1, name, l.0);
    if i.None? then Failure(FieldNotFound(name)) else Success(l.1.attributes[i.value].RawValue48())
  }

  ghost function Thresholds(dev: AtaDevice): Result<SmartThresholds> {
    var stData :- dev.thresholds;
    Parse(ThresholdsCodec(), stData)
  }

  // A log that cannot be read or parsed is left out of the report.
  ghost function ErrorSection(read: Result<seq<byte>>): Option<seq<ErrorRing.Line>> {
    if read.Failure? then None
    else
      var el := Parse(AtaErrorLog.ErrorLogCodec(), read.value);
      if el.Failure? then None
      else Some(ErrorRing.Report(el.value.revNumber, el.value.ataErrorCount, ErrorRing.Walked(el.value)))
  }

  ghost function SelfTestSection(read: Result<seq<byte>>): Option<seq<AtaSelfTest.Line>> {
    if read.Failure? then None
    else
      var sl := Parse(AtaSelfTest.SelfTestLogCodec(), read.value);
      if sl.Failure? then None else Some(AtaSelfTest.SelfTestReport(sl.value))
  }

  ghost function SelectiveSection(read: Result<seq<byte>>): Option<seq<AtaSelective.Line>> {
    if read.Failure? then None
    else
      var sl := AtaSelective.ParseSelective(read.value);
      if sl.Failure? then None else Some(AtaSelective.SelectiveReport(sl.value))
  }

  ghost function Shown(dev: AtaDevice): Result<AtaReport> {
    var l :- Load(dev);
    var st :- Thresholds(dev);
    var info := Identify.InfoAt(dev.identify.value);
    Success(AtaReport(info, Commas.Group(Commas.Decimal(info.userCapacity)), dev.status.failing, dev.status.error,
                      Table(l.1.revNumber, PrintedRows(l.1, st, l.0)),
                      ErrorSection(dev.errorLog), SelfTestSection(dev.selfTestLog), SelectiveSection(dev.selectiveLog)))
  }

  // --- what the modes must return, stated on the reads ---

  ghost predicate Whole(read: Result<seq<byte>>) { read.Success? && |read.value| == SIZE }

  ghost predicate Sealed(read: Result<seq<byte>>) { Whole(read) && Balanced(read.value) }

  // What is wrong with a read, if anything: it failed, has the wrong size, or the wrong sum.
  ghost function Fault(read: Result<seq<byte>>, size: nat, checked: bool): Option<Error> {
    if read.Failure? then Some(read.error)
    else if |read.value| != size then Some(WrongSize(size, |read.value|))
    else if checked && !Balanced(read.value) then Some(ChecksumError)
    else None
  }

  ghost function OpenFault(open: Result<()>): Option<Error> {
    if open.Failure? then Some(open.error) else None
  }

  // The error is the first of the faults.
  ghost predicate FailsWith(faults: seq<Option<Error>>, error: Error) {
    exists i ::
      && 0 <= i < |faults| && faults[i] == Some(error)
      && forall j :: 0 <= j < i ==> faults[j].None?
  }

  ghost function LoadFaults(dev: AtaDevice): seq<Option<Error>> {
    [OpenFault(dev.open), Fault(dev.identify, SIZE, false), Fault(dev.smartData, SIZE, true)]
  }

  ghost function RunFaults(dev: AtaDevice): seq<Option<Error>> {
    LoadFaults(dev) + [Fault(dev.thresholds, SIZE, true)]
  }

  ghost predicate Loadable(dev: AtaDevice) {
    dev.open.Success? && Whole(dev.identify) && Sealed(dev.smartData)
  }

  ghost predicate Readable(dev: AtaDevice) { Loadable(dev) && Sealed(dev.thresholds) }

  // The parts of a report that are required: the drive as identified, the status as read,
  // and the attributes with their thresholds.
  ghost predicate ReportsDrive(dev: AtaDevice, report: AtaReport)
    requires Readable(dev)
  {
    && report.info == Identify.InfoAt(dev.identify.value)
    && report.capacity == Commas.Group(Commas.Decimal(report.info.userCapacity))
    && report.failing == dev.status.failing && report.warning == dev.status.error
    && ShowsAttributes(report.attributes, SmartValuesAt(dev.smartData.value), ThresholdsAt(dev.thresholds.value),
                       report.info.rpm)
  }

  // Each optional section is there exactly when its own read succeeds with bytes that are
  // accepted, and then shows the log in those bytes.

  ghost predicate ReportsErrors(section: Option<seq<ErrorRing.Line>>, read: Result<seq<byte>>) {
    && (section.Some? <==> Sealed(read))
    && (section.Some? ==> ErrorRing.ShowsLog(section.value, AtaErrorLog.ErrorLogAt(read.value)))
  }

  ghost predicate ReportsTests(section: Option<seq<AtaSelfTest.Line>>, read: Result<seq<byte>>) {
    && (section.Some? <==> Sealed(read))
    && (section.Some? ==> AtaSelfTest.ShowsTests(section.value, AtaSelfTest.SelfTestLogAt(read.value)))
  }

  ghost predicate ReportsSpans(section: Option<seq<AtaSelective.Line>>, read: Result<seq<byte>>) {
    && (section.Some? <==> Whole(read))
    && (section.Some? ==> AtaSelective.ShowsSpans(section.value, AtaSelective.SelectiveLogAt(read.value)))
  }

  // The reads of all three modes succeed exactly when nothing is wrong with any of them, and
  // otherwise the first fault is the error.
  lemma LoadFirstFault(dev: AtaDevice)
    ensures Load(dev).Success? <==> Loadable(dev)
    ensures Load(dev).Failure? ==> FailsWith(LoadFaults(dev), Load(dev).error)
    ensures Load(dev).Success? ==>
              Load(dev).value == (Identify.InfoAt(dev.identify.value).rpm, SmartValuesAt(dev.smartData.value))
  {
    var faults := LoadFaults(dev);
    if Load(dev).Failure? {
      var i := if faults[0].Some? then 0 else if faults[1].Some? then 1 else 2;
      assert faults[i] == Some(Load(dev).error);
    }
  }

  lemma RunFirstFault(dev: AtaDevice)
    ensures Shown(dev).Success? <==> Readable(dev)
    ensures Shown(dev).Failure? ==> FailsWith(RunFaults(dev), Shown(dev).error)
  {
    LoadFirstFault(dev);
    var faults := RunFaults(dev);
    if Load(dev).Failure? {
      var i :| 0 <= i < 3 && LoadFaults(dev)[i] == Some(Load(dev).error)
               && forall j :: 0 <= j < i ==> LoadFaults(dev)[j].None?;
      assert faults[i] == Some(Shown(dev).error);
    } else if Shown(dev).Failure? {
      assert faults[3] == Some(Shown(dev).error);
    }
  }

  lemma DriveReported(dev: AtaDevice)
    ensures Readable(dev) ==> Shown(dev).Success? && ReportsDrive(dev, Shown(dev).value)
  {
    if Readable(dev) {
      LoadFirstFault(dev);
      var sv, st := SmartValuesAt(dev.smartData.value), ThresholdsAt(dev.thresholds.value);
      PrintedDescribe(sv, st, Identify.InfoAt(dev.identify.value).rpm);
    }
  }

  lemma ErrorsReported(read: Result<seq<byte>>)
    ensures ReportsErrors(ErrorSection(read), read)
  {
    if Sealed(read) { ErrorRing.LogShows(AtaErrorLog.ErrorLogAt(read.value)); }
  }

  lemma TestsReported(read: Result<seq<byte>>)
    ensures ReportsTests(SelfTestSection(read), read)
  {
    if Sealed(read) { AtaSelfTest.ReportShows(AtaSelfTest.SelfTestLogAt(read.value)); }
  }

  lemma SpansReported(read: Result<seq<byte>>)
    ensures ReportsSpans(SelectiveSection(read), read)
  {
    if Whole(read) { AtaSelective.ReportShows(AtaSelective.SelectiveLogAt(read.value)); }
  }

  // --- the modes ---

  method ReadValues(dev: AtaDevice) returns (r: Result<(Identify.IdentifyInfo, SmartValues)>)
    ensures r.Failure? ==> Load(dev) == Failure(r.error)
    ensures r.Success? ==> Load(dev) == Success((r.value.0.rpm, r.value.1))
    ensures r.Success? ==> ParseIdentify(dev.identify.value) == Success(r.value.0)
  {
    if dev.open.Failure? {
      return Failure(dev.open.error);
    }
    if dev.identify.Failure? {
      return Failure(dev.identify.error);
    }
    var id := Identify.ParseIdentify(dev.identify.value);
    if id.Failure? {
      return Failure(id.error);
    }
    if dev.smartData.Failure? {
      return Failure(dev.smartData.error);
    }
    var sv := ParseSmartValues(dev.smartData.value);
    if sv.Failure? {
      return Failure(sv.error);
    }
    return Success((id.value, sv.value));
  }

  method ListATA(dev: AtaDevice) returns (r: Result<seq<string>>)
    ensures r == Listed(dev)
    ensures r.Success? <==> Loadable(dev)
    ensures r.Failure? ==> FailsWith(LoadFaults(dev), r.error)
    ensures r.Success? ==>
              ShowsNames(r.value, SmartValuesAt(dev.smartData.value), Identify.InfoAt(dev.identify.value).rpm)
  {
    LoadFirstFault(dev);
    var l := ReadValues(dev);
    if l.Failure? {
      return Failure(l.error);
    }
    var names := AttrNames(l.value.1, l.value.0.rpm);
    return Success(names);
  }

  method GetATA(dev: AtaDevice, field: string) returns (r: Result<uint64>)
    ensures r == Got(dev, field)
    ensures !Loadable(dev) ==> r.Failure? && FailsWith(LoadFaults(dev), r.error)
    ensures Loadable(dev) && r.Failure? ==> r.error == FieldNotFound(field)
  {
    LoadFirstFault(dev);
    var l := ReadValues(dev);
    if l.Failure? {
      return Failure(l.error);
    }
    var i := AttrByName(l.value.1, field, l.value.0.rpm);
    if i.None? {
      return Failure(FieldNotFound(field));
    }
    return Success(l.value.1.attributes[i.value].RawValue48());
  }

  method RunATA(dev: AtaDevice) returns (r: Result<AtaReport>)
    ensures r == Shown(dev)
    ensures r.Success? <==> Readable(dev)
    ensures r.Failure? ==> FailsWith(RunFaults(dev), r.error)
    ensures r.Success? ==> ReportsDrive(dev, r.value)
    ensures r.Success? ==> ReportsErrors(r.value.errorLog, dev.errorLog)
    ensures r.Success? ==> ReportsTests(r.value.selfTestLog, dev.selfTestLog)
    ensures r.Success? ==> ReportsSpans(r.value.selectiveLog, dev.selectiveLog)
  {
    RunFirstFault(dev);
    DriveReported(dev);
    var l := ReadValues(dev);
    if l.Failure? {
      return Failure(l.error);
    }
    if dev.thresholds.Failure? {
      return Failure(dev.thresholds.error);
    }
    var st := ParseSmartThresholds(dev.thresholds.value);
    if st.Failure? {
      return Failure(st.error);
    }
    var capacity := Commas.FormatComma(l.value.0.userCapacity);
    var table := PrintAttributes(l.value.1, st.value, l.value.0.rpm);
    var errors := ShowErrorLog(dev);
    var tests := ShowSelfTestLog(dev);
    var selective := ShowSelectiveLog(dev);
    return Success(AtaReport(l.value.0, capacity, dev.status.failing, dev.status.error, table,
                             errors, tests, selective));
  }

  method ShowErrorLog(dev: AtaDevice) returns (section: Option<seq<ErrorRing.Line>>)
    ensures section == ErrorSection(dev.errorLog)
    ensures ReportsErrors(section, dev.errorLog)
  {
    ErrorsReported(dev.errorLog);
    section := None;
    if dev.errorLog.Success? {
      var el := AtaErrorLog.ParseSmartErrorLog(dev.errorLog.value);
      if el.Success? {
        var lines := ErrorRing.PrintErrorLog(el.value);
        section := Some(lines);
      }
    }
  }

  method ShowSelfTestLog(dev: AtaDevice) returns (section: Option<seq<AtaSelfTest.Line>>)
    ensures section == SelfTestSection(dev.selfTestLog)
    ensures ReportsTests(section, dev.selfTestLog)
  {
    TestsReported(dev.selfTestLog);
    section := None;
    if dev.selfTestLog.Success? {
      var sl := AtaSelfTest.ParseSmartSelfTestLog(dev.selfTestLog.value);
      if sl.Success? {
        var lines := AtaSelfTest.PrintSelfTestLog(sl.value);
        section := Some(lines);
      }
    }
  }

  method ShowSelectiveLog(dev: AtaDevice) returns (section: Option<seq<AtaSelective.Line>>)
    ensures section == SelectiveSection(dev.selectiveLog)
    ensures ReportsSpans(section, dev.selectiveLog)
  {
    SpansReported(dev.selectiveLog);
    section := None;
    if dev.selectiveLog.Success? {
      var sl := AtaSelective.ParseSmartSelectiveSelfTestLog(dev.selectiveLog.value);
      if sl.Success? {
        var lines := AtaSelective.PrintSelectiveSelfTestLog(sl.value);
        section := Some(lines);
      }
    }
  }

  // --- agreement of the modes over every device ---

  // A name can be got from a device exactly when its list shows it; the list fails
  // exactly when every get does, with the same error.
  lemma GotIffListed(dev: AtaDevice, name: string)
    ensures Got(dev, name).Success? <==> Listed(dev).Success? && name in Listed(dev).value
    ensures Listed(dev).Failure? ==> Got(dev, name) == Failure(Listed(dev).error)
  {
    if Load(dev).Success? {
      FoundIffListed(Load(dev).value.1, name, Load(dev).value.0);
    }
  }

  // The full report is available exactly when the list is and the thresholds are accepted;
  // then it shows the listed names in order, and each get returns the first row's value.
  lemma ShownAgrees(dev: AtaDevice)
    ensures Shown(dev).Success? <==> Listed(dev).Success? && Thresholds(dev).Success?
    ensures Shown(dev).Success? ==>
              var rows, names := Shown(dev).value.attributes.rows, Listed(dev).value;
              && |rows| == |names|
              && (forall j :: 0 <= j < |rows| ==> rows[j].name == names[j])
              && forall j :: 0 <= j < |rows| && (forall i :: 0 <= i < j ==> rows[i].name != rows[j].name)
                   ==> Got(dev, rows[j].name) == Success(rows[j].raw)
  {
    if Shown(dev).Success? {
      var (rpm, sv) := Load(dev).value;
      var st := Thresholds(dev).value;
      var rows := PrintedRows(sv, st, rpm);
      NamesAgree(sv, st, rpm);
      forall j | 0 <= j < |rows| && (forall i :: 0 <= i < j ==> rows[i].name != rows[j].name)
        ensures Got(dev, rows[j].name) == Success(rows[j].raw)
      {
        FoundIsFirstRow(sv, st, rows[j].name, rpm, j);
      }
    }
  }

  // What is got is the little-endian number at bytes 5 to 10 of the first slot with the
  // name, and the error when there is no such slot.
  lemma GotByLayout(dev: AtaDevice, name: string, i: nat)
    requires Loadable(dev)
    ensures var s, rpm := dev.smartData.value, Identify.InfoAt(dev.identify.value).rpm;
            && (FirstNamed(s, rpm, name, i) ==>
                  Got(dev, name) == Success(LittleEndian.LE(s[2 + 12 * i + 5..2 + 12 * i + 11])))
            && (NoneNamed(s, rpm, name) <==> Got(dev, name) == Failure(FieldNotFound(name)))
  {
    LoadFirstFault(dev);
    var s, rpm := dev.smartData.value, Identify.InfoAt(dev.identify.value).rpm;
    FoundByBytes(s, rpm, name, i);
    if i < NUM_ATTRIBUTES {
      RawValueAt(s, i);
    }
  }

  // The printed capacity reads back as the declared sectors times the declared sector size
  // exactly when that product fits 64 bits and the size, unless there are no sectors, fits 32.
  lemma CapacityShownIff(dev: AtaDevice)
    ensures Shown(dev).Success? ==>
              var s := dev.identify.value;
              && |s| == SIZE
              && (Commas.Value(Commas.RemoveCommas(Shown(dev).value.capacity))
                  == Identify.Sectors(s) * Identify.DeclaredSize(s)
                  <==> Identify.Sectors(s) * Identify.DeclaredSize(s) < 0x1_0000_0000_0000_0000
                       && (Identify.Sectors(s) == 0 || Identify.DeclaredSize(s) < 0x1_0000_0000))
  {
    if Shown(dev).Success? {
      Identify.CapacityExactIff(dev.identify.value);
      Commas.FormatInverts(Identify.Capacity(dev.identify.value));
    }
  }

  // One wrong byte in the attribute sector and no mode shows anything of it.
  lemma CorruptValuesRejected(dev: AtaDevice, i: nat, b: byte, name: string)
    requires Load(dev).Success? && i < |dev.smartData.value| && b != dev.smartData.value[i]
    ensures var bad := dev.(smartData := Success(dev.smartData.value[i := b]));
            && Shown(bad) == Failure(ChecksumError)
            && Listed(bad) == Failure(ChecksumError)
            && Got(bad, name) == Failure(ChecksumError)
  {
    CorruptionDetected(SmartValuesCodec(), dev.smartData.value, i, b);
  }

  ghost function SectorAfter(slots: AtaErrorLog.Entries, history: seq<AtaErrorLog.ErrorLogEntry>,
                             revision: uint8, base: Sector): Sector {
    Encode(AtaErrorLog.ErrorLogCodec(), ErrorRing.LogOf(ErrorRing.After(slots, history), revision), base)
  }

  // What the error log read returns decides its own section of the report and nothing else.
  lemma ErrorLogSeparate(dev: AtaDevice, read: Result<seq<byte>>)
    ensures Shown(dev.(errorLog := read))
            == (if Shown(dev).Failure? then Shown(dev)
                else Success(Shown(dev).value.(errorLog := ErrorSection(read))))
  {
  }

  // A drive that has recorded a history, of any length, shows its latest errors in the
  // full report, as many as the wrapped count admits.
  lemma HistoryShown(dev: AtaDevice, slots: AtaErrorLog.Entries, history: seq<AtaErrorLog.ErrorLogEntry>,
                     revision: uint8, base: Sector)
    ensures var read := Success(SectorAfter(slots, history, revision, base));
            Shown(dev).Success? ==>
              Shown(dev.(errorLog := read))
              == Success(Shown(dev).value.(errorLog := Some(ErrorRing.HistoryReport(revision, history))))
    ensures ErrorRing.ShowsHistory(ErrorRing.HistoryReport(revision, history), revision, history)
  {
    ErrorRing.HistoryReportShows(revision, history);
    ErrorRing.RingRefinement(slots, history, revision, base);
    ErrorLogSeparate(dev, Success(SectorAfter(slots, history, revision, base)));
  }

  // One wrong byte in an accepted error log removes its section and changes nothing else.
  lemma CorruptLogOmitted(dev: AtaDevice, i: nat, b: byte)
    requires dev.errorLog.Success? && i < |dev.errorLog.value| && b != dev.errorLog.value[i]
    ensures var read := Success(dev.errorLog.value[i := b]);
            Shown(dev).Success? && ErrorSection(dev.errorLog).Some? ==>
              Shown(dev.(errorLog := read)) == Success(Shown(dev).value.(errorLog := None))
  {
    if ErrorSection(dev.errorLog).Some? {
      CorruptionDetected(AtaErrorLog.ErrorLogCodec(), dev.errorLog.value, i, b);
    }
    ErrorLogSeparate(dev, Success(dev.errorLog.value[i := b]));
  }

  // --- NVMe ---

  datatype NvmeDevice = NvmeDevice(
    open: Result<()>,
    identify: Result<seq<byte>>,
    smartLog: Result<seq<byte>>,
    errorLog: Result<seq<byte>>)

  ghost function LoadNvme(dev: NvmeDevice): Result<NvmeSmart.SmartLog> {
    var _ :- dev.open;
    var data :- dev.smartLog;
    NvmeSmart.Parse(data)
  }

  ghost function NvmeFaults(dev: NvmeDevice): seq<Option<Error>> {
    [OpenFault(dev.open), Fault(dev.smartLog, SIZE, false)]
  }

  lemma NvmeFirstFault(dev: NvmeDevice)
    ensures LoadNvme(dev).Success? <==> dev.open.Success? && Whole(dev.smartLog)
    ensures LoadNvme(dev).Failure? ==> FailsWith(NvmeFaults(dev), LoadNvme(dev).error)
  {
    if LoadNvme(dev).Failure? {
      var i := if NvmeFaults(dev)[0].Some? then 0 else 1;
      assert NvmeFaults(dev)[i] == Some(LoadNvme(dev).error);
    }
  }

  ghost function GotNvme(dev: NvmeDevice, name: string): Result<uint64> {
    var s :- LoadNvme(dev);
    var v := NvmeSmart.ValueOf(s, name);
    if v.None? then Failure(FieldNotFound(name)) else Success(v.value)
  }

  method ReadSmartLog(dev: NvmeDevice) returns (r: Result<NvmeSmart.SmartLog>)
    ensures r == LoadNvme(dev)
  {
    if dev.open.Failure? {
      return Failure(dev.open.error);
    }
    if dev.smartLog.Failure? {
      return Failure(dev.smartLog.error);
    }
    r := NvmeSmart.ParseSmartLog(dev.smartLog.value);
  }

  ghost function ListedNvme(dev: NvmeDevice): Result<seq<string>> {
    var _ :- LoadNvme(dev);
    Success(seq(NvmeSmart.FIELD_COUNT, i requires 0 <= i < NvmeSmart.FIELD_COUNT => NvmeSmart.SMART_LOG_FIELDS[i].name))
  }

  method ListNVMe(dev: NvmeDevice) returns (r: Result<seq<string>>)
    ensures r == ListedNvme(dev)
    ensures r.Failure? ==> FailsWith(NvmeFaults(dev), r.error)
  {
    NvmeFirstFault(dev);
    var s := ReadSmartLog(dev);
    if s.Failure? {
      return Failure(s.error);
    }
    var names := NvmeSmart.FieldNames();
    assert names == ListedNvme(dev).value;
    return Success(names);
  }

  // A field can be got exactly when it is listed, and the failures of the reads are the same.
  lemma GotNvmeIffListed(dev: NvmeDevice, name: string)
    ensures GotNvme(dev, name).Success? <==> ListedNvme(dev).Success? && name in ListedNvme(dev).value
    ensures ListedNvme(dev).Failure? ==> GotNvme(dev, name) == Failure(ListedNvme(dev).error)
  {
    if LoadNvme(dev).Success? {
      var names := ListedNvme(dev).value;
      if name in names {
        var i: nat :| i < |names| && names[i] == name;
        assert NvmeSmart.Named(i, name);
      }
      if GotNvme(dev, name).Success? {
        var i: nat :| NvmeSmart.Named(i, name);
        assert names[i] == name;
      }
    }
  }

  method GetNVMe(dev: NvmeDevice, field: string) returns (r: Result<uint64>)
    ensures r == GotNvme(dev, field)
    ensures LoadNvme(dev).Failure? ==> r.Failure? && FailsWith(NvmeFaults(dev), r.error)
  {
    NvmeFirstFault(dev);
    var s := ReadSmartLog(dev);
    if s.Failure? {
      return Failure(s.error);
    }
    var value, ok := NvmeSmart.FieldValue(s.value, field);
    if !ok {
      return Failure(FieldNotFound(field));
    }
    return Success(value);
  }

  // Over every readable device, the i-th name gets the number stored at its place in the log.
  lemma GotNvmeByLayout(dev: NvmeDevice, i: nat)
    requires LoadNvme(dev).Success? && i < NvmeSmart.FIELD_COUNT
    ensures var (off, len) := NvmeSmart.Extent(i);
            GotNvme(dev, NvmeSmart.SMART_LOG_FIELDS[i].name)
            == Success(LittleEndian.LE(dev.smartLog.value[off..off + len]))
  {
    NvmeSmart.FieldsByLayout(dev.smartLog.value, i);
  }

  datatype NvmeReport = NvmeReport(smart: Option<NvmePrint.Section>, errorLog: Option<seq<NvmeErrorLog.Line>>)

  // Only the controller data is required; the error log is printed only with a SMART log,
  // and one that cannot be read or parsed counts as empty.
  ghost function ShownNvme(dev: NvmeDevice): Result<NvmeReport> {
    var _ :- dev.open;
    var icData :- dev.identify;
    if |icData| != 4096 then Failure(WrongSize(4096, |icData|))
    else
      var sl := LoadNvme(dev);
      Success(if sl.Failure? then NvmeReport(None, None)
              else NvmeReport(Some(NvmePrint.SectionOf(sl.value)), Some(NvmeErrorLog.Report(EntriesRead(dev)))))
  }

  ghost function EntriesRead(dev: NvmeDevice): seq<NvmeErrorLog.ErrorLogEntry> {
    if dev.errorLog.Failure? then []
    else
      var el := NvmeErrorLog.Parse(dev.errorLog.value);
      if el.Failure? then [] else el.value
  }

  // Both sections are there exactly when the health log can be read whole; they show that log
  // and the error entries in the bytes read.
  ghost predicate ReportsNvme(dev: NvmeDevice, report: NvmeReport) {
    && (report.smart.Some? <==> Whole(dev.smartLog)) && (report.errorLog.Some? <==> Whole(dev.smartLog))
    && (report.smart.Some? ==> NvmePrint.ShowsRest(report.smart.value, NvmeSmart.SmartLogAt(dev.smartLog.value)))
    && (report.errorLog.Some? ==> NvmeErrorLog.ShowsEntries(report.errorLog.value, EntriesRead(dev)))
  }

  ghost function RunNvmeFaults(dev: NvmeDevice): seq<Option<Error>> {
    [OpenFault(dev.open), Fault(dev.identify, 4096, false)]
  }

  lemma RunNvmeFirstFault(dev: NvmeDevice)
    ensures ShownNvme(dev).Failure? ==> FailsWith(RunNvmeFaults(dev), ShownNvme(dev).error)
  {
    if ShownNvme(dev).Failure? {
      var i := if RunNvmeFaults(dev)[0].Some? then 0 else 1;
      assert RunNvmeFaults(dev)[i] == Some(ShownNvme(dev).error);
    }
  }

  lemma NvmeReported(dev: NvmeDevice)
    ensures ShownNvme(dev).Success? ==> ReportsNvme(dev, ShownNvme(dev).value)
  {
    NvmeFirstFault(dev);
    if ShownNvme(dev).Success? && Whole(dev.smartLog) {
      var report, log := ShownNvme(dev).value, NvmeSmart.SmartLogAt(dev.smartLog.value);
      assert report.smart == Some(NvmePrint.SectionOf(log));
      assert report.errorLog == Some(NvmeErrorLog.Report(EntriesRead(dev)));
      NvmePrint.RestShown(log);
      NvmeErrorLog.ReportShows(EntriesRead(dev));
    }
  }

  method RunNVMe(dev: NvmeDevice) returns (r: Result<NvmeReport>)
    ensures r == ShownNvme(dev)
    ensures r.Success? <==> dev.open.Success? && dev.identify.Success? && |dev.identify.value| == 4096
    ensures r.Success? && r.value.smart.Some? ==>
              forall i: nat {:trigger NvmeSmart.SMART_LOG_FIELDS[i]} :: i < NvmeSmart.FIELD_COUNT ==>
                var got := GotNvme(dev, NvmeSmart.SMART_LOG_FIELDS[i].name);
                got.Success? && NvmePrint.ShowsField(r.value.smart.value, i, got.value)
    ensures r.Failure? ==> FailsWith(RunNvmeFaults(dev), r.error)
    ensures r.Success? ==> ReportsNvme(dev, r.value)
  {
    RunNvmeFirstFault(dev);
    NvmeReported(dev);
    if dev.open.Failure? {
      return Failure(dev.open.error);
    }
    if dev.identify.Failure? {
      return Failure(dev.identify.error);
    }
    if |dev.identify.value| != 4096 {
      return Failure(WrongSize(4096, |dev.identify.value|));
    }
    var smart := None;
    if dev.smartLog.Success? {
      var sl := NvmeSmart.ParseSmartLog(dev.smartLog.value);
      if sl.Success? {
        smart := Some(sl.value);
      }
    }
    var entries := ReadErrorLog(dev);
    if smart.None? {
      return Success(NvmeReport(None, None));
    }
    var section := NvmePrint.PrintSmartSection(smart.value);
    var lines := NvmeErrorLog.PrintErrorLog(entries);
    AllFieldsAgree(dev);
    return Success(NvmeReport(Some(section), Some(lines)));
  }

  method ReadErrorLog(dev: NvmeDevice) returns (entries: seq<NvmeErrorLog.ErrorLogEntry>)
    ensures entries == EntriesRead(dev)
  {
    entries := [];
    if dev.errorLog.Success? {
      var el := NvmeErrorLog.ParseErrorLog(dev.errorLog.value);
      if el.Success? {
        entries := el.value;
      }
    }
  }

  // The full report exists exactly when the controller data is complete, whatever else
  // fails; it then has both sections or neither, by whether the list and get modes work.
  lemma ShownNvmeWhen(dev: NvmeDevice)
    ensures ShownNvme(dev).Success? <==> dev.open.Success? && dev.identify.Success? && |dev.identify.value| == 4096
    ensures ShownNvme(dev).Success? ==>
              && (ShownNvme(dev).value.smart.Some? <==> ListedNvme(dev).Success?)
              && (ShownNvme(dev).value.errorLog.Some? <==> ListedNvme(dev).Success?)
  {
  }

  lemma FieldGot(dev: NvmeDevice, i: nat)
    requires LoadNvme(dev).Success? && i < NvmeSmart.FIELD_COUNT
    ensures GotNvme(dev, NvmeSmart.SMART_LOG_FIELDS[i].name)
            == Success(NvmeSmart.SMART_LOG_FIELDS[i].get(LoadNvme(dev).value))
  {
    assert NvmeSmart.Named(i, NvmeSmart.SMART_LOG_FIELDS[i].name);
  }

  // Print and get agree on every field of every device: what the full report shows of the
  // i-th field, read back without its commas, is the value that get returns for its name.
  lemma ShownNvmeAgrees(dev: NvmeDevice, i: nat)
    requires i < NvmeSmart.FIELD_COUNT
    ensures ShownNvme(dev).Success? && ShownNvme(dev).value.smart.Some? ==>
              var got := GotNvme(dev, NvmeSmart.SMART_LOG_FIELDS[i].name);
              got.Success? && NvmePrint.ShowsField(ShownNvme(dev).value.smart.value, i, got.value)
  {
    if LoadNvme(dev).Success? {
      FieldGot(dev, i);
      NvmePrint.SectionReads(LoadNvme(dev).value, i);
    }
  }

  lemma AllFieldsAgree(dev: NvmeDevice)
    ensures ShownNvme(dev).Success? && ShownNvme(dev).value.smart.Some? ==>
              forall i: nat {:trigger NvmeSmart.SMART_LOG_FIELDS[i]} :: i < NvmeSmart.FIELD_COUNT ==>
                var got := GotNvme(dev, NvmeSmart.SMART_LOG_FIELDS[i].name);
                got.Success? && NvmePrint.ShowsField(ShownNvme(dev).value.smart.value, i, got.value)
  {
    forall i: nat {:trigger NvmeSmart.SMART_LOG_FIELDS[i]} | i < NvmeSmart.FIELD_COUNT
      ensures ShownNvme(dev).Success? && ShownNvme(dev).value.smart.Some? ==>
                var got := GotNvme(dev, NvmeSmart.SMART_LOG_FIELDS[i].name);
                got.Success? && NvmePrint.ShowsField(ShownNvme(dev).value.smart.value, i, got.value)
    {
      ShownNvmeAgrees(dev, i);
    }
  }

  // The error section lists exactly the 64-byte slots of the bytes read that have a count.
  lemma ShownNvmeErrors(dev: NvmeDevice, k: nat, e: NvmeErrorLog.ErrorLogEntry)
    ensures ShownNvme(dev).Success? && ShownNvme(dev).value.errorLog.Some? ==>
              (NvmeErrorLog.Row(k, e) in ShownNvme(dev).value.errorLog.value
               <==> dev.errorLog.Success? && NvmeErrorLog.Stored(dev.errorLog.value, k) == Some(e) && e.errorCount > 0)
  {
    SectionRows(dev, k, e);
  }

  lemma SectionRows(dev: NvmeDevice, k: nat, e: NvmeErrorLog.ErrorLogEntry)
    ensures NvmeErrorLog.Row(k, e) in NvmeErrorLog.Report(EntriesRead(dev))
            <==> dev.errorLog.Success? && NvmeErrorLog.Stored(dev.errorLog.value, k) == Some(e) && e.errorCount > 0
  {
    if dev.errorLog.Success? && |dev.errorLog.value| % NvmeErrorLog.STRIDE == 0 {
      NvmeErrorLog.ReportedIff(dev.errorLog.value, k, e);
    }
  }

  // A log that cannot be read, or has another length, is reported like an empty one.
  lemma UnreadableLogIsEmpty(dev: NvmeDevice)
    requires dev.errorLog.Failure? || |dev.errorLog.value| % NvmeErrorLog.STRIDE != 0
    ensures ShownNvme(dev) == ShownNvme(dev.(errorLog := Success([])))
    ensures EntriesRead(dev) == []
  {
    assert NvmeErrorLog.EntriesAt([]) == [];
  }

  // --- exit codes ---

  // How fn ends when a mode returns r, or None when one of its reads blocks forever.
  function Ended<T>(r: Option<Result<T>>): Option<RunTimeout.Outcome> {
    match r
    case None => None
    case Some(Success(_)) => Some(RunTimeout.Ok)
    case Some(Failure(_)) => Some(RunTimeout.Failed)
  }

  // Any mode, on any device: 0 is a possible exit code exactly when the mode returns and
  // succeeds, 1 exactly when it returns and fails, 2 exactly when a timeout is set.
  lemma ExitCodes<T>(r: Option<Result<T>>, timeoutSec: int, code: int)
    ensures RunTimeout.Returns(RunTimeout.Call(timeoutSec, Ended(r)), code)
            <==> (code == 0 && r.Some? && r.value.Success?) || (code == 1 && r.Some? && r.value.Failure?)
                 || (code == 2 && timeoutSec != 0)
  {
    RunTimeout.ReturnsIff(RunTimeout.Call(timeoutSec, Ended(r)), code);
  }

  // Getting a field: 0 exactly when the list of the device shows the name.
  lemma GetExitCodes(dev: AtaDevice, name: string, blocks: bool, timeoutSec: int, code: int)
    ensures var shown := Listed(dev).Success? && name in Listed(dev).value;
            RunTimeout.Returns(RunTimeout.Call(timeoutSec, Ended(if blocks then None else Some(Got(dev, name)))), code)
            <==> (code == 0 && !blocks && shown) || (code == 1 && !blocks && !shown) || (code == 2 && timeoutSec != 0)
  {
    GotIffListed(dev, name);
    ExitCodes(if blocks then None else Some(Got(dev, name)), timeoutSec, code);
  }

  lemma GetNvmeExitCodes(dev: NvmeDevice, name: string, blocks: bool, timeoutSec: int, code: int)
    ensures var shown := ListedNvme(dev).Success? && name in ListedNvme(dev).value;
            RunTimeout.Returns(
              RunTimeout.Call(timeoutSec, Ended(if blocks then None else Some(GotNvme(dev, name)))), code)
            <==> (code == 0 && !blocks && shown) || (code == 1 && !blocks && !shown) || (code == 2 && timeoutSec != 0)
  {
    GotNvmeIffListed(dev, name);
    ExitCodes(if blocks then None else Some(GotNvme(dev, name)), timeoutSec, code);
  }
}
