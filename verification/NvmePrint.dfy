// internal/printer/nvme.go: printNVMeSmartSection.
module NvmePrint {
  import opened GoInt
  import opened Bits
  import opened Scan
  import opened Commas
  import opened NvmeSmart

  // The rows with a value, as each is printed: hexadecimal, degrees, percent, digits with
  // commas, or plain digits.
  datatype Row =
    | Hex(title: string, n: nat)
    | Degrees(title: string, celsius: int)
    | Percent(title: string, n: nat)
    | Grouped(title: string, text: string)
    | Plain(title: string, n: nat)
    | Sensor(num: nat, celsius: int)

  // The verdict, the numbers of the warning bits that are explained, and the rows.
  datatype Section = Section(passed: bool, reasons: seq<nat>, rows: seq<Row>)

  function TemperatureCelsius(s: SmartLog): int {
    if s.temperatureKelvin == 0 then 0 else s.temperatureKelvin - 273
  }

  // --- what the section says ---

  ghost predicate Reported(kelvin: uint16) { kelvin > 0 }

  ghost function SensorRow(i: nat, kelvin: uint16): Row { Sensor(i + 1, kelvin - 273) }

  ghost function GroupedRow(title: string, n: uint64): Row { Grouped(title, Group(Decimal(n))) }

  ghost function SmallRows(s: SmartLog): seq<Row> {
    [ Hex("Critical Warning", s.criticalWarning),
      Degrees("Temperature", TemperatureCelsius(s)),
      Percent("Available Spare", s.availableSpare),
      Percent("Available Spare Threshold", s.spareThreshold),
      Percent("Percentage Used", s.percentageUsed) ]
  }

  ghost function CounterTitle(i: nat): string {
    if i == 0 then "Data Units Read"
    else if i == 1 then "Data Units Written"
    else if i == 2 then "Host Read Commands"
    else if i == 3 then "Host Write Commands"
    else if i == 4 then "Controller Busy Time"
    else if i == 5 then "Power Cycles"
    else if i == 6 then "Power On Hours"
    else if i == 7 then "Unsafe Shutdowns"
    else if i == 8 then "Media and Data Integrity Errors"
    else "Error Information Log Entries"
  }

  ghost function CounterRows(s: SmartLog): seq<Row> {
    seq(10, i requires 0 <= i < 10 => GroupedRow(CounterTitle(i), Counter(s, i)))
  }

  ghost function TimeRow(title: string, minutes: uint32): seq<Row> {
    if minutes > 0 then [Plain(title, minutes)] else []
  }

  const WARNING_TIME := "Warning  Comp. Temperature Time"
  const CRITICAL_TIME := "Critical Comp. Temperature Time"

  ghost function TimeRows(s: SmartLog): seq<Row> {
    TimeRow(WARNING_TIME, s.warningTempTime) + TimeRow(CRITICAL_TIME, s.criticalCompTime)
  }

  ghost function RowsOf(s: SmartLog): seq<Row> {
    SmallRows(s) + CounterRows(s) + TimeRows(s) + Rows(s.tempSensor, Reported, SensorRow)
  }

  ghost function SectionOf(s: SmartLog): Section {
    Section(s.criticalWarning == 0, Reasons(s.criticalWarning, 5), RowsOf(s))
  }

  // The explained bits of a warning byte, among the first k.
  ghost function Reasons(warning: uint8, k: nat): seq<nat> {
    if k == 0 then [] else Reasons(warning, k - 1) + if Bit(warning, k - 1) then [k - 1] else []
  }

  // --- printing it ---

  method PrintCriticalWarnings(cw: uint8) returns (reasons: seq<nat>)
    ensures reasons == Reasons(cw, 5)
  {
    Masks(cw);
    reasons := [];
    if BitAnd(cw, 0x01) != 0 {
      reasons := reasons + [0];
    }
    assert reasons == Reasons(cw, 1);
    if BitAnd(cw, 0x02) != 0 {
      reasons := reasons + [1];
    }
    assert reasons == Reasons(cw, 2);
    if BitAnd(cw, 0x04) != 0 {
      reasons := reasons + [2];
    }
    assert reasons == Reasons(cw, 3);
    if BitAnd(cw, 0x08) != 0 {
      reasons := reasons + [3];
    }
    assert reasons == Reasons(cw, 4);
    if BitAnd(cw, 0x10) != 0 {
      reasons := reasons + [4];
    }
  }

  lemma Masks(cw: uint8)
    ensures BitAnd(cw, 0x01) != 0 <==> Bit(cw, 0)
    ensures BitAnd(cw, 0x02) != 0 <==> Bit(cw, 1)
    ensures BitAnd(cw, 0x04) != 0 <==> Bit(cw, 2)
    ensures BitAnd(cw, 0x08) != 0 <==> Bit(cw, 3)
    ensures BitAnd(cw, 0x10) != 0 <==> Bit(cw, 4)
  {
    AndBit(cw, 0);
    AndBit(cw, 1);
    AndBit(cw, 2);
    AndBit(cw, 3);
    AndBit(cw, 4);
    SmallPowers();
  }

  method PrintSmartSection(sl: SmartLog) returns (section: Section)
    ensures section == SectionOf(sl)
    ensures ShowsRest(section, sl)
  {
    var reasons := [];
    if sl.criticalWarning != 0 {
      reasons := PrintCriticalWarnings(sl.criticalWarning);
    } else {
      NoReasons(5);
    }
    var rows := PrintRows(sl);
    section := Section(sl.criticalWarning == 0, reasons, rows);
    RestShown(sl);
  }

  method PrintRows(sl: SmartLog) returns (w: seq<Row>)
    ensures w == RowsOf(sl)
  {
    w := [ Hex("Critical Warning", sl.criticalWarning),
           Degrees("Temperature", TemperatureCelsius(sl)),
           Percent("Available Spare", sl.availableSpare),
           Percent("Available Spare Threshold", sl.spareThreshold),
           Percent("Percentage Used", sl.percentageUsed) ];
    var counters := PrintCounters(sl);
    var times := PrintTimes(sl);
    var sensors := PrintSensors(sl.tempSensor);
    w := w + counters + times + sensors;
  }

  method PrintTimes(sl: SmartLog) returns (w: seq<Row>)
    ensures w == TimeRows(sl)
  {
    w := [];
    if sl.warningTempTime > 0 {
      w := w + [Plain(WARNING_TIME, sl.warningTempTime)];
    }
    if sl.criticalCompTime > 0 {
      w := w + [Plain(CRITICAL_TIME, sl.criticalCompTime)];
    }
  }

  method PrintCounters(sl: SmartLog) returns (w: seq<Row>)
    ensures w == CounterRows(sl)
  {
    var t0 := FormatComma(sl.dataUnitsRead);
    var t1 := FormatComma(sl.dataUnitsWritten);
    var t2 := FormatComma(sl.hostReads);
    var t3 := FormatComma(sl.hostWrites);
    var t4 := FormatComma(sl.controllerBusyTime);
    var t5 := FormatComma(sl.powerCycles);
    var t6 := FormatComma(sl.powerOnHours);
    var t7 := FormatComma(sl.unsafeShutdowns);
    var t8 := FormatComma(sl.mediaErrors);
    var t9 := FormatComma(sl.numErrLogEntries);
    w := [ Grouped("Data Units Read", t0),
           Grouped("Data Units Written", t1),
           Grouped("Host Read Commands", t2),
           Grouped("Host Write Commands", t3),
           Grouped("Controller Busy Time", t4),
           Grouped("Power Cycles", t5),
           Grouped("Power On Hours", t6),
           Grouped("Unsafe Shutdowns", t7),
           Grouped("Media and Data Integrity Errors", t8),
           Grouped("Error Information Log Entries", t9) ];
  }

  method PrintSensors(sensors: Sensors) returns (w: seq<Row>)
    ensures w == Rows(sensors, Reported, SensorRow)
  {
    w := [];
    for i := 0 to 8
      invariant w == Rows(sensors[..i], Reported, SensorRow)
    {
      RowsStep(sensors, i, Reported, SensorRow);
      if sensors[i] > 0 {
        w := w + [Sensor(i + 1, sensors[i] as int - 273)];
      }
    }
    assert sensors[..8] == sensors;
  }

  // --- what can be read back from it ---

  lemma {:induction false} NoReasons(k: nat)
    ensures Reasons(0, k) == []
  {
    if k > 0 {
      NoReasons(k - 1);
      ShrZero(k - 1);
    }
  }

  // Each of the five bits is explained exactly when it is set; the other three never are.
  lemma {:induction false} ReasonsIff(warning: uint8, k: nat, i: nat)
    ensures i in Reasons(warning, k) <==> i < k && Bit(warning, i)
  {
    if k > 0 { ReasonsIff(warning, k - 1, i); }
  }

  // The warning bits that have an explanation.
  ghost function Explained(warning: nat): set<nat> { set b: nat | b < 5 && Bit(warning, b) }

  lemma {:induction false} ReasonsIncrease(warning: uint8, k: nat)
    ensures forall i, j :: 0 <= i < j < |Reasons(warning, k)| ==> Reasons(warning, k)[i] < Reasons(warning, k)[j] < k
    ensures forall j :: 0 <= j < |Reasons(warning, k)| ==> Reasons(warning, k)[j] < k
  {
    if k > 0 { ReasonsIncrease(warning, k - 1); }
  }

  lemma ReasonsListed(warning: uint8)
    ensures Lists(Reasons(warning, 5), Explained(warning))
  {
    ReasonsIncrease(warning, 5);
    forall i: nat ensures i in Reasons(warning, 5) <==> i in Explained(warning) {
      ReasonsIff(warning, 5, i);
    }
  }

  ghost function ReportingSensors(s: SmartLog): set<nat> { set i: nat | i < 8 && s.tempSensor[i] > 0 }

  // One row for each reporting sensor, in order, in degrees.
  ghost predicate SensorRows(rows: seq<Row>, s: SmartLog) {
    exists slots ::
      && Lists(slots, ReportingSensors(s)) && |rows| == |slots|
      && forall j :: 0 <= j < |slots| ==>
           slots[j] < 8 && rows[j] == Sensor(slots[j] + 1, s.tempSensor[slots[j]] as int - 273)
  }

  lemma SensorsShown(s: SmartLog)
    ensures SensorRows(Rows(s.tempSensor, Reported, SensorRow), s)
  {
    SelectedLists(s.tempSensor, Reported, ReportingSensors(s));
    RowsOfSelected(s.tempSensor, Reported, SensorRow);
  }

  // What the section says beside its first fifteen rows: the verdict, the explained bits in
  // order, and after those rows the times that are not zero and the sensors.
  ghost predicate ShowsRest(section: Section, s: SmartLog) {
    var warned, critical := s.warningTempTime > 0, s.criticalCompTime > 0;
    var after := 15 + (if warned then 1 else 0) + (if critical then 1 else 0);
    && (section.passed <==> s.criticalWarning == 0)
    && Lists(section.reasons, Explained(s.criticalWarning))
    && |section.rows| >= after
    && (warned ==> section.rows[15] == Plain(WARNING_TIME, s.warningTempTime))
    && (critical ==> section.rows[after - 1] == Plain(CRITICAL_TIME, s.criticalCompTime))
    && SensorRows(section.rows[after..], s)
  }

  lemma RestShown(s: SmartLog)
    ensures ShowsRest(SectionOf(s), s)
  {
    ReasonsListed(s.criticalWarning);
    SensorsShown(s);
    SensorsLast(s);
  }

  lemma SensorsLast(s: SmartLog)
    ensures |RowsOf(s)| >= 15 + |TimeRows(s)|
    ensures RowsOf(s)[15..15 + |TimeRows(s)|] == TimeRows(s)
    ensures RowsOf(s)[15 + |TimeRows(s)|..] == Rows(s.tempSensor, Reported, SensorRow)
  {
    assert RowsOf(s) == (SmallRows(s) + CounterRows(s)) + TimeRows(s) + Rows(s.tempSensor, Reported, SensorRow);
  }

  // The number a reader gets from a row: commas removed and degrees taken as they are.
  ghost function ReadBack(row: Row): int {
    match row
    case Hex(_, n) => n
    case Degrees(_, c) => c
    case Percent(_, n) => n
    case Grouped(_, text) => Value(RemoveCommas(text))
    case Plain(_, n) => n
    case Sensor(_, c) => c
  }

  lemma CounterGetter(s: SmartLog, i: nat)
    requires i < 10
    ensures SMART_LOG_FIELDS[i + 5].get(s) == Counter(s, i)
  {
  }

  lemma CounterReads(s: SmartLog, i: nat)
    requires i < 10
    ensures ReadBack(CounterRows(s)[i]) == Counter(s, i)
  {
    GroupedReadBack(CounterRows(s)[i], Counter(s, i));
  }

  lemma GroupedReadBack(row: Row, n: uint64)
    requires row.Grouped? && row.text == Group(Decimal(n))
    ensures ReadBack(row) == n
  {
    FormatInverts(n);
  }

  lemma SmallReads(s: SmartLog, i: nat)
    requires i < 5
    ensures var got := SMART_LOG_FIELDS[i].get(s);
            ReadBack(SmallRows(s)[i]) == if i == 1 && got > 0 then got - 273 else got
  {
  }

  // Where a row of one kind can be.
  lemma RowsByKind(s: SmartLog, x: Row)
    ensures x.Plain? ==> (x in RowsOf(s) <==> x in TimeRows(s))
    ensures x.Sensor? ==> (x in RowsOf(s) <==> x in Rows(s.tempSensor, Reported, SensorRow))
  {
    RowShownIff(s.tempSensor, Reported, SensorRow, x);
    OtherKinds(s, x);
  }

  lemma OtherKinds(s: SmartLog, x: Row)
    ensures x in SmallRows(s) || x in CounterRows(s) ==> !x.Plain? && !x.Sensor?
  {
  }

  // The two times have a row exactly when they are not zero, and it shows the field.
  lemma TimeRowReads(s: SmartLog, n: nat)
    ensures Plain(WARNING_TIME, n) in RowsOf(s) <==> n == SMART_LOG_FIELDS[15].get(s) && n > 0
    ensures Plain(CRITICAL_TIME, n) in RowsOf(s) <==> n == SMART_LOG_FIELDS[16].get(s) && n > 0
  {
    assert WARNING_TIME[0] != CRITICAL_TIME[0];
    RowsByKind(s, Plain(WARNING_TIME, n));
    RowsByKind(s, Plain(CRITICAL_TIME, n));
  }

  // A sensor has a row exactly when it reports, under its number, in degrees.
  lemma SensorRowReads(s: SmartLog, i: nat, celsius: int)
    ensures Sensor(i + 1, celsius) in RowsOf(s)
            <==> i < 8 && s.tempSensor[i] > 0 && celsius == s.tempSensor[i] as int - 273
  {
    var x := Sensor(i + 1, celsius);
    RowsByKind(s, x);
    RowShownIff(s.tempSensor, Reported, SensorRow, x);
    if i < 8 && s.tempSensor[i] > 0 && celsius == s.tempSensor[i] as int - 273 {
      assert Reported(s.tempSensor[i]) && x == SensorRow(i, s.tempSensor[i]);
    }
  }

  // What a section shows of the i-th named field when its value is got: one of the first
  // fifteen rows, read back, with the temperature converted from kelvin; for the two times
  // a row exactly when the value is not zero; and for the warning byte the verdict and the
  // explained bits too.
  ghost predicate ShowsField(section: Section, i: nat, got: uint64) {
    && |section.rows| >= 15
    && (i < 15 ==> ReadBack(section.rows[i]) == if i == 1 && got > 0 then got - 273 else got)
    && (i == 15 ==> forall n: nat :: Plain(WARNING_TIME, n) in section.rows <==> n == got && n > 0)
    && (i == 16 ==> forall n: nat :: Plain(CRITICAL_TIME, n) in section.rows <==> n == got && n > 0)
    && (i == 0 ==> (section.passed <==> got == 0) && Lists(section.reasons, Explained(got)))
  }

  lemma FixedRow(s: SmartLog, i: nat)
    requires i < 15
    ensures |RowsOf(s)| >= 15
    ensures RowsOf(s)[i] == if i < 5 then SmallRows(s)[i] else CounterRows(s)[i - 5]
  {
  }

  lemma FixedRowReads(s: SmartLog, i: nat)
    requires i < 15
    ensures |RowsOf(s)| >= 15
    ensures var got := SMART_LOG_FIELDS[i].get(s);
            ReadBack(RowsOf(s)[i]) == if i == 1 && got > 0 then got - 273 else got
  {
    FixedRow(s, i);
    if i < 5 {
      SmallReads(s, i);
    } else {
      CounterReads(s, i - 5);
      CounterGetter(s, i - 5);
    }
  }

  lemma SectionReads(s: SmartLog, i: nat)
    requires i < FIELD_COUNT
    ensures ShowsField(SectionOf(s), i, SMART_LOG_FIELDS[i].get(s))
  {
    FixedRowReads(s, if i < 15 then i else 0);
    ReasonsListed(s.criticalWarning);
    forall n: nat
      ensures Plain(WARNING_TIME, n) in RowsOf(s) <==> n == SMART_LOG_FIELDS[15].get(s) && n > 0
      ensures Plain(CRITICAL_TIME, n) in RowsOf(s) <==> n == SMART_LOG_FIELDS[16].get(s) && n > 0
    {
      TimeRowReads(s, n);
    }
  }
}
