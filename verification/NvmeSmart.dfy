// internal/nvme/nvme.go: the SMART / Health Information log and its named fields.
module NvmeSmart {
  import opened GoInt
  import opened LittleEndian
  import opened Sector

  type Sensors = s: seq<uint16> | |s| == 8 witness seq(8, _ => 0)

  datatype SmartLog = SmartLog(
    criticalWarning: uint8,
    temperatureKelvin: uint16,
    availableSpare: uint8,
    spareThreshold: uint8,
    percentageUsed: uint8,
    dataUnitsRead: uint64,
    dataUnitsWritten: uint64,
    hostReads: uint64,
    hostWrites: uint64,
    controllerBusyTime: uint64,
    powerCycles: uint64,
    powerOnHours: uint64,
    unsafeShutdowns: uint64,
    mediaErrors: uint64,
    numErrLogEntries: uint64,
    warningTempTime: uint32,
    criticalCompTime: uint32,
    tempSensor: Sensors)

  // --- the layout, read from the log and written by position ---

  // The low half of a 16-byte counter.
  function Le128Lo64(b: seq<byte>): uint64
    requires |b| == 16
  {
    U64(b[..8], 0)
  }

  ghost function SmartLogAt(s: Sector): SmartLog {
    SmartLog(s[0], U16(s, 1), s[3], s[4], s[5],
             U64(s, 32), U64(s, 48), U64(s, 64), U64(s, 80), U64(s, 96),
             U64(s, 112), U64(s, 128), U64(s, 144), U64(s, 160), U64(s, 176),
             U32(s, 192), U32(s, 196),
             seq(8, i requires 0 <= i < 8 => U16(s, 200 + 2 * i)))
  }

  ghost function Counter(v: SmartLog, i: nat): uint64 {
    if i == 0 then v.dataUnitsRead
    else if i == 1 then v.dataUnitsWritten
    else if i == 2 then v.hostReads
    else if i == 3 then v.hostWrites
    else if i == 4 then v.controllerBusyTime
    else if i == 5 then v.powerCycles
    else if i == 6 then v.powerOnHours
    else if i == 7 then v.unsafeShutdowns
    else if i == 8 then v.mediaErrors
    else v.numErrLogEntries
  }

  ghost function SmartLogByte(v: SmartLog, p: nat): byte {
    if p == 0 then v.criticalWarning
    else if p < 3 then Digit(v.temperatureKelvin, p - 1)
    else if p == 3 then v.availableSpare
    else if p == 4 then v.spareThreshold
    else if p == 5 then v.percentageUsed
    else if p < 32 then 0
    else if p < 192 then Digit(Counter(v, (p - 32) / 16), (p - 32) % 16)
    else if p < 196 then Digit(v.warningTempTime, p - 192)
    else if p < 200 then Digit(v.criticalCompTime, p - 196)
    else if p < 216 then Digit(v.tempSensor[(p - 200) / 2], p % 2)
    else 0
  }

  // The reserved bytes 6..31 and 216..511 and the high half of each counter are skipped.
  ghost predicate SmartLogUses(p: nat) {
    p < 6 || (32 <= p < 192 && (p - 32) % 16 < 8) || 192 <= p < 216
  }

  ghost function SmartLogCodec(): Codec<SmartLog> { Codec(SmartLogAt, SmartLogByte, SmartLogUses) }

  // --- the two readings determine each other ---

  ghost predicate Between(v: SmartLog, s: Sector, from: nat, to: nat)
    requires to <= SIZE
  {
    forall p: nat {:trigger SmartLogByte(v, p)} :: from <= p < to && SmartLogUses(p) ==> s[p] == SmartLogByte(v, p)
  }

  lemma HeadIff(v: SmartLog, s: Sector)
    ensures s[0] == v.criticalWarning && U16(s, 1) == v.temperatureKelvin && s[3] == v.availableSpare
            && s[4] == v.spareThreshold && s[5] == v.percentageUsed
            <==> Between(v, s, 0, 32)
  {
    Pow256Values();
    FieldIff(s, 1, 2, v.temperatureKelvin);
    if Between(v, s, 0, 32) {
      assert forall p: nat :: p < 6 ==> s[p] == SmartLogByte(v, p);
    }
  }

  lemma CounterByte(v: SmartLog, i: nat, k: nat)
    requires i < 10 && k < 16
    ensures SmartLogUses(32 + 16 * i + k) <==> k < 8
    ensures SmartLogByte(v, 32 + 16 * i + k) == Digit(Counter(v, i), k)
  {
    assert (16 * i + k) / 16 == i && (16 * i + k) % 16 == k;
  }

  lemma CounterIff(v: SmartLog, s: Sector, i: nat)
    requires i < 10
    ensures U64(s, 32 + 16 * i) == Counter(v, i) <==> Between(v, s, 32 + 16 * i, 48 + 16 * i)
  {
    Pow256Values();
    var off := 32 + 16 * i;
    FieldIff(s, off, 8, Counter(v, i));
    if FieldShown(s, off, 8, Counter(v, i)) {
      forall p: nat | off <= p < off + 16 && SmartLogUses(p) ensures s[p] == SmartLogByte(v, p) {
        CounterByte(v, i, p - off);
      }
    }
    if Between(v, s, off, off + 16) {
      forall p: nat | off <= p < off + 8 ensures s[p] == Digit(Counter(v, i), p - off) {
        CounterByte(v, i, p - off);
      }
    }
  }

  lemma TimesIff(v: SmartLog, s: Sector)
    ensures U32(s, 192) == v.warningTempTime && U32(s, 196) == v.criticalCompTime <==> Between(v, s, 192, 200)
  {
    Pow256Values();
    FieldIff(s, 192, 4, v.warningTempTime);
    FieldIff(s, 196, 4, v.criticalCompTime);
    if Between(v, s, 192, 200) {
      assert forall p: nat :: 192 <= p < 200 ==> s[p] == SmartLogByte(v, p);
    }
  }

  lemma SensorIff(v: SmartLog, s: Sector, i: nat)
    requires i < 8
    ensures U16(s, 200 + 2 * i) == v.tempSensor[i] <==> Between(v, s, 200 + 2 * i, 202 + 2 * i)
  {
    Pow256Values();
    FieldIff(s, 200 + 2 * i, 2, v.tempSensor[i]);
    assert SmartLogByte(v, 200 + 2 * i) == Digit(v.tempSensor[i], 0);
    assert SmartLogByte(v, 201 + 2 * i) == Digit(v.tempSensor[i], 1);
  }

  ghost predicate SensorsBetween(v: SmartLog, s: Sector) {
    forall i: nat :: i < 8 ==> Between(v, s, 200 + 2 * i, 202 + 2 * i)
  }

  lemma SensorsIff(v: SmartLog, s: Sector)
    ensures SmartLogAt(s).tempSensor == v.tempSensor <==> SensorsBetween(v, s)
  {
    forall i: nat | i < 8
      ensures U16(s, 200 + 2 * i) == v.tempSensor[i] <==> Between(v, s, 200 + 2 * i, 202 + 2 * i)
    {
      SensorIff(v, s, i);
    }
    assert forall i: nat :: i < 8 ==> SmartLogAt(s).tempSensor[i] == U16(s, 200 + 2 * i);
  }

  ghost predicate CountersEqual(v: SmartLog, s: Sector) {
    forall i: nat :: i < 10 ==> U64(s, 32 + 16 * i) == Counter(v, i)
  }

  ghost predicate CountersBetween(v: SmartLog, s: Sector) {
    forall i: nat :: i < 10 ==> Between(v, s, 32 + 16 * i, 48 + 16 * i)
  }

  lemma CountersIff(v: SmartLog, s: Sector)
    ensures CountersEqual(v, s) <==> CountersBetween(v, s)
  {
    forall i: nat | i < 10
      ensures U64(s, 32 + 16 * i) == Counter(v, i) <==> Between(v, s, 32 + 16 * i, 48 + 16 * i)
    {
      CounterIff(v, s, i);
    }
  }

  lemma CountersAre(v: SmartLog, s: Sector)
    ensures CountersEqual(v, s)
            <==> SmartLogAt(s) == v.(criticalWarning := s[0], temperatureKelvin := U16(s, 1), availableSpare := s[3],
                                     spareThreshold := s[4], percentageUsed := s[5], warningTempTime := U32(s, 192),
                                     criticalCompTime := U32(s, 196), tempSensor := SmartLogAt(s).tempSensor)
  {
    if CountersEqual(v, s) {
      assert Counter(v, 0) == U64(s, 32 + 16 * 0) && Counter(v, 1) == U64(s, 32 + 16 * 1);
      assert Counter(v, 2) == U64(s, 32 + 16 * 2) && Counter(v, 3) == U64(s, 32 + 16 * 3);
      assert Counter(v, 4) == U64(s, 32 + 16 * 4) && Counter(v, 5) == U64(s, 32 + 16 * 5);
      assert Counter(v, 6) == U64(s, 32 + 16 * 6) && Counter(v, 7) == U64(s, 32 + 16 * 7);
      assert Counter(v, 8) == U64(s, 32 + 16 * 8) && Counter(v, 9) == U64(s, 32 + 16 * 9);
    }
  }

  lemma SmartLogIff(v: SmartLog, s: Sector)
    ensures SmartLogAt(s) == v <==> Shows(SmartLogCodec(), s, v)
  {
    HeadIff(v, s);
    CountersIff(v, s);
    CountersAre(v, s);
    TimesIff(v, s);
    SensorsIff(v, s);
    if SmartLogAt(s) == v { JoinParts(v, s); }
    if Shows(SmartLogCodec(), s, v) { SplitParts(v, s); }
  }

  lemma JoinParts(v: SmartLog, s: Sector)
    requires Between(v, s, 0, 32) && CountersBetween(v, s) && Between(v, s, 192, 200) && SensorsBetween(v, s)
    ensures Shows(SmartLogCodec(), s, v)
  {
    var c := SmartLogCodec();
    forall p: nat | p < SIZE && c.uses(p) ensures s[p] == c.byteAt(v, p) {
      assert c.byteAt(v, p) == SmartLogByte(v, p) && SmartLogUses(p);
      if 32 <= p < 192 {
        assert Between(v, s, 32 + 16 * ((p - 32) / 16), 48 + 16 * ((p - 32) / 16));
      } else if 200 <= p {
        assert Between(v, s, 200 + 2 * ((p - 200) / 2), 202 + 2 * ((p - 200) / 2));
      }
    }
  }

  lemma SplitParts(v: SmartLog, s: Sector)
    requires Shows(SmartLogCodec(), s, v)
    ensures Between(v, s, 0, 32) && CountersBetween(v, s) && Between(v, s, 192, 200) && SensorsBetween(v, s)
  {
    var c := SmartLogCodec();
    forall p: nat | p < SIZE && SmartLogUses(p) ensures s[p] == SmartLogByte(v, p) {
      assert c.uses(p) && c.byteAt(v, p) == SmartLogByte(v, p);
    }
    assert Between(v, s, 0, SIZE);
  }

  lemma SmartLogLawful()
    ensures Lawful(SmartLogCodec())
  {
    forall v: SmartLog, s: Sector
      ensures SmartLogCodec().get(s) == v <==> Shows(SmartLogCodec(), s, v)
    {
      SmartLogIff(v, s);
    }
  }

  // --- the parser ---

  ghost function Parse(data: seq<byte>): Result<SmartLog> {
    if |data| != SIZE then Failure(WrongSize(SIZE, |data|)) else Success(SmartLogAt(data))
  }

  method ParseSmartLog(data: seq<byte>) returns (r: Result<SmartLog>)
    ensures r == Parse(data)
    ensures r.Success? ==> Put(SmartLogCodec(), r.value, data) == data
  {
    if |data| != 512 {
      return Failure(WrongSize(512, |data|));
    }
    LowHalves(data);
    var sensors := ReadSensors(data);
    r := Success(SmartLog(
      data[0], U16(data, 1), data[3], data[4], data[5],
      Le128Lo64(data[32..48]), Le128Lo64(data[48..64]), Le128Lo64(data[64..80]), Le128Lo64(data[80..96]),
      Le128Lo64(data[96..112]), Le128Lo64(data[112..128]), Le128Lo64(data[128..144]),
      Le128Lo64(data[144..160]), Le128Lo64(data[160..176]), Le128Lo64(data[176..192]),
      U32(data, 192), U32(data, 196), sensors));
    PutParsed(data);
  }

  // The loop over the temperature sensors.
  method ReadSensors(data: Sector) returns (r: Sensors)
    ensures r == SmartLogAt(data).tempSensor
  {
    var sensors := new uint16[8](_ => 0);
    for i := 0 to 8
      invariant forall j :: 0 <= j < i ==> sensors[j] == U16(data, 200 + 2 * j)
    {
      sensors[i] := U16(data, 200 + i * 2);
    }
    return sensors[..];
  }

  lemma PutParsed(s: Sector)
    ensures Put(SmartLogCodec(), SmartLogAt(s), s) == s
  {
    SmartLogLawful();
    PutGet(SmartLogCodec(), SmartLogAt(s), s);
  }

  lemma LowHalf(s: seq<byte>, off: nat)
    requires off + 16 <= |s|
    ensures Le128Lo64(s[off..off + 16]) == U64(s, off)
  {
    var b := s[off..off + 16];
    assert b[..8] == s[off..off + 8];
    assert b[..8][0..8] == b[..8];
  }

  lemma LowHalves(s: Sector)
    ensures Le128Lo64(s[32..48]) == U64(s, 32) && Le128Lo64(s[48..64]) == U64(s, 48)
    ensures Le128Lo64(s[64..80]) == U64(s, 64) && Le128Lo64(s[80..96]) == U64(s, 80)
    ensures Le128Lo64(s[96..112]) == U64(s, 96) && Le128Lo64(s[112..128]) == U64(s, 112)
    ensures Le128Lo64(s[128..144]) == U64(s, 128) && Le128Lo64(s[144..160]) == U64(s, 144)
    ensures Le128Lo64(s[160..176]) == U64(s, 160) && Le128Lo64(s[176..192]) == U64(s, 176)
  {
    LowHalf(s, 32);
    LowHalf(s, 48);
    LowHalf(s, 64);
    LowHalf(s, 80);
    LowHalf(s, 96);
    LowHalf(s, 112);
    LowHalf(s, 128);
    LowHalf(s, 144);
    LowHalf(s, 160);
    LowHalf(s, 176);
  }

  // A counter is its full 128-bit value modulo 2^64, and exact when the high half is zero.
  lemma CounterIsLow64(s: Sector, i: nat)
    requires i < 10
    ensures var full := LE(s[32 + 16 * i..48 + 16 * i]);
            && Counter(SmartLogAt(s), i) == full % 0x1_0000_0000_0000_0000
            && (Counter(SmartLogAt(s), i) == full <==> LE(s[40 + 16 * i..48 + 16 * i]) == 0)
  {
    var low, high := s[32 + 16 * i..40 + 16 * i], s[40 + 16 * i..48 + 16 * i];
    assert s[32 + 16 * i..48 + 16 * i] == low + high;
    Pow256Values();
    LELow(low, high);
    CounterAt(s, i);
  }

  lemma CounterAt(s: Sector, i: nat)
    requires i < 10
    ensures Counter(SmartLogAt(s), i) == U64(s, 32 + 16 * i)
  {
  }

  // --- the named fields ---

  datatype Field = Field(name: string, get: SmartLog -> uint64)

  const SMART_LOG_FIELDS: seq<Field> := [
    Field("Critical_Warning", (s: SmartLog) => s.criticalWarning),
    Field("Temperature", (s: SmartLog) => s.temperatureKelvin),
    Field("Available_Spare", (s: SmartLog) => s.availableSpare),
    Field("Spare_Threshold", (s: SmartLog) => s.spareThreshold),
    Field("Percentage_Used", (s: SmartLog) => s.percentageUsed),
    Field("Data_Units_Read", (s: SmartLog) => s.dataUnitsRead),
    Field("Data_Units_Written", (s: SmartLog) => s.dataUnitsWritten),
    Field("Host_Reads", (s: SmartLog) => s.hostReads),
    Field("Host_Writes", (s: SmartLog) => s.hostWrites),
    Field("Controller_Busy_Time", (s: SmartLog) => s.controllerBusyTime),
    Field("Power_Cycles", (s: SmartLog) => s.powerCycles),
    Field("Power_On_Hours", (s: SmartLog) => s.powerOnHours),
    Field("Unsafe_Shutdowns", (s: SmartLog) => s.unsafeShutdowns),
    Field("Media_Errors", (s: SmartLog) => s.mediaErrors),
    Field("Num_Err_Log_Entries", (s: SmartLog) => s.numErrLogEntries),
    Field("Warning_Temp_Time", (s: SmartLog) => s.warningTempTime),
    Field("Critical_Comp_Time", (s: SmartLog) => s.criticalCompTime)
  ]

  const FIELD_COUNT := 17

  method FieldNames() returns (names: seq<string>)
    ensures |names| == FIELD_COUNT && forall i :: 0 <= i < FIELD_COUNT ==> names[i] == SMART_LOG_FIELDS[i].name
  {
    var out := new string[FIELD_COUNT](_ => "");
    for i := 0 to FIELD_COUNT
      invariant forall j :: 0 <= j < i ==> out[j] == SMART_LOG_FIELDS[j].name
    {
      out[i] := SMART_LOG_FIELDS[i].name;
    }
    return out[..];
  }

  ghost predicate Named(i: nat, name: string) { i < FIELD_COUNT && SMART_LOG_FIELDS[i].name == name }

  // The value of the field of that name, or None when no field has it.
  ghost function ValueOf(s: SmartLog, name: string): (r: Option<uint64>)
    ensures r.Some? <==> exists i: nat :: Named(i, name)
    ensures forall i: nat :: Named(i, name) ==> r == Some(SMART_LOG_FIELDS[i].get(s))
  {
    if exists i: nat :: Named(i, name) then
      var i: nat :| Named(i, name);
      NamesDistinct();
      Some(SMART_LOG_FIELDS[i].get(s))
    else None
  }

  method FieldValue(s: SmartLog, name: string) returns (value: uint64, ok: bool)
    ensures ok ==> ValueOf(s, name) == Some(value)
    ensures !ok ==> ValueOf(s, name) == None && value == 0
  {
    for i := 0 to FIELD_COUNT
      invariant forall j: nat :: j < i ==> !Named(j, name)
    {
      if SMART_LOG_FIELDS[i].name == name {
        assert Named(i, name);
        return SMART_LOG_FIELDS[i].get(s), true;
      }
    }
    return 0, false;
  }

  // The length of a name and its first letter tell the fields apart.
  lemma NamesDistinct()
    ensures forall i: nat, j: nat ::
              (i < FIELD_COUNT && j < FIELD_COUNT && SMART_LOG_FIELDS[i].name == SMART_LOG_FIELDS[j].name) ==> i == j
  {
    forall i: nat, j: nat | i < FIELD_COUNT && j < FIELD_COUNT && SMART_LOG_FIELDS[i].name == SMART_LOG_FIELDS[j].name
      ensures i == j
    {
      IndexOfName(i);
      IndexOfName(j);
    }
  }

  ghost function IndexOf(name: string): nat {
    match |name|
    case 10 => 7
    case 11 => if name[0] == 'T' then 1 else 8
    case 12 => if name[0] == 'P' then 10 else 13
    case 14 => 11
    case 15 => if name[0] == 'A' then 2 else if name[0] == 'S' then 3 else if name[0] == 'P' then 4 else 5
    case 16 => if name[0] == 'C' then 0 else 12
    case 17 => 15
    case 18 => if name[0] == 'D' then 6 else 16
    case 19 => 14
    case _ => 9
  }

  lemma IndexOfName(i: nat)
    requires i < FIELD_COUNT
    ensures IndexOf(SMART_LOG_FIELDS[i].name) == i
  {
  }

  // Offset and length of each field in the log, in the order of the table.
  ghost function Extent(i: nat): (e: (nat, nat))
    requires i < FIELD_COUNT
    ensures e.0 + e.1 <= 200
  {
    if i == 0 then (0, 1)
    else if i == 1 then (1, 2)
    else if i < 5 then (i + 1, 1)
    else if i < 15 then (32 + 16 * (i - 5), 8)
    else if i == 15 then (192, 4)
    else (196, 4)
  }

  // The getters reach their own bytes: over every log, asking for the i-th name returns
  // the little-endian number stored in the i-th extent.
  lemma FieldsByLayout(data: Sector, i: nat)
    requires i < FIELD_COUNT
    ensures var (off, len) := Extent(i);
            ValueOf(SmartLogAt(data), SMART_LOG_FIELDS[i].name) == Some(LE(data[off..off + len]))
  {
    assert Named(i, SMART_LOG_FIELDS[i].name);
    GetterAt(data, i);
  }

  lemma GetterAt(s: Sector, i: nat)
    requires i < FIELD_COUNT
    ensures var (off, len) := Extent(i); SMART_LOG_FIELDS[i].get(SmartLogAt(s)) == LE(s[off..off + len])
  {
    if i == 0 || 2 <= i < 5 {
      var (off, len) := Extent(i);
      assert s[off..off + 1] == [s[off]];
      assert LE([s[off]]) == s[off];
    }
  }
}
