// internal/ata/smart.go: SMART READ DATA and SMART READ THRESHOLDS.
module AtaSmart {
  import opened GoInt
  import opened Bits
  import opened LittleEndian
  import opened Checksum
  import opened Sector

  const NUM_ATTRIBUTES := 30

  type Bytes6 = s: seq<byte> | |s| == 6 witness seq(6, _ => 0)
  type Attributes = s: seq<Attribute> | |s| == NUM_ATTRIBUTES witness seq(NUM_ATTRIBUTES, _ => ZERO_ATTRIBUTE)
  type ThresholdTable = s: seq<uint8> | |s| == NUM_ATTRIBUTES witness seq(NUM_ATTRIBUTES, _ => 0)

  const ZERO_ATTRIBUTE := Attribute(0, 0, 0, 0, seq(6, _ => 0))

  datatype Attribute = Attribute(id: uint8, flags: uint16, current: uint8, worst: uint8, raw: Bytes6) {
    // Six bytes assembled with shifts and ors in 64 bits.
    function RawValue48(): uint64 {
      Or64(Or64(Or64(Or64(Or64(
        raw[0],
        Shl64(raw[1], 8)),
        Shl64(raw[2], 16)),
        Shl64(raw[3], 24)),
        Shl64(raw[4], 32)),
        Shl64(raw[5], 40))
    }

    predicate IsPrefailure() { BitAnd(flags, 0x0001) != 0 }

    predicate IsOnline() { BitAnd(flags, 0x0002) != 0 }
  }

  datatype SmartValues = SmartValues(
    revNumber: uint16,
    attributes: Attributes,
    offlineDataCollectionStatus: uint8,
    selfTestExecStatus: uint8,
    totalTimeOfflineSeconds: uint16,
    offlineDataCollectionCap: uint8,
    smartCapability: uint16,
    errorlogCapability: uint8,
    shortTestCompletionTime: uint8,
    extendTestCompletionTimeB: uint8,
    conveyanceTestCompletionTime: uint8,
    extendTestCompletionTimeW: uint16)

  datatype SmartThresholds = SmartThresholds(revNumber: uint16, thresholds: ThresholdTable)

  // --- raw values ---

  // One step of the assembly: or-ing in byte k above the k bytes assembled so far.
  lemma OrByte(r: Bytes6, k: nat)
    requires k < 6
    requires LE(r[..k]) < 0x1_0000_0000_0000
    ensures Or64(LE(r[..k]), Shl64(r[k], 8 * k)) == LE(r[..k + 1]) < 0x1_0000_0000_0000
  {
    Pow2Pow256(k);
    LEExtend(r, k);
    Below48(r[..k + 1]);
    ShlTimes(r[k], 8 * k);
    OrShift(LE(r[..k]), r[k], 8 * k);
  }

  lemma Below48(s: seq<byte>)
    requires |s| <= 6
    ensures LE(s) < 0x1_0000_0000_0000
  {
    Pow256Values();
    Pow256Monotone(|s|, 6);
  }

  // The shifts and ors compute the little-endian value of the six bytes.
  lemma RawValueIsLE(a: Attribute)
    ensures a.RawValue48() == LE(a.raw)
  {
    OrSteps(a.raw);
  }

  lemma OrSteps(r: Bytes6)
    ensures Or64(r[0], Shl64(r[1], 8)) == LE(r[..2]) < 0x1_0000_0000_0000
    ensures Or64(LE(r[..2]), Shl64(r[2], 16)) == LE(r[..3]) < 0x1_0000_0000_0000
    ensures Or64(LE(r[..3]), Shl64(r[3], 24)) == LE(r[..4]) < 0x1_0000_0000_0000
    ensures Or64(LE(r[..4]), Shl64(r[4], 32)) == LE(r[..5]) < 0x1_0000_0000_0000
    ensures Or64(LE(r[..5]), Shl64(r[5], 40)) == LE(r)
  {
    assert LE(r[..1]) == r[0];
    OrByte(r, 1);
    OrByte(r, 2);
    OrByte(r, 3);
    OrByte(r, 4);
    OrByte(r, 5);
    assert r[..6] == r;
  }

  // RawValue48 is a bijection between six-byte arrays and 0..2^48-1.
  lemma RawValueBijective(a: Attribute, b: Attribute, n: uint64)
    ensures a.RawValue48() == b.RawValue48() <==> a.raw == b.raw
    ensures n < 0x1_0000_0000_0000 ==> a.(raw := Bytes(n, 6)).RawValue48() == n
  {
    RawValueIsLE(a);
    RawValueIsLE(b);
    LEBijective(a.raw);
    LEBijective(b.raw);
    if n < 0x1_0000_0000_0000 {
      Pow256Values();
      BytesRoundTrip(n, 6);
      RawValueIsLE(a.(raw := Bytes(n, 6)));
    }
  }

  // --- the layouts, read from the sector ---

  ghost function AttributeAt(s: seq<byte>, off: nat): Attribute
    requires off + 12 <= |s|
  {
    Attribute(s[off], U16(s, off + 1), s[off + 3], s[off + 4], s[off + 5..off + 11])
  }

  ghost function SmartValuesAt(s: Sector): SmartValues {
    SmartValues(U16(s, 0),
                seq(NUM_ATTRIBUTES, i requires 0 <= i < NUM_ATTRIBUTES => AttributeAt(s, 2 + 12 * i)),
                s[362], s[363], U16(s, 364), s[367], U16(s, 368), s[370], s[372], s[373], s[374], U16(s, 375))
  }

  ghost function ThresholdsAt(s: Sector): SmartThresholds {
    SmartThresholds(U16(s, 0), seq(NUM_ATTRIBUTES, i requires 0 <= i < NUM_ATTRIBUTES => s[2 + 12 * i + 1]))
  }

  // Through the parser, the raw value of a slot is the number at its bytes 5 to 10.
  lemma RawValueAt(s: Sector, i: nat)
    requires i < NUM_ATTRIBUTES
    ensures SmartValuesAt(s).attributes[i].RawValue48() == LE(s[2 + 12 * i + 5..2 + 12 * i + 11])
  {
    RawValueIsLE(AttributeAt(s, 2 + 12 * i));
  }

  // --- the layouts, written by position ---

  ghost function AttributeByte(a: Attribute, k: nat): byte {
    if k == 0 then a.id
    else if k < 3 then Digit(a.flags, k - 1)
    else if k == 3 then a.current
    else if k == 4 then a.worst
    else if k < 11 then a.raw[k - 5]
    else 0
  }

  ghost function SmartValuesByte(v: SmartValues, p: nat): byte {
    if p < 2 then Digit(v.revNumber, p)
    else if p < 362 then AttributeByte(v.attributes[(p - 2) / 12], (p - 2) % 12)
    else if p == 362 then v.offlineDataCollectionStatus
    else if p == 363 then v.selfTestExecStatus
    else if p < 366 then Digit(v.totalTimeOfflineSeconds, p - 364)
    else if p == 366 then 0
    else if p == 367 then v.offlineDataCollectionCap
    else if p < 370 then Digit(v.smartCapability, p - 368)
    else if p == 370 then v.errorlogCapability
    else if p == 371 then 0
    else if p == 372 then v.shortTestCompletionTime
    else if p == 373 then v.extendTestCompletionTimeB
    else if p == 374 then v.conveyanceTestCompletionTime
    else Digit(v.extendTestCompletionTimeW, p - 375)
  }

  // Only byte 11 of each slot, bytes 366 and 371, and everything from 377 are skipped.
  ghost predicate SmartValuesUses(p: nat) {
    p < 377 && p != 366 && p != 371 && !(2 <= p < 362 && (p - 2) % 12 == 11)
  }

  ghost function ThresholdsByte(v: SmartThresholds, p: nat): byte {
    if p < 2 then Digit(v.revNumber, p)
    else if p < 362 then v.thresholds[(p - 2) / 12]
    else 0
  }

  ghost predicate ThresholdsUses(p: nat) {
    p < 2 || (p < 362 && (p - 2) % 12 == 1)
  }

  ghost function SmartValuesCodec(): Codec<SmartValues> {
    Codec(SmartValuesAt, SmartValuesByte, SmartValuesUses)
  }

  ghost function ThresholdsCodec(): Codec<SmartThresholds> {
    Codec(ThresholdsAt, ThresholdsByte, ThresholdsUses)
  }

  // --- the two readings determine each other ---

  ghost predicate AttributeShown(s: seq<byte>, off: nat, a: Attribute)
    requires off + 12 <= |s|
  {
    forall k: nat {:trigger AttributeByte(a, k)} :: k < 11 ==> s[off + k] == AttributeByte(a, k)
  }

  lemma AttributeIff(s: seq<byte>, off: nat, a: Attribute)
    requires off + 12 <= |s|
    ensures AttributeAt(s, off) == a <==> AttributeShown(s, off, a)
  {
    Pow256Values();
    FieldIff(s, off + 1, 2, a.flags);
    var raw := s[off + 5..off + 11];
    if AttributeAt(s, off) == a {
      forall k: nat | k < 11 ensures s[off + k] == AttributeByte(a, k) {
        if k >= 5 { assert s[off + k] == raw[k - 5]; }
      }
    }
    if AttributeShown(s, off, a) {
      assert s[off] == AttributeByte(a, 0);
      assert s[off + 1] == AttributeByte(a, 1) && s[off + 2] == AttributeByte(a, 2);
      assert s[off + 3] == AttributeByte(a, 3) && s[off + 4] == AttributeByte(a, 4);
      forall j | 0 <= j < 6 ensures raw[j] == a.raw[j] {
        assert s[off + (5 + j)] == AttributeByte(a, 5 + j);
      }
    }
  }

  ghost predicate AttributesShown(v: SmartValues, s: Sector) {
    forall p: nat {:trigger SmartValuesByte(v, p)} ::
      2 <= p < 362 && SmartValuesUses(p) ==> s[p] == SmartValuesByte(v, p)
  }

  lemma AttributeSlot(v: SmartValues, i: nat, k: nat)
    requires i < NUM_ATTRIBUTES && k < 11
    ensures SmartValuesUses(2 + 12 * i + k)
    ensures SmartValuesByte(v, 2 + 12 * i + k) == AttributeByte(v.attributes[i], k)
  {
    assert (12 * i + k) / 12 == i && (12 * i + k) % 12 == k;
  }

  lemma AttributesAtShown(v: SmartValues, s: Sector)
    requires SmartValuesAt(s).attributes == v.attributes
    ensures AttributesShown(v, s)
  {
    forall p: nat | 2 <= p < 362 && SmartValuesUses(p) ensures s[p] == SmartValuesByte(v, p) {
      var i, k := (p - 2) / 12, (p - 2) % 12;
      assert SmartValuesAt(s).attributes[i] == AttributeAt(s, 2 + 12 * i);
      AttributeIff(s, 2 + 12 * i, v.attributes[i]);
      assert s[2 + 12 * i + k] == AttributeByte(v.attributes[i], k);
    }
  }

  lemma AttributesShownAt(v: SmartValues, s: Sector)
    requires AttributesShown(v, s)
    ensures SmartValuesAt(s).attributes == v.attributes
  {
    forall i | 0 <= i < NUM_ATTRIBUTES ensures AttributeAt(s, 2 + 12 * i) == v.attributes[i] {
      forall k: nat | k < 11 ensures s[2 + 12 * i + k] == AttributeByte(v.attributes[i], k) {
        AttributeSlot(v, i, k);
      }
      AttributeIff(s, 2 + 12 * i, v.attributes[i]);
    }
  }

  lemma ScalarsIff(v: SmartValues, s: Sector)
    ensures SmartValuesAt(s).(attributes := v.attributes) == v
            <==> forall p: nat :: p < SIZE && !(2 <= p < 362) && SmartValuesUses(p) ==> s[p] == SmartValuesByte(v, p)
  {
    Pow256Values();
    FieldIff(s, 0, 2, v.revNumber);
    FieldIff(s, 364, 2, v.totalTimeOfflineSeconds);
    FieldIff(s, 368, 2, v.smartCapability);
    FieldIff(s, 375, 2, v.extendTestCompletionTimeW);
  }

  // ParseSmartValues reads exactly the bytes SmartValuesUses names, each into one place.
  lemma SmartValuesLawful()
    ensures Lawful(SmartValuesCodec())
  {
    forall v: SmartValues, s: Sector
      ensures SmartValuesCodec().get(s) == v <==> Shows(SmartValuesCodec(), s, v)
    {
      SmartValuesIff(v, s);
    }
  }

  lemma SmartValuesIff(v: SmartValues, s: Sector)
    ensures SmartValuesAt(s) == v <==> Shows(SmartValuesCodec(), s, v)
  {
    ScalarsIff(v, s);
    if SmartValuesAt(s) == v {
      AttributesAtShown(v, s);
      assert forall p: nat :: SmartValuesCodec().byteAt(v, p) == SmartValuesByte(v, p);
    }
    if Shows(SmartValuesCodec(), s, v) {
      assert AttributesShown(v, s);
      AttributesShownAt(v, s);
    }
  }

  lemma ThresholdsIff(v: SmartThresholds, s: Sector)
    ensures ThresholdsAt(s) == v <==> Shows(ThresholdsCodec(), s, v)
  {
    var c := ThresholdsCodec();
    Pow256Values();
    FieldIff(s, 0, 2, v.revNumber);
    if ThresholdsAt(s) == v {
      forall p: nat | 2 <= p < SIZE && c.uses(p) ensures s[p] == c.byteAt(v, p) {
        assert p == 2 + 12 * ((p - 2) / 12) + 1;
        assert ThresholdsAt(s).thresholds[(p - 2) / 12] == s[p];
      }
    }
    if Shows(c, s, v) {
      assert c.uses(0) && c.uses(1);
      forall i | 0 <= i < NUM_ATTRIBUTES ensures s[2 + 12 * i + 1] == v.thresholds[i] {
        assert (12 * i + 1) / 12 == i && (12 * i + 1) % 12 == 1;
        assert c.uses(2 + 12 * i + 1);
      }
    }
  }

  lemma ThresholdsLawful()
    ensures Lawful(ThresholdsCodec())
  {
    forall v: SmartThresholds, s: Sector
      ensures ThresholdsCodec().get(s) == v <==> Shows(ThresholdsCodec(), s, v)
    {
      ThresholdsIff(v, s);
    }
  }

  // --- the parsers ---

  method ParseSmartValues(data: seq<byte>) returns (r: Result<SmartValues>)
    ensures r == Parse(SmartValuesCodec(), data)
    ensures r.Success? ==> Encode(SmartValuesCodec(), r.value, data) == data
  {
    if |data| != 512 {
      return Failure(WrongSize(512, |data|));
    }
    var ok := ValidateChecksum(data);
    if !ok {
      return Failure(ChecksumError);
    }
    var attributes := new Attribute[NUM_ATTRIBUTES](_ => ZERO_ATTRIBUTE);
    for i := 0 to NUM_ATTRIBUTES
      invariant forall j :: 0 <= j < i ==> attributes[j] == AttributeAt(data, 2 + 12 * j)
    {
      var off := 2 + i * 12;
      attributes[i] := Attribute(
        data[off], U16(data, off + 1), data[off + 3], data[off + 4], data[off + 5..off + 11]);
    }
    assert attributes[..] == SmartValuesAt(data).attributes;
    r := Success(SmartValues(
      U16(data, 0), attributes[..], data[362], data[363], U16(data, 364), data[367],
      U16(data, 368), data[370], data[372], data[373], data[374], U16(data, 375)));
    Reencodes(SmartValuesCodec(), data) by { SmartValuesLawful(); }
  }

  method ParseSmartThresholds(data: seq<byte>) returns (r: Result<SmartThresholds>)
    ensures r == Parse(ThresholdsCodec(), data)
    ensures r.Success? ==> Encode(ThresholdsCodec(), r.value, data) == data
  {
    if |data| != 512 {
      return Failure(WrongSize(512, |data|));
    }
    var ok := ValidateChecksum(data);
    if !ok {
      return Failure(ChecksumError);
    }
    var thresholds := new uint8[NUM_ATTRIBUTES](_ => 0);
    for i := 0 to NUM_ATTRIBUTES
      invariant forall j :: 0 <= j < i ==> thresholds[j] == data[2 + 12 * j + 1]
    {
      var off := 2 + i * 12;
      thresholds[i] := data[off + 1];
    }
    assert thresholds[..] == ThresholdsAt(data).thresholds;
    r := Success(SmartThresholds(U16(data, 0), thresholds[..]));
    Reencodes(ThresholdsCodec(), data) by { ThresholdsLawful(); }
  }

  // Every table of values survives encoding, checksum and parsing, over any base sector, and
  // nothing else parses to it.
  lemma SmartValuesRoundTrip(v: SmartValues, base: Sector, data: seq<byte>)
    ensures Parse(SmartValuesCodec(), Encode(SmartValuesCodec(), v, base)) == Success(v)
    ensures Parse(SmartValuesCodec(), data) == Success(v)
            <==> exists b: Sector :: data == Encode(SmartValuesCodec(), v, b)
  {
    SmartValuesLawful();
    EncodeParses(SmartValuesCodec(), v, base);
    ParseIffEncoding(SmartValuesCodec(), data, v);
  }

  // Every table of thresholds survives encoding, checksum and parsing, over any base sector, and
  // nothing else parses to it.
  lemma ThresholdsRoundTrip(v: SmartThresholds, base: Sector, data: seq<byte>)
    ensures Parse(ThresholdsCodec(), Encode(ThresholdsCodec(), v, base)) == Success(v)
    ensures Parse(ThresholdsCodec(), data) == Success(v)
            <==> exists b: Sector :: data == Encode(ThresholdsCodec(), v, b)
  {
    ThresholdsLawful();
    EncodeParses(ThresholdsCodec(), v, base);
    ParseIffEncoding(ThresholdsCodec(), data, v);
  }
}
