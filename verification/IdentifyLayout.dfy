// IDENTIFY DEVICE read the other way: what a drive declares, and the bytes and bits of the
// sector that declare it, by position.
module IdentifyLayout {
  import opened GoInt
  import opened Bits
  import opened LittleEndian
  import opened Sector
  import opened Identify

  datatype Declaration = Declaration(
    model: seq<byte>,
    serial: seq<byte>,
    firmware: seq<byte>,
    supported: bool,
    enabled: bool,
    lba48: bool,
    sectors: uint64,
    longWords: Option<uint32>,
    shift: nat,
    rate: uint16,
    version: uint16,
    sata: uint16,
    speed: nat)

  // A text without trailing spaces for each string field, a sector count that its field can
  // hold, four bits for the shift and three for the speed.
  ghost predicate Valid(d: Declaration) {
    && Fits(d.model, 40) && Fits(d.serial, 20) && Fits(d.firmware, 8)
    && (d.lba48 || d.sectors < 0x1_0000_0000) && d.shift < 16 && d.speed < 8
  }

  ghost predicate Carries(s: Sector, d: Declaration) {
    && TextAt(s, 54, 40, d.model) && TextAt(s, 20, 20, d.serial) && TextAt(s, 46, 8, d.firmware)
    && CarriesFlags(s, d)
    && CarriesCount(s, d) && CarriesSize(s, d)
    && FieldShown(s, 434, 2, d.rate) && FieldShown(s, 160, 2, d.version) && FieldShown(s, 152, 2, d.sata)
    && s[154] / 2 % 8 == d.speed
  }

  ghost predicate CarriesFlags(s: Sector, d: Declaration) {
    && (s[164] % 2 == 1 <==> d.supported)
    && (s[170] % 2 == 1 <==> d.enabled)
    && (s[167] / 4 % 2 == 1 <==> d.lba48)
  }

  // The longer of the two counts is used where it is supported.
  ghost predicate CarriesCount(s: Sector, d: Declaration) {
    if d.lba48 then FieldShown(s, 200, 8, d.sectors) else FieldShown(s, 120, 4, d.sectors)
  }

  ghost predicate CarriesSize(s: Sector, d: Declaration) {
    && (s[213] / 16 % 2 == 1 <==> d.longWords.Some?)
    && (d.longWords.Some? ==> FieldShown(s, 234, 4, d.longWords.value))
    && s[212] % 16 == d.shift
  }

  // --- reading one field ---

  lemma {:induction false} ShrDiv(v: nat, k: nat)
    ensures Shr(v, k) == v / Pow2(k)
  {
    if k > 0 {
      ShrDiv(v / 2, k - 1);
      DivDouble(v, Pow2(k - 1));
    }
  }

  lemma DivDouble(v: nat, p: nat)
    requires p > 0
    ensures v / (2 * p) == v / 2 / p
  {
    var q, r := v / 2 / p, v / 2 % p;
    assert v == (2 * p) * q + (2 * r + v % 2) by {
      assert v / 2 == p * q + r;
    }
    DivUnique(v, 2 * p, q, 2 * r + v % 2);
  }

  // Bits of a word are bits of one of its two bytes.
  lemma WordBits(s: Sector, n: nat)
    requires n < 256
    ensures Bit(Word(s, n), 0) <==> s[2 * n] % 2 == 1
    ensures Bit(Word(s, n), 10) <==> s[2 * n + 1] / 4 % 2 == 1
    ensures Bit(Word(s, n), 12) <==> s[2 * n + 1] / 16 % 2 == 1
    ensures Word(s, n) % 16 == s[2 * n] % 16
    ensures Word(s, n) / 2 % 8 == s[2 * n] / 2 % 8
  {
    TwoBytes(s, 2 * n);
    BitsOf(s[2 * n], s[2 * n + 1]);
    LowBitsOf(s[2 * n], s[2 * n + 1]);
  }

  lemma BitsOf(low: byte, high: byte)
    ensures Bit(low + 256 * (high as int), 0) <==> low % 2 == 1
    ensures Bit(low + 256 * (high as int), 10) <==> high / 4 % 2 == 1
    ensures Bit(low + 256 * (high as int), 12) <==> high / 16 % 2 == 1
  {
    ShrDiv(low + 256 * (high as int), 10);
    ShrDiv(low + 256 * (high as int), 12);
    MaskPowers();
    HighBits(low, high);
  }

  lemma HighBits(low: byte, high: byte)
    ensures (low + 256 * (high as int)) / 0x0400 == high / 4
    ensures (low + 256 * (high as int)) / 0x1000 == high / 16
  {
  }

  lemma LowBitsOf(low: byte, high: byte)
    ensures (low + 256 * (high as int)) % 16 == low % 16
    ensures (low + 256 * (high as int)) / 2 % 8 == low / 2 % 8
  {
    var h: int := high;
    DivUnique(low + 256 * h, 16, low / 16 + 16 * h, low % 16);
    DivUnique(low + 256 * h, 2, low / 2 + 128 * h, low % 2);
    Halves(low / 2, h);
  }

  lemma Halves(x: nat, h: nat)
    ensures (x + 128 * h) % 8 == x % 8
  {
    DivUnique(x + 128 * h, 8, x / 8 + 16 * h, x % 8);
  }

  lemma FlagsRead(s: Sector, d: Declaration)
    ensures CarriesFlags(s, d) <==>
              && InfoAt(s).smartSupported == d.supported
              && InfoAt(s).smartEnabled == d.enabled
              && InfoAt(s).lba48 == d.lba48
  {
    assert Bit(Word(s, 82), 0) <==> s[164] % 2 == 1 by { WordBits(s, 82); }
    assert Bit(Word(s, 83), 10) <==> s[167] / 4 % 2 == 1 by { WordBits(s, 83); }
    assert Bit(Word(s, 85), 0) <==> s[170] % 2 == 1 by { WordBits(s, 85); }
  }

  lemma CountRead(s: Sector, d: Declaration)
    ensures Valid(d) && CarriesFlags(s, d) ==> (CarriesCount(s, d) <==> Sectors(s) == d.sectors)
  {
    FlagsRead(s, d);
    Pow256Values();
    FieldIff(s, 200, 8, d.sectors);
    if Valid(d) && !d.lba48 {
      FieldIff(s, 120, 4, d.sectors);
    }
  }

  lemma SizeRead(s: Sector, d: Declaration)
    ensures CarriesSize(s, d) ==>
              && LongSectorWords(s) == (if d.longWords.Some? then d.longWords.value else 0)
              && PhysicalShift(s) == d.shift
  {
    WordBits(s, 106);
    Pow256Values();
    if d.longWords.Some? {
      FieldIff(s, 234, 4, d.longWords.value);
    }
  }

  lemma WordsRead(s: Sector, d: Declaration)
    ensures FieldShown(s, 434, 2, d.rate) <==> Word(s, 217) == d.rate
    ensures FieldShown(s, 160, 2, d.version) <==> Word(s, 80) == d.version
    ensures FieldShown(s, 152, 2, d.sata) <==> Word(s, 76) == d.sata
    ensures s[154] / 2 % 8 == d.speed <==> Word(s, 77) / 2 % 8 == d.speed
  {
    Pow256Values();
    FieldIff(s, 434, 2, d.rate);
    FieldIff(s, 160, 2, d.version);
    FieldIff(s, 152, 2, d.sata);
    WordBits(s, 77);
  }

  // --- what is read of a declaration ---

  // The size of a logical sector, as it is stored in 32 bits.
  ghost function StoredBytes(d: Declaration): uint32 {
    if d.longWords.Some? && d.longWords.value > 0 then 2 * (d.longWords.value as int) % 0x1_0000_0000 else 512
  }

  ghost predicate Tells(info: IdentifyInfo, d: Declaration) {
    && info.modelNumber == d.model && info.serialNumber == d.serial && info.firmwareVersion == d.firmware
    && info.smartSupported == d.supported && info.smartEnabled == d.enabled && info.lba48 == d.lba48
    && TellsSizes(info, d)
    && info.rpm == (if d.rate == 1 || 1025 <= d.rate <= 65534 then d.rate else 0)
    && (if d.version == 0 then info.ataVersionMajor == 0
        else Pow2(info.ataVersionMajor) <= d.version < Pow2(info.ataVersionMajor + 1))
    && info.sataCapabilities == d.sata && info.sataCurrentSpeed == d.speed
  }

  ghost predicate TellsSizes(info: IdentifyInfo, d: Declaration) {
    && info.logicalSectorSize == StoredBytes(d)
    && info.userCapacity == d.sectors * StoredBytes(d) % 0x1_0000_0000_0000_0000
    && info.physicalSectorSize == StoredBytes(d) * Pow2(d.shift) % 0x1_0000_0000
  }

  lemma SizesTold(s: Sector, d: Declaration)
    ensures Valid(d) && CarriesFlags(s, d) && CarriesCount(s, d) && CarriesSize(s, d) ==> TellsSizes(InfoAt(s), d)
  {
    CountRead(s, d);
    SizeRead(s, d);
  }

  // Whatever a sector declares, and whatever its other bits are, the parser tells it.
  lemma DeclaredTold(s: Sector, d: Declaration)
    ensures Valid(d) && Carries(s, d) ==> Tells(InfoAt(s), d)
    ensures InfoAt(s).raw == s
  {
    StringsReadBack(s, d.model, d.serial, d.firmware);
    FlagsRead(s, d);
    SizesTold(s, d);
    WordsRead(s, d);
    if d.version > 0 {
      Log2Unique(d.version, Log2(d.version));
    }
  }

  // --- there is no other sector, and every declaration has one over every base ---

  // What a sector declares; a size without the flag for it does not count.
  ghost function DeclaredBy(s: Sector): Declaration {
    var info := InfoAt(s);
    Pow256Values();
    Declaration(
      info.modelNumber, info.serialNumber, info.firmwareVersion, info.smartSupported, info.smartEnabled, info.lba48,
      Sectors(s), if s[213] / 16 % 2 == 1 then Some(LE(s[234..238])) else None, s[212] % 16,
      Word(s, 217), Word(s, 80), Word(s, 76), s[154] / 2 % 8)
  }

  // The sector of a declaration, over a base whose other bytes and bits it keeps.
  ghost function Fill(d: Declaration, base: Sector): Sector
    requires Valid(d)
  {
    seq(SIZE, p requires 0 <= p < SIZE => FillByte(d, base[p], p))
  }

  ghost function FillByte(d: Declaration, b: byte, p: nat): byte
    requires Valid(d)
  {
    if 20 <= p < 40 then PadByte(d.serial, Neighbour(p - 20))
    else if 46 <= p < 54 then PadByte(d.firmware, Neighbour(p - 46))
    else if 54 <= p < 94 then PadByte(d.model, Neighbour(p - 54))
    else if 120 <= p < 124 && !d.lba48 then Digit(d.sectors, p - 120)
    else if 152 <= p < 154 then Digit(d.sata, p - 152)
    else if p == 154 then b / 16 * 16 + 2 * d.speed + b % 2
    else if 160 <= p < 162 then Digit(d.version, p - 160)
    else if p == 164 then b / 2 * 2 + (if d.supported then 1 else 0)
    else if p == 167 then b / 8 * 8 + (if d.lba48 then 4 else 0) + b % 4
    else if p == 170 then b / 2 * 2 + (if d.enabled then 1 else 0)
    else if 200 <= p < 208 && d.lba48 then Digit(d.sectors, p - 200)
    else if p == 212 then b / 16 * 16 + d.shift
    else if p == 213 then b / 32 * 32 + (if d.longWords.Some? then 16 else 0) + b % 16
    else if 234 <= p < 238 && d.longWords.Some? then Digit(d.longWords.value, p - 234)
    else if 434 <= p < 436 then Digit(d.rate, p - 434)
    else b
  }

  ghost function Neighbour(i: nat): nat { if i % 2 == 0 then i + 1 else i - 1 }

  lemma EverySectorDeclares(s: Sector)
    ensures Valid(DeclaredBy(s)) && Carries(s, DeclaredBy(s))
  {
    var d := DeclaredBy(s);
    StringsReadBack(s, d.model, d.serial, d.firmware);
    FlagsRead(s, d);
    ShortCount(s);
    CountRead(s, d);
    WordsRead(s, d);
    Pow256Values();
    FieldIff(s, 234, 4, LE(s[234..238]));
  }

  lemma FillTexts(d: Declaration, base: Sector)
    requires Valid(d)
    ensures var s := Fill(d, base);
            TextAt(s, 54, 40, d.model) && TextAt(s, 20, 20, d.serial) && TextAt(s, 46, 8, d.firmware)
  {
  }

  lemma FillSizes(d: Declaration, base: Sector)
    requires Valid(d)
    ensures CarriesCount(Fill(d, base), d) && CarriesSize(Fill(d, base), d)
  {
  }

  lemma FillFlags(d: Declaration, base: Sector)
    requires Valid(d)
    ensures CarriesFlags(Fill(d, base), d)
  {
  }

  lemma FillWords(d: Declaration, base: Sector)
    requires Valid(d)
    ensures var s := Fill(d, base);
            && FieldShown(s, 434, 2, d.rate) && FieldShown(s, 160, 2, d.version) && FieldShown(s, 152, 2, d.sata)
            && s[154] / 2 % 8 == d.speed
  {
  }

  lemma FillCarries(d: Declaration, base: Sector)
    requires Valid(d)
    ensures Carries(Fill(d, base), d)
  {
    FillTexts(d, base);
    FillFlags(d, base);
    FillSizes(d, base);
    FillWords(d, base);
  }

  // For every declaration and every base, what is parsed tells what was declared.
  lemma FilledReadBack(d: Declaration, base: Sector)
    requires Valid(d)
    ensures Tells(InfoAt(Fill(d, base)), d)
  {
    FillCarries(d, base);
    DeclaredTold(Fill(d, base), d);
  }
}
