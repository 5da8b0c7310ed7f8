// internal/ata/identify.go: IDENTIFY DEVICE.
module Identify {
  import opened GoInt
  import opened Bits
  import opened LittleEndian
  import opened Sector

  datatype IdentifyInfo = IdentifyInfo(
    modelNumber: seq<byte>,
    serialNumber: seq<byte>,
    firmwareVersion: seq<byte>,
    userCapacity: uint64,
    logicalSectorSize: uint32,
    physicalSectorSize: uint32,
    rpm: int,
    smartSupported: bool,
    smartEnabled: bool,
    lba48: bool,
    ataVersionMajor: nat,
    sataCapabilities: uint16,
    sataCurrentSpeed: nat,
    raw: seq<byte>)

  // --- strings ---

  const SPACE: byte := 32

  // The field with the bytes of every pair exchanged; an odd last byte is dropped to zero.
  ghost function SwapPairs(b: seq<byte>): (r: seq<byte>)
    ensures |r| == |b|
  {
    seq(|b|, i requires 0 <= i < |b| =>
      if i % 2 == 1 then b[i - 1] else if i + 1 < |b| then b[i + 1] else 0)
  }

  // strings.TrimRight with a cutset of one space.
  function TrimRight(s: seq<byte>): seq<byte> {
    if s != [] && s[|s| - 1] == SPACE then TrimRight(s[..|s| - 1]) else s
  }

  ghost function Spaces(k: nat): seq<byte> { seq(k, _ => SPACE) }

  ghost function Pad(s: seq<byte>, n: nat): seq<byte> {
    s + Spaces(if |s| < n then n - |s| else 0)
  }

  ghost predicate Trimmed(s: seq<byte>) { s == [] || s[|s| - 1] != SPACE }

  // TrimRight cuts off spaces only, and as many as there are.
  lemma {:induction false} TrimRightExact(s: seq<byte>)
    ensures Trimmed(TrimRight(s))
    ensures |TrimRight(s)| <= |s| && s == TrimRight(s) + Spaces(|s| - |TrimRight(s)|)
  {
    if s != [] && s[|s| - 1] == SPACE {
      var k := |s| - 1;
      TrimRightExact(s[..k]);
      assert s == s[..k] + [SPACE];
      assert Spaces(|s| - |TrimRight(s)|) == Spaces(k - |TrimRight(s)|) + [SPACE];
    }
  }

  lemma {:induction false} TrimSpaces(s: seq<byte>, k: nat)
    requires Trimmed(s)
    ensures TrimRight(s + Spaces(k)) == s
  {
    if k == 0 {
      assert s + Spaces(0) == s;
    } else {
      var t := s + Spaces(k);
      TrimSpaces(s, k - 1);
      assert t[..|t| - 1] == s + Spaces(k - 1);
    }
  }

  lemma SwapInvolution(b: seq<byte>)
    requires |b| % 2 == 0
    ensures SwapPairs(SwapPairs(b)) == b
  {
  }

  // A string written into an even-length field the ATA way, padded and with its pairs
  // swapped, is read back exactly when it has no trailing space.
  lemma AtaStringRoundTrip(s: seq<byte>, n: nat)
    requires |s| <= n && n % 2 == 0
    ensures TrimRight(SwapPairs(SwapPairs(Pad(s, n)))) == s <==> Trimmed(s)
  {
    SwapInvolution(Pad(s, n));
    if Trimmed(s) {
      TrimSpaces(s, n - |s|);
    }
    TrimRightExact(Pad(s, n));
  }

  // A field carries a text when every byte of the padded text is in the place of its
  // neighbour in the pair.
  ghost predicate TextAt(s: seq<byte>, off: nat, n: nat, t: seq<byte>)
    requires off + n <= |s|
  {
    forall i {:trigger s[off + i]} :: 0 <= i < n ==> s[off + i] == PadByte(t, if i % 2 == 0 then i + 1 else i - 1)
  }

  ghost function PadByte(t: seq<byte>, k: int): byte { if 0 <= k < |t| then t[k] else SPACE }

  ghost predicate Fits(t: seq<byte>, n: nat) { |t| <= n && Trimmed(t) }

  lemma TextSwapped(s: seq<byte>, off: nat, n: nat, t: seq<byte>)
    requires off + n <= |s| && n % 2 == 0 && |t| <= n
    ensures TextAt(s, off, n, t) <==> SwapPairs(s[off..off + n]) == Pad(t, n)
  {
    var b, padded := s[off..off + n], Pad(t, n);
    assert forall k :: 0 <= k < n ==> padded[k] == PadByte(t, k);
    if TextAt(s, off, n, t) {
      forall k | 0 <= k < n ensures SwapPairs(b)[k] == padded[k] {
        var i := if k % 2 == 0 then k + 1 else k - 1;
        assert s[off + i] == PadByte(t, k);
      }
    }
    if SwapPairs(b) == padded {
      forall i | 0 <= i < n ensures s[off + i] == PadByte(t, if i % 2 == 0 then i + 1 else i - 1) {
        var k := if i % 2 == 0 then i + 1 else i - 1;
        assert SwapPairs(b)[k] == b[i];
      }
    }
  }

  // What is read from a field of even length is the one text that the field carries.
  lemma TextIff(s: seq<byte>, off: nat, n: nat, t: seq<byte>)
    requires off + n <= |s| && n % 2 == 0
    ensures TrimRight(SwapPairs(s[off..off + n])) == t <==> Fits(t, n) && TextAt(s, off, n, t)
  {
    var b := SwapPairs(s[off..off + n]);
    TrimRightExact(b);
    if Fits(t, n) {
      TextSwapped(s, off, n, t);
      TrimSpaces(t, n - |t|);
    }
    if TrimRight(b) == t {
      assert b == Pad(t, n);
    }
  }

  method AtaString(b: seq<byte>) returns (s: seq<byte>)
    ensures s == TrimRight(SwapPairs(b))
    ensures |b| % 2 == 0 ==> Fits(s, |b|) && TextAt(b, 0, |b|, s)
    ensures |b| % 2 == 1 ==> |s| == |b| && s[|b| - 1] == 0
                             && forall i :: 0 <= i < |b| - 1 ==> s[i] == b[if i % 2 == 0 then i + 1 else i - 1]
  {
    var out := new byte[|b|](_ => 0);
    var i := 0;
    while i + 1 < |b|
      invariant i % 2 == 0 && i <= |b|
      invariant forall j :: 0 <= j < i ==> out[j] == SwapPairs(b)[j]
      invariant forall j :: i <= j < |b| ==> out[j] == 0
    {
      out[i] := b[i + 1];
      out[i + 1] := b[i];
      i := i + 2;
    }
    assert out[..] == SwapPairs(b);
    s := TrimRight(out[..]);
    if |b| % 2 == 0 {
      TextIff(b, 0, |b|, s);
      assert b[0..|b|] == b;
    }
  }

  // --- the highest set bit ---

  // Zero-based position of the highest set bit; 0 for both 0 and 1.
  method HighestBit(v: uint16) returns (pos: uint16)
    ensures pos == Log2(v)
  {
    pos := 0;
    var i: uint16 := 15;
    Pow2Values();
    while i > 0
      invariant i <= 15 && v < Pow2(i + 1)
    {
      ShlTimes(1, i);
      AndBit(v, i);
      TopBitSet(v, i);
      if BitAnd(v, Shl(1, i)) != 0 {
        Log2Unique(v, i);
        return i;
      }
      i := i - 1;
    }
    assert v < 2;
  }

  // --- what the sector says ---

  ghost function Word(s: Sector, n: nat): uint16
    requires n < 256
  {
    U16(s, 2 * n)
  }

  ghost predicate Lba48(s: Sector) { Bit(Word(s, 83), 10) }

  // Words 100-103 or 60-61, as one little-endian number.
  ghost function Sectors(s: Sector): nat {
    if Lba48(s) then LE(s[200..208]) else LE(s[120..124])
  }

  // The long logical sector size in 16-bit words, where the drive declares one.
  ghost function LongSectorWords(s: Sector): nat {
    if Bit(Word(s, 106), 12) then LE(s[234..238]) else 0
  }

  // The logical sector size the drive declares, in bytes.
  ghost function DeclaredSize(s: Sector): nat {
    if LongSectorWords(s) > 0 then 2 * LongSectorWords(s) else 512
  }

  // What the parser stores of it: doubling the word count wraps in 32 bits.
  ghost function LogicalSize(s: Sector): uint32 {
    if LongSectorWords(s) > 0 then Wrap32(2 * LongSectorWords(s)) else 512
  }

  ghost function PhysicalShift(s: Sector): nat { Word(s, 106) % 16 }

  ghost function Rpm(s: Sector): nat {
    var rate := Word(s, 217);
    if rate == 1 || 0x0401 <= rate <= 0xfffe then rate else 0
  }

  ghost function PhysicalSize(s: Sector): uint32 { Wrap32(LogicalSize(s) * Pow2(PhysicalShift(s))) }

  ghost function Capacity(s: Sector): uint64 { Wrap64(Sectors(s) * LogicalSize(s)) }

  ghost function InfoAt(s: Sector): IdentifyInfo {
    IdentifyInfo(
      TrimRight(SwapPairs(s[54..94])), TrimRight(SwapPairs(s[20..40])), TrimRight(SwapPairs(s[46..54])),
      Capacity(s), LogicalSize(s), PhysicalSize(s), Rpm(s), Bit(Word(s, 82), 0), Bit(Word(s, 85), 0), Lba48(s),
      Log2(Word(s, 80)), Word(s, 76), Word(s, 77) / 2 % 8, s)
  }

  // --- the parser ---

  method ParseIdentify(data: seq<byte>) returns (r: Result<IdentifyInfo>)
    ensures r == if |data| != SIZE then Failure(WrongSize(SIZE, |data|)) else Success(InfoAt(data))
  {
    if |data| != 512 {
      return Failure(WrongSize(512, |data|));
    }
    var model := AtaString(data[54..94]);
    var serial := AtaString(data[20..40]);
    var firmware := AtaString(data[46..54]);

    var rotRate := U16(data, 2 * 217);
    var rpm := 0;
    if rotRate == 0x0001 {
      rpm := 1;
    } else if rotRate >= 0x0401 && rotRate <= 0xfffe {
      rpm := rotRate;
    }

    var supported, enabled, lba48 := ReadFlags(data);
    var totalSectors := ReadSectors(data, lba48);
    var logical := ReadLogicalSize(data);
    var physical := ReadPhysicalSize(data, logical);
    var capacity := Wrap64(totalSectors * logical);
    var version := HighestBit(U16(data, 2 * 80));
    var speed := ReadSpeed(data);
    r := Success(IdentifyInfo(model, serial, firmware, capacity, logical, physical, rpm, supported,
                              enabled, lba48, version, U16(data, 2 * 76), speed, data));
  }

  method ReadFlags(data: Sector) returns (supported: bool, enabled: bool, lba48: bool)
    ensures supported == Bit(Word(data, 82), 0)
    ensures enabled == Bit(Word(data, 85), 0)
    ensures lba48 == Lba48(data)
  {
    AndBit(Word(data, 82), 0);
    supported := BitAnd(U16(data, 2 * 82), 0x0001) != 0;
    AndBit(Word(data, 83), 10);
    MaskPowers();
    lba48 := BitAnd(U16(data, 2 * 83), 0x0400) != 0;
    AndBit(Word(data, 85), 0);
    enabled := BitAnd(U16(data, 2 * 85), 0x0001) != 0;
  }

  method ReadLogicalSize(data: Sector) returns (logical: uint32)
    ensures logical == LogicalSize(data)
  {
    logical := 512;
    LongFlag(data);
    if BitAnd(U16(data, 2 * 106), 0x1000) != 0 {
      LongWords(data);
      var ls := Or32(U16(data, 2 * 117), Shl32(U16(data, 2 * 118), 16));
      if ls > 0 {
        logical := Wrap32(ls as int * 2);
      }
    }
  }

  method ReadPhysicalSize(data: Sector, logical: uint32) returns (physical: uint32)
    requires logical == LogicalSize(data)
    ensures physical == PhysicalSize(data)
  {
    AndMasks(U16(data, 2 * 106));
    var physShift := BitAnd(U16(data, 2 * 106), 0x000f);
    ShlTimes(logical, physShift);
    physical := Shl32(logical, physShift);
  }

  method ReadSpeed(data: Sector) returns (speed: uint8)
    ensures speed == Word(data, 77) / 2 % 8
  {
    AndMasks(U16(data, 2 * 77) / 2);
    assert Shr(U16(data, 2 * 77), 1) == Shr(U16(data, 2 * 77) / 2, 0);
    speed := Wrap8(BitAnd(Shr(U16(data, 2 * 77), 1), 0x7));
  }

  // The sector count, assembled from words with shifts and ors.
  method ReadSectors(data: Sector, lba48: bool) returns (total: uint64)
    requires lba48 == Lba48(data)
    ensures total == Sectors(data)
  {
    if lba48 {
      OrWords(U16(data, 200), U16(data, 202));
      OrWords(U16(data, 204), U16(data, 206));
      TwoWords(data, 200);
      TwoWords(data, 204);
      var lo := Or64(U16(data, 2 * 100), Shl64(U16(data, 2 * 101), 16));
      var hi := Or64(U16(data, 2 * 102), Shl64(U16(data, 2 * 103), 16));
      assert data[200..208] == data[200..204] + data[204..208];
      LEConcat(data[200..204], data[204..208]);
      Pow256Values();
      OrDoubleWords(lo, hi);
      total := Or64(lo, Shl64(hi, 32));
    } else {
      OrWords(U16(data, 120), U16(data, 122));
      TwoWords(data, 120);
      total := Or64(U16(data, 2 * 60), Shl64(U16(data, 2 * 61), 16));
    }
  }

  lemma LongFlag(s: Sector)
    ensures BitAnd(U16(s, 212), 0x1000) != 0 <==> Bit(Word(s, 106), 12)
  {
    AndBit(Word(s, 106), 12);
    MaskPowers();
  }

  lemma LongWords(s: Sector)
    ensures Or32(U16(s, 234), Shl32(U16(s, 236), 16)) == LE(s[234..238])
  {
    OrWords32(U16(s, 234), U16(s, 236));
    TwoWords(s, 234);
  }

  lemma TwoWords(s: seq<byte>, off: nat)
    requires off + 4 <= |s|
    ensures U16(s, off) + 0x1_0000 * U16(s, off + 2) == LE(s[off..off + 4]) < 0x1_0000_0000
  {
    assert s[off..off + 4] == s[off..off + 2] + s[off + 2..off + 4];
    LEConcat(s[off..off + 2], s[off + 2..off + 4]);
    Pow256Values();
  }

  lemma MaskPowers()
    ensures Pow2(10) == 0x0400 && Pow2(12) == 0x1000
  {
    Pow2Values();
    assert Pow2(10) == 4 * Pow2(8);
    assert Pow2(12) == 4 * Pow2(10);
  }

  // The three strings that are read are the three that their fields carry.
  lemma StringsReadBack(s: Sector, model: seq<byte>, serial: seq<byte>, firmware: seq<byte>)
    ensures InfoAt(s).modelNumber == model <==> Fits(model, 40) && TextAt(s, 54, 40, model)
    ensures InfoAt(s).serialNumber == serial <==> Fits(serial, 20) && TextAt(s, 20, 20, serial)
    ensures InfoAt(s).firmwareVersion == firmware <==> Fits(firmware, 8) && TextAt(s, 46, 8, firmware)
  {
    TextIff(s, 54, 40, model);
    TextIff(s, 20, 20, serial);
    TextIff(s, 46, 8, firmware);
  }

  // --- when the sizes are exact ---

  // The stored size is the declared one exactly when that fits 32 bits.
  lemma StoredSize(s: Sector)
    ensures LogicalSize(s) == Wrap32(DeclaredSize(s)) && DeclaredSize(s) < 0x2_0000_0000
    ensures LogicalSize(s) == DeclaredSize(s) <==> DeclaredSize(s) < 0x1_0000_0000
  {
    LongSectorBound(s);
    WrapExact(DeclaredSize(s));
  }

  // The capacity is the declared number of sectors of the declared size exactly when that
  // product fits 64 bits and the size, unless there are no sectors, fits 32.
  lemma CapacityExactIff(s: Sector)
    ensures Capacity(s) == Sectors(s) * DeclaredSize(s)
            <==> Sectors(s) * DeclaredSize(s) < 0x1_0000_0000_0000_0000
                 && (Sectors(s) == 0 || DeclaredSize(s) < 0x1_0000_0000)
    ensures Sectors(s) < 0x1_0000_0000_0000 && DeclaredSize(s) <= 0x1_0000
            ==> Capacity(s) == Sectors(s) * DeclaredSize(s)
    ensures !Lba48(s) ==>
              (Capacity(s) == Sectors(s) * DeclaredSize(s) <==> Sectors(s) == 0 || DeclaredSize(s) < 0x1_0000_0000)
  {
    StoredSize(s);
    ShortCount(s);
    StoredProduct(Sectors(s), DeclaredSize(s));
    ProductBound(Sectors(s), DeclaredSize(s));
  }

  lemma StoredProduct(n: nat, d: nat)
    requires d < 0x2_0000_0000
    ensures Wrap64(n * Wrap32(d)) == n * d
            <==> n * d < 0x1_0000_0000_0000_0000 && (n == 0 || d < 0x1_0000_0000)
  {
    var l: int := Wrap32(d);
    WrapExact(d);
    WrapExact(n * l);
    if d >= 0x1_0000_0000 && n > 0 {
      assert d == l + 0x1_0000_0000;
      assert n * d == n * l + n * 0x1_0000_0000;
      WrapBelow(n * l);
    }
  }

  lemma WrapBelow(x: nat)
    ensures Wrap64(x) <= x && Wrap32(x) <= x
  {
  }

  lemma ShortCount(s: Sector)
    ensures !Lba48(s) ==> Sectors(s) < 0x1_0000_0000
  {
    Pow256Values();
  }

  lemma ProductBound(a: nat, b: nat)
    ensures a < 0x1_0000_0000_0000 && b <= 0x1_0000 ==> a * b < 0x1_0000_0000_0000_0000
    ensures a < 0x1_0000_0000 && b < 0x1_0000_0000 ==> a * b < 0x1_0000_0000_0000_0000
  {
    if a < 0x1_0000_0000_0000 && b <= 0x1_0000 {
      MulMonotone(a, 0x1_0000_0000_0000 - 1, b, 0x1_0000);
    }
    if a < 0x1_0000_0000 && b < 0x1_0000_0000 {
      MulMonotone(a, 0x1_0000_0000 - 1, b, 0x1_0000_0000 - 1);
    }
  }

  lemma MulMonotone(a: nat, c: nat, b: nat, d: nat)
    requires a <= c && b <= d
    ensures a * b <= c * d
  {
    assert a * b <= c * b;
    assert c * b <= c * d;
  }

  // A declared long sector of 2^31 words wraps to size zero, taking the capacity with it;
  // the size is nonzero for every other declaration, and exact below that one.
  lemma LogicalSizeExactIff(s: Sector)
    requires LongSectorWords(s) > 0
    ensures LogicalSize(s) == 2 * LongSectorWords(s) <==> LongSectorWords(s) < 0x8000_0000
    ensures LogicalSize(s) == 0 <==> LongSectorWords(s) == 0x8000_0000
    ensures LogicalSize(s) == 0 ==> Capacity(s) == 0
  {
    LongSectorBound(s);
    DoubleWraps(LongSectorWords(s));
    if LogicalSize(s) == 0 { assert Sectors(s) * 0 == 0; }
  }

  // The sector that declares 2^31 words and is otherwise zero has logical size zero.
  lemma ZeroSizeExample()
    ensures var s: Sector := seq(SIZE, p => if p == 213 then 0x10 else if p == 237 then 0x80 else 0);
            LongSectorWords(s) == 0x8000_0000 && LogicalSize(s) == 0
  {
    var s: Sector := seq(SIZE, p => if p == 213 then 0x10 else if p == 237 then 0x80 else 0);
    assert s[212..214] == [0, 0x10];
    TwoBytes(s, 212);
    TwoBytes(s, 234);
    TwoBytes(s, 236);
    TwoWords(s, 234);
    LongBit();
    DoubleWraps(0x8000_0000);
  }

  lemma TwoBytes(s: seq<byte>, off: nat)
    requires off + 2 <= |s|
    ensures U16(s, off) == s[off] + 256 * (s[off + 1] as int)
  {
    var t := s[off..off + 2];
    assert t[1..] == [s[off + 1]];
    assert LE([s[off + 1]]) == s[off + 1];
  }

  lemma LongSectorBound(s: Sector)
    ensures LongSectorWords(s) < 0x1_0000_0000
  {
    Pow256Values();
  }

  lemma DoubleWraps(n: nat)
    requires 0 < n < 0x1_0000_0000
    ensures Wrap32(2 * n) == 2 * n <==> n < 0x8000_0000
    ensures Wrap32(2 * n) == 0 <==> n == 0x8000_0000
  {
  }

  // A declared size of 2^32 + 512 bytes is stored as 512, and one such sector counts as 512
  // bytes, although the count is short and the stored size is small.
  lemma WrappedSizeExample()
    ensures var s: Sector := WrappedSizeSector();
            && !Lba48(s) && Sectors(s) == 1 && DeclaredSize(s) == 0x1_0000_0200
            && LogicalSize(s) == 512 && Capacity(s) == 512
  {
    WrappedSizeWords();
    WrappedSizeCount();
  }

  lemma WrappedSizeWords()
    ensures LongSectorWords(WrappedSizeSector()) == 0x8000_0100
  {
    var s := WrappedSizeSector();
    TwoBytes(s, 212);
    LongBit();
    TwoBytes(s, 234);
    TwoBytes(s, 236);
    TwoWords(s, 234);
  }

  lemma WrappedSizeCount()
    ensures !Lba48(WrappedSizeSector()) && Sectors(WrappedSizeSector()) == 1
  {
    var s := WrappedSizeSector();
    TwoBytes(s, 166);
    ShrZero(10);
    TwoBytes(s, 120);
    TwoBytes(s, 122);
    TwoWords(s, 120);
  }

  ghost function WrappedSizeSector(): Sector {
    seq(SIZE, p => if p == 213 then 0x10 else if p == 235 then 1 else if p == 237 then 0x80
                   else if p == 120 then 1 else 0)
  }

  lemma LongBit()
    ensures Bit(0x1000, 12)
  {
    MaskPowers();
    TopBitSet(0x1000, 12);
  }

  lemma PhysicalSizeExactIff(s: Sector)
    ensures PhysicalSize(s) == DeclaredSize(s) * Pow2(PhysicalShift(s))
            <==> DeclaredSize(s) * Pow2(PhysicalShift(s)) < 0x1_0000_0000
    ensures DeclaredSize(s) <= 0x1_0000 ==> PhysicalSize(s) == DeclaredSize(s) * Pow2(PhysicalShift(s))
  {
    var d, m := DeclaredSize(s), Pow2(PhysicalShift(s));
    StoredSize(s);
    Pow2Upto(PhysicalShift(s));
    if d <= 0x1_0000 {
      MulMonotone(d, 0x1_0000, m, 0x8000);
    }
    WrapExact(d * m);
    MulMonotone(d, d, 1, m);
  }

  lemma Pow2Upto(k: nat)
    requires k < 16
    ensures Pow2(k) <= 0x8000
  {
    Pow2Values();
    Pow2Monotone(k, 15);
    assert Pow2(16) == 2 * Pow2(15);
  }

  lemma {:induction false} Pow2Monotone(j: nat, k: nat)
    requires j <= k
    ensures Pow2(j) <= Pow2(k)
    decreases k
  {
    if j < k { Pow2Monotone(j, k - 1); }
  }

  // The rate is unknown, the SSD marker, or a plausible speed as bytes 434 and 435 state it.
  lemma RpmRange(s: Sector)
    ensures var rpm, rate := InfoAt(s).rpm, s[434] + 256 * (s[435] as int);
            && (rpm == 0 || rpm == 1 || 1025 <= rpm <= 65534)
            && (rpm == rate <==> rate <= 1 || 1025 <= rate <= 65534)
            && (rpm != rate ==> rpm == 0)
  {
    TwoBytes(s, 434);
  }
}
