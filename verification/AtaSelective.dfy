// internal/ata/smart.go: the selective self-test log (log address 0x09), which has no
// checksum, and internal/printer/ata.go: printSelectiveSelfTestLog.
module AtaSelective {
  import opened GoInt
  import opened Bits
  import opened LittleEndian
  import opened Sector

  type Spans = s: seq<Span> | |s| == 5 witness seq(5, _ => ZERO_SPAN)

  const ZERO_SPAN := Span(0, 0, 0)

  datatype Span = Span(minLba: uint64, maxLba: uint64, status: uint16)

  datatype SelectiveLog = SelectiveLog(revNumber: uint16, spans: Spans, flags: uint16)

  // --- the layout, read from the sector and written by position ---

  ghost function SpanAt(s: seq<byte>, off: nat): Span
    requires off + 18 <= |s|
  {
    Span(U64(s, off), U64(s, off + 8), U16(s, off + 16))
  }

  ghost function SelectiveLogAt(s: Sector): SelectiveLog {
    SelectiveLog(U16(s, 0), seq(5, i requires 0 <= i < 5 => SpanAt(s, 2 + 20 * i)), U16(s, 102))
  }

  ghost function SpanByte(e: Span, k: nat): byte {
    if k < 8 then Digit(e.minLba, k)
    else if k < 16 then Digit(e.maxLba, k - 8)
    else Digit(e.status, k - 16)
  }

  ghost function SelectiveLogByte(v: SelectiveLog, p: nat): byte {
    if p < 2 then Digit(v.revNumber, p)
    else if p < 102 then SpanByte(v.spans[(p - 2) / 20], (p - 2) % 20)
    else Digit(v.flags, p - 102)
  }

  // Of bytes 0..103, only the last two of each span are skipped.
  ghost predicate SelectiveLogUses(p: nat) {
    p < 104 && !(2 <= p < 102 && (p - 2) % 20 >= 18)
  }

  ghost function SelectiveLogCodec(): Codec<SelectiveLog> {
    Codec(SelectiveLogAt, SelectiveLogByte, SelectiveLogUses)
  }

  ghost predicate SpanShown(s: seq<byte>, off: nat, e: Span)
    requires off + 18 <= |s|
  {
    forall k: nat {:trigger SpanByte(e, k)} :: k < 18 ==> s[off + k] == SpanByte(e, k)
  }

  lemma SpanFields(s: seq<byte>, off: nat, e: Span)
    requires off + 18 <= |s|
    ensures U64(s, off) == e.minLba <==> FieldShown(s, off, 8, e.minLba)
    ensures U64(s, off + 8) == e.maxLba <==> FieldShown(s, off + 8, 8, e.maxLba)
    ensures U16(s, off + 16) == e.status <==> FieldShown(s, off + 16, 2, e.status)
  {
    Pow256Values();
    FieldIff(s, off, 8, e.minLba);
    FieldIff(s, off + 8, 8, e.maxLba);
    FieldIff(s, off + 16, 2, e.status);
  }

  lemma SpanIff(s: seq<byte>, off: nat, e: Span)
    requires off + 18 <= |s|
    ensures SpanAt(s, off) == e <==> SpanShown(s, off, e)
  {
    SpanFields(s, off, e);
    if SpanShown(s, off, e) {
      forall p | off <= p < off + 18 ensures s[p] == SpanByte(e, p - off) {
        assert s[off + (p - off)] == SpanByte(e, p - off);
      }
    }
  }

  ghost predicate SpansShown(v: SelectiveLog, s: Sector) {
    forall p: nat {:trigger SelectiveLogByte(v, p)} ::
      2 <= p < 102 && SelectiveLogUses(p) ==> s[p] == SelectiveLogByte(v, p)
  }

  lemma SpanSlot(v: SelectiveLog, i: nat, k: nat)
    requires i < 5 && k < 18
    ensures SelectiveLogUses(2 + 20 * i + k)
    ensures SelectiveLogByte(v, 2 + 20 * i + k) == SpanByte(v.spans[i], k)
  {
    assert (20 * i + k) / 20 == i && (20 * i + k) % 20 == k;
  }

  lemma SpansAtShown(v: SelectiveLog, s: Sector)
    requires SelectiveLogAt(s).spans == v.spans
    ensures SpansShown(v, s)
  {
    forall p: nat | 2 <= p < 102 && SelectiveLogUses(p) ensures s[p] == SelectiveLogByte(v, p) {
      var i, k := (p - 2) / 20, (p - 2) % 20;
      assert SelectiveLogAt(s).spans[i] == SpanAt(s, 2 + 20 * i);
      SpanIff(s, 2 + 20 * i, v.spans[i]);
      assert s[2 + 20 * i + k] == SpanByte(v.spans[i], k);
    }
  }

  lemma SpansShownAt(v: SelectiveLog, s: Sector)
    requires SpansShown(v, s)
    ensures SelectiveLogAt(s).spans == v.spans
  {
    forall i | 0 <= i < 5 ensures SpanAt(s, 2 + 20 * i) == v.spans[i] {
      forall k: nat | k < 18 ensures s[2 + 20 * i + k] == SpanByte(v.spans[i], k) {
        SpanSlot(v, i, k);
      }
      SpanIff(s, 2 + 20 * i, v.spans[i]);
    }
  }

  lemma SelectiveLogIff(v: SelectiveLog, s: Sector)
    ensures SelectiveLogAt(s) == v <==> Shows(SelectiveLogCodec(), s, v)
  {
    var c := SelectiveLogCodec();
    Pow256Values();
    FieldIff(s, 0, 2, v.revNumber);
    FieldIff(s, 102, 2, v.flags);
    if SelectiveLogAt(s) == v {
      SpansAtShown(v, s);
      assert forall p: nat :: c.byteAt(v, p) == SelectiveLogByte(v, p);
    }
    if Shows(c, s, v) {
      assert c.uses(0) && c.uses(1) && c.uses(102) && c.uses(103);
      assert SpansShown(v, s);
      SpansShownAt(v, s);
    }
  }

  lemma SelectiveLogLawful()
    ensures Lawful(SelectiveLogCodec())
  {
    forall v: SelectiveLog, s: Sector
      ensures SelectiveLogCodec().get(s) == v <==> Shows(SelectiveLogCodec(), s, v)
    {
      SelectiveLogIff(v, s);
    }
  }

  ghost function ParseSelective(data: seq<byte>): Result<SelectiveLog> {
    if |data| != SIZE then Failure(WrongSize(SIZE, |data|)) else Success(SelectiveLogAt(data))
  }

  // Without a checksum every sector is accepted: exactly the sectors that a log can be
  // written over without changing them parse to it.
  lemma AcceptedIff(data: seq<byte>, v: SelectiveLog)
    ensures ParseSelective(data) == Success(v) <==> |data| == SIZE && Put(SelectiveLogCodec(), v, data) == data
  {
    SelectiveLogLawful();
    if |data| == SIZE {
      PutGet(SelectiveLogCodec(), v, data);
    }
  }

  method ParseSmartSelectiveSelfTestLog(data: seq<byte>) returns (r: Result<SelectiveLog>)
    ensures r == ParseSelective(data)
    ensures r.Success? ==> Put(SelectiveLogCodec(), r.value, data) == data
  {
    if |data| != 512 {
      return Failure(WrongSize(512, |data|));
    }
    var spans := new Span[5](_ => ZERO_SPAN);
    for i := 0 to 5
      invariant forall j :: 0 <= j < i ==> spans[j] == SpanAt(data, 2 + 20 * j)
    {
      var off := 2 + i * 20;
      spans[i] := Span(U64(data, off), U64(data, off + 8), U16(data, off + 16));
    }
    assert spans[..] == SelectiveLogAt(data).spans;
    r := Success(SelectiveLog(U16(data, 0), spans[..], U16(data, 102)));
    AcceptedIff(data, r.value);
  }

  // --- printing ---

  datatype Line =
    | Revision(revision: uint16)
    | SpanRow(num: nat, minLba: uint64, maxLba: uint64, status: Option<uint16>)
    | Flags(flags: uint16, readScan: bool)

  // The row of a span; status zero prints as not testing.
  ghost function RowOf(i: nat, e: Span): Line {
    SpanRow(i + 1, e.minLba, e.maxLba, if e.status == 0 then None else Some(e.status))
  }

  ghost function SelectiveReport(sl: SelectiveLog): seq<Line> {
    [Revision(sl.revNumber)] + seq(5, i requires 0 <= i < 5 => RowOf(i, sl.spans[i]))
    + [Flags(sl.flags, sl.flags % 2 == 1)]
  }

  // What a row says of span i.
  ghost predicate Describes(line: Line, i: nat, e: Span) {
    && line.SpanRow? && line.num == i + 1 && line.minLba == e.minLba && line.maxLba == e.maxLba
    && (line.status.None? <==> e.status == 0)
    && (line.status.Some? ==> line.status.value == e.status)
  }

  // The revision, a row for each of the five spans in order, and the flags, of which the
  // lowest says whether the rest of the disk is read.
  ghost predicate ShowsSpans(w: seq<Line>, sl: SelectiveLog) {
    && |w| == 7 && w[0] == Revision(sl.revNumber)
    && (forall i :: 0 <= i < 5 ==> Describes(w[1 + i], i, sl.spans[i]))
    && w[6].Flags? && w[6].flags == sl.flags && (w[6].readScan <==> sl.flags % 2 == 1)
  }

  lemma ReportShows(sl: SelectiveLog)
    ensures ShowsSpans(SelectiveReport(sl), sl)
  {
    forall i | 0 <= i < 5 ensures Describes(SelectiveReport(sl)[1 + i], i, sl.spans[i]) {
      assert SelectiveReport(sl)[1 + i] == RowOf(i, sl.spans[i]);
    }
  }

  method PrintSelectiveSelfTestLog(sl: SelectiveLog) returns (w: seq<Line>)
    ensures w == SelectiveReport(sl)
    ensures ShowsSpans(w, sl)
  {
    w := [Revision(sl.revNumber)];
    for i := 0 to 5
      invariant w == [Revision(sl.revNumber)] + seq(i, j requires 0 <= j < i => RowOf(j, sl.spans[j]))
    {
      var status := None;
      if sl.spans[i].status != 0 {
        status := Some(sl.spans[i].status);
      }
      w := w + [SpanRow(i + 1, sl.spans[i].minLba, sl.spans[i].maxLba, status)];
    }
    AndBit(sl.flags, 0);
    w := w + [Flags(sl.flags, BitAnd(sl.flags, 0x01) != 0)];
    assert w == SelectiveReport(sl);
    ReportShows(sl);
  }

  // The report determines the log.
  lemma ReportInjective(a: SelectiveLog, b: SelectiveLog)
    requires SelectiveReport(a) == SelectiveReport(b)
    ensures a == b
  {
    var x, y := SelectiveReport(a), SelectiveReport(b);
    assert x[0] == Revision(a.revNumber) && y[0] == Revision(b.revNumber);
    forall i | 0 <= i < 5 ensures a.spans[i] == b.spans[i] {
      assert x[1 + i] == RowOf(i, a.spans[i]) && y[1 + i] == RowOf(i, b.spans[i]);
    }
    assert x[6] == Flags(a.flags, a.flags % 2 == 1) && y[6] == Flags(b.flags, b.flags % 2 == 1);
  }
}
