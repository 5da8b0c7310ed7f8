// internal/nvme/nvme.go: the Error Information log, and internal/printer/nvme.go:
// printNVMeErrorLog.
module NvmeErrorLog {
  import opened GoInt
  import opened LittleEndian
  import opened Scan

  datatype ErrorLogEntry = ErrorLogEntry(
    errorCount: uint64, sqid: uint16, cmdid: uint16, statusField: uint16,
    paramErrorLocation: uint16, lba: uint64, nsid: uint32, vendorSpecific: uint8)

  const ZERO_ENTRY := ErrorLogEntry(0, 0, 0, 0, 0, 0, 0, 0)

  const STRIDE := 64
  const USED := 29

  // --- the layout, read from the data and written by position ---

  ghost function EntryAt(s: seq<byte>, off: nat): ErrorLogEntry
    requires off + USED <= |s|
  {
    ErrorLogEntry(U64(s, off), U16(s, off + 8), U16(s, off + 10), U16(s, off + 12), U16(s, off + 14),
                  U64(s, off + 16), U32(s, off + 24), s[off + 28])
  }

  ghost function EntryByte(e: ErrorLogEntry, k: nat): byte {
    if k < 8 then Digit(e.errorCount, k)
    else if k < 10 then Digit(e.sqid, k - 8)
    else if k < 12 then Digit(e.cmdid, k - 10)
    else if k < 14 then Digit(e.statusField, k - 12)
    else if k < 16 then Digit(e.paramErrorLocation, k - 14)
    else if k < 24 then Digit(e.lba, k - 16)
    else if k < 28 then Digit(e.nsid, k - 24)
    else e.vendorSpecific
  }

  ghost function EntriesAt(data: seq<byte>): (es: seq<ErrorLogEntry>)
    requires |data| % STRIDE == 0
    ensures STRIDE * |es| == |data|
  {
    seq(|data| / STRIDE, i requires 0 <= i < |data| / STRIDE => EntryAt(data, STRIDE * i))
  }

  ghost function Parse(data: seq<byte>): Result<seq<ErrorLogEntry>> {
    if |data| % STRIDE != 0 then Failure(NotMultipleOf(STRIDE, |data|)) else Success(EntriesAt(data))
  }

  // Entries written over data that already has their length.
  ghost function Put(es: seq<ErrorLogEntry>, base: seq<byte>): seq<byte>
    requires |base| == STRIDE * |es|
  {
    seq(|base|, p requires 0 <= p < |base| => PutByte(es, base, p))
  }

  ghost function PutByte(es: seq<ErrorLogEntry>, base: seq<byte>, p: nat): byte
    requires p < |base| == STRIDE * |es|
  {
    if p % STRIDE < USED then EntryByte(es[p / STRIDE], p % STRIDE) else base[p]
  }

  method ParseErrorLog(data: seq<byte>) returns (r: Result<seq<ErrorLogEntry>>)
    ensures r == Parse(data)
    ensures r.Success? ==> Put(r.value, data) == data
  {
    if |data| % 64 != 0 {
      return Failure(NotMultipleOf(64, |data|));
    }
    var n := |data| / 64;
    var entries := new ErrorLogEntry[n](_ => ZERO_ENTRY);
    for i := 0 to n
      invariant forall j :: 0 <= j < i ==> entries[j] == EntryAt(data, STRIDE * j)
    {
      var off := i * 64;
      entries[i] := ErrorLogEntry(
        U64(data, off), U16(data, off + 8), U16(data, off + 10), U16(data, off + 12),
        U16(data, off + 14), U64(data, off + 16), U32(data, off + 24), data[off + 28]);
    }
    assert entries[..] == EntriesAt(data);
    r := Success(entries[..]);
    PutParsed(data);
  }

  // --- one entry ---

  ghost predicate EntryShown(s: seq<byte>, off: nat, e: ErrorLogEntry)
    requires off + USED <= |s|
  {
    forall k: nat {:trigger EntryByte(e, k)} :: k < USED ==> s[off + k] == EntryByte(e, k)
  }

  lemma EntryAtShown(s: seq<byte>, off: nat, e: ErrorLogEntry)
    requires off + USED <= |s| && EntryAt(s, off) == e
    ensures EntryShown(s, off, e)
  {
    EntryFields(s, off, e);
  }

  lemma EntryShownAt(s: seq<byte>, off: nat, e: ErrorLogEntry)
    requires off + USED <= |s| && EntryShown(s, off, e)
    ensures EntryAt(s, off) == e
  {
    EntryFields(s, off, e);
    forall p | off <= p < off + USED ensures s[p] == EntryByte(e, p - off) {
      assert s[off + (p - off)] == EntryByte(e, p - off);
    }
  }

  lemma EntryFields(s: seq<byte>, off: nat, e: ErrorLogEntry)
    requires off + USED <= |s|
    ensures U64(s, off) == e.errorCount <==> FieldShown(s, off, 8, e.errorCount)
    ensures U16(s, off + 8) == e.sqid <==> FieldShown(s, off + 8, 2, e.sqid)
    ensures U16(s, off + 10) == e.cmdid <==> FieldShown(s, off + 10, 2, e.cmdid)
    ensures U16(s, off + 12) == e.statusField <==> FieldShown(s, off + 12, 2, e.statusField)
    ensures U16(s, off + 14) == e.paramErrorLocation <==> FieldShown(s, off + 14, 2, e.paramErrorLocation)
    ensures U64(s, off + 16) == e.lba <==> FieldShown(s, off + 16, 8, e.lba)
    ensures U32(s, off + 24) == e.nsid <==> FieldShown(s, off + 24, 4, e.nsid)
  {
    Pow256Values();
    FieldIff(s, off, 8, e.errorCount);
    FieldIff(s, off + 8, 2, e.sqid);
    FieldIff(s, off + 10, 2, e.cmdid);
    FieldIff(s, off + 12, 2, e.statusField);
    FieldIff(s, off + 14, 2, e.paramErrorLocation);
    FieldIff(s, off + 16, 8, e.lba);
    FieldIff(s, off + 24, 4, e.nsid);
  }

  // Entry i is decided by bytes 64i to 64i+28, and decides them.
  lemma EntryLocal(a: seq<byte>, b: seq<byte>, i: nat)
    requires |a| % STRIDE == |b| % STRIDE == 0 && STRIDE * i < |a| && STRIDE * i < |b|
    ensures EntriesAt(a)[i] == EntriesAt(b)[i]
            <==> a[STRIDE * i..STRIDE * i + USED] == b[STRIDE * i..STRIDE * i + USED]
  {
    var off := STRIDE * i;
    var x, y := a[off..off + USED], b[off..off + USED];
    EntryAtShown(a, off, EntryAt(a, off));
    EntryAtShown(b, off, EntryAt(b, off));
    if EntriesAt(a)[i] == EntriesAt(b)[i] {
      forall k: nat | k < USED ensures x[k] == y[k] {
        assert a[off + k] == EntryByte(EntryAt(a, off), k);
      }
    }
    if x == y {
      forall k: nat | k < USED ensures a[off + k] == EntryByte(EntryAt(b, off), k) {
        assert a[off + k] == x[k] == y[k] == b[off + k];
      }
      EntryShownAt(a, off, EntryAt(b, off));
    }
  }

  // --- the whole log, of any length ---

  lemma PutParsed(data: seq<byte>)
    requires |data| % STRIDE == 0
    ensures Put(EntriesAt(data), data) == data
  {
    forall p: nat | p < |data| ensures PutByte(EntriesAt(data), data, p) == data[p] {
      if p % STRIDE < USED { UsedByte(data, p / STRIDE, p % STRIDE); }
    }
  }

  lemma UsedByte(data: seq<byte>, i: nat, k: nat)
    requires |data| % STRIDE == 0 && i < |data| / STRIDE && k < USED
    ensures data[STRIDE * i + k] == EntryByte(EntriesAt(data)[i], k)
  {
    EntryAtShown(data, STRIDE * i, EntryAt(data, STRIDE * i));
    assert data[STRIDE * i + k] == EntryByte(EntryAt(data, STRIDE * i), k);
  }

  // Parsing inverts the encoding of every list of entries, whatever fills the gaps.
  lemma ParsePut(es: seq<ErrorLogEntry>, base: seq<byte>)
    requires |base| == STRIDE * |es|
    ensures Parse(Put(es, base)) == Success(es)
  {
    var data := Put(es, base);
    forall i: nat | i < |es| ensures EntryAt(data, STRIDE * i) == es[i] {
      forall k: nat | k < USED ensures data[STRIDE * i + k] == EntryByte(es[i], k) {
        StrideSplit(i, k);
        assert data[STRIDE * i + k] == PutByte(es, base, STRIDE * i + k);
      }
      EntryShownAt(data, STRIDE * i, es[i]);
    }
    assert EntriesAt(data) == es;
  }

  lemma StrideSplit(i: nat, k: nat)
    requires k < STRIDE
    ensures (STRIDE * i + k) / STRIDE == i && (STRIDE * i + k) % STRIDE == k
  {
  }

  // The inputs that parse to es are exactly its encodings.
  lemma ParseIffEncoding(es: seq<ErrorLogEntry>, data: seq<byte>)
    ensures Parse(data) == Success(es)
            <==> exists base: seq<byte> :: |base| == STRIDE * |es| && data == Put(es, base)
  {
    if Parse(data) == Success(es) {
      PutParsed(data);
      assert data == Put(es, data);
    }
    forall base: seq<byte> | |base| == STRIDE * |es| && data == Put(es, base)
      ensures Parse(data) == Success(es)
    {
      ParsePut(es, base);
    }
  }

  // Parsing distributes over concatenation of whole logs.
  lemma ParseConcat(a: seq<byte>, b: seq<byte>)
    requires |a| % STRIDE == |b| % STRIDE == 0
    ensures Parse(a + b) == Success(EntriesAt(a) + EntriesAt(b))
  {
    var x, y := EntriesAt(a), EntriesAt(b);
    Put2(x, y, a, b);
    PutParsed(a);
    PutParsed(b);
    ParsePut(x + y, a + b);
  }

  lemma Put2(x: seq<ErrorLogEntry>, y: seq<ErrorLogEntry>, a: seq<byte>, b: seq<byte>)
    requires |a| == STRIDE * |x| && |b| == STRIDE * |y|
    ensures Put(x + y, a + b) == Put(x, a) + Put(y, b)
  {
    forall p: nat | p < |a| + |b|
      ensures Put(x + y, a + b)[p] == (Put(x, a) + Put(y, b))[p]
    {
      if p >= |a| { Shifted(p, |x|); }
    }
  }

  lemma Shifted(p: nat, n: nat)
    requires p >= STRIDE * n
    ensures (p - STRIDE * n) / STRIDE == p / STRIDE - n && (p - STRIDE * n) % STRIDE == p % STRIDE
  {
  }

  // --- printing ---

  datatype Line =
    | Title
    | NoErrorsLogged
    | Header
    | Row(num: nat, entry: ErrorLogEntry)

  ghost predicate Counted(e: ErrorLogEntry) { e.errorCount > 0 }

  ghost function RowOf(i: nat, e: ErrorLogEntry): Line { Row(i, e) }

  ghost function Report(entries: seq<ErrorLogEntry>): seq<Line> {
    [Title] +
    if forall i :: 0 <= i < |entries| ==> !Counted(entries[i]) then [NoErrorsLogged]
    else [Header] + Rows(entries, Counted, RowOf)
  }

  // The rows are exactly the entries with a count, in order, each under its index.
  lemma RowsAreCounted(es: seq<ErrorLogEntry>)
    ensures var rows, used := Rows(es, Counted, RowOf), Selected(es, Counted);
            && |rows| == |used| && Lists(used, CountedSlots(es))
            && (forall j :: 0 <= j < |used| ==> used[j] < |es| && rows[j] == Row(used[j], es[used[j]]))
            && (forall i, j :: 0 <= i < j < |used| ==> used[i] < used[j])
            && (forall p: nat :: p < |es| ==> (es[p].errorCount > 0 <==> p in used))
  {
    SelectedLists(es, Counted, CountedSlots(es));
    RowsOfSelected(es, Counted, RowOf);
  }

  // --- what the report must say, stated on the entries ---

  ghost function CountedSlots(es: seq<ErrorLogEntry>): set<nat> { set p: nat | p < |es| && es[p].errorCount != 0 }

  // One row for each counted entry, in order, under its index.
  ghost predicate EntryRows(lines: seq<Line>, es: seq<ErrorLogEntry>) {
    exists slots ::
      && Lists(slots, CountedSlots(es)) && |lines| == |slots|
      && forall j :: 0 <= j < |slots| ==> slots[j] < |es| && lines[j] == Row(slots[j], es[slots[j]])
  }

  // The title, and the message exactly when no entry has a count.
  ghost predicate ShowsEntries(w: seq<Line>, es: seq<ErrorLogEntry>) {
    if CountedSlots(es) == {} then w == [Title, NoErrorsLogged]
    else |w| >= 2 && w[..2] == [Title, Header] && EntryRows(w[2..], es)
  }

  lemma ReportShows(es: seq<ErrorLogEntry>)
    ensures ShowsEntries(Report(es), es)
  {
    NoneCountedIff(es);
    if CountedSlots(es) != {} {
      HeaderThenRows(es);
      RowsAreCounted(es);
    }
  }

  lemma HeaderThenRows(es: seq<ErrorLogEntry>)
    requires exists i :: 0 <= i < |es| && Counted(es[i])
    ensures var w := Report(es); |w| >= 2 && w[..2] == [Title, Header] && w[2..] == Rows(es, Counted, RowOf)
  {
  }

  lemma NoneCountedIff(es: seq<ErrorLogEntry>)
    ensures CountedSlots(es) == {} <==> forall i :: 0 <= i < |es| ==> !Counted(es[i])
  {
    if i :| 0 <= i < |es| && Counted(es[i]) {
      assert i in CountedSlots(es);
    } else {
      forall p: nat | p < |es| ensures es[p].errorCount == 0 {
        assert !Counted(es[p]);
      }
    }
  }

  // --- printing it ---

  method PrintErrorLog(entries: seq<ErrorLogEntry>) returns (w: seq<Line>)
    ensures w == Report(entries)
    ensures ShowsEntries(w, entries)
  {
    w := [Title];
    var hasErrors := false;
    for i := 0 to |entries|
      invariant !hasErrors
      invariant forall j :: 0 <= j < i ==> !Counted(entries[j])
    {
      if entries[i].errorCount > 0 {
        hasErrors := true;
        assert Counted(entries[i]);
        break;
      }
    }
    if !hasErrors {
      w := w + [NoErrorsLogged];
    } else {
      var rows := PrintRows(entries);
      w := w + [Header] + rows;
    }
    assert w == Report(entries);
    ReportShows(entries);
  }

  method PrintRows(entries: seq<ErrorLogEntry>) returns (w: seq<Line>)
    ensures w == Rows(entries, Counted, RowOf)
  {
    w := [];
    for i := 0 to |entries|
      invariant w == Rows(entries[..i], Counted, RowOf)
    {
      RowsStep(entries, i, Counted, RowOf);
      if entries[i].errorCount == 0 {
        continue;
      }
      w := w + [Row(i, entries[i])];
    }
    assert entries[..|entries|] == entries;
  }

  // There is a message instead of rows exactly when no entry has a count.
  lemma MessageIff(es: seq<ErrorLogEntry>)
    ensures Report(es) == [Title, NoErrorsLogged] <==> Rows(es, Counted, RowOf) == []
  {
    SelectedExact(es, Counted);
    RowsOfSelected(es, Counted, RowOf);
    if Rows(es, Counted, RowOf) != [] {
      assert Counted(es[Selected(es, Counted)[0]]);
      assert Report(es)[1] == Header;
    } else {
      forall p: nat | p < |es| ensures !Counted(es[p]) {
      }
    }
  }

  // The entry in a 64-byte slot, for data that is whole slots.
  ghost function Stored(data: seq<byte>, k: nat): Option<ErrorLogEntry> {
    if |data| % STRIDE == 0 && STRIDE * k < |data| then Some(EntryAt(data, STRIDE * k)) else None
  }

  // Over the bytes of a log: an entry is shown under a number exactly when it is stored in
  // the slot of that number with a count that is not zero.
  lemma ReportedIff(data: seq<byte>, k: nat, e: ErrorLogEntry)
    requires |data| % STRIDE == 0
    ensures Row(k, e) in Report(EntriesAt(data)) <==> Stored(data, k) == Some(e) && e.errorCount > 0
  {
    var es := EntriesAt(data);
    RowShownIff(es, Counted, RowOf, Row(k, e));
    if Row(k, e) in Report(es) {
      var p: nat :| p < |es| && Counted(es[p]) && Row(k, e) == RowOf(p, es[p]);
    }
    if Stored(data, k) == Some(e) && e.errorCount > 0 {
      assert es[k] == e && Counted(es[k]) && Row(k, e) == RowOf(k, es[k]);
    }
  }
}
