// internal/printer/ata.go: printErrorLog, which walks the five slots of the error
// log backwards from the log pointer, and the drive that fills them in a ring.
module ErrorRing {
  import opened GoInt
  import opened Scan
  import opened Sector
  import opened AtaErrorLog

  datatype Line =
    | Version(revision: uint8)
    | NoErrorsLogged
    | ErrorCount(count: nat)
    | CommandHeader
    | Occurred(number: nat, hours: nat)
    | Issued(command: ErrorCommand)
    | Summary(error: ErrorRecord)

  // --- what a report says ---

  // The commands that were issued, latest first; a zero command byte is an empty slot.
  ghost function IssuedLines(commands: seq<ErrorCommand>): seq<Line> {
    if commands == [] then []
    else
      var last := commands[|commands| - 1];
      (if last.commandReg == 0 then [] else [Issued(last)]) + IssuedLines(commands[..|commands| - 1])
  }

  ghost function Block(number: nat, e: ErrorLogEntry): seq<Line> {
    [Occurred(number, e.error.timestampMin / 60)] + IssuedLines(e.commands) + [Summary(e.error)]
  }

  // One block per error, newest first, numbered downwards from first.
  ghost function Blocks(first: nat, newest: seq<ErrorLogEntry>): seq<Line>
    requires |newest| <= first
  {
    if newest == [] then []
    else
      var k := |newest| - 1;
      Blocks(first, newest[..k]) + Block(first - k, newest[k])
  }

  // The report of a log that counts count errors and still holds the newest of them.
  ghost function Report(revision: uint8, count: nat, newest: seq<ErrorLogEntry>): seq<Line>
    requires |newest| <= count
  {
    [Version(revision)] +
    if count == 0 then [NoErrorsLogged]
    else [ErrorCount(count), CommandHeader] + Blocks(count, newest)
  }

  // --- what it must say, stated on the stored entries ---

  ghost function IssuedSlots(commands: Commands): set<nat> {
    set c: nat | c < 5 && commands[c].commandReg != 0
  }

  // The lines of one error: its number and hours, the commands of the used slots from the
  // highest slot down, and its record.
  ghost predicate EntryText(b: seq<Line>, number: nat, e: ErrorLogEntry) {
    && |b| >= 2
    && b[0] == Occurred(number, e.error.timestampMin / 60)
    && b[|b| - 1] == Summary(e.error)
    && CommandText(b, e.commands)
  }

  ghost predicate CommandText(b: seq<Line>, commands: Commands)
    requires |b| >= 2
  {
    exists slots ::
      && Lists(slots, IssuedSlots(commands)) && |slots| == |b| - 2
      && forall j :: 0 <= j < |slots| ==> slots[j] < 5 && b[|slots| - j] == Issued(commands[slots[j]])
  }

  ghost function Joined(parts: seq<seq<Line>>): seq<Line> {
    if parts == [] then [] else Joined(parts[..|parts| - 1]) + parts[|parts| - 1]
  }

  // The lines of a log that counts count errors: the message if there are none, otherwise
  // the text of each of the given entries in turn, numbered downwards from the count.
  ghost predicate ShowsErrors(w: seq<Line>, revision: uint8, count: nat, newest: seq<ErrorLogEntry>)
    requires |newest| <= count
  {
    if count == 0 then w == [Version(revision), NoErrorsLogged]
    else TextInTurn(w, [Version(revision), ErrorCount(count), CommandHeader], count, newest)
  }

  ghost predicate TextInTurn(w: seq<Line>, header: seq<Line>, first: nat, newest: seq<ErrorLogEntry>)
    requires |newest| <= first
  {
    exists parts: seq<seq<Line>> ::
      && |parts| == |newest| && w == header + Joined(parts)
      && forall n :: 0 <= n < |parts| ==> EntryText(parts[n], first - n, newest[n])
  }

  // The entries of a log that are shown: as many as the count admits, backwards around the
  // ring from the slot below the pointer.
  ghost predicate ShowsLog(w: seq<Line>, el: SmartErrorLog) {
    var m := if el.ataErrorCount < 5 then el.ataErrorCount else 5;
    ShowsErrors(w, el.revNumber, el.ataErrorCount,
                seq(m, n requires 0 <= n < m => el.entries[(el.logPointer + 4 - n) % 5]))
  }

  // The lines of the commands are those of the issued slots, in reverse.
  lemma {:induction false} IssuedReversed(commands: seq<ErrorCommand>)
    ensures var slots := Selected(commands, IsIssued);
            && |IssuedLines(commands)| == |slots|
            && forall j :: 0 <= j < |slots| ==>
                 slots[j] < |commands| && IssuedLines(commands)[|slots| - 1 - j] == Issued(commands[slots[j]])
  {
    SelectedExact(commands, IsIssued);
    if commands != [] {
      IssuedReversed(commands[..|commands| - 1]);
    }
  }

  ghost predicate IsIssued(c: ErrorCommand) { c.commandReg != 0 }

  lemma BlockText(number: nat, e: ErrorLogEntry)
    ensures EntryText(Block(number, e), number, e)
  {
    SelectedLists(e.commands, IsIssued, IssuedSlots(e.commands));
    IssuedReversed(e.commands);
  }

  ghost function BlockList(first: nat, newest: seq<ErrorLogEntry>): seq<seq<Line>>
    requires |newest| <= first
  {
    seq(|newest|, n requires 0 <= n < |newest| => Block(first - n, newest[n]))
  }

  lemma {:induction false} BlocksJoined(first: nat, newest: seq<ErrorLogEntry>)
    requires |newest| <= first
    ensures Blocks(first, newest) == Joined(BlockList(first, newest))
  {
    if newest != [] {
      var k := |newest| - 1;
      BlocksJoined(first, newest[..k]);
      assert BlockList(first, newest)[..k] == BlockList(first, newest[..k]);
    }
  }

  lemma BlocksInTurn(header: seq<Line>, first: nat, newest: seq<ErrorLogEntry>)
    requires |newest| <= first
    ensures TextInTurn(header + Blocks(first, newest), header, first, newest)
  {
    BlocksJoined(first, newest);
    AllText(first, newest);
  }

  lemma AllText(first: nat, newest: seq<ErrorLogEntry>)
    requires |newest| <= first
    ensures forall n :: 0 <= n < |newest| ==> EntryText(BlockList(first, newest)[n], first - n, newest[n])
  {
    forall n | 0 <= n < |newest| ensures EntryText(BlockList(first, newest)[n], first - n, newest[n]) {
      BlockText(first - n, newest[n]);
    }
  }

  lemma ReportShows(revision: uint8, count: nat, newest: seq<ErrorLogEntry>)
    requires |newest| <= count
    ensures ShowsErrors(Report(revision, count, newest), revision, count, newest)
  {
    if count > 0 {
      ReportSplit(revision, count, newest);
      BlocksInTurn([Version(revision), ErrorCount(count), CommandHeader], count, newest);
    }
  }

  lemma ReportSplit(revision: uint8, count: nat, newest: seq<ErrorLogEntry>)
    requires |newest| <= count && count > 0
    ensures Report(revision, count, newest)
         == [Version(revision), ErrorCount(count), CommandHeader] + Blocks(count, newest)
  {
  }

  lemma LogShows(el: SmartErrorLog)
    ensures ShowsLog(Report(el.revNumber, el.ataErrorCount, Walked(el)), el)
  {
    var m := if el.ataErrorCount < 5 then el.ataErrorCount else 5;
    var newest := seq(m, n requires 0 <= n < m => el.entries[(el.logPointer + 4 - n) % 5]);
    forall n | 0 <= n < m ensures Walked(el)[n] == newest[n] {
      WalkedAt(el, n);
    }
    assert Walked(el) == newest;
    ReportShows(el.revNumber, el.ataErrorCount, newest);
  }

  // --- the walk ---

  function Min(a: nat, b: nat): nat { if a <= b then a else b }

  function WalkIndex(pointer: uint8, n: nat): int { Rem(pointer - 1 - n + 5, 5) }

  ghost function Walked(el: SmartErrorLog): (r: seq<ErrorLogEntry>)
    ensures |r| == Min(el.ataErrorCount, 5)
  {
    seq(Min(el.ataErrorCount, 5), n requires 0 <= n < 5 =>
      WalkTotal(el.logPointer, n, n); el.entries[WalkIndex(el.logPointer, n)])
  }

  // Whatever the pointer byte, the walk stays inside the ring and never meets a slot twice.
  lemma WalkTotal(pointer: uint8, m: nat, n: nat)
    requires m < 5 && n < 5
    ensures 0 <= WalkIndex(pointer, n) < 5
    ensures WalkIndex(pointer, m) == WalkIndex(pointer, n) <==> m == n
  {
  }

  method PrintErrorLog(el: SmartErrorLog) returns (w: seq<Line>)
    ensures w == Report(el.revNumber, el.ataErrorCount, Walked(el))
    ensures ShowsLog(w, el)
  {
    w := [Version(el.revNumber)];
    if el.ataErrorCount == 0 {
      w := w + [NoErrorsLogged];
    } else {
      var blocks := WalkErrors(el);
      w := w + [ErrorCount(el.ataErrorCount), CommandHeader] + blocks;
    }
    assert w == Report(el.revNumber, el.ataErrorCount, Walked(el));
    LogShows(el);
  }

  // The loop of printErrorLog.
  method WalkErrors(el: SmartErrorLog) returns (w: seq<Line>)
    ensures w == Blocks(el.ataErrorCount, Walked(el))
  {
    var total := el.ataErrorCount;
    var count := total;
    if count > 5 {
      count := 5;
    }
    ghost var newest := Walked(el);
    w := [];
    for n := 0 to count
      invariant w == BlocksUpTo(total, newest, n)
    {
      WalkedAt(el, n);
      // uint16 subtraction: the printed number is at least 1 and does not wrap.
      var number := Wrap16(total - n);
      var lines := PrintEntry(number, el.entries[WalkIndex(el.logPointer, n)]);
      w := w + lines;
      BlocksStep(total, newest, n);
    }
    assert newest[..count] == newest;
  }

  // The blocks of the first n entries.
  ghost function BlocksUpTo(first: nat, newest: seq<ErrorLogEntry>, n: nat): seq<Line>
    requires n <= |newest| <= first
  {
    Blocks(first, newest[..n])
  }

  lemma BlocksStep(first: nat, newest: seq<ErrorLogEntry>, n: nat)
    requires n < |newest| <= first
    ensures BlocksUpTo(first, newest, n + 1) == BlocksUpTo(first, newest, n) + Block(first - n, newest[n])
  {
    assert newest[..n + 1][..n] == newest[..n];
  }

  lemma WalkedAt(el: SmartErrorLog, n: nat)
    requires n < Min(el.ataErrorCount, 5)
    ensures 0 <= WalkIndex(el.logPointer, n) < 5
    ensures Walked(el)[n] == el.entries[WalkIndex(el.logPointer, n)]
    ensures 1 <= Wrap16(el.ataErrorCount - n) == el.ataErrorCount - n
  {
    WalkTotal(el.logPointer, n, n);
  }

  // The body of the walk, with its inner loop over the five commands.
  method PrintEntry(number: uint16, entry: ErrorLogEntry) returns (w: seq<Line>)
    ensures w == Block(number, entry)
  {
    w := [Occurred(number, entry.error.timestampMin / 60)];
    ghost var header := w;
    assert entry.commands[..5] == entry.commands;
    for c := 5 downto 0
      invariant w + IssuedLines(entry.commands[..c]) == header + IssuedLines(entry.commands)
    {
      IssuedStep(w, entry.commands, c);
      if entry.commands[c].commandReg == 0 {
        continue;
      }
      w := w + [Issued(entry.commands[c])];
    }
    w := w + [Summary(entry.error)];
  }

  lemma IssuedStep(w: seq<Line>, commands: seq<ErrorCommand>, c: nat)
    requires c < |commands|
    ensures w + IssuedLines(commands[..c + 1])
         == (if commands[c].commandReg == 0 then w else w + [Issued(commands[c])]) + IssuedLines(commands[..c])
  {
    assert commands[..c + 1][..c] == commands[..c];
  }

  // --- the drive ---

  // The slots, the 1-based index of the newest one (0 before the first error),
  // and a 16-bit count that wraps.
  datatype Drive = Drive(slots: Entries, pointer: uint8, count: uint16)

  ghost function Append(d: Drive, e: ErrorLogEntry): Drive
    requires d.pointer <= 5
  {
    Drive(d.slots[d.pointer % 5 := e], d.pointer % 5 + 1, Wrap16(d.count + 1))
  }

  // The drive after a history of errors, oldest first, from arbitrary slot contents.
  ghost function After(slots: Entries, history: seq<ErrorLogEntry>): (d: Drive)
    ensures d.pointer <= 5
  {
    if history == [] then Drive(slots, 0, 0)
    else Append(After(slots, history[..|history| - 1]), history[|history| - 1])
  }

  ghost function LogOf(d: Drive, revision: uint8): SmartErrorLog {
    SmartErrorLog(revision, d.pointer, d.slots, d.count)
  }

  // The m most recent errors of a history, newest first.
  ghost function Latest(history: seq<ErrorLogEntry>, m: nat): seq<ErrorLogEntry>
    requires m <= |history|
  {
    seq(m, j requires 0 <= j < m => history[|history| - 1 - j])
  }

  // The pointer follows the history, and error q is in slot q mod 5 until five more
  // have come.
  ghost predicate Tracks(d: Drive, history: seq<ErrorLogEntry>) {
    var n := |history|;
    && d.pointer == (if n == 0 then 0 else (n - 1) % 5 + 1)
    && forall q :: 0 <= q < n <= q + 5 ==> d.slots[q % 5] == history[q]
  }

  // What every step of the drive keeps.
  lemma AppendTracks(d: Drive, history: seq<ErrorLogEntry>, e: ErrorLogEntry)
    requires d.pointer <= 5 && Tracks(d, history)
    ensures Tracks(Append(d, e), history + [e])
  {
    var n := |history|;
    NextSlot(n);
    forall q | 0 <= q < n + 1 <= q + 5
      ensures Append(d, e).slots[q % 5] == (history + [e])[q]
    {
      if q < n { ModDistinct(q, n); }
    }
  }

  lemma NextSlot(n: nat)
    ensures n > 0 ==> ((n - 1) % 5 + 1) % 5 == n % 5
  {
  }

  lemma NextCount(n: nat)
    ensures Wrap16(n % 0x1_0000 + 1) == (n + 1) % 0x1_0000
  {
  }

  lemma ModDistinct(q: nat, n: nat)
    requires q < n < q + 5
    ensures q % 5 != n % 5
  {
  }

  lemma {:induction false} AfterTracks(slots: Entries, history: seq<ErrorLogEntry>)
    ensures Tracks(After(slots, history), history)
  {
    if history != [] {
      var k := |history| - 1;
      AfterTracks(slots, history[..k]);
      AppendTracks(After(slots, history[..k]), history[..k], history[k]);
      assert history[..k] + [history[k]] == history;
    }
  }

  lemma {:induction false} AfterCount(slots: Entries, history: seq<ErrorLogEntry>)
    ensures After(slots, history).count == |history| % 0x1_0000
  {
    if history != [] {
      AfterCount(slots, history[..|history| - 1]);
      NextCount(|history| - 1);
    }
  }

  lemma WalkFollowsRing(n: nat, j: nat)
    requires j < n && j < 5
    ensures WalkIndex((n - 1) % 5 + 1, j) == (n - 1 - j) % 5
  {
  }

  // The walk meets the latest errors, as many as the counter admits, newest first; for a
  // counter that wraps, one that stops at its maximum, or any other that never overcounts.
  lemma WalkedLatest(d: Drive, history: seq<ErrorLogEntry>, revision: uint8)
    requires Tracks(d, history) && d.count <= |history|
    ensures Walked(LogOf(d, revision)) == Latest(history, Min(d.count, 5))
  {
    var n, m, el := |history|, Min(d.count, 5), LogOf(d, revision);
    forall j: nat | j < m ensures Walked(el)[j] == Latest(history, m)[j] {
      WalkFollowsRing(n, j);
      assert Walked(el)[j] == d.slots[(n - 1 - j) % 5];
    }
  }

  // What a drive with a 16-bit counter should report: its latest errors, newest first, as
  // many as the counter admits and at most five, numbered downwards from the counter.
  ghost function HistoryReport(revision: uint8, history: seq<ErrorLogEntry>): seq<Line> {
    var n := |history| % 0x1_0000;
    Report(revision, n, Latest(history, Min(n, 5)))
  }

  // That report, line by line: its j-th error is the j-th latest of the history.
  ghost predicate ShowsHistory(w: seq<Line>, revision: uint8, history: seq<ErrorLogEntry>) {
    var n := |history| % 0x1_0000;
    var m := if n < 5 then n else 5;
    ShowsErrors(w, revision, n, seq(m, j requires 0 <= j < m => history[|history| - 1 - j]))
  }

  lemma HistoryReportShows(revision: uint8, history: seq<ErrorLogEntry>)
    ensures ShowsHistory(HistoryReport(revision, history), revision, history)
  {
    var n := |history| % 0x1_0000;
    var m := if n < 5 then n else 5;
    var newest := seq(m, j requires 0 <= j < m => history[|history| - 1 - j]);
    assert Latest(history, Min(n, 5)) == newest;
    ReportShows(revision, n, newest);
  }

  lemma LogReport(slots: Entries, history: seq<ErrorLogEntry>, revision: uint8)
    ensures var el := LogOf(After(slots, history), revision);
            Report(revision, el.ataErrorCount, Walked(el)) == HistoryReport(revision, history)
  {
    AfterTracks(slots, history);
    AfterCount(slots, history);
    WalkedLatest(After(slots, history), history, revision);
  }

  // End to end: for a history of any length, the sector the drive presents is accepted,
  // and parsing it and printing the result gives that report.
  lemma RingRefinement(slots: Entries, history: seq<ErrorLogEntry>, revision: uint8, base: Sector)
    ensures var sector := Encode(ErrorLogCodec(), LogOf(After(slots, history), revision), base);
            var r := Parse(ErrorLogCodec(), sector);
            && r.Success?
            && Report(r.value.revNumber, r.value.ataErrorCount, Walked(r.value)) == HistoryReport(revision, history)
  {
    ErrorLogLawful();
    EncodeParses(ErrorLogCodec(), LogOf(After(slots, history), revision), base);
    LogReport(slots, history, revision);
  }

  // The 16-bit counter is the only loss: the report is the one an unbounded counter
  // would give exactly for histories that do not overflow it.
  lemma ReportTrueIff(history: seq<ErrorLogEntry>, revision: uint8)
    ensures HistoryReport(revision, history)
            == Report(revision, |history|, Latest(history, Min(|history|, 5)))
            <==> |history| < 0x1_0000
  {
    var n := |history| % 0x1_0000;
    if n != |history| {
      ReportsDiffer(revision, n, Latest(history, Min(n, 5)), |history|, Latest(history, Min(|history|, 5)));
    }
  }

  // One error past the range of the counter, the report denies all of them.
  lemma OverflowExample(revision: uint8)
    ensures HistoryReport(revision, seq(0x1_0000, _ => ZERO_ENTRY)) == [Version(revision), NoErrorsLogged]
  {
  }

  lemma ReportsDiffer(revision: uint8, m: nat, ms: seq<ErrorLogEntry>, n: nat, ns: seq<ErrorLogEntry>)
    requires |ms| <= m && |ns| <= n && m != n
    ensures Report(revision, m, ms) != Report(revision, n, ns)
  {
    var x, y := Report(revision, m, ms), Report(revision, n, ns);
    assert x[1] == if m == 0 then NoErrorsLogged else ErrorCount(m);
    assert y[1] == if n == 0 then NoErrorsLogged else ErrorCount(n);
  }

  // Even after an overflow no retained error is missing, except while the wrapped
  // counter passes through 0..4.
  lemma NoneMissingIff(slots: Entries, history: seq<ErrorLogEntry>, revision: uint8)
    ensures Walked(LogOf(After(slots, history), revision)) == Latest(history, Min(|history|, 5))
            <==> |history| < 5 || |history| % 0x1_0000 >= 5
  {
    AfterTracks(slots, history);
    AfterCount(slots, history);
    WalkedLatest(After(slots, history), history, revision);
    assert |Latest(history, Min(|history|, 5))| == Min(|history|, 5);
  }
}
