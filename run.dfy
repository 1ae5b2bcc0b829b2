/** The `run` command (BenchmarkRunCommand.php): every test of every file is
    called `count` times between two clock readings, each elapsed time is
    recorded, and the records become a summary table or, when an output
    format is given, a list of JSON objects. */
module Run {
  import opened Php
  import opened Interchange

  /** How many times each test runs when `--count` is not given. */
  const DefaultCount: int := 10

  /** The accepted values of `--output-format`. */
  const OutputFormats: seq<string> := ["json", "xml"]

  /** A test file as `require` returns it: the keys of the iterable, in
      order. A test is identified by the position of its file and its own
      position in that file. */
  datatype TestFile = TestFile(path: string, tests: seq<string>)

  /** What the command does that the outside world sees: the `reading`-th
      call of `microtime`, or one call of the test closure `test` of file
      `file`. */
  datatype Event = ClockRead(reading: nat) | Invoke(file: nat, test: nat)

  /** One element of `$times` before formatting: a measured test, or the
      TableSeparator pushed after each file. */
  datatype Entry = Measured(fileName: string, testName: string, duration: real) | FileEnd

  datatype Outcome =
    | InvalidFormat(message: string)
    | DivisionByZero
    | Table(rows: seq<Row>)
    | Json(objects: seq<Object>)

  /* ---------- the output format ---------- */

  /** `implode($glue, $pieces)`. */
  function Implode(glue: string, pieces: seq<string>): (r: string)
    ensures pieces == [] ==> r == []
  {
    if pieces == [] then []
    else if |pieces| == 1 then pieces[0]
    else Implode(glue, pieces[..|pieces| - 1]) + glue + pieces[|pieces| - 1]
  }

  predicate Listed(formats: seq<string>, format: string) {
    exists k :: 0 <= k < |formats| && formats[k] == format
  }

  /** The guard: an empty or "0" format means the table; any other format
      must be one of OutputFormats. */
  predicate FormatAccepted(format: string) {
    !Truthy(format) || Listed(OutputFormats, format)
  }

  /** The message of the InvalidArgumentException. */
  function InvalidFormatMessage(format: string): (r: string)
    ensures StartsWith(r, "Invalid format ")
    ensures r == "Invalid format " + format + ". Available: json, xml"
  {
    var head := "Invalid format ";
    var m := head + format + ". Available: " + Implode(", ", OutputFormats);
    assert m[..|head|] == head;
    ListedFormats();
    m
  }

  /** Exactly four values pass the guard; "0" is taken for "no format". */
  lemma {:induction false} FormatAcceptedExactly(format: string)
    ensures FormatAccepted(format) <==>
              (format == "" || format == "0" || format == "json" || format == "xml")
  {
    if Listed(OutputFormats, format) {
      var k :| 0 <= k < |OutputFormats| && OutputFormats[k] == format;
      assert k == 0 || k == 1;
    }
    if format == "json" {
      assert OutputFormats[0] == format;
    }
    if format == "xml" {
      assert OutputFormats[1] == format;
    }
  }

  lemma ListedFormats()
    ensures Implode(", ", OutputFormats) == "json, xml"
  {
    assert OutputFormats[..1] == ["json"];
  }

  /* ---------- measuring: the specification ---------- */

  /** How many times `for ($i = 1; $i <= $count; $i++)` runs its body. */
  function Runs(count: int): (n: nat)
    ensures count >= 1 ==> n == count
    ensures count < 1 ==> n == 0
  {
    if count >= 1 then count else 0
  }

  function TestCount(files: seq<TestFile>): nat {
    if files == [] then 0
    else TestCount(files[..|files| - 1]) + |files[|files| - 1].tests|
  }

  /** The `k`-th test measured reads the clock at readings 2k and 2k+1. */
  function Elapsed(clock: nat -> real, k: nat): real {
    clock(2 * k + 1) - clock(2 * k)
  }

  /** The records of one file whose first test is the `k`-th measured. */
  function FileEntries(path: string, tests: seq<string>, k: nat, clock: nat -> real): seq<Entry> {
    if tests == [] then []
    else
      var n := |tests| - 1;
      FileEntries(path, tests[..n], k, clock) + [Measured(path, tests[n], Elapsed(clock, k + n))]
  }

  /** `$times` after both loops: each file's records, then a separator. */
  function Entries(files: seq<TestFile>, clock: nat -> real): seq<Entry> {
    if files == [] then []
    else
      var init := files[..|files| - 1];
      var last := files[|files| - 1];
      Entries(init, clock) + FileEntries(last.path, last.tests, TestCount(init), clock) + [FileEnd]
  }

  /** `n` calls of one test. */
  function Invocations(file: nat, test: nat, n: nat): seq<Event> {
    if n == 0 then [] else Invocations(file, test, n - 1) + [Invoke(file, test)]
  }

  /** The first `m` tests of file number `file`, whose first test is the
      `k`-th measured: for each, a clock reading, the calls, a clock reading. */
  function FileTrace(file: nat, m: nat, k: nat, count: int): seq<Event> {
    if m == 0 then []
    else
      FileTrace(file, m - 1, k, count) + TestEvents(file, m - 1, k + m - 1, count)
  }

  function Trace(files: seq<TestFile>, count: int): seq<Event> {
    if files == [] then []
    else
      var init := files[..|files| - 1];
      Trace(init, count) + FileTrace(|init|, |files[|files| - 1].tests|, TestCount(init), count)
  }

  /** `$total`: the sum of the recorded durations. */
  function SumDurations(entries: seq<Entry>): real {
    if entries == [] then 0.0
    else
      var last := entries[|entries| - 1];
      SumDurations(entries[..|entries| - 1]) + (if last.Measured? then last.duration else 0.0)
  }

  function RecordCount(entries: seq<Entry>): nat {
    if entries == [] then 0
    else RecordCount(entries[..|entries| - 1]) + (if entries[|entries| - 1].Measured? then 1 else 0)
  }

  function FileEndCount(entries: seq<Entry>): nat {
    if entries == [] then 0
    else FileEndCount(entries[..|entries| - 1]) + (if entries[|entries| - 1].FileEnd? then 1 else 0)
  }

  /* ---------- measuring: the loops ---------- */

  /** The `for` loop: `count` calls of test `test` of file `file`. */
  method Repeat(file: nat, test: nat, count: int) returns (calls: seq<Event>)
    ensures calls == Invocations(file, test, Runs(count))
  {
    calls := [];
    var n := 1;
    while n <= count
      invariant 1 <= n <= Runs(count) + 1
      invariant calls == Invocations(file, test, n - 1)
    {
      calls := calls + [Invoke(file, test)];
      n := n + 1;
    }
  }

  /** One test of the inner `foreach`: read the clock, call the test
      `Runs(count)` times, read the clock again. `n` is the number of tests
      measured before this one, so the readings are `2n` and `2n + 1`. */
  method MeasureTest(i: nat, j: nat, n: nat, count: int, clock: nat -> real)
    returns (duration: real, events: seq<Event>)
    ensures duration == Elapsed(clock, n)
    ensures events == TestEvents(i, j, n, count)
  {
    var start := clock(2 * n);
    var calls := Repeat(i, j, count);
    duration := clock(2 * n + 1) - start;
    events := [ClockRead(2 * n)] + calls + [ClockRead(2 * n + 1)];
  }

  /** The inner `foreach` over the tests of file number `i`, whose first
      test is the `k`-th measured: one record per test. */
  method MeasureFile(file: TestFile, i: nat, k: nat, count: int, clock: nat -> real)
    returns (entries: seq<Entry>, total: real, trace: seq<Event>)
    ensures entries == FileEntries(file.path, file.tests, k, clock)
    ensures total == SumDurations(entries)
    ensures trace == FileTrace(i, |file.tests|, k, count)
  {
    entries, total, trace := [], 0.0, [];
    var j := 0;
    while j < |file.tests|
      invariant 0 <= j <= |file.tests|
      invariant entries == FileEntries(file.path, file.tests[..j], k, clock)
      invariant total == SumDurations(entries)
      invariant trace == FileTrace(i, j, k, count)
    {
      var duration, events := MeasureTest(i, j, k + j, count, clock);
      FileStep(file, j, i, k, count, clock);
      var record := Measured(file.path, file.tests[j], duration);
      SumAppend(entries, record);
      entries, total, trace := entries + [record], total + duration, trace + events;
      j := j + 1;
    }
    WholePrefix(file.tests);
  }


  /** Measuring test `j` of a file extends its records and its events. */
  lemma SumAppend(entries: seq<Entry>, record: Entry)
    requires record.Measured?
    ensures SumDurations(entries + [record]) == SumDurations(entries) + record.duration
  {
    assert (entries + [record])[..|entries|] == entries;
  }

  lemma FileStep(file: TestFile, j: nat, i: nat, k: nat, count: int, clock: nat -> real)
    requires j < |file.tests|
    ensures FileEntries(file.path, file.tests[..j + 1], k, clock)
            == FileEntries(file.path, file.tests[..j], k, clock) + [Measured(file.path, file.tests[j], Elapsed(clock, k + j))]
    ensures FileTrace(i, j + 1, k, count) == FileTrace(i, j, k, count) + TestEvents(i, j, k + j, count)
  {
    assert file.tests[..j + 1][..j] == file.tests[..j];
  }

  /** The outer `foreach` over the files: each file's records, then a
      separator. The clock is a parameter: `clock(r)` is what the `r`-th
      `microtime` call returns. */
  method Measure(files: seq<TestFile>, count: int, clock: nat -> real)
    returns (entries: seq<Entry>, total: real, trace: seq<Event>)
    ensures entries == Entries(files, clock)
    ensures total == SumDurations(entries)
    ensures trace == Trace(files, count)
  {
    entries, total, trace := [], 0.0, [];
    var measured := 0;
    var i := 0;
    while i < |files|
      invariant 0 <= i <= |files|
      invariant measured == TestCount(files[..i])
      invariant entries == Entries(files[..i], clock)
      invariant total == SumDurations(entries)
      invariant trace == Trace(files[..i], count)
    {
      var fileEntries, fileTotal, fileTrace := MeasureFile(files[i], i, measured, count, clock);
      assert files[..i + 1][..i] == files[..i];
      CountsAppend(entries, fileEntries);
      CountsAppend(entries + fileEntries, [FileEnd]);
      entries := entries + fileEntries + [FileEnd];
      total := total + fileTotal;
      trace := trace + fileTrace;
      measured := measured + |files[i].tests|;
      i := i + 1;
    }
    assert files[..i] == files;
  }

  /* ---------- properties of the measurements ---------- */

  lemma {:induction false} FileEntriesShape(path: string, tests: seq<string>, k: nat, clock: nat -> real)
    ensures |FileEntries(path, tests, k, clock)| == |tests|
    ensures RecordCount(FileEntries(path, tests, k, clock)) == |tests|
    ensures FileEndCount(FileEntries(path, tests, k, clock)) == 0
  {
    if tests != [] {
      var n := |tests| - 1;
      var e := FileEntries(path, tests, k, clock);
      FileEntriesShape(path, tests[..n], k, clock);
      assert e[..|e| - 1] == FileEntries(path, tests[..n], k, clock);
    }
  }

  lemma {:induction false} CountsAppend(a: seq<Entry>, b: seq<Entry>)
    ensures RecordCount(a + b) == RecordCount(a) + RecordCount(b)
    ensures FileEndCount(a + b) == FileEndCount(a) + FileEndCount(b)
    ensures SumDurations(a + b) == SumDurations(a) + SumDurations(b)
  {
    if b != [] {
      assert (a + b)[..|a + b| - 1] == a + b[..|b| - 1];
      CountsAppend(a, b[..|b| - 1]);
    } else {
      assert a + b == a;
    }
  }

  /** One record per test and one separator per file, and a non-empty list
      of files always leaves a separator last. */
  lemma {:induction false} EntriesShape(files: seq<TestFile>, clock: nat -> real)
    ensures RecordCount(Entries(files, clock)) == TestCount(files)
    ensures FileEndCount(Entries(files, clock)) == |files|
    ensures |Entries(files, clock)| == TestCount(files) + |files|
    ensures files != [] ==> Entries(files, clock)[|Entries(files, clock)| - 1] == FileEnd
  {
    if files != [] {
      var init := files[..|files| - 1];
      var last := files[|files| - 1];
      var fe := FileEntries(last.path, last.tests, TestCount(init), clock);
      EntriesShape(init, clock);
      FileEntriesShape(last.path, last.tests, TestCount(init), clock);
      CountsAppend(Entries(init, clock), fe);
      CountsAppend(Entries(init, clock) + fe, [FileEnd]);
    }
  }

  /** How many times `e` occurs in `trace`. */
  function Occurrences(trace: seq<Event>, e: Event): nat {
    if trace == [] then 0
    else Occurrences(trace[..|trace| - 1], e) + (if trace[|trace| - 1] == e then 1 else 0)
  }

  lemma {:induction false} OccurrencesAppend(a: seq<Event>, b: seq<Event>, e: Event)
    ensures Occurrences(a + b, e) == Occurrences(a, e) + Occurrences(b, e)
  {
    if b != [] {
      assert (a + b)[..|a + b| - 1] == a + b[..|b| - 1];
      OccurrencesAppend(a, b[..|b| - 1], e);
    } else {
      assert a + b == a;
    }
  }

  lemma {:induction false} InvocationsCount(file: nat, test: nat, n: nat, e: Event)
    ensures Occurrences(Invocations(file, test, n), e) == if e == Invoke(file, test) then n else 0
  {
    if n > 0 {
      InvocationsCount(file, test, n - 1, e);
    }
  }

  /** The events measuring the `j`-th test, test `test` of file `file`. */
  function TestEvents(file: nat, test: nat, j: nat, count: int): seq<Event> {
    [ClockRead(2 * j)] + Invocations(file, test, Runs(count)) + [ClockRead(2 * j + 1)]
  }

  lemma TestEventsCount(file: nat, test: nat, j: nat, count: int, e: Event)
    ensures Occurrences(TestEvents(file, test, j, count), e)
            == (if e == Invoke(file, test) then Runs(count) else 0)
               + (if e == ClockRead(2 * j) || e == ClockRead(2 * j + 1) then 1 else 0)
  {
    var first := [ClockRead(2 * j)];
    var calls := Invocations(file, test, Runs(count));
    var last := [ClockRead(2 * j + 1)];
    InvocationsCount(file, test, Runs(count), e);
    OccurrencesAppend(first, calls, e);
    OccurrencesAppend(first + calls, last, e);
    assert Occurrences(first, e) == if e == ClockRead(2 * j) then 1 else 0 by {
      assert first[..0] == [];
    }
    assert Occurrences(last, e) == if e == ClockRead(2 * j + 1) then 1 else 0 by {
      assert last[..0] == [];
    }
  }

  lemma {:induction false} FileTraceCalls(file: nat, m: nat, k: nat, count: int, f: nat, t: nat)
    ensures Occurrences(FileTrace(file, m, k, count), Invoke(f, t))
            == if f == file && t < m then Runs(count) else 0
  {
    if m > 0 {
      var prev := FileTrace(file, m - 1, k, count);
      var block := TestEvents(file, m - 1, k + m - 1, count);
      FileTraceCalls(file, m - 1, k, count, f, t);
      TestEventsCount(file, m - 1, k + m - 1, count, Invoke(f, t));
      OccurrencesAppend(prev, block, Invoke(f, t));
    }
  }

  lemma {:induction false} FileTraceReads(file: nat, m: nat, k: nat, count: int, r: nat)
    ensures Occurrences(FileTrace(file, m, k, count), ClockRead(r))
            == if 2 * k <= r < 2 * (k + m) then 1 else 0
  {
    if m > 0 {
      var prev := FileTrace(file, m - 1, k, count);
      var block := TestEvents(file, m - 1, k + m - 1, count);
      FileTraceReads(file, m - 1, k, count, r);
      TestEventsCount(file, m - 1, k + m - 1, count, ClockRead(r));
      OccurrencesAppend(prev, block, ClockRead(r));
    }
  }

  /** Each test closure is called exactly `count` times (never, when
      `count` is below 1) and no other closure is called. */
  lemma {:induction false} TraceCalls(files: seq<TestFile>, count: int, f: nat, t: nat)
    ensures Occurrences(Trace(files, count), Invoke(f, t))
            == if f < |files| && t < |files[f].tests| then Runs(count) else 0
  {
    if files != [] {
      var init := files[..|files| - 1];
      var prev := Trace(init, count);
      var block := FileTrace(|init|, |files[|files| - 1].tests|, TestCount(init), count);
      TraceCalls(init, count, f, t);
      FileTraceCalls(|init|, |files[|files| - 1].tests|, TestCount(init), count, f, t);
      OccurrencesAppend(prev, block, Invoke(f, t));
      if f < |init| {
        assert files[f] == init[f];
      }
    }
  }

  /** The clock is read exactly twice per test: readings 0 to 2n-1 for n
      tests, each once. */
  lemma {:induction false} TraceReads(files: seq<TestFile>, count: int, r: nat)
    ensures Occurrences(Trace(files, count), ClockRead(r)) == if r < 2 * TestCount(files) then 1 else 0
  {
    if files != [] {
      var init := files[..|files| - 1];
      var prev := Trace(init, count);
      var block := FileTrace(|init|, |files[|files| - 1].tests|, TestCount(init), count);
      TraceReads(init, count, r);
      FileTraceReads(|init|, |files[|files| - 1].tests|, TestCount(init), count, r);
      OccurrencesAppend(prev, block, ClockRead(r));
    }
  }

  /** Every clock reading is at least every earlier one. */
  ghost predicate Monotone(clock: nat -> real) {
    forall a: nat, b: nat :: a <= b ==> clock(a) <= clock(b)
  }

  /** Every clock reading is greater than every earlier one. */
  ghost predicate Increasing(clock: nat -> real) {
    forall a: nat, b: nat :: a < b ==> clock(a) < clock(b)
  }

  predicate DurationsAtLeast(entries: seq<Entry>, positive: bool) {
    forall k :: 0 <= k < |entries| && entries[k].Measured? ==>
      entries[k].duration >= 0.0 && (positive ==> entries[k].duration > 0.0)
  }

  lemma {:induction false} FileEntriesDurations(path: string, tests: seq<string>, k: nat, clock: nat -> real)
    requires Monotone(clock)
    ensures DurationsAtLeast(FileEntries(path, tests, k, clock), Increasing(clock))
  {
    if tests != [] {
      var n := |tests| - 1;
      FileEntriesDurations(path, tests[..n], k, clock);
      assert clock(2 * (k + n)) <= clock(2 * (k + n) + 1);
      assert Increasing(clock) ==> clock(2 * (k + n)) < clock(2 * (k + n) + 1);
    }
  }

  lemma {:induction false} EntriesDurations(files: seq<TestFile>, clock: nat -> real)
    requires Monotone(clock)
    ensures DurationsAtLeast(Entries(files, clock), Increasing(clock))
  {
    if files != [] {
      var init := files[..|files| - 1];
      var last := files[|files| - 1];
      EntriesDurations(init, clock);
      FileEntriesDurations(last.path, last.tests, TestCount(init), clock);
    }
  }

  lemma {:induction false} SumOfDurations(entries: seq<Entry>, positive: bool)
    requires DurationsAtLeast(entries, positive)
    ensures SumDurations(entries) >= 0.0
    ensures positive && RecordCount(entries) > 0 ==> SumDurations(entries) > 0.0
  {
    if entries != [] {
      SumOfDurations(entries[..|entries| - 1], positive);
    }
  }

  /** With a clock that never goes back, no duration and no total is
      negative; with one that always advances, the total is positive as
      soon as one test was measured. */
  lemma DurationsNotNegative(files: seq<TestFile>, clock: nat -> real)
    requires Monotone(clock)
    ensures forall k :: 0 <= k < |Entries(files, clock)| && Entries(files, clock)[k].Measured? ==>
              Entries(files, clock)[k].duration >= 0.0
    ensures SumDurations(Entries(files, clock)) >= 0.0
    ensures Increasing(clock) && TestCount(files) > 0 ==> SumDurations(Entries(files, clock)) > 0.0
  {
    EntriesDurations(files, clock);
    EntriesShape(files, clock);
    SumOfDurations(Entries(files, clock), Increasing(clock));
  }

  /* ---------- the summary ---------- */

  /** `$duration * 100 / $total`: the share of `total` that `d` is, in
      percent. */
  function Share(d: real, total: real): real
    requires total != 0.0
  {
    d * 100.0 / total
  }

  lemma ShareAdds(a: real, b: real, total: real)
    requires total != 0.0
    ensures Share(a, total) + Share(b, total) == Share(a + b, total)
  {
  }

  lemma ShareOfTotal(total: real)
    requires total != 0.0
    ensures Share(total, total) == 100.0
  {
  }

  /** The first `array_map` closure, on one element of `$times`. */
  function RowOf(entry: Entry, total: real): Row
    requires entry.FileEnd? || total != 0.0
  {
    match entry
    case FileEnd => Separator
    case Measured(f, t, d) => Data(Text(f), Text(t), Seconds(d), Percent(Share(d, total)))
  }

  /** `array_map` of that closure over `$times`. */
  function Rows(entries: seq<Entry>, total: real): (r: seq<Row>)
    requires total != 0.0 || RecordCount(entries) == 0
    ensures |r| == |entries|
  {
    if entries == [] then []
    else Rows(entries[..|entries| - 1], total) + [RowOf(entries[|entries| - 1], total)]
  }

  /** The row appended after the map. */
  function TotalRow(total: real): Row {
    Data(Text("Total time"), Null, Seconds(total), Text(""))
  }

  /** The sum of the percentage cells of `rows`. */
  function SumPercents(rows: seq<Row>): real {
    if rows == [] then 0.0
    else
      var last := rows[|rows| - 1];
      SumPercents(rows[..|rows| - 1]) + (if last.Data? && last.percentTotal.Percent? then last.percentTotal.percent else 0.0)
  }

  /** Each row is the formatted form of the element at the same place. */
  lemma {:induction false} RowsPointwise(entries: seq<Entry>, total: real)
    requires total != 0.0 || RecordCount(entries) == 0
    ensures forall k :: 0 <= k < |entries| ==>
              (entries[k].FileEnd? || total != 0.0) && Rows(entries, total)[k] == RowOf(entries[k], total)
  {
    if entries != [] {
      var init := entries[..|entries| - 1];
      RowsPointwise(init, total);
      forall k | 0 <= k < |init| ensures entries[k] == init[k] { }
    }
  }

  /** Separators stay separators and records become data rows. */
  lemma {:induction false} RowsShape(entries: seq<Entry>, total: real)
    requires total != 0.0 || RecordCount(entries) == 0
    ensures CountSeparators(Rows(entries, total)) == FileEndCount(entries)
    ensures |DataRows(Rows(entries, total))| == RecordCount(entries)
  {
    if entries != [] {
      var init := entries[..|entries| - 1];
      var r := Rows(entries, total);
      RowsShape(init, total);
      assert r[..|r| - 1] == Rows(init, total);
    }
  }

  /** The percentages add up to the share of the summed durations. */
  lemma {:induction false} PercentsScale(entries: seq<Entry>, total: real)
    requires total != 0.0
    ensures SumPercents(Rows(entries, total)) == Share(SumDurations(entries), total)
  {
    if entries != [] {
      var init := entries[..|entries| - 1];
      var last := entries[|entries| - 1];
      var r := Rows(entries, total);
      PercentsScale(init, total);
      assert r[..|r| - 1] == Rows(init, total);
      if last.Measured? {
        ShareAdds(SumDurations(init), last.duration, total);
      }
    }
  }

  /** The rows of the summary, or the division by zero PHP 8 raises when a
      test was measured and the total is zero. */
  function Summary(entries: seq<Entry>, total: real): (r: Option<seq<Row>>)
    ensures r.None? <==> total == 0.0 && RecordCount(entries) > 0
    ensures r.Some? ==> |r.value| == |entries| + 1 && r.value[|entries|] == TotalRow(total)
  {
    if total == 0.0 && RecordCount(entries) > 0 then None
    else Some(Rows(entries, total) + [TotalRow(total)])
  }

  /** When the total is the sum of the durations, the percentage column adds
      up to 100. */
  lemma PercentsAddUp(entries: seq<Entry>)
    requires SumDurations(entries) != 0.0
    ensures Summary(entries, SumDurations(entries)).Some?
    ensures SumPercents(Summary(entries, SumDurations(entries)).value) == 100.0
  {
    var total := SumDurations(entries);
    var rows := Summary(entries, total).value;
    PercentsScale(entries, total);
    ShareOfTotal(total);
    assert rows[..|rows| - 1] == Rows(entries, total);
  }

  /** The second `array_map` closure and `array_values(array_filter(...))`:
      separators become null and are dropped, the rest become objects. */
  function Objects(rows: seq<Row>): seq<Object> {
    if rows == [] then []
    else
      var e := Encode(rows[|rows| - 1]);
      Objects(rows[..|rows| - 1]) + (if e.Some? then [e.value] else [])
  }

  /** The JSON list holds one object per data row, in order. */
  lemma {:induction false} ObjectsOfDataRows(rows: seq<Row>)
    ensures |Objects(rows)| == |DataRows(rows)|
    ensures forall k :: 0 <= k < |Objects(rows)| ==> Encode(DataRows(rows)[k]) == Some(Objects(rows)[k])
  {
    if rows != [] {
      ObjectsOfDataRows(rows[..|rows| - 1]);
    }
  }

  /* ---------- the command ---------- */

  /** `--count` falls back on DefaultCount. */
  function CountOrDefault(count: Option<int>): int {
    if count.Some? then count.value else DefaultCount
  }

  /** What `execute` reports for an accepted format. */
  function Report(format: string, files: seq<TestFile>, clock: nat -> real): Outcome {
    var entries := Entries(files, clock);
    var summary := Summary(entries, SumDurations(entries));
    if summary.None? then DivisionByZero
    else if Truthy(format) then Json(Objects(summary.value))
    else Table(summary.value)
  }

  /** `execute`: the format guard, the measurements, then the table or the
      JSON list. The trace is what the command did before it reported. */
  method Execute(format: string, files: seq<TestFile>, count: Option<int>, clock: nat -> real)
    returns (outcome: Outcome, trace: seq<Event>)
    ensures !FormatAccepted(format) ==> outcome == InvalidFormat(InvalidFormatMessage(format)) && trace == []
    ensures FormatAccepted(format) ==>
              outcome == Report(format, files, clock) && trace == Trace(files, CountOrDefault(count))
  {
    if Truthy(format) && !(format == OutputFormats[0] || format == OutputFormats[1]) {
      assert !Listed(OutputFormats, format) by { FormatAcceptedExactly(format); }
      return InvalidFormat(InvalidFormatMessage(format)), [];
    }
    var entries, total;
    entries, total, trace := Measure(files, CountOrDefault(count), clock);
    var summary := Summary(entries, total);
    if summary.None? {
      outcome := DivisionByZero;
    } else if Truthy(format) {
      outcome := Json(Objects(summary.value));
    } else {
      outcome := Table(summary.value);
    }
  }

  /* ---------- properties of the report ---------- */

  /** "xml" is accepted but, like "json", produces the JSON list. */
  lemma XmlGivesJson(files: seq<TestFile>, clock: nat -> real)
    ensures FormatAccepted("xml")
    ensures Report("xml", files, clock) == Report("json", files, clock)
    ensures Report("xml", files, clock).DivisionByZero? || Report("xml", files, clock).Json?
  {
    FormatAcceptedExactly("xml");
  }

  /** The table holds a row per test, a separator per file, and the total
      row last. */
  lemma TableShape(format: string, files: seq<TestFile>, clock: nat -> real)
    requires !Truthy(format)
    requires Report(format, files, clock).Table?
    ensures var rows := Report(format, files, clock).rows;
      |rows| == TestCount(files) + |files| + 1
      && CountSeparators(rows) == |files|
      && |DataRows(rows)| == TestCount(files) + 1
      && rows[|rows| - 1] == TotalRow(SumDurations(Entries(files, clock)))
  {
    var entries := Entries(files, clock);
    var total := SumDurations(entries);
    var rows := Report(format, files, clock).rows;
    EntriesShape(files, clock);
    RowsShape(entries, total);
    assert rows == Rows(entries, total) + [TotalRow(total)];
    CountSeparatorsAppend(Rows(entries, total), [TotalRow(total)]);
    DataRowsAppend(Rows(entries, total), [TotalRow(total)]);
  }

  /** The JSON list holds one object per test and one for the total, and
      every one of them passes the completeness test the parallelize command
      applies, decoding back to its row. */
  lemma JsonShape(format: string, files: seq<TestFile>, clock: nat -> real)
    requires Truthy(format)
    requires Report(format, files, clock).Json?
    ensures var objects := Report(format, files, clock).objects;
      |objects| == TestCount(files) + 1
      && objects[|objects| - 1] == Encode(TotalRow(SumDurations(Entries(files, clock)))).value
      && forall k :: 0 <= k < |objects| ==> Decode(Some(objects[k])).Some?
  {
    var entries := Entries(files, clock);
    var total := SumDurations(entries);
    var rows := Rows(entries, total) + [TotalRow(total)];
    EntriesShape(files, clock);
    RowsShape(entries, total);
    DataRowsAppend(Rows(entries, total), [TotalRow(total)]);
    ObjectsOfDataRows(rows);
    var data := DataRows(rows);
    assert data[|data| - 1] == TotalRow(total);
    ObjectsDecode(entries, total);
  }

  /** Every object of a summary passes the completeness test. */
  lemma ObjectsDecode(entries: seq<Entry>, total: real)
    requires total != 0.0 || RecordCount(entries) == 0
    ensures var objects := Objects(Rows(entries, total) + [TotalRow(total)]);
      forall k :: 0 <= k < |objects| ==> Decode(Some(objects[k])).Some?
  {
    var rows := Rows(entries, total) + [TotalRow(total)];
    var objects := Objects(rows);
    var data := DataRows(rows);
    ObjectsOfDataRows(rows);
    forall k | 0 <= k < |objects| ensures Decode(Some(objects[k])).Some? {
      DataRowsComplete(entries, total, k);
      DecodeEncode(data[k]);
    }
  }

  /** Every data row of a summary has its file name, duration and
      percentage set. */
  lemma DataRowsComplete(entries: seq<Entry>, total: real, k: nat)
    requires total != 0.0 || RecordCount(entries) == 0
    requires k < |DataRows(Rows(entries, total) + [TotalRow(total)])|
    ensures Complete(DataRows(Rows(entries, total) + [TotalRow(total)])[k])
  {
    RowsArePlain(entries, total);
    DataRowsAppend(Rows(entries, total), [TotalRow(total)]);
    DataRowsKeep(Rows(entries, total) + [TotalRow(total)]);
  }

  predicate AllComplete(rows: seq<Row>) {
    forall k :: 0 <= k < |rows| && rows[k].Data? ==> Complete(rows[k])
  }

  lemma RowsArePlain(entries: seq<Entry>, total: real)
    requires total != 0.0 || RecordCount(entries) == 0
    ensures AllComplete(Rows(entries, total) + [TotalRow(total)])
  {
    RowsPointwise(entries, total);
  }

  lemma {:induction false} DataRowsKeep(rows: seq<Row>)
    requires AllComplete(rows)
    ensures forall k :: 0 <= k < |DataRows(rows)| ==> Complete(DataRows(rows)[k])
  {
    if rows != [] {
      var init := rows[..|rows| - 1];
      assert AllComplete(init) by {
        forall k | 0 <= k < |init| && init[k].Data? ensures Complete(init[k]) {
          assert init[k] == rows[k];
        }
      }
      DataRowsKeep(init);
    }
  }

  /** Without `--count`, each test runs DefaultCount times. */
  lemma DefaultRunsTenTimes(files: seq<TestFile>, f: nat, t: nat)
    requires f < |files| && t < |files[f].tests|
    ensures Occurrences(Trace(files, CountOrDefault(None)), Invoke(f, t)) == 10
  {
    TraceCalls(files, DefaultCount, f, t);
  }

  /** A clock that always advances never leads to the division by zero. */
  lemma IncreasingClockDivides(format: string, files: seq<TestFile>, clock: nat -> real)
    requires Monotone(clock) && Increasing(clock)
    ensures !Report(format, files, clock).DivisionByZero?
  {
    var entries := Entries(files, clock);
    EntriesShape(files, clock);
    DurationsNotNegative(files, clock);
  }
}
