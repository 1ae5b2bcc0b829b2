/** The `parallelize` command (BenchmarkParallelizeCommand.php): one child
    `run --output-format=json` process per test file, a busy loop until all
    children are finished, then one table merged from their JSON output. */
module Parallel {
  import opened Php
  import opened Paths
  import opened Interchange
  import Run

  /* ---------- the child command lines ---------- */

  /** The fixed options every child gets after the two binaries. */
  const RunOptions: seq<string> := ["run", "--no-interaction", "--output-format=json", "--no-progress"]

  /** `$args` for one file: the PHP binary, the benchmarker binary, the run
      command in JSON mode without progress, `--count=N` only when the
      option was given, then `--` and `$realFilename`. */
  function Arguments(phpBinary: string, benchmarker: string, count: Option<string>, path: string): seq<string> {
    var head := [phpBinary, benchmarker] + RunOptions;
    (if count.Some? then head + ["--count=" + count.value] else head) + ["--", path]
  }

  /** Eight arguments, or nine with `--count`; the path is always the last,
      after `--`, so the child never reads it as an option. */
  lemma ArgumentsLayout(phpBinary: string, benchmarker: string, count: Option<string>, path: string)
    ensures var r := Arguments(phpBinary, benchmarker, count, path);
      |r| == (if count.Some? then 9 else 8)
      && r[..6] == [phpBinary, benchmarker] + RunOptions
      && (count.Some? ==> r[6] == "--count=" + count.value)
      && r[|r| - 2] == "--" && r[|r| - 1] == path
  {
    var head := [phpBinary, benchmarker] + RunOptions;
    var counted := if count.Some? then head + ["--count=" + count.value] else head;
    assert (counted + ["--", path])[..6] == head;
  }

  /** Every child gets the `run` command in JSON mode, whatever its path. */
  lemma JsonModeArguments(phpBinary: string, benchmarker: string, count: Option<string>, path: string)
    ensures var args := Arguments(phpBinary, benchmarker, count, path);
      args[2] == "run" && args[4] == "--output-format=" + "json" && args[|args| - 1] == path
  {
    var args := Arguments(phpBinary, benchmarker, count, path);
    ArgumentsLayout(phpBinary, benchmarker, count, path);
    assert args[2] == args[..6][2];
    assert args[4] == args[..6][4];
  }

  /** The child is asked for a format the run command accepts and answers
      with its JSON list, and the file it is given always names a PHP
      file. */
  lemma ChildRunsInJsonMode(workingDirectory: string, phpBinary: string, benchmarker: string,
                            count: Option<string>, file: string)
    ensures var args := Arguments(phpBinary, benchmarker, count, RealFilename(workingDirectory, file));
      args[2] == "run" && args[4] == "--output-format=" + "json"
      && Run.FormatAccepted("json") && Truthy("json")
      && EndsWith(args[|args| - 1], ".php")
  {
    Run.FormatAcceptedExactly("json");
    RealFilenameIsPhpFile(workingDirectory, file);
    JsonModeArguments(phpBinary, benchmarker, count, RealFilename(workingDirectory, file));
  }

  /** The command line of every file, in order. */
  function Commands(workingDirectory: string, phpBinary: string, benchmarker: string, count: Option<string>,
                    testFiles: seq<string>): seq<seq<string>>
  {
    if testFiles == [] then []
    else
      Commands(workingDirectory, phpBinary, benchmarker, count, testFiles[..|testFiles| - 1])
      + [Arguments(phpBinary, benchmarker, count, RealFilename(workingDirectory, testFiles[|testFiles| - 1]))]
  }

  /** The `i`-th command line runs the `i`-th file. */
  lemma {:induction false} CommandsAt(workingDirectory: string, phpBinary: string, benchmarker: string,
                                      count: Option<string>, testFiles: seq<string>)
    ensures |Commands(workingDirectory, phpBinary, benchmarker, count, testFiles)| == |testFiles|
    ensures forall i :: 0 <= i < |testFiles| ==>
              Commands(workingDirectory, phpBinary, benchmarker, count, testFiles)[i]
              == Arguments(phpBinary, benchmarker, count, RealFilename(workingDirectory, testFiles[i]))
  {
    if testFiles != [] {
      var init := testFiles[..|testFiles| - 1];
      var last := Arguments(phpBinary, benchmarker, count, RealFilename(workingDirectory, testFiles[|testFiles| - 1]));
      var before := Commands(workingDirectory, phpBinary, benchmarker, count, init);
      var all := Commands(workingDirectory, phpBinary, benchmarker, count, testFiles);
      assert all == before + [last];
      CommandsAt(workingDirectory, phpBinary, benchmarker, count, init);
      forall i | 0 <= i < |testFiles|
        ensures all[i] == Arguments(phpBinary, benchmarker, count, RealFilename(workingDirectory, testFiles[i]))
      {
        if i < |init| {
          assert all[i] == before[i];
          assert testFiles[i] == init[i];
        } else {
          assert i == |before|;
          assert all[i] == last;
        }
      }
    }
  }

  lemma CommandsStep(workingDirectory: string, phpBinary: string, benchmarker: string, count: Option<string>,
                     testFiles: seq<string>, i: nat)
    requires i < |testFiles|
    ensures Commands(workingDirectory, phpBinary, benchmarker, count, testFiles[..i + 1])
            == Commands(workingDirectory, phpBinary, benchmarker, count, testFiles[..i])
               + [Arguments(phpBinary, benchmarker, count, RealFilename(workingDirectory, testFiles[i]))]
  {
    var prefix := testFiles[..i + 1];
    assert prefix[..i] == testFiles[..i];
    assert prefix[i] == testFiles[i];
  }

  /** An absolute argument reaches the child as its bare file name, so the
      child looks for it in its own working directory. */
  lemma AbsoluteFileRunsBareName(phpBinary: string, benchmarker: string)
    ensures var c := Commands("/srv", phpBinary, benchmarker, None, ["/tmp/bench.php"]);
      |c| == 1 && |c[0]| == 8 && c[0][7] == "bench.php"
  {
    AbsolutePathLosesDirectory();
    CommandsAt("/srv", phpBinary, benchmarker, None, ["/tmp/bench.php"]);
    ArgumentsLayout(phpBinary, benchmarker, None, RealFilename("/srv", "/tmp/bench.php"));
  }

  /** The first `foreach`: `$files` keeps the arguments as given and
      `$processes` gets one command line per file. */
  method Prepare(workingDirectory: string, phpBinary: string, benchmarker: string, count: Option<string>,
                 testFiles: seq<string>)
    returns (files: seq<string>, commands: seq<seq<string>>)
    ensures files == testFiles
    ensures commands == Commands(workingDirectory, phpBinary, benchmarker, count, testFiles)
  {
    files, commands := [], [];
    var i := 0;
    while i < |testFiles|
      invariant 0 <= i <= |testFiles|
      invariant files == testFiles[..i]
      invariant commands == Commands(workingDirectory, phpBinary, benchmarker, count, testFiles[..i])
    {
      var path := RealFilename(workingDirectory, testFiles[i]);
      CommandsStep(workingDirectory, phpBinary, benchmarker, count, testFiles, i);
      PrefixStep(testFiles, i);
      files := files + [testFiles[i]];
      commands := commands + [Arguments(phpBinary, benchmarker, count, path)];
      i := i + 1;
    }
    WholePrefix(testFiles);
  }

  /* ---------- waiting for the children ---------- */

  /* Process `i` is seen running by the sweeps 0 .. doneAt[i] - 1 of the
     `while` loop and not running from sweep doneAt[i] on. */

  /** The processes `0 .. m-1` still running at sweep `s`, in index order. */
  function AtLeast(doneAt: seq<nat>, m: nat, s: nat): seq<nat>
    requires m <= |doneAt|
  {
    if m == 0 then []
    else AtLeast(doneAt, m - 1, s) + (if doneAt[m - 1] >= s then [m - 1] else [])
  }

  lemma {:induction false} AtLeastMembers(doneAt: seq<nat>, m: nat, s: nat)
    requires m <= |doneAt|
    ensures forall k :: 0 <= k < |AtLeast(doneAt, m, s)| ==>
              AtLeast(doneAt, m, s)[k] < m && doneAt[AtLeast(doneAt, m, s)[k]] >= s
  {
    if m > 0 {
      AtLeastMembers(doneAt, m - 1, s);
    }
  }

  /** The processes `0 .. m-1` first seen finished at sweep `t`, in index
      order. */
  function DoneAt(doneAt: seq<nat>, m: nat, t: nat): seq<nat>
    requires m <= |doneAt|
  {
    if m == 0 then []
    else DoneAt(doneAt, m - 1, t) + (if doneAt[m - 1] == t then [m - 1] else [])
  }

  lemma {:induction false} DoneAtMembers(doneAt: seq<nat>, m: nat, t: nat)
    requires m <= |doneAt|
    ensures forall k :: 0 <= k < |DoneAt(doneAt, m, t)| ==>
              DoneAt(doneAt, m, t)[k] < m && doneAt[DoneAt(doneAt, m, t)[k]] == t
  {
    if m > 0 {
      DoneAtMembers(doneAt, m - 1, t);
    }
  }

  predicate Indices(ids: seq<nat>, n: nat) {
    forall k :: 0 <= k < |ids| ==> ids[k] < n
  }

  /** The processes of `ids` a sweep at `s` sees finished. */
  function Found(ids: seq<nat>, doneAt: seq<nat>, s: nat): seq<nat> {
    if ids == [] then []
    else
      var id := ids[|ids| - 1];
      Found(ids[..|ids| - 1], doneAt, s) + (if id < |doneAt| && doneAt[id] <= s then [id] else [])
  }

  /** The processes of `ids` a sweep at `s` leaves in `$processes`. */
  function Kept(ids: seq<nat>, doneAt: seq<nat>, s: nat): seq<nat> {
    if ids == [] then []
    else
      var id := ids[|ids| - 1];
      Kept(ids[..|ids| - 1], doneAt, s) + (if id < |doneAt| && doneAt[id] > s then [id] else [])
  }

  /** The reference order of completion: the processes grouped by the sweep
      that first sees them finished, each group in index order. */
  function Completion(doneAt: seq<nat>, s: nat): seq<nat> {
    if s == 0 then [] else Completion(doneAt, s - 1) + DoneAt(doneAt, |doneAt|, s - 1)
  }

  function Max(xs: seq<nat>): nat {
    if xs == [] then 0
    else
      var m := Max(xs[..|xs| - 1]);
      if xs[|xs| - 1] > m then xs[|xs| - 1] else m
  }

  /** Max is an upper bound of `xs` and, for a non-empty `xs`, one of its
      elements. */
  lemma {:induction false} MaxBounds(xs: seq<nat>)
    ensures forall k :: 0 <= k < |xs| ==> xs[k] <= Max(xs)
    ensures xs != [] ==> exists k :: 0 <= k < |xs| && xs[k] == Max(xs)
  {
    if xs != [] {
      var init := xs[..|xs| - 1];
      MaxBounds(init);
      assert forall k :: 0 <= k < |init| ==> xs[k] == init[k];
      if xs[|xs| - 1] <= Max(init) && init != [] {
        var k :| 0 <= k < |init| && init[k] == Max(init);
        assert xs[k] == Max(xs);
      }
    }
  }

  /** How many sweeps the `while` loop makes. */
  function Sweeps(doneAt: seq<nat>): nat {
    if doneAt == [] then 0 else Max(doneAt) + 1
  }

  /** A sweep at `s` over the processes still running finds exactly those
      first seen finished at `s`. */
  lemma {:induction false} SweepFinds(doneAt: seq<nat>, m: nat, s: nat)
    requires m <= |doneAt|
    ensures Found(AtLeast(doneAt, m, s), doneAt, s) == DoneAt(doneAt, m, s)
  {
    if m > 0 {
      SweepFinds(doneAt, m - 1, s);
      var prev := AtLeast(doneAt, m - 1, s);
      var cur := AtLeast(doneAt, m, s);
      if doneAt[m - 1] >= s {
        assert cur == prev + [m - 1];
        assert cur[..|cur| - 1] == prev;
        assert Found(cur, doneAt, s) == Found(prev, doneAt, s) + (if doneAt[m - 1] <= s then [m - 1] else []);
      } else {
        assert cur == prev;
      }
    }
  }

  /** ... and keeps exactly those still running at `s + 1`. */
  lemma {:induction false} SweepKeeps(doneAt: seq<nat>, m: nat, s: nat)
    requires m <= |doneAt|
    ensures Kept(AtLeast(doneAt, m, s), doneAt, s) == AtLeast(doneAt, m, s + 1)
  {
    if m > 0 {
      SweepKeeps(doneAt, m - 1, s);
      var prev := AtLeast(doneAt, m - 1, s);
      var cur := AtLeast(doneAt, m, s);
      if doneAt[m - 1] >= s {
        assert cur == prev + [m - 1];
        assert cur[..|cur| - 1] == prev;
        assert Kept(cur, doneAt, s) == Kept(prev, doneAt, s) + (if doneAt[m - 1] > s then [m - 1] else []);
      } else {
        assert cur == prev;
      }
    }
  }

  lemma {:induction false} SweepCounts(doneAt: seq<nat>, m: nat, s: nat)
    requires m <= |doneAt|
    ensures |DoneAt(doneAt, m, s)| + |AtLeast(doneAt, m, s + 1)| == |AtLeast(doneAt, m, s)|
  {
    if m > 0 {
      SweepCounts(doneAt, m - 1, s);
    }
  }

  lemma {:induction false} AtLeastAll(doneAt: seq<nat>, m: nat)
    requires m <= |doneAt|
    ensures AtLeast(doneAt, m, 0) == seq(m, k => k)
  {
    if m > 0 {
      AtLeastAll(doneAt, m - 1);
    }
  }

  lemma {:induction false} AtLeastEmpty(doneAt: seq<nat>, m: nat, s: nat)
    requires m <= |doneAt|
    ensures AtLeast(doneAt, m, s) == [] <==> forall i :: 0 <= i < m ==> doneAt[i] < s
  {
    if m > 0 {
      AtLeastEmpty(doneAt, m - 1, s);
    }
  }

  /** One pass of the `foreach` inside the `while` loop, at sweep `s`:
      the processes no longer running, in the order visited, and those left
      in `$processes`. */
  method Sweep(processes: seq<nat>, doneAt: seq<nat>, s: nat) returns (found: seq<nat>, kept: seq<nat>)
    requires Indices(processes, |doneAt|)
    ensures found == Found(processes, doneAt, s)
    ensures kept == Kept(processes, doneAt, s)
  {
    found, kept := [], [];
    var p := 0;
    while p < |processes|
      invariant 0 <= p <= |processes|
      invariant found == Found(processes[..p], doneAt, s)
      invariant kept == Kept(processes[..p], doneAt, s)
    {
      var i := processes[p];
      assert processes[..p + 1][..p] == processes[..p];
      if doneAt[i] > s {
        kept := kept + [i];
      } else {
        found := found + [i];
      }
      p := p + 1;
    }
    assert processes[..p] == processes;
  }

  /** The `while` loop: each sweep visits the processes still in
      `$processes`, in index order, and moves each one that is no longer
      running to `$finishedProcesses`. `doneAt[i]` is the first sweep that
      sees process `i` not running. */
  method AwaitAll(doneAt: seq<nat>) returns (finished: seq<nat>, numberFinished: nat, sweeps: nat)
    ensures finished == Completion(doneAt, sweeps)
    ensures sweeps == Sweeps(doneAt)
    ensures numberFinished == |finished| == |doneAt|
  {
    var n := |doneAt|;
    var processes := seq(n, k => k);
    AtLeastAll(doneAt, n);
    MaxBounds(doneAt);
    finished, numberFinished, sweeps := [], 0, 0;
    while numberFinished != n
      invariant processes == AtLeast(doneAt, n, sweeps)
      invariant finished == Completion(doneAt, sweeps)
      invariant numberFinished == |finished|
      invariant |finished| + |processes| == n
      invariant sweeps <= Sweeps(doneAt)
      decreases Sweeps(doneAt) - sweeps
    {
      AtLeastMembers(doneAt, n, sweeps);
      var first := processes[0];
      assert sweeps <= doneAt[first] <= Max(doneAt);
      var found, kept := Sweep(processes, doneAt, sweeps);
      SweepFinds(doneAt, n, sweeps);
      SweepKeeps(doneAt, n, sweeps);
      SweepCounts(doneAt, n, sweeps);
      assert Completion(doneAt, sweeps + 1) == finished + found;
      finished := finished + found;
      numberFinished := numberFinished + |found|;
      processes := kept;
      sweeps := sweeps + 1;
    }
    AtLeastEmpty(doneAt, n, sweeps);
  }

  /** How many times `x` occurs in `xs`. */
  function CountOf(xs: seq<nat>, x: nat): nat {
    if xs == [] then 0 else CountOf(xs[..|xs| - 1], x) + (if xs[|xs| - 1] == x then 1 else 0)
  }

  lemma {:induction false} CountOfAppend(a: seq<nat>, b: seq<nat>, x: nat)
    ensures CountOf(a + b, x) == CountOf(a, x) + CountOf(b, x)
  {
    if b != [] {
      assert (a + b)[..|a + b| - 1] == a + b[..|b| - 1];
      CountOfAppend(a, b[..|b| - 1], x);
    } else {
      assert a + b == a;
    }
  }

  /** A sequence of at most one element holds `x` once exactly when that
      element is `x`. */
  lemma CountOfTail(tail: seq<nat>, y: nat, x: nat)
    requires tail == [] || tail == [y]
    ensures CountOf(tail, x) == if tail == [y] && y == x then 1 else 0
  {
    if tail == [y] {
      assert tail[..0] == [];
    }
  }

  lemma {:induction false} DoneAtCount(doneAt: seq<nat>, m: nat, t: nat, x: nat)
    requires m <= |doneAt|
    ensures CountOf(DoneAt(doneAt, m, t), x) == if x < m && doneAt[x] == t then 1 else 0
  {
    if m > 0 {
      var prev := DoneAt(doneAt, m - 1, t);
      var tail: seq<nat> := if doneAt[m - 1] == t then [m - 1] else [];
      assert DoneAt(doneAt, m, t) == prev + tail;
      DoneAtCount(doneAt, m - 1, t, x);
      CountOfAppend(prev, tail, x);
      CountOfTail(tail, m - 1, x);
    }
  }

  lemma {:induction false} DoneAtAscending(doneAt: seq<nat>, m: nat, t: nat)
    requires m <= |doneAt|
    ensures forall p, q :: 0 <= p < q < |DoneAt(doneAt, m, t)| ==> DoneAt(doneAt, m, t)[p] < DoneAt(doneAt, m, t)[q]
  {
    if m > 0 {
      DoneAtAscending(doneAt, m - 1, t);
      DoneAtMembers(doneAt, m - 1, t);
    }
  }

  lemma {:induction false} AtLeastCount(doneAt: seq<nat>, m: nat, s: nat, x: nat)
    requires m <= |doneAt|
    ensures CountOf(AtLeast(doneAt, m, s), x) == if x < m && doneAt[x] >= s then 1 else 0
  {
    if m > 0 {
      var prev := AtLeast(doneAt, m - 1, s);
      var tail: seq<nat> := if doneAt[m - 1] >= s then [m - 1] else [];
      assert AtLeast(doneAt, m, s) == prev + tail;
      AtLeastCount(doneAt, m - 1, s, x);
      CountOfAppend(prev, tail, x);
      CountOfTail(tail, m - 1, x);
    }
  }

  /** At every sweep each process is either still in `$processes` or in
      `$finishedProcesses`, exactly once and never in both. */
  lemma PendingOrFinished(doneAt: seq<nat>, s: nat, x: nat)
    ensures CountOf(Completion(doneAt, s), x) + CountOf(AtLeast(doneAt, |doneAt|, s), x)
            == if x < |doneAt| then 1 else 0
  {
    CompletionCount(doneAt, s, x);
    AtLeastCount(doneAt, |doneAt|, s, x);
  }

  /** Process `a` is reported before process `b`: it was seen finished at
      an earlier sweep, or at the same sweep with a smaller index. */
  predicate Before(doneAt: seq<nat>, a: nat, b: nat)
    requires a < |doneAt| && b < |doneAt|
  {
    doneAt[a] < doneAt[b] || (doneAt[a] == doneAt[b] && a < b)
  }

  predicate InOrder(doneAt: seq<nat>, order: seq<nat>)
    requires Indices(order, |doneAt|)
  {
    forall p, q :: 0 <= p < q < |order| ==> Before(doneAt, order[p], order[q])
  }

  lemma {:induction false} CompletionBounds(doneAt: seq<nat>, s: nat)
    ensures forall k :: 0 <= k < |Completion(doneAt, s)| ==>
              Completion(doneAt, s)[k] < |doneAt| && doneAt[Completion(doneAt, s)[k]] < s
  {
    if s > 0 {
      CompletionBounds(doneAt, s - 1);
      DoneAtMembers(doneAt, |doneAt|, s - 1);
    }
  }

  /** The completion order after `s` sweeps holds each process seen
      finished by then exactly once ... */
  lemma {:induction false} CompletionCount(doneAt: seq<nat>, s: nat, x: nat)
    ensures CountOf(Completion(doneAt, s), x) == if x < |doneAt| && doneAt[x] < s then 1 else 0
  {
    if s > 0 {
      CompletionCount(doneAt, s - 1, x);
      DoneAtCount(doneAt, |doneAt|, s - 1, x);
      CompletionStep(doneAt, s, x);
      var here := x < |doneAt| && doneAt[x] == s - 1;
      var earlier := x < |doneAt| && doneAt[x] < s - 1;
      assert CountOf(Completion(doneAt, s - 1), x) == if earlier then 1 else 0;
      assert CountOf(DoneAt(doneAt, |doneAt|, s - 1), x) == if here then 1 else 0;
      assert (x < |doneAt| && doneAt[x] < s) == (here || earlier);
    }
  }

  lemma CompletionStep(doneAt: seq<nat>, s: nat, x: nat)
    requires s > 0
    ensures CountOf(Completion(doneAt, s), x)
            == CountOf(Completion(doneAt, s - 1), x) + CountOf(DoneAt(doneAt, |doneAt|, s - 1), x)
  {
    CountOfAppend(Completion(doneAt, s - 1), DoneAt(doneAt, |doneAt|, s - 1), x);
  }

  /** ... sorted by sweep, then by index. */
  lemma {:induction false} CompletionInOrder(doneAt: seq<nat>, s: nat)
    ensures Indices(Completion(doneAt, s), |doneAt|)
    ensures InOrder(doneAt, Completion(doneAt, s))
  {
    CompletionBounds(doneAt, s);
    if s > 0 {
      var prev := Completion(doneAt, s - 1);
      var group := DoneAt(doneAt, |doneAt|, s - 1);
      var c := prev + group;
      CompletionInOrder(doneAt, s - 1);
      CompletionBounds(doneAt, s - 1);
      DoneAtMembers(doneAt, |doneAt|, s - 1);
      DoneAtAscending(doneAt, |doneAt|, s - 1);
      forall p, q | 0 <= p < q < |c| ensures Before(doneAt, c[p], c[q]) {
        if q < |prev| {
          assert c[p] == prev[p] && c[q] == prev[q];
        } else if p >= |prev| {
          assert c[p] == group[p - |prev|] && c[q] == group[q - |prev|];
        } else {
          assert c[p] == prev[p] && c[q] == group[q - |prev|];
        }
      }
    }
  }

  /** After the `while` loop, `$finishedProcesses` holds every process
      exactly once, in order of completion (sweep, then index). */
  lemma AwaitedAll(doneAt: seq<nat>)
    ensures var order := Completion(doneAt, Sweeps(doneAt));
      |order| == |doneAt|
      && (forall k :: 0 <= k < |order| ==> order[k] < |doneAt|)
      && (forall x :: 0 <= x < |doneAt| ==> CountOf(order, x) == 1)
      && InOrder(doneAt, order)
  {
    var order := Completion(doneAt, Sweeps(doneAt));
    MaxBounds(doneAt);
    CompletionBounds(doneAt, Sweeps(doneAt));
    CompletionInOrder(doneAt, Sweeps(doneAt));
    forall x | 0 <= x < |doneAt| ensures CountOf(order, x) == 1 {
      CompletionCount(doneAt, Sweeps(doneAt), x);
    }
    CountedLength(order, |doneAt|);
  }

  /** A sequence of indices below `n` that holds each of them once has
      length `n`. */
  lemma {:induction false} CountedLength(xs: seq<nat>, n: nat)
    requires forall k :: 0 <= k < |xs| ==> xs[k] < n
    requires forall x :: 0 <= x < n ==> CountOf(xs, x) == 1
    ensures |xs| == n
  {
    CountBelow(xs, n, n);
  }

  /** `TotalBelow(xs, b)` counts the elements below `b`. */
  function TotalBelow(xs: seq<nat>, b: nat): nat {
    if b == 0 then 0 else TotalBelow(xs, b - 1) + CountOf(xs, b - 1)
  }

  lemma {:induction false} TotalBelowAppend(a: seq<nat>, x: nat, b: nat)
    ensures TotalBelow(a + [x], b) == TotalBelow(a, b) + (if x < b then 1 else 0)
  {
    if b > 0 {
      TotalBelowAppend(a, x, b - 1);
      CountOfAppend(a, [x], b - 1);
      assert [x][..0] == [];
    }
  }

  lemma {:induction false} AllBelowCounted(xs: seq<nat>, n: nat)
    requires forall k :: 0 <= k < |xs| ==> xs[k] < n
    ensures TotalBelow(xs, n) == |xs|
  {
    if xs != [] {
      var init := xs[..|xs| - 1];
      AllBelowCounted(init, n);
      assert xs == init + [xs[|xs| - 1]];
      TotalBelowAppend(init, xs[|xs| - 1], n);
    } else {
      ZeroBelow(n);
    }
  }

  lemma {:induction false} ZeroBelow(b: nat)
    ensures TotalBelow([], b) == 0
  {
    if b > 0 {
      ZeroBelow(b - 1);
    }
  }

  lemma {:induction false} CountBelow(xs: seq<nat>, n: nat, b: nat)
    requires b <= n
    requires forall k :: 0 <= k < |xs| ==> xs[k] < n
    requires forall x :: 0 <= x < n ==> CountOf(xs, x) == 1
    ensures TotalBelow(xs, b) == b
    ensures b == n ==> |xs| == n
  {
    if b > 0 {
      CountBelow(xs, n, b - 1);
    }
    if b == n {
      AllBelowCounted(xs, n);
    }
  }

  /* ---------- merging the outputs ---------- */

  /** What a finished child gives back: whether it exited with status 0,
      and its output as `json_decode($out, true)` sees it. `None` stands for
      null (empty or invalid JSON); otherwise the decoded items in order,
      each an object or `None` for any other JSON value. */
  datatype ProcessResult = ProcessResult(successful: bool, output: Option<seq<Option<Object>>>)

  /** `@json_decode($out, true) ?? [[null]]`: output that does not decode
      becomes one item, an array without string keys. */
  function Lines(output: Option<seq<Option<Object>>>): seq<Option<Object>> {
    if output.Some? then output.value else [Some(map[])]
  }

  function ErrorMessage(file: string): string {
    "Could not decode output from test file \"" + file + "\""
  }

  /** The rows the inner `foreach` adds for one child: one per complete
      item, in order. */
  function LineRows(lines: seq<Option<Object>>): seq<Row> {
    if lines == [] then []
    else
      var d := Decode(lines[|lines| - 1]);
      LineRows(lines[..|lines| - 1]) + (if d.Some? then [d.value] else [])
  }

  /** The error messages it prints: one per incomplete item. */
  function LineErrors(lines: seq<Option<Object>>, file: string): seq<string> {
    if lines == [] then []
    else LineErrors(lines[..|lines| - 1], file) + (if IsComplete(lines[|lines| - 1]) then [] else [ErrorMessage(file)])
  }

  /** The end of the command: a ProcessFailedException for `process`, or the
      rows of the table; both with the error messages printed before. */
  datatype Merge = Failed(process: nat, errors: seq<string>) | Merged(rows: seq<Row>, errors: seq<string>)

  /** The last `foreach` over the finished processes, in `order`: each
      child's rows followed by a separator, stopping at the first child that
      did not succeed. */
  function Collect(order: seq<nat>, files: seq<string>, results: seq<ProcessResult>): Merge
    requires Indices(order, |results|) && |files| == |results|
  {
    if order == [] then Merged([], [])
    else
      var i := order[|order| - 1];
      var m := Collect(order[..|order| - 1], files, results);
      if m.Failed? then m
      else if !results[i].successful then Failed(i, m.errors)
      else
        var lines := Lines(results[i].output);
        Merged(m.rows + LineRows(lines) + [Separator], m.errors + LineErrors(lines, files[i]))
  }

  /** `if (end($rows) instanceof TableSeparator) array_pop($rows)`. */
  function PopTrailing(rows: seq<Row>): seq<Row> {
    if rows != [] && rows[|rows| - 1].Separator? then rows[..|rows| - 1] else rows
  }

  /** What the command ends with, given the order in which the processes
      finished. */
  function MergeAll(order: seq<nat>, files: seq<string>, results: seq<ProcessResult>): Merge
    requires Indices(order, |results|) && |files| == |results|
  {
    match Collect(order, files, results)
    case Failed(i, errors) => Failed(i, errors)
    case Merged(rows, errors) => Merged(PopTrailing(rows), errors)
  }

  /** The inner `foreach` over one child's decoded items: the `isset` test,
      then a row or an error message. */
  method ReadOutput(lines: seq<Option<Object>>, file: string) returns (rows: seq<Row>, errors: seq<string>)
    ensures rows == LineRows(lines)
    ensures errors == LineErrors(lines, file)
  {
    rows, errors := [], [];
    var p := 0;
    while p < |lines|
      invariant 0 <= p <= |lines|
      invariant rows == LineRows(lines[..p])
      invariant errors == LineErrors(lines[..p], file)
    {
      var line := lines[p];
      PrefixStep(lines, p);
      if !IsComplete(line) {
        errors := errors + [ErrorMessage(file)];
      } else {
        rows := rows + [Decode(line).value];
      }
      p := p + 1;
    }
    WholePrefix(lines);
  }

  /** The last `foreach` and the trailing-separator removal. */
  method MergeOutputs(finished: seq<nat>, files: seq<string>, results: seq<ProcessResult>) returns (m: Merge)
    requires Indices(finished, |results|) && |files| == |results|
    ensures m == MergeAll(finished, files, results)
  {
    var rows: seq<Row> := [];
    var errors: seq<string> := [];
    var p := 0;
    while p < |finished|
      invariant 0 <= p <= |finished|
      invariant Collect(finished[..p], files, results) == Merged(rows, errors)
    {
      var i := finished[p];
      PrefixStep(finished, p);
      if !results[i].successful {
        m := Failed(i, errors);
        CollectFailedStays(finished, files, results, p + 1);
        return;
      }
      var found, messages := ReadOutput(Lines(results[i].output), files[i]);
      rows := rows + found + [Separator];
      errors := errors + messages;
      p := p + 1;
    }
    WholePrefix(finished);
    if rows != [] && rows[|rows| - 1].Separator? {
      rows := rows[..|rows| - 1];
    }
    m := Merged(rows, errors);
  }

  /** Once a process has failed, the later ones change nothing. */
  lemma {:induction false} CollectFailedStays(order: seq<nat>, files: seq<string>, results: seq<ProcessResult>, p: nat)
    requires Indices(order, |results|) && |files| == |results|
    requires p <= |order|
    requires Collect(order[..p], files, results).Failed?
    ensures Collect(order, files, results) == Collect(order[..p], files, results)
  {
    if p < |order| {
      var init := order[..|order| - 1];
      assert init[..p] == order[..p];
      CollectFailedStays(init, files, results, p);
    } else {
      WholePrefix(order);
    }
  }

  /** Each decoded item of a child becomes a complete row or one error
      message naming the file, never both. */
  lemma {:induction false} LinesSplit(lines: seq<Option<Object>>, file: string)
    ensures |LineRows(lines)| + |LineErrors(lines, file)| == |lines|
    ensures forall k :: 0 <= k < |LineRows(lines)| ==> Complete(LineRows(lines)[k])
    ensures forall k :: 0 <= k < |LineErrors(lines, file)| ==> LineErrors(lines, file)[k] == ErrorMessage(file)
  {
    if lines != [] {
      LinesSplit(lines[..|lines| - 1], file);
    }
  }

  /** A child prints no error exactly when every item it gave is complete. */
  lemma {:induction false} NoErrorsIffComplete(lines: seq<Option<Object>>, file: string)
    ensures LineErrors(lines, file) == [] <==> forall k :: 0 <= k < |lines| ==> IsComplete(lines[k])
  {
    if lines != [] {
      var init := lines[..|lines| - 1];
      NoErrorsIffComplete(init, file);
      if LineErrors(lines, file) == [] {
        forall k | 0 <= k < |lines| ensures IsComplete(lines[k]) {
          if k < |init| {
            assert lines[k] == init[k];
          }
        }
      }
    }
  }

  /** Output that does not decode gives no row and exactly one error. */
  lemma UndecodableOutput(file: string)
    ensures LineRows(Lines(None)) == []
    ensures LineErrors(Lines(None), file) == [ErrorMessage(file)]
  {
    var lines := Lines(None);
    assert lines[..0] == [];
    assert !IsComplete(lines[0]);
  }

  /** Every process in `order` exited successfully. */
  predicate Succeeded(order: seq<nat>, results: seq<ProcessResult>) {
    forall k :: 0 <= k < |order| ==> order[k] < |results| && results[order[k]].successful
  }

  /** The command fails exactly when some process did not succeed, and
      then it names the first such process in completion order. */
  lemma {:induction false} FirstFailureWins(order: seq<nat>, files: seq<string>, results: seq<ProcessResult>)
    requires Indices(order, |results|) && |files| == |results|
    ensures MergeAll(order, files, results).Failed? <==> !Succeeded(order, results)
    ensures MergeAll(order, files, results).Failed? ==>
              exists k :: 0 <= k < |order| && MergeAll(order, files, results).process == order[k]
                          && !results[order[k]].successful && Succeeded(order[..k], results)
  {
    if order != [] {
      var init := order[..|order| - 1];
      var i := order[|order| - 1];
      FirstFailureWins(init, files, results);
      var m := Collect(init, files, results);
      if m.Failed? {
        var k :| 0 <= k < |init| && m.process == init[k] && !results[init[k]].successful
                 && Succeeded(init[..k], results);
        assert init[..k] == order[..k];
        assert order[k] == init[k];
      } else if !results[i].successful {
        assert Succeeded(init, results);
        assert order[..|order| - 1] == init;
      } else {
        forall k | 0 <= k < |order| ensures results[order[k]].successful {
          if k < |init| {
            assert order[k] == init[k];
          }
        }
      }
    }
  }

  /** The rows of the children in `order`, one after the other. */
  function AllRows(order: seq<nat>, results: seq<ProcessResult>): seq<Row>
    requires Indices(order, |results|)
  {
    if order == [] then []
    else AllRows(order[..|order| - 1], results) + LineRows(Lines(results[order[|order| - 1]].output))
  }

  lemma {:induction false} LineRowsAreData(lines: seq<Option<Object>>)
    ensures DataRows(LineRows(lines)) == LineRows(lines)
  {
    if lines != [] {
      var init := lines[..|lines| - 1];
      LineRowsAreData(init);
      var d := Decode(lines[|lines| - 1]);
      DataRowsAppend(LineRows(init), if d.Some? then [d.value] else []);
      if d.Some? {
        assert [d.value][..0] == [];
      }
    }
  }

  /** Before the trailing separator is removed: each child's rows and one
      separator per child. */
  lemma {:induction false} CollectShape(order: seq<nat>, files: seq<string>, results: seq<ProcessResult>)
    requires Indices(order, |results|) && |files| == |results|
    requires Succeeded(order, results)
    ensures Collect(order, files, results).Merged?
    ensures CountSeparators(Collect(order, files, results).rows) == |order|
    ensures DataRows(Collect(order, files, results).rows) == AllRows(order, results)
    ensures order != [] ==> Collect(order, files, results).rows[|Collect(order, files, results).rows| - 1].Separator?
  {
    if order != [] {
      var init := order[..|order| - 1];
      var i := order[|order| - 1];
      assert Succeeded(init, results) by {
        forall k | 0 <= k < |init| ensures init[k] < |results| && results[init[k]].successful {
          assert init[k] == order[k];
        }
      }
      CollectShape(init, files, results);
      var before := Collect(init, files, results).rows;
      var group := LineRows(Lines(results[i].output));
      LineRowsAreData(Lines(results[i].output));
      DataRowsAppend(before, group);
      DataRowsAppend(before + group, [Separator]);
      CountSeparatorsAppend(before, group);
      CountSeparatorsAppend(before + group, [Separator]);
      RowsSplit(group);
      assert [Separator][..0] == [];
    }
  }

  lemma SucceededPrefix(order: seq<nat>, results: seq<ProcessResult>, p: nat)
    requires Succeeded(order, results) && p <= |order|
    ensures Succeeded(order[..p], results)
  {
    forall k | 0 <= k < p ensures order[..p][k] < |results| && results[order[..p][k]].successful {
      assert order[..p][k] == order[k];
    }
  }

  /** The separator removed at the end is the one after the last child. */
  lemma LastSeparatorRemoved(order: seq<nat>, files: seq<string>, results: seq<ProcessResult>)
    requires Indices(order, |results|) && |files| == |results|
    requires Succeeded(order, results) && order != []
    ensures Collect(order[..|order| - 1], files, results).Merged?
    ensures MergeAll(order, files, results)
            == Merged(Collect(order[..|order| - 1], files, results).rows
                      + LineRows(Lines(results[order[|order| - 1]].output)),
                      Collect(order, files, results).errors)
  {
    var init := order[..|order| - 1];
    SucceededPrefix(order, results, |order| - 1);
    CollectShape(init, files, results);
    var before := Collect(init, files, results).rows;
    var group := LineRows(Lines(results[order[|order| - 1]].output));
    var full := Collect(order, files, results).rows;
    assert full == before + group + [Separator];
    assert full[..|full| - 1] == before + group;
  }

  /** The merged table: the children's rows, in completion order, with
      one separator between two children, so it ends with a separator
      exactly when the last child gave no row and another child came
      before it. */
  lemma MergedShape(order: seq<nat>, files: seq<string>, results: seq<ProcessResult>)
    requires Indices(order, |results|) && |files| == |results|
    requires Succeeded(order, results) && order != []
    ensures MergeAll(order, files, results).Merged?
    ensures var rows := MergeAll(order, files, results).rows;
      CountSeparators(rows) == |order| - 1
      && DataRows(rows) == AllRows(order, results)
      && ((rows != [] && rows[|rows| - 1].Separator?)
          <==> (|order| >= 2 && LineRows(Lines(results[order[|order| - 1]].output)) == []))
  {
    var init := order[..|order| - 1];
    var lines := Lines(results[order[|order| - 1]].output);
    var group := LineRows(lines);
    LastSeparatorRemoved(order, files, results);
    SucceededPrefix(order, results, |order| - 1);
    CollectShape(init, files, results);
    var before := Collect(init, files, results).rows;
    var rows := MergeAll(order, files, results).rows;
    assert rows == before + group;
    LineRowsAreData(lines);
    RowsSplit(group);
    CountSeparatorsAppend(before, group);
    DataRowsAppend(before, group);
    assert AllRows(order, results) == AllRows(init, results) + group;
    if group != [] {
      LinesSplit(lines, "");
      assert rows[|rows| - 1] == group[|group| - 1];
    } else {
      assert rows == before;
    }
  }

  /** The child's JSON list, as `json_decode` gives it back. */
  function AsLines(objects: seq<Object>): seq<Option<Object>> {
    if objects == [] then [] else AsLines(objects[..|objects| - 1]) + [Some(objects[|objects| - 1])]
  }

  /** Reading back the objects of rows whose cells are set gives the data
      rows again, without error. */
  lemma {:induction false} ReadBack(rows: seq<Row>, file: string)
    requires Run.AllComplete(rows)
    ensures LineRows(AsLines(Run.Objects(rows))) == DataRows(rows)
    ensures LineErrors(AsLines(Run.Objects(rows)), file) == []
  {
    if rows != [] {
      var init := rows[..|rows| - 1];
      var last := rows[|rows| - 1];
      assert Run.AllComplete(init) by {
        forall k | 0 <= k < |init| && init[k].Data? ensures Complete(init[k]) {
          assert init[k] == rows[k];
        }
      }
      ReadBack(init, file);
      var before := AsLines(Run.Objects(init));
      if last.Data? {
        var o := Encode(last).value;
        var objects := Run.Objects(init) + [o];
        assert Run.Objects(rows) == objects;
        assert objects[..|objects| - 1] == Run.Objects(init);
        var lines := AsLines(objects);
        assert lines == before + [Some(o)];
        assert lines[..|lines| - 1] == before;
        DecodeEncode(last);
        assert LineRows(lines) == LineRows(before) + [last];
        assert LineErrors(lines, file) == LineErrors(before, file);
      } else {
        assert Run.Objects(rows) == Run.Objects(init);
      }
    }
  }

  /** A child run in JSON mode prints one complete object per measured
      test and one for its Total row, so all of them come back as rows,
      the Total row last, with no error. */
  lemma ChildRowsReappear(format: string, files: seq<Run.TestFile>, clock: nat -> real, file: string)
    requires Truthy(format)
    requires Run.Report(format, files, clock).Json?
    ensures var entries := Run.Entries(files, clock);
      var total := Run.SumDurations(entries);
      var lines := AsLines(Run.Report(format, files, clock).objects);
      LineRows(lines) == DataRows(Run.Rows(entries, total)) + [Run.TotalRow(total)]
      && LineErrors(lines, file) == []
  {
    var entries := Run.Entries(files, clock);
    var total := Run.SumDurations(entries);
    var rows := Run.Rows(entries, total) + [Run.TotalRow(total)];
    Run.RowsArePlain(entries, total);
    ReadBack(rows, file);
    DataRowsAppend(Run.Rows(entries, total), [Run.TotalRow(total)]);
    assert [Run.TotalRow(total)][..0] == [];
  }

  /** Completion order, not argument order: when the second process is
      seen finished one sweep before the first, it is reported first. */
  lemma CompletionOrderExample()
    ensures Completion([1, 0], Sweeps([1, 0])) == [1, 0]
  {
    var doneAt: seq<nat> := [1, 0];
    assert Max(doneAt[..1]) == 1;
    assert Sweeps(doneAt) == 2;
    assert DoneAt(doneAt, 1, 0) == [];
    assert DoneAt(doneAt, 2, 0) == [1];
    assert DoneAt(doneAt, 1, 1) == [0];
    assert DoneAt(doneAt, 2, 1) == [0];
  }

  /** `execute`: the command lines, the wait, then the merge. `doneAt[i]`
      is the sweep that first sees process `i` finished and `results[i]`
      what it gave back; both stand for the child processes. */
  method Execute(workingDirectory: string, phpBinary: string, benchmarker: string, count: Option<string>,
                 testFiles: seq<string>, doneAt: seq<nat>, results: seq<ProcessResult>)
    returns (commands: seq<seq<string>>, outcome: Merge)
    requires |doneAt| == |testFiles| && |results| == |testFiles|
    ensures commands == Commands(workingDirectory, phpBinary, benchmarker, count, testFiles)
    ensures var order := Completion(doneAt, Sweeps(doneAt));
      Indices(order, |results|) && outcome == MergeAll(order, testFiles, results)
  {
    var files;
    files, commands := Prepare(workingDirectory, phpBinary, benchmarker, count, testFiles);
    var finished, numberFinished, sweeps := AwaitAll(doneAt);
    AwaitedAll(doneAt);
    outcome := MergeOutputs(finished, files, results);
  }
}
