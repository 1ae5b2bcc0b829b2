# Benchmarker commands, modelled in Dafny

Benchmarker is a PHP console tool with three commands.

- `run` loads test files, each of which yields named callables. It invokes every callable `--count` times and times the whole series with two clock readings. It then prints a table of durations and shares of the total, or a JSON list of the same rows.
- `parallelize` starts one `run --output-format=json` child process per test file. It polls the children until all have finished, then merges their decoded JSON rows into one table.
- `create` resolves a target path and collects test names, from the command line or by prompting. It then renders a benchmark file from two text templates.

This project models the bookkeeping of those three `execute` methods and proves what they promise.

- `php.dfy` (module `Php`) holds the PHP built-ins the commands rely on: truthiness, `trim`/`rtrim`, `basename`, `dirname` and `str_replace`.
- `paths.dfy` (module `Paths`) holds the path resolution shared by `parallelize` and `create`.
- `interchange.dfy` (module `Interchange`) holds the table rows and the JSON objects that `run` writes and `parallelize` reads back.
- `run.dfy`, `parallel.dfy` and `create.dfy` hold the three commands.

The loops of the source are methods with loop invariants, proved against specification functions. The properties are lemmas about those functions.

Outside influences become parameters:

- The clock is a function from the index of a reading to a real.
- A test is an event recorded in a trace.
- A child process is described by the sweep at which it is first seen finished (`doneAt`) and by its exit status and decoded output (`ProcessResult`).
- The user's prompt answers are a sequence of strings.
- Whether the target file exists, and the answer to the overwrite question, are booleans.

Where the code and its documentation disagree, the model follows the code:

- `parallelize` merges the children's rows in completion order, not in the order the files were given.
- Each child's `Total time` row is a complete line, so it is merged into the table too.
- The merged table can end with a separator. This happens when the last child to finish produced no rows and there are at least two children; `Parallel.MergedShape` states the exact condition.
- A `--count` of zero or less is accepted and runs nothing.
- The format `xml` produces JSON, and the format `0` counts as no format.
- Names given on the command line are used as given, without trimming.
- A file argument whose directory is rooted, such as "/tmp/bench.php", is passed to the child or written as its bare file name, exactly as the code computes `$realFilename`. "## Findings" records this.

## Model

| member | source | states |
|---|---|---|
| Run.FormatAcceptedExactly | src/Command/BenchmarkRunCommand.php:84-86 | The format is accepted iff it is empty, "0", "json" or "xml"; any other format is rejected. |
| Run.ListedFormats | src/Command/BenchmarkRunCommand.php:30 | The list of available formats in the error message reads "json, xml". |
| Run.InvalidFormatMessage | src/Command/BenchmarkRunCommand.php:85 | The exception message is "Invalid format ", the rejected format, then ". Available: json, xml". |
| Run.Repeat | src/Command/BenchmarkRunCommand.php:112-123 | The counting loop invokes the test exactly Runs(count) times and does nothing else. |
| Run.MeasureTest | src/Command/BenchmarkRunCommand.php:108-124 | One test's duration is the difference of the two clock readings around all its invocations; its events are the first reading, the invocations, then the second reading. |
| Run.MeasureFile | src/Command/BenchmarkRunCommand.php:107-138 | The inner loop appends one record per test, in the order the file yields them, and its total is the sum of their durations. |
| Run.FileStep | src/Command/BenchmarkRunCommand.php:125-130 | One more test appends exactly one record, with the test's own duration, and that test's events. |
| Run.SumAppend | src/Command/BenchmarkRunCommand.php:130 | Appending a record adds its duration to the total. |
| Run.Measure | src/Command/BenchmarkRunCommand.php:103-140 | The nested loops produce exactly the specified records, with a separator after every file, a total equal to the sum of the durations, and the specified trace. |
| Run.EntriesShape | src/Command/BenchmarkRunCommand.php:103-140 | There is one record per test, one separator per file including the last, and nothing else; with at least one file, the list ends with a separator. |
| Run.TraceCalls | src/Command/BenchmarkRunCommand.php:112-123 | Every test of every file is invoked exactly Runs(count) times; nothing else is invoked. |
| Run.TraceReads | src/Command/BenchmarkRunCommand.php:108-124 | Exactly two clock readings are taken per test, each reading once. |
| Run.DefaultRunsTenTimes | src/Command/BenchmarkRunCommand.php:28 | Without `--count`, every test is invoked 10 times. |
| Run.SumOfDurations | src/Command/BenchmarkRunCommand.php:130 | With non-negative durations the total is non-negative; with positive durations and at least one test it is positive. |
| Run.DurationsNotNegative | src/Command/BenchmarkRunCommand.php:108-124 | A clock that never goes back gives non-negative durations and total; one that always advances gives a positive total once a test exists. |
| Run.PercentsScale | src/Command/BenchmarkRunCommand.php:152 | The percent column sums to the durations' sum times 100 over the total. |
| Run.PercentsAddUp | src/Command/BenchmarkRunCommand.php:142-158 | When the total is not zero, the percents of the test rows sum to exactly 100. |
| Run.Rows | src/Command/BenchmarkRunCommand.php:142-156 | The first conversion keeps one row per record or separator. |
| Run.RowsPointwise | src/Command/BenchmarkRunCommand.php:142-156 | Each row is the conversion of the record at the same position; a separator stays a separator. |
| Run.RowsShape | src/Command/BenchmarkRunCommand.php:142-156 | The conversion keeps the number of separators and of data rows. |
| Run.Summary | src/Command/BenchmarkRunCommand.php:142-158 | Summary fails, by division by zero, iff the total is 0 and a test exists; otherwise it holds one row per entry and ends with the Total row. |
| Run.ObjectsOfDataRows | src/Command/BenchmarkRunCommand.php:172-184 | Separators are dropped and every other row becomes its object, in order and reindexed. |
| Run.Execute | src/Command/BenchmarkRunCommand.php:78-186 | A rejected format throws before any test runs; otherwise the command runs the specified trace and reports the table or the JSON list. |
| Run.XmlGivesJson | src/Command/BenchmarkRunCommand.php:84-185 | "xml" is accepted and reports exactly what "json" reports. |
| Run.TableShape | src/Command/BenchmarkRunCommand.php:139-158 | The table has one row per test, one separator per file, and ends with the Total row. |
| Run.JsonShape | src/Command/BenchmarkRunCommand.php:172-184 | The JSON list holds tests + 1 objects, ends with the Total object, and every object is a complete line. |
| Run.ObjectsDecode | src/Command/BenchmarkRunCommand.php:172-184 | Every object written decodes as a complete row. |
| Run.RowsArePlain | src/Command/BenchmarkRunCommand.php:148-158 | Every data row, the Total row included, has a file name, a duration and a percent. |
| Run.IncreasingClockDivides | src/Command/BenchmarkRunCommand.php:152 | With a clock that always advances, the division by the total never fails. |
| Interchange.Encode | src/Command/BenchmarkRunCommand.php:172-182 | A separator becomes null; any other row becomes an object with exactly the four keys. |
| Interchange.Decode | src/Command/BenchmarkParallelizeCommand.php:151-160 | A line yields a row iff it is present and holds non-null file name, duration and percent; the test name is not checked. |
| Interchange.DecodeEncode | src/Command/BenchmarkParallelizeCommand.php:151-160 | Decoding an encoded row gives it back iff the row is complete; a separator or an incomplete row gives nothing. |
| Interchange.RowsSplit | src/Command/BenchmarkParallelizeCommand.php:155-162 | Every row is either a data row or a separator. |
| Php.TrimEmpty | src/Command/BenchmarkCreateCommand.php:108 | `trim` gives "" iff every character is one it strips. |
| Php.TrimIdempotent | src/Command/BenchmarkCreateCommand.php:108 | Trimming twice is trimming once. |
| Php.ReplaceNothing | src/Command/BenchmarkCreateCommand.php:118 | `str_replace` leaves a subject without occurrences unchanged. |
| Php.ReplaceFirst | src/Command/BenchmarkCreateCommand.php:121 | `str_replace` keeps the text before the first occurrence, inserts the replacement without rescanning it, and continues after the occurrence. |
| Php.Basename | src/Command/BenchmarkParallelizeCommand.php:78 | `basename` yields a single path component. |
| Php.Dirname | src/Command/BenchmarkParallelizeCommand.php:79 | `dirname` of a non-empty path is non-empty, starts with '/' when the path does, and otherwise is "." or a prefix of the path. |
| Php.DirnameOfJoin | src/Command/BenchmarkParallelizeCommand.php:79 | `dirname` of a file in a directory (one not ending in '/') is that directory. |
| Php.DirnameOfName | src/Command/BenchmarkParallelizeCommand.php:79 | `dirname` of a bare file name is ".". |
| Php.BasenameOfJoin | src/Command/BenchmarkParallelizeCommand.php:78 | `basename` of a file in a directory, with the suffix, is the file name without the suffix. |
| Php.BasenameOfName | src/Command/BenchmarkParallelizeCommand.php:78 | `basename` of a bare file name, with the suffix, is the name without the suffix. |
| Paths.FileName | src/Command/BenchmarkParallelizeCommand.php:78 | The file name always ends in ".php". |
| Paths.ResolvedIsPhpFile | src/Command/BenchmarkParallelizeCommand.php:78-85 | The resolved path ends in ".php", both as written and as intended. |
| Paths.RelativeUnderWorkingDirectory | src/Command/BenchmarkParallelizeCommand.php:82-84 | A relative dirname puts the file under the working directory without trailing slashes, followed by a separator. |
| Paths.RelativeAgrees | src/Command/BenchmarkCreateCommand.php:92-95 | For a relative dirname, the code as written and the corrected resolution agree. |
| Paths.RootedKeepsOnlyFileName | src/Command/BenchmarkCreateCommand.php:88-95 | As written, a rooted dirname leaves only the bare file name. |
| Paths.RootedKeepsDirectory | src/Command/BenchmarkCreateCommand.php:92-95 | As corrected, a rooted dirname is kept in front of the file name. |
| Paths.AbsoluteFileIsRooted | src/Command/BenchmarkParallelizeCommand.php:79-82 | An argument starting with '/' has a rooted dirname. |
| Paths.RelativeFileIsNotRooted | src/Command/BenchmarkParallelizeCommand.php:79-82 | An argument starting with neither '/' nor a drive letter has a relative dirname. |
| Paths.ResolveAsWritten | src/Command/BenchmarkParallelizeCommand.php:78-85 | The path as the code computes it ends with the file name. |
| Paths.Resolve | src/Command/BenchmarkParallelizeCommand.php:78-85 | The corrected path ends with a separator and the file name. |
| Paths.RealFilenameIsPhpFile | src/Command/BenchmarkParallelizeCommand.php:78-85 | `$realFilename` as the code computes it always ends in ".php". |
| Paths.RealFilenameRelative | src/Command/BenchmarkCreateCommand.php:88-95 | For an argument with a relative dirname, `$realFilename` as the code computes it is the intended path. |
| Paths.RealFilenameRooted | src/Command/BenchmarkCreateCommand.php:88-95 | For an argument with a rooted dirname, `$realFilename` is the bare file name. |
| Paths.AbsolutePathLosesDirectory | src/Command/BenchmarkParallelizeCommand.php:78-85 | For "/tmp/bench.php" the code yields "bench.php", although the directory it computes is "/tmp"; the corrected path is "/tmp/bench.php". |
| Parallel.ArgumentsLayout | src/Command/BenchmarkParallelizeCommand.php:87-101 | The child command is the PHP binary, the benchmarker and the four run options, then `--count=N` only when a count was given, then "--" and the file; its length is 8 or 9. |
| Parallel.ChildRunsInJsonMode | src/Command/BenchmarkParallelizeCommand.php:87-101 | Each child runs `run` in an accepted, machine-readable format on `$realFilename`, which names a ".php" file. |
| Parallel.CommandsAt | src/Command/BenchmarkParallelizeCommand.php:77-105 | There is one command per test file, and the i-th passes the i-th file's `$realFilename` as the code computes it. |
| Parallel.AbsoluteFileRunsBareName | src/Command/BenchmarkParallelizeCommand.php:78-101 | The argument "/tmp/bench.php" reaches its child as the last of 8 arguments, the bare "bench.php". |
| Parallel.CommandsStep | src/Command/BenchmarkParallelizeCommand.php:103-104 | One more file appends exactly its own command. |
| Parallel.Prepare | src/Command/BenchmarkParallelizeCommand.php:77-105 | `$files` and the commands grow together, in input order, one entry per file, each command carrying that file's `$realFilename`. |
| Parallel.SweepFinds | src/Command/BenchmarkParallelizeCommand.php:127-135 | A sweep marks finished exactly the pending processes that stop during it. |
| Parallel.DoneAtAscending | src/Command/BenchmarkParallelizeCommand.php:127 | The processes found in one sweep are found in ascending index order. |
| Parallel.SweepKeeps | src/Command/BenchmarkParallelizeCommand.php:135 | A sweep leaves pending exactly the processes still running. |
| Parallel.SweepCounts | src/Command/BenchmarkParallelizeCommand.php:133 | The finished and the still-pending processes of a sweep add up to the pending processes before it. |
| Parallel.AtLeastAll | src/Command/BenchmarkParallelizeCommand.php:117 | Before the first sweep every process is pending. |
| Parallel.AtLeastEmpty | src/Command/BenchmarkParallelizeCommand.php:126 | No process is pending iff all have stopped. |
| Parallel.Sweep | src/Command/BenchmarkParallelizeCommand.php:127-136 | The inner loop produces exactly the finished and kept processes of one sweep. |
| Parallel.AwaitAll | src/Command/BenchmarkParallelizeCommand.php:126-137 | The poll loop ends after the specified number of sweeps, with every process finished and `numberFinished` equal to the size of the finished list. |
| Parallel.PendingOrFinished | src/Command/BenchmarkParallelizeCommand.php:126-137 | At every sweep each process is either pending or finished, never both, and finished at most once. |
| Parallel.CompletionCount | src/Command/BenchmarkParallelizeCommand.php:132 | A process is in the finished list exactly once when it has stopped, and otherwise not at all. |
| Parallel.CompletionInOrder | src/Command/BenchmarkParallelizeCommand.php:132 | The finished list holds valid indices, ordered by the sweep that found each process. |
| Parallel.AwaitedAll | src/Command/BenchmarkParallelizeCommand.php:126-137 | After the loop, every process is in the finished list exactly once, in completion order. |
| Parallel.CompletionOrderExample | src/Command/BenchmarkParallelizeCommand.php:132-143 | If the second process stops first, it is merged first. |
| Parallel.ReadOutput | src/Command/BenchmarkParallelizeCommand.php:150-161 | One child's lines give its complete rows in order, and one error per skipped line. |
| Parallel.LinesSplit | src/Command/BenchmarkParallelizeCommand.php:150-161 | Every line gives either a row or an error. Rows are complete, and every error names the child's file. |
| Parallel.NoErrorsIffComplete | src/Command/BenchmarkParallelizeCommand.php:151-154 | A child's output gives no error iff every line is complete. |
| Parallel.UndecodableOutput | src/Command/BenchmarkParallelizeCommand.php:148 | Undecodable output gives no rows and exactly one error. |
| Parallel.MergeOutputs | src/Command/BenchmarkParallelizeCommand.php:141-167 | The merge loop and the final pop produce exactly the specified merge. |
| Parallel.CollectFailedStays | src/Command/BenchmarkParallelizeCommand.php:144-146 | Once a child has failed, later children change nothing. |
| Parallel.FirstFailureWins | src/Command/BenchmarkParallelizeCommand.php:143-146 | The merge fails iff some child failed, and it names the first failed child in completion order. |
| Parallel.CollectShape | src/Command/BenchmarkParallelizeCommand.php:143-163 | Before the pop, there is one separator per child; the data rows are all children's rows in completion order, and the rows end with a separator. |
| Parallel.SucceededPrefix | src/Command/BenchmarkParallelizeCommand.php:143-146 | If all children succeeded, so did every prefix of them. |
| Parallel.LastSeparatorRemoved | src/Command/BenchmarkParallelizeCommand.php:162-167 | The pop removes exactly the separator after the last child's rows. |
| Parallel.MergedShape | src/Command/BenchmarkParallelizeCommand.php:162-167 | With n ≥ 1 children, the table holds n − 1 separators and all children's rows in completion order. It ends with a separator iff n ≥ 2 and the last child gave no rows. |
| Parallel.ReadBack | src/Command/BenchmarkParallelizeCommand.php:148-161 | Reading back complete rows written as JSON gives exactly their data rows, with no error. |
| Parallel.ChildRowsReappear | src/Command/BenchmarkParallelizeCommand.php:148-161 | A child's JSON report is read back as its test rows followed by its Total row, with no error. |
| Parallel.Execute | src/Command/BenchmarkParallelizeCommand.php:66-175 | The command builds one command per file, on `$realFilename` as the code computes it, and merges the outputs in completion order. |
| Create.TestBlockShape | src/Command/BenchmarkCreateCommand.php:118 | A test block is the template with its placeholder replaced by the name, and nothing else changed. |
| Create.FileContentShape | src/Command/BenchmarkCreateCommand.php:121 | The file is the template head, the inserted tests, then "})();\n". The inserted text is not rescanned. |
| Create.FillOnce | src/Command/BenchmarkCreateCommand.php:118-121 | Replacing a placeholder that appears once in a brace-free text inserts the value at its place. |
| Create.BlocksAppend | src/Command/BenchmarkCreateCommand.php:115-119 | The blocks of a concatenation of name lists are the concatenated blocks. |
| Create.BlocksStep | src/Command/BenchmarkCreateCommand.php:117-119 | One more name appends exactly its block. |
| Create.RenderTests | src/Command/BenchmarkCreateCommand.php:115-119 | The loop builds the blocks of the names, in order. |
| Create.StopAtBounds | src/Command/BenchmarkCreateCommand.php:107-112 | The inner loop stops at the first falsy trimmed answer, and every earlier answer is truthy. |
| Create.ReadAllEach | src/Command/BenchmarkCreateCommand.php:108 | Each collected name is the trimmed answer at the same position. |
| Create.PromptedNames | src/Command/BenchmarkCreateCommand.php:105-113 | Prompted names are never empty, and every name is truthy and trimmed. |
| Create.NamesChosen | src/Command/BenchmarkCreateCommand.php:103-113 | Given names are used unchanged and nothing is asked; otherwise the prompted names meet PromptedNames. |
| Create.EmptyAnswersNeverName | src/Command/BenchmarkCreateCommand.php:105-113 | Answers that are all empty never yield a name, however many rounds are asked. |
| Create.PromptExample | src/Command/BenchmarkCreateCommand.php:105-113 | The answers "  ", "a", " b ", "", "c" give the names "a" and "b". The first round yields nothing, so the prompt repeats. |
| Create.AskRound | src/Command/BenchmarkCreateCommand.php:107-112 | The inner loop finishes iff a falsy answer comes. It then collects exactly the trimmed answers before that one. |
| Create.CollectNames | src/Command/BenchmarkCreateCommand.php:103-113 | The loops produce the specified names, and ask nothing when names were given. |
| Create.Execute | src/Command/BenchmarkCreateCommand.php:82-130 | The command declines iff the file exists and overwriting is refused. Otherwise it writes the rendered file (head, the blocks of the names, tail) to `$realFilename` as the code computes it, in the computed directory, unless the answers run out first. |

## Left out

- Clock and output buffering: `microtime` is a function from the index of a reading to a real, and `ob_start`/`ob_end_clean` are left out.
- Tests: a test is an event in a trace. What a test does, and a test that throws, are not part of this model.
- Loading: `require` and `set_include_path` are dynamic loading. Each test file is given as its path and its list of test names.
- Formatting: `number_format` with three decimals and float rounding are left out. Cells carry the exact real, as seconds or as a percent.
- Test keys: an integer test key appears as text.
- JSON: `json_encode` and `json_decode` are left out. A child's output is a sequence of optional field maps, and a decode failure is `None`; `?? [[null]]` turns it into one empty line.
- The count option: `--count` is an integer. A non-numeric count string, compared by PHP's loose rules, is not part of this model; the parallel command passes the option on as text.
- Run.Summary: a total of 0 with tests present is a `DivisionByZero` outcome, as PHP 8 throws `DivisionByZeroError` there. Under PHP 7 the division gives INF or NAN with a warning and the table is still printed; that behaviour is not modelled.
- Console output: the progress indicator, `SymfonyStyle` output, the `str_pad` progress and summary lines, and DetailsTrait (src/Command/DetailsTrait.php) are display only. A failed merge or an undecodable line is returned as data instead of being printed or thrown.
- Processes: starting processes, `isRunning`, `isSuccessful` and `getOutput` are parameters.
  - `doneAt[i]` is the sweep at which process i is first seen stopped; a process that never stops is not part of this model.
  - Reading the exit status and the output is the `ProcessResult` of the process.
- Filesystem:
  - `file_exists` and the overwrite confirmation are the booleans `fileExists` and `overwrite`.
  - `mkdir`, its `RuntimeException` and `file_put_contents` are left out. `Create.Execute` returns the directory, path and content it would write.
- Create.Execute: when the answers run out before a name is collected, the code keeps asking, and the model reports `StillPrompting` instead. With `--no-interaction`, `ask` gives no answer each time, so the code loops forever; `Create.EmptyAnswersNeverName` shows that no number of empty answers yields a name.
- Paths: `DIRECTORY_SEPARATOR` is '/', and only POSIX path syntax is modelled. `dirname` and `basename` treat '\\' as an ordinary character.
- The examples file examples/simple_vs_double_quotes.php is sample data and is not part of this model.

## Findings

| source | as written | input that shows it | evidently intended | confidence | as-written member | corrected member |
|---|---|---|---|---|---|---|
| src/Command/BenchmarkParallelizeCommand.php:78-85 (same code in src/Command/BenchmarkCreateCommand.php:88-95) | `$realFilename` gets the directory only in the relative branch, so a rooted dirname is dropped and the bare file name is used | the file argument "/tmp/bench.php" resolves to "bench.php", which is relative to the process's current directory | the file name sits in the computed directory: "/tmp/bench.php" | not executed | Paths.ResolveAsWritten (Paths.AbsolutePathLosesDirectory, Paths.RootedKeepsOnlyFileName, Parallel.AbsoluteFileRunsBareName), which the command models use through Paths.RealFilename | Paths.Resolve (Paths.RootedKeepsDirectory, Paths.ResolvedIsPhpFile; Paths.RealFilenameRelative shows both agree on relative arguments) |
