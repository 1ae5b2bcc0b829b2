/** The `create` command (BenchmarkCreateCommand.php): resolve the target
    file, ask for test names when none were given, and fill the two
    templates. */
module Create {
  import opened Php
  import opened Paths
  import opened Interchange

  /* ---------- the templates ---------- */

  const TestsPlaceholder: string := "{{ tests }}"
  const NamePlaceholder: string := "{{ test_name }}"

  /** FILE_TEMPLATE is FileHead, the `{{ tests }}` placeholder, FileTail.
      The pieces are kept short so that facts about their characters stay
      cheap to establish. */
  const FileHead: string := "<?php\n\ndeclare(strict_" + "types=1);\n\nreturn (function () " + "{ "
  const FileTail: string := "})();\n"
  const FileTemplate: string := FileHead + TestsPlaceholder + FileTail

  /** TEST_TEMPLATE is TestHead, the `{{ test_name }}` placeholder, TestTail. */
  const TestHead: string := "\n    yield '"
  const TestTail: string := "' => function () " + "{" + "\n        // TODO\n    };\n"
  const TestTemplate: string := TestHead + NamePlaceholder + TestTail

  /** `str_replace('{{ test_name }}', $testName, self::TEST_TEMPLATE)`. */
  function TestBlock(name: string): string {
    ReplaceAll(TestTemplate, NamePlaceholder, name)
  }

  /** `$tests` after the `foreach`: the blocks of the names, in order. */
  function Blocks(names: seq<string>): string {
    if names == [] then "" else Blocks(names[..|names| - 1]) + TestBlock(names[|names| - 1])
  }

  /** `str_replace('{{ tests }}', $tests, self::FILE_TEMPLATE)`. */
  function FileContent(tests: string): string {
    ReplaceAll(FileTemplate, TestsPlaceholder, tests)
  }

  /** No two consecutive opening braces: no placeholder can start here. */
  predicate BraceFree(s: string) {
    forall k :: 0 <= k < |s| - 1 ==> !(s[k] == '{' && s[k + 1] == '{')
  }

  lemma LacksByMembership(s: string, c: char)
    requires c !in s
    ensures Lacks(s, c)
  {
  }

  lemma LacksAppend(a: string, b: string, c: char)
    requires Lacks(a, c) && Lacks(b, c)
    ensures Lacks(a + b, c)
  {
    forall k | 0 <= k < |a + b| ensures (a + b)[k] != c {
      if k >= |a| {
        assert (a + b)[k] == b[k - |a|];
      }
    }
  }

  /** A single brace followed by text without braces. */
  lemma BraceThenLacks(b: string)
    requires Lacks(b, '{')
    ensures BraceFree("{" + b)
  {
    var s := "{" + b;
    forall k | 0 <= k < |s| - 1 ensures !(s[k] == '{' && s[k + 1] == '{') {
      assert s[k + 1] == b[k];
    }
  }

  lemma LacksThenBraceFree(a: string, b: string)
    requires Lacks(a, '{') && BraceFree(b)
    ensures BraceFree(a + b)
  {
    var s := a + b;
    forall k | 0 <= k < |s| - 1 ensures !(s[k] == '{' && s[k + 1] == '{') {
      if k < |a| {
        assert s[k] == a[k];
      } else {
        assert s[k] == b[k - |a|] && s[k + 1] == b[k + 1 - |a|];
      }
    }
  }

  /** A placeholder cannot start before `m` when the text up to `m` has no
      two consecutive braces and the character before `m` is not a brace. */
  lemma BraceFreeNoOccurrence(s: string, search: string, m: nat)
    requires |search| >= 2 && search[0] == '{' && search[1] == '{'
    requires m <= |s| && BraceFree(s[..m])
    requires 0 < m < |s| ==> s[m - 1] != '{'
    ensures NoOccurrenceBefore(s, search, m)
  {
    forall k | 0 <= k < m ensures !OccursAt(s, k, search) {
      if k + |search| <= |s| {
        assert s[k..k + |search|][0] == s[k] && s[k..k + |search|][1] == s[k + 1];
        if k + 1 < m {
          assert s[..m][k] == s[k] && s[..m][k + 1] == s[k + 1];
        }
      }
    }
  }

  lemma TestPieces()
    ensures Lacks(TestHead, '{') && BraceFree(TestTail)
  {
    var t1, t2 := "' => function () ", "\n        // TODO\n    };\n";
    assert '{' !in t1;
    assert '{' !in t2;
    LacksByMembership(t1, '{');
    LacksByMembership(t2, '{');
    BraceThenLacks(t2);
    LacksThenBraceFree(t1, "{" + t2);
    assert t1 + ("{" + t2) == TestTail;
    assert '{' !in TestHead;
    LacksByMembership(TestHead, '{');
  }

  lemma FileHeadStart()
    ensures Lacks("<?php\n\ndeclare(strict_" + "types=1);\n\nreturn (function () ", '{')
  {
    var f1, f2 := "<?php\n\ndeclare(strict_", "types=1);\n\nreturn (function () ";
    assert '{' !in f1;
    LacksByMembership(f1, '{');
    assert '{' !in f2;
    LacksByMembership(f2, '{');
    LacksAppend(f1, f2, '{');
  }

  lemma FilePieces()
    ensures BraceFree(FileHead) && FileHead[|FileHead| - 1] == ' ' && Lacks(FileTail, '{')
  {
    var start := "<?php\n\ndeclare(strict_" + "types=1);\n\nreturn (function () ";
    FileHeadStart();
    assert '{' !in " ";
    LacksByMembership(" ", '{');
    BraceThenLacks(" ");
    LacksThenBraceFree(start, "{ ");
    assert '{' !in FileTail;
    LacksByMembership(FileTail, '{');
  }

  /** Replacing the only placeholder of `head + placeholder + tail` puts
      the replacement between `head` and `tail`, whatever it contains. */
  lemma {:induction false} FillOnce(head: string, placeholder: string, tail: string, value: string)
    requires |placeholder| >= 2 && placeholder[0] == '{' && placeholder[1] == '{'
    requires BraceFree(head) && (head != [] ==> head[|head| - 1] != '{') && BraceFree(tail)
    ensures ReplaceAll(head + placeholder + tail, placeholder, value) == head + value + tail
  {
    var s := head + placeholder + tail;
    var m := |head|;
    assert s[..m] == head;
    BraceFreeNoOccurrence(s, placeholder, m);
    assert s[m..m + |placeholder|] == placeholder;
    ReplaceFirst(s, placeholder, value, m);
    assert s[m + |placeholder|..] == tail;
    assert tail[..|tail|] == tail;
    BraceFreeNoOccurrence(tail, placeholder, |tail|);
    ReplaceNothing(tail, placeholder, value);
  }

  /** Each block is the test template with the name in place, the name
      inserted verbatim and not searched again. */
  lemma TestBlockShape(name: string)
    ensures TestBlock(name) == TestHead + name + TestTail
  {
    TestPieces();
    LacksThenBraceFree(TestHead, "");
    assert TestHead + "" == TestHead;
    FillOnce(TestHead, NamePlaceholder, TestTail, name);
  }

  /** The file is the file template around the blocks, whatever the blocks
      contain. */
  lemma FileContentShape(tests: string)
    ensures FileContent(tests) == FileHead + tests + FileTail
  {
    FilePieces();
    LacksThenBraceFree(FileTail, "");
    assert FileTail + "" == FileTail;
    FillOnce(FileHead, TestsPlaceholder, FileTail, tests);
  }

  /** The blocks of two lists of names, one after the other. */
  lemma {:induction false} BlocksAppend(a: seq<string>, b: seq<string>)
    ensures Blocks(a + b) == Blocks(a) + Blocks(b)
  {
    if b == [] {
      assert a + b == a;
    } else {
      var init := b[..|b| - 1];
      assert (a + b)[..|a + b| - 1] == a + init;
      BlocksAppend(a, init);
    }
  }

  /** One name more adds its block at the end. */
  lemma BlocksStep(names: seq<string>, name: string)
    ensures Blocks(names + [name]) == Blocks(names) + TestHead + name + TestTail
  {
    assert (names + [name])[..|names|] == names;
    TestBlockShape(name);
  }

  /** The `foreach` building `$tests`. */
  method RenderTests(names: seq<string>) returns (tests: string)
    ensures tests == Blocks(names)
  {
    tests := "";
    var p := 0;
    while p < |names|
      invariant 0 <= p <= |names|
      invariant tests == Blocks(names[..p])
    {
      PrefixStep(names, p);
      tests := tests + ReplaceAll(TestTemplate, NamePlaceholder, names[p]);
      p := p + 1;
    }
    WholePrefix(names);
  }

  /* ---------- asking for names ---------- */

  /** `trim($io->ask(...) ?: '')`: an empty answer (or "0") reads as "",
      anything else is trimmed. */
  function Answer(a: string): string {
    Trim(if Truthy(a) then a else "", Blanks)
  }

  /** The first answer from `p` on that is falsy once read, if any. */
  function StopAt(answers: seq<string>, p: nat): (r: Option<nat>)
    ensures r.Some? ==> p <= r.value < |answers|
    decreases |answers| - p
  {
    if p >= |answers| then None
    else if !Truthy(Answer(answers[p])) then Some(p)
    else StopAt(answers, p + 1)
  }

  function ReadAll(answers: seq<string>): seq<string> {
    if answers == [] then [] else ReadAll(answers[..|answers| - 1]) + [Answer(answers[|answers| - 1])]
  }

  /** The `while` loop from answer `p` on: rounds of the `do`/`while`, each
      ending at a falsy answer, until a round collects a name. None when the
      answers run out first: the command would still be asking. */
  function Prompted(answers: seq<string>, p: nat): Option<seq<string>>
    decreases |answers| - p
  {
    match StopAt(answers, p)
    case None => None
    case Some(q) =>
      if q > p then Some(ReadAll(answers[p..q]))
      else Prompted(answers, q + 1)
  }

  /** Answers that are all empty, as `ask` gives without interaction, never
      yield a name, however many rounds are asked. */
  lemma {:induction false} EmptyAnswersNeverName(answers: seq<string>, p: nat)
    requires forall k :: 0 <= k < |answers| ==> answers[k] == ""
    ensures Prompted(answers, p).None?
    decreases |answers| - p
  {
    if p < |answers| {
      assert answers[p] == "";
      assert Answer(answers[p]) == "" by {
        assert Trim("", Blanks) == "";
      }
      assert StopAt(answers, p) == Some(p);
      EmptyAnswersNeverName(answers, p + 1);
    }
  }

  /** The names used: those given on the command line, or else the ones
      asked for. */
  function Names(given: seq<string>, answers: seq<string>): Option<seq<string>> {
    if |given| != 0 then Some(given) else Prompted(answers, 0)
  }

  lemma {:induction false} StopAtBounds(answers: seq<string>, p: nat)
    ensures StopAt(answers, p).Some? ==>
              var q := StopAt(answers, p).value;
              p <= q < |answers| && !Truthy(Answer(answers[q]))
              && forall j :: p <= j < q ==> Truthy(Answer(answers[j]))
    decreases |answers| - p
  {
    if p < |answers| && Truthy(Answer(answers[p])) {
      StopAtBounds(answers, p + 1);
    }
  }

  /** Every answer is read in turn. */
  lemma {:induction false} ReadAllEach(answers: seq<string>)
    ensures |ReadAll(answers)| == |answers|
    ensures forall k :: 0 <= k < |answers| ==> ReadAll(answers)[k] == Answer(answers[k])
  {
    if answers != [] {
      var init := answers[..|answers| - 1];
      ReadAllEach(init);
      var r := ReadAll(answers);
      assert r == ReadAll(init) + [Answer(answers[|answers| - 1])];
      forall k | 0 <= k < |answers| ensures r[k] == Answer(answers[k]) {
        if k < |init| {
          assert r[k] == ReadAll(init)[k] && init[k] == answers[k];
        }
      }
    }
  }

  lemma ReadAllStep(answers: seq<string>, start: nat, next: nat)
    requires start <= next < |answers|
    ensures ReadAll(answers[start..next + 1]) == ReadAll(answers[start..next]) + [Answer(answers[next])]
  {
    var longer := answers[start..next + 1];
    assert longer[..|longer| - 1] == answers[start..next];
    assert longer[|longer| - 1] == answers[next];
  }

  /** The names asked for are not empty, each is truthy and has no
      surrounding blanks. */
  lemma {:induction false} PromptedNames(answers: seq<string>, p: nat)
    ensures Prompted(answers, p).Some? ==>
              var names := Prompted(answers, p).value;
              |names| > 0
              && forall k :: 0 <= k < |names| ==> Truthy(names[k]) && Trim(names[k], Blanks) == names[k]
    decreases |answers| - p
  {
    StopAtBounds(answers, p);
    var r := StopAt(answers, p);
    if r.Some? {
      var q := r.value;
      if q == p {
        PromptedNames(answers, q + 1);
      } else {
        var read := answers[p..q];
        assert forall j :: 0 <= j < |read| ==> read[j] == answers[p + j];
        ReadAllEach(read);
        forall k | 0 <= k < |read| ensures Trim(ReadAll(read)[k], Blanks) == ReadAll(read)[k] {
          var a := read[k];
          TrimIdempotent(if Truthy(a) then a else "", Blanks);
        }
      }
    }
  }

  /** Names given on the command line are used as they are, without
      asking; otherwise at least one name is asked for. */
  lemma NamesChosen(given: seq<string>, answers: seq<string>)
    ensures |given| != 0 ==> Names(given, answers) == Some(given)
    ensures |given| == 0 && Names(given, answers).Some? ==>
              var names := Names(given, answers).value;
              |names| > 0
              && forall k :: 0 <= k < |names| ==> Truthy(names[k]) && Trim(names[k], Blanks) == names[k]
  {
    PromptedNames(answers, 0);
  }

  /** Five answers: a blank one ends the first round with nothing, then
      "a" and " b " are kept and "" ends the second round. */
  lemma PromptExample()
    ensures Prompted(["  ", "a", " b ", "", "c"], 0) == Some(["a", "b"])
  {
    var answers := ["  ", "a", " b ", "", "c"];
    assert Trim("  ", Blanks) == "" by {
      assert "  "[1..] == " ";
      assert " "[1..] == "";
    }
    assert Answer(answers[0]) == "";
    assert Trim("a", Blanks) == "a";
    assert Trim(" b ", Blanks) == "b" by {
      assert " b "[1..] == "b ";
      assert TrimStart(" b ", Blanks) == "b ";
      assert "b "[..1] == "b";
    }
    assert Answer(answers[3]) == "";
    assert StopAt(answers, 3) == Some(3);
    assert StopAt(answers, 1) == Some(3);
    assert StopAt(answers, 0) == Some(0);
    assert answers[1..3] == ["a", " b "];
    assert ReadAll(["a", " b "]) == ["a", "b"] by {
      assert ["a", " b "][..1] == ["a"];
      assert ["a"][..0] == [];
    }
  }

  /** Reading one more answer: a truthy one is collected and the round goes
      on, a falsy one ends the round. */
  lemma RoundStep(answers: seq<string>, start: nat, next: nat)
    requires start <= next < |answers|
    ensures var r := Answer(answers[next]);
      (Truthy(r) ==> StopAt(answers, next) == StopAt(answers, next + 1))
      && (!Truthy(r) ==> StopAt(answers, next) == Some(next))
      && ReadAll(answers[start..next + 1]) == ReadAll(answers[start..next]) + [r]
  {
    ReadAllStep(answers, start, next);
  }

  /** One round of the `do`/`while` from answer `start`: answers are read
      until a falsy one. `finished` is false when the answers ran out. */
  method AskRound(answers: seq<string>, start: nat) returns (names: seq<string>, next: nat, finished: bool)
    requires start <= |answers|
    ensures finished <==> StopAt(answers, start).Some?
    ensures finished ==> next == StopAt(answers, start).value + 1 && names == ReadAll(answers[start..next - 1])
  {
    names, next := [], start;
    var going := true;
    while going
      invariant start <= next <= |answers|
      invariant going ==> StopAt(answers, start) == StopAt(answers, next) && names == ReadAll(answers[start..next])
      invariant !going ==> start < next && StopAt(answers, start) == Some(next - 1)
                           && names == ReadAll(answers[start..next - 1])
      decreases |answers| - next, going
    {
      if next == |answers| {
        return names, next, false;
      }
      var result := Answer(answers[next]);
      RoundStep(answers, start, next);
      going := Truthy(result);
      if going {
        names := names + [result];
      }
      next := next + 1;
    }
    finished := true;
  }

  /** The `while (0 === count($testNames))` loop around the rounds. */
  method CollectNames(given: seq<string>, answers: seq<string>) returns (names: Option<seq<string>>, asked: nat)
    ensures names == Names(given, answers)
    ensures |given| != 0 ==> asked == 0
  {
    if |given| != 0 {
      return Some(given), 0;
    }
    var collected: seq<string> := [];
    asked := 0;
    while |collected| == 0
      invariant asked <= |answers|
      invariant Prompted(answers, asked) == Prompted(answers, 0)
      invariant |collected| == 0
      decreases |answers| - asked
    {
      var round, next, finished := AskRound(answers, asked);
      if !finished {
        return None, |answers|;
      }
      StopAtBounds(answers, asked);
      if |round| != 0 {
        assert Prompted(answers, asked) == Some(round);
        return Some(round), next;
      }
      assert next - 1 == asked;
      asked := next;
    }
  }

  /* ---------- the command ---------- */

  /** How the command ends: the user declined to overwrite, it is still
      asking for names, or it writes `content` to `path` in `directory`. */
  datatype Outcome = Declined | StillPrompting | Written(directory: string, path: string, content: string)

  /** `execute`. `fileExists` is what `file_exists` says of the target and
      `overwrite` the answer to the confirmation; `answers` are the answers
      to the name prompt, in order. */
  method Execute(workingDirectory: string, filename: string, given: seq<string>, answers: seq<string>,
                 fileExists: bool, overwrite: bool)
    returns (outcome: Outcome)
    ensures outcome == Declined <==> fileExists && !overwrite
    ensures outcome == StillPrompting <==> !(fileExists && !overwrite) && Names(given, answers).None?
    ensures outcome.Written? ==>
              Names(given, answers).Some?
              && outcome.directory == Directory(workingDirectory, Dirname(filename))
              && outcome.path == RealFilename(workingDirectory, filename)
              && outcome.content == FileHead + Blocks(Names(given, answers).value) + FileTail
  {
    var path := RealFilename(workingDirectory, filename);
    if fileExists && !overwrite {
      return Declined;
    }
    var names, asked := CollectNames(given, answers);
    if names.None? {
      return StillPrompting;
    }
    var tests := RenderTests(names.value);
    var content := ReplaceAll(FileTemplate, TestsPlaceholder, tests);
    FileContentShape(tests);
    outcome := Written(Directory(workingDirectory, Dirname(filename)), path, content);
  }
}
