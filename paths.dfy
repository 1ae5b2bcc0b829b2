/** How the parallelize and create commands turn a file argument into the
    path they use (BenchmarkParallelizeCommand.php lines 78-85 and
    BenchmarkCreateCommand.php lines 88-95 are the same code). */
module Paths {
  import opened Php

  /** DIRECTORY_SEPARATOR on a POSIX system. */
  const Separator: string := "/"

  predicate IsAsciiLetter(c: char) {
    'a' <= c <= 'z' || 'A' <= c <= 'Z'
  }

  /** The pattern ~^(?:/|[A-Z]:)~i: a leading slash, or a drive letter of
      either case followed by a colon. */
  predicate IsRooted(directory: string) {
    (|directory| >= 1 && directory[0] == '/')
    || (|directory| >= 2 && IsAsciiLetter(directory[0]) && directory[1] == ':')
  }

  /** `basename($file, '.php').'.php'`: a single path component that always
      ends in ".php", whether or not `file` did. */
  function FileName(file: string): (r: string)
    ensures EndsWith(r, ".php")
  {
    Basename(file, ".php") + ".php"
  }

  /** `$directory` after the branch, given the argument's dirname: the
      dirname itself when it is rooted, otherwise the working directory
      without trailing slashes, a separator and the dirname without leading
      or trailing slashes. */
  function Directory(workingDirectory: string, dirname: string): string {
    if IsRooted(dirname) then dirname
    else TrimEnd(workingDirectory, Slashes) + Separator + Trim(dirname, Slashes)
  }

  /** `$realFilename` exactly as the source computes it from the dirname and
      the file name: only the relative branch puts the directory in front,
      so a rooted dirname is dropped. */
  function ResolveAsWritten(workingDirectory: string, dirname: string, name: string): (r: string)
    ensures EndsWith(r, name)
  {
    if IsRooted(dirname) then
      assert name[|name| - |name|..] == name;
      name
    else
      var d := Directory(workingDirectory, dirname);
      assert (d + Separator + name)[|d + Separator|..] == name;
      d + Separator + name
  }

  /** The resolved path as evidently intended: the file name always sits in
      `Directory`, so a rooted dirname is kept. */
  function Resolve(workingDirectory: string, dirname: string, name: string): (r: string)
    ensures EndsWith(r, Separator + name)
  {
    var d := Directory(workingDirectory, dirname);
    var tail := Separator + name;
    assert (d + tail)[|d|..] == tail;
    d + tail
  }

  /** What the commands use for a file argument. */
  function ResolveFile(workingDirectory: string, file: string): (r: string)
    ensures EndsWith(r, Separator + FileName(file))
  {
    Resolve(workingDirectory, Dirname(file), FileName(file))
  }

  /** `$realFilename` as the commands compute it for a file argument. */
  function RealFilename(workingDirectory: string, file: string): string {
    ResolveAsWritten(workingDirectory, Dirname(file), FileName(file))
  }

  /** What the commands compute always names a PHP file. */
  lemma RealFilenameIsPhpFile(workingDirectory: string, file: string)
    ensures EndsWith(RealFilename(workingDirectory, file), ".php")
  {
    ResolvedIsPhpFile(workingDirectory, file);
  }

  /** For an argument with a relative dirname, what the commands compute is
      the intended path. */
  lemma RealFilenameRelative(workingDirectory: string, file: string)
    requires !IsRooted(Dirname(file))
    ensures RealFilename(workingDirectory, file) == ResolveFile(workingDirectory, file)
  {
    RelativeAgrees(workingDirectory, Dirname(file), FileName(file));
  }

  /** For an argument with a rooted dirname, what the commands compute is
      the bare file name. */
  lemma RealFilenameRooted(workingDirectory: string, file: string)
    requires IsRooted(Dirname(file))
    ensures RealFilename(workingDirectory, file) == FileName(file)
  {
    RootedKeepsOnlyFileName(workingDirectory, Dirname(file), FileName(file));
  }

  /** Whatever the argument, the resolved path names a PHP file. */
  lemma ResolvedIsPhpFile(workingDirectory: string, file: string)
    ensures EndsWith(ResolveFile(workingDirectory, file), ".php")
    ensures EndsWith(ResolveAsWritten(workingDirectory, Dirname(file), FileName(file)), ".php")
  {
    var name := FileName(file);
    var r := ResolveFile(workingDirectory, file);
    EndsWithTransitive(r, Separator + name, ".php");
    EndsWithTransitive(ResolveAsWritten(workingDirectory, Dirname(file), name), name, ".php");
  }

  lemma EndsWithTransitive(s: string, t: string, u: string)
    requires EndsWith(s, t) && EndsWith(t, u)
    ensures EndsWith(s, u)
  {
    assert s[|s| - |u|..] == s[|s| - |t|..][|t| - |u|..];
  }

  /** As written, a rooted dirname is dropped: the result is the bare file
      name. */
  lemma RootedKeepsOnlyFileName(workingDirectory: string, dirname: string, name: string)
    requires IsRooted(dirname)
    ensures ResolveAsWritten(workingDirectory, dirname, name) == name
  {
  }

  /** As intended, a rooted dirname is kept in front of the file name. */
  lemma RootedKeepsDirectory(workingDirectory: string, dirname: string, name: string)
    requires IsRooted(dirname)
    ensures Resolve(workingDirectory, dirname, name) == dirname + Separator + name
  {
  }

  /** A relative dirname is placed under the working directory. */
  lemma RelativeUnderWorkingDirectory(workingDirectory: string, dirname: string, name: string)
    requires !IsRooted(dirname)
    ensures StartsWith(Resolve(workingDirectory, dirname, name), TrimEnd(workingDirectory, Slashes) + Separator)
  {
    var p := TrimEnd(workingDirectory, Slashes) + Separator;
    var d := Directory(workingDirectory, dirname);
    assert d == p + Trim(dirname, Slashes);
    PrefixOfConcatenation(p, Trim(dirname, Slashes));
    PrefixOfConcatenation(d, Separator + name);
  }

  /** Both definitions agree on a relative dirname. */
  lemma RelativeAgrees(workingDirectory: string, dirname: string, name: string)
    requires !IsRooted(dirname)
    ensures ResolveAsWritten(workingDirectory, dirname, name) == Resolve(workingDirectory, dirname, name)
  {
    var d := Directory(workingDirectory, dirname);
    assert d + Separator + name == d + (Separator + name);
  }

  lemma PrefixOfConcatenation(p: string, q: string)
    ensures StartsWith(p + q, p)
    ensures forall r :: StartsWith(r, p + q) ==> StartsWith(r, p)
  {
    assert (p + q)[..|p|] == p;
    forall r | StartsWith(r, p + q) ensures StartsWith(r, p) {
      assert r[..|p|] == (p + q)[..|p|];
    }
  }

  /** An argument starting with '/' always has a rooted dirname. */
  lemma AbsoluteFileIsRooted(file: string)
    requires file != [] && file[0] == '/'
    ensures IsRooted(Dirname(file))
  {
  }

  /** An argument that starts with neither '/' nor a drive letter always has
      a relative dirname, so it lands under the working directory. */
  lemma {:induction false} RelativeFileIsNotRooted(file: string)
    requires file != [] && file[0] != '/'
    requires !(|file| >= 2 && IsAsciiLetter(file[0]) && file[1] == ':')
    ensures !IsRooted(Dirname(file))
  {
    var d := Dirname(file);
    if d != "." {
      assert d[0] == file[0];
      if |d| >= 2 {
        assert d[1] == file[1];
      }
    }
  }

  lemma ExampleDirname()
    ensures Dirname("/tmp/bench.php") == "/tmp"
  {
    var file := "/tmp/bench.php";
    assert TrimEnd(file, {'/'}) == file;
    assert file == "/tmp" + "/" + "bench.php";
    LastComponentAfterSlash("/tmp", "bench.php");
    assert file[..|file| - |"bench.php"|] == "/tmp/";
    assert TrimEnd("/tmp/", {'/'}) == "/tmp" by {
      assert "/tmp/"[..4] == "/tmp";
    }
  }

  lemma ExampleFileName()
    ensures FileName("/tmp/bench.php") == "bench.php"
  {
    var file := "/tmp/bench.php";
    assert TrimEnd(file, {'/'}) == file;
    assert file == "/tmp" + "/" + "bench.php";
    LastComponentAfterSlash("/tmp", "bench.php");
  }

  /** The discrepancy on a concrete argument: for "/tmp/bench.php" the
      source yields the bare "bench.php", although the directory it works
      with is "/tmp". */
  lemma AbsolutePathLosesDirectory()
    ensures ResolveAsWritten("/srv", Dirname("/tmp/bench.php"), FileName("/tmp/bench.php")) == "bench.php"
    ensures Directory("/srv", Dirname("/tmp/bench.php")) == "/tmp"
    ensures ResolveFile("/srv", "/tmp/bench.php") == "/tmp/bench.php"
  {
    var file := "/tmp/bench.php";
    ExampleDirname();
    ExampleFileName();
    assert IsRooted("/tmp");
    RootedKeepsOnlyFileName("/srv", "/tmp", "bench.php");
    RootedKeepsDirectory("/srv", "/tmp", "bench.php");
    assert ResolveFile("/srv", file) == Resolve("/srv", "/tmp", "bench.php");
    assert "/tmp" + Separator + "bench.php" == "/tmp/bench.php";
  }
}
