/** Models of the PHP built-ins that the three commands rely on, as they
    behave on a POSIX system (DIRECTORY_SEPARATOR is '/'). */
module Php {

  /** `(bool) $s` for a string: only "" and "0" are false. */
  predicate Truthy(s: string) {
    s != "" && s != "0"
  }

  /** The characters `trim()` strips when given no character list. */
  const Blanks: set<char> := {' ', '\t', '\n', '\r', '\0', '\U{B}'}

  /** The character list "/\\" given to `trim`/`rtrim` on paths. */
  const Slashes: set<char> := {'/', '\\'}

  /** `s` holds no character `c`. */
  predicate Lacks(s: string, c: char) {
    forall k :: 0 <= k < |s| ==> s[k] != c
  }

  predicate EndsWith(s: string, suffix: string) {
    |suffix| <= |s| && s[|s| - |suffix|..] == suffix
  }

  predicate StartsWith(s: string, prefix: string) {
    |prefix| <= |s| && s[..|prefix|] == prefix
  }

  /** `ltrim($s, $cs)`: drops the leading characters that are in `cs`. */
  function TrimStart(s: string, cs: set<char>): (r: string)
    ensures |r| <= |s|
    ensures r == [] || r[0] !in cs
  {
    if s != [] && s[0] in cs then TrimStart(s[1..], cs) else s
  }

  /** `rtrim($s, $cs)`: drops the trailing characters that are in `cs`. */
  function TrimEnd(s: string, cs: set<char>): (r: string)
    ensures |r| <= |s|
    ensures r == [] || r[|r| - 1] !in cs
  {
    if s != [] && s[|s| - 1] in cs then TrimEnd(s[..|s| - 1], cs) else s
  }

  /** `trim($s, $cs)`: both ends. */
  function Trim(s: string, cs: set<char>): (r: string)
    ensures |r| <= |s|
    ensures r == [] || (r[0] !in cs && r[|r| - 1] !in cs)
  {
    TrimEndKeepsPrefix(TrimStart(s, cs), cs);
    TrimEnd(TrimStart(s, cs), cs)
  }

  /** What `ltrim` removes is a run of characters from `cs`; what it keeps is
      the rest of `s`. */
  lemma {:induction false} TrimStartKeepsSuffix(s: string, cs: set<char>)
    ensures var r := TrimStart(s, cs);
      s[|s| - |r|..] == r && forall k :: 0 <= k < |s| - |r| ==> s[k] in cs
  {
    if s != [] && s[0] in cs {
      TrimStartKeepsSuffix(s[1..], cs);
    }
  }

  /** What `rtrim` removes is a run of characters from `cs`; what it keeps is
      the start of `s`. */
  lemma {:induction false} TrimEndKeepsPrefix(s: string, cs: set<char>)
    ensures var r := TrimEnd(s, cs);
      s[..|r|] == r && forall k :: |r| <= k < |s| ==> s[k] in cs
  {
    if s != [] && s[|s| - 1] in cs {
      var init := s[..|s| - 1];
      TrimEndKeepsPrefix(init, cs);
      var r := TrimEnd(init, cs);
      assert s[..|r|] == init[..|r|];
      forall k | |r| <= k < |s| ensures s[k] in cs {
        if k < |init| {
          assert s[k] == init[k];
        }
      }
    }
  }

  /** `trim` gives the empty string exactly when every character is in `cs`. */
  lemma TrimEmpty(s: string, cs: set<char>)
    ensures Trim(s, cs) == [] <==> forall k :: 0 <= k < |s| ==> s[k] in cs
  {
    var t := TrimStart(s, cs);
    TrimStartKeepsSuffix(s, cs);
    TrimEndKeepsPrefix(t, cs);
    if Trim(s, cs) == [] {
      assert t == [];
    } else if t != [] {
      assert s[|s| - |t|] == t[0];
    }
  }

  /** Trimming a trimmed string changes nothing. */
  lemma TrimIdempotent(s: string, cs: set<char>)
    ensures Trim(Trim(s, cs), cs) == Trim(s, cs)
  {
    var r := Trim(s, cs);
    assert TrimStart(r, cs) == r;
    assert TrimEnd(r, cs) == r;
  }

  /** The text after the last '/' of `s` (all of `s` when it has none). */
  function LastComponent(s: string): (r: string)
    ensures |r| <= |s|
    ensures Lacks(r, '/')
  {
    if s == [] || s[|s| - 1] == '/' then [] else LastComponent(s[..|s| - 1]) + [s[|s| - 1]]
  }

  /** The last component is the end of `s`, preceded by a '/' when it is not
      all of `s`. */
  lemma {:induction false} LastComponentIsSuffix(s: string)
    ensures var r := LastComponent(s);
      s[|s| - |r|..] == r && (|r| < |s| ==> s[|s| - |r| - 1] == '/')
  {
    if s != [] && s[|s| - 1] != '/' {
      LastComponentIsSuffix(s[..|s| - 1]);
    }
  }

  lemma {:induction false} LastComponentAfterSlash(dir: string, name: string)
    requires Lacks(name, '/')
    ensures LastComponent(dir + "/" + name) == name
  {
    if name != [] {
      var s := dir + "/" + name;
      assert s[..|s| - 1] == dir + "/" + name[..|name| - 1];
      LastComponentAfterSlash(dir, name[..|name| - 1]);
      assert name == name[..|name| - 1] + [name[|name| - 1]];
    }
  }

  /** `basename($path, $suffix)`: trailing slashes are ignored, the last
      component is kept, and `suffix` is removed from it when the component
      is strictly longer than `suffix` and ends with it. */
  function Basename(path: string, suffix: string): (r: string)
    ensures Lacks(r, '/')
  {
    var c := LastComponent(TrimEnd(path, {'/'}));
    if |suffix| < |c| && EndsWith(c, suffix) then c[..|c| - |suffix|] else c
  }

  /** `dirname($path)` (also `pathinfo($path, PATHINFO_DIRNAME)`): "" for
      "", "/" for a path of slashes only or a file in the root, "." for a
      bare name, otherwise everything before the last component with its
      trailing slashes removed. */
  function Dirname(path: string): (r: string)
    ensures path != [] ==> r != []
    ensures path != [] && path[0] == '/' ==> r[0] == '/'
    ensures path != [] && path[0] != '/' ==> r == "." || (|r| <= |path| && r == path[..|r|])
  {
    if path == [] then []
    else
      var a := TrimEnd(path, {'/'});
      TrimEndKeepsPrefix(path, {'/'});
      if a == [] then "/"
      else
        LastComponentIsSuffix(a);
        var b := a[..|a| - |LastComponent(a)|];
        if b == [] then "."
        else
          var c := TrimEnd(b, {'/'});
          TrimEndKeepsPrefix(b, {'/'});
          assert b == path[..|b|];
          if c == [] then "/" else c
  }

  /** A path without '/' is its own last component. */
  lemma {:induction false} LastComponentOfName(name: string)
    requires Lacks(name, '/')
    ensures LastComponent(name) == name
  {
    if name != [] {
      var init := name[..|name| - 1];
      LastComponentOfName(init);
      assert name == init + [name[|name| - 1]];
    }
  }

  /** A trailing '/' is stripped by `rtrim` down to what precedes it. */
  lemma TrimEndSlash(d: string)
    requires d != [] && d[|d| - 1] != '/'
    ensures TrimEnd(d, {'/'}) == d
    ensures TrimEnd(d + "/", {'/'}) == d
  {
    assert (d + "/")[..|d|] == d;
  }

  /** `basename` of a file in a directory is the file's name, with `suffix`
      removed. */
  lemma BasenameOfJoin(d: string, name: string, suffix: string)
    requires name != [] && Lacks(name, '/') && Lacks(suffix, '/')
    ensures Basename(d + "/" + name + suffix, suffix) == name
  {
    var c := name + suffix;
    assert Lacks(c, '/') by {
      forall k | 0 <= k < |c| ensures c[k] != '/' {
        if k >= |name| {
          assert c[k] == suffix[k - |name|];
        }
      }
    }
    var path := d + "/" + name + suffix;
    assert path == d + "/" + c;
    assert path[|path| - 1] == c[|c| - 1];
    TrimEndSlash(path);
    LastComponentAfterSlash(d, c);
    assert c[|c| - |suffix|..] == suffix;
    assert c[..|c| - |suffix|] == name;
  }

  /** `basename` of a bare file name is that name, with `suffix` removed. */
  lemma BasenameOfName(name: string, suffix: string)
    requires name != [] && Lacks(name + suffix, '/')
    ensures Basename(name + suffix, suffix) == name
  {
    var c := name + suffix;
    assert c[|c| - 1] != '/';
    TrimEndSlash(c);
    LastComponentOfName(c);
    assert c[|c| - |suffix|..] == suffix;
    assert c[..|c| - |suffix|] == name;
  }

  /** `dirname` of a file in a directory is that directory. */
  lemma DirnameOfJoin(d: string, name: string)
    requires d != [] && d[|d| - 1] != '/' && name != [] && Lacks(name, '/')
    ensures Dirname(d + "/" + name) == d
  {
    var path := d + "/" + name;
    assert path[|path| - 1] == name[|name| - 1];
    TrimEndSlash(path);
    LastComponentAfterSlash(d, name);
    assert path[..|path| - |name|] == d + "/";
    TrimEndSlash(d);
  }

  /** `dirname` of a bare file name is ".". */
  lemma DirnameOfName(name: string)
    requires name != [] && Lacks(name, '/')
    ensures Dirname(name) == "."
  {
    assert name[|name| - 1] != '/';
    TrimEndSlash(name);
    LastComponentOfName(name);
  }

  predicate OccursAt(s: string, k: nat, search: string) {
    k + |search| <= |s| && s[k..k + |search|] == search
  }

  /** No occurrence of `search` in `s` starts before position `m`. */
  predicate NoOccurrenceBefore(s: string, search: string, m: nat) {
    forall k :: 0 <= k < m ==> !OccursAt(s, k, search)
  }

  /** `str_replace($search, $replace, $subject)` for one search string:
      occurrences are found left to right, never overlapping, and the
      replacement text is not searched again. */
  function ReplaceAll(subject: string, search: string, replace: string): string
    decreases |subject|
  {
    if search == [] || |subject| < |search| then subject
    else if subject[..|search|] == search then replace + ReplaceAll(subject[|search|..], search, replace)
    else [subject[0]] + ReplaceAll(subject[1..], search, replace)
  }

  /** Dropping the first character shifts every position by one. */
  lemma NoOccurrenceShift(subject: string, search: string, m: nat)
    requires 0 < m && NoOccurrenceBefore(subject, search, m) && subject != []
    ensures NoOccurrenceBefore(subject[1..], search, m - 1)
  {
    var rest := subject[1..];
    forall k | 0 <= k < m - 1 ensures !OccursAt(rest, k, search) {
      assert !OccursAt(subject, k + 1, search);
      if k + |search| <= |rest| {
        assert rest[k..k + |search|] == subject[k + 1..k + 1 + |search|];
      }
    }
  }

  /** Where no occurrence starts at 0, the first character is copied. */
  lemma ReplaceSkips(subject: string, search: string, replace: string)
    requires search != [] && |search| <= |subject| && !OccursAt(subject, 0, search)
    ensures ReplaceAll(subject, search, replace) == [subject[0]] + ReplaceAll(subject[1..], search, replace)
  {
    assert subject[..|search|] != search;
  }

  /** A subject without occurrences comes back unchanged. */
  lemma {:induction false} ReplaceNothing(subject: string, search: string, replace: string)
    requires NoOccurrenceBefore(subject, search, |subject|)
    ensures ReplaceAll(subject, search, replace) == subject
  {
    if search != [] && |subject| >= |search| {
      ReplaceSkips(subject, search, replace);
      NoOccurrenceShift(subject, search, |subject|);
      ReplaceNothing(subject[1..], search, replace);
      assert subject == [subject[0]] + subject[1..];
    }
  }

  /** The first occurrence, at `m`, is replaced; the text before it is kept
      and the replacement is not rescanned. */
  lemma {:induction false} ReplaceFirst(subject: string, search: string, replace: string, m: nat)
    requires search != []
    requires NoOccurrenceBefore(subject, search, m) && OccursAt(subject, m, search)
    ensures ReplaceAll(subject, search, replace)
         == subject[..m] + replace + ReplaceAll(subject[m + |search|..], search, replace)
  {
    if m == 0 {
      assert subject[..|search|] == search;
    } else {
      var rest := subject[1..];
      ReplaceSkips(subject, search, replace);
      NoOccurrenceShift(subject, search, m);
      assert rest[m - 1..m - 1 + |search|] == subject[m..m + |search|];
      ReplaceFirst(rest, search, replace, m - 1);
      var after := ReplaceAll(subject[m + |search|..], search, replace);
      assert rest[m - 1 + |search|..] == subject[m + |search|..];
      assert subject[..m] == [subject[0]] + rest[..m - 1];
      calc {
        ReplaceAll(subject, search, replace);
        [subject[0]] + ReplaceAll(rest, search, replace);
        [subject[0]] + (rest[..m - 1] + replace + after);
        { SeqAssoc([subject[0]], rest[..m - 1], replace, after); }
        [subject[0]] + rest[..m - 1] + replace + after;
      }
    }
  }

  /** Growing a prefix by one element, and the prefix that is the whole
      sequence; stated apart so that callers with large contexts do not
      have to rediscover them. */
  lemma PrefixStep<T>(s: seq<T>, i: nat)
    requires i < |s|
    ensures s[..i + 1] == s[..i] + [s[i]]
  {
  }

  lemma WholePrefix<T>(s: seq<T>)
    ensures s[..|s|] == s
  {
  }

  lemma SeqAssoc(a: string, b: string, c: string, d: string)
    ensures a + (b + c + d) == a + b + c + d
  {
  }

  /** No occurrence of `search` starts inside `s` when `s` lacks its first character. */
  lemma FirstCharAbsent(s: string, search: string, m: nat)
    requires search != [] && m <= |s| && Lacks(s[..m], search[0])
    ensures NoOccurrenceBefore(s, search, m)
  {
    forall k | 0 <= k < m ensures !OccursAt(s, k, search) {
      assert s[..m][k] == s[k];
    }
  }
}
