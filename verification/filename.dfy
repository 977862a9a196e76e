/**
 * The file-system side of `text_to_mp3` in word2mp3.py: the text is turned
 * into a safe file stem and joined with the optional output directory.
 * The synthesis call, directory creation and the write itself are not
 * modelled here.
 */
module Filenames {
  import opened Optional
  import opened PyStr

  /** Characters the sanitising comprehension lets through: never a slash
      or a quote, and no whitespace but the space itself. */
  predicate Keep(c: char)
    ensures Keep(c) ==> c != '/' && c != '"' && (IsSpace(c) ==> c == ' ')
  {
    IsAlnum(c) || c == ' ' || c == '-' || c == '_'
  }

  /** Characters a sanitised stem may consist of. */
  predicate SafeChar(c: char) {
    IsAlnum(c) || c == '-' || c == '_'
  }

  lemma SafeIsNotSpace(c: char)
    requires SafeChar(c)
    ensures !IsSpace(c)
  {
  }

  /** `"".join(c for c in text if c.isalnum() or c in (' ', '-', '_'))`. */
  function KeepOnly(t: string): (r: string)
    ensures |r| <= |t|
    ensures forall i :: 0 <= i < |r| ==> Keep(r[i])
    ensures (forall i :: 0 <= i < |t| ==> Keep(t[i])) ==> r == t
  {
    if t == [] then []
    else (if Keep(t[0]) then [t[0]] else []) + KeepOnly(t[1..])
  }

  /** The filter works character by character: filtering a concatenation
      filters each part. */
  lemma {:induction false} KeepOnlyAppend(a: string, b: string)
    ensures KeepOnly(a + b) == KeepOnly(a) + KeepOnly(b)
  {
    if a == [] {
      assert a + b == b;
    } else {
      var head := if Keep(a[0]) then [a[0]] else [];
      assert (a + b)[0] == a[0];
      assert (a + b)[1..] == a[1..] + b;
      KeepOnlyAppend(a[1..], b);
      assert head + (KeepOnly(a[1..]) + KeepOnly(b)) == (head + KeepOnly(a[1..])) + KeepOnly(b);
    }
  }

  /** One character is kept exactly when it is a letter, a digit, a space,
      `-` or `_`. */
  lemma KeepOnlyChar(c: char)
    ensures KeepOnly([c]) == if Keep(c) then [c] else []
  {
    assert [c][1..] == [];
  }

  /** A safe character of the text survives the filter. */
  lemma {:induction false} KeepOnlyKeepsSafe(t: string, j: nat)
    requires j < |t| && SafeChar(t[j])
    ensures exists i :: 0 <= i < |KeepOnly(t)| && SafeChar(KeepOnly(t)[i])
  {
    if j == 0 {
      assert KeepOnly(t)[0] == t[0];
    } else {
      KeepOnlyKeepsSafe(t[1..], j - 1);
      var i :| 0 <= i < |KeepOnly(t[1..])| && SafeChar(KeepOnly(t[1..])[i]);
      var head := if Keep(t[0]) then [t[0]] else [];
      assert KeepOnly(t)[|head| + i] == KeepOnly(t[1..])[i];
    }
  }

  /** `s.replace(' ', '_')`: every space becomes `_`, every other
      character stays where it is. */
  function ReplaceSpaces(s: string): (r: string)
    ensures |r| == |s|
    ensures forall i :: 0 <= i < |s| ==> (s[i] == ' ' ==> r[i] == '_') && (s[i] != ' ' ==> r[i] == s[i])
  {
    seq(|s|, i requires 0 <= i < |s| => if s[i] == ' ' then '_' else s[i])
  }

  /** The file stem derived from the text: filter, `rstrip()`, then spaces
      become underscores. It holds only letters, digits, `-` and `_` (so no
      space and no `/`) and is never longer than the text. */
  function Sanitize(t: string): (r: string)
    ensures forall i :: 0 <= i < |r| ==> SafeChar(r[i])
    ensures |r| <= |t|
  {
    RStripPrefix(KeepOnly(t));
    ReplaceSpaces(RStrip(KeepOnly(t)))
  }

  /** A text made only of kept characters, not ending in a space, keeps
      every character: only its spaces turn into `_`. */
  lemma SanitizeClean(t: string)
    requires forall i :: 0 <= i < |t| ==> Keep(t[i])
    requires t == [] || t[|t| - 1] != ' '
    ensures Sanitize(t) == ReplaceSpaces(t)
  {
    assert KeepOnly(t) == t;
    assert RStrip(t) == t;
  }

  /** Sanitising twice gives the same stem as sanitising once. */
  lemma SanitizeIdempotent(t: string)
    ensures Sanitize(Sanitize(t)) == Sanitize(t)
  {
    var u := Sanitize(t);
    assert KeepOnly(u) == u;
    if u != [] {
      SafeIsNotSpace(u[|u| - 1]);
    }
    assert RStrip(u) == u;
    assert ReplaceSpaces(u) == u;
  }

  /** The stem is empty exactly when the text holds no letter, digit, `-`
      or `_`: punctuation and spaces alone give the empty stem. */
  lemma SanitizeEmpty(t: string)
    ensures Sanitize(t) == [] <==> forall j :: 0 <= j < |t| ==> !SafeChar(t[j])
  {
    if forall j :: 0 <= j < |t| ==> !SafeChar(t[j]) {
      SanitizeEmptyWithoutSafe(t);
    } else {
      var j :| 0 <= j < |t| && SafeChar(t[j]);
      SanitizeNonEmptyWithSafe(t, j);
    }
  }

  lemma SanitizeEmptyWithoutSafe(t: string)
    requires forall j :: 0 <= j < |t| ==> !SafeChar(t[j])
    ensures Sanitize(t) == []
  {
    var u := KeepOnly(t);
    RStripPrefix(u);
    forall i | 0 <= i < |u| ensures u[i] == ' ' {
      if SafeChar(u[i]) {
        KeepOnlyOnlyFromText(t, i);
      }
    }
  }

  lemma SanitizeNonEmptyWithSafe(t: string, j: nat)
    requires j < |t| && SafeChar(t[j])
    ensures Sanitize(t) != []
  {
    var u := KeepOnly(t);
    KeepOnlyKeepsSafe(t, j);
    var i :| 0 <= i < |u| && SafeChar(u[i]);
    SafeIsNotSpace(u[i]);
    assert |RStrip(u)| > i;
  }

  /** A character of the filtered text that is safe was a safe character
      of the text. */
  lemma {:induction false} KeepOnlyOnlyFromText(t: string, i: nat)
    requires i < |KeepOnly(t)| && SafeChar(KeepOnly(t)[i])
    ensures exists j :: 0 <= j < |t| && SafeChar(t[j])
  {
    var head := if Keep(t[0]) then [t[0]] else [];
    if i < |head| {
      assert KeepOnly(t)[i] == t[0];
    } else {
      assert KeepOnly(t)[i] == KeepOnly(t[1..])[i - |head|];
      KeepOnlyOnlyFromText(t[1..], i - |head|);
      var j :| 0 <= j < |t| - 1 && SafeChar(t[1..][j]);
      assert t[j + 1] == t[1..][j];
    }
  }

  /** The name of the file written: the stem plus `.mp3`. It is never
      empty, never absolute and holds no `/`. */
  function FileName(t: string): (r: string)
    ensures '/' !in r && r != [] && r[0] != '/'
  {
    Sanitize(t) + ".mp3"
  }

  /** `posixpath.join(a, b)`: an absolute `b` wins; otherwise `b` is
      appended to `a`, with a `/` between them unless `a` is empty or
      already ends in one. */
  function PathJoin(a: string, b: string): (r: string)
    ensures b != [] && b[0] == '/' ==> r == b
    ensures b == [] || b[0] != '/' ==>
      |r| == |a| + |b| + (if a != [] && a[|a| - 1] != '/' then 1 else 0)
  {
    if b != [] && b[0] == '/' then b
    else if a == [] || a[|a| - 1] == '/' then a + b
    else a + "/" + b
  }

  /** Joining a relative `b` to a non-empty `a`: the result starts with `a`,
      ends with `b`, has a `/` just before `b`, and holds nothing else but
      that one `/` when `a` does not already end in it. */
  lemma PathJoinRelative(a: string, b: string)
    requires a != [] && b != [] && b[0] != '/'
    ensures var r := PathJoin(a, b);
      |r| > |a| && |r| > |b| && r[..|a|] == a && r[|r| - |b|..] == b && r[|r| - |b| - 1] == '/'
      && |r| == |a| + |b| + (if a[|a| - 1] == '/' then 0 else 1)
  {
  }

  /** The edge cases of `posixpath.join`: an empty `a` gives `b` alone,
      and an empty `b` leaves `a` ending in `/`. */
  lemma PathJoinEmpty(a: string, b: string)
    ensures PathJoin([], b) == b
    ensures a != [] ==> var r := PathJoin(a, []); r[..|a|] == a && r[|r| - 1] == '/'
  {
  }

  /** The path `text_to_mp3` writes to and returns: the file name inside
      the directory when one is given and non-empty (Python's
      truthiness), else the file name alone. */
  function OutputPath(t: string, output: Option<string>): (r: string)
    ensures output.None? || output.value == [] ==> r == FileName(t)
    ensures output.Some? && output.value != [] ==>
      var d := output.value;
      |r| == |d| + |FileName(t)| + (if d[|d| - 1] == '/' then 0 else 1)
  {
    if output.Some? && output.value != [] then PathJoin(output.value, FileName(t)) else FileName(t)
  }

  /** The path ends with the file name. */
  lemma OutputPathEndsWithName(t: string, output: Option<string>)
    ensures var r, f := OutputPath(t, output), FileName(t); r[|r| - |f|..] == f
  {
    if output.Some? && output.value != [] {
      OutputPathInDir(t, output.value);
    }
  }

  /** The file name, and so the path, always ends in `.mp3`. */
  lemma OutputPathMp3(t: string, output: Option<string>)
    ensures var f := FileName(t); |f| >= 4 && f[|f| - 4..] == ".mp3"
    ensures var r := OutputPath(t, output); |r| >= 4 && r[|r| - 4..] == ".mp3"
  {
    var f := FileName(t);
    assert f[|f| - 4..] == ".mp3";
    OutputPathEndsWithName(t, output);
    SuffixOfSuffix(OutputPath(t, output), f, 4);
  }

  /** With a directory, the path is the directory, then a `/` unless the
      directory already ends in one, then the file name. */
  lemma OutputPathInDir(t: string, d: string)
    requires d != []
    ensures OutputPath(t, Some(d)) == if d[|d| - 1] == '/' then d + FileName(t) else d + "/" + FileName(t)
    ensures var r, n := OutputPath(t, Some(d)), |FileName(t)|;
      |r| > |d| && |r| > n && r[..|d|] == d && r[|r| - n..] == FileName(t) && r[|r| - n - 1] == '/'
  {
    PathJoinRelative(d, FileName(t));
  }

  lemma SuffixOfSuffix(r: string, f: string, k: nat)
    requires k <= |f| <= |r| && r[|r| - |f|..] == f
    ensures r[|r| - k..] == f[|f| - k..]
  {
    assert r[|r| - k..] == r[|r| - |f|..][|f| - k..];
  }

  /** `os.path.basename`: what follows the last `/`. */
  function BaseName(p: string): (r: string)
    ensures |r| <= |p| && r == p[|p| - |r|..]
    ensures '/' !in r
  {
    if p == [] || p[|p| - 1] == '/' then [] else BaseName(p[..|p| - 1]) + [p[|p| - 1]]
  }

  /** A string without `/` preceded by a `/` (or by nothing) is the base
      name of the whole. */
  lemma {:induction false} BaseNameAfterSlash(p: string, k: nat)
    requires k <= |p| && '/' !in p[k..] && (k == 0 || p[k - 1] == '/')
    ensures BaseName(p) == p[k..]
    decreases |p|
  {
    if |p| > k {
      var q, last := p[..|p| - 1], p[|p| - 1];
      assert p[k..] == q[k..] + [last];
      assert last in p[k..];
      assert BaseName(p) == BaseName(q) + [last];
      BaseNameAfterSlash(q, k);
    }
  }

  /** Whatever the directory, the file written is named after the stem. */
  lemma BaseNameOfOutputPath(t: string, output: Option<string>)
    ensures BaseName(OutputPath(t, output)) == Sanitize(t) + ".mp3"
  {
    var p := OutputPath(t, output);
    var n := |FileName(t)|;
    if output.Some? && output.value != [] {
      OutputPathInDir(t, output.value);
      BaseNameAfterSlash(p, |p| - n);
    } else {
      BaseNameAfterSlash(p, 0);
    }
  }

  /** Text made only of punctuation and spaces is still written, to the
      hidden file `.mp3`. */
  lemma PunctuationOnlyName(t: string, output: Option<string>)
    requires forall j :: 0 <= j < |t| ==> !SafeChar(t[j])
    ensures BaseName(OutputPath(t, output)) == ".mp3"
  {
    SanitizeEmpty(t);
    BaseNameOfOutputPath(t, output);
  }
}
