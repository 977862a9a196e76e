/**
 * The few methods of Python's `str` that the tool relies on: `strip`,
 * `rstrip`, `split` (with no separator), `" ".join` and `lower`.
 *
 * Python classifies characters by their Unicode properties; this model
 * uses the ASCII part of those classes (see `IsSpace`, `IsAlnum`,
 * `LowerChar`).
 */
module PyStr {

  /** `str.isspace` on ASCII: space, tab, line feed, vertical tab, form
      feed, carriage return and the four separators 0x1C to 0x1F; that is,
      the space and the control ranges 0x09-0x0D and 0x1C-0x1F. */
  predicate IsSpace(c: char)
    ensures IsSpace(c) <==> c == ' ' || '\t' <= c <= '\r' || '\U{1C}' <= c <= '\U{1F}'
  {
    c == ' ' || c == '\t' || c == '\n' || c == '\r' || c == '\U{0B}' || c == '\U{0C}'
    || ('\U{1C}' <= c <= '\U{1F}')
  }

  /** `str.isalnum` on ASCII: a letter or a decimal digit. None of them is
      whitespace, a quote or a slash. */
  predicate IsAlnum(c: char)
    ensures IsAlnum(c) ==> !IsSpace(c) && c != '"' && c != '/'
  {
    'a' <= c <= 'z' || 'A' <= c <= 'Z' || '0' <= c <= '9'
  }

  /** `str.lstrip()`: drops exactly the leading run of whitespace. */
  function LStrip(s: string): (r: string)
    ensures |r| <= |s|
    ensures r == [] || !IsSpace(r[0])
    ensures forall i :: 0 <= i < |s| - |r| ==> IsSpace(s[i])
  {
    if s != [] && IsSpace(s[0]) then LStrip(s[1..]) else s
  }

  /** What `str.lstrip()` keeps is a suffix of the string. */
  lemma {:induction false} LStripSuffix(s: string)
    ensures LStrip(s) == s[|s| - |LStrip(s)|..]
  {
    if s != [] && IsSpace(s[0]) {
      LStripSuffix(s[1..]);
    }
  }

  /** `str.rstrip()`: drops exactly the trailing run of whitespace. */
  function RStrip(s: string): (r: string)
    ensures |r| <= |s|
    ensures r == [] || !IsSpace(r[|r| - 1])
    ensures forall i :: |r| <= i < |s| ==> IsSpace(s[i])
  {
    if s != [] && IsSpace(s[|s| - 1]) then RStrip(s[..|s| - 1]) else s
  }

  /** What `str.rstrip()` keeps is a prefix of the string. */
  lemma {:induction false} RStripPrefix(s: string)
    ensures RStrip(s) == s[..|RStrip(s)|]
  {
    if s != [] && IsSpace(s[|s| - 1]) {
      RStripPrefix(s[..|s| - 1]);
    }
  }

  /** `str.strip()`: no longer than the string, and neither starts nor
      ends with whitespace. */
  function Strip(s: string): (r: string)
    ensures |r| <= |s|
    ensures r == [] || (!IsSpace(r[0]) && !IsSpace(r[|r| - 1]))
  {
    RStripPrefix(LStrip(s));
    RStrip(LStrip(s))
  }

  /** A string that neither starts nor ends with whitespace is its own strip. */
  lemma StripTrimmed(s: string)
    requires s == [] || (!IsSpace(s[0]) && !IsSpace(s[|s| - 1]))
    ensures Strip(s) == s
  {
  }

  /** Stripping never turns a string with a non-space character into "". */
  lemma StripKeepsNonSpace(s: string, i: nat)
    requires i < |s| && !IsSpace(s[i])
    ensures Strip(s) != []
  {
  }

  /** `str.strip()` gives "" exactly for a string of whitespace alone (the
      `if not user_input` test). */
  lemma StripEmpty(s: string)
    ensures Strip(s) == [] <==> forall i :: 0 <= i < |s| ==> IsSpace(s[i])
  {
    if exists i :: 0 <= i < |s| && !IsSpace(s[i]) {
      var i :| 0 <= i < |s| && !IsSpace(s[i]);
      StripKeepsNonSpace(s, i);
    } else {
      LStripSuffix(s);
    }
  }

  /** One token of `str.split()`: non-empty and free of whitespace. */
  predicate IsWord(w: string) {
    w != [] && forall i :: 0 <= i < |w| ==> !IsSpace(w[i])
  }

  /** Length of the leading run of non-whitespace characters. */
  function TokenLen(s: string): (n: nat)
    ensures n <= |s|
    ensures forall i :: 0 <= i < n ==> !IsSpace(s[i])
    ensures n == |s| || IsSpace(s[n])
  {
    if s == [] || IsSpace(s[0]) then 0 else 1 + TokenLen(s[1..])
  }

  /** `str.split()` with no separator: the maximal runs of non-whitespace,
      in order; runs of whitespace of any length separate them. */
  function Split(s: string): (ws: seq<string>)
    ensures AllWords(ws)
    decreases |s|
  {
    if s == [] then []
    else if IsSpace(s[0]) then Split(s[1..])
    else
      var n := TokenLen(s);
      [s[..n]] + Split(s[n..])
  }

  /** `" ".join(ws)`: empty exactly when there are no words. */
  function Join(ws: seq<string>): (r: string)
    ensures AllWords(ws) ==> (r == [] <==> ws == [])
  {
    if ws == [] then []
    else if |ws| == 1 then ws[0]
    else ws[0] + " " + Join(ws[1..])
  }

  /** Every element of `ws` is a word. */
  predicate AllWords(ws: seq<string>) {
    forall k :: 0 <= k < |ws| ==> IsWord(ws[k])
  }

  /** Joining words gives a string that starts with the first word's first
      character and ends with the last word's last character. */
  lemma {:induction false} JoinEnds(ws: seq<string>)
    requires ws != [] && AllWords(ws)
    ensures IsWord(ws[0]) && IsWord(ws[|ws| - 1])
    ensures Join(ws) != []
    ensures Join(ws)[0] == ws[0][0]
    ensures Join(ws)[|Join(ws)| - 1] == ws[|ws| - 1][|ws[|ws| - 1]| - 1]
  {
    if |ws| > 1 {
      var tail := ws[1..];
      AllWordsTail(ws);
      JoinEnds(tail);
      LastOfTail(ws);
      GlueEnds(ws[0], Join(tail));
    }
  }

  /** The words after the first are words too. */
  lemma AllWordsTail(ws: seq<string>)
    requires ws != [] && AllWords(ws)
    ensures AllWords(ws[1..])
  {
    forall k | 0 <= k < |ws| - 1 ensures IsWord(ws[1..][k]) {
      assert ws[1..][k] == ws[k + 1];
    }
  }

  lemma LastOfTail<T>(s: seq<T>)
    requires |s| > 1
    ensures s[1..][|s| - 2] == s[|s| - 1]
  {
  }

  /** Two non-empty strings glued with a space keep their outer ends. */
  lemma GlueEnds(a: string, b: string)
    requires a != [] && b != []
    ensures var g := a + " " + b; g[0] == a[0] && g[|g| - 1] == b[|b| - 1]
  {
  }

  /** Joined words are already stripped. */
  lemma JoinIsStripped(ws: seq<string>)
    requires ws != [] && AllWords(ws)
    ensures Strip(Join(ws)) == Join(ws)
  {
    JoinEnds(ws);
    StripTrimmed(Join(ws));
  }

  /** The first token of a string that starts with word `w` followed by
      whitespace or the end is `w` itself. */
  lemma {:induction false} TokenLenOfWord(w: string, rest: string)
    requires IsWord(w) && (rest == [] || IsSpace(rest[0]))
    ensures TokenLen(w + rest) == |w|
    decreases |w|
  {
    assert (w + rest)[0] == w[0];
    assert (w + rest)[1..] == w[1..] + rest;
    if |w| == 1 {
      assert w[1..] + rest == rest;
    } else {
      TokenLenOfWord(w[1..], rest);
    }
  }

  /** Leading whitespace does not change `str.split()`. */
  lemma {:induction false} SplitSkipsSpace(sp: string, s: string)
    requires forall i :: 0 <= i < |sp| ==> IsSpace(sp[i])
    ensures Split(sp + s) == Split(s)
    decreases |sp|
  {
    if sp != [] {
      assert (sp + s)[0] == sp[0];
      assert (sp + s)[1..] == sp[1..] + s;
      assert Split(sp + s) == Split(sp[1..] + s);
      SplitSkipsSpace(sp[1..], s);
    } else {
      assert sp + s == s;
    }
  }

  /** A word followed by a run of whitespace of any length: the word is
      the first token, whatever the run. */
  lemma SplitWordSpace(w: string, sp: string, s: string)
    requires IsWord(w) && sp != [] && forall i :: 0 <= i < |sp| ==> IsSpace(sp[i])
    ensures Split(w + sp + s) == [w] + Split(s)
  {
    var x := w + (sp + s);
    assert w + sp + s == x;
    TokenLenOfWord(w, sp + s);
    assert x[0] == w[0];
    assert x[..|w|] == w;
    assert x[|w|..] == sp + s;
    SplitSkipsSpace(sp, s);
  }

  /** Whitespace after a string does not change the length of its first
      token. */
  lemma {:induction false} TokenLenAppend(s: string, sp: string)
    requires sp == [] || IsSpace(sp[0])
    ensures TokenLen(s + sp) == TokenLen(s)
    decreases |s|
  {
    if s == [] {
      assert s + sp == sp;
    } else if !IsSpace(s[0]) {
      assert (s + sp)[0] == s[0];
      assert (s + sp)[1..] == s[1..] + sp;
      TokenLenAppend(s[1..], sp);
    } else {
      assert (s + sp)[0] == s[0];
    }
  }

  /** Trailing whitespace does not change `str.split()`. */
  lemma {:induction false} SplitTrailingSpace(s: string, sp: string)
    requires forall i :: 0 <= i < |sp| ==> IsSpace(sp[i])
    ensures Split(s + sp) == Split(s)
    decreases |s|
  {
    if s == [] {
      assert s + sp == sp + s;
      SplitSkipsSpace(sp, s);
    } else if IsSpace(s[0]) {
      assert (s + sp)[0] == s[0];
      assert (s + sp)[1..] == s[1..] + sp;
      SplitTrailingSpace(s[1..], sp);
    } else {
      var n := TokenLen(s);
      TokenLenAppend(s, sp);
      assert (s + sp)[0] == s[0];
      assert (s + sp)[..n] == s[..n];
      assert (s + sp)[n..] == s[n..] + sp;
      SplitTrailingSpace(s[n..], sp);
    }
  }

  /** `x.strip().split()` is `x.split()`. */
  lemma SplitStrip(x: string)
    ensures Split(Strip(x)) == Split(x)
  {
    SplitLStrip(x);
    SplitRStrip(LStrip(x));
  }

  lemma SplitLStrip(x: string)
    ensures Split(LStrip(x)) == Split(x)
  {
    LStripSuffix(x);
    SplitAfterSpace(x, |x| - |LStrip(x)|);
  }

  lemma SplitRStrip(x: string)
    ensures Split(RStrip(x)) == Split(x)
  {
    RStripPrefix(x);
    SplitBeforeSpace(x, |RStrip(x)|);
  }

  /** Dropping a leading run of whitespace keeps the tokens. */
  lemma {:induction false} SplitAfterSpace(x: string, k: nat)
    requires k <= |x| && forall i :: 0 <= i < k ==> IsSpace(x[i])
    ensures Split(x[k..]) == Split(x)
  {
    if k == 0 {
      assert x[k..] == x;
    } else {
      assert forall i :: 0 <= i < k - 1 ==> x[1..][i] == x[i + 1];
      SplitAfterSpace(x[1..], k - 1);
      assert x[1..][k - 1..] == x[k..];
    }
  }

  /** Dropping a trailing run of whitespace keeps the tokens. */
  lemma SplitBeforeSpace(x: string, m: nat)
    requires m <= |x| && forall i :: m <= i < |x| ==> IsSpace(x[i])
    ensures Split(x[..m]) == Split(x)
  {
    assert x == x[..m] + x[m..];
    assert forall i :: 0 <= i < |x| - m ==> x[m..][i] == x[m + i];
    SplitTrailingSpace(x[..m], x[m..]);
  }

  /** `" ".join` and `str.split()` are inverse on lists of words. */
  lemma {:induction false} SplitJoin(ws: seq<string>)
    requires AllWords(ws)
    ensures Split(Join(ws)) == ws
  {
    if ws == [] {
    } else if |ws| == 1 {
      TokenLenOfWord(ws[0], []);
      assert ws[0] + [] == ws[0];
      assert ws[0][|ws[0]|..] == [];
    } else {
      var w, rest := ws[0], " " + Join(ws[1..]);
      var s := w + rest;
      assert Join(ws) == s;
      TokenLenOfWord(w, rest);
      assert s[..|w|] == w;
      assert s[|w|..] == rest;
      SplitJoin(ws[1..]);
      SplitSkipsSpace(" ", Join(ws[1..]));
    }
  }

  /** `str.lower()` on ASCII letters; every other character is kept. */
  function LowerChar(c: char): (r: char)
    ensures !('A' <= r <= 'Z')
    ensures r != c <==> 'A' <= c <= 'Z'
    ensures IsAlnum(r) <==> IsAlnum(c)
  {
    if 'A' <= c <= 'Z' then (c as int + 32) as char else c
  }

  /** `str.lower()`: as long as the string (`LowerChars` states what
      becomes of each character). */
  function Lower(s: string): (r: string)
    ensures |r| == |s|
  {
    seq(|s|, i requires 0 <= i < |s| => LowerChar(s[i]))
  }

  /** Lower-casing maps each character on its own: ASCII capitals become
      small letters, everything else is kept, and no capital is left. */
  lemma LowerChars(s: string)
    ensures forall i :: 0 <= i < |s| ==> Lower(s)[i] == LowerChar(s[i]) && !('A' <= Lower(s)[i] <= 'Z')
  {
  }

  /** Lower-casing keeps whitespace where it was. */
  lemma LowerKeepsSpace(s: string, i: nat)
    requires i < |s| && IsSpace(s[i])
    ensures IsSpace(Lower(s)[i])
  {
  }
}
