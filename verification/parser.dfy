/**
 * How `run_repl` in word2mp3.py turns one input line into a conversion
 * request: the quit and empty-line checks, then the quoted grammar
 * (`"text" [lang] [dir]`) or the unquoted one (`words... [lang [dir]]`),
 * then the empty-text check.
 */
module LineParser {
  import opened Optional
  import opened PyStr
  import opened Languages

  /** The arguments handed to `text_to_mp3`. */
  datatype Request = Request(text: string, lang: Language, output: Option<string>)

  /** What one input line amounts to. `warning` is the unsupported code the
      loop warns about before going on with English. */
  datatype ParseResult =
    | Quit                                            // `quit()` / `exit()`: leave the loop
    | Skip                                            // empty line: read the next one
    | NoText(warning: Option<string>)                 // "Error: No text provided"
    | Convert(req: Request, warning: Option<string>)  // call `text_to_mp3`

  /** The loop's locals `text`, `lang` and `output` once a grammar has run,
      with the code it warned about, if any. */
  datatype Fields = Fields(text: string, lang: Language, output: Option<string>, warning: Option<string>)

  /** `user_input.lower() in ['quit()', 'exit()']`: a quit command is six
      characters long and holds neither whitespace nor a quote. */
  predicate IsQuitCommand(s: string)
    ensures IsQuitCommand(s) ==> |s| == 6 && forall i :: 0 <= i < |s| ==> !IsSpace(s[i]) && s[i] != '"'
  {
    LowerChars(s);
    Lower(s) == "quit()" || Lower(s) == "exit()"
  }

  /** `user_input.startswith('"') and '"' in user_input[1:]`: such a line
      starts with a quote and has at least one more character. */
  predicate QuotedForm(s: string)
    ensures QuotedForm(s) ==> |s| >= 2 && s[0] == '"'
  {
    |s| > 0 && s[0] == '"' && '"' in s[1..]
  }

  /** `s.index('"', from)`: the first quote at or after `from`. */
  function IndexOfQuote(s: string, from: nat): (i: nat)
    requires from <= |s| && '"' in s[from..]
    ensures from <= i < |s| && s[i] == '"'
    ensures forall k :: from <= k < i ==> s[k] != '"'
    decreases |s| - from
  {
    if s[from] == '"' then from
    else
      assert s[from..] == [s[from]] + s[from + 1..];
      IndexOfQuote(s, from + 1)
  }

  /** The quoted grammar: the text is everything between the opening
      quote and the next one; of the tokens after the closing quote the
      first names the language and the second the output directory. */
  function ParseQuoted(s: string): (r: Fields)
    requires QuotedForm(s)
    ensures '"' !in r.text
    ensures r.output.Some? ==> IsWord(r.output.value)
    ensures r.warning.Some? ==> IsWord(r.warning.value) && !IsCode(r.warning.value)
  {
    var q := IndexOfQuote(s, 1);
    var rest := Split(Strip(s[q + 1..]));
    var found := if rest != [] then Lookup(rest[0]) else None;
    Fields(s[1..q],
           if found.Some? then found.value else English,
           if |rest| > 1 then Some(rest[1]) else None,
           if rest != [] && found.None? then Some(rest[0]) else None)
  }

  /** The unquoted grammar on the stripped line `s` and its tokens `parts`:
      `<words> <lang> <dir>` when the second-to-last of three or more
      tokens is a code, else `<words> <lang>` when the last of two or more
      is, else the whole line is the text. It never yields empty text and
      never warns. */
  function ParseUnquoted(s: string, parts: seq<string>): (r: Fields)
    requires s != [] && AllWords(parts)
    ensures r.text != [] && r.warning.None?
    ensures r.output.Some? ==> IsWord(r.output.value)
  {
    var n := |parts|;
    if n >= 3 && IsCode(parts[n - 2]) then
      JoinEnds(parts[..n - 2]);
      Fields(Join(parts[..n - 2]), Lookup(parts[n - 2]).value, Some(parts[n - 1]), None)
    else if n >= 2 && IsCode(parts[n - 1]) then
      JoinEnds(parts[..n - 1]);
      Fields(Join(parts[..n - 1]), Lookup(parts[n - 1]).value, None, None)
    else
      Fields(s, English, None, None)
  }

  /** One pass of the loop body up to the call of `text_to_mp3`. Quitting
      is decided on the stripped line before emptiness; only the quoted
      grammar can produce empty text or a warning, and empty text only
      when the stripped line starts with two quotes. */
  function ParseLine(line: string): (r: ParseResult)
    ensures r.Quit? <==> IsQuitCommand(Strip(line))
    ensures r.Skip? <==> Strip(line) == []
    ensures r.NoText? ==> QuotedForm(Strip(line)) && Strip(line)[1] == '"'
    ensures r.Convert? ==> r.req.text != [] && (r.req.output.Some? ==> IsWord(r.req.output.value))
    ensures (r.NoText? || r.Convert?) && r.warning.Some? ==>
      QuotedForm(Strip(line)) && IsWord(r.warning.value) && !IsCode(r.warning.value)
  {
    var s := Strip(line);
    if IsQuitCommand(s) then Quit
    else if s == [] then Skip
    else Finish(if QuotedForm(s) then ParseQuoted(s) else ParseUnquoted(s, Split(s)))
  }

  /** The empty-text check that follows both grammars: empty text is
      reported, any other text converted, and the warning is kept. */
  function Finish(f: Fields): (r: ParseResult)
    ensures r.NoText? <==> f.text == []
    ensures r.Convert? <==> f.text != []
    ensures r.Convert? ==> r.req == Request(f.text, f.lang, f.output)
    ensures (r.NoText? || r.Convert?) && r.warning == f.warning
  {
    if f.text == [] then NoText(f.warning)
    else Convert(Request(f.text, f.lang, f.output), f.warning)
  }

  /** A line whose stripped form is neither empty nor a quit command goes
      to one of the two grammars. */
  lemma ParseStripped(line: string)
    requires Strip(line) != [] && !IsQuitCommand(Strip(line))
    ensures var s := Strip(line);
      ParseLine(line) == Finish(if QuotedForm(s) then ParseQuoted(s) else ParseUnquoted(s, Split(s)))
  {
  }

  /** "No text provided" comes exactly from a line whose stripped form
      starts with two quotes, whatever follows them. */
  lemma NoTextExactly(line: string)
    ensures var s := Strip(line);
      ParseLine(line).NoText? <==> |s| >= 2 && s[0] == '"' && s[1] == '"'
  {
    var s := Strip(line);
    if |s| >= 2 && s[0] == '"' && s[1] == '"' {
      assert s[1..][0] == '"';
      assert IndexOfQuote(s, 1) == 1;
      ParseStripped(line);
    }
  }

  /** The stripped line reaches the quoted grammar: the loop acts on what
      that grammar yields. */
  lemma QuotedLineCut(line: string, f: Fields)
    requires Strip(line) != [] && !IsQuitCommand(Strip(line)) && QuotedForm(Strip(line))
    requires ParseQuoted(Strip(line)) == f
    ensures ParseLine(line) == Finish(f)
  {
    ParseStripped(line);
  }

  /** The stripped line reaches the unquoted grammar: the loop acts on what
      that grammar yields. */
  lemma UnquotedCut(line: string, f: Fields)
    requires Strip(line) != [] && !IsQuitCommand(Strip(line)) && !QuotedForm(Strip(line))
    requires ParseUnquoted(Strip(line), Split(Strip(line))) == f
    ensures ParseLine(line) == Finish(f)
  {
    ParseStripped(line);
  }

  /** What the quoted grammar makes of the tokens after the closing quote:
      the text is kept; the first token, when it is a code, names the
      language and otherwise is warned about (English is used); the second
      token, if any, is the directory. */
  function QuotedFields(text: string, rest: seq<string>): (f: Fields)
    ensures f.text == text
    ensures rest != [] && IsCode(rest[0]) ==> Code(f.lang) == rest[0] && f.warning.None?
    ensures rest == [] || !IsCode(rest[0]) ==> f.lang == English && f.warning == (if rest == [] then None else Some(rest[0]))
    ensures f.output.Some? <==> |rest| > 1
    ensures |rest| > 1 ==> f.output.value == rest[1]
  {
    Fields(text,
           if rest != [] && IsCode(rest[0]) then Lookup(rest[0]).value else English,
           if |rest| > 1 then Some(rest[1]) else None,
           if rest != [] && !IsCode(rest[0]) then Some(rest[0]) else None)
  }

  /** `line` has the quoted form, its closing quote follows `text`, and
      what comes after that quote splits into `rest`. */
  predicate QuotedSplit(line: string, text: string, rest: seq<string>) {
    QuotedForm(line) && IndexOfQuote(line, 1) == |text| + 1
    && line[1..|text| + 1] == text && Split(Strip(line[|text| + 2..])) == rest
  }

  /** The quoted grammar applied to a line whose closing quote and trailing
      tokens are known. */
  lemma QuotedCut(line: string, text: string, rest: seq<string>)
    requires QuotedSplit(line, text, rest)
    ensures ParseQuoted(line) == QuotedFields(text, rest)
  {
  }

  /** The closing quote of `"text"...` is the first quote after the text. */
  lemma ClosingQuote(text: string, tail: string)
    requires '"' !in text
    ensures var line := "\"" + text + "\"" + tail;
      QuotedForm(line) && IndexOfQuote(line, 1) == |text| + 1
      && line[1..|text| + 1] == text && line[|text| + 2..] == tail
  {
    var line := "\"" + text + "\"" + tail;
    var q := |text| + 1;
    assert line[q] == '"' && line[1..q] == text && line[q + 1..] == tail;
    assert line[1..][q - 1] == '"';
  }

  /** The quoted grammar, for any line that strips to `"text"` followed by
      `tail`: the text is kept exactly as written (spaces included,
      possibly empty); of the tokens of `tail`, however they are spaced,
      the first sets the language when it is a code and is warned about
      otherwise, the second is the directory, and the rest are ignored. */
  lemma QuotedLine(line: string, text: string, tail: string)
    requires '"' !in text && Strip(line) == "\"" + text + "\"" + tail
    ensures ParseLine(line) == Finish(QuotedFields(text, Split(tail)))
  {
    var s := Strip(line);
    ClosingQuote(text, tail);
    SplitStrip(tail);
    QuotedCut(s, text, Split(tail));
    QuotedLineCut(line, QuotedFields(text, Split(tail)));
  }

  /** The line `"text" tok1 tok2 ...`. */
  function QuotedInput(text: string, rest: seq<string>): string {
    "\"" + text + "\"" + (if rest == [] then "" else " " + Join(rest))
  }

  /** A quoted input line is its own strip, and what follows its closing
      quote splits back into the tokens. */
  lemma QuotedInputShape(text: string, rest: seq<string>)
    requires AllWords(rest)
    ensures var line, tail := QuotedInput(text, rest), if rest == [] then "" else " " + Join(rest);
      line == "\"" + text + "\"" + tail && Strip(line) == line && Split(tail) == rest
  {
    var line := QuotedInput(text, rest);
    if rest != [] {
      var tail := " " + Join(rest);
      JoinEnds(rest);
      assert line == "\"" + text + "\"" + tail;
      assert line[|line| - 1] == tail[|tail| - 1];
      SplitSkipsSpace(" ", Join(rest));
      SplitJoin(rest);
    } else {
      assert Split("") == [];
    }
    StripTrimmed(line);
  }

  /** `"text" tok1 tok2 ...` is read by the quoted grammar with exactly
      those tokens. */
  lemma QuotedInputLine(text: string, rest: seq<string>)
    requires '"' !in text && AllWords(rest)
    ensures ParseLine(QuotedInput(text, rest)) == Finish(QuotedFields(text, rest))
  {
    QuotedInputShape(text, rest);
    QuotedLine(QuotedInput(text, rest), text, if rest == [] then "" else " " + Join(rest));
  }

  /** Writing a request in the quoted grammar and parsing it back gives the
      request, whatever spaces the text holds, provided it has no quote. */
  lemma QuotedRoundTrip(r: Request)
    requires r.text != [] && '"' !in r.text
    requires r.output.None? || IsWord(r.output.value)
    ensures
      var tokens := [Code(r.lang)] + (if r.output.Some? then [r.output.value] else []);
      ParseLine(QuotedInput(r.text, tokens)) == Convert(r, None)
  {
    var tokens := [Code(r.lang)] + (if r.output.Some? then [r.output.value] else []);
    QuotedRequestFields(r);
    QuotedInputLine(r.text, tokens);
  }

  lemma QuotedRequestFields(r: Request)
    requires r.output.None? || IsWord(r.output.value)
    ensures var tokens := [Code(r.lang)] + (if r.output.Some? then [r.output.value] else []);
      AllWords(tokens) && QuotedFields(r.text, tokens) == Fields(r.text, r.lang, r.output, None)
  {
    CodeIsWord(r.lang);
    LookupCode(r.lang);
  }

  /** An unsupported code after the quoted text is warned about and the
      request goes ahead in English; it is not taken as a directory. */
  lemma QuotedUnsupportedCode(text: string, tok: string)
    requires text != [] && '"' !in text && IsWord(tok) && !IsCode(tok)
    ensures ParseLine(QuotedInput(text, [tok])) == Convert(Request(text, English, None), Some(tok))
  {
    QuotedInputLine(text, [tok]);
  }

  /** A quit command is a single token. */
  lemma QuitOneToken(s: string)
    ensures IsQuitCommand(s) ==> Split(s) == [s]
  {
    if IsQuitCommand(s) {
      assert Join([s]) == s;
      SplitJoin([s]);
    }
  }

  /** A line of two or more tokens is neither blank nor a quit command. */
  lemma SeveralTokens(line: string)
    requires |Split(Strip(line))| >= 2
    ensures Strip(line) != [] && !IsQuitCommand(Strip(line))
  {
    QuitOneToken(Strip(line));
  }

  lemma AllWordsSplitOff(ws: seq<string>, more: seq<string>)
    requires AllWords(ws + more)
    ensures AllWords(ws) && AllWords(more)
  {
    forall k | 0 <= k < |ws| ensures IsWord(ws[k]) {
      assert (ws + more)[k] == ws[k];
    }
    forall k | 0 <= k < |more| ensures IsWord(more[k]) {
      assert (ws + more)[|ws| + k] == more[k];
    }
  }

  /** `<words> <lang> <dir>`, however the tokens are spaced: the
      second-to-last token sets the language, the last is the directory,
      and the other tokens joined by single spaces are the text. This wins
      even when the directory is itself a code. */
  lemma UnquotedLangAndDir(line: string, ws: seq<string>, l: Language, dir: string)
    requires ws != [] && Split(Strip(line)) == ws + [Code(l), dir] && !QuotedForm(Strip(line))
    ensures ParseLine(line) == Convert(Request(Join(ws), l, Some(dir)), None)
  {
    SeveralTokens(line);
    AllWordsSplitOff(ws, [Code(l), dir]);
    UnquotedLangAndDirRule(Strip(line), ws, l, dir);
    UnquotedCut(line, Fields(Join(ws), l, Some(dir), None));
  }

  /** The three-token rule on the tokens `ws + [Code(l), dir]`. */
  lemma UnquotedLangAndDirRule(s: string, ws: seq<string>, l: Language, dir: string)
    requires s != [] && ws != [] && AllWords(ws + [Code(l), dir])
    ensures ParseUnquoted(s, ws + [Code(l), dir]) == Fields(Join(ws), l, Some(dir), None)
  {
    var parts := ws + [Code(l), dir];
    LookupCode(l);
    AppendTwo(ws, Code(l), dir);
    UnquotedTwoLast(s, parts);
  }

  /** The unquoted grammar when the second-to-last of three or more tokens
      is a code. */
  lemma UnquotedTwoLast(s: string, parts: seq<string>)
    requires s != [] && AllWords(parts) && |parts| >= 3 && IsCode(parts[|parts| - 2])
    ensures ParseUnquoted(s, parts) == Fields(Join(parts[..|parts| - 2]), Lookup(parts[|parts| - 2]).value, Some(parts[|parts| - 1]), None)
  {
    var n := |parts|;
    assert n >= 3 && IsCode(parts[n - 2]);
  }

  /** `<words> <lang>`, however the tokens are spaced: the last token sets
      the language and there is no directory, provided the rule above does
      not apply first. */
  lemma UnquotedLangOnly(line: string, ws: seq<string>, l: Language)
    requires ws != [] && Split(Strip(line)) == ws + [Code(l)] && !QuotedForm(Strip(line))
    requires |ws| == 1 || !IsCode(ws[|ws| - 1])
    ensures ParseLine(line) == Convert(Request(Join(ws), l, None), None)
  {
    SeveralTokens(line);
    AllWordsSplitOff(ws, [Code(l)]);
    UnquotedLangOnlyRule(Strip(line), ws, l);
    UnquotedCut(line, Fields(Join(ws), l, None, None));
  }

  /** The two-token rule on the tokens `ws + [Code(l)]`. */
  lemma UnquotedLangOnlyRule(s: string, ws: seq<string>, l: Language)
    requires s != [] && ws != [] && AllWords(ws + [Code(l)])
    requires |ws| == 1 || !IsCode(ws[|ws| - 1])
    ensures ParseUnquoted(s, ws + [Code(l)]) == Fields(Join(ws), l, None, None)
  {
    LookupCode(l);
    AppendOne(ws, Code(l));
    UnquotedLastCode(s, ws + [Code(l)]);
  }

  lemma AppendOne<T>(ws: seq<T>, x: T)
    requires ws != []
    ensures var p := ws + [x];
      |p| == |ws| + 1 && p[0] == ws[0] && p[..|p| - 1] == ws && p[|p| - 1] == x && p[|p| - 2] == ws[|ws| - 1]
  {
  }

  lemma AppendTwo<T>(ws: seq<T>, x: T, y: T)
    requires ws != []
    ensures var p := ws + [x, y];
      |p| == |ws| + 2 && p[0] == ws[0] && p[..|p| - 2] == ws && p[|p| - 2] == x && p[|p| - 1] == y
  {
  }

  /** The unquoted grammar when only the last token is a code. */
  lemma UnquotedLastCode(s: string, parts: seq<string>)
    requires s != [] && AllWords(parts) && |parts| >= 2 && IsCode(parts[|parts| - 1])
    requires |parts| == 2 || !IsCode(parts[|parts| - 2])
    ensures ParseUnquoted(s, parts) == Fields(Join(parts[..|parts| - 1]), Lookup(parts[|parts| - 1]).value, None, None)
  {
    var n := |parts|;
    assert !(n >= 3 && IsCode(parts[n - 2]));
  }

  /** Two trailing codes: the first is the language and the second is
      taken as the output directory. */
  lemma UnquotedTwoCodes(line: string, ws: seq<string>, l: Language, m: Language)
    requires ws != [] && Split(Strip(line)) == ws + [Code(l), Code(m)] && !QuotedForm(Strip(line))
    ensures ParseLine(line) == Convert(Request(Join(ws), l, Some(Code(m))), None)
  {
    UnquotedLangAndDir(line, ws, l, Code(m));
  }

  /** When neither rule applies (fewer than two tokens, or neither the last
      nor the second-to-last of three or more is a code), the whole
      stripped line, with its own spacing, is the English text and there is
      no directory. */
  lemma UnquotedDefault(line: string)
    requires Strip(line) != [] && !IsQuitCommand(Strip(line)) && !QuotedForm(Strip(line))
    requires var p := Split(Strip(line));
      !(|p| >= 3 && IsCode(p[|p| - 2])) && !(|p| >= 2 && IsCode(p[|p| - 1]))
    ensures ParseLine(line) == Convert(Request(Strip(line), English, None), None)
  {
    UnquotedWhole(Strip(line), Split(Strip(line)));
    UnquotedCut(line, Fields(Strip(line), English, None, None));
  }

  /** The unquoted grammar when neither rule applies. */
  lemma UnquotedWhole(s: string, parts: seq<string>)
    requires s != [] && AllWords(parts)
    requires !(|parts| >= 3 && IsCode(parts[|parts| - 2])) && !(|parts| >= 2 && IsCode(parts[|parts| - 1]))
    ensures ParseUnquoted(s, parts) == Fields(s, English, None, None)
  {
  }

  /** The unquoted text is re-joined from the tokens with single spaces: a
      run of whitespace of any length between two words becomes one space. */
  lemma UnquotedSpacing(a: string, sp: string, b: string, l: Language, dir: string)
    requires IsWord(a) && IsWord(b) && IsWord(dir) && a[0] != '"'
    requires sp != [] && forall i :: 0 <= i < |sp| ==> IsSpace(sp[i])
    ensures ParseLine(a + sp + b + " " + Code(l) + " " + dir) == Convert(Request(a + " " + b, l, Some(dir)), None)
  {
    var line := a + sp + b + " " + Code(l) + " " + dir;
    CodeIsWord(l);
    SpacedTokens(a, sp, [b, Code(l), dir], line);
    Regroup(a, b, Code(l), dir);
    JoinPair(a, b);
    UnquotedLangAndDir(line, [a, b], l, dir);
  }

  lemma Regroup<T>(a: T, b: T, c: T, d: T)
    ensures [a] + [b, c, d] == [a, b] + [c, d]
  {
  }

  lemma JoinPair(a: string, b: string)
    ensures Join([a, b]) == a + " " + b
  {
    assert [a, b][1..] == [b];
  }

  /** A word, a run of whitespace and three words separated by single
      spaces: the tokens are the four words, and the line is not quoted. */
  lemma SpacedTokens(a: string, sp: string, ws: seq<string>, line: string)
    requires IsWord(a) && a[0] != '"' && |ws| == 3 && AllWords(ws)
    requires sp != [] && forall i :: 0 <= i < |sp| ==> IsSpace(sp[i])
    requires line == a + sp + ws[0] + " " + ws[1] + " " + ws[2]
    ensures Split(Strip(line)) == [a] + ws && !QuotedForm(Strip(line))
  {
    var rest := ws[0] + " " + ws[1] + " " + ws[2];
    assert Join(ws) == rest by {
      assert ws[1..][1..] == [ws[2]];
      assert Join(ws[1..]) == ws[1] + " " + ws[2];
      assert ws[0] + " " + (ws[1] + " " + ws[2]) == rest;
    }
    SplitJoin(ws);
    assert line == a + sp + rest;
    SplitWordSpace(a, sp, rest);
    assert line[0] == a[0];
    assert line[|line| - 1] == ws[2][|ws[2]| - 1];
    StripTrimmed(line);
  }

  /** The closing quote and a code glued to it: such a line is its own
      strip. */
  lemma GluedStripped(text: string, l: Language)
    ensures var line := "\"" + text + "\"" + Code(l); Strip(line) == line
  {
    var c := Code(l);
    var line := "\"" + text + "\"" + c;
    CodeIsWord(l);
    assert line[|line| - 1] == c[|c| - 1];
    StripTrimmed(line);
  }

  /** A code written straight after the closing quote, with no space, still
      sets the language. */
  lemma QuotedGluedCode(text: string, l: Language)
    requires '"' !in text
    ensures ParseLine("\"" + text + "\"" + Code(l)) == Finish(Fields(text, l, None, None))
  {
    var c := Code(l);
    GluedStripped(text, l);
    CodeIsWord(l);
    assert Join([c]) == c;
    SplitJoin([c]);
    LookupCode(l);
    QuotedLine("\"" + text + "\"" + c, text, c);
  }

  /** ... although, when the text is a single word, no whitespace-separated
      token of that line is a code. */
  lemma QuotedGluedCodeTokens(text: string, l: Language)
    requires IsWord(text) && '"' !in text
    ensures var line := "\"" + text + "\"" + Code(l);
      Split(line) == [line] && !IsCode(line)
  {
    var c := Code(l);
    var line := "\"" + text + "\"" + c;
    var q := |text| + 1;
    CodeIsWord(l);
    assert IsWord(line) by {
      forall k | 0 <= k < |line| ensures !IsSpace(line[k]) {
        if 1 <= k < q { assert line[k] == text[k - 1]; }
        else if k > q { assert line[k] == c[k - q - 1]; }
      }
    }
    assert Join([line]) == line;
    SplitJoin([line]);
    if IsCode(line) {
      CodeIsWord(Lookup(line).value);
    }
  }

  /** Any non-empty quoted text without a quote is converted in English,
      text of punctuation only included: it is not reported as missing. */
  lemma QuotedPunctuation(text: string)
    requires text != [] && '"' !in text
    ensures ParseLine(QuotedInput(text, [])) == Convert(Request(text, English, None), None)
  {
    QuotedInputLine(text, []);
  }

  /** Empty quotes give "no text provided" (`NoTextExactly` shows nothing
      else does); the tokens after them are still read, and an unknown
      code is still warned about. */
  lemma QuotedEmpty(rest: seq<string>)
    requires AllWords(rest)
    ensures ParseLine(QuotedInput([], rest)) == NoText(QuotedFields([], rest).warning)
  {
    QuotedInputLine([], rest);
  }
}
