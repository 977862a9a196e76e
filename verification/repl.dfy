/**
 * The loop of `run_repl` in word2mp3.py, over a finite sequence of input
 * lines: each line is parsed; a quit command ends the loop, an empty line
 * is passed over, and every other line leaves one entry in the log, either
 * the path of the file the request is saved to or the "no text" error.
 */
module Repl {
  import opened Optional
  import opened PyStr
  import opened LineParser
  import opened Filenames
  import opened Languages

  /** What the loop reports for a line it acts on. */
  datatype Entry =
    | Saved(req: Request, path: string, warning: Option<string>)  // "Saved: <path>"
    | NoTextError(warning: Option<string>)                         // "Error: No text provided"

  /** The log the loop leaves for `lines`: it stops at the first quit
      command and has at most one entry per line. */
  function Transcript(lines: seq<string>): (log: seq<Entry>)
    ensures |log| <= |lines|
  {
    if lines == [] then [] else Act(ParseLine(lines[0]), Transcript(lines[1..]))
  }

  /** `quit()` or `exit()` in any letter case, around which whitespace is
      ignored. */
  predicate IsQuitLine(line: string) {
    IsQuitCommand(Strip(line))
  }

  /** Reads `lines` one at a time until a quit command or the end of the
      input, and returns the log and how many lines were read. */
  method RunRepl(lines: seq<string>) returns (log: seq<Entry>, read: nat)
    ensures log == Transcript(lines)
    ensures read <= |lines|
    ensures forall j :: 0 <= j < read - 1 ==> !IsQuitLine(lines[j])
    ensures read == |lines| || (0 < read && IsQuitLine(lines[read - 1]))
  {
    log := [];
    read := 0;
    assert lines[read..] == lines;
    while read < |lines|
      invariant read <= |lines|
      invariant forall j :: 0 <= j < read ==> !IsQuitLine(lines[j])
      invariant Transcript(lines) == log + Transcript(lines[read..])
    {
      var parsed := ParseLine(lines[read]);
      LoopStep(lines, read, log);
      read := read + 1;
      match parsed
      case Quit =>
        break;
      case Skip =>
        assert log + [] == log;
      case NoText(w) =>
        log := log + [NoTextError(w)];
      case Convert(r, w) =>
        var path := OutputPath(r.text, r.output);
        assert Entries(parsed) == [Saved(r, path, w)];
        log := log + [Saved(r, path, w)];
    }
  }

  /** One turn of the loop: the log so far, extended by what the current
      line adds, followed by the log of the remaining lines, is still the
      log of the whole input. */
  lemma LoopStep(lines: seq<string>, i: nat, log: seq<Entry>)
    requires i < |lines| && Transcript(lines) == log + Transcript(lines[i..])
    ensures ParseLine(lines[i]).Quit? ==> Transcript(lines) == log && IsQuitLine(lines[i])
    ensures !ParseLine(lines[i]).Quit? ==>
      !IsQuitLine(lines[i]) && Transcript(lines) == (log + Entries(ParseLine(lines[i]))) + Transcript(lines[i + 1..])
  {
    var later := Transcript(lines[i + 1..]);
    assert lines[i..][1..] == lines[i + 1..];
    assert Transcript(lines[i..]) == Act(ParseLine(lines[i]), later);
    AppendAssoc(log, Entries(ParseLine(lines[i])), later);
  }

  lemma AppendAssoc(a: seq<Entry>, b: seq<Entry>, c: seq<Entry>)
    ensures a + (b + c) == (a + b) + c
  {
  }

  /** The entry one parsed line leaves in the log, if any: nothing for a
      quit or blank line, the error for missing text, and for a request the
      path `text_to_mp3` returns for it. */
  function Entries(r: ParseResult): (es: seq<Entry>)
    ensures |es| == (if r.Quit? || r.Skip? then 0 else 1)
    ensures r.NoText? ==> es[0].NoTextError? && es[0].warning == r.warning
    ensures r.Convert? ==>
      es[0].Saved? && es[0].req == r.req && es[0].warning == r.warning
      && es[0].path == OutputPath(r.req.text, r.req.output)
  {
    match r
    case Quit => []
    case Skip => []
    case NoText(w) => [NoTextError(w)]
    case Convert(q, w) => [Saved(q, OutputPath(q.text, q.output), w)]
  }

  /** The log that one parsed line puts in front of the log `later` of the
      lines after it: nothing at all once the line quits. */
  function Act(r: ParseResult, later: seq<Entry>): (log: seq<Entry>)
    ensures r.Quit? ==> log == []
    ensures !r.Quit? ==>
      |log| == |Entries(r)| + |later|
      && forall i :: 0 <= i < |later| ==> log[|Entries(r)| + i] == later[i]
  {
    if r.Quit? then [] else Entries(r) + later
  }

  /** The first line of the input either quits, leaving an empty log, or
      contributes its entries in front of the log of the rest. */
  lemma TranscriptStep(lines: seq<string>)
    requires lines != []
    ensures IsQuitLine(lines[0]) ==> Transcript(lines) == []
    ensures !IsQuitLine(lines[0]) ==> Transcript(lines) == Entries(ParseLine(lines[0])) + Transcript(lines[1..])
  {
  }

  /** Nothing after a quit command is looked at. */
  lemma {:induction false} TranscriptStopsAtQuit(lines: seq<string>, k: nat)
    requires k < |lines| && IsQuitLine(lines[k])
    ensures Transcript(lines) == Transcript(lines[..k])
  {
    if k == 0 {
      TranscriptStep(lines);
      assert lines[..k] == [];
    } else {
      var prefix := lines[..k];
      PrefixTail(lines, k);
      TranscriptStopsAtQuit(lines[1..], k - 1);
      SameHead(lines, prefix);
    }
  }

  /** Two inputs with the same first line, whose remaining lines have the
      same log, have the same log. */
  lemma SameHead(a: seq<string>, b: seq<string>)
    requires a != [] && b != [] && a[0] == b[0] && Transcript(a[1..]) == Transcript(b[1..])
    ensures Transcript(a) == Transcript(b)
  {
  }

  lemma PrefixTail<T>(s: seq<T>, k: nat)
    requires 0 < k <= |s|
    ensures s[..k][0] == s[0] && s[..k][1..] == s[1..][..k - 1]
  {
  }

  /** Before any quit command, lines are handled one after another and
      independently: the log of two stretches of input is the log of the
      first followed by the log of the second. */
  lemma {:induction false} TranscriptAppend(a: seq<string>, b: seq<string>)
    requires forall j :: 0 <= j < |a| ==> !IsQuitLine(a[j])
    ensures Transcript(a + b) == Transcript(a) + Transcript(b)
  {
    if a == [] {
      assert a + b == b;
    } else {
      var p := ParseLine(a[0]);
      assert (a + b)[0] == a[0];
      assert (a + b)[1..] == a[1..] + b;
      TranscriptAppend(a[1..], b);
      assert Transcript(a + b) == Entries(p) + (Transcript(a[1..]) + Transcript(b));
      AppendAssoc(Entries(p), Transcript(a[1..]), Transcript(b));
    }
  }

  /** A single line: a quit command or an empty line leaves nothing, every
      other line exactly one entry. */
  lemma TranscriptOfLine(line: string)
    ensures |Transcript([line])| == if Strip(line) == [] || IsQuitCommand(Strip(line)) then 0 else 1
  {
    assert [line][1..] == [];
  }

  /** A saved request has non-empty text and is written to a file named
      after its sanitised text. */
  predicate WellFormed(e: Entry) {
    e.Saved? ==> e.req.text != [] && BaseName(e.path) == Sanitize(e.req.text) + ".mp3"
  }

  /** Every entry of every log is well formed. */
  lemma {:induction false} TranscriptWellFormed(lines: seq<string>)
    ensures forall e :: e in Transcript(lines) ==> WellFormed(e)
  {
    if lines != [] {
      TranscriptWellFormed(lines[1..]);
      EntriesWellFormed(ParseLine(lines[0]));
      TranscriptStep(lines);
    }
  }

  /** The entry of one line is well formed when a request's text is
      non-empty. */
  lemma EntriesWellFormed(p: ParseResult)
    requires p.Convert? ==> p.req.text != []
    ensures forall e :: e in Entries(p) ==> WellFormed(e)
  {
    if p.Convert? {
      BaseNameOfOutputPath(p.req.text, p.req.output);
    }
  }

  /** A quoted line of punctuation alone is not rejected: it is saved, to a
      file named just `.mp3`. */
  lemma PunctuationSaved(text: string)
    requires text != [] && '"' !in text
    requires forall j :: 0 <= j < |text| ==> !SafeChar(text[j])
    ensures Transcript([QuotedInput(text, [])]) == [Saved(Request(text, English, None), ".mp3", None)]
  {
    QuotedPunctuation(text);
    SanitizeEmpty(text);
    assert Sanitize(text) + ".mp3" == ".mp3";
    assert [QuotedInput(text, [])][1..] == [];
  }
}
