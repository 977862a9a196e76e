# word2mp3 — a verified model of the interactive parser

word2mp3 turns text into an MP3 file through Google Text-to-Speech. This
project models the part of it that decides what gets converted, in which
language, and under which file name:

- the eight supported languages and their codes (`Language`);
- how the text is turned into a safe file name and an output path
  (`text_to_mp3`);
- the read–parse–convert loop of the interactive mode (`run_repl`):
  - stripping each line;
  - the `quit()` / `exit()` commands;
  - the quoted grammar `"text" [code] [dir]`;
  - the unquoted grammar `text ... [code] [dir]`, which looks at the last
    one or two tokens;
  - the "no text provided" error.

Modules:

- `Optional`: the `Option` type.
- `PyStr`: the parts of Python's `str` the tool uses:
  - `strip`, `rstrip`, `split()`, `" ".join`, `lower`;
  - ASCII `isspace` and `isalnum`.
- `Languages`: the language enumeration, its codes, and the lookup
  `next(l for l in Language if l.value == tok)`.
- `Filenames`: the file-name sanitiser, the POSIX `os.path.join` rule, and
  the output path.
- `LineParser`: one input line to `Quit`, `Skip`, `NoText` or a
  `Convert` request. The unsupported-code warning is carried in the result.
- `Repl`:
  - the loop as a method over a finite sequence of lines;
  - a specification function `Transcript` giving the log of what it saves
    or reports;
  - lemmas about that log.

Some of what the code does differs from what its help text and
docstrings suggest. The model follows the code:

- Text made only of punctuation (such as `"?!"`) is not rejected. It is
  handed to `text_to_mp3`, whose file name for it is just `.mp3`:
  `Filenames.PunctuationOnlyName` and `Repl.PunctuationSaved`.
- Only the quoted form warns about an unsupported code. In the unquoted
  form, `bonjour xx` is the text `bonjour xx` in English, with no warning.
- When no trailing token of an unquoted line is a code, the text is the
  whole stripped line, inner whitespace included. It is not the
  re-joined tokens.
- In the quoted form, a code written straight after the closing quote
  still sets the language, because the quoted branch re-splits the text
  after the quote: `"hi"fr` reads as the text `hi` in French.
- A line that, once stripped, starts with `""` is the only input that
  yields "No text provided" (`LineParser.NoTextExactly`). The unquoted
  branch never produces empty text.

## Model

| member | source | states |
|---|---|---|
| Languages.Index | word2mp3.py:88 | the position of a language in the iteration order of `for l in Language`: below eight, English first and German last |
| Languages.Next | word2mp3.py:88 | the member after a language in that order, one position further on |
| Languages.Code | word2mp3.py:10-17 | each language's code is the string of its enum value, two or five characters long |
| Languages.CodeInjective | word2mp3.py:10-17 | no two languages share a code |
| Languages.CodeIsWord | word2mp3.py:10-17 | every code is a single token without whitespace or quotes |
| Languages.FindFrom | word2mp3.py:88 | `next(l for l in Language if l.value == tok)` walked in declaration order from a given member: a language found has the code `tok` and is not before the starting member |
| Languages.FindFromNone | word2mp3.py:88-90 | the walk ends in `StopIteration` exactly when no member from the starting one on has the code `tok` |
| Languages.Lookup | word2mp3.py:88 | a language found for a token has that token as its code |
| Languages.LookupNone | word2mp3.py:88-90 | the lookup fails exactly when no language has the code (the `StopIteration` case) |
| Languages.LookupCode | word2mp3.py:8-17 | every language is found again from its own code |
| Languages.IsCode | word2mp3.py:97-110 | `tok in valid_langs` holds exactly when some language has the code `tok` |
| PyStr.IsSpace | word2mp3.py:63-83 | the characters `strip()` and `split()` treat as whitespace: the space and the ASCII control ranges 0x09-0x0D (`\t \n \v \f \r`) and 0x1C-0x1F |
| PyStr.IsAlnum | word2mp3.py:36 | `isalnum()` on ASCII: a letter or a digit, never whitespace, a quote or a slash |
| PyStr.LowerChar | word2mp3.py:65 | `lower()` on one character: the result is never a capital, and differs from the character exactly when that is a capital; letters and digits stay letters and digits |
| PyStr.LStrip | word2mp3.py:63 | leading whitespace removed: the result is no longer than the string, starts with a non-space, and everything cut off is whitespace |
| PyStr.LStripSuffix | word2mp3.py:63 | what is kept by `lstrip()` is a suffix of the string |
| PyStr.RStrip | word2mp3.py:36 | trailing whitespace removed: the result is no longer than the string, ends with a non-space, and everything cut off is whitespace |
| PyStr.RStripPrefix | word2mp3.py:36 | what is kept by `rstrip()` is a prefix of the string |
| PyStr.Strip | word2mp3.py:63 | `strip()` is no longer than the string and neither starts nor ends with whitespace |
| PyStr.StripTrimmed | word2mp3.py:63 | a string that neither starts nor ends with whitespace is its own strip |
| PyStr.StripEmpty | word2mp3.py:63-70 | the stripped line is empty (the `continue` case) exactly when the line is whitespace alone |
| PyStr.Split | word2mp3.py:73 | `split()` yields only non-empty tokens without whitespace |
| PyStr.SplitWordSpace | word2mp3.py:73 | a word followed by a whitespace run of any length is one token, followed by the tokens of the rest |
| PyStr.SplitSkipsSpace | word2mp3.py:83 | whitespace in front of a string does not change its tokens |
| PyStr.SplitTrailingSpace | word2mp3.py:83 | whitespace after a string does not change its tokens |
| PyStr.SplitStrip | word2mp3.py:83 | `s.strip().split()` gives the same tokens as `s.split()` |
| PyStr.Join | word2mp3.py:108 | `" ".join` of words is empty exactly when there are no words |
| PyStr.JoinEnds | word2mp3.py:108 | `" ".join` of words is non-empty, starts with the first word's first character and ends with the last word's last character |
| PyStr.JoinIsStripped | word2mp3.py:108 | `" ".join` of words is its own strip |
| PyStr.SplitJoin | word2mp3.py:73 | splitting `" ".join` of tokens gives the same tokens back |
| PyStr.Lower | word2mp3.py:65 | `lower()` keeps the length |
| PyStr.LowerChars | word2mp3.py:65 | `lower()` turns each ASCII capital into its small letter, keeps every other character, and leaves no capital |
| PyStr.LowerKeepsSpace | word2mp3.py:65 | `lower()` keeps whitespace where it was |
| Filenames.Keep | word2mp3.py:36 | the condition of the comprehension: a character kept is never `/` or `"`, and the space is the only whitespace kept |
| Filenames.KeepOnly | word2mp3.py:36 | the filter keeps only letters, digits, space, `-` and `_`, never lengthens the text, and leaves a text made only of those unchanged |
| Filenames.KeepOnlyAppend | word2mp3.py:36 | the filter works character by character: filtering a concatenation filters each part |
| Filenames.KeepOnlyChar | word2mp3.py:36 | one character is kept exactly when it is a letter, a digit, a space, `-` or `_` |
| Filenames.ReplaceSpaces | word2mp3.py:37 | `replace(' ', '_')` keeps the length, turns every space into `_` and keeps every other character in place |
| Filenames.Sanitize | word2mp3.py:36-37 | the file stem holds only letters, digits, `-` and `_`, and is no longer than the text |
| Filenames.SanitizeClean | word2mp3.py:36-37 | a text of letters, digits, spaces, `-` and `_` that does not end in a space keeps every character, with its spaces turned into `_` |
| Filenames.SanitizeIdempotent | word2mp3.py:36-37 | sanitising a sanitised stem changes nothing |
| Filenames.SanitizeEmpty | word2mp3.py:36-37 | the stem is empty exactly when the text has no letter, digit, `-` or `_` |
| Filenames.FileName | word2mp3.py:43-45 | the file name has no `/`, is non-empty and does not start with `/` |
| Filenames.PathJoin | word2mp3.py:43 | POSIX `os.path.join`: an absolute second part replaces the first; otherwise the length is that of both parts plus one for a `/` exactly when the first part is non-empty and does not end in `/` |
| Filenames.PathJoinEmpty | word2mp3.py:43 | joining onto an empty directory gives the name alone; joining an empty name leaves the directory followed by `/` |
| Filenames.PathJoinRelative | word2mp3.py:43 | joining a relative name to a non-empty directory gives the directory, then the name, with a `/` just before the name, and exactly one more character than both unless the directory already ends in `/` |
| Filenames.OutputPath | word2mp3.py:40-45 | with no directory, or an empty one, the path is the file name alone; otherwise its length is that of the directory and the file name, plus one for a `/` unless the directory ends in one |
| Filenames.OutputPathEndsWithName | word2mp3.py:40-45 | the path always ends with the file name |
| Filenames.OutputPathMp3 | word2mp3.py:43-45 | the file name, and so the path, always ends in `.mp3` |
| Filenames.OutputPathInDir | word2mp3.py:40-43 | with a non-empty directory, the path equals the directory, then a `/` unless the directory already ends in one, then the file name |
| Filenames.BaseNameAfterSlash | word2mp3.py:43 | the last path component is whatever follows the last `/` |
| Filenames.BaseNameOfOutputPath | word2mp3.py:40-45 | whatever the directory, the last component of the output path is the sanitised stem plus `.mp3` |
| Filenames.PunctuationOnlyName | word2mp3.py:36-45 | a text with no letter, digit, `-` or `_` is saved under the name `.mp3` |
| LineParser.IsQuitCommand | word2mp3.py:65 | a quit command, in any case, is six characters with no whitespace and no quote |
| LineParser.QuotedForm | word2mp3.py:79 | a line taking the quoted branch starts with `"` and has at least two characters |
| LineParser.IndexOfQuote | word2mp3.py:81 | the result is the position of the first `"` at or after the start position |
| LineParser.ParseQuoted | word2mp3.py:79-93 | the quoted text has no `"`; a directory is a single token; a warning names a single token that is not a supported code |
| LineParser.ParseUnquoted | word2mp3.py:96-112 | the unquoted grammar, given the line and its tokens, never yields empty text and never warns; a directory is a single token |
| LineParser.ParseLine | word2mp3.py:63-116 | quit exactly for `quit()`/`exit()` in any case after stripping; skip exactly for a blank line; "no text" only for a stripped line starting with two quotes; a request always has non-empty text; a warning only for the quoted form, naming an unsupported token |
| LineParser.Finish | word2mp3.py:114-116 | empty text is reported and any other text converted with the parsed language and directory; the warning is kept either way |
| LineParser.QuotedFields | word2mp3.py:86-93 | what the tokens after the closing quote make: the text kept, the first token as the language when it is a code and as the warning (with English) otherwise, the second token as the directory |
| LineParser.ParseStripped | word2mp3.py:63-112 | a line whose strip is neither blank nor a quit command is parsed by the quoted grammar when the strip starts with `"` and has a second `"`, and by the unquoted grammar otherwise |
| LineParser.NoTextExactly | word2mp3.py:79-116 | "No text provided" comes exactly from a line whose strip starts with two quotes |
| LineParser.QuotedLine | word2mp3.py:79-93 | any line stripping to `"text"` and a tail gives the text between the quotes; of the tail's tokens, however spaced, the first is the language if it is a code and is warned about otherwise, and the second is the directory |
| LineParser.QuotedInputLine | word2mp3.py:79-93 | `"text" t1 t2 ...` is read with exactly the tokens `t1 t2 ...` |
| LineParser.QuotedRoundTrip | word2mp3.py:79-93 | any request whose text has no `"` and whose directory is a single token is parsed back unchanged from `"text" code [dir]` |
| LineParser.QuotedUnsupportedCode | word2mp3.py:86-90 | an unknown token after the quotes gives English and a warning naming that token |
| LineParser.QuotedEmpty | word2mp3.py:79-116 | empty quotes give "no text provided", and still carry the warning for an unknown token after them |
| LineParser.QuotedPunctuation | word2mp3.py:79-114 | any non-empty quoted text without a quote, punctuation-only text included, is converted in English |
| LineParser.QuotedGluedCode | word2mp3.py:81-88 | a code written straight after the closing quote still sets the language |
| LineParser.QuotedGluedCodeTokens | word2mp3.py:105-110 | such a line, with one-word text, is one token that is not a code |
| LineParser.UnquotedLangAndDir | word2mp3.py:103-108 | any unquoted line whose tokens are words, a code and a directory gives the words joined by single spaces as text, that language and that directory |
| LineParser.UnquotedLangOnly | word2mp3.py:109-112 | any unquoted line whose tokens are words and a code, with no code just before it (or one word only), gives the words joined by single spaces in that language with no directory |
| LineParser.UnquotedTwoCodes | word2mp3.py:103-108 | when the last two tokens are both codes, the three-token rule wins: the first of them is the language and the last is the directory |
| LineParser.UnquotedDefault | word2mp3.py:99-112 | when neither the second-to-last of three or more tokens nor the last of two or more is a code, the whole stripped line, inner whitespace included, is the English text |
| LineParser.UnquotedSpacing | word2mp3.py:73-108 | once a code is found, a whitespace run of any length between two words of the text becomes a single space |
| Repl.Transcript | word2mp3.py:61-120 | the log of a sequence of lines has at most one entry per line |
| Repl.RunRepl | word2mp3.py:61-126 | the loop's log is the `Transcript` of the input; it reads up to and including the first quit command and no further |
| Repl.Entries | word2mp3.py:65-120 | a quit or blank line leaves no entry; missing text leaves the error with its warning; a request leaves a saved entry with its request, its warning and the path `text_to_mp3` returns |
| Repl.Act | word2mp3.py:65-120 | a quit line ends the log (the `break`); any other line puts its entries in front of the log of the lines after it, which is kept unchanged |
| Repl.LoopStep | word2mp3.py:61-120 | one turn of the loop keeps the log plus the log of the unread lines equal to the log of the whole input |
| Repl.TranscriptStopsAtQuit | word2mp3.py:65-67 | nothing after a quit command contributes to the log |
| Repl.TranscriptAppend | word2mp3.py:61-120 | before any quit command, the log of two stretches of input is the log of the first followed by the log of the second |
| Repl.TranscriptOfLine | word2mp3.py:65-120 | a blank line or a quit command leaves no entry; every other line leaves exactly one |
| Repl.TranscriptWellFormed | word2mp3.py:114-120 | every saved entry has non-empty text and a file named after its sanitised text |
| Repl.PunctuationSaved | word2mp3.py:114-120 | a quoted line of punctuation only is saved as `.mp3` |

## Left out

- Speech synthesis (`gTTS` and `tts.save`) needs the network. The model
  does not capture a failed conversion: every request is logged as saved,
  to the path `text_to_mp3` would return.
- `os.makedirs` is a file-system effect. The directory is only used to
  build the path.
- `os.path.join` follows the POSIX rule. The Windows rules (drive letters
  and backslashes) are not modelled.
- The command-line entry point (`main`, lines 129-157) and its direct
  conversion mode are not modelled. They are `click` option handling around
  the same `text_to_mp3`.
- The banner, the prompt and the printed messages are not modelled. The log
  records what each line leads to ("Saved", "No text provided", the
  warning) instead of the printed text.
- `KeyboardInterrupt` and the catch-all `except Exception` are not
  modelled. Input is a finite sequence of lines, and the loop ends at its
  end. At the end of input Python's `input()` instead raises `EOFError`,
  which the catch-all swallows; every later `input()` raises it again, so
  the real loop never ends and prints an `Error:` line on every turn. The
  model's stop at the end of the sequence stands in for that endless loop.
- Unicode is not modelled:
  - `isspace`, `isalnum` and `lower` are ASCII-only here;
  - non-ASCII letters (Chinese, accented Latin) count as punctuation in
    `Filenames.Sanitize`, whereas Python keeps them;
  - non-ASCII whitespace is not stripped or split on.
- Repl.RunRepl: its contract covers the log and where reading stops. The
  printed messages and the files written are not part of it.
