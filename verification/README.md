# bluemix/trace in Dafny

This project models the trace package of the IBM Cloud CLI SDK (`bluemix/trace/trace.go`).
The package does two things. It redacts credentials from diagnostic text before the text is
traced, and it picks the sink that trace lines go to.

**Redaction.** `Sanitize` runs three fixed regular-expression replacements, each on the output
of the one before. Each uses Go's `regexp.ReplaceAllString` semantics: leftmost-first,
non-overlapping matches, scanned left to right.

1. The header pass, `(?m)^(Authorization|X-Auth\S*): .*`. It keeps the header name and `": "`
   and replaces the rest of the line.
2. The query pass, `(?i)(password|token|apikey|passcode)=[^&]*(&|$)`. It keeps the key as
   written and the `&`, and replaces the value.
3. The JSON pass, `(?i)"([^"]*(password|token|apikey)[^"_]*)":\s*"[^\,]*"`. It keeps the key
   and writes the placeholder as the value.

The placeholder is `[PRIVATE DATA HIDDEN]`.

Each pattern is hand-coded as a matcher `MatchAt(pat, s, p)`. It returns the end of the match
that starts at `p` and its replacement, or nothing. Each matcher is proved equal to a
declarative description of its pattern: `HeaderAt`, `QueryKeyAt` and `JsonFieldAt`. A scanner,
`ReplaceFrom`, models `ReplaceAllString`. It replaces the match at the current position when
there is one, and otherwise copies one character. No pattern matches the empty string, so this
scan is exactly Go's.

**Sinks.** The logger part models:

- `NewLogger`'s switch on `strings.ToLower` of the trace setting.
- `NewStdLogger`, a logger on the terminal's error output.
- `NewFileLogger`. When the log file cannot be opened, it falls back to the error output and
  writes one message there.
- The do-nothing `NullLogger`.
- `loggerImpl` and its `Close`. `Close` closes the writer only when `newLoggerImpl` captured
  that writer as an `io.WriteCloser`.

Modules:

- `Text` (`text.dfy`): character classes, Go's `(?i)` case folding and `strings.ToLower`.
- `Sanitizer` (`sanitizer.dfy`): the three passes and `Sanitize`.
- `SanitizerExamples` (`sanitizer_examples.dfy`): concrete inputs and outputs.
- `Fmt` (`fmt.dfy`): `fmt.Sprintf` with no operands, used for the finding below.
- `Logger` (`logger.dfy`): printers, `Close` and sink selection.

Points where the patterns and the code are easy to misread, and what the code does:

- A header line needs `": "`, a colon followed by a space, not just a colon. An `X-Auth` name
  may not contain white space.
- A JSON key is kept only when every key word in it is followed by a `_` somewhere before the
  closing quote, not necessarily directly after it. So `password1_x` is kept, like
  `password_hint`. But `token_password` is hidden: a `_` follows `token`, and none follows
  `password`.
- A JSON value ends at the last `"` before the next `,`, not at the next `"`.
- `NullLogger` has no `Close` method. Only the loggers on a writer are closers.
- The error-output logger's `Close` closes `terminal.ErrOutput` when that writer is an
  `io.WriteCloser`. Whether it is one cannot be seen from this code, so the model takes its
  closer as a parameter.
- The package's own comment on `NewStdLogger` (trace.go:71) says it writes to standard
  output. The code writes to `terminal.ErrOutput`, and the model follows the code: `Stderr`.

## Model

| member | source | states |
|---|---|---|
| Sanitizer.PlaceholderSeparators | bluemix/trace/trace.go:87 | the placeholder contains no newline, `&` or `,`, so the separators that delimit matches survive redaction |
| Sanitizer.HeaderMatchAtSpec | bluemix/trace/trace.go:92-93 | a header match starts at p exactly when p starts a line holding `Authorization` or `X-Auth` plus non-space characters, then `": "`; the match runs to the end of the line and its replacement is the header name, `": "` and the placeholder |
| Sanitizer.HeaderMatchNeeds | bluemix/trace/trace.go:92 | the header pass matches only at a line start where `Authorization` or `X-Auth` is written |
| Sanitizer.HeaderLineIs | bluemix/trace/trace.go:92-93 | a line with a header of name n becomes n, `": "` and the placeholder |
| Sanitizer.HeaderPassLine | bluemix/trace/trace.go:92-93 | the header pass works line by line: the first line is rewritten on its own, the newline is kept, and the rest is processed independently |
| Sanitizer.HeaderPassLastLine | bluemix/trace/trace.go:92-93 | a final line without a newline is rewritten in the same way |
| Sanitizer.HeaderPassKeepsNewlines | bluemix/trace/trace.go:92-93 | the header pass keeps the number of lines |
| Sanitizer.HeaderPassClean | bluemix/trace/trace.go:92-93 | text with no line starting with `Authorization` or `X-Auth` is unchanged |
| Sanitizer.FirstKeyAt | bluemix/trace/trace.go:95 | reports a key length exactly when one of the listed keys, case-folded, stands at p followed by `=`, and reports none when none does |
| Sanitizer.QueryValueMatch | bluemix/trace/trace.go:95-96 | the match of a key of length n at p ends just past the first `&` after the `=`, or at the end of the input when there is none; its replacement is the key as written, `=`, the placeholder and that same `&` (or nothing) |
| Sanitizer.QueryMatchAtSpec | bluemix/trace/trace.go:95-96 | a query match starts at p exactly when `password`, `token`, `apikey` or `passcode` (any case) stands there followed by `=`, and for every such key the match is QueryValueMatch of that key's length |
| Sanitizer.QueryMatchNeeds | bluemix/trace/trace.go:95 | a query match begins with one of the four keywords in some case |
| Sanitizer.QueryPassKeepsAmpersands | bluemix/trace/trace.go:95-96 | the query pass keeps every `&`, so no parameter is merged with its neighbour |
| Sanitizer.QueryPassNeedsEquals | bluemix/trace/trace.go:95-96 | text without `=` is unchanged by the query pass |
| Sanitizer.RedactableFromSpec | bluemix/trace/trace.go:98 | the key scanner succeeds exactly when some position holds `password`, `token` or `apikey` (case-folded) with no `_` after it up to the key's closing quote |
| Sanitizer.RedactableFromDecides | bluemix/trace/trace.go:98 | the scanner decides, on the key text alone, whether the key matches the quoted-key part of the JSON pattern |
| Sanitizer.JsonValueEndSound | bluemix/trace/trace.go:98 | the value end found satisfies the value condition: spaces, a quote, no comma, a closing quote, and no later quote before the next comma |
| Sanitizer.JsonValueEndComplete | bluemix/trace/trace.go:98 | every value extent that satisfies the value condition is the one found, so the greedy `[^,]*"` extent is unique |
| Sanitizer.JsonMatchAtSpec | bluemix/trace/trace.go:98-99 | a JSON match starts at p exactly when a redactable quoted key, `:`, optional white space and a quoted comma-free value follow; the replacement is the key verbatim, `":"` and the quoted placeholder, dropping the white space |
| Sanitizer.JsonMatchNeeds | bluemix/trace/trace.go:98 | a JSON match needs one of the three keywords after its opening quote |
| Sanitizer.JsonPassKeepsCommas | bluemix/trace/trace.go:98-99 | the JSON pass keeps every `,`, so no field is swallowed into its neighbour |
| Sanitizer.JsonPassNeedsQuote | bluemix/trace/trace.go:98-99 | text without `"` is unchanged by the JSON pass |
| Sanitizer.HeaderMatchAt | bluemix/trace/trace.go:92 | the header matcher: a match it finds starts at p and ends after p within the text, so it is never empty; HeaderMatchAtSpec states exactly when it matches and with what |
| Sanitizer.QueryMatchAt | bluemix/trace/trace.go:95 | the query matcher: a match it finds is non-empty and ends within the text; QueryMatchAtSpec and QueryValueMatch state exactly when it matches and with what |
| Sanitizer.JsonMatchAt | bluemix/trace/trace.go:98 | the JSON matcher: a match it finds is non-empty and ends within the text; JsonMatchAtSpec states exactly when it matches and with what |
| Sanitizer.MatchAt | bluemix/trace/trace.go:92-98 | the pattern's preferred match at p, if any, is non-empty and ends within the text |
| Sanitizer.MatchTable | bluemix/trace/trace.go:93-99 | the candidate matches `ReplaceAllString` sees, all taken on the original text: at each position, a non-empty match inside the text or none |
| Sanitizer.ReplaceFrom | bluemix/trace/trace.go:93-99 | the left-to-right scan of `ReplaceAllString`; its contract is LeftmostMatchReplaced, NoMatchUnchanged and ReplaceFromKeepsCount |
| Sanitizer.ReplaceAll | bluemix/trace/trace.go:93-99 | `ReplaceAllString` of a pattern over a text: the scan from position 0 over the pattern's table; its contract is LeftmostMatchReplaced and NoMatchUnchanged |
| Sanitizer.HeaderPass | bluemix/trace/trace.go:92-93 | the first `ReplaceAllString`; its contract is HeaderPassLine, HeaderPassLastLine, HeaderPassKeepsNewlines, HeaderPassClean and HeaderPassNeedsColon |
| Sanitizer.QueryPass | bluemix/trace/trace.go:95-96 | the second `ReplaceAllString`; its contract is QueryPassKeepsAmpersands and QueryPassNeedsEquals |
| Sanitizer.JsonPass | bluemix/trace/trace.go:98-99 | the third `ReplaceAllString`; its contract is JsonPassKeepsCommas and JsonPassNeedsQuote |
| Sanitizer.Sanitize | bluemix/trace/trace.go:91-101 | the header pass, then the query pass on its output, then the JSON pass; its contract is CleanTextUnchanged, SanitizeNeedsDelimiters and the worked examples |
| Sanitizer.HeaderPassNeedsColon | bluemix/trace/trace.go:92-93 | text without `:` is unchanged by the header pass |
| Sanitizer.SanitizeNeedsDelimiters | bluemix/trace/trace.go:91-101 | text with no `:`, `=` or `"` comes out of Sanitize unchanged |
| Sanitizer.LeftmostMatchReplaced | bluemix/trace/trace.go:91-101 | each pass copies the text before the leftmost match, writes that match's replacement and resumes after the match |
| Sanitizer.NoMatchUnchanged | bluemix/trace/trace.go:91-101 | where no match starts, a pass copies the text unchanged |
| Sanitizer.ReplaceFromKeepsCount | bluemix/trace/trace.go:91-101 | a pass whose every replacement has as many c's as the span it replaces keeps the number of c's in the text |
| Sanitizer.CleanTextUnchanged | bluemix/trace/trace.go:91-101 | text with no header line and none of the keywords in any case is returned unchanged by each pass and by Sanitize |
| SanitizerExamples.AuthorizationHeaderHidden | bluemix/trace/trace.go:92-93 | `Authorization: Bearer abc123\n` becomes `Authorization: [PRIVATE DATA HIDDEN]\n` |
| SanitizerExamples.QueryPasswordHidden | bluemix/trace/trace.go:95-96 | `foo=1&password=secret&bar=2` becomes `foo=1&password=[PRIVATE DATA HIDDEN]&bar=2` |
| SanitizerExamples.JsonApiKeyHidden | bluemix/trace/trace.go:98-99 | `{"apikey": "xyz987"}` becomes `{"apikey":"[PRIVATE DATA HIDDEN]"}` |
| SanitizerExamples.JsonPasswordHidden | bluemix/trace/trace.go:98-99 | `{"password":"dog"}` becomes `{"password":"[PRIVATE DATA HIDDEN]"}` |
| SanitizerExamples.JsonUnderscoreKeyKept | bluemix/trace/trace.go:98-99 | `{"password_hint":"dog"}` is unchanged |
| SanitizerExamples.TwoKeyWordsRedactable | bluemix/trace/trace.go:98 | the key `token_password` is redactable: `token` has a `_` after it, but `password` does not |
| Text.FoldEq | bluemix/trace/trace.go:95-98 | `(?i)` matching of a character against a lower-case pattern letter: the letter itself, its ASCII capital, and U+017F for `s` and U+212A for `k` |
| Text.ToLower | bluemix/trace/trace.go:61 | `strings.ToLower` of the setting, character by character; its contract is ToLowerIs |
| Text.ToLowerIs | bluemix/trace/trace.go:61 | `strings.ToLower` yields a lower-case word without `i` or `k` exactly when the input is that word in some mix of ASCII cases |
| Logger.Print | bluemix/trace/trace.go:30-34 | a NullLogger's Print, Printf and Println write nothing; a logger on a writer writes exactly one entry, the text itself |
| Logger.NewLoggerImpl | bluemix/trace/trace.go:48-55 | newLoggerImpl keeps the writer's destination and captures its Close exactly when the writer is an io.WriteCloser; its contract is CloseRule |
| Logger.Close | bluemix/trace/trace.go:41-46 | loggerImpl.Close returns the captured closer's error, or nil when nothing was captured; its contract is CloseRule |
| Logger.CloseRule | bluemix/trace/trace.go:41-55 | Close of a logger made on a writer returns that writer's own Close error when the writer is an io.WriteCloser; it returns nil exactly when nothing was captured or closing succeeded |
| Logger.NewStdLogger | bluemix/trace/trace.go:72-74 | the logger writes to the error output, and its Close reports the error output's closer, or nil when there is none |
| Logger.FallbackNamesPathAndError | bluemix/trace/trace.go:81 | the fallback message holds the path right after its opening words and the error text on the next line |
| Logger.NewFileLogger | bluemix/trace/trace.go:77-85 | NewFileLogger on the outcome of opening the path; its contract is FileLoggerOutcome |
| Logger.FileLoggerOutcome | bluemix/trace/trace.go:77-85 | NewFileLogger always returns a logger on a writer. If the file opens, it writes to that file, has written nothing, and its Close closes the file. If the file does not open, it is the error-output logger and has written exactly one message, which names the path and the error |
| Logger.NewLogger | bluemix/trace/trace.go:60-69 | NewLogger's switch on `strings.ToLower` of the setting; its contract is NewLoggerDispatch and NewLoggerPrints |
| Logger.NewLoggerDispatch | bluemix/trace/trace.go:60-69 | the setting gives a NullLogger exactly when it is empty or `false` in any case, and the error-output logger exactly when it is `true` in any case; any other setting is the path of a log file, passed as written |
| Logger.NewLoggerPrints | bluemix/trace/trace.go:60-69 | a printer from NewLogger is silent exactly when the setting is empty or `false` in any case |
| Logger.FallbackTextAsWritten | bluemix/trace/trace.go:81 | the text the fallback writes as coded equals the message when neither the path nor the error contains `%` |
| Logger.FallbackTextLosesPath | bluemix/trace/trace.go:81 | with the path `%d` and the error text `os.OpenFile` gives for it (`open %d: ` and a reason without `%`), the written text is twenty characters longer than the message: the path is lost in both places it appears |
| Fmt.SprintfNoArgs | bluemix/trace/trace.go:81 | a format without `%` is written unchanged |
| Fmt.SprintfPlainPrefix | bluemix/trace/trace.go:81 | `%`-free text in front of a format passes through unchanged |
| Fmt.SprintfMissingVerb | bluemix/trace/trace.go:81 | `%d` with no operand is written as `%!d(MISSING)` |

## Left out

- File opening is not modelled. `os.OpenFile`, its create, read-write and append flags and its
  0666 permission (trace.go:78) become the input `OpenResult`: opened with a closer, or failed
  with an error text.
- Writes to the error output or to a file are not modelled.
- Formatting through `log.Logger` and `fmt` is not modelled: prefixes, flags, the newline
  `log` adds, and the variadic operands of Print, Printf and Println. A logger on a writer
  records each Print, Printf or Println as one entry holding the text.
- The i18n `T` template is not modelled. The message is its English text with the path and
  the error filled in.
- The package-level `Logger` variable (trace.go:57) is global wiring and is not modelled.
- `terminal.ErrOutput`'s type is not part of this model. Whether it is an `io.WriteCloser` is
  the parameter `stderr`.
- `NewLogger` takes the outcome of opening the path as a parameter. That outcome is used only
  when the setting names a file.
- `Printer` and `PrinterCloser` are Go interfaces. Here they are a closed datatype: a
  NullLogger or a logger on a writer.
- Fmt.SprintfNoArgs: it does not follow a `%` followed by a flag, width, precision, `*` or
  `[`, and returns None there. It is total only for the formats the finding needs.
- Sanitize is not proved idempotent. The three passes would have to be shown not to create
  new matches for each other.
- Go works on UTF-8 bytes; here strings are sequences of code points, so invalid UTF-8 is
  not modelled.
- `strings.ToLower` is modelled only where the result is ASCII: ASCII capitals, U+0130 and
  U+212A. Every other character keeps its value. Its real lower case is never ASCII, so the
  switch on `true` and `false` is unaffected.
- Closing a logger twice, and its effect on later writes, are not modelled.

## Findings

| source | as written | input that shows it | evidently intended | confidence | as-written member | corrected member |
|---|---|---|---|---|---|---|
| bluemix/trace/trace.go:81 | the rendered failure message is passed to `Printf` as its format, with no operands, so `fmt` interprets every `%` in the path or the error text | path `%d`, with the error text `os.OpenFile` gives for it, `open %d: ` and a reason without `%`: the text written shows `%!d(MISSING)` both times the path should appear | write the message verbatim, for example with `Print` or `Printf("%s", msg)`, so it names the path and the error as given | high; not executed | Logger.FallbackTextLosesPath | Logger.FileLoggerOutcome |
