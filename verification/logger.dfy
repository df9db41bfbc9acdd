/**
 * The trace sinks of bluemix/trace: the do-nothing NullLogger, loggers on the terminal's error
 * output and on a log file, NewLogger's choice between them from the BLUEMIX_TRACE setting, the
 * fallback to the error output when the log file cannot be opened, and the rule that a logger
 * closes its writer only when it captured that writer as an io.WriteCloser.
 */
module Logger {
  import opened Text
  import Fmt

  /** A Go error value: nil, or an error whose Error() text is given. */
  datatype Error = Nil | Failure(text: string)

  /** The Close method of an io.WriteCloser, seen through the error it returns. */
  datatype Closer = Closer(result: Error)

  /** Where a logger writes: the terminal's error output, or the log file at a path. */
  datatype Destination = Stderr | LogFile(path: string)

  /** An io.Writer; closer is present exactly when the writer is also an io.WriteCloser. */
  datatype Writer = Writer(dest: Destination, closer: Option<Closer>)

  /** loggerImpl: a log.Logger on out, with empty prefix and no flags, and the closer c. */
  datatype LoggerImpl = LoggerImpl(out: Destination, c: Option<Closer>)

  /** The Printer values the package hands out: a NullLogger, or a loggerImpl. */
  datatype Printer = NullLogger | Impl(logger: LoggerImpl)

  /** A printer together with the messages it wrote while it was being made. */
  datatype Made = Made(printer: Printer, emitted: seq<string>)

  /** What os.OpenFile did with the log path: opened a file, or failed with an error text. */
  datatype OpenResult = Opened(file: Closer) | OpenFailed(err: string)

  /**
   * The lines a Print, Printf or Println of text writes. A NullLogger writes nothing; a
   * loggerImpl writes one entry to its destination.
   */
  function Print(p: Printer, text: string): (lines: seq<string>)
    ensures p.NullLogger? <==> lines == []
    ensures p.Impl? ==> lines == [text]
  {
    match p
    case NullLogger => []
    case Impl(_) => [text]
  }

  /** newLoggerImpl: a logger on out that keeps out's Close when out is an io.WriteCloser. */
  function NewLoggerImpl(out: Writer): LoggerImpl {
    LoggerImpl(out.dest, out.closer)
  }

  /** loggerImpl.Close: close the captured writer, or report nil when nothing was captured. */
  function Close(l: LoggerImpl): Error {
    match l.c
    case None => Nil
    case Some(closer) => closer.result
  }

  /**
   * Closing a logger made on a writer reports the writer's own Close error when the writer
   * is an io.WriteCloser, and nil when it is not: nil comes back exactly when there was
   * nothing to close or closing succeeded.
   */
  lemma CloseRule(out: Writer)
    ensures out.closer.Some? ==> Close(NewLoggerImpl(out)) == out.closer.value.result
    ensures Close(NewLoggerImpl(out)) == Nil <==> out.closer.None? || out.closer.value.result == Nil
  {
  }

  /**
   * NewStdLogger: a logger on the terminal's error output. Whether that output is an
   * io.WriteCloser is not known here, so its closer is the parameter stderr.
   */
  function NewStdLogger(stderr: Option<Closer>): (l: LoggerImpl)
    ensures l.out == Stderr
    ensures Close(l) == (if stderr.Some? then stderr.value.result else Nil)
  {
    NewLoggerImpl(Writer(Stderr, stderr))
  }

  const MessageHead: string := "An error occurred when creating log file '"
  const MessageMid: string := "':\n"
  const MessageTail: string := "\n\n"

  /** The message NewFileLogger writes when the log file cannot be created. */
  function FallbackMessage(path: string, err: string): string {
    MessageHead + path + MessageMid + err + MessageTail
  }

  /**
   * The fallback message names the path, quoted, right after its fixed opening words, and the
   * error text on the following line.
   */
  lemma FallbackNamesPathAndError(path: string, err: string)
    ensures StartsAt(FallbackMessage(path, err), 0, MessageHead)
    ensures StartsAt(FallbackMessage(path, err), |MessageHead|, path)
    ensures StartsAt(FallbackMessage(path, err), |MessageHead| + |path|, MessageMid)
    ensures StartsAt(FallbackMessage(path, err), |MessageHead| + |path| + |MessageMid|, err)
    ensures |FallbackMessage(path, err)| == |MessageHead| + |path| + |MessageMid| + |err| + |MessageTail|
  {
    var m := FallbackMessage(path, err);
    var a := |MessageHead|;
    var b := a + |path|;
    var c := b + |MessageMid|;
    assert m[..a] == MessageHead;
    assert m[a..b] == path;
    assert m[b..c] == MessageMid;
    assert m[c..c + |err|] == err;
  }

  /**
   * NewFileLogger: a logger on the opened log file; when the file cannot be opened, a logger
   * on the error output that has written one message about the failure.
   */
  function NewFileLogger(path: string, open: OpenResult, stderr: Option<Closer>): Made {
    match open
    case OpenFailed(err) => Made(Impl(NewStdLogger(stderr)), [FallbackMessage(path, err)])
    case Opened(file) => Made(Impl(NewLoggerImpl(Writer(LogFile(path), Some(file)))), [])
  }

  /**
   * NewFileLogger always returns a working logger. When the file opens, the logger writes to
   * it, has written nothing yet, and its Close closes the file. When the file does not open,
   * the logger writes to the error output and has written exactly one message, which names
   * the path and the error.
   */
  lemma FileLoggerOutcome(path: string, open: OpenResult, stderr: Option<Closer>)
    ensures NewFileLogger(path, open, stderr).printer.Impl?
    ensures open.Opened? ==>
      var m := NewFileLogger(path, open, stderr);
      m.printer.logger.out == LogFile(path) && m.emitted == [] && Close(m.printer.logger) == open.file.result
    ensures open.OpenFailed? ==>
      var m := NewFileLogger(path, open, stderr);
      && m.printer.logger == NewStdLogger(stderr)
      && |m.emitted| == 1
      && StartsAt(m.emitted[0], |MessageHead|, path)
      && StartsAt(m.emitted[0], |MessageHead| + |path| + |MessageMid|, open.err)
  {
    if open.OpenFailed? {
      FallbackNamesPathAndError(path, open.err);
    } else {
      CloseRule(Writer(LogFile(path), Some(open.file)));
    }
  }

  /**
   * NewLogger: the setting chooses the sink after strings.ToLower. Empty or "false" gives a
   * NullLogger, "true" the error output, anything else is the path of a log file. open is what
   * opening that path gives; it matters only in the last case.
   */
  function NewLogger(setting: string, open: OpenResult, stderr: Option<Closer>): Made {
    var lower := ToLower(setting);
    if lower == "" || lower == "false" then Made(NullLogger, [])
    else if lower == "true" then Made(Impl(NewStdLogger(stderr)), [])
    else NewFileLogger(setting, open, stderr)
  }

  /**
   * The setting disables tracing exactly when it is empty or "false" in any letter case; it
   * selects the error output, with nothing written, exactly when it is "true" in any letter
   * case; every other setting is taken, as written, for the path of a log file.
   */
  lemma NewLoggerDispatch(setting: string, open: OpenResult, stderr: Option<Closer>)
    ensures NewLogger(setting, open, stderr).printer.NullLogger? <==>
      setting == "" || AnyCaseOf(setting, "false")
    ensures NewLogger(setting, open, stderr) == Made(Impl(NewStdLogger(stderr)), []) <==>
      AnyCaseOf(setting, "true")
    ensures setting != "" && !AnyCaseOf(setting, "false") && !AnyCaseOf(setting, "true") ==>
      NewLogger(setting, open, stderr) == NewFileLogger(setting, open, stderr)
  {
    ToLowerIs(setting, "false");
    ToLowerIs(setting, "true");
    assert ToLower(setting) == "" <==> setting == "";
    var m := NewLogger(setting, open, stderr);
    if m == Made(Impl(NewStdLogger(stderr)), []) && !AnyCaseOf(setting, "true") {
      FileLoggerOutcome(setting, open, stderr);
    }
  }

  /** Every setting yields a printer, and only a NullLogger stays silent on Print. */
  lemma NewLoggerPrints(setting: string, open: OpenResult, stderr: Option<Closer>, text: string)
    ensures var p := NewLogger(setting, open, stderr).printer;
      Print(p, text) == [] <==> setting == "" || AnyCaseOf(setting, "false")
  {
    NewLoggerDispatch(setting, open, stderr);
  }

  /**
   * The text the fallback logger writes as the source has it: the message goes to Printf as
   * its format, with no operands, so fmt interprets every '%' in the path or the error text.
   */
  function FallbackTextAsWritten(path: string, err: string): (r: Option<string>)
    ensures '%' !in path && '%' !in err ==> r == Some(FallbackMessage(path, err))
  {
    assert '%' !in MessageHead && '%' !in MessageMid && '%' !in MessageTail;
    Fmt.SprintfNoArgs(FallbackMessage(path, err))
  }

  /**
   * A log path containing "%d" does not reach the error output. The error text os.OpenFile
   * gives is "open " + path + ": " + the system's reason, so the path appears twice in the
   * message and each "%d" becomes "%!d(MISSING)": the written text is twenty characters longer.
   */
  lemma FallbackTextLosesPath(path: string, err: string, reason: string)
    requires path == "%d" && err == "open " + path + ": " + reason && '%' !in reason
    ensures FallbackTextAsWritten(path, err).Some?
    ensures |FallbackTextAsWritten(path, err).value| == |FallbackMessage(path, err)| + 20
  {
    var mid := MessageMid + "open ";
    var rest := ": " + reason + MessageTail;
    var tail := mid + ("%d" + rest);
    assert '%' !in MessageHead && '%' !in mid && '%' !in rest;
    assert FallbackMessage(path, err) == MessageHead + ("%d" + tail);
    var missing := "%!d(MISSING)";
    Fmt.SprintfMissingVerb(rest);
    Fmt.SprintfPlainPrefix(mid, "%d" + rest);
    assert Fmt.SprintfNoArgs(tail) == Some(mid + (missing + rest));
    Fmt.SprintfMissingVerb(tail);
    Fmt.SprintfPlainPrefix(MessageHead, "%d" + tail);
    assert FallbackTextAsWritten(path, err) == Some(MessageHead + (missing + (mid + (missing + rest))));
  }
}
