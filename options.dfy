/** The mode resolution of `Opts::new`: the parsed command-line flags are
    mapped to an output mode, a match mode and a numeric bound. Strings are
    held as their UTF-8 bytes. */
module Options {
  import opened Bytes

  /** Whether every record is written (`Replace`) or only what matched (`Extract`). */
  datatype OutputMode = Replace | Extract

  /** Whether the pattern is a regular expression or a verbatim byte string. */
  datatype MatchMode = Regex | Verbatim

  /** The flags as parsed from the command line. */
  datatype CliOpts = CliOpts(
    pattern: seq<byte>,
    replace: Option<seq<byte>>,
    max: Option<usize>,
    extract: bool,
    simple: bool,
    delimiter: seq<byte>)

  /** The resolved options the rest of the program reads. */
  datatype Opts = Opts(
    pattern: seq<byte>,
    replace: Option<seq<byte>>,
    max: usize,
    outputMode: OutputMode,
    matchMode: MatchMode,
    delimiter: seq<byte>)

  /** The bound defaults to `usize::MAX`; the extract flag or a missing
      replacement selects extraction; the simple flag selects verbatim
      matching; pattern, replacement and delimiter are carried over. */
  function Resolve(clio: CliOpts): (opts: Opts)
    ensures clio.max.None? ==> opts.max == USIZE_MAX
    ensures clio.max.Some? ==> opts.max == clio.max.value
    ensures clio.extract ==> opts.outputMode == Extract
    ensures clio.replace.None? ==> opts.outputMode == Extract
    ensures opts.outputMode == Replace <==> clio.replace.Some? && !clio.extract
    ensures opts.matchMode == Verbatim <==> clio.simple
    ensures opts.pattern == clio.pattern && opts.replace == clio.replace && opts.delimiter == clio.delimiter
  {
    var max := clio.max.GetOr(USIZE_MAX);
    var outputMode := if clio.extract || clio.replace.None? then Extract else Replace;
    var matchMode := if clio.simple then Verbatim else Regex;
    Opts(clio.pattern, clio.replace, max, outputMode, matchMode, clio.delimiter)
  }
}
