/** The program's dispatch: the replacement's presence and the extract flag
    choose between replacing and extracting, the simple flag between verbatim
    and regular-expression matching, and one of four record algorithms runs
    over the whole record stream. */
module Fresh {
  import opened Bytes
  import Options
  import VerbatimReplace
  import VerbatimExtract
  import Regex

  /** The four record algorithms. */
  datatype Algorithm = StaticReplace | StaticExtract | RegexReplace | RegexExtract

  /** The flags as the program parses them: the bound stays optional and the
      two modes are still raw flags. */
  datatype Opts = Opts(
    pattern: seq<byte>,
    replace: Option<seq<byte>>,
    max: Option<usize>,
    extract: bool,
    simple: bool,
    delimiter: seq<byte>)

  /** The algorithm the program's two nested tests select. */
  function Dispatch(opts: Opts): (alg: Algorithm)
    ensures alg.StaticExtract? || alg.RegexExtract? <==> opts.replace.None? || opts.extract
    ensures alg.StaticExtract? || alg.StaticReplace? <==> opts.simple
  {
    if opts.replace.None? || opts.extract then
      if opts.simple then StaticExtract else RegexExtract
    else
      if opts.simple then StaticReplace else RegexReplace
  }

  /** The algorithm a pair of resolved modes stands for. */
  function Cell(opts: Options.Opts): Algorithm {
    match opts.outputMode
    case Extract => if opts.matchMode.Verbatim? then StaticExtract else RegexExtract
    case Replace => if opts.matchMode.Verbatim? then StaticReplace else RegexReplace
  }

  /** The flags given to `Opts::new` as the command line parsed them. */
  function ToCli(opts: Opts): Options.CliOpts {
    Options.CliOpts(opts.pattern, opts.replace, opts.max, opts.extract, opts.simple, opts.delimiter)
  }

  /** Resolving the flags into modes selects, for every combination of flags
      and of the replacement's presence, the algorithm the dispatch runs. */
  lemma ResolveSelectsDispatchedCell(opts: Opts)
    ensures Cell(Options.Resolve(ToCli(opts))) == Dispatch(opts)
  {
  }

  /** Whether the run needs the match ranges of every record inside it: only
      regular-expression extraction without a template slices the records. */
  predicate RangesNeeded(opts: Opts) {
    Dispatch(opts) == RegexExtract && opts.replace.None?
  }

  /** The program on a stream of records: `compiled` is the compiled
      pattern, None when it does not compile (regular-expression modes only);
      `platform` fixes the terminator. */
  method Run(opts: Opts, records: seq<seq<byte>>, compiled: Option<Regex.Engine>, platform: Platform)
    returns (res: Outcome)
    requires opts.simple ==> |opts.pattern| > 0
    requires RangesNeeded(opts) && compiled.Some? ==> Regex.AllSpansWithin(records, compiled.value)
    ensures Dispatch(opts) == StaticExtract ==>
      res == VerbatimExtract.ExtractStream(records, opts.pattern, opts.replace.GetOr(opts.pattern),
                                           opts.max.GetOr(USIZE_MAX), Newline(platform))
    ensures Dispatch(opts) == StaticReplace ==>
      res == Completed(VerbatimReplace.ReplaceStream(records, opts.pattern, opts.replace.value,
                                                     opts.max.GetOr(USIZE_MAX), Newline(platform)))
    ensures Dispatch(opts) == RegexExtract ==>
      res == match compiled
             case None => InvalidPattern
             case Some(re) =>
               Completed(Regex.ExtractStream(records, re, opts.replace, opts.max.GetOr(USIZE_MAX), Newline(platform)))
    ensures Dispatch(opts) == RegexReplace ==>
      res == match compiled
             case None => InvalidPattern
             case Some(re) =>
               Completed(Regex.ReplaceStream(records, re, opts.replace.value, opts.max, Newline(platform)))
  {
    var nl := Newline(platform);
    if opts.replace.None? || opts.extract {
      if opts.simple {
        res := VerbatimExtract.StaticExtract(records, opts.pattern, opts.replace, opts.max, nl);
      } else if compiled.None? {
        res := InvalidPattern;
      } else {
        var out := Regex.RegexExtract(records, compiled.value, opts.replace, opts.max, nl);
        res := Completed(out);
      }
    } else {
      var repl := opts.replace.value;
      if opts.simple {
        var out := VerbatimReplace.StaticReplace(records, opts.pattern, repl, opts.max, nl);
        res := Completed(out);
      } else if compiled.None? {
        res := InvalidPattern;
      } else {
        var out := Regex.RegexReplace(records, compiled.value, repl, opts.max, nl);
        res := Completed(out);
      }
    }
  }
}
