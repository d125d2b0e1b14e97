# fresh: a model of its record-level find and replace

`fresh` reads a byte stream cut into records and, record by record, either
replaces occurrences of a pattern (writing the whole record) or extracts
them (writing only what matched). The pattern is a regular expression or,
with the simple flag, a verbatim byte string. So there are four record
algorithms:

- `static_replace`: verbatim replace;
- `static_extract`: verbatim extract;
- `regex_replace`: regular-expression replace;
- `regex_extract`: regular-expression extract.

A number of options caps the matches handled per record. Records are
framed on output by a fixed terminator, "\n" or "\r\n" depending on the
platform, and each algorithm has its own rule for when to write it:

- `regex_replace` writes it after every record;
- `static_replace` writes it only when the suffix left after the last
  replacement is non-empty;
- the two extract algorithms write it only when the record's buffer is
  non-empty.

The Dafny modules follow the source:

- `Bytes`: bytes, the `usize` bound, the terminator, and how a run ends
  (`Outcome`: completed, panicked, or the pattern did not compile).
- `Search`: `find_subslice`, the leftmost window search, as a function
  with its leftmost-match lemma, and the loop itself as `FindSubslice`.
- `Leftmost`: the reference the verbatim loops are proved against. It is
  the decomposition of a record at its leftmost non-overlapping matches,
  at most `budget` deep (`LeftmostSplit`), with a declarative
  characterisation (`IsLeftmostSplit`) proved equivalent to it. It also
  counts those matches (`Occurrences`).
- `VerbatimReplace`, `VerbatimExtract`: `static_replace` and
  `static_extract` as methods with the source's loops. The output stream
  is a byte sequence the methods append to. Each method is proved equal to
  a specification function over the record stream, and the properties are
  lemmas about those functions.
- `Regex`: `regex_replace` and `regex_extract` around an abstract compiled
  pattern (`Engine`), proved against their own stream functions.
- `Options`: the flag-to-mode resolution of `Opts::new` in `src/opt.rs`.
- `Fresh`: the 2×2 dispatch of `main` over the four algorithms.

The code is followed as written, including two places where it departs
from what the rest of the source evidently intends:

- `static_replace` can end a record without a terminator. `regex_replace`
  frames every record (src/main.rs:104, 109).
- `static_extract` resumes the scan `n + repl.len()` bytes into the suffix.
  `static_replace` resumes after the whole match (src/main.rs:148), and the
  doc comment of `static_extract` promises the template "for every
  occurrence" of the pattern (src/main.rs:211-213).

See "## Findings". There, the corrected definitions are proved beside the
as-written ones, and `Fresh.Run` keeps the as-written behaviour.

## Model

| member | source | states |
|---|---|---|
| Bytes.Newline | src/main.rs:16-19 | the terminator is non-empty and ends in a line feed; it is two bytes ("\r\n") exactly on Windows |
| Search.Find | src/main.rs:56-71 | no match when the needle is longer than the haystack; a found window lies inside the haystack |
| Search.FindIsLeftmost | src/main.rs:60-70 | a found index starts a window equal to the needle and no smaller index does; None exactly when no index starts such a window |
| Search.FindFromIsLeftmost | src/main.rs:64-70 | the scan from a given index finds the first window equal to the needle at or after it, and None only when there is none |
| Search.FindSubslice | src/main.rs:56-71 | the early return and the window loop return exactly the leftmost match (`Find`) |
| Leftmost.Occurrences | src/main.rs:143-153 | the number of leftmost non-overlapping occurrences, scanning on after each whole match, is at most the record's length |
| Leftmost.LeftmostSplitIsLeftmost | src/main.rs:143-153 | the scan's decomposition puts the record back together; each consumed match is the leftmost one of its suffix; the rest holds no match unless the bound ran out |
| Leftmost.LeftmostSplitUnique | src/main.rs:143-153 | any decomposition with those properties is the scan's: the characterisation is exact |
| Leftmost.SplitCount | src/main.rs:143-153 | a scan bounded by `n_rep` consumes min(n_rep, k) of the k occurrences, and the other occurrences are all still in the rest |
| Leftmost.UnboundedConsumesAll | src/main.rs:136 | with the `usize::MAX` default bound every occurrence is consumed and the rest holds no match |
| Leftmost.NoOccurrences | src/main.rs:144-151 | a count of zero means the pattern occurs nowhere, and conversely |
| VerbatimReplace.ReplaceRecord | src/main.rs:140-158 | the bytes written for one record: every byte outside the consumed matches is kept, so the output is the record's length with the replacement's length in place of the pattern's per consumed match, plus the terminator only after a non-empty rest |
| VerbatimReplace.ReplaceRecordStep | src/main.rs:144-149 | one loop turn writes the bytes before the leftmost match and the replacement, then the record output continues on the suffix after the whole match |
| VerbatimReplace.ReplaceRecordStop | src/main.rs:150-158 | when the bound is used up or no match is left, the suffix is written with the terminator if non-empty, and nothing otherwise |
| VerbatimReplace.WriteReplaced | src/main.rs:140-158 | the per-record loop appends to the output exactly the record's replaced form (`ReplaceRecord`) |
| VerbatimReplace.StaticReplace | src/main.rs:121-162 | the whole output is the records' replaced forms in order, with `n_rep` defaulting to `usize::MAX` |
| VerbatimReplace.ReplaceByItself | src/main.rs:143-158 | replacing the pattern by itself gives the record back, with a terminator only when the rest after the last consumed match is non-empty |
| VerbatimReplace.ReplaceWithoutMatchCopies | src/main.rs:143-158 | with a zero bound, or no occurrence, a record is written unchanged (with its terminator when non-empty) |
| VerbatimReplace.ReplaceCount | src/main.rs:143-156 | the output is gaps and replacements, then the untouched rest; gaps and pattern rebuild the record; min(n_rep, k) substitutions are made and the other occurrences stay in the rest |
| VerbatimReplace.ReplaceDropsTerminator | src/main.rs:155-158 | record "a" with "a" replaced by "b" writes "b" and no terminator; an empty record writes nothing |
| VerbatimReplace.ReplaceRecordTerminated | src/main.rs:155-158 | the corrected record output always ends in the terminator |
| VerbatimReplace.ReplaceTerminatedRoundTrip | src/main.rs:155-158 | corrected, replacing the pattern by itself gives the record and one terminator; it agrees with the code whenever the rest is non-empty |
| VerbatimExtract.ExtractFrom | src/main.rs:235-247 | one record's scan, resuming the template's length past the match start and failing where the slice runs past the suffix: the buffer is only appended to, and the slice can run past the end only when the template is longer than the pattern |
| VerbatimExtract.ScanRecord | src/main.rs:235-247 | the per-record loop ends with the buffer `ExtractFrom` gives, or reports the slice past the end exactly when `ExtractFrom` gives None |
| VerbatimExtract.PanicEndsRun | src/main.rs:242-243 | once a record's slice panics, the run's outcome is fixed, with nothing written after |
| VerbatimExtract.StaticExtract | src/main.rs:215-257 | the outcome is `ExtractStream` with the template defaulting to the pattern and `n_rep` to `usize::MAX`; the buffer is empty whenever a record starts |
| VerbatimExtract.ExtractSameLength | src/main.rs:228-247 | with no template (or one as long as the pattern) a record's buffer is min(n_rep, k) copies of the template and never panics |
| VerbatimExtract.ExtractOnlyTemplates | src/main.rs:238-247 | whatever the template, a scan that does not panic appends only copies of the template, at most `n_rep` of them |
| VerbatimExtract.ExtractEmptyTemplate | src/main.rs:240-243 | an empty template does not advance the scan and leaves the buffer unchanged |
| VerbatimExtract.ExtractZeroBound | src/main.rs:238-253 | with `n_rep` zero no byte is written for any stream |
| VerbatimExtract.ExtractPanicsOnLongTemplate | src/main.rs:242-243 | pattern "a", template "xyz", record "ab": the scan slices past the end |
| VerbatimExtract.ExtractOvercountsOnShortTemplate | src/main.rs:242-243 | pattern "aa", template "b", record "aaa": one occurrence, yet "bb" is collected |
| VerbatimExtract.ExtractIntended | src/main.rs:238-247 | corrected, the buffer is min(n_rep, k) copies of the template for k leftmost non-overlapping occurrences |
| Regex.RegexReplace | src/main.rs:79-115 | the output is every record's replacement, owned or borrowed, each followed by one terminator: the two branches write the same bytes |
| Regex.ReplaceStreamIsLines | src/main.rs:95-112 | the output is the replaced records, each followed by exactly one terminator, empty ones included |
| Regex.ReplaceWithoutMatchCopies | src/main.rs:107-110 | when the engine borrows every record unchanged, the records are written back, each with one terminator |
| Regex.FillBuffer | src/main.rs:190-198 | one record appends to the buffer the expansions (or matched bytes) of its first `n_rep` matches, nothing between them |
| Regex.RegexExtract | src/main.rs:170-208 | the output is `ExtractStream`: per record, the buffer and one terminator when the buffer is non-empty, nothing otherwise; the buffer is empty whenever a record starts |
| Regex.ExtractZeroBound | src/main.rs:184-204 | with `n_rep` zero no byte is written for any stream |
| Regex.MatchedBytesLength | src/main.rs:195-197 | without a template the buffer is exactly as long as the matches it took: no separator is added |
| Regex.ExtractDigitsExample | src/main.rs:195-203 | matches "12" and "34" in "x12y34" are written as "1234" and one line feed |
| Options.Resolve | src/opt.rs:76-103 | `max` defaults to `usize::MAX` and is otherwise kept; the extract flag or a missing replacement gives Extract, and Replace exactly when a replacement is present and the flag is clear; Verbatim exactly when the simple flag is set; pattern, replacement and delimiter pass through |
| Fresh.Dispatch | src/main.rs:275-317 | an extract algorithm runs exactly when the replacement is missing or the extract flag is set, and a verbatim one exactly when the simple flag is set |
| Fresh.ResolveSelectsDispatchedCell | src/opt.rs:77-86 | for all flags, the resolved modes name the algorithm the dispatch in `main` runs |
| Fresh.Run | src/main.rs:275-317 | the run's outcome is that of the selected algorithm on the record stream: the verbatim extract outcome, the verbatim replace output, or for the regular-expression modes the output or, when the pattern does not compile, nothing |

## Left out

- Regular-expression semantics: compiling the pattern, `replacen`, `replace_all`, `find_iter`, `captures_iter` and `expand` belong to the `regex` crate. They are the fields of `Regex.Engine` and are uninterpreted. A pattern that does not compile is a None engine, so nothing is proved about what a regular expression matches. The crate's convention that a limit of 0 means "replace all" is not modelled either.
- Record chunking: `ByteChunker` and the delimiter it compiles belong to the `regex_chunker` crate. Records arrive as a sequence. The delimiter only passes through `Options.Resolve`, and an invalid delimiter is not modelled.
- Streams and I/O: the output stream is a byte sequence that is appended to, and every write is a full append (`write` and `write_all` alike). Command-line parsing, opening files or standard input and output, `BufWriter` and `flush` are not modelled. Neither are read and write errors with `FrErr`.
- The terminator: the compile-time platform choice becomes a `Platform` parameter.
- `src/opt.rs` is not compiled into the binary, whose `main` reads its own option struct. `Options.Resolve` is modelled as written and related to `main`'s dispatch by `Fresh.ResolveSelectsDispatchedCell`.
- Search.FindSubslice: requires a non-empty needle, because the source panics when it asks for windows of length zero.
- VerbatimReplace.StaticReplace: requires a non-empty pattern for the same reason.
- VerbatimExtract.StaticExtract: requires a non-empty pattern for the same reason.
- Fresh.Run: requires a non-empty pattern in verbatim mode. In the source, an empty one panics at the first search of the first record, when the bound is positive.
- Regex.RegexExtract: requires every match range to lie inside its record, which the `regex` crate guarantees. Slicing the record at a range outside it is not modelled.
- Integer width: lengths and offsets are unbounded integers. The bound and the counter are `usize`, and no addition can overflow it: the counter stays below the bound, and offsets stay within a record held in memory.

## Findings

| source | as written | input that shows it | evidently intended | confidence | as-written member | corrected member |
|---|---|---|---|---|---|---|
| src/main.rs:155-158 | the terminator is written only when the suffix left after the last replacement is non-empty | pattern "a", replacement "b", record "a": "b" is written with no line feed, so the next record runs on after it; an empty record writes nothing | every record's output ends with one terminator, as `regex_replace` does | high, not executed | VerbatimReplace.ReplaceDropsTerminator | VerbatimReplace.ReplaceRecordTerminated |
| src/main.rs:242 | the scan resumes `n + repl.len()` bytes in, inside the match when the template is shorter than the pattern | pattern "aa", template "b", record "aaa": one occurrence, but "bb" is extracted | resume after the whole match (`n + patt.len()`) | high, not executed | VerbatimExtract.ExtractOvercountsOnShortTemplate | VerbatimExtract.ExtractIntended |
| src/main.rs:242-243 | the scan resumes `n + repl.len()` bytes in, past the end of the suffix when the template is longer than what follows the match | pattern "a", template "xyz", record "ab": the slice panics | resume after the whole match, which always lies inside the suffix | high, not executed | VerbatimExtract.ExtractPanicsOnLongTemplate | VerbatimExtract.ExtractIntended |
