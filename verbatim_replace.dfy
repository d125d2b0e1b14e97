/** `static_replace`: verbatim find/replace over each record, at most `n_rep`
    substitutions per record. */
module VerbatimReplace {
  import opened Bytes
  import opened Search
  import opened Leftmost

  /** The bytes written for one record: for each consumed match, the bytes
      before it followed by the replacement; then the untouched remaining
      suffix, followed by the terminator only when that suffix is non-empty.
      So every byte of the record outside the `k` consumed matches is
      written: the output is the record's length, with `|repl|` in place of
      `|patt|` for each consumed match, plus a terminator only after a
      non-empty rest. */
  function ReplaceRecord(chunk: seq<byte>, patt: seq<byte>, repl: seq<byte>, nRep: nat, nl: seq<byte>): (out: seq<byte>)
    requires |patt| > 0
    ensures var sp := LeftmostSplit(chunk, patt, nRep);
      |out| + Times(|sp.gaps|, |patt|) == |chunk| + Times(|sp.gaps|, |repl|) + (if sp.rest == [] then 0 else |nl|)
  {
    var sp := LeftmostSplit(chunk, patt, nRep);
    LeftmostSplitIsLeftmost(chunk, patt, nRep);
    JoinLength(sp.gaps, repl);
    JoinLength(sp.gaps, patt);
    Join(sp.gaps, repl) + LineIfNonEmpty(sp.rest, nl)
  }

  /** The bytes written for a whole stream of records, record after record. */
  function ReplaceStream(records: seq<seq<byte>>, patt: seq<byte>, repl: seq<byte>, nRep: nat, nl: seq<byte>): seq<byte>
    requires |patt| > 0
  {
    if records == [] then []
    else ReplaceStream(records[..|records| - 1], patt, repl, nRep, nl) + ReplaceRecord(records[|records| - 1], patt, repl, nRep, nl)
  }

  /** One turn of the scanning loop: write the bytes before the leftmost
      match and the replacement, and go on after the match. */
  lemma ReplaceRecordStep(s: seq<byte>, patt: seq<byte>, repl: seq<byte>, budget: nat, nl: seq<byte>, n: nat)
    requires |patt| > 0 && budget > 0 && Find(s, patt) == Some(n)
    ensures ReplaceRecord(s, patt, repl, budget, nl)
         == s[..n] + repl + ReplaceRecord(s[n + |patt|..], patt, repl, budget - 1, nl)
  {
    var tail := LeftmostSplit(s[n + |patt|..], patt, budget - 1);
    assert LeftmostSplit(s, patt, budget) == Split([s[..n]] + tail.gaps, tail.rest);
    JoinCons(s[..n], tail.gaps, repl);
  }

  /** The body of `static_replace` for one record: scan a shrinking suffix,
      writing the bytes before each match and the replacement, until `n_rep`
      substitutions or no further match; then write the remaining suffix and
      the terminator, only if that suffix is non-empty. */
  method WriteReplaced(out: seq<byte>, chunk: seq<byte>, patt: seq<byte>, repl: seq<byte>, nRep: usize, nl: seq<byte>)
    returns (written: seq<byte>)
    requires |patt| > 0
    ensures written == out + ReplaceRecord(chunk, patt, repl, nRep, nl)
  {
    written := out;
    var subslice := chunk;
    var nReplaced: usize := 0;
    while nReplaced < nRep
      invariant nReplaced <= nRep
      invariant written + ReplaceRecord(subslice, patt, repl, nRep - nReplaced, nl)
             == out + ReplaceRecord(chunk, patt, repl, nRep, nl)
    {
      var found := FindSubslice(subslice, patt);
      if found.None? {
        break;
      }
      var n := found.value;
      ReplaceRecordStep(subslice, patt, repl, nRep - nReplaced, nl, n);
      AppendTwo(written, subslice[..n], repl, ReplaceRecord(subslice[n + |patt|..], patt, repl, nRep - nReplaced - 1, nl));
      written := written + subslice[..n];
      written := written + repl;
      nReplaced := nReplaced + 1;
      var offs := n + |patt|;
      subslice := subslice[offs..];
    }
    ReplaceRecordStop(subslice, patt, repl, nRep - nReplaced, nl);
    if subslice != [] {
      AppendPair(written, subslice, nl);
      written := written + subslice;
      written := written + nl;
    }
  }

  /** The loop stops: the bound is used up or the suffix holds no match. */
  lemma ReplaceRecordStop(s: seq<byte>, patt: seq<byte>, repl: seq<byte>, budget: nat, nl: seq<byte>)
    requires |patt| > 0 && (budget == 0 || Find(s, patt).None?)
    ensures ReplaceRecord(s, patt, repl, budget, nl) == LineIfNonEmpty(s, nl)
  {
  }

  /** One more record appends its output to the stream's. */
  lemma ReplaceStreamSnoc(records: seq<seq<byte>>, i: nat, patt: seq<byte>, repl: seq<byte>, nRep: nat, nl: seq<byte>)
    requires |patt| > 0 && i < |records|
    ensures ReplaceStream(records[..i + 1], patt, repl, nRep, nl)
         == ReplaceStream(records[..i], patt, repl, nRep, nl) + ReplaceRecord(records[i], patt, repl, nRep, nl)
  {
    assert records[..i + 1][..i] == records[..i];
  }

  /** `static_replace`: every record of the stream, in order, through the
      per-record body, with `n_rep` defaulting to `usize::MAX`. */
  method StaticReplace(records: seq<seq<byte>>, patt: seq<byte>, repl: seq<byte>, max: Option<usize>, nl: seq<byte>)
    returns (out: seq<byte>)
    requires |patt| > 0
    ensures out == ReplaceStream(records, patt, repl, max.GetOr(USIZE_MAX), nl)
  {
    var nRep: usize := max.GetOr(USIZE_MAX);
    out := [];
    for i := 0 to |records|
      invariant out == ReplaceStream(records[..i], patt, repl, nRep, nl)
    {
      ReplaceStreamSnoc(records, i, patt, repl, nRep, nl);
      out := WriteReplaced(out, records[i], patt, repl, nRep, nl);
    }
    assert records[..|records|] == records;
  }

  /** Replacing the pattern by itself gives the record back unchanged; the
      terminator follows it only when the record does not end in a consumed
      match. */
  lemma ReplaceByItself(s: seq<byte>, patt: seq<byte>, nRep: nat, nl: seq<byte>)
    requires |patt| > 0
    ensures var rest := LeftmostSplit(s, patt, nRep).rest;
      ReplaceRecord(s, patt, patt, nRep, nl) == if rest == [] then s else s + nl
  {
    LeftmostSplitIsLeftmost(s, patt, nRep);
  }

  /** With a bound of zero, or a record without the pattern, the record is
      written unchanged (and a non-empty one gets its terminator). */
  lemma ReplaceWithoutMatchCopies(s: seq<byte>, patt: seq<byte>, repl: seq<byte>, nRep: nat, nl: seq<byte>)
    requires |patt| > 0
    requires nRep == 0 || NoMatch(s, patt)
    ensures ReplaceRecord(s, patt, repl, nRep, nl) == LineIfNonEmpty(s, nl)
  {
    FindIsLeftmost(s, patt);
  }

  /** The substitutions are the first min(n_rep, k) of the k leftmost
      non-overlapping occurrences; the other k - min(n_rep, k) occurrences are
      left untouched in the copied suffix. */
  lemma ReplaceCount(s: seq<byte>, patt: seq<byte>, repl: seq<byte>, nRep: nat, nl: seq<byte>)
    requires |patt| > 0
    ensures var sp := LeftmostSplit(s, patt, nRep);
      && ReplaceRecord(s, patt, repl, nRep, nl) == Join(sp.gaps, repl) + LineIfNonEmpty(sp.rest, nl)
      && s == Join(sp.gaps, patt) + sp.rest
      && |sp.gaps| == Min(nRep, Occurrences(s, patt))
      && Occurrences(sp.rest, patt) == Occurrences(s, patt) - |sp.gaps|
  {
    LeftmostSplitIsLeftmost(s, patt, nRep);
    SplitCount(s, patt, nRep);
  }

  /** The terminator is dropped for a record that ends in a consumed match:
      replacing "a" by "b" in the record "a" writes "b" and no line feed, so
      the next record's bytes run on after it. */
  lemma ReplaceDropsTerminator()
    ensures ReplaceRecord([97], [97], [98], 1, [10]) == [98]
    ensures ReplaceRecord([], [97], [98], 1, [10]) == []
  {
    assert [97][0..1] == [97];
    assert Find([97], [97]) == Some(0);
    assert [97][1..] == [];
    assert LeftmostSplit([97], [97], 1) == Split([[]], []);
  }

  /** What `static_replace` evidently means to write for one record: the
      same substitutions, and always exactly one terminator at the end. */
  function ReplaceRecordTerminated(chunk: seq<byte>, patt: seq<byte>, repl: seq<byte>, nRep: nat, nl: seq<byte>): (out: seq<byte>)
    requires |patt| > 0
    ensures |nl| <= |out| && out[|out| - |nl|..] == nl
  {
    var sp := LeftmostSplit(chunk, patt, nRep);
    Join(sp.gaps, repl) + sp.rest + nl
  }

  /** The corrected record output agrees with the as-written one whenever
      the remaining suffix is non-empty, and replacing the pattern by itself
      gives back the record followed by exactly one terminator. */
  lemma ReplaceTerminatedRoundTrip(s: seq<byte>, patt: seq<byte>, repl: seq<byte>, nRep: nat, nl: seq<byte>)
    requires |patt| > 0
    ensures ReplaceRecordTerminated(s, patt, patt, nRep, nl) == s + nl
    ensures LeftmostSplit(s, patt, nRep).rest != [] ==>
      ReplaceRecordTerminated(s, patt, repl, nRep, nl) == ReplaceRecord(s, patt, repl, nRep, nl)
  {
    LeftmostSplitIsLeftmost(s, patt, nRep);
  }
}
