/** `static_extract`: for each record, only the matches (or a fixed template
    in their place) are written, at most `n_rep` per record. */
module VerbatimExtract {
  import opened Bytes
  import opened Search
  import opened Leftmost

  /** The buffer `static_extract` holds when its scan of `s` ends, starting
      from `buff`, or None when the scan slices past the end of the record.
      Each step appends the template and resumes `n + |repl|` bytes into the
      suffix, where `n` is the offset of the match: the template's length,
      not the pattern's, decides how far the scan moves. The scan only ever
      appends to the buffer, and it can slice past the end only when the
      template is longer than the pattern, since a match ends inside the
      suffix. */
  function ExtractFrom(buff: seq<byte>, s: seq<byte>, patt: seq<byte>, repl: seq<byte>, budget: nat): (r: Option<seq<byte>>)
    requires |patt| > 0
    ensures r.Some? ==> |buff| <= |r.value| && r.value[..|buff|] == buff
    ensures r.None? ==> |repl| > |patt|
    decreases budget
  {
    if budget == 0 then Some(buff)
    else match Find(s, patt)
      case None => Some(buff)
      case Some(n) =>
        if n + |repl| > |s| then None
        else ExtractFrom(buff + repl, s[n + |repl|..], patt, repl, budget - 1)
  }

  /** How a run over a stream of records ends: the bytes written before the
      end, and whether a record's scan panicked. A record's buffer is written,
      with one terminator, only when it is non-empty. */
  function ExtractStream(records: seq<seq<byte>>, patt: seq<byte>, repl: seq<byte>, nRep: nat, nl: seq<byte>): Outcome
    requires |patt| > 0
  {
    if records == [] then Completed([])
    else match ExtractStream(records[..|records| - 1], patt, repl, nRep, nl)
      case Completed(out) =>
        (match ExtractFrom([], records[|records| - 1], patt, repl, nRep)
         case None => Panicked(out)
         case Some(buff) => Completed(out + LineIfNonEmpty(buff, nl)))
      case other => other
  }

  /** The scan of one record by `static_extract`: append the template for each
      match found in the shrinking suffix, until `n_rep` matches or no further
      match; `panicked` reports the slice that would run past the suffix. */
  method ScanRecord(buff: seq<byte>, chunk: seq<byte>, patt: seq<byte>, repl: seq<byte>, nRep: usize)
    returns (filled: seq<byte>, panicked: bool)
    requires |patt| > 0
    ensures panicked <==> ExtractFrom(buff, chunk, patt, repl, nRep).None?
    ensures !panicked ==> ExtractFrom(buff, chunk, patt, repl, nRep) == Some(filled)
  {
    filled := buff;
    var subslice := chunk;
    var nReplaced: usize := 0;
    while nReplaced < nRep
      invariant nReplaced <= nRep
      invariant ExtractFrom(filled, subslice, patt, repl, nRep - nReplaced) == ExtractFrom(buff, chunk, patt, repl, nRep)
    {
      var found := FindSubslice(subslice, patt);
      if found.None? {
        break;
      }
      var n := found.value;
      filled := filled + repl;
      nReplaced := nReplaced + 1;
      var offs := n + |repl|;
      if offs > |subslice| {
        return filled, true;
      }
      subslice := subslice[offs..];
    }
    return filled, false;
  }

  /** Once a record has panicked, the run ends there. */
  lemma {:induction false} PanicEndsRun(records: seq<seq<byte>>, k: nat, patt: seq<byte>, repl: seq<byte>, nRep: nat, nl: seq<byte>)
    requires |patt| > 0 && k <= |records|
    requires ExtractStream(records[..k], patt, repl, nRep, nl).Panicked?
    ensures ExtractStream(records, patt, repl, nRep, nl) == ExtractStream(records[..k], patt, repl, nRep, nl)
    decreases |records|
  {
    if k < |records| {
      var front := records[..|records| - 1];
      assert front[..k] == records[..k];
      PanicEndsRun(front, k, patt, repl, nRep, nl);
    } else {
      assert records[..k] == records;
    }
  }

  /** `static_extract`: the template defaults to the pattern and `n_rep` to
      `usize::MAX`; one buffer, empty whenever a record starts, collects the
      record's templates and is written with one terminator only when it is
      non-empty. */
  method StaticExtract(records: seq<seq<byte>>, patt: seq<byte>, repl: Option<seq<byte>>, max: Option<usize>, nl: seq<byte>)
    returns (res: Outcome)
    requires |patt| > 0
    ensures res == ExtractStream(records, patt, repl.GetOr(patt), max.GetOr(USIZE_MAX), nl)
  {
    var template := repl.GetOr(patt);
    var nRep: usize := max.GetOr(USIZE_MAX);
    var buff: seq<byte> := [];
    var out: seq<byte> := [];
    for i := 0 to |records|
      invariant buff == []
      invariant ExtractStream(records[..i], patt, template, nRep, nl) == Completed(out)
    {
      var panicked;
      buff, panicked := ScanRecord(buff, records[i], patt, template, nRep);
      assert records[..i + 1][..i] == records[..i];
      if panicked {
        PanicEndsRun(records, i + 1, patt, template, nRep, nl);
        return Panicked(out);
      }
      if buff != [] {
        buff := buff + nl;
        out := out + buff;
        buff := [];
      }
    }
    assert records[..|records|] == records;
    return Completed(out);
  }

  /** When the template is as long as the pattern (in particular when no
      template is given and the pattern itself is used), the scan never
      panics and appends one template per leftmost non-overlapping occurrence,
      up to the bound: min(n_rep, k) copies. */
  lemma {:induction false} ExtractSameLength(buff: seq<byte>, s: seq<byte>, patt: seq<byte>, repl: seq<byte>, budget: nat)
    requires |patt| > 0 && |repl| == |patt|
    ensures ExtractFrom(buff, s, patt, repl, budget) == Some(buff + Repeat(repl, Min(budget, Occurrences(s, patt))))
    decreases budget
  {
    var found := Find(s, patt);
    if budget == 0 || found.None? {
      assert ExtractFrom(buff, s, patt, repl, budget) == Some(buff);
      assert buff + Repeat(repl, 0) == buff;
    } else {
      var n := found.value;
      var after := s[n + |repl|..];
      var k := Occurrences(after, patt);
      var m := Min(budget - 1, k);
      ExtractSameLength(buff + repl, after, patt, repl, budget - 1);
      assert ExtractFrom(buff, s, patt, repl, budget) == ExtractFrom(buff + repl, after, patt, repl, budget - 1);
      assert Occurrences(s, patt) == 1 + k;
      AppendPair(buff, repl, Repeat(repl, m));
      assert Min(budget, Occurrences(s, patt)) == m + 1;
      assert Repeat(repl, m + 1) == repl + Repeat(repl, m);
    }
  }

  /** Whatever the template, a scan that does not panic has appended nothing
      but copies of the template, at most `n_rep` of them: bytes of the
      record that are not the template never reach the output. */
  lemma {:induction false} ExtractOnlyTemplates(buff: seq<byte>, s: seq<byte>, patt: seq<byte>, repl: seq<byte>, budget: nat)
    requires |patt| > 0 && ExtractFrom(buff, s, patt, repl, budget).Some?
    ensures exists c :: 0 <= c <= budget && ExtractFrom(buff, s, patt, repl, budget).value == buff + Repeat(repl, c)
    decreases budget
  {
    if budget == 0 || Find(s, patt).None? {
      assert buff + Repeat(repl, 0) == buff;
    } else {
      var n := Find(s, patt).value;
      var after := s[n + |repl|..];
      ExtractOnlyTemplates(buff + repl, after, patt, repl, budget - 1);
      var c :| 0 <= c <= budget - 1 && ExtractFrom(buff + repl, after, patt, repl, budget - 1).value == buff + repl + Repeat(repl, c);
      AppendPair(buff, repl, Repeat(repl, c));
      assert Repeat(repl, c + 1) == repl + Repeat(repl, c);
    }
  }

  /** An empty template never moves the scan past the match it found: the
      loop spins up to `n_rep` times, appending nothing, and the record
      produces no output. */
  lemma {:induction false} ExtractEmptyTemplate(buff: seq<byte>, s: seq<byte>, patt: seq<byte>, budget: nat)
    requires |patt| > 0
    ensures ExtractFrom(buff, s, patt, [], budget) == Some(buff)
    decreases budget
  {
    if budget > 0 {
      match Find(s, patt)
      case None =>
      case Some(n) =>
        assert buff + [] == buff;
        ExtractEmptyTemplate(buff, s[n..], patt, budget - 1);
    }
  }

  /** With a bound of zero nothing at all is written, for any stream. */
  lemma {:induction false} ExtractZeroBound(records: seq<seq<byte>>, patt: seq<byte>, repl: seq<byte>, nl: seq<byte>)
    requires |patt| > 0
    ensures ExtractStream(records, patt, repl, 0, nl) == Completed([])
    decreases |records|
  {
    if records != [] {
      ExtractZeroBound(records[..|records| - 1], patt, repl, nl);
    }
  }

  /** A template longer than the rest of the record after the match makes
      the scan slice past the end: pattern "a", template "xyz", record "ab". */
  lemma ExtractPanicsOnLongTemplate()
    ensures ExtractFrom([], [97, 98], [97], [120, 121, 122], USIZE_MAX) == None
  {
    assert [97, 98][0..1] == [97];
    assert Find([97, 98], [97]) == Some(0);
  }

  /** A template shorter than the pattern resumes the scan inside the match
      and counts one occurrence twice: pattern "aa", template "b", record
      "aaa" holds one non-overlapping occurrence but yields "bb". */
  lemma ExtractOvercountsOnShortTemplate()
    ensures Occurrences([97, 97, 97], [97, 97]) == 1
    ensures ExtractFrom([], [97, 97, 97], [97, 97], [98], USIZE_MAX) == Some([98, 98])
  {
    var s: seq<byte> := [97, 97, 97];
    assert s[0..2] == [97, 97];
    assert Find(s, [97, 97]) == Some(0);
    assert s[2..] == [97];
    assert Find([97], [97, 97]) == None;
    assert Occurrences(s, [97, 97]) == 1;
    assert s[1..] == [97, 97];
    assert [97, 97][0..2] == [97, 97];
    assert Find([97, 97], [97, 97]) == Some(0);
    assert [97, 97][1..] == [97];
    assert ExtractFrom([98, 98], [97], [97, 97], [98], USIZE_MAX - 2) == Some([98, 98]);
    assert [98] + [98] == [98, 98];
    assert ExtractFrom([98], [97, 97], [97, 97], [98], USIZE_MAX - 1) == Some([98, 98]);
    assert [] + [98] == [98];
  }

  /** What `static_extract` evidently means to append for one record: the
      template once per leftmost non-overlapping occurrence, the scan resuming
      after the whole match, at most `budget` times. */
  function ExtractIntended(s: seq<byte>, patt: seq<byte>, repl: seq<byte>, budget: nat): (buff: seq<byte>)
    requires |patt| > 0
    ensures buff == Repeat(repl, Min(budget, Occurrences(s, patt)))
    decreases budget
  {
    if budget == 0 then []
    else match Find(s, patt)
      case None => []
      case Some(n) =>
        var after := s[n + |patt|..];
        assert Occurrences(s, patt) == 1 + Occurrences(after, patt);
        repl + ExtractIntended(after, patt, repl, budget - 1)
  }
}
