/** `regex_replace` and `regex_extract`: the per-record write and the
    buffer/flush protocol around a compiled regular expression. The regular
    expression itself is an `Engine`: the results of its operations are given,
    not computed here. */
module Regex {
  import opened Bytes

  /** The result of a bounded replacement: the record itself when nothing
      was replaced, or freshly built bytes (Rust's `Cow<[u8]>`). */
  datatype Cow = Borrowed(borrowed: seq<byte>) | Owned(owned: seq<byte>) {
    function Deref(): seq<byte> {
      match this
      case Borrowed(b) => b
      case Owned(v) => v
    }
  }

  /** The byte range of one match in the record. */
  datatype Span = Span(start: nat, end: nat)

  /** The capture groups of one match; only the engine's `expand` reads them. */
  type Captures

  /** The operations of one compiled pattern that the two functions use. */
  datatype Engine = Engine(
    replacen: (seq<byte>, usize, seq<byte>) -> Cow,
    replaceAll: (seq<byte>, seq<byte>) -> Cow,
    findIter: seq<byte> -> seq<Span>,
    capturesIter: seq<byte> -> seq<Captures>,
    expand: (Captures, seq<byte>) -> seq<byte>)

  // ---------------------------------------------------------------- replace

  /** The replaced record: at most `n` replacements when a bound is given,
      every match otherwise. */
  function Altered(re: Engine, chunk: seq<byte>, repl: seq<byte>, max: Option<usize>): Cow {
    match max
    case Some(n) => re.replacen(chunk, n, repl)
    case None => re.replaceAll(chunk, repl)
  }

  /** The bytes `regex_replace` writes for a stream of records. */
  function ReplaceStream(records: seq<seq<byte>>, re: Engine, repl: seq<byte>, max: Option<usize>, nl: seq<byte>): seq<byte> {
    if records == [] then [] else
      ReplaceStream(records[..|records| - 1], re, repl, max, nl)
      + Altered(re, records[|records| - 1], repl, max).Deref() + nl
  }

  /** `regex_replace`: every record, replaced or borrowed unchanged, is
      written followed by the terminator. An owned result gets the terminator
      appended before one write; a borrowed one is written, then the
      terminator: the same bytes either way. */
  method RegexReplace(records: seq<seq<byte>>, re: Engine, repl: seq<byte>, max: Option<usize>, nl: seq<byte>)
    returns (out: seq<byte>)
    ensures out == ReplaceStream(records, re, repl, max, nl)
  {
    out := [];
    for i := 0 to |records|
      invariant out == ReplaceStream(records[..i], re, repl, max, nl)
    {
      var altered := Altered(re, records[i], repl, max);
      match altered {
        case Owned(v) =>
          var line := v + nl;
          AppendPair(out, v, nl);
          out := out + line;
        case Borrowed(b) =>
          out := out + b;
          out := out + nl;
      }
      assert records[..i + 1][..i] == records[..i];
    }
    assert records[..|records|] == records;
  }

  /** The replaced contents of every record, in order. */
  function AlteredAll(records: seq<seq<byte>>, re: Engine, repl: seq<byte>, max: Option<usize>): (cs: seq<seq<byte>>)
    ensures |cs| == |records|
  {
    seq(|records|, i requires 0 <= i < |records| => Altered(re, records[i], repl, max).Deref())
  }

  /** The output is each record's replaced contents followed by exactly one
      terminator: every record gets one, an empty record included. */
  lemma {:induction false} ReplaceStreamIsLines(records: seq<seq<byte>>, re: Engine, repl: seq<byte>, max: Option<usize>, nl: seq<byte>)
    ensures ReplaceStream(records, re, repl, max, nl) == Lines(AlteredAll(records, re, repl, max), nl)
    decreases |records|
  {
    if records != [] {
      var front := records[..|records| - 1];
      ReplaceStreamIsLines(front, re, repl, max, nl);
      assert AlteredAll(records, re, repl, max)[..|records| - 1] == AlteredAll(front, re, repl, max);
    }
  }

  /** When the engine borrows every record unchanged (no match), the records
      are written back as they are, each followed by one terminator. */
  lemma {:induction false} ReplaceWithoutMatchCopies(records: seq<seq<byte>>, re: Engine, repl: seq<byte>, max: Option<usize>, nl: seq<byte>)
    requires forall i :: 0 <= i < |records| ==> Altered(re, records[i], repl, max) == Borrowed(records[i])
    ensures ReplaceStream(records, re, repl, max, nl) == Lines(records, nl)
    decreases |records|
  {
    if records != [] {
      var front := records[..|records| - 1];
      ReplaceWithoutMatchCopies(front, re, repl, max, nl);
    }
  }

  // ---------------------------------------------------------------- extract

  /** Every match range lies inside the record, as the engine guarantees. */
  predicate SpansWithin(chunk: seq<byte>, spans: seq<Span>) {
    forall k :: 0 <= k < |spans| ==> spans[k].start <= spans[k].end <= |chunk|
  }

  predicate AllSpansWithin(records: seq<seq<byte>>, re: Engine) {
    forall i :: 0 <= i < |records| ==> SpansWithin(records[i], re.findIter(records[i]))
  }

  /** The matched bytes of the first `k` matches, back to back. */
  function MatchedBytes(chunk: seq<byte>, spans: seq<Span>, k: nat): seq<byte>
    requires SpansWithin(chunk, spans) && k <= |spans|
  {
    if k == 0 then []
    else MatchedBytes(chunk, spans, k - 1) + chunk[spans[k - 1].start..spans[k - 1].end]
  }

  /** The template expanded against the first `k` matches, back to back. */
  function Expansions(re: Engine, caps: seq<Captures>, template: seq<byte>, k: nat): seq<byte>
    requires k <= |caps|
  {
    if k == 0 then []
    else Expansions(re, caps, template, k - 1) + re.expand(caps[k - 1], template)
  }

  /** What one record leaves in the buffer: the expansions of the template
      for the first `n_rep` matches, or their matched bytes when there is no
      template, with nothing in between. */
  function ExtractBuffer(re: Engine, chunk: seq<byte>, repl: Option<seq<byte>>, nRep: usize): seq<byte>
    requires repl.None? ==> SpansWithin(chunk, re.findIter(chunk))
  {
    match repl
    case Some(t) =>
      var caps := re.capturesIter(chunk);
      Expansions(re, caps, t, Min(nRep, |caps|))
    case None =>
      var spans := re.findIter(chunk);
      MatchedBytes(chunk, spans, Min(nRep, |spans|))
  }

  /** The bytes `regex_extract` writes for a stream of records: a record's
      buffer and one terminator when the buffer is non-empty, else nothing. */
  function ExtractStream(records: seq<seq<byte>>, re: Engine, repl: Option<seq<byte>>, nRep: usize, nl: seq<byte>): seq<byte>
    requires repl.None? ==> AllSpansWithin(records, re)
  {
    if records == [] then [] else
      ExtractStream(records[..|records| - 1], re, repl, nRep, nl)
      + LineIfNonEmpty(ExtractBuffer(re, records[|records| - 1], repl, nRep), nl)
  }

  /** The inner loops of `regex_extract` for one record: append the expansion
      (or the matched bytes) of each of the first `n_rep` matches to the buffer. */
  method FillBuffer(buff: seq<byte>, re: Engine, chunk: seq<byte>, repl: Option<seq<byte>>, nRep: usize)
    returns (filled: seq<byte>)
    requires repl.None? ==> SpansWithin(chunk, re.findIter(chunk))
    ensures filled == buff + ExtractBuffer(re, chunk, repl, nRep)
  {
    filled := buff;
    match repl {
      case Some(t) =>
        var caps := re.capturesIter(chunk);
        for k := 0 to Min(nRep, |caps|)
          invariant filled == buff + Expansions(re, caps, t, k)
        {
          AppendPair(buff, Expansions(re, caps, t, k), re.expand(caps[k], t));
          filled := filled + re.expand(caps[k], t);
        }
      case None =>
        var spans := re.findIter(chunk);
        for k := 0 to Min(nRep, |spans|)
          invariant filled == buff + MatchedBytes(chunk, spans, k)
        {
          var m := spans[k];
          AppendPair(buff, MatchedBytes(chunk, spans, k), chunk[m.start..m.end]);
          filled := filled + chunk[m.start..m.end];
        }
    }
  }

  /** `regex_extract`: `n_rep` defaults to `usize::MAX`; one buffer, empty
      whenever a record starts, collects the record's expansions and is
      written with one terminator only when it is non-empty. */
  method RegexExtract(records: seq<seq<byte>>, re: Engine, repl: Option<seq<byte>>, max: Option<usize>, nl: seq<byte>)
    returns (out: seq<byte>)
    requires repl.None? ==> AllSpansWithin(records, re)
    ensures out == ExtractStream(records, re, repl, max.GetOr(USIZE_MAX), nl)
  {
    var nRep: usize := max.GetOr(USIZE_MAX);
    var buff: seq<byte> := [];
    out := [];
    for i := 0 to |records|
      invariant buff == []
      invariant out == ExtractStream(records[..i], re, repl, nRep, nl)
    {
      ExtractStreamSnoc(records, i, re, repl, nRep, nl);
      var filled := FillBuffer(buff, re, records[i], repl, nRep);
      assert filled == ExtractBuffer(re, records[i], repl, nRep) by {
        assert buff + ExtractBuffer(re, records[i], repl, nRep) == ExtractBuffer(re, records[i], repl, nRep);
      }
      buff := filled;
      if buff != [] {
        buff := buff + nl;
        out := out + buff;
        buff := [];
      }
    }
    assert records[..|records|] == records;
  }

  /** One more record adds its buffer, framed, to the output. */
  lemma ExtractStreamSnoc(records: seq<seq<byte>>, i: nat, re: Engine, repl: Option<seq<byte>>, nRep: usize, nl: seq<byte>)
    requires i < |records| && (repl.None? ==> AllSpansWithin(records, re))
    ensures repl.None? ==> SpansWithin(records[i], re.findIter(records[i]))
    ensures repl.None? ==> AllSpansWithin(records[..i], re) && AllSpansWithin(records[..i + 1], re)
    ensures ExtractStream(records[..i + 1], re, repl, nRep, nl)
         == ExtractStream(records[..i], re, repl, nRep, nl) + LineIfNonEmpty(ExtractBuffer(re, records[i], repl, nRep), nl)
  {
    assert records[..i + 1][..i] == records[..i];
  }

  /** With a bound of zero nothing at all is written, for any stream. */
  lemma {:induction false} ExtractZeroBound(records: seq<seq<byte>>, re: Engine, repl: Option<seq<byte>>, nl: seq<byte>)
    requires repl.None? ==> AllSpansWithin(records, re)
    ensures ExtractStream(records, re, repl, 0, nl) == []
    decreases |records|
  {
    if records != [] {
      ExtractZeroBound(records[..|records| - 1], re, repl, nl);
    }
  }

  /** The total length of the first `k` match ranges. */
  function SpanLengths(spans: seq<Span>, k: nat): int
    requires k <= |spans|
  {
    if k == 0 then 0 else SpanLengths(spans, k - 1) + (spans[k - 1].end - spans[k - 1].start)
  }

  /** Without a template the buffer is exactly as long as the matches it
      collected: no separator is put between matches. */
  lemma {:induction false} MatchedBytesLength(chunk: seq<byte>, spans: seq<Span>, k: nat)
    requires SpansWithin(chunk, spans) && k <= |spans|
    ensures |MatchedBytes(chunk, spans, k)| == SpanLengths(spans, k)
  {
    if k > 0 {
      MatchedBytesLength(chunk, spans, k - 1);
    }
  }

  /** Extracting `[0-9]+` from the record "x12y34", with the engine reporting
      the matches at 1..3 and 4..6, writes "1234" and one line feed. */
  lemma ExtractDigitsExample()
    ensures var re := Engine(
              (c, n, t) => Borrowed(c), (c, t) => Borrowed(c),
              c => [Span(1, 3), Span(4, 6)], c => [], (cap, t) => []);
      ExtractStream([[120, 49, 50, 121, 51, 52]], re, None, USIZE_MAX, [10]) == [49, 50, 51, 52, 10]
  {
    var re := Engine(
      (c, n, t) => Borrowed(c), (c, t) => Borrowed(c),
      c => [Span(1, 3), Span(4, 6)], c => [], (cap, t) => []);
    var r: seq<byte> := [120, 49, 50, 121, 51, 52];
    var records := [r];
    assert records[..0] == [];
    var spans := [Span(1, 3), Span(4, 6)];
    assert re.findIter(r) == spans;
    assert r[1..3] == [49, 50] && r[4..6] == [51, 52];
    assert MatchedBytes(r, spans, 1) == [49, 50];
    assert MatchedBytes(r, spans, 2) == [49, 50, 51, 52];
    assert ExtractBuffer(re, r, None, USIZE_MAX) == [49, 50, 51, 52];
  }
}
