/** The leftmost-first, non-overlapping decomposition of a record around a
    verbatim pattern, at most `budget` matches deep. It is the reference the
    verbatim replace and extract loops are proved against. */
module Leftmost {
  import opened Bytes
  import opened Search

  /** Every gap followed by `sep`. */
  function Join(gaps: seq<seq<byte>>, sep: seq<byte>): seq<byte> {
    if gaps == [] then [] else gaps[0] + sep + Join(gaps[1..], sep)
  }

  /** A record cut at its consumed matches: the bytes before each match, and
      what is left after the last one. */
  datatype Split = Split(gaps: seq<seq<byte>>, rest: seq<byte>)

  /** `sp` cuts `s` at leftmost non-overlapping matches of `patt`: the gaps and
      the matches put back together give `s`; no match starts inside a gap
      (each match is the leftmost one of the suffix it was found in); and
      the rest holds no match unless the budget ran out. */
  ghost predicate IsLeftmostSplit(s: seq<byte>, patt: seq<byte>, budget: nat, sp: Split) {
    && s == Join(sp.gaps, patt) + sp.rest
    && |sp.gaps| <= budget
    && (forall i :: 0 <= i < |sp.gaps| ==> MatchEndsGap(sp.gaps[i], patt))
    && (|sp.gaps| < budget ==> NoMatch(sp.rest, patt))
  }

  /** In `g + patt`, the first occurrence of `patt` is the one after `g`. */
  ghost predicate MatchEndsGap(g: seq<byte>, patt: seq<byte>) {
    forall j :: 0 <= j < |g| ==> !OccursAt(g + patt, patt, j)
  }

  ghost predicate NoMatch(s: seq<byte>, patt: seq<byte>) {
    forall j :: !OccursAt(s, patt, j)
  }

  /** The split a scan makes that finds the leftmost match, consumes it and
      resumes right after it, at most `budget` times. */
  function LeftmostSplit(s: seq<byte>, patt: seq<byte>, budget: nat): Split
    requires |patt| > 0
    decreases budget
  {
    if budget == 0 then Split([], s)
    else match Find(s, patt)
      case None => Split([], s)
      case Some(n) =>
        var tail := LeftmostSplit(s[n + |patt|..], patt, budget - 1);
        Split([s[..n]] + tail.gaps, tail.rest)
  }

  /** The number of leftmost non-overlapping occurrences of `patt` in `s`. */
  function Occurrences(s: seq<byte>, patt: seq<byte>): (k: nat)
    requires |patt| > 0
    ensures k <= |s|
    decreases |s|
  {
    match Find(s, patt)
    case None => 0
    case Some(n) => 1 + Occurrences(s[n + |patt|..], patt)
  }

  lemma JoinCons(g: seq<byte>, gs: seq<seq<byte>>, sep: seq<byte>)
    ensures Join([g] + gs, sep) == g + sep + Join(gs, sep)
  {
    assert ([g] + gs)[1..] == gs;
  }

  /** The total length of the gaps. */
  function GapsLength(gaps: seq<seq<byte>>): nat {
    if gaps == [] then 0 else |gaps[0]| + GapsLength(gaps[1..])
  }

  /** `k` times `n`, by repeated addition. */
  function Times(k: nat, n: nat): nat {
    if k == 0 then 0 else n + Times(k - 1, n)
  }

  /** Joining adds one separator per gap. */
  lemma {:induction false} JoinLength(gaps: seq<seq<byte>>, sep: seq<byte>)
    ensures |Join(gaps, sep)| == GapsLength(gaps) + Times(|gaps|, |sep|)
    decreases |gaps|
  {
    if gaps != [] {
      JoinLength(gaps[1..], sep);
    }
  }

  /** A leftmost occurrence followed by a leftmost split of what comes after
      it is a leftmost split one match deeper. */
  lemma ConsLeftmost(s: seq<byte>, patt: seq<byte>, n: nat, budget: nat, tail: Split)
    requires |patt| > 0 && OccursAt(s, patt, n)
    requires forall j :: 0 <= j < n ==> !OccursAt(s, patt, j)
    requires IsLeftmostSplit(s[n + |patt|..], patt, budget, tail)
    ensures IsLeftmostSplit(s, patt, budget + 1, Split([s[..n]] + tail.gaps, tail.rest))
  {
    var g := s[..n];
    var gaps := [g] + tail.gaps;
    JoinCons(g, tail.gaps, patt);
    assert g + patt == s[..n + |patt|];
    assert s == s[..n + |patt|] + s[n + |patt|..];
    forall j | 0 <= j < |g|
      ensures !OccursAt(g + patt, patt, j)
    {
      OccursInPrefix(s, n + |patt|, patt, j);
    }
    forall i | 0 <= i < |gaps|
      ensures MatchEndsGap(gaps[i], patt)
    {
      if i > 0 {
        assert gaps[i] == tail.gaps[i - 1];
      }
    }
  }

  /** The scan's split is a leftmost split. */
  lemma {:induction false} LeftmostSplitIsLeftmost(s: seq<byte>, patt: seq<byte>, budget: nat)
    requires |patt| > 0
    ensures IsLeftmostSplit(s, patt, budget, LeftmostSplit(s, patt, budget))
    decreases budget
  {
    FindIsLeftmost(s, patt);
    if budget > 0 && Find(s, patt).Some? {
      var n := Find(s, patt).value;
      var after := s[n + |patt|..];
      LeftmostSplitIsLeftmost(after, patt, budget - 1);
      ConsLeftmost(s, patt, n, budget - 1, LeftmostSplit(after, patt, budget - 1));
    }
  }

  /** The first gap of a leftmost split ends at the leftmost occurrence, and
      the remaining gaps split what follows that occurrence. */
  lemma UnconsLeftmost(s: seq<byte>, patt: seq<byte>, budget: nat, sp: Split)
    requires |patt| > 0 && sp.gaps != []
    requires IsLeftmostSplit(s, patt, budget, sp)
    ensures budget > 0
    ensures Find(s, patt) == Some(|sp.gaps[0]|) && s[..|sp.gaps[0]|] == sp.gaps[0]
    ensures IsLeftmostSplit(s[|sp.gaps[0]| + |patt|..], patt, budget - 1, Split(sp.gaps[1..], sp.rest))
  {
    FindIsLeftmost(s, patt);
    var g := sp.gaps[0];
    var gs := sp.gaps[1..];
    var after := Join(gs, patt) + sp.rest;
    assert sp.gaps == [g] + gs;
    JoinCons(g, gs, patt);
    assert s == g + patt + after;
    assert s[..|g| + |patt|] == g + patt;
    assert OccursAt(s, patt, |g|);
    assert MatchEndsGap(g, patt);
    forall j | 0 <= j < |g|
      ensures !OccursAt(s, patt, j)
    {
      OccursInPrefix(s, |g| + |patt|, patt, j);
    }
    assert s[|g| + |patt|..] == after;
    forall i | 0 <= i < |gs|
      ensures MatchEndsGap(gs[i], patt)
    {
      assert gs[i] == sp.gaps[i + 1];
    }
  }

  /** A leftmost split without gaps is the scan's: the record holds no
      match, or the budget is zero. */
  lemma EmptySplitIsScan(s: seq<byte>, patt: seq<byte>, budget: nat, sp: Split)
    requires |patt| > 0 && sp.gaps == []
    requires IsLeftmostSplit(s, patt, budget, sp)
    ensures sp == LeftmostSplit(s, patt, budget)
  {
    assert s == sp.rest;
    if budget > 0 {
      assert NoMatch(s, patt);
      FindIsLeftmost(s, patt);
    }
  }

  /** A split whose first gap ends at the leftmost match and whose other
      gaps are the scan of what follows that match is the scan's split. */
  lemma ScanStep(s: seq<byte>, patt: seq<byte>, budget: nat, sp: Split, n: nat)
    requires |patt| > 0 && budget > 0 && sp.gaps != []
    requires Find(s, patt) == Some(n) && n <= |s| && s[..n] == sp.gaps[0]
    requires Split(sp.gaps[1..], sp.rest) == LeftmostSplit(s[n + |patt|..], patt, budget - 1)
    ensures sp == LeftmostSplit(s, patt, budget)
  {
    assert sp.gaps == [s[..n]] + sp.gaps[1..];
  }

  /** A leftmost split is the scan's split: the decomposition is unique. */
  lemma {:induction false} LeftmostSplitUnique(s: seq<byte>, patt: seq<byte>, budget: nat, sp: Split)
    requires |patt| > 0
    requires IsLeftmostSplit(s, patt, budget, sp)
    ensures sp == LeftmostSplit(s, patt, budget)
    decreases budget
  {
    if sp.gaps == [] {
      EmptySplitIsScan(s, patt, budget, sp);
    } else {
      UnconsLeftmost(s, patt, budget, sp);
      var n := |sp.gaps[0]|;
      LeftmostSplitUnique(s[n + |patt|..], patt, budget - 1, Split(sp.gaps[1..], sp.rest));
      ScanStep(s, patt, budget, sp, n);
    }
  }

  /** A scan with budget `budget` consumes min(budget, k) of the k occurrences,
      and the occurrences it did not consume are all still in the rest. */
  lemma {:induction false} SplitCount(s: seq<byte>, patt: seq<byte>, budget: nat)
    requires |patt| > 0
    ensures |LeftmostSplit(s, patt, budget).gaps| == Min(budget, Occurrences(s, patt))
    ensures Occurrences(LeftmostSplit(s, patt, budget).rest, patt)
         == Occurrences(s, patt) - |LeftmostSplit(s, patt, budget).gaps|
    decreases budget
  {
    var found := Find(s, patt);
    if budget == 0 || found.None? {
      assert LeftmostSplit(s, patt, budget) == Split([], s);
    } else {
      var n := found.value;
      var after := s[n + |patt|..];
      SplitCount(after, patt, budget - 1);
      var tail := LeftmostSplit(after, patt, budget - 1);
      var k := Occurrences(after, patt);
      assert LeftmostSplit(s, patt, budget) == Split([s[..n]] + tail.gaps, tail.rest);
      assert Occurrences(s, patt) == 1 + k;
      assert |tail.gaps| == Min(budget - 1, k);
    }
  }

  /** With the `usize::MAX` bound used when no maximum is given, every
      occurrence of a record that fits in memory is consumed and none is left. */
  lemma UnboundedConsumesAll(s: seq<byte>, patt: seq<byte>)
    requires |patt| > 0 && |s| <= USIZE_MAX
    ensures |LeftmostSplit(s, patt, USIZE_MAX).gaps| == Occurrences(s, patt)
    ensures NoMatch(LeftmostSplit(s, patt, USIZE_MAX).rest, patt)
  {
    SplitCount(s, patt, USIZE_MAX);
    NoOccurrences(LeftmostSplit(s, patt, USIZE_MAX).rest, patt);
  }

  /** A count of zero means the pattern does not occur anywhere. */
  lemma NoOccurrences(s: seq<byte>, patt: seq<byte>)
    requires |patt| > 0
    ensures Occurrences(s, patt) == 0 <==> NoMatch(s, patt)
  {
    FindIsLeftmost(s, patt);
  }
}
