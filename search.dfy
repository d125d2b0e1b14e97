/** The verbatim matcher: leftmost occurrence of a byte string in another. */
module Search {
  import opened Bytes

  /** `needle` occurs in `haystack` starting at offset `i`. */
  predicate OccursAt(haystack: seq<byte>, needle: seq<byte>, i: int) {
    0 <= i && i + |needle| <= |haystack| && haystack[i..i + |needle|] == needle
  }

  /** The leftmost occurrence at or after offset `from`. */
  function FindFrom(haystack: seq<byte>, needle: seq<byte>, from: nat): (r: Option<nat>)
    requires |needle| > 0
    ensures r.Some? ==> from <= r.value && r.value + |needle| <= |haystack|
    decreases |haystack| - from
  {
    if from + |needle| > |haystack| then None
    else if haystack[from..from + |needle|] == needle then Some(from)
    else FindFrom(haystack, needle, from + 1)
  }

  /** The leftmost offset at which `needle` occurs in `haystack`, if any.
      An empty needle is excluded: the window iterator panics on width 0. */
  function Find(haystack: seq<byte>, needle: seq<byte>): (r: Option<nat>)
    requires |needle| > 0
    ensures |needle| > |haystack| ==> r.None?
    ensures r.Some? ==> r.value + |needle| <= |haystack|
  {
    FindFrom(haystack, needle, 0)
  }

  lemma {:induction false} FindFromIsLeftmost(haystack: seq<byte>, needle: seq<byte>, from: nat)
    requires |needle| > 0
    ensures var r := FindFrom(haystack, needle, from);
      && (r.Some? ==> OccursAt(haystack, needle, r.value))
      && (r.Some? ==> forall j :: from <= j < r.value ==> !OccursAt(haystack, needle, j))
      && (r.None? ==> forall j :: from <= j ==> !OccursAt(haystack, needle, j))
    decreases |haystack| - from
  {
    if from + |needle| <= |haystack| && haystack[from..from + |needle|] != needle {
      FindFromIsLeftmost(haystack, needle, from + 1);
    }
  }

  /** `Find` answers the leftmost occurrence, and answers none exactly when
      there is no occurrence at all. */
  lemma FindIsLeftmost(haystack: seq<byte>, needle: seq<byte>)
    requires |needle| > 0
    ensures var r := Find(haystack, needle);
      && (r.Some? ==> OccursAt(haystack, needle, r.value))
      && (r.Some? ==> forall j :: 0 <= j < r.value ==> !OccursAt(haystack, needle, j))
      && (r.None? <==> forall j :: !OccursAt(haystack, needle, j))
  {
    FindFromIsLeftmost(haystack, needle, 0);
  }

  /** `find_subslice`: an early length check, then the windows of the
      haystack are tried left to right and the first equal one is returned. */
  method FindSubslice(haystack: seq<byte>, needle: seq<byte>) returns (r: Option<nat>)
    requires |needle| > 0
    ensures r == Find(haystack, needle)
  {
    FindIsLeftmost(haystack, needle);
    if |needle| > |haystack| {
      return None;
    }
    var n := 0;
    while n < |haystack| - |needle| + 1
      invariant 0 <= n <= |haystack| - |needle| + 1
      invariant forall j :: 0 <= j < n ==> !OccursAt(haystack, needle, j)
    {
      if haystack[n..n + |needle|] == needle {
        assert OccursAt(haystack, needle, n);
        return Some(n);
      }
      n := n + 1;
    }
    return None;
  }

  /** An occurrence that ends inside a prefix is an occurrence in the whole. */
  lemma OccursInPrefix(s: seq<byte>, m: nat, needle: seq<byte>, j: int)
    requires m <= |s| && j + |needle| <= m
    ensures OccursAt(s[..m], needle, j) <==> OccursAt(s, needle, j)
  {
    if 0 <= j {
      assert s[..m][j..j + |needle|] == s[j..j + |needle|];
    }
  }
}
