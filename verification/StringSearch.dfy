/** Substring search that compares the last character first and skips by the distance to its previous occurrence. */
module StringSearch {

  const MEM_SIZE: nat := 0x1_0000_0000_0000_0000 // one past the largest mem_size
  const NOT_FOUND := -1

  // The needle stands at p.
  ghost predicate Matches<T>(haystack: seq<T>, needle: seq<T>, p: int) {
    0 <= p && p + |needle| <= |haystack| && forall j :: 0 <= j < |needle| ==> haystack[p + j] == needle[j]
  }

  ghost predicate NoMatch<T>(haystack: seq<T>, needle: seq<T>, from: int, to: int) {
    forall p :: from <= p < to ==> !Matches(haystack, needle, p)
  }

  // The character t places before the last.
  function FromEnd<T>(needle: seq<T>, t: nat): T
    requires t < |needle|
  {
    needle[|needle| - 1 - t]
  }

  // How far back the last character occurs again; the whole length when it does not.
  ghost predicate IsSkip<T>(needle: seq<T>, skip: nat) {
    && needle != [] && 1 <= skip <= |needle|
    && (forall t :: 1 <= t < skip ==> FromEnd(needle, t) != FromEnd(needle, 0))
    && (skip < |needle| ==> FromEnd(needle, skip) == FromEnd(needle, 0))
  }

  // A match t places on has its own character where the last one stood.
  lemma MatchMeets<T>(haystack: seq<T>, needle: seq<T>, i: nat, t: nat)
    requires t < |needle| && i + |needle| <= |haystack|
    ensures Matches(haystack, needle, i + t) ==> haystack[i + |needle| - 1] == FromEnd(needle, t)
  {
    var p, j := i + t, |needle| - 1 - t;
    assert Matches(haystack, needle, p) ==> haystack[p + j] == needle[j];
  }

  // Where the last character matches, no match starts before the skip.
  lemma SkipIsSafe<T>(haystack: seq<T>, needle: seq<T>, i: nat, skip: nat)
    requires IsSkip(needle, skip) && i + |needle| <= |haystack|
    requires haystack[i + |needle| - 1] == needle[|needle| - 1] && !Matches(haystack, needle, i)
    ensures NoMatch(haystack, needle, i, i + skip)
  {
    forall p | i <= p < i + skip ensures !Matches(haystack, needle, p) {
      var t: nat := p - i;
      assert t > 0 ==> FromEnd(needle, t) != FromEnd(needle, 0);
      if t > 0 { MatchMeets(haystack, needle, i, t); }
    }
  }

  method LastCharSkip<T(==)>(needle: seq<T>) returns (skip: nat)
    requires needle != []
    ensures IsSkip(needle, skip)
  {
    var last := |needle| - 1;
    skip := 1;
    while skip <= last && needle[last - skip] != needle[last]
      invariant 1 <= skip <= |needle|
      invariant forall t :: 1 <= t < skip ==> FromEnd(needle, t) != FromEnd(needle, 0)
    {
      assert FromEnd(needle, skip) != FromEnd(needle, 0);
      skip := skip + 1;
    }
  }

  // The first place at or after i where the last character matches.
  method NextCandidate<T(==)>(haystack: seq<T>, needle: seq<T>, from: nat) returns (found: bool, i: nat)
    requires needle != [] && from + |needle| <= |haystack|
    ensures from <= i && NoMatch(haystack, needle, from, i)
    ensures if found then i + |needle| <= |haystack| && haystack[i + |needle| - 1] == needle[|needle| - 1]
            else i == |haystack| - |needle| + 1
  {
    var last := |needle| - 1;
    i := from;
    while haystack[i + last] != needle[last]
      invariant from <= i && i + |needle| <= |haystack| && NoMatch(haystack, needle, from, i)
      decreases |haystack| - i
    {
      assert !Matches(haystack, needle, i);
      i := i + 1;
      if i == |haystack| - last {
        return false, i;
      }
    }
    found := true;
  }

  method MatchesAt<T(==)>(haystack: seq<T>, needle: seq<T>, i: nat) returns (matches: bool)
    requires needle != [] && i + |needle| <= |haystack|
    ensures matches <==> Matches(haystack, needle, i)
  {
    var j := 0;
    while true
      invariant 0 <= j < |needle| && forall k :: 0 <= k < j ==> haystack[i + k] == needle[k]
      decreases |needle| - j
    {
      if haystack[i + j] != needle[j] {
        return false;
      }
      j := j + 1;
      if j == |needle| {
        return true;
      }
    }
  }

  /** The first occurrence at or after start, wrap-around of the position included. */
  method StringSearch<T(==)>(haystack: seq<T>, needle: seq<T>, start: nat) returns (position: int)
    requires |haystack| < MEM_SIZE && |needle| < MEM_SIZE && start < MEM_SIZE
    ensures position == NOT_FOUND || (start <= position && Matches(haystack, needle, position))
    ensures NoMatch(haystack, needle, start, if position == NOT_FOUND then |haystack| + 1 else position)
  {
    var end := (|needle| + start) % MEM_SIZE;
    if end > |haystack| || end < start {
      return NOT_FOUND;
    }
    if needle == [] {
      return start;
    }
    var skip := 0;
    var i := start;
    while i < |haystack| - (|needle| - 1)
      invariant start <= i && NoMatch(haystack, needle, start, i)
      invariant skip == 0 || IsSkip(needle, skip)
      decreases |haystack| - i
    {
      ghost var from := i;
      var found;
      found, i := NextCandidate(haystack, needle, i);
      if !found {
        return NOT_FOUND;
      }
      var matches := MatchesAt(haystack, needle, i);
      if matches {
        return i;
      }
      if skip == 0 {
        skip := LastCharSkip(needle);
      }
      SkipIsSafe(haystack, needle, i, skip);
      i := i + skip;
    }
    return NOT_FOUND;
  }

  /** What the search returns is determined: there is one first occurrence at most. */
  lemma FirstIsUnique<T>(haystack: seq<T>, needle: seq<T>, start: nat, a: int, b: int)
    requires a == NOT_FOUND || (start <= a && Matches(haystack, needle, a))
    requires b == NOT_FOUND || (start <= b && Matches(haystack, needle, b))
    requires NoMatch(haystack, needle, start, if a == NOT_FOUND then |haystack| + 1 else a)
    requires NoMatch(haystack, needle, start, if b == NOT_FOUND then |haystack| + 1 else b)
    ensures a == b
  {}
}
