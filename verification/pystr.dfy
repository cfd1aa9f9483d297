/**
 The Python string primitives the highlighter relies on: substring
 containment (`w in s`), `str.find` with a start position, slicing with
 Python's clamping of out-of-range and negative bounds, and `str.strip()`.
 Strings are sequences of code points, as Python's `str` is.
 */
module PyStr {

  /** `w` occurs in `s` starting exactly at position `i`. */
  predicate OccursAt(s: string, w: string, i: nat) {
    i + |w| <= |s| && MatchesFrom(s, w, i, 0)
  }

  predicate MatchesFrom(s: string, w: string, i: nat, k: nat)
    requires i + |w| <= |s| && k <= |w|
    decreases |w| - k
  {
    k == |w| || (s[i + k] == w[k] && MatchesFrom(s, w, i, k + 1))
  }

  lemma {:induction false} MatchesFromIff(s: string, w: string, i: nat, k: nat)
    requires i + |w| <= |s| && k <= |w|
    ensures MatchesFrom(s, w, i, k) <==> s[i + k..i + |w|] == w[k..]
    decreases |w| - k
  {
    if k < |w| {
      MatchesFromIff(s, w, i, k + 1);
      assert s[i + k..i + |w|] == [s[i + k]] + s[i + k + 1..i + |w|];
      assert w[k..] == [w[k]] + w[k + 1..];
    }
  }

  lemma OccursAtIff(s: string, w: string, i: nat)
    ensures OccursAt(s, w, i) <==> i + |w| <= |s| && s[i..i + |w|] == w
  {
    if i + |w| <= |s| {
      MatchesFromIff(s, w, i, 0);
    }
  }

  /** Python's `w in s`: plain substring containment, with no notion of word boundaries. */
  predicate Contains(s: string, w: string) {
    exists i: nat | i <= |s| :: OccursAt(s, w, i)
  }

  /** Python's `s.find(w, start)` for a non-negative start: the first position at or
      after `start` where `w` occurs, or -1 when there is none. */
  function Find(s: string, w: string, start: nat): (r: int)
    ensures r == -1 || (start <= r && OccursAt(s, w, r))
    ensures r == -1 ==> forall j: nat :: start <= j ==> !OccursAt(s, w, j)
    ensures r != -1 ==> forall j: nat :: start <= j < r ==> !OccursAt(s, w, j)
    decreases |s| - start
  {
    if start + |w| > |s| then -1
    else if OccursAt(s, w, start) then start
    else Find(s, w, start + 1)
  }

  /** An occurrence inside a slice is an occurrence in the whole string, shifted. */
  lemma OccursInSlice(s: string, w: string, a: nat, b: nat, k: nat)
    requires a <= b <= |s|
    requires OccursAt(s[a..b], w, k)
    ensures OccursAt(s, w, a + k)
    ensures a + k + |w| <= b
  {
    OccursAtIff(s[a..b], w, k);
    OccursAtIff(s, w, a + k);
    assert forall j | 0 <= j < |w| :: w[j] == s[a..b][k + j] == s[a + k + j];
    assert s[a + k..a + k + |w|] == w;
  }

  /** The loop test `w in text[start:]` holds exactly when `text.find(w, start)` succeeds. */
  lemma ContainsSuffixIffFound(s: string, w: string, start: nat)
    requires start <= |s|
    ensures Contains(s[start..], w) <==> Find(s, w, start) != -1
  {
    if Contains(s[start..], w) {
      var k: nat :| k <= |s[start..]| && OccursAt(s[start..], w, k);
      assert s[start..] == s[start..|s|];
      OccursInSlice(s, w, start, |s|, k);
    }
    var r := Find(s, w, start);
    if r != -1 {
      OccursAtIff(s, w, r);
      OccursAtIff(s[start..], w, r - start);
      assert s[start..][r - start..r - start + |w|] == s[r..r + |w|];
      assert OccursAt(s[start..], w, r - start);
    }
  }

  /** Python's normalisation of one slice bound against a length `n`: a negative
      bound counts from the end, and the result is clamped to `[0, n]`. */
  function SliceBound(i: int, n: nat): (b: nat)
    ensures b <= n
  {
    if i < 0 then (if i + n < 0 then 0 else i + n)
    else if i > n then n
    else i
  }

  /** Python's `s[lo:hi]`; it never fails, whatever the bounds. */
  function Slice(s: string, lo: int, hi: int): (r: string)
    ensures |r| <= |s|
    ensures 0 <= lo <= hi <= |s| ==> r == s[lo..hi]
    ensures 0 <= lo <= |s| <= hi ==> r == s[lo..]
    ensures 0 <= hi <= lo ==> r == []
    ensures lo >= |s| ==> r == []
  {
    var a := SliceBound(lo, |s|);
    var b := SliceBound(hi, |s|);
    if a < b then s[a..b] else []
  }

  /** The code points Python's `str.isspace()` accepts, which `str.strip()` removes. */
  predicate IsSpace(c: char) {
    || c == '\t' || c == '\n' || c == '\U{0B}' || c == '\U{0C}' || c == '\r'
    || ('\U{1C}' <= c <= '\U{1F}') || c == ' ' || c == '\U{85}' || c == '\U{A0}'
    || c == '\U{1680}' || ('\U{2000}' <= c <= '\U{200A}')
    || c == '\U{2028}' || c == '\U{2029}' || c == '\U{202F}' || c == '\U{205F}' || c == '\U{3000}'
  }

  /** Every character of `s` is whitespace (true of the empty string). */
  predicate AllSpace(s: string) {
    forall k | 0 <= k < |s| :: IsSpace(s[k])
  }

  /** `s.lstrip()`: the suffix left after dropping the leading whitespace. */
  function StripLeft(s: string): (r: string)
    ensures |r| <= |s| && r == s[|s| - |r|..]
    ensures AllSpace(s[..|s| - |r|])
    ensures r != [] ==> !IsSpace(r[0])
    decreases |s|
  {
    if s != [] && IsSpace(s[0]) then
      var r := StripLeft(s[1..]);
      assert s[..|s| - |r|] == [s[0]] + s[1..][..|s[1..]| - |r|];
      r
    else s
  }

  /** `s.rstrip()`: the prefix left after dropping the trailing whitespace. */
  function StripRight(s: string): (r: string)
    ensures |r| <= |s| && r == s[..|r|]
    ensures AllSpace(s[|r|..])
    ensures r != [] ==> !IsSpace(r[|r| - 1])
    decreases |s|
  {
    if s != [] && IsSpace(s[|s| - 1]) then
      var r := StripRight(s[..|s| - 1]);
      assert s[|r|..] == s[..|s| - 1][|r|..] + [s[|s| - 1]];
      r
    else s
  }

  /** `s.strip()`. */
  function Strip(s: string): (r: string)
    ensures |r| <= |s|
  {
    StripRight(StripLeft(s))
  }

  /** `not s.strip()` holds exactly when `s` is empty or all whitespace. */
  lemma StripEmptyIffAllSpace(s: string)
    ensures Strip(s) == [] <==> AllSpace(s)
  {
    var l := StripLeft(s);
    if l == [] {
      assert s[..|s| - |l|] == s;
    } else {
      assert !IsSpace(s[|s| - |l|]);
      assert StripRight(l) != [];
    }
  }

}
