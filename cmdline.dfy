/*
 * Command-word helpers of am.c: skip_space, isdelimiter, skip_param and
 * strcmp_tospace.
 *
 * A C string is a `string` plus a position in it; reading at or past the
 * end gives the terminating NUL.  Character classes are those of the C
 * locale.
 */
module CommandLine {
  import opened Tokens

  const NUL: char := '\0'

  /** `*cp` for the pointer `s + i`. */
  function At(s: string, i: nat): char {
    if i < |s| then s[i] else NUL
  }

  /** isspace in the C locale: blank, tab, newline, vertical tab, form feed, return. */
  predicate IsSpace(c: char) {
    c == ' ' || c == '\t' || c == '\n' || c as int == 11 || c as int == 12 || c == '\r'
  }

  predicate IsAscii(c: char) {
    c as int < 128
  }

  /** isdelimiter: a space, a comma or an equals sign separates parameters. */
  predicate IsDelimiter(c: char) {
    IsSpace(c) || c == ',' || c == '='
  }

  /** tolower in the C locale. */
  function Lower(c: char): (r: char)
    ensures 'A' <= c <= 'Z' ==> 'a' <= r <= 'z'
    ensures !('A' <= c <= 'Z') ==> r == c
  {
    if 'A' <= c <= 'Z' then (c as int + 32) as char else c
  }

  /** Where a word ends: at the end of the string, a NUL or a delimiter. */
  predicate IsStop(c: char) {
    c == NUL || IsDelimiter(c)
  }

  /** Case folding never turns a word character into a stop or back. */
  lemma LowerKeepsStops(a: char, b: char)
    requires Lower(a) == Lower(b)
    ensures IsStop(a) <==> IsStop(b)
    ensures a == NUL <==> b == NUL
  {
  }

  // ----- specification functions -----

  /** First position at or after `i` that is not a space. */
  function SpaceEnd(s: string, i: nat): (r: nat)
    requires i <= |s|
    ensures i <= r <= |s|
    ensures forall k | i <= k < r :: IsSpace(s[k])
    ensures !IsSpace(At(s, r))
    decreases |s| - i
  {
    if i < |s| && IsSpace(s[i]) then SpaceEnd(s, i + 1) else i
  }

  /** First position at or after `i` that is a stop. */
  function WordEnd(s: string, i: nat): (r: nat)
    requires i <= |s|
    ensures i <= r <= |s|
    ensures forall k | i <= k < r :: !IsStop(s[k])
    ensures IsStop(At(s, r))
    decreases |s| - i
  {
    if i < |s| && !IsStop(s[i]) then WordEnd(s, i + 1) else i
  }

  /**
   * Where the next parameter starts: after the current word, the spaces
   * after it, at most one other delimiter and the spaces after that.
   */
  function ParamEnd(s: string, i: nat): (r: nat)
    requires i <= |s|
    ensures WordEnd(s, i) <= r <= |s|
    ensures forall k | WordEnd(s, i) <= k < r :: IsDelimiter(s[k])
    ensures !IsSpace(At(s, r))
  {
    var afterWord := SpaceEnd(s, WordEnd(s, i));
    if IsDelimiter(At(s, afterWord)) then SpaceEnd(s, afterWord + 1) else afterWord
  }

  /** Two command words agree up to case. */
  predicate SameWord(s1: string, s2: string) {
    WordEnd(s1, 0) == WordEnd(s2, 0) &&
    forall k | 0 <= k < WordEnd(s1, 0) :: Lower(s1[k]) == Lower(s2[k])
  }

  /** Matching command words is an equivalence. */
  lemma SameWordEquivalence(s1: string, s2: string, s3: string)
    ensures SameWord(s1, s1)
    ensures SameWord(s1, s2) ==> SameWord(s2, s1)
    ensures SameWord(s1, s2) && SameWord(s2, s3) ==> SameWord(s1, s3)
  {
  }

  // ----- the routines -----

  /** skip_space */
  method SkipSpace(s: string, i: nat) returns (r: nat)
    requires i <= |s|
    ensures r == SpaceEnd(s, i)
  {
    r := i;
    while At(s, r) != NUL && IsSpace(At(s, r))
      invariant i <= r <= |s|
      invariant SpaceEnd(s, r) == SpaceEnd(s, i)
      decreases |s| - r
    {
      r := r + 1;
    }
  }

  /** skip_param */
  method SkipParam(s: string, i: nat) returns (r: nat)
    requires i <= |s|
    ensures r == ParamEnd(s, i)
  {
    r := i;
    while At(s, r) != NUL && (!IsAscii(At(s, r)) || !IsDelimiter(At(s, r)))
      invariant i <= r <= |s|
      invariant WordEnd(s, r) == WordEnd(s, i)
      decreases |s| - r
    {
      r := r + 1;
    }
    r := SkipSpace(s, r);
    if IsDelimiter(At(s, r)) {
      r := SkipSpace(s, r + 1);
    }
  }

  /**
   * strcmp_tospace: strncasecmp over the longer of the two words.  The
   * source returns zero exactly when `same` is true.
   */
  method StrcmpTospace(s1: string, s2: string) returns (same: bool)
    ensures same <==> SameWord(s1, s2)
  {
    var w1 := 0;
    while At(s1, w1) != NUL && !IsDelimiter(At(s1, w1))
      invariant w1 <= |s1| && WordEnd(s1, w1) == WordEnd(s1, 0)
      decreases |s1| - w1
    {
      w1 := w1 + 1;
    }
    var w2 := 0;
    while At(s2, w2) != NUL && !IsDelimiter(At(s2, w2))
      invariant w2 <= |s2| && WordEnd(s2, w2) == WordEnd(s2, 0)
      decreases |s2| - w2
    {
      w2 := w2 + 1;
    }
    var n := Max(w1, w2);
    // strncasecmp(s1, s2, n): stop at n, at a difference or at a shared NUL
    var k := 0;
    while k < n && Lower(At(s1, k)) == Lower(At(s2, k)) && At(s1, k) != NUL
      invariant 0 <= k <= n
      invariant k <= w1 && k <= w2
      invariant forall m | 0 <= m < k :: Lower(s1[m]) == Lower(s2[m])
    {
      LowerKeepsStops(At(s1, k), At(s2, k));
      k := k + 1;
    }
    same := k >= n || Lower(At(s1, k)) == Lower(At(s2, k));
  }
}
