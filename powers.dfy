/*
 * make_powers (integrate.c): every occurrence of the variable `v` that is
 * not inside the right operand of a `^` gets an explicit `^ 1`, so that the
 * polynomial rewriters always find `v ^ n`.
 */
module Powers {
  import opened Tokens
  import opened Scans

  /** The outcome of make_powers: error_huge, or the rewritten side. */
  datatype Result = Huge | Done(side: seq<Token>)

  /**
   * The scan that skips the right operand of a `^` found at level `level`:
   * from `k` it steps over operator positions while they are at least that
   * deep, and stops at the first shallower one or past the end.
   */
  function SkipOperand(s: seq<Token>, k: nat, level: int): (r: nat)
    requires k <= |s| + 1
    ensures k <= r <= |s| + 1 && (r - k) % 2 == 0
    ensures r < |s| ==> s[r].level < level
    decreases |s| - k
  {
    if k < |s| && s[k].level >= level then SkipOperand(s, k + 2, level) else k
  }

  /** The variable at `i` is `v` and is not already followed by `^`. */
  predicate Bare(s: seq<Token>, i: nat, v: int)
    requires i < |s|
  {
    IsVar(s[i], v) && (i + 1 >= |s| || OpOf(s[i + 1]) != POWER)
  }

  /** `v` at `i` becomes `v ^ 1`, all three one level deeper than `v` was. */
  function Exponentiate(s: seq<Token>, i: nat): (r: seq<Token>)
    requires i < |s|
    ensures |r| == |s| + 2
  {
    var level := s[i].level + 1;
    s[..i] + [s[i].(level := level), OpToken(POWER, level), ConstToken(1.0, level)] + s[i + 1..]
  }

  /** The scan of make_powers from position `i`, with room for `nTokens` tokens. */
  function PowersFrom(s: seq<Token>, i: nat, v: int, nTokens: nat): (o: Result)
    requires i <= |s| + 1
    decreases |s| + 2 - i
  {
    if i >= |s| then Done(s)
    else if IsOp(s[i], POWER) then PowersFrom(s, SkipOperand(s, i + 2, s[i].level), v, nTokens)
    else if Bare(s, i, v) then
      if |s| + 2 > nTokens then Huge else PowersFrom(Exponentiate(s, i), i + 3, v, nTokens)
    else PowersFrom(s, i + 1, v, nTokens)
  }

  /** make_powers on a whole side. */
  function PowersOf(s: seq<Token>, v: int, nTokens: nat): Result {
    PowersFrom(s, 0, v, nTokens)
  }

  // ----- what the scan keeps -----

  lemma ExponentiateOccurrences(s: seq<Token>, i: nat, w: int)
    requires i < |s|
    ensures Occurrences(Exponentiate(s, i), w) == Occurrences(s, w)
  {
    var level := s[i].level + 1;
    var mid := [s[i].(level := level), OpToken(POWER, level), ConstToken(1.0, level)];
    assert s == s[..i] + [s[i]] + s[i + 1..];
    OccurrencesConcat(s[..i] + [s[i]], s[i + 1..], w);
    OccurrencesConcat(s[..i], [s[i]], w);
    OccurrencesConcat(s[..i] + mid, s[i + 1..], w);
    OccurrencesConcat(s[..i], mid, w);
    assert mid == [mid[0]] + [mid[1]] + [mid[2]];
    OccurrencesConcat([mid[0]] + [mid[1]], [mid[2]], w);
    OccurrencesConcat([mid[0]], [mid[1]], w);
  }

  /**
   * The scan only inserts, two tokens at a time, and the result fits the
   * capacity unless nothing was inserted.
   */
  lemma {:induction false} PowersGrowth(s: seq<Token>, i: nat, v: int, nTokens: nat)
    requires i <= |s| + 1
    ensures PowersFrom(s, i, v, nTokens).Done? ==>
      var r := PowersFrom(s, i, v, nTokens).side;
      |s| <= |r| && (|r| - |s|) % 2 == 0 && (|r| == |s| || |r| <= nTokens)
    decreases |s| + 2 - i
  {
    if i >= |s| {
    } else if IsOp(s[i], POWER) {
      PowersGrowth(s, SkipOperand(s, i + 2, s[i].level), v, nTokens);
    } else if Bare(s, i, v) {
      if |s| + 2 <= nTokens {
        PowersGrowth(Exponentiate(s, i), i + 3, v, nTokens);
      }
    } else {
      PowersGrowth(s, i + 1, v, nTokens);
    }
  }

  /** No variable is added or lost. */
  lemma {:induction false} PowersOccurrences(s: seq<Token>, i: nat, v: int, nTokens: nat, w: int)
    requires i <= |s| + 1
    ensures PowersFrom(s, i, v, nTokens).Done? ==>
      Occurrences(PowersFrom(s, i, v, nTokens).side, w) == Occurrences(s, w)
    decreases |s| + 2 - i
  {
    if i >= |s| {
    } else if IsOp(s[i], POWER) {
      PowersOccurrences(s, SkipOperand(s, i + 2, s[i].level), v, nTokens, w);
    } else if Bare(s, i, v) {
      if |s| + 2 <= nTokens {
        PowersOccurrences(Exponentiate(s, i), i + 3, v, nTokens, w);
        ExponentiateOccurrences(s, i, w);
      }
    } else {
      PowersOccurrences(s, i + 1, v, nTokens, w);
    }
  }

  /**
   * The tokens the scan has passed are kept, and so is the token at `i`
   * unless it is `v`, whose level may grow.
   */
  lemma {:induction false} PowersPrefix(s: seq<Token>, i: nat, v: int, nTokens: nat)
    requires i <= |s|
    ensures PowersFrom(s, i, v, nTokens).Done? ==>
      var r := PowersFrom(s, i, v, nTokens).side;
      |s| <= |r| && r[..i] == s[..i] && (i < |s| && !IsVar(s[i], v) ==> r[i] == s[i])
    decreases |s| + 2 - i
  {
    if i >= |s| {
    } else if IsOp(s[i], POWER) {
      var k := SkipOperand(s, i + 2, s[i].level);
      if k <= |s| {
        PowersPrefix(s, k, v, nTokens);
        var r := PowersFrom(s, k, v, nTokens);
        if r.Done? {
          assert r.side[..i] == r.side[..k][..i];
          assert r.side[i] == r.side[..k][i];
        }
      }
    } else if Bare(s, i, v) {
      if |s| + 2 <= nTokens {
        var e := Exponentiate(s, i);
        PowersPrefix(e, i + 3, v, nTokens);
        var r := PowersFrom(e, i + 3, v, nTokens);
        if r.Done? {
          assert r.side[..i] == r.side[..i + 3][..i];
          assert e[..i] == s[..i];
        }
      }
    } else {
      PowersPrefix(s, i + 1, v, nTokens);
      var r := PowersFrom(s, i + 1, v, nTokens);
      if r.Done? {
        assert r.side[..i] == r.side[..i + 1][..i];
        assert r.side[i] == r.side[..i + 1][i];
      }
    }
  }

  /** A side in which `v` does not occur is returned unchanged. */
  lemma {:induction false} PowersAbsent(s: seq<Token>, i: nat, v: int, nTokens: nat)
    requires i <= |s| + 1
    requires forall k | 0 <= k < |s| :: !IsVar(s[k], v)
    ensures PowersFrom(s, i, v, nTokens) == Done(s)
    decreases |s| + 2 - i
  {
    if i >= |s| {
    } else if IsOp(s[i], POWER) {
      PowersAbsent(s, SkipOperand(s, i + 2, s[i].level), v, nTokens);
    } else {
      PowersAbsent(s, i + 1, v, nTokens);
    }
  }

  // ----- legality and idempotence -----

  /** Inserting `^ 1` after an operand keeps a legal side legal. */
  lemma ExponentiateWellFormed(s: seq<Token>, i: nat)
    requires WellFormed(s) && i < |s| && !IsOperator(s[i])
    ensures WellFormed(Exponentiate(s, i))
  {
    var r := Exponentiate(s, i);
    assert i % 2 == 0;
    forall k | 0 <= k < |r| ensures IsOperator(r[k]) <==> k % 2 == 1 {
      if k > i + 2 { assert r[k] == s[k - 2]; }
    }
    forall k | 0 <= k < |r| ensures r[k].level >= 1 {
      if k > i + 2 { assert r[k] == s[k - 2]; }
    }
    forall k | 0 <= k < |r| - 1
      ensures (IsOperator(r[k]) ==> r[k].level <= r[k + 1].level) &&
              (IsOperator(r[k + 1]) ==> r[k + 1].level <= r[k].level)
    {
      if k > i + 2 {
        assert r[k] == s[k - 2] && r[k + 1] == s[k - 1];
      } else if k == i + 2 {
        assert r[k + 1] == s[i + 1];
      }
    }
  }

  /** A legal side stays legal under make_powers. */
  lemma {:induction false} PowersWellFormed(s: seq<Token>, i: nat, v: int, nTokens: nat)
    requires WellFormed(s) && i <= |s| + 1
    ensures PowersFrom(s, i, v, nTokens).Done? ==> WellFormed(PowersFrom(s, i, v, nTokens).side)
    decreases |s| + 2 - i
  {
    if i >= |s| {
    } else if IsOp(s[i], POWER) {
      PowersWellFormed(s, SkipOperand(s, i + 2, s[i].level), v, nTokens);
    } else if Bare(s, i, v) {
      if |s| + 2 <= nTokens {
        ExponentiateWellFormed(s, i);
        PowersWellFormed(Exponentiate(s, i), i + 3, v, nTokens);
      }
    } else {
      PowersWellFormed(s, i + 1, v, nTokens);
    }
  }

  /** Two sides that agree up to and at `k` are skipped alike up to `k`. */
  lemma {:induction false} SkipAgrees(s: seq<Token>, r: seq<Token>, j: nat, level: int, k: nat)
    requires j <= k < |s| && k < |r| && r[..k] == s[..k] && r[k] == s[k]
    requires SkipOperand(s, j, level) == k
    ensures SkipOperand(r, j, level) == k
    decreases k - j
  {
    if j < k {
      assert r[j] == r[..k][j] && s[j] == s[..k][j];
      SkipAgrees(s, r, j + 2, level, k);
    }
  }

  /** The `^` case of the settled scan: the skip on the result stops where it did. */
  lemma SettledAtPower(s: seq<Token>, r: seq<Token>, i: nat, v: int, n: nat)
    requires i < |s| && IsOp(s[i], POWER)
    requires var k := SkipOperand(s, i + 2, s[i].level);
      k < |s| && k < |r| && r[..k] == s[..k] && r[k] == s[k] && PowersFrom(r, k, v, n) == Done(r)
    ensures PowersFrom(r, i, v, n) == Done(r)
  {
    var k := SkipOperand(s, i + 2, s[i].level);
    assert r[i] == r[..k][i] && s[i] == s[..k][i];
    SkipAgrees(s, r, i + 2, s[i].level, k);
  }

  /** The insertion case of the settled scan: the new `^` skips only its `1`. */
  lemma SettledAtBare(s: seq<Token>, r: seq<Token>, i: nat, v: int, n: nat)
    requires i < |s| && IsVar(s[i], v)
    requires var e := Exponentiate(s, i);
      |e| <= |r| && r[..i + 3] == e[..i + 3] && PowersFrom(r, i + 3, v, n) == Done(r) &&
      (i + 3 < |e| ==> r[i + 3] == s[i + 1] && s[i + 1].level <= s[i].level) &&
      (i + 3 >= |e| ==> |r| == |e|)
    ensures PowersFrom(r, i, v, n) == Done(r)
  {
    assert r[i] == r[..i + 3][i] && r[i + 1] == r[..i + 3][i + 1];
    assert IsVar(r[i], v) && !Bare(r, i, v) && IsOp(r[i + 1], POWER);
    assert SkipOperand(r, i + 3, r[i + 1].level) == i + 3;
  }

  /**
   * Once the scan has passed `i`, nothing from `i` on is left for it to
   * rewrite: running it again from `i` on its result changes nothing.
   */
  lemma {:induction false} PowersSettled(s: seq<Token>, i: nat, v: int, nTokens: nat, n: nat)
    requires WellFormed(s) && i <= |s| + 1
    requires PowersFrom(s, i, v, nTokens).Done?
    ensures var r := PowersFrom(s, i, v, nTokens).side; |s| <= |r| && PowersFrom(r, i, v, n) == Done(r)
    decreases |s| + 2 - i
  {
    if i >= |s| {
    } else if IsOp(s[i], POWER) {
      var k := SkipOperand(s, i + 2, s[i].level);
      if k < |s| {
        PowersSettled(s, k, v, nTokens, n);
        SettledPowerCase(s, i, v, nTokens, n);
      }
    } else if Bare(s, i, v) {
      ExponentiateWellFormed(s, i);
      PowersSettled(Exponentiate(s, i), i + 3, v, nTokens, n);
      if i + 1 < |s| {
        assert IsOperator(s[i + 1]);
      }
      SettledBareCase(s, i, v, nTokens, n);
    } else {
      PowersSettled(s, i + 1, v, nTokens, n);
      SettledStepCase(s, i, v, nTokens, n);
    }
  }

  lemma SettledPowerCase(s: seq<Token>, i: nat, v: int, nTokens: nat, n: nat)
    requires WellFormed(s) && i < |s| && IsOp(s[i], POWER)
    requires var k := SkipOperand(s, i + 2, s[i].level);
      k < |s| && PowersFrom(s, k, v, nTokens).Done? &&
      var r := PowersFrom(s, k, v, nTokens).side; |s| <= |r| && PowersFrom(r, k, v, n) == Done(r)
    ensures var r := PowersFrom(s, i, v, nTokens).side; |s| <= |r| && PowersFrom(r, i, v, n) == Done(r)
  {
    var k := SkipOperand(s, i + 2, s[i].level);
    PowersPrefix(s, k, v, nTokens);
    OddOperator(s, i, k);
    SettledAtPower(s, PowersFrom(s, k, v, nTokens).side, i, v, n);
  }

  lemma SettledBareCase(s: seq<Token>, i: nat, v: int, nTokens: nat, n: nat)
    requires i < |s| && Bare(s, i, v) && |s| + 2 <= nTokens
    requires i + 1 < |s| ==> IsOperator(s[i + 1]) && s[i + 1].level <= s[i].level
    requires var e := Exponentiate(s, i);
      PowersFrom(e, i + 3, v, nTokens).Done? &&
      var r := PowersFrom(e, i + 3, v, nTokens).side; |e| <= |r| && PowersFrom(r, i + 3, v, n) == Done(r)
    ensures PowersFrom(s, i, v, nTokens).Done?
    ensures var r := PowersFrom(s, i, v, nTokens).side; |s| <= |r| && PowersFrom(r, i, v, n) == Done(r)
  {
    var e := Exponentiate(s, i);
    assert PowersFrom(s, i, v, nTokens) == PowersFrom(e, i + 3, v, nTokens);
    var r := PowersFrom(e, i + 3, v, nTokens).side;
    PowersPrefix(e, i + 3, v, nTokens);
    if i + 3 < |e| {
      assert e[i + 3] == s[i + 1];
    } else {
      assert r == e;
    }
    SettledAtBare(s, r, i, v, n);
  }

  lemma SettledStepCase(s: seq<Token>, i: nat, v: int, nTokens: nat, n: nat)
    requires WellFormed(s) && i < |s| && !IsOp(s[i], POWER) && !Bare(s, i, v)
    requires PowersFrom(s, i + 1, v, nTokens).Done? &&
      var r := PowersFrom(s, i + 1, v, nTokens).side; |s| <= |r| && PowersFrom(r, i + 1, v, n) == Done(r)
    ensures var r := PowersFrom(s, i, v, nTokens).side; |s| <= |r| && PowersFrom(r, i, v, n) == Done(r)
  {
    var r := PowersFrom(s, i + 1, v, nTokens).side;
    PowersPrefix(s, i + 1, v, nTokens);
    assert r[i] == r[..i + 1][i];
    if IsVar(s[i], v) {
      assert IsOperator(s[i + 1]);
    }
  }

  /** On a legal side the skip from an operator stops at an operator. */
  lemma OddOperator(s: seq<Token>, i: nat, k: nat)
    requires WellFormed(s) && i < |s| && k < |s| && IsOperator(s[i])
    requires k == SkipOperand(s, i + 2, s[i].level)
    ensures IsOperator(s[k])
  {
    assert i % 2 == 1;
  }

  /**
   * make_powers is idempotent on legal sides: its result has no occurrence
   * of `v` left that lacks an exponent, outside the right operands of `^`.
   */
  lemma PowersIdempotent(s: seq<Token>, v: int, nTokens: nat, n: nat)
    requires WellFormed(s) && PowersOf(s, v, nTokens).Done?
    ensures var r := PowersOf(s, v, nTokens).side;
      WellFormed(r) && PowersOf(r, v, n) == Done(r)
  {
    PowersWellFormed(s, 0, v, nTokens);
    PowersSettled(s, 0, v, nTokens, n);
  }

  // ----- the in-place scan -----

  /** The inner loop of make_powers that steps over the right operand of a `^`. */
  method SkipInPlace(eq: array<Token>, np: nat, k: nat, level: int) returns (r: nat)
    requires k <= np + 1 && np <= eq.Length
    ensures r == SkipOperand(eq[..np], k, level)
  {
    r := k;
    while r < np && eq[r].level >= level
      invariant k <= r <= np + 1
      invariant SkipOperand(eq[..np], r, level) == SkipOperand(eq[..np], k, level)
      decreases np - r
    {
      r := r + 2;
    }
  }

  /** `v` at `i` becomes `v ^ 1` in place: the tail moves up two cells. */
  method ExponentiateInPlace(eq: array<Token>, np: nat, i: nat)
    requires i < np && np + 2 <= eq.Length
    modifies eq
    ensures eq[..np + 2] == Exponentiate(old(eq[..np]), i)
  {
    ghost var s := eq[..np];
    var level := eq[i].level + 1;
    eq[i] := eq[i].(level := level);
    ghost var s1 := eq[..np];
    assert s1 == s[..i] + [s[i].(level := level)] + s[i + 1..];
    InsertInPlace(eq, np, i + 1, [OpToken(POWER, level), ConstToken(1.0, level)]);
    assert s1[..i + 1] == s[..i] + [s[i].(level := level)] && s1[i + 1..] == s[i + 1..];
  }

  /**
   * make_powers on the side `eq[..np]` with room for `nTokens` tokens;
   * `huge` stands for error_huge.
   */
  method MakePowers(eq: array<Token>, np: nat, v: int, nTokens: nat) returns (huge: bool, np': nat)
    requires np <= nTokens <= eq.Length
    modifies eq
    ensures var o := PowersOf(old(eq[..np]), v, nTokens);
      (huge <==> o.Huge?) && (!huge ==> np' <= nTokens && eq[..np'] == o.side)
  {
    ghost var s0 := eq[..np];
    huge, np' := false, np;
    var i: nat := 0;
    while i < np'
      invariant np' <= nTokens && i <= np' + 1
      invariant PowersFrom(eq[..np'], i, v, nTokens) == PowersOf(s0, v, nTokens)
      decreases np' + 2 - i
    {
      if eq[i].payload == Operator(POWER) {
        i := SkipInPlace(eq, np', i + 2, eq[i].level);
        continue;
      }
      if eq[i].payload == Variable(v) {
        if i + 1 >= np' || OpOf(eq[i + 1]) != POWER {
          if np' + 2 > nTokens {
            huge := true;
            return;
          }
          ExponentiateInPlace(eq, np', i);
          np' := np' + 2;
          // the source steps over the new `^` and `1`
          i := i + 2;
        }
      }
      i := i + 1;
    }
  }
}
