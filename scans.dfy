/*
 * Read-only scans over one expression side (am.c).
 *
 * A C (pointer, length) pair is modelled as the sequence of its tokens,
 * so `|e|` plays the part of `n`.  Each scan is a method with the loop of
 * the source, proved against a recursive specification function; the
 * lemmas below characterise those functions.
 */
module Scans {
  import opened Tokens

  // ----- found_var -----

  /** Number of tokens of `s` that are the variable `v`. */
  function Occurrences(s: seq<Token>, v: int): (r: nat)
    ensures r <= |s|
  {
    if s == [] then 0 else (if IsVar(s[0], v) then 1 else 0) + Occurrences(s[1..], v)
  }

  lemma {:induction false} OccurrencesZero(s: seq<Token>, v: int)
    ensures Occurrences(s, v) == 0 <==> forall j | 0 <= j < |s| :: !IsVar(s[j], v)
  {
    if s != [] {
      OccurrencesZero(s[1..], v);
      if Occurrences(s, v) == 0 {
        forall j | 0 <= j < |s| ensures !IsVar(s[j], v) {
          if j > 0 { assert s[j] == s[1..][j - 1]; }
        }
      } else if !IsVar(s[0], v) {
        var j :| 0 <= j < |s[1..]| && IsVar(s[1..][j], v);
        assert IsVar(s[j + 1], v);
      }
    }
  }

  lemma {:induction false} OccurrencesConcat(a: seq<Token>, b: seq<Token>, v: int)
    ensures Occurrences(a + b, v) == Occurrences(a, v) + Occurrences(b, v)
  {
    if a != [] {
      assert (a + b)[1..] == a[1..] + b;
      OccurrencesConcat(a[1..], b, v);
    } else {
      assert a + b == b;
    }
  }

  /** found_var: how many times `v` occurs; a null variable is never found. */
  method FoundVar(e: seq<Token>, v: int) returns (count: nat)
    ensures count == if v == V_NULL then 0 else Occurrences(e, v)
  {
    count := 0;
    if v != V_NULL {
      var j := 0;
      while j < |e|
        invariant 0 <= j <= |e|
        invariant count + Occurrences(e[j..], v) == Occurrences(e, v)
      {
        assert e[j..][1..] == e[j + 1..];
        if e[j].payload.Variable? && e[j].payload.v == v {
          count := count + 1;
        }
        j := j + 1;
      }
    }
  }

  // ----- min_level -----

  /** Minimum level over the odd (operator) indices below `k`. */
  function MinOpLevelBelow(s: seq<Token>, k: nat): (r: int)
    requires 2 <= k <= |s|
    ensures exists j | 0 <= j < k && j % 2 == 1 :: s[j].level == r
    ensures forall j | 0 <= j < k && j % 2 == 1 :: r <= s[j].level
  {
    if k == 2 then s[1].level
    else if (k - 1) % 2 == 1 then Min(MinOpLevelBelow(s, k - 1), s[k - 1].level)
    else MinOpLevelBelow(s, k - 1)
  }

  /**
   * The level min_level reports: 1 for an empty side, the level of a lone
   * operand, otherwise the minimum over the operator positions.
   */
  function MinOpLevel(s: seq<Token>): int {
    if |s| == 0 then 1
    else if |s| == 1 then s[0].level
    else MinOpLevelBelow(s, |s|)
  }

  /** min_level */
  method MinLevel(e: seq<Token>) returns (r: int)
    ensures |e| == 0 ==> r == 1
    ensures |e| == 1 ==> r == e[0].level
    ensures |e| >= 2 ==> exists j | 0 <= j < |e| && j % 2 == 1 :: e[j].level == r
    ensures |e| >= 2 ==> forall j | 0 <= j < |e| && j % 2 == 1 :: r <= e[j].level
    ensures r == MinOpLevel(e)
  {
    if |e| <= 1 {
      if |e| <= 0 {
        return 1;
      } else {
        return e[0].level;
      }
    }
    r := e[1].level;
    var p := 3;
    while p < |e|
      invariant 3 <= p <= |e| + 1 && p % 2 == 1
      invariant exists j | 0 <= j < p && j % 2 == 1 :: e[j].level == r
      invariant forall j | 0 <= j < p && j < |e| && j % 2 == 1 :: r <= e[j].level
    {
      if e[p].level < r {
        r := e[p].level;
      }
      p := p + 2;
    }
    ghost var m := MinOpLevelBelow(e, |e|);
    ghost var j1 :| 0 <= j1 < |e| && j1 % 2 == 1 && e[j1].level == m;
    ghost var j2 :| 0 <= j2 < p && j2 % 2 == 1 && e[j2].level == r;
    assert r <= m && m <= r;
  }

  // ----- level_plus_count, level1_plus_count -----

  predicate IsAdditiveAt(t: Token, level: int) {
    t.level == level && (OpOf(t) == PLUS || OpOf(t) == MINUS)
  }

  /** Number of `+`/`-` operators at `level` among the odd indices of `s`. */
  function AdditiveCount(s: seq<Token>, level: int): (r: nat)
    ensures r <= |s| / 2
  {
    if |s| < 2 then 0
    else (if IsAdditiveAt(s[1], level) then 1 else 0) + AdditiveCount(s[2..], level)
  }

  lemma {:induction false} AdditiveCountZero(s: seq<Token>, level: int)
    ensures AdditiveCount(s, level) == 0 <==>
            forall j | 0 <= j < |s| && j % 2 == 1 :: !IsAdditiveAt(s[j], level)
  {
    if |s| >= 2 {
      AdditiveCountZero(s[2..], level);
      if AdditiveCount(s, level) == 0 {
        forall j | 0 <= j < |s| && j % 2 == 1 ensures !IsAdditiveAt(s[j], level) {
          if j > 1 { assert s[j] == s[2..][j - 2]; }
        }
      } else if !IsAdditiveAt(s[1], level) {
        var j :| 0 <= j < |s[2..]| && j % 2 == 1 && IsAdditiveAt(s[2..][j], level);
        assert IsAdditiveAt(s[j + 2], level);
      }
    }
  }

  /** level_plus_count */
  method LevelPlusCount(e: seq<Token>, level: int) returns (count: nat)
    ensures count == AdditiveCount(e, level)
  {
    count := 0;
    var i := 1;
    while i < |e|
      invariant 1 <= i <= |e| + 1 && i % 2 == 1
      invariant count + AdditiveCount(e[i - 1..], level) == AdditiveCount(e, level)
    {
      assert e[i - 1..][1] == e[i] && e[i - 1..][2..] == e[i + 1..];
      if e[i].level == level {
        var op := OpOf(e[i]);
        if op == PLUS || op == MINUS {
          count := count + 1;
        }
      }
      i := i + 2;
    }
  }

  /** level1_plus_count: additive operators at the side's minimum level. */
  method Level1PlusCount(e: seq<Token>) returns (count: nat)
    ensures count == AdditiveCount(e, MinOpLevel(e))
  {
    var level := MinLevel(e);
    count := LevelPlusCount(e, level);
  }

  // ----- var_count, no_vars, exp_is_numeric -----

  /** Number of variables among the even (operand) indices of `s`. */
  function VariableCount(s: seq<Token>): (r: nat)
    ensures r <= (|s| + 1) / 2
  {
    if |s| == 0 then 0
    else (if s[0].payload.Variable? then 1 else 0) + VariableCount(s[Min(2, |s|)..])
  }

  lemma {:induction false} VariableCountZero(s: seq<Token>)
    ensures VariableCount(s) == 0 <==>
            forall j | 0 <= j < |s| && j % 2 == 0 :: !s[j].payload.Variable?
  {
    if |s| > 0 {
      var rest := s[Min(2, |s|)..];
      VariableCountZero(rest);
      if VariableCount(s) == 0 {
        forall j | 0 <= j < |s| && j % 2 == 0 ensures !s[j].payload.Variable? {
          if j > 0 { assert s[j] == rest[j - 2]; }
        }
      } else if !s[0].payload.Variable? {
        var j :| 0 <= j < |rest| && j % 2 == 0 && rest[j].payload.Variable?;
        assert s[j + 2] == rest[j];
      }
    }
  }

  /** var_count */
  method VarCount(e: seq<Token>) returns (count: nat)
    ensures count == VariableCount(e)
  {
    count := 0;
    var i := 0;
    while i < |e|
      invariant 0 <= i <= |e| + 1 && i % 2 == 0
      invariant count + VariableCount(e[Min(i, |e|)..]) == VariableCount(e)
    {
      assert e[i..][Min(2, |e| - i)..] == e[Min(i + 2, |e|)..];
      if e[i].payload.Variable? {
        count := count + 1;
      }
      i := i + 2;
    }
  }

  /** An operand position holding a variable that is not a numeric pseudo-variable. */
  predicate IsSymbolAt(e: seq<Token>, j: int) {
    0 <= j < |e| && j % 2 == 0 && e[j].payload.Variable? && !IsPseudoConstant(e[j].payload.v)
  }

  /**
   * no_vars.  With `vp` already set it only asks whether any variable
   * occurs.  Otherwise it reports in `vpOut` the one symbolic variable the
   * side uses (0 if none or if two different ones occur) and returns true
   * iff there is none.
   */
  method NoVars(e: seq<Token>, vp: int) returns (r: bool, vpOut: int)
    ensures vp != 0 ==> vpOut == vp && (r <==> VariableCount(e) == 0)
    ensures vp == 0 ==> (r <==> forall j :: !IsSymbolAt(e, j))
    ensures vp == 0 && vpOut != 0 ==> forall j | IsSymbolAt(e, j) :: e[j].payload.v == vpOut
    ensures vp == 0 && vpOut != 0 ==> !r
    ensures vp == 0 && vpOut == 0 && !r ==>
      exists j, k :: IsSymbolAt(e, j) && IsSymbolAt(e, k) && e[j].payload.v != e[k].payload.v
  {
    if vp != 0 {
      var c := VarCount(e);
      return c == 0, vp;
    }
    vpOut := 0;
    var found := false;
    var j := 0;
    while j < |e|
      invariant 0 <= j <= |e| + 1 && j % 2 == 0
      invariant found <==> exists k | 0 <= k < j :: IsSymbolAt(e, k)
      invariant found ==> vpOut != 0 && forall k | 0 <= k < j && IsSymbolAt(e, k) :: e[k].payload.v == vpOut
      invariant !found ==> vpOut == 0
    {
      assert !IsSymbolAt(e, j + 1);
      // pseudo-variables (e, pi, i, sign) are skipped
      if e[j].payload.Variable? && NameOf(e[j].payload.v) > SIGN {
        assert IsSymbolAt(e, j);
        if vpOut != 0 {
          if vpOut != e[j].payload.v {
            ghost var k0 :| 0 <= k0 < j && IsSymbolAt(e, k0);
            assert e[k0].payload.v != e[j].payload.v;
            vpOut := 0;
            return false, vpOut;
          }
        } else {
          found := true;
          vpOut := e[j].payload.v;
        }
      } else {
        assert !IsSymbolAt(e, j);
      }
      j := j + 2;
    }
    r := !found;
  }

  /** A token that makes an expression symbolic: a variable above SIGN. */
  predicate IsSymbolic(t: Token) {
    t.payload.Variable? && !IsPseudoConstant(t.payload.v)
  }

  /** exp_is_numeric: no token anywhere is a symbolic variable. */
  method ExpIsNumeric(e: seq<Token>) returns (r: bool)
    ensures r <==> forall i | 0 <= i < |e| :: !IsSymbolic(e[i])
  {
    var i := 0;
    while i < |e|
      invariant 0 <= i <= |e|
      invariant forall k | 0 <= k < i :: !IsSymbolic(e[k])
    {
      if e[i].payload.Variable? && NameOf(e[i].payload.v) > SIGN {
        return false;
      }
      i := i + 1;
    }
    return true;
  }
}
