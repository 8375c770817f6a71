/*
 * integrate_sub, laplace_sub and inv_laplace_sub (integrate.c) as they run:
 * in place on the token array of an equation side, on the term between
 * `loc` and `eloc`, with room for `nTokens` tokens.  Each is proved to leave
 * exactly what the term functions of Calculus describe, spliced back into
 * the side.
 */
module Rewriters {
  import opened Tokens
  import opened Scans
  import opened Calculus

  /** What a term rewriter leaves: error_huge, or its verdict and the side. */
  datatype Outcome = Huge | Done(ok: bool, side: seq<Token>)

  /**
   * The side after a rewriter handled the term between `pre` and `post`
   * with result `r`: a rewrite that would not fit in `nTokens` tokens is
   * error_huge, a refusal leaves the term as the rewriter left it.
   */
  function Placed(pre: seq<Token>, r: TermResult, post: seq<Token>, nTokens: nat): (o: Outcome)
    ensures o.Done? ==> (o.ok <==> r.Rewritten?) && |o.side| == |pre| + |r.term| + |post|
    ensures o.Huge? <==> r.Rewritten? && |pre| + |r.term| + |post| > nTokens
    ensures o.Done? && o.ok ==> |o.side| <= nTokens
  {
    var side := pre + r.term + post;
    if r.Rejected? then Done(false, side)
    else if |side| > nTokens then Huge
    else Done(true, side)
  }

  /** The array and the returned flags and length agree with the outcome `o`. */
  ghost predicate Landed(eq: array<Token>, huge: bool, ok: bool, np': nat, o: Outcome, nTokens: nat)
    reads eq
  {
    (huge <==> o.Huge?) &&
    (!huge ==> ok == o.ok && np' <= nTokens && np' <= eq.Length && eq[..np'] == o.side)
  }

  // ----- a term inside a side -----

  lemma SideRaised(pre: seq<Token>, t: seq<Token>, post: seq<Token>, a: nat, b: nat, d: int)
    requires a <= b <= |t|
    ensures Raised(pre + t + post, |pre| + a, |pre| + b, d) == pre + Raised(t, a, b, d) + post
  {
    var s := pre + t + post;
    assert s[..|pre| + a] == pre + t[..a];
    assert s[|pre| + a..|pre| + b] == t[a..b];
    assert s[|pre| + b..] == t[b..] + post;
  }

  lemma SideInserted<T>(pre: seq<T>, t: seq<T>, post: seq<T>, i: nat, w: seq<T>)
    requires i <= |t|
    ensures Inserted(pre + t + post, |pre| + i, w) == pre + Inserted(t, i, w) + post
  {
    var s := pre + t + post;
    assert s[..|pre| + i] == pre + t[..i];
    assert s[|pre| + i..] == t[i..] + post;
  }

  lemma SideUpdated<T>(pre: seq<T>, t: seq<T>, post: seq<T>, k: nat, x: T)
    requires k < |t|
    ensures (pre + t + post)[|pre| + k := x] == pre + t[k := x] + post
  {
  }

  lemma SliceOfTerm<T>(s: seq<T>, pre: seq<T>, t: seq<T>, post: seq<T>, a: nat, b: nat)
    requires s == pre + t + post && a <= b <= |t|
    ensures s[|pre| + a..|pre| + b] == t[a..b]
  {
  }

  /** The levels of `t[a..b]` raised by `d`, in place, leaving the term `r`. */
  method RaiseInTerm(eq: array<Token>, np: nat, loc: nat, ghost pre: seq<Token>, ghost t: seq<Token>,
                     ghost post: seq<Token>, a: nat, b: nat, d: int, ghost r: seq<Token>)
    requires np <= eq.Length && eq[..np] == pre + t + post && |pre| == loc && a <= b <= |t|
    requires r == Raised(t, a, b, d)
    modifies eq
    ensures eq[..np] == pre + r + post
  {
    ghost var e0 := eq[..];
    RaiseLevels(eq, loc + a, loc + b, d);
    RaisedInSide(eq[..], e0, np, pre, t, post, a, b, d);
    assert eq[..np] == eq[..][..np];
  }

  /** `w` inserted into the term before its position `i`; the rest of the side moves up. */
  method InsertInTerm(eq: array<Token>, np: nat, loc: nat, ghost pre: seq<Token>, ghost t: seq<Token>,
                      ghost post: seq<Token>, i: nat, w: seq<Token>)
    requires np + |w| <= eq.Length && eq[..np] == pre + t + post && |pre| == loc && i <= |t|
    modifies eq
    ensures eq[..np + |w|] == pre + Inserted(t, i, w) + post
  {
    InsertInPlace(eq, np, loc + i, w);
    SideInserted(pre, t, post, i, w);
  }

  /**
   * The scan-and-raise loop of the rewriters: from `from` on, every token
   * before `eloc` at `level` or deeper goes one level deeper, up to the
   * first shallower one, whose position `j` is returned.
   */
  method RaiseOperand(eq: array<Token>, eloc: nat, from: nat, level: int) returns (j: nat)
    requires from <= eloc <= eq.Length
    modifies eq
    ensures j == OperandEnd(old(eq[..eloc]), from, level)
    ensures eq[..] == Raised(old(eq[..]), from, j, 1)
  {
    ghost var was := eq[..];
    ghost var s := eq[..eloc];
    j := from;
    while j < eloc && eq[j].level >= level
      invariant from <= j <= eloc
      invariant forall q | 0 <= q < from :: eq[q] == was[q]
      invariant forall q | from <= q < j :: eq[q] == was[q].(level := was[q].level + 1)
      invariant forall q | j <= q < eq.Length :: eq[q] == was[q]
      invariant OperandEnd(s, j, level) == OperandEnd(s, from, level)
    {
      eq[j] := eq[j].(level := eq[j].level + 1);
      j := j + 1;
    }
    assert eq[..] == was[..from] + Raise(was[from..j], 1) + was[j..];
  }

  /** The operand scan over a term placed after `pre`. */
  lemma {:induction false} OperandEndShift(pre: seq<Token>, t: seq<Token>, from: nat, level: int)
    requires from <= |t|
    ensures OperandEnd(pre + t, |pre| + from, level) == |pre| + OperandEnd(t, from, level)
    decreases |t| - from
  {
    if from < |t| && t[from].level >= level {
      assert (pre + t)[|pre| + from] == t[from];
      OperandEndShift(pre, t, from + 1, level);
    } else if from < |t| {
      assert (pre + t)[|pre| + from] == t[from];
    }
  }

  /** RaiseOperand on the term `t` of a side. */
  method RaiseOperandInTerm(eq: array<Token>, np: nat, loc: nat, eloc: nat, ghost pre: seq<Token>,
                            ghost t: seq<Token>, ghost post: seq<Token>, from: nat, level: int)
    returns (e: nat)
    requires np <= eq.Length && eq[..np] == pre + t + post && |pre| == loc && eloc == loc + |t|
    requires from <= |t|
    modifies eq
    ensures e == OperandEnd(t, from, level)
    ensures eq[..np] == pre + Raised(t, from, e, 1) + post
  {
    ghost var e0 := eq[..];
    assert e0[..eloc] == pre + t by {
      assert e0[..eloc] == (pre + t + post)[..eloc];
    }
    var j := RaiseOperand(eq, eloc, loc + from, level);
    OperandEndShift(pre, t, from, level);
    e := j - loc;
    RaisedInSide(eq[..], e0, np, pre, t, post, from, e, 1);
    assert eq[..np] == eq[..][..np];
  }

  /** A raise over the whole array, seen on the side that holds the term `t`. */
  lemma RaisedInSide(cur: seq<Token>, e0: seq<Token>, np: nat, pre: seq<Token>, t: seq<Token>, post: seq<Token>,
                     from: nat, e: nat, d: int)
    requires np <= |e0| && e0[..np] == pre + t + post && from <= e <= |t|
    requires cur == Raised(e0, |pre| + from, |pre| + e, d)
    ensures cur[..np] == pre + Raised(t, from, e, d) + post
  {
    RaisedPrefix(e0, |pre| + from, |pre| + e, d, np);
    SideRaised(pre, t, post, from, e, d);
  }

  /**
   * The closing step of every rewriter: the tail of the side moves up and
   * `head`, a copy of `r[a..b]` and `foot` are written after the term `r`.
   */
  method AppendCopy(eq: array<Token>, np: nat, loc: nat, eloc: nat, ghost pre: seq<Token>, ghost r: seq<Token>,
                    ghost post: seq<Token>, a: nat, b: nat, head: seq<Token>, foot: seq<Token>)
    requires a <= b <= |r| && np + |head| + (b - a) + |foot| <= eq.Length
    requires eq[..np] == pre + r + post && |pre| == loc && eloc == loc + |r|
    modifies eq
    ensures eq[..np + |head| + (b - a) + |foot|] == pre + (r + head + r[a..b] + foot) + post
  {
    var copy := eq[loc + a..loc + b];
    SliceOfTerm(eq[..np], pre, r, post, a, b);
    assert copy == eq[..np][loc + a..loc + b];
    InsertInTerm(eq, np, loc, pre, r, post, eloc - loc, head + copy + foot);
    assert Inserted(r, |r|, head + copy + foot) == r + head + r[a..b] + foot;
  }

  // ----- the polynomial test of integrate_sub -----

  /** The operator check of integrate_sub for the occurrence of `v` at `p`. */
  method AllowedCheck(t: seq<Token>, level: int, p: nat) returns (r: bool)
    ensures r == AllowedOperators(t, level, p)
  {
    var k := 1;
    while k < |t|
      invariant k % 2 == 1 && k <= |t| + 1
      invariant forall q | 0 <= q < k && q % 2 == 1 && t[q].level == level ::
        OpOf(t[q]) == TIMES || OpOf(t[q]) == DIVIDE || (OpOf(t[q]) == POWER && q == p + 1)
    {
      if t[k].level == level {
        var op := OpOf(t[k]);
        if !(op == DIVIDE || op == TIMES || (op == POWER && k == p + 1)) {
          return false;
        }
      }
      k := k + 2;
    }
    return true;
  }

  /**
   * The first loop of integrate_sub: is the term `t`, whose min_level is
   * `level`, a polynomial term in `v`?
   */
  method PolynomialCheck(t: seq<Token>, v: int, level: int) returns (ok: bool)
    ensures ok == PolynomialIn(t, v, level)
  {
    var count := 0;
    ghost var first := 0;
    var i := 0;
    while i < |t|
      invariant i % 2 == 0 && i <= |t| + 1 && 0 <= count <= 1
      invariant count == 0 ==> forall q | 0 <= q < i :: !VarAt(t, v, q)
      invariant count == 1 ==> first < i && VarAt(t, v, first) && WellPlaced(t, level, first)
      invariant count == 1 ==> forall q | 0 <= q < i && VarAt(t, v, q) :: q == first
    {
      if t[i].payload == Variable(v) {
        assert VarAt(t, v, i);
        count := count + 1;
        if count > 1 {
          return false;
        }
        var vlevel := t[i].level;
        if vlevel == level || vlevel == level + 1 {
          var allowed := AllowedCheck(t, level, i);
          if !allowed {
            return false;
          }
          if vlevel == level + 1 {
            if !(i + 1 < |t| && t[i + 1].level == vlevel && OpOf(t[i + 1]) == POWER) {
              return false;
            }
          }
          first := i;
        } else {
          return false;
        }
      }
      i := i + 2;
    }
    return true;
  }

  // ----- integrate_sub -----

  /** min_level of the term `eq[loc..eloc]`. */
  method TermMinLevel(eq: array<Token>, loc: nat, eloc: nat) returns (level: int)
    requires loc <= eloc <= eq.Length
    ensures level == MinOpLevel(eq[loc..eloc])
  {
    level := MinLevel(eq[loc..eloc]);
  }

  /**
   * The opening of every rewriter: the minimum operator level of the term
   * `eq[loc..eloc]` is taken, and the whole term goes two levels deeper.
   */
  method RaiseTerm(eq: array<Token>, np: nat, loc: nat, eloc: nat) returns (level: int)
    requires loc <= eloc <= np <= eq.Length
    modifies eq
    ensures level == MinOpLevel(old(eq[loc..eloc]))
    ensures eq[..np] == old(eq[..loc]) + Raise(old(eq[loc..eloc]), 2) + old(eq[eloc..np])
  {
    ghost var e0 := eq[..];
    level := TermMinLevel(eq, loc, eloc);
    RaiseLevels(eq, loc, eloc, 2);
    RaisedTermInSide(eq[..], e0, loc, eloc, np);
    assert eq[..np] == eq[..][..np];
  }

  /** A term raised in the array, seen on the side that holds it. */
  lemma RaisedTermInSide(cur: seq<Token>, e0: seq<Token>, loc: nat, eloc: nat, np: nat)
    requires loc <= eloc <= np <= |e0| && cur == Raised(e0, loc, eloc, 2)
    ensures cur[..np] == e0[..loc] + Raise(e0[loc..eloc], 2) + e0[eloc..np]
  {
    RaisedPrefix(e0, loc, eloc, 2, np);
    assert e0[..np][..loc] == e0[..loc] && e0[..np][loc..eloc] == e0[loc..eloc] && e0[..np][eloc..] == e0[eloc..np];
  }

  /** The loop of the rewriters that looks for `v` at the operand positions of the term. */
  method FindInTerm(eq: array<Token>, loc: nat, eloc: nat, v: int) returns (p: nat)
    requires loc <= eloc <= eq.Length
    ensures p == FindVar(eq[loc..eloc], v, 0)
  {
    ghost var t := eq[loc..eloc];
    var i := loc;
    while i < eloc && eq[i].payload != Variable(v)
      invariant loc <= i <= eloc + 1
      invariant FindVar(t, v, i - loc) == FindVar(t, v, 0)
      decreases eloc + 1 - i
    {
      i := i + 2;
    }
    p := i - loc;
  }

  lemma PowerRuleLength(w: seq<Token>, p: nat, mlevel: int)
    requires p + 2 <= |w|
    ensures |PowerRule(w, p, mlevel)| == |w| + ExponentEnd(w, p) - p + 3
  {
    var e := ExponentEnd(w, p);
    assert |PowerRuleTo(w, p, e, mlevel)| == |w| + e - p + 3;
  }

  /** `/ v ^ n` turned into `* v ^ (-1 * n)` in place (the division case of integrate_sub). */
  method NegateInTerm(eq: array<Token>, np: nat, loc: nat, eloc: nat, ghost pre: seq<Token>,
                      ghost u: seq<Token>, ghost post: seq<Token>, p: nat)
    requires np + 2 <= eq.Length && eq[..np] == pre + u + post && |pre| == loc && eloc == loc + |u|
    requires 0 < p && p + 2 <= |u|
    modifies eq
    ensures eq[..np + 2] == pre + NegateExponent(u, p) + post
  {
    assert eq[loc + p + 1] == u[p + 1];
    var level := eq[loc + p + 1].level;
    var e := RaiseOperandInTerm(eq, np, loc, eloc, pre, u, post, p + 2, level);
    ghost var r := Raised(u, p + 2, e, 1);
    assert eq[loc + p - 1] == r[p - 1];
    ghost var r1 := r[p - 1 := r[p - 1].(payload := Operator(TIMES))];
    eq[loc + p - 1] := eq[loc + p - 1].(payload := Operator(TIMES));
    SideUpdated(pre, r, post, p - 1, r[p - 1].(payload := Operator(TIMES)));
    InsertInTerm(eq, np, loc, pre, r1, post, p + 2, [ConstToken(-1.0, level + 1), OpToken(TIMES, level + 1)]);
    assert Inserted(r1, p + 2, [ConstToken(-1.0, level + 1), OpToken(TIMES, level + 1)]) == NegateExponentTo(u, p, e);
  }

  /** The power rule on `v ^ n` in place, after the capacity check of integrate_sub. */
  method PowerRuleInTerm(eq: array<Token>, np: nat, loc: nat, eloc: nat, ghost pre: seq<Token>,
                         ghost w: seq<Token>, ghost post: seq<Token>, p: nat, mlevel: int, nTokens: nat)
    returns (huge: bool, np': nat)
    requires np <= nTokens <= eq.Length && eq[..np] == pre + w + post && |pre| == loc && eloc == loc + |w|
    requires p + 2 <= |w|
    modifies eq
    ensures var n := |pre| + |PowerRule(w, p, mlevel)| + |post|;
      (huge <==> n > nTokens) && (!huge ==> np' == n && eq[..np'] == pre + PowerRule(w, p, mlevel) + post)
  {
    assert eq[loc + p + 1] == w[p + 1];
    var level := eq[loc + p + 1].level;
    var e := RaiseOperandInTerm(eq, np, loc, eloc, pre, w, post, p + 2, level);
    assert e == ExponentEnd(w, p);
    PowerRuleLength(w, p, mlevel);
    var len := e - (p + 2);
    if np + len + 5 > nTokens {
      return true, np;
    }
    PowerRuleFinish(eq, np, loc, eloc, pre, w, post, p, e, level, mlevel);
    huge, np' := false, np + len + 5;
  }

  /** The power rule after the exponent of `v` has been raised: `+ 1` after it, then `/` and a copy of it. */
  method PowerRuleFinish(eq: array<Token>, np: nat, loc: nat, eloc: nat, ghost pre: seq<Token>, ghost w: seq<Token>,
                         ghost post: seq<Token>, p: nat, e: nat, level: int, mlevel: int)
    requires p + 2 <= e <= |w| && e == ExponentEnd(w, p) && level == w[p + 1].level && eloc == loc + |w|
    requires np + (e - (p + 2)) + 5 <= eq.Length && eq[..np] == pre + Raised(w, p + 2, e, 1) + post && |pre| == loc
    modifies eq
    ensures eq[..np + (e - (p + 2)) + 5] == pre + PowerRule(w, p, mlevel) + post
  {
    InsertInTerm(eq, np, loc, pre, Raised(w, p + 2, e, 1), post, e,
                 [OpToken(PLUS, level + 1), ConstToken(1.0, level + 1)]);
    ghost var r2 := PowerExponentTo(w, p, e);
    AppendCopy(eq, np + 2, loc, eloc + 2, pre, r2, post, p + 2, e + 2, [OpToken(DIVIDE, mlevel)], []);
    PowerRuleCopied(w, p, e, mlevel);
  }

  /** The power rule is its in-place half followed by `/` and a copy of the new exponent. */
  lemma PowerRuleCopied(w: seq<Token>, p: nat, e: nat, mlevel: int)
    requires p + 2 <= e <= |w| && e == ExponentEnd(w, p)
    ensures var r2 := PowerExponentTo(w, p, e);
      r2 + [OpToken(DIVIDE, mlevel)] + r2[p + 2..e + 2] + [] == PowerRule(w, p, mlevel)
  {
    var r2 := PowerExponentTo(w, p, e);
    assert r2 + [OpToken(DIVIDE, mlevel)] + r2[p + 2..e + 2] + [] == r2 + [OpToken(DIVIDE, mlevel)] + r2[p + 2..e + 2];
  }

  /** Where a rewritten term leaves the side. */
  lemma PlacedRewritten(pre: seq<Token>, r: seq<Token>, post: seq<Token>, nTokens: nat)
    ensures Placed(pre, Rewritten(r), post, nTokens) ==
      if |pre| + |r| + |post| > nTokens then Huge else Done(true, pre + r + post)
  {
  }

  /** The term `t` of the side `s = pre + t + post`. */
  lemma TermOfSide(s: seq<Token>, pre: seq<Token>, t: seq<Token>, post: seq<Token>)
    requires s == pre + t + post
    ensures s[|pre|..|pre| + |t|] == t
  {
    assert s[|pre|..|pre| + |t|] == (pre + t + post)[|pre|..|pre| + |t|];
  }

  /** The token `k` of the term `t` of the side `s = pre + t + post`. */
  lemma TokenOfTerm(s: seq<Token>, pre: seq<Token>, t: seq<Token>, post: seq<Token>, k: nat)
    requires s == pre + t + post && k < |t|
    ensures s[|pre| + k] == t[k]
  {
  }

  /** The branch of the rewriters where `v` is absent: `w` is appended to the term, room permitting. */
  method AppendToTerm(eq: array<Token>, np: nat, loc: nat, eloc: nat, ghost pre: seq<Token>, ghost u: seq<Token>,
                      ghost post: seq<Token>, w: seq<Token>, nTokens: nat)
    returns (huge: bool, ok: bool, np': nat)
    requires np <= nTokens <= eq.Length && eq[..np] == pre + u + post && |pre| == loc && eloc == loc + |u|
    modifies eq
    ensures Landed(eq, huge, ok, np', Placed(pre, Rewritten(u + w), post, nTokens), nTokens)
  {
    PlacedRewritten(pre, u + w, post, nTokens);
    if np + |w| > nTokens {
      return true, false, np;
    }
    InsertInTerm(eq, np, loc, pre, u, post, eloc - loc, w);
    assert Inserted(u, |u|, w) == u + w;
    return false, true, np + |w|;
  }

  /** integrate_sub after the polynomial test and the raise of the term's levels by two. */
  method IntegrateRaised(eq: array<Token>, np: nat, loc: nat, eloc: nat, v: int, mlevel: int, nTokens: nat,
                         ghost pre: seq<Token>, ghost u: seq<Token>, ghost post: seq<Token>)
    returns (huge: bool, ok: bool, np': nat)
    requires np <= nTokens <= eq.Length && eq[..np] == pre + u + post && |pre| == loc && eloc == loc + |u|
    modifies eq
    ensures Landed(eq, huge, ok, np', Placed(pre, IntegrateRaisedTerm(u, v, mlevel), post, nTokens), nTokens)
  {
    TermOfSide(eq[..np], pre, u, post);
    assert eq[loc..eloc] == eq[..np][loc..eloc];
    var p := FindInTerm(eq, loc, eloc, v);
    if p >= eloc - loc {
      huge, ok, np' := AppendToTerm(eq, np, loc, eloc, pre, u, post, [OpToken(TIMES, mlevel), VarToken(v, mlevel)], nTokens);
      return;
    }
    if p + 1 >= eloc - loc || OpOf(eq[loc + p + 1]) != POWER {
      assert p + 1 >= |u| || OpOf(u[p + 1]) != POWER by {
        if p + 1 < |u| {
          TokenOfTerm(eq[..np], pre, u, post, p + 1);
        }
      }
      assert IntegrateRaisedTerm(u, v, mlevel) == Rejected(u);
      return false, false, np;
    }
    huge, ok, np' := IntegratePower(eq, np, loc, eloc, v, mlevel, nTokens, pre, u, post, p);
  }

  /** integrate_sub once `v ^` has been found at `p` in the raised term `u`. */
  method IntegratePower(eq: array<Token>, np: nat, loc: nat, eloc: nat, v: int, mlevel: int, nTokens: nat,
                        ghost pre: seq<Token>, ghost u: seq<Token>, ghost post: seq<Token>, p: nat)
    returns (huge: bool, ok: bool, np': nat)
    requires np <= nTokens <= eq.Length && eq[..np] == pre + u + post && |pre| == loc && eloc == loc + |u|
    requires p == FindVar(u, v, 0) && p + 1 < |u| && OpOf(u[p + 1]) == POWER
    modifies eq
    ensures Landed(eq, huge, ok, np', Placed(pre, IntegrateRaisedTerm(u, v, mlevel), post, nTokens), nTokens)
  {
    TermOfSide(eq[..np], pre, u, post);
    assert eq[loc..eloc] == eq[..np][loc..eloc];
    var divFlag := p > 0 && OpOf(eq[loc + p - 1]) == DIVIDE;
    assert divFlag == DivideBefore(u, p);
    if divFlag {
      huge, ok, np' := IntegrateDivided(eq, np, loc, eloc, v, mlevel, nTokens, pre, u, post, p);
    } else {
      assert IntegrateRaisedTerm(u, v, mlevel) == Rewritten(PowerRule(u, p, mlevel));
      PlacedRewritten(pre, PowerRule(u, p, mlevel), post, nTokens);
      huge, np' := PowerRuleInTerm(eq, np, loc, eloc, pre, u, post, p, mlevel, nTokens);
      ok := true;
    }
  }

  /** integrate_sub on `/ v ^ n`: the exponent is negated first, unless it is the constant 1. */
  method IntegrateDivided(eq: array<Token>, np: nat, loc: nat, eloc: nat, v: int, mlevel: int, nTokens: nat,
                          ghost pre: seq<Token>, ghost u: seq<Token>, ghost post: seq<Token>, p: nat)
    returns (huge: bool, ok: bool, np': nat)
    requires np <= nTokens <= eq.Length && eq[..np] == pre + u + post && |pre| == loc && eloc == loc + |u|
    requires p == FindVar(u, v, 0) && p + 1 < |u| && OpOf(u[p + 1]) == POWER && DivideBefore(u, p)
    modifies eq
    ensures Landed(eq, huge, ok, np', Placed(pre, IntegrateRaisedTerm(u, v, mlevel), post, nTokens), nTokens)
  {
    TermOfSide(eq[..np], pre, u, post);
    assert eq[loc..eloc] == eq[..np][loc..eloc];
    var i := loc + p + 2;
    TokenOfTerm(eq[..np], pre, u, post, p + 1);
    if i < eloc && eq[i].level == eq[loc + p + 1].level && eq[i].payload == Constant(Finite(1.0)) {
      assert UnitExponent(u, p) by {
        TokenOfTerm(eq[..np], pre, u, post, p + 2);
      }
      assert IntegrateRaisedTerm(u, v, mlevel) == Rejected(u);
      return false, false, np;
    }
    assert !UnitExponent(u, p);
    ghost var w := NegateExponent(u, p);
    assert IntegrateRaisedTerm(u, v, mlevel) == Rewritten(PowerRule(w, p, mlevel));
    PlacedRewritten(pre, PowerRule(w, p, mlevel), post, nTokens);
    PowerRuleLength(w, p, mlevel);
    if np + 2 > nTokens {
      return true, false, np;
    }
    NegateInTerm(eq, np, loc, eloc, pre, u, post, p);
    huge, np' := PowerRuleInTerm(eq, np + 2, loc, eloc + 2, pre, w, post, p, mlevel, nTokens);
    ok := true;
  }

  /**
   * integrate_sub on the term `eq[loc..eloc]` of the side `eq[..np]`: it
   * leaves what IntegrateTerm describes, or reports error_huge exactly when
   * the rewritten side would not fit in `nTokens` tokens.
   */
  method IntegrateSub(eq: array<Token>, np: nat, loc: nat, eloc: nat, v: int, nTokens: nat)
    returns (huge: bool, ok: bool, np': nat)
    requires loc <= eloc <= np <= nTokens <= eq.Length
    modifies eq
    ensures Landed(eq, huge, ok, np',
                   Placed(old(eq[..loc]), IntegrateTerm(old(eq[loc..eloc]), v), old(eq[eloc..np]), nTokens), nTokens)
  {
    ghost var pre, t, post := eq[..loc], eq[loc..eloc], eq[eloc..np];
    var level := TermMinLevel(eq, loc, eloc);
    ok := PolynomialCheck(eq[loc..eloc], v, level);
    if !ok {
      assert IntegrateTerm(t, v) == Rejected(t);
      return false, false, np;
    }
    level := RaiseTerm(eq, np, loc, eloc);
    assert IntegrateTerm(t, v) == IntegrateRaisedTerm(Raise(t, 2), v, level + 1);
    huge, ok, np' := IntegrateRaised(eq, np, loc, eloc, v, level + 1, nTokens, pre, Raise(t, 2), post);
  }

  // ----- laplace_sub -----

  /** The in-place half of the Laplace rule, with the exponent ending at `e`. */
  method LaplaceExponentInTerm(eq: array<Token>, np: nat, loc: nat, ghost pre: seq<Token>, ghost u: seq<Token>,
                               ghost post: seq<Token>, p: nat, e: nat, level: int)
    requires p + 2 <= e <= |u| && level == u[p + 1].level
    requires np + 4 <= eq.Length && eq[..np] == pre + Raised(u, p + 2, e, 1) + post && |pre| == loc
    modifies eq
    ensures eq[..np + 4] == pre + LaplaceExponentTo(u, p, e) + post
  {
    var w := PlusOneTimesMinusOne(level);
    ghost var r1 := Raised(u, p + 2, e, 1);
    InsertInTerm(eq, np, loc, pre, r1, post, e, w);
    RaiseInTerm(eq, np + 4, loc, pre, Inserted(r1, e, w), post, p + 2, e + 2, 1, LaplaceExponentTo(u, p, e));
  }

  /** The Laplace rule on `v ^ n` in place, with the capacity check of laplace_sub. */
  method LaplaceRuleInTerm(eq: array<Token>, np: nat, loc: nat, eloc: nat, ghost pre: seq<Token>,
                           ghost u: seq<Token>, ghost post: seq<Token>, p: nat, mlevel: int, nTokens: nat)
    returns (huge: bool, np': nat)
    requires np <= nTokens <= eq.Length && eq[..np] == pre + u + post && |pre| == loc && eloc == loc + |u|
    requires p + 2 <= |u|
    modifies eq
    ensures var n := |pre| + |LaplaceRule(u, p, mlevel)| + |post|;
      (huge <==> n > nTokens) && (!huge ==> np' == n && eq[..np'] == pre + LaplaceRule(u, p, mlevel) + post)
  {
    assert eq[loc + p + 1] == u[p + 1];
    var level := eq[loc + p + 1].level;
    var e := RaiseOperandInTerm(eq, np, loc, eloc, pre, u, post, p + 2, level);
    assert e == ExponentEnd(u, p);
    assert LaplaceRule(u, p, mlevel) == LaplaceRuleTo(u, p, e, mlevel);
    var len := e - (p + 2);
    if np + len + 7 > nTokens {
      return true, np;
    }
    LaplaceExponentInTerm(eq, np, loc, pre, u, post, p, e, level);
    ghost var r3 := LaplaceExponentTo(u, p, e);
    var foot := [OpToken(FACTORIAL, mlevel + 1), ConstToken(1.0, mlevel + 1)];
    AppendCopy(eq, np + 4, loc, eloc + 4, pre, r3, post, p + 2, e, [OpToken(TIMES, mlevel)], foot);
    assert r3 + [OpToken(TIMES, mlevel)] + r3[p + 2..e] + foot == LaplaceRuleTo(u, p, e, mlevel);
    huge, np' := false, np + len + 7;
  }

  /** laplace_sub after the raise of the term's levels by two. */
  method LaplaceRaised(eq: array<Token>, np: nat, loc: nat, eloc: nat, v: int, mlevel: int, nTokens: nat,
                       ghost pre: seq<Token>, ghost u: seq<Token>, ghost post: seq<Token>)
    returns (huge: bool, ok: bool, np': nat)
    requires np <= nTokens <= eq.Length && eq[..np] == pre + u + post && |pre| == loc && eloc == loc + |u|
    modifies eq
    ensures Landed(eq, huge, ok, np', Placed(pre, LaplaceRaisedTerm(u, v, mlevel), post, nTokens), nTokens)
  {
    TermOfSide(eq[..np], pre, u, post);
    assert eq[loc..eloc] == eq[..np][loc..eloc];
    var p := FindInTerm(eq, loc, eloc, v);
    if p >= eloc - loc {
      huge, ok, np' := AppendToTerm(eq, np, loc, eloc, pre, u, post, [OpToken(DIVIDE, mlevel), VarToken(v, mlevel)], nTokens);
    } else {
      huge, ok, np' := LaplaceAt(eq, np, loc, eloc, v, mlevel, nTokens, pre, u, post, p);
    }
  }

  /** laplace_sub once `v` has been found at `p` in the raised term `u`. */
  method LaplaceAt(eq: array<Token>, np: nat, loc: nat, eloc: nat, v: int, mlevel: int, nTokens: nat,
                      ghost pre: seq<Token>, ghost u: seq<Token>, ghost post: seq<Token>, p: nat)
    returns (huge: bool, ok: bool, np': nat)
    requires np <= nTokens <= eq.Length && eq[..np] == pre + u + post && |pre| == loc && eloc == loc + |u|
    requires p == FindVar(u, v, 0) && p < |u|
    modifies eq
    ensures Landed(eq, huge, ok, np', Placed(pre, LaplaceRaisedTerm(u, v, mlevel), post, nTokens), nTokens)
  {
    var i := loc + p + 1;
    if i >= eloc || OpOf(eq[i]) != POWER {
      assert p + 1 >= |u| || OpOf(u[p + 1]) != POWER by {
        if p + 1 < |u| {
          TokenOfTerm(eq[..np], pre, u, post, p + 1);
        }
      }
      assert LaplaceRaisedTerm(u, v, mlevel) == Rejected(u);
      return false, false, np;
    }
    TokenOfTerm(eq[..np], pre, u, post, p + 1);
    assert LaplaceRaisedTerm(u, v, mlevel) == Rewritten(LaplaceRule(u, p, mlevel));
    PlacedRewritten(pre, LaplaceRule(u, p, mlevel), post, nTokens);
    huge, np' := LaplaceRuleInTerm(eq, np, loc, eloc, pre, u, post, p, mlevel, nTokens);
    ok := true;
  }

  /**
   * laplace_sub on the term `eq[loc..eloc]` of the side `eq[..np]`: it
   * leaves what LaplaceTerm describes, or reports error_huge exactly when
   * the transformed side would not fit in `nTokens` tokens.
   */
  method LaplaceSub(eq: array<Token>, np: nat, loc: nat, eloc: nat, v: int, nTokens: nat)
    returns (huge: bool, ok: bool, np': nat)
    requires loc <= eloc <= np <= nTokens <= eq.Length
    modifies eq
    ensures Landed(eq, huge, ok, np',
                   Placed(old(eq[..loc]), LaplaceTerm(old(eq[loc..eloc]), v), old(eq[eloc..np]), nTokens), nTokens)
  {
    ghost var pre, t, post := eq[..loc], eq[loc..eloc], eq[eloc..np];
    var level := RaiseTerm(eq, np, loc, eloc);
    assert LaplaceTerm(t, v) == LaplaceRaisedTerm(Raise(t, 2), v, level + 1);
    huge, ok, np' := LaplaceRaised(eq, np, loc, eloc, v, level + 1, nTokens, pre, Raise(t, 2), post);
  }

  // ----- inv_laplace_sub -----

  /** The in-place half of the inverse Laplace rule, with the exponent ending at `e`. */
  method InvLaplaceExponentInTerm(eq: array<Token>, np: nat, loc: nat, ghost pre: seq<Token>, ghost u: seq<Token>,
                                  ghost post: seq<Token>, p: nat, e: nat, level: int)
    requires 0 < p && p + 2 <= e <= |u| && level == u[p + 1].level
    requires np + 2 <= eq.Length && eq[..np] == pre + Raised(u, p + 2, e, 1) + post && |pre| == loc
    modifies eq
    ensures eq[..np + 2] == pre + InvLaplaceExponentTo(u, p, e) + post
  {
    ghost var r := Raised(u, p + 2, e, 1);
    assert eq[loc + p - 1] == r[p - 1];
    ghost var r1 := r[p - 1 := r[p - 1].(payload := Operator(TIMES))];
    eq[loc + p - 1] := eq[loc + p - 1].(payload := Operator(TIMES));
    SideUpdated(pre, r, post, p - 1, r[p - 1].(payload := Operator(TIMES)));
    var w := [OpToken(MINUS, level + 1), ConstToken(1.0, level + 1)];
    InsertInTerm(eq, np, loc, pre, r1, post, e, w);
  }

  /** The inverse Laplace rule on `/ v ^ n` in place, with the capacity check of inv_laplace_sub. */
  method InvLaplaceRuleInTerm(eq: array<Token>, np: nat, loc: nat, eloc: nat, ghost pre: seq<Token>,
                              ghost u: seq<Token>, ghost post: seq<Token>, p: nat, mlevel: int, nTokens: nat)
    returns (huge: bool, np': nat)
    requires np <= nTokens <= eq.Length && eq[..np] == pre + u + post && |pre| == loc && eloc == loc + |u|
    requires 0 < p && p + 2 <= |u|
    modifies eq
    ensures var n := |pre| + |InvLaplaceRule(u, p, mlevel)| + |post|;
      (huge <==> n > nTokens) && (!huge ==> np' == n && eq[..np'] == pre + InvLaplaceRule(u, p, mlevel) + post)
  {
    assert eq[loc + p + 1] == u[p + 1];
    var level := eq[loc + p + 1].level;
    var e := RaiseOperandInTerm(eq, np, loc, eloc, pre, u, post, p + 2, level);
    assert e == ExponentEnd(u, p);
    assert InvLaplaceRule(u, p, mlevel) == InvLaplaceRuleTo(u, p, e, mlevel);
    var len := e - (p + 2);
    if np + len + 7 > nTokens {
      return true, np;
    }
    InvLaplaceExponentInTerm(eq, np, loc, pre, u, post, p, e, level);
    ghost var r2 := InvLaplaceExponentTo(u, p, e);
    var foot := [OpToken(FACTORIAL, mlevel + 1), ConstToken(1.0, mlevel + 1)];
    AppendCopy(eq, np + 2, loc, eloc + 2, pre, r2, post, p + 2, e + 2, [OpToken(DIVIDE, mlevel)], foot);
    assert r2 + [OpToken(DIVIDE, mlevel)] + r2[p + 2..e + 2] + foot == InvLaplaceRuleTo(u, p, e, mlevel);
    huge, np' := false, np + len + 7;
  }

  /** inv_laplace_sub after the raise of the term's levels by two. */
  method InvLaplaceRaised(eq: array<Token>, np: nat, loc: nat, eloc: nat, v: int, mlevel: int, nTokens: nat,
                          ghost pre: seq<Token>, ghost u: seq<Token>, ghost post: seq<Token>)
    returns (huge: bool, ok: bool, np': nat)
    requires np <= nTokens <= eq.Length && eq[..np] == pre + u + post && |pre| == loc && eloc == loc + |u|
    modifies eq
    ensures Landed(eq, huge, ok, np', Placed(pre, InvLaplaceRaisedTerm(u, v, mlevel), post, nTokens), nTokens)
  {
    assert eq[loc..eloc] == u;
    var p := FindInTerm(eq, loc, eloc, v);
    var i := loc + p + 1;
    if p >= eloc - loc || i >= eloc || OpOf(eq[i]) != POWER || i - 2 <= loc || OpOf(eq[i - 2]) != DIVIDE {
      assert InvLaplaceRaisedTerm(u, v, mlevel) == Rejected(u);
      return false, false, np;
    }
    TokenOfTerm(eq[..np], pre, u, post, p + 1);
    TokenOfTerm(eq[..np], pre, u, post, p - 1);
    assert InvLaplaceRaisedTerm(u, v, mlevel) == Rewritten(InvLaplaceRule(u, p, mlevel));
    huge, np' := InvLaplaceRuleInTerm(eq, np, loc, eloc, pre, u, post, p, mlevel, nTokens);
    ok := true;
  }

  /**
   * inv_laplace_sub on the term `eq[loc..eloc]` of the side `eq[..np]`: it
   * leaves what InvLaplaceTerm describes, or reports error_huge exactly
   * when the transformed side would not fit in `nTokens` tokens.
   */
  method InvLaplaceSub(eq: array<Token>, np: nat, loc: nat, eloc: nat, v: int, nTokens: nat)
    returns (huge: bool, ok: bool, np': nat)
    requires loc <= eloc <= np <= nTokens <= eq.Length
    modifies eq
    ensures Landed(eq, huge, ok, np',
                   Placed(old(eq[..loc]), InvLaplaceTerm(old(eq[loc..eloc]), v), old(eq[eloc..np]), nTokens), nTokens)
  {
    ghost var pre, t, post := eq[..loc], eq[loc..eloc], eq[eloc..np];
    var level := RaiseTerm(eq, np, loc, eloc);
    assert InvLaplaceTerm(t, v) == InvLaplaceRaisedTerm(Raise(t, 2), v, level + 1);
    huge, ok, np' := InvLaplaceRaised(eq, np, loc, eloc, v, level + 1, nTokens, pre, Raise(t, 2), post);
  }
}
