/*
 * The per-term polynomial rewriters of integrate.c, as functions on the
 * tokens of one term: integrate_sub (power rule), laplace_sub and
 * inv_laplace_sub.  Each sees the term between two level-1 `+`/`-`
 * operators; make_powers has already given the variable an exponent.
 */
module Calculus {
  import opened Tokens
  import opened Scans

  /**
   * A term rewriter either gives up (returning false) and leaves the term
   * as it stands at that point, or rewrites it.
   */
  datatype TermResult = Rejected(term: seq<Token>) | Rewritten(term: seq<Token>)

  // ----- scans over a term -----

  /** `v` at the operand position `p` of `t`. */
  predicate VarAt(t: seq<Token>, v: int, p: int) {
    0 <= p < |t| && p % 2 == 0 && IsVar(t[p], v)
  }

  /** The first operand position from `k` on (stepping by two) holding `v`, or one past the end. */
  function FindVar(t: seq<Token>, v: int, k: nat): (p: nat)
    ensures k <= p && (p < |t| ==> IsVar(t[p], v))
    decreases |t| - k
  {
    if k >= |t| || IsVar(t[k], v) then k else FindVar(t, v, k + 2)
  }

  /** The end of the operand that starts at `j`: the first token shallower than `level`. */
  function OperandEnd(t: seq<Token>, j: nat, level: int): (e: nat)
    requires j <= |t|
    ensures j <= e <= |t|
    decreases |t| - j
  {
    if j < |t| && t[j].level >= level then OperandEnd(t, j + 1, level) else j
  }

  /** OperandEnd is the first shallower position: the two describe one number. */
  lemma {:induction false} OperandEndIs(t: seq<Token>, j: nat, level: int, e: nat)
    requires j <= e <= |t|
    ensures OperandEnd(t, j, level) == e <==>
      (forall k | j <= k < e :: t[k].level >= level) && (e < |t| ==> t[e].level < level)
    decreases e - j
  {
    if j < e {
      OperandEndIs(t, j + 1, level, e);
    } else if OperandEnd(t, j, level) == e && e < |t| {
      // stopping at `e` itself means it is shallower
    } else if e < |t| && t[e].level < level {
    } else if e < |t| {
      assert OperandEnd(t, j, level) > e;
    }
  }

  /** FindVar from the start finds the one operand position holding `v`, if any. */
  lemma {:induction false} FindVarFirst(t: seq<Token>, v: int, k: nat)
    requires k % 2 == 0
    ensures var p := FindVar(t, v, k);
      (p < |t| ==> VarAt(t, v, p)) && forall q | k <= q < p :: !VarAt(t, v, q)
    decreases |t| - k
  {
    if k < |t| && !IsVar(t[k], v) {
      FindVarFirst(t, v, k + 2);
      assert !VarAt(t, v, k + 1);
    }
  }

  // ----- integrate_sub -----

  /** Every operator at `level` is `*`, `/`, or the `^` right after the operand at `p`. */
  predicate AllowedOperators(t: seq<Token>, level: int, p: int) {
    forall k | 0 <= k < |t| && k % 2 == 1 && t[k].level == level ::
      OpOf(t[k]) == TIMES || OpOf(t[k]) == DIVIDE || (OpOf(t[k]) == POWER && k == p + 1)
  }

  /**
   * The occurrence of `v` at `p` is a factor of the term: at the term's
   * level, or one deeper as the base of a `^` at that depth.
   */
  predicate WellPlaced(t: seq<Token>, level: int, p: nat)
    requires p < |t|
  {
    AllowedOperators(t, level, p) &&
    (t[p].level == level ||
     (t[p].level == level + 1 && p + 1 < |t| && t[p + 1].level == level + 1 && OpOf(t[p + 1]) == POWER))
  }

  /** The term is a polynomial term in `v`: at most one occurrence, and that one well placed. */
  predicate PolynomialIn(t: seq<Token>, v: int, level: int) {
    (forall p, q | 0 <= p < |t| && 0 <= q < |t| && VarAt(t, v, p) && VarAt(t, v, q) :: p == q) &&
    (forall p | 0 <= p < |t| && VarAt(t, v, p) :: WellPlaced(t, level, p))
  }

  /** `v` at `p` is the divisor of a `/`. */
  predicate DivideBefore(u: seq<Token>, p: nat) {
    0 < p <= |u| && OpOf(u[p - 1]) == DIVIDE
  }

  /** The exponent after the `^` at `p + 1` is the bare constant 1. */
  predicate UnitExponent(u: seq<Token>, p: nat)
    requires p + 1 < |u|
  {
    p + 2 < |u| && u[p + 2].level == u[p + 1].level && u[p + 2].payload == Constant(Finite(1.0))
  }

  /** The exponent of `v` at `p`: the operand after the `^` at `p + 1`. */
  function ExponentEnd(t: seq<Token>, p: nat): (e: nat)
    requires p + 2 <= |t|
    ensures p + 2 <= e <= |t|
  {
    OperandEnd(t, p + 2, t[p + 1].level)
  }

  /**
   * `/ v ^ n` becomes `* v ^ (-1 * n)`: the exponent moves one level
   * deeper behind `-1 *`, and the `/` turns into `*`.
   */
  function NegateExponent(u: seq<Token>, p: nat): (r: seq<Token>)
    requires 0 < p && p + 2 <= |u|
    ensures |r| == |u| + 2 && r[p + 1] == u[p + 1]
  {
    NegateExponentTo(u, p, ExponentEnd(u, p))
  }

  /** NegateExponent with the exponent ending at `e`. */
  function NegateExponentTo(u: seq<Token>, p: nat, e: nat): (r: seq<Token>)
    requires 0 < p && p + 2 <= e <= |u|
    ensures |r| == |u| + 2 && r[p + 1] == u[p + 1]
  {
    var level := u[p + 1].level;
    var r := Raised(u, p + 2, e, 1);
    Inserted(r[p - 1 := r[p - 1].(payload := Operator(TIMES))], p + 2,
             [ConstToken(-1.0, level + 1), OpToken(TIMES, level + 1)])
  }

  /**
   * The power rule on `v ^ n` with `^` at `p + 1`: the exponent becomes
   * `n + 1` and `/ (n + 1)` is appended to the term at `mlevel`.
   */
  function PowerRule(w: seq<Token>, p: nat, mlevel: int): (r: seq<Token>)
    requires p + 2 <= |w|
  {
    PowerRuleTo(w, p, ExponentEnd(w, p), mlevel)
  }

  /** PowerRule with the exponent ending at `e`. */
  function PowerRuleTo(w: seq<Token>, p: nat, e: nat, mlevel: int): (r: seq<Token>)
    requires p + 2 <= e <= |w|
  {
    var r2 := PowerExponentTo(w, p, e);
    r2 + [OpToken(DIVIDE, mlevel)] + r2[p + 2..e + 2]
  }

  /** The in-place half of the power rule: the exponent is raised and `+ 1` follows it. */
  function PowerExponentTo(w: seq<Token>, p: nat, e: nat): (r: seq<Token>)
    requires p + 2 <= e <= |w|
    ensures |r| == |w| + 2
  {
    var level := w[p + 1].level;
    Inserted(Raised(w, p + 2, e, 1), e, [OpToken(PLUS, level + 1), ConstToken(1.0, level + 1)])
  }

  /** integrate_sub on the term `t` with respect to `v`. */
  function IntegrateTerm(t: seq<Token>, v: int): TermResult {
    var level := MinOpLevel(t);
    if !PolynomialIn(t, v, level) then Rejected(t)
    else IntegrateRaisedTerm(Raise(t, 2), v, level + 1)
  }

  /** The rewriting half of integrate_sub, on the term with its levels raised by two. */
  function IntegrateRaisedTerm(u: seq<Token>, v: int, mlevel: int): TermResult {
    var p := FindVar(u, v, 0);
    if p >= |u| then Rewritten(u + [OpToken(TIMES, mlevel), VarToken(v, mlevel)])
    else if p + 1 >= |u| || OpOf(u[p + 1]) != POWER then Rejected(u)
    else if DivideBefore(u, p) && UnitExponent(u, p) then Rejected(u)
    else if DivideBefore(u, p) then Rewritten(PowerRule(NegateExponent(u, p), p, mlevel))
    else Rewritten(PowerRule(u, p, mlevel))
  }

  // ----- laplace_sub -----

  /**
   * The Laplace rule on `v ^ n` with `^` at `p + 1`: the exponent becomes
   * `(n + 1) * -1` and `* n!` is appended to the term at `mlevel`.
   */
  function LaplaceRule(u: seq<Token>, p: nat, mlevel: int): (r: seq<Token>)
    requires p + 2 <= |u|
  {
    LaplaceRuleTo(u, p, ExponentEnd(u, p), mlevel)
  }

  /** LaplaceRule with the exponent ending at `e`. */
  function LaplaceRuleTo(u: seq<Token>, p: nat, e: nat, mlevel: int): (r: seq<Token>)
    requires p + 2 <= e <= |u|
  {
    var r3 := LaplaceExponentTo(u, p, e);
    r3 + [OpToken(TIMES, mlevel)] + r3[p + 2..e] +
    [OpToken(FACTORIAL, mlevel + 1), ConstToken(1.0, mlevel + 1)]
  }

  /**
   * The in-place half of the Laplace rule: the exponent is raised, `+ 1`
   * and `* -1` are inserted after it, and the exponent with its `+ 1` is
   * raised once more.
   */
  function LaplaceExponentTo(u: seq<Token>, p: nat, e: nat): (r: seq<Token>)
    requires p + 2 <= e <= |u|
    ensures |r| == |u| + 4
  {
    Raised(Inserted(Raised(u, p + 2, e, 1), e, PlusOneTimesMinusOne(u[p + 1].level)), p + 2, e + 2, 1)
  }

  /** `+ 1 * -1`, written after an exponent at level `level`, one level deeper. */
  function PlusOneTimesMinusOne(level: int): (w: seq<Token>)
    ensures |w| == 4
  {
    [OpToken(PLUS, level + 1), ConstToken(1.0, level + 1)] + [OpToken(TIMES, level + 1), ConstToken(-1.0, level + 1)]
  }

  function LaplaceTerm(t: seq<Token>, v: int): TermResult {
    LaplaceRaisedTerm(Raise(t, 2), v, MinOpLevel(t) + 1)
  }

  /** laplace_sub after raising the term's levels by two. */
  function LaplaceRaisedTerm(u: seq<Token>, v: int, mlevel: int): TermResult {
    var p := FindVar(u, v, 0);
    if p >= |u| then Rewritten(u + [OpToken(DIVIDE, mlevel), VarToken(v, mlevel)])
    else if p + 1 >= |u| || OpOf(u[p + 1]) != POWER then Rejected(u)
    else Rewritten(LaplaceRule(u, p, mlevel))
  }

  // ----- inv_laplace_sub -----

  /**
   * The inverse Laplace rule on `/ v ^ n` with `^` at `p + 1`: the `/`
   * becomes `*`, the exponent `n - 1`, and `/ (n - 1)!` is appended.
   */
  function InvLaplaceRule(u: seq<Token>, p: nat, mlevel: int): (r: seq<Token>)
    requires 0 < p && p + 2 <= |u|
  {
    InvLaplaceRuleTo(u, p, ExponentEnd(u, p), mlevel)
  }

  /** InvLaplaceRule with the exponent ending at `e`. */
  function InvLaplaceRuleTo(u: seq<Token>, p: nat, e: nat, mlevel: int): (r: seq<Token>)
    requires 0 < p && p + 2 <= e <= |u|
  {
    var r2 := InvLaplaceExponentTo(u, p, e);
    r2 + [OpToken(DIVIDE, mlevel)] + r2[p + 2..e + 2] +
    [OpToken(FACTORIAL, mlevel + 1), ConstToken(1.0, mlevel + 1)]
  }

  /**
   * The in-place half of the inverse Laplace rule: the division becomes a
   * multiplication, the exponent is raised and `- 1` follows it.
   */
  function InvLaplaceExponentTo(u: seq<Token>, p: nat, e: nat): (r: seq<Token>)
    requires 0 < p && p + 2 <= e <= |u|
    ensures |r| == |u| + 2
  {
    var level := u[p + 1].level;
    var r := Raised(u, p + 2, e, 1);
    Inserted(r[p - 1 := r[p - 1].(payload := Operator(TIMES))], e,
             [OpToken(MINUS, level + 1), ConstToken(1.0, level + 1)])
  }

  /** inv_laplace_sub on the term `t` with respect to `v`. */
  function InvLaplaceTerm(t: seq<Token>, v: int): TermResult {
    InvLaplaceRaisedTerm(Raise(t, 2), v, MinOpLevel(t) + 1)
  }

  /** inv_laplace_sub after raising the term's levels by two. */
  function InvLaplaceRaisedTerm(u: seq<Token>, v: int, mlevel: int): TermResult {
    var p := FindVar(u, v, 0);
    if p >= |u| || p + 1 >= |u| || OpOf(u[p + 1]) != POWER then Rejected(u)
    else if p <= 1 || OpOf(u[p - 1]) != DIVIDE then Rejected(u)
    else Rewritten(InvLaplaceRule(u, p, mlevel))
  }

  // ----- the raised copy the rewriters work on -----

  /** The variable scan does not look at levels. */
  lemma {:induction false} FindVarRaise(t: seq<Token>, v: int, k: nat, d: int)
    ensures FindVar(Raise(t, d), v, k) == FindVar(t, v, k)
    decreases |t| - k
  {
    if k < |t| && !IsVar(t[k], v) {
      FindVarRaise(t, v, k + 2, d);
    }
  }

  /** Raising a term and the level of the operand scan together changes nothing. */
  lemma {:induction false} OperandEndRaise(t: seq<Token>, j: nat, level: int, d: int)
    requires j <= |t|
    ensures OperandEnd(Raise(t, d), j, level + d) == OperandEnd(t, j, level)
    decreases |t| - j
  {
    if j < |t| && t[j].level >= level {
      OperandEndRaise(t, j + 1, level, d);
    }
  }

  /** Where `v` is first found, in terms of the term itself. */
  lemma FoundIn(t: seq<Token>, v: int)
    ensures var p := FindVar(Raise(t, 2), v, 0);
      (p < |t| ==> VarAt(t, v, p)) && (forall q | 0 <= q < p :: !VarAt(t, v, q)) &&
      (p >= |t| ==> forall q :: !VarAt(t, v, q))
  {
    FindVarRaise(t, v, 0, 2);
    FindVarFirst(t, v, 0);
  }

  // ----- what integrate_sub promises -----

  /**
   * integrate_sub leaves the term untouched exactly when it is not a
   * polynomial term in `v`; in particular when `v` occurs twice.
   */
  lemma IntegrateGate(t: seq<Token>, v: int)
    ensures IntegrateTerm(t, v) == Rejected(t) <==> !PolynomialIn(t, v, MinOpLevel(t))
    ensures (exists p, q | 0 <= p < q < |t| :: VarAt(t, v, p) && VarAt(t, v, q)) ==>
      IntegrateTerm(t, v) == Rejected(t)
  {
    if PolynomialIn(t, v, MinOpLevel(t)) && IntegrateTerm(t, v).Rejected? {
      var u := Raise(t, 2);
      assert |u| > 0;
      assert u[0] != t[0];
    }
  }

  /** Without `v` the term is multiplied by `v`, one level above its own. */
  lemma IntegrateAbsent(t: seq<Token>, v: int)
    requires forall p | 0 <= p < |t| :: !VarAt(t, v, p)
    ensures var m := MinOpLevel(t) + 1;
      IntegrateTerm(t, v) == Rewritten(Raise(t, 2) + [OpToken(TIMES, m), VarToken(v, m)])
  {
    FoundIn(t, v);
  }

  /** `1 / v` (the logarithm case) is refused, after the levels were raised. */
  lemma IntegrateLogarithm(t: seq<Token>, v: int, p: nat)
    requires PolynomialIn(t, v, MinOpLevel(t)) && VarAt(t, v, p)
    requires p + 2 < |t| && OpOf(t[p + 1]) == POWER && DivideBefore(t, p)
    requires t[p + 2].level == t[p + 1].level && t[p + 2].payload == Constant(Finite(1.0))
    ensures IntegrateTerm(t, v) == Rejected(Raise(t, 2))
  {
    FoundIn(t, v);
  }

  // ----- the rules on a term cut around the exponent -----

  /** Every token of `x` at `level` or deeper. */
  predicate AtLeast(x: seq<Token>, level: int) {
    forall k | 0 <= k < |x| :: x[k].level >= level
  }

  /** What follows an operand starts, if anywhere, shallower than it. */
  predicate StopsBelow(c: seq<Token>, level: int) {
    |c| > 0 ==> c[0].level < level
  }

  /** The exponent scan stops exactly at the end of a deep enough exponent. */
  lemma ExponentEndOn(a: seq<Token>, x: seq<Token>, c: seq<Token>, p: nat)
    requires |a| == p + 2 && AtLeast(x, a[p + 1].level) && StopsBelow(c, a[p + 1].level)
    ensures ExponentEnd(a + x + c, p) == |a| + |x|
  {
    var s := a + x + c;
    assert s[p + 1] == a[p + 1];
    assert forall k | |a| <= k < |a| + |x| :: s[k] == x[k - |a|];
    OperandEndIs(s, |a|, a[p + 1].level, |a| + |x|);
  }

  /** A term raised by `d`, cut into the part up to the `^` at `p + 1`, the exponent and the rest. */
  lemma ExponentCut(t: seq<Token>, p: nat, d: int)
    requires p + 2 <= |t|
    ensures var e := ExponentEnd(t, p); var level := t[p + 1].level + d;
      Raise(t, d) == Raise(t[..p + 2], d) + Raise(t[p + 2..e], d) + Raise(t[e..], d) &&
      AtLeast(Raise(t[p + 2..e], d), level) && StopsBelow(Raise(t[e..], d), level)
  {
    var e := ExponentEnd(t, p);
    OperandEndIs(t, p + 2, t[p + 1].level, e);
    assert t == t[..p + 2] + t[p + 2..e] + t[e..];
    RaiseConcat(t[..p + 2] + t[p + 2..e], t[e..], d);
    RaiseConcat(t[..p + 2], t[p + 2..e], d);
  }

  lemma RaisedMiddle(a: seq<Token>, x: seq<Token>, c: seq<Token>, d: int)
    ensures Raised(a + x + c, |a|, |a| + |x|, d) == a + Raise(x, d) + c
  {
    var s := a + x + c;
    assert s[..|a|] == a && s[|a|..|a| + |x|] == x && s[|a| + |x|..] == c;
  }

  lemma InsertedBetween<T>(a: seq<T>, c: seq<T>, w: seq<T>)
    ensures Inserted(a + c, |a|, w) == a + w + c
  {
    assert (a + c)[..|a|] == a && (a + c)[|a|..] == c;
  }

  lemma SliceMiddle<T>(a: seq<T>, b: seq<T>, c: seq<T>)
    ensures (a + b + c)[|a|..|a| + |b|] == b
  {
  }

  /** The power rule on `a + x + c`, `x` being the exponent. */
  lemma PowerRuleOn(a: seq<Token>, x: seq<Token>, c: seq<Token>, p: nat, m: int)
    requires |a| == p + 2
    ensures var level := a[p + 1].level;
      var n1 := Raise(x, 1) + [OpToken(PLUS, level + 1), ConstToken(1.0, level + 1)];
      PowerRuleTo(a + x + c, p, |a| + |x|, m) == a + n1 + c + [OpToken(DIVIDE, m)] + n1
  {
    var level := a[p + 1].level;
    var w := [OpToken(PLUS, level + 1), ConstToken(1.0, level + 1)];
    assert (a + x + c)[p + 1] == a[p + 1];
    RaisedMiddle(a, x, c, 1);
    assert a + Raise(x, 1) + c == (a + Raise(x, 1)) + c;
    InsertedBetween(a + Raise(x, 1), c, w);
    assert a + Raise(x, 1) + w + c == a + (Raise(x, 1) + w) + c;
    SliceMiddle(a, Raise(x, 1) + w, c);
  }

  /** `/ v ^ x` turned into `* v ^ (-1 * x)` on `a + x + c`. */
  lemma NegateExponentOn(a: seq<Token>, x: seq<Token>, c: seq<Token>, p: nat)
    requires 0 < p && |a| == p + 2
    ensures var level := a[p + 1].level;
      NegateExponentTo(a + x + c, p, |a| + |x|) ==
        a[p - 1 := a[p - 1].(payload := Operator(TIMES))] +
        ([ConstToken(-1.0, level + 1), OpToken(TIMES, level + 1)] + Raise(x, 1)) + c
  {
    var level := a[p + 1].level;
    assert (a + x + c)[p + 1] == a[p + 1];
    RaisedMiddle(a, x, c, 1);
    var r := a + Raise(x, 1) + c;
    var a1 := a[p - 1 := a[p - 1].(payload := Operator(TIMES))];
    var r1 := r[p - 1 := r[p - 1].(payload := Operator(TIMES))];
    assert r1 == a1 + (Raise(x, 1) + c);
    InsertedBetween(a1, Raise(x, 1) + c, [ConstToken(-1.0, level + 1), OpToken(TIMES, level + 1)]);
  }

  /** The Laplace rule on `u`, read through the slices around the exponent `u[p + 2..e]`. */
  lemma LaplaceRuleSlices(u: seq<Token>, p: nat, e: nat, m: int)
    requires p + 2 <= e <= |u|
    ensures var level := u[p + 1].level;
      var n1 := Raise(u[p + 2..e], 2) + [OpToken(PLUS, level + 2), ConstToken(1.0, level + 2),
                                         OpToken(TIMES, level + 1), ConstToken(-1.0, level + 1)];
      LaplaceRuleTo(u, p, e, m) ==
        u[..p + 2] + n1 + u[e..] + [OpToken(TIMES, m)] + Raise(u[p + 2..e], 2) +
        [OpToken(FACTORIAL, m + 1), ConstToken(1.0, m + 1)]
  {
    var level := u[p + 1].level;
    LaplaceExponentSlices(u, p, e);
    Assemble(LaplaceExponentTo(u, p, e), u[..p + 2], Raise(u[p + 2..e], 2),
             [OpToken(PLUS, level + 2), ConstToken(1.0, level + 2),
              OpToken(TIMES, level + 1), ConstToken(-1.0, level + 1)], u[e..],
             [OpToken(TIMES, m)], [OpToken(FACTORIAL, m + 1), ConstToken(1.0, m + 1)], p + 2, e);
  }

  /** The exponent rewrite of the Laplace rule, read through the slices of `u`. */
  lemma LaplaceExponentSlices(u: seq<Token>, p: nat, e: nat)
    requires p + 2 <= e <= |u|
    ensures var level := u[p + 1].level;
      LaplaceExponentTo(u, p, e) == u[..p + 2] + Raise(u[p + 2..e], 2) +
        ([OpToken(PLUS, level + 2), ConstToken(1.0, level + 2),
          OpToken(TIMES, level + 1), ConstToken(-1.0, level + 1)] + u[e..])
  {
    var level := u[p + 1].level;
    var w1 := [OpToken(PLUS, level + 1), ConstToken(1.0, level + 1)];
    var w2 := [OpToken(TIMES, level + 1), ConstToken(-1.0, level + 1)];
    assert PlusOneTimesMinusOne(level) == w1 + w2;
    var s := Inserted(Raised(u, p + 2, e, 1), e, w1 + w2);
    LaplaceInsertStep(u, p, e, w1, w2);
    RaisedAfter(s, u[..p + 2], Raise(u[p + 2..e], 1) + w1, w2 + u[e..], p, e);
    LaplaceExponentShape(LaplaceExponentTo(u, p, e), u[..p + 2], u[p + 2..e], u[e..], level);
  }

  /** The second raise of the Laplace rule, over the exponent and the `+ 1` after it. */
  lemma RaisedAfter(s: seq<Token>, a: seq<Token>, y: seq<Token>, c: seq<Token>, p: nat, e: nat)
    requires s == a + y + c && |a| == p + 2 && |y| == e - p
    ensures Raised(s, p + 2, e + 2, 1) == a + Raise(y, 1) + c
  {
    RaisedMiddle(a, y, c, 1);
  }

  /** The insertion of the Laplace rule, after the raised exponent. */
  lemma LaplaceInsertStep(u: seq<Token>, p: nat, e: nat, w1: seq<Token>, w2: seq<Token>)
    requires p + 2 <= e <= |u| && |w1| == 2
    ensures Inserted(Raised(u, p + 2, e, 1), e, w1 + w2) ==
              u[..p + 2] + (Raise(u[p + 2..e], 1) + w1) + (w2 + u[e..]) &&
            |u[..p + 2]| == p + 2 && |Raise(u[p + 2..e], 1) + w1| == e - p
  {
    var a, x, c := u[..p + 2], Raise(u[p + 2..e], 1), u[e..];
    InsertedAt(Raised(u, p + 2, e, 1), a + x, c, w1 + w2, e);
    Regroup(a, x, w1, w2, c);
  }

  lemma Regroup<T>(a: seq<T>, b: seq<T>, w1: seq<T>, w2: seq<T>, c: seq<T>)
    ensures a + b + (w1 + w2) + c == a + (b + w1) + (w2 + c)
  {
  }

  /** The raised exponent with its `+ 1`, followed by `* -1`. */
  lemma LaplaceExponentShape(r3: seq<Token>, a: seq<Token>, x: seq<Token>, c: seq<Token>, level: int)
    requires r3 == a + Raise(Raise(x, 1) + [OpToken(PLUS, level + 1), ConstToken(1.0, level + 1)], 1) +
                   ([OpToken(TIMES, level + 1), ConstToken(-1.0, level + 1)] + c)
    ensures r3 == a + Raise(x, 2) + ([OpToken(PLUS, level + 2), ConstToken(1.0, level + 2),
                                      OpToken(TIMES, level + 1), ConstToken(-1.0, level + 1)] + c)
  {
    var w1 := [OpToken(PLUS, level + 1), ConstToken(1.0, level + 1)];
    var w2 := [OpToken(TIMES, level + 1), ConstToken(-1.0, level + 1)];
    LaplaceRaise(x, w1);
    RaisePair(level);
    assert Raise(w1, 1) + w2 == [OpToken(PLUS, level + 2), ConstToken(1.0, level + 2),
                                 OpToken(TIMES, level + 1), ConstToken(-1.0, level + 1)];
    assert a + (Raise(x, 2) + Raise(w1, 1)) + (w2 + c) == a + Raise(x, 2) + (Raise(w1, 1) + w2 + c);
  }

  /** InsertedBetween for a sequence known to be `a + c`. */
  lemma InsertedAt<T>(s: seq<T>, a: seq<T>, c: seq<T>, w: seq<T>, i: nat)
    requires s == a + c && i == |a|
    ensures Inserted(s, i, w) == a + w + c
  {
    InsertedBetween(a, c, w);
  }

  lemma Assemble<T>(r3: seq<T>, a: seq<T>, x: seq<T>, r: seq<T>, c: seq<T>, y: seq<T>, f: seq<T>, i: nat, j: nat)
    requires r3 == a + x + (r + c) && i == |a| && j == |a| + |x|
    ensures r3 + y + r3[i..j] + f == a + (x + r) + c + y + x + f
  {
    assert r3[i..j] == x;
  }

  lemma RaisePair(level: int)
    ensures Raise([OpToken(PLUS, level + 1), ConstToken(1.0, level + 1)], 1) ==
      [OpToken(PLUS, level + 2), ConstToken(1.0, level + 2)]
  {
  }

  lemma LaplaceRaise(x: seq<Token>, w1: seq<Token>)
    ensures Raise(Raise(x, 1) + w1, 1) == Raise(x, 2) + Raise(w1, 1)
  {
    RaiseConcat(Raise(x, 1), w1, 1);
    RaiseTwice(x, 1, 1);
  }

  /** The inverse Laplace rule on `u`, read through the slices around the exponent `u[p + 2..e]`. */
  lemma InvLaplaceRuleSlices(u: seq<Token>, p: nat, e: nat, m: int)
    requires 0 < p && p + 2 <= e <= |u|
    ensures var level := u[p + 1].level;
      var a1 := u[..p + 2][p - 1 := u[p - 1].(payload := Operator(TIMES))];
      var n1 := Raise(u[p + 2..e], 1) + [OpToken(MINUS, level + 1), ConstToken(1.0, level + 1)];
      InvLaplaceRuleTo(u, p, e, m) ==
        a1 + n1 + u[e..] + [OpToken(DIVIDE, m)] + n1 + [OpToken(FACTORIAL, m + 1), ConstToken(1.0, m + 1)]
  {
    var level := u[p + 1].level;
    var a1 := u[..p + 2][p - 1 := u[p - 1].(payload := Operator(TIMES))];
    var n1 := Raise(u[p + 2..e], 1) + [OpToken(MINUS, level + 1), ConstToken(1.0, level + 1)];
    InvLaplaceExponentSlices(u, p, e);
    assert |a1| == p + 2 && |n1| == e - p;
    AssembleCopy(InvLaplaceExponentTo(u, p, e), a1, n1, u[e..], [OpToken(DIVIDE, m)],
                 [OpToken(FACTORIAL, m + 1), ConstToken(1.0, m + 1)], p + 2, e + 2);
  }

  /** The exponent rewrite of the inverse Laplace rule, read through the slices of `u`. */
  lemma InvLaplaceExponentSlices(u: seq<Token>, p: nat, e: nat)
    requires 0 < p && p + 2 <= e <= |u|
    ensures var level := u[p + 1].level;
      InvLaplaceExponentTo(u, p, e) ==
        u[..p + 2][p - 1 := u[p - 1].(payload := Operator(TIMES))] +
        (Raise(u[p + 2..e], 1) + [OpToken(MINUS, level + 1), ConstToken(1.0, level + 1)]) + u[e..]
  {
    var level := u[p + 1].level;
    var a, x, c := u[..p + 2], Raise(u[p + 2..e], 1), u[e..];
    var r := Raised(u, p + 2, e, 1);
    var t := u[p - 1].(payload := Operator(TIMES));
    UpdateFront(r, a, x + c, p - 1, t);
    assert a + x + c == a + (x + c);
    var r1 := r[p - 1 := t];
    assert r1 == a[p - 1 := t] + x + c;
    InsertedAt(r1, a[p - 1 := t] + x, c, [OpToken(MINUS, level + 1), ConstToken(1.0, level + 1)], e);
  }

  /** Updating a cell of the front part of `a + b`. */
  lemma UpdateFront<T>(s: seq<T>, a: seq<T>, b: seq<T>, k: nat, v: T)
    requires s == a + b && k < |a|
    ensures s[k := v] == a[k := v] + b
  {
  }

  lemma AssembleCopy<T>(r2: seq<T>, a: seq<T>, n: seq<T>, c: seq<T>, y: seq<T>, f: seq<T>, i: nat, j: nat)
    requires r2 == a + n + c && i == |a| && j == |a| + |n|
    ensures r2 + y + r2[i..j] + f == a + n + c + y + n + f
  {
    assert r2[i..j] == n;
  }


  // ----- the rules on the raised term, in terms of the term itself -----

  /** The raised term cut around the exponent, which ends where it did before raising. */
  lemma RaisedCut(t: seq<Token>, p: nat, d: int)
    requires p + 2 <= |t|
    ensures var e := ExponentEnd(t, p);
      Raise(t, d) == Raise(t[..p + 2], d) + Raise(t[p + 2..e], d) + Raise(t[e..], d) &&
      ExponentEnd(Raise(t, d), p) == e
  {
    var e := ExponentEnd(t, p);
    var a, x, c := Raise(t[..p + 2], d), Raise(t[p + 2..e], d), Raise(t[e..], d);
    ExponentCut(t, p, d);
    assert a[p + 1].level == t[p + 1].level + d;
    ExponentEndOn(a, x, c, p);
  }

  lemma PowerRuleRaised(t: seq<Token>, p: nat, m: int)
    requires p + 2 <= |t|
    ensures var e := ExponentEnd(t, p);
      var level := t[p + 1].level + 2;
      var n1 := Raise(t[p + 2..e], 3) + [OpToken(PLUS, level + 1), ConstToken(1.0, level + 1)];
      PowerRule(Raise(t, 2), p, m) == Raise(t[..p + 2], 2) + n1 + Raise(t[e..], 2) + [OpToken(DIVIDE, m)] + n1
  {
    var e := ExponentEnd(t, p);
    RaisedCut(t, p, 2);
    PowerRuleCut(Raise(t, 2), Raise(t[..p + 2], 2), Raise(t[p + 2..e], 2), Raise(t[e..], 2), p, m);
    RaiseTwice(t[p + 2..e], 2, 1);
  }

  /** PowerRuleOn for a term known to be cut at its exponent. */
  lemma PowerRuleCut(u: seq<Token>, a: seq<Token>, x: seq<Token>, c: seq<Token>, p: nat, m: int)
    requires |a| == p + 2 && u == a + x + c && ExponentEnd(u, p) == |a| + |x|
    ensures var level := a[p + 1].level;
      var n1 := Raise(x, 1) + [OpToken(PLUS, level + 1), ConstToken(1.0, level + 1)];
      PowerRule(u, p, m) == a + n1 + c + [OpToken(DIVIDE, m)] + n1
  {
    assert PowerRule(u, p, m) == PowerRuleTo(a + x + c, p, |a| + |x|, m);
    PowerRuleOn(a, x, c, p, m);
  }

  /** NegateExponent on the raised term, cut around the exponent it leaves. */
  lemma NegatedCut(t: seq<Token>, p: nat)
    requires 0 < p && p + 2 <= |t|
    ensures var e := ExponentEnd(t, p);
      var level := t[p + 1].level + 2;
      var a1 := Raise(t[..p + 2], 2)[p - 1 := OpToken(TIMES, t[p - 1].level + 2)];
      var y := [ConstToken(-1.0, level + 1), OpToken(TIMES, level + 1)] + Raise(t[p + 2..e], 3);
      var w := NegateExponent(Raise(t, 2), p);
      w == a1 + y + Raise(t[e..], 2) && ExponentEnd(w, p) == p + 2 + |y|
  {
    var e := ExponentEnd(t, p);
    var level := t[p + 1].level + 2;
    var a, x, c := Raise(t[..p + 2], 2), Raise(t[p + 2..e], 2), Raise(t[e..], 2);
    var a1 := a[p - 1 := a[p - 1].(payload := Operator(TIMES))];
    var y := [ConstToken(-1.0, level + 1), OpToken(TIMES, level + 1)] + Raise(x, 1);
    var w := NegateExponent(Raise(t, 2), p);
    assert w == a1 + y + c && ExponentEnd(w, p) == |a| + |y| by {
      ExponentCut(t, p, 2);
      assert a[p + 1].level == level;
      ExponentEndOn(a, x, c, p);
      NegateCut(Raise(t, 2), a, x, c, p);
    }
    assert a1 == a[p - 1 := OpToken(TIMES, t[p - 1].level + 2)];
    assert Raise(x, 1) == Raise(t[p + 2..e], 3) by {
      RaiseTwice(t[p + 2..e], 2, 1);
    }
  }

  /** NegateExponentOn for a term known to be cut at its exponent, and where the new exponent ends. */
  lemma NegateCut(u: seq<Token>, a: seq<Token>, x: seq<Token>, c: seq<Token>, p: nat)
    requires 0 < p && |a| == p + 2 && u == a + x + c && ExponentEnd(u, p) == |a| + |x|
    requires AtLeast(x, a[p + 1].level) && StopsBelow(c, a[p + 1].level)
    ensures var level := a[p + 1].level;
      var a1 := a[p - 1 := a[p - 1].(payload := Operator(TIMES))];
      var y := [ConstToken(-1.0, level + 1), OpToken(TIMES, level + 1)] + Raise(x, 1);
      var w := NegateExponent(u, p);
      w == a1 + y + c && ExponentEnd(w, p) == |a| + |y|
  {
    var level := a[p + 1].level;
    var a1 := a[p - 1 := a[p - 1].(payload := Operator(TIMES))];
    var y := [ConstToken(-1.0, level + 1), OpToken(TIMES, level + 1)] + Raise(x, 1);
    assert NegateExponent(u, p) == NegateExponentTo(a + x + c, p, |a| + |x|);
    NegateExponentOn(a, x, c, p);
    assert AtLeast(y, level);
    ExponentEndOn(a1, y, c, p);
  }

  lemma NegatedRaised(t: seq<Token>, p: nat, m: int)
    requires 0 < p && p + 2 <= |t|
    ensures var e := ExponentEnd(t, p);
      var level := t[p + 1].level + 2;
      var a := Raise(t[..p + 2], 2);
      var n1 := [ConstToken(-1.0, level + 2), OpToken(TIMES, level + 2)] + Raise(t[p + 2..e], 4) +
                [OpToken(PLUS, level + 1), ConstToken(1.0, level + 1)];
      PowerRule(NegateExponent(Raise(t, 2), p), p, m) ==
        a[p - 1 := OpToken(TIMES, t[p - 1].level + 2)] + n1 + Raise(t[e..], 2) + [OpToken(DIVIDE, m)] + n1
  {
    var e := ExponentEnd(t, p);
    var level := t[p + 1].level + 2;
    var a1 := Raise(t[..p + 2], 2)[p - 1 := OpToken(TIMES, t[p - 1].level + 2)];
    var y := [ConstToken(-1.0, level + 1), OpToken(TIMES, level + 1)] + Raise(t[p + 2..e], 3);
    NegatedCut(t, p);
    assert a1[p + 1].level == level;
    PowerRuleOn(a1, y, Raise(t[e..], 2), p, m);
    NegatedRaise(t[p + 2..e], level);
  }

  lemma NegatedRaise(n: seq<Token>, level: int)
    ensures Raise([ConstToken(-1.0, level + 1), OpToken(TIMES, level + 1)] + Raise(n, 3), 1) ==
      [ConstToken(-1.0, level + 2), OpToken(TIMES, level + 2)] + Raise(n, 4)
  {
    RaiseConcat([ConstToken(-1.0, level + 1), OpToken(TIMES, level + 1)], Raise(n, 3), 1);
    RaiseTwice(n, 3, 1);
  }

  lemma LaplaceRaised(t: seq<Token>, p: nat, m: int)
    requires p + 2 <= |t|
    ensures var e := ExponentEnd(t, p);
      var level := t[p + 1].level + 2;
      var n := Raise(t[p + 2..e], 4);
      LaplaceRule(Raise(t, 2), p, m) ==
        Raise(t[..p + 2], 2) + (n + [OpToken(PLUS, level + 2), ConstToken(1.0, level + 2),
                                     OpToken(TIMES, level + 1), ConstToken(-1.0, level + 1)]) +
        Raise(t[e..], 2) + [OpToken(TIMES, m)] + n + [OpToken(FACTORIAL, m + 1), ConstToken(1.0, m + 1)]
  {
    var e := ExponentEnd(t, p);
    var u := Raise(t, 2);
    RaisedCut(t, p, 2);
    assert LaplaceRule(u, p, m) == LaplaceRuleTo(u, p, e, m);
    LaplaceRuleSlices(u, p, e, m);
    RaiseSlices(t, p, e, 2);
    RaiseTwice(t[p + 2..e], 2, 2);
  }

  /** The slices of a raised term around an exponent are the raised slices. */
  lemma RaiseSlices(t: seq<Token>, p: nat, e: nat, d: int)
    requires p + 2 <= e <= |t|
    ensures var u := Raise(t, d);
      u[..p + 2] == Raise(t[..p + 2], d) && u[p + 2..e] == Raise(t[p + 2..e], d) &&
      u[e..] == Raise(t[e..], d) && u[p + 1].level == t[p + 1].level + d
  {
  }

  lemma InvLaplaceRaised(t: seq<Token>, p: nat, m: int)
    requires 0 < p && p + 2 <= |t|
    ensures var e := ExponentEnd(t, p);
      var level := t[p + 1].level + 2;
      var a := Raise(t[..p + 2], 2);
      var n1 := Raise(t[p + 2..e], 3) + [OpToken(MINUS, level + 1), ConstToken(1.0, level + 1)];
      InvLaplaceRule(Raise(t, 2), p, m) ==
        a[p - 1 := OpToken(TIMES, t[p - 1].level + 2)] + n1 + Raise(t[e..], 2) +
        [OpToken(DIVIDE, m)] + n1 + [OpToken(FACTORIAL, m + 1), ConstToken(1.0, m + 1)]
  {
    var e := ExponentEnd(t, p);
    var u := Raise(t, 2);
    RaisedCut(t, p, 2);
    assert InvLaplaceRule(u, p, m) == InvLaplaceRuleTo(u, p, e, m);
    InvLaplaceRuleSlices(u, p, e, m);
    RaiseSlices(t, p, e, 2);
    assert u[p - 1].(payload := Operator(TIMES)) == OpToken(TIMES, t[p - 1].level + 2);
    RaiseTwice(t[p + 2..e], 2, 1);
  }


  // ----- what integrate_sub promises, continued -----

  lemma IntegrateTakesPowerRule(t: seq<Token>, v: int, p: nat)
    requires PolynomialIn(t, v, MinOpLevel(t)) && VarAt(t, v, p)
    requires p + 2 <= |t| && OpOf(t[p + 1]) == POWER && !DivideBefore(t, p)
    ensures IntegrateTerm(t, v) == Rewritten(PowerRule(Raise(t, 2), p, MinOpLevel(t) + 1))
  {
    PolyFound(t, v, MinOpLevel(t), p);
    RaisedOperators(t, p);
  }

  /** Raising levels leaves the operators around `v ^` as they were. */
  lemma RaisedOperators(t: seq<Token>, p: nat)
    requires p + 2 <= |t|
    ensures var u := Raise(t, 2);
      OpOf(u[p + 1]) == OpOf(t[p + 1]) && (DivideBefore(u, p) <==> DivideBefore(t, p)) &&
      (UnitExponent(u, p) <==> UnitExponent(t, p))
  {
    var u := Raise(t, 2);
    assert u[p + 1].payload == t[p + 1].payload;
    if 0 < p {
      assert u[p - 1].payload == t[p - 1].payload;
    }
  }

  /**
   * The power rule: with `v ^ n` not under `/`, the exponent `n` becomes
   * `n + 1` and the term is divided by a copy of `n + 1`.
   */
  lemma IntegratePower(t: seq<Token>, v: int, p: nat)
    requires PolynomialIn(t, v, MinOpLevel(t)) && VarAt(t, v, p)
    requires p + 2 <= |t| && OpOf(t[p + 1]) == POWER && !DivideBefore(t, p)
    ensures var e := ExponentEnd(t, p);
      var level := t[p + 1].level + 2;
      var n1 := Raise(t[p + 2..e], 3) + [OpToken(PLUS, level + 1), ConstToken(1.0, level + 1)];
      IntegrateTerm(t, v) ==
        Rewritten(Raise(t[..p + 2], 2) + n1 + Raise(t[e..], 2) + [OpToken(DIVIDE, MinOpLevel(t) + 1)] + n1)
  {
    IntegrateTakesPowerRule(t, v, p);
    PowerRuleRaised(t, p, MinOpLevel(t) + 1);
  }

  lemma IntegrateTakesNegation(t: seq<Token>, v: int, p: nat)
    requires PolynomialIn(t, v, MinOpLevel(t)) && VarAt(t, v, p)
    requires p + 2 <= |t| && OpOf(t[p + 1]) == POWER && DivideBefore(t, p) && !UnitExponent(t, p)
    ensures IntegrateTerm(t, v) ==
      Rewritten(PowerRule(NegateExponent(Raise(t, 2), p), p, MinOpLevel(t) + 1))
  {
    PolyFound(t, v, MinOpLevel(t), p);
    RaisedOperators(t, p);
  }

  /**
   * `/ v ^ n` with `n` other than the constant 1: the `/` turns into `*`,
   * the exponent into `-1 * n + 1`, and the term is divided by that
   * exponent.
   */
  lemma IntegrateReciprocal(t: seq<Token>, v: int, p: nat)
    requires PolynomialIn(t, v, MinOpLevel(t)) && VarAt(t, v, p)
    requires p + 2 <= |t| && OpOf(t[p + 1]) == POWER && DivideBefore(t, p) && !UnitExponent(t, p)
    ensures var e := ExponentEnd(t, p);
      var level := t[p + 1].level + 2;
      var a := Raise(t[..p + 2], 2);
      var n1 := [ConstToken(-1.0, level + 2), OpToken(TIMES, level + 2)] + Raise(t[p + 2..e], 4) +
                [OpToken(PLUS, level + 1), ConstToken(1.0, level + 1)];
      IntegrateTerm(t, v) ==
        Rewritten(a[p - 1 := OpToken(TIMES, t[p - 1].level + 2)] + n1 + Raise(t[e..], 2) +
                  [OpToken(DIVIDE, MinOpLevel(t) + 1)] + n1)
  {
    IntegrateTakesNegation(t, v, p);
    NegatedRaised(t, p, MinOpLevel(t) + 1);
  }

  /** A `v` not raised to a power (which make_powers rules out) is refused. */
  lemma IntegrateBare(t: seq<Token>, v: int, p: nat)
    requires PolynomialIn(t, v, MinOpLevel(t)) && VarAt(t, v, p)
    requires p + 1 >= |t| || OpOf(t[p + 1]) != POWER
    ensures IntegrateTerm(t, v) == Rejected(Raise(t, 2))
  {
    PolyFound(t, v, MinOpLevel(t), p);
  }

  // ----- what laplace_sub promises -----

  /** The first operand position holding `v`. */
  predicate FirstVarAt(t: seq<Token>, v: int, p: int) {
    VarAt(t, v, p) && forall q | 0 <= q < p :: !VarAt(t, v, q)
  }

  lemma FirstFound(t: seq<Token>, v: int, p: int)
    requires FirstVarAt(t, v, p)
    ensures FindVar(Raise(t, 2), v, 0) == p
  {
    FoundIn(t, v);
  }

  /** In a polynomial term the one occurrence of `v` is the one found. */
  lemma PolyFound(t: seq<Token>, v: int, level: int, p: nat)
    requires PolynomialIn(t, v, level) && VarAt(t, v, p)
    ensures FindVar(Raise(t, 2), v, 0) == p
  {
    FoundIn(t, v);
    var f := FindVar(Raise(t, 2), v, 0);
    assert f <= p;
    assert VarAt(t, v, f);
  }

  /** `v` first occurs at `p` and is not raised to a power there. */
  predicate LaplaceRefusal(t: seq<Token>, v: int, p: int) {
    FirstVarAt(t, v, p) && (p + 1 >= |t| || OpOf(t[p + 1]) != POWER)
  }

  /**
   * laplace_sub refuses a term exactly when the first `v` in it is not
   * raised to a power, and then leaves it with its levels raised by two.
   */
  lemma LaplaceGate(t: seq<Token>, v: int)
    ensures LaplaceTerm(t, v).Rejected? <==> exists p | 0 <= p < |t| :: LaplaceRefusal(t, v, p)
    ensures LaplaceTerm(t, v).Rejected? ==> LaplaceTerm(t, v).term == Raise(t, 2)
  {
    if exists q | 0 <= q < |t| :: LaplaceRefusal(t, v, q) {
      var q :| 0 <= q < |t| && LaplaceRefusal(t, v, q);
      LaplaceRefuses(t, v, q);
    }
    if LaplaceTerm(t, v).Rejected? {
      LaplaceRefusalFound(t, v);
    }
  }

  lemma LaplaceRefuses(t: seq<Token>, v: int, p: nat)
    requires LaplaceRefusal(t, v, p)
    ensures LaplaceTerm(t, v) == Rejected(Raise(t, 2))
  {
    FirstFound(t, v, p);
    var u := Raise(t, 2);
    if p + 1 < |t| {
      assert u[p + 1].payload == t[p + 1].payload;
    }
  }

  lemma LaplaceRefusalFound(t: seq<Token>, v: int)
    requires LaplaceTerm(t, v).Rejected?
    ensures var p := FindVar(Raise(t, 2), v, 0); 0 <= p < |t| && LaplaceRefusal(t, v, p)
  {
    FoundIn(t, v);
    var p := FindVar(Raise(t, 2), v, 0);
    var u := Raise(t, 2);
    if p + 1 < |t| {
      assert u[p + 1].payload == t[p + 1].payload;
    }
  }

  /** Without `v` the term is divided by `v`: the transform of a constant. */
  lemma LaplaceAbsent(t: seq<Token>, v: int)
    requires forall p | 0 <= p < |t| :: !VarAt(t, v, p)
    ensures var m := MinOpLevel(t) + 1;
      LaplaceTerm(t, v) == Rewritten(Raise(t, 2) + [OpToken(DIVIDE, m), VarToken(v, m)])
  {
    FoundIn(t, v);
  }

  lemma LaplaceTakesRule(t: seq<Token>, v: int, p: nat)
    requires FirstVarAt(t, v, p) && p + 1 < |t| && OpOf(t[p + 1]) == POWER
    ensures LaplaceTerm(t, v) == Rewritten(LaplaceRule(Raise(t, 2), p, MinOpLevel(t) + 1))
  {
    FirstFound(t, v, p);
  }

  /**
   * `v ^ n` becomes `v ^ ((n + 1) * -1)` and the term is multiplied by
   * `n!`.
   */
  lemma LaplacePower(t: seq<Token>, v: int, p: nat)
    requires FirstVarAt(t, v, p) && p + 1 < |t| && OpOf(t[p + 1]) == POWER
    ensures var e := ExponentEnd(t, p);
      var level := t[p + 1].level + 2;
      var m := MinOpLevel(t) + 1;
      var n := Raise(t[p + 2..e], 4);
      LaplaceTerm(t, v) ==
        Rewritten(Raise(t[..p + 2], 2) + (n + [OpToken(PLUS, level + 2), ConstToken(1.0, level + 2),
                                               OpToken(TIMES, level + 1), ConstToken(-1.0, level + 1)]) +
                  Raise(t[e..], 2) + [OpToken(TIMES, m)] + n +
                  [OpToken(FACTORIAL, m + 1), ConstToken(1.0, m + 1)])
  {
    LaplaceTakesRule(t, v, p);
    LaplaceRaised(t, p, MinOpLevel(t) + 1);
  }

  // ----- what inv_laplace_sub promises -----

  /** `v` first occurs at `p`, raised to a power and as the divisor of a `/` past the first operand. */
  predicate InvLaplaceSite(t: seq<Token>, v: int, p: int) {
    FirstVarAt(t, v, p) && 1 < p && p + 1 < |t| && OpOf(t[p + 1]) == POWER && OpOf(t[p - 1]) == DIVIDE
  }

  /**
   * inv_laplace_sub succeeds exactly when the first `v` is the divisor of
   * a `/` past the first operand and is raised to a power; a refused term
   * keeps its levels raised by two.
   */
  lemma InvLaplaceGate(t: seq<Token>, v: int)
    ensures InvLaplaceTerm(t, v).Rewritten? <==> exists p | 0 <= p < |t| :: InvLaplaceSite(t, v, p)
    ensures InvLaplaceTerm(t, v).Rejected? ==> InvLaplaceTerm(t, v).term == Raise(t, 2)
  {
    if exists q | 0 <= q < |t| :: InvLaplaceSite(t, v, q) {
      var q :| 0 <= q < |t| && InvLaplaceSite(t, v, q);
      InvLaplaceTakesRule(t, v, q);
    }
    if InvLaplaceTerm(t, v).Rewritten? {
      InvLaplaceFound(t, v);
    }
  }

  lemma InvLaplaceFound(t: seq<Token>, v: int)
    requires InvLaplaceTerm(t, v).Rewritten?
    ensures var p := FindVar(Raise(t, 2), v, 0); 0 <= p < |t| && InvLaplaceSite(t, v, p)
  {
    FoundIn(t, v);
    var p := FindVar(Raise(t, 2), v, 0);
    var u := Raise(t, 2);
    assert u[p + 1].payload == t[p + 1].payload && u[p - 1].payload == t[p - 1].payload;
  }

  lemma InvLaplaceTakesRule(t: seq<Token>, v: int, p: nat)
    requires InvLaplaceSite(t, v, p)
    ensures InvLaplaceTerm(t, v) == Rewritten(InvLaplaceRule(Raise(t, 2), p, MinOpLevel(t) + 1))
  {
    FirstFound(t, v, p);
    var u := Raise(t, 2);
    assert u[p + 1].payload == t[p + 1].payload && u[p - 1].payload == t[p - 1].payload;
  }

  /**
   * `/ v ^ n` becomes `* v ^ (n - 1)` and the term is divided by
   * `(n - 1)!`.
   */
  lemma InvLaplacePower(t: seq<Token>, v: int, p: nat)
    requires InvLaplaceSite(t, v, p)
    ensures var e := ExponentEnd(t, p);
      var level := t[p + 1].level + 2;
      var m := MinOpLevel(t) + 1;
      var a := Raise(t[..p + 2], 2);
      var n1 := Raise(t[p + 2..e], 3) + [OpToken(MINUS, level + 1), ConstToken(1.0, level + 1)];
      InvLaplaceTerm(t, v) ==
        Rewritten(a[p - 1 := OpToken(TIMES, t[p - 1].level + 2)] + n1 + Raise(t[e..], 2) +
                  [OpToken(DIVIDE, m)] + n1 + [OpToken(FACTORIAL, m + 1), ConstToken(1.0, m + 1)])
  {
    InvLaplaceTakesRule(t, v, p);
    InvLaplaceRaised(t, p, MinOpLevel(t) + 1);
  }

  // ----- a rewritten term lies below level 1 -----

  lemma RaisedAtLeast(s: seq<Token>, a: nat, b: nat, d: nat, level: int)
    requires a <= b <= |s| && AtLeast(s, level)
    ensures AtLeast(Raised(s, a, b, d), level)
  {
    var r := Raised(s, a, b, d);
    forall k | 0 <= k < |r|
      ensures r[k].level >= level
    {
      if a <= k < b {
        assert r[k] == Raise(s[a..b], d)[k - a];
      } else {
        assert r[k] == s[k];
      }
    }
  }

  lemma InsertedAtLeast(s: seq<Token>, i: nat, w: seq<Token>, level: int)
    requires i <= |s| && AtLeast(s, level) && AtLeast(w, level)
    ensures AtLeast(Inserted(s, i, w), level)
  {
    var r := Inserted(s, i, w);
    forall k | 0 <= k < |r|
      ensures r[k].level >= level
    {
      if k < i {
        assert r[k] == s[k];
      } else if k < i + |w| {
        assert r[k] == w[k - i];
      } else {
        assert r[k] == s[k - |w|];
      }
    }
  }

  lemma ConcatAtLeast(a: seq<Token>, b: seq<Token>, level: int)
    requires AtLeast(a, level) && AtLeast(b, level)
    ensures AtLeast(a + b, level)
  {
    assert forall k | |a| <= k < |a + b| :: (a + b)[k] == b[k - |a|];
  }

  /** A rewritten term and what a rule appends to it: a marker, a copy of a slice, a tail. */
  lemma AssembledAtLeast(r: seq<Token>, y: seq<Token>, i: nat, j: nat, f: seq<Token>, level: int)
    requires i <= j <= |r| && AtLeast(r, level) && AtLeast(y, level) && AtLeast(f, level)
    ensures AtLeast(r + y + r[i..j], level) && AtLeast(r + y + r[i..j] + f, level)
  {
    ConcatAtLeast(r, y, level);
    ConcatAtLeast(r + y, r[i..j], level);
    ConcatAtLeast(r + y + r[i..j], f, level);
  }

  /** The power rule keeps a term at `level` or deeper when what it adds is. */
  lemma PowerRuleAtLeast(w: seq<Token>, p: nat, mlevel: int, level: int)
    requires p + 2 <= |w| && AtLeast(w, level) && mlevel >= level
    ensures AtLeast(PowerRule(w, p, mlevel), level)
  {
    var l := w[p + 1].level;
    var e := ExponentEnd(w, p);
    var ins := [OpToken(PLUS, l + 1), ConstToken(1.0, l + 1)];
    RaisedAtLeast(w, p + 2, e, 1, level);
    InsertedAtLeast(Raised(w, p + 2, e, 1), e, ins, level);
    AssembledAtLeast(PowerExponentTo(w, p, e), [OpToken(DIVIDE, mlevel)], p + 2, e + 2, [], level);
  }

  lemma NegateExponentAtLeast(u: seq<Token>, p: nat, level: int)
    requires 0 < p && p + 2 <= |u| && AtLeast(u, level)
    ensures AtLeast(NegateExponent(u, p), level)
  {
    var l := u[p + 1].level;
    var e := ExponentEnd(u, p);
    RaisedAtLeast(u, p + 2, e, 1, level);
    var r := Raised(u, p + 2, e, 1);
    var r1 := r[p - 1 := r[p - 1].(payload := Operator(TIMES))];
    assert AtLeast(r1, level);
    InsertedAtLeast(r1, p + 2, [ConstToken(-1.0, l + 1), OpToken(TIMES, l + 1)], level);
  }

  lemma LaplaceRuleAtLeast(u: seq<Token>, p: nat, mlevel: int, level: int)
    requires p + 2 <= |u| && AtLeast(u, level) && mlevel >= level
    ensures AtLeast(LaplaceRule(u, p, mlevel), level)
  {
    LaplaceRuleToAtLeast(u, p, ExponentEnd(u, p), mlevel, level);
  }

  lemma LaplaceRuleToAtLeast(u: seq<Token>, p: nat, e: nat, mlevel: int, level: int)
    requires p + 2 <= e <= |u| && AtLeast(u, level) && mlevel >= level
    ensures AtLeast(LaplaceRuleTo(u, p, e, mlevel), level)
  {
    LaplaceExponentAtLeast(u, p, e, level);
    AssembledAtLeast(LaplaceExponentTo(u, p, e), [OpToken(TIMES, mlevel)], p + 2, e,
                     [OpToken(FACTORIAL, mlevel + 1), ConstToken(1.0, mlevel + 1)], level);
  }

  lemma LaplaceExponentAtLeast(u: seq<Token>, p: nat, e: nat, level: int)
    requires p + 2 <= e <= |u| && AtLeast(u, level)
    ensures AtLeast(LaplaceExponentTo(u, p, e), level)
  {
    var l := u[p + 1].level;
    LaplaceCoreAtLeast(u, p + 2, e, [OpToken(PLUS, l + 1), ConstToken(1.0, l + 1)] +
                                    [OpToken(TIMES, l + 1), ConstToken(-1.0, l + 1)], level);
  }

  lemma LaplaceCoreAtLeast(u: seq<Token>, a: nat, e: nat, w: seq<Token>, level: int)
    requires a <= e <= |u| && |w| >= 2 && AtLeast(u, level) && AtLeast(w, level)
    ensures AtLeast(Raised(Inserted(Raised(u, a, e, 1), e, w), a, e + 2, 1), level)
  {
    RaisedAtLeast(u, a, e, 1, level);
    InsertedAtLeast(Raised(u, a, e, 1), e, w, level);
    RaisedAtLeast(Inserted(Raised(u, a, e, 1), e, w), a, e + 2, 1, level);
  }

  lemma InvLaplaceRuleAtLeast(u: seq<Token>, p: nat, mlevel: int, level: int)
    requires 0 < p && p + 2 <= |u| && AtLeast(u, level) && mlevel >= level
    ensures AtLeast(InvLaplaceRule(u, p, mlevel), level)
  {
    var l := u[p + 1].level;
    var e := ExponentEnd(u, p);
    RaisedAtLeast(u, p + 2, e, 1, level);
    var r := Raised(u, p + 2, e, 1);
    var r1 := r[p - 1 := r[p - 1].(payload := Operator(TIMES))];
    assert AtLeast(r1, level);
    var w := [OpToken(MINUS, l + 1), ConstToken(1.0, l + 1)];
    InsertedAtLeast(r1, e, w, level);
    AssembledAtLeast(InvLaplaceExponentTo(u, p, e), [OpToken(DIVIDE, mlevel)], p + 2, e + 2,
                     [OpToken(FACTORIAL, mlevel + 1), ConstToken(1.0, mlevel + 1)], level);
  }

  /** Over positive levels, min_level is positive too. */
  lemma MinOpLevelPositive(t: seq<Token>)
    requires LevelsPositive(t)
    ensures MinOpLevel(t) >= 1
  {
    if |t| >= 2 {
      assert MinOpLevel(t) == MinOpLevelBelow(t, |t|);
    }
  }

  lemma RaiseAtLeast(t: seq<Token>)
    requires LevelsPositive(t)
    ensures AtLeast(Raise(t, 2), 2)
  {
  }

  lemma IntegrateRaisedAtLeast(u: seq<Token>, v: int, m: int, level: int)
    requires AtLeast(u, level) && m >= level
    ensures IntegrateRaisedTerm(u, v, m).Rewritten? ==> AtLeast(IntegrateRaisedTerm(u, v, m).term, level)
  {
    var p := FindVar(u, v, 0);
    if p >= |u| {
      ConcatAtLeast(u, [OpToken(TIMES, m), VarToken(v, m)], level);
    } else if p + 1 >= |u| || OpOf(u[p + 1]) != POWER {
    } else if DivideBefore(u, p) {
      NegateExponentAtLeast(u, p, level);
      PowerRuleAtLeast(NegateExponent(u, p), p, m, level);
    } else {
      PowerRuleAtLeast(u, p, m, level);
    }
  }

  lemma LaplaceRaisedAtLeast(u: seq<Token>, v: int, m: int, level: int)
    requires AtLeast(u, level) && m >= level
    ensures LaplaceRaisedTerm(u, v, m).Rewritten? ==> AtLeast(LaplaceRaisedTerm(u, v, m).term, level)
  {
    var p := FindVar(u, v, 0);
    if p >= |u| {
      ConcatAtLeast(u, [OpToken(DIVIDE, m), VarToken(v, m)], level);
    } else if p + 1 < |u| {
      LaplaceRuleAtLeast(u, p, m, level);
    }
  }

  lemma InvLaplaceRaisedAtLeast(u: seq<Token>, v: int, m: int, level: int)
    requires AtLeast(u, level) && m >= level
    ensures InvLaplaceRaisedTerm(u, v, m).Rewritten? ==> AtLeast(InvLaplaceRaisedTerm(u, v, m).term, level)
  {
    var p := FindVar(u, v, 0);
    if 1 < p && p + 1 < |u| {
      InvLaplaceRuleAtLeast(u, p, m, level);
    }
  }

  /**
   * Every token of a rewritten term is at level 2 or deeper, so none of
   * them is taken for a top-level `+`/`-` separating terms.
   */
  lemma IntegrateBelowTop(t: seq<Token>, v: int)
    requires LevelsPositive(t) && IntegrateTerm(t, v).Rewritten?
    ensures AtLeast(IntegrateTerm(t, v).term, 2)
  {
    var u, m := Raise(t, 2), MinOpLevel(t) + 1;
    MinOpLevelPositive(t);
    RaiseAtLeast(t);
    IntegrateRaisedAtLeast(u, v, m, 2);
    var r := IntegrateRaisedTerm(u, v, m);
    assert IntegrateTerm(t, v) == r;
  }

  lemma LaplaceBelowTop(t: seq<Token>, v: int)
    requires LevelsPositive(t) && LaplaceTerm(t, v).Rewritten?
    ensures AtLeast(LaplaceTerm(t, v).term, 2)
  {
    var u, m := Raise(t, 2), MinOpLevel(t) + 1;
    MinOpLevelPositive(t);
    RaiseAtLeast(t);
    LaplaceRaisedAtLeast(u, v, m, 2);
    var r := LaplaceRaisedTerm(u, v, m);
    assert LaplaceTerm(t, v) == r;
  }

  lemma InvLaplaceBelowTop(t: seq<Token>, v: int)
    requires LevelsPositive(t) && InvLaplaceTerm(t, v).Rewritten?
    ensures AtLeast(InvLaplaceTerm(t, v).term, 2)
  {
    var u, m := Raise(t, 2), MinOpLevel(t) + 1;
    MinOpLevelPositive(t);
    RaiseAtLeast(t);
    InvLaplaceRaisedAtLeast(u, v, m, 2);
    var r := InvLaplaceRaisedTerm(u, v, m);
    assert InvLaplaceTerm(t, v) == r;
  }
}
