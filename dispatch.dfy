/*
 * int_dispatch (integrate.c): make_powers, then every top-level term of an
 * equation side, one after the other, is handed to a per-term rewriter,
 * until the side is done or the rewriter refuses a term.
 */
module Dispatch {
  import opened Tokens
  import opened Calculus
  import opened Rewriters
  import Powers

  /** The per-term rewriters the commands hand to int_dispatch. */
  datatype Transform = Integrate | Laplace | InvLaplace

  /** The function pointer: what the rewriter `f` makes of a term, with respect to `v`. */
  function Rewriter(f: Transform, v: int): seq<Token> -> TermResult {
    match f
    case Integrate => t => IntegrateTerm(t, v)
    case Laplace => t => LaplaceTerm(t, v)
    case InvLaplace => t => InvLaplaceTerm(t, v)
  }

  /**
   * What int_dispatch relies on from its rewriter: a rewritten term lies at
   * level 2 or deeper, so none of its operators is taken for a separator.
   */
  ghost predicate BelowTop(rw: seq<Token> -> TermResult) {
    forall t :: Lowers(rw, t)
  }

  /** The rewriter `rw` puts its rewriting of the term `t` at level 2 or deeper. */
  ghost predicate Lowers(rw: seq<Token> -> TermResult, t: seq<Token>) {
    LevelsPositive(t) && rw(t).Rewritten? ==> AtLeast(rw(t).term, 2)
  }

  /** The rewriter `rw` run on the term `s[loc..eloc]` of the side `s`. */
  function ApplyTo(rw: seq<Token> -> TermResult, s: seq<Token>, loc: nat, eloc: nat, nTokens: nat): Outcome
    requires loc <= eloc <= |s|
  {
    Placed(s[..loc], rw(s[loc..eloc]), s[eloc..], nTokens)
  }

  /** A top-level `+` or `-`: the operator between two terms. */
  predicate Separator(s: seq<Token>, i: nat)
    requires i < |s|
  {
    s[i].level == 1 && (OpOf(s[i]) == PLUS || OpOf(s[i]) == MINUS)
  }

  /**
   * The rescan after a rewritten term: the first position from `i` on, in
   * steps of two, that holds a level-1 token, or one at or past the end.
   */
  function NextTop(s: seq<Token>, i: nat): (k: nat)
    ensures i <= k && (k < |s| ==> s[k].level == 1)
    decreases |s| - i
  {
    if i >= |s| || s[i].level == 1 then i else NextTop(s, i + 2)
  }

  /** Where one pass of the loop of int_dispatch leaves it. */
  datatype Step = Finish(o: Outcome) | Continue(side: seq<Token>, j: nat, i: nat)

  /**
   * One pass of the loop of int_dispatch, with the current term starting
   * at `j` and the scan for its end at `i`.  Past the end the last term is
   * handed to the rewriter ending at the side's end; at a top-level `+` or
   * `-` the term before it is, and the scan goes on after the next
   * level-1 token of the new side.
   */
  ghost function Next(rw: seq<Token> -> TermResult, s: seq<Token>, j: nat, i: nat, nTokens: nat): (st: Step)
    requires BelowTop(rw) && LevelsPositive(s) && j <= i && j <= |s|
    ensures st.Continue? ==> LevelsPositive(st.side) && st.j <= st.i && st.j <= |st.side|
    ensures st.Continue? ==> |st.side| + 2 - st.i < |s| + 2 - i
  {
    if i >= |s| then Finish(ApplyTo(rw, s, j, |s|, nTokens))
    else if !Separator(s, i) then Continue(s, j, i + 2)
    else
      var o := ApplyTo(rw, s, j, i, nTokens);
      if o.Huge? || !o.ok then Finish(o)
      else
        var k := NextTop(o.side, j + 1);
        if k >= |o.side| then Finish(o)
        else
          RewriteAdvances(rw, s, j, i, nTokens);
          Continue(o.side, k + 1, k + 2)
  }

  /** The loop of int_dispatch run from `j` and `i` to its end. */
  ghost function DispatchFrom(rw: seq<Token> -> TermResult, s: seq<Token>, j: nat, i: nat, nTokens: nat): (o: Outcome)
    requires BelowTop(rw) && LevelsPositive(s) && j <= i && j <= |s|
    decreases |s| + 2 - i
  {
    match Next(rw, s, j, i, nTokens)
    case Finish(o) => o
    case Continue(s', j', i') => DispatchFrom(rw, s', j', i', nTokens)
  }

  /** int_dispatch with the rewriter `f` on the side `s`, with room for `nTokens` tokens. */
  ghost function IntDispatchOf(f: Transform, s: seq<Token>, v: int, nTokens: nat): Outcome
    requires WellFormed(s)
  {
    var p := Powers.PowersOf(s, v, nTokens);
    if p.Huge? then Huge
    else
      Powers.PowersWellFormed(s, 0, v, nTokens);
      RewritersBelowTop(f, v);
      DispatchFrom(Rewriter(f, v), p.side, 0, 1, nTokens)
  }

  // ----- why the loop ends -----

  /** integrate_sub, laplace_sub and inv_laplace_sub all keep rewritten terms below level 1. */
  lemma RewritersBelowTop(f: Transform, v: int)
    ensures BelowTop(Rewriter(f, v))
  {
    var rw := Rewriter(f, v);
    forall t
      ensures Lowers(rw, t)
    {
      if LevelsPositive(t) && rw(t).Rewritten? {
        match f
        case Integrate => IntegrateBelowTop(t, v);
        case Laplace => LaplaceBelowTop(t, v);
        case InvLaplace => InvLaplaceBelowTop(t, v);
      }
    }
  }

  /** The rescan does not stop before `b` when nothing before `b` is at level 1. */
  lemma {:induction false} NextTopPast(s: seq<Token>, i: nat, b: nat)
    requires b <= |s| && forall q | i <= q < b :: s[q].level != 1
    ensures NextTop(s, i) >= b
    decreases |s| - i
  {
    if i < b {
      NextTopPast(s, i + 2, b);
    }
  }

  /**
   * After a term is rewritten, the rescan lands at or after the separator
   * that ended it, so what is left to scan has shrunk; the side keeps its
   * levels positive.
   */
  lemma RewriteAdvances(rw: seq<Token> -> TermResult, s: seq<Token>, j: nat, i: nat, nTokens: nat)
    requires BelowTop(rw) && LevelsPositive(s) && j <= i <= |s|
    requires ApplyTo(rw, s, j, i, nTokens).Done? && ApplyTo(rw, s, j, i, nTokens).ok
    ensures var s' := ApplyTo(rw, s, j, i, nTokens).side;
      LevelsPositive(s') && |s'| - NextTop(s', j + 1) <= |s| - i
  {
    var t := s[j..i];
    assert LevelsPositive(t) && Lowers(rw, t);
    assert ApplyTo(rw, s, j, i, nTokens).side == s[..j] + rw(t).term + s[i..];
    SpliceAdvances(s, j, i, rw(t).term);
  }

  /** A term at level 2 or deeper spliced in for `s[j..i]`. */
  lemma SpliceAdvances(s: seq<Token>, j: nat, i: nat, x: seq<Token>)
    requires LevelsPositive(s) && j <= i <= |s| && AtLeast(x, 2)
    ensures var s' := s[..j] + x + s[i..];
      LevelsPositive(s') && |s'| - NextTop(s', j + 1) <= |s| - i
  {
    var s' := s[..j] + x + s[i..];
    forall q | 0 <= q < |s'|
      ensures s'[q].level >= 1
      ensures j <= q < j + |x| ==> s'[q].level >= 2
    {
      if q < j {
        assert s'[q] == s[q];
      } else if q < j + |x| {
        assert s'[q] == x[q - j];
      } else {
        assert s'[q] == s[q - j - |x| + i];
      }
    }
    if j + 1 <= j + |x| {
      NextTopPast(s', j + 1, j + |x|);
    }
  }

  // ----- what the loop keeps -----

  /** A rewriter changes nothing before its term. */
  lemma ApplyKeepsPrefix(rw: seq<Token> -> TermResult, s: seq<Token>, loc: nat, eloc: nat, nTokens: nat)
    requires loc <= eloc <= |s|
    ensures var o := ApplyTo(rw, s, loc, eloc, nTokens);
      o.Done? ==> loc <= |o.side| && o.side[..loc] == s[..loc]
  {
    var o := ApplyTo(rw, s, loc, eloc, nTokens);
    if o.Done? {
      assert o.side == s[..loc] + rw(s[loc..eloc]).term + s[eloc..];
    }
  }

  /** One pass changes nothing before the current term. */
  lemma NextKeepsPrefix(rw: seq<Token> -> TermResult, s: seq<Token>, j: nat, i: nat, nTokens: nat)
    requires BelowTop(rw) && LevelsPositive(s) && j <= i && j <= |s|
    ensures var st := Next(rw, s, j, i, nTokens);
      && (st.Finish? && st.o.Done? ==> j <= |st.o.side| && st.o.side[..j] == s[..j])
      && (st.Continue? ==> j <= st.j && j <= |st.side| && st.side[..j] == s[..j])
  {
    if i >= |s| {
      ApplyKeepsPrefix(rw, s, j, |s|, nTokens);
    } else if Separator(s, i) {
      ApplyKeepsPrefix(rw, s, j, i, nTokens);
    }
  }

  /** Nothing before the current term changes. */
  lemma {:induction false} DispatchKeepsPrefix(rw: seq<Token> -> TermResult, s: seq<Token>, j: nat, i: nat,
                                               nTokens: nat)
    requires BelowTop(rw) && LevelsPositive(s) && j <= i && j <= |s|
    ensures var o := DispatchFrom(rw, s, j, i, nTokens);
      o.Done? ==> j <= |o.side| && o.side[..j] == s[..j]
    decreases |s| + 2 - i
  {
    NextKeepsPrefix(rw, s, j, i, nTokens);
    match Next(rw, s, j, i, nTokens)
    case Finish(_) =>
    case Continue(s', j', i') =>
      DispatchKeepsPrefix(rw, s', j', i', nTokens);
      var r := DispatchFrom(rw, s', j', i', nTokens);
      if r.Done? {
        assert r.side[..j] == r.side[..j'][..j];
      }
  }

  /**
   * A side without a top-level `+` or `-` from `i` on is one term: the
   * dispatch is a single call of the rewriter on all of it from `j`.
   */
  lemma {:induction false} DispatchOneTerm(rw: seq<Token> -> TermResult, s: seq<Token>, j: nat, i: nat, nTokens: nat)
    requires BelowTop(rw) && LevelsPositive(s) && j <= i && j <= |s|
    requires forall q | i <= q < |s| && (q - i) % 2 == 0 :: !Separator(s, q)
    ensures DispatchFrom(rw, s, j, i, nTokens) == ApplyTo(rw, s, j, |s|, nTokens)
    decreases |s| + 2 - i
  {
    if i < |s| {
      assert !Separator(s, i);
      DispatchOneTerm(rw, s, j, i + 2, nTokens);
    }
  }

  // ----- the in-place dispatch -----

  /** The call through the function pointer. */
  method ApplyInPlace(f: Transform, eq: array<Token>, np: nat, loc: nat, eloc: nat, v: int, nTokens: nat)
    returns (huge: bool, ok: bool, np': nat)
    requires loc <= eloc <= np <= nTokens <= eq.Length
    modifies eq
    ensures Landed(eq, huge, ok, np', ApplyTo(Rewriter(f, v), old(eq[..np]), loc, eloc, nTokens), nTokens)
  {
    ghost var s := eq[..np];
    assert s[..loc] == eq[..loc] && s[loc..eloc] == eq[loc..eloc] && s[eloc..] == eq[eloc..np];
    match f
    case Integrate =>
      huge, ok, np' := IntegrateSub(eq, np, loc, eloc, v, nTokens);
    case Laplace =>
      huge, ok, np' := LaplaceSub(eq, np, loc, eloc, v, nTokens);
    case InvLaplace =>
      huge, ok, np' := InvLaplaceSub(eq, np, loc, eloc, v, nTokens);
  }

  /** The scan for the next top-level operator after a rewritten term. */
  method Rescan(eq: array<Token>, n: nat, from: nat) returns (i: nat)
    requires from <= n <= eq.Length
    ensures i == NextTop(eq[..n], from)
  {
    i := from;
    while i < n && eq[i].level != 1
      invariant from <= i
      invariant NextTop(eq[..n], i) == NextTop(eq[..n], from)
      decreases n - i
    {
      i := i + 2;
    }
  }

  /** One pass of the loop of int_dispatch, in place: what Next describes. */
  method DispatchStep(f: Transform, eq: array<Token>, n: nat, j: nat, i: nat, v: int, nTokens: nat,
                      ghost rw: seq<Token> -> TermResult)
    returns (stop: bool, huge: bool, ok: bool, n': nat, j': nat, i': nat)
    requires n <= nTokens <= eq.Length && LevelsPositive(eq[..n]) && j <= i && j <= n
    requires rw == Rewriter(f, v) && BelowTop(rw)
    modifies eq
    ensures var st := Next(rw, old(eq[..n]), j, i, nTokens);
      && (stop <==> st.Finish?)
      && (stop ==> Landed(eq, huge, ok, n', st.o, nTokens))
      && (!stop ==> n' <= nTokens && st == Continue(eq[..n'], j', i'))
  {
    ghost var s := eq[..n];
    if i >= n {
      huge, ok, n' := ApplyInPlace(f, eq, n, j, n, v, nTokens);
      return true, huge, ok, n', 0, 0;
    }
    if eq[i].level == 1 && (OpOf(eq[i]) == PLUS || OpOf(eq[i]) == MINUS) {
      assert Separator(s, i);
      var k;
      huge, ok, n', k := RewriteTerm(f, eq, n, j, i, v, nTokens, rw);
      if huge || !ok || k >= n' {
        return true, huge, ok, n', 0, 0;
      }
      return false, huge, ok, n', k + 1, k + 2;
    }
    assert !Separator(s, i);
    return false, false, true, n, j, i + 2;
  }

  /**
   * The term `eq[j..i]` rewritten in place, and the scan for the next
   * top-level operator from just past its start.
   */
  method RewriteTerm(f: Transform, eq: array<Token>, n: nat, j: nat, i: nat, v: int, nTokens: nat,
                     ghost rw: seq<Token> -> TermResult)
    returns (huge: bool, ok: bool, n': nat, k: nat)
    requires j <= i < n <= nTokens <= eq.Length && rw == Rewriter(f, v)
    modifies eq
    ensures var o := ApplyTo(rw, old(eq[..n]), j, i, nTokens);
      && Landed(eq, huge, ok, n', o, nTokens)
      && (!huge && ok ==> k == NextTop(o.side, j + 1))
  {
    huge, ok, n' := ApplyInPlace(f, eq, n, j, i, v, nTokens);
    k := 0;
    if !huge && ok {
      k := Rescan(eq, n', j + 1);
    }
  }

  /**
   * The loop of int_dispatch over a side that make_powers has prepared:
   * each top-level `+` or `-` closes a term, which is rewritten where it
   * stands before the scan goes on past it.
   */
  method DispatchLoop(f: Transform, eq: array<Token>, np: nat, v: int, nTokens: nat, ghost rw: seq<Token> -> TermResult)
    returns (huge: bool, ok: bool, np': nat)
    requires np <= nTokens <= eq.Length && LevelsPositive(eq[..np])
    requires rw == Rewriter(f, v) && BelowTop(rw)
    modifies eq
    ensures Landed(eq, huge, ok, np', DispatchFrom(rw, old(eq[..np]), 0, 1, nTokens), nTokens)
  {
    ghost var goal := DispatchFrom(rw, eq[..np], 0, 1, nTokens);
    var n: nat, j: nat, i: nat := np, 0, 1;
    while true
      invariant n <= nTokens && LevelsPositive(eq[..n]) && j <= i && j <= n
      invariant DispatchFrom(rw, eq[..n], j, i, nTokens) == goal
      decreases n + 2 - i
    {
      var stop;
      stop, huge, ok, n, j, i := DispatchStep(f, eq, n, j, i, v, nTokens, rw);
      if stop {
        np' := n;
        return;
      }
    }
  }

  /**
   * int_dispatch on the side `eq[..np]` with room for `nTokens` tokens:
   * it leaves what IntDispatchOf describes, `huge` standing for error_huge.
   */
  method IntDispatch(eq: array<Token>, np: nat, v: int, f: Transform, nTokens: nat)
    returns (huge: bool, ok: bool, np': nat)
    requires np <= nTokens <= eq.Length && WellFormed(eq[..np])
    modifies eq
    ensures Landed(eq, huge, ok, np', IntDispatchOf(f, old(eq[..np]), v, nTokens), nTokens)
  {
    ghost var s0 := eq[..np];
    var n: nat;
    huge, n := Powers.MakePowers(eq, np, v, nTokens);
    if huge {
      return true, false, np;
    }
    Powers.PowersWellFormed(s0, 0, v, nTokens);
    RewritersBelowTop(f, v);
    huge, ok, np' := DispatchLoop(f, eq, n, v, nTokens, Rewriter(f, v));
  }
}
