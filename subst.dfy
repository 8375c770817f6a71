/*
 * Substitution of an expression for a variable (subst_var_with_exp, am.c).
 *
 * Every token that is the variable `v` is replaced by a copy of the
 * expression whose levels are raised by the replaced token's level; all
 * other tokens keep their order and levels.
 */
module Substitution {
  import opened Tokens
  import opened Scans

  /** What one token of the side becomes. */
  function Piece(t: Token, r: seq<Token>, v: int): seq<Token> {
    if IsVar(t, v) then Raise(r, t.level) else [t]
  }

  /** The side `s` with every occurrence of `v` replaced by `r`. */
  function Subst(s: seq<Token>, r: seq<Token>, v: int): seq<Token> {
    if s == [] then [] else Piece(s[0], r, v) + Subst(s[1..], r, v)
  }

  /** What subst_var_with_exp leaves when it fits: nothing happens for v == 0 or an empty expression. */
  function SubstResult(s: seq<Token>, r: seq<Token>, v: int): seq<Token> {
    if v == V_NULL || |r| == 0 then s else Subst(s, r, v)
  }

  lemma {:induction false} SubstConcat(a: seq<Token>, b: seq<Token>, r: seq<Token>, v: int)
    ensures Subst(a + b, r, v) == Subst(a, r, v) + Subst(b, r, v)
  {
    if a == [] {
      assert a + b == b;
    } else {
      assert (a + b)[1..] == a[1..] + b;
      SubstConcat(a[1..], b, r, v);
    }
  }

  /** Each occurrence grows the side by |r| - 1 tokens. */
  lemma {:induction false} SubstLength(s: seq<Token>, r: seq<Token>, v: int)
    ensures |Subst(s, r, v)| == |s| + Occurrences(s, v) * (|r| - 1)
  {
    if s != [] {
      SubstLength(s[1..], r, v);
    }
  }

  /** A side without `v` is left as it is. */
  lemma {:induction false} SubstAbsent(s: seq<Token>, r: seq<Token>, v: int)
    requires Occurrences(s, v) == 0
    ensures Subst(s, r, v) == s
  {
    if s != [] {
      SubstAbsent(s[1..], r, v);
      assert s == [s[0]] + s[1..];
    }
  }

  /** Occurrences of `v` afterwards are the ones the inserted copies bring. */
  lemma {:induction false} SubstOccurrences(s: seq<Token>, r: seq<Token>, v: int)
    ensures Occurrences(Subst(s, r, v), v) == Occurrences(s, v) * Occurrences(r, v)
  {
    if s != [] {
      var k := Occurrences(r, v);
      var n1 := Occurrences(s[1..], v);
      var p := Piece(s[0], r, v);
      SubstOccurrences(s[1..], r, v);
      OccurrencesConcat(p, Subst(s[1..], r, v), v);
      assert Occurrences(Subst(s, r, v), v) == Occurrences(p, v) + n1 * k;
      if IsVar(s[0], v) {
        RaiseOccurrences(r, s[0].level, v);
        assert Occurrences(s, v) == 1 + n1;
        SuccTimes(n1, k);
      } else {
        assert Occurrences(p, v) == 0 by {
          assert p[1..] == [];
        }
      }
    }
  }

  lemma SuccTimes(a: int, b: int)
    ensures (1 + a) * b == b + a * b
  {
  }

  lemma {:induction false} RaiseOccurrences(r: seq<Token>, d: int, v: int)
    ensures Occurrences(Raise(r, d), v) == Occurrences(r, v)
  {
    if r != [] {
      assert Raise(r, d)[1..] == Raise(r[1..], d);
      RaiseOccurrences(r[1..], d, v);
    }
  }

  /** Substituting an expression free of `v` removes `v` completely. */
  lemma Eliminates(s: seq<Token>, r: seq<Token>, v: int)
    requires Occurrences(r, v) == 0
    ensures Occurrences(Subst(s, r, v), v) == 0
  {
    SubstOccurrences(s, r, v);
  }

  // ----- legality is preserved -----

  /** Joining two legal sides with an operator no deeper than its neighbours is legal. */
  lemma JoinWellFormed(a: seq<Token>, op: Token, b: seq<Token>)
    requires WellFormed(a) && WellFormed(b)
    requires IsOperator(op) && op.level >= 1
    requires op.level <= a[|a| - 1].level && op.level <= b[0].level
    ensures WellFormed(a + [op] + b)
  {
    var s := a + [op] + b;
    forall i | 0 <= i < |s| ensures IsOperator(s[i]) <==> i % 2 == 1 {
      if i > |a| { assert s[i] == b[i - |a| - 1]; }
    }
    forall i | 0 <= i < |s| - 1
      ensures (IsOperator(s[i]) ==> s[i].level <= s[i + 1].level) &&
              (IsOperator(s[i + 1]) ==> s[i + 1].level <= s[i].level)
    {
      if i > |a| { assert s[i] == b[i - |a| - 1] && s[i + 1] == b[i - |a|]; }
    }
  }

  lemma RaiseWellFormed(r: seq<Token>, d: int)
    requires WellFormed(r) && d >= 0
    ensures WellFormed(Raise(r, d))
  {
  }

  /** Dropping the first operand and operator of a legal side leaves a legal side. */
  lemma DropPairWellFormed(s: seq<Token>)
    requires WellFormed(s) && |s| >= 3
    ensures WellFormed(s[2..])
  {
    var tail := s[2..];
    forall i | 0 <= i < |tail| ensures IsOperator(tail[i]) <==> i % 2 == 1 {
      assert tail[i] == s[i + 2];
    }
    forall i | 0 <= i < |tail| - 1
      ensures (IsOperator(tail[i]) ==> tail[i].level <= tail[i + 1].level) &&
              (IsOperator(tail[i + 1]) ==> tail[i + 1].level <= tail[i].level)
    {
      assert tail[i] == s[i + 2] && tail[i + 1] == s[i + 3];
    }
  }

  lemma SubstPair(s: seq<Token>, r: seq<Token>, v: int)
    requires |s| >= 2 && !IsVar(s[1], v)
    ensures Subst(s, r, v) == Piece(s[0], r, v) + [s[1]] + Subst(s[2..], r, v)
  {
    assert s[1..][1..] == s[2..];
    assert Subst(s[1..], r, v) == [s[1]] + Subst(s[2..], r, v);
  }

  /**
   * Substituting a legal expression into a legal side keeps it legal, and
   * the ends of the result are no shallower than the ends of the side.
   */
  lemma {:induction false} SubstWellFormed(s: seq<Token>, r: seq<Token>, v: int)
    requires WellFormed(s) && WellFormed(r)
    ensures WellFormed(Subst(s, r, v))
    ensures Subst(s, r, v)[0].level >= s[0].level
    ensures Subst(s, r, v)[|Subst(s, r, v)| - 1].level >= s[|s| - 1].level
  {
    var p := Piece(s[0], r, v);
    if IsVar(s[0], v) {
      RaiseWellFormed(r, s[0].level);
    }
    if |s| == 1 {
      assert s[1..] == [];
      assert Subst(s, r, v) == p;
    } else {
      DropPairWellFormed(s);
      SubstWellFormed(s[2..], r, v);
      SubstPair(s, r, v);
      JoinWellFormed(p, s[1], Subst(s[2..], r, v));
    }
  }

  /** The part of a side left of `j` does not shrink when substituted. */
  lemma SubstGrowth(s: seq<Token>, j: nat, r: seq<Token>, v: int)
    requires j <= |s| && |r| >= 1
    ensures |Subst(s, r, v)| >= j + |Subst(s[j..], r, v)|
  {
    assert s == s[..j] + s[j..];
    SubstConcat(s[..j], s[j..], r, v);
    SubstLength(s[..j], r, v);
  }

  /**
   * One step of the loop: the variable at `j` is replaced by `expr`
   * raised to its level, the tokens after it move up by |expr| - 1.
   */
  method SpliceAt(eq: array<Token>, j: nat, np: nat, expr: seq<Token>, level: int)
    requires j < np && np + |expr| - 1 <= eq.Length && |expr| >= 1
    modifies eq
    ensures eq[..j] == old(eq[..j])
    ensures eq[j..np + |expr| - 1] == Raise(expr, level) + old(eq[j + 1..np])
  {
    var len := |expr|;
    ghost var e0 := eq[..];
    assert e0[..j] == eq[..j] && e0[j + 1..np] == eq[j + 1..np];
    Blt(eq, j + len, j + 1, np - (j + 1));
    ghost var e1 := eq[..];
    assert e1 == Moved(e0, j + len, j + 1, np - (j + 1));
    BltIn(eq, j, expr);
    ghost var e2 := eq[..];
    assert e2 == Written(e1, j, expr);
    RaiseLevels(eq, j, j + len, level);
    ghost var e3 := eq[..];
    assert e3 == Raised(e2, j, j + len, level);
    SpliceSteps(e0, e1, e2, e3, j, np, expr, level);
    assert eq[..j] == e3[..j];
    assert eq[j..np + len - 1] == e3[j..np + len - 1];
  }

  /** The three array updates of one splice, composed. */
  lemma SpliceSteps(e0: seq<Token>, e1: seq<Token>, e2: seq<Token>, e3: seq<Token>,
                    j: nat, np: nat, expr: seq<Token>, level: int)
    requires j < np && np + |expr| - 1 <= |e0| && |expr| >= 1
    requires e1 == Moved(e0, j + |expr|, j + 1, np - (j + 1))
    requires e2 == Written(e1, j, expr)
    requires e3 == Raised(e2, j, j + |expr|, level)
    ensures e3[..j] == e0[..j]
    ensures e3[j..np + |expr| - 1] == Raise(expr, level) + e0[j + 1..np]
  {
    var len := |expr|;
    var hi := np + len - 1;
    var moved := e0[j + 1..np];
    assert e1[..j] == e0[..j] && e1[j + len..hi] == moved by {
      Parts(e1, e0[..j + len], moved, e0[hi..]);
      assert e0[..j + len][..j] == e0[..j];
    }
    assert e2[..j] == e1[..j] && e2[j..j + len] == expr && e2[j + len..hi] == e1[j + len..hi] by {
      WrittenParts(e1, e2, j, expr, expr, hi);
    }
    assert e3[..j] == e2[..j] && e3[j..j + len] == Raise(expr, level) && e3[j + len..hi] == e2[j + len..hi] by {
      WrittenParts(e2, e3, j, e2[j..j + len], Raise(e2[j..j + len], level), hi);
    }
    assert e3[j..hi] == e3[j..j + len] + e3[j + len..hi];
  }

  /** Overwriting `prev` cells at `dst` with `w` leaves the cells around them. */
  lemma WrittenParts(s: seq<Token>, t: seq<Token>, dst: nat, prev: seq<Token>, w: seq<Token>, hi: nat)
    requires |prev| == |w| && dst + |w| <= hi <= |s|
    requires t == s[..dst] + w + s[dst + |prev|..]
    ensures t[..dst] == s[..dst] && t[dst..dst + |w|] == w && t[dst + |w|..hi] == s[dst + |w|..hi]
  {
    Parts(t, s[..dst], w, s[dst + |prev|..]);
    assert s[dst + |prev|..][..hi - dst - |w|] == s[dst + |w|..hi];
  }

  /** The three parts of a concatenation, read back by slicing. */
  lemma Parts<T>(x: seq<T>, a: seq<T>, b: seq<T>, c: seq<T>)
    requires x == a + b + c
    ensures x[..|a|] == a && x[|a|..|a| + |b|] == b && x[|a| + |b|..] == c
  {
  }

  /**
   * subst_var_with_exp on the side `eq[..np]`.  `nTokens` is the capacity
   * every side has; `huge` is the error_huge outcome, raised exactly when
   * the substituted side would not fit.
   */
  method SubstVarWithExp(eq: array<Token>, np: nat, expr: seq<Token>, v: int, nTokens: nat)
    returns (huge: bool, np': nat)
    requires np <= nTokens <= eq.Length
    modifies eq
    ensures huge <==> |SubstResult(old(eq[..np]), expr, v)| > nTokens
    ensures !huge ==> np' == |SubstResult(old(eq[..np]), expr, v)|
    ensures !huge ==> eq[..np'] == SubstResult(old(eq[..np]), expr, v)
  {
    huge, np' := false, np;
    if v == V_NULL || |expr| <= 0 {
      return;
    }
    ghost var s := eq[..np];
    var j := np;
    while j > 0
      invariant 0 <= j <= np && np' <= nTokens
      invariant np' == j + |Subst(s[j..], expr, v)|
      invariant eq[..j] == s[..j]
      invariant eq[j..np'] == Subst(s[j..], expr, v)
    {
      j := j - 1;
      assert s[j..][1..] == s[j + 1..];
      assert eq[j] == s[j];
      if eq[j].payload.Variable? && eq[j].payload.v == v {
        if np' + |expr| - 1 > nTokens {
          // everything still to the left can only grow
          SubstGrowth(s, j, expr, v);
          return true, np';
        }
        SpliceAt(eq, j, np', expr, eq[j].level);
        np' := np' + |expr| - 1;
        assert eq[..j] == s[..j] by {
          assert s[..j] == s[..j + 1][..j];
        }
      } else {
        assert eq[j..np'] == [eq[j]] + eq[j + 1..np'];
      }
    }
    assert s[0..] == s;
  }
}
