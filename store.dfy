/*
 * The equation-space store and the sign-variable registry (am.c).
 *
 * The globals `n_equations`, `cur_equation`, `n_lhs[]`, `n_rhs[]`,
 * `lhs[]` and `rhs[]` become the fields of one object, `sign_array[]`
 * the field of another.
 * A side buffer is either unallocated (NULL) or holds `nTokens` tokens;
 * the outcome of each malloc is a parameter.
 */
module Store {
  import opened Tokens
  import opened Scans

  datatype Buffer = Null | Buf(cells: seq<Token>)

  /** What a fresh malloc of one side holds, as far as the model is concerned. */
  function Fresh(n: nat): (r: seq<Token>)
    ensures |r| == n
  {
    seq(n, _ => ConstToken(0.0, 1))
  }

  /** The first unmarked subscript at or after `i`, or |m| when there is none. */
  function FirstFree(m: seq<bool>, i: nat): (r: nat)
    requires i <= |m|
    ensures i <= r <= |m|
    ensures forall k | i <= k < r :: m[k]
    ensures r < |m| ==> !m[r]
    decreases |m| - i
  {
    if i == |m| || !m[i] then i else FirstFree(m, i + 1)
  }

  /** The token at an operand position is the sign variable with subscript `k`. */
  predicate IsSignAt(s: seq<Token>, j: int, k: int) {
    0 <= j < |s| && j % 2 == 0 && s[j].payload.Variable? &&
    NameOf(s[j].payload.v) == SIGN && SubscriptOf(s[j].payload.v) == k
  }

  /** Subscript `k` is used by a sign variable of side `s` below position `n`. */
  predicate SignUsedBelow(s: seq<Token>, n: int, k: int) {
    exists j | 0 <= j < n :: IsSignAt(s, j, k)
  }

  /** Subscript `k` is used by a sign variable of side `s`. */
  predicate SignUsedIn(s: seq<Token>, k: int) {
    SignUsedBelow(s, |s|, k)
  }

  lemma SignUsedStep(s: seq<Token>, j: int, k: int)
    requires 0 <= j && j % 2 == 0
    ensures SignUsedBelow(s, j + 2, k) <==> SignUsedBelow(s, j, k) || IsSignAt(s, j, k)
  {
    if SignUsedBelow(s, j + 2, k) {
      var p :| 0 <= p < j + 2 && IsSignAt(s, p, k);
      assert p != j + 1;
    }
  }

  lemma SignUsedPast(s: seq<Token>, n: int, k: int)
    requires n >= |s|
    ensures SignUsedBelow(s, n, k) <==> SignUsedIn(s, k)
  {
  }

  /**
   * The registry scan of one side: `marks` with every subscript used in
   * `s` set, nothing cleared.
   */
  method MarkSide(s: seq<Token>, marks: seq<bool>) returns (r: seq<bool>)
    requires |marks| == SIGN_ARRAY_SIZE
    ensures |r| == SIGN_ARRAY_SIZE
    ensures forall k | 0 <= k < SIGN_ARRAY_SIZE :: r[k] <==> marks[k] || SignUsedIn(s, k)
  {
    r := marks;
    var j := 0;
    while j < |s|
      invariant 0 <= j <= |s| + 1 && j % 2 == 0 && |r| == SIGN_ARRAY_SIZE
      invariant forall k | 0 <= k < SIGN_ARRAY_SIZE :: r[k] <==> marks[k] || SignUsedBelow(s, j, k)
    {
      ghost var r0 := r;
      if s[j].payload.Variable? && NameOf(s[j].payload.v) == SIGN {
        r := r[SubscriptOf(s[j].payload.v) := true];
      }
      forall k | 0 <= k < SIGN_ARRAY_SIZE
        ensures r[k] <==> marks[k] || SignUsedBelow(s, j + 2, k)
      {
        SignUsedStep(s, j, k);
      }
      j := j + 2;
    }
    forall k | 0 <= k < SIGN_ARRAY_SIZE ensures r[k] <==> marks[k] || SignUsedIn(s, k) {
      SignUsedPast(s, j, k);
    }
  }

  /** The `p`-th space alloc_next_espace probes, starting from `cur`. */
  function Probe(cur: int, p: int): int {
    (cur + p) % N_EQUATIONS
  }

  lemma ProbeNext(cur: int, p: int)
    ensures (Probe(cur, p) + 1) % N_EQUATIONS == Probe(cur, p + 1)
  {
  }

  /**
   * The probe at which alloc_next_espace's search stops, looking from the
   * `p`-th on: the first that reaches the unallocated part or an empty
   * space, or N_EQUATIONS when every probe meets a space in use.
   */
  function FirstProbe(cur: int, nEq: int, nl: seq<int>, p: nat): (r: nat)
    requires p <= N_EQUATIONS && |nl| == N_EQUATIONS
    ensures p <= r <= N_EQUATIONS
    ensures forall q | p <= q < r :: Probe(cur, q) < nEq && nl[Probe(cur, q)] != 0
    ensures r < N_EQUATIONS ==> Probe(cur, r) >= nEq || nl[Probe(cur, r)] == 0
    decreases N_EQUATIONS - p
  {
    if p == N_EQUATIONS || Probe(cur, p) >= nEq || nl[Probe(cur, p)] == 0 then p
    else FirstProbe(cur, nEq, nl, p + 1)
  }

  class EquationSpaces {
    const nTokens: nat
    var nEquations: int
    var curEquation: int
    var nLhs: seq<int>
    var nRhs: seq<int>
    var lhs: seq<Buffer>
    var rhs: seq<Buffer>

    /** Shapes of the globals, and every non-empty side has a buffer behind it. */
    predicate Valid()
      reads this
    {
      |nLhs| == N_EQUATIONS && |nRhs| == N_EQUATIONS &&
      |lhs| == N_EQUATIONS && |rhs| == N_EQUATIONS &&
      0 <= nEquations <= N_EQUATIONS && 0 <= curEquation < N_EQUATIONS &&
      (forall i | 0 <= i < N_EQUATIONS :: 0 <= nLhs[i] <= nTokens && 0 <= nRhs[i] <= nTokens) &&
      (forall i | 0 <= i < N_EQUATIONS :: lhs[i].Buf? ==> |lhs[i].cells| == nTokens) &&
      (forall i | 0 <= i < N_EQUATIONS :: rhs[i].Buf? ==> |rhs[i].cells| == nTokens) &&
      (forall i | 0 <= i < N_EQUATIONS :: nLhs[i] > 0 ==> lhs[i].Buf?) &&
      (forall i | 0 <= i < N_EQUATIONS :: nRhs[i] > 0 ==> rhs[i].Buf?) &&
      (forall i | 0 <= i < nEquations :: lhs[i].Buf? && rhs[i].Buf?)
    }

    /** The start-up state: no equation spaces. */
    constructor (nTokens: nat)
      ensures Valid() && this.nTokens == nTokens
      ensures nEquations == 0 && curEquation == 0
      ensures forall i | 0 <= i < N_EQUATIONS :: nLhs[i] == 0 && nRhs[i] == 0 && lhs[i] == Null && rhs[i] == Null
    {
      this.nTokens := nTokens;
      nEquations := 0;
      curEquation := 0;
      nLhs := seq(N_EQUATIONS, _ => 0);
      nRhs := seq(N_EQUATIONS, _ => 0);
      lhs := seq(N_EQUATIONS, _ => Null);
      rhs := seq(N_EQUATIONS, _ => Null);
    }

    /** The tokens of the left side of space `i`. */
    function Lhs(i: int): seq<Token>
      requires Valid() && 0 <= i < N_EQUATIONS
      reads this
    {
      if nLhs[i] > 0 then lhs[i].cells[..nLhs[i]] else []
    }

    /** The tokens of the right side of space `i`. */
    function Rhs(i: int): seq<Token>
      requires Valid() && 0 <= i < N_EQUATIONS
      reads this
    {
      if nRhs[i] > 0 then rhs[i].cells[..nRhs[i]] else []
    }

    // ----- sign variables in use -----

    /** Subscript `k` is used in one of the first `n` spaces, counting only those whose left side is non-empty. */
    predicate SignInUseBelow(n: int, k: int)
      requires Valid() && n <= N_EQUATIONS
      reads this
    {
      exists i | 0 <= i < n :: nLhs[i] > 0 && (SignUsedIn(Lhs(i), k) || SignUsedIn(Rhs(i), k))
    }

    /** Subscript `k` is used in some space whose left side is non-empty. */
    predicate SignInUse(k: int)
      requires Valid()
      reads this
    {
      SignInUseBelow(nEquations, k)
    }

    lemma SignInUseStep(n: int, k: int)
      requires Valid() && 0 <= n < N_EQUATIONS
      ensures SignInUseBelow(n + 1, k) <==>
        SignInUseBelow(n, k) || (nLhs[n] > 0 && (SignUsedIn(Lhs(n), k) || SignUsedIn(Rhs(n), k)))
    {
    }

    // ----- space lifecycle -----

    /**
     * alloc_espace.  `lhsOk` and `rhsOk` are the outcomes of the two
     * mallocs.  Out of range: false, nothing changes.  In range: both
     * lengths are zeroed; true if both sides were already there or both
     * were absent and both mallocs succeed; a half-allocated space is
     * refused, and a left side whose right partner fails is freed again.
     */
    method AllocEspace(i: int, lhsOk: bool, rhsOk: bool) returns (ok: bool)
      requires Valid()
      modifies this
      ensures Valid()
      ensures nEquations == old(nEquations) && curEquation == old(curEquation)
      ensures !(0 <= i < N_EQUATIONS) ==> !ok && nLhs == old(nLhs) && nRhs == old(nRhs) && lhs == old(lhs) && rhs == old(rhs)
      ensures 0 <= i < N_EQUATIONS ==>
        nLhs == old(nLhs)[i := 0] && nRhs == old(nRhs)[i := 0] &&
        var made := old(lhs[i]).Null? && old(rhs[i]).Null? && lhsOk && rhsOk;
        (ok <==> (old(lhs[i]).Buf? && old(rhs[i]).Buf?) || made) &&
        lhs == (if made then old(lhs)[i := Buf(Fresh(nTokens))] else old(lhs)) &&
        rhs == (if made then old(rhs)[i := Buf(Fresh(nTokens))] else old(rhs))
    {
      if i < 0 || i >= N_EQUATIONS {
        return false;
      }
      nLhs := nLhs[i := 0];
      nRhs := nRhs[i := 0];
      if lhs[i].Buf? && rhs[i].Buf? {
        return true;
      }
      if lhs[i].Buf? || rhs[i].Buf? {
        return false;
      }
      if !lhsOk {
        return false;
      }
      lhs := lhs[i := Buf(Fresh(nTokens))];
      if !rhsOk {
        lhs := lhs[i := Null];
        assert lhs == old(lhs);
        return false;
      }
      rhs := rhs[i := Buf(Fresh(nTokens))];
      return true;
    }

    /**
     * alloc_to_espace: allocate spaces in order until `en` exists.  Every
     * malloc on the way has the outcome `memOk`.
     */
    method AllocToEspace(en: int, memOk: bool) returns (ok: bool)
      requires Valid()
      modifies this
      ensures Valid()
      ensures ok <==> 0 <= en < nEquations
      ensures old(nEquations) <= nEquations <= N_EQUATIONS
      ensures curEquation == old(curEquation)
      ensures forall k | 0 <= k < old(nEquations) ::
        nLhs[k] == old(nLhs[k]) && nRhs[k] == old(nRhs[k]) && lhs[k] == old(lhs[k]) && rhs[k] == old(rhs[k])
      ensures forall k | old(nEquations) <= k < nEquations :: nLhs[k] == 0 && nRhs[k] == 0
      ensures (0 <= en < N_EQUATIONS && memOk &&
               forall k | old(nEquations) <= k <= en :: old(lhs[k]).Buf? == old(rhs[k]).Buf?) ==> ok
    {
      if en < 0 || en >= N_EQUATIONS {
        return false;
      }
      while true
        invariant Valid()
        invariant old(nEquations) <= nEquations <= N_EQUATIONS
        invariant curEquation == old(curEquation)
        invariant forall k | 0 <= k < old(nEquations) ::
          nLhs[k] == old(nLhs[k]) && nRhs[k] == old(nRhs[k]) && lhs[k] == old(lhs[k]) && rhs[k] == old(rhs[k])
        invariant forall k | nEquations <= k < N_EQUATIONS :: lhs[k] == old(lhs[k]) && rhs[k] == old(rhs[k])
        invariant forall k | old(nEquations) <= k < nEquations :: nLhs[k] == 0 && nRhs[k] == 0
        decreases N_EQUATIONS - nEquations
      {
        if en < nEquations {
          return true;
        }
        if nEquations >= N_EQUATIONS {
          return false;
        }
        ok := AllocEspace(nEquations, memOk, memOk);
        if !ok {
          // Memory is exhausted.
          return false;
        }
        nEquations := nEquations + 1;
      }
    }

    /**
     * alloc_next_espace: the first empty space probing cyclically from
     * `curEquation`; on reaching the unallocated part, a new space; if
     * that cannot be allocated, the lowest empty space; -1 when none.
     */
    method AllocNextEspace(memOk: bool) returns (n: int)
      requires Valid()
      modifies this
      ensures Valid()
      ensures var p := FirstProbe(old(curEquation), old(nEquations), old(nLhs), 0);
        && (p == N_EQUATIONS ==> n == -1 && old(nEquations) == N_EQUATIONS)
        && (p < N_EQUATIONS && Probe(old(curEquation), p) < old(nEquations) ==>
              n == Probe(old(curEquation), p) && nEquations == old(nEquations))
        && (p < N_EQUATIONS && Probe(old(curEquation), p) >= old(nEquations) ==>
              (n == old(nEquations) <==> old(CanAlloc(nEquations, memOk))) &&
              (n != old(nEquations) ==> forall k | 0 <= k < nEquations && (n == -1 || k < n) :: nLhs[k] != 0))
      ensures n == -1 || (0 <= n < nEquations && nLhs[n] == 0 && nRhs[n] == 0)
      ensures n == -1 ==> forall k | 0 <= k < nEquations :: nLhs[k] != 0
      ensures old(nEquations) <= nEquations <= old(nEquations) + 1
      ensures curEquation == old(curEquation)
      ensures forall k | 0 <= k < old(nEquations) && k != n ::
        nLhs[k] == old(nLhs[k]) && nRhs[k] == old(nRhs[k]) && lhs[k] == old(lhs[k]) && rhs[k] == old(rhs[k])
    {
      var i;
      i, n := ProbeLoop();
      if i >= N_EQUATIONS {
        AllProbed(curEquation, nEquations, nLhs);
        return -1;
      }
      if n >= nEquations {
        n := AllocAtEnd(memOk);
        return n;
      }
      nRhs := nRhs[n := 0];
    }

    /** The search loop of alloc_next_espace: it stops at FirstProbe. */
    method ProbeLoop() returns (i: nat, n: int)
      requires Valid()
      ensures i == FirstProbe(curEquation, nEquations, nLhs, 0)
      ensures i < N_EQUATIONS ==> n == Probe(curEquation, i)
    {
      n := curEquation;
      i := 0;
      assert n == Probe(curEquation, 0);
      while i < N_EQUATIONS && n < nEquations && nLhs[n] != 0
        invariant 0 <= n < N_EQUATIONS && 0 <= i <= N_EQUATIONS
        invariant n == Probe(curEquation, i)
        invariant FirstProbe(curEquation, nEquations, nLhs, 0) == FirstProbe(curEquation, nEquations, nLhs, i)
      {
        ProbeNext(curEquation, i);
        n := (n + 1) % N_EQUATIONS;
        i := i + 1;
      }
    }

    /**
     * alloc_next_espace on reaching the unallocated part: a new space at
     * `nEquations`, or else the lowest empty one.
     */
    method AllocAtEnd(memOk: bool) returns (n: int)
      requires Valid()
      modifies this
      ensures Valid()
      ensures n == old(nEquations) <==> old(CanAlloc(nEquations, memOk))
      ensures nEquations == old(nEquations) + 1 <==> n == old(nEquations)
      ensures n != old(nEquations) ==> forall k | 0 <= k < nEquations && (n == -1 || k < n) :: nLhs[k] != 0
      ensures n == -1 || (0 <= n < nEquations && nLhs[n] == 0 && nRhs[n] == 0)
      ensures n == -1 ==> forall k | 0 <= k < nEquations :: nLhs[k] != 0
      ensures old(nEquations) <= nEquations <= old(nEquations) + 1
      ensures curEquation == old(curEquation)
      ensures forall k | 0 <= k < old(nEquations) && k != n ::
        nLhs[k] == old(nLhs[k]) && nRhs[k] == old(nRhs[k]) && lhs[k] == old(lhs[k]) && rhs[k] == old(rhs[k])
    {
      n := nEquations;
      var ok := AllocEspace(n, memOk, memOk);
      if !ok {
        // Memory is exhausted: reuse the lowest empty space, if any.
        n := ReuseEmpty();
        return n;
      }
      nEquations := nEquations + 1;
    }

    /**
     * Whether alloc_espace makes space `i` available when malloc reports
     * `memOk`: both sides are already there, or both are absent and
     * memory holds out.
     */
    predicate CanAlloc(i: int, memOk: bool)
      requires Valid()
      reads this
    {
      0 <= i < N_EQUATIONS &&
      ((lhs[i].Buf? && rhs[i].Buf?) || (lhs[i].Null? && rhs[i].Null? && memOk))
    }

    /** The fallback of alloc_next_espace: the lowest empty space, its right side cleared. */
    method ReuseEmpty() returns (n: int)
      requires Valid()
      modifies this
      ensures Valid()
      ensures n == -1 || (0 <= n < nEquations && nLhs[n] == 0 && nRhs == old(nRhs)[n := 0])
      ensures n == -1 ==> nRhs == old(nRhs)
      ensures forall k | 0 <= k < nEquations && (n == -1 || k < n) :: nLhs[k] != 0
      ensures nEquations == old(nEquations) && curEquation == old(curEquation)
      ensures nLhs == old(nLhs) && lhs == old(lhs) && rhs == old(rhs)
    {
      n := 0;
      while n < nEquations
        invariant 0 <= n <= nEquations
        invariant forall k | 0 <= k < n :: nLhs[k] != 0
      {
        if nLhs[n] == 0 {
          nRhs := nRhs[n := 0];
          return n;
        }
        n := n + 1;
      }
      return -1;
    }

    /** N cyclic probes that all hit allocated, non-empty spaces covered every space. */
    static lemma AllProbed(cur: int, nEq: int, nl: seq<int>)
      requires 0 <= cur < N_EQUATIONS && 0 <= nEq <= N_EQUATIONS && |nl| == N_EQUATIONS
      requires forall p | 0 <= p < N_EQUATIONS :: Probe(cur, p) < nEq && nl[Probe(cur, p)] != 0
      ensures nEq == N_EQUATIONS
      ensures forall k | 0 <= k < nEq :: nl[k] != 0
    {
      var last := if N_EQUATIONS - 1 >= cur then N_EQUATIONS - 1 - cur else N_EQUATIONS - 1 - cur + N_EQUATIONS;
      assert Probe(cur, last) == N_EQUATIONS - 1;
      forall k | 0 <= k < nEq ensures nl[k] != 0 {
        var p := if k >= cur then k - cur else k - cur + N_EQUATIONS;
        assert Probe(cur, p) == k;
      }
    }

    /**
     * copy_espace: space `dest` becomes a copy of space `src`; the cells
     * past the copied lengths keep what they held.  Copying a space onto
     * itself does nothing.
     */
    method CopyEspace(src: int, dest: int)
      requires Valid() && 0 <= src < nEquations && 0 <= dest < nEquations
      modifies this
      ensures Valid()
      ensures Lhs(dest) == old(Lhs(src)) && Rhs(dest) == old(Rhs(src))
      ensures nLhs == old(nLhs)[dest := old(nLhs[src])] && nRhs == old(nRhs)[dest := old(nRhs[src])]
      ensures lhs == old(lhs)[dest := Buf(old(lhs[src].cells[..nLhs[src]] + lhs[dest].cells[nLhs[src]..]))]
      ensures rhs == old(rhs)[dest := Buf(old(rhs[src].cells[..nRhs[src]] + rhs[dest].cells[nRhs[src]..]))]
      ensures nEquations == old(nEquations) && curEquation == old(curEquation)
    {
      if src == dest {
        assert lhs[src].cells[..nLhs[src]] + lhs[dest].cells[nLhs[src]..] == lhs[src].cells;
        assert rhs[src].cells[..nRhs[src]] + rhs[dest].cells[nRhs[src]..] == rhs[src].cells;
        return;
      }
      var nl := nLhs[src];
      lhs := lhs[dest := Buf(lhs[src].cells[..nl] + lhs[dest].cells[nl..])];
      nLhs := nLhs[dest := nl];
      var nr := nRhs[src];
      rhs := rhs[dest := Buf(rhs[src].cells[..nr] + rhs[dest].cells[nr..])];
      nRhs := nRhs[dest := nr];
    }

    // ----- queries -----

    /**
     * solved_equation: the right side is non-empty, the left side is one
     * symbolic variable, and that variable does not occur on the right.
     */
    method SolvedEquation(i: int) returns (r: bool)
      requires Valid() && 0 <= i < N_EQUATIONS
      ensures r <==> nRhs[i] > 0 && nLhs[i] == 1 && Lhs(i)[0].payload.Variable? &&
                     !IsPseudoConstant(Lhs(i)[0].payload.v) &&
                     Occurrences(Rhs(i), Lhs(i)[0].payload.v) == 0
    {
      if nRhs[i] <= 0 {
        return false;
      }
      if nLhs[i] != 1 || !lhs[i].cells[0].payload.Variable? || NameOf(lhs[i].cells[0].payload.v) <= SIGN {
        return false;
      }
      var c := FoundVar(rhs[i].cells[..nRhs[i]], lhs[i].cells[0].payload.v);
      return c == 0;
    }

    /** var_in_equation: `v` occurs in space `i`, whose left side must be non-empty. */
    method VarInEquation(i: int, v: int) returns (r: bool)
      requires Valid() && 0 <= i < N_EQUATIONS
      ensures r <==> nLhs[i] > 0 && v != V_NULL &&
                     (Occurrences(Lhs(i), v) > 0 || (nRhs[i] > 0 && Occurrences(Rhs(i), v) > 0))
    {
      if nLhs[i] <= 0 {
        return false;
      }
      var c := FoundVar(lhs[i].cells[..nLhs[i]], v);
      if c != 0 {
        return true;
      }
      if nRhs[i] <= 0 {
        return false;
      }
      c := FoundVar(rhs[i].cells[..nRhs[i]], v);
      return c != 0;
    }
  }

  /** The `±` sign-variable registry, `sign_array`. */
  class SignRegistry {
    var signArray: seq<bool>

    predicate Valid()
      reads this
    {
      |signArray| == SIGN_ARRAY_SIZE
    }

    /** Nothing registered yet. */
    constructor ()
      ensures Valid()
      ensures forall k | 0 <= k < SIGN_ARRAY_SIZE :: !signArray[k]
    {
      signArray := seq(SIGN_ARRAY_SIZE, _ => false);
    }

    /**
     * set_sign_array: afterwards exactly the subscripts of the sign
     * variables found in the spaces with a non-empty left side are marked.
     */
    method SetSignArray(sp: EquationSpaces)
      requires sp.Valid()
      modifies this
      ensures Valid()
      ensures forall k | 0 <= k < SIGN_ARRAY_SIZE :: signArray[k] <==> sp.SignInUse(k)
    {
      signArray := seq(SIGN_ARRAY_SIZE, _ => false);
      var i := 0;
      while i < sp.nEquations
        invariant 0 <= i <= sp.nEquations && Valid()
        invariant forall k | 0 <= k < SIGN_ARRAY_SIZE :: signArray[k] <==> sp.SignInUseBelow(i, k)
      {
        if sp.nLhs[i] > 0 {
          var m := MarkSide(sp.Lhs(i), signArray);
          m := MarkSide(sp.Rhs(i), m);
          signArray := m;
        }
        forall k | 0 <= k < SIGN_ARRAY_SIZE ensures signArray[k] <==> sp.SignInUseBelow(i + 1, k) {
          sp.SignInUseStep(i, k);
        }
        i := i + 1;
      }
    }

    /**
     * next_sign: take the lowest unmarked subscript, mark it and return
     * its sign variable; with every subscript taken, return bare SIGN and
     * change nothing.
     */
    method NextSign() returns (ok: bool, v: int)
      requires Valid()
      modifies this
      ensures Valid()
      ensures var f := FirstFree(old(signArray), 0);
        if f < SIGN_ARRAY_SIZE then
          ok && v == SignVariable(f) && signArray == old(signArray)[f := true]
        else
          !ok && v == SIGN && signArray == old(signArray)
    {
      var i := 0;
      while true
        invariant 0 <= i <= SIGN_ARRAY_SIZE
        invariant FirstFree(signArray, i) == FirstFree(signArray, 0)
        decreases SIGN_ARRAY_SIZE - i
      {
        if i >= SIGN_ARRAY_SIZE {
          return false, SIGN;
        }
        if !signArray[i] {
          v := SignVariable(i);
          signArray := signArray[i := true];
          return true, v;
        }
        i := i + 1;
      }
    }

    /**
     * After a registry scan, the variable next_sign hands out occurs at
     * no operand position of any space the scan covered.
     */
    lemma NextSignIsFresh(sp: EquationSpaces)
      requires Valid() && sp.Valid()
      requires forall k | 0 <= k < SIGN_ARRAY_SIZE :: signArray[k] <==> sp.SignInUse(k)
      requires FirstFree(signArray, 0) < SIGN_ARRAY_SIZE
      ensures var v := SignVariable(FirstFree(signArray, 0));
        forall i | 0 <= i < sp.nEquations && sp.nLhs[i] > 0 ::
          (forall j | 0 <= j < |sp.Lhs(i)| && j % 2 == 0 :: !IsVar(sp.Lhs(i)[j], v)) &&
          (forall j | 0 <= j < |sp.Rhs(i)| && j % 2 == 0 :: !IsVar(sp.Rhs(i)[j], v))
    {
      var f := FirstFree(signArray, 0);
      var v := SignVariable(f);
      SignVariableParts(f);
      forall i, j | 0 <= i < sp.nEquations && sp.nLhs[i] > 0 && 0 <= j < |sp.Lhs(i)| && j % 2 == 0
        ensures !IsVar(sp.Lhs(i)[j], v)
      {
        if IsVar(sp.Lhs(i)[j], v) {
          assert IsSignAt(sp.Lhs(i), j, f);
        }
      }
      forall i, j | 0 <= i < sp.nEquations && sp.nLhs[i] > 0 && 0 <= j < |sp.Rhs(i)| && j % 2 == 0
        ensures !IsVar(sp.Rhs(i)[j], v)
      {
        if IsVar(sp.Rhs(i)[j], v) {
          assert IsSignAt(sp.Rhs(i), j, f);
        }
      }
    }
  }
}
