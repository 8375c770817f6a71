/*
 * Token vocabulary of the Mathomatic expression engine (am.h).
 *
 * An expression side is a flat array of tokens.  Each token carries a
 * parenthesization level (origin 1) and a payload: a constant, a variable
 * code or an operator code.  Operands sit at even indices and operators at
 * odd indices.
 */
module Tokens {

  // Predefined special variables, in the order the engine relies on.
  const V_NULL := 0
  const V_E := 1
  const V_PI := 2
  const IMAGINARY := 3
  const SIGN := 4
  const MATCH_ANY := 5

  // Operator codes, in precedence order; 0 means "no operator".
  const NO_OPERATOR := 0
  const PLUS := 1
  const MINUS := 2
  const TIMES := 3
  const DIVIDE := 4
  const MODULUS := 5
  const IDIVIDE := 6
  const POWER := 7
  const FACTORIAL := 8
  const NEGATE := 9

  // Packing of variable codes.
  const VAR_OFFSET := 65              // 'A'
  const VAR_MASK := 0x3fff
  const VAR_SHIFT := 14
  const VAR_RADIX := 0x4000           // 1 << VAR_SHIFT
  const SUBSCRIPT_MASK := 63
  const MAX_SUBSCRIPT := SUBSCRIPT_MASK - 1
  const SIGN_ARRAY_SIZE := MAX_SUBSCRIPT + 2
  const MAX_VAR_NAMES := 8000

  // Capacities.
  const N_EQUATIONS := 200
  const DEFAULT_N_TOKENS := 60000
  const INT_MAX := 0x7fff_ffff

  /** The largest magnitude below which doubles hold every integer exactly. */
  const MAX_K_INTEGER: real := 1000000000000000.0

  /**
   * A C double.  Finite values are modelled as exact reals; infinities and
   * NaN are merged into one non-finite value.
   */
  datatype Float = Finite(r: real) | NonFinite

  datatype Payload =
    | Constant(c: Float)
    | Variable(v: int)
    | Operator(op: int)

  datatype Token = Token(level: int, payload: Payload)

  function Pow2(n: nat): (r: nat)
    ensures r >= 1
  {
    if n == 0 then 1 else 2 * Pow2(n - 1)
  }

  /** `max` macro. */
  function Max(a: int, b: int): (r: int)
    ensures r >= a && r >= b
    ensures r == a || r == b
  {
    if a > b then a else b
  }

  /** `min` macro. */
  function Min(a: int, b: int): (r: int)
    ensures r <= a && r <= b
    ensures r == a || r == b
  {
    if a < b then a else b
  }

  /**
   * `v & VAR_MASK`: the name index of a variable code.  For a 64-bit two's
   * complement `long`, masking the low 14 bits is Euclidean remainder by 2^14.
   */
  function NameOf(v: int): (r: int)
    ensures 0 <= r <= VAR_MASK
  {
    v % (VAR_MASK + 1)
  }

  /** `(v >> VAR_SHIFT) & SUBSCRIPT_MASK`: the subscript of a sign variable. */
  function SubscriptOf(v: int): (r: int)
    ensures 0 <= r <= SUBSCRIPT_MASK
    ensures r < SIGN_ARRAY_SIZE
  {
    (v / VAR_RADIX) % (SUBSCRIPT_MASK + 1)
  }

  /** `SIGN + (i << VAR_SHIFT)`: the sign variable with subscript `i`. */
  function SignVariable(i: nat): int {
    SIGN + i * VAR_RADIX
  }

  /** Codes at or below SIGN are numeric pseudo-variables (e, pi, i, sign). */
  predicate IsPseudoConstant(v: int) {
    NameOf(v) <= SIGN
  }

  lemma MaskWidth()
    ensures VAR_MASK + 1 == VAR_RADIX == Pow2(VAR_SHIFT)
  {
  }

  /**
   * The name index and the shifted subscript occupy disjoint bits, so a
   * packed code gives back both parts.
   */
  lemma PackRoundTrip(name: int, sub: int)
    requires 0 <= name <= VAR_MASK && 0 <= sub <= SUBSCRIPT_MASK
    ensures NameOf(name + sub * VAR_RADIX) == name
    ensures SubscriptOf(name + sub * VAR_RADIX) == sub
  {
    var code := name + sub * 16384;
    assert code / 16384 == sub;
    assert code % 16384 == name;
  }

  /** The sign variable with subscript `i` is a SIGN code carrying `i`. */
  lemma SignVariableParts(i: nat)
    requires i <= SUBSCRIPT_MASK
    ensures NameOf(SignVariable(i)) == SIGN
    ensures SubscriptOf(SignVariable(i)) == i
  {
    PackRoundTrip(SIGN, i);
  }

  lemma ReservedOrder()
    ensures V_NULL == 0 < V_E < V_PI < IMAGINARY < SIGN == 4 < MATCH_ANY == 5
    ensures forall v :: IsPseudoConstant(v) <==> NameOf(v) in {V_NULL, V_E, V_PI, IMAGINARY, SIGN}
  {
  }

  lemma OperatorOrder()
    ensures NO_OPERATOR == 0 < PLUS == 1 < MINUS < TIMES < DIVIDE < MODULUS < IDIVIDE < POWER < FACTORIAL < NEGATE == 9
  {
  }

  lemma CapacityLimits()
    ensures 100 <= DEFAULT_N_TOKENS < INT_MAX / 3
    ensures MAX_VAR_NAMES < VAR_MASK - VAR_OFFSET
    ensures SIGN_ARRAY_SIZE == 64 == SUBSCRIPT_MASK + 1
  {
  }

  // ----- token predicates -----

  predicate IsVar(t: Token, v: int) {
    t.payload == Variable(v)
  }

  predicate IsOp(t: Token, op: int) {
    t.payload == Operator(op)
  }

  predicate IsOperator(t: Token) {
    t.payload.Operator?
  }

  predicate IsConstant(t: Token) {
    t.payload.Constant?
  }

  /** Reading `token.operatr`; positions read this way hold operators. */
  function OpOf(t: Token): int {
    if t.payload.Operator? then t.payload.op else NO_OPERATOR
  }

  function OpToken(op: int, level: int): Token {
    Token(level, Operator(op))
  }

  function ConstToken(r: real, level: int): Token {
    Token(level, Constant(Finite(r)))
  }

  function VarToken(v: int, level: int): Token {
    Token(level, Variable(v))
  }

  // ----- expression shape -----

  /** Operators exactly at the odd indices. */
  predicate Alternates(s: seq<Token>) {
    forall i | 0 <= i < |s| :: IsOperator(s[i]) <==> i % 2 == 1
  }

  predicate LevelsPositive(s: seq<Token>) {
    forall i | 0 <= i < |s| :: s[i].level >= 1
  }

  /** Every operator is at most as deep as the operands next to it. */
  predicate Nested(s: seq<Token>) {
    forall i | 0 <= i < |s| - 1 ::
      (IsOperator(s[i]) ==> s[i].level <= s[i + 1].level) &&
      (IsOperator(s[i + 1]) ==> s[i + 1].level <= s[i].level)
  }

  /** A legal expression side: operand (operator operand)*, depths >= 1. */
  predicate WellFormed(s: seq<Token>) {
    |s| % 2 == 1 && Alternates(s) && LevelsPositive(s) && Nested(s)
  }

  /** Every token of `s` moved `d` levels deeper. */
  function Raise(s: seq<Token>, d: int): (r: seq<Token>)
    ensures |r| == |s|
    ensures forall i | 0 <= i < |s| :: r[i] == s[i].(level := s[i].level + d)
  {
    seq(|s|, i requires 0 <= i < |s| => s[i].(level := s[i].level + d))
  }

  lemma RaiseConcat(a: seq<Token>, b: seq<Token>, d: int)
    ensures Raise(a + b, d) == Raise(a, d) + Raise(b, d)
  {
  }

  lemma RaiseTwice(s: seq<Token>, d1: int, d2: int)
    ensures Raise(Raise(s, d1), d2) == Raise(s, d1 + d2)
  {
  }

  /** `s` after memmove of `cnt` cells from `src` to `dst`. */
  function Moved<T>(s: seq<T>, dst: nat, src: nat, cnt: nat): seq<T>
    requires src + cnt <= |s| && dst + cnt <= |s|
  {
    s[..dst] + s[src..src + cnt] + s[dst + cnt..]
  }

  /** `s` with the cells from `dst` on overwritten by `w`. */
  function Written<T>(s: seq<T>, dst: nat, w: seq<T>): seq<T>
    requires dst + |w| <= |s|
  {
    s[..dst] + w + s[dst + |w|..]
  }

  /** `s` with `w` inserted before position `i`. */
  function Inserted<T>(s: seq<T>, i: nat, w: seq<T>): (r: seq<T>)
    requires i <= |s|
    ensures |r| == |s| + |w|
  {
    s[..i] + w + s[i..]
  }

  /** `s` with the tokens of `s[from..to]` moved `d` levels deeper. */
  function Raised(s: seq<Token>, from: nat, to: nat, d: int): (r: seq<Token>)
    requires from <= to <= |s|
    ensures |r| == |s|
  {
    s[..from] + Raise(s[from..to], d) + s[to..]
  }

  /** A memmove result read back cell by cell. */
  lemma MovedCells<T>(s: seq<T>, t: seq<T>, dst: nat, src: nat, cnt: nat)
    requires src + cnt <= |s| && dst + cnt <= |s| && |t| == |s|
    requires forall p | 0 <= p < dst :: t[p] == s[p]
    requires forall p | dst <= p < dst + cnt :: t[p] == s[p - dst + src]
    requires forall p | dst + cnt <= p < |s| :: t[p] == s[p]
    ensures t == Moved(s, dst, src, cnt)
  {
    var r := Moved(s, dst, src, cnt);
    forall p | 0 <= p < |s|
      ensures t[p] == r[p]
    {
      if p < dst {
      } else if p < dst + cnt {
        assert r[p] == s[src..src + cnt][p - dst];
      } else {
        assert r[p] == s[dst + cnt..][p - dst - cnt];
      }
    }
  }

  /**
   * `blt`, i.e. memmove: the result is as if the source range were first
   * copied to a temporary, so overlapping ranges are handled.
   */
  method Blt<T>(a: array<T>, dst: nat, src: nat, cnt: nat)
    requires src + cnt <= a.Length && dst + cnt <= a.Length
    modifies a
    ensures a[..] == Moved(old(a[..]), dst, src, cnt)
  {
    ghost var was := a[..];
    if dst <= src {
      // copy upwards: every source cell is read before it is overwritten
      var k := 0;
      while k < cnt
        invariant 0 <= k <= cnt
        invariant forall p | 0 <= p < dst :: a[p] == was[p]
        invariant forall p | dst <= p < dst + k :: a[p] == was[p - dst + src]
        invariant forall p | dst + k <= p < a.Length :: a[p] == was[p]
      {
        a[dst + k] := a[src + k];
        k := k + 1;
      }
    } else {
      // copy downwards, for the same reason
      var k := cnt;
      while k > 0
        invariant 0 <= k <= cnt
        invariant forall p | 0 <= p < dst + k :: a[p] == was[p]
        invariant forall p | dst + k <= p < dst + cnt :: a[p] == was[p - dst + src]
        invariant forall p | dst + cnt <= p < a.Length :: a[p] == was[p]
      {
        k := k - 1;
        a[dst + k] := a[src + k];
      }
    }
    MovedCells(was, a[..], dst, src, cnt);
  }

  /** `blt` from a separate buffer into `a` at `dst`. */
  method BltIn<T>(a: array<T>, dst: nat, src: seq<T>)
    requires dst + |src| <= a.Length
    modifies a
    ensures a[..] == Written(old(a[..]), dst, src)
  {
    ghost var was := a[..];
    var k := 0;
    while k < |src|
      invariant 0 <= k <= |src|
      invariant forall p | 0 <= p < dst :: a[p] == was[p]
      invariant forall p | dst <= p < dst + k :: a[p] == src[p - dst]
      invariant forall p | dst + k <= p < a.Length :: a[p] == was[p]
    {
      a[dst + k] := src[k];
      k := k + 1;
    }
    assert a[..] == was[..dst] + src + was[dst + |src|..];
  }

  /** The `level += d` loops over `a[from..to)`. */
  method RaiseLevels(a: array<Token>, from: nat, to: nat, d: int)
    requires from <= to <= a.Length
    modifies a
    ensures a[..] == Raised(old(a[..]), from, to, d)
  {
    ghost var was := a[..];
    var j := from;
    while j < to
      invariant from <= j <= to
      invariant forall p | 0 <= p < from :: a[p] == was[p]
      invariant forall p | from <= p < j :: a[p] == was[p].(level := was[p].level + d)
      invariant forall p | j <= p < a.Length :: a[p] == was[p]
    {
      a[j] := a[j].(level := a[j].level + d);
      j := j + 1;
    }
    assert a[..] == was[..from] + Raise(was[from..to], d) + was[to..];
  }

  /**
   * Room for `w` is made at `i` by moving the tail of the side `a[..np]`
   * up with `blt`; `w` is then written into the gap.
   */
  method InsertInPlace(a: array<Token>, np: nat, i: nat, w: seq<Token>)
    requires i <= np && np + |w| <= a.Length
    modifies a
    ensures a[..np + |w|] == Inserted(old(a[..np]), i, w)
  {
    ghost var e0 := a[..];
    Blt(a, i + |w|, i, np - i);
    ghost var e1 := a[..];
    BltIn(a, i, w);
    InsertCells(e0, e1, a[..], np, i, w);
  }

  /** The two steps of InsertInPlace, read back cell by cell. */
  lemma InsertCells<T>(e0: seq<T>, e1: seq<T>, e2: seq<T>, np: nat, i: nat, w: seq<T>)
    requires i <= np && np + |w| <= |e0|
    requires e1 == Moved(e0, i + |w|, i, np - i)
    requires e2 == Written(e1, i, w)
    ensures e2[..np + |w|] == Inserted(e0[..np], i, w)
  {
    var r := Inserted(e0[..np], i, w);
    forall p | 0 <= p < np + |w|
      ensures e2[p] == r[p]
    {
      if p < i {
        assert e2[p] == e1[p] == e0[p];
      } else if p < i + |w| {
        assert e2[p] == w[p - i];
      } else {
        assert e2[p] == e1[p] == e0[p - |w|];
      }
    }
  }

  /** Raising a range inside the first `n` cells, seen on those cells only. */
  lemma RaisedPrefix(s: seq<Token>, from: nat, to: nat, d: int, n: nat)
    requires from <= to <= n <= |s|
    ensures Raised(s, from, to, d)[..n] == Raised(s[..n], from, to, d)
  {
  }
}
