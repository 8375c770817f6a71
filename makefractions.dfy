/*
 * make_fractions of gcd.c: every constant of an expression side that
 * f_to_fraction turns into a simple fraction is replaced, in place in the
 * token array, by `numerator / denominator`.
 *
 * The scan visits the operand positions 0, 2, 4, ... of the side.  A
 * constant right after a `/` at its own level is a denominator and is left
 * alone; that is also why the denominators the scan inserts are never
 * converted again.
 */
module FractionSplice {
  import opened Tokens
  import opened Fractions

  /** How the scan ends: error_huge, or the new side and whether it changed. */
  datatype Outcome = Huge | Done(side: seq<Token>, modified: bool)

  /** An expression side has an odd number of tokens (or none at all). */
  predicate OddSide(s: seq<Token>) {
    |s| % 2 == 1 || s == []
  }

  /** `t` comes right after a `/` at its own level. */
  predicate Skipped(prev: Token, t: Token) {
    prev.level == t.level && OpOf(prev) == DIVIDE
  }

  /** The token at `i` is a constant the scan hands to f_to_fraction. */
  predicate Candidate(s: seq<Token>, i: nat)
    requires i < |s|
  {
    IsConstant(s[i]) && !(i > 0 && Skipped(s[i - 1], s[i]))
  }

  /** A candidate that f_to_fraction turns into a proper fraction. */
  predicate Convertible(s: seq<Token>, i: nat, tries: nat)
    requires i < |s|
  {
    Candidate(s, i) && Converts(s[i].payload.c, tries)
  }

  /** f_to_fraction turns `c` into a proper fraction. */
  predicate Converts(c: Float, tries: nat) {
    FractionOf(c, tries).ok && FractionOf(c, tries).denominator != 1.0
  }

  /** Some operand position of `s` holds a convertible constant. */
  predicate HasConvertible(s: seq<Token>, tries: nat) {
    exists k | 0 <= k < |s| && k % 2 == 0 :: Convertible(s, k, tries)
  }

  // ----- the work left to the scan, its termination measure -----

  /** Candidates among the operands of the (operator, operand) pairs of `u`. */
  function PairCount(u: seq<Token>): nat
    decreases |u|
  {
    if |u| < 2 then 0
    else (if IsConstant(u[1]) && !Skipped(u[0], u[1]) then 1 else 0) + PairCount(u[2..])
  }

  /** Candidates at the positions `i`, `i + 2`, ... of `s`. */
  function Pending(s: seq<Token>, i: nat): nat {
    if i >= |s| then 0
    else if i == 0 then (if IsConstant(s[0]) then 1 else 0) + PairCount(s[1..])
    else PairCount(s[i - 1..])
  }

  /** What is left of the scan at `i`: it never grows, and every iteration shrinks it. */
  function Measure(s: seq<Token>, i: nat): int {
    |s| + 2 - i + 2 * Pending(s, i)
  }

  /** `r`, resumed at `k`, is a legal state of the scan with less left to do than `s` at `i`. */
  predicate ShrinksTo(s: seq<Token>, i: nat, r: seq<Token>, k: nat) {
    OddSide(r) && k % 2 == 0 && k <= |r| + 1 && 0 <= Measure(r, k) <= Measure(s, i) - 2
  }

  lemma {:induction false} PairConcat(a: seq<Token>, b: seq<Token>)
    requires |a| % 2 == 0
    ensures PairCount(a + b) == PairCount(a) + PairCount(b)
    decreases |a|
  {
    if |a| == 0 {
      assert a + b == b;
    } else {
      assert (a + b)[2..] == a[2..] + b;
      PairConcat(a[2..], b);
    }
  }

  /** A pending count read as the pairs from the operator before `i`. */
  lemma PendingPairs(s: seq<Token>, i: nat)
    requires 1 <= i <= |s| + 1
    ensures Pending(s, i) == PairCount(s[i - 1..])
  {
  }

  lemma PendingStep(s: seq<Token>, i: nat)
    requires i < |s|
    ensures Pending(s, i) == (if Candidate(s, i) then 1 else 0) + Pending(s, i + 2)
  {
    if i > 0 {
      assert s[i - 1..][2..] == s[i + 1..];
    }
  }

  /** An inserted `/ den` pair holds no candidate. */
  lemma DenominatorPair(op: Token, den: Token)
    requires Skipped(op, den)
    ensures PairCount([op, den]) == 0
  {
    assert [op, den][2..] == [];
  }

  lemma PendingSetConstant(s: seq<Token>, i: nat, t: Token)
    requires i < |s|
    ensures Pending(s[i := t], i + 2) == Pending(s, i + 2)
    ensures Measure(s[i := t], i + 2) <= Measure(s, i) - 2
  {
    PendingStep(s, i);
    if i + 2 < |s| {
      assert s[i := t][i + 1..] == s[i + 1..];
    }
  }

  // ----- the three rewrites -----

  function WithConstant(t: Token, c: Float): Token {
    t.(payload := Constant(c))
  }

  /** `c` at `i` becomes `num / den`, all three `inc` levels deeper than `c`. */
  function SpliceFraction(s: seq<Token>, i: nat, num: Float, den: real, inc: int): (r: seq<Token>)
    requires i < |s|
    ensures |r| == |s| + 2
  {
    var level := s[i].level + inc;
    (s[..i] + [Token(level, Constant(num))]) + ([OpToken(DIVIDE, level), ConstToken(den, level)] + s[i + 1..])
  }

  /** `num/den * a * b ...` becomes `num * a * b ... / den`, with `/ den` at `j`. */
  function MoveDenominator(s: seq<Token>, i: nat, j: nat, num: Float, den: real): (r: seq<Token>)
    requires i < j <= |s|
    ensures |r| == |s| + 2
  {
    var level := s[i].level;
    (s[..i] + [WithConstant(s[i], num)]) + (s[i + 1..j] + ([OpToken(DIVIDE, level), ConstToken(den, level)] + s[j..]))
  }

  /** `1/den * a * b ...` becomes `a * b ... / den`, with `/ den` ending at `j`. */
  function DropOne(s: seq<Token>, i: nat, j: nat, den: real): (r: seq<Token>)
    requires i + 2 <= j <= |s|
    ensures |r| == |s|
  {
    var level := s[i].level;
    s[..i] + (s[i + 2..j] + ([OpToken(DIVIDE, level), ConstToken(den, level)] + s[j..]))
  }

  lemma PendingSplice(s: seq<Token>, i: nat, num: Float, den: real, inc: int)
    requires i < |s|
    ensures Pending(SpliceFraction(s, i, num, den, inc), i + 2) == Pending(s, i + 2)
  {
    var s' := SpliceFraction(s, i, num, den, inc);
    var level := s[i].level + inc;
    assert s'[i + 1..] == [OpToken(DIVIDE, level), ConstToken(den, level)] + s[i + 1..];
    DenominatorPair(OpToken(DIVIDE, level), ConstToken(den, level));
    PairConcat([OpToken(DIVIDE, level), ConstToken(den, level)], s[i + 1..]);
    PendingPairs(s, i + 2);
  }

  lemma SliceOfConcat(a: seq<Token>, b: seq<Token>, k: nat)
    requires k <= |a| + |b|
    ensures (a + b)[k..] == if k <= |a| then a[k..] + b else b[k - |a|..]
  {
  }

  /** Inserting a `/ den` pair between whole pairs adds no candidate. */
  lemma PairInsert(a: seq<Token>, b: seq<Token>, op: Token, den: Token)
    requires |a| % 2 == 0 && Skipped(op, den)
    ensures PairCount(a + ([op, den] + b)) == PairCount(a + b)
  {
    PairConcat(a, [op, den] + b);
    PairConcat([op, den], b);
    DenominatorPair(op, den);
    PairConcat(a, b);
  }

  /** The pending count at `i` is at most "a constant at `i`" plus the pairs after it. */
  lemma PendingAtMost(t: seq<Token>, i: nat)
    requires i < |t|
    ensures Pending(t, i) <= (if IsConstant(t[i]) then 1 else 0) + PairCount(t[i + 1..])
  {
    PendingStep(t, i);
    PendingPairs(t, i + 2);
  }

  lemma PendingMove(s: seq<Token>, i: nat, j: nat, num: Float, den: real)
    requires i < j <= |s| && (j - (i + 1)) % 2 == 0
    ensures Pending(MoveDenominator(s, i, j, num, den), i + 2) == Pending(s, i + 2)
  {
    var s' := MoveDenominator(s, i, j, num, den);
    var op, d := OpToken(DIVIDE, s[i].level), ConstToken(den, s[i].level);
    assert s'[i + 1..] == s[i + 1..j] + ([op, d] + s[j..]);
    assert s[i + 1..] == s[i + 1..j] + s[j..];
    PairInsert(s[i + 1..j], s[j..], op, d);
    PendingPairs(s, i + 2);
  }

  /**
   * Dropping `1 *` can only lose candidates: the operand after `*` was
   * examined with a `*` before it and is now examined with whatever came
   * before the 1.
   */
  lemma PendingDrop(s: seq<Token>, i: nat, j: nat, den: real)
    requires i + 3 <= j <= |s| && (j - (i + 3)) % 2 == 0
    requires OpOf(s[i + 1]) == TIMES
    ensures Pending(DropOne(s, i, j, den), i) <= Pending(s, i + 2)
  {
    var s' := DropOne(s, i, j, den);
    var op, d := OpToken(DIVIDE, s[i].level), ConstToken(den, s[i].level);
    var tail := [op, d] + s[j..];
    SliceOfConcat(s[..i], s[i + 2..j] + tail, i + 1);
    SliceOfConcat(s[i + 2..j], tail, 1);
    assert s[i + 2..j][1..] == s[i + 3..j];
    assert s'[i] == s[i + 2];
    assert s'[i + 1..] == s[i + 3..j] + tail;
    assert s[i + 3..] == s[i + 3..j] + s[j..];
    PairInsert(s[i + 3..j], s[j..], op, d);
    PendingAtMost(s', i);
    PendingPairs(s, i + 2);
    assert s[i + 1..][2..] == s[i + 3..];
  }

  // ----- the scan -----

  /** Where the `/ den` of a `num/den * ...` goes: the first `/` at `level`, or the end of the term. */
  function DivideEnd(s: seq<Token>, j: nat, level: int): (r: nat)
    requires j <= |s| && (|s| - j) % 2 == 0
    ensures j <= r <= |s| && (|s| - r) % 2 == 0
    decreases |s| - j
  {
    if j < |s| && s[j].level >= level && !(s[j].level == level && OpOf(s[j]) == DIVIDE)
    then DivideEnd(s, j + 2, level)
    else j
  }

  /** One iteration of the scan: where it goes next, or error_huge. */
  datatype Step = Next(s: seq<Token>, i: nat, spliced: bool) | Overflow

  /**
   * On an odd-length side, the operator after the operand at `i` is
   * followed by another operand, and every odd position `j` after it
   * leaves an even number of tokens.
   */
  lemma Parity(n: nat, i: nat, j: nat)
    requires n % 2 == 1 && i % 2 == 0 && i + 1 < n
    ensures i + 3 <= n && (n - (i + 3)) % 2 == 0
    ensures i + 3 <= j <= n && (n - j) % 2 == 0 ==> (j - (i + 1)) % 2 == 0 && (j - (i + 3)) % 2 == 0
  {
    var a, b := n / 2, i / 2;
    assert n == 2 * a + 1 && i == 2 * b;
    assert n - (i + 3) == 2 * (a - b - 1);
    if i + 3 <= j <= n && (n - j) % 2 == 0 {
      var c := (n - j) / 2;
      assert j - (i + 3) == 2 * (a - b - c - 1);
    }
  }

  lemma EvenNext(i: int)
    requires i % 2 == 0
    ensures (i + 2) % 2 == 0
  {
  }

  lemma OddNext(n: int)
    requires n % 2 == 1
    ensures (n + 2) % 2 == 1
  {
  }

  /** The constant at `i` is followed by a `*` at its own level. */
  predicate TimesFollows(s: seq<Token>, i: nat)
    requires i < |s|
  {
    i + 1 < |s| && s[i + 1].level == s[i].level && OpOf(s[i + 1]) == TIMES
  }

  /** The constant at `i` is followed by a `/` at its own level. */
  predicate DivideFollows(s: seq<Token>, i: nat)
    requires i < |s|
  {
    i + 1 < |s| && s[i + 1].level == s[i].level && OpOf(s[i + 1]) == DIVIDE
  }

  /** The side after the constant at `i` has become the fraction `num / den`. */
  function Rewrite(s: seq<Token>, i: nat, num: Float, den: real): (r: seq<Token>)
    requires OddSide(s) && i % 2 == 0 && i < |s|
    ensures |r| == if TimesFollows(s, i) && num == Finite(1.0) then |s| else |s| + 2
    ensures r[..i] == s[..i]
    ensures !(TimesFollows(s, i) && num == Finite(1.0)) ==> r[i].payload == Constant(num)
  {
    if TimesFollows(s, i) then
      Parity(|s|, i, i + 3);
      var j := DivideEnd(s, i + 3, s[i].level);
      if num == Finite(1.0) then DropOne(s, i, j, den) else MoveDenominator(s, i, j, num, den)
    else
      SpliceFraction(s, i, num, den, if |s| > 1 && !DivideFollows(s, i) then 1 else 0)
  }

  /** Where the scan goes on after a rewrite: `1/d * ...` is examined again at `i`. */
  function Resume(s: seq<Token>, i: nat, num: Float): nat
    requires i < |s|
  {
    if TimesFollows(s, i) && num == Finite(1.0) then i else i + 2
  }

  /** A rewrite keeps the side odd and leaves the scan less to do. */
  lemma RewriteShrinks(s: seq<Token>, i: nat, num: Float, den: real)
    requires OddSide(s) && i % 2 == 0 && i < |s| && Candidate(s, i)
    ensures ShrinksTo(s, i, Rewrite(s, i, num, den), Resume(s, i, num))
  {
    PendingStep(s, i);
    EvenNext(i);
    OddNext(|s|);
    if TimesFollows(s, i) {
      Parity(|s|, i, i + 3);
      var j := DivideEnd(s, i + 3, s[i].level);
      Parity(|s|, i, j);
      if num == Finite(1.0) {
        PendingDrop(s, i, j, den);
        Shrinks(s, i, DropOne(s, i, j, den), i);
      } else {
        PendingMove(s, i, j, num, den);
        Shrinks(s, i, MoveDenominator(s, i, j, num, den), i + 2);
      }
    } else {
      var inc := if |s| > 1 && !DivideFollows(s, i) then 1 else 0;
      PendingSplice(s, i, num, den, inc);
      Shrinks(s, i, SpliceFraction(s, i, num, den, inc), i + 2);
    }
  }

  lemma Shrinks(s: seq<Token>, i: nat, r: seq<Token>, k: nat)
    requires i < |s| && Candidate(s, i) && Pending(s, i) == 1 + Pending(s, i + 2)
    requires OddSide(r) && k % 2 == 0 && k <= |r| + 1
    requires |r| - k == |s| - i && Pending(r, k) <= Pending(s, i + 2)
    ensures ShrinksTo(s, i, r, k)
  {
  }

  /** The body of the scan loop of make_fractions at the operand position `i`. */
  function ScanStep(s: seq<Token>, i: nat, tries: nat, nTokens: nat): (r: Step)
    requires OddSide(s) && i % 2 == 0 && i < |s|
    ensures r.Next? ==> OddSide(r.s) && r.i % 2 == 0 && r.i <= |r.s| + 1
    ensures r.Next? ==> 0 <= Measure(r.s, r.i) < Measure(s, i)
    ensures r.Overflow? <==> Convertible(s, i, tries) && |s| + 2 > nTokens
    ensures r.Next? ==> (r.spliced <==> Convertible(s, i, tries))
    ensures r.Next? && !r.spliced ==> r.s == s && r.i == i + 2
    ensures r.Next? ==> |r.s| == |s| || |r.s| == |s| + 2 <= nTokens
  {
    PendingStep(s, i);
    EvenNext(i);
    if !Candidate(s, i) then Next(s, i + 2, false)
    else
      var f := FractionOf(s[i].payload.c, tries);
      if !f.ok then Next(s, i + 2, false)
      else if f.denominator == 1.0 then
        PendingSetConstant(s, i, WithConstant(s[i], f.numerator));
        FractionWhole(s[i].payload.c, tries);
        Next(s[i := WithConstant(s[i], f.numerator)], i + 2, false)
      else if |s| + 2 > nTokens then Overflow
      else
        RewriteShrinks(s, i, f.numerator, f.denominator);
        Next(Rewrite(s, i, f.numerator, f.denominator), Resume(s, i, f.numerator), true)
  }

  /** The scan of make_fractions from the operand position `i` on. */
  function FractionsFrom(s: seq<Token>, i: nat, modified: bool, tries: nat, nTokens: nat): Outcome
    requires OddSide(s) && i % 2 == 0 && i <= |s| + 1
    decreases Measure(s, i)
  {
    if i >= |s| then Done(s, modified)
    else
      match ScanStep(s, i, tries, nTokens)
      case Overflow => Huge
      case Next(s', i', spliced) => FractionsFrom(s', i', modified || spliced, tries, nTokens)
  }

  function MakeFractionsOf(s: seq<Token>, tries: nat, nTokens: nat): Outcome
    requires OddSide(s)
  {
    FractionsFrom(s, 0, false, tries, nTokens)
  }

  // ----- what the scan promises -----

  lemma EvenGap(i: int, k: int)
    requires i % 2 == 0 && k % 2 == 0 && i < k
    ensures i + 2 <= k
  {
  }

  /** The side stays odd, never shrinks, and grows only within the capacity. */
  lemma {:induction false} FractionsShape(s: seq<Token>, i: nat, modified: bool, tries: nat, nTokens: nat)
    requires OddSide(s) && i % 2 == 0 && i <= |s| + 1
    ensures var o := FractionsFrom(s, i, modified, tries, nTokens);
      o.Done? ==> OddSide(o.side) && |s| <= |o.side| && (|s| <= nTokens ==> |o.side| <= nTokens)
    decreases Measure(s, i)
  {
    if i < |s| {
      var r := ScanStep(s, i, tries, nTokens);
      if r.Next? {
        FractionsShape(r.s, r.i, modified || r.spliced, tries, nTokens);
      }
    }
  }

  /** Once a fraction has been spliced in, the scan reports a change. */
  lemma {:induction false} ModifiedSticks(s: seq<Token>, i: nat, tries: nat, nTokens: nat)
    requires OddSide(s) && i % 2 == 0 && i <= |s| + 1
    ensures var o := FractionsFrom(s, i, true, tries, nTokens);
      o.Huge? || o.modified
    decreases Measure(s, i)
  {
    if i < |s| {
      var r := ScanStep(s, i, tries, nTokens);
      if r.Next? {
        ModifiedSticks(r.s, r.i, tries, nTokens);
      }
    }
  }

  /** With nothing convertible at or after `i`, the scan changes nothing. */
  lemma {:induction false} FractionsUnchanged(s: seq<Token>, i: nat, modified: bool, tries: nat, nTokens: nat)
    requires OddSide(s) && i % 2 == 0 && i <= |s| + 1
    requires forall k | i <= k < |s| && k % 2 == 0 :: !Convertible(s, k, tries)
    ensures FractionsFrom(s, i, modified, tries, nTokens) == Done(s, modified)
    decreases Measure(s, i)
  {
    if i < |s| {
      EvenNext(i);
      FractionsUnchanged(s, i + 2, modified, tries, nTokens);
    }
  }

  /** A convertible constant at or after `i` is spliced in, or the side overflows. */
  lemma {:induction false} FractionsModify(s: seq<Token>, i: nat, modified: bool, tries: nat, nTokens: nat, k: nat)
    requires OddSide(s) && i % 2 == 0 && i <= |s| + 1
    requires i <= k < |s| && k % 2 == 0 && Convertible(s, k, tries)
    ensures var o := FractionsFrom(s, i, modified, tries, nTokens);
      (o.Huge? || o.modified) && (|s| + 2 > nTokens ==> o.Huge?)
    decreases Measure(s, i)
  {
    var r := ScanStep(s, i, tries, nTokens);
    if Convertible(s, i, tries) {
      if r.Next? {
        ModifiedSticks(r.s, r.i, tries, nTokens);
      }
    } else {
      EvenGap(i, k);
      EvenNext(i);
      FractionsModify(s, i + 2, modified, tries, nTokens, k);
    }
  }

  /** No convertible constant before `i`. */
  predicate ConvertedBefore(s: seq<Token>, i: nat, tries: nat) {
    forall k | 0 <= k < i && k < |s| && k % 2 == 0 :: !Convertible(s, k, tries)
  }

  /** Convertibility at `k` depends only on the tokens at `k - 1` and `k`. */
  lemma PrefixKeepsConverted(s: seq<Token>, t: seq<Token>, i: nat, tries: nat)
    requires i <= |s| && i <= |t| && s[..i] == t[..i] && ConvertedBefore(s, i, tries)
    ensures ConvertedBefore(t, i, tries)
  {
    forall k | 0 <= k < i && k % 2 == 0
      ensures !Convertible(t, k, tries)
    {
      assert !Convertible(s, k, tries);
      assert t[k] == t[..i][k] == s[k];
      if k > 0 {
        assert t[k - 1] == t[..i][k - 1] == s[k - 1];
      }
    }
  }

  /** A whole number at `i` extends the converted prefix past it. */
  lemma WholeExtends(t: seq<Token>, i: nat, c: Float, tries: nat)
    requires i % 2 == 0 && i < |t| && ConvertedBefore(t, i, tries)
    requires t[i].payload == Constant(c) && FractionOf(c, tries).denominator == 1.0
    ensures ConvertedBefore(t, i + 2, tries)
  {
    forall k | 0 <= k < i + 2 && k < |t| && k % 2 == 0
      ensures !Convertible(t, k, tries)
    {
      if k > i {
        EvenGap(i, k);
      }
    }
  }

  /**
   * One iteration leaves nothing convertible behind it: the tokens before
   * `i` are kept, and the numerator it writes at `i` is a whole number.
   */
  lemma StepKeepsConverted(s: seq<Token>, i: nat, tries: nat, nTokens: nat)
    requires OddSide(s) && i % 2 == 0 && i < |s| && ConvertedBefore(s, i, tries)
    ensures var r := ScanStep(s, i, tries, nTokens);
      r.Next? ==> ConvertedBefore(r.s, r.i, tries)
  {
    var r := ScanStep(s, i, tries, nTokens);
    if r.Next? && !r.spliced {
      WholeExtendsSkip(s, i, tries);
    } else if r.Next? {
      var f := FractionOf(s[i].payload.c, tries);
      assert r.s == Rewrite(s, i, f.numerator, f.denominator);
      PrefixKeepsConverted(s, r.s, i, tries);
      if r.i != i {
        NumeratorWhole(s[i].payload.c, tries);
        WholeExtends(r.s, i, f.numerator, tries);
      }
    }
  }

  /** A constant the scan leaves alone extends the converted prefix past it. */
  lemma WholeExtendsSkip(s: seq<Token>, i: nat, tries: nat)
    requires i % 2 == 0 && i < |s| && ConvertedBefore(s, i, tries) && !Convertible(s, i, tries)
    ensures ConvertedBefore(s, i + 2, tries)
  {
    forall k | 0 <= k < i + 2 && k < |s| && k % 2 == 0
      ensures !Convertible(s, k, tries)
    {
      if k > i {
        EvenGap(i, k);
      }
    }
  }

  /** After the scan from `i`, nothing convertible is left anywhere in the side. */
  lemma {:induction false} FractionsConvertAll(s: seq<Token>, i: nat, modified: bool, tries: nat, nTokens: nat)
    requires OddSide(s) && i % 2 == 0 && i <= |s| + 1 && ConvertedBefore(s, i, tries)
    ensures var o := FractionsFrom(s, i, modified, tries, nTokens);
      o.Done? ==> !HasConvertible(o.side, tries)
    decreases Measure(s, i)
  {
    if i < |s| {
      var r := ScanStep(s, i, tries, nTokens);
      if r.Next? {
        StepKeepsConverted(s, i, tries, nTokens);
        FractionsConvertAll(r.s, r.i, modified || r.spliced, tries, nTokens);
      }
    }
  }

  /**
   * make_fractions, start to end: it reports a change exactly when the side
   * holds a convertible constant, fails with error_huge when the first
   * such constant finds no room for two more tokens, and otherwise leaves
   * no convertible constant behind, within the capacity.
   */
  lemma MakeFractionsSpec(s: seq<Token>, tries: nat, nTokens: nat)
    requires OddSide(s) && |s| <= nTokens
    ensures var o := MakeFractionsOf(s, tries, nTokens);
      && ((o.Huge? || o.modified) <==> HasConvertible(s, tries))
      && (!HasConvertible(s, tries) ==> o == Done(s, false))
      && (HasConvertible(s, tries) && |s| + 2 > nTokens ==> o.Huge?)
      && (o.Done? ==> OddSide(o.side) && |s| <= |o.side| <= nTokens && !HasConvertible(o.side, tries))
  {
    if HasConvertible(s, tries) {
      var k :| 0 <= k < |s| && k % 2 == 0 && Convertible(s, k, tries);
      FractionsModify(s, 0, false, tries, nTokens, k);
    } else {
      FractionsUnchanged(s, 0, false, tries, nTokens);
    }
    FractionsShape(s, 0, false, tries, nTokens);
    FractionsConvertAll(s, 0, false, tries, nTokens);
  }

  // ----- make_fractions on the token array -----

  lemma EvenRest(n: int, j: int)
    requires (n - j) % 2 == 0 && j < n
    ensures j + 2 <= n && (n - (j + 2)) % 2 == 0
  {
  }

  /** The array after the `1/den * ...` rewrite, read back as DropOne. */
  lemma DropCells(e0: seq<Token>, i: nat, j: nat, np: nat, den: real)
    requires i + 3 <= j <= np <= |e0|
    ensures var level := e0[i].level;
      Moved(e0, i, i + 2, j - (i + 2))[j - 2 := OpToken(DIVIDE, level)][j - 1 := ConstToken(den, level)][..np]
      == DropOne(e0[..np], i, j, den)
  {
  }

  /** The array after the `num/den * ...` rewrite, read back as MoveDenominator. */
  lemma MoveCells(e0: seq<Token>, i: nat, j: nat, np: nat, num: Float, den: real)
    requires i < j <= np && np + 2 <= |e0|
    ensures var level := e0[i].level;
      var e1 := e0[i := WithConstant(e0[i], num)];
      Moved(e1, j + 2, j, np - j)[j := OpToken(DIVIDE, level)][j + 1 := ConstToken(den, level)][..np + 2]
      == MoveDenominator(e0[..np], i, j, num, den)
  {
  }

  /** The array after the plain splice, read back as SpliceFraction. */
  lemma SpliceCells(e0: seq<Token>, i: nat, np: nat, num: Float, den: real, inc: bool)
    requires i < np && np + 2 <= |e0|
    ensures var level := e0[i].level;
      var e1 := Moved(e0, i + 3, i + 1, np - (i + 1));
      var e2 := e1[i := WithConstant(e1[i], num)][i + 1 := OpToken(DIVIDE, level)][i + 2 := ConstToken(den, level)];
      (if inc then Raised(e2, i, i + 3, 1) else e2)[..np + 2]
      == SpliceFraction(e0[..np], i, num, den, if inc then 1 else 0)
  {
  }

  /** The term scan of the `*` case: the first `/` at `level`, or the end of the term. */
  method FindDivide(eq: array<Token>, np: nat, from: nat, level: int) returns (j: nat)
    requires from <= np <= eq.Length && (np - from) % 2 == 0
    ensures j == DivideEnd(eq[..np], from, level)
  {
    j := from;
    while j < np && eq[j].level >= level
      invariant from <= j <= np && (np - j) % 2 == 0
      invariant DivideEnd(eq[..np], j, level) == DivideEnd(eq[..np], from, level)
      decreases np - j
    {
      if eq[j].level == level && OpOf(eq[j]) == DIVIDE {
        break;
      }
      EvenRest(np, j);
      j := j + 2;
    }
  }

  /** `1/den * a * b ...` becomes `a * b ... / den` in place: the length is unchanged. */
  method DropOneInPlace(eq: array<Token>, np: nat, i: nat, j: nat, den: real)
    requires i + 3 <= j <= np <= eq.Length
    modifies eq
    ensures eq[..np] == DropOne(old(eq[..np]), i, j, den)
  {
    ghost var e0 := eq[..];
    var level := eq[i].level;
    Blt(eq, i, i + 2, j - (i + 2));
    ghost var e1 := eq[..];
    eq[j - 2] := OpToken(DIVIDE, level);
    eq[j - 1] := ConstToken(den, level);
    assert eq[..] == e1[j - 2 := OpToken(DIVIDE, level)][j - 1 := ConstToken(den, level)];
    DropCells(e0, i, j, np, den);
  }

  /** `num/den * a * b ...` becomes `num * a * b ... / den` in place: two tokens longer. */
  method MoveInPlace(eq: array<Token>, np: nat, i: nat, j: nat, num: Float, den: real)
    requires i < j <= np && np + 2 <= eq.Length
    modifies eq
    ensures eq[..np + 2] == MoveDenominator(old(eq[..np]), i, j, num, den)
  {
    ghost var e0 := eq[..];
    var level := eq[i].level;
    eq[i] := WithConstant(eq[i], num);
    assert eq[..] == e0[i := WithConstant(e0[i], num)];
    Blt(eq, j + 2, j, np - j);
    ghost var e1 := eq[..];
    eq[j] := OpToken(DIVIDE, level);
    eq[j + 1] := ConstToken(den, level);
    assert eq[..] == e1[j := OpToken(DIVIDE, level)][j + 1 := ConstToken(den, level)];
    MoveCells(e0, i, j, np, num, den);
  }

  /**
   * The `*` case of the splice: the `/ den` goes after the term the
   * constant starts, before its first `/` at the same level.
   */
  method TimesRewrite(eq: array<Token>, np: nat, i: nat, num: Float, den: real) returns (np': nat, next: nat)
    requires i < np && np + 2 <= eq.Length && OddSide(eq[..np]) && i % 2 == 0
    requires TimesFollows(eq[..np], i)
    modifies eq
    ensures np' <= eq.Length && eq[..np'] == Rewrite(old(eq[..np]), i, num, den)
    ensures next == Resume(old(eq[..np]), i, num)
  {
    Parity(np, i, i + 3);
    var j := FindDivide(eq, np, i + 3, eq[i].level);
    if num == Finite(1.0) {
      DropOneInPlace(eq, np, i, j, den);
      // the source steps back by 2 and its loop forward by 2: `i` is examined again
      np', next := np, i;
    } else {
      MoveInPlace(eq, np, i, j, num, den);
      np', next := np + 2, i + 2;
    }
  }

  /** The constant at `i` becomes `num / den` in place, one level deeper when `incLevel`. */
  method SpliceInPlace(eq: array<Token>, np: nat, i: nat, num: Float, den: real, incLevel: bool)
    requires i < np && np + 2 <= eq.Length
    modifies eq
    ensures eq[..np + 2] == SpliceFraction(old(eq[..np]), i, num, den, if incLevel then 1 else 0)
  {
    ghost var e0 := eq[..];
    assert e0[..np] == eq[..np];
    var level := eq[i].level;
    Blt(eq, i + 3, i + 1, np - (i + 1));
    ghost var e1 := eq[..];
    eq[i] := WithConstant(eq[i], num);
    eq[i + 1] := OpToken(DIVIDE, level);
    eq[i + 2] := ConstToken(den, level);
    ghost var e2 := eq[..];
    assert e2 == e1[i := WithConstant(e1[i], num)][i + 1 := OpToken(DIVIDE, level)][i + 2 := ConstToken(den, level)];
    if incLevel {
      RaiseLevels(eq, i, i + 3, 1);
    }
    ghost var e3 := eq[..];
    assert e3 == if incLevel then Raised(e2, i, i + 3, 1) else e2;
    SpliceCells(e0, i, np, num, den, incLevel);
    assert eq[..np + 2] == e3[..np + 2];
  }

  /**
   * The splice of make_fractions for the constant at `i`, once f_to_fraction
   * has given `num / den` and there is room for two more tokens.
   */
  method RewriteAt(eq: array<Token>, np: nat, i: nat, num: Float, den: real) returns (np': nat, next: nat)
    requires i < np && np + 2 <= eq.Length && OddSide(eq[..np]) && i % 2 == 0
    modifies eq
    ensures np' <= eq.Length && eq[..np'] == Rewrite(old(eq[..np]), i, num, den)
    ensures next == Resume(old(eq[..np]), i, num)
  {
    ghost var s := eq[..np];
    var level := eq[i].level;
    var incLevel := np > 1;
    if i + 1 < np && eq[i + 1].level == level {
      if OpOf(eq[i + 1]) == TIMES {
        np', next := TimesRewrite(eq, np, i, num, den);
        return;
      } else if OpOf(eq[i + 1]) == DIVIDE {
        incLevel := false;
      }
    }
    SpliceInPlace(eq, np, i, num, den, incLevel);
    np', next := np + 2, i + 2;
  }

  /** One iteration of the scan loop of make_fractions, at the operand position `i`. */
  method ScanAt(eq: array<Token>, np: nat, i: nat, tries: nat, nTokens: nat)
    returns (huge: bool, np': nat, next: nat, spliced: bool)
    requires i < np <= nTokens <= eq.Length && OddSide(eq[..np]) && i % 2 == 0
    modifies eq
    ensures var r := ScanStep(old(eq[..np]), i, tries, nTokens);
      (huge <==> r.Overflow?) &&
      (!huge ==> np' <= eq.Length && eq[..np'] == r.s && next == r.i && spliced == r.spliced)
  {
    ghost var s := eq[..np];
    np', next, huge, spliced := np, i + 2, false, false;
    if !eq[i].payload.Constant? {
      return;
    }
    var level := eq[i].level;
    if i > 0 && eq[i - 1].level == level && OpOf(eq[i - 1]) == DIVIDE {
      return;
    }
    var ok, numerator, denominator := FToFraction(eq[i].payload.c, tries);
    if !ok {
      return;
    }
    if denominator == 1.0 {
      eq[i] := WithConstant(eq[i], numerator);
      assert eq[..np] == s[i := WithConstant(s[i], numerator)];
      return;
    }
    if np + 2 > nTokens {
      huge := true;
      return;
    }
    spliced := true;
    np', next := RewriteAt(eq, np, i, numerator, denominator);
  }

  /**
   * make_fractions on the token array `eq` holding a side of `np` tokens,
   * with room for `nTokens`; `huge` stands for error_huge.  It returns the
   * new length and whether any fraction was spliced in.
   */
  method MakeFractions(eq: array<Token>, np: nat, tries: nat, nTokens: nat) returns (huge: bool, np': nat, modified: bool)
    requires np <= nTokens <= eq.Length && OddSide(eq[..np])
    modifies eq
    ensures var o := MakeFractionsOf(old(eq[..np]), tries, nTokens);
      (huge <==> o.Huge?) && (!huge ==> np' <= eq.Length && eq[..np'] == o.side && modified == o.modified)
  {
    ghost var s0 := eq[..np];
    huge, np', modified := false, np, false;
    var i: nat := 0;
    while i < np'
      invariant np' <= nTokens && OddSide(eq[..np'])
      invariant i % 2 == 0 && i <= np' + 1
      invariant FractionsFrom(eq[..np'], i, modified, tries, nTokens) == MakeFractionsOf(s0, tries, nTokens)
      decreases Measure(eq[..np'], i)
    {
      ghost var s := eq[..np'];
      ghost var r := ScanStep(s, i, tries, nTokens);
      assert FractionsFrom(s, i, modified, tries, nTokens) ==
        if r.Overflow? then Huge else FractionsFrom(r.s, r.i, modified || r.spliced, tries, nTokens);
      var spliced;
      huge, np', i, spliced := ScanAt(eq, np', i, tries, nTokens);
      if huge {
        return;
      }
      modified := modified || spliced;
    }
  }
}
