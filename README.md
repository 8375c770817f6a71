# Mathomatic token-array engine, modelled in Dafny

Mathomatic keeps every equation side as a flat array of tokens (`token_type`).
Each token has a parenthesization level (origin 1) and a payload: a constant,
a variable code or an operator code. Operands sit at the even indices and
operators at the odd ones. Every side shares one fixed capacity, `n_tokens`.
A rewrite that would not fit calls `error_huge()`, which abandons the
command.

This project models the core of that engine and proves what each routine
does:

- `tokens.dfy` (module `Tokens`): the vocabulary of `am.h`.
  - Token kinds and the operator and reserved-variable codes.
  - The packing of a variable code into a name index and a sign subscript.
  - `max`, `min` and `blt` (memmove), plus the in-place primitives built on `blt`.
- `scans.dfy` (`Scans`): the read-only scans of `am.c`: `found_var`,
  `min_level`, `level_plus_count`, `level1_plus_count`, `var_count`,
  `no_vars` and `exp_is_numeric`. Each is a loop proved against a recursive
  specification function.
- `subst.dfy` (`Substitution`): `subst_var_with_exp`, the in-place splice of
  an expression for a variable.
- `store.dfy` (`Store`): the equation-space pool and the sign-variable registry.
  - The globals `n_equations`, `cur_equation`, `n_lhs[]`, `n_rhs[]`, `lhs[]`
    and `rhs[]` become the fields of the class `EquationSpaces`.
  - `sign_array` becomes the field of the class `SignRegistry`.
  - Covered: `alloc_espace`, `alloc_to_espace`, `alloc_next_espace`,
    `copy_espace`, `solved_equation`, `var_in_equation`, `set_sign_array`
    and `next_sign`.
- `cmdline.dfy` (`CommandLine`): `skip_space`, `isdelimiter`, `skip_param` and
  `strcmp_tospace`.
- `powers.dfy` (`Powers`): `make_powers`, which gives every bare occurrence of
  the variable an explicit `^ 1`.
- `calculus.dfy` (`Calculus`): the three per-term rewriters of `integrate.c`,
  as functions on the tokens of one term.
  - `integrate_sub`: the power rule.
  - `laplace_sub`: the Laplace transform of `v ^ n`.
  - `inv_laplace_sub`: its inverse.
  - Lemmas give each one's closed form, when it refuses a term, and that a
    rewritten term lies at level 2 or deeper.
- `rewriters.dfy` (`Rewriters`): the same three rewriters as the source runs
  them, in place on the token array. Each is proved to leave exactly what its
  `Calculus` function describes, with `error_huge` exactly when the result
  would not fit.
- `dispatch.dfy` (`Dispatch`): `int_dispatch`.
  - It hands each term between level-1 `+`/`-` operators to a rewriter,
    through a function pointer.
  - It re-scans for the next term after each rewrite.
  - It is proved to terminate and to leave what the recursive `DispatchFrom`
    describes.
- `fractions.dfy` (`Fractions`) and `intgcd.dfy` (`IntGcd`): `gcd`,
  `gcd_verified`, `my_round` and `f_to_fraction`, over exact reals. They are
  measured against Euclid's algorithm on integers.
- `makefractions.dfy` (`FractionSplice`): `make_fractions`, which splices
  `numerator / denominator` into a side in place.

All source paths below are relative to the repository root.

## Model

| member | source | states |
|---|---|---|
| Tokens.NameOf | library/trunk-15.3.5/am.h:118 | the name index `v & VAR_MASK` lies in 0..VAR_MASK |
| Tokens.SubscriptOf | library/trunk-15.3.5/am.h:119-123 | the subscript `(v >> VAR_SHIFT) & SUBSCRIPT_MASK` lies in 0..63, so it always indexes `sign_array_type` in bounds |
| Tokens.MaskWidth | library/trunk-15.3.5/am.h:118-119 | VAR_SHIFT is the bit width of VAR_MASK: VAR_MASK + 1 == 2^VAR_SHIFT |
| Tokens.PackRoundTrip | library/trunk-15.3.5/am.h:118-121 | name index and shifted subscript occupy disjoint bits: both come back unchanged from a packed code |
| Tokens.SignVariableParts | library/trunk-15.3.5/am.h:119-121 | `SIGN + (i << VAR_SHIFT)` has name SIGN and subscript i |
| Tokens.ReservedOrder | library/trunk-15.3.5/am.h:135-140 | V_NULL = 0 < V_E < V_PI < IMAGINARY < SIGN = 4 < MATCH_ANY = 5, so a masked code at most SIGN is exactly a numeric pseudo-variable |
| Tokens.OperatorOrder | library/trunk-15.3.5/am.h:143-152 | operator codes 1..9 in precedence order, 0 reserved for no operator |
| Tokens.CapacityLimits | library/trunk-15.3.5/am.h:102-104 | DEFAULT_N_TOKENS lies in [100, INT_MAX/3); MAX_VAR_NAMES < VAR_MASK - VAR_OFFSET; the sign array has 64 entries |
| Tokens.Max | library/trunk-15.3.5/am.h:27 | `max` is an upper bound of both arguments and equals one of them |
| Tokens.Min | library/trunk-15.3.5/am.h:30 | `min` is a lower bound of both arguments and equals one of them |
| Tokens.Blt | library/trunk-15.3.5/am.h:53 | `blt` is memmove: the array afterwards is the old one with the source range copied as if through a temporary, overlapping or not |
| Tokens.BltIn | library/trunk-15.3.5/am.h:53 | `blt` from another buffer overwrites exactly the destination cells |
| Tokens.RaiseLevels | library/trunk-15.3.5/integrate.c:168-169 | the `level += d` loop raises exactly the tokens of the range and nothing else |
| Tokens.InsertInPlace | library/trunk-15.3.5/integrate.c:58-66 | moving the tail up with `blt` and filling the gap inserts `w` at `i`: the side afterwards is the old side with `w` inserted |
| Tokens.RaiseConcat | library/trunk-15.3.5/integrate.c:168-169 | raising levels distributes over concatenation |
| Tokens.Raise | library/trunk-15.3.5/integrate.c:168-169 | every token goes `d` levels deeper and keeps its payload; the length is unchanged |
| Tokens.RaiseTwice | library/trunk-15.3.5/integrate.c:168-169 | two raises compose into one by the sum of the amounts |
| Scans.FoundVar | library/trunk-15.3.5/am.c:476-492 | found_var counts the occurrences of `v`; the null variable is never found |
| Scans.OccurrencesZero | library/trunk-15.3.5/am.c:476-492 | the count is zero exactly when no token is `v` |
| Scans.OccurrencesConcat | library/trunk-15.3.5/am.c:476-492 | occurrence counts add over concatenation |
| Scans.MinLevel | library/trunk-15.3.5/am.c:548-569 | min_level: 1 for an empty side, the level of a lone operand, otherwise a level that occurs at an operator position and is at most every operator level |
| Scans.MinOpLevelBelow | library/trunk-15.3.5/am.c:561-567 | the minimum over the operator positions below `k` is attained and is a lower bound |
| Scans.LevelPlusCount | library/trunk-15.3.5/am.c:1040-1058 | level_plus_count counts the `+`/`-` operators at `level` |
| Scans.AdditiveCountZero | library/trunk-15.3.5/am.c:1040-1058 | that count is zero exactly when no operator position holds `+`/`-` at `level` |
| Scans.Level1PlusCount | library/trunk-15.3.5/am.c:1064-1069 | level1_plus_count counts the additive operators at the side's min_level |
| Scans.VarCount | library/trunk-15.3.5/am.c:1075-1088 | var_count counts the variables at the operand positions |
| Scans.VariableCountZero | library/trunk-15.3.5/am.c:1075-1088 | that count is zero exactly when no operand is a variable |
| Scans.NoVars | library/trunk-15.3.5/am.c:1096-1123 | with `*vp` set: true iff var_count is 0 and `*vp` is unchanged; otherwise true iff no symbolic variable occurs, `*vp` is the only one when set, and 0 with false when two distinct ones occur |
| Scans.ExpIsNumeric | library/trunk-15.3.5/am.c:1166-1178 | true iff no token is a variable above SIGN |
| Substitution.SubstVarWithExp | library/trunk-15.3.5/am.c:517-542 | error_huge exactly when the substituted side would exceed the capacity; otherwise the side becomes the substitution (nothing for v = 0 or an empty expression) |
| Substitution.SpliceAt | library/trunk-15.3.5/am.c:530-539 | one splice keeps the tokens before `j`, puts the expression raised by the variable's level at `j` and moves the rest up by len - 1 |
| Substitution.SubstConcat | library/trunk-15.3.5/am.c:527-541 | the substitution works token by token: it distributes over concatenation |
| Substitution.SubstLength | library/trunk-15.3.5/am.c:527-541 | each occurrence grows the side by len - 1 |
| Substitution.SubstAbsent | library/trunk-15.3.5/am.c:527-541 | a side without `v` is unchanged |
| Substitution.SubstOccurrences | library/trunk-15.3.5/am.c:527-541 | occurrences of `v` afterwards are those the inserted copies bring |
| Substitution.Eliminates | library/trunk-15.3.5/am.c:527-541 | substituting an expression free of `v` removes `v` completely |
| Substitution.SubstWellFormed | library/trunk-15.3.5/am.c:527-541 | a legal expression substituted into a legal side gives a legal side whose end tokens are no shallower than before |
| Substitution.SubstGrowth | library/trunk-15.3.5/am.c:527-541 | the part of the side left of any position never shrinks |
| Store.FirstFree | library/trunk-15.3.5/am.c:292-296 | the first unmarked subscript at or after `i`: all before it are marked |
| Store.MarkSide | library/trunk-15.3.5/am.c:268-277 | the registry scan of one side marks exactly the subscripts of its sign variables and clears nothing |
| Store.ProbeNext | library/trunk-15.3.5/am.c:394 | the cyclic probe sequence of alloc_next_espace advances by one modulo N_EQUATIONS |
| Store.FirstProbe | library/trunk-15.3.5/am.c:394-413 | the probe at which the search stops: every earlier probe meets an allocated space in use; the stopping probe reaches the unallocated part or an empty space; N_EQUATIONS when none does |
| Store.EquationSpaces.constructor | library/trunk-15.3.5/am.c:181-203 | the state free_mem and clear_all leave: no spaces, the first space current, all lengths 0, no buffers |
| Store.EquationSpaces.SignInUseStep | library/trunk-15.3.5/am.c:265-279 | a subscript used in the first n + 1 spaces is used in the first n or in space n, if its left side is non-empty |
| Store.EquationSpaces.AllocEspace | library/trunk-15.3.5/am.c:336-357 | out of range: false and no change; in range: both lengths zeroed, true iff both buffers existed or both were absent and both mallocs succeed, a half-allocated space refused, a lone left buffer freed again |
| Store.EquationSpaces.AllocToEspace | library/trunk-15.3.5/am.c:366-382 | succeeds iff `en < n_equations` afterwards; n_equations never exceeds N_EQUATIONS; existing spaces untouched; new ones empty; succeeds when memory holds out and no space on the way is half-allocated |
| Store.EquationSpaces.AllocNextEspace | library/trunk-15.3.5/am.c:390-417 | if the cyclic search from cur_equation first meets an allocated empty space, that space, nothing allocated; if it first reaches the unallocated part, the new space n_equations exactly when alloc_espace can make it, otherwise the lowest empty space or -1; if every probe meets a space in use, -1, and then all N_EQUATIONS spaces are allocated; the returned space has both sides empty and no other space changes |
| Store.EquationSpaces.ProbeLoop | library/trunk-15.3.5/am.c:394-413 | the search loop stops at FirstProbe, on the space that probe names |
| Store.EquationSpaces.AllocAtEnd | library/trunk-15.3.5/am.c:401-412 | returns the new space n_equations, and grows n_equations by one, exactly when alloc_espace succeeds on it; otherwise the lowest empty space, or -1 when every space is in use |
| Store.EquationSpaces.ReuseEmpty | library/trunk-15.3.5/am.c:408-414 | the lowest space with an empty left side, its right side cleared; -1 and no change when none |
| Store.EquationSpaces.CopyEspace | library/trunk-15.3.5/am.c:443-454 | `dest` gets the lengths and the copied tokens of `src`; cells past the copied lengths and every other space are kept |
| Store.EquationSpaces.SolvedEquation | library/trunk-15.3.5/am.c:460-470 | true iff the right side is non-empty, the left side is one variable above SIGN, and that variable does not occur on the right |
| Store.EquationSpaces.VarInEquation | library/trunk-15.3.5/am.c:498-511 | true iff the left side is non-empty, `v` is not V_NULL, and `v` occurs on the left or on a non-empty right side |
| Store.SignRegistry.constructor | library/trunk-15.3.5/am.c:265-266 | a fresh registry has no subscript marked |
| Store.SignRegistry.SetSignArray | library/trunk-15.3.5/am.c:261-280 | afterwards exactly the subscripts of sign variables in spaces with a non-empty left side are marked |
| Store.SignRegistry.NextSign | library/trunk-15.3.5/am.c:287-305 | takes the lowest unmarked subscript, marks it and returns its sign variable; with all taken, returns bare SIGN, reports false and changes nothing |
| Store.SignRegistry.NextSignIsFresh | library/trunk-15.3.5/am.c:287-305 | after set_sign_array, the variable next_sign hands out occurs in no space the scan covered |
| CommandLine.Lower | library/trunk-15.3.5/am.c:1033 | tolower maps capitals to lower case and keeps every other character |
| CommandLine.LowerKeepsStops | library/trunk-15.3.5/am.c:1029-1033 | case folding never turns a word character into a stop or back |
| CommandLine.SpaceEnd | library/trunk-15.3.5/am.c:957-965 | the first non-space position at or after `i`, with only spaces before it |
| CommandLine.WordEnd | library/trunk-15.3.5/am.c:1005-1007 | the first NUL or delimiter at or after `i` |
| CommandLine.ParamEnd | library/trunk-15.3.5/am.c:1001-1014 | the start of the next parameter: past the word, then only delimiters, ending on a non-space |
| CommandLine.SkipSpace | library/trunk-15.3.5/am.c:957-965 | skip_space returns SpaceEnd |
| CommandLine.SkipParam | library/trunk-15.3.5/am.c:988-1014 | skip_param returns ParamEnd |
| CommandLine.StrcmpTospace | library/trunk-15.3.5/am.c:1024-1034 | strcmp_tospace returns zero exactly when the two words agree up to case |
| CommandLine.SameWordEquivalence | library/trunk-15.3.5/am.c:1024-1034 | matching command words is reflexive, symmetric and transitive |
| Powers.SkipOperand | library/trunk-15.3.5/integrate.c:46-47 | the skip over the right operand of `^` stops at the first shallower operator position or past the end |
| Powers.Exponentiate | library/trunk-15.3.5/integrate.c:51-66 | turning `v` into `v ^ 1` grows the side by exactly 2 |
| Powers.MakePowers | library/trunk-15.3.5/integrate.c:35-71 | make_powers in place leaves what PowersOf describes, error_huge exactly when it does |
| Powers.SkipInPlace | library/trunk-15.3.5/integrate.c:46-47 | the inner skip loop returns SkipOperand |
| Powers.ExponentiateInPlace | library/trunk-15.3.5/integrate.c:55-66 | the in-place insertion of `^ 1` is Exponentiate |
| Powers.ExponentiateOccurrences | library/trunk-15.3.5/integrate.c:55-66 | inserting `^ 1` adds or loses no variable |
| Powers.PowersGrowth | library/trunk-15.3.5/integrate.c:52-59 | make_powers only grows the side, two tokens at a time, and stays within the capacity unless nothing was inserted |
| Powers.PowersOccurrences | library/trunk-15.3.5/integrate.c:43-70 | no variable is added or lost |
| Powers.PowersPrefix | library/trunk-15.3.5/integrate.c:43-70 | the tokens already passed are kept, and the current token unless it is `v` |
| Powers.PowersAbsent | library/trunk-15.3.5/integrate.c:43-70 | a side without `v` is returned unchanged |
| Powers.ExponentiateWellFormed | library/trunk-15.3.5/integrate.c:55-66 | inserting `^ 1` after an operand keeps a legal side legal |
| Powers.PowersWellFormed | library/trunk-15.3.5/integrate.c:43-70 | make_powers keeps a legal side legal |
| Powers.PowersSettled | library/trunk-15.3.5/integrate.c:43-70 | once the scan has passed `i`, running it again from `i` on its result changes nothing |
| Powers.PowersIdempotent | library/trunk-15.3.5/integrate.c:30-71 | make_powers leaves a legal side, and a second run on it changes nothing |
| Calculus.FindVar | library/trunk-15.3.5/integrate.c:170-171 | the variable scan returns an operand position holding `v`, or one past the end |
| Calculus.FindVarFirst | library/trunk-15.3.5/integrate.c:170-171 | the scan finds the first operand position holding `v`, if any |
| Calculus.OperandEnd | library/trunk-15.3.5/integrate.c:185-186 | the end of an operand lies within the term |
| Calculus.OperandEndIs | library/trunk-15.3.5/integrate.c:198-199 | the operand scan stops exactly at the first shallower token |
| Calculus.ExponentEnd | library/trunk-15.3.5/integrate.c:198-200 | the exponent of `v` is at least one token and ends within the term |
| Calculus.NegateExponent | library/trunk-15.3.5/integrate.c:183-197 | negating `/ v ^ n` grows the term by 2 and keeps the `^` |
| Calculus.PowerExponentTo | library/trunk-15.3.5/integrate.c:203-214 | the in-place half of the power rule grows the term by 2 |
| Calculus.LaplaceExponentTo | library/trunk-15.3.5/integrate.c:434-454 | the in-place half of the Laplace rule grows the term by 4 |
| Calculus.InvLaplaceExponentTo | library/trunk-15.3.5/integrate.c:522-534 | the in-place half of the inverse rule grows the term by 2 |
| Calculus.FoundIn | library/trunk-15.3.5/integrate.c:167-171 | after the raise by two, the scan finds the first `v` of the original term, or reports that there is none |
| Calculus.IntegrateGate | library/trunk-15.3.5/integrate.c:132-166 | integrate_sub leaves the term untouched exactly when it is not a polynomial term in `v`; in particular when `v` occurs twice |
| Calculus.IntegrateAbsent | library/trunk-15.3.5/integrate.c:224-236 | without `v` the term gets `* v` appended at min_level + 1 (two more tokens) |
| Calculus.IntegrateLogarithm | library/trunk-15.3.5/integrate.c:178-182 | `/ v ^ 1` (the logarithm case) is refused |
| Calculus.IntegrateBare | library/trunk-15.3.5/integrate.c:173-175 | a `v` without `^` after it is refused |
| Calculus.IntegrateTakesPowerRule | library/trunk-15.3.5/integrate.c:198-221 | `v ^ n` not under `/` is rewritten by the power rule |
| Calculus.IntegratePower | library/trunk-15.3.5/integrate.c:198-221 | closed form: the exponent becomes `n + 1` and `/ (n + 1)` is appended at min_level + 1 |
| Calculus.IntegrateTakesNegation | library/trunk-15.3.5/integrate.c:178-221 | `/ v ^ n` with `n` not 1 is negated, then rewritten by the power rule |
| Calculus.IntegrateReciprocal | library/trunk-15.3.5/integrate.c:183-221 | closed form: the `/` becomes `*`, the exponent `-1 * n + 1`, and the term is divided by a copy of it |
| Calculus.PolyFound | library/trunk-15.3.5/integrate.c:134-171 | in a polynomial term the one occurrence of `v` is the one the rewriting loop finds |
| Calculus.LaplaceGate | library/trunk-15.3.5/integrate.c:422-426 | laplace_sub refuses exactly when the first `v` is not raised to a power, leaving the term raised by two |
| Calculus.LaplaceRefuses | library/trunk-15.3.5/integrate.c:423-426 | a first `v` without `^` makes laplace_sub refuse |
| Calculus.LaplaceRefusalFound | library/trunk-15.3.5/integrate.c:423-426 | a refusal comes from the `v` the scan found |
| Calculus.LaplaceAbsent | library/trunk-15.3.5/integrate.c:474-486 | without `v` the term gets `/ v` appended at min_level + 1 |
| Calculus.LaplaceTakesRule | library/trunk-15.3.5/integrate.c:427-471 | a first `v ^ n` is rewritten by the Laplace rule |
| Calculus.LaplacePower | library/trunk-15.3.5/integrate.c:427-471 | closed form: the exponent becomes `(n + 1) * -1` and `* n!` is appended |
| Calculus.InvLaplaceGate | library/trunk-15.3.5/integrate.c:508-554 | inv_laplace_sub succeeds exactly when the first `v` is raised to a power and divides past the first operand; absent `v` or no `/` means refusal |
| Calculus.InvLaplaceFound | library/trunk-15.3.5/integrate.c:509-514 | a success comes from the `v` the scan found |
| Calculus.InvLaplaceTakesRule | library/trunk-15.3.5/integrate.c:515-551 | such a `/ v ^ n` is rewritten by the inverse rule |
| Calculus.InvLaplacePower | library/trunk-15.3.5/integrate.c:515-551 | closed form: `/` becomes `*`, the exponent `n - 1`, and `/ (n - 1)!` is appended |
| Calculus.LaplaceRaised | library/trunk-15.3.5/integrate.c:427-471 | closed form of the Laplace rule on a raised term |
| Calculus.InvLaplaceRaised | library/trunk-15.3.5/integrate.c:515-551 | closed form of the inverse rule on a raised term |
| Calculus.IntegrateBelowTop | library/trunk-15.3.5/integrate.c:167-236 | every token of a rewritten term lies at level 2 or deeper |
| Calculus.LaplaceBelowTop | library/trunk-15.3.5/integrate.c:419-486 | the same for laplace_sub |
| Calculus.InvLaplaceBelowTop | library/trunk-15.3.5/integrate.c:505-551 | the same for inv_laplace_sub |
| Calculus.IntegrateRaisedAtLeast | library/trunk-15.3.5/integrate.c:170-236 | the rewriting half keeps every token at a given level or deeper |
| Calculus.LaplaceRaisedAtLeast | library/trunk-15.3.5/integrate.c:422-486 | the same for laplace_sub |
| Calculus.InvLaplaceRaisedAtLeast | library/trunk-15.3.5/integrate.c:508-554 | the same for inv_laplace_sub |
| Rewriters.Placed | library/trunk-15.3.5/integrate.c:201-202 | a rewrite is error_huge exactly when the side would exceed the capacity; a refusal reports false |
| Rewriters.PlacedRewritten | library/trunk-15.3.5/integrate.c:201-221 | a rewritten term is error_huge past the capacity, otherwise the side with the term replaced and a true verdict |
| Rewriters.AllowedCheck | library/trunk-15.3.5/integrate.c:141-154 | the operator check returns AllowedOperators: only `*`, `/` and the `^` right after `v` at the term's level |
| Rewriters.PolynomialCheck | library/trunk-15.3.5/integrate.c:134-166 | the first loop of integrate_sub returns true exactly for polynomial terms in `v` |
| Rewriters.TermMinLevel | library/trunk-15.3.5/integrate.c:132 | the level taken is min_level of the term |
| Rewriters.RaiseTerm | library/trunk-15.3.5/integrate.c:167-169 | the whole term goes two levels deeper and nothing else changes |
| Rewriters.FindInTerm | library/trunk-15.3.5/integrate.c:170-171 | the loop finds FindVar of the term |
| Rewriters.RaiseOperand | library/trunk-15.3.5/integrate.c:198-199 | the scan-and-raise loop stops at OperandEnd and raises exactly the tokens before it |
| Rewriters.RaiseOperandInTerm | library/trunk-15.3.5/integrate.c:198-199 | the same loop seen on a term inside the side |
| Rewriters.InsertInTerm | library/trunk-15.3.5/integrate.c:203-214 | an insertion into a term moves the rest of the side up |
| Rewriters.AppendCopy | library/trunk-15.3.5/integrate.c:215-220 | the closing step appends a marker and a copy of the new exponent after the term |
| Rewriters.RaiseInTerm | library/trunk-15.3.5/integrate.c:185-186 | a level loop over part of a term raises those tokens inside the side and leaves the rest of the side as it was |
| Rewriters.NegateInTerm | library/trunk-15.3.5/integrate.c:183-197 | the division case in place gives NegateExponent |
| Rewriters.PowerRuleInTerm | library/trunk-15.3.5/integrate.c:198-221 | the power rule in place: error_huge exactly when it would not fit, else PowerRule |
| Rewriters.PowerRuleFinish | library/trunk-15.3.5/integrate.c:203-220 | the `+ 1` insertion and the appended `/ (n + 1)` give PowerRule |
| Rewriters.PowerRuleLength | library/trunk-15.3.5/integrate.c:200-216 | the power rule adds the exponent's length plus five tokens, as the capacity check at line 201 counts |
| Rewriters.PowerRuleCopied | library/trunk-15.3.5/integrate.c:215-220 | the appended divisor is a copy of the new exponent `n + 1` |
| Rewriters.AppendToTerm | library/trunk-15.3.5/integrate.c:224-236 | the `v` absent branch appends two tokens, room permitting |
| Rewriters.IntegrateRaised | library/trunk-15.3.5/integrate.c:170-236 | the rewriting half of integrate_sub in place leaves IntegrateRaisedTerm |
| Rewriters.IntegratePower | library/trunk-15.3.5/integrate.c:172-221 | integrate_sub once `v ^` is found leaves IntegrateRaisedTerm |
| Rewriters.IntegrateDivided | library/trunk-15.3.5/integrate.c:178-221 | the `/ v ^ n` case: refused for `n` = 1, else negated and rewritten |
| Rewriters.IntegrateSub | library/trunk-15.3.5/integrate.c:119-237 | integrate_sub in place leaves IntegrateTerm spliced into the side, error_huge exactly when it would not fit |
| Rewriters.LaplaceExponentInTerm | library/trunk-15.3.5/integrate.c:434-454 | the in-place half of the Laplace rule |
| Rewriters.LaplaceRuleInTerm | library/trunk-15.3.5/integrate.c:429-471 | the Laplace rule in place: error_huge exactly when it would not fit, else LaplaceRule |
| Rewriters.LaplaceRaised | library/trunk-15.3.5/integrate.c:422-486 | laplace_sub after the raise leaves LaplaceRaisedTerm |
| Rewriters.LaplaceAt | library/trunk-15.3.5/integrate.c:423-471 | laplace_sub once `v` is found: refusal without `^`, else the rule |
| Rewriters.LaplaceSub | library/trunk-15.3.5/integrate.c:409-487 | laplace_sub in place leaves LaplaceTerm spliced into the side, error_huge exactly when it would not fit |
| Rewriters.InvLaplaceExponentInTerm | library/trunk-15.3.5/integrate.c:522-534 | the in-place half of the inverse rule |
| Rewriters.InvLaplaceRuleInTerm | library/trunk-15.3.5/integrate.c:515-551 | the inverse rule in place: error_huge exactly when it would not fit, else InvLaplaceRule |
| Rewriters.InvLaplaceRaised | library/trunk-15.3.5/integrate.c:508-554 | inv_laplace_sub after the raise leaves InvLaplaceRaisedTerm |
| Rewriters.InvLaplaceSub | library/trunk-15.3.5/integrate.c:495-555 | inv_laplace_sub in place leaves InvLaplaceTerm spliced into the side, error_huge exactly when it would not fit |
| Dispatch.NextTop | library/trunk-15.3.5/integrate.c:99-107 | the rescan stops at a level-1 token or at or past the end |
| Dispatch.Next | library/trunk-15.3.5/integrate.c:90-109 | one pass of the loop keeps the levels positive and strictly shrinks what is left to scan |
| Dispatch.RewritersBelowTop | library/trunk-15.3.5/integrate.c:94-103 | all three rewriters put a rewritten term at level 2 or deeper, so none of its operators is taken for a separator |
| Dispatch.NextTopPast | library/trunk-15.3.5/integrate.c:99-107 | the rescan does not stop before a run of tokens deeper than level 1 ends |
| Dispatch.RewriteAdvances | library/trunk-15.3.5/integrate.c:96-107 | after a rewrite the rescan lands at or past the separator that ended the term |
| Dispatch.SpliceAdvances | library/trunk-15.3.5/integrate.c:99-107 | replacing a term by anything keeps the rescan from landing before the old separator |
| Dispatch.ApplyKeepsPrefix | library/trunk-15.3.5/integrate.c:92-96 | a rewriter call leaves everything before its term unchanged |
| Dispatch.NextKeepsPrefix | library/trunk-15.3.5/integrate.c:91-108 | one pass of the loop leaves everything before the current term unchanged and never moves the term start back |
| Dispatch.DispatchKeepsPrefix | library/trunk-15.3.5/integrate.c:90-109 | nothing before the current term changes |
| Dispatch.DispatchOneTerm | library/trunk-15.3.5/integrate.c:90-93 | a side without a level-1 `+`/`-` is a single call of the rewriter on all of it |
| Dispatch.ApplyInPlace | library/trunk-15.3.5/integrate.c:92 | the call through the function pointer leaves what the chosen rewriter describes |
| Dispatch.Rescan | library/trunk-15.3.5/integrate.c:99-107 | the rescan loop returns NextTop |
| Dispatch.RewriteTerm | library/trunk-15.3.5/integrate.c:96-107 | a term rewritten in place, then the rescan past its start |
| Dispatch.DispatchStep | library/trunk-15.3.5/integrate.c:91-108 | one pass in place does what Next describes |
| Dispatch.DispatchLoop | library/trunk-15.3.5/integrate.c:90-109 | the loop in place leaves what DispatchFrom describes |
| Dispatch.IntDispatch | library/trunk-15.3.5/integrate.c:81-111 | make_powers, then the loop: error_huge, the verdict and the side exactly as IntDispatchOf describes |
| Fractions.FMod | library/trunk-15.3.5/gcd.c:64 | fmod leaves a remainder in [0, divisor) after whole divisors |
| Fractions.EuclidFrom | library/trunk-15.3.5/gcd.c:63-73 | the remainder loop returns 0 or one of the divisors, never more than the current one |
| Fractions.GcdOf | library/trunk-15.3.5/gcd.c:35-74 | gcd is never negative |
| Fractions.Gcd | library/trunk-15.3.5/gcd.c:35-74 | gcd: 0 for a non-finite operand, the other magnitude for a zero operand, 0 at or above MAX_K_INTEGER, otherwise the remainder loop |
| Fractions.GcdOfIntegers | library/trunk-15.3.5/gcd.c:28-29 | on integers below MAX_K_INTEGER: Euclid's gcd when Euclid's steps fit the loop, 0 otherwise |
| Fractions.GcdOfZero | library/trunk-15.3.5/gcd.c:44-51 | gcd(0, d) = \|d\| and gcd(d, 0) = \|d\| agree with Euclid |
| Fractions.GcdOfOrdered | library/trunk-15.3.5/gcd.c:52-73 | on whole operands, in either order, the result is Euclid's or 0 |
| Fractions.GcdCorrectedExact | library/trunk-15.3.5/gcd.c:28-29 | with the corrected loop bound gcd is exact on every pair of integers below MAX_K_INTEGER |
| Fractions.FibonacciCounterexample | library/trunk-15.3.5/gcd.c:63-73 | gcd as written returns 0 on two coprime integers far below MAX_K_INTEGER |
| Fractions.GcdOneCoprime | library/trunk-15.3.5/gcd.c:35-74 | gcd reports 1 on two integers only when they are coprime |
| Fractions.GcdVerifiedOf | library/trunk-15.3.5/gcd.c:83-98 | gcd_verified returns 0 or gcd's result on finite operands |
| Fractions.GcdVerified | library/trunk-15.3.5/gcd.c:83-98 | the method computes GcdVerifiedOf |
| Fractions.GcdVerifiedSound | library/trunk-15.3.5/gcd.c:88-97 | a non-zero result divides both operands into whole, coprime cofactors |
| Fractions.GcdVerifiedAccepts | library/trunk-15.3.5/gcd.c:88-97 | gcd_verified keeps a divisor whose cofactors are whole and have gcd 1 |
| Fractions.GcdVerifiedIntegers | library/trunk-15.3.5/gcd.c:83-98 | with the corrected bound gcd_verified gives Euclid's gcd on integers below MAX_K_INTEGER |
| Fractions.MyRound | library/trunk-15.3.5/gcd.c:104-113 | my_round gives an integer within 1/2, halves away from zero, keeps the sign, and fixes integers |
| Fractions.MyRoundNearest | library/trunk-15.3.5/gcd.c:104-113 | my_round is at least as close as any integer |
| Fractions.FractionOf | library/trunk-15.3.5/gcd.c:130-179 | failure leaves (d, 1); success implies finite; an integral d comes back as d / 1 |
| Fractions.FractionFromGcd | library/trunk-15.3.5/gcd.c:155-177 | the second half fails with (d, 1) or returns a finite numerator |
| Fractions.FToFraction | library/trunk-15.3.5/gcd.c:130-179 | the method computes FractionOf |
| Fractions.ReduceSound | library/trunk-15.3.5/gcd.c:164-168 | the reduction by gcd(numerator, denominator) keeps whole, no larger parts and their ratio |
| Fractions.FractionGoesThroughGcd | library/trunk-15.3.5/gcd.c:144-155 | a non-integral d goes through gcd(1, d) |
| Fractions.FractionSound | library/trunk-15.3.5/gcd.c:155-177 | on success for a non-integral d: whole parts below 10^12 in magnitude, a denominator of at least 2, ratio equal to d; fully reduced with the corrected bound |
| Fractions.FromGcdSound | library/trunk-15.3.5/gcd.c:155-177 | a success of the gcd path yields whole parts below 10^12 whose ratio is d, fully reduced with the corrected bound |
| Fractions.FromGcdExact | library/trunk-15.3.5/gcd.c:155-177 | with the corrected bound the gcd path returns p and q for d = p/q |
| Fractions.DivideByGcd | library/trunk-15.3.5/gcd.c:164-168 | dividing by the integer gcd leaves whole, no larger, coprime parts with the same ratio |
| Fractions.ReduceCorrected | library/trunk-15.3.5/gcd.c:164 | with the corrected bound the reducing gcd call never fails on parts below 10^12 |
| Fractions.GcdOfFraction | library/trunk-15.3.5/gcd.c:155 | gcd(1, p/q) is gcd(p, q)/q when Euclid's steps fit the loop, else 0 |
| Fractions.FractionRoundTrip | library/trunk-15.3.5/gcd.c:115-128 | with the corrected bound every reduced fraction p/q with parts under 10^12 is recovered exactly |
| Fractions.FractionFibonacciFails | library/trunk-15.3.5/gcd.c:155-177 | as written, f_to_fraction gives up on 20365011074/32951280099; with the corrected bound it is recovered |
| Fractions.FractionWhole | library/trunk-15.3.5/gcd.c:145-153 | a success with denominator 1 hands the constant back unchanged |
| Fractions.NumeratorWhole | library/trunk-15.3.5/gcd.c:173-176 | the numerator of a proper fraction is whole and converts to itself |
| IntGcd.GcdDivides | library/trunk-15.3.5/gcd.c:25-29 | Euclid's result is positive and divides both operands |
| IntGcd.GcdGreatest | library/trunk-15.3.5/gcd.c:25-29 | every common divisor divides Euclid's result |
| IntGcd.GcdSymmetric | library/trunk-15.3.5/gcd.c:52-58 | the gcd does not depend on the order of the operands |
| IntGcd.CoprimeFactors | library/trunk-15.3.5/gcd.c:164-168 | dividing both operands by their gcd leaves coprime numbers |
| IntGcd.StepsBound | library/trunk-15.3.5/gcd.c:63-73 | Lame's bound: below 2^j Euclid needs at most 2j - 1 iterations |
| IntGcd.StepsBelowMaxK | library/trunk-15.3.5/gcd.c:28-29 | below MAX_K_INTEGER Euclid never needs more than 99 iterations |
| IntGcd.FibSteps | library/trunk-15.3.5/gcd.c:63-73 | consecutive Fibonacci numbers take n - 1 iterations and are coprime |
| IntGcd.FibValues | library/trunk-15.3.5/gcd.c:63-73 | F(51) = 20365011074 and F(52) = 32951280099 |
| FractionSplice.Rewrite | library/trunk-15.3.5/gcd.c:214-261 | a splice keeps the tokens before the constant; it grows the side by 2, or by 0 for `1/d * ...`; it writes the numerator in place otherwise |
| FractionSplice.RewriteShrinks | library/trunk-15.3.5/gcd.c:214-261 | a splice keeps the side odd and leaves the scan strictly less to do, including the `1/d *` case that rescans the same position |
| FractionSplice.ScanStep | library/trunk-15.3.5/gcd.c:198-262 | one iteration: error_huge exactly for a convertible constant without room for two tokens; a splice exactly for a convertible constant; otherwise no change |
| FractionSplice.FractionsShape | library/trunk-15.3.5/gcd.c:198-263 | the side stays odd, never shrinks, and grows only within the capacity |
| FractionSplice.ModifiedSticks | library/trunk-15.3.5/gcd.c:212 | once a fraction is spliced in, the scan reports a change |
| FractionSplice.FractionsUnchanged | library/trunk-15.3.5/gcd.c:198-264 | with nothing convertible ahead, the scan changes nothing |
| FractionSplice.FractionsModify | library/trunk-15.3.5/gcd.c:203-212 | a convertible constant ahead is spliced in, or the side overflows |
| FractionSplice.FractionsConvertAll | library/trunk-15.3.5/gcd.c:198-263 | after the scan no convertible constant is left anywhere |
| FractionSplice.MakeFractionsSpec | library/trunk-15.3.5/gcd.c:189-265 | reports a change iff the side held a convertible constant; error_huge when there is no room; else no convertible constant left, within the capacity |
| FractionSplice.FindDivide | library/trunk-15.3.5/gcd.c:217-221 | the term scan of the `*` case stops at the first `/` at the level or at the term's end |
| FractionSplice.DropOneInPlace | library/trunk-15.3.5/gcd.c:222-236 | `1/d * a ...` becomes `a ... / d` in place, the length unchanged |
| FractionSplice.MoveInPlace | library/trunk-15.3.5/gcd.c:225-236 | `n/d * a ...` becomes `n * a ... / d` in place, two tokens longer |
| FractionSplice.TimesRewrite | library/trunk-15.3.5/gcd.c:216-240 | the `*` case in place gives Rewrite and the position the scan resumes at |
| FractionSplice.SpliceInPlace | library/trunk-15.3.5/gcd.c:246-261 | the plain case in place: the constant becomes `n / d`, one level deeper when inc_level |
| FractionSplice.RewriteAt | library/trunk-15.3.5/gcd.c:212-261 | the splice in place gives Rewrite and the resume position |
| FractionSplice.ScanAt | library/trunk-15.3.5/gcd.c:199-262 | one iteration in place does what ScanStep describes |
| FractionSplice.MakeFractions | library/trunk-15.3.5/gcd.c:189-265 | make_fractions in place leaves what MakeFractionsOf describes: error_huge, the new length and the modified flag |

## Left out

- Doubles are exact reals. `epsilon` and `small_epsilon` are 0, so every "close enough" test of `gcd` and `f_to_fraction` is an exact comparison, and no rounding of the remainder loop is modelled.
- Infinities and NaN are merged into one non-finite value.
- `exp_contains_infinity` and `exp_contains_nan` (library/trunk-15.3.5/am.c:1129-1160) depend on IEEE classification, which the exact-real model has no room for.
- The gcd loop bound is a parameter. GCD_TRIES = 50 is the source's bound; GCD_TRIES_CORRECTED = 100 is the corrected one.
- `error_huge` (library/trunk-15.3.5/am.c:66-69) longjmps out of the command. It is an outcome of the model. The array contents after that outcome are left unspecified, because the command is abandoned.
- `error`, `warning`, `error_bug`, `check_err` and `next_espace` print or longjmp and are not modelled.
- The OS and malloc calls are not modelled. A malloc outcome is a parameter of the store methods.
- `init_mem`, `free_mem`, `clear_all` and the terminal and parser helpers are not modelled.
- `integrate_cmd`, `laplace_cmd` and `nintegrate_cmd` are not modelled. They call simplifiers and a parser that are not part of this model.
- The definite-integral splice (library/trunk-15.3.5/integrate.c:366-384) and the divisor-singularity scan (library/trunk-15.3.5/integrate.c:687-695) are not modelled.
- A NULL string pointer in the command-word helpers is not modelled. A C string is a `string` plus a position in it, and reading past the end gives NUL.
- The rewriters read `token.operatr` at positions that are supposed to hold operators. On an operand token this read is modelled as NO_OPERATOR; the C union would reinterpret the payload's bits.
- `make_powers` reads `equation[i+1].token.operatr` without a kind check. The model reads it the same way.
- `int_dispatch`'s function pointer becomes the datatype `Transform` and a function value, `Rewriter`.
- Fractions.GcdOf: its own contract states only that the result is not negative. What it computes is stated by the Gcd method's contract and the GcdOfIntegers, GcdOfZero and GcdOfOrdered lemmas.
- Fractions.FractionFromGcd: its own contract states only the failure shape. Its accuracy is stated by FromGcdSound and FractionSound.
- Store.EquationSpaces.AllocToEspace: success is promised only when memory holds out and no space on the way is half-allocated. With a malloc failure partway it states only the shape of the store, not how many spaces were made.
- Store.EquationSpaces.CopyEspace: the source does not check that the source space fits `dest`'s buffer. The model requires both spaces to exist, which is what every caller ensures.

## Findings

| source | as written | input that shows it | evidently intended | confidence | as-written member | corrected member |
|---|---|---|---|---|---|---|
| library/trunk-15.3.5/gcd.c:63-73 | the remainder loop runs while `count < 50` with `count` starting at 1, so at most 49 iterations, and returns 0 when they are used up | gcd(32951280099, 20365011074), the Fibonacci numbers F(52) and F(51), which are coprime and need 50 iterations | exact gcd for all integers below MAX_K_INTEGER, as the comment at gcd.c:28-29 promises; Euclid needs at most 99 iterations there | not executed | Fractions.FibonacciCounterexample | Fractions.GcdCorrectedExact |
| library/trunk-15.3.5/gcd.c:155-177 | f_to_fraction converts through gcd(1, d), so the loop bound of the row above also makes it give up | d = 20365011074/32951280099, whose gcd with 1 needs the 50th iteration | a consequence of the row above, in the exact-real model of this project: with the loop bound corrected, every reduced fraction whose parts lie below 10^12 converts back. The source promises only the cap on 11 digits at gcd.c:158-162, and with doubles this input fails from rounding as well: 20365011074/32951280099 and 12586269025/20365011074 round to the same double | not executed | Fractions.FractionFibonacciFails | Fractions.FractionRoundTrip |
