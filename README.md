# A verified model of a small CNF SAT solver

The modelled program decides satisfiability of propositional formulas in conjunctive
normal form. A formula is a pair `[clauses, table]`. The clauses are lists of literal
strings: a variable name, or the name with an `'n'` prefix for its negation. The table is
a dict from variable name to True, False or None (unassigned). There are two solvers:

- **complete** (`solve_complete`): DPLL-style tree search. It simplifies a copy of the
  formula to a fixed point. One `simplify` round assigns the pure (monochrome) literals,
  then the literals of unit clauses, and then reduces the formula: it drops True clauses
  and removes False literals. The search then stops on an empty clause list (satisfied) or
  an empty clause (bottom). Otherwise it branches on the first unassigned variable, True
  first, then False.
- **incomplete** (`walk_sat`): WalkSAT-style local search. Each restart draws a random
  total assignment. It then repeatedly picks the first unsatisfied clause and flips one of
  that clause's literals. It prefers a literal whose flip breaks no True clause. Otherwise
  it tosses a biased coin and flips either the literal that breaks the fewest clauses or a
  random literal. A restart ends after `tc` coin tosses, and the search gives up after
  `tr` restarts.

`solve_SAT` dispatches on the method name.

## How the model is built

- **Literals and the table.** A literal is `Lit(v, neg)`. Variable `v` is the key at
  position `v` of the table. The table is a sequence of `Tri = Known(bool) | Blank`,
  because the order of the dict's keys matters: the blank symbols are listed in key order.
  Module `LiteralNames` models the string encoding itself. It proves that, for distinct
  names containing no `'n'`, the `'n' in s` test, string negation and `eval_lit` on
  strings agree with the structured form.
- **Formulas.** A formula is the value `Formula(clauses, table)`. The same pair, updated in
  place, is an object of class `Instance` with fields `clauses` and `table`.
- **Operations that mutate their formula.** These are methods with `modifies f`: `assign`,
  `reduce_clause`, `reduce_formula`, `simplify`, `flip_literal` and `walk_sat`.
  - `assign` is proved to update the table at the literal's variable and nowhere else.
  - `reduce_clause`, `reduce_formula`, `simplify` and `flip_literal` are proved against
    the pure specification functions `Shrink`, `ReduceClauses`, `Simplified` and `Flip`.
    `simplify`'s assignment loops are proved against `MakeTrue`.
  - `walk_sat` is proved against the function `RestartsFrom`. With the draws as inputs,
    `RestartsFrom` runs the same two loops on values: `TriesFrom` is the inner loop and
    `Move` one choice of literal. The method's answer, its final table and its coin counts
    are exactly those functions' results. The method also returns a trace of tables. Each
    step in the trace is either a restart table drawn from `bits` or the flip of a literal
    of the first clause that is not True.
- **Queries.** These are loop methods over formula values that return what a
  specification function says: `get_blank_symbols`, `monochromes`, `unit_literals`,
  `get_unsat_clause_index`, `get_best_lit` and `count_unsat_clauses`.
- **`solve_complete`.** It recurses on private deep copies. It is the function
  `Solution`, and the method `SolveComplete` replays the source's steps on an `Instance`
  and returns exactly `Solution` of its input.
- **Randomness in `walk_sat`.** The random draws are parameters:
  - `bits(restart, v)` is the random value of variable `v` at that restart;
  - `coin(restart, toss)` is the outcome of `random.random() < bias`;
  - `pick(restart, toss)`, taken modulo the clause length, is the `random.choice` position.

**`eval_clause` is meant to be three-valued and is not.** Its `return None` branch
(src/sat_solvers.py:37-38) shows the intent: a clause with no True literal is None while
some variable is unassigned. But the test guarding that branch (line 35) asks whether any
`(key, value)` tuple of `table.items()` is None, which never holds, so the branch is dead
and the function is two-valued. The model has both versions. Every caller of
`eval_clause` uses only its truthiness, and on that the written and the intended versions
agree (see Findings).

## Model

| member | source | states |
|---|---|---|
| Literals.Negate | src/sat_solvers.py:8-12 | the negation is over the same variable and differs from the literal |
| Literals.NegateInvolution | src/sat_solvers.py:8-12 | negating twice gives back the literal |
| Literals.EvalLit | src/sat_solvers.py:16-26 | None exactly when the variable is unassigned; True exactly when the variable's value differs from the negation flag; False exactly when it equals it |
| Literals.EvalNegate | src/sat_solvers.py:16-26 | under an assigned variable a literal and its negation evaluate to opposite booleans |
| Literals.AssignIgnoresPolarity | src/sat_solvers.py:111-115 | assign writes the value to the variable whatever the literal's polarity, so the literal becomes True exactly when the value differs from its negation flag |
| LiteralNames.NegateName | src/sat_solvers.py:8-12 | a string containing 'n' becomes the rest of it after its first character (one shorter); any other string becomes 'n' followed by the whole string (one longer) |
| LiteralNames.NameTable | src/sat_solvers.py:16-26 | the name-keyed dict holds, under each variable's name, that variable's entry of the positional table |
| LiteralNames.EvalLitName | src/sat_solvers.py:16-26 | eval_lit on strings is None exactly when the looked-up variable (the name with its negation marker cut off, when it contains 'n') is None; otherwise it is that variable's value, negated exactly when the name contains 'n' |
| LiteralNames.NegationTest | src/sat_solvers.py:9 | for names without 'n', the substring test `'n' in literal` holds exactly for negated literals |
| LiteralNames.NegateNameAgrees | src/sat_solvers.py:8-12 | on valid names, string negation is structural negation, and negating twice is the identity |
| LiteralNames.EvalLitNameAgrees | src/sat_solvers.py:16-26 | on valid names the looked-up key exists, and eval_lit on strings equals the structured EvalLit |
| LiteralNames.NameWithNBreaksNegation | src/sat_solvers.py:9-10 | a name containing 'n' ("xn") is not restored by negating twice |
| Formulas.EvalClauseAsWritten | src/sat_solvers.py:30-38 | eval_clause as written is True exactly when some literal is True, and False otherwise (never None) |
| Formulas.EvalClause | src/sat_solvers.py:30-38 | eval_clause as intended: False on the empty clause; True exactly when some literal is True; False on a non-empty clause only when every literal is False; None exactly when the clause is non-empty, has no True literal, and some variable is unassigned |
| Formulas.AsWrittenLosesBlank | src/sat_solvers.py:35-38 | the clause [x0] under x0 = None is False as written but None as intended |
| Formulas.EvalClauseTruthiness | src/sat_solvers.py:33-36 | the written and intended eval_clause agree on truthiness; a clause that is not True has no True literal |
| Formulas.EvalFormula | src/sat_solvers.py:42-44 | an empty clause list is True |
| Formulas.EvalFormulaTrueLits | src/sat_solvers.py:42-44 | eval_formula holds exactly when every clause has a True literal |
| Formulas.Bottom | src/sat_solvers.py:47-50 | bottom holds only for a non-empty clause list, and a formula at bottom is True under no table |
| Formulas.BottomMeansFalse | src/sat_solvers.py:42-50 | a formula with an empty clause is not satisfied by any table; an empty clause list is satisfied by every table |
| Formulas.BottomIgnoresTotalTable | src/sat_solvers.py:47-50 | bottom is False for a non-empty, unsatisfied formula over a total table, although its comment speaks of running out of blanks |
| Formulas.ExtendsKeepsTrue | src/sat_solvers.py:30-38 | a True clause stays True when more variables are decided |
| Formulas.ExtendsKeepsFormula | src/sat_solvers.py:42-44 | a satisfied formula stays satisfied when more variables are decided |
| Formulas.Instance.constructor | src/sat_solvers.py:149 | the deep copy holds the same clauses and table as the original |
| Reduction.IndexOf | src/sat_solvers.py:58 | list.index returns the first position holding the element |
| Reduction.Shrink | src/sat_solvers.py:54-59 | reduce_clause only removes literals: the result is no longer than the clause and over the same variables |
| Reduction.ShrinkMembers | src/sat_solvers.py:54-59 | after reduce_clause, a literal is in the clause exactly when it was in it and is not False |
| Reduction.ShrinkNotTrue | src/sat_solvers.py:54-59 | reducing a clause that is not True leaves only literals over unassigned variables |
| Reduction.ShrinkKeepsAll | src/sat_solvers.py:54-59 | a clause without False literals is unchanged by reduce_clause |
| Reduction.ShrinkPreservesTruth | src/sat_solvers.py:54-59 | under any table extending the current one, the reduced clause is True exactly when the original is |
| Reduction.ReduceClauses | src/sat_solvers.py:63-70 | reduce_formula only removes clauses and literals: no more clauses than before, over the same variables |
| Reduction.ReduceClausesMembers | src/sat_solvers.py:63-70 | after reduce_formula, a clause is present exactly when it is the reduction of an original clause that was not True; every remaining literal is over an unassigned variable |
| Reduction.ReduceReduced | src/sat_solvers.py:63-70 | a formula whose clauses are all over unassigned variables is unchanged by reduce_formula |
| Reduction.ReduceIdempotent | src/sat_solvers.py:63-70 | reducing twice gives the same clauses as reducing once |
| Reduction.ReducePreservesModels | src/sat_solvers.py:63-70 | under any table extending the current one, the reduced formula is satisfied exactly when the original is |
| Reduction.ReduceClause | src/sat_solvers.py:54-59 | marking the first positions of the False literals and filtering replaces the clause by its order-preserving filter Shrink; the table and the other clauses are unchanged |
| Reduction.MarkAndReduce | src/sat_solvers.py:64-69 | the marking pass: a position is marked exactly when its clause is True; every unmarked clause is replaced by its reduction Shrink; the table and the number of clauses are unchanged |
| Reduction.ReduceFormula | src/sat_solvers.py:63-70 | the table is unchanged, and the clause list becomes, in the original order, every clause that was not True with its False literals removed |
| Propagation.BlanksMembers | src/sat_solvers.py:74-79 | every blank symbol is an unassigned variable, and the symbols come in increasing key order |
| Propagation.BlanksCover | src/sat_solvers.py:74-79 | every unassigned variable is a blank symbol |
| Propagation.BlanksProperties | src/sat_solvers.py:74-79 | the blank symbols are exactly the unassigned variables, each once, in key order |
| Propagation.BlankCountUpdate | src/sat_solvers.py:111-115 | assigning a variable lowers the blank count by one if it was blank, and otherwise leaves it unchanged |
| Propagation.NoBlanksTotal | src/sat_solvers.py:74-79 | there are no blank symbols exactly when the table is total |
| Propagation.Monos | src/sat_solvers.py:83-98 | every literal monochromes returns is over an unassigned variable |
| Propagation.PureLitFacts | src/sat_solvers.py:89-96 | a variable contributes no pure literal exactly when it occurs in both polarities; otherwise its literal is over that variable and its complement occurs in no clause |
| Propagation.MonosOfMembers | src/sat_solvers.py:89-94 | each returned literal is over one of the scanned variables, and its complement occurs in no clause; a negated one is returned only because the negated literal occurs (and the positive one does not) |
| Propagation.MonosOfOrdered | src/sat_solvers.py:86-94 | scanning variables in increasing order yields literals over strictly increasing variables, so at most one per variable |
| Propagation.MonosOfCovers | src/sat_solvers.py:89-94 | every scanned variable that does not occur in both polarities gets a literal |
| Propagation.MonosOfProperties | src/sat_solvers.py:83-98 | the conjunction of the three lemmas above |
| Propagation.MonosProperties | src/sat_solvers.py:83-98 | the monochromes are over unassigned variables, their complements occur nowhere, there is at most one per variable in key order, and every unassigned variable that does not occur in both polarities has one (positive unless the negated literal occurs) |
| Propagation.MixedNotPure | src/sat_solvers.py:89-96 | a variable occurring in both polarities contributes no monochrome |
| Propagation.UnitsMembers | src/sat_solvers.py:102-107 | a literal is a unit literal exactly when some clause is that literal alone; there are none exactly when no clause has length 1 |
| Propagation.UnitsOver | src/sat_solvers.py:102-107 | unit literals are over variables of the table |
| Propagation.Units | src/sat_solvers.py:102-107 | there is at most one unit literal per clause |
| Propagation.MakeTrue | src/sat_solvers.py:126-136 | the assignment loops keep the table's key set |
| Propagation.MakeTrueAt | src/sat_solvers.py:126-136 | the assignment loops leave unmentioned variables alone, decide every mentioned one, and never reset a decided one |
| Propagation.MakeTrueOne | src/sat_solvers.py:126-136 | a listed literal that agrees with every other literal over its variable ends up True |
| Propagation.MakeTrueLastWins | src/sat_solvers.py:132-136 | the last literal assigned ends up True |
| Propagation.MakeTrueExtends | src/sat_solvers.py:126-136 | the assignment loops keep the extends relation between two tables |
| Propagation.MakeTrueExtendsBase | src/sat_solvers.py:126-136 | assigning literals over variables blank in a base table keeps extending that base |
| Propagation.MakeTrueAlreadyTrue | src/sat_solvers.py:132-136 | assigning literals that are already True changes nothing |
| Propagation.MakeTrueBlankCount | src/sat_solvers.py:126-136 | the assignment loops never raise the blank count, and lower it when some literal is over a blank variable |
| Propagation.Assign | src/sat_solvers.py:111-115 | the literal's variable gets the value whatever its polarity; the clauses and the other variables are unchanged |
| Propagation.GetBlankSymbols | src/sat_solvers.py:74-79 | returns the blank symbols in key order |
| Propagation.Monochromes | src/sat_solvers.py:83-98 | returns the pure literals of the blank symbols (the properties are in MonosProperties) |
| Propagation.PureLiterals | src/sat_solvers.py:86-96 | the loop over the blank symbols accumulates each one's pure literal, positive first |
| Propagation.UnitLiterals | src/sat_solvers.py:102-107 | returns the sole literals of the length-1 clauses, in clause order |
| Simplification.Round | src/sat_solvers.py:125-138 | one simplify round keeps the formula well formed and the table's key set |
| Simplification.RoundFacts | src/sat_solvers.py:125-138 | after a round the clauses are reduced, the blank count has not grown, no decided variable is reset, and (when unit clauses are over blanks) the old table's values are kept |
| Simplification.ReducedUnitsBlank | src/sat_solvers.py:63-70 | in a reduced formula every unit clause is over an unassigned variable |
| Simplification.MonosDecrease | src/sat_solvers.py:126-130 | assigning the monochromes lowers the blank count whenever there is one |
| Simplification.UnitsDecrease | src/sat_solvers.py:132-136 | on a reduced formula, assigning the unit literals lowers the blank count whenever there is one |
| Simplification.RoundIdle | src/sat_solvers.py:143-144 | a reduced formula with no monochrome and no unit clause is unchanged by a round |
| Simplification.RoundProgress | src/sat_solvers.py:121-144 | a round either changes nothing or lowers the termination measure (the blank count, plus one while the clauses are not yet reduced) |
| Simplification.Simplified | src/sat_solvers.py:119-144 | simplify keeps the key set, never raises the blank count, and ends with reduced clauses |
| Simplification.SimplifiedFixpoint | src/sat_solvers.py:143-144 | on return either no clause is left or one more round would change nothing |
| Simplification.SimplifiedNeverResets | src/sat_solvers.py:119-144 | simplify never resets a decided variable to None |
| Simplification.SimplifiedExtends | src/sat_solvers.py:119-144 | when every unit clause is over a blank variable, the simplified table keeps every value the input decided |
| Simplification.RoundSound | src/sat_solvers.py:125-138 | a table extending the round's table that satisfies the round's clauses satisfies the input clauses |
| Simplification.SimplifiedSound | src/sat_solvers.py:119-144 | a table extending the simplified table that satisfies the simplified clauses satisfies the input clauses |
| Simplification.PureKeepsLit | src/sat_solvers.py:126-130 | making the monochromes True keeps every occurring True literal True |
| Simplification.PureKeepsModels | src/sat_solvers.py:126-130 | making the monochromes True keeps a satisfying table satisfying |
| Simplification.UnitsAlreadyTrue | src/sat_solvers.py:132-136 | a satisfying table already makes every unit literal True |
| Simplification.RoundKeepsModels | src/sat_solvers.py:125-138 | a satisfying table extending the input, with the monochromes made True, extends the round's table and satisfies its clauses |
| Simplification.SimplifiedKeepsModels | src/sat_solvers.py:119-144 | if some table extending the input satisfies it, some table extending the simplified formula satisfies that |
| Simplification.FixpointFacts | src/sat_solvers.py:143-144 | at a fixed point there is no unit clause and no monochrome, and every blank variable occurs in both polarities |
| Simplification.SimplifiedResult | src/sat_solvers.py:119-144 | on return either no clause is left, or no clause has length 1, every literal is over an unassigned variable, and every unassigned variable occurs in both polarities |
| Simplification.SimplifiedIdempotent | src/sat_solvers.py:119-144 | a second simplify of a non-empty result is a no-op |
| Simplification.SimplifyEmpty | src/sat_solvers.py:89-90 | with no clauses every blank variable counts as pure, so simplify makes the table total |
| Simplification.PureAgreesWithUnits | src/sat_solvers.py:126-136 | a monochrome and a unit literal over the same variable are the same literal, so the unit loop never undoes a pure assignment |
| Simplification.ConflictHasNoMonos | src/sat_solvers.py:83-98 | x0 and not x0 have no monochrome |
| Simplification.ConflictUnits | src/sat_solvers.py:102-138 | for x0 and not x0 the unit literals are both, in clause order; the later one leaves x0 False; reduction leaves the first clause empty |
| Simplification.UnitsConflict | src/sat_solvers.py:125-138 | one round on x0 and not x0 leaves x0 False and the clause list [[]], which is bottom |
| Simplification.SingleUnitPure | src/sat_solvers.py:83-98 | for [[x0]] with x0 None, the monochromes are [x0] |
| Simplification.SingleUnitUnit | src/sat_solvers.py:102-107 | for [[x0]] the unit literals are [x0] |
| Simplification.SingleUnitReduced | src/sat_solvers.py:126-138 | making x0 True by the pure loop and again by the unit loop gives x0 = True, and reduction then drops the clause |
| Simplification.SingleUnitSimplified | src/sat_solvers.py:119-144 | simplify of [[x0]] from x0 = None ends with no clause and x0 = True |
| Simplification.TwoBlanks | src/sat_solvers.py:74-79 | with two unassigned variables the blank symbols are x0 and x1, in key order |
| Simplification.SharedPureMonos | src/sat_solvers.py:83-98 | in (x0 or x1) and (not x0 or x1), x0 occurs in both polarities and not x1 nowhere, so the monochromes are [x1] |
| Simplification.SharedPureUnits | src/sat_solvers.py:102-107 | (x0 or x1) and (not x0 or x1) has no unit literal |
| Simplification.SharedPureReduced | src/sat_solvers.py:126-138 | making x1 True satisfies both clauses, and reduction drops them |
| Simplification.SharedPureSimplified | src/sat_solvers.py:119-144 | simplify of (x0 or x1) and (not x0 or x1) from an empty assignment stops after one round on the empty clause list, with x1 True and x0 still None |
| Simplification.EmptyLeftoverPure | src/sat_solvers.py:89-90 | with no clause left, the remaining blank x0 is pure |
| Simplification.SimplifyTwiceDecidesMore | src/sat_solvers.py:119-144 | a second simplify of that result makes x0 True, so simplify is not idempotent once no clause is left |
| Simplification.AssignTrue | src/sat_solvers.py:126-136 | the assignment loops (False for a negated literal, True otherwise) turn the table into MakeTrue of the old table; the clauses are unchanged |
| Simplification.Simplify | src/sat_solvers.py:119-144 | the loop runs rounds until nothing changes or no clause is left, and ends in the state Simplified of the input |
| CompleteSolver.BranchFacts | src/sat_solvers.py:164-166 | when line 166 is reached the blank symbols are non-empty, and deciding the first one lowers the blank count |
| CompleteSolver.Branch | src/sat_solvers.py:166-176 | a branch decides one more variable: the same clauses, a lower blank count, the old values kept |
| CompleteSolver.Solution | src/sat_solvers.py:148-178 | a returned table has the input's key set |
| CompleteSolver.SolutionExtendsSimplified | src/sat_solvers.py:148-178 | a returned table keeps every value simplify decided |
| CompleteSolver.SolutionExtends | src/sat_solvers.py:148-178 | when unit clauses are over blank variables (as in any input whose table is all None), a returned table keeps every input value |
| CompleteSolver.SolutionSound | src/sat_solvers.py:148-178 | a returned table makes every input clause True |
| CompleteSolver.DecideBlankKeepsModel | src/sat_solvers.py:169 | deciding a blank variable keeps a satisfying table satisfying |
| CompleteSolver.SolutionComplete | src/sat_solvers.py:148-178 | if some table extending the input satisfies it, a table is returned |
| CompleteSolver.BranchComplete | src/sat_solvers.py:166-176 | a model of the simplified formula survives in the True or the False branch |
| CompleteSolver.SolutionDecides | src/sat_solvers.py:148-178 | for inputs whose unit clauses are over blank variables, a table is returned exactly when the input is satisfiable by a table extending it |
| CompleteSolver.BranchExtends | src/sat_solvers.py:166-176 | a branch's answer keeps the branch variable's value |
| CompleteSolver.SolutionTriesTrue | src/sat_solvers.py:169-178 | when the True branch finds a table, that table is the answer |
| CompleteSolver.TrueFirst | src/sat_solvers.py:169-178 | True is tried first: when the True branch is satisfiable, the answer is the True branch's and has the branch variable True |
| CompleteSolver.SatisfiableExample | src/sat_solvers.py:148-178 | (x0 or x1) and not x0 from an empty assignment yields a table |
| CompleteSolver.SatisfiableOccurrences | src/sat_solvers.py:89-94 | in (x0 or x1) and not x0, x0 occurs in both polarities and not x1 occurs nowhere |
| CompleteSolver.SatisfiablePure | src/sat_solvers.py:83-98 | the monochromes of (x0 or x1) and not x0 from an empty assignment are [x1] |
| CompleteSolver.SatisfiableUnit | src/sat_solvers.py:102-107 | the unit literals of (x0 or x1) and not x0 are [not x0] |
| CompleteSolver.SatisfiableReduced | src/sat_solvers.py:126-138 | making x1 and then not x0 True gives x0 = False, x1 = True, and reduction drops both clauses |
| CompleteSolver.SatisfiableAnswer | src/sat_solvers.py:148-178 | solve_complete of (x0 or x1) and not x0 from an empty assignment answers x0 = False, x1 = True |
| CompleteSolver.UnsatisfiableExample | src/sat_solvers.py:148-178 | x0 and not x0 yields None |
| CompleteSolver.SolveComplete | src/sat_solvers.py:148-178 | the recursion returns Solution of the input; it has no modifies clause, so the caller's formula is never changed |
| LocalSearch.Flip | src/sat_solvers.py:182-186 | only the literal's variable changes, and it becomes a boolean |
| LocalSearch.FlipTwice | src/sat_solvers.py:182-186 | flipping a decided variable twice restores the table; a None variable becomes True, then False |
| LocalSearch.FlipFalseLit | src/sat_solvers.py:182-186 | a flip makes a False literal True and a True one False, and keeps a total table total |
| LocalSearch.FlipIgnoresPolarity | src/sat_solvers.py:182-186 | a literal and its negation flip the same variable |
| LocalSearch.FlipLiteral | src/sat_solvers.py:182-186 | the table becomes Flip of the old table; the clauses are unchanged |
| LocalSearch.Keeps | src/sat_solvers.py:215 | flipping a literal that keeps every True clause True keeps a satisfied formula satisfied |
| LocalSearch.BreakCount | src/sat_solvers.py:222-237 | the number of broken clauses is at most the number of clauses |
| LocalSearch.BreakCountZero | src/sat_solvers.py:215 | a literal breaks no clause exactly when its flip keeps every True clause True |
| LocalSearch.TrueCount | src/sat_solvers.py:245 | the number of True clauses is at most the number of clauses (the bound of the inner loop's measure) |
| LocalSearch.TrueCountKept | src/sat_solvers.py:255-263 | keeping every True clause True does not lower the count of True clauses |
| LocalSearch.TrueCountGrows | src/sat_solvers.py:255-263 | keeping every True clause True and making one more True raises the count of True clauses |
| LocalSearch.UnsatAllFalse | src/sat_solvers.py:30-38 | under a total table every literal of a clause that is not True is False |
| LocalSearch.BestFlipProgress | src/sat_solvers.py:261-263 | a best-literal flip satisfies the chosen clause and breaks none, so the count of True clauses rises (the inner loop terminates) |
| LocalSearch.GetUnsatClauseIndex | src/sat_solvers.py:190-195 | None exactly when every clause is True; otherwise the first clause that is not True, which is FirstUnsatIndex |
| LocalSearch.ClauseValues | src/sat_solvers.py:203-205 | the lookup table holds each clause's truth by position |
| LocalSearch.GetBestLit | src/sat_solvers.py:200-218 | the first literal of the clause whose flip keeps every True clause True, which is FirstKeeping from position 0; None exactly when there is none |
| LocalSearch.CountUnsatClauses | src/sat_solvers.py:222-237 | the number of clauses True before the flip and not after |
| LocalSearch.LeastBreakingLit | src/sat_solvers.py:277-280 | an error with min()'s message exactly for an empty clause; otherwise the first literal, in clause order, with the least break count, which is the literal at LeastIndex of the clause's Breaks |
| LocalSearch.Draw | src/sat_solvers.py:251-252 | a restart's table is total, every variable holding the boolean drawn for it |
| LocalSearch.RandomAssignment | src/sat_solvers.py:251-252 | after a restart the table is the restart's Draw; the clauses are unchanged |
| LocalSearch.ChooseLiteral | src/sat_solvers.py:257-285 | the literal and the coin toss are exactly Move's; an error exactly when the chosen clause is empty; otherwise a literal of that clause; a move that tosses no coin raises the number of True clauses; on heads the literal breaks the fewest True clauses, the first such in clause order |
| LocalSearch.Tries | src/sat_solvers.py:255-285 | the error, the final table and the number of coins tossed are exactly TriesFrom of the starting table with no coin tossed; the clauses are unchanged and the table stays total; each table it goes through comes from the previous one by flipping a literal of the first clause that is not True |
| LocalSearch.FirstUnsat | src/sat_solvers.py:190-195 | a first clause that is not True exists only when the formula is not satisfied |
| LocalSearch.FirstUnsatIndex | src/sat_solvers.py:190-195 | when some clause is not True, the position get_unsat_clause_index returns: that clause is not True and every earlier one is |
| LocalSearch.FirstUnsatUnique | src/sat_solvers.py:190-195 | only one position is the first clause that is not True |
| LocalSearch.FirstKeeping | src/sat_solvers.py:207-218 | the literal get_best_lit returns, scanning from position k, is a literal of the clause from k on |
| LocalSearch.FirstKeepingFacts | src/sat_solvers.py:207-218 | None exactly when no literal from position k on keeps every True clause True; otherwise the first one that does |
| LocalSearch.Breaks | src/sat_solvers.py:277-279 | the `counts` values: one break count per literal of the clause, in clause order |
| LocalSearch.LeastIndex | src/sat_solvers.py:280 | `min(counts, key=counts.get)`: a position among the first n whose count is the least, and the earliest such position |
| LocalSearch.LeastIndexAt | src/sat_solvers.py:277-280 | the literal at LeastIndex of a clause's Breaks breaks the fewest True clauses, and no earlier literal breaks as few |
| LocalSearch.Move | src/sat_solvers.py:257-285 | one choice of the inner loop: a literal of the chosen clause, or an error exactly when that clause is empty |
| LocalSearch.MoveFacts | src/sat_solvers.py:257-285 | a coin is tossed exactly when no literal keeps every True clause True; without a toss the move is the first literal that does; on heads a literal with the least break count, the first such; on tails the literal at `pick` modulo the clause length |
| LocalSearch.MoveProgress | src/sat_solvers.py:255-285 | a move that tosses no coin, from the first clause that is not True under a total table, raises the number of True clauses |
| LocalSearch.TriesFrom | src/sat_solvers.py:255-285 | the inner loop on values from `count` tosses: the table stays total and the tosses stay at most tc; an error only at bottom; without an error it stops with every clause True or after tc tosses |
| LocalSearch.Step | src/sat_solvers.py:257-285 | one pass of the inner loop body: either an error with the table unchanged, at bottom, where TriesFrom also ends; or one flip of a literal of the first clause that is not True, after which TriesFrom ends as it would have from the old table; a pass with no toss raises the number of True clauses |
| LocalSearch.RestartsFrom | src/sat_solvers.py:244-291 | the outer loop on values: a satisfied table is answered at once; an answer is a table exactly when it satisfies every clause, and then it is the final table; an error only at bottom; after a restart the table is total |
| LocalSearch.Restart | src/sat_solvers.py:249-285 | one restart: the table becomes the restart's Draw, and the inner loop then ends exactly as TriesFrom from that Draw |
| LocalSearch.WalkSat | src/sat_solvers.py:243-291 | the answer and the final table are exactly RestartsFrom of the given table with no restart made; the clauses and key set are unchanged; the result is the table exactly when it satisfies every clause; an error only with an empty clause; a satisfied input is returned untouched; with no restarts the table is untouched; after a restart the table is total; at most tr restarts with at most tc tosses each, and a None answer comes after exactly tr restarts of exactly tc tosses; the tables it goes through run from the given table to the final one, each from the previous by a restart's Draw or by flipping a literal of the first clause that is not True |
| Dispatch.SolveSat | src/sat_solvers.py:294-304 | "complete" answers Solution of the input and leaves the table alone; "incomplete" answers, and leaves the table, exactly as RestartsFrom with `tosses` and `restarts` as tc and tr; any other name answers None; every returned table satisfies every clause; for "incomplete", `restarts` bounds the number of restarts and `tosses` the coins tossed in each (a None answer uses them all), and the table moves only by restart draws and flips of the first clause that is not True |

## Left out

- Verbose printing, the error message `solve_SAT` prints for an unknown method, and the
  printers `parse_literal`, `parse_clause` and `display_SAT` have no effect on results
  and are not modelled.
- `craft_SAT` (random formula generation) is not modelled. Its `x%d` naming is the reason
  the model assumes variable names without `'n'` (see `LiteralNames`).
- Random number generation is replaced by the parameters `bits`, `coin` and `pick`. The
  `bias` float is absent, because only the coin's boolean outcome matters.
- `copy.deepcopy` is not modelled as such: formulas are values, and the copy in
  `solve_complete` is a fresh `Instance` built from the input's value.
- The `checked` list in `monochromes` only skips blanks seen before. Blank symbols are
  distinct keys, so that skip never fires, and the model has no such list.
- `list.index` marking in `reduce_clause` and `reduce_formula` is modelled on positions
  (`IndexOf`, and a set of marked positions). Equal entries evaluate alike under the
  unchanged table, so the effect is the same order-preserving filter.
- `tc`, `tr` and the `solve_SAT` counts are naturals. A negative Python argument behaves
  like 0 in the source's `<` tests, so this loses nothing.
- Python exceptions in `walk_sat` (`min` of an empty dict, `random.choice` of an empty
  clause) are the `Raised` result with the exception's message. Lookups of a variable
  missing from the table (KeyError) are excluded by the well-formedness requirement.
- CompleteSolver.SolutionExtends, CompleteSolver.SolutionDecides: these require every unit clause to be over an
  unassigned variable. With a unit clause over a decided variable, `assign` overwrites the
  decided value. So on such an input the returned table need not keep the input's
  values, and the claim is not made there.
- Default arguments are not modelled. Every parameter is explicit: `solve_SAT`'s
  `method='complete', tosses=4, restarts=4, coin_bias=0.6` (src/sat_solvers.py:294) and
  `walk_sat`'s `tc=4, tr=4, bias=0.6` (src/sat_solvers.py:243). The bias is replaced by
  the coin's outcomes.
- Simplification.SimplifiedIdempotent: holds only when the result still has clauses. When
  no clause is left, simplify stops (line 143) with blanks that a second call would find
  pure and make True (SimplifyTwiceDecidesMore), so the claim is not made there.

## Findings

| source | as written | input that shows it | evidently intended | confidence | as-written member | corrected member |
|---|---|---|---|---|---|---|
| src/sat_solvers.py:35 | `any(map(lambda i: i is None, table.items()))` tests `(key, value)` tuples, which are never None, so the None branch at lines 37-38 is dead and a clause with no True literal is False even under a partial table | clause `[x0]` with `x0` None: returns False | test the values (`table.values()`), returning None while a variable is unassigned | high, not executed | Formulas.EvalClauseAsWritten, Formulas.AsWrittenLosesBlank | Formulas.EvalClause |
