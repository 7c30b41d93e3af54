/**
 * solve_complete: simplify a copy, stop on no clause (satisfied) or an empty clause
 * (bottom), otherwise branch on the first blank variable, True first, then False.
 */
module CompleteSolver {
  import opened Outcomes
  import opened Literals
  import opened Formulas
  import opened Reduction
  import opened Propagation
  import opened Simplification

  /**
   * A reduced formula with clauses but no empty clause has a blank variable, and deciding
   * the first one lowers the blank count.
   */
  lemma BranchFacts(g: Formula)
    requires WellFormed(g) && Reduced(g.clauses, g.table)
    requires |g.clauses| > 0 && !Bottom(g.clauses)
    ensures |Blanks(g.table)| > 0
    ensures Blanks(g.table)[0] < |g.table| && g.table[Blanks(g.table)[0]] == Blank
    ensures forall b: bool :: BlankCount(g.table[Blanks(g.table)[0] := Known(b)]) < BlankCount(g.table)
  {
    BlanksProperties(g.table);
    assert |g.clauses[0]| != 0;
    assert ClauseBlank(g.clauses[0], g.table);
    var v := g.clauses[0][0].v;
    assert g.table[v] == Blank;
    assert v in Blanks(g.table);
    forall b: bool ensures BlankCount(g.table[Blanks(g.table)[0] := Known(b)]) < BlankCount(g.table) {
      BlankCountUpdate(g.table, Blanks(g.table)[0], b);
    }
  }

  /** The formula of one branch: the simplified clauses with the branch variable decided. */
  function Branch(g: Formula, b: bool): (h: Formula)
    requires WellFormed(g) && Reduced(g.clauses, g.table)
    requires |g.clauses| > 0 && !Bottom(g.clauses)
    ensures WellFormed(h) && h.clauses == g.clauses && |h.table| == |g.table|
    ensures BlankCount(h.table) < BlankCount(g.table)
    ensures Extends(h.table, g.table)
  {
    BranchFacts(g);
    Formula(g.clauses, g.table[Blanks(g.table)[0] := Known(b)])
  }

  /**
   * What solve_complete returns: the table once no clause is left, None on an empty
   * clause, and otherwise the True branch's answer when it has one, else the False branch's.
   */
  function Solution(f: Formula): (r: Option<Table>)
    requires WellFormed(f)
    ensures r.Some? ==> |r.value| == |f.table|
    decreases BlankCount(f.table)
  {
    var g := Simplified(f);
    if |g.clauses| == 0 then Some(g.table)
    else if Bottom(g.clauses) then None
    else
      var first := Solution(Branch(g, true));
      if first.Some? then first else Solution(Branch(g, false))
  }

  /** The answer keeps every value that simplify decided. */
  lemma {:induction false} SolutionExtendsSimplified(f: Formula)
    requires WellFormed(f)
    ensures Solution(f).Some? ==> Extends(Solution(f).value, Simplified(f).table)
    decreases BlankCount(f.table)
  {
    var g := Simplified(f);
    if |g.clauses| > 0 && !Bottom(g.clauses) {
      SimplifiedFixpoint(f);
      FixpointFacts(g);
      var h := Branch(g, true);
      if Solution(h).Some? {
        SimplifiedExtends(h);
        SolutionExtendsSimplified(h);
        ExtendsTransitive(Solution(h).value, Simplified(h).table, h.table);
        ExtendsTransitive(Solution(h).value, h.table, g.table);
      } else {
        h := Branch(g, false);
        SimplifiedExtends(h);
        SolutionExtendsSimplified(h);
        if Solution(h).Some? {
          ExtendsTransitive(Solution(h).value, Simplified(h).table, h.table);
          ExtendsTransitive(Solution(h).value, h.table, g.table);
        }
      }
    }
  }

  /**
   * When every unit clause is over an unassigned variable (true of any reduced input) the
   * answer keeps every value the input table decided.
   */
  lemma SolutionExtends(f: Formula)
    requires WellFormed(f) && UnitsBlank(f)
    ensures Solution(f).Some? ==> Extends(Solution(f).value, f.table)
  {
    SolutionExtendsSimplified(f);
    SimplifiedExtends(f);
    if Solution(f).Some? {
      ExtendsTransitive(Solution(f).value, Simplified(f).table, f.table);
    }
  }

  /** solve_complete is sound: a returned table makes every clause True. */
  lemma SolutionSound(f: Formula)
    requires WellFormed(f)
    ensures Solution(f).Some? ==> EvalFormula(f.clauses, Solution(f).value)
    decreases BlankCount(f.table)
  {
    var g := Simplified(f);
    SolutionExtendsSimplified(f);
    if Solution(f).Some? {
      var r := Solution(f).value;
      if |g.clauses| == 0 {
        SimplifiedSound(f, r);
      } else {
        SimplifiedFixpoint(f);
        FixpointFacts(g);
        var h := Branch(g, true);
        if Solution(h).None? {
          h := Branch(g, false);
        }
        SolutionSound(h);
        SimplifiedSound(f, r);
      }
    }
  }

  /**
   * A table satisfying every clause keeps doing so once a blank variable is decided: a
   * True literal is over a decided variable.
   */
  lemma DecideBlankKeepsModel(cs: seq<Clause>, m: Table, v: nat, b: bool)
    requires ClausesOver(cs, |m|) && v < |m| && m[v] == Blank && EvalFormula(cs, m)
    ensures EvalFormula(cs, m[v := Known(b)])
  {
    ExtendsKeepsFormula(cs, m, m[v := Known(b)]);
  }

  /**
   * solve_complete is complete: when some table keeping the input's decided values makes
   * every clause True, it returns a table.
   */
  lemma {:induction false} SolutionComplete(f: Formula, m: Table)
    requires WellFormed(f) && Extends(m, f.table) && EvalFormula(f.clauses, m)
    ensures Solution(f).Some?
    decreases BlankCount(f.table), 1
  {
    var g := Simplified(f);
    SimplifiedKeepsModels(f, m);
    var m' :| Extends(m', g.table) && EvalFormula(g.clauses, m');
    if |g.clauses| > 0 {
      if Bottom(g.clauses) {
        BottomMeansFalse(g.clauses, m');
      } else {
        BranchComplete(g, m');
      }
    }
  }

  /** The branching step of completeness: a model of the simplified formula survives in one branch. */
  lemma {:induction false} BranchComplete(g: Formula, m: Table)
    requires WellFormed(g) && Reduced(g.clauses, g.table)
    requires |g.clauses| > 0 && !Bottom(g.clauses)
    requires Extends(m, g.table) && EvalFormula(g.clauses, m)
    ensures Solution(Branch(g, true)).Some? || Solution(Branch(g, false)).Some?
    decreases BlankCount(g.table), 0
  {
    BranchFacts(g);
    var v := Blanks(g.table)[0];
    if m[v] == Known(true) {
      SolutionComplete(Branch(g, true), m);
    } else if m[v] == Known(false) {
      SolutionComplete(Branch(g, false), m);
    } else {
      DecideBlankKeepsModel(g.clauses, m, v, true);
      SolutionComplete(Branch(g, true), m[v := Known(true)]);
    }
  }

  /**
   * For an input whose unit clauses are over unassigned variables, solve_complete returns a
   * table exactly when some table keeping the input's values satisfies it.
   */
  lemma SolutionDecides(f: Formula)
    requires WellFormed(f) && UnitsBlank(f)
    ensures Solution(f).Some? <==> exists m :: Extends(m, f.table) && EvalFormula(f.clauses, m)
  {
    if Solution(f).Some? {
      SolutionExtends(f);
      SolutionSound(f);
    }
    if exists m :: Extends(m, f.table) && EvalFormula(f.clauses, m) {
      var m :| Extends(m, f.table) && EvalFormula(f.clauses, m);
      SolutionComplete(f, m);
    }
  }

  /** A branch of a fixed point has no unit clause, so its answer keeps the branch's values. */
  lemma BranchExtends(g: Formula, b: bool)
    requires WellFormed(g) && Reduced(g.clauses, g.table)
    requires |g.clauses| > 0 && !Bottom(g.clauses)
    requires Round(g) == g
    ensures Solution(Branch(g, b)).Some? ==> Extends(Solution(Branch(g, b)).value, Branch(g, b).table)
  {
    FixpointFacts(g);
    SolutionExtends(Branch(g, b));
  }

  /** Past the two tests, solve_complete answers with the True branch when that one finds a table. */
  lemma SolutionTriesTrue(f: Formula)
    requires WellFormed(f)
    requires |Simplified(f).clauses| > 0 && !Bottom(Simplified(f).clauses)
    ensures Solution(Branch(Simplified(f), true)).Some? ==> Solution(f) == Solution(Branch(Simplified(f), true))
  {
  }

  /**
   * True is tried before False: when the True branch is satisfiable, the answer is the True
   * branch's, and it keeps the branch variable True.
   */
  lemma TrueFirst(f: Formula, m: Table)
    requires WellFormed(f)
    requires |Simplified(f).clauses| > 0 && !Bottom(Simplified(f).clauses)
    requires Extends(m, Branch(Simplified(f), true).table) && EvalFormula(Simplified(f).clauses, m)
    ensures Solution(f) == Solution(Branch(Simplified(f), true))
    ensures Solution(f).Some? && Extends(Solution(f).value, Branch(Simplified(f), true).table)
  {
    var g := Simplified(f);
    SolutionComplete(Branch(g, true), m);
    SolutionTriesTrue(f);
    SimplifiedFixpoint(f);
    BranchExtends(g, true);
  }

  /** (x0 or x1) and not x0 from an empty assignment: solve_complete finds a table. */
  lemma SatisfiableExample()
    ensures Solution(Formula([[Lit(0, false), Lit(1, false)], [Lit(0, true)]], [Blank, Blank])).Some?
  {
    var f := Formula([[Lit(0, false), Lit(1, false)], [Lit(0, true)]], [Blank, Blank]);
    var m := [Known(false), Known(true)];
    assert EvalLit(f.clauses[0][1], m) == Known(true);
    assert EvalLit(f.clauses[1][0], m) == Known(true);
    SolutionComplete(f, m);
  }

  /** (x0 or x1) and not x0: x0 occurs in both polarities and not x1 nowhere. */
  lemma SatisfiableOccurrences()
    ensures Occurs([[Lit(0, false), Lit(1, false)], [Lit(0, true)]], Lit(0, false))
    ensures Occurs([[Lit(0, false), Lit(1, false)], [Lit(0, true)]], Lit(0, true))
    ensures !Occurs([[Lit(0, false), Lit(1, false)], [Lit(0, true)]], Lit(1, true))
  {
    var cs := [[Lit(0, false), Lit(1, false)], [Lit(0, true)]];
    assert cs[0][0] == Lit(0, false) && cs[1][0] == Lit(0, true);
    assert Lit(1, true) !in cs[0] && Lit(1, true) !in cs[1];
  }

  /** (x0 or x1) and not x0: x1 is the only pure literal. */
  lemma SatisfiablePure()
    ensures Monos(Formula([[Lit(0, false), Lit(1, false)], [Lit(0, true)]], [Blank, Blank])) == [Lit(1, false)]
  {
    var cs := [[Lit(0, false), Lit(1, false)], [Lit(0, true)]];
    SatisfiableOccurrences();
    assert PureLit(cs, 0) == [];
    assert PureLit(cs, 1) == [Lit(1, false)];
    TwoBlanks();
    assert [0, 1][..1] == [0] && [0][..0] == [];
    assert MonosOf(cs, [0]) == [];
    assert MonosOf(cs, [0, 1]) == [Lit(1, false)];
  }

  /** (x0 or x1) and not x0: not x0 is the only unit literal. */
  lemma SatisfiableUnit()
    ensures Units([[Lit(0, false), Lit(1, false)], [Lit(0, true)]]) == [Lit(0, true)]
  {
    var cs := [[Lit(0, false), Lit(1, false)], [Lit(0, true)]];
    assert cs[..1] == [cs[0]];
    assert cs[..1][..0] == [];
  }

  /** (x0 or x1) and not x0: making x1 and then not x0 True satisfies both clauses. */
  lemma SatisfiableReduced()
    ensures MakeTrue(MakeTrue([Blank, Blank], [Lit(1, false)]), [Lit(0, true)]) == [Known(false), Known(true)]
    ensures ReduceClauses([[Lit(0, false), Lit(1, false)], [Lit(0, true)]], [Known(false), Known(true)]) == []
  {
    var cs := [[Lit(0, false), Lit(1, false)], [Lit(0, true)]];
    var t := [Known(false), Known(true)];
    assert MakeTrue([Blank, Blank], [Lit(1, false)]) == [Blank, Known(true)];
    assert EvalLit(cs[0][1], t) == Known(true) && EvalLit(cs[1][0], t) == Known(true);
    assert ClauseTrue(cs[0], t) && ClauseTrue(cs[1], t);
    assert cs[..1] == [cs[0]];
    assert cs[..0] == [];
  }

  /**
   * (x0 or x1) and not x0 from an empty assignment: x1 is pure and not x0 a unit, so simplify
   * alone answers x0 = False, x1 = True.
   */
  lemma SatisfiableAnswer()
    ensures Solution(Formula([[Lit(0, false), Lit(1, false)], [Lit(0, true)]], [Blank, Blank]))
      == Some([Known(false), Known(true)])
  {
    var f := Formula([[Lit(0, false), Lit(1, false)], [Lit(0, true)]], [Blank, Blank]);
    SatisfiablePure();
    SatisfiableUnit();
    SatisfiableReduced();
    assert Round(f) == Formula([], [Known(false), Known(true)]);
    assert Simplified(f) == Formula([], [Known(false), Known(true)]);
  }

  /** x0 and not x0: solve_complete answers None. */
  lemma UnsatisfiableExample()
    ensures Solution(Formula([[Lit(0, false)], [Lit(0, true)]], [Blank])).None?
  {
    var f := Formula([[Lit(0, false)], [Lit(0, true)]], [Blank]);
    SolutionSound(f);
  }

  /**
   * solve_complete as the source runs it: simplify a copy, test it, and branch on the first
   * blank variable with assign, True first.
   */
  method SolveComplete(formula: Instance) returns (result: Option<Table>)
    requires formula.Valid()
    ensures result == Solution(formula.Value())
    decreases BlankCount(formula.table)
  {
    ghost var f := formula.Value();
    var copy := new Instance(formula.Value());
    Simplify(copy);
    var g := copy.Value();
    assert g == Simplified(f);
    if |copy.clauses| == 0 {
      return Some(copy.table);
    }
    if Bottom(copy.clauses) {
      return None;
    }
    var blanks := GetBlankSymbols(g);
    BranchFacts(g);
    var symbol := Lit(blanks[0], false);
    Assign(copy, symbol, true);
    assert copy.Value() == Branch(g, true);
    result := SolveComplete(copy);
    if result.None? {
      Assign(copy, symbol, false);
      assert copy.Value() == Branch(g, false);
      result := SolveComplete(copy);
    }
  }
}
