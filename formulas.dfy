/**
 * Clauses, formulas and their evaluation under a (partial) table.
 *
 * A formula `[clauses, table]` is the value `Formula(clauses, table)`; the same pair,
 * updated in place, is an `Instance`. Every literal must name a key of the table: the
 * source looks variables up with `table[...]`, which raises KeyError otherwise.
 */
module Formulas {
  import opened Literals

  type Clause = seq<Lit>

  datatype Formula = Formula(clauses: seq<Clause>, table: Table)

  predicate ClauseOver(c: Clause, n: nat)
  {
    forall k :: 0 <= k < |c| ==> c[k].v < n
  }

  predicate ClausesOver(cs: seq<Clause>, n: nat)
  {
    forall i :: 0 <= i < |cs| ==> ClauseOver(cs[i], n)
  }

  predicate WellFormed(f: Formula)
  {
    ClausesOver(f.clauses, |f.table|)
  }

  /** No variable is None. */
  predicate Total(t: Table)
  {
    forall v :: 0 <= v < |t| ==> t[v] != Blank
  }

  /** `m` keeps every value `t` has decided and may decide more: the later tables of one search branch. */
  predicate Extends(m: Table, t: Table)
  {
    |m| == |t| && forall v :: 0 <= v < |t| && t[v] != Blank ==> m[v] == t[v]
  }

  lemma ExtendsTransitive(a: Table, b: Table, c: Table)
    requires Extends(a, b) && Extends(b, c)
    ensures Extends(a, c)
  {
  }

  predicate HasTrueLit(c: Clause, t: Table)
    requires ClauseOver(c, |t|)
  {
    exists k :: 0 <= k < |c| && EvalLit(c[k], t) == Known(true)
  }

  /**
   * eval_clause as written. Its third test asks whether any item of `table.items()` is
   * None; the items are (key, value) pairs and never None, so that test always passes and
   * a non-empty clause without a True literal is False even under a partial table.
   */
  function EvalClauseAsWritten(c: Clause, t: Table): (r: bool)
    requires ClauseOver(c, |t|)
    ensures r <==> HasTrueLit(c, t)
  {
    if |c| == 0 then false
    else if HasTrueLit(c, t) then true
    else false
  }

  /**
   * eval_clause as intended: False for the empty clause, True when some literal is True,
   * False when the table is total, None otherwise.
   */
  function EvalClause(c: Clause, t: Table): (r: Tri)
    requires ClauseOver(c, |t|)
    ensures r == Known(true) <==> HasTrueLit(c, t)
    ensures r == Known(false) && |c| > 0 ==> forall k :: 0 <= k < |c| ==> EvalLit(c[k], t) == Known(false)
    ensures r == Blank <==> |c| > 0 && !HasTrueLit(c, t) && !Total(t)
    ensures |c| == 0 ==> r == Known(false)
  {
    if |c| == 0 then Known(false)
    else if HasTrueLit(c, t) then Known(true)
    else if Total(t) then Known(false)
    else Blank
  }

  /** The dead branch of line 37-38: a single literal over an unassigned variable. */
  lemma AsWrittenLosesBlank()
    ensures EvalClauseAsWritten([Lit(0, false)], [Blank]) == false
    ensures EvalClause([Lit(0, false)], [Blank]) == Blank
  {
    assert !HasTrueLit([Lit(0, false)], [Blank]);
    assert [Blank][0] == Blank;
    assert !Total([Blank]);
  }

  /** Every caller tests eval_clause only for truthiness, where both versions agree. */
  lemma {:induction false} EvalClauseTruthiness(c: Clause, t: Table)
    requires ClauseOver(c, |t|)
    ensures (EvalClause(c, t) == Known(true)) == EvalClauseAsWritten(c, t)
    ensures ClauseTrue(c, t) == EvalClauseAsWritten(c, t)
    ensures EvalClause(c, t) != Known(true) ==> forall k :: 0 <= k < |c| ==> EvalLit(c[k], t) != Known(true)
  {
  }

  /** The truthiness of eval_clause, which is all that the callers observe (EvalClauseTruthiness). */
  predicate ClauseTrue(c: Clause, t: Table)
    requires ClauseOver(c, |t|)
  {
    HasTrueLit(c, t)
  }

  /** eval_formula: every clause is True; an empty clause list is True. */
  predicate EvalFormula(cs: seq<Clause>, t: Table)
    requires ClausesOver(cs, |t|)
    ensures |cs| == 0 ==> EvalFormula(cs, t)
  {
    forall i :: 0 <= i < |cs| ==> ClauseTrue(cs[i], t)
  }

  /** bottom: some clause has been reduced to the empty clause. */
  predicate Bottom(cs: seq<Clause>)
    ensures Bottom(cs) ==> |cs| > 0
    ensures Bottom(cs) ==> forall t :: ClausesOver(cs, |t|) ==> !EvalFormula(cs, t)
  {
    exists i :: 0 <= i < |cs| && |cs[i]| == 0
  }

  /** eval_formula holds exactly when every clause has a True literal. */
  lemma EvalFormulaTrueLits(cs: seq<Clause>, t: Table)
    requires ClausesOver(cs, |t|)
    ensures EvalFormula(cs, t) <==> forall i :: 0 <= i < |cs| ==> HasTrueLit(cs[i], t)
  {
  }

  /** A formula holding the empty clause is True under no table, and the empty formula under every one. */
  lemma BottomMeansFalse(cs: seq<Clause>, t: Table)
    requires ClausesOver(cs, |t|)
    ensures Bottom(cs) ==> !EvalFormula(cs, t)
    ensures |cs| == 0 ==> EvalFormula(cs, t)
  {
    if Bottom(cs) {
      var i :| 0 <= i < |cs| && |cs[i]| == 0;
      assert !ClauseTrue(cs[i], t);
    }
  }

  /**
   * bottom checks only for an empty clause, although its comment also speaks of running
   * out of blank symbols: a non-empty formula over a total table is not bottom.
   */
  lemma BottomIgnoresTotalTable()
    ensures !Bottom([[Lit(0, false)]]) && Total([Known(false)])
    ensures !EvalFormula([[Lit(0, false)]], [Known(false)])
  {
    assert !HasTrueLit([Lit(0, false)], [Known(false)]);
    assert !ClauseTrue([[Lit(0, false)]][0], [Known(false)]);
  }

  /** A True clause stays True when the table only decides more variables. */
  lemma ExtendsKeepsTrue(c: Clause, t: Table, m: Table)
    requires ClauseOver(c, |t|) && Extends(m, t)
    ensures ClauseTrue(c, t) ==> ClauseTrue(c, m)
  {
    if ClauseTrue(c, t) {
      var k :| 0 <= k < |c| && EvalLit(c[k], t) == Known(true);
      assert EvalLit(c[k], m) == Known(true);
    }
  }

  lemma ExtendsKeepsFormula(cs: seq<Clause>, t: Table, m: Table)
    requires ClausesOver(cs, |t|) && Extends(m, t)
    ensures EvalFormula(cs, t) ==> EvalFormula(cs, m)
  {
    if EvalFormula(cs, t) {
      forall i | 0 <= i < |cs| ensures ClauseTrue(cs[i], m) {
        ExtendsKeepsTrue(cs[i], t, m);
      }
    }
  }

  /** The formula `[clauses, table]` as a mutable object: the operations below update its two fields in place. */
  class Instance {
    var clauses: seq<Clause>
    var table: Table

    ghost predicate Valid()
      reads this
    {
      ClausesOver(clauses, |table|)
    }

    function Value(): Formula
      reads this
    {
      Formula(clauses, table)
    }

    /** A deep copy of `f`. */
    constructor (f: Formula)
      requires WellFormed(f)
      ensures Valid() && Value() == f
    {
      clauses := f.clauses;
      table := f.table;
    }
  }
}
