/**
 * reduce_clause and reduce_formula: delete the False literals of a clause and the True
 * clauses of a formula, in place and in order.
 */
module Reduction {
  import opened Literals
  import opened Formulas

  /** list.index: the first position holding `x`. */
  function IndexOf<T(==)>(s: seq<T>, x: T): (r: nat)
    requires x in s
    ensures r < |s| && s[r] == x
    ensures forall k :: 0 <= k < r ==> s[k] != x
  {
    if s[0] == x then 0 else 1 + IndexOf(s[1..], x)
  }

  /** The clause with its False literals removed, in their original order. */
  function Shrink(c: Clause, t: Table): (r: Clause)
    requires ClauseOver(c, |t|)
    ensures |r| <= |c| && ClauseOver(r, |t|)
  {
    if |c| == 0 then []
    else
      var last := c[|c| - 1];
      Shrink(c[..|c| - 1], t) + (if EvalLit(last, t) == Known(false) then [] else [last])
  }

  /** Shrink keeps exactly the literals that are not False: nothing else is lost or added. */
  lemma {:induction false} ShrinkMembers(c: Clause, t: Table)
    requires ClauseOver(c, |t|)
    ensures forall l :: l in Shrink(c, t) <==> l in c && EvalLit(l, t) != Known(false)
  {
    if |c| > 0 {
      ShrinkMembers(c[..|c| - 1], t);
      assert c == c[..|c| - 1] + [c[|c| - 1]];
    }
  }

  /** Every literal of the clause evaluates to None. */
  predicate ClauseBlank(c: Clause, t: Table)
    requires ClauseOver(c, |t|)
  {
    forall k :: 0 <= k < |c| ==> EvalLit(c[k], t) == Blank
  }

  /** Every literal of every clause is over an unassigned variable: what a reduction leaves behind. */
  predicate Reduced(cs: seq<Clause>, t: Table)
    requires ClausesOver(cs, |t|)
  {
    forall i :: 0 <= i < |cs| ==> ClauseBlank(cs[i], t)
  }

  /** The clause list after reduce_formula: in order, each clause that is not True, with its False literals removed. */
  function ReduceClauses(cs: seq<Clause>, t: Table): (r: seq<Clause>)
    requires ClausesOver(cs, |t|)
    ensures |r| <= |cs| && ClausesOver(r, |t|)
  {
    if |cs| == 0 then []
    else
      var last := cs[|cs| - 1];
      ReduceClauses(cs[..|cs| - 1], t) + (if ClauseTrue(last, t) then [] else [Shrink(last, t)])
  }

  /**
   * The clauses left by a reduction are exactly the shrunk clauses that were not True,
   * and every literal left in them is over an unassigned variable.
   */
  lemma {:induction false} ReduceClausesMembers(cs: seq<Clause>, t: Table)
    requires ClausesOver(cs, |t|)
    ensures forall c :: c in ReduceClauses(cs, t) <==> exists i :: 0 <= i < |cs| && !ClauseTrue(cs[i], t) && c == Shrink(cs[i], t)
    ensures Reduced(ReduceClauses(cs, t), t)
  {
    if |cs| > 0 {
      var init := cs[..|cs| - 1];
      var last := cs[|cs| - 1];
      ReduceClausesMembers(init, t);
      if !ClauseTrue(last, t) {
        ShrinkNotTrue(last, t);
      }
      var r := ReduceClauses(cs, t);
      forall c ensures c in r <==> exists i :: 0 <= i < |cs| && !ClauseTrue(cs[i], t) && c == Shrink(cs[i], t) {
        if c in r && c !in ReduceClauses(init, t) {
          assert !ClauseTrue(cs[|cs| - 1], t) && c == Shrink(cs[|cs| - 1], t);
        }
        if exists i :: 0 <= i < |cs| && !ClauseTrue(cs[i], t) && c == Shrink(cs[i], t) {
          var i :| 0 <= i < |cs| && !ClauseTrue(cs[i], t) && c == Shrink(cs[i], t);
          if i < |cs| - 1 {
            assert cs[i] == init[i];
          }
        }
      }
    }
  }

  /** A clause with no True literal shrinks to literals that are all None. */
  lemma ShrinkNotTrue(c: Clause, t: Table)
    requires ClauseOver(c, |t|) && !ClauseTrue(c, t)
    ensures ClauseBlank(Shrink(c, t), t)
  {
    var r := Shrink(c, t);
    ShrinkMembers(c, t);
    forall k | 0 <= k < |r| ensures EvalLit(r[k], t) == Blank {
      assert r[k] in c;
      var j :| 0 <= j < |c| && c[j] == r[k];
      assert EvalLit(c[j], t) != Known(true);
    }
  }

  /** A clause without False literals is left as it is. */
  lemma {:induction false} ShrinkKeepsAll(c: Clause, t: Table)
    requires ClauseOver(c, |t|)
    requires forall k :: 0 <= k < |c| ==> EvalLit(c[k], t) != Known(false)
    ensures Shrink(c, t) == c
  {
    if |c| > 0 {
      ShrinkKeepsAll(c[..|c| - 1], t);
      assert c[..|c| - 1] + [c[|c| - 1]] == c;
    }
  }

  /** Reducing a reduced clause list changes nothing. */
  lemma {:induction false} ReduceReduced(cs: seq<Clause>, t: Table)
    requires ClausesOver(cs, |t|) && Reduced(cs, t)
    ensures ReduceClauses(cs, t) == cs
  {
    if |cs| > 0 {
      var last := cs[|cs| - 1];
      ReduceReduced(cs[..|cs| - 1], t);
      assert ClauseBlank(last, t);
      assert !ClauseTrue(last, t);
      ShrinkKeepsAll(last, t);
      assert cs[..|cs| - 1] + [last] == cs;
    }
  }

  /** reduce_formula is idempotent: a second reduction under the same table is a no-op. */
  lemma ReduceIdempotent(cs: seq<Clause>, t: Table)
    requires ClausesOver(cs, |t|)
    ensures ReduceClauses(ReduceClauses(cs, t), t) == ReduceClauses(cs, t)
  {
    ReduceClausesMembers(cs, t);
    ReduceReduced(ReduceClauses(cs, t), t);
  }

  /** Shrinking loses no way of making the clause True under a table that keeps the decided values. */
  lemma ShrinkPreservesTruth(c: Clause, t: Table, m: Table)
    requires ClauseOver(c, |t|) && Extends(m, t)
    ensures ClauseTrue(Shrink(c, t), m) <==> ClauseTrue(c, m)
  {
    var r := Shrink(c, t);
    ShrinkMembers(c, t);
    if ClauseTrue(r, m) {
      var k :| 0 <= k < |r| && EvalLit(r[k], m) == Known(true);
      assert r[k] in c;
      var j :| 0 <= j < |c| && c[j] == r[k];
      assert EvalLit(c[j], m) == Known(true);
    }
    if ClauseTrue(c, m) {
      var j :| 0 <= j < |c| && EvalLit(c[j], m) == Known(true);
      assert EvalLit(c[j], t) != Known(false);
      assert c[j] in r;
      var k :| 0 <= k < |r| && r[k] == c[j];
      assert EvalLit(r[k], m) == Known(true);
    }
  }

  /**
   * A table extending `t` satisfies the reduced clause list exactly when it satisfies the
   * original one: reduction is sound and loses no model.
   */
  lemma ReducePreservesModels(cs: seq<Clause>, t: Table, m: Table)
    requires ClausesOver(cs, |t|) && Extends(m, t)
    ensures EvalFormula(ReduceClauses(cs, t), m) <==> EvalFormula(cs, m)
  {
    var r := ReduceClauses(cs, t);
    ReduceClausesMembers(cs, t);
    if EvalFormula(r, m) {
      forall i | 0 <= i < |cs| ensures ClauseTrue(cs[i], m) {
        if ClauseTrue(cs[i], t) {
          ExtendsKeepsTrue(cs[i], t, m);
        } else {
          assert Shrink(cs[i], t) in r;
          var j :| 0 <= j < |r| && r[j] == Shrink(cs[i], t);
          ShrinkPreservesTruth(cs[i], t, m);
        }
      }
    }
    if EvalFormula(cs, m) {
      forall j | 0 <= j < |r| ensures ClauseTrue(r[j], m) {
        assert r[j] in r;
        var i :| 0 <= i < |cs| && !ClauseTrue(cs[i], t) && r[j] == Shrink(cs[i], t);
        ShrinkPreservesTruth(cs[i], t, m);
      }
    }
  }

  /**
   * reduce_clause, applied to clause `i` of the formula. Like the source it first marks
   * the first position (list.index) of every False literal, then keeps each literal whose
   * first position is unmarked; equal literals evaluate alike, so this is exactly Shrink.
   */
  method ReduceClause(f: Instance, i: nat)
    requires f.Valid() && i < |f.clauses|
    modifies f
    ensures f.Valid() && f.table == old(f.table)
    ensures f.clauses == old(f.clauses)[i := Shrink(old(f.clauses)[i], old(f.table))]
  {
    var clause := f.clauses[i];
    var marked: seq<nat> := [];
    for j := 0 to |clause|
      invariant forall m :: m in marked ==> m < |clause| && EvalLit(clause[m], f.table) == Known(false)
      invariant forall k :: 0 <= k < j && EvalLit(clause[k], f.table) == Known(false) ==> IndexOf(clause, clause[k]) in marked
    {
      if EvalLit(clause[j], f.table) == Known(false) {
        marked := marked + [IndexOf(clause, clause[j])];
      }
    }
    var kept: Clause := [];
    for j := 0 to |clause|
      invariant kept == Shrink(clause[..j], f.table)
    {
      assert IndexOf(clause, clause[j]) in marked <==> EvalLit(clause[j], f.table) == Known(false);
      if IndexOf(clause, clause[j]) !in marked {
        kept := kept + [clause[j]];
      }
      assert clause[..j + 1][..j] == clause[..j];
    }
    assert clause[..|clause|] == clause;
    f.clauses := f.clauses[i := kept];
  }

  /**
   * The first loop of reduce_formula: mark the True clauses and reduce the others in place.
   * The source marks `formula[0].index(clause)`; a True clause is never equal to a clause
   * that is not True, and reduction never makes a clause True, so marking positions has
   * the same effect.
   */
  method MarkAndReduce(f: Instance) returns (marked: set<nat>)
    requires f.Valid()
    modifies f
    ensures f.Valid() && f.table == old(f.table) && |f.clauses| == |old(f.clauses)|
    ensures forall k: nat :: k in marked <==> k < |f.clauses| && ClauseTrue(old(f.clauses)[k], f.table)
    ensures forall k :: 0 <= k < |f.clauses| && k !in marked ==> f.clauses[k] == Shrink(old(f.clauses)[k], f.table)
  {
    ghost var cs := f.clauses;
    marked := {};
    for i := 0 to |f.clauses|
      invariant f.Valid() && f.table == old(f.table) && |f.clauses| == |cs| && ClausesOver(cs, |f.table|)
      invariant forall k: nat :: k in marked <==> k < i && ClauseTrue(cs[k], f.table)
      invariant forall k :: 0 <= k < i && k !in marked ==> f.clauses[k] == Shrink(cs[k], f.table)
      invariant forall k :: i <= k < |cs| ==> f.clauses[k] == cs[k]
    {
      if EvalClause(f.clauses[i], f.table) == Known(true) {
        marked := marked + {i};
      } else {
        ReduceClause(f, i);
      }
    }
  }

  /** reduce_formula: reduce the clauses that are not True, then drop the True ones. */
  method ReduceFormula(f: Instance)
    requires f.Valid()
    modifies f
    ensures f.Valid() && f.table == old(f.table)
    ensures f.clauses == ReduceClauses(old(f.clauses), old(f.table))
  {
    ghost var cs := f.clauses;
    var marked := MarkAndReduce(f);
    var kept: seq<Clause> := [];
    for i := 0 to |f.clauses|
      invariant kept == ReduceClauses(cs[..i], f.table)
    {
      assert cs[..i + 1][..i] == cs[..i];
      if i !in marked {
        kept := kept + [f.clauses[i]];
      }
    }
    assert cs[..|cs|] == cs;
    f.clauses := kept;
  }
}
