/**
 * Variables, literals and the assignment table.
 *
 * The table is a Python dict from variable name to True, False or None whose key
 * order matters (blank symbols are listed in key order), so it is modelled as a
 * sequence: variable `v` is the key at position `v`. A literal is a variable with a
 * polarity; `neg` stands for the `'n'` prefix (see module LiteralNames for the
 * string encoding itself).
 */
module Literals {

  /** A table entry: `Known(b)` for True/False, `Blank` for None. */
  datatype Tri = Known(value: bool) | Blank

  datatype Lit = Lit(v: nat, neg: bool)

  type Table = seq<Tri>

  /** negate: the complementary literal over the same variable. */
  function Negate(l: Lit): (r: Lit)
    ensures r.v == l.v && r != l
  {
    Lit(l.v, !l.neg)
  }

  lemma NegateInvolution(l: Lit)
    ensures Negate(Negate(l)) == l
  {
  }

  /** eval_lit: None when the variable is unassigned, else its value, inverted for a negated literal. */
  function EvalLit(l: Lit, t: Table): (r: Tri)
    requires l.v < |t|
    ensures r == Blank <==> t[l.v] == Blank
    ensures r == Known(true) <==> t[l.v] == Known(!l.neg)
    ensures r == Known(false) <==> t[l.v] == Known(l.neg)
  {
    if l.neg then
      if t[l.v] == Blank then Blank else Known(!t[l.v].value)
    else
      if t[l.v] == Blank then Blank else t[l.v]
  }

  /** Under an assigned variable the two polarities evaluate to opposite booleans. */
  lemma EvalNegate(l: Lit, t: Table)
    requires l.v < |t| && t[l.v] != Blank
    ensures EvalLit(l, t) != Blank && EvalLit(Negate(l), t) == Known(!EvalLit(l, t).value)
  {
  }

  /**
   * assign writes `value` to the literal's variable whatever its polarity, so the literal
   * itself ends up true exactly when `value` differs from its negation flag.
   */
  lemma AssignIgnoresPolarity(t: Table, l: Lit, value: bool)
    requires l.v < |t|
    ensures EvalLit(l, t[l.v := Known(value)]) == Known(value != l.neg)
  {
  }
}
