/**
 * solve_SAT: dispatch on the method name to the complete tree search or to the random walk.
 */
module Dispatch {
  import opened Outcomes
  import opened Literals
  import opened Formulas
  import opened CompleteSolver
  import opened LocalSearch

  /**
   * solve_SAT. "complete" runs solve_complete, which leaves the formula alone; "incomplete"
   * runs walk_sat, which rewrites the table; any other name answers None. Whatever the
   * method, a returned table makes every clause True. `tossed` and `trace` are walk_sat's:
   * coins tossed per restart and the tables it went through (empty for the other methods).
   */
  method SolveSat(f: Instance, name: string, tosses: nat, restarts: nat,
                  bits: (nat, nat) -> bool, coin: (nat, nat) -> bool, pick: (nat, nat) -> nat)
    returns (r: Result<Option<Table>>, ghost tossed: seq<nat>, ghost trace: seq<Table>)
    requires f.Valid()
    modifies f
    ensures f.Valid() && f.clauses == old(f.clauses)
    ensures r.Ok? && r.value.Some? ==> |r.value.value| == |f.table| && EvalFormula(f.clauses, r.value.value)
    ensures name == "complete" ==> r == Ok(Solution(old(f.Value()))) && f.table == old(f.table)
    ensures name == "incomplete" && r.Ok? ==> (r.value.Some? <==> EvalFormula(f.clauses, f.table))
    ensures name == "incomplete" && r.Raised? ==> Bottom(f.clauses)
    ensures name == "incomplete" ==> |tossed| <= restarts && forall k :: 0 <= k < |tossed| ==> tossed[k] <= tosses
    ensures name == "incomplete" ==> Walk(f.clauses, bits, old(f.table), trace, f.table)
    ensures name == "incomplete" ==>
      WalkEnd(r, f.table) == RestartsFrom(old(f.clauses), old(f.table), tosses, restarts, 0, bits, coin, pick)
    ensures name == "incomplete" && r == Ok(None) ==>
      |tossed| == restarts && forall k :: 0 <= k < |tossed| ==> tossed[k] == tosses
    ensures name != "complete" && name != "incomplete" ==> r == Ok(None) && f.table == old(f.table)
  {
    tossed, trace := [], [];
    if name == "complete" {
      var answer := SolveComplete(f);
      SolutionSound(f.Value());
      return Ok(answer), tossed, trace;
    }
    if name == "incomplete" {
      r, tossed, trace := WalkSat(f, tosses, restarts, bits, coin, pick);
      return;
    }
    return Ok(None), tossed, trace;
  }
}
