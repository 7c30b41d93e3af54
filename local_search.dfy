/**
 * walk_sat and its helpers: a random walk over total assignments that flips one variable
 * of an unsatisfied clause at a time, restarting from a fresh random assignment after a
 * bounded number of coin tosses.
 */
module LocalSearch {
  import opened Outcomes
  import opened Literals
  import opened Formulas
  import opened Reduction

  /** flip_literal: negate the value of the literal's variable, whatever its polarity; `not None` is True. */
  function Flip(t: Table, l: Lit): (r: Table)
    requires l.v < |t|
    ensures |r| == |t| && r[l.v] != Blank
    ensures forall v :: 0 <= v < |t| && v != l.v ==> r[v] == t[v]
  {
    t[l.v := if t[l.v] == Known(true) then Known(false) else Known(true)]
  }

  /** Flipping a decided variable twice restores the table; a blank one becomes True and then False. */
  lemma FlipTwice(t: Table, l: Lit)
    requires l.v < |t|
    ensures t[l.v] != Blank ==> Flip(Flip(t, l), l) == t
    ensures t[l.v] == Blank ==> Flip(t, l)[l.v] == Known(true) && Flip(Flip(t, l), l)[l.v] == Known(false)
  {
    if t[l.v] != Blank {
      assert Flip(Flip(t, l), l)[l.v] == t[l.v];
    }
  }

  /** Flipping a False literal makes it True; flipping keeps a total table total. */
  lemma FlipFalseLit(t: Table, l: Lit)
    requires l.v < |t|
    ensures EvalLit(l, t) == Known(false) ==> EvalLit(l, Flip(t, l)) == Known(true)
    ensures EvalLit(l, t) == Known(true) ==> EvalLit(l, Flip(t, l)) == Known(false)
    ensures Total(t) ==> Total(Flip(t, l))
  {
  }

  /** A literal and its negation flip the same variable. */
  lemma FlipIgnoresPolarity(t: Table, l: Lit)
    requires l.v < |t|
    ensures Flip(t, Negate(l)) == Flip(t, l)
  {
  }

  method FlipLiteral(f: Instance, literal: Lit)
    requires f.Valid() && literal.v < |f.table|
    modifies f
    ensures f.Valid() && f.clauses == old(f.clauses)
    ensures f.table == Flip(old(f.table), literal)
  {
    if f.table[literal.v] == Known(true) {
      f.table := f.table[literal.v := Known(false)];
    } else {
      f.table := f.table[literal.v := Known(true)];
    }
  }

  /** Flipping `l` leaves every clause that was True still True (what get_best_lit looks for). */
  predicate Keeps(cs: seq<Clause>, t: Table, l: Lit)
    requires ClausesOver(cs, |t|) && l.v < |t|
    ensures Keeps(cs, t, l) && EvalFormula(cs, t) ==> EvalFormula(cs, Flip(t, l))
  {
    forall i :: 0 <= i < |cs| && ClauseTrue(cs[i], t) ==> ClauseTrue(cs[i], Flip(t, l))
  }

  /** The number of clauses that are True under `t` and not after flipping `l` (count_unsat_clauses). */
  function BreakCount(cs: seq<Clause>, t: Table, l: Lit): (r: nat)
    requires ClausesOver(cs, |t|) && l.v < |t|
    ensures r <= |cs|
  {
    if |cs| == 0 then 0
    else
      var last := cs[|cs| - 1];
      BreakCount(cs[..|cs| - 1], t, l) + (if ClauseTrue(last, t) && !ClauseTrue(last, Flip(t, l)) then 1 else 0)
  }

  /** A literal breaks no clause exactly when flipping it keeps every True clause True. */
  lemma {:induction false} BreakCountZero(cs: seq<Clause>, t: Table, l: Lit)
    requires ClausesOver(cs, |t|) && l.v < |t|
    ensures BreakCount(cs, t, l) == 0 <==> Keeps(cs, t, l)
  {
    if |cs| > 0 {
      var init := cs[..|cs| - 1];
      BreakCountZero(init, t, l);
      assert forall i :: 0 <= i < |init| ==> init[i] == cs[i];
    }
  }

  /** The number of True clauses. */
  function TrueCount(cs: seq<Clause>, t: Table): (r: nat)
    requires ClausesOver(cs, |t|)
    ensures r <= |cs|
  {
    if |cs| == 0 then 0
    else TrueCount(cs[..|cs| - 1], t) + (if ClauseTrue(cs[|cs| - 1], t) then 1 else 0)
  }

  /** Every clause True under `t` is True under `u`, and one more is: the count of True clauses grows. */
  lemma {:induction false} TrueCountGrows(cs: seq<Clause>, t: Table, u: Table, i: nat)
    requires |t| == |u| && ClausesOver(cs, |t|)
    requires forall j :: 0 <= j < |cs| && ClauseTrue(cs[j], t) ==> ClauseTrue(cs[j], u)
    requires i < |cs| && !ClauseTrue(cs[i], t) && ClauseTrue(cs[i], u)
    ensures TrueCount(cs, t) < TrueCount(cs, u)
  {
    var init := cs[..|cs| - 1];
    assert forall j :: 0 <= j < |init| ==> init[j] == cs[j];
    if i < |cs| - 1 {
      TrueCountGrows(init, t, u, i);
    } else {
      TrueCountKept(init, t, u);
    }
  }

  lemma {:induction false} TrueCountKept(cs: seq<Clause>, t: Table, u: Table)
    requires |t| == |u| && ClausesOver(cs, |t|)
    requires forall j :: 0 <= j < |cs| && ClauseTrue(cs[j], t) ==> ClauseTrue(cs[j], u)
    ensures TrueCount(cs, t) <= TrueCount(cs, u)
  {
    if |cs| > 0 {
      var init := cs[..|cs| - 1];
      assert forall j :: 0 <= j < |init| ==> init[j] == cs[j];
      TrueCountKept(init, t, u);
    }
  }

  /** Under a total table every literal of an unsatisfied clause is False. */
  lemma UnsatAllFalse(c: Clause, t: Table)
    requires ClauseOver(c, |t|) && Total(t) && !ClauseTrue(c, t)
    ensures forall k :: 0 <= k < |c| ==> EvalLit(c[k], t) == Known(false)
  {
  }

  /**
   * One restart of walk_sat: draw the restart's table, then run the inner loop. `flips` is
   * the tables the inner loop went through, from the drawn one on.
   */
  method Restart(f: Instance, tc: nat, restart: nat, bits: (nat, nat) -> bool, coin: (nat, nat) -> bool,
                 pick: (nat, nat) -> nat)
    returns (error: Option<string>, ghost tosses: nat, ghost flips: seq<Table>)
    requires f.Valid()
    modifies f
    ensures f.Valid() && f.clauses == old(f.clauses) && |f.table| == |old(f.table)| && Total(f.table)
    ensures Flips(f.clauses, Draw(bits, restart, |old(f.table)|), flips, f.table)
    ensures TriesEnd(error, f.table, tosses) ==
      TriesFrom(f.clauses, Draw(bits, restart, |old(f.table)|), tc, restart, 0, coin, pick)
  {
    RandomAssignment(f, restart, bits);
    error, tosses, flips := Tries(f, tc, restart, coin, pick);
  }

  /**
   * The greedy step makes progress: under a total table, flipping a literal of an unsatisfied
   * clause that breaks no True clause satisfies that clause and so raises the count of True
   * clauses.
   */
  lemma BestFlipProgress(cs: seq<Clause>, t: Table, i: nat, l: Lit)
    requires ClausesOver(cs, |t|) && Total(t)
    requires i < |cs| && !ClauseTrue(cs[i], t) && l in cs[i] && Keeps(cs, t, l)
    ensures TrueCount(cs, t) < TrueCount(cs, Flip(t, l))
  {
    var k :| 0 <= k < |cs[i]| && cs[i][k] == l;
    UnsatAllFalse(cs[i], t);
    FlipFalseLit(t, l);
    assert ClauseTrue(cs[i], Flip(t, l));
    TrueCountGrows(cs, t, Flip(t, l), i);
  }

  /**
   * get_unsat_clause_index: the first clause that is not True, found again with list.index,
   * which lands on the same position because an equal earlier clause would not be True either;
   * None (the implicit return) when every clause is True.
   */
  method GetUnsatClauseIndex(f: Formula) returns (r: Option<nat>)
    requires WellFormed(f)
    ensures r.None? <==> EvalFormula(f.clauses, f.table)
    ensures r.Some? ==> r.value < |f.clauses| && !ClauseTrue(f.clauses[r.value], f.table)
    ensures r.Some? ==> forall j :: 0 <= j < r.value ==> ClauseTrue(f.clauses[j], f.table)
    ensures r.Some? ==> r.value == FirstUnsatIndex(f.clauses, f.table)
  {
    for i := 0 to |f.clauses|
      invariant forall j :: 0 <= j < i ==> ClauseTrue(f.clauses[j], f.table)
    {
      var clause := f.clauses[i];
      if EvalClause(clause, f.table) != Known(true) {
        var index := IndexOf(f.clauses, clause);
        assert index == i;
        FirstUnsatUnique(f.clauses, f.table, i, FirstUnsatIndex(f.clauses, f.table));
        return Some(index);
      }
    }
    return None;
  }

  /** The truth of every clause under `t`, by position: the `clause_vals` lookup table. */
  method ClauseValues(cs: seq<Clause>, t: Table) returns (vals: seq<bool>)
    requires ClausesOver(cs, |t|)
    ensures |vals| == |cs| && forall i :: 0 <= i < |cs| ==> vals[i] == ClauseTrue(cs[i], t)
  {
    vals := [];
    for i := 0 to |cs|
      invariant |vals| == i && forall j :: 0 <= j < i ==> vals[j] == ClauseTrue(cs[j], t)
    {
      vals := vals + [EvalClause(cs[i], t) == Known(true)];
    }
  }

  /**
   * get_best_lit: the first literal of the clause at `index` whose flip leaves every True
   * clause True, or None when there is none.
   */
  method GetBestLit(f: Formula, index: nat) returns (r: Option<Lit>)
    requires WellFormed(f) && index < |f.clauses|
    ensures r.None? <==> forall k :: 0 <= k < |f.clauses[index]| ==> !Keeps(f.clauses, f.table, f.clauses[index][k])
    ensures r.Some? ==> exists k :: (0 <= k < |f.clauses[index]| && f.clauses[index][k] == r.value &&
      Keeps(f.clauses, f.table, r.value) &&
      forall j :: 0 <= j < k ==> !Keeps(f.clauses, f.table, f.clauses[index][j]))
    ensures r == FirstKeeping(f.clauses, f.table, f.clauses[index], 0)
  {
    var cs, clause := f.clauses, f.clauses[index];
    var vals := ClauseValues(cs, f.table);
    for k := 0 to |clause|
      invariant FirstKeeping(cs, f.table, clause, k) == FirstKeeping(cs, f.table, clause, 0)
    {
      var literal := clause[k];
      var flipped := Flip(f.table, literal);
      var after := ClauseValues(cs, flipped);
      if !exists c :: 0 <= c < |cs| && vals[c] && !after[c] {
        FirstKeepingFacts(cs, f.table, clause, 0);
        return Some(literal);
      }
    }
    FirstKeepingFacts(cs, f.table, clause, 0);
    return None;
  }

  /** count_unsat_clauses: how many True clauses flipping `literal` would make not True. */
  method CountUnsatClauses(f: Formula, literal: Lit) returns (counter: nat)
    requires WellFormed(f) && literal.v < |f.table|
    ensures counter == BreakCount(f.clauses, f.table, literal)
  {
    var cs := f.clauses;
    var vals := ClauseValues(cs, f.table);
    var after := ClauseValues(cs, Flip(f.table, literal));
    counter := 0;
    for i := 0 to |cs|
      invariant counter == BreakCount(cs[..i], f.table, literal)
    {
      assert cs[..i + 1][..i] == cs[..i];
      if !after[i] && vals[i] {
        counter := counter + 1;
      }
    }
    assert cs[..|cs|] == cs;
  }

  /**
   * Position `k` of `clause` holds a literal breaking the fewest True clauses, and no earlier
   * position does as well: the one `min(counts, key=counts.get)` returns.
   */
  predicate LeastAt(cs: seq<Clause>, t: Table, clause: Clause, k: int)
    requires ClausesOver(cs, |t|) && ClauseOver(clause, |t|)
  {
    0 <= k < |clause| &&
    (forall j :: 0 <= j < |clause| ==> BreakCount(cs, t, clause[k]) <= BreakCount(cs, t, clause[j])) &&
    forall j :: 0 <= j < k ==> BreakCount(cs, t, clause[k]) < BreakCount(cs, t, clause[j])
  }

  /**
   * The coin's greedy move: `min(counts, key=counts.get)` over the clause's literals, the first
   * literal (in clause order) with the least break count; `min` of an empty dict raises.
   */
  method LeastBreakingLit(f: Formula, index: nat) returns (r: Result<Lit>)
    requires WellFormed(f) && index < |f.clauses|
    ensures r.Raised? <==> |f.clauses[index]| == 0
    ensures r.Raised? ==> r.error == "ValueError: min() arg is an empty sequence"
    ensures r.Ok? ==> exists k :: LeastAt(f.clauses, f.table, f.clauses[index], k) && f.clauses[index][k] == r.value
    ensures r.Ok? ==> r.value == f.clauses[index][LeastIndex(Breaks(f.clauses, f.table, f.clauses[index]), |f.clauses[index]|)]
  {
    var cs, t, clause := f.clauses, f.table, f.clauses[index];
    if |clause| == 0 {
      return Raised("ValueError: min() arg is an empty sequence");
    }
    ghost var counts := Breaks(cs, t, clause);
    var best := 0;
    var least := CountUnsatClauses(f, clause[0]);
    for k := 1 to |clause|
      invariant best == LeastIndex(counts, k) && least == counts[best]
    {
      var count := CountUnsatClauses(f, clause[k]);
      if count < least {
        best, least := k, count;
      }
    }
    assert LeastAt(cs, t, clause, best);
    return Ok(clause[best]);
  }

  /** The table a restart draws: variable v gets `bits(restart, v)`. */
  function Draw(bits: (nat, nat) -> bool, restart: nat, n: nat): (r: Table)
    ensures |r| == n && Total(r)
    ensures forall v :: 0 <= v < n ==> r[v] == Known(bits(restart, v))
  {
    seq(n, (v: int) requires 0 <= v => Known(bits(restart, v)))
  }

  /** Clause `i` is the first one that is not True: the clause get_unsat_clause_index picks. */
  predicate FirstUnsat(cs: seq<Clause>, t: Table, i: nat)
    requires ClausesOver(cs, |t|)
    ensures FirstUnsat(cs, t, i) ==> !EvalFormula(cs, t)
  {
    i < |cs| && !ClauseTrue(cs[i], t) && forall j :: 0 <= j < i ==> ClauseTrue(cs[j], t)
  }

  /** A move of walk_sat's inner loop: flip some literal of the first clause that is not True. */
  ghost predicate FlipStep(cs: seq<Clause>, t: Table, u: Table)
    requires ClausesOver(cs, |t|)
  {
    exists i: nat, k :: i < |cs| && 0 <= k < |cs[i]| && FirstUnsat(cs, t, i) && u == Flip(t, cs[i][k])
  }

  /** A move of walk_sat: a restart's fresh draw, or a flip. */
  ghost predicate WalkStep(cs: seq<Clause>, bits: (nat, nat) -> bool, t: Table, u: Table)
    requires ClausesOver(cs, |t|)
  {
    (exists restart: nat :: u == Draw(bits, restart, |t|)) || FlipStep(cs, t, u)
  }

  /** `trace` goes from `t` to `u` through tables of one length, each move a flip. */
  ghost predicate Flips(cs: seq<Clause>, t: Table, trace: seq<Table>, u: Table)
    requires ClausesOver(cs, |t|)
  {
    |trace| > 0 && trace[0] == t && trace[|trace| - 1] == u &&
    (forall s :: 0 <= s < |trace| ==> |trace[s]| == |t|) &&
    forall s :: 0 <= s < |trace| - 1 ==> FlipStep(cs, trace[s], trace[s + 1])
  }

  /** `trace` goes from `t` to `u` through tables of one length, each move a draw or a flip. */
  ghost predicate Walk(cs: seq<Clause>, bits: (nat, nat) -> bool, t: Table, trace: seq<Table>, u: Table)
    requires ClausesOver(cs, |t|)
  {
    |trace| > 0 && trace[0] == t && trace[|trace| - 1] == u &&
    (forall s :: 0 <= s < |trace| ==> |trace[s]| == |t|) &&
    forall s :: 0 <= s < |trace| - 1 ==> WalkStep(cs, bits, trace[s], trace[s + 1])
  }

  /** A flip trace extended by one more flip. */
  lemma FlipsExtend(cs: seq<Clause>, t: Table, trace: seq<Table>, u: Table, w: Table)
    requires ClausesOver(cs, |t|) && Flips(cs, t, trace, u) && |w| == |t| && FlipStep(cs, u, w)
    ensures Flips(cs, t, trace + [w], w)
  {
    var trace' := trace + [w];
    forall s | 0 <= s < |trace'| - 1 ensures FlipStep(cs, trace'[s], trace'[s + 1]) {
      if s < |trace| - 1 {
        assert trace'[s] == trace[s] && trace'[s + 1] == trace[s + 1];
      }
    }
  }

  /** A walk followed by a fresh draw. */
  lemma WalkDraw(cs: seq<Clause>, bits: (nat, nat) -> bool, t: Table, trace: seq<Table>, u: Table, restart: nat)
    requires ClausesOver(cs, |t|) && Walk(cs, bits, t, trace, u)
    ensures Walk(cs, bits, t, trace + [Draw(bits, restart, |t|)], Draw(bits, restart, |t|))
  {
    var w := Draw(bits, restart, |t|);
    var trace' := trace + [w];
    forall s | 0 <= s < |trace'| - 1 ensures WalkStep(cs, bits, trace'[s], trace'[s + 1]) {
      if s < |trace| - 1 {
        assert trace'[s] == trace[s] && trace'[s + 1] == trace[s + 1];
      } else {
        assert trace'[s + 1] == Draw(bits, restart, |trace'[s]|);
      }
    }
  }

  /** A walk followed by a run of flips from where it ended. */
  lemma WalkThenFlips(cs: seq<Clause>, bits: (nat, nat) -> bool, t: Table, trace: seq<Table>, u: Table,
                      flips: seq<Table>, w: Table)
    requires ClausesOver(cs, |t|) && Walk(cs, bits, t, trace, u) && Flips(cs, u, flips, w)
    ensures Walk(cs, bits, t, trace + flips[1..], w)
  {
    var trace' := trace + flips[1..];
    forall s | 0 <= s < |trace'| ensures |trace'[s]| == |t| {
      if s >= |trace| {
        assert trace'[s] == flips[s - |trace| + 1];
      }
    }
    forall s | 0 <= s < |trace'| - 1 ensures WalkStep(cs, bits, trace'[s], trace'[s + 1]) {
      if s < |trace| - 1 {
        assert trace'[s] == trace[s] && trace'[s + 1] == trace[s + 1];
      } else {
        var m := s - |trace| + 1;
        assert trace'[s] == flips[m] && trace'[s + 1] == flips[m + 1];
        assert FlipStep(cs, flips[m], flips[m + 1]);
      }
    }
  }

  /**
   * The first literal of `c`, from position `k` on, whose flip keeps every True clause True:
   * what get_best_lit returns when it starts at `k`.
   */
  function FirstKeeping(cs: seq<Clause>, t: Table, c: Clause, k: nat): (r: Option<Lit>)
    requires ClausesOver(cs, |t|) && ClauseOver(c, |t|) && k <= |c|
    ensures r.Some? ==> r.value in c[k..]
    decreases |c| - k
  {
    if k == |c| then None
    else if Keeps(cs, t, c[k]) then Some(c[k])
    else FirstKeeping(cs, t, c, k + 1)
  }

  /** FirstKeeping is None exactly when no literal from `k` on keeps every True clause, and otherwise the first that does. */
  lemma {:induction false} FirstKeepingFacts(cs: seq<Clause>, t: Table, c: Clause, k: nat)
    requires ClausesOver(cs, |t|) && ClauseOver(c, |t|) && k <= |c|
    ensures var r := FirstKeeping(cs, t, c, k);
      (r.None? <==> forall j :: k <= j < |c| ==> !Keeps(cs, t, c[j])) &&
      (r.Some? ==> exists j :: (k <= j < |c| && c[j] == r.value && Keeps(cs, t, c[j]) &&
        forall i :: k <= i < j ==> !Keeps(cs, t, c[i])))
    decreases |c| - k
  {
    if k < |c| && !Keeps(cs, t, c[k]) {
      FirstKeepingFacts(cs, t, c, k + 1);
      var r := FirstKeeping(cs, t, c, k + 1);
      if r.Some? {
        var j :| k + 1 <= j < |c| && c[j] == r.value && Keeps(cs, t, c[j]) &&
          forall i :: k + 1 <= i < j ==> !Keeps(cs, t, c[i]);
        assert forall i :: k <= i < j ==> !Keeps(cs, t, c[i]);
      }
    }
  }

  /** The break count of every literal of `c`, in order: the key `min(counts, key=counts.get)` compares. */
  function Breaks(cs: seq<Clause>, t: Table, c: Clause): (r: seq<nat>)
    requires ClausesOver(cs, |t|) && ClauseOver(c, |t|)
    ensures |r| == |c| && forall j :: 0 <= j < |c| ==> r[j] == BreakCount(cs, t, c[j])
  {
    seq(|c|, j requires 0 <= j < |c| => BreakCount(cs, t, c[j]))
  }

  /**
   * The position `min` picks among the first `n` counts of `w`: the least count, the earliest
   * position on a tie.
   */
  function LeastIndex(w: seq<nat>, n: nat): (r: nat)
    requires 0 < n <= |w|
    ensures r < n
    ensures forall j :: 0 <= j < n ==> w[r] <= w[j]
    ensures forall j :: 0 <= j < r ==> w[r] < w[j]
  {
    if n == 1 then 0
    else
      var b := LeastIndex(w, n - 1);
      if w[n - 1] < w[b] then n - 1 else b
  }

  /** The position get_unsat_clause_index returns when some clause is not True. */
  function FirstUnsatIndex(cs: seq<Clause>, t: Table): (r: nat)
    requires ClausesOver(cs, |t|) && !EvalFormula(cs, t)
    ensures FirstUnsat(cs, t, r)
  {
    var init := cs[..|cs| - 1];
    assert forall j :: 0 <= j < |init| ==> init[j] == cs[j];
    if !EvalFormula(init, t) then FirstUnsatIndex(init, t) else |cs| - 1
  }

  /** Only one clause is the first that is not True. */
  lemma FirstUnsatUnique(cs: seq<Clause>, t: Table, i: nat, j: nat)
    requires ClausesOver(cs, |t|) && FirstUnsat(cs, t, i) && FirstUnsat(cs, t, j)
    ensures i == j
  {
  }

  /**
   * One move of walk_sat's inner loop on clause `index`: the literal it flips, or the error
   * it raises, and whether it tossed coin number `toss`. A coin is tossed exactly when no
   * literal keeps every True clause True; heads takes the literal breaking the fewest True
   * clauses, tails the `pick`ed one.
   */
  function Move(cs: seq<Clause>, t: Table, index: nat, restart: nat, toss: nat,
                coin: (nat, nat) -> bool, pick: (nat, nat) -> nat): (r: (Result<Lit>, bool))
    requires ClausesOver(cs, |t|) && index < |cs|
    ensures r.0.Ok? ==> r.0.value in cs[index]
    ensures r.0.Raised? <==> |cs[index]| == 0
  {
    var c := cs[index];
    var best := FirstKeeping(cs, t, c, 0);
    if best.Some? then
      assert c[0..] == c;
      (Ok(best.value), false)
    else if |c| == 0 then
      (Raised(if coin(restart, toss) then "ValueError: min() arg is an empty sequence"
              else "IndexError: Cannot choose from an empty sequence"), true)
    else if coin(restart, toss) then (Ok(c[LeastIndex(Breaks(cs, t, c), |c|)]), true)
    else (Ok(c[pick(restart, toss) % |c|]), true)
  }

  /**
   * What a Move does: it tosses a coin exactly when no literal of the clause keeps every True
   * clause True; without a toss it flips the first literal that does; on heads a literal
   * breaking the fewest True clauses, the first such; on tails the `pick`ed one.
   */
  lemma MoveFacts(cs: seq<Clause>, t: Table, index: nat, restart: nat, toss: nat,
                  coin: (nat, nat) -> bool, pick: (nat, nat) -> nat)
    requires ClausesOver(cs, |t|) && index < |cs|
    ensures var r := Move(cs, t, index, restart, toss, coin, pick);
      (r.1 <==> forall k :: 0 <= k < |cs[index]| ==> !Keeps(cs, t, cs[index][k])) &&
      (!r.1 ==> r.0.Ok? && exists k :: (0 <= k < |cs[index]| && cs[index][k] == r.0.value &&
        Keeps(cs, t, cs[index][k]) && forall j :: 0 <= j < k ==> !Keeps(cs, t, cs[index][j]))) &&
      (r.1 && r.0.Ok? && coin(restart, toss) ==>
        exists k :: LeastAt(cs, t, cs[index], k) && cs[index][k] == r.0.value) &&
      (r.1 && r.0.Ok? && !coin(restart, toss) ==> r.0.value == cs[index][pick(restart, toss) % |cs[index]|])
  {
    var c := cs[index];
    FirstKeepingFacts(cs, t, c, 0);
    if |c| > 0 {
      LeastIndexAt(cs, t, c);
    }
  }

  /** The position LeastIndex picks among a clause's break counts is where LeastAt holds. */
  lemma LeastIndexAt(cs: seq<Clause>, t: Table, c: Clause)
    requires ClausesOver(cs, |t|) && ClauseOver(c, |t|) && 0 < |c|
    ensures LeastAt(cs, t, c, LeastIndex(Breaks(cs, t, c), |c|))
  {
    var w := Breaks(cs, t, c);
    var r := LeastIndex(w, |c|);
    assert forall j :: 0 <= j < |c| ==> w[r] <= w[j];
  }

  /** A move that tosses no coin, from the first clause that is not True, raises the count of True clauses. */
  lemma MoveProgress(cs: seq<Clause>, t: Table, index: nat, restart: nat, toss: nat,
                     coin: (nat, nat) -> bool, pick: (nat, nat) -> nat)
    requires ClausesOver(cs, |t|) && Total(t) && index < |cs| && FirstUnsat(cs, t, index)
    ensures var m := Move(cs, t, index, restart, toss, coin, pick);
      !m.1 ==> m.0.Ok? && TrueCount(cs, t) < TrueCount(cs, Flip(t, m.0.value))
  {
    var m := Move(cs, t, index, restart, toss, coin, pick);
    MoveFacts(cs, t, index, restart, toss, coin, pick);
    if !m.1 {
      var k :| 0 <= k < |cs[index]| && cs[index][k] == m.0.value && Keeps(cs, t, cs[index][k]);
      BestFlipProgress(cs, t, index, m.0.value);
    }
  }

  /** How a restart's inner loop ends: the error it raised, if any, its table and the coins tossed. */
  datatype TriesEnd = TriesEnd(error: Option<string>, table: Table, tosses: nat)

  /**
   * walk_sat's inner loop for restart `restart`, from table `t` with `count` coins tossed:
   * stop when every clause is True or `tc` coins were tossed, otherwise make the Move on the
   * first clause that is not True and go on from the flipped table.
   */
  function TriesFrom(cs: seq<Clause>, t: Table, tc: nat, restart: nat, count: nat,
                     coin: (nat, nat) -> bool, pick: (nat, nat) -> nat): (r: TriesEnd)
    requires ClausesOver(cs, |t|) && Total(t) && count <= tc
    ensures |r.table| == |t| && Total(r.table) && count <= r.tosses <= tc
    ensures r.error.Some? ==> Bottom(cs)
    ensures r.error.None? ==> EvalFormula(cs, r.table) || r.tosses == tc
    decreases tc - count, |cs| - TrueCount(cs, t)
  {
    if EvalFormula(cs, t) || count == tc then TriesEnd(None, t, count)
    else
      var index := FirstUnsatIndex(cs, t);
      var m := Move(cs, t, index, restart, count + 1, coin, pick);
      var count' := if m.1 then count + 1 else count;
      if m.0.Raised? then
        assert |cs[index]| == 0;
        TriesEnd(Some(m.0.error), t, count')
      else
        MoveProgress(cs, t, index, restart, count + 1, coin, pick);
        FlipFalseLit(t, m.0.value);
        TriesFrom(cs, Flip(t, m.0.value), tc, restart, count', coin, pick)
  }

  /** How walk_sat ends: its answer and the table it leaves. */
  datatype WalkEnd = WalkEnd(result: Result<Option<Table>>, table: Table)

  /**
   * walk_sat's outer loop after `restarts` restarts, at table `t`: stop when every clause is
   * True or `tr` restarts were made; otherwise restart from the next Draw and run TriesFrom,
   * ending on its error. The answer is the table when it satisfies every clause.
   */
  function RestartsFrom(cs: seq<Clause>, t: Table, tc: nat, tr: nat, restarts: nat, bits: (nat, nat) -> bool,
                        coin: (nat, nat) -> bool, pick: (nat, nat) -> nat): (r: WalkEnd)
    requires ClausesOver(cs, |t|) && restarts <= tr
    ensures |r.table| == |t|
    ensures r.result.Ok? ==> (r.result.value.Some? <==> EvalFormula(cs, r.table))
    ensures r.result.Ok? && r.result.value.Some? ==> r.result.value.value == r.table
    ensures r.result.Raised? ==> Bottom(cs)
    ensures EvalFormula(cs, t) ==> r == WalkEnd(Ok(Some(t)), t)
    ensures restarts < tr && !EvalFormula(cs, t) ==> Total(r.table)
    decreases tr - restarts
  {
    if EvalFormula(cs, t) || restarts == tr then WalkEnd(Ok(if EvalFormula(cs, t) then Some(t) else None), t)
    else
      var leg := TriesFrom(cs, Draw(bits, restarts + 1, |t|), tc, restarts + 1, 0, coin, pick);
      if leg.error.Some? then WalkEnd(Raised(leg.error.value), leg.table)
      else RestartsFrom(cs, leg.table, tc, tr, restarts + 1, bits, coin, pick)
  }

  /** The restart's random assignment: every variable gets the bit `bits` draws for it. */
  method RandomAssignment(f: Instance, restart: nat, bits: (nat, nat) -> bool)
    requires f.Valid()
    modifies f
    ensures f.Valid() && f.clauses == old(f.clauses)
    ensures f.table == Draw(bits, restart, |old(f.table)|)
  {
    for v := 0 to |f.table|
      invariant f.Valid() && f.clauses == old(f.clauses) && |f.table| == |old(f.table)|
      invariant forall w :: 0 <= w < v ==> f.table[w] == Known(bits(restart, w))
    {
      f.table := f.table[v := Known(bits(restart, v))];
    }
  }

  /**
   * One move of walk_sat's inner loop on the first clause that is not True, `index`: the first
   * literal that breaks no True clause, with no coin tossed; failing one, toss coin number
   * `toss` and take the literal breaking the fewest True clauses on heads, a random one on
   * tails. An empty clause raises, from `min` or from random.choice.
   */
  method ChooseLiteral(f: Formula, index: nat, restart: nat, toss: nat,
                       coin: (nat, nat) -> bool, pick: (nat, nat) -> nat)
    returns (r: Result<Lit>, tossed: bool)
    requires WellFormed(f) && Total(f.table) && FirstUnsat(f.clauses, f.table, index)
    ensures r.Ok? ==> r.value in f.clauses[index]
    ensures r.Raised? <==> |f.clauses[index]| == 0
    ensures !tossed ==> r.Ok? && TrueCount(f.clauses, f.table) < TrueCount(f.clauses, Flip(f.table, r.value))
    ensures tossed && r.Ok? && coin(restart, toss) ==>
      exists k :: LeastAt(f.clauses, f.table, f.clauses[index], k) && f.clauses[index][k] == r.value
    ensures (r, tossed) == Move(f.clauses, f.table, index, restart, toss, coin, pick)
  {
    var bestLit := GetBestLit(f, index);
    if bestLit.Some? {
      assert bestLit.value in f.clauses[index];
      BestFlipProgress(f.clauses, f.table, index, bestLit.value);
      return Ok(bestLit.value), false;
    }
    if coin(restart, toss) {
      r := LeastBreakingLit(f, index);
      return r, true;
    }
    var literals := f.clauses[index];
    if |literals| == 0 {
      return Raised("IndexError: Cannot choose from an empty sequence"), true;
    }
    return Ok(literals[pick(restart, toss) % |literals|]), true;
  }

  /**
   * One pass of walk_sat's inner loop body, with `count` coins tossed so far: find the first
   * clause that is not True and flip the literal ChooseLiteral picks, or report its error.
   * Either way the rest of the loop, TriesFrom, ends as it would have from the old table.
   */
  method Step(f: Instance, tc: nat, restart: nat, count: nat, coin: (nat, nat) -> bool, pick: (nat, nat) -> nat)
    returns (error: Option<string>, next: nat)
    requires f.Valid() && Total(f.table) && !EvalFormula(f.clauses, f.table) && count < tc
    modifies f
    ensures f.Valid() && f.clauses == old(f.clauses) && Total(f.table) && |f.table| == |old(f.table)|
    ensures next == count || next == count + 1
    ensures error.Some? ==> f.table == old(f.table) && Bottom(f.clauses)
    ensures error.Some? ==> TriesFrom(f.clauses, old(f.table), tc, restart, count, coin, pick) == TriesEnd(error, f.table, next)
    ensures error.None? ==> FlipStep(f.clauses, old(f.table), f.table)
    ensures error.None? ==> TriesFrom(f.clauses, f.table, tc, restart, next, coin, pick) ==
                            TriesFrom(f.clauses, old(f.table), tc, restart, count, coin, pick)
    ensures error.None? && next == count ==> TrueCount(f.clauses, old(f.table)) < TrueCount(f.clauses, f.table)
  {
    ghost var cs := f.clauses;
    var found := GetUnsatClauseIndex(f.Value());
    var clause := found.value;
    var choice, tossed := ChooseLiteral(f.Value(), clause, restart, count + 1, coin, pick);
    next := if tossed then count + 1 else count;
    if choice.Raised? {
      return Some(choice.error), next;
    }
    var literal := choice.value;
    ghost var k :| 0 <= k < |cs[clause]| && cs[clause][k] == literal;
    FlipLiteral(f, literal);
    assert FirstUnsat(cs, old(f.table), clause) && f.table == Flip(old(f.table), cs[clause][k]);
    return None, next;
  }

  /**
   * The inner loop of walk_sat for one restart: while some clause is not True and fewer than
   * `tc` coins were tossed, take a Step. `tosses` is the number of coins tossed; `trace` is
   * the tables the loop went through. An empty chosen clause raises.
   */
  method Tries(f: Instance, tc: nat, restart: nat, coin: (nat, nat) -> bool, pick: (nat, nat) -> nat)
    returns (error: Option<string>, ghost tosses: nat, ghost trace: seq<Table>)
    requires f.Valid() && Total(f.table)
    modifies f
    ensures f.Valid() && f.clauses == old(f.clauses) && Total(f.table) && tosses <= tc
    ensures error.Some? ==> Bottom(f.clauses)
    ensures error.None? ==> EvalFormula(f.clauses, f.table) || tosses == tc
    ensures Flips(f.clauses, old(f.table), trace, f.table)
    ensures TriesEnd(error, f.table, tosses) == TriesFrom(f.clauses, old(f.table), tc, restart, 0, coin, pick)
  {
    ghost var cs := f.clauses;
    trace := [f.table];
    var count := 0;
    while !EvalFormula(f.clauses, f.table) && count < tc
      invariant f.Valid() && f.clauses == cs && Total(f.table) && |f.table| == |old(f.table)|
      invariant count <= tc && Flips(cs, old(f.table), trace, f.table)
      invariant TriesFrom(cs, f.table, tc, restart, count, coin, pick) == TriesFrom(cs, old(f.table), tc, restart, 0, coin, pick)
      decreases tc - count, |cs| - TrueCount(cs, f.table)
    {
      ghost var before := f.table;
      error, count := Step(f, tc, restart, count, coin, pick);
      if error.Some? {
        return error, count, trace;
      }
      FlipsExtend(cs, old(f.table), trace, before, f.table);
      trace := trace + [f.table];
    }
    return None, count, trace;
  }

  /**
   * walk_sat with tc tosses per restart and at most tr restarts. The draws are parameters:
   * `bits(restart, v)` is the random value of variable v, `coin(restart, toss)` the outcome of
   * the biased coin, and `pick(restart, toss)` the random.choice position (taken modulo the
   * clause length). The formula's table is updated in place; the result is the table when it
   * satisfies every clause and None otherwise, or an error when a chosen clause is empty.
   * `tossed` records, per restart made, how many coins that restart tossed, and `trace` the
   * tables the walk went through, from the table it was given to the one it leaves. The
   * answer and the table it leaves are those of RestartsFrom, the same loops on values.
   */
  method WalkSat(f: Instance, tc: nat, tr: nat, bits: (nat, nat) -> bool, coin: (nat, nat) -> bool,
                 pick: (nat, nat) -> nat)
    returns (r: Result<Option<Table>>, ghost tossed: seq<nat>, ghost trace: seq<Table>)
    requires f.Valid()
    modifies f
    ensures |tossed| <= tr && forall k :: 0 <= k < |tossed| ==> tossed[k] <= tc
    ensures f.Valid() && f.clauses == old(f.clauses) && |f.table| == |old(f.table)|
    ensures Walk(f.clauses, bits, old(f.table), trace, f.table)
    ensures r.Ok? ==> (r.value.Some? <==> EvalFormula(f.clauses, f.table))
    ensures r.Ok? && r.value.Some? ==> r.value.value == f.table
    ensures r.Raised? ==> Bottom(f.clauses)
    ensures EvalFormula(old(f.clauses), old(f.table)) ==> f.table == old(f.table) && r == Ok(Some(f.table))
    ensures tr == 0 ==> f.table == old(f.table)
    ensures tr > 0 && !EvalFormula(old(f.clauses), old(f.table)) ==> Total(f.table)
    ensures r == Ok(None) ==> |tossed| == tr && forall k :: 0 <= k < |tossed| ==> tossed[k] == tc
    ensures WalkEnd(r, f.table) == RestartsFrom(old(f.clauses), old(f.table), tc, tr, 0, bits, coin, pick)
  {
    ghost var cs := f.clauses;
    tossed := [];
    trace := [f.table];
    var restarts := 0;
    while !EvalFormula(f.clauses, f.table) && restarts < tr
      invariant f.Valid() && f.clauses == cs && |f.table| == |old(f.table)|
      invariant restarts <= tr && |tossed| == restarts
      invariant forall k :: 0 <= k < |tossed| ==> tossed[k] <= tc
      invariant Walk(cs, bits, old(f.table), trace, f.table)
      invariant !EvalFormula(cs, f.table) ==> forall k :: 0 <= k < |tossed| ==> tossed[k] == tc
      invariant RestartsFrom(cs, f.table, tc, tr, restarts, bits, coin, pick) ==
        RestartsFrom(cs, old(f.table), tc, tr, 0, bits, coin, pick)
      decreases tr - restarts
    {
      restarts := restarts + 1;
      ghost var drawn := Draw(bits, restarts, |f.table|);
      WalkDraw(cs, bits, old(f.table), trace, trace[|trace| - 1], restarts);
      trace := trace + [drawn];
      var error;
      ghost var tosses, flips;
      error, tosses, flips := Restart(f, tc, restarts, bits, coin, pick);
      WalkThenFlips(cs, bits, old(f.table), trace, drawn, flips, f.table);
      trace := trace + flips[1..];
      tossed := tossed + [tosses];
      if error.Some? {
        return Raised(error.value), tossed, trace;
      }
    }
    if EvalFormula(f.clauses, f.table) {
      return Ok(Some(f.table)), tossed, trace;
    }
    return Ok(None), tossed, trace;
  }
}
