/**
 * simplify: repeat rounds of pure-literal assignment, unit assignment and reduction until
 * a round changes nothing or no clause is left.
 */
module Simplification {
  import opened Literals
  import opened Formulas
  import opened Reduction
  import opened Propagation

  /**
   * One round of the loop: make every pure literal True, then every unit literal (both
   * computed on the formula at the start of the round), then reduce.
   */
  function Round(f: Formula): (g: Formula)
    requires WellFormed(f)
    ensures WellFormed(g) && |g.table| == |f.table|
  {
    UnitsOver(f.clauses, |f.table|);
    var t1 := MakeTrue(f.table, Monos(f));
    var t2 := MakeTrue(t1, Units(f.clauses));
    Formula(ReduceClauses(f.clauses, t2), t2)
  }

  /** Every unit clause's literal is over an unassigned variable (true of any reduced formula). */
  predicate UnitsBlank(f: Formula)
    requires WellFormed(f)
  {
    forall i :: 0 <= i < |f.clauses| && |f.clauses[i]| == 1 ==> f.table[f.clauses[i][0].v] == Blank
  }

  /** The termination measure of the loop: blanks left, plus one before the first reduction. */
  function Measure(f: Formula): nat
    requires WellFormed(f)
  {
    BlankCount(f.table) + (if Reduced(f.clauses, f.table) then 0 else 1)
  }

  /**
   * A round leaves a reduced formula, never adds a blank and never resets a variable to
   * None; when every unit is over a blank variable it only decides blank variables.
   */
  lemma RoundFacts(f: Formula)
    requires WellFormed(f)
    ensures Reduced(Round(f).clauses, Round(f).table)
    ensures BlankCount(Round(f).table) <= BlankCount(f.table)
    ensures forall v :: 0 <= v < |f.table| && f.table[v] != Blank ==> Round(f).table[v] != Blank
    ensures UnitsBlank(f) ==> Extends(Round(f).table, f.table)
  {
    var monos, units := Monos(f), Units(f.clauses);
    MonosProperties(f);
    UnitsOver(f.clauses, |f.table|);
    UnitsMembers(f.clauses);
    var t1 := MakeTrue(f.table, monos);
    var t2 := MakeTrue(t1, units);
    ReduceClausesMembers(f.clauses, t2);
    MakeTrueBlankCount(f.table, monos);
    MakeTrueBlankCount(t1, units);
    forall v | 0 <= v < |f.table| && f.table[v] != Blank ensures t2[v] != Blank {
      MakeTrueAt(f.table, monos, v);
      MakeTrueAt(t1, units, v);
    }
    if UnitsBlank(f) {
      MakeTrueExtendsBase(f.table, f.table, monos);
      forall k | 0 <= k < |units| ensures f.table[units[k].v] == Blank {
        assert units[k] in units;
        var i :| 0 <= i < |f.clauses| && f.clauses[i] == [units[k]];
        assert f.clauses[i][0] == units[k];
      }
      MakeTrueExtendsBase(t1, f.table, units);
    }
  }

  lemma ReducedUnitsBlank(f: Formula)
    requires WellFormed(f) && Reduced(f.clauses, f.table)
    ensures UnitsBlank(f)
  {
    forall i | 0 <= i < |f.clauses| && |f.clauses[i]| == 1 ensures f.table[f.clauses[i][0].v] == Blank {
      assert ClauseBlank(f.clauses[i], f.table);
    }
  }

  /** Pure literals are over blank variables, so assigning a non-empty set of them lowers the blank count. */
  lemma MonosDecrease(f: Formula)
    requires WellFormed(f)
    ensures forall k :: 0 <= k < |Monos(f)| ==> Monos(f)[k].v < |f.table|
    ensures BlankCount(MakeTrue(f.table, Monos(f))) <= BlankCount(f.table)
    ensures Monos(f) != [] ==> BlankCount(MakeTrue(f.table, Monos(f))) < BlankCount(f.table)
  {
    MonosProperties(f);
    MakeTrueBlankCount(f.table, Monos(f));
    if Monos(f) != [] {
      assert f.table[Monos(f)[0].v] == Blank;
    }
  }

  /** In a reduced formula the unit literals are over blank variables, so assigning them lowers the blank count. */
  lemma UnitsDecrease(cs: seq<Clause>, t: Table)
    requires ClausesOver(cs, |t|) && Reduced(cs, t)
    ensures forall k :: 0 <= k < |Units(cs)| ==> Units(cs)[k].v < |t|
    ensures BlankCount(MakeTrue(t, Units(cs))) <= BlankCount(t)
    ensures Units(cs) != [] ==> BlankCount(MakeTrue(t, Units(cs))) < BlankCount(t)
  {
    var units := Units(cs);
    UnitsOver(cs, |t|);
    UnitsMembers(cs);
    MakeTrueBlankCount(t, units);
    if units != [] {
      assert units[0] in units;
      var i :| 0 <= i < |cs| && cs[i] == [units[0]];
      assert ClauseBlank(cs[i], t);
      assert cs[i][0] == units[0];
    }
  }

  /** A reduced formula with no pure and no unit literal is a fixed point of a round. */
  lemma RoundIdle(f: Formula)
    requires WellFormed(f) && Reduced(f.clauses, f.table)
    requires Monos(f) == [] && Units(f.clauses) == []
    ensures Round(f) == f
  {
    ReduceReduced(f.clauses, f.table);
  }

  /** Each round that changes the formula lowers the measure: the loop terminates. */
  lemma RoundProgress(f: Formula)
    requires WellFormed(f)
    ensures Round(f) == f || Measure(Round(f)) < Measure(f)
  {
    RoundFacts(f);
    if Reduced(f.clauses, f.table) {
      MonosDecrease(f);
      var t1 := MakeTrue(f.table, Monos(f));
      UnitsOver(f.clauses, |f.table|);
      MakeTrueBlankCount(t1, Units(f.clauses));
      if Monos(f) == [] {
        assert t1 == f.table;
        UnitsDecrease(f.clauses, f.table);
        if Units(f.clauses) == [] {
          RoundIdle(f);
        }
      }
    }
  }

  /**
   * The formula simplify leaves behind. Its table has the same variables and no more
   * blanks, it is reduced, and unless no clause is left a further round changes nothing.
   */
  function Simplified(f: Formula): (g: Formula)
    requires WellFormed(f)
    ensures WellFormed(g) && |g.table| == |f.table|
    ensures BlankCount(g.table) <= BlankCount(f.table)
    ensures Reduced(g.clauses, g.table)
    decreases Measure(f)
  {
    var g := Round(f);
    RoundFacts(f);
    RoundProgress(f);
    if g == f || |g.clauses| == 0 then g else Simplified(g)
  }

  /** simplify stops at a fixed point of a round, unless no clause is left. */
  lemma {:induction false} SimplifiedFixpoint(f: Formula)
    requires WellFormed(f)
    ensures |Simplified(f).clauses| == 0 || Round(Simplified(f)) == Simplified(f)
    decreases Measure(f)
  {
    var g := Round(f);
    RoundProgress(f);
    if g != f && |g.clauses| != 0 {
      SimplifiedFixpoint(g);
    }
  }

  /** simplify never resets a variable to None. */
  lemma {:induction false} SimplifiedNeverResets(f: Formula)
    requires WellFormed(f)
    ensures forall v :: 0 <= v < |f.table| && f.table[v] != Blank ==> Simplified(f).table[v] != Blank
    decreases Measure(f)
  {
    var g := Round(f);
    RoundFacts(f);
    RoundProgress(f);
    if g != f && |g.clauses| != 0 {
      SimplifiedNeverResets(g);
    }
  }

  /** When every unit is over a blank variable, simplify only decides blank variables. */
  lemma {:induction false} SimplifiedExtends(f: Formula)
    requires WellFormed(f) && UnitsBlank(f)
    ensures Extends(Simplified(f).table, f.table)
    decreases Measure(f)
  {
    var g := Round(f);
    RoundFacts(f);
    RoundProgress(f);
    if g != f && |g.clauses| != 0 {
      ReducedUnitsBlank(g);
      SimplifiedExtends(g);
      ExtendsTransitive(Simplified(g).table, g.table, f.table);
    }
  }

  /** A round is sound: a table satisfying what is left (keeping the round's values) satisfies the input. */
  lemma RoundSound(f: Formula, m: Table)
    requires WellFormed(f) && Extends(m, Round(f).table)
    ensures EvalFormula(Round(f).clauses, m) ==> EvalFormula(f.clauses, m)
  {
    ReducePreservesModels(f.clauses, Round(f).table, m);
  }

  /**
   * simplify is sound: any table that keeps the values simplify decided and satisfies the
   * clauses it left satisfies the original clauses.
   */
  lemma {:induction false} SimplifiedSound(f: Formula, m: Table)
    requires WellFormed(f) && Extends(m, Simplified(f).table)
    ensures EvalFormula(Simplified(f).clauses, m) ==> EvalFormula(f.clauses, m)
    decreases Measure(f)
  {
    var g := Round(f);
    RoundFacts(f);
    RoundProgress(f);
    if g == f || |g.clauses| == 0 {
      RoundSound(f, m);
    } else {
      ReducedUnitsBlank(g);
      SimplifiedExtends(g);
      ExtendsTransitive(m, Simplified(g).table, g.table);
      SimplifiedSound(g, m);
      RoundSound(f, m);
    }
  }

  /** A True literal of the formula stays True once the pure literals are made True. */
  lemma PureKeepsLit(f: Formula, m: Table, l: Lit)
    requires |m| == |f.table| && l.v < |m|
    requires Occurs(f.clauses, l) && EvalLit(l, m) == Known(true)
    ensures EvalLit(l, MakeTrue(m, Monos(f))) == Known(true)
  {
    var monos := Monos(f);
    MonosProperties(f);
    MakeTrueAt(m, monos, l.v);
    if exists j :: 0 <= j < |monos| && monos[j].v == l.v {
      var j :| 0 <= j < |monos| && monos[j].v == l.v;
      forall j' | 0 <= j' < |monos| && monos[j'].v == l.v ensures monos[j'] == l {
        assert Negate(monos[j']).neg != monos[j'].neg;
      }
      MakeTrueOne(m, monos, l);
    }
  }

  /** Making the pure literals True keeps every clause True. */
  lemma PureKeepsModels(f: Formula, m: Table)
    requires WellFormed(f) && |m| == |f.table| && EvalFormula(f.clauses, m)
    ensures EvalFormula(f.clauses, MakeTrue(m, Monos(f)))
  {
    var cs, mm := f.clauses, MakeTrue(m, Monos(f));
    forall i | 0 <= i < |cs| ensures ClauseTrue(cs[i], mm) {
      var k :| 0 <= k < |cs[i]| && EvalLit(cs[i][k], m) == Known(true);
      assert cs[i][k] in cs[i];
      PureKeepsLit(f, m, cs[i][k]);
    }
  }

  /** A model makes every unit literal True, so assigning the units changes nothing in it. */
  lemma UnitsAlreadyTrue(cs: seq<Clause>, m: Table)
    requires ClausesOver(cs, |m|) && EvalFormula(cs, m)
    ensures forall k :: 0 <= k < |Units(cs)| ==> Units(cs)[k].v < |m|
    ensures MakeTrue(m, Units(cs)) == m
  {
    var units := Units(cs);
    UnitsOver(cs, |m|);
    UnitsMembers(cs);
    forall k | 0 <= k < |units| ensures EvalLit(units[k], m) == Known(true) {
      assert units[k] in units;
      var i :| 0 <= i < |cs| && cs[i] == [units[k]];
      assert ClauseTrue(cs[i], m);
    }
    MakeTrueAlreadyTrue(m, units);
  }

  /**
   * A round loses no model: from a model `m` of the input (keeping its decided values) it
   * builds one of the output, `m` with the pure literals made True.
   */
  lemma RoundKeepsModels(f: Formula, m: Table)
    requires WellFormed(f) && Extends(m, f.table) && EvalFormula(f.clauses, m)
    ensures Extends(MakeTrue(m, Monos(f)), Round(f).table)
    ensures EvalFormula(Round(f).clauses, MakeTrue(m, Monos(f)))
  {
    PureKeepsModels(f, m);
    var mm := MakeTrue(m, Monos(f));
    var t1 := MakeTrue(f.table, Monos(f));
    MakeTrueExtends(m, f.table, Monos(f));
    UnitsAlreadyTrue(f.clauses, mm);
    MakeTrueExtends(mm, t1, Units(f.clauses));
    ReducePreservesModels(f.clauses, Round(f).table, mm);
  }

  /** simplify loses no model: a satisfiable input leaves a satisfiable output. */
  lemma {:induction false} SimplifiedKeepsModels(f: Formula, m: Table)
    requires WellFormed(f) && Extends(m, f.table) && EvalFormula(f.clauses, m)
    ensures exists m' :: Extends(m', Simplified(f).table) && EvalFormula(Simplified(f).clauses, m')
    decreases Measure(f)
  {
    var g := Round(f);
    RoundProgress(f);
    RoundKeepsModels(f, m);
    var mm := MakeTrue(m, Monos(f));
    if g == f || |g.clauses| == 0 {
      assert Simplified(f) == g;
      assert Extends(mm, g.table) && EvalFormula(g.clauses, mm);
    } else {
      assert Simplified(f) == Simplified(g);
      SimplifiedKeepsModels(g, mm);
    }
  }

  /**
   * At a fixed point there is no unit clause and every blank variable occurs in both
   * polarities (so monochromes is empty).
   */
  lemma FixpointFacts(g: Formula)
    requires WellFormed(g) && Round(g) == g
    ensures Units(g.clauses) == [] && Monos(g) == []
    ensures forall i :: 0 <= i < |g.clauses| ==> |g.clauses[i]| != 1
    ensures forall v :: 0 <= v < |g.table| && g.table[v] == Blank ==>
      Occurs(g.clauses, Lit(v, false)) && Occurs(g.clauses, Lit(v, true))
  {
    RoundFacts(g);
    MonosDecrease(g);
    var t1 := MakeTrue(g.table, Monos(g));
    UnitsOver(g.clauses, |g.table|);
    MakeTrueBlankCount(t1, Units(g.clauses));
    if Monos(g) == [] {
      assert t1 == g.table;
    }
    UnitsDecrease(g.clauses, g.table);
    UnitsMembers(g.clauses);
    MonosProperties(g);
  }

  /** What simplify returns: no clause left, or a fixed point (no unit, no pure blank variable, reduced). */
  lemma SimplifiedResult(f: Formula)
    requires WellFormed(f)
    ensures var g := Simplified(f);
      |g.clauses| == 0 ||
      ((forall i :: 0 <= i < |g.clauses| ==> |g.clauses[i]| != 1) &&
       Reduced(g.clauses, g.table) &&
       (forall v :: 0 <= v < |g.table| && g.table[v] == Blank ==>
          Occurs(g.clauses, Lit(v, false)) && Occurs(g.clauses, Lit(v, true))))
  {
    var g := Simplified(f);
    SimplifiedFixpoint(f);
    if |g.clauses| > 0 {
      FixpointFacts(g);
    }
  }

  /** A second simplify on a non-empty result is a no-op. */
  lemma SimplifiedIdempotent(f: Formula)
    requires WellFormed(f) && |Simplified(f).clauses| > 0
    ensures Simplified(Simplified(f)) == Simplified(f)
  {
    SimplifiedFixpoint(f);
  }

  /**
   * With no clause left every blank variable counts as pure, so a second simplify decides
   * all of them True: it is not a no-op unless the table is already total.
   */
  lemma SimplifyEmpty(t: Table)
    ensures Total(Simplified(Formula([], t)).table)
  {
    var f := Formula([], t);
    var monos := Monos(f);
    MonosProperties(f);
    forall v | 0 <= v < |t| ensures MakeTrue(t, monos)[v] != Blank {
      MakeTrueAt(t, monos, v);
      if t[v] == Blank {
        assert !Occurs([], Lit(v, false));
      }
    }
    assert Units([]) == [];
    assert Round(f).clauses == [];
  }

  /** [[x0]]: x0 is the pure literal. */
  lemma SingleUnitPure()
    ensures Monos(Formula([[Lit(0, false)]], [Blank])) == [Lit(0, false)]
  {
    var cs := [[Lit(0, false)]];
    assert Lit(0, true) !in cs[0];
    assert !Occurs(cs, Lit(0, true));
    assert PureLit(cs, 0) == [Lit(0, false)];
    assert Blanks([Blank]) == [0];
    assert [0][..0] == [];
    assert MonosOf(cs, [0]) == [Lit(0, false)];
  }

  /** [[x0]]: x0 is the unit literal. */
  lemma SingleUnitUnit()
    ensures Units([[Lit(0, false)]]) == [Lit(0, false)]
  {
    var cs := [[Lit(0, false)]];
    assert cs[..0] == [];
  }

  /** [[x0]] with x0 made True twice: the table is x0 = True and reduction drops the clause. */
  lemma SingleUnitReduced()
    ensures MakeTrue(MakeTrue([Blank], [Lit(0, false)]), [Lit(0, false)]) == [Known(true)]
    ensures ReduceClauses([[Lit(0, false)]], [Known(true)]) == []
  {
    var cs := [[Lit(0, false)]];
    assert MakeTrue([Blank], [Lit(0, false)]) == [Known(true)];
    assert EvalLit(cs[0][0], [Known(true)]) == Known(true);
    assert ClauseTrue(cs[0], [Known(true)]);
    assert cs[..0] == [];
  }

  /** [[x0]] from an empty assignment: x0 is pure and a unit, one round makes it True and drops the clause. */
  lemma SingleUnitSimplified()
    ensures Simplified(Formula([[Lit(0, false)]], [Blank])) == Formula([], [Known(true)])
  {
    var f := Formula([[Lit(0, false)]], [Blank]);
    SingleUnitPure();
    SingleUnitUnit();
    SingleUnitReduced();
    assert Round(f) == Formula([], [Known(true)]);
  }

  /** Two unassigned variables are both blank symbols. */
  lemma TwoBlanks()
    ensures Blanks([Blank, Blank]) == [0, 1]
  {
    assert [Blank, Blank][..1] == [Blank];
    assert Blanks([Blank]) == [0];
  }

  /** (x0 or x1) and (not x0 or x1): x0 occurs in both polarities and not x1 nowhere, so x1 is the only pure literal. */
  lemma SharedPureMonos()
    ensures Monos(Formula([[Lit(0, false), Lit(1, false)], [Lit(0, true), Lit(1, false)]], [Blank, Blank])) == [Lit(1, false)]
  {
    var cs := [[Lit(0, false), Lit(1, false)], [Lit(0, true), Lit(1, false)]];
    assert cs[0][0] == Lit(0, false) && cs[1][0] == Lit(0, true);
    assert Occurs(cs, Lit(0, false)) && Occurs(cs, Lit(0, true));
    assert Lit(1, true) !in cs[0] && Lit(1, true) !in cs[1];
    assert !Occurs(cs, Lit(1, true));
    assert PureLit(cs, 0) == [];
    assert PureLit(cs, 1) == [Lit(1, false)];
    TwoBlanks();
    assert [0, 1][..1] == [0] && [0][..0] == [];
    assert MonosOf(cs, [0]) == [];
    assert MonosOf(cs, [0, 1]) == [Lit(1, false)];
  }

  /** (x0 or x1) and (not x0 or x1): no unit clause. */
  lemma SharedPureUnits()
    ensures Units([[Lit(0, false), Lit(1, false)], [Lit(0, true), Lit(1, false)]]) == []
  {
    var cs := [[Lit(0, false), Lit(1, false)], [Lit(0, true), Lit(1, false)]];
    assert cs[..1] == [cs[0]];
    assert cs[..1][..0] == [];
  }

  /** (x0 or x1) and (not x0 or x1) with x1 True: both clauses are True and reduction drops them. */
  lemma SharedPureReduced()
    ensures MakeTrue([Blank, Blank], [Lit(1, false)]) == [Blank, Known(true)]
    ensures ReduceClauses([[Lit(0, false), Lit(1, false)], [Lit(0, true), Lit(1, false)]], [Blank, Known(true)]) == []
  {
    var cs := [[Lit(0, false), Lit(1, false)], [Lit(0, true), Lit(1, false)]];
    var t := [Blank, Known(true)];
    assert EvalLit(cs[0][1], t) == Known(true) && EvalLit(cs[1][1], t) == Known(true);
    assert ClauseTrue(cs[0], t) && ClauseTrue(cs[1], t);
    assert cs[..1] == [cs[0]];
    assert cs[..1][..0] == [];
  }

  /** (x0 or x1) and (not x0 or x1): x1 is pure, so one round satisfies both clauses and leaves x0 None. */
  lemma SharedPureSimplified()
    ensures Simplified(Formula([[Lit(0, false), Lit(1, false)], [Lit(0, true), Lit(1, false)]], [Blank, Blank]))
      == Formula([], [Blank, Known(true)])
  {
    var f := Formula([[Lit(0, false), Lit(1, false)], [Lit(0, true), Lit(1, false)]], [Blank, Blank]);
    SharedPureMonos();
    SharedPureUnits();
    SharedPureReduced();
    assert MakeTrue([Blank, Known(true)], []) == [Blank, Known(true)];
    assert Round(f) == Formula([], [Blank, Known(true)]);
  }

  /**
   * simplify is not idempotent once no clause is left: the first call stops with x0 still
   * None, and a second call finds x0 pure and makes it True.
   */
  lemma SimplifyTwiceDecidesMore()
    ensures var g := Simplified(Formula([[Lit(0, false), Lit(1, false)], [Lit(0, true), Lit(1, false)]], [Blank, Blank]));
      g == Formula([], [Blank, Known(true)]) && Simplified(g) == Formula([], [Known(true), Known(true)])
  {
    SharedPureSimplified();
    var g := Formula([], [Blank, Known(true)]);
    EmptyLeftoverPure();
    assert MakeTrue([Blank, Known(true)], [Lit(0, false)]) == [Known(true), Known(true)];
    assert Round(g) == Formula([], [Known(true), Known(true)]);
  }

  /** With no clause left, the remaining blank x0 is pure. */
  lemma EmptyLeftoverPure()
    ensures Monos(Formula([], [Blank, Known(true)])) == [Lit(0, false)]
  {
    assert [Blank, Known(true)][..1] == [Blank];
    assert Blanks([Blank]) == [0];
    assert Blanks([Blank, Known(true)]) == [0];
    assert !Occurs([], Lit(0, true));
    assert PureLit([], 0) == [Lit(0, false)];
    assert [0][..0] == [];
    assert MonosOf([], [0]) == [Lit(0, false)];
  }

  /**
   * Pure literals never conflict with unit literals: a unit over a pure variable is that
   * pure literal, since the complement occurs in no clause.
   */
  lemma PureAgreesWithUnits(f: Formula)
    ensures forall p, u :: p in Monos(f) && u in Units(f.clauses) && p.v == u.v ==> p == u
  {
    MonosProperties(f);
    UnitsMembers(f.clauses);
    forall p, u | p in Monos(f) && u in Units(f.clauses) && p.v == u.v ensures p == u {
      var i :| 0 <= i < |f.clauses| && f.clauses[i] == [u];
      assert u in f.clauses[i];
      var k :| 0 <= k < |Monos(f)| && Monos(f)[k] == p;
      assert !Occurs(f.clauses, Negate(p));
    }
  }

  /** x0 and not x0: neither literal is pure, so no monochrome is assigned. */
  lemma ConflictHasNoMonos()
    ensures Monos(Formula([[Lit(0, false)], [Lit(0, true)]], [Blank])) == []
  {
    var cs := [[Lit(0, false)], [Lit(0, true)]];
    assert Lit(0, false) in cs[0] && Lit(0, true) in cs[1];
    assert PureLit(cs, 0) == [];
    assert Blanks([Blank]) == [0];
  }

  /** x0 and not x0: both unit clauses are assigned in order, and the later one wins. */
  lemma ConflictUnits()
    ensures Units([[Lit(0, false)], [Lit(0, true)]]) == [Lit(0, false), Lit(0, true)]
    ensures MakeTrue([Blank], [Lit(0, false), Lit(0, true)]) == [Known(false)]
    ensures ReduceClauses([[Lit(0, false)], [Lit(0, true)]], [Known(false)]) == [[]]
  {
    var cs := [[Lit(0, false)], [Lit(0, true)]];
    assert cs[..1] == [[Lit(0, false)]];
    assert Units(cs) == [Lit(0, false), Lit(0, true)];
    var units := Units(cs);
    assert units[..1] == [Lit(0, false)];
    var t2 := MakeTrue([Blank], units);
    assert t2 == [Known(false)];
    assert Shrink([Lit(0, false)], t2) == [];
  }

  /**
   * Two unit clauses over one variable conflict: the later one in clause order wins, and the
   * reduction then leaves the earlier one as the empty clause.
   */
  lemma UnitsConflict()
    ensures var g := Round(Formula([[Lit(0, false)], [Lit(0, true)]], [Blank]));
      g.table == [Known(false)] && g.clauses == [[]] && Bottom(g.clauses)
  {
    var f := Formula([[Lit(0, false)], [Lit(0, true)]], [Blank]);
    ConflictHasNoMonos();
    ConflictUnits();
    assert MakeTrue([Blank], []) == [Blank];
    assert |Round(f).clauses[0]| == 0;
  }

  /**
   * The loops of simplify over the pure and the unit literals: assign each literal's
   * variable False when the literal is negated and True otherwise, so that it turns True.
   */
  method AssignTrue(f: Instance, literals: seq<Lit>)
    requires f.Valid()
    requires forall k :: 0 <= k < |literals| ==> literals[k].v < |f.table|
    modifies f
    ensures f.Valid() && f.clauses == old(f.clauses)
    ensures f.table == MakeTrue(old(f.table), literals)
  {
    for k := 0 to |literals|
      invariant f.Valid() && f.clauses == old(f.clauses)
      invariant f.table == MakeTrue(old(f.table), literals[..k])
    {
      assert literals[..k + 1][..k] == literals[..k];
      var literal := literals[k];
      if literal.neg {
        Assign(f, literal, false);
      } else {
        Assign(f, literal, true);
      }
    }
    WholePrefix(literals);
  }

  /**
   * simplify as the source runs it: a `while True` loop that snapshots the formula into
   * `token`, makes the pure literals and then the unit literals True, reduces, and stops
   * once the round changed nothing or no clause is left.
   */
  method Simplify(f: Instance)
    requires f.Valid()
    modifies f
    ensures f.Valid() && f.Value() == Simplified(old(f.Value()))
  {
    while true
      invariant f.Valid()
      invariant Simplified(f.Value()) == Simplified(old(f.Value()))
      decreases Measure(f.Value())
    {
      var token := f.Value();
      var monos := Monochromes(f.Value());
      MonosDecrease(token);
      AssignTrue(f, monos);
      var units := UnitLiterals(f.Value());
      UnitsOver(token.clauses, |token.table|);
      AssignTrue(f, units);
      ReduceFormula(f);
      assert f.Value() == Round(token);
      RoundFacts(token);
      RoundProgress(token);
      if token == f.Value() || |f.clauses| == 0 {
        break;
      }
    }
  }
}
