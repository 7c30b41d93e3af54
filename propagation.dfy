/**
 * The assignments simplify makes: blank symbols, pure ("monochrome") literals, unit
 * literals, and assign, which writes a value into the table.
 */
module Propagation {
  import opened Literals
  import opened Formulas

  /** get_blank_symbols: the unassigned variables, in table order. */
  function Blanks(t: Table): seq<nat>
  {
    if |t| == 0 then []
    else Blanks(t[..|t| - 1]) + (if t[|t| - 1] == Blank then [|t| - 1] else [])
  }

  /** Every blank symbol is an unassigned variable, and they come in increasing order. */
  lemma {:induction false} BlanksMembers(t: Table)
    ensures forall k :: 0 <= k < |Blanks(t)| ==> Blanks(t)[k] < |t| && t[Blanks(t)[k]] == Blank
    ensures forall j, k :: 0 <= j < k < |Blanks(t)| ==> Blanks(t)[j] < Blanks(t)[k]
  {
    if |t| > 0 {
      var init := t[..|t| - 1];
      BlanksMembers(init);
      assert Blanks(t) == Blanks(init) + (if t[|t| - 1] == Blank then [|t| - 1] else []);
    }
  }

  /** Every unassigned variable is a blank symbol. */
  lemma {:induction false} BlanksCover(t: Table, v: nat)
    requires v < |t| && t[v] == Blank
    ensures v in Blanks(t)
  {
    var init := t[..|t| - 1];
    if v < |t| - 1 {
      assert init[v] == Blank;
      BlanksCover(init, v);
    }
  }

  /** The blank symbols are exactly the unassigned variables, each once, in increasing order. */
  lemma BlanksProperties(t: Table)
    ensures forall k :: 0 <= k < |Blanks(t)| ==> Blanks(t)[k] < |t| && t[Blanks(t)[k]] == Blank
    ensures forall v :: 0 <= v < |t| && t[v] == Blank ==> v in Blanks(t)
    ensures forall j, k :: 0 <= j < k < |Blanks(t)| ==> Blanks(t)[j] < Blanks(t)[k]
  {
    BlanksMembers(t);
    forall v | 0 <= v < |t| && t[v] == Blank ensures v in Blanks(t) {
      BlanksCover(t, v);
    }
  }

  function BlankCount(t: Table): nat
  {
    |Blanks(t)|
  }

  /** Deciding a variable removes it from the blanks if it was blank, and changes nothing else. */
  lemma {:induction false} BlankCountUpdate(t: Table, v: nat, b: bool)
    requires v < |t|
    ensures BlankCount(t[v := Known(b)]) == BlankCount(t) - (if t[v] == Blank then 1 else 0)
  {
    var n := |t|;
    var u := t[v := Known(b)];
    if v == n - 1 {
      assert u[..n - 1] == t[..n - 1];
    } else {
      assert u[..n - 1] == t[..n - 1][v := Known(b)];
      BlankCountUpdate(t[..n - 1], v, b);
    }
  }

  /** A table is total exactly when it has no blanks. */
  lemma NoBlanksTotal(t: Table)
    ensures BlankCount(t) == 0 <==> Total(t)
  {
    BlanksProperties(t);
    if !Total(t) {
      var v :| 0 <= v < |t| && t[v] == Blank;
      assert v in Blanks(t);
    }
    if BlankCount(t) > 0 {
      assert t[Blanks(t)[0]] == Blank;
    }
  }

  /** The literal occurs in some clause. */
  predicate Occurs(cs: seq<Clause>, l: Lit)
  {
    exists i :: 0 <= i < |cs| && l in cs[i]
  }

  /** What monochromes contributes for one blank variable: the pure literal, if any, preferring the positive one. */
  function PureLit(cs: seq<Clause>, v: nat): seq<Lit>
  {
    if !Occurs(cs, Lit(v, true)) then [Lit(v, false)]
    else if !Occurs(cs, Lit(v, false)) then [Lit(v, true)]
    else []
  }

  /** A variable has no pure literal exactly when it occurs in both polarities; a pure literal's complement occurs nowhere. */
  lemma PureLitFacts(cs: seq<Clause>, v: nat)
    ensures PureLit(cs, v) == [] <==> Occurs(cs, Lit(v, false)) && Occurs(cs, Lit(v, true))
    ensures forall k :: 0 <= k < |PureLit(cs, v)| ==> PureLit(cs, v)[k].v == v && !Occurs(cs, Negate(PureLit(cs, v)[k]))
  {
  }

  /** The pure literals of the variables `vs`, in their order. */
  function MonosOf(cs: seq<Clause>, vs: seq<nat>): seq<Lit>
  {
    if |vs| == 0 then [] else MonosOf(cs, vs[..|vs| - 1]) + PureLit(cs, vs[|vs| - 1])
  }

  /** monochromes: the pure literals of the blank variables, in table order. */
  function Monos(f: Formula): (r: seq<Lit>)
    ensures forall k :: 0 <= k < |r| ==> r[k].v < |f.table| && f.table[r[k].v] == Blank
  {
    BlanksProperties(f.table);
    MonosOfProperties(f.clauses, Blanks(f.table));
    MonosOf(f.clauses, Blanks(f.table))
  }

  /** Each literal MonosOf yields is over one of the variables and its complement does not occur. */
  lemma {:induction false} MonosOfMembers(cs: seq<Clause>, vs: seq<nat>)
    ensures forall k :: 0 <= k < |MonosOf(cs, vs)| ==> MonosOf(cs, vs)[k].v in vs
    ensures forall k :: 0 <= k < |MonosOf(cs, vs)| ==> !Occurs(cs, Negate(MonosOf(cs, vs)[k]))
    ensures forall k :: 0 <= k < |MonosOf(cs, vs)| && MonosOf(cs, vs)[k].neg ==> Occurs(cs, Lit(MonosOf(cs, vs)[k].v, true))
  {
    if |vs| > 0 {
      var init := vs[..|vs| - 1];
      MonosOfMembers(cs, init);
      assert vs == init + [vs[|vs| - 1]];
      assert MonosOf(cs, vs) == MonosOf(cs, init) + PureLit(cs, vs[|vs| - 1]);
    }
  }

  /** Over increasing variables, MonosOf yields literals over increasing variables. */
  lemma {:induction false} MonosOfOrdered(cs: seq<Clause>, vs: seq<nat>)
    requires forall j, k :: 0 <= j < k < |vs| ==> vs[j] < vs[k]
    ensures forall j, k :: 0 <= j < k < |MonosOf(cs, vs)| ==> MonosOf(cs, vs)[j].v < MonosOf(cs, vs)[k].v
  {
    if |vs| > 0 {
      var init := vs[..|vs| - 1];
      MonosOfOrdered(cs, init);
      MonosOfMembers(cs, init);
      var p := MonosOf(cs, init);
      assert MonosOf(cs, vs) == p + PureLit(cs, vs[|vs| - 1]);
      forall k | 0 <= k < |p| ensures p[k].v < vs[|vs| - 1] {
        assert p[k].v in init;
      }
    }
  }

  /** A variable not occurring in both polarities gets a literal from MonosOf. */
  lemma {:induction false} MonosOfCovers(cs: seq<Clause>, vs: seq<nat>, v: nat)
    requires v in vs && !(Occurs(cs, Lit(v, false)) && Occurs(cs, Lit(v, true)))
    ensures exists k :: 0 <= k < |MonosOf(cs, vs)| && MonosOf(cs, vs)[k].v == v
  {
    var init := vs[..|vs| - 1];
    var r := MonosOf(cs, vs);
    var p := MonosOf(cs, init);
    assert r == p + PureLit(cs, vs[|vs| - 1]);
    assert vs == init + [vs[|vs| - 1]];
    if v in init {
      MonosOfCovers(cs, init, v);
      var k :| 0 <= k < |p| && p[k].v == v;
      assert r[k] == p[k];
    } else {
      assert r[|p|].v == v;
    }
  }

  lemma MonosOfProperties(cs: seq<Clause>, vs: seq<nat>)
    requires forall j, k :: 0 <= j < k < |vs| ==> vs[j] < vs[k]
    ensures forall k :: 0 <= k < |MonosOf(cs, vs)| ==> MonosOf(cs, vs)[k].v in vs
    ensures forall k :: 0 <= k < |MonosOf(cs, vs)| ==> !Occurs(cs, Negate(MonosOf(cs, vs)[k]))
    ensures forall k :: 0 <= k < |MonosOf(cs, vs)| && MonosOf(cs, vs)[k].neg ==> Occurs(cs, Lit(MonosOf(cs, vs)[k].v, true))
    ensures forall j, k :: 0 <= j < k < |MonosOf(cs, vs)| ==> MonosOf(cs, vs)[j].v < MonosOf(cs, vs)[k].v
    ensures forall v :: v in vs && !(Occurs(cs, Lit(v, false)) && Occurs(cs, Lit(v, true))) ==>
      exists k :: 0 <= k < |MonosOf(cs, vs)| && MonosOf(cs, vs)[k].v == v
  {
    MonosOfMembers(cs, vs);
    MonosOfOrdered(cs, vs);
    forall v | v in vs && !(Occurs(cs, Lit(v, false)) && Occurs(cs, Lit(v, true)))
      ensures exists k :: 0 <= k < |MonosOf(cs, vs)| && MonosOf(cs, vs)[k].v == v
    {
      MonosOfCovers(cs, vs, v);
    }
  }

  /**
   * Every literal monochromes returns is over a blank variable and its complement occurs
   * in no clause; there is at most one per variable (they come in table order); and every
   * blank variable that does not occur in both polarities gets one, the positive literal
   * unless the negated literal occurs. A variable occurring in no clause counts as pure.
   */
  lemma MonosProperties(f: Formula)
    ensures forall k :: 0 <= k < |Monos(f)| ==> Monos(f)[k].v < |f.table| && f.table[Monos(f)[k].v] == Blank
    ensures forall k :: 0 <= k < |Monos(f)| ==> !Occurs(f.clauses, Negate(Monos(f)[k]))
    ensures forall k :: 0 <= k < |Monos(f)| && Monos(f)[k].neg ==> Occurs(f.clauses, Lit(Monos(f)[k].v, true))
    ensures forall j, k :: 0 <= j < k < |Monos(f)| ==> Monos(f)[j].v < Monos(f)[k].v
    ensures forall v :: (0 <= v < |f.table| && f.table[v] == Blank &&
      !(Occurs(f.clauses, Lit(v, false)) && Occurs(f.clauses, Lit(v, true)))) ==>
      exists k :: 0 <= k < |Monos(f)| && Monos(f)[k].v == v
  {
    BlanksProperties(f.table);
    MonosOfProperties(f.clauses, Blanks(f.table));
    forall v | 0 <= v < |f.table| && f.table[v] == Blank &&
      !(Occurs(f.clauses, Lit(v, false)) && Occurs(f.clauses, Lit(v, true)))
      ensures exists k :: 0 <= k < |Monos(f)| && Monos(f)[k].v == v
    {
      var r := MonosOf(f.clauses, Blanks(f.table));
      assert v in Blanks(f.table);
      var k :| 0 <= k < |r| && r[k].v == v;
      assert Monos(f)[k].v == v;
    }
  }

  /** A variable occurring in both polarities contributes nothing to monochromes. */
  lemma MixedNotPure(f: Formula, v: nat)
    requires Occurs(f.clauses, Lit(v, false)) && Occurs(f.clauses, Lit(v, true))
    ensures forall k :: 0 <= k < |Monos(f)| ==> Monos(f)[k].v != v
  {
    MonosProperties(f);
  }

  /** unit_literals: the sole literal of every clause of length 1, in clause order. */
  function Units(cs: seq<Clause>): (r: seq<Lit>)
    ensures |r| <= |cs|
  {
    if |cs| == 0 then []
    else Units(cs[..|cs| - 1]) + (if |cs[|cs| - 1]| == 1 then [cs[|cs| - 1][0]] else [])
  }

  lemma {:induction false} UnitsMembers(cs: seq<Clause>)
    ensures forall l :: l in Units(cs) <==> exists i :: 0 <= i < |cs| && cs[i] == [l]
    ensures Units(cs) == [] <==> forall i :: 0 <= i < |cs| ==> |cs[i]| != 1
  {
    if |cs| > 0 {
      var init := cs[..|cs| - 1];
      UnitsMembers(init);
      assert cs == init + [cs[|cs| - 1]];
      forall l ensures l in Units(cs) <==> exists i :: 0 <= i < |cs| && cs[i] == [l] {
        if l in Units(cs) && l !in Units(init) {
          assert cs[|cs| - 1] == [l];
        }
        if exists i :: 0 <= i < |cs| && cs[i] == [l] {
          var i :| 0 <= i < |cs| && cs[i] == [l];
          if i < |cs| - 1 {
            assert init[i] == [l];
          }
        }
      }
      if |cs[|cs| - 1]| == 1 {
        assert cs[|cs| - 1] == [cs[|cs| - 1][0]];
      }
    }
  }

  /** The unit literals of a formula over `n` variables are over those variables. */
  lemma UnitsOver(cs: seq<Clause>, n: nat)
    requires ClausesOver(cs, n)
    ensures forall k :: 0 <= k < |Units(cs)| ==> Units(cs)[k].v < n
  {
    UnitsMembers(cs);
    forall k | 0 <= k < |Units(cs)| ensures Units(cs)[k].v < n {
      var l := Units(cs)[k];
      assert l in Units(cs);
      var i :| 0 <= i < |cs| && cs[i] == [l];
      assert cs[i][0] == l;
    }
  }

  /**
   * The table after the calls `assign(formula, l, l is not negated)` for every `l` of `ls`
   * in order: each literal is made True, a later literal over the same variable wins.
   */
  function MakeTrue(t: Table, ls: seq<Lit>): (r: Table)
    requires forall k :: 0 <= k < |ls| ==> ls[k].v < |t|
    ensures |r| == |t|
  {
    if |ls| == 0 then t
    else
      var last := ls[|ls| - 1];
      MakeTrue(t, ls[..|ls| - 1])[last.v := Known(!last.neg)]
  }

  /** A variable no literal names keeps its value; one that some literal names ends up decided. */
  lemma {:induction false} MakeTrueAt(t: Table, ls: seq<Lit>, v: nat)
    requires forall k :: 0 <= k < |ls| ==> ls[k].v < |t|
    requires v < |t|
    ensures (forall k :: 0 <= k < |ls| ==> ls[k].v != v) ==> MakeTrue(t, ls)[v] == t[v]
    ensures (exists k :: 0 <= k < |ls| && ls[k].v == v) ==> MakeTrue(t, ls)[v] != Blank
    ensures t[v] != Blank ==> MakeTrue(t, ls)[v] != Blank
  {
    if |ls| > 0 {
      MakeTrueAt(t, ls[..|ls| - 1], v);
    }
  }

  /** When every literal over `v` is `l`, the assignments leave `l` True. */
  lemma {:induction false} MakeTrueOne(t: Table, ls: seq<Lit>, l: Lit)
    requires forall k :: 0 <= k < |ls| ==> ls[k].v < |t|
    requires l.v < |t|
    requires forall k :: 0 <= k < |ls| && ls[k].v == l.v ==> ls[k] == l
    requires exists k :: 0 <= k < |ls| && ls[k] == l
    ensures EvalLit(l, MakeTrue(t, ls)) == Known(true)
  {
    var last := ls[|ls| - 1];
    if last.v != l.v {
      var k :| 0 <= k < |ls| && ls[k] == l;
      assert ls[..|ls| - 1][k] == l;
      MakeTrueOne(t, ls[..|ls| - 1], l);
    }
  }

  /** Of two conflicting literals the later one wins. */
  lemma MakeTrueLastWins(t: Table, ls: seq<Lit>)
    requires forall k :: 0 <= k < |ls| ==> ls[k].v < |t|
    requires |ls| > 0
    ensures EvalLit(ls[|ls| - 1], MakeTrue(t, ls)) == Known(true)
  {
  }

  /** Tables that agree on decided values still do after the same assignments. */
  lemma {:induction false} MakeTrueExtends(m: Table, t: Table, ls: seq<Lit>)
    requires Extends(m, t)
    requires forall k :: 0 <= k < |ls| ==> ls[k].v < |t|
    ensures Extends(MakeTrue(m, ls), MakeTrue(t, ls))
  {
    if |ls| > 0 {
      MakeTrueExtends(m, t, ls[..|ls| - 1]);
    }
  }

  /** Assigning only variables that `base` leaves blank keeps extending `base`. */
  lemma {:induction false} MakeTrueExtendsBase(t: Table, base: Table, ls: seq<Lit>)
    requires Extends(t, base)
    requires forall k :: 0 <= k < |ls| ==> ls[k].v < |t| && base[ls[k].v] == Blank
    ensures Extends(MakeTrue(t, ls), base)
  {
    if |ls| > 0 {
      MakeTrueExtendsBase(t, base, ls[..|ls| - 1]);
    }
  }

  /** Making True what is already True changes nothing. */
  lemma {:induction false} MakeTrueAlreadyTrue(m: Table, ls: seq<Lit>)
    requires forall k :: 0 <= k < |ls| ==> ls[k].v < |m| && EvalLit(ls[k], m) == Known(true)
    ensures MakeTrue(m, ls) == m
  {
    if |ls| > 0 {
      MakeTrueAlreadyTrue(m, ls[..|ls| - 1]);
    }
  }

  /** Assignments never add blanks, and remove one as soon as some literal is over a blank variable. */
  lemma {:induction false} MakeTrueBlankCount(t: Table, ls: seq<Lit>)
    requires forall k :: 0 <= k < |ls| ==> ls[k].v < |t|
    ensures BlankCount(MakeTrue(t, ls)) <= BlankCount(t)
    ensures (exists k :: 0 <= k < |ls| && t[ls[k].v] == Blank) ==> BlankCount(MakeTrue(t, ls)) < BlankCount(t)
  {
    if |ls| > 0 {
      var init := ls[..|ls| - 1];
      var last := ls[|ls| - 1];
      var mid := MakeTrue(t, init);
      MakeTrueBlankCount(t, init);
      BlankCountUpdate(mid, last.v, !last.neg);
      if exists k :: 0 <= k < |ls| && t[ls[k].v] == Blank {
        var k :| 0 <= k < |ls| && t[ls[k].v] == Blank;
        if k < |ls| - 1 {
          assert init[k] == ls[k];
        } else if mid[last.v] != Blank {
          MakeTrueAt(t, init, last.v);
        }
      }
    }
  }

  /** assign: set the literal's variable to `value`, whatever the literal's polarity. */
  method Assign(f: Instance, literal: Lit, value: bool)
    requires f.Valid() && literal.v < |f.table|
    modifies f
    ensures f.Valid() && f.clauses == old(f.clauses)
    ensures f.table == old(f.table)[literal.v := Known(value)]
  {
    f.table := f.table[literal.v := Known(value)];
  }

  method GetBlankSymbols(f: Formula) returns (blanks: seq<nat>)
    ensures blanks == Blanks(f.table)
  {
    blanks := [];
    for v := 0 to |f.table|
      invariant blanks == Blanks(f.table[..v])
    {
      assert f.table[..v + 1][..v] == f.table[..v];
      if f.table[v] == Blank {
        blanks := blanks + [v];
      }
    }
    assert f.table[..|f.table|] == f.table;
  }

  /**
   * monochromes. The source also keeps a `checked` list and skips blanks already in it;
   * the blanks are distinct variables and `checked` only receives literals over earlier
   * ones, so that skip never happens and the list is not modelled.
   */
  method Monochromes(f: Formula) returns (monos: seq<Lit>)
    ensures monos == Monos(f)
  {
    var blanks := GetBlankSymbols(f);
    monos := PureLiterals(f.clauses, blanks);
  }

  /** The loop of monochromes over the blank variables `blanks`. */
  method PureLiterals(clauses: seq<Clause>, blanks: seq<nat>) returns (monos: seq<Lit>)
    ensures monos == MonosOf(clauses, blanks)
  {
    monos := [];
    for k := 0 to |blanks|
      invariant monos == MonosOf(clauses, blanks[..k])
    {
      assert blanks[..k + 1][..k] == blanks[..k];
      var blank := Lit(blanks[k], false);
      var negAbsent := forall i :: 0 <= i < |clauses| ==> Negate(blank) !in clauses[i];
      var posAbsent := forall i :: 0 <= i < |clauses| ==> Negate(Negate(blank)) !in clauses[i];
      assert negAbsent == !Occurs(clauses, Lit(blanks[k], true));
      assert posAbsent == !Occurs(clauses, Lit(blanks[k], false));
      if negAbsent {
        monos := monos + [blank];
      } else if posAbsent {
        monos := monos + [Negate(blank)];
      }
    }
    WholePrefix(blanks);
  }

  lemma WholePrefix<T>(s: seq<T>)
    ensures s[..|s|] == s
  {
  }

  method UnitLiterals(f: Formula) returns (units: seq<Lit>)
    ensures units == Units(f.clauses)
  {
    units := [];
    for i := 0 to |f.clauses|
      invariant units == Units(f.clauses[..i])
    {
      assert f.clauses[..i + 1][..i] == f.clauses[..i];
      if |f.clauses[i]| == 1 {
        units := units + [f.clauses[i][0]];
      }
    }
    assert f.clauses[..|f.clauses|] == f.clauses;
  }
}
