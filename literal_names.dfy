/**
 * The string encoding of literals: a variable is a name, its negation is the name with
 * an `'n'` prefix, and every test for negation asks whether `'n'` occurs anywhere in the
 * string. The structured `Lit` of module Literals agrees with this encoding as long as
 * variable names contain no `'n'` and are distinct (the generator uses `x0`, `x1`, ...).
 */
module LiteralNames {
  import opened Literals

  /** negate: cut off the first character when the string contains an 'n', else prefix one. */
  function NegateName(s: string): (r: string)
    ensures 'n' in s ==> |r| + 1 == |s| && r == s[1..]
    ensures 'n' !in s ==> |r| == |s| + 1 && r[0] == 'n' && r[1..] == s
  {
    if 'n' in s then s[1..] else "n" + s
  }

  /** Names usable as variables: no 'n' anywhere, pairwise distinct. */
  predicate ValidNames(names: seq<string>)
  {
    (forall i :: 0 <= i < |names| ==> 'n' !in names[i]) &&
    (forall i, j :: 0 <= i < j < |names| ==> names[i] != names[j])
  }

  /** The string the source uses for a literal over the variable named `names[l.v]`. */
  function LitName(names: seq<string>, l: Lit): string
    requires l.v < |names|
  {
    if l.neg then "n" + names[l.v] else names[l.v]
  }

  /** The dict `table` keyed by names, built from the positional table. */
  function NameTable(names: seq<string>, t: Table): (m: map<string, Tri>)
    requires |names| == |t| && ValidNames(names)
    ensures forall i :: 0 <= i < |names| ==> names[i] in m && m[names[i]] == t[i]
  {
    map i | 0 <= i < |names| :: names[i] := t[i]
  }

  /** eval_lit on strings, as the source writes it. */
  function EvalLitName(s: string, m: map<string, Tri>): (r: Tri)
    requires (if 'n' in s then NegateName(s) else s) in m
    ensures r == Blank <==> m[if 'n' in s then NegateName(s) else s] == Blank
    ensures r != Blank ==> r.value == (m[if 'n' in s then NegateName(s) else s].value != ('n' in s))
  {
    if 'n' in s then
      if m[NegateName(s)] == Blank then Blank else Known(!m[NegateName(s)].value)
    else
      if m[s] == Blank then Blank else m[s]
  }

  /** The 'n' test recognises exactly the negated literals. */
  lemma NegationTest(names: seq<string>, l: Lit)
    requires ValidNames(names) && l.v < |names|
    ensures ('n' in LitName(names, l)) == l.neg
  {
    if l.neg {
      assert LitName(names, l)[0] == 'n';
    }
  }

  /** String negation is structural negation on valid names, hence an involution there. */
  lemma {:induction false} NegateNameAgrees(names: seq<string>, l: Lit)
    requires ValidNames(names) && l.v < |names|
    ensures NegateName(LitName(names, l)) == LitName(names, Negate(l))
    ensures NegateName(NegateName(LitName(names, l))) == LitName(names, l)
  {
    NegationTest(names, l);
    NegationTest(names, Negate(l));
    if l.neg {
      assert ("n" + names[l.v])[1..] == names[l.v];
    } else {
      assert ("n" + names[l.v])[1..] == names[l.v];
    }
  }

  /** eval_lit on the string encoding computes the structured EvalLit. */
  lemma {:induction false} EvalLitNameAgrees(names: seq<string>, t: Table, l: Lit)
    requires ValidNames(names) && |names| == |t| && l.v < |t|
    ensures (if 'n' in LitName(names, l) then NegateName(LitName(names, l)) else LitName(names, l)) in NameTable(names, t)
    ensures EvalLitName(LitName(names, l), NameTable(names, t)) == EvalLit(l, t)
  {
    NegationTest(names, l);
    if l.neg {
      assert ("n" + names[l.v])[1..] == names[l.v];
    }
  }

  /** Why names must avoid 'n': negating twice does not give back "xn". */
  lemma NameWithNBreaksNegation()
    ensures NegateName(NegateName("xn")) != "xn"
  {
    assert 'n' in "xn";
    assert NegateName("xn") == "n";
    assert 'n' in "n";
    assert NegateName("n") == "";
  }
}
