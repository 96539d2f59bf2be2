/** The literals and clauses of the ENC1 output, as structured values, and
    the text each one is written as in the returned list of strings. */
module Clauses {
  import opened Decimal

  /** A propositional atom: `lambda_<v>_<x>` says variable v takes value x;
      `theta_<v>_<x>` is the parameter atom of variable v and value x. */
  datatype Atom = Lambda(variable: string, value: nat) | Theta(variable: string, value: nat)

  /** A literal is written `<atom>` when positive and `!<atom>` when negated. */
  datatype Literal = Pos(atom: Atom) | Neg(atom: Atom)

  /** The three shapes of output line.
      FalseOr: the at-least-one line, the text `False` followed by `||l` per literal.
      Or:      literals joined by `||`.
      Iff:     literals joined by `||`, then `<=>`, then one more literal. */
  datatype Clause =
    | FalseOr(disjuncts: seq<Literal>)
    | Or(disjuncts: seq<Literal>)
    | Iff(disjuncts: seq<Literal>, rhs: Literal)

  function AtomName(a: Atom): string {
    match a
    case Lambda(v, x) => "lambda_" + v + "_" + NatToString(x)
    case Theta(v, x) => "theta_" + v + "_" + NatToString(x)
  }

  function LiteralText(l: Literal): string {
    match l
    case Pos(a) => AtomName(a)
    case Neg(a) => "!" + AtomName(a)
  }

  function LiteralTexts(ls: seq<Literal>): (r: seq<string>)
    ensures |r| == |ls|
    ensures forall i :: 0 <= i < |ls| ==> r[i] == LiteralText(ls[i])
  {
    seq(|ls|, i requires 0 <= i < |ls| => LiteralText(ls[i]))
  }

  /** Python's `sep.join(parts)`: the parts with `sep` between neighbours. */
  function Join(parts: seq<string>, sep: string): string {
    if |parts| == 0 then ""
    else if |parts| == 1 then parts[0]
    else Join(parts[..|parts| - 1], sep) + sep + parts[|parts| - 1]
  }

  /** The text built by starting from `False` and appending `||l` per literal. */
  function FalseOrText(ls: seq<Literal>): string {
    if ls == [] then "False"
    else FalseOrText(ls[..|ls| - 1]) + "||" + LiteralText(ls[|ls| - 1])
  }

  function ClauseText(c: Clause): string {
    match c
    case FalseOr(ls) => FalseOrText(ls)
    case Or(ls) => Join(LiteralTexts(ls), "||")
    case Iff(ls, r) => Join(LiteralTexts(ls), "||") + "<=>" + LiteralText(r)
  }

  function RenderAll(cs: seq<Clause>): (r: seq<string>)
    ensures |r| == |cs|
    ensures forall i :: 0 <= i < |cs| ==> r[i] == ClauseText(cs[i])
  {
    seq(|cs|, i requires 0 <= i < |cs| => ClauseText(cs[i]))
  }

  /** Concatenation of a list of strings, first to last. */
  function Concat(ss: seq<string>): string {
    if ss == [] then "" else ss[0] + Concat(ss[1..])
  }

  lemma RenderAllAppend(a: seq<Clause>, b: seq<Clause>)
    ensures RenderAll(a + b) == RenderAll(a) + RenderAll(b)
  {
  }

  /** The pieces `||l` appended to `False`, one per literal. */
  function BarredTexts(ls: seq<Literal>): (r: seq<string>)
    ensures |r| == |ls|
    ensures forall i :: 0 <= i < |ls| ==> r[i] == "||" + LiteralText(ls[i])
  {
    seq(|ls|, i requires 0 <= i < |ls| => "||" + LiteralText(ls[i]))
  }

  /** The at-least-one text is `False` followed by `||l` for each literal in
      order: the running string built from the left equals the flat concatenation. */
  lemma {:induction false} FalseOrTextIsConcat(ls: seq<Literal>)
    ensures FalseOrText(ls) == "False" + Concat(BarredTexts(ls))
  {
    if ls == [] {
      assert BarredTexts(ls) == [];
    } else {
      var init := ls[..|ls| - 1];
      var piece := "||" + LiteralText(ls[|ls| - 1]);
      FalseOrTextIsConcat(init);
      FalseOrTextSnoc(ls);
      BarredTextsSnoc(ls);
      ConcatSnoc(BarredTexts(init), piece);
      AppendAssoc("False", Concat(BarredTexts(init)), piece);
    }
  }

  lemma FalseOrTextSnoc(ls: seq<Literal>)
    requires ls != []
    ensures FalseOrText(ls) == FalseOrText(ls[..|ls| - 1]) + ("||" + LiteralText(ls[|ls| - 1]))
  {
  }

  lemma BarredTextsSnoc(ls: seq<Literal>)
    requires ls != []
    ensures BarredTexts(ls) == BarredTexts(ls[..|ls| - 1]) + ["||" + LiteralText(ls[|ls| - 1])]
  {
    var init := ls[..|ls| - 1];
    var r, q := BarredTexts(ls), BarredTexts(init);
    forall i | 0 <= i < |q|
      ensures r[i] == q[i]
    {
      assert init[i] == ls[i];
    }
    SnocFromIndices(r, q, "||" + LiteralText(ls[|ls| - 1]));
  }

  /** A sequence one longer than q that agrees with q and ends in x is q + [x]. */
  lemma SnocFromIndices<T>(r: seq<T>, q: seq<T>, x: T)
    requires |r| == |q| + 1 && r[|q|] == x
    requires forall i :: 0 <= i < |q| ==> r[i] == q[i]
    ensures r == q + [x]
  {
  }

  lemma ClausesAssoc(p: seq<Clause>, q: seq<Clause>, r: seq<Clause>)
    ensures (p + q) + r == p + (q + r)
  {
  }


  lemma AppendAssoc(a: string, b: string, c: string)
    ensures (a + b) + c == a + (b + c)
  {
  }

  lemma {:induction false} ConcatSnoc(ss: seq<string>, s: string)
    ensures Concat(ss + [s]) == Concat(ss) + s
  {
    if ss != [] {
      assert (ss + [s])[1..] == ss[1..] + [s];
      ConcatSnoc(ss[1..], s);
    }
  }

  /** Joining at least two parts puts the first part, then the separator,
      then the join of the rest: the join read from the left. */
  lemma {:induction false} JoinCons(parts: seq<string>, sep: string)
    requires |parts| >= 2
    ensures Join(parts, sep) == parts[0] + sep + Join(parts[1..], sep)
  {
    if |parts| > 2 {
      var init := parts[..|parts| - 1];
      JoinCons(init, sep);
      assert init[1..] == parts[1..][..|parts| - 2];
    }
  }

  /** A name followed by `_` and a numeral is split uniquely: the numeral has
      no `_`, so the last `_` separates the two. */
  lemma SplitAtLastUnderscore(v1: string, n1: string, v2: string, n2: string)
    requires AllDigits(n1) && AllDigits(n2)
    requires v1 + "_" + n1 == v2 + "_" + n2
    ensures v1 == v2 && n1 == n2
  {
    var s1 := v1 + "_" + n1;
    var s2 := v2 + "_" + n2;
    UnderscoreThenDigits(v1, n1);
    UnderscoreThenDigits(v2, n2);
    if |n1| == |n2| {
      assert v1 == s1[..|v1|] == s2[..|v2|] == v2;
      assert n1 == s1[|v1| + 1..] == s2[|v2| + 1..] == n2;
    } else {
      assert false;
    }
  }

  lemma UnderscoreThenDigits(v: string, n: string)
    ensures (v + "_" + n)[|v|] == '_'
    ensures forall i :: |v| < i < |v| + 1 + |n| ==> (v + "_" + n)[i] == n[i - |v| - 1]
  {
  }

  /** Every atom has its own name: equal names mean equal atoms. */
  lemma AtomNameInjective(a: Atom, b: Atom)
    requires AtomName(a) == AtomName(b)
    ensures a == b
  {
    AtomNameFirstChar(a);
    AtomNameFirstChar(b);
    if a.Lambda? && b.Lambda? {
      PrefixedNameInjective("lambda_", a.variable, a.value, b.variable, b.value);
    } else if a.Theta? && b.Theta? {
      PrefixedNameInjective("theta_", a.variable, a.value, b.variable, b.value);
    }
  }

  /** A fixed prefix, a name, `_` and a numeral: the name and the number are
      recoverable from the text. */
  lemma PrefixedNameInjective(pre: string, v1: string, x1: nat, v2: string, x2: nat)
    requires pre + v1 + "_" + NatToString(x1) == pre + v2 + "_" + NatToString(x2)
    ensures v1 == v2 && x1 == x2
  {
    var n1, n2 := NatToString(x1), NatToString(x2);
    var s, t := pre + v1 + "_" + n1, pre + v2 + "_" + n2;
    assert s == pre + (v1 + "_" + n1);
    assert t == pre + (v2 + "_" + n2);
    assert s[|pre|..] == v1 + "_" + n1;
    assert t[|pre|..] == v2 + "_" + n2;
    SplitAtLastUnderscore(v1, n1, v2, n2);
    NatToStringInjective(x1, x2);
  }

  /** Every literal has its own text: polarity and atom are both recoverable. */
  lemma LiteralTextInjective(l: Literal, m: Literal)
    requires LiteralText(l) == LiteralText(m)
    ensures l == m
  {
    var s, t := LiteralText(l), LiteralText(m);
    AtomNameFirstChar(l.atom);
    AtomNameFirstChar(m.atom);
    if l.Pos? && m.Pos? {
      AtomNameInjective(l.atom, m.atom);
    } else if l.Neg? && m.Neg? {
      assert s[1..] == AtomName(l.atom) && t[1..] == AtomName(m.atom);
      AtomNameInjective(l.atom, m.atom);
    }
  }

  lemma AtomNameFirstChar(a: Atom)
    ensures |AtomName(a)| > 0 && AtomName(a)[0] == (if a.Lambda? then 'l' else 't')
  {
  }
}
