/** The indicator clauses: the one-hot encoding of every variable, an
    at-least-one line and one at-most-one line per pair of values. */
module Indicators {
  import opened Decimal
  import opened Clauses
  import opened BayesNet

  /** The positive indicator literals of values 0 .. n-1 of variable v. */
  function Lambdas(v: string, n: nat): (ls: seq<Literal>)
    ensures |ls| == n
    ensures forall x :: 0 <= x < n ==> ls[x] == Pos(Lambda(v, x))
  {
    seq(n, x requires 0 <= x < n => Pos(Lambda(v, x)))
  }

  function AtLeastOne(v: string, d: nat): Clause {
    FalseOr(Lambdas(v, d))
  }

  /** The pairs (i, j) with i < j < d that share first value i, j ascending. */
  function Row(i: nat, d: nat): (r: seq<(nat, nat)>)
    ensures |r| == if i < d then d - i - 1 else 0
    ensures forall t :: 0 <= t < |r| ==> r[t] == (i, i + 1 + t)
  {
    seq(if i < d then d - i - 1 else 0, t requires t >= 0 => (i, i + 1 + t))
  }

  /** The rows of first values 0 .. i-1, in that order. */
  function PairsUpTo(i: nat, d: nat): seq<(nat, nat)> {
    if i == 0 then [] else PairsUpTo(i - 1, d) + Row(i - 1, d)
  }

  /** The value pairs of a domain of size d, in the order they are emitted. */
  function Pairs(d: nat): seq<(nat, nat)> {
    PairsUpTo(d, d)
  }

  function AtMostOne(v: string, p: (nat, nat)): Clause {
    Or([Neg(Lambda(v, p.0)), Neg(Lambda(v, p.1))])
  }

  function AtMostOnes(v: string, ps: seq<(nat, nat)>): (cs: seq<Clause>)
    ensures |cs| == |ps|
    ensures forall n :: 0 <= n < |ps| ==> cs[n] == AtMostOne(v, ps[n])
  {
    seq(|ps|, n requires 0 <= n < |ps| => AtMostOne(v, ps[n]))
  }

  /** The indicator clauses of one variable. */
  function IndicatorsOf(x: Variable): seq<Clause> {
    [AtLeastOne(x.name, x.card)] + AtMostOnes(x.name, Pairs(x.card))
  }

  /** The indicator clauses of the whole network, variable by variable. */
  function IndicatorSpec(net: Network): seq<Clause> {
    if net == [] then []
    else IndicatorSpec(net[..|net| - 1]) + IndicatorsOf(net[|net| - 1])
  }

  /** c is the at-most-one clause of some pair i < j of values of v. */
  predicate IsAtMostOneOf(c: Clause, v: string, d: nat) {
    exists i: nat, j: nat :: i < j < d && c == AtMostOne(v, (i, j))
  }

  predicate LexLess(a: (nat, nat), b: (nat, nat)) {
    a.0 < b.0 || (a.0 == b.0 && a.1 < b.1)
  }

  /** Builds the indicator lines of every variable, in network order. */
  method IndicatorClauses(net: Network) returns (clauses: seq<string>)
    ensures clauses == RenderAll(IndicatorSpec(net))
  {
    clauses := [];
    for n := 0 to |net|
      invariant clauses == RenderAll(IndicatorSpec(net[..n]))
    {
      assert net[..n + 1][..n] == net[..n];
      var v := net[n].name;
      var d := net[n].card;
      var clause := AtLeastOneLine(v, d);
      var pairLines := AtMostOneLines(v, d);
      RenderAllAppend(IndicatorSpec(net[..n]), IndicatorsOf(net[n]));
      RenderAllAppend([AtLeastOne(v, d)], AtMostOnes(v, Pairs(d)));
      clauses := clauses + [clause] + pairLines;
    }
    assert net[..|net|] == net;
  }

  /** The at-least-one line of variable v: `False`, then `||lambda_<v>_<x>`
      appended for each value x in ascending order. */
  method AtLeastOneLine(v: string, d: nat) returns (clause: string)
    ensures clause == ClauseText(AtLeastOne(v, d))
  {
    clause := "False";
    for x := 0 to d
      invariant clause == FalseOrText(Lambdas(v, x))
    {
      var literal := "lambda_" + v + "_" + NatToString(x);
      LambdasSnoc(v, x);
      clause := clause + "||" + literal;
    }
  }

  /** The at-most-one lines of variable v: `!lambda_<v>_<i>||!lambda_<v>_<j>`
      for every i < j, i in the outer loop and j in the inner one. */
  method AtMostOneLines(v: string, d: nat) returns (lines: seq<string>)
    ensures lines == RenderAll(AtMostOnes(v, Pairs(d)))
  {
    lines := [];
    for i := 0 to d
      invariant lines == RenderAll(AtMostOnes(v, PairsUpTo(i, d)))
    {
      var row := RowLines(v, i, d);
      AtMostOnesAppend(v, PairsUpTo(i, d), Row(i, d));
      lines := lines + row;
    }
  }

  /** The at-most-one lines whose first value is i, j ascending from i + 1. */
  method RowLines(v: string, i: nat, d: nat) returns (lines: seq<string>)
    requires i < d
    ensures lines == RenderAll(AtMostOnes(v, Row(i, d)))
  {
    lines := [];
    for j := i + 1 to d
      invariant lines == RenderAll(AtMostOnes(v, Row(i, d)[..j - i - 1]))
    {
      var first := "!lambda_" + v + "_" + NatToString(i);
      var second := "!lambda_" + v + "_" + NatToString(j);
      AtMostOneText(v, i, j);
      AtMostOnesSnoc(v, Row(i, d)[..j - i - 1], (i, j));
      assert Row(i, d)[..j - i] == Row(i, d)[..j - i - 1] + [(i, j)];
      lines := lines + [first + "||" + second];
    }
    assert Row(i, d)[..d - i - 1] == Row(i, d);
  }

  lemma AtMostOnesAppend(v: string, ps: seq<(nat, nat)>, qs: seq<(nat, nat)>)
    ensures RenderAll(AtMostOnes(v, ps + qs)) == RenderAll(AtMostOnes(v, ps)) + RenderAll(AtMostOnes(v, qs))
  {
    assert AtMostOnes(v, ps + qs) == AtMostOnes(v, ps) + AtMostOnes(v, qs);
    RenderAllAppend(AtMostOnes(v, ps), AtMostOnes(v, qs));
  }

  lemma AtMostOnesSnoc(v: string, ps: seq<(nat, nat)>, p: (nat, nat))
    ensures RenderAll(AtMostOnes(v, ps + [p])) == RenderAll(AtMostOnes(v, ps)) + [ClauseText(AtMostOne(v, p))]
  {
    assert AtMostOnes(v, ps + [p]) == AtMostOnes(v, ps) + [AtMostOne(v, p)];
    RenderAllAppend(AtMostOnes(v, ps), [AtMostOne(v, p)]);
  }

  lemma LambdasSnoc(v: string, x: nat)
    ensures FalseOrText(Lambdas(v, x + 1))
         == FalseOrText(Lambdas(v, x)) + "||" + ("lambda_" + v + "_" + NatToString(x))
  {
    assert Lambdas(v, x + 1)[..x] == Lambdas(v, x);
  }

  lemma NegLambdaText(v: string, x: nat)
    ensures LiteralText(Neg(Lambda(v, x))) == "!lambda_" + v + "_" + NatToString(x)
  {
    assert "!" + "lambda_" == "!lambda_";
  }

  lemma AtMostOneText(v: string, i: nat, j: nat)
    ensures ClauseText(AtMostOne(v, (i, j)))
         == ("!lambda_" + v + "_" + NatToString(i)) + "||" + ("!lambda_" + v + "_" + NatToString(j))
  {
    var ts := LiteralTexts([Neg(Lambda(v, i)), Neg(Lambda(v, j))]);
    assert ts[..1] == [ts[0]];
    assert Join(ts[..1], "||") == ts[0];
    assert Join(ts, "||") == ts[0] + "||" + ts[1];
    NegLambdaText(v, i);
    NegLambdaText(v, j);
  }

  /** Every emitted pair (i, j) of rows 0 .. i-1 has first value below i and
      satisfies i < j < d: no pair repeats a value. */
  lemma {:induction false} PairsUpToBounded(i: nat, d: nat)
    requires i <= d
    ensures forall n :: 0 <= n < |PairsUpTo(i, d)| ==>
      PairsUpTo(i, d)[n].0 < i && PairsUpTo(i, d)[n].0 < PairsUpTo(i, d)[n].1 < d
  {
    if i > 0 {
      PairsUpToBounded(i - 1, d);
    }
  }

  /** Every pair a < b < d with a below i is emitted by rows 0 .. i-1. */
  lemma {:induction false} PairsUpToComplete(i: nat, d: nat, a: nat, b: nat)
    requires a < i && a < b < d
    ensures (a, b) in PairsUpTo(i, d)
  {
    if a < i - 1 {
      PairsUpToComplete(i - 1, d, a, b);
    } else {
      assert Row(a, d)[b - a - 1] == (a, b);
    }
  }

  /** The pairs come in strictly increasing lexicographic order. */
  lemma {:induction false} PairsUpToSorted(i: nat, d: nat)
    requires i <= d
    ensures forall p, q :: 0 <= p < q < |PairsUpTo(i, d)| ==> LexLess(PairsUpTo(i, d)[p], PairsUpTo(i, d)[q])
  {
    if i > 0 {
      var prev := PairsUpTo(i - 1, d);
      PairsUpToSorted(i - 1, d);
      PairsUpToBounded(i - 1, d);
      assert PairsUpTo(i, d) == prev + Row(i - 1, d);
      forall p, q | 0 <= p < q < |PairsUpTo(i, d)|
        ensures LexLess(PairsUpTo(i, d)[p], PairsUpTo(i, d)[q])
      {
        if q < |prev| {
          assert PairsUpTo(i, d)[p] == prev[p] && PairsUpTo(i, d)[q] == prev[q];
        } else if p < |prev| {
          assert PairsUpTo(i, d)[p] == prev[p];
        }
      }
    }
  }

  /** Rows 0 .. i-1 hold i(2d - i - 1)/2 pairs, counted twice to stay in integers. */
  lemma {:induction false} PairsUpToCount(i: nat, d: nat)
    requires i <= d
    ensures 2 * |PairsUpTo(i, d)| == i * (2 * d - i - 1)
  {
    if i > 0 {
      PairsUpToCount(i - 1, d);
      assert |PairsUpTo(i, d)| == |PairsUpTo(i - 1, d)| + (d - i);
      assert (i - 1) * (2 * d - i) + 2 * (d - i) == i * (2 * d - i - 1);
    }
  }

  /** The at-most-one pairs of a domain of size d are exactly the pairs
      i < j < d, each once, in lexicographic order, d(d-1)/2 of them. */
  lemma PairsExactly(d: nat)
    ensures forall a: nat, b: nat :: (a, b) in Pairs(d) <==> a < b < d
    ensures forall p, q :: 0 <= p < q < |Pairs(d)| ==> LexLess(Pairs(d)[p], Pairs(d)[q])
    ensures 2 * |Pairs(d)| == d * (d - 1)
  {
    PairsUpToBounded(d, d);
    PairsUpToSorted(d, d);
    PairsUpToCount(d, d);
    forall a: nat, b: nat | a < b < d
      ensures (a, b) in Pairs(d)
    {
      PairsUpToComplete(d, d, a, b);
    }
  }

  /** One variable of domain size d gets 1 + d(d-1)/2 indicator clauses: the
      at-least-one line first, then one line per pair of values. */
  lemma IndicatorCount(x: Variable)
    ensures |IndicatorsOf(x)| == 1 + x.card * (x.card - 1) / 2
    ensures IndicatorsOf(x)[0] == AtLeastOne(x.name, x.card)
    ensures forall n :: 1 <= n < |IndicatorsOf(x)| ==> IsAtMostOneOf(IndicatorsOf(x)[n], x.name, x.card)
  {
    PairsExactly(x.card);
    PairsUpToBounded(x.card, x.card);
    var ps := Pairs(x.card);
    forall n | 1 <= n < |IndicatorsOf(x)|
      ensures IsAtMostOneOf(IndicatorsOf(x)[n], x.name, x.card)
    {
      var (i, j) := ps[n - 1];
      assert i < j < x.card;
      assert IndicatorsOf(x)[n] == AtMostOne(x.name, (i, j));
    }
  }

  /** The at-least-one line reads `False` followed by `||lambda_<v>_<x>` for
      x = 0 .. d-1 in ascending order. */
  lemma AtLeastOneText(v: string, d: nat)
    ensures ClauseText(AtLeastOne(v, d))
         == "False" + Concat(seq(d, x requires 0 <= x < d => "||" + ("lambda_" + v + "_" + NatToString(x))))
  {
    var ls := Lambdas(v, d);
    FalseOrTextIsConcat(ls);
    assert BarredTexts(ls) == seq(d, x requires 0 <= x < d => "||" + ("lambda_" + v + "_" + NatToString(x)));
  }

  /** For a one-value variable the at-least-one line is `False||lambda_<v>_0`. */
  lemma AtLeastOneTextSingle(v: string)
    ensures ClauseText(AtLeastOne(v, 1)) == "False||lambda_" + v + "_0"
  {
    LambdasSnoc(v, 0);
    assert Lambdas(v, 0) == [];
    assert NatToString(0) == "0";
    assert "False" + "||" + ("lambda_" + v + "_" + "0") == "False||lambda_" + v + "_0";
  }

  /** Each at-most-one line of a variable reads `!lambda_<v>_<i>||!lambda_<v>_<j>`
      for its pair (i, j), with i < j < d. */
  lemma AtMostOneLineText(v: string, d: nat, n: nat)
    requires n < |Pairs(d)|
    ensures Pairs(d)[n].0 < Pairs(d)[n].1 < d
    ensures RenderAll(AtMostOnes(v, Pairs(d)))[n]
         == "!lambda_" + v + "_" + NatToString(Pairs(d)[n].0) + "||!lambda_" + v + "_" + NatToString(Pairs(d)[n].1)
  {
    PairsUpToBounded(d, d);
    var (i, j) := Pairs(d)[n];
    AtMostOneText(v, i, j);
    var a := "!lambda_" + v + "_" + NatToString(i);
    assert a + "||" + ("!lambda_" + v + "_" + NatToString(j)) == a + "||!lambda_" + v + "_" + NatToString(j);
  }

  lemma IndicatorSpecSnoc(net: Network, x: Variable)
    ensures IndicatorSpec(net + [x]) == IndicatorSpec(net) + IndicatorsOf(x)
  {
    assert (net + [x])[..|net|] == net;
  }

  /** The indicator clauses of a network split at any point are those of the
      first part followed by those of the second: they are grouped per
      variable, in network order. */
  lemma {:induction false} IndicatorSpecAppend(a: Network, b: Network)
    ensures IndicatorSpec(a + b) == IndicatorSpec(a) + IndicatorSpec(b)
  {
    if b == [] {
      assert a + b == a;
    } else {
      var b', x := b[..|b| - 1], b[|b| - 1];
      IndicatorSpecAppend(a, b');
      assert b == b' + [x];
      assert a + b == (a + b') + [x];
      IndicatorSpecSnoc(a + b', x);
      IndicatorSpecSnoc(b', x);
      ClausesAssoc(IndicatorSpec(a), IndicatorSpec(b'), IndicatorsOf(x));
    }
  }

  lemma IndicatorSpecSingle(x: Variable)
    ensures IndicatorSpec([x]) == IndicatorsOf(x)
  {
    assert [x][..0] == [];
  }
}
