/** The ENC1 encoding of a whole network: the indicator lines of all
    variables followed by the parameter lines of all variables. */
module Enc1 {
  import opened Decimal
  import opened Clauses
  import opened BayesNet
  import opened Indicators
  import opened ParentConfigs
  import opened Parameters

  function Encoding(net: Network): seq<Clause>
    requires ParentsPresent(net)
  {
    IndicatorSpec(net) + ParameterSpec(net)
  }

  /** Computes both lists and returns their concatenation, nothing added,
      dropped or reordered. */
  method Enc1Encoding(net: Network) returns (clauses: seq<string>)
    requires ParentsPresent(net)
    ensures clauses == RenderAll(Encoding(net))
    ensures |clauses| == |IndicatorSpec(net)| + |ParameterSpec(net)|
    ensures clauses[..|IndicatorSpec(net)|] == RenderAll(IndicatorSpec(net))
    ensures clauses[|IndicatorSpec(net)|..] == RenderAll(ParameterSpec(net))
  {
    var indicatorClauses := IndicatorClauses(net);
    var parameterClauses := ParameterClauses(net);
    RenderAllAppend(IndicatorSpec(net), ParameterSpec(net));
    clauses := indicatorClauses + parameterClauses;
  }

  /** The number of indicator lines a network gets: 1 + d(d-1)/2 per variable. */
  function IndicatorTotal(net: Network): nat {
    if net == [] then 0
    else IndicatorTotal(net[..|net| - 1]) + 1 + net[|net| - 1].card * (net[|net| - 1].card - 1) / 2
  }

  lemma {:induction false} IndicatorTotalCount(net: Network)
    ensures |IndicatorSpec(net)| == IndicatorTotal(net)
  {
    if net != [] {
      IndicatorTotalCount(net[..|net| - 1]);
      IndicatorCount(net[|net| - 1]);
    }
  }

  lemma BinaryAtLeastOne()
    ensures ClauseText(AtLeastOne("A", 2)) == "False||lambda_A_0||lambda_A_1"
  {
    AtLeastOneTextSingle("A");
    LambdasSnoc("A", 1);
    assert NatToString(0) == "0" && NatToString(1) == "1";
    AtLeastOneGlue();
  }

  lemma AtLeastOneGlue()
    ensures ("False||lambda_" + "A" + "_0") + "||" + ("lambda_" + "A" + "_" + "1") == "False||lambda_A_0||lambda_A_1"
  {
  }

  lemma BinaryAtMostOne()
    ensures RenderAll(AtMostOnes("A", Pairs(2))) == ["!lambda_A_0||!lambda_A_1"]
  {
    assert NatToString(0) == "0" && NatToString(1) == "1";
    assert Pairs(2) == [(0, 1)] by {
      assert PairsUpTo(1, 2) == [(0, 1)];
      assert Row(1, 2) == [];
    }
    AtMostOneText("A", 0, 1);
    assert ("!lambda_" + "A" + "_" + "0") + "||" + ("!lambda_" + "A" + "_" + "1") == "!lambda_A_0||!lambda_A_1";
    assert AtMostOnes("A", Pairs(2))[0] == AtMostOne("A", (0, 1));
    assert RenderAll(AtMostOnes("A", Pairs(2)))[0] == "!lambda_A_0||!lambda_A_1";
  }

  lemma BinaryIndicators(a: Variable)
    requires a == Variable("A", 2, [])
    ensures RenderAll(IndicatorsOf(a)) == ["False||lambda_A_0||lambda_A_1", "!lambda_A_0||!lambda_A_1"]
  {
    BinaryAtLeastOne();
    BinaryAtMostOne();
    RenderAllAppend([AtLeastOne("A", 2)], AtMostOnes("A", Pairs(2)));
  }

  lemma BinaryPriors(net: Network)
    requires net == [Variable("A", 2, [])]
    ensures ParentsPresent(net)
    ensures RenderAll(ParameterSpec(net)) == ["theta_A_0", "theta_A_1"]
  {
    assert NatToString(0) == "0" && NatToString(1) == "1";
    assert net[..0] == [];
    assert ParametersOver(net, net[..0]) == [];
    assert ParameterSpec(net) == ParametersOf(net, net[0]);
    ParentlessParameters(net, net[0]);
    assert "theta_" + "A" + "_" + "0" == "theta_A_0" && "theta_" + "A" + "_" + "1" == "theta_A_1";
    assert RenderAll(ParameterSpec(net))[0] == "theta_A_0";
    assert RenderAll(ParameterSpec(net))[1] == "theta_A_1";
  }

  /** A single two-valued variable A without parents is encoded as the four
      lines `False||lambda_A_0||lambda_A_1`, `!lambda_A_0||!lambda_A_1`,
      `theta_A_0` and `theta_A_1`. */
  lemma SingleBinaryVariable()
    ensures ParentsPresent([Variable("A", 2, [])])
    ensures RenderAll(Encoding([Variable("A", 2, [])]))
         == ["False||lambda_A_0||lambda_A_1", "!lambda_A_0||!lambda_A_1", "theta_A_0", "theta_A_1"]
  {
    var a := Variable("A", 2, []);
    BinaryPriors([a]);
    IndicatorSpecSingle(a);
    BinaryIndicators(a);
    RenderAllAppend(IndicatorSpec([a]), ParameterSpec([a]));
  }


  /** The configurations of a single two-valued parent are [0] and [1]. */
  lemma TwoValuedParentConfigs(net: Network, x: Variable)
    requires ParentsIn(net, x) && |x.parents| == 1 && CardOf(net, x.parents[0]) == 2
    ensures ConfigsOf(net, x) == [[0], [1]]
  {
    var sizes := ParentSizes(net, x.parents);
    assert sizes[0] == CardOf(net, x.parents[0]);
    var cs := ConfigsOf(net, x);
    assert cs == Configs(sizes);
    OneParentConfigs(sizes, cs);
  }

  lemma OneParentConfigs(sizes: seq<nat>, cs: seq<seq<nat>>)
    requires |sizes| == 1 && sizes[0] == 2 && cs == Configs(sizes)
    ensures cs == [[0], [1]]
  {
    ConfigsUniform(sizes, 2);
    ConfigsLength(sizes);
    assert |cs| == 2 by { assert Pow(2, 1) == 2; }
    OneDigitValue(cs[0]);
    OneDigitValue(cs[1]);
  }

  lemma OneDigitValue(t: seq<nat>)
    requires |t| == 1
    ensures t == [Value(t, 2)]
  {
    assert t[1..] == [];
  }

  /** With one parent p, the line of configuration c and value y reads
      `lambda_<p>_<value of p in c><=>theta_<v>_<y>`. */
  lemma SingleParentLine(net: Network, x: Variable, c: nat, y: nat, k: nat)
    requires ParentsIn(net, x) && |x.parents| == 1
    requires c < |ConfigsOf(net, x)| && y < x.card && k == c * x.card + y
    ensures k < |ParametersOf(net, x)|
    ensures ClauseText(ParametersOf(net, x)[k])
         == "lambda_" + x.parents[0] + "_" + NatToString(ConfigsOf(net, x)[c][0])
            + "<=>theta_" + x.name + "_" + NatToString(y)
  {
    ParentedParameters(net, x, c, y, k);
    var lt := LambdaTexts(x.parents, ConfigsOf(net, x)[c]);
    assert |lt| == 1;
    assert Join(lt, "||") == lt[0];
  }

  /** The parameter line of value y of v under the configuration in which
      its single parent p has value c. */
  function SingleParentText(p: string, c: nat, v: string, y: nat): string {
    "lambda_" + p + "_" + NatToString(c) + "<=>theta_" + v + "_" + NatToString(y)
  }

  lemma SingleParentLineAt(net: Network, x: Variable, c: nat, y: nat, k: nat)
    requires ParentsIn(net, x) && |x.parents| == 1 && CardOf(net, x.parents[0]) == 2 && x.card == 2
    requires c < 2 && y < 2 && k == 2 * c + y
    ensures k < |ParametersOf(net, x)|
    ensures ClauseText(ParametersOf(net, x)[k]) == SingleParentText(x.parents[0], c, x.name, y)
  {
    TwoValuedParentConfigs(net, x);
    assert k == c * x.card + y;
    SingleParentLine(net, x, c, y, k);
    assert ConfigsOf(net, x)[c][0] == c;
  }

  lemma TwoValuedParentCount(net: Network, x: Variable)
    requires ParentsIn(net, x) && |x.parents| == 1 && CardOf(net, x.parents[0]) == 2 && x.card == 2
    ensures |ParametersOf(net, x)| == 4
  {
    TwoValuedParentConfigs(net, x);
    ParentedParameters(net, x, 0, 0, 0);
    var n := |ConfigsOf(net, x)|;
    assert n * x.card == 4 by { assert n == 2; }
  }

  /** A two-valued variable v with one two-valued parent p gets exactly four
      lines, `lambda_p_<c><=>theta_v_<y>` for c = 0, 1 (outer) and y = 0, 1
      (inner): a positive parent literal, `<=>`, and a theta named by v and
      its value alone. */
  lemma TwoValuedParentLines(net: Network, x: Variable)
    requires ParentsIn(net, x) && |x.parents| == 1 && CardOf(net, x.parents[0]) == 2 && x.card == 2
    ensures |ParametersOf(net, x)| == 4
    ensures ClauseText(ParametersOf(net, x)[0]) == SingleParentText(x.parents[0], 0, x.name, 0)
    ensures ClauseText(ParametersOf(net, x)[1]) == SingleParentText(x.parents[0], 0, x.name, 1)
    ensures ClauseText(ParametersOf(net, x)[2]) == SingleParentText(x.parents[0], 1, x.name, 0)
    ensures ClauseText(ParametersOf(net, x)[3]) == SingleParentText(x.parents[0], 1, x.name, 1)
  {
    TwoValuedParentCount(net, x);
    SingleParentLineAt(net, x, 0, 0, 0);
    SingleParentLineAt(net, x, 0, 1, 1);
    SingleParentLineAt(net, x, 1, 0, 2);
    SingleParentLineAt(net, x, 1, 1, 3);
  }

  lemma ChainLines(r: seq<string>)
    requires |r| == 4
    requires r[0] == SingleParentText("A", 0, "B", 0) && r[1] == SingleParentText("A", 0, "B", 1)
    requires r[2] == SingleParentText("A", 1, "B", 0) && r[3] == SingleParentText("A", 1, "B", 1)
    ensures r == ["lambda_A_0<=>theta_B_0", "lambda_A_0<=>theta_B_1", "lambda_A_1<=>theta_B_0", "lambda_A_1<=>theta_B_1"]
  {
    assert NatToString(0) == "0" && NatToString(1) == "1";
    ChainLine(0, 0, '0', '0');
    ChainLine(0, 1, '0', '1');
    ChainLine(1, 0, '1', '0');
    ChainLine(1, 1, '1', '1');
    FourElements(r, "lambda_A_0<=>theta_B_0", "lambda_A_0<=>theta_B_1", "lambda_A_1<=>theta_B_0", "lambda_A_1<=>theta_B_1");
  }

  lemma ChainLine(c: nat, y: nat, cc: char, yc: char)
    requires NatToString(c) == [cc] && NatToString(y) == [yc]
    ensures SingleParentText("A", c, "B", y) == ['l', 'a', 'm', 'b', 'd', 'a', '_', 'A', '_', cc, '<', '=', '>',
      't', 'h', 'e', 't', 'a', '_', 'B', '_', yc]
  {
    assert "lambda_" + "A" + "_" == "lambda_A_";
    assert "<=>theta_" + "B" + "_" == "<=>theta_B_";
  }

  lemma FourElements<T>(r: seq<T>, a: T, b: T, c: T, d: T)
    requires |r| == 4 && r[0] == a && r[1] == b && r[2] == c && r[3] == d
    ensures r == [a, b, c, d]
  {
  }

  /** In a network whose first variable is a two-valued A and whose second is
      a two-valued B with parent A, B's parameter lines are
      `lambda_A_0<=>theta_B_0`, `lambda_A_0<=>theta_B_1`,
      `lambda_A_1<=>theta_B_0` and `lambda_A_1<=>theta_B_1`. */
  lemma TwoNodeChain(net: Network)
    requires |net| == 2 && net[0].name == "A" && net[0].card == 2
    requires net[1] == Variable("B", 2, ["A"])
    ensures ParentsIn(net, net[1])
    ensures RenderAll(ParametersOf(net, net[1]))
         == ["lambda_A_0<=>theta_B_0", "lambda_A_0<=>theta_B_1", "lambda_A_1<=>theta_B_0", "lambda_A_1<=>theta_B_1"]
  {
    assert HasVar(net, "A") by { assert net[0].name == "A"; }
    assert CardOf(net, "A") == 2;
    TwoValuedParentLines(net, net[1]);
    ChainLines(RenderAll(ParametersOf(net, net[1])));
  }
}
