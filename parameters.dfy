/** The parameter lines. A variable without parents gets one bare
    `theta_<v>_<x>` per value x. A variable with parents gets, for every
    configuration c and then every value x, the line
    `lambda_<p1>_<c1>||...||lambda_<pk>_<ck><=>theta_<v>_<x>`: parent
    literals positive, and the theta name not keyed by the configuration. */
module Parameters {
  import opened Decimal
  import opened Clauses
  import opened BayesNet
  import opened ParentConfigs

  /** The parent literals of one configuration, in parent order. */
  function ParentLiterals(parents: seq<string>, c: seq<nat>): (ls: seq<Literal>)
    requires |c| == |parents|
    ensures |ls| == |parents|
    ensures forall i :: 0 <= i < |parents| ==> ls[i] == Pos(Lambda(parents[i], c[i]))
  {
    seq(|parents|, i requires 0 <= i < |parents| => Pos(Lambda(parents[i], c[i])))
  }

  /** The lines of one configuration, one per value of the variable. */
  function ConfigRow(v: string, d: nat, parents: seq<string>, c: seq<nat>): (r: seq<Clause>)
    requires |c| == |parents|
    ensures |r| == d
    ensures forall x :: 0 <= x < d ==> r[x] == Iff(ParentLiterals(parents, c), Pos(Theta(v, x)))
  {
    seq(d, x requires 0 <= x < d => Iff(ParentLiterals(parents, c), Pos(Theta(v, x))))
  }

  predicate AllOfLength(cs: seq<seq<nat>>, k: nat) {
    forall n :: 0 <= n < |cs| ==> |cs[n]| == k
  }

  /** The lines of the configurations, configuration by configuration. */
  function ConfigRows(v: string, d: nat, parents: seq<string>, cs: seq<seq<nat>>): seq<Clause>
    requires AllOfLength(cs, |parents|)
  {
    if cs == [] then []
    else ConfigRows(v, d, parents, cs[..|cs| - 1]) + ConfigRow(v, d, parents, cs[|cs| - 1])
  }

  /** The bare theta lines of a parentless variable. */
  function Priors(v: string, d: nat): (r: seq<Clause>)
    ensures |r| == d
    ensures forall x :: 0 <= x < d ==> r[x] == Or([Pos(Theta(v, x))])
  {
    seq(d, x requires 0 <= x < d => Or([Pos(Theta(v, x))]))
  }

  predicate ParentsIn(net: Network, x: Variable) {
    forall j :: 0 <= j < |x.parents| ==> HasVar(net, x.parents[j])
  }

  /** The configurations of a variable's parents, looked up in the network. */
  function ConfigsOf(net: Network, x: Variable): (cs: seq<seq<nat>>)
    requires ParentsIn(net, x)
    ensures AllOfLength(cs, |x.parents|)
  {
    var sizes := ParentSizes(net, x.parents);
    ConfigsLength(sizes);
    Configs(sizes)
  }

  /** The parameter lines of one variable. */
  function ParametersOf(net: Network, x: Variable): seq<Clause>
    requires ParentsIn(net, x)
  {
    if |x.parents| == 0 then Priors(x.name, x.card)
    else ConfigRows(x.name, x.card, x.parents, ConfigsOf(net, x))
  }

  predicate AllParentsIn(net: Network, vs: seq<Variable>) {
    forall n :: 0 <= n < |vs| ==> ParentsIn(net, vs[n])
  }

  /** The parameter lines of the variables vs, looked up in net, in order. */
  function ParametersOver(net: Network, vs: seq<Variable>): seq<Clause>
    requires AllParentsIn(net, vs)
  {
    if vs == [] then []
    else ParametersOver(net, vs[..|vs| - 1]) + ParametersOf(net, vs[|vs| - 1])
  }

  function ParameterSpec(net: Network): seq<Clause>
    requires ParentsPresent(net)
  {
    ParametersOver(net, net)
  }

  /** Builds the parameter lines of every variable, in network order. */
  method ParameterClauses(net: Network) returns (clauses: seq<string>)
    requires ParentsPresent(net)
    ensures clauses == RenderAll(ParameterSpec(net))
  {
    clauses := [];
    for n := 0 to |net|
      invariant clauses == RenderAll(ParametersOver(net, net[..n]))
    {
      assert net[..n + 1][..n] == net[..n];
      var lines := VariableLines(net, net[n]);
      RenderAllAppend(ParametersOver(net, net[..n]), ParametersOf(net, net[n]));
      clauses := clauses + lines;
    }
    assert net[..|net|] == net;
  }

  /** The parameter lines of one variable: look up the parents' domain
      sizes, enumerate their configurations when there are parents, and
      emit the lines. */
  method VariableLines(net: Network, x: Variable) returns (lines: seq<string>)
    requires ParentsIn(net, x)
    ensures lines == RenderAll(ParametersOf(net, x))
  {
    var sizes: seq<nat> := [];
    for j := 0 to |x.parents|
      invariant sizes == ParentSizes(net, x.parents[..j])
    {
      sizes := sizes + [CardOf(net, x.parents[j])];
    }
    assert x.parents[..|x.parents|] == x.parents;
    if |x.parents| != 0 {
      var indices := new nat[|x.parents|](_ => 0);
      assert indices[|x.parents|..] == [];
      var configs := Configurations(indices, |x.parents|, sizes, []);
      EnumerateFromTop(sizes);
      assert configs == ConfigsOf(net, x);
      lines := ParentedLines(x.name, x.card, x.parents, configs);
    } else {
      lines := PriorLines(x.name, x.card);
    }
  }

  /** `theta_<v>_<x>` for every value x, ascending. */
  method PriorLines(v: string, d: nat) returns (lines: seq<string>)
    ensures lines == RenderAll(Priors(v, d))
  {
    lines := [];
    for x := 0 to d
      invariant lines == RenderAll(Priors(v, x))
    {
      var theta := "theta_" + v + "_" + NatToString(x);
      PriorText(v, x);
      assert Priors(v, x + 1) == Priors(v, x) + [Or([Pos(Theta(v, x))])];
      RenderAllAppend(Priors(v, x), [Or([Pos(Theta(v, x))])]);
      lines := lines + [theta];
    }
  }

  /** For every configuration in turn: join the parent literals with `||`,
      then emit `<joined><=>theta_<v>_<x>` for every value x. */
  method ParentedLines(v: string, d: nat, parents: seq<string>, configs: seq<seq<nat>>)
      returns (lines: seq<string>)
    requires AllOfLength(configs, |parents|)
    ensures lines == RenderAll(ConfigRows(v, d, parents, configs))
  {
    lines := [];
    for n := 0 to |configs|
      invariant lines == RenderAll(ConfigRows(v, d, parents, configs[..n]))
    {
      var config := configs[n];
      var clause := JoinedParents(parents, config);
      var rowLines := ConfigLines(v, d, parents, config, clause);
      ConfigRowsPrefix(v, d, parents, configs, n);
      lines := lines + rowLines;
    }
    assert configs[..|configs|] == configs;
  }

  /** Taking one more configuration appends that configuration's lines. */
  lemma ConfigRowsPrefix(v: string, d: nat, parents: seq<string>, cs: seq<seq<nat>>, n: nat)
    requires AllOfLength(cs, |parents|) && n < |cs|
    ensures RenderAll(ConfigRows(v, d, parents, cs[..n + 1]))
         == RenderAll(ConfigRows(v, d, parents, cs[..n])) + RenderAll(ConfigRow(v, d, parents, cs[n]))
  {
    PrefixOfPrefix(cs, n);
    RenderAllAppend(ConfigRows(v, d, parents, cs[..n]), ConfigRow(v, d, parents, cs[n]));
  }

  lemma PrefixOfPrefix<T>(s: seq<T>, n: nat)
    requires n < |s|
    ensures s[..n + 1][..n] == s[..n] && s[..n + 1][n] == s[n]
  {
  }


  /** The lines of one configuration: `<clause><=>theta_<v>_<x>` for every
      value x of v, where clause is the joined parent half. */
  method ConfigLines(v: string, d: nat, parents: seq<string>, config: seq<nat>, clause: string)
      returns (lines: seq<string>)
    requires |config| == |parents|
    requires clause == Join(LiteralTexts(ParentLiterals(parents, config)), "||")
    ensures lines == RenderAll(ConfigRow(v, d, parents, config))
  {
    lines := [];
    var theta := "theta_" + v;
    ghost var row := ConfigRow(v, d, parents, config);
    for x := 0 to d
      invariant lines == RenderAll(row[..x])
    {
      var thetaN := theta + "_" + NatToString(x);
      assert thetaN == LiteralText(Pos(Theta(v, x)));
      assert row[..x + 1] == row[..x] + [row[x]];
      RenderAllAppend(row[..x], [row[x]]);
      lines := lines + [clause + "<=>" + thetaN];
    }
    assert row[..d] == row;
  }

  /** The parent half of a parented line: `lambda_<p>_<c_p>` for every
      parent, joined with `||`. */
  method JoinedParents(parents: seq<string>, config: seq<nat>) returns (clause: string)
    requires |config| == |parents|
    ensures clause == Join(LiteralTexts(ParentLiterals(parents, config)), "||")
  {
    var parts: seq<string> := [];
    for i := 0 to |parents|
      invariant parts == LiteralTexts(ParentLiterals(parents, config)[..i])
    {
      parts := parts + ["lambda_" + parents[i] + "_" + NatToString(config[i])];
      assert ParentLiterals(parents, config)[..i + 1]
          == ParentLiterals(parents, config)[..i] + [Pos(Lambda(parents[i], config[i]))];
    }
    assert ParentLiterals(parents, config)[..|parents|] == ParentLiterals(parents, config);
    clause := Join(parts, "||");
  }

  lemma PriorText(v: string, x: nat)
    ensures ClauseText(Or([Pos(Theta(v, x))])) == "theta_" + v + "_" + NatToString(x)
  {
    assert LiteralTexts([Pos(Theta(v, x))]) == [AtomName(Theta(v, x))];
  }

  /** A parentless variable of domain size d contributes exactly d lines,
      `theta_<v>_<x>` for x = 0 .. d-1 in ascending order. */
  lemma ParentlessParameters(net: Network, x: Variable)
    requires ParentsIn(net, x) && |x.parents| == 0
    ensures |ParametersOf(net, x)| == x.card
    ensures forall i :: 0 <= i < x.card ==>
      ClauseText(ParametersOf(net, x)[i]) == "theta_" + x.name + "_" + NatToString(i)
  {
    forall i | 0 <= i < x.card
      ensures ClauseText(ParametersOf(net, x)[i]) == "theta_" + x.name + "_" + NatToString(i)
    {
      PriorText(x.name, i);
    }
  }

  /** The lines come configuration by configuration, and within one
      configuration value by value: line c*d + y belongs to configuration c
      and value y. */
  lemma {:induction false} ConfigRowsIndex(v: string, d: nat, parents: seq<string>, cs: seq<seq<nat>>, c: nat, y: nat, k: nat)
    requires AllOfLength(cs, |parents|)
    requires c < |cs| && y < d && k == c * d + y
    ensures k < |ConfigRows(v, d, parents, cs)|
    ensures ConfigRows(v, d, parents, cs)[k] == Iff(ParentLiterals(parents, cs[c]), Pos(Theta(v, y)))
    ensures |ConfigRows(v, d, parents, cs)| == |cs| * d
  {
    var init := cs[..|cs| - 1];
    ConfigRowsLength(v, d, parents, init);
    assert (|init| + 1) * d == |init| * d + d;
    if c < |init| {
      ConfigRowsIndex(v, d, parents, init, c, y, k);
      assert (c + 1) * d == c * d + d;
      MulMonotone(c + 1, |init|, d);
    }
  }

  lemma {:induction false} ConfigRowsLength(v: string, d: nat, parents: seq<string>, cs: seq<seq<nat>>)
    requires AllOfLength(cs, |parents|)
    ensures |ConfigRows(v, d, parents, cs)| == |cs| * d
  {
    if cs != [] {
      ConfigRowsLength(v, d, parents, cs[..|cs| - 1]);
      assert (|cs| - 1 + 1) * d == (|cs| - 1) * d + d;
    }
  }

  /** The parent half of a parented line, written out: the parent literals
      `lambda_<p_i>_<c_i>` in parent order. */
  function LambdaTexts(parents: seq<string>, c: seq<nat>): (r: seq<string>)
    requires |c| == |parents|
    ensures |r| == |parents|
  {
    seq(|parents|, i requires 0 <= i < |parents| => "lambda_" + parents[i] + "_" + NatToString(c[i]))
  }

  /** A parented variable of domain size d with configurations cs contributes
      exactly |cs| * d lines; line c*d + y reads
      `lambda_<p1>_<c1>||...||lambda_<pk>_<ck><=>theta_<v>_<y>` for the c-th
      configuration: positive parent literals, theta named by v and y only. */
  lemma ParentedParameters(net: Network, x: Variable, c: nat, y: nat, k: nat)
    requires ParentsIn(net, x) && |x.parents| > 0
    requires c < |ConfigsOf(net, x)| && y < x.card && k == c * x.card + y
    ensures k < |ParametersOf(net, x)|
    ensures ClauseText(ParametersOf(net, x)[k])
         == Join(LambdaTexts(x.parents, ConfigsOf(net, x)[c]), "||") + "<=>theta_" + x.name + "_" + NatToString(y)
    ensures |ParametersOf(net, x)| == |ConfigsOf(net, x)| * x.card
  {
    var cs := ConfigsOf(net, x);
    ConfigRowsIndex(x.name, x.card, x.parents, cs, c, y, k);
    IffText(x.parents, cs[c], x.name, y);
  }

  lemma IffText(parents: seq<string>, c: seq<nat>, v: string, y: nat)
    requires |c| == |parents|
    ensures ClauseText(Iff(ParentLiterals(parents, c), Pos(Theta(v, y))))
         == Join(LambdaTexts(parents, c), "||") + "<=>theta_" + v + "_" + NatToString(y)
  {
    var j := Join(LambdaTexts(parents, c), "||");
    assert LiteralTexts(ParentLiterals(parents, c)) == LambdaTexts(parents, c);
    assert j + "<=>" + ("theta_" + v + "_" + NatToString(y)) == j + "<=>theta_" + v + "_" + NatToString(y);
  }



  /** The number of lines of a parented variable: its domain size times the
      number of configurations, which is the product of min(d_i + 1, M) over
      the parents' domain sizes d_i, M the largest. */
  lemma ParentedCount(net: Network, x: Variable)
    requires ParentsIn(net, x) && |x.parents| > 0
    ensures |ParametersOf(net, x)|
         == Survivors(ParentSizes(net, x.parents), MaxOf(ParentSizes(net, x.parents))) * x.card
  {
    ConfigRowsLength(x.name, x.card, x.parents, ConfigsOf(net, x));
    ConfigsCount(ParentSizes(net, x.parents));
  }

  /** The parameter lines of a list of variables split at any point are those
      of the first part followed by those of the second. */
  lemma {:induction false} ParametersOverAppend(net: Network, a: seq<Variable>, b: seq<Variable>)
    requires AllParentsIn(net, a) && AllParentsIn(net, b)
    ensures AllParentsIn(net, a + b)
    ensures ParametersOver(net, a + b) == ParametersOver(net, a) + ParametersOver(net, b)
  {
    AllParentsInAppend(net, a, b);
    if b == [] {
      assert a + b == a;
    } else {
      var b', x := b[..|b| - 1], b[|b| - 1];
      ParametersOverLast(net, b);
      ParametersOverAppend(net, a, b');
      ParametersOverLast(net, a + b);
      assert (a + b)[..|a + b| - 1] == a + b';
      assert (a + b)[|a + b| - 1] == x;
      ClausesAssoc(ParametersOver(net, a), ParametersOver(net, b'), ParametersOf(net, x));
    }
  }

  lemma ParametersOverLast(net: Network, vs: seq<Variable>)
    requires AllParentsIn(net, vs) && vs != []
    ensures AllParentsIn(net, vs[..|vs| - 1])
    ensures ParametersOver(net, vs) == ParametersOver(net, vs[..|vs| - 1]) + ParametersOf(net, vs[|vs| - 1])
  {
  }

  lemma AllParentsInAppend(net: Network, a: seq<Variable>, b: seq<Variable>)
    requires AllParentsIn(net, a) && AllParentsIn(net, b)
    ensures AllParentsIn(net, a + b)
  {
    forall n | 0 <= n < |a + b|
      ensures ParentsIn(net, (a + b)[n])
    {
      if n >= |a| {
        assert (a + b)[n] == b[n - |a|];
      }
    }
  }


}
