/** The part of a loaded Bayesian network that the encoding reads: the
    variables in the network's own iteration order, each with its name, its
    domain size (the number of values it can take) and its ordered parents. */
module BayesNet {

  datatype Variable = Variable(name: string, card: nat, parents: seq<string>)

  type Network = seq<Variable>

  predicate HasVar(net: Network, name: string) {
    exists i :: 0 <= i < |net| && net[i].name == name
  }

  /** Every parent named anywhere is a variable of the network; a lookup of a
      missing parent is a fault in the program. */
  predicate ParentsPresent(net: Network) {
    forall i, j :: 0 <= i < |net| && 0 <= j < |net[i].parents| ==> HasVar(net, net[i].parents[j])
  }

  /** The domain size of the variable called `name`: the size of the value
      list a lookup by name returns (the first variable of that name). */
  function CardOf(net: Network, name: string): (d: nat)
    requires HasVar(net, name)
    ensures exists i :: 0 <= i < |net| && net[i].name == name && net[i].card == d
  {
    if net[0].name == name then net[0].card
    else
      assert HasVar(net[1..], name) by {
        var i :| 0 <= i < |net| && net[i].name == name;
        assert net[1..][i - 1].name == name;
      }
      CardOf(net[1..], name)
  }

  /** The domain sizes of the given parents, in parent order. */
  function ParentSizes(net: Network, ps: seq<string>): (sizes: seq<nat>)
    requires forall j :: 0 <= j < |ps| ==> HasVar(net, ps[j])
    ensures |sizes| == |ps|
    ensures forall j :: 0 <= j < |ps| ==>
      exists i :: 0 <= i < |net| && net[i].name == ps[j] && net[i].card == sizes[j]
  {
    var sizes := seq(|ps|, j requires 0 <= j < |ps| => CardOf(net, ps[j]));
    assert forall j :: 0 <= j < |ps| ==> sizes[j] == CardOf(net, ps[j]);
    sizes
  }
}
