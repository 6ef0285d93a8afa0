/** The current numbers of nodes, nets and pins, defined from scratch. */
module Sizes {
  import opened Sums
  import opened NLevel

  function PinsOfNet(n: Net): int {
    if n.enabled then |n.pins| else 0
  }

  function NumPins(nets: seq<Net>): int {
    Sum(seq(|nets|, e requires 0 <= e < |nets| => PinsOfNet(nets[e])))
  }

  function NumNodes(nodes: seq<Node>): int {
    Sum(seq(|nodes|, v requires 0 <= v < |nodes| => if nodes[v].enabled then 1 else 0))
  }

  function NumNets(nets: seq<Net>): int {
    Sum(seq(|nets|, e requires 0 <= e < |nets| => if nets[e].enabled then 1 else 0))
  }

  lemma AllEnabled(nodes: seq<Node>, nets: seq<Net>)
    requires forall v | 0 <= v < |nodes| :: nodes[v].enabled
    requires forall e | 0 <= e < |nets| :: nets[e].enabled
    ensures NumNodes(nodes) == |nodes| && NumNets(nets) == |nets|
  {
    SumConstant(seq(|nodes|, v requires 0 <= v < |nodes| => if nodes[v].enabled then 1 else 0), 1);
    SumConstant(seq(|nets|, e requires 0 <= e < |nets| => if nets[e].enabled then 1 else 0), 1);
  }

  lemma NetChanged(nets: seq<Net>, e: nat, n: Net)
    requires e < |nets|
    ensures NumPins(nets[e := n]) == NumPins(nets) - PinsOfNet(nets[e]) + PinsOfNet(n)
    ensures NumNets(nets[e := n]) == NumNets(nets) - (if nets[e].enabled then 1 else 0) + (if n.enabled then 1 else 0)
  {
    var nets' := nets[e := n];
    var pins := seq(|nets|, d requires 0 <= d < |nets| => PinsOfNet(nets[d]));
    SumUpdate(pins, e, PinsOfNet(n));
    assert seq(|nets'|, d requires 0 <= d < |nets'| => PinsOfNet(nets'[d])) == pins[e := PinsOfNet(n)];
    var ones := seq(|nets|, d requires 0 <= d < |nets| => if nets[d].enabled then 1 else 0);
    SumUpdate(ones, e, if n.enabled then 1 else 0);
    assert seq(|nets'|, d requires 0 <= d < |nets'| => if nets'[d].enabled then 1 else 0)
        == ones[e := if n.enabled then 1 else 0];
  }

  lemma NodeChanged(nodes: seq<Node>, v: nat, n: Node)
    requires v < |nodes|
    ensures NumNodes(nodes[v := n])
         == NumNodes(nodes) - (if nodes[v].enabled then 1 else 0) + (if n.enabled then 1 else 0)
  {
    var nodes' := nodes[v := n];
    var ones := seq(|nodes|, x requires 0 <= x < |nodes| => if nodes[x].enabled then 1 else 0);
    SumUpdate(ones, v, if n.enabled then 1 else 0);
    assert seq(|nodes'|, x requires 0 <= x < |nodes'| => if nodes'[x].enabled then 1 else 0)
        == ones[v := if n.enabled then 1 else 0];
  }

  lemma NodesLike(nodes: seq<Node>, nodes': seq<Node>)
    requires |nodes| == |nodes'| && forall v | 0 <= v < |nodes| :: nodes[v].enabled == nodes'[v].enabled
    ensures NumNodes(nodes) == NumNodes(nodes')
  {
    assert seq(|nodes|, x requires 0 <= x < |nodes| => if nodes[x].enabled then 1 else 0)
        == seq(|nodes'|, x requires 0 <= x < |nodes'| => if nodes'[x].enabled then 1 else 0);
  }

  /** Contracting net e of v changes the number of pins by the one that is cut off. */
  lemma ContractedNetPins(nets: seq<Net>, e: nat, u: nat, v: nat)
    requires e < |nets| && nets[e].enabled && v in nets[e].pins && u != v
    ensures NumPins(nets[e := ContractNet(nets[e], u, v)]) == NumPins(nets) - (if u in nets[e].pins then 1 else 0)
    ensures NumNets(nets[e := ContractNet(nets[e], u, v)]) == NumNets(nets)
  {
    NetChanged(nets, e, ContractNet(nets[e], u, v));
    assert |nets[e].pins - {v}| == |nets[e].pins| - 1;
  }

  lemma ContractedSizes(h: Hypergraph, u: nat, v: nat)
    requires HasNode(h, u) && HasNode(h, v) && u != v
    ensures NumNodes(Contract(h, u, v).nodes) == NumNodes(h.nodes) - 1
    ensures NumNets(Contract(h, u, v).nets) == NumNets(h.nets)
  {
    var nodes := h.nodes[v := h.nodes[v].(enabled := false)];
    NodeChanged(h.nodes, v, nodes[v]);
    NodesLike(nodes, Contract(h, u, v).nodes);
    NetsLike(h.nets, Contract(h, u, v).nets);
  }

  lemma NetsLike(nets: seq<Net>, nets': seq<Net>)
    requires |nets| == |nets'| && forall e | 0 <= e < |nets| :: nets[e].enabled == nets'[e].enabled
    ensures NumNets(nets) == NumNets(nets')
  {
    assert seq(|nets|, e requires 0 <= e < |nets| => if nets[e].enabled then 1 else 0)
        == seq(|nets'|, e requires 0 <= e < |nets'| => if nets'[e].enabled then 1 else 0);
  }

  /** Removing or restoring a net changes the number of pins by its own. */
  lemma NetSwitched(h: Hypergraph, e: nat, enabled: bool)
    requires e < |h.nets| && h.nets[e].enabled != enabled
    ensures var h' := if enabled then RestoreEdge(h, e) else RemoveEdge(h, e);
            var d := if enabled then 1 else -1;
            && NumNodes(h'.nodes) == NumNodes(h.nodes)
            && NumNets(h'.nets) == NumNets(h.nets) + d
            && NumPins(h'.nets) == NumPins(h.nets) + d * |h.nets[e].pins|
  {
    var h' := if enabled then RestoreEdge(h, e) else RemoveEdge(h, e);
    NodesLike(h.nodes, h'.nodes);
    NetChanged(h.nets, e, h.nets[e].(enabled := enabled));
  }
}
