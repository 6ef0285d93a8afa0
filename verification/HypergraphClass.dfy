/** The hypergraph data structure: its fields, what keeps them consistent, and the
    operations that change them, each specified by its effect on the n-level hypergraph
    as a value. */
module HypergraphClass {
  import opened Sums
  import opened NLevel
  import opened Partitions
  import opened Layout
  import opened PinCounts
  import opened Sizes
  import opened Gains
  import opened Uncontraction
  import opened Moves
  import opened Construction

  class GenericHypergraph {
    const k: nat
    var hypernodes: seq<Hypernode>
    var hyperedges: seq<Hyperedge>
    const incidence: array<nat>
    var rows: seq<Row>
    var hesNotContainingU: seq<bool>
    var partInfo: seq<PartInfo>
    var currentNumHypernodes: int
    var currentNumHyperedges: int
    var currentNumPins: int

    /** The fields fit together: nets are laid out one after the other, nothing is listed
        twice, and every id is in range. */
    ghost predicate Rep()
      reads `hypernodes, `hyperedges, `rows, `partInfo, incidence
    {
      && WellLaid(hyperedges, incidence[..])
      && DistinctPins(hyperedges, incidence[..])
      && DistinctNets(hypernodes)
      && |rows| == |hyperedges| - 1
      && |partInfo| == k
      && (forall i | 0 <= i < incidence.Length :: incidence[i] < |hypernodes|)
      && (forall v, e {:trigger e in hypernodes[v].incidentNets} | 0 <= v < |hypernodes|
          && e in hypernodes[v].incidentNets ::
            e + 1 < |hyperedges|)
    }

    /** The hypergraph as a value. */
    ghost function Abs(): (h: Hypergraph)
      requires WellLaid(hyperedges, incidence[..])
      reads `hypernodes, `hyperedges, incidence
    {
      Hypergraph(NodesOf(hypernodes), NetsOf(hyperedges, incidence[..]))
    }

    ghost function Part(): (part: Partition)
      reads `hypernodes
      ensures |part| == |hypernodes|
      ensures forall v {:trigger part[v]} | 0 <= v < |part| :: part[v] == hypernodes[v].partId
    {
      BlocksOf(hypernodes)
    }

    /** The partition with v in the block of u. */
    ghost function Projected(u: nat, v: nat): (part: Partition)
      requires u < |hypernodes| && v < |hypernodes|
      reads `hypernodes
    {
      Part()[v := Part()[u]]
    }

    ghost function Borders(): (borders: seq<int>)
      reads `hypernodes
      ensures |borders| == |hypernodes|
      ensures forall v {:trigger borders[v]} | 0 <= v < |borders| :: borders[v] == hypernodes[v].numIncidentCutHes
    {
      BordersOf(hypernodes)
    }

    /** The incremental data of every enabled net are exact, those of disabled ones cleared. */
    ghost predicate CountsExact()
      requires WellLaid(hyperedges, incidence[..])
      reads `hypernodes, `hyperedges, `rows, incidence
    {
      && |rows| == |hyperedges| - 1
      && forall e {:trigger rows[e]} | 0 <= e < |rows| ::
           RowFits(rows[e], Abs().nets[e], Part(), k)
    }

    /** The counts fit all nets but he. */
    ghost predicate CountsExactBut(he: nat)
      requires WellLaid(hyperedges, incidence[..])
      reads `hypernodes, `hyperedges, `rows, incidence
    {
      && |rows| == |hyperedges| - 1
      && forall e {:trigger rows[e]} | 0 <= e < |rows| && e != he :: RowFits(rows[e], Abs().nets[e], Part(), k)
    }

    /** The current numbers of nodes, nets and pins are those of h. */
    ghost predicate NumbersOf(h: Hypergraph)
      reads `currentNumHypernodes, `currentNumHyperedges, `currentNumPins
    {
      && currentNumHypernodes == NumNodes(h.nodes)
      && currentNumHyperedges == NumNets(h.nets)
      && currentNumPins == NumPins(h.nets)
    }

    /** The parts of the state that only partitioning is about, apart from the rows. */
    twostate predicate PartitionUnchanged()
      reads `hypernodes, `partInfo
    {
      Part() == old(Part()) && Borders() == old(Borders()) && partInfo == old(partInfo)
    }

    /** Swaps two slots of the net at begin..end. */
    method SwapSlots(begin: nat, end: nat, i: nat, j: nat)
      requires begin <= i < j < end <= incidence.Length && NoDuplicates(incidence[begin..end])
      modifies incidence
      ensures NoDuplicates(incidence[begin..end])
              && Elements(incidence[begin..end]) == old(Elements(incidence[begin..end]))
      ensures incidence[i] == old(incidence[j]) && incidence[j] == old(incidence[i]) && incidence[i] != incidence[j]
      ensures forall a | 0 <= a < incidence.Length && a != i && a != j :: incidence[a] == old(incidence[a])
    {
      ghost var s := incidence[begin..end];
      Swapped(s, i - begin, j - begin);
      assert s[i - begin] != s[j - begin];
      incidence[i], incidence[j] := incidence[j], incidence[i];
      assert incidence[begin..end] == s[i - begin := s[j - begin]][j - begin := s[i - begin]];
    }

    /** Moves v to the last slot of the net at begin..end and finds the slot of u; if u is
        not in the net the result is the last slot. */
    method MoveToEnd(begin: nat, end: nat, u: nat, v: nat) returns (slotOfU: nat)
      requires begin <= end <= incidence.Length && u != v
      requires v in incidence[begin..end] && NoDuplicates(incidence[begin..end])
      modifies incidence
      ensures begin <= slotOfU < end && incidence[end - 1] == v
      ensures if u in old(incidence[begin..end]) then slotOfU < end - 1
              && incidence[slotOfU] == u else slotOfU == end - 1
      ensures NoDuplicates(incidence[begin..end])
      ensures Elements(incidence[begin..end]) == old(Elements(incidence[begin..end]))
      ensures forall i | 0 <= i < incidence.Length && !(begin <= i < end) :: incidence[i] == old(incidence[i])
    {
      slotOfU := end - 1;
      var last, pin := end - 1, begin;
      while pin != last
        invariant begin <= pin <= last
        invariant NoDuplicates(incidence[begin..end])
        invariant Elements(incidence[begin..end]) == old(Elements(incidence[begin..end]))
        invariant forall i | 0 <= i < incidence.Length && !(begin <= i < end) :: incidence[i] == old(incidence[i])
        invariant forall i | begin <= i < pin :: incidence[i] != v
        invariant slotOfU == last || (begin <= slotOfU < pin && incidence[slotOfU] == u)
        invariant slotOfU == last ==> forall i | begin <= i < pin :: incidence[i] != u
        decreases last - pin, if incidence[pin] == v then 1 else 0
      {
        if incidence[pin] == v {
          SwapSlots(begin, end, pin, last);
        } else {
          if incidence[pin] == u {
            slotOfU := pin;
          }
          pin := pin + 1;
        }
      }
      ghost var s := incidence[begin..end];
      forall a | 0 <= a < |s| ensures s[a] == incidence[begin + a] {}
      EndSlot(s, u, v, slotOfU - begin);
    }

    /** Rearranges the pins of a net so that v is in the last slot. */
    method MovePinToEnd(he: nat, u: nat, v: nat) returns (slotOfU: nat)
      requires Rep() && CountsExact()
      requires he < |rows| && v in Abs().nets[he].pins && u != v
      modifies incidence
      ensures Rep() && CountsExact() && Abs() == old(Abs())
      ensures var last := hyperedges[he].FirstInvalidEntry() - 1;
              && 0 < hyperedges[he].size && incidence[last] == v
              && (slotOfU != last <==> u in Abs().nets[he].pins)
    {
      ghost var inc, edge := incidence[..], hyperedges[he];
      assert PinSlots(edge, inc) == incidence[edge.begin..edge.FirstInvalidEntry()];
      slotOfU := MoveToEnd(hyperedges[he].begin, hyperedges[he].FirstInvalidEntry(), u, v);
      assert PinSlots(edge, incidence[..]) == incidence[edge.begin..edge.FirstInvalidEntry()];
      Rearranged(hyperedges, inc, incidence[..], he);
      forall i | 0 <= i < incidence.Length ensures incidence[i] < |hypernodes| {
        if edge.begin <= i < edge.FirstInvalidEntry() {
          assert PinSlots(edge, incidence[..])[i - edge.begin] in Elements(PinSlots(edge, inc));
        }
      }
    }

    method DecrementPinCountInPart(he: nat, id: nat) returns (decreased: bool)
      requires he < |rows| && Consistent(rows[he], k) && id < k && 0 < rows[he].counts[id]
      modifies `rows
      ensures |rows| == |old(rows)| && rows == old(rows)[he := rows[he]]
      ensures Consistent(rows[he], k)
      ensures rows[he].counts == old(rows[he].counts)[id := old(rows[he].counts[id]) - 1]
      ensures decreased <==> rows[he].counts[id] == 0
    {
      var row;
      row, decreased := Decrement(rows[he], id, k);
      rows := rows[he := row];
    }

    method IncrementPinCountInPart(he: nat, id: nat) returns (increased: bool)
      requires he < |rows| && Consistent(rows[he], k) && id < k
      modifies `rows
      ensures |rows| == |old(rows)| && rows == old(rows)[he := rows[he]]
      ensures Consistent(rows[he], k)
      ensures rows[he].counts == old(rows[he].counts)[id := old(rows[he].counts[id]) + 1]
      ensures increased <==> rows[he].counts[id] == 1
    {
      var row;
      row, increased := Increment(rows[he], id, k);
      rows := rows[he := row];
    }

    /** Takes a pin off the counts of a net, if it has a block. */
    method ForgetPin(he: nat, v: nat, ghost pins: set<nat>)
      requires he < |rows| && Exact(rows[he], pins, Part(), k)
      requires v < |hypernodes| && v in pins && INVALID_PARTITION <= Part()[v] < k
      modifies `rows
      ensures |rows| == |old(rows)| && rows == old(rows)[he := rows[he]]
      ensures Exact(rows[he], pins - {v}, Part(), k)
    {
      ghost var part, row := Part(), rows[he];
      if hypernodes[v].partId != INVALID_PARTITION {
        assert v in PinsIn(pins, part, hypernodes[v].partId);
        assert 0 < rows[he].counts[hypernodes[v].partId];
        var decreased := DecrementPinCountInPart(he, hypernodes[v].partId);
        PinRemoved(row, rows[he], pins, part, v, hypernodes[v].partId);
      } else {
        UnassignedPinRemoved(row, pins, part, v);
      }
    }

    /** Cuts the last slot off net he; its counts are left as they are. */
    method DecrementSize(he: nat, v: nat)
      requires Rep() && CountsExact()
      requires he < |rows| && hyperedges[he].valid && 0 < hyperedges[he].size
      requires incidence[hyperedges[he].FirstInvalidEntry() - 1] == v
      modifies `hyperedges
      ensures Rep() && CountsExactBut(he) && |hyperedges| == old(|hyperedges|) && hyperedges[he].valid
      ensures var n := old(Abs().nets[he]);
              v in n.pins && Abs().nets == old(Abs().nets)[he := n.(pins := n.pins - {v}, cutOff := [v] + n.cutOff)]
      ensures Exact(rows[he], old(Abs().nets[he].pins), Part(), k)
    {
      assert RowFits(rows[he], Abs().nets[he], Part(), k);
      CutOff(hyperedges, incidence[..], he);
      hyperedges := hyperedges[he := hyperedges[he].(size := hyperedges[he].size - 1)];
    }

    /** Case 1: v, in the last slot, is cut off. */
    method CutOffLastPin(he: nat, v: nat)
      requires Rep() && CountsExact()
      requires he < |rows| && hyperedges[he].valid && 0 < hyperedges[he].size
      requires incidence[hyperedges[he].FirstInvalidEntry() - 1] == v
      requires INVALID_PARTITION <= Part()[v] < k
      modifies this
      ensures Rep() && CountsExact()
      ensures var n := old(Abs().nets[he]);
              Abs().nets == old(Abs().nets)[he := n.(pins := n.pins - {v}, cutOff := [v] + n.cutOff)]
      ensures currentNumPins == old(currentNumPins) - 1
      ensures hypernodes == old(hypernodes) && partInfo == old(partInfo) && |hyperedges| == old(|hyperedges|)
      ensures currentNumHypernodes == old(currentNumHypernodes) && currentNumHyperedges == old(currentNumHyperedges)
    {
      DecrementSize(he, v);
      ForgetPin(he, v, old(Abs().nets[he].pins));
      currentNumPins := currentNumPins - 1;
    }

    /** Case 2: u takes the place of v in the last slot. */
    method ConnectHyperedgeToRepresentative(he: nat, u: nat, v: nat)
      requires Rep() && CountsExact()
      requires he < |rows| && 0 < hyperedges[he].size && u < |hypernodes|
      requires incidence[hyperedges[he].FirstInvalidEntry() - 1] == v
      requires u !in Abs().nets[he].pins && he !in hypernodes[u].incidentNets
      requires Part()[u] == Part()[v]
      modifies this, incidence
      ensures Rep() && CountsExact()
      ensures var n := old(Abs().nets[he]);
              Abs().nets == old(Abs().nets)[he := n.(pins := n.pins - {v} + {u})]
      ensures hypernodes
           == old(hypernodes)[u := old(hypernodes[u]).(incidentNets := old(hypernodes[u]).incidentNets + [he])]
      ensures currentNumPins == old(currentNumPins) && partInfo == old(partInfo) && hyperedges == old(hyperedges)
      ensures currentNumHypernodes == old(currentNumHypernodes) && currentNumHyperedges == old(currentNumHyperedges)
    {
      ghost var inc, pins, part := incidence[..], Abs().nets[he].pins, Part();
      var last := hyperedges[he].FirstInvalidEntry() - 1;
      TakenOver(hyperedges, inc, he, last, u);
      incidence[last] := u;
      assert incidence[..] == inc[last := u];
      Appended(hypernodes[u].incidentNets, he);
      hypernodes := hypernodes[u := hypernodes[u].(incidentNets := hypernodes[u].incidentNets + [he])];
      assert Part() == part;
      if hyperedges[he].valid {
        assert Exact(rows[he], pins, part, k);
        PinReplaced(rows[he], pins, part, v, u);
      }
    }

    /** Deals with one net of the contraction partner v. */
    method ContractIncidentNet(he: nat, u: nat, v: nat)
      requires Rep() && CountsExact()
      requires he < |rows| && hyperedges[he].valid
      requires u < |hypernodes| && v < |hypernodes| && u != v
      requires v in Abs().nets[he].pins
      requires u in Abs().nets[he].pins <==> he in hypernodes[u].incidentNets
      requires Part()[u] == Part()[v] && INVALID_PARTITION <= Part()[v] < k
      modifies this, incidence
      ensures Rep() && CountsExact() && PartitionUnchanged()
      ensures Abs().nets == old(Abs().nets)[he := ContractNet(old(Abs().nets[he]), u, v)]
      ensures Abs().nodes == old(Abs().nodes)[u := old(Abs().nodes[u]).(nets := old(Abs().nodes[u].nets) + {he})]
      ensures currentNumPins == old(currentNumPins) - if u in old(Abs().nets[he].pins) then 1 else 0
      ensures hypernodes[v] == old(hypernodes[v]) && |hyperedges| == old(|hyperedges|)
      ensures currentNumHypernodes == old(currentNumHypernodes) && currentNumHyperedges == old(currentNumHyperedges)
    {
      NetListed(hypernodes, u, he);
      var slotOfU := MovePinToEnd(he, u, v);
      if slotOfU != hyperedges[he].FirstInvalidEntry() - 1 {
        CutOffLastPin(he, v);
      } else {
        ConnectHyperedgeToRepresentative(he, u, v);
      }
    }

    /** Deals with the next net of v: one round of the loop of Contract. */
    method ContractNextNet(nets: seq<nat>, a: nat, u: nat, v: nat, ghost h: Hypergraph)
      requires Rep() && CountsExact() && currentNumPins == NumPins(Abs().nets)
      requires Valid(h) && HasNode(h, u) && HasNode(h, v) && u != v
      requires a < |nets| && NoDuplicates(nets) && Elements(nets) == h.nodes[v].nets
      requires Abs() == PartlyContracted(h, u, v, Elements(nets[..a]))
      requires Part()[u] == Part()[v] && INVALID_PARTITION <= Part()[v] < k
      modifies this, incidence
      ensures Rep() && CountsExact() && currentNumPins == NumPins(Abs().nets)
      ensures Abs() == PartlyContracted(h, u, v, Elements(nets[..a + 1]))
      ensures PartitionUnchanged() && hypernodes[v] == old(hypernodes[v]) && |hyperedges| == old(|hyperedges|)
      ensures currentNumHypernodes == old(currentNumHypernodes) && currentNumHyperedges == old(currentNumHyperedges)
    {
      ghost var done := Elements(nets[..a]);
      assert nets[a] in Elements(nets);
      assert nets[..a + 1] == nets[..a] + [nets[a]];
      Appended(nets[..a], nets[a]);
      NextNetReady(h, u, v, done, nets[a]);
      ContractionProceeds(h, u, v, done, nets[a]);
      ContractedNetPins(Abs().nets, nets[a], u, v);
      ContractIncidentNet(nets[a], u, v);
    }

    /** Replaces weight and state of a node; what else there is about it stays. */
    method SetNode(v: nat, weight: int, valid: bool)
      requires Rep() && CountsExact() && v < |hypernodes|
      modifies `hypernodes
      ensures Rep() && CountsExact() && PartitionUnchanged()
      ensures Abs() == WithNode(old(Abs()), v, weight, valid)
      ensures hypernodes[v] == old(hypernodes[v]).(weight := weight, valid := valid)
      ensures forall x | 0 <= x < |hypernodes| && x != v :: hypernodes[x] == old(hypernodes)[x]
    {
      ghost var part, borders := Part(), Borders();
      hypernodes := hypernodes[v := hypernodes[v].(weight := weight, valid := valid)];
      assert Part() == part && Borders() == borders;
    }

    /** Deals with all nets of v: the loop of Contract. */
    method ContractNets(u: nat, v: nat, ghost h: Hypergraph)
      requires Rep() && CountsExact() && currentNumPins == NumPins(Abs().nets)
      requires Valid(h) && HasNode(h, u) && HasNode(h, v) && u != v
      requires Abs() == PartlyContracted(h, u, v, {}) && Abs().nodes[v] == h.nodes[v]
      requires Part()[u] == Part()[v] && INVALID_PARTITION <= Part()[v] < k
      modifies this, incidence
      ensures Rep() && CountsExact() && currentNumPins == NumPins(Abs().nets)
      ensures Abs() == PartlyContracted(h, u, v, h.nodes[v].nets)
      ensures PartitionUnchanged() && hypernodes[v] == old(hypernodes[v]) && |hyperedges| == old(|hyperedges|)
      ensures currentNumHypernodes == old(currentNumHypernodes) && currentNumHyperedges == old(currentNumHyperedges)
    {
      var nets := hypernodes[v].incidentNets;
      assert Elements(nets[..0]) == {} && Elements(nets) == h.nodes[v].nets;
      for a := 0 to |nets|
        invariant Rep() && CountsExact() && |hyperedges| == old(|hyperedges|)
        invariant Abs() == PartlyContracted(h, u, v, Elements(nets[..a]))
        invariant PartitionUnchanged() && hypernodes[v] == old(hypernodes[v])
        invariant currentNumPins == NumPins(Abs().nets)
        invariant currentNumHypernodes == old(currentNumHypernodes) && currentNumHyperedges == old(currentNumHyperedges)
      {
        ContractNextNet(nets, a, u, v, h);
      }
      assert nets[..|nets|] == nets;
    }

    /** Gives u the weight of v as well. */
    method AddWeight(u: nat, v: nat)
      requires Rep() && CountsExact() && HasNode(Abs(), u) && v < |hypernodes| && u != v
      modifies `hypernodes
      ensures Rep() && CountsExact() && PartitionUnchanged()
      ensures Abs() == PartlyContracted(old(Abs()), u, v, {}) && Abs().nodes[v] == old(Abs().nodes[v])
      ensures Abs().nets == old(Abs().nets)
    {
      ContractionBegins(Abs(), u, v);
      SetNode(u, hypernodes[u].weight + hypernodes[v].weight, true);
    }

    /** Disables v once all its nets have been dealt with. */
    method Disable(u: nat, v: nat, ghost h: Hypergraph)
      requires Rep() && CountsExact() && HasNode(h, u) && HasNode(h, v) && u != v
      requires Abs() == PartlyContracted(h, u, v, h.nodes[v].nets)
      modifies `hypernodes, `currentNumHypernodes
      ensures Rep() && CountsExact() && PartitionUnchanged()
      ensures Abs() == NLevel.Contract(h, u, v) && Abs().nets == old(Abs().nets)
      ensures currentNumHypernodes == old(currentNumHypernodes) - 1
    {
      ContractionCompletes(h, u, v);
      currentNumHypernodes := currentNumHypernodes - 1;
      SetNode(v, hypernodes[v].weight, false);
    }

    /** Contracts v into u: u takes over v's weight and nets, and v is disabled. */
    method Contract(u: nat, v: nat) returns (memento: (nat, nat))
      requires Rep() && CountsExact() && NumbersOf(Abs()) && Valid(Abs())
      requires HasNode(Abs(), u) && HasNode(Abs(), v) && u != v
      requires Part()[u] == Part()[v] && INVALID_PARTITION <= Part()[v] < k
      modifies this, incidence
      ensures Rep() && CountsExact() && NumbersOf(Abs())
      ensures Abs() == NLevel.Contract(old(Abs()), u, v)
      ensures PartitionUnchanged()
      ensures memento == (u, v)
    {
      ghost var h := Abs();
      ContractedSizes(h, u, v);
      AddWeight(u, v);
      ContractNets(u, v, h);
      Disable(u, v, h);
      return (u, v);
    }

    // ------------------------------------------------------------ uncontraction

    /** The peek: is v the pin just past the end of the net? */
    method WasJustCutOff(he: nat, v: nat) returns (yes: bool)
      requires Rep() && he < |rows|
      ensures yes <==> WasCutOff(Abs().nets[he], v)
    {
      var end := hyperedges[he].FirstInvalidEntry();
      assert Abs().nets[he] == NetAt(hyperedges, incidence[..], he);
      yes := end < hyperedges[he + 1].begin && incidence[end] == v;
    }

    /** Undoes case 1: the slot past the end of the net belongs to it again. */
    method JoinAgain(he: nat, v: nat)
      requires Rep() && CountsExact()
      requires he < |rows| && hyperedges[he].valid && WasCutOff(Abs().nets[he], v)
      requires v < |hypernodes| && v !in Abs().nets[he].pins && 0 <= Part()[v] < k
      modifies `hyperedges, `rows, `currentNumPins
      ensures Rep() && CountsExact() && |hyperedges| == old(|hyperedges|)
      ensures var n := old(Abs().nets[he]);
              Abs().nets == old(Abs().nets)[he := n.(pins := n.pins + {v}, cutOff := n.cutOff[1..])]
      ensures currentNumPins == old(currentNumPins) + 1
    {
      assert Abs().nets[he] == NetAt(hyperedges, incidence[..], he);
      JoinedAgain(hyperedges, incidence[..], he);
      ghost var row, pins := rows[he], Abs().nets[he].pins;
      assert Exact(row, pins, Part(), k);
      var increased := IncrementPinCountInPart(he, hypernodes[v].partId);
      PinAdded(row, rows[he], pins, Part(), v, Part()[v]);
      hyperedges := hyperedges[he := hyperedges[he].(size := hyperedges[he].size + 1)];
      currentNumPins := currentNumPins + 1;
    }

    /** Undoes case 2: the slot that u took over is v's again. */
    method ResetReusedPinSlotToOriginalValue(he: nat, u: nat, v: nat)
      requires Rep() && CountsExact()
      requires he < |rows| && hyperedges[he].valid
      requires u < |hypernodes| && v < |hypernodes| && Part()[u] == Part()[v]
      requires u in Abs().nets[he].pins && v !in Abs().nets[he].pins
      modifies incidence
      ensures Rep() && CountsExact()
      ensures var n := old(Abs().nets[he]);
              Abs().nets == old(Abs().nets)[he := n.(pins := n.pins - {u} + {v})]
    {
      ghost var inc, pins := incidence[..], Abs().nets[he].pins;
      var begin, slot := hyperedges[he].begin, hyperedges[he].FirstInvalidEntry();
      assert u in PinSlots(hyperedges[he], inc);
      slot := slot - 1;
      while incidence[slot] != u
        invariant begin <= slot < hyperedges[he].FirstInvalidEntry()
        invariant forall i | slot < i < hyperedges[he].FirstInvalidEntry() :: incidence[i] != u
        decreases slot
      {
        slot := slot - 1;
      }
      TakenOver(hyperedges, inc, he, slot, v);
      assert Exact(rows[he], pins, Part(), k);
      PinReplaced(rows[he], pins, Part(), u, v);
      incidence[slot] := v;
      assert incidence[..] == inc[slot := v];
    }

    /** Changes the border counter of a node, which is no part of the hypergraph as a value. */
    method SetBorder(v: nat, hn: Hypernode)
      requires Rep() && CountsExact() && v < |hypernodes|
      requires hn == hypernodes[v].(numIncidentCutHes := hn.numIncidentCutHes)
      modifies `hypernodes
      ensures Rep() && CountsExact() && Part() == old(Part()) && Abs() == old(Abs())
      ensures hypernodes == old(hypernodes)[v := hn]
    {
      ghost var part, nodes := Part(), Abs().nodes;
      hypernodes := hypernodes[v := hn];
      assert Part() == part && Abs().nodes == nodes;
    }

    /** Takes the net at position it off u's list, by the last one taking its place. */
    method SwapOut(u: nat, it: nat)
      requires Rep() && CountsExact() && u < |hypernodes| && it < |hypernodes[u].incidentNets|
      modifies `hypernodes
      ensures Rep() && CountsExact() && Part() == old(Part()) && Abs().nets == old(Abs().nets)
      ensures hypernodes == old(hypernodes)[u := DropNet(old(hypernodes[u]), it)]
      ensures Abs().nodes
           == old(Abs().nodes)[
                u := old(Abs().nodes[u]).(nets := old(Abs().nodes[u].nets) - {old(hypernodes[u].incidentNets[it])})]
    {
      ghost var part, list := Part(), hypernodes[u].incidentNets;
      SwapRemoved(list, it);
      hypernodes := hypernodes[u := DropNet(hypernodes[u], it)];
      assert Part() == part;
      forall e | e in hypernodes[u].incidentNets ensures e + 1 < |hyperedges| {
        assert e in Elements(list);
      }
    }

    /** What a net adds to a gain now that u and v are both on it. */
    method GainWhenJoined(he: nat, u: nat) returns (change: int)
      requires Rep() && CountsExact()
      requires he < |rows| && hyperedges[he].valid && u < |hypernodes| && 0 <= Part()[u] < k
      ensures change == if PinCount(Abs().nets[he].pins, Part(), Part()[u]) == 2 then -Abs().nets[he].weight else 0
    {
      assert rows[he].counts[Part()[u]] == PinCount(Abs().nets[he].pins, Part(), Part()[u]);
      change := if rows[he].counts[hypernodes[u].partId] == 2 then -hyperedges[he].weight else 0;
    }

    /** What a net adds to the gain of a node that is not on it any more. */
    method GainWhenLeft(he: nat, u: nat) returns (change: int)
      requires Rep() && CountsExact()
      requires he < |rows| && hyperedges[he].valid && u < |hypernodes| && 0 <= Part()[u] < k
      requires Assigned(Abs().nets[he].pins, Part(), k)
      ensures change == if IsCut(Abs().nets[he], Part())
                        then if PinCount(Abs().nets[he].pins, Part(), Part()[u]) == 1 then -Abs().nets[he].weight else 0
                        else Abs().nets[he].weight
    {
      CutIsDetected(rows[he], Abs().nets[he], Part(), k);
      assert rows[he].counts[Part()[u]] == PinCount(Abs().nets[he].pins, Part(), Part()[u]);
      if rows[he].connectivity > 1 {
        change := if rows[he].counts[hypernodes[u].partId] == 1 then -hyperedges[he].weight else 0;
      } else {
        change := hyperedges[he].weight;
      }
    }

    /** Counts a net at v if it is cut. */
    method CountIfCut(he: nat, v: nat)
      requires Rep() && CountsExact()
      requires he < |rows| && hyperedges[he].valid && v < |hypernodes|
      requires Assigned(Abs().nets[he].pins, Part(), k)
      modifies `hypernodes
      ensures Rep() && CountsExact() && Part() == old(Part()) && Abs() == old(Abs())
      ensures hypernodes == old(hypernodes)[v := AddToBorder(old(hypernodes[v]), IsCut(Abs().nets[he], Part()))]
    {
      CutIsDetected(rows[he], Abs().nets[he], Part(), k);
      if rows[he].connectivity > 1 {
        SetBorder(v, AddToBorder(hypernodes[v], true));
      }
    }

    /** Moves a cut net from u's border counter to v's. */
    method MoveIfCut(he: nat, u: nat, v: nat)
      requires Rep() && CountsExact()
      requires he < |rows| && hyperedges[he].valid && u < |hypernodes| && v < |hypernodes| && u != v
      requires Assigned(Abs().nets[he].pins, Part(), k)
      modifies `hypernodes
      ensures Rep() && CountsExact() && Part() == old(Part()) && Abs() == old(Abs())
      ensures var cut := IsCut(Abs().nets[he], Part());
              hypernodes == old(hypernodes)[u := RemoveFromBorder(old(hypernodes[u]), cut)]
                                           [v := AddToBorder(old(hypernodes[v]), cut)]
    {
      CutIsDetected(rows[he], Abs().nets[he], Part(), k);
      if rows[he].connectivity > 1 {
        SetBorder(u, RemoveFromBorder(hypernodes[u], true));
        SetBorder(v, AddToBorder(hypernodes[v], true));
      }
    }

    /** Net he of u, of which v was cut off: joins v again. Returns what that adds to the
        gains of u and v. */
    method UncontractJoined(he: nat, u: nat, v: nat) returns (changeU: int, changeV: int)
      requires Rep() && CountsExact()
      requires he < |rows| && hyperedges[he].valid && WasCutOff(Abs().nets[he], v)
      requires u < |hypernodes| && v < |hypernodes| && u != v && Part()[u] == Part()[v]
      requires u in Abs().nets[he].pins && v !in Abs().nets[he].pins && Assigned(Abs().nets[he].pins, Part(), k)
      modifies `hypernodes, `hyperedges, `rows, `currentNumPins
      ensures Rep() && CountsExact() && Part() == old(Part())
      ensures Abs().nets == old(Abs().nets)[he := UncontractNet(old(Abs().nets[he]), u, v)]
      ensures hypernodes == old(hypernodes)[v := AddToBorder(old(hypernodes[v]), IsCut(old(Abs().nets[he]), Part()))]
      ensures changeU == ChangeOfU(old(Abs().nets[he]), true, Part(), u, v)
      ensures changeV == ChangeOfV(old(Abs().nets[he]), true, Part(), u, v)
      ensures currentNumPins == old(currentNumPins) + 1 && |hyperedges| == old(|hyperedges|)
    {
      assert Part()[v := Part()[u]] == Part();
      TwinPins(Abs().nets[he].pins, Part(), u, v);
      assert BlockOf(Part(), u) == Part()[u];
      JoinAgain(he, v);
      assert Abs().nets[he].enabled;
      CountIfCut(he, v);
      changeU := GainWhenJoined(he, u);
      changeV := changeU;
    }

    /** The nodes' side of giving a net back: it leaves u's list and u's border count. */
    method HandBack(he: nat, it: nat, u: nat, v: nat)
      requires Rep() && CountsExact()
      requires he < |rows| && hyperedges[he].valid && u < |hypernodes| && v < |hypernodes| && u != v
      requires Assigned(Abs().nets[he].pins, Part(), k)
      requires it < |hypernodes[u].incidentNets| && hypernodes[u].incidentNets[it] == he
      modifies `hypernodes
      ensures Rep() && CountsExact() && Part() == old(Part()) && Abs().nets == old(Abs().nets)
      ensures var cut := IsCut(Abs().nets[he], Part());
              hypernodes == old(hypernodes)[u := RemoveFromBorder(DropNet(old(hypernodes[u]), it), cut)]
                                           [v := AddToBorder(old(hypernodes[v]), cut)]
    {
      SwapOut(u, it);
      MoveIfCut(he, u, v);
    }

    /** Net he of u, at position it of u's list, that u took over from v: v gets it back. */
    method UncontractReplaced(he: nat, it: nat, u: nat, v: nat) returns (changeU: int, changeV: int)
      requires Rep() && CountsExact()
      requires he < |rows| && hyperedges[he].valid && !WasCutOff(Abs().nets[he], v)
      requires u < |hypernodes| && v < |hypernodes| && u != v && Part()[u] == Part()[v]
      requires u in Abs().nets[he].pins && v !in Abs().nets[he].pins && Assigned(Abs().nets[he].pins, Part(), k)
      requires it < |hypernodes[u].incidentNets| && hypernodes[u].incidentNets[it] == he
      modifies `hypernodes, incidence
      ensures Rep() && CountsExact() && Part() == old(Part())
      ensures Abs().nets == old(Abs().nets)[he := UncontractNet(old(Abs().nets[he]), u, v)]
      ensures var cut := IsCut(old(Abs().nets[he]), Part());
              hypernodes == old(hypernodes)[u := RemoveFromBorder(DropNet(old(hypernodes[u]), it), cut)]
                                           [v := AddToBorder(old(hypernodes[v]), cut)]
      ensures changeU == ChangeOfU(old(Abs().nets[he]), true, Part(), u, v)
      ensures changeV == ChangeOfV(old(Abs().nets[he]), true, Part(), u, v)
    {
      assert BlockOf(Part(), u) == Part()[u];
      changeU := GainWhenLeft(he, u);
      changeV := 0;
      HandBack(he, it, u, v);
      ResetReusedPinSlotToOriginalValue(he, u, v);
    }

    /** Flags the nets of v. */
    method MarkIncidentNetsOf(v: nat)
      requires Rep() && v < |hypernodes|
      modifies `hesNotContainingU
      ensures |hesNotContainingU| == |rows|
      ensures forall e | 0 <= e < |rows| :: hesNotContainingU[e] <==> e in Elements(hypernodes[v].incidentNets)
    {
      hesNotContainingU := seq(|rows|, _ => false);
      var nets := hypernodes[v].incidentNets;
      for a := 0 to |nets|
        invariant |hesNotContainingU| == |rows|
        invariant forall e | 0 <= e < |rows| :: hesNotContainingU[e] <==> e in nets[..a]
      {
        assert nets[a] in nets;
        hesNotContainingU := hesNotContainingU[nets[a] := true];
      }
      assert nets[..|nets|] == nets;
      assert Abs().nodes[v].nets == Elements(nets);
    }

    /** How far an uncontraction has got, by the fields. */
    ghost function ProgressNow(u: nat, v: nat, changeU: int, changeV: int): Progress
      requires u < |hypernodes| && v < |hypernodes| && WellLaid(hyperedges, incidence[..])
      reads `hypernodes, `hyperedges, `currentNumPins, incidence
    {
      Progress(Abs(), Totals(hypernodes[u].numIncidentCutHes, hypernodes[v].numIncidentCutHes, changeU, changeV),
               currentNumPins)
    }

    /** Net he, at position it of u's list, has been dealt with: the progress that is, what
        has become of the list, and the next position. */
    twostate predicate DealtWith(he: nat, it: nat, u: nat, v: nat, next: nat,
                                 changeU: int, changeV: int, changeU': int, changeV': int)
      requires old(WellLaid(hyperedges, incidence[..])) && WellLaid(hyperedges, incidence[..])
      requires u < |hypernodes| && v < |hypernodes| && u != v && |hypernodes| == old(|hypernodes|)
      requires he < old(|hyperedges|) - 1 && it < old(|hypernodes[u].incidentNets|)
      reads this, incidence
    {
      var back := GivenBack(old(Abs()), v, he);
      && ProgressNow(u, v, changeU', changeV') == After(old(ProgressNow(u, v, changeU, changeV)), u, v, Part(), he)
      && hypernodes[u].incidentNets
         == (if back then SwapRemove(old(hypernodes[u].incidentNets), it) else old(hypernodes[u].incidentNets))
      && next == (if back then it else it + 1)
      && SameElsewhere(old(Borders()), Borders(), u, v)
    }

    method DealWithJoined(he: nat, it: nat, u: nat, v: nat, changeU: int, changeV: int)
      returns (next: nat, changeU': int, changeV': int)
      requires Rep() && CountsExact()
      requires he < |rows| && hyperedges[he].valid && WasCutOff(Abs().nets[he], v)
      requires u < |hypernodes| && v < |hypernodes| && u != v && Part()[u] == Part()[v]
      requires u in Abs().nets[he].pins && v !in Abs().nets[he].pins && Assigned(Abs().nets[he].pins, Part(), k)
      requires he in Abs().nodes[v].nets && it < |hypernodes[u].incidentNets|
      modifies `hypernodes, `hyperedges, `rows, `currentNumPins
      ensures Rep() && CountsExact() && Part() == old(Part()) && |rows| == old(|rows|)
      ensures DealtWith(he, it, u, v, next, changeU, changeV, changeU', changeV')
    {
      var dU, dV := UncontractJoined(he, u, v);
      changeU', changeV' := changeU + dU, changeV + dV;
      next := it + 1;
    }

    method DealWithReplaced(he: nat, it: nat, u: nat, v: nat, changeU: int, changeV: int)
      returns (next: nat, changeU': int, changeV': int)
      requires Rep() && CountsExact()
      requires he < |rows| && hyperedges[he].valid && !WasCutOff(Abs().nets[he], v)
      requires u < |hypernodes| && v < |hypernodes| && u != v && Part()[u] == Part()[v]
      requires u in Abs().nets[he].pins && v !in Abs().nets[he].pins && Assigned(Abs().nets[he].pins, Part(), k)
      requires he in Abs().nodes[v].nets
      requires it < |hypernodes[u].incidentNets| && hypernodes[u].incidentNets[it] == he
      modifies `hypernodes, incidence
      ensures Rep() && CountsExact() && Part() == old(Part()) && |rows| == old(|rows|)
      ensures DealtWith(he, it, u, v, next, changeU, changeV, changeU', changeV')
    {
      ghost var nodes := Abs().nodes;
      SwapRemoved(hypernodes[u].incidentNets, it);
      var dU, dV := UncontractReplaced(he, it, u, v);
      assert Abs().nodes == nodes[u := nodes[u].(nets := nodes[u].nets - {he})];
      changeU', changeV' := changeU + dU, changeV + dV;
      next := it;
    }

    method DealWithUnshared(he: nat, it: nat, u: nat, v: nat, changeU: int, changeV: int)
      returns (next: nat, changeU': int, changeV': int)
      requires Rep() && CountsExact()
      requires he < |rows| && hyperedges[he].valid
      requires u < |hypernodes| && v < |hypernodes| && u != v && Part()[u] == Part()[v]
      requires u in Abs().nets[he].pins && Assigned(Abs().nets[he].pins, Part(), k)
      requires he !in Abs().nodes[v].nets && it < |hypernodes[u].incidentNets|
      ensures DealtWith(he, it, u, v, next, changeU, changeV, changeU', changeV')
    {
      assert BlockOf(Part(), u) == Part()[u];
      var dV := GainWhenLeft(he, u);
      changeU', changeV' := changeU, changeV + dV;
      next := it + 1;
    }

    /** Deals with the net at position it of u's list; returns the next position and what
        the net contributes to the gains of u and v. */
    method UncontractIncidentNet(it: nat, u: nat, v: nat, changeU: int, changeV: int)
      returns (next: nat, changeU': int, changeV': int)
      requires Rep() && CountsExact() && |hesNotContainingU| == |rows|
      requires u < |hypernodes| && v < |hypernodes| && u != v && Part()[u] == Part()[v]
      requires forall e | 0 <= e < |rows| :: hesNotContainingU[e] <==> e in Abs().nodes[v].nets
      requires it < |hypernodes[u].incidentNets| && hypernodes[u].incidentNets[it] < |rows|
      requires var n := Abs().nets[hypernodes[u].incidentNets[it]];
               n.enabled && u in n.pins && v !in n.pins && Assigned(n.pins, Part(), k)
      modifies `hypernodes, `hyperedges, `rows, `currentNumPins, incidence
      ensures Rep() && CountsExact() && Part() == old(Part()) && |rows| == old(|rows|)
      ensures DealtWith(old(hypernodes[u].incidentNets[it]), it, u, v, next, changeU, changeV, changeU', changeV')
    {
      var he := hypernodes[u].incidentNets[it];
      assert Abs().nets[he].enabled;
      if hesNotContainingU[he] {
        var joined := WasJustCutOff(he, v);
        if joined {
          next, changeU', changeV' := DealWithJoined(he, it, u, v, changeU, changeV);
        } else {
          next, changeU', changeV' := DealWithReplaced(he, it, u, v, changeU, changeV);
        }
      } else {
        next, changeU', changeV' := DealWithUnshared(he, it, u, v, changeU, changeV);
      }
    }

    /** What holds throughout an uncontraction: blocks and flags are set. */
    ghost predicate ReadyToUncontract(h: Hypergraph, u: nat, v: nat)
      reads `hypernodes, `hesNotContainingU
    {
      && v < |h.nodes|
      && FullyAssigned(h, Part(), k)
      && u < |hypernodes| && v < |hypernodes| && u != v && Part()[u] == Part()[v]
      && |hesNotContainingU| == |h.nets|
      && forall e | 0 <= e < |h.nets| :: hesNotContainingU[e] <==> e in h.nodes[v].nets
    }

    /** The current state is one in the middle of undoing the contraction of v into u. */
    ghost predicate InUncontraction(h: Hypergraph, u: nat, v: nat, it: nat, trace: seq<nat>, changeU: int, changeV: int,
                                      off: seq<int>)
      requires u < |hypernodes| && v < |hypernodes|
      reads `hypernodes, `hyperedges, `rows, `partInfo, `currentNumPins, incidence
    {
      && Rep() && CountsExact() && |rows| == |h.nets| && |off| == |hypernodes|
      && Midway(h, u, v, Part(), hypernodes[u].incidentNets, it, trace,
                Offset(ProgressNow(u, v, changeU, changeV), off[u], off[v]))
    }

    /** One round of the loop of Uncontract. */
    method UncontractNextNet(it: nat, u: nat, v: nat, ghost h: Hypergraph, ghost trace: seq<nat>, changeU: int,
                             changeV: int, ghost off: seq<int>)
      returns (next: nat, changeU': int, changeV': int, ghost trace': seq<nat>)
      requires ReadyToUncontract(h, u, v)
      requires InUncontraction(h, u, v, it, trace, changeU, changeV, off)
      requires it < |hypernodes[u].incidentNets|
      modifies `hypernodes, `hyperedges, `rows, `currentNumPins, incidence
      ensures |hypernodes| == old(|hypernodes|)
      ensures InUncontraction(h, u, v, next, trace', changeU', changeV', off)
      ensures Part() == old(Part())
      ensures |hypernodes[u].incidentNets| - next == old(|hypernodes[u].incidentNets|) - it - 1
      ensures SameElsewhere(old(Borders()), Borders(), u, v)
    {
      var he := hypernodes[u].incidentNets[it];
      ghost var list, p := hypernodes[u].incidentNets, ProgressNow(u, v, changeU, changeV);
      RoundOffset(h, u, v, Part(), k, list, it, trace, p, off[u], off[v]);
      next, changeU', changeV' := UncontractIncidentNet(it, u, v, changeU, changeV);
      trace' := trace + [he];
    }

    /** The loop of Uncontract. */
    method UncontractNets(u: nat, v: nat, ghost h: Hypergraph, ghost off: seq<int>)
      returns (changeU: int, changeV: int, ghost trace: seq<nat>)
      requires ReadyToUncontract(h, u, v)
      requires InUncontraction(h, u, v, 0, [], 0, 0, off)
      modifies `hypernodes, `hyperedges, `rows, `currentNumPins, incidence
      ensures |hypernodes| == old(|hypernodes|)
      ensures InUncontraction(h, u, v, |hypernodes[u].incidentNets|, trace, changeU, changeV, off)
      ensures Part() == old(Part())
      ensures SameElsewhere(old(Borders()), Borders(), u, v)
    {
      var it: nat := 0;
      changeU, changeV, trace := 0, 0, [];
      while it < |hypernodes[u].incidentNets|
        invariant |hypernodes| == old(|hypernodes|) && Part() == old(Part())
        invariant InUncontraction(h, u, v, it, trace, changeU, changeV, off)
        invariant it <= |hypernodes[u].incidentNets|
        invariant SameElsewhere(old(Borders()), Borders(), u, v)
        decreases |hypernodes[u].incidentNets| - it
      {
        it, changeU, changeV, trace := UncontractNextNet(it, u, v, h, trace, changeU, changeV, off);
      }
    }

    /** Enables v again, in the block of u. */
    method RestoreMemento(u: nat, v: nat)
      requires Rep() && CountsExact() && Valid(Abs())
      requires u < |hypernodes| && v < |hypernodes| && u != v && !Abs().nodes[v].enabled && 0 <= Part()[u] < k
      modifies `hypernodes, `partInfo, `currentNumHypernodes
      ensures Rep() && CountsExact()
      ensures Abs() == old(Abs()).(nodes := old(Abs().nodes)[v := old(Abs().nodes[v]).(enabled := true)])
      ensures Part() == old(Projected(u, v)) && Borders() == old(Borders())
      ensures hypernodes[u] == old(hypernodes[u])
      ensures currentNumHypernodes == old(currentNumHypernodes) + 1
      ensures partInfo == OneMoreIn(old(partInfo), old(Part()[u]))
    {
      ghost var c, part, borders := Abs(), Part(), Borders();
      var b := hypernodes[u].partId;
      forall e | 0 <= e < |rows| && hyperedges[e].valid ensures Exact(rows[e], c.nets[e].pins, part[v := b], k) {
        assert c.nets[e].enabled && Exact(rows[e], c.nets[e].pins, part, k);
        DisabledIsNoPin(c, v, e);
        OtherPinAssigned(rows[e], c.nets[e].pins, part, v, b);
      }
      hypernodes := hypernodes[v := hypernodes[v].(valid := true, partId := b)];
      currentNumHypernodes := currentNumHypernodes + 1;
      partInfo := OneMoreIn(partInfo, b);
      assert Part() == part[v := b] && Borders() == borders;
    }

    /** The state is what contracting v into u has made of h, partitioned by now, with border
        counters that are off by off. */
    ghost predicate Contracted(h: Hypergraph, u: nat, v: nat, off: seq<int>)
      reads `hypernodes, `hyperedges, `rows, `partInfo, `currentNumPins, incidence
    {
      && Rep() && CountsExact()
      && Valid(h) && HasNode(h, u) && HasNode(h, v) && u != v && Abs() == NLevel.Contract(h, u, v)
      && currentNumPins == NumPins(Abs().nets)
      && FullyAssigned(NLevel.Contract(h, u, v), Part(), k)
         && BordersOff(NLevel.Contract(h, u, v), Part(), Borders(), off)
    }

    /** With v enabled again no net has been dealt with yet. */
    lemma UncontractionEntered(u: nat, v: nat, h: Hypergraph, off: seq<int>)
      requires Rep() && CountsExact() && Valid(h) && HasNode(h, u) && HasNode(h, v) && u != v
      requires |hypernodes| == |h.nodes| == |off| && |rows| == |h.nets| && Part()[u] == Part()[v]
      requires var c := NLevel.Contract(h, u, v);
               && Abs() == c.(nodes := c.nodes[v := c.nodes[v].(enabled := true)]) && currentNumPins == NumPins(c.nets)
               && Elements(hypernodes[u].incidentNets) == c.nodes[u].nets
               && Borders()[u] - off[u] == BorderCount(c, Part(), u) && Borders()[v] - off[v] == 0
      ensures InUncontraction(h, u, v, 0, [], 0, 0, off)
    {
      var c := NLevel.Contract(h, u, v);
      MidwayBegins(h, u, v, Part(), hypernodes[u].incidentNets);
      assert Offset(ProgressNow(u, v, 0, 0), off[u], off[v]) == Start(c, u, v, Part());
    }

    /** Enables v again and so gets into the middle of the uncontraction. */
    method EnterUncontraction(u: nat, v: nat, ghost h: Hypergraph, ghost off: seq<int>)
      requires Contracted(h, u, v, off)
      modifies `hypernodes, `partInfo, `currentNumHypernodes
      ensures |hypernodes| == |h.nodes| && InUncontraction(h, u, v, 0, [], 0, 0, off)
      ensures Part() == old(Projected(u, v)) && Borders() == old(Borders())
      ensures Elements(hypernodes[v].incidentNets) == h.nodes[v].nets
      ensures FullyAssigned(h, Part(), k) && Part()[u] == Part()[v]
      ensures currentNumHypernodes == old(currentNumHypernodes) + 1
      ensures partInfo == OneMoreIn(old(partInfo), old(Part()[u]))
      ensures BordersOff(NLevel.Contract(h, u, v), Part(), Borders(), off)
    {
      ghost var c := Abs();
      ContractKeepsValid(h, u, v);
      BlocksOfUncontracted(h, u, v, Part(), k);
      StartOffset(c, Part(), u, v, Borders(), off);
      assert Elements(hypernodes[u].incidentNets) == c.nodes[u].nets;
      RestoreMemento(u, v);
      UncontractionEntered(u, v, h, off);
      assert Abs().nodes[v].nets == h.nodes[v].nets;
    }

    /** Gets ready for the loop of Uncontract: v is enabled and its nets are flagged. */
    method BeginUncontraction(u: nat, v: nat, ghost h: Hypergraph, ghost off: seq<int>)
      requires Contracted(h, u, v, off)
      modifies `hypernodes, `partInfo, `currentNumHypernodes, `hesNotContainingU
      ensures ReadyToUncontract(h, u, v)
      ensures InUncontraction(h, u, v, 0, [], 0, 0, off)
      ensures Part() == old(Projected(u, v)) && Borders() == old(Borders())
      ensures currentNumHypernodes == old(currentNumHypernodes) + 1
      ensures partInfo == OneMoreIn(old(partInfo), old(Part()[u]))
      ensures BordersOff(NLevel.Contract(h, u, v), Part(), Borders(), off)
    {
      EnterUncontraction(u, v, h, off);
      ghost var entered := InUncontraction(h, u, v, 0, [], 0, 0, off);
      MarkIncidentNetsOf(v);
      assert InUncontraction(h, u, v, 0, [], 0, 0, off) == entered;
    }

    /** All nets have been dealt with: but for the weight of u the hypergraph is h. */
    ghost predicate NearlyUncontracted(h: Hypergraph, u: nat, v: nat)
      reads `hypernodes, `hyperedges, `rows, `partInfo, incidence
    {
      && Rep() && CountsExact()
      && |hypernodes| == |h.nodes| && u < |h.nodes| && v < |h.nodes| && u != v
      && h == WithNode(Abs(), u, hypernodes[u].weight - hypernodes[v].weight, true)
    }

    lemma UncontractionNearlyDone(u: nat, v: nat, h: Hypergraph, trace: seq<nat>, changeU: int, changeV: int,
                                  off: seq<int>)
      requires u < |hypernodes| && v < |hypernodes|
      requires InUncontraction(h, u, v, |hypernodes[u].incidentNets|, trace, changeU, changeV, off)
      ensures NearlyUncontracted(h, u, v)
    {
      var p := Offset(ProgressNow(u, v, changeU, changeV), off[u], off[v]);
      MidwayEndsAbs(h, u, v, Part(), hypernodes[u].incidentNets, trace, p);
      assert p.abs.nodes[u].weight == hypernodes[u].weight && p.abs.nodes[v].weight == hypernodes[v].weight;
    }

    lemma PinsDone(u: nat, v: nat, h: Hypergraph, trace: seq<nat>, changeU: int, changeV: int, off: seq<int>)
      requires u < |hypernodes| && v < |hypernodes|
      requires InUncontraction(h, u, v, |hypernodes[u].incidentNets|, trace, changeU, changeV, off)
      ensures currentNumPins == NumPins(h.nets)
    {
      MidwayEndsPins(h, u, v, Part(), hypernodes[u].incidentNets, trace,
                     Offset(ProgressNow(u, v, changeU, changeV), off[u], off[v]));
    }

    lemma BordersDone(u: nat, v: nat, h: Hypergraph, trace: seq<nat>, changeU: int, changeV: int, off: seq<int>,
                      before: seq<int>)
      requires u < |hypernodes| && v < |hypernodes|
      requires InUncontraction(h, u, v, |hypernodes[u].incidentNets|, trace, changeU, changeV, off)
      requires |Part()| == |h.nodes| && u < |h.nodes| && v < |h.nodes| && u != v
      requires BordersOff(NLevel.Contract(h, u, v), Part(), before, off) && SameElsewhere(before, Borders(), u, v)
      ensures BordersOff(h, Part(), Borders(), off)
    {
      BordersEnd(h, u, v, Part(), hypernodes[u].incidentNets, trace,
                 Offset(ProgressNow(u, v, changeU, changeV), off[u], off[v]));
      BordersProjected(h, u, v, Part(), Less(before, off), Less(Borders(), off));
    }

    /** All nets have been dealt with: what has been reached. */
    lemma UncontractionOver(u: nat, v: nat, h: Hypergraph, trace: seq<nat>, changeU: int, changeV: int, off: seq<int>,
                            before: seq<int>)
      requires u < |hypernodes| && v < |hypernodes|
      requires InUncontraction(h, u, v, |hypernodes[u].incidentNets|, trace, changeU, changeV, off)
      requires |Part()| == |h.nodes| && u < |h.nodes| && v < |h.nodes| && u != v
      requires BordersOff(NLevel.Contract(h, u, v), Part(), before, off) && SameElsewhere(before, Borders(), u, v)
      ensures NearlyUncontracted(h, u, v) && currentNumPins == NumPins(h.nets) && BordersOff(h, Part(), Borders(), off)
      ensures var c := NLevel.Contract(h, u, v);
              && changeU == Sum(ChangesOfU(c, c.nodes[u].nets, Part(), u, v))
              && changeV == Sum(ChangesOfV(c, c.nodes[u].nets, Part(), u, v))
    {
      ChangesEnd(h, u, v, Part(), hypernodes[u].incidentNets, trace,
                 Offset(ProgressNow(u, v, changeU, changeV), off[u], off[v]));
      BordersDone(u, v, h, trace, changeU, changeV, off, before);
      PinsDone(u, v, h, trace, changeU, changeV, off);
      UncontractionNearlyDone(u, v, h, trace, changeU, changeV, off);
    }

    /** Takes v's weight off u again: with that the hypergraph is the original one. */
    method RestoreRepresentative(u: nat, v: nat, ghost h: Hypergraph)
      requires NearlyUncontracted(h, u, v)
      modifies `hypernodes
      ensures Rep() && CountsExact() && Abs() == h && Part() == old(Part()) && Borders() == old(Borders())
    {
      SetNode(u, hypernodes[u].weight - hypernodes[v].weight, true);
    }

    /** The nets' part of Uncontract: all its steps but the last. */
    method UncontractAllNets(u: nat, v: nat, ghost h: Hypergraph, ghost off: seq<int>)
      returns (changeU: int, changeV: int)
      requires Contracted(h, u, v, off)
      modifies `hypernodes, `hyperedges, `rows, `partInfo, `currentNumHypernodes, `currentNumPins, `hesNotContainingU,
               incidence
      ensures NearlyUncontracted(h, u, v) && currentNumPins == NumPins(h.nets)
      ensures currentNumHypernodes == old(currentNumHypernodes) + 1
      ensures Part() == old(Projected(u, v))
      ensures BordersOff(h, Part(), Borders(), off)
      ensures partInfo == OneMoreIn(old(partInfo), old(Part()[u]))
      ensures changeU == Sum(ChangesOfU(old(Abs()), old(Abs().nodes[u].nets), old(Projected(u, v)), u, v))
      ensures changeV == Sum(ChangesOfV(old(Abs()), old(Abs().nodes[u].nets), old(Projected(u, v)), u, v))
    {
      BeginUncontraction(u, v, h, off);
      ghost var borders := Borders();
      ghost var trace;
      changeU, changeV, trace := UncontractNets(u, v, h, off);
      UncontractionOver(u, v, h, trace, changeU, changeV, off, borders);
    }

    /** Undoes the contraction of v into u, h being the hypergraph before it. All pins of
        enabled nets must have a block. What the border counters are off by, they are off by
        afterwards. Returns the changes of the gains of u and v. */
    method Uncontract(u: nat, v: nat, ghost h: Hypergraph, ghost off: seq<int>) returns (changeU: int, changeV: int)
      requires Contracted(h, u, v, off)
      modifies `hypernodes, `hyperedges, `rows, `partInfo, `currentNumHypernodes, `currentNumPins, `hesNotContainingU,
               incidence
      ensures Rep() && CountsExact()
      ensures currentNumHypernodes == old(currentNumHypernodes) + 1
      ensures Abs() == h && Part() == old(Projected(u, v))
      ensures BordersOff(h, Part(), Borders(), off)
      ensures currentNumPins == NumPins(h.nets)
      ensures partInfo == OneMoreIn(old(partInfo), old(Part()[u]))
      ensures changeU == Sum(ChangesOfU(old(Abs()), old(Abs().nodes[u].nets), old(Projected(u, v)), u, v))
      ensures changeV == Sum(ChangesOfV(old(Abs()), old(Abs().nodes[u].nets), old(Projected(u, v)), u, v))
    {
      changeU, changeV := UncontractAllNets(u, v, h, off);
      RestoreRepresentative(u, v, h);
    }

    // ------------------------------------------------------- giving nodes blocks

    /** Every row fits its net, those of the nets in pending still with the partition part. */
    ghost predicate CountsPending(part: Partition, pending: set<nat>)
      requires WellLaid(hyperedges, incidence[..])
      reads `hypernodes, `hyperedges, `rows, incidence
    {
      && |rows| == |hyperedges| - 1
      && forall e {:trigger rows[e]} | 0 <= e < |rows| ::
           RowFits(rows[e], Abs().nets[e], if e in pending then part else Part(), k)
    }

    /** Puts x into block b. */
    method AssignBlock(x: nat, b: int)
      requires Rep() && CountsExact() && Valid(Abs()) && HasNode(Abs(), x)
      modifies `hypernodes
      ensures Rep() && CountsPending(old(Part()), old(Abs().nodes[x].nets))
      ensures Abs() == old(Abs()) && Part() == old(Part())[x := b] && Borders() == old(Borders())
      ensures hypernodes[x].incidentNets == old(hypernodes[x].incidentNets)
    {
      ghost var h, part, borders := Abs(), Part(), Borders();
      hypernodes := hypernodes[x := hypernodes[x].(partId := b)];
      assert Abs().nodes == h.nodes && Part() == part[x := b] && Borders() == borders;
      forall e | 0 <= e < |rows|
        ensures RowFits(rows[e], h.nets[e], if e in h.nodes[x].nets then part else part[x := b], k)
      {
        assert RowFits(rows[e], h.nets[e], part, k);
        if e !in h.nodes[x].nets && h.nets[e].enabled {
          assert x !in h.nets[e].pins;
          OtherPinAssigned(rows[e], h.nets[e].pins, part, x, b);
        }
      }
    }

    lemma NothingPending(part: Partition)
      requires WellLaid(hyperedges, incidence[..]) && CountsPending(part, {})
      ensures CountsExact()
    {}

    /** Moves pin x of a net from one block to another in the net's counts. */
    method MovePin(he: nat, x: nat, from: nat, to: nat, ghost part: Partition, ghost pending: set<nat>)
      returns (noPinsLeft: bool, onlyOnePin: bool)
      requires Rep() && CountsPending(part, pending) && he < |rows| && he in pending && hyperedges[he].valid
      requires x in Abs().nets[he].pins && x < |part| && Part() == part[x := to]
      requires part[x] == from && from < k && to < k && from != to
      modifies `rows
      ensures Rep() && CountsPending(part, pending - {he})
      ensures Exact(rows[he], Abs().nets[he].pins, Part(), k)
      ensures noPinsLeft <==> rows[he].counts[from] == 0
      ensures onlyOnePin <==> rows[he].counts[to] == 1
    {
      ghost var row, pins := rows[he], Abs().nets[he].pins;
      assert RowFits(row, Abs().nets[he], part, k);
      assert BlockOf(part, x) == from && x in PinsIn(pins, part, from);
      assert row.counts[from] == PinCount(pins, part, from);
      noPinsLeft := DecrementPinCountInPart(he, from);
      onlyOnePin := IncrementPinCountInPart(he, to);
      PinMoved(row, rows[he], pins, part, x, from, to);
    }

    /** Changes the border counter of x by d. */
    method ShiftBorder(x: nat, d: int)
      requires Rep() && x < |hypernodes|
      modifies `hypernodes
      ensures Rep() && Part() == old(Part()) && Abs() == old(Abs())
      ensures Borders() == old(Borders())[x := old(Borders()[x]) + d]
    {
      ghost var part, nodes, borders := Part(), Abs().nodes, Borders();
      hypernodes := hypernodes[x := hypernodes[x].(numIncidentCutHes := hypernodes[x].numIncidentCutHes + d)];
      assert Part() == part && Abs().nodes == nodes && Borders() == borders[x := borders[x] + d];
    }

    /** The pins of a net in the slots before i. */
    ghost function PinsBefore(he: nat, i: nat): set<nat>
      requires he < |hyperedges| && hyperedges[he].begin <= i <= incidence.Length
      reads `hyperedges, incidence
    {
      Elements(incidence[hyperedges[he].begin..i])
    }

    /** The pin in slot i is one of the net, and a new one. */
    lemma NextPin(he: nat, i: nat)
      requires Rep() && he < |rows| && hyperedges[he].begin <= i < hyperedges[he].FirstInvalidEntry()
      ensures incidence[i] !in PinsBefore(he, i) && incidence[i] in Abs().nets[he].pins
      ensures PinsBefore(he, i + 1) == PinsBefore(he, i) + {incidence[i]}
    {
      var begin, slots := hyperedges[he].begin, PinSlots(hyperedges[he], incidence[..]);
      assert Abs().nets[he] == NetAt(hyperedges, incidence[..], he);
      assert NoDuplicates(slots) && slots[i - begin] == incidence[i];
      assert incidence[begin..i] == slots[..i - begin];
      assert incidence[begin..i + 1] == incidence[begin..i] + [incidence[i]];
      Appended(incidence[begin..i], incidence[i]);
    }

    lemma AllPins(he: nat)
      requires Rep() && he < |rows|
      ensures PinsBefore(he, hyperedges[he].begin) == {}
      ensures PinsBefore(he, hyperedges[he].FirstInvalidEntry()) == Abs().nets[he].pins
    {
      assert Abs().nets[he] == NetAt(hyperedges, incidence[..], he);
      assert incidence[hyperedges[he].begin..hyperedges[he].FirstInvalidEntry()]
          == PinSlots(hyperedges[he], incidence[..]);
    }

    /** The pins of all nets in the order of their slots. */
    ghost function Slots(): (slots: seq<seq<nat>>)
      requires WellLaid(hyperedges, incidence[..])
      reads `hyperedges, incidence
    {
      SlotsOf(hyperedges, incidence[..])
    }

    /** Counts a net off at a pin. */
    method LeaveCutAt(pin: nat, ghost slots: seq<nat>, found: seq<nat>, ghost after: seq<int>)
      returns (internal: seq<nat>)
      requires Rep() && pin < |hypernodes| && pin !in slots && found == WithZero(slots, Borders())
      requires after == Borders()[pin := Borders()[pin] + -1]
      modifies `hypernodes
      ensures Rep() && Part() == old(Part()) && Abs() == old(Abs()) && Borders() == after
      ensures internal == WithZero(slots + [pin], after)
    {
      WithZeroNext(slots, pin, Borders(), -1);
      ShiftBorder(pin, -1);
      internal := found;
      if hypernodes[pin].numIncidentCutHes == 0 {
        internal := internal + [pin];
      }
    }

    /** The slots of a net before slot i. */
    ghost function SlotsBefore(he: nat, i: nat): seq<nat>
      requires he < |hyperedges| && hyperedges[he].begin <= i <= incidence.Length
      reads `hyperedges, incidence
    {
      incidence[hyperedges[he].begin..i]
    }

    lemma NextSlot(he: nat, i: nat)
      requires Rep() && he < |rows| && hyperedges[he].begin <= i < hyperedges[he].FirstInvalidEntry()
      ensures SlotsBefore(he, i + 1) == SlotsBefore(he, i) + [incidence[i]] && incidence[i] !in SlotsBefore(he, i)
    {
      NextPin(he, i);
      forall x ensures x in SlotsBefore(he, i) <==> x in PinsBefore(he, i) {}
    }

    lemma AllSlots(he: nat)
      requires Rep() && he < |rows|
      ensures SlotsBefore(he, hyperedges[he].begin) == []
      ensures SlotsBefore(he, hyperedges[he].FirstInvalidEntry()) == Slots()[he]
    {}

    /** Counts a net off at the pin in slot i. */
    method LeaveCutNext(he: nat, i: nat, found: seq<nat>, ghost before: seq<int>) returns (internal: seq<nat>)
      requires Rep() && he < |rows| && hyperedges[he].begin <= i < hyperedges[he].FirstInvalidEntry()
      requires Shifted(before, Borders(), PinsBefore(he, i), -1) && found == WithZero(SlotsBefore(he, i), Borders())
      modifies `hypernodes
      ensures Rep() && Part() == old(Part()) && Abs() == old(Abs())
      ensures Shifted(before, Borders(), PinsBefore(he, i + 1), -1)
      ensures internal == WithZero(SlotsBefore(he, i + 1), Borders())
    {
      ghost var borders, pin, slots := Borders(), incidence[i], SlotsBefore(he, i);
      NextPin(he, i);
      NextSlot(he, i);
      ghost var slots', pins', borders' :=
        SlotsBefore(he, i + 1), PinsBefore(he, i + 1), borders[pin := borders[pin] + -1];
      OneMoreShifted(before, borders, borders', PinsBefore(he, i), pin, -1);
      internal := LeaveCutAt(incidence[i], slots, found, borders');
      assert SlotsBefore(he, i + 1) == slots' && PinsBefore(he, i + 1) == pins';
    }

    /** A net has left the cut: counts it off at its pins. Returns those whose counters are
        zero then. */
    method LeaveCut(he: nat) returns (internal: seq<nat>)
      requires Rep() && he < |rows|
      modifies `hypernodes
      ensures Rep() && Part() == old(Part()) && Abs() == old(Abs())
      ensures Shifted(old(Borders()), Borders(), Abs().nets[he].pins, -1)
      ensures internal == WithZero(Slots()[he], Borders())
    {
      internal := [];
      AllPins(he);
      AllSlots(he);
      for i := hyperedges[he].begin to hyperedges[he].FirstInvalidEntry()
        invariant Rep() && Part() == old(Part()) && Abs() == old(Abs())
        invariant Shifted(old(Borders()), Borders(), PinsBefore(he, i), -1)
        invariant internal == WithZero(SlotsBefore(he, i), Borders())
      {
        internal := LeaveCutNext(he, i, internal, old(Borders()));
      }
    }

    /** A net has entered the cut: counts it at its pins. */
    method EnterCut(he: nat)
      requires Rep() && he < |rows|
      modifies `hypernodes
      ensures Rep() && Part() == old(Part()) && Abs() == old(Abs())
      ensures Shifted(old(Borders()), Borders(), Abs().nets[he].pins, 1)
    {
      AllPins(he);
      for i := hyperedges[he].begin to hyperedges[he].FirstInvalidEntry()
        invariant Rep() && Part() == old(Part()) && Abs() == old(Abs())
        invariant Shifted(old(Borders()), Borders(), PinsBefore(he, i), 1)
      {
        NextPin(he, i);
        ShiftBorder(incidence[i], 1);
      }
    }

    /** x is being moved from one block to another: the nets in pending are still to be
        dealt with, and the border counters are off by as much as before the move. */
    ghost predicate InMove(x: nat, from: nat, to: nat, part: Partition, pending: set<nat>, off: seq<int>)
      reads `hypernodes, `hyperedges, `rows, `partInfo, incidence
    {
      && Rep() && CountsPending(part, pending)
      && Valid(Abs()) && HasNode(Abs(), x) && x < |part|
      && part[x] == from && from < k && to < k && from != to && Part() == part[x := to]
      && pending <= Abs().nodes[x].nets
      && |off| == |hypernodes| && BordersDuring(Abs(), part, Part(), pending, Less(Borders(), off))
    }

    /** The size of a net is its number of pins. */
    lemma SizeOfNet(he: nat)
      requires Rep() && he < |rows|
      ensures hyperedges[he].size == |Abs().nets[he].pins|
    {
      assert Abs().nets[he] == NetAt(hyperedges, incidence[..], he);
      assert NoDuplicates(PinSlots(hyperedges[he], incidence[..]));
      DistinctSize(PinSlots(hyperedges[he], incidence[..]));
    }

    /** Tells by the new counts of a net whether the move of x took it out of the cut, or
        into it, and counts that at its pins. Returns the pins that have become internal. */
    method UpdateBorders(he: nat, x: nat, from: nat, to: nat, noPinsLeft: bool, onlyOnePin: bool, ghost part: Partition)
      returns (internal: seq<nat>)
      requires Rep() && he < |rows| && Exact(rows[he], Abs().nets[he].pins, Part(), k)
      requires x in Abs().nets[he].pins && x < |part| && Part() == part[x := to]
      requires part[x] == from && from < k && to < k && from != to
      requires noPinsLeft <==> rows[he].counts[from] == 0
      requires onlyOnePin <==> rows[he].counts[to] == 1
      modifies `hypernodes
      ensures Rep() && Part() == old(Part()) && Abs() == old(Abs())
      ensures Shifted(old(Borders()), Borders(), Abs().nets[he].pins, CutChange(Abs().nets[he], part, Part()))
      ensures internal == if LeavesCut(Abs().nets[he], part, Part()) then WithZero(Slots()[he], Borders()) else []
    {
      CutChangeDetected(rows[he], Abs().nets[he].pins, part, x, from, to);
      SizeOfNet(he);
      internal := [];
      if noPinsLeft && !onlyOnePin {
        if rows[he].counts[to] == hyperedges[he].size {
          internal := LeaveCut(he);
        }
      } else if !noPinsLeft && onlyOnePin && rows[he].counts[from] == hyperedges[he].size - 1 {
        EnterCut(he);
      }
    }

    /** Deals with one net of the node x that changes blocks. */
    method MoveInNet(he: nat, x: nat, from: nat, to: nat, ghost part: Partition, ghost pending: set<nat>,
                     ghost off: seq<int>)
      returns (internal: seq<nat>)
      requires InMove(x, from, to, part, pending, off) && he in pending
      modifies `hypernodes, `rows
      ensures Abs() == old(Abs()) && Part() == old(Part())
      ensures InMove(x, from, to, part, pending - {he}, off)
      ensures Shifted(old(Borders()), Borders(), Abs().nets[he].pins, CutChange(Abs().nets[he], part, Part()))
      ensures internal == if LeavesCut(Abs().nets[he], part, Part()) then WithZero(Slots()[he], Borders()) else []
    {
      assert HasNet(Abs(), he) && x in Abs().nets[he].pins;
      var noPinsLeft, onlyOnePin := MovePin(he, x, from, to, part, pending);
      internal := UpdateBorders(he, x, from, to, noPinsLeft, onlyOnePin, part);
      ShiftedLess(old(Borders()), Borders(), off, Abs().nets[he].pins, CutChange(Abs().nets[he], part, Part()));
      BordersStep(Abs(), part, Part(), pending, he, Less(old(Borders()), off), Less(Borders(), off));
    }

    /** The nodes in internal include all that have become internal since the border
        counters were those in before, and all are on nets of x that have left the cut. */
    ghost predicate FoundInternal(before: seq<int>, part: Partition, x: nat, internal: seq<nat>)
      requires WellLaid(hyperedges, incidence[..])
      reads `hypernodes, `hyperedges, incidence
    {
      && InternalListed(before, Borders(), internal)
      && forall y {:trigger OnNetThatLeftCut(Abs(), part, Part(), x, y)} | y in internal ::
           y < |Borders()| && OnNetThatLeftCut(Abs(), part, Part(), x, y)
    }

    /** The nodes in internal are those found on the first a of the given nets, in order. */
    ghost predicate FoundOn(part: Partition, nets: seq<nat>, off: seq<int>, a: nat, internal: seq<nat>)
      requires WellLaid(hyperedges, incidence[..])
      reads `hypernodes, `hyperedges, incidence
    {
      && |off| == |hypernodes| && a <= |nets|
      && (forall i {:trigger nets[i]} | 0 <= i < |nets| :: nets[i] < |Abs().nets|)
      && internal == BecameInternal(Abs(), Slots(), part, Part(), nets, off, a)
    }

    /** Deals with the next net of x: one round of the loop of ChangeNodePart. */
    method MoveInNextNet(nets: seq<nat>, a: nat, x: nat, from: nat, to: nat, found: seq<nat>,
                         ghost part: Partition, ghost before: seq<int>, ghost off: seq<int>)
      returns (internal: seq<nat>)
      requires a < |nets| && NoDuplicates(nets) && InMove(x, from, to, part, Elements(nets[a..]), off)
      requires FoundInternal(before, part, x, found) && FoundOn(part, nets, off, a, found)
      modifies `hypernodes, `rows
      ensures Abs() == old(Abs()) && Part() == old(Part())
      ensures InMove(x, from, to, part, Elements(nets[a + 1..]), off)
      ensures FoundInternal(before, part, x, internal) && FoundOn(part, nets, off, a + 1, internal)
    {
      RestAfter(nets, a);
      ghost var borders := Borders();
      var more := MoveInNet(nets[a], x, from, to, part, Elements(nets[a..]), off);
      internal := found + more;
      FoundOnNet(Abs(), part, Part(), x, nets[a], Slots()[nets[a]], borders, Borders(), more);
      InternalListedOn(before, borders, Borders(), found, more);
      BordersAre(Abs(), part, Part(), Elements(nets[a + 1..]), Borders(), off);
    }

    lemma FoundOnNone(x: nat, part: Partition, off: seq<int>)
      requires Rep() && x < |hypernodes| && |off| == |hypernodes|
      ensures FoundOn(part, hypernodes[x].incidentNets, off, 0, [])
    {
      var nets := hypernodes[x].incidentNets;
      forall i | 0 <= i < |nets| ensures nets[i] < |Abs().nets| {
        assert nets[i] in hypernodes[x].incidentNets;
      }
    }

    /** Deals with all nets of x: the loop of ChangeNodePart. */
    method MoveInNets(x: nat, from: nat, to: nat, ghost part: Partition, ghost off: seq<int>)
      returns (internal: seq<nat>)
      requires x < |hypernodes| && InMove(x, from, to, part, Elements(hypernodes[x].incidentNets), off)
      modifies `hypernodes, `rows
      ensures Abs() == old(Abs()) && Part() == old(Part())
      ensures InMove(x, from, to, part, {}, off)
      ensures FoundInternal(old(Borders()), part, x, internal)
      ensures FoundOn(part, old(hypernodes[x].incidentNets), off, |old(hypernodes[x].incidentNets)|, internal)
    {
      var nets := hypernodes[x].incidentNets;
      internal := [];
      assert nets[0..] == nets;
      FoundOnNone(x, part, off);
      for a := 0 to |nets|
        invariant Abs() == old(Abs()) && Part() == old(Part())
        invariant InMove(x, from, to, part, Elements(nets[a..]), off)
        invariant FoundInternal(old(Borders()), part, x, internal) && FoundOn(part, nets, off, a, internal)
      {
        internal := MoveInNextNet(nets, a, x, from, to, internal, part, old(Borders()), off);
      }
      assert Elements(nets[|nets|..]) == {};
    }

    /** Books a move between blocks in the block weights and sizes. */
    method UpdatePartInfo(x: nat, from: nat, to: nat)
      requires x < |hypernodes| && |partInfo| == k && from < k && to < k && from != to
      requires HasNode(Hypergraph(NodesOf(hypernodes), []), x)
      modifies `partInfo
      ensures partInfo == Joining(Leaving(old(partInfo), from, hypernodes[x].weight), to, hypernodes[x].weight)
    {
      partInfo := Leaving(partInfo, from, hypernodes[x].weight);
      partInfo := Joining(partInfo, to, hypernodes[x].weight);
    }

    /** All partition-related data are exact. */
    ghost predicate PartitionExact()
      reads `hypernodes, `hyperedges, `rows, `partInfo, incidence
    {
      && Rep() && CountsExact()
      && BordersMatch(Abs(), Part(), Borders())
      && InfoExact(Abs(), Part(), partInfo)
    }

    /** With exact counters, the nodes found on the nets of x are internal: all their cut nets
        are nets that the move of x has made cut. */
    ghost predicate OnlyInternal(part: Partition, x: nat, internal: seq<nat>)
      requires WellLaid(hyperedges, incidence[..])
      reads `hypernodes, `hyperedges, incidence
    {
      && x < |hypernodes|
      && (forall y {:trigger HasNode(Abs(), y)} | y in internal :: HasNode(Abs(), y))
      && forall y, e {:trigger y in internal, e in Abs().nodes[y].nets} |
           y in internal && HasNode(Abs(), y) && e in Abs().nodes[y].nets && HasNet(Abs(), e)
           && IsCut(Abs().nets[e], Part()) ::
           e in Abs().nodes[x].nets && !IsCut(Abs().nets[e], part)
    }

    lemma FoundAreInternal(part: Partition, x: nat, nets: seq<nat>, off: seq<int>, before: seq<int>, internal: seq<nat>)
      requires Rep() && Valid(Abs()) && x < |hypernodes| && FoundOn(part, nets, off, |nets|, internal)
      requires FoundInternal(before, part, x, internal) && Elements(nets) == Abs().nodes[x].nets
      requires forall y {:trigger off[y]} | 0 <= y < |off| :: off[y] == 0
      ensures OnlyInternal(part, x, internal)
    {
      forall y | y in internal ensures HasNode(Abs(), y) {
        assert OnNetThatLeftCut(Abs(), part, Part(), x, y);
      }
      forall y, e | y in internal && HasNode(Abs(), y) && e in Abs().nodes[y].nets && HasNet(Abs(), e)
        && IsCut(Abs().nets[e], Part())
        ensures e in Abs().nodes[x].nets && !IsCut(Abs().nets[e], part)
      {
        FoundIsInternal(Abs(), Slots(), part, Part(), nets, off, y, e);
        assert e in Elements(nets);
      }
    }

    /** Moves x to another block. The border counters stay as exact as they were. The nodes
        that are returned include all that have become internal, and with exact counters none
        but those that were so when one of the nets of x had been dealt with. */
    method ChangeNodePart(x: nat, from: nat, to: nat) returns (internal: seq<nat>)
      requires Rep() && CountsExact() && InfoExact(Abs(), Part(), partInfo)
      requires Valid(Abs()) && HasNode(Abs(), x) && Part()[x] == from && from < k && to < k && from != to
      modifies `hypernodes, `rows, `partInfo
      ensures Rep() && CountsExact() && InfoExact(Abs(), Part(), partInfo)
      ensures Abs() == old(Abs()) && Part() == old(Part())[x := to]
      ensures BorderErrors(Abs(), Part(), Borders()) == old(BorderErrors(Abs(), Part(), Borders()))
      ensures FoundInternal(old(Borders()), old(Part()), x, internal)
      ensures var nets := old(hypernodes[x].incidentNets);
              FoundOn(old(Part()), nets, old(BorderErrors(Abs(), Part(), Borders())), |nets|, internal)
      ensures old(BordersMatch(Abs(), Part(), Borders())) ==> OnlyInternal(old(Part()), x, internal)
    {
      ghost var nets := hypernodes[x].incidentNets;
      ghost var h, part, off := Abs(), Part(), BorderErrors(Abs(), Part(), Borders());
      OffByErrors(h, part, Borders(), off);
      if BordersMatch(h, part, Borders()) {
        NoErrors(h, part, Borders());
      }
      InfoMoved(h, part, partInfo, x, to);
      UpdatePartInfo(x, from, to);
      MoveBegins(h, part, x, to, Less(Borders(), off));
      AssignBlock(x, to);
      assert Elements(hypernodes[x].incidentNets) == h.nodes[x].nets;
      internal := MoveInNets(x, from, to, part, off);
      MoveEnds(h, part, Part(), Less(Borders(), off));
      OffByErrors(h, Part(), Borders(), off);
      NothingPending(part);
      if old(BordersMatch(Abs(), Part(), Borders())) {
        FoundAreInternal(part, x, nets, off, old(Borders()), internal);
      }
    }

    /** Places pin x of a net in its first block in the net's counts. */
    method PlacePin(he: nat, x: nat, id: nat, ghost part: Partition, ghost pending: set<nat>)
      requires Rep() && CountsPending(part, pending) && he < |rows| && he in pending && hyperedges[he].valid
      requires x in Abs().nets[he].pins && x < |part| && Part() == part[x := id]
      requires part[x] == INVALID_PARTITION && id < k
      modifies `rows
      ensures Rep() && CountsPending(part, pending - {he})
    {
      ghost var row, pins := rows[he], Abs().nets[he].pins;
      assert RowFits(row, Abs().nets[he], part, k);
      var increased := IncrementPinCountInPart(he, id);
      PinPlaced(row, rows[he], pins, part, x, id);
    }

    /** Deals with the next net of x, which has been given its first block. */
    method PlaceInNextNet(nets: seq<nat>, a: nat, x: nat, id: nat, ghost part: Partition)
      requires a < |nets| && NoDuplicates(nets)
      requires Rep() && CountsPending(part, Elements(nets[a..])) && Valid(Abs()) && HasNode(Abs(), x)
      requires nets[a] in Abs().nodes[x].nets
      requires x < |part| && Part() == part[x := id] && part[x] == INVALID_PARTITION && id < k
      modifies `rows
      ensures Rep() && CountsPending(part, Elements(nets[a + 1..]))
    {
      RestAfter(nets, a);
      assert HasNet(Abs(), nets[a]) && x in Abs().nets[nets[a]].pins;
      PlacePin(nets[a], x, id, part, Elements(nets[a..]));
    }

    /** Deals with all nets of x: the loop of SetNodePart. */
    method PlaceInNets(x: nat, id: nat, ghost part: Partition)
      requires Rep() && Valid(Abs()) && HasNode(Abs(), x) && CountsPending(part, Abs().nodes[x].nets)
      requires x < |part| && Part() == part[x := id] && part[x] == INVALID_PARTITION && id < k
      modifies `rows
      ensures Rep() && CountsExact()
    {
      var nets := hypernodes[x].incidentNets;
      assert nets[0..] == nets && Elements(nets) == Abs().nodes[x].nets;
      for a := 0 to |nets|
        invariant Rep() && CountsPending(part, Elements(nets[a..]))
      {
        assert nets[a] in Elements(nets);
        PlaceInNextNet(nets, a, x, id, part);
      }
      assert Elements(nets[|nets|..]) == {};
      NothingPending(part);
    }

    /** Gives a node without a block its first one. */
    method SetNodePart(x: nat, id: nat)
      requires Rep() && CountsExact() && InfoExact(Abs(), Part(), partInfo)
      requires Valid(Abs()) && HasNode(Abs(), x) && Part()[x] == INVALID_PARTITION && id < k
      modifies `hypernodes, `rows, `partInfo
      ensures Rep() && CountsExact() && InfoExact(Abs(), Part(), partInfo)
      ensures Abs() == old(Abs()) && Part() == old(Part())[x := id] && Borders() == old(Borders())
    {
      ghost var part := Part();
      InfoPlaced(Abs(), part, partInfo, x, id);
      partInfo := Joining(partInfo, id, hypernodes[x].weight);
      AssignBlock(x, id);
      PlaceInNets(x, id, part);
    }

    /** Sets all border counters to zero. */
    method ZeroBorders()
      requires Rep() && CountsExact()
      modifies `hypernodes
      ensures Rep() && CountsExact() && Abs() == old(Abs()) && Part() == old(Part())
      ensures forall x {:trigger Borders()[x]} | 0 <= x < |Borders()| :: Borders()[x] == 0
    {
      for x := 0 to |hypernodes|
        invariant |hypernodes| == old(|hypernodes|)
        invariant forall y | 0 <= y < x :: hypernodes[y] == old(hypernodes[y]).(numIncidentCutHes := 0)
        invariant forall y | x <= y < |hypernodes| :: hypernodes[y] == old(hypernodes[y])
      {
        hypernodes := hypernodes[x := hypernodes[x].(numIncidentCutHes := 0)];
      }
      assert Part() == old(Part()) && Abs().nodes == old(Abs().nodes);
      forall v, e | 0 <= v < |hypernodes| && e in hypernodes[v].incidentNets ensures e + 1 < |hyperedges| {
        assert e in old(hypernodes)[v].incidentNets;
      }
    }

    /** Counts net he at its pins if it is cut. */
    method CountNet(he: nat)
      requires Rep() && CountsExact() && he < |rows| && hyperedges[he].valid
      requires Assigned(Abs().nets[he].pins, Part(), k)
      modifies `hypernodes
      ensures Rep() && CountsExact() && Abs() == old(Abs()) && Part() == old(Part())
      ensures Shifted(old(Borders()), Borders(), Abs().nets[he].pins,
                      CutChange(Abs().nets[he], Unassigned(|Part()|), Part()))
    {
      CutIsDetected(rows[he], Abs().nets[he], Part(), k);
      NothingCut(Abs().nets[he], |Part()|);
      if rows[he].connectivity > 1 {
        EnterCut(he);
      }
    }

    /** The cut nets numbered below i have been counted at all nodes. */
    ghost predicate InCounting(h: Hypergraph, part: Partition, i: nat)
      reads `hypernodes, `hyperedges, `rows, `partInfo, incidence
    {
      && Rep() && CountsExact() && Abs() == h && Part() == part
      && BordersDuring(h, Unassigned(|part|), part, NetsFrom(h, i), Borders())
    }

    /** One round of the loop of InitializeNumCutHyperedges. */
    method CountNextNet(he: nat, ghost h: Hypergraph, ghost part: Partition)
      requires InCounting(h, part, he) && he < |rows| && Valid(h) && FullyAssigned(h, part, k)
      modifies `hypernodes
      ensures InCounting(h, part, he + 1)
    {
      ghost var pending := NetsFrom(h, he);
      assert NetsFrom(h, he + 1) == pending - {he};
      if hyperedges[he].valid {
        NetAssigned(h, part, k, he);
        CountNet(he);
        BordersStep(h, Unassigned(|part|), part, pending, he, old(Borders()), Borders());
      } else {
        assert pending - {he} == pending;
      }
    }

    /** The loop of InitializeNumCutHyperedges. */
    method CountNets(ghost h: Hypergraph, ghost part: Partition)
      requires InCounting(h, part, 0) && Valid(h) && FullyAssigned(h, part, k)
      modifies `hypernodes
      ensures InCounting(h, part, |rows|)
    {
      for he := 0 to |rows|
        invariant InCounting(h, part, he)
      {
        CountNextNet(he, h, part);
      }
    }

    /** Counts the cut nets at every node afresh. */
    method InitializeNumCutHyperedges()
      requires Rep() && CountsExact() && Valid(Abs()) && FullyAssigned(Abs(), Part(), k)
      modifies `hypernodes
      ensures Rep() && CountsExact() && Abs() == old(Abs()) && Part() == old(Part())
      ensures BordersMatch(Abs(), Part(), Borders())
    {
      ghost var h, part := Abs(), Part();
      ZeroBorders();
      CountingBegins(h, part, Borders());
      CountNets(h, part);
      assert NetsFrom(h, |rows|) == {};
      MoveEnds(h, Unassigned(|part|), part, Borders());
    }

    // ---------------------------------------------- removing and restoring nets

    /** Takes net he off the list of x. */
    method RemoveIncidentEdgeFromHypernode(he: nat, x: nat)
      requires Rep() && CountsExact() && x < |hypernodes| && he in Abs().nodes[x].nets
      modifies `hypernodes
      ensures Rep() && CountsExact() && Part() == old(Part()) && Borders() == old(Borders())
      ensures Abs().nets == old(Abs().nets)
      ensures Abs().nodes == old(Abs().nodes)[x := old(Abs().nodes[x]).(nets := old(Abs().nodes[x].nets) - {he})]
    {
      ghost var borders := Borders();
      var it := Find(hypernodes[x].incidentNets, he);
      SwapOut(x, it);
      assert Borders() == borders;
    }

    /** Removing net he from h has got as far as slot i. */
    ghost predicate InRemoval(h: Hypergraph, he: nat, i: nat)
      reads `hypernodes, `hyperedges, `rows, `partInfo, incidence
    {
      && Rep() && CountsExact()
      && he < |rows| && hyperedges[he].begin <= i <= incidence.Length
      && Abs().nets == h.nets && Abs().nodes == PartlyRemoved(h, he, PinsBefore(he, i))
    }

    /** Takes the net off the list of the pin in slot i. */
    method ForgetAtNextPin(he: nat, i: nat, ghost h: Hypergraph)
      requires InRemoval(h, he, i) && i < hyperedges[he].FirstInvalidEntry() && Valid(h) && HasNet(h, he)
      modifies `hypernodes, `currentNumPins
      ensures InRemoval(h, he, i + 1)
      ensures Part() == old(Part()) && Borders() == old(Borders())
      ensures currentNumPins == old(currentNumPins) - 1
    {
      NextPin(he, i);
      var pin := incidence[i];
      assert HasNode(h, pin) && he in h.nodes[pin].nets;
      RemoveIncidentEdgeFromHypernode(he, pin);
      currentNumPins := currentNumPins - 1;
    }

    /** The loop of RemoveEdge: no pin lists he any more. */
    method ForgetAtPins(he: nat)
      requires Rep() && CountsExact() && Valid(Abs()) && HasNet(Abs(), he)
      modifies `hypernodes, `currentNumPins
      ensures Rep() && CountsExact() && Part() == old(Part()) && Borders() == old(Borders())
      ensures Abs().nets == old(Abs().nets)
      ensures Abs().nodes == PartlyRemoved(old(Abs()), he, Abs().nets[he].pins)
      ensures currentNumPins == old(currentNumPins) - hyperedges[he].size
    {
      ghost var h := Abs();
      AllPins(he);
      assert PartlyRemoved(h, he, {}) == h.nodes;
      for i := hyperedges[he].begin to hyperedges[he].FirstInvalidEntry()
        invariant InRemoval(h, he, i)
        invariant Part() == old(Part()) && Borders() == old(Borders())
        invariant currentNumPins == old(currentNumPins) - (i - hyperedges[he].begin)
      {
        ForgetAtNextPin(he, i, h);
      }
    }

    /** Disables a net that is on no list any more and invalidates its pin counts. */
    method DisableEdge(he: nat)
      requires Rep() && CountsExact() && he < |rows| && hyperedges[he].valid
      modifies `hyperedges, `rows, `currentNumHyperedges
      ensures Rep() && CountsExact() && |rows| == old(|rows|)
      ensures Abs() == old(Abs()).(nets := old(Abs().nets)[he := old(Abs().nets[he]).(enabled := false)])
      ensures currentNumHyperedges == old(currentNumHyperedges) - 1
    {
      ghost var nets := Abs().nets;
      var edge := hyperedges[he].(valid := false);
      OneNetChanged(hyperedges, incidence[..], he, edge, incidence[..]);
      assert PinSlots(edge, incidence[..]) == PinSlots(hyperedges[he], incidence[..]);
      hyperedges := hyperedges[he := edge];
      rows := rows[he := Row(seq(k, _ => INVALID_COUNT), 0, [])];
      currentNumHyperedges := currentNumHyperedges - 1;
    }

    /** Takes a net off all lists and disables it. */
    method Disconnect(he: nat)
      requires Rep() && CountsExact() && Valid(Abs()) && HasNet(Abs(), he)
      modifies `hypernodes, `hyperedges, `rows, `currentNumHyperedges, `currentNumPins
      ensures Rep() && CountsExact() && Abs() == NLevel.RemoveEdge(old(Abs()), he)
      ensures Part() == old(Part()) && Borders() == old(Borders())
      ensures currentNumHyperedges == old(currentNumHyperedges) - 1
      ensures currentNumPins == old(currentNumPins) - |old(Abs()).nets[he].pins|
    {
      ghost var h := Abs();
      SizeOfNet(he);
      ForgetAtPins(he);
      DisableEdge(he);
      assert Abs().nodes == NLevel.RemoveEdge(h, he).nodes;
    }

    /** Changes the weight of a net. */
    method SetEdgeWeight(he: nat, weight: int)
      requires Rep() && CountsExact() && he < |rows|
      modifies `hyperedges
      ensures Rep() && CountsExact() && |hyperedges| == old(|hyperedges|)
      ensures Abs() == WithNetWeight(old(Abs()), he, weight)
    {
      ghost var nets := Abs().nets;
      var edge := hyperedges[he].(weight := weight);
      OneNetChanged(hyperedges, incidence[..], he, edge, incidence[..]);
      assert PinSlots(edge, incidence[..]) == PinSlots(hyperedges[he], incidence[..]);
      hyperedges := hyperedges[he := edge];
      assert Abs().nets == nets[he := nets[he].(weight := weight)];
    }

    /** Removes a net: it stays intact except that its pins do not list it any more. */
    method RemoveEdge(he: nat)
      requires Rep() && CountsExact() && NumbersOf(Abs()) && Valid(Abs()) && HasNet(Abs(), he)
      modifies `hypernodes, `hyperedges, `rows, `currentNumHyperedges, `currentNumPins
      ensures Rep() && CountsExact() && NumbersOf(Abs()) && PartitionUnchanged()
      ensures Abs() == NLevel.RemoveEdge(old(Abs()), he)
    {
      NetSwitched(Abs(), he, false);
      Disconnect(he);
    }

    /** Restoring net he to h has got as far as slot i. */
    ghost predicate InRestoration(h: Hypergraph, he: nat, i: nat)
      reads `hypernodes, `hyperedges, `rows, `partInfo, incidence
    {
      && Rep() && CountsExactBut(he)
      && he < |rows| && he < |h.nets| && hyperedges[he].begin <= i <= incidence.Length
      && Abs().nets == NLevel.RestoreEdge(h, he).nets && Abs().nodes == PartlyRestored(h, he, PinsBefore(he, i))
      && Exact(rows[he], PinsBefore(he, i), Part(), k)
    }

    /** Net he is enabled, but still without pins. */
    ghost predicate RestorationBegun(h: Hypergraph, he: nat)
      reads `hypernodes, `hyperedges, `rows, `partInfo, incidence
    {
      he < |hyperedges| && InRestoration(h, he, hyperedges[he].begin)
    }

    /** All pins are back. */
    ghost predicate RestorationOver(h: Hypergraph, he: nat)
      reads `hypernodes, `hyperedges, `rows, `partInfo, incidence
    {
      he < |hyperedges| && InRestoration(h, he, hyperedges[he].FirstInvalidEntry())
    }

    /** Sets the pin counts of a net to zero. */
    method ResetPartitionPinCounts(he: nat)
      requires he < |rows| && Cleared(rows[he], k)
      modifies `rows
      ensures he < |rows| == |old(rows)| && rows == old(rows)[he := rows[he]]
      ensures Exact(rows[he], {}, Part(), k)
    {
      rows := rows[he := Row(seq(k, _ => 0), rows[he].connectivity, rows[he].blocks)];
      NoPinsExact(rows[he], Part(), k);
    }

    /** Enables net he and sets its pin counts to zero. */
    method EnableEdge(he: nat)
      requires Rep() && CountsExact() && he < |rows| && !hyperedges[he].valid
      modifies `hyperedges, `rows, `currentNumHyperedges
      ensures RestorationBegun(old(Abs()), he)
      ensures currentNumHyperedges == old(currentNumHyperedges) + 1
      ensures he < |rows| == |old(rows)| && rows == old(rows)[he := rows[he]]
    {
      ghost var h := Abs();
      var edge := hyperedges[he].(valid := true);
      assert RowFits(rows[he], h.nets[he], Part(), k);
      OneNetChanged(hyperedges, incidence[..], he, edge, incidence[..]);
      assert PinSlots(edge, incidence[..]) == PinSlots(hyperedges[he], incidence[..]);
      hyperedges := hyperedges[he := edge];
      currentNumHyperedges := currentNumHyperedges + 1;
      ResetPartitionPinCounts(he);
      AllPins(he);
      assert PartlyRestored(h, he, {}) == h.nodes;
    }

    /** Counts a new pin of net he, if it has a block. */
    method CountPin(he: nat, x: nat, ghost pins: set<nat>)
      requires he < |rows| && Exact(rows[he], pins, Part(), k)
      requires x < |hypernodes| && x !in pins && INVALID_PARTITION <= Part()[x] < k
      modifies `rows
      ensures |rows| == |old(rows)| && rows == old(rows)[he := rows[he]]
      ensures Exact(rows[he], pins + {x}, Part(), k)
    {
      ghost var part, row := Part(), rows[he];
      if hypernodes[x].partId != INVALID_PARTITION {
        var increased := IncrementPinCountInPart(he, hypernodes[x].partId);
        PinAdded(row, rows[he], pins, part, x, part[x]);
      } else {
        UnassignedPinAdded(row, pins, part, x);
      }
    }

    /** Lists net he at x again. */
    method ListEdge(he: nat, x: nat)
      requires Rep() && he < |rows| && x < |hypernodes| && he !in Abs().nodes[x].nets
      modifies `hypernodes
      ensures Rep() && Part() == old(Part()) && Borders() == old(Borders())
      ensures Abs().nets == old(Abs().nets)
      ensures Abs().nodes == old(Abs().nodes)[x := old(Abs().nodes[x]).(nets := old(Abs().nodes[x].nets) + {he})]
    {
      ghost var part, borders := Part(), Borders();
      NetListed(hypernodes, x, he);
      Appended(hypernodes[x].incidentNets, he);
      hypernodes := hypernodes[x := hypernodes[x].(incidentNets := hypernodes[x].incidentNets + [he])];
      assert Part() == part && Borders() == borders;
    }

    /** Lists net he at the pin in slot i again. */
    method RelistPin(he: nat, i: nat, ghost h: Hypergraph)
      requires InRestoration(h, he, i) && i < hyperedges[he].FirstInvalidEntry() && Restorable(h, he)
      modifies `hypernodes
      ensures Rep() && CountsExactBut(he) && Abs().nets == old(Abs().nets)
      ensures Abs().nodes == PartlyRestored(h, he, PinsBefore(he, i + 1))
      ensures Part() == old(Part()) && Borders() == old(Borders())
    {
      NextPin(he, i);
      ghost var pin, pins := incidence[i], PinsBefore(he, i);
      assert HasNode(h, pin) && he !in h.nodes[pin].nets;
      assert PartlyRestored(h, he, pins + {pin})
          == PartlyRestored(h, he, pins)[pin := h.nodes[pin].(nets := h.nodes[pin].nets + {he})];
      ListEdge(he, incidence[i]);
    }

    /** Connects the pin in slot i to net he again. */
    method RestorePin(he: nat, i: nat, ghost h: Hypergraph)
      requires InRestoration(h, he, i) && i < hyperedges[he].FirstInvalidEntry() && Restorable(h, he)
      requires BlocksInRange(Part(), k)
      modifies `hypernodes, `rows, `currentNumPins
      ensures InRestoration(h, he, i + 1) && incidence[i] < |hypernodes|
      ensures Part() == old(Part()) && Borders() == old(Borders())
      ensures he < |rows| == |old(rows)| && rows == old(rows)[he := rows[he]]
      ensures currentNumPins == old(currentNumPins) + 1
    {
      NextPin(he, i);
      ghost var part, pins := Part(), PinsBefore(he, i);
      assert HasNode(h, incidence[i]);
      RelistPin(he, i, h);
      assert INVALID_PARTITION <= Part()[incidence[i]] < k;
      CountPin(he, incidence[i], pins);
      currentNumPins := currentNumPins + 1;
    }

    /** Connects all pins to net he again. */
    method RestorePins(he: nat, ghost h: Hypergraph)
      requires RestorationBegun(h, he) && Restorable(h, he) && BlocksInRange(Part(), k)
      modifies `hypernodes, `rows, `currentNumPins
      ensures RestorationOver(h, he)
      ensures Part() == old(Part()) && Borders() == old(Borders())
      ensures currentNumPins == old(currentNumPins) + hyperedges[he].size
    {
      for i := hyperedges[he].begin to hyperedges[he].FirstInvalidEntry()
        invariant InRestoration(h, he, i)
        invariant Part() == old(Part()) && Borders() == old(Borders())
        invariant currentNumPins == old(currentNumPins) + (i - hyperedges[he].begin)
      {
        RestorePin(he, i, h);
      }
    }

    lemma RestorationEnds(h: Hypergraph, he: nat)
      requires RestorationOver(h, he)
      ensures Rep() && CountsExact() && Abs() == NLevel.RestoreEdge(h, he)
      ensures hyperedges[he].size == |h.nets[he].pins|
    {
      AllPins(he);
      SizeOfNet(he);
      assert Abs().nodes == NLevel.RestoreEdge(h, he).nodes;
    }

    /** Enables a net and connects its pins to it again. */
    method Reconnect(he: nat)
      requires Rep() && CountsExact() && Restorable(Abs(), he) && BlocksInRange(Part(), k)
      modifies `hypernodes, `hyperedges, `rows, `currentNumHyperedges, `currentNumPins
      ensures Rep() && CountsExact() && Abs() == NLevel.RestoreEdge(old(Abs()), he)
      ensures Part() == old(Part()) && Borders() == old(Borders())
      ensures currentNumHyperedges == old(currentNumHyperedges) + 1
      ensures currentNumPins == old(currentNumPins) + |old(Abs()).nets[he].pins|
    {
      ghost var h := Abs();
      EnableEdge(he);
      RestorePins(he, h);
      RestorationEnds(h, he);
    }

    /** Restores a removed net. */
    method RestoreEdge(he: nat)
      requires Rep() && CountsExact() && NumbersOf(Abs()) && Valid(Abs())
      requires Restorable(Abs(), he) && BlocksInRange(Part(), k)
      modifies `hypernodes, `hyperedges, `rows, `currentNumHyperedges, `currentNumPins
      ensures Rep() && CountsExact() && NumbersOf(Abs()) && Valid(Abs()) && PartitionUnchanged()
      ensures Abs() == NLevel.RestoreEdge(old(Abs()), he)
    {
      NetSwitched(Abs(), he, true);
      RestoredIsValid(Abs(), he);
      Reconnect(he);
    }

    /** Counts one more cut net at x, if there is one. */
    method CountIfConnecting(x: nat, connecting: bool, ghost h: Hypergraph, ghost he: nat, ghost i: nat)
      requires InRestoration(h, he, i) && x < |hypernodes|
      modifies `hypernodes
      ensures InRestoration(h, he, i) && Part() == old(Part())
      ensures Borders() == old(Borders())[x := old(Borders()[x]) + if connecting then 1 else 0]
    {
      if connecting {
        ShiftBorder(x, 1);
      }
    }

    /** Connects the pin in slot i to net he again, and counts one more cut net there if he
        is connecting blocks. */
    method RestoreAndCount(he: nat, i: nat, connecting: bool, ghost h: Hypergraph)
      requires InRestoration(h, he, i) && i < hyperedges[he].FirstInvalidEntry() && Restorable(h, he)
      requires BlocksInRange(Part(), k)
      modifies `hypernodes, `rows, `currentNumPins
      ensures InRestoration(h, he, i + 1) && Part() == old(Part()) && incidence[i] < |hypernodes|
      ensures he < |rows| == |old(rows)| && rows == old(rows)[he := rows[he]]
      ensures Borders() == old(Borders())[incidence[i] := old(Borders()[incidence[i]]) + if connecting then 1 else 0]
      ensures currentNumPins == old(currentNumPins) + 1
    {
      RestorePin(he, i, h);
      CountIfConnecting(incidence[i], connecting, h, he, i + 1);
    }

    /** Connects the pin in slot i to net he again, and counts he there if the net that
        represented it is cut. */
    method RestoreParallelPin(he: nat, i: nat, oldRepresentative: nat, ghost h: Hypergraph, ghost before: seq<int>,
                              ghost d: int)
      requires InRestoration(h, he, i) && i < hyperedges[he].FirstInvalidEntry() && Restorable(h, he)
      requires BlocksInRange(Part(), k)
      requires oldRepresentative < |rows| && oldRepresentative != he
      requires d == if rows[oldRepresentative].connectivity > 1 then 1 else 0
      requires Shifted(before, Borders(), PinsBefore(he, i), d)
      modifies `hypernodes, `rows, `currentNumPins
      ensures InRestoration(h, he, i + 1) && Part() == old(Part())
      ensures Shifted(before, Borders(), PinsBefore(he, i + 1), d)
      ensures oldRepresentative < |rows| && rows[oldRepresentative] == old(rows[oldRepresentative])
      ensures currentNumPins == old(currentNumPins) + 1
    {
      ghost var borders, pin := Borders(), incidence[i];
      NextPin(he, i);
      OneMoreShifted(before, borders, borders[pin := borders[pin] + d], PinsBefore(he, i), pin, d);
      RestoreAndCount(he, i, rows[oldRepresentative].connectivity > 1, h);
    }

    /** Connects all pins to net he again, counting he at each if its representative is cut. */
    method RestoreParallelPins(he: nat, oldRepresentative: nat, ghost h: Hypergraph, ghost d: int)
      requires RestorationBegun(h, he) && Restorable(h, he) && BlocksInRange(Part(), k)
      requires oldRepresentative < |rows| && oldRepresentative != he
      requires d == if rows[oldRepresentative].connectivity > 1 then 1 else 0
      modifies `hypernodes, `rows, `currentNumPins
      ensures RestorationOver(h, he) && Part() == old(Part())
      ensures Shifted(old(Borders()), Borders(), h.nets[he].pins, d)
      ensures currentNumPins == old(currentNumPins) + hyperedges[he].size
    {
      AllPins(he);
      for i := hyperedges[he].begin to hyperedges[he].FirstInvalidEntry()
        invariant InRestoration(h, he, i) && Part() == old(Part())
        invariant oldRepresentative < |rows| && rows[oldRepresentative] == old(rows[oldRepresentative])
        invariant Shifted(old(Borders()), Borders(), PinsBefore(he, i), d)
        invariant currentNumPins == old(currentNumPins) + (i - hyperedges[he].begin)
      {
        RestoreParallelPin(he, i, oldRepresentative, h, old(Borders()), d);
      }
    }

    /** Enables a net and connects its pins to it again, counting it at each of them if
        the net that represented it is cut. */
    method ReconnectParallel(he: nat, oldRepresentative: nat)
      requires Rep() && CountsExact() && Restorable(Abs(), he) && BlocksInRange(Part(), k)
      requires HasNet(Abs(), oldRepresentative)
      modifies `hypernodes, `hyperedges, `rows, `currentNumHyperedges, `currentNumPins
      ensures Rep() && CountsExact() && Abs() == NLevel.RestoreEdge(old(Abs()), he)
      ensures Part() == old(Part())
      ensures Shifted(old(Borders()), Borders(), old(Abs()).nets[he].pins,
                      if old(rows[oldRepresentative].connectivity) > 1 then 1 else 0)
      ensures currentNumHyperedges == old(currentNumHyperedges) + 1
      ensures currentNumPins == old(currentNumPins) + |old(Abs()).nets[he].pins|
    {
      ghost var h := Abs();
      EnableEdge(he);
      RestoreParallelPins(he, oldRepresentative, h, if rows[oldRepresentative].connectivity > 1 then 1 else 0);
      RestorationEnds(h, he);
    }

    /** The representative is found to be cut exactly when the removed net is, its pins
        being the same. */
    lemma RepresentativeCut(he: nat, oldRepresentative: nat)
      requires Rep() && CountsExact() && he < |rows| && Assigned(Abs().nets[he].pins, Part(), k)
      requires HasNet(Abs(), oldRepresentative) && Abs().nets[oldRepresentative].pins == Abs().nets[he].pins
      ensures rows[oldRepresentative].connectivity > 1 <==> IsCut(Abs().nets[he], Part())
    {
      var n := Abs().nets[oldRepresentative];
      assert RowFits(rows[oldRepresentative], n, Part(), k);
      CutIsDetected(rows[oldRepresentative], n, Part(), k);
    }

    /** Restores a net that was removed because it was parallel to another one. It is counted
        at its pins if its representative is found to be cut: where that is right, the border
        counters stay as exact as they were. */
    method RestoreParallelEdge(he: nat, oldRepresentative: nat)
      requires Rep() && CountsExact() && NumbersOf(Abs()) && Valid(Abs())
      requires Restorable(Abs(), he) && BlocksInRange(Part(), k) && HasNet(Abs(), oldRepresentative)
      modifies `hypernodes, `hyperedges, `rows, `currentNumHyperedges, `currentNumPins
      ensures Rep() && CountsExact() && NumbersOf(Abs()) && Valid(Abs()) && Part() == old(Part())
      ensures Abs() == NLevel.RestoreEdge(old(Abs()), he)
      ensures Shifted(old(Borders()), Borders(), Abs().nets[he].pins, if old(rows[oldRepresentative].connectivity) > 1
                      then 1 else 0)
      ensures (old(rows[oldRepresentative].connectivity) > 1 <==> IsCut(Abs().nets[he], Part())) ==>
                BorderErrors(Abs(), Part(), Borders()) == old(BorderErrors(Abs(), Part(), Borders()))
    {
      ghost var h := Abs();
      NetSwitched(h, he, true);
      RestoredIsValid(h, he);
      ReconnectParallel(he, oldRepresentative);
      ErrorsRestored(h, he, Part(), old(Borders()), Borders(),
                     if old(rows[oldRepresentative].connectivity) > 1 then 1 else 0);
    }

    // -------------------------------------------------------------- construction

    /** Builds the hypergraph that an index vector and an edge vector describe. Empty
        weights mean weight one. */
    constructor (numHypernodes: nat, indexVector: seq<nat>, edgeVector: seq<nat>, k: nat,
                 hyperedgeWeights: seq<int>, hypernodeWeights: seq<int>)
      requires WellFormed(numHypernodes, indexVector, edgeVector)
      requires hyperedgeWeights == [] || |hyperedgeWeights| == |indexVector| - 1
      requires hypernodeWeights == [] || |hypernodeWeights| == numHypernodes
      ensures this.k == k && fresh(incidence)
      ensures JustBuilt(numHypernodes, indexVector, edgeVector, hyperedgeWeights, hypernodeWeights)
      ensures Rep() && CountsExact() && NumbersOf(Abs()) && Valid(Abs())
      ensures Abs() == Built(numHypernodes, indexVector, edgeVector, hyperedgeWeights, hypernodeWeights)
      ensures Part() == Unassigned(numHypernodes) && InfoExact(Abs(), Part(), partInfo)
      ensures Borders() == seq(numHypernodes, _ => 0)
    {
      var numHyperedges: nat := |indexVector| - 1;
      this.k := k;
      hypernodes := seq(numHypernodes, _ => Hypernode([], 1, true, INVALID_PARTITION, 0));
      hyperedges := seq(numHyperedges, _ => Hyperedge(0, 0, 1, true));
      incidence := new nat[|edgeVector|](_ => 0);
      rows := seq(numHyperedges, _ => Row(seq(k, _ => 0), 0, []));
      hesNotContainingU := seq(numHyperedges, _ => false);
      partInfo := seq(k, _ => PartInfo(0, 0));
      currentNumHypernodes, currentNumHyperedges, currentNumPins := numHypernodes, numHyperedges, |edgeVector|;
      new;
      Build(numHypernodes, indexVector, edgeVector, hyperedgeWeights, hypernodeWeights);
      BuiltFits(numHypernodes, indexVector, edgeVector, hyperedgeWeights, hypernodeWeights);
      BuiltIsUnpartitioned(numHypernodes, indexVector, edgeVector, hyperedgeWeights, hypernodeWeights);
      BuiltCountsUp(numHypernodes, indexVector, edgeVector, hyperedgeWeights, hypernodeWeights);
    }

    /** Fills in nets, nodes, sentinel and weights. */
    method Build(numHypernodes: nat, index: seq<nat>, edges: seq<nat>, netWeights: seq<int>, nodeWeights: seq<int>)
      requires WellFormed(numHypernodes, index, edges) && incidence.Length == |edges|
      requires netWeights == [] || |netWeights| == |index| - 1
      requires nodeWeights == [] || |nodeWeights| == numHypernodes
      requires hypernodes == seq(numHypernodes, _ => Hypernode([], 1, true, INVALID_PARTITION, 0))
      requires hyperedges == seq(|index| - 1, _ => Hyperedge(0, 0, 1, true))
      requires rows == seq(|index| - 1, _ => Row(seq(k, _ => 0), 0, []))
      modifies `hypernodes, `hyperedges, incidence
      ensures JustBuilt(numHypernodes, index, edges, netWeights, nodeWeights)
    {
      LayOutNets(numHypernodes, index, edges);
      ListNets(numHypernodes, index, edges);
      AddSentinel();
      SetHyperedgeWeights(netWeights);
      SetHypernodeWeights(nodeWeights);
    }

    lemma BuiltCountsUp(numHypernodes: nat, index: seq<nat>, edges: seq<nat>, netWeights: seq<int>,
                        nodeWeights: seq<int>)
      requires WellFormed(numHypernodes, index, edges) && Rep() && Part() == Unassigned(numHypernodes)
      requires Abs() == Built(numHypernodes, index, edges, netWeights, nodeWeights)
      requires currentNumHypernodes == numHypernodes && currentNumHyperedges == |index| - 1 && currentNumPins == |edges|
      requires forall b | 0 <= b < |partInfo| :: partInfo[b] == PartInfo(0, 0)
      ensures NumbersOf(Abs()) && Valid(Abs()) && InfoExact(Abs(), Part(), partInfo)
    {
      BuiltIsValid(numHypernodes, index, edges, netWeights, nodeWeights);
      BuiltSizes(numHypernodes, index, edges, netWeights, nodeWeights);
      UnassignedInfo(Abs(), numHypernodes, partInfo);
    }

    /** Copies the pins of all nets into the incidence array. */
    method LayOutNets(numHypernodes: nat, index: seq<nat>, edges: seq<nat>)
      requires WellFormed(numHypernodes, index, edges) && incidence.Length == |edges|
      requires hyperedges == seq(|index| - 1, _ => Hyperedge(0, 0, 1, true))
      modifies `hyperedges, incidence
      ensures incidence[..] == edges && |hyperedges| == |index| - 1
      ensures forall e | 0 <= e < |hyperedges| :: index[e] <= index[e + 1] && hyperedges[e] == LaidOut(index, [], e)
    {
      var slot: nat := 0;
      for he := 0 to |hyperedges|
        invariant |hyperedges| == |index| - 1 && slot == index[he] <= |edges|
        invariant incidence[..slot] == edges[..slot]
        invariant forall e | 0 <= e < he :: index[e] <= index[e + 1] && hyperedges[e] == LaidOut(index, [], e)
        invariant forall e | he <= e < |hyperedges| :: hyperedges[e] == Hyperedge(0, 0, 1, true)
      {
        NetInRange(numHypernodes, index, edges, he);
        slot := LayOutNet(he, slot, index, edges);
      }
      assert incidence[..] == incidence[..slot];
    }

    /** Copies the pins of one net. */
    method LayOutNet(he: nat, begin: nat, index: seq<nat>, edges: seq<nat>) returns (end: nat)
      requires incidence.Length == |edges| && he < |hyperedges| && he + 1 < |index|
      requires begin == index[he] <= index[he + 1] <= |edges|
      requires incidence[..begin] == edges[..begin] && hyperedges[he] == Hyperedge(0, 0, 1, true)
      modifies `hyperedges, incidence
      ensures end == index[he + 1] && incidence[..end] == edges[..end]
      ensures hyperedges == old(hyperedges)[he := LaidOut(index, [], he)]
    {
      end := begin;
      hyperedges := hyperedges[he := hyperedges[he].(begin := begin)];
      for pin := index[he] to index[he + 1]
        invariant end == pin && incidence[..end] == edges[..end]
        invariant hyperedges == old(hyperedges)[he := Hyperedge(begin, end - begin, 1, true)]
      {
        hyperedges := hyperedges[he := hyperedges[he].(size := hyperedges[he].size + 1)];
        incidence[end] := edges[pin];
        end := end + 1;
      }
    }

    /** Lists every net at its pins. */
    method ListNets(numHypernodes: nat, index: seq<nat>, edges: seq<nat>)
      requires WellFormed(numHypernodes, index, edges)
      requires hypernodes == seq(numHypernodes, _ => Hypernode([], 1, true, INVALID_PARTITION, 0))
      modifies `hypernodes
      ensures |hypernodes| == numHypernodes
      ensures forall v: nat {:trigger hypernodes[v]} | v < numHypernodes ::
                && hypernodes[v] == Hypernode(hypernodes[v].incidentNets, 1, true, INVALID_PARTITION, 0)
                && NoDuplicates(hypernodes[v].incidentNets)
                && Elements(hypernodes[v].incidentNets) == NetsWith(index, edges, v, |index| - 1)
    {
      assert edges[index[0]..index[0]] == [];
      for he := 0 to |index| - 1
        invariant |hypernodes| == numHypernodes && index[he] <= |edges|
                  && Listed(hypernodes, index, edges, he, index[he])
        invariant forall v {:trigger hypernodes[v]} | 0 <= v < numHypernodes ::
                    hypernodes[v] == Hypernode(hypernodes[v].incidentNets, 1, true, INVALID_PARTITION, 0)
      {
        NetInRange(numHypernodes, index, edges, he);
        ListNet(numHypernodes, index, edges, he);
      }
    }

    /** Lists a net at its pins. */
    method ListNet(numHypernodes: nat, index: seq<nat>, edges: seq<nat>, he: nat)
      requires WellFormed(numHypernodes, index, edges) && |hypernodes| == numHypernodes
      requires he + 1 < |index| && index[he] <= index[he + 1] <= |edges|
               && Listed(hypernodes, index, edges, he, index[he])
      requires forall v {:trigger hypernodes[v]} | 0 <= v < numHypernodes ::
                 hypernodes[v] == Hypernode(hypernodes[v].incidentNets, 1, true, INVALID_PARTITION, 0)
      modifies `hypernodes
      ensures |hypernodes| == numHypernodes && Listed(hypernodes, index, edges, he + 1, index[he + 1])
      ensures forall v {:trigger hypernodes[v]} | 0 <= v < numHypernodes ::
                hypernodes[v] == Hypernode(hypernodes[v].incidentNets, 1, true, INVALID_PARTITION, 0)
    {
      for pin := index[he] to index[he + 1]
        invariant |hypernodes| == numHypernodes && Listed(hypernodes, index, edges, he, pin)
        invariant forall v {:trigger hypernodes[v]} | 0 <= v < numHypernodes ::
                    hypernodes[v] == Hypernode(hypernodes[v].incidentNets, 1, true, INVALID_PARTITION, 0)
      {
        ListedNext(hypernodes, numHypernodes, index, edges, he, pin);
        var v := edges[pin];
        hypernodes := hypernodes[v := hypernodes[v].(incidentNets := hypernodes[v].incidentNets + [he])];
      }
      ListedNet(hypernodes, index, edges, he);
    }

    /** Appends the sentinel, which uncontraction peeks at after the last net. */
    method AddSentinel()
      modifies `hyperedges
      ensures hyperedges
           == old(hyperedges)
              + [Hyperedge(if old(hyperedges)
                           == [] then 0 else old(hyperedges[|hyperedges| - 1]).FirstInvalidEntry(), 0, 0, true)]
    {
      if |hyperedges| == 0 {
        hyperedges := hyperedges + [Hyperedge(0, 0, 0, true)];
      } else {
        hyperedges := hyperedges + [Hyperedge(hyperedges[|hyperedges| - 1].FirstInvalidEntry(), 0, 0, true)];
      }
    }

    /** Sets the weights of the nets, if there are any. */
    method SetHyperedgeWeights(weights: seq<int>)
      requires hyperedges != [] && (weights == [] || |weights| == |hyperedges| - 1)
      requires forall e {:trigger hyperedges[e]} | 0 <= e < |hyperedges| - 1 :: hyperedges[e].weight == 1
      modifies `hyperedges
      ensures |hyperedges| == old(|hyperedges|) && hyperedges[|hyperedges| - 1] == old(hyperedges[|hyperedges| - 1])
      ensures forall e {:trigger hyperedges[e]} | 0 <= e < |hyperedges| - 1 ::
                hyperedges[e] == old(hyperedges)[e].(weight := WeightAt(weights, e))
    {
      if weights != [] {
        for e := 0 to |hyperedges| - 1
          invariant |hyperedges| == old(|hyperedges|)
          invariant forall d | 0 <= d < e :: hyperedges[d] == old(hyperedges)[d].(weight := weights[d])
          invariant forall d | e <= d < |hyperedges| :: hyperedges[d] == old(hyperedges)[d]
        {
          hyperedges := hyperedges[e := hyperedges[e].(weight := weights[e])];
        }
      }
    }

    /** Sets the weights of the nodes, if there are any. */
    method SetHypernodeWeights(weights: seq<int>)
      requires weights == [] || |weights| == |hypernodes|
      requires forall v {:trigger hypernodes[v]} | 0 <= v < |hypernodes| :: hypernodes[v].weight == 1
      modifies `hypernodes
      ensures |hypernodes| == old(|hypernodes|)
      ensures forall v {:trigger hypernodes[v]} | 0 <= v < |hypernodes| ::
                hypernodes[v] == old(hypernodes)[v].(weight := WeightAt(weights, v))
    {
      if weights != [] {
        for v := 0 to |hypernodes|
          invariant |hypernodes| == old(|hypernodes|)
          invariant forall x | 0 <= x < v :: hypernodes[x] == old(hypernodes)[x].(weight := weights[x])
          invariant forall x | v <= x < |hypernodes| :: hypernodes[x] == old(hypernodes)[x]
        {
          hypernodes := hypernodes[v := hypernodes[v].(weight := weights[v])];
        }
      }
    }

    /** The fields as the constructor leaves them. */
    ghost predicate JustBuilt(numHypernodes: nat, index: seq<nat>, edges: seq<nat>, netWeights: seq<int>,
                              nodeWeights: seq<int>)
      reads `hypernodes, `hyperedges, `rows, incidence
    {
      && WellFormed(numHypernodes, index, edges)
      && incidence[..] == edges && AllLaidOut(hyperedges, numHypernodes, index, edges, netWeights)
      && |hypernodes| == numHypernodes
      && (forall v: nat {:trigger hypernodes[v]} | v < numHypernodes ::
            && hypernodes[v]
               == Hypernode(hypernodes[v].incidentNets, WeightAt(nodeWeights, v), true, INVALID_PARTITION, 0)
            && NoDuplicates(hypernodes[v].incidentNets)
            && Elements(hypernodes[v].incidentNets) == NetsWith(index, edges, v, |index| - 1))
      && rows == seq(|index| - 1, _ => Row(seq(k, _ => 0), 0, []))
    }

    lemma BuiltFits(numHypernodes: nat, index: seq<nat>, edges: seq<nat>, netWeights: seq<int>, nodeWeights: seq<int>)
      requires JustBuilt(numHypernodes, index, edges, netWeights, nodeWeights) && |partInfo| == k
      ensures Rep()
      ensures Abs() == Built(numHypernodes, index, edges, netWeights, nodeWeights)
    {
      LayoutIsRight(hyperedges, numHypernodes, index, edges, netWeights, nodeWeights);
      forall v, e | 0 <= v < |hypernodes| && e in hypernodes[v].incidentNets ensures e + 1 < |hyperedges| {
        assert e in Elements(hypernodes[v].incidentNets);
      }
      forall i | 0 <= i < incidence.Length ensures incidence[i] < |hypernodes| {
        assert incidence[i] == edges[i];
      }
      assert Abs().nodes == Built(numHypernodes, index, edges, netWeights, nodeWeights).nodes;
    }

    lemma BuiltIsUnpartitioned(numHypernodes: nat, index: seq<nat>, edges: seq<nat>, netWeights: seq<int>,
                               nodeWeights: seq<int>)
      requires JustBuilt(numHypernodes, index, edges, netWeights, nodeWeights)
      requires Rep() && Abs() == Built(numHypernodes, index, edges, netWeights, nodeWeights)
      ensures Part() == Unassigned(numHypernodes) && Borders() == seq(numHypernodes, _ => 0)
      ensures CountsExact()
    {
      assert Part() == Unassigned(numHypernodes);
      forall e | 0 <= e < |rows| ensures RowFits(rows[e], Abs().nets[e], Part(), k) {
        UnassignedExact(rows[e], Abs().nets[e].pins, numHypernodes, k);
      }
    }
  }

  function AddToBorder(hn: Hypernode, cut: bool): Hypernode {
    hn.(numIncidentCutHes := hn.numIncidentCutHes + if cut then 1 else 0)
  }

  function RemoveFromBorder(hn: Hypernode, cut: bool): Hypernode {
    hn.(numIncidentCutHes := hn.numIncidentCutHes - if cut then 1 else 0)
  }

  /** Takes the net at position it off a node's list. */
  function DropNet(hn: Hypernode, it: nat): Hypernode
    requires it < |hn.incidentNets|
  {
    hn.(incidentNets := SwapRemove(hn.incidentNets, it))
  }

  lemma EndSlot(s: seq<nat>, u: nat, v: nat, slot: nat)
    requires s != [] && u != v && v in Elements(s) && slot < |s|
    requires forall i | 0 <= i < |s| - 1 :: s[i] != v
    requires slot == |s| - 1 || s[slot] == u
    requires slot == |s| - 1 ==> forall i | 0 <= i < |s| - 1 :: s[i] != u
    ensures s[|s| - 1] == v && (u in Elements(s) <==> slot < |s| - 1)
  {
    var a :| 0 <= a < |s| && s[a] == v;
  }
}
