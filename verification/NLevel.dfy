/** The n-level hypergraph as a value: contraction, its undo, and whole runs of both.

    The data structure keeps the pins of a net and the incident nets of a node in no
    particular order, so they are sets here. The order in which contraction cut pins
    off a net does matter, because uncontraction looks at the last one, so the cut-off
    pins are a sequence, the last one first. */
module NLevel {

  datatype Net = Net(pins: set<nat>, cutOff: seq<nat>, weight: int, enabled: bool)

  datatype Node = Node(nets: set<nat>, weight: int, enabled: bool)

  datatype Hypergraph = Hypergraph(nodes: seq<Node>, nets: seq<Net>)

  predicate HasNode(h: Hypergraph, v: nat) {
    v < |h.nodes| && h.nodes[v].enabled
  }

  predicate HasNet(h: Hypergraph, e: nat) {
    e < |h.nets| && h.nets[e].enabled
  }

  /** The pins of enabled nets are enabled nodes, both sides of the incidence relation
      agree, and what has been cut off a net is disabled. */
  ghost predicate Valid(h: Hypergraph) {
    && (forall e, p {:trigger p in h.nets[e].pins} | 0 <= e < |h.nets| && h.nets[e].enabled && p in h.nets[e].pins ::
          HasNode(h, p) && e in h.nodes[p].nets)
    && (forall v, e {:trigger e in h.nodes[v].nets} | 0 <= v < |h.nodes| && h.nodes[v].enabled
        && e in h.nodes[v].nets ::
          HasNet(h, e) && v in h.nets[e].pins)
    && (forall e, x {:trigger x in h.nets[e].cutOff} | 0 <= e < |h.nets| && x in h.nets[e].cutOff ::
          x < |h.nodes| && !h.nodes[x].enabled)
  }

  lemma DisabledIsNoPin(h: Hypergraph, v: nat, e: nat)
    requires Valid(h) && HasNet(h, e) && !HasNode(h, v)
    ensures v !in h.nets[e].pins
  {}

  /** h with another weight and state of node v. */
  function WithNode(h: Hypergraph, v: nat, weight: int, enabled: bool): (h': Hypergraph)
    requires v < |h.nodes|
    ensures |h'.nodes| == |h.nodes| && h'.nets == h.nets
  {
    h.(nodes := h.nodes[v := h.nodes[v].(weight := weight, enabled := enabled)])
  }

  /** h with another weight of net e. */
  function WithNetWeight(h: Hypergraph, e: nat, weight: int): (h': Hypergraph)
    requires e < |h.nets|
    ensures |h'.nets| == |h.nets| && h'.nodes == h.nodes
  {
    h.(nets := h.nets[e := h.nets[e].(weight := weight)])
  }

  // ---------------------------------------------------------------- contraction

  /** Net n of the contraction partner v: where the representative u is a pin already,
      v is cut off; otherwise u takes v's place. */
  function ContractNet(n: Net, u: nat, v: nat): Net {
    if u in n.pins then n.(pins := n.pins - {v}, cutOff := [v] + n.cutOff)
    else n.(pins := n.pins - {v} + {u})
  }

  function Contract(h: Hypergraph, u: nat, v: nat): (h': Hypergraph)
    requires u < |h.nodes| && v < |h.nodes| && u != v
    ensures |h'.nodes| == |h.nodes| && |h'.nets| == |h.nets|
  {
    var nu, nv := h.nodes[u], h.nodes[v];
    Hypergraph(
      h.nodes[u := nu.(nets := nu.nets + nv.nets, weight := nu.weight + nv.weight)][v := nv.(enabled := false)],
      seq(|h.nets|, e requires 0 <= e < |h.nets| => if e in nv.nets then ContractNet(h.nets[e], u, v) else h.nets[e]))
  }

  /** The state in the middle of a contraction: the nets in done have been dealt with. */
  function PartlyContracted(h: Hypergraph, u: nat, v: nat, done: set<nat>): (h': Hypergraph)
    requires u < |h.nodes| && v < |h.nodes| && u != v
    ensures |h'.nodes| == |h.nodes| && |h'.nets| == |h.nets|
  {
    var nu, nv := h.nodes[u], h.nodes[v];
    Hypergraph(
      h.nodes[u := nu.(nets := nu.nets + done, weight := nu.weight + nv.weight)],
      seq(|h.nets|, e requires 0 <= e < |h.nets| => if e in done then ContractNet(h.nets[e], u, v) else h.nets[e]))
  }

  lemma ContractionBegins(h: Hypergraph, u: nat, v: nat)
    requires HasNode(h, u) && v < |h.nodes| && u != v
    ensures PartlyContracted(h, u, v, {})
         == h.(nodes := h.nodes[u := h.nodes[u].(weight := h.nodes[u].weight + h.nodes[v].weight, enabled := true)])
  {
    assert PartlyContracted(h, u, v, {}).nets == h.nets;
    assert h.nodes[u].nets + {} == h.nodes[u].nets;
  }

  lemma ContractionProceeds(h: Hypergraph, u: nat, v: nat, done: set<nat>, e: nat)
    requires u < |h.nodes| && v < |h.nodes| && u != v && e < |h.nets| && e !in done
    ensures var c, c' := PartlyContracted(h, u, v, done), PartlyContracted(h, u, v, done + {e});
            && c.nets[e] == h.nets[e]
            && c'.nets == c.nets[e := ContractNet(h.nets[e], u, v)]
            && c'.nodes == c.nodes[u := c.nodes[u].(nets := c.nodes[u].nets + {e})]
  {
    var nets := h.nodes[u].nets;
    assert nets + (done + {e}) == nets + done + {e};
  }

  /** A net of v that is still to be dealt with is as it was before the contraction. */
  lemma NextNetReady(h: Hypergraph, u: nat, v: nat, done: set<nat>, e: nat)
    requires Valid(h) && HasNode(h, u) && HasNode(h, v) && u != v
    requires e in h.nodes[v].nets && e !in done
    ensures var c := PartlyContracted(h, u, v, done);
            && HasNet(c, e) && c.nets[e] == h.nets[e] && v in c.nets[e].pins
            && (e in c.nodes[u].nets <==> u in c.nets[e].pins)
  {
    assert HasNet(h, e);
    assert e in h.nodes[u].nets ==> u in h.nets[e].pins;
    assert u in h.nets[e].pins ==> e in h.nodes[u].nets;
  }

  lemma ContractionCompletes(h: Hypergraph, u: nat, v: nat)
    requires u < |h.nodes| && v < |h.nodes| && u != v
    ensures var c := PartlyContracted(h, u, v, h.nodes[v].nets);
            Contract(h, u, v) == c.(nodes := c.nodes[v := c.nodes[v].(enabled := false)])
  {}

  /** The test by which uncontraction tells the two cases apart: has v just been cut off? */
  predicate WasCutOff(n: Net, v: nat) {
    n.cutOff != [] && n.cutOff[0] == v
  }

  function UncontractNet(n: Net, u: nat, v: nat): Net {
    if WasCutOff(n, v) then n.(pins := n.pins + {v}, cutOff := n.cutOff[1..])
    else n.(pins := n.pins - {u} + {v})
  }

  /** The nets that u has only because of the contraction of v. */
  ghost function Borrowed(h: Hypergraph, u: nat, v: nat): set<nat>
    requires u < |h.nodes| && v < |h.nodes|
  {
    set e | e in h.nodes[u].nets && e in h.nodes[v].nets && e < |h.nets| && !WasCutOff(h.nets[e], v)
  }

  ghost function Uncontract(h: Hypergraph, u: nat, v: nat): (h': Hypergraph)
    requires u < |h.nodes| && v < |h.nodes| && u != v
    ensures |h'.nodes| == |h.nodes| && |h'.nets| == |h.nets|
  {
    var nu, nv := h.nodes[u], h.nodes[v];
    Hypergraph(
      h.nodes[u := nu.(nets := nu.nets - Borrowed(h, u, v), weight := nu.weight - nv.weight)]
             [v := nv.(enabled := true)],
      seq(|h.nets|, e requires 0 <= e < |h.nets| =>
        if e in nu.nets && e in nv.nets then UncontractNet(h.nets[e], u, v) else h.nets[e]))
  }

  // ------------------------------------------------------------- net removal

  function RemoveEdge(h: Hypergraph, e: nat): (h': Hypergraph)
    requires e < |h.nets|
    ensures |h'.nodes| == |h.nodes| && |h'.nets| == |h.nets|
  {
    Hypergraph(
      seq(|h.nodes|, p requires 0 <= p < |h.nodes| =>
        if p in h.nets[e].pins then h.nodes[p].(nets := h.nodes[p].nets - {e}) else h.nodes[p]),
      h.nets[e := h.nets[e].(enabled := false)])
  }

  function RestoreEdge(h: Hypergraph, e: nat): (h': Hypergraph)
    requires e < |h.nets|
    ensures |h'.nodes| == |h.nodes| && |h'.nets| == |h.nets|
  {
    Hypergraph(
      seq(|h.nodes|, p requires 0 <= p < |h.nodes| =>
        if p in h.nets[e].pins then h.nodes[p].(nets := h.nodes[p].nets + {e}) else h.nodes[p]),
      h.nets[e := h.nets[e].(enabled := true)])
  }

  // ----------------------------------------------------- parallel nets

  /** Merges net e into net r: r takes over e's weight, and e is removed. */
  function Merge(h: Hypergraph, r: nat, e: nat): (h': Hypergraph)
    requires r < |h.nets| && e < |h.nets|
    ensures |h'.nodes| == |h.nodes| && |h'.nets| == |h.nets|
  {
    RemoveEdge(WithNetWeight(h, r, h.nets[r].weight + h.nets[e].weight), e)
  }

  /** Two enabled nets with the same pins. */
  predicate Parallel(h: Hypergraph, r: nat, e: nat) {
    r != e && HasNet(h, r) && HasNet(h, e) && h.nets[r].pins == h.nets[e].pins
  }

  /** Restores net e and takes its weight off net r again. */
  function Unmerge(h: Hypergraph, r: nat, e: nat): (h': Hypergraph)
    requires r < |h.nets| && e < |h.nets|
    ensures |h'.nodes| == |h.nodes| && |h'.nets| == |h.nets|
  {
    var m := RestoreEdge(h, e);
    WithNetWeight(m, r, m.nets[r].weight - m.nets[e].weight)
  }

  // -------------------------------------------------------------- single steps

  lemma ContractKeepsValid(h: Hypergraph, u: nat, v: nat)
    requires Valid(h) && HasNode(h, u) && HasNode(h, v) && u != v
    ensures Valid(Contract(h, u, v))
  {
    var h' := Contract(h, u, v);
    forall e, p | 0 <= e < |h'.nets| && h'.nets[e].enabled && p in h'.nets[e].pins
      ensures HasNode(h', p) && e in h'.nodes[p].nets
    {
      if p != u {
        assert p in h.nets[e].pins;
      }
      if v in h.nets[e].pins {}
    }
  }

  /** After contracting v, the peek past the end of each of v's nets tells whether v was
      cut off there or replaced by u. */
  lemma PeekIsCorrect(h: Hypergraph, u: nat, v: nat, e: nat)
    requires Valid(h) && HasNode(h, u) && HasNode(h, v) && u != v && e in h.nodes[v].nets
    ensures e < |h.nets|
    ensures WasCutOff(Contract(h, u, v).nets[e], v) <==> u in h.nets[e].pins
  {
    var n := h.nets[e];
    assert n.cutOff != [] ==> n.cutOff[0] in n.cutOff;
  }

  lemma UncontractInverts(h: Hypergraph, u: nat, v: nat)
    requires Valid(h) && HasNode(h, u) && HasNode(h, v) && u != v
    ensures Uncontract(Contract(h, u, v), u, v) == h
  {
    var c := Contract(h, u, v);
    var r := Uncontract(c, u, v);
    forall e | 0 <= e < |h.nets| ensures r.nets[e] == h.nets[e] {
      if e in h.nodes[v].nets {
        PeekIsCorrect(h, u, v, e);
        assert v in h.nets[e].pins;
      }
    }
    assert r.nodes[u].nets == h.nodes[u].nets by {
      forall e | e in h.nodes[v].nets ensures e in Borrowed(c, u, v) <==> e !in h.nodes[u].nets {
        PeekIsCorrect(h, u, v, e);
      }
    }
    assert r.nodes == h.nodes;
  }

  lemma RemoveKeepsValid(h: Hypergraph, e: nat)
    requires Valid(h) && HasNet(h, e)
    ensures Valid(RemoveEdge(h, e))
  {
    var h' := RemoveEdge(h, e);
    forall d, p | 0 <= d < |h'.nets| && h'.nets[d].enabled && p in h'.nets[d].pins
      ensures HasNode(h', p) && d in h'.nodes[p].nets
    {
      assert p in h.nets[d].pins;
    }
    forall v, d | 0 <= v < |h'.nodes| && h'.nodes[v].enabled && d in h'.nodes[v].nets
      ensures HasNet(h', d) && v in h'.nets[d].pins
    {
      assert d in h.nodes[v].nets;
    }
    forall d, x | 0 <= d < |h'.nets| && x in h'.nets[d].cutOff
      ensures x < |h'.nodes| && !h'.nodes[x].enabled
    {
      assert x in h.nets[d].cutOff;
    }
  }

  lemma RestoreInverts(h: Hypergraph, e: nat)
    requires Valid(h) && HasNet(h, e)
    ensures RestoreEdge(RemoveEdge(h, e), e) == h
  {
    var r := RestoreEdge(RemoveEdge(h, e), e);
    forall p | 0 <= p < |h.nodes| ensures r.nodes[p] == h.nodes[p] {
      if p in h.nets[e].pins {
        assert r.nodes[p].nets == h.nodes[p].nets;
      }
    }
  }

  lemma ReweighingIsValid(h: Hypergraph, r: nat, weight: int)
    requires Valid(h) && r < |h.nets|
    ensures Valid(WithNetWeight(h, r, weight))
  {
    var w := WithNetWeight(h, r, weight);
    forall d, p | 0 <= d < |w.nets| && w.nets[d].enabled && p in w.nets[d].pins
      ensures HasNode(w, p) && d in w.nodes[p].nets
    {
      assert p in h.nets[d].pins;
    }
    forall v, d | 0 <= v < |w.nodes| && w.nodes[v].enabled && d in w.nodes[v].nets
      ensures HasNet(w, d) && v in w.nets[d].pins
    {
      assert d in h.nodes[v].nets;
    }
    forall d, x | 0 <= d < |w.nets| && x in w.nets[d].cutOff ensures x < |w.nodes| && !w.nodes[x].enabled {
      assert x in h.nets[d].cutOff;
    }
  }

  lemma MergeKeepsValid(h: Hypergraph, r: nat, e: nat)
    requires Valid(h) && Parallel(h, r, e)
    ensures Valid(Merge(h, r, e))
  {
    var weight := h.nets[r].weight + h.nets[e].weight;
    ReweighingIsValid(h, r, weight);
    RemoveKeepsValid(WithNetWeight(h, r, weight), e);
  }

  /** Restoring the merged net and taking its weight off its representative again undoes
      the merger. */
  lemma UnmergeInverts(h: Hypergraph, r: nat, e: nat)
    requires Valid(h) && Parallel(h, r, e)
    ensures Unmerge(Merge(h, r, e), r, e) == h
  {
    var m := RestoreEdge(Merge(h, r, e), e);
    forall p | 0 <= p < |h.nodes| ensures m.nodes[p] == h.nodes[p] {
      if p in h.nets[e].pins {
        assert m.nodes[p].nets == h.nodes[p].nets;
      }
    }
    assert m.nets[r].weight - m.nets[e].weight == h.nets[r].weight;
    assert WithNetWeight(m, r, h.nets[r].weight).nets == h.nets;
  }

  /** The state in the middle of an uncontraction: the nets in done have been dealt with,
      and only u's weight is still to be put right. */
  ghost function PartlyUncontracted(c: Hypergraph, u: nat, v: nat, done: set<nat>): (h: Hypergraph)
    requires u < |c.nodes| && v < |c.nodes| && u != v
    ensures |h.nodes| == |c.nodes| && |h.nets| == |c.nets|
  {
    var nu, nv := c.nodes[u], c.nodes[v];
    Hypergraph(
      c.nodes[u := nu.(nets := nu.nets - Borrowed(c, u, v) * done)][v := nv.(enabled := true)],
      seq(|c.nets|, e requires 0 <= e < |c.nets| =>
        if e in done && e in nv.nets then UncontractNet(c.nets[e], u, v) else c.nets[e]))
  }

  lemma UncontractionBegins(c: Hypergraph, u: nat, v: nat)
    requires u < |c.nodes| && v < |c.nodes| && u != v
    ensures PartlyUncontracted(c, u, v, {}) == c.(nodes := c.nodes[v := c.nodes[v].(enabled := true)])
  {
    var nu := c.nodes[u];
    assert nu.nets - Borrowed(c, u, v) * {} == nu.nets;
    assert PartlyUncontracted(c, u, v, {}).nets == c.nets;
  }

  lemma UncontractionProceeds(c: Hypergraph, u: nat, v: nat, done: set<nat>, e: nat)
    requires u < |c.nodes| && v < |c.nodes| && u != v && e < |c.nets| && e !in done
    requires e in c.nodes[u].nets
    ensures var p, p' := PartlyUncontracted(c, u, v, done), PartlyUncontracted(c, u, v, done + {e});
            && p.nets[e] == c.nets[e] && p.nodes[v].nets == c.nodes[v].nets && e in p.nodes[u].nets
            && p'.nets == (if e in c.nodes[v].nets then p.nets[e := UncontractNet(c.nets[e], u, v)] else p.nets)
            && p'.nodes == (if e in Borrowed(c, u, v) then p.nodes[u := p.nodes[u].(nets := p.nodes[u].nets - {e})]
                            else p.nodes)
  {
    var nets := c.nodes[u].nets;
    if e in Borrowed(c, u, v) {
      assert nets - Borrowed(c, u, v) * (done + {e}) == nets - Borrowed(c, u, v) * done - {e};
    } else {
      assert nets - Borrowed(c, u, v) * (done + {e}) == nets - Borrowed(c, u, v) * done;
    }
  }

  lemma UncontractionCompletes(c: Hypergraph, u: nat, v: nat)
    requires u < |c.nodes| && v < |c.nodes| && u != v
    ensures var p := PartlyUncontracted(c, u, v, c.nodes[u].nets);
            Uncontract(c, u, v) == WithNode(p, u, p.nodes[u].weight - p.nodes[v].weight, p.nodes[u].enabled)
  {
    var nu := c.nodes[u];
    assert nu.nets - Borrowed(c, u, v) * nu.nets == nu.nets - Borrowed(c, u, v);
  }

  /** What uncontraction finds at each net of the representative: u is a pin, v is not. */
  lemma NetToRestore(h: Hypergraph, u: nat, v: nat, e: nat)
    requires Valid(h) && HasNode(h, u) && HasNode(h, v) && u != v
    requires e in Contract(h, u, v).nodes[u].nets
    ensures var c := Contract(h, u, v);
            HasNet(c, e) && u in c.nets[e].pins && v !in c.nets[e].pins
  {
    if e in h.nodes[u].nets {
      assert HasNet(h, e) && u in h.nets[e].pins;
    }
    if e in h.nodes[v].nets {
      assert HasNet(h, e) && v in h.nets[e].pins;
    } else {
      assert e in h.nodes[u].nets && v !in h.nets[e].pins;
    }
  }

  // ----------------------------------------------------------------------- runs

  datatype Step = Contraction(u: nat, v: nat) | Removal(e: nat) | Merger(r: nat, e: nat)

  predicate Legal(h: Hypergraph, s: Step) {
    match s
    case Contraction(u, v) => HasNode(h, u) && HasNode(h, v) && u != v
    case Removal(e) => HasNet(h, e)
    case Merger(r, e) => Parallel(h, r, e)
  }

  function Do(h: Hypergraph, s: Step): Hypergraph
    requires Legal(h, s)
  {
    match s
    case Contraction(u, v) => Contract(h, u, v)
    case Removal(e) => RemoveEdge(h, e)
    case Merger(r, e) => Merge(h, r, e)
  }

  /** The step concerns nodes and nets that exist, enabled or not. */
  predicate InRange(h: Hypergraph, s: Step) {
    match s
    case Contraction(u, v) => u < |h.nodes| && v < |h.nodes| && u != v
    case Removal(e) => e < |h.nets|
    case Merger(r, e) => r < |h.nets| && e < |h.nets|
  }

  predicate SameSize(h: Hypergraph, h': Hypergraph) {
    |h'.nodes| == |h.nodes| && |h'.nets| == |h.nets|
  }

  ghost function Undo(h: Hypergraph, s: Step): (h': Hypergraph)
    requires InRange(h, s)
    ensures SameSize(h, h')
  {
    match s
    case Contraction(u, v) => Uncontract(h, u, v)
    case Removal(e) => RestoreEdge(h, e)
    case Merger(r, e) => Unmerge(h, r, e)
  }

  /** Every step is legal in the hypergraph that the steps before it lead to. */
  predicate LegalRun(h: Hypergraph, run: seq<Step>)
    decreases |run|
  {
    run != [] ==> Legal(h, run[0]) && LegalRun(Do(h, run[0]), run[1..])
  }

  function DoAll(h: Hypergraph, run: seq<Step>): Hypergraph
    requires LegalRun(h, run)
    decreases |run|
  {
    if run == [] then h else DoAll(Do(h, run[0]), run[1..])
  }

  ghost predicate AllInRange(h: Hypergraph, run: seq<Step>) {
    forall i | 0 <= i < |run| :: InRange(h, run[i])
  }

  /** Undoes the steps of a run, the last one first. */
  ghost function UndoAll(h: Hypergraph, run: seq<Step>): (h': Hypergraph)
    requires AllInRange(h, run)
    ensures SameSize(h, h')
    decreases |run|
  {
    if run == [] then h
    else UndoAll(Undo(h, run[|run| - 1]), run[..|run| - 1])
  }

  lemma StepKeepsValid(h: Hypergraph, s: Step)
    requires Valid(h) && Legal(h, s)
    ensures Valid(Do(h, s)) && SameSize(h, Do(h, s)) && InRange(h, s)
  {
    match s
    case Contraction(u, v) => ContractKeepsValid(h, u, v);
    case Removal(e) => RemoveKeepsValid(h, e);
    case Merger(r, e) => MergeKeepsValid(h, r, e);
  }

  lemma UndoInverts(h: Hypergraph, s: Step)
    requires Valid(h) && Legal(h, s)
    ensures InRange(Do(h, s), s) && Undo(Do(h, s), s) == h
  {
    match s
    case Contraction(u, v) => UncontractInverts(h, u, v);
    case Removal(e) => RestoreInverts(h, e);
    case Merger(r, e) => UnmergeInverts(h, r, e);
  }

  lemma {:induction false} RunKeepsValid(h: Hypergraph, run: seq<Step>)
    requires Valid(h) && LegalRun(h, run)
    ensures Valid(DoAll(h, run)) && SameSize(h, DoAll(h, run))
    ensures AllInRange(h, run)
    decreases |run|
  {
    if run != [] {
      StepKeepsValid(h, run[0]);
      RunKeepsValid(Do(h, run[0]), run[1..]);
      forall i | 0 <= i < |run| ensures InRange(h, run[i]) {
        if i > 0 {
          assert InRange(Do(h, run[0]), run[1..][i - 1]);
        }
      }
    }
  }

  /** A run that goes on for one more step. */
  lemma {:induction false} RunExtended(h: Hypergraph, run: seq<Step>, s: Step)
    ensures LegalRun(h, run + [s]) <==> LegalRun(h, run) && Legal(DoAll(h, run), s)
    ensures LegalRun(h, run + [s]) ==> DoAll(h, run + [s]) == Do(DoAll(h, run), s)
    decreases |run|
  {
    var longer := run + [s];
    if run == [] {
      assert longer == [s] && longer[1..] == [];
    } else if Legal(h, run[0]) {
      assert longer[1..] == run[1..] + [s];
      RunExtended(Do(h, run[0]), run[1..], s);
    }
  }

  /** Undoing a run from its front: the steps after the first, then the first. */
  lemma {:induction false} UndoAllFront(h: Hypergraph, run: seq<Step>)
    requires run != [] && AllInRange(h, run)
    ensures InRange(UndoAll(h, run[1..]), run[0])
    ensures UndoAll(h, run) == Undo(UndoAll(h, run[1..]), run[0])
    decreases |run|
  {
    var n := |run| - 1;
    if n > 0 {
      var rest := run[..n];
      assert run[1..][..n - 1] == rest[1..];
      UndoAllFront(Undo(h, run[n]), rest);
    }
  }

  /** n-level coarsening is undone exactly: the nodes, nets, pins, incident nets,
      weights and cut-off pins are those before the run. */
  lemma {:induction false} RoundTrip(h: Hypergraph, run: seq<Step>)
    requires Valid(h) && LegalRun(h, run)
    ensures AllInRange(DoAll(h, run), run)
    ensures UndoAll(DoAll(h, run), run) == h
    decreases |run|
  {
    RunKeepsValid(h, run);
    if run != [] {
      StepKeepsValid(h, run[0]);
      UndoInverts(h, run[0]);
      RoundTrip(Do(h, run[0]), run[1..]);
      UndoAllFront(DoAll(h, run), run);
    }
  }
}
