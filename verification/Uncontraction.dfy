/** Border counters and gain changes in the middle of an uncontraction: what has been
    added up once the nets in done have been dealt with. */
module Uncontraction {
  import opened Sums
  import opened NLevel
  import opened Partitions
  import opened Gains
  import opened Layout
  import opened PinCounts
  import opened Sizes

  predicate IsCut(n: Net, part: Partition) {
    Connectivity(n, part) > 1
  }

  /** The nets that connect several blocks. */
  ghost function CutSet(c: Hypergraph, part: Partition): set<nat> {
    set e: nat | e < |c.nets| && IsCut(c.nets[e], part)
  }

  /** The running totals: the border counters of u and v, and the changes of their gains. */
  datatype Totals = Totals(borderU: int, borderV: int, changeU: int, changeV: int)

  ghost function TotalsAt(c: Hypergraph, u: nat, v: nat, part: Partition, done: set<nat>): Totals
    requires u < |c.nodes| && v < |c.nodes| && u != v && u < |part| && v < |part|
  {
    var cuts := CutSet(c, part);
    Totals(|PartlyUncontracted(c, u, v, done).nodes[u].nets * cuts|,
           |done * c.nodes[v].nets * cuts|,
           Sum(ChangesOfU(c, done, part, u, v)),
           Sum(ChangesOfV(c, done, part, u, v)))
  }

  /** What one more net contributes. */
  function Contribution(c: Hypergraph, u: nat, v: nat, part: Partition, e: nat): Totals
    requires u < |c.nodes| && v < |c.nodes| && u < |part| && v < |part| && e < |c.nets|
  {
    var n, partner := c.nets[e], e in c.nodes[v].nets;
    Totals(if partner && !WasCutOff(n, v) && IsCut(n, part) then -1 else 0,
           if partner && IsCut(n, part) then 1 else 0,
           ChangeOfU(n, partner, part, u, v),
           ChangeOfV(n, partner, part, u, v))
  }

  function Plus(a: Totals, b: Totals): Totals {
    Totals(a.borderU + b.borderU, a.borderV + b.borderV, a.changeU + b.changeU, a.changeV + b.changeV)
  }

  lemma SumsGrow(c: Hypergraph, u: nat, v: nat, part: Partition, done: set<nat>, e: nat)
    requires u < |part| && v < |part| && v < |c.nodes| && e < |c.nets| && e !in done
    ensures Sum(ChangesOfU(c, done + {e}, part, u, v)) ==
            Sum(ChangesOfU(c, done, part, u, v)) + ChangeOfU(c.nets[e], e in c.nodes[v].nets, part, u, v)
    ensures Sum(ChangesOfV(c, done + {e}, part, u, v)) ==
            Sum(ChangesOfV(c, done, part, u, v)) + ChangeOfV(c.nets[e], e in c.nodes[v].nets, part, u, v)
  {
    var partner := e in c.nodes[v].nets;
    var us, vs := ChangesOfU(c, done, part, u, v), ChangesOfV(c, done, part, u, v);
    SumUpdate(us, e, ChangeOfU(c.nets[e], partner, part, u, v));
    SumUpdate(vs, e, ChangeOfV(c.nets[e], partner, part, u, v));
    assert ChangesOfU(c, done + {e}, part, u, v) == us[e := ChangeOfU(c.nets[e], partner, part, u, v)];
    assert ChangesOfV(c, done + {e}, part, u, v) == vs[e := ChangeOfV(c.nets[e], partner, part, u, v)];
  }

  lemma BorderOfUGrows(c: Hypergraph, u: nat, v: nat, part: Partition, done: set<nat>, e: nat)
    requires u < |c.nodes| && v < |c.nodes| && u != v && u < |part| && v < |part|
    requires e < |c.nets| && e !in done && e in c.nodes[u].nets
    ensures TotalsAt(c, u, v, part, done + {e}).borderU
         == TotalsAt(c, u, v, part, done).borderU + Contribution(c, u, v, part, e).borderU
  {
    var cuts := CutSet(c, part);
    UncontractionProceeds(c, u, v, done, e);
    var before, after :=
      PartlyUncontracted(c, u, v, done).nodes[u].nets, PartlyUncontracted(c, u, v, done + {e}).nodes[u].nets;
    if e in Borrowed(c, u, v) && e in cuts {
      assert after * cuts == before * cuts - {e};
    } else {
      assert after * cuts == before * cuts;
    }
  }

  lemma BorderOfVGrows(c: Hypergraph, u: nat, v: nat, part: Partition, done: set<nat>, e: nat)
    requires u < |c.nodes| && v < |c.nodes| && u != v && u < |part| && v < |part|
    requires e < |c.nets| && e !in done
    ensures TotalsAt(c, u, v, part, done + {e}).borderV
         == TotalsAt(c, u, v, part, done).borderV + Contribution(c, u, v, part, e).borderV
  {
    var cuts, nv := CutSet(c, part), c.nodes[v].nets;
    if e in nv && e in cuts {
      assert (done + {e}) * nv * cuts == done * nv * cuts + {e};
    } else {
      assert (done + {e}) * nv * cuts == done * nv * cuts;
    }
  }

  lemma TotalsGrow(c: Hypergraph, u: nat, v: nat, part: Partition, done: set<nat>, e: nat)
    requires u < |c.nodes| && v < |c.nodes| && u != v && u < |part| && v < |part|
    requires e < |c.nets| && e !in done && e in c.nodes[u].nets
    ensures TotalsAt(c, u, v, part, done + {e}) == Plus(TotalsAt(c, u, v, part, done), Contribution(c, u, v, part, e))
  {
    BorderOfUGrows(c, u, v, part, done, e);
    BorderOfVGrows(c, u, v, part, done, e);
    SumsGrow(c, u, v, part, done, e);
  }

  /** In the beginning u's border counter is right, v's is zero, and nothing has changed. */
  lemma TotalsBegin(c: Hypergraph, u: nat, v: nat, part: Partition)
    requires u < |c.nodes| && v < |c.nodes| && u != v && u < |part| && v < |part|
    requires forall e | e in c.nodes[u].nets :: e < |c.nets|
    ensures TotalsAt(c, u, v, part, {}) == Totals(BorderCount(c, part, u), 0, 0, 0)
  {
    UncontractionBegins(c, u, v);
    assert c.nodes[u].nets * CutSet(c, part) == CutNets(c, part, u);
    assert {} * c.nodes[v].nets * CutSet(c, part) == {};
    SumConstant(ChangesOfU(c, {}, part, u, v), 0);
    SumConstant(ChangesOfV(c, {}, part, u, v), 0);
  }

  /** The cut nets at a node are the same before contraction and after, for the nets the
      node has in both. */
  lemma CutNetsProjected(h: Hypergraph, u: nat, v: nat, part: Partition, x: nat)
    requires Valid(h) && HasNode(h, u) && HasNode(h, v) && u != v && |part| == |h.nodes| && part[u] == part[v]
    requires HasNode(h, x)
    ensures CutNets(h, part, x) == h.nodes[x].nets * CutSet(Contract(h, u, v), part)
  {
    var c := Contract(h, u, v);
    assert part[v := part[u]] == part;
    forall e | e in h.nodes[x].nets ensures e in CutSet(c, part) <==> e in CutNets(h, part, x) {
      assert HasNet(h, e);
      ConnectivityProjected(h, u, v, part, e);
    }
  }

  /** In the end both border counters are those of the definition. */
  lemma TotalsEnd(h: Hypergraph, u: nat, v: nat, part: Partition)
    requires Valid(h) && HasNode(h, u) && HasNode(h, v) && u != v && |part| == |h.nodes| && part[u] == part[v]
    ensures var c := Contract(h, u, v);
            var t := TotalsAt(c, u, v, part, c.nodes[u].nets);
            t.borderU == BorderCount(h, part, u) && t.borderV == BorderCount(h, part, v)
  {
    var c := Contract(h, u, v);
    UncontractInverts(h, u, v);
    UncontractionCompletes(c, u, v);
    CutNetsProjected(h, u, v, part, u);
    CutNetsProjected(h, u, v, part, v);
    assert c.nodes[u].nets * c.nodes[v].nets == h.nodes[v].nets;
  }

  /** The border counters of all other nodes stay right as they are. */
  lemma OtherBorders(h: Hypergraph, u: nat, v: nat, part: Partition, x: nat)
    requires Valid(h) && HasNode(h, u) && HasNode(h, v) && u != v && |part| == |h.nodes| && part[u] == part[v]
    requires HasNode(h, x) && x != u && x != v
    ensures BorderCount(h, part, x) == BorderCount(Contract(h, u, v), part, x)
  {
    CutNetsProjected(h, u, v, part, x);
    var c := Contract(h, u, v);
    assert CutNets(c, part, x) == h.nodes[x].nets * CutSet(c, part);
  }

  /** Is net e of u to be given back to v? */
  predicate GivenBack(abs: Hypergraph, v: nat, e: nat) {
    e < |abs.nets| && v < |abs.nodes| && e in abs.nodes[v].nets && !WasCutOff(abs.nets[e], v)
  }

  /** What dealing with net e does to the hypergraph. */
  function AfterNet(abs: Hypergraph, u: nat, v: nat, e: nat): Hypergraph
    requires u < |abs.nodes| && v < |abs.nodes| && e < |abs.nets|
  {
    Hypergraph(
      if GivenBack(abs, v, e) then abs.nodes[u := abs.nodes[u].(nets := abs.nodes[u].nets - {e})] else abs.nodes,
      if e in abs.nodes[v].nets then abs.nets[e := UncontractNet(abs.nets[e], u, v)] else abs.nets)
  }

  function PinsGained(abs: Hypergraph, v: nat, e: nat): int
    requires v < |abs.nodes| && e < |abs.nets|
  {
    if e in abs.nodes[v].nets && WasCutOff(abs.nets[e], v) then 1 else 0
  }

  /** How far an uncontraction has got: the current hypergraph and the running totals. */
  datatype Progress = Progress(abs: Hypergraph, totals: Totals, numPins: int)

  function Start(c: Hypergraph, u: nat, v: nat, part: Partition): Progress
    requires u < |c.nodes| && v < |c.nodes|
  {
    Progress(c.(nodes := c.nodes[v := c.nodes[v].(enabled := true)]), Totals(BorderCount(c, part, u), 0, 0, 0),
             NumPins(c.nets))
  }

  function After(p: Progress, u: nat, v: nat, part: Partition, e: nat): Progress
    requires u < |p.abs.nodes| && v < |p.abs.nodes| && u < |part| && v < |part| && e < |p.abs.nets|
  {
    Progress(AfterNet(p.abs, u, v, e), Plus(p.totals, Contribution(p.abs, u, v, part, e)),
             p.numPins + PinsGained(p.abs, v, e))
  }

  /** The progress after dealing with the nets of a trace, one after the other. */
  function Along(c: Hypergraph, u: nat, v: nat, part: Partition, trace: seq<nat>): (p: Progress)
    requires u < |c.nodes| && v < |c.nodes| && u < |part| && v < |part|
    requires forall i | 0 <= i < |trace| :: trace[i] < |c.nets|
    ensures SameSize(c, p.abs)
  {
    if trace == [] then Start(c, u, v, part)
    else After(Along(c, u, v, part, trace[..|trace| - 1]), u, v, part, trace[|trace| - 1])
  }

  lemma AfterNetIsPartial(c: Hypergraph, u: nat, v: nat, done: set<nat>, e: nat)
    requires u < |c.nodes| && v < |c.nodes| && u != v && e < |c.nets|
    requires e !in done && e in c.nodes[u].nets
    ensures AfterNet(PartlyUncontracted(c, u, v, done), u, v, e) == PartlyUncontracted(c, u, v, done + {e})
    ensures PartlyUncontracted(c, u, v, done).nets[e] == c.nets[e]
    ensures PartlyUncontracted(c, u, v, done).nodes[v].nets == c.nodes[v].nets
  {
    UncontractionProceeds(c, u, v, done, e);
  }

  lemma PinsRound(abs: Hypergraph, u: nat, v: nat, e: nat)
    requires u < |abs.nodes| && v < |abs.nodes| && u != v && HasNet(abs, e)
    requires u in abs.nets[e].pins && v !in abs.nets[e].pins
    ensures NumPins(AfterNet(abs, u, v, e).nets) == NumPins(abs.nets) + PinsGained(abs, v, e)
  {
    var n := abs.nets[e];
    NetChanged(abs.nets, e, UncontractNet(n, u, v));
    assert |n.pins + {v}| == |n.pins| + 1;
    assert |n.pins - {u} + {v}| == |n.pins|;
  }

  /** The same progress with the border counters of u and v reckoned from other starting points. */
  function Offset(p: Progress, du: int, dv: int): Progress {
    p.(totals := Totals(p.totals.borderU - du, p.totals.borderV - dv, p.totals.changeU, p.totals.changeV))
  }

  lemma AfterOffset(p: Progress, u: nat, v: nat, part: Partition, e: nat, du: int, dv: int)
    requires u < |p.abs.nodes| && v < |p.abs.nodes| && u < |part| && v < |part| && e < |p.abs.nets|
    ensures After(Offset(p, du, dv), u, v, part, e) == Offset(After(p, u, v, part, e), du, dv)
  {}

  /** The trace lists nets of the representative, each once. */
  ghost predicate IsTrace(h: Hypergraph, u: nat, v: nat, part: Partition, trace: seq<nat>) {
    && Valid(h) && HasNode(h, u) && HasNode(h, v) && u != v
    && |part| == |h.nodes| && part[u] == part[v]
    && NoDuplicates(trace)
    && (forall e | e in trace :: e in Contract(h, u, v).nodes[u].nets)
  }

  lemma TraceInRange(h: Hypergraph, u: nat, v: nat, part: Partition, trace: seq<nat>)
    requires IsTrace(h, u, v, part, trace)
    ensures forall i | 0 <= i < |trace| :: trace[i] < |h.nets|
  {
    forall i | 0 <= i < |trace| ensures trace[i] < |h.nets| {
      assert trace[i] in trace;
      NetToRestore(h, u, v, trace[i]);
    }
  }

  /** Step by step or all at once, the result is the same. */
  lemma {:induction false} AlongIsPartial(h: Hypergraph, u: nat, v: nat, part: Partition, trace: seq<nat>)
    requires IsTrace(h, u, v, part, trace)
    ensures forall i | 0 <= i < |trace| :: trace[i] < |h.nets|
    ensures var c, done := Contract(h, u, v), Elements(trace);
            Along(c, u, v, part, trace) ==
            Progress(PartlyUncontracted(c, u, v, done), TotalsAt(c, u, v, part, done),
                     NumPins(PartlyUncontracted(c, u, v, done).nets))
    decreases |trace|
  {
    TraceInRange(h, u, v, part, trace);
    var c := Contract(h, u, v);
    if trace == [] {
      assert Elements(trace) == {};
      UncontractionBegins(c, u, v);
      assert forall e | e in c.nodes[u].nets :: e < |c.nets| by {
        forall e | e in c.nodes[u].nets ensures e < |c.nets| {
          NetToRestore(h, u, v, e);
        }
      }
      TotalsBegin(c, u, v, part);
    } else {
      var rest, e := trace[..|trace| - 1], trace[|trace| - 1];
      AlongIsPartial(h, u, v, part, rest);
      DropLast(trace);
      assert e in trace && Elements(trace) == Elements(rest) + {e};
      OneMoreNet(h, u, v, part, Elements(rest), e);
    }
  }

  lemma OneMoreNet(h: Hypergraph, u: nat, v: nat, part: Partition, done: set<nat>, e: nat)
    requires Valid(h) && HasNode(h, u) && HasNode(h, v) && u != v && |part| == |h.nodes|
    requires e in Contract(h, u, v).nodes[u].nets && e !in done
    ensures e < |h.nets|
    ensures var c := Contract(h, u, v);
            var abs, abs' := PartlyUncontracted(c, u, v, done), PartlyUncontracted(c, u, v, done + {e});
            After(Progress(abs, TotalsAt(c, u, v, part, done), NumPins(abs.nets)), u, v, part, e)
            == Progress(abs', TotalsAt(c, u, v, part, done + {e}), NumPins(abs'.nets))
  {
    var c := Contract(h, u, v);
    NetToRestore(h, u, v, e);
    AfterNetIsPartial(c, u, v, done, e);
    TotalsGrow(c, u, v, part, done, e);
    PinsRound(PartlyUncontracted(c, u, v, done), u, v, e);
  }

  /** The state of an uncontraction when the nets of the trace have been dealt with and
      those from position it of u's list on have not; h is the hypergraph before the
      contraction. */
  ghost predicate Midway(h: Hypergraph, u: nat, v: nat, part: Partition, list: seq<nat>, it: nat, trace: seq<nat>,
                         p: Progress)
  {
    && IsTrace(h, u, v, part, trace)
    && (forall i | 0 <= i < |trace| :: trace[i] < |h.nets|)
    && p == Along(Contract(h, u, v), u, v, part, trace)
    && NoDuplicates(list) && Elements(list) == p.abs.nodes[u].nets
    && it <= |list|
    && Elements(trace) == Contract(h, u, v).nodes[u].nets - Elements(list[it..])
  }

  /** Every enabled node has one of the k blocks. */
  ghost predicate FullyAssigned(h: Hypergraph, part: Partition, k: nat) {
    |part| == |h.nodes| && forall p {:trigger part[p]} | 0 <= p < |h.nodes| && h.nodes[p].enabled :: 0 <= part[p] < k
  }

  lemma NetAssigned(h: Hypergraph, part: Partition, k: nat, e: nat)
    requires Valid(h) && FullyAssigned(h, part, k) && HasNet(h, e)
    ensures Assigned(h.nets[e].pins, part, k)
  {
    forall p | p in h.nets[e].pins ensures 0 <= BlockOf(part, p) < k {
      assert HasNode(h, p);
      assert 0 <= part[p] < k;
    }
  }

  lemma PinsAssigned(h: Hypergraph, u: nat, v: nat, part: Partition, k: nat, e: nat)
    requires Valid(h) && HasNode(h, u) && HasNode(h, v) && u != v && FullyAssigned(h, part, k)
    requires HasNet(Contract(h, u, v), e)
    ensures Assigned(Contract(h, u, v).nets[e].pins, part, k)
  {
    ContractKeepsValid(h, u, v);
    forall p | p in Contract(h, u, v).nets[e].pins ensures 0 <= BlockOf(part, p) < k {
      assert HasNode(Contract(h, u, v), p);
      assert 0 <= part[p] < k;
    }
  }

  /** The net that is next on u's list has u as a pin, but not v, and is as it was. */
  lemma NextNet(h: Hypergraph, u: nat, v: nat, part: Partition, k: nat, list: seq<nat>, it: nat, trace: seq<nat>,
                p: Progress)
    requires Midway(h, u, v, part, list, it, trace, p) && it < |list| && FullyAssigned(h, part, k)
    ensures var e := list[it];
            && HasNet(p.abs, e) && e in Contract(h, u, v).nodes[u].nets && e !in Elements(trace)
            && p.abs.nodes[v].nets == h.nodes[v].nets
            && u in p.abs.nets[e].pins && v !in p.abs.nets[e].pins && Assigned(p.abs.nets[e].pins, part, k)
  {
    AlongIsPartial(h, u, v, part, trace);
    RestAfter(list, it);
    assert list[it] in Elements(list);
    NetToRestore(h, u, v, list[it]);
    AfterNetIsPartial(Contract(h, u, v), u, v, Elements(trace), list[it]);
    PinsAssigned(h, u, v, part, k, list[it]);
  }

  lemma ListRound(h: Hypergraph, u: nat, v: nat, part: Partition, list: seq<nat>, it: nat, trace: seq<nat>, p: Progress)
    requires Midway(h, u, v, part, list, it, trace, p) && it < |list|
    requires list[it] in Contract(h, u, v).nodes[u].nets && list[it] !in Elements(trace)
    ensures var e, nets := list[it], Contract(h, u, v).nodes[u].nets;
            && NoDuplicates(SwapRemove(list, it)) && |SwapRemove(list, it)| == |list| - 1
            && Elements(SwapRemove(list, it)) == p.abs.nodes[u].nets - {e}
            && Elements(trace + [e]) == nets - Elements(list[it + 1..])
            && Elements(trace + [e]) == nets - Elements(SwapRemove(list, it)[it..])
            && NoDuplicates(trace + [e])
  {
    SwapRemoved(list, it);
    RestAfter(list, it);
    Appended(trace, list[it]);
  }

  /** Dealing with one net leads from one state in the middle to the next. */
  lemma Round(h: Hypergraph, u: nat, v: nat, part: Partition, k: nat, list: seq<nat>, it: nat, trace: seq<nat>,
              p: Progress)
    requires Midway(h, u, v, part, list, it, trace, p) && it < |list| && FullyAssigned(h, part, k)
    ensures var e := list[it];
            && HasNet(p.abs, e) && p.abs.nodes[v].nets == h.nodes[v].nets
            && u in p.abs.nets[e].pins && v !in p.abs.nets[e].pins && Assigned(p.abs.nets[e].pins, part, k)
            && Midway(h, u, v, part,
                      if GivenBack(p.abs, v, e) then SwapRemove(list, it) else list,
                      if GivenBack(p.abs, v, e) then it else it + 1,
                      trace + [e], After(p, u, v, part, e))
  {
    var e := list[it];
    NextNet(h, u, v, part, k, list, it, trace, p);
    ListRound(h, u, v, part, list, it, trace, p);
    var trace' := trace + [e];
    assert trace'[..|trace' | - 1] == trace;
    assert forall d | d in trace' :: d in trace || d == e;
  }

  /** The same where the border counters are reckoned from other starting points. */
  lemma RoundOffset(h: Hypergraph, u: nat, v: nat, part: Partition, k: nat, list: seq<nat>, it: nat, trace: seq<nat>,
                    p: Progress, du: int, dv: int)
    requires Midway(h, u, v, part, list, it, trace, Offset(p, du, dv)) && it < |list| && FullyAssigned(h, part, k)
    ensures var e := list[it];
            && HasNet(p.abs, e) && p.abs.nodes[v].nets == h.nodes[v].nets
            && u in p.abs.nets[e].pins && v !in p.abs.nets[e].pins && Assigned(p.abs.nets[e].pins, part, k)
            && Midway(h, u, v, part,
                      if GivenBack(p.abs, v, e) then SwapRemove(list, it) else list,
                      if GivenBack(p.abs, v, e) then it else it + 1,
                      trace + [e], Offset(After(p, u, v, part, e), du, dv))
  {
    Round(h, u, v, part, k, list, it, trace, Offset(p, du, dv));
    AfterOffset(p, u, v, part, list[it], du, dv);
  }

  /** The state just after v has been enabled in u's block. */
  lemma MidwayBegins(h: Hypergraph, u: nat, v: nat, part: Partition, list: seq<nat>)
    requires Valid(h) && HasNode(h, u) && HasNode(h, v) && u != v
    requires |part| == |h.nodes| && part[u] == part[v]
    requires NoDuplicates(list) && Elements(list) == Contract(h, u, v).nodes[u].nets
    ensures Midway(h, u, v, part, list, 0, [], Start(Contract(h, u, v), u, v, part))
  {
    assert list[0..] == list;
  }

  lemma UncontractedIsOriginal(h: Hypergraph, u: nat, v: nat)
    requires Valid(h) && HasNode(h, u) && HasNode(h, v) && u != v
    ensures var abs := PartlyUncontracted(Contract(h, u, v), u, v, Contract(h, u, v).nodes[u].nets);
            && |abs.nodes| == |h.nodes|
            && h == WithNode(abs, u, abs.nodes[u].weight - abs.nodes[v].weight, true)
  {
    UncontractInverts(h, u, v);
    UncontractionCompletes(Contract(h, u, v), u, v);
  }

  lemma MidwayIsOver(h: Hypergraph, u: nat, v: nat, part: Partition, list: seq<nat>, trace: seq<nat>, p: Progress)
    requires Midway(h, u, v, part, list, |list|, trace, p)
    ensures var c := Contract(h, u, v);
            var done := c.nodes[u].nets;
            p == Progress(PartlyUncontracted(c, u, v, done), TotalsAt(c, u, v, part, done),
                          NumPins(PartlyUncontracted(c, u, v, done).nets))
  {
    assert Elements(list[|list|..]) == {};
    AlongIsPartial(h, u, v, part, trace);
  }

  lemma MidwayIsOverAbs(h: Hypergraph, u: nat, v: nat, part: Partition, list: seq<nat>, trace: seq<nat>, p: Progress)
    requires Midway(h, u, v, part, list, |list|, trace, p)
    ensures p.abs == PartlyUncontracted(Contract(h, u, v), u, v, Contract(h, u, v).nodes[u].nets)
    ensures p.numPins == NumPins(p.abs.nets)
  {
    MidwayIsOver(h, u, v, part, list, trace, p);
  }

  /** Once the whole list has been dealt with only u's weight is left to put right. */
  lemma MidwayEndsAbs(h: Hypergraph, u: nat, v: nat, part: Partition, list: seq<nat>, trace: seq<nat>, p: Progress)
    requires Midway(h, u, v, part, list, |list|, trace, p)
    ensures |p.abs.nodes| == |h.nodes|
    ensures h == WithNode(p.abs, u, p.abs.nodes[u].weight - p.abs.nodes[v].weight, true)
  {
    MidwayIsOverAbs(h, u, v, part, list, trace, p);
    UncontractedIsOriginal(h, u, v);
  }

  lemma MidwayEndsPins(h: Hypergraph, u: nat, v: nat, part: Partition, list: seq<nat>, trace: seq<nat>, p: Progress)
    requires Midway(h, u, v, part, list, |list|, trace, p)
    ensures p.numPins == NumPins(h.nets)
  {
    MidwayIsOverAbs(h, u, v, part, list, trace, p);
    UncontractedIsOriginal(h, u, v);
  }

  /** Then the gain changes are complete, ... */
  lemma ChangesEnd(h: Hypergraph, u: nat, v: nat, part: Partition, list: seq<nat>, trace: seq<nat>, p: Progress)
    requires Midway(h, u, v, part, list, |list|, trace, p)
    ensures var c := Contract(h, u, v);
            && p.totals.changeU == Sum(ChangesOfU(c, c.nodes[u].nets, part, u, v))
            && p.totals.changeV == Sum(ChangesOfV(c, c.nodes[u].nets, part, u, v))
  {
    MidwayIsOver(h, u, v, part, list, trace, p);
  }

  /** ... and so are the border counters of u and v. */
  lemma BordersEnd(h: Hypergraph, u: nat, v: nat, part: Partition, list: seq<nat>, trace: seq<nat>, p: Progress)
    requires Midway(h, u, v, part, list, |list|, trace, p)
    ensures p.totals.borderU == BorderCount(h, part, u) && p.totals.borderV == BorderCount(h, part, v)
  {
    MidwayIsOver(h, u, v, part, list, trace, p);
    TotalsEnd(h, u, v, part);
  }

  lemma UncontractedSizes(h: Hypergraph, u: nat, v: nat)
    requires HasNode(h, u) && HasNode(h, v) && u != v
    ensures var c := Contract(h, u, v);
            && NumNodes(h.nodes) == NumNodes(c.nodes) + 1
            && NumNets(h.nets) == NumNets(c.nets)
  {
    ContractedSizes(h, u, v);
  }

  /** The two sequences differ at most at u and v. */
  ghost predicate SameElsewhere(a: seq<int>, b: seq<int>, u: nat, v: nat) {
    |a| == |b| && forall x {:trigger b[x]} | 0 <= x < |b| && x != u && x != v :: a[x] == b[x]
  }

  /** Counters, less what they are off by. */
  function Less(a: seq<int>, off: seq<int>): (c: seq<int>)
    requires |a| == |off|
    ensures |c| == |a| && forall x {:trigger c[x]} | 0 <= x < |c| :: c[x] == a[x] - off[x]
  {
    seq(|a|, x requires 0 <= x < |a| => a[x] - off[x])
  }

  /** What the border counter of x should be. */
  function BorderOf(h: Hypergraph, part: Partition, x: nat): int
    requires x < |h.nodes|
  {
    if h.nodes[x].enabled then BorderCount(h, part, x) else 0
  }

  /** Border counters: exact at enabled nodes, zero at disabled ones. */
  ghost predicate BordersMatch(h: Hypergraph, part: Partition, borders: seq<int>) {
    && |borders| == |h.nodes|
    && forall x {:trigger BorderOf(h, part, x)} | 0 <= x < |h.nodes| :: borders[x] == BorderOf(h, part, x)
  }

  /** Border counters that are off by known amounts: what is left without those is exact. */
  ghost predicate BordersOff(h: Hypergraph, part: Partition, borders: seq<int>, off: seq<int>) {
    |off| == |borders| && BordersMatch(h, part, Less(borders, off))
  }

  /** What the border counters are off by. */
  ghost function BorderErrors(h: Hypergraph, part: Partition, borders: seq<int>): (off: seq<int>)
    requires |borders| == |h.nodes|
    ensures |off| == |borders|
  {
    seq(|borders|, x requires 0 <= x < |borders| => borders[x] - BorderOf(h, part, x))
  }

  lemma NoErrors(h: Hypergraph, part: Partition, borders: seq<int>)
    requires |borders| == |h.nodes| && BordersMatch(h, part, borders)
    ensures forall x {:trigger BorderErrors(h, part, borders)[x]} | 0 <= x < |borders| ::
              BorderErrors(h, part, borders)[x] == 0
  {
    forall x | 0 <= x < |borders| ensures BorderErrors(h, part, borders)[x] == 0 {
      assert borders[x] == BorderOf(h, part, x);
    }
  }

  lemma OffByErrors(h: Hypergraph, part: Partition, borders: seq<int>, off: seq<int>)
    requires |off| == |borders| == |h.nodes|
    ensures BordersOff(h, part, borders, off) <==> off == BorderErrors(h, part, borders)
  {
    var less, errors := Less(borders, off), BorderErrors(h, part, borders);
    if BordersOff(h, part, borders, off) {
      forall x | 0 <= x < |off| ensures off[x] == errors[x] {
        assert less[x] == BorderOf(h, part, x);
      }
    }
  }

  /** With the counters of u and v right, all are. */
  lemma BordersProjected(h: Hypergraph, u: nat, v: nat, part: Partition, before: seq<int>, after: seq<int>)
    requires Valid(h) && HasNode(h, u) && HasNode(h, v) && u != v
    requires |part| == |h.nodes| && part[u] == part[v]
    requires BordersMatch(Contract(h, u, v), part, before)
    requires SameElsewhere(before, after, u, v)
    requires after[u] == BorderCount(h, part, u) && after[v] == BorderCount(h, part, v)
    ensures BordersMatch(h, part, after)
  {
    forall x | 0 <= x < |h.nodes|
      ensures after[x] == BorderOf(h, part, x)
    {
      if x != u && x != v {
        assert before[x] == BorderOf(Contract(h, u, v), part, x);
        if h.nodes[x].enabled {
          OtherBorders(h, u, v, part, x);
        }
      }
    }
  }

  /** Assigning a block to a disabled node changes nothing about enabled ones. */
  lemma DisabledAssigned(c: Hypergraph, part: Partition, v: nat, b: int, borders: seq<int>)
    requires Valid(c) && |part| == |c.nodes| && v < |c.nodes| && !c.nodes[v].enabled
    requires BordersMatch(c, part, borders)
    ensures BordersMatch(c, part[v := b], borders)
  {
    forall x | 0 <= x < |c.nodes|
      ensures borders[x] == BorderOf(c, part[v := b], x)
    {
      assert borders[x] == BorderOf(c, part, x);
      forall e | c.nodes[x].enabled && e in c.nodes[x].nets
        ensures e in CutNets(c, part[v := b], x) <==> e in CutNets(c, part, x)
      {
        assert HasNet(c, e);
        DisabledIsNoPin(c, v, e);
        BlocksIgnoreOthers(c.nets[e].pins, part, v, b);
      }
      assert c.nodes[x].enabled ==> CutNets(c, part[v := b], x) == CutNets(c, part, x);
    }
  }

  /** The same for counters that are off, and what the counters of u and v start from. */
  lemma StartOffset(c: Hypergraph, part: Partition, u: nat, v: nat, borders: seq<int>, off: seq<int>)
    requires Valid(c) && |part| == |c.nodes| && HasNode(c, u) && v < |c.nodes| && !c.nodes[v].enabled
    requires BordersOff(c, part, borders, off)
    ensures BordersOff(c, part[v := part[u]], borders, off)
    ensures borders[u] - off[u] == BorderCount(c, part[v := part[u]], u) && borders[v] - off[v] == 0
  {
    var part' := part[v := part[u]];
    DisabledAssigned(c, part, v, part[u], Less(borders, off));
    assert Less(borders, off)[u] == BorderOf(c, part', u) && Less(borders, off)[v] == BorderOf(c, part', v);
  }

  lemma BlocksOfUncontracted(h: Hypergraph, u: nat, v: nat, part: Partition, k: nat)
    requires HasNode(h, u) && HasNode(h, v) && u != v && FullyAssigned(Contract(h, u, v), part, k)
    ensures FullyAssigned(h, part[v := part[u]], k)
  {
    var c := Contract(h, u, v);
    assert c.nodes[u].enabled && 0 <= part[u] < k;
    forall p | 0 <= p < |h.nodes| && h.nodes[p].enabled ensures 0 <= part[v := part[u]][p] < k {
      assert p != v ==> c.nodes[p].enabled;
    }
  }
}
