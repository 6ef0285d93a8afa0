/** Gains of two-way FM local search: the from-scratch definition as a difference of
    cuts, its net-by-net characterisation, and the changes that uncontraction reports. */
module Gains {
  import opened Sums
  import opened NLevel
  import opened Partitions

  ghost predicate TwoWay(part: Partition, pins: set<nat>) {
    forall p | p in pins :: BlockOf(part, p) == 0 || BlockOf(part, p) == 1
  }

  function Flip(part: Partition, x: nat): (part': Partition)
    requires x < |part|
    ensures |part'| == |part|
  {
    part[x := 1 - part[x]]
  }

  /** By how much the cut shrinks when x changes sides. */
  function Gain(h: Hypergraph, part: Partition, x: nat): int
    requires x < |part|
  {
    Cut(h, part) - Cut(h, Flip(part, x))
  }

  function GainOfNet(n: Net, part: Partition, x: nat): int
    requires x < |part|
  {
    CutOfNet(n, part) - CutOfNet(n, Flip(part, x))
  }

  function NetGains(h: Hypergraph, part: Partition, x: nat): seq<int>
    requires x < |part|
  {
    seq(|h.nets|, e requires 0 <= e < |h.nets| => GainOfNet(h.nets[e], part, x))
  }

  lemma GainIsSum(h: Hypergraph, part: Partition, x: nat)
    requires x < |part|
    ensures Gain(h, part, x) == Sum(NetGains(h, part, x))
  {
    var part' := Flip(part, x);
    SumAdd(NetGains(h, part, x),
           seq(|h.nets|, e requires 0 <= e < |h.nets| => CutOfNet(h.nets[e], part')),
           seq(|h.nets|, e requires 0 <= e < |h.nets| => CutOfNet(h.nets[e], part)));
  }

  lemma NoGainElsewhere(n: Net, part: Partition, x: nat)
    requires x < |part| && x !in n.pins
    ensures GainOfNet(n, part, x) == 0
  {
    BlocksIgnoreOthers(n.pins, part, x, 1 - part[x]);
  }

  /** A net of a two-way partition is cut when it has pins on both sides. */
  lemma CutHasBothSides(pins: set<nat>, part: Partition, b: int)
    requires TwoWay(part, pins) && (b == 0 || b == 1)
    ensures |Blocks(pins, part)| > 1 <==> PinCount(pins, part, b) > 0 && PinCount(pins, part, 1 - b) > 0
  {
    var blocks := Blocks(pins, part);
    assert forall c :: c in blocks <==> exists p :: p in pins && BlockOf(part, p) == c;
    assert forall c | c == 0 || c == 1 :: c in blocks <==> PinCount(pins, part, c) > 0 by {
      forall c | c == 0 || c == 1 ensures c in blocks <==> PinCount(pins, part, c) > 0 {
        if p :| p in pins && BlockOf(part, p) == c {
          assert p in PinsIn(pins, part, c);
        } else {
          assert PinsIn(pins, part, c) == {};
        }
      }
    }
    if b in blocks && 1 - b in blocks {
      assert blocks == {b, 1 - b};
    } else if b in blocks {
      assert blocks == {b};
    } else if 1 - b in blocks {
      assert blocks == {1 - b};
    } else {
      assert blocks == {};
    }
  }

  lemma FlippedCounts(pins: set<nat>, part: Partition, x: nat)
    requires x in pins && x < |part|
    requires TwoWay(part, pins)
    ensures TwoWay(Flip(part, x), pins)
    ensures PinCount(pins, Flip(part, x), part[x]) == PinCount(pins, part, part[x]) - 1
    ensures PinCount(pins, Flip(part, x), 1 - part[x]) == PinCount(pins, part, 1 - part[x]) + 1
  {
    var part', b := Flip(part, x), part[x];
    assert forall p | p in pins && p != x :: BlockOf(part', p) == BlockOf(part, p);
    assert PinsIn(pins, part', b) == PinsIn(pins, part, b) - {x};
    assert PinsIn(pins, part', 1 - b) == PinsIn(pins, part, 1 - b) + {x};
  }

  /** The gain of a net for one of its pins: it leaves the cut if the pin is alone on its
      side, and enters the cut if it was not cut and has other pins. */
  lemma GainCharacterised(n: Net, part: Partition, x: nat)
    requires n.enabled && x in n.pins && x < |part| && TwoWay(part, n.pins)
    ensures GainOfNet(n, part, x) ==
            if Connectivity(n, part) > 1
            then if PinCount(n.pins, part, part[x]) == 1 then n.weight else 0
            else if |n.pins| > 1 then -n.weight else 0
    ensures GainOfNet(n, part, x) ==
            (if Connectivity(n, part) > 1 then n.weight else 0)
            - (if PinCount(n.pins, part, part[x]) > 1 then n.weight else 0)
    ensures PinCount(n.pins, part, part[x]) >= 1
  {
    var part', b := Flip(part, x), part[x];
    assert BlockOf(part, x) == b;
    FlippedCounts(n.pins, part, x);
    CutHasBothSides(n.pins, part, b);
    CutHasBothSides(n.pins, part', b);
    assert x in PinsIn(n.pins, part, b);
    assert PinsIn(n.pins, part, b) + PinsIn(n.pins, part, 1 - b) == n.pins;
  }

  // --------------------------------------------------------------- uncontraction

  /** What uncontraction adds to u's gain on account of net n of the representative;
      partner says whether the net is one of v's. */
  function ChangeOfU(n: Net, partner: bool, part: Partition, u: nat, v: nat): int
    requires u < |part| && v < |part|
  {
    if !partner then 0
    else if WasCutOff(n, v) then
      if PinCount(n.pins + {v}, part[v := part[u]], part[u]) == 2 then -n.weight else 0
    else if Connectivity(n, part) > 1 then
      if PinCount(n.pins, part, part[u]) == 1 then -n.weight else 0
    else n.weight
  }

  /** What it adds to the gain that v takes over from u. */
  function ChangeOfV(n: Net, partner: bool, part: Partition, u: nat, v: nat): int
    requires u < |part| && v < |part|
  {
    if partner && WasCutOff(n, v) then
      if PinCount(n.pins + {v}, part[v := part[u]], part[u]) == 2 then -n.weight else 0
    else if partner then 0
    else if Connectivity(n, part) > 1 then
      if PinCount(n.pins, part, part[u]) == 1 then -n.weight else 0
    else n.weight
  }

  /** The changes of u over the nets in done. */
  function ChangesOfU(c: Hypergraph, done: set<nat>, part: Partition, u: nat, v: nat): seq<int>
    requires u < |part| && v < |part| && v < |c.nodes|
  {
    seq(|c.nets|, e requires 0 <= e < |c.nets| =>
      if e in done then ChangeOfU(c.nets[e], e in c.nodes[v].nets, part, u, v) else 0)
  }

  function ChangesOfV(c: Hypergraph, done: set<nat>, part: Partition, u: nat, v: nat): seq<int>
    requires u < |part| && v < |part| && v < |c.nodes|
  {
    seq(|c.nets|, e requires 0 <= e < |c.nets| =>
      if e in done then ChangeOfV(c.nets[e], e in c.nodes[v].nets, part, u, v) else 0)
  }

  /** The weight of n if it is a net of u alone with no other pin: the one case in which
      the reported change is off. */
  function LonelyWeight(n: Net): int {
    if n.enabled && |n.pins| == 1 then n.weight else 0
  }

  lemma ProjectionIsTwoWay(f: Net, u: nat, v: nat, part: Partition)
    requires v in f.pins && u != v && u < |part| && v < |part|
    requires TwoWay(part, ContractNet(f, u, v).pins)
    ensures TwoWay(part[v := part[u]], f.pins)
  {
    var n, part' := ContractNet(f, u, v), part[v := part[u]];
    assert u in n.pins && BlockOf(part, u) == part[u];
    forall p | p in f.pins ensures BlockOf(part', p) == 0 || BlockOf(part', p) == 1 {
      if p != v {
        assert p in n.pins;
      }
    }
  }

  /** Cutting v off and joining it again. */
  lemma JoinedChange(f: Net, u: nat, v: nat, part: Partition)
    requires f.enabled && u in f.pins && v in f.pins && u != v
    requires u < |part| && v < |part| && TwoWay(part, ContractNet(f, u, v).pins)
    ensures var n, part' := ContractNet(f, u, v), part[v := part[u]];
            && GainOfNet(f, part', u) == GainOfNet(n, part, u) + ChangeOfU(n, true, part, u, v)
            && GainOfNet(f, part', v) == GainOfNet(n, part, u) + ChangeOfV(n, true, part, u, v)
  {
    var n, part', b := ContractNet(f, u, v), part[v := part[u]], part[u];
    assert f.pins == n.pins + {v};
    SameBlocks(f, u, v, part);
    ProjectionIsTwoWay(f, u, v, part);
    GainCharacterised(n, part, u);
    GainCharacterised(f, part', u);
    GainCharacterised(f, part', v);
    assert PinsIn(f.pins, part', b) == PinsIn(n.pins, part, b) + {v};
  }

  /** Replacing v by u and putting it back. */
  lemma ReplacedChange(f: Net, u: nat, v: nat, part: Partition)
    requires f.enabled && u !in f.pins && v in f.pins && u != v && !WasCutOff(f, v)
    requires u < |part| && v < |part| && TwoWay(part, ContractNet(f, u, v).pins)
    ensures var n, part' := ContractNet(f, u, v), part[v := part[u]];
            && GainOfNet(f, part', u) == GainOfNet(n, part, u) + ChangeOfU(n, true, part, u, v) - LonelyWeight(n)
            && GainOfNet(f, part', v) == GainOfNet(n, part, u) + ChangeOfV(n, true, part, u, v)
  {
    var n, part', b := ContractNet(f, u, v), part[v := part[u]], part[u];
    SameBlocks(f, u, v, part);
    ProjectionIsTwoWay(f, u, v, part);
    NoGainElsewhere(f, part', u);
    GainCharacterised(n, part, u);
    GainCharacterised(f, part', v);
    LonelyIsUncut(n, part);
    assert PinsIn(f.pins, part', b) == PinsIn(n.pins, part, b) - {u} + {v};
    assert u in PinsIn(n.pins, part, b) && v !in PinsIn(n.pins, part, b);
  }

  /** A net with one pin is not cut; one with none is not a net of any node. */
  lemma LonelyIsUncut(n: Net, part: Partition)
    ensures |n.pins| <= 1 ==> Connectivity(n, part) <= 1
    ensures n.pins != {} ==> |n.pins| >= 1
  {
    if |n.pins| <= 1 {
      FewBlocks(n.pins, part);
    }
  }

  /** A net of u that v is not on. */
  lemma UnsharedChange(n: Net, u: nat, v: nat, part: Partition)
    requires n.enabled && u in n.pins && v !in n.pins && u != v
    requires u < |part| && v < |part| && TwoWay(part, n.pins)
    ensures var part' := part[v := part[u]];
            && GainOfNet(n, part', u) == GainOfNet(n, part, u) + ChangeOfU(n, false, part, u, v)
            && GainOfNet(n, part', v) == GainOfNet(n, part, u) + ChangeOfV(n, false, part, u, v) - LonelyWeight(n)
  {
    var part' := part[v := part[u]];
    NoGainElsewhere(n, part', v);
    BlocksIgnoreOthers(n.pins, part, v, part[u]);
    BlocksIgnoreOthers(n.pins, Flip(part, u), v, part[u]);
    assert Flip(part', u) == Flip(part, u)[v := part[u]];
    GainCharacterised(n, part, u);
    LonelyIsUncut(n, part);
  }

  // -------------------------------------------------------------- exact changes

  /** The lonely weights of the nets in s. */
  function LonelyOver(c: Hypergraph, s: set<nat>): seq<int> {
    seq(|c.nets|, e requires 0 <= e < |c.nets| => if e in s then LonelyWeight(c.nets[e]) else 0)
  }

  /** The nets of u that v is not on. */
  function Unshared(c: Hypergraph, u: nat, v: nat): set<nat>
    requires u < |c.nodes| && v < |c.nodes|
  {
    c.nodes[u].nets - c.nodes[v].nets
  }

  /** No enabled net in s consists of a single pin. */
  ghost predicate NoneLonely(c: Hypergraph, s: set<nat>) {
    forall e | e in s && HasNet(c, e) :: |c.nets[e].pins| != 1
  }

  ghost predicate TwoWayPartition(h: Hypergraph, part: Partition) {
    && |part| == |h.nodes|
    && forall p | 0 <= p < |h.nodes| && h.nodes[p].enabled :: part[p] == 0 || part[p] == 1
  }

  lemma ChangeAt(h: Hypergraph, u: nat, v: nat, part: Partition, e: nat)
    requires Valid(h) && HasNode(h, u) && HasNode(h, v) && u != v && e < |h.nets|
    requires TwoWayPartition(Contract(h, u, v), part)
    ensures var c, part' := Contract(h, u, v), part[v := part[u]];
            && NetGains(h, part', u)[e]
            == NetGains(c, part, u)[e]
               + ChangesOfU(c, c.nodes[u].nets, part, u, v)[e] - LonelyOver(c, Borrowed(c, u, v))[e]
            && NetGains(h, part', v)[e]
            == NetGains(c, part, u)[e]
               + ChangesOfV(c, c.nodes[u].nets, part, u, v)[e] - LonelyOver(c, Unshared(c, u, v))[e]
  {
    var c, part' := Contract(h, u, v), part[v := part[u]];
    var f, n := h.nets[e], c.nets[e];
    if f.enabled {
      ContractKeepsValid(h, u, v);
      forall p | p in n.pins ensures BlockOf(part, p) == 0 || BlockOf(part, p) == 1 {
        assert HasNode(c, p);
      }
      if e in h.nodes[v].nets {
        PeekIsCorrect(h, u, v, e);
        assert v in f.pins;
        if u in f.pins {
          JoinedChange(f, u, v, part);
        } else {
          assert f.cutOff != [] ==> f.cutOff[0] in f.cutOff;
          ReplacedChange(f, u, v, part);
        }
      } else if e in h.nodes[u].nets {
        assert u in f.pins && v !in f.pins;
        UnsharedChange(f, u, v, part);
      } else {
        assert u !in f.pins && v !in f.pins;
        NoGainElsewhere(f, part', u);
        NoGainElsewhere(f, part', v);
        NoGainElsewhere(f, part, u);
      }
    }
  }

  /** The reported changes are exact up to the weight of nets with a single pin. */
  lemma ChangesAccountForGains(h: Hypergraph, u: nat, v: nat, part: Partition)
    requires Valid(h) && HasNode(h, u) && HasNode(h, v) && u != v
    requires TwoWayPartition(Contract(h, u, v), part)
    ensures var c, part' := Contract(h, u, v), part[v := part[u]];
            && Gain(h, part', u) + Sum(LonelyOver(c, Borrowed(c, u, v)))
            == Gain(c, part, u) + Sum(ChangesOfU(c, c.nodes[u].nets, part, u, v))
            && Gain(h, part', v) + Sum(LonelyOver(c, Unshared(c, u, v)))
            == Gain(c, part, u) + Sum(ChangesOfV(c, c.nodes[u].nets, part, u, v))
  {
    var c, part' := Contract(h, u, v), part[v := part[u]];
    GainIsSum(h, part', u);
    GainIsSum(h, part', v);
    GainIsSum(c, part, u);
    forall e | 0 <= e < |h.nets|
      ensures NetGains(h, part', u)[e] + LonelyOver(c, Borrowed(c, u, v))[e]
           == NetGains(c, part, u)[e] + ChangesOfU(c, c.nodes[u].nets, part, u, v)[e]
      ensures NetGains(h, part', v)[e] + LonelyOver(c, Unshared(c, u, v))[e]
           == NetGains(c, part, u)[e] + ChangesOfV(c, c.nodes[u].nets, part, u, v)[e]
    {
      ChangeAt(h, u, v, part, e);
    }
    SumsAgree(NetGains(h, part', u), LonelyOver(c, Borrowed(c, u, v)),
              NetGains(c, part, u), ChangesOfU(c, c.nodes[u].nets, part, u, v));
    SumsAgree(NetGains(h, part', v), LonelyOver(c, Unshared(c, u, v)),
              NetGains(c, part, u), ChangesOfV(c, c.nodes[u].nets, part, u, v));
  }

  lemma SumsAgree(a: seq<int>, b: seq<int>, c: seq<int>, d: seq<int>)
    requires |a| == |b| == |c| == |d|
    requires forall i | 0 <= i < |a| :: a[i] + b[i] == c[i] + d[i]
    ensures Sum(a) + Sum(b) == Sum(c) + Sum(d)
  {
    var both := seq(|a|, i requires 0 <= i < |a| => a[i] + b[i]);
    SumAdd(a, b, both);
    SumAdd(c, d, both);
  }

  lemma {:induction false} SumZeroIff(s: seq<int>)
    requires forall i | 0 <= i < |s| :: 0 <= s[i]
    ensures Sum(s) == 0 <==> forall i | 0 <= i < |s| :: s[i] == 0
  {
    if forall i | 0 <= i < |s| :: s[i] == 0 {
      SumConstant(s, 0);
    } else {
      var i :| 0 <= i < |s| && s[i] != 0;
      SumAtLeastOne(s, i);
    }
  }

  lemma LonelyZeroIff(c: Hypergraph, s: set<nat>)
    requires forall e | 0 <= e < |c.nets| :: 0 < c.nets[e].weight
    ensures Sum(LonelyOver(c, s)) == 0 <==> NoneLonely(c, s)
  {
    SumZeroIff(LonelyOver(c, s));
    if Sum(LonelyOver(c, s)) == 0 {
      forall e | e in s && HasNet(c, e) ensures |c.nets[e].pins| != 1 {
        assert LonelyOver(c, s)[e] == 0;
      }
    }
  }

  /** With positive net weights the change of u is exact precisely when no net that u
      has borrowed from v consists of u alone, and that of v precisely when no net of u
      that v is not on consists of u alone. */
  lemma ChangesExactIff(h: Hypergraph, u: nat, v: nat, part: Partition)
    requires Valid(h) && HasNode(h, u) && HasNode(h, v) && u != v
    requires TwoWayPartition(Contract(h, u, v), part)
    requires forall e | 0 <= e < |h.nets| :: 0 < h.nets[e].weight
    ensures var c, part' := Contract(h, u, v), part[v := part[u]];
            && (Gain(h, part', u) == Gain(c, part, u) + Sum(ChangesOfU(c, c.nodes[u].nets, part, u, v))
                <==> NoneLonely(c, Borrowed(c, u, v)))
            && (Gain(h, part', v) == Gain(c, part, u) + Sum(ChangesOfV(c, c.nodes[u].nets, part, u, v))
                <==> NoneLonely(c, Unshared(c, u, v)))
  {
    var c := Contract(h, u, v);
    ChangesAccountForGains(h, u, v, part);
    assert forall e | 0 <= e < |c.nets| :: 0 < c.nets[e].weight;
    LonelyZeroIff(c, Borrowed(c, u, v));
    LonelyZeroIff(c, Unshared(c, u, v));
  }

  /** Two nodes, and a net that has only node p. */
  function SinglePinExample(p: nat): Hypergraph {
    Hypergraph([Node(if p == 0 then {0} else {}, 1, true), Node(if p == 1 then {0} else {}, 1, true)],
               [Net({p}, [], 1, true)])
  }

  lemma SinglePinExampleIsValid(p: nat)
    requires p < 2
    ensures Valid(SinglePinExample(p))
    ensures Contract(SinglePinExample(p), 0, 1).nets == [Net({0}, [], 1, true)]
    ensures Contract(SinglePinExample(p), 0, 1).nodes[0].nets == {0}
  {
    var h := SinglePinExample(p);
    assert p !in (if p == 0 then {1} else {0});
    assert h.nets[0].pins - {1} + {0} == {0};
  }

  /** When node 1 is uncontracted from node 0 in block 0, the change reported for node 1 is off
      by the weight of a net that has only node 0. */
  lemma NetOfUMiscounted()
    ensures var h, part, part' := SinglePinExample(0), [0, INVALID_PARTITION], [0, 0];
            var c := Contract(h, 0, 1);
            && Valid(h) && TwoWayPartition(c, part)
            && Gain(h, part', 1) + 1 == Gain(c, part, 0) + Sum(ChangesOfV(c, c.nodes[0].nets, part, 0, 1))
  {
    var h, part := SinglePinExample(0), [0, INVALID_PARTITION];
    var c := Contract(h, 0, 1);
    assert part[1 := part[0]] == [0, 0];
    SinglePinExampleIsValid(0);
    ChangesAccountForGains(h, 0, 1, part);
    assert Unshared(c, 0, 1) == {0} && LonelyOver(c, Unshared(c, 0, 1)) == [1];
    assert Sum([1]) == 1;
  }

  /** The change reported for node 0 is off by the weight of a net that has only node 1. */
  lemma NetOfVMiscounted()
    ensures var h, part, part' := SinglePinExample(1), [0, INVALID_PARTITION], [0, 0];
            var c := Contract(h, 0, 1);
            && Valid(h) && TwoWayPartition(c, part)
            && Gain(h, part', 0) + 1 == Gain(c, part, 0) + Sum(ChangesOfU(c, c.nodes[0].nets, part, 0, 1))
  {
    var h, part := SinglePinExample(1), [0, INVALID_PARTITION];
    var c := Contract(h, 0, 1);
    assert part[1 := part[0]] == [0, 0];
    SinglePinExampleIsValid(1);
    ChangesAccountForGains(h, 0, 1, part);
    assert Borrowed(c, 0, 1) == {0} && LonelyOver(c, Borrowed(c, 0, 1)) == [1];
    assert Sum([1]) == 1;
  }
}
