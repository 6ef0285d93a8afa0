/** Recursive bisection: the hypergraphs that the blocks of a partition induce, and why
    their objectives add up to the objective of the whole. */
module CutNetSplitting {
  import opened Sums
  import opened NLevel
  import opened Partitions
  import opened Layout
  import opened PinCounts
  import opened Relabelling

  /** Is net n part of the hypergraph that block b induces? For the connectivity metric
      every net with several pins in the block is, for the cut metric only uncut nets. */
  predicate Kept(obj: Objective, n: Net, part: Partition, b: int) {
    n.enabled && match obj
    case KM1 => PinCount(n.pins, part, b) > 1
    case CUT => Connectivity(n, part) == 1 && b in Blocks(n.pins, part)
  }

  /** The positions in mapping of the nodes in s. */
  ghost function Positions(mapping: seq<nat>, s: set<nat>): set<nat> {
    set i: nat | i < |mapping| && mapping[i] in s
  }

  /** sub is the hypergraph that block b of the partition induces: mapping lists the nodes
      of the block, kept the nets. */
  ghost predicate IsExtraction(obj: Objective, h: Hypergraph, part: Partition, b: int, mapping: seq<nat>,
                               kept: seq<nat>, sub: Hypergraph) {
    && NoDuplicates(mapping) && NoDuplicates(kept)
    && (forall v: nat {:trigger v in mapping} :: v in mapping <==> HasNode(h, v) && BlockOf(part, v) == b)
    && (forall e: nat {:trigger e in kept} :: e in kept <==> e < |h.nets| && Kept(obj, h.nets[e], part, b))
    && |sub.nodes| == |mapping| && |sub.nets| == |kept|
    && (forall i {:trigger sub.nodes[i]} | 0 <= i < |mapping| ::
          mapping[i] < |h.nodes| && sub.nodes[i].enabled && sub.nodes[i].weight == h.nodes[mapping[i]].weight)
    && (forall i {:trigger sub.nets[i]} | 0 <= i < |kept| ::
          kept[i] < |h.nets| && IsNetOf(h.nets[kept[i]], part, b, mapping, sub.nets[i]))
  }

  /** n' is what is left of net n in block b. */
  ghost predicate IsNetOf(n: Net, part: Partition, b: int, mapping: seq<nat>, n': Net) {
    n'.enabled && n'.weight == n.weight && n'.pins == Positions(mapping, PinsIn(n.pins, part, b))
  }

  /** The partition of an induced hypergraph that a finer partition of the whole amounts to. */
  function Restricted(finer: Partition, mapping: seq<nat>): Partition {
    seq(|mapping|, i requires 0 <= i < |mapping| => BlockOf(finer, mapping[i]))
  }

  /** Nodes in the same block of the finer partition are in the same block of the coarser. */
  ghost predicate Refines(finer: Partition, coarser: Partition, h: Hypergraph) {
    forall p: nat, q: nat {:trigger BlockOf(finer, p), BlockOf(finer, q)} | HasNode(h, p) && HasNode(h, q) ::
      BlockOf(finer, p) == BlockOf(finer, q) ==> BlockOf(coarser, p) == BlockOf(coarser, q)
  }

  // ---------------------------------------------------------------- one net

  /** What net n contributes to the objective of the hypergraph that block b induces. */
  function PartOfNet(obj: Objective, n: Net, part: Partition, b: int, finer: Partition): int {
    var c := |Blocks(PinsIn(n.pins, part, b), finer)|;
    if n.enabled && c > 1 && (obj.CUT? ==> Connectivity(n, part) == 1)
    then if obj.KM1? then (c - 1) * n.weight else n.weight else 0
  }

  function PartsOfNet(obj: Objective, n: Net, part: Partition, k: nat, finer: Partition): seq<int> {
    seq(k, b requires 0 <= b < k => PartOfNet(obj, n, part, b, finer))
  }

  /** The pins in the first j blocks. */
  function PinsBelow(pins: set<nat>, part: Partition, j: int): set<nat> {
    set p | p in pins && 0 <= BlockOf(part, p) < j
  }

  ghost predicate PinsRefine(pins: set<nat>, finer: Partition, coarser: Partition) {
    forall p, q {:trigger BlockOf(finer, p), BlockOf(finer, q)} | p in pins && q in pins ::
      BlockOf(finer, p) == BlockOf(finer, q) ==> BlockOf(coarser, p) == BlockOf(coarser, q)
  }

  /** Block j splits off from the blocks below it, in either partition. */
  lemma BlockSplitsOff(pins: set<nat>, part: Partition, j: nat, finer: Partition)
    requires PinsRefine(pins, finer, part)
    ensures |Blocks(PinsBelow(pins, part, j + 1), finer)|
         == |Blocks(PinsBelow(pins, part, j), finer)| + |Blocks(PinsIn(pins, part, j), finer)|
    ensures |Blocks(PinsBelow(pins, part, j + 1), part)|
         == |Blocks(PinsBelow(pins, part, j), part)| + if PinsIn(pins, part, j) == {} then 0 else 1
  {
    var below, here := PinsBelow(pins, part, j), PinsIn(pins, part, j);
    assert PinsBelow(pins, part, j + 1) == below + here;
    assert Blocks(below + here, finer) == Blocks(below, finer) + Blocks(here, finer);
    assert Blocks(below, finer) !! Blocks(here, finer) by {
      forall p, q | p in below && q in here ensures BlockOf(finer, p) != BlockOf(finer, q) {}
    }
    if p :| p in here {
      assert Blocks(here, part) == {j};
      assert j !in Blocks(below, part);
      assert Blocks(below + here, part) == Blocks(below, part) + {j};
    } else {
      assert below + here == below;
    }
  }

  function Excess(pins: set<nat>, part: Partition, b: int, finer: Partition): int {
    var c := |Blocks(PinsIn(pins, part, b), finer)|;
    if c > 1 then c - 1 else 0
  }

  function Excesses(pins: set<nat>, part: Partition, j: nat, finer: Partition): seq<int> {
    seq(j, b requires 0 <= b < j => Excess(pins, part, b, finer))
  }

  /** The finer partition connects as many blocks more as the induced nets connect in
      excess of one each. */
  lemma {:induction false} ExcessAddsUp(pins: set<nat>, part: Partition, j: nat, finer: Partition)
    requires PinsRefine(pins, finer, part)
    ensures |Blocks(PinsBelow(pins, part, j), finer)|
         == |Blocks(PinsBelow(pins, part, j), part)| + Sum(Excesses(pins, part, j, finer))
  {
    if j == 0 {
      assert PinsBelow(pins, part, 0) == {};
      assert Blocks({}, finer) == {} && Blocks({}, part) == {};
    } else {
      ExcessAddsUp(pins, part, j - 1, finer);
      BlockSplitsOff(pins, part, j - 1, finer);
      assert Excesses(pins, part, j, finer)[..j - 1] == Excesses(pins, part, j - 1, finer);
      var here := PinsIn(pins, part, j - 1);
      if p :| p in here {
        assert BlockOf(finer, p) in Blocks(here, finer);
      } else {
        assert Blocks(here, finer) == {};
      }
    }
  }

  lemma SplitKm1(n: Net, part: Partition, k: nat, finer: Partition)
    requires n.enabled && PinsRefine(n.pins, finer, part) && Assigned(n.pins, part, k)
    ensures Km1OfNet(n, finer) == Km1OfNet(n, part) + Sum(PartsOfNet(KM1, n, part, k, finer))
  {
    assert PinsBelow(n.pins, part, k) == n.pins;
    ExcessAddsUp(n.pins, part, k, finer);
    var excess := Sum(Excesses(n.pins, part, k, finer));
    ScaledSum(Excesses(n.pins, part, k, finer), PartsOfNet(KM1, n, part, k, finer), n.weight);
    if p :| p in n.pins {
      assert BlockOf(part, p) in Blocks(n.pins, part);
      PinsBelowAll(n, part, k, finer);
      Distributes(Connectivity(n, finer) - 1, excess, n.weight);
    } else {
      assert Blocks(n.pins, part) == {} && Blocks(n.pins, finer) == {};
    }
  }

  lemma SplitCut(n: Net, part: Partition, k: nat, finer: Partition)
    requires n.enabled && PinsRefine(n.pins, finer, part) && Assigned(n.pins, part, k)
    ensures CutOfNet(n, finer) == CutOfNet(n, part) + Sum(PartsOfNet(CUT, n, part, k, finer))
  {
    var parts := PartsOfNet(CUT, n, part, k, finer);
    if Connectivity(n, part) == 1 {
      var p := AnyPin(n, part);
      var b := BlockOf(part, p);
      OnlyBlock(n.pins, part, p);
      var zeros := seq(k, _ => 0);
      SumConstant(zeros, 0);
      SumUpdate(zeros, b, parts[b]);
      forall c | 0 <= c < k && c != b ensures parts[c] == 0 {
        assert PinsIn(n.pins, part, c) == {};
        assert Blocks({}, finer) == {};
      }
      assert parts == zeros[b := parts[b]];
    } else {
      SumConstant(parts, 0);
      PinsBelowAll(n, part, k, finer);
    }
  }

  lemma AnyPin(n: Net, part: Partition) returns (p: nat)
    requires Connectivity(n, part) == 1
    ensures p in n.pins
  {
    assert Blocks({}, part) == {};
    p :| p in n.pins;
  }

  /** An uncut net is wholly in the block of any of its pins. */
  lemma OnlyBlock(pins: set<nat>, part: Partition, p: nat)
    requires |Blocks(pins, part)| == 1 && p in pins
    ensures PinsIn(pins, part, BlockOf(part, p)) == pins
    ensures forall c | c != BlockOf(part, p) :: PinsIn(pins, part, c) == {}
  {
    var b := BlockOf(part, p);
    assert b in Blocks(pins, part);
    forall q | q in pins ensures BlockOf(part, q) == b {
      assert BlockOf(part, q) in Blocks(pins, part);
      assert |Blocks(pins, part) - {b}| == 0;
    }
  }

  /** The finer partition connects no fewer blocks. */
  lemma PinsBelowAll(n: Net, part: Partition, k: nat, finer: Partition)
    requires PinsRefine(n.pins, finer, part) && Assigned(n.pins, part, k)
    ensures Connectivity(n, part) <= Connectivity(n, finer)
    ensures Connectivity(n, part) == 0 ==> Connectivity(n, finer) == 0
  {
    assert PinsBelow(n.pins, part, k) == n.pins;
    ExcessAddsUp(n.pins, part, k, finer);
    var zeros := seq(k, _ => 0);
    SumConstant(zeros, 0);
    SumMonotone(zeros, Excesses(n.pins, part, k, finer));
    if p :| p in n.pins {
      assert BlockOf(part, p) in Blocks(n.pins, part);
    } else {
      assert Blocks(n.pins, finer) == {};
    }
  }

  // ---------------------------------------------------------- whole hypergraphs

  /** A net has the same blocks in the induced hypergraph as its pins have in the whole. */
  lemma BlocksOfExtracted(h: Hypergraph, n: Net, part: Partition, b: int, mapping: seq<nat>, n': Net, finer: Partition)
    requires IsNetOf(n, part, b, mapping, n')
    requires forall p | p in n.pins && BlockOf(part, p) == b :: p in mapping
    ensures Blocks(n'.pins, Restricted(finer, mapping)) == Blocks(PinsIn(n.pins, part, b), finer)
  {
    var here, restricted := PinsIn(n.pins, part, b), Restricted(finer, mapping);
    forall c | c in Blocks(n'.pins, restricted) ensures c in Blocks(here, finer) {
      var i :| i in n'.pins && BlockOf(restricted, i) == c;
      assert mapping[i] in here && BlockOf(finer, mapping[i]) == c;
    }
    forall c | c in Blocks(here, finer) ensures c in Blocks(n'.pins, restricted) {
      var p :| p in here && BlockOf(finer, p) == c;
      var i: nat :| i < |mapping| && mapping[i] == p;
      assert i in n'.pins && BlockOf(restricted, i) == c;
    }
  }

  lemma ExtractedNet(obj: Objective, h: Hypergraph, part: Partition, b: int, mapping: seq<nat>, kept: seq<nat>,
                     sub: Hypergraph, finer: Partition, i: nat)
    requires Valid(h) && IsExtraction(obj, h, part, b, mapping, kept, sub) && i < |kept|
    ensures kept[i] < |h.nets|
    ensures ObjectiveOfNet(obj, sub.nets[i], Restricted(finer, mapping))
         == PartOfNet(obj, h.nets[kept[i]], part, b, finer)
  {
    assert kept[i] in kept;
    assert IsNetOf(h.nets[kept[i]], part, b, mapping, sub.nets[i]);
    var n := h.nets[kept[i]];
    forall p | p in n.pins && BlockOf(part, p) == b ensures p in mapping {
      assert HasNode(h, p);
    }
    BlocksOfExtracted(h, n, part, b, mapping, sub.nets[i], finer);
  }

  /** What is not kept contributes nothing. */
  lemma NotKept(obj: Objective, n: Net, part: Partition, b: int, finer: Partition)
    requires !Kept(obj, n, part, b)
    ensures PartOfNet(obj, n, part, b, finer) == 0
  {
    if n.enabled {
      var here := PinsIn(n.pins, part, b);
      if obj.KM1? {
        FewBlocks(here, finer);
      } else if Connectivity(n, part) == 1 {
        assert here == {} by {
          forall p | p in n.pins ensures BlockOf(part, p) != b {
            assert BlockOf(part, p) in Blocks(n.pins, part);
          }
        }
        assert Blocks({}, finer) == {};
      }
    }
  }

  function PartsIn(obj: Objective, h: Hypergraph, part: Partition, b: int, finer: Partition): seq<int> {
    seq(|h.nets|, e requires 0 <= e < |h.nets| => PartOfNet(obj, h.nets[e], part, b, finer))
  }

  /** The objective of an induced hypergraph, net by net of the whole. */
  lemma ObjectiveOfExtraction(obj: Objective, h: Hypergraph, part: Partition, b: int, mapping: seq<nat>,
                              kept: seq<nat>, sub: Hypergraph, finer: Partition)
    requires Valid(h) && IsExtraction(obj, h, part, b, mapping, kept, sub)
    ensures ObjectiveOf(obj, sub, Restricted(finer, mapping)) == Sum(PartsIn(obj, h, part, b, finer))
  {
    var parts := PartsIn(obj, h, part, b, finer);
    forall i | 0 <= i < |kept|
      ensures kept[i] < |h.nets|
      ensures ObjectiveOfNet(obj, sub.nets[i], Restricted(finer, mapping)) == parts[kept[i]]
    {
      ExtractedNet(obj, h, part, b, mapping, kept, sub, finer, i);
    }
    ObjectiveIsSum(obj, sub, Restricted(finer, mapping));
    assert seq(|sub.nets|, e requires 0 <= e < |sub.nets| =>
                 ObjectiveOfNet(obj, sub.nets[e], Restricted(finer, mapping)))
        == Select(parts, kept);
    SumSelect(parts, kept);
    forall e: nat | e < |h.nets| && e !in kept ensures parts[e] == 0 {
      NotKept(obj, h.nets[e], part, b, finer);
    }
    assert Masked(parts, kept) == parts;
  }

  /** The hypergraphs induced by all blocks. */
  ghost predicate AreExtractions(obj: Objective, h: Hypergraph, part: Partition, mappings: seq<seq<nat>>,
                                 kept: seq<seq<nat>>, subs: seq<Hypergraph>) {
    && |mappings| == |kept| == |subs|
    && forall b {:trigger subs[b]} | 0 <= b < |subs| :: IsExtraction(obj, h, part, b, mappings[b], kept[b], subs[b])
  }

  function SubObjectives(obj: Objective, mappings: seq<seq<nat>>, subs: seq<Hypergraph>, finer: Partition): seq<int>
    requires |mappings| == |subs|
  {
    seq(|subs|, b requires 0 <= b < |subs| => ObjectiveOf(obj, subs[b], Restricted(finer, mappings[b])))
  }

  lemma SplitNet(obj: Objective, h: Hypergraph, part: Partition, k: nat, finer: Partition, e: nat)
    requires Valid(h) && Refines(finer, part, h) && e < |h.nets|
    requires forall v: nat {:trigger BlockOf(part, v)} | HasNode(h, v) :: 0 <= BlockOf(part, v) < k
    ensures ObjectiveOfNet(obj, h.nets[e], finer)
         == ObjectiveOfNet(obj, h.nets[e], part) + Sum(PartsOfNet(obj, h.nets[e], part, k, finer))
  {
    var n := h.nets[e];
    if n.enabled {
      assert forall p | p in n.pins :: HasNode(h, p);
      if obj.KM1? {
        SplitKm1(n, part, k, finer);
      } else {
        SplitCut(n, part, k, finer);
      }
    } else {
      SumConstant(PartsOfNet(obj, n, part, k, finer), 0);
    }
  }

  /** The objective of a refinement is that of the partition it refines, plus those of its
      restrictions to the induced hypergraphs: recursive bisection may look at each of
      them on its own. */
  lemma SplittingIsExact(obj: Objective, h: Hypergraph, part: Partition, mappings: seq<seq<nat>>, kept: seq<seq<nat>>,
                         subs: seq<Hypergraph>, finer: Partition)
    requires Valid(h) && AreExtractions(obj, h, part, mappings, kept, subs) && Refines(finer, part, h)
    requires forall v: nat {:trigger BlockOf(part, v)} | HasNode(h, v) :: 0 <= BlockOf(part, v) < |subs|
    ensures ObjectiveOf(obj, h, finer) == ObjectiveOf(obj, h, part) + Sum(SubObjectives(obj, mappings, subs, finer))
  {
    var k := |subs|;
    var m := seq(|h.nets|, e requires 0 <= e < |h.nets| => PartsOfNet(obj, h.nets[e], part, k, finer));
    var parts := RowSums(m);
    var coarse := seq(|h.nets|, e requires 0 <= e < |h.nets| => ObjectiveOfNet(obj, h.nets[e], part));
    var fine := seq(|h.nets|, e requires 0 <= e < |h.nets| => ObjectiveOfNet(obj, h.nets[e], finer));
    forall e | 0 <= e < |h.nets| ensures fine[e] == coarse[e] + parts[e] {
      SplitNet(obj, h, part, k, finer, e);
    }
    SumAdd(coarse, parts, fine);
    ObjectiveIsSum(obj, h, part);
    ObjectiveIsSum(obj, h, finer);
    SumColumns(m, k);
    forall b | 0 <= b < k ensures Sum(Column(m, b)) == SubObjectives(obj, mappings, subs, finer)[b] {
      assert IsExtraction(obj, h, part, b, mappings[b], kept[b], subs[b]);
      ObjectiveOfExtraction(obj, h, part, b, mappings[b], kept[b], subs[b], finer);
      assert Column(m, b) == PartsIn(obj, h, part, b, finer);
    }
    assert ColumnSums(m, k) == SubObjectives(obj, mappings, subs, finer);
  }
}
