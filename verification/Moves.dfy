/** Giving a node its block, or another one: pin counts, block weights and border counters
    while some of the node's nets are still to be dealt with. */
module Moves {
  import opened Sums
  import opened NLevel
  import opened Partitions
  import opened Layout
  import opened PinCounts
  import opened Uncontraction

  datatype PartInfo = PartInfo(weight: int, size: int)

  // ---------------------------------------------------------------- pin counts

  lemma CountAfterMove(pins: set<nat>, part: Partition, x: nat, to: int, b: int)
    requires x in pins && x < |part|
    ensures PinCount(pins, part[x := to], b) ==
            PinCount(pins, part, b) - (if part[x] == b then 1 else 0) + (if to == b then 1 else 0)
  {
    var rest, part' := pins - {x}, part[x := to];
    assert pins == rest + {x};
    CountsOfMore(rest, part, x, b);
    CountsOfMore(rest, part', x, b);
    BlocksIgnoreOthers(rest, part, x, to);
  }

  /** A pin that changes blocks. */
  lemma PinMoved(r: Row, r': Row, pins: set<nat>, part: Partition, x: nat, from: nat, to: nat)
    requires CountsPins(r, pins, part) && x in pins && x < |part| && part[x] == from
    requires from < |r.counts| && to < |r.counts| && from != to
    requires r'.counts == r.counts[from := r.counts[from] - 1][to := r.counts[to] + 1]
    ensures CountsPins(r', pins, part[x := to])
  {
    forall b | 0 <= b < |r'.counts| ensures r'.counts[b] == PinCount(pins, part[x := to], b) {
      CountAfterMove(pins, part, x, to, b);
      assert r.counts[b] == PinCount(pins, part, b);
    }
  }

  /** A pin that gets its first block. */
  lemma PinPlaced(r: Row, r': Row, pins: set<nat>, part: Partition, x: nat, to: nat)
    requires CountsPins(r, pins, part) && x in pins && x < |part| && part[x] == INVALID_PARTITION
    requires to < |r.counts| && r'.counts == r.counts[to := r.counts[to] + 1]
    ensures CountsPins(r', pins, part[x := to])
  {
    forall b | 0 <= b < |r'.counts| ensures r'.counts[b] == PinCount(pins, part[x := to], b) {
      CountAfterMove(pins, part, x, to, b);
      assert r.counts[b] == PinCount(pins, part, b);
    }
  }

  /** A net is not cut exactly when all its pins are in the block of any one of them. */
  lemma UncutIffTogether(pins: set<nat>, part: Partition, x: nat)
    requires x in pins
    ensures |Blocks(pins, part)| > 1 <==> PinCount(pins, part, BlockOf(part, x)) < |pins|
    ensures 0 < PinCount(pins, part, BlockOf(part, x)) <= |pins|
  {
    var b := BlockOf(part, x);
    var together := PinsIn(pins, part, b);
    assert x in together && pins == together + (pins - together);
    if y :| y in pins && y !in together {
      assert {b, BlockOf(part, y)} <= Blocks(pins, part);
      BoundedBelow(Blocks(pins, part), b, BlockOf(part, y));
    } else {
      assert together == pins;
      assert Blocks(pins, part) == {b};
    }
  }

  lemma BoundedBelow(s: set<int>, a: int, b: int)
    requires a in s && b in s && a != b
    ensures |s| > 1
  {
    assert |s - {a}| == |s| - 1 && b in s - {a};
  }

  /** The tests on the new pin counts tell whether the move of x took the net out of the
      cut, or into it. */
  lemma CutChangeDetected(r: Row, pins: set<nat>, part: Partition, x: nat, from: nat, to: nat)
    requires x in pins && x < |part| && part[x] == from && from != to
    requires from < |r.counts| && to < |r.counts| && CountsPins(r, pins, part[x := to])
    ensures var cut, cut' := |Blocks(pins, part)| > 1, |Blocks(pins, part[x := to])| > 1;
            && (cut && !cut' <==> r.counts[from] == 0 && r.counts[to] != 1 && r.counts[to] == |pins|)
            && (!cut && cut' <==> r.counts[from] != 0 && r.counts[to] == 1 && r.counts[from] == |pins| - 1)
  {
    var part' := part[x := to];
    UncutIffTogether(pins, part, x);
    UncutIffTogether(pins, part', x);
    CountAfterMove(pins, part, x, to, from);
    assert r.counts[from] == PinCount(pins, part', from) && r.counts[to] == PinCount(pins, part', to);
    assert PinsIn(pins, part', from) !! PinsIn(pins, part', to);
    assert PinsIn(pins, part', from) + PinsIn(pins, part', to) <= pins;
    SubsetSize(PinsIn(pins, part', from) + PinsIn(pins, part', to), pins);
  }

  // ----------------------------------------------------------- border counters

  /** The cut nets when those in pending are still seen with the old partition. */
  ghost function CutSetDuring(h: Hypergraph, part: Partition, part': Partition, pending: set<nat>): set<nat> {
    set e: nat | e < |h.nets| && IsCut(h.nets[e], if e in pending then part else part')
  }

  ghost function BorderDuring(h: Hypergraph, part: Partition, part': Partition, pending: set<nat>, x: nat): int
    requires x < |h.nodes|
  {
    if h.nodes[x].enabled then |h.nodes[x].nets * CutSetDuring(h, part, part', pending)| else 0
  }

  ghost predicate BordersDuring(h: Hypergraph, part: Partition, part': Partition, pending: set<nat>,
                                borders: seq<int>) {
    && |borders| == |h.nodes|
    && forall x {:trigger BorderDuring(h, part, part', pending, x)} | 0 <= x < |h.nodes| ::
         borders[x] == BorderDuring(h, part, part', pending, x)
  }

  function CutChange(n: Net, part: Partition, part': Partition): int {
    (if IsCut(n, part') then 1 else 0) - (if IsCut(n, part) then 1 else 0)
  }

  /** Counters changed by d at the pins. */
  ghost predicate Shifted(before: seq<int>, after: seq<int>, pins: set<nat>, d: int) {
    |after| == |before| && forall x {:trigger after[x]} | 0 <= x < |after| ::
      after[x] == before[x] + if x in pins then d else 0
  }

  lemma OneMoreShifted(a: seq<int>, b: seq<int>, c: seq<int>, pins: set<nat>, x: nat, d: int)
    requires Shifted(a, b, pins, d) && x !in pins && x < |b| && c == b[x := b[x] + d]
    ensures Shifted(a, c, pins + {x}, d)
  {
    forall y | 0 <= y < |c| ensures c[y] == a[y] + if y in pins + {x} then d else 0 {
      assert b[y] == a[y] + if y in pins then d else 0;
    }
  }

  lemma BorderStep(h: Hypergraph, part: Partition, part': Partition, pending: set<nat>, e: nat, x: nat)
    requires Valid(h) && HasNet(h, e) && e in pending && x < |h.nodes|
    ensures BorderDuring(h, part, part', pending - {e}, x)
         == BorderDuring(h, part, part', pending, x)
            + if x in h.nets[e].pins then CutChange(h.nets[e], part, part') else 0
  {
    var before, after := CutSetDuring(h, part, part', pending), CutSetDuring(h, part, part', pending - {e});
    if h.nodes[x].enabled {
      var nets := h.nodes[x].nets;
      assert e in nets <==> x in h.nets[e].pins;
      assert nets * after - {e} == nets * before - {e};
      assert e in before <==> IsCut(h.nets[e], part);
      assert e in after <==> IsCut(h.nets[e], part');
      assert |nets * after| == |nets * after - {e}| + if e in nets && e in after then 1 else 0;
      assert |nets * before| == |nets * before - {e}| + if e in nets && e in before then 1 else 0;
    }
  }

  /** One net dealt with. */
  lemma BordersStep(h: Hypergraph, part: Partition, part': Partition, pending: set<nat>, e: nat, before: seq<int>,
                    after: seq<int>)
    requires Valid(h) && HasNet(h, e) && e in pending && BordersDuring(h, part, part', pending, before)
    requires Shifted(before, after, h.nets[e].pins, CutChange(h.nets[e], part, part'))
    ensures BordersDuring(h, part, part', pending - {e}, after)
  {
    forall x | 0 <= x < |h.nodes| ensures after[x] == BorderDuring(h, part, part', pending - {e}, x) {
      BorderStep(h, part, part', pending, e, x);
      assert before[x] == BorderDuring(h, part, part', pending, x);
    }
  }

  lemma MoveBegins(h: Hypergraph, part: Partition, x: nat, to: int, borders: seq<int>)
    requires Valid(h) && HasNode(h, x) && |part| == |h.nodes| && BordersMatch(h, part, borders)
    ensures BordersDuring(h, part, part[x := to], h.nodes[x].nets, borders)
  {
    var pending, part' := h.nodes[x].nets, part[x := to];
    forall y | 0 <= y < |h.nodes| ensures borders[y] == BorderDuring(h, part, part', pending, y) {
      assert borders[y] == BorderOf(h, part, y);
      if h.nodes[y].enabled {
        forall e | e in h.nodes[y].nets
          ensures e in CutNets(h, part, y) <==> e in CutSetDuring(h, part, part', pending)
        {
          assert HasNet(h, e);
          if e !in pending {
            assert x !in h.nets[e].pins;
            BlocksIgnoreOthers(h.nets[e].pins, part, x, to);
          }
        }
        assert CutNets(h, part, y) == h.nodes[y].nets * CutSetDuring(h, part, part', pending);
      }
    }
  }

  lemma MoveEnds(h: Hypergraph, part: Partition, part': Partition, borders: seq<int>)
    requires BordersDuring(h, part, part', {}, borders)
    ensures BordersMatch(h, part', borders)
  {
    forall y | 0 <= y < |h.nodes| ensures borders[y] == BorderOf(h, part', y) {
      assert borders[y] == BorderDuring(h, part, part', {}, y);
      assert CutNets(h, part', y) == h.nodes[y].nets * CutSetDuring(h, part, part', {});
    }
  }

  lemma ShiftedLess(before: seq<int>, after: seq<int>, off: seq<int>, pins: set<nat>, d: int)
    requires Shifted(before, after, pins, d) && |off| == |before|
    ensures Shifted(Less(before, off), Less(after, off), pins, d)
  {
    forall x | 0 <= x < |after| ensures Less(after, off)[x] == Less(before, off)[x] + if x in pins then d else 0 {
      assert after[x] == before[x] + if x in pins then d else 0;
    }
  }

  /** All nodes whose counters turned from positive to zero or less are listed. */
  ghost predicate InternalListed(before: seq<int>, after: seq<int>, internal: seq<nat>) {
    |after| == |before| && forall x: nat {:trigger after[x]} | x < |after| && 0 < before[x] && after[x] <= 0 ::
      x in internal
  }

  lemma InternalListedOn(a: seq<int>, b: seq<int>, c: seq<int>, first: seq<nat>, second: seq<nat>)
    requires InternalListed(a, b, first) && InternalListed(b, c, second)
    ensures InternalListed(a, c, first + second)
  {
    forall x: nat | x < |c| && 0 < a[x] && c[x] <= 0 ensures x in first + second {
      assert b[x] <= 0 ==> x in first;
      assert b[x] > 0 ==> x in second;
    }
  }

  /** x is a pin of a net of node y that has left the cut. */
  ghost predicate OnNetThatLeftCut(h: Hypergraph, part: Partition, part': Partition, y: nat, x: nat) {
    && y < |h.nodes|
    && exists e ::
         && e in h.nodes[y].nets && HasNet(h, e) && x in h.nets[e].pins
         && IsCut(h.nets[e], part) && !IsCut(h.nets[e], part')
  }

  predicate LeavesCut(n: Net, part: Partition, part': Partition) {
    IsCut(n, part) && !IsCut(n, part')
  }

  /** What a net adds to the nodes found: it includes all pins whose counters turned from
      positive to zero, and only pins of nets of node x that have left the cut. */
  lemma FoundOnNet(h: Hypergraph, part: Partition, part': Partition, x: nat, e: nat, slots: seq<nat>,
                   before: seq<int>, after: seq<int>, internal: seq<nat>)
    requires x < |h.nodes| && e in h.nodes[x].nets && HasNet(h, e) && Elements(slots) == h.nets[e].pins
    requires Shifted(before, after, h.nets[e].pins, CutChange(h.nets[e], part, part'))
    requires internal == if LeavesCut(h.nets[e], part, part') then WithZero(slots, after) else []
    ensures InternalListed(before, after, internal)
    ensures forall y {:trigger OnNetThatLeftCut(h, part, part', x, y)} | y in internal ::
              y < |after| && OnNetThatLeftCut(h, part, part', x, y)
  {
    forall y: nat ensures y in WithZero(slots, after) <==> y in h.nets[e].pins && y < |after| && after[y] == 0 {
      WithZeroOf(slots, after, y);
      assert y in Elements(slots) <==> y in slots;
    }
    forall y: nat | y < |after| && 0 < before[y] && after[y] <= 0 ensures y in internal {
      assert after[y] == before[y] + if y in h.nets[e].pins then CutChange(h.nets[e], part, part') else 0;
    }
  }

  /** The border counters while the nets in pending are still to be dealt with. */
  ghost function BordersWhile(h: Hypergraph, part: Partition, part': Partition, pending: set<nat>,
                              off: seq<int>): (borders: seq<int>)
    requires |off| == |h.nodes|
    ensures |borders| == |h.nodes|
  {
    seq(|h.nodes|, x requires 0 <= x < |h.nodes| => BorderDuring(h, part, part', pending, x) + off[x])
  }

  lemma BordersAre(h: Hypergraph, part: Partition, part': Partition, pending: set<nat>, borders: seq<int>,
                   off: seq<int>)
    requires |off| == |borders| == |h.nodes| && BordersDuring(h, part, part', pending, Less(borders, off))
    ensures borders == BordersWhile(h, part, part', pending, off)
  {
    forall x | 0 <= x < |h.nodes| ensures borders[x] == BorderDuring(h, part, part', pending, x) + off[x] {
      assert Less(borders, off)[x] == borders[x] - off[x];
    }
  }

  /** The pins whose counters are zero, in order. */
  function WithZero(pins: seq<nat>, borders: seq<int>): seq<nat> {
    if pins == [] then []
    else
      var pin := pins[|pins| - 1];
      WithZero(pins[..|pins| - 1], borders) + if pin < |borders| && borders[pin] == 0 then [pin] else []
  }

  lemma {:induction false} WithZeroOf(pins: seq<nat>, borders: seq<int>, x: nat)
    ensures x in WithZero(pins, borders) <==> x in pins && x < |borders| && borders[x] == 0
  {
    if pins != [] {
      WithZeroOf(pins[..|pins| - 1], borders, x);
      assert pins == pins[..|pins| - 1] + [pins[|pins| - 1]];
    }
  }

  /** Only the counters of the pins matter. */
  lemma {:induction false} WithZeroSame(pins: seq<nat>, borders: seq<int>, borders': seq<int>)
    requires |borders| == |borders'|
    requires forall x {:trigger borders'[x]} | 0 <= x < |borders| && x in pins :: borders'[x] == borders[x]
    ensures WithZero(pins, borders') == WithZero(pins, borders)
  {
    if pins != [] {
      var rest, pin := pins[..|pins| - 1], pins[|pins| - 1];
      assert pins == rest + [pin];
      WithZeroSame(rest, borders, borders');
      assert pin < |borders| ==> borders'[pin] == borders[pin];
    }
  }

  lemma WithZeroNext(pins: seq<nat>, pin: nat, borders: seq<int>, d: int)
    requires pin !in pins && pin < |borders|
    ensures var borders' := borders[pin := borders[pin] + d];
            WithZero(pins + [pin], borders') == WithZero(pins, borders) + if borders'[pin] == 0 then [pin] else []
  {
    assert (pins + [pin])[..|pins|] == pins;
    WithZeroSame(pins, borders, borders[pin := borders[pin] + d]);
  }

  /** The nodes found to be internal while the first a of nets are dealt with: at each net that
      leaves the cut those of its pins that are on no cut net then. */
  ghost function BecameInternal(h: Hypergraph, slots: seq<seq<nat>>, part: Partition, part': Partition,
                                nets: seq<nat>, off: seq<int>, a: nat): seq<nat>
    requires |off| == |h.nodes| && |slots| == |h.nets| && a <= |nets|
    requires forall i {:trigger nets[i]} | 0 <= i < |nets| :: nets[i] < |h.nets|
  {
    if a == 0 then []
    else
      BecameInternal(h, slots, part, part', nets, off, a - 1)
      + if LeavesCut(h.nets[nets[a - 1]], part, part')
        then WithZero(slots[nets[a - 1]], BordersWhile(h, part, part', Elements(nets[a..]), off)) else []
  }

  /** Where a node has been found. */
  lemma {:induction false} FoundAt(h: Hypergraph, slots: seq<seq<nat>>, part: Partition, part': Partition,
                                   nets: seq<nat>, off: seq<int>, a: nat, y: nat) returns (i: nat)
    requires |off| == |h.nodes| && |slots| == |h.nets| && a <= |nets|
    requires forall i {:trigger nets[i]} | 0 <= i < |nets| :: nets[i] < |h.nets|
    requires y in BecameInternal(h, slots, part, part', nets, off, a)
    ensures i < a && LeavesCut(h.nets[nets[i]], part, part') && y in slots[nets[i]] && y < |h.nodes|
    ensures BorderDuring(h, part, part', Elements(nets[i + 1..]), y) + off[y] == 0
  {
    if y in BecameInternal(h, slots, part, part', nets, off, a - 1) {
      i := FoundAt(h, slots, part, part', nets, off, a - 1, y);
    } else {
      i := a - 1;
      WithZeroOf(slots[nets[i]], BordersWhile(h, part, part', Elements(nets[a..]), off), y);
    }
  }

  /** With exact counters, a node that has been found to be internal is only on cut nets that
      have entered the cut by the move. */
  lemma FoundIsInternal(h: Hypergraph, slots: seq<seq<nat>>, part: Partition, part': Partition, nets: seq<nat>,
                        off: seq<int>, y: nat, e: nat)
    requires |off| == |h.nodes| && |slots| == |h.nets| && forall x {:trigger off[x]} | 0 <= x < |off| :: off[x] == 0
    requires forall i {:trigger nets[i]} | 0 <= i < |nets| :: nets[i] < |h.nets|
    requires y in BecameInternal(h, slots, part, part', nets, off, |nets|)
    requires HasNode(h, y) && e in h.nodes[y].nets && e < |h.nets| && IsCut(h.nets[e], part')
    ensures e in nets && !IsCut(h.nets[e], part)
  {
    var i := FoundAt(h, slots, part, part', nets, off, |nets|, y);
    var pending := Elements(nets[i + 1..]);
    assert |h.nodes[y].nets * CutSetDuring(h, part, part', pending)| == 0;
    assert e !in h.nodes[y].nets * CutSetDuring(h, part, part', pending);
    assert e in nets[i + 1..];
  }

  /** The partition in which nothing is cut, because no node has a block. */
  function Unassigned(n: nat): Partition {
    seq(n, _ => INVALID_PARTITION)
  }

  lemma NothingCut(n: Net, size: nat)
    ensures !IsCut(n, Unassigned(size))
  {
    assert Blocks(n.pins, Unassigned(size)) <= {INVALID_PARTITION};
    SubsetSize(Blocks(n.pins, Unassigned(size)), {INVALID_PARTITION});
  }

  /** The enabled nets from number i on. */
  function NetsFrom(h: Hypergraph, i: nat): set<nat> {
    set e: nat | i <= e < |h.nets| && HasNet(h, e)
  }

  lemma CountingBegins(h: Hypergraph, part: Partition, borders: seq<int>)
    requires Valid(h)
    requires |borders| == |h.nodes| && forall x {:trigger borders[x]} | 0 <= x < |borders| :: borders[x] == 0
    ensures BordersDuring(h, Unassigned(|part|), part, NetsFrom(h, 0), borders)
  {
    forall x | 0 <= x < |h.nodes|
      ensures borders[x] == BorderDuring(h, Unassigned(|part|), part, NetsFrom(h, 0), x)
    {
      forall e: nat | HasNet(h, e) ensures e !in CutSetDuring(h, Unassigned(|part|), part, NetsFrom(h, 0)) {
        NothingCut(h.nets[e], |part|);
      }
      assert h.nodes[x].enabled ==> h.nodes[x].nets * CutSetDuring(h, Unassigned(|part|), part, NetsFrom(h, 0)) == {};
    }
  }

  // ------------------------------------------------------------- block weights

  /** Weight and size of every block are those of the definition. */
  ghost predicate InfoExact(h: Hypergraph, part: Partition, info: seq<PartInfo>) {
    forall b {:trigger info[b]} | 0 <= b < |info| ::
      info[b].weight == BlockWeight(h, part, b) && info[b].size == BlockSize(h, part, b)
  }

  function Joining(info: seq<PartInfo>, b: int, weight: int): (info': seq<PartInfo>)
    ensures |info'| == |info|
  {
    if 0 <= b < |info| then info[b := PartInfo(info[b].weight + weight, info[b].size + 1)] else info
  }

  function Leaving(info: seq<PartInfo>, b: int, weight: int): (info': seq<PartInfo>)
    ensures |info'| == |info|
  {
    if 0 <= b < |info| then info[b := PartInfo(info[b].weight - weight, info[b].size - 1)] else info
  }

  lemma BlockAfterMove(h: Hypergraph, part: Partition, x: nat, to: int, b: int)
    requires HasNode(h, x) && x < |part|
    ensures var w := h.nodes[x].weight;
            && BlockWeight(h, part[x := to], b)
            == BlockWeight(h, part, b) - (if part[x] == b then w else 0) + (if to == b then w else 0)
            && BlockSize(h, part[x := to], b)
            == BlockSize(h, part, b) - (if part[x] == b then 1 else 0) + (if to == b then 1 else 0)
  {
    var part' := part[x := to];
    var ws := seq(|h.nodes|, v requires 0 <= v < |h.nodes| => WeightIn(h, part, b, v));
    SumUpdate(ws, x, WeightIn(h, part', b, x));
    assert seq(|h.nodes|, v requires 0 <= v < |h.nodes| => WeightIn(h, part', b, v))
        == ws[x := WeightIn(h, part', b, x)];
    var ones := seq(|h.nodes|, v requires 0 <= v < |h.nodes| =>
                      if h.nodes[v].enabled && BlockOf(part, v) == b then 1 else 0);
    SumUpdate(ones, x, if to == b then 1 else 0);
    assert seq(|h.nodes|, v requires 0 <= v < |h.nodes| =>
                 if h.nodes[v].enabled && BlockOf(part', v) == b then 1 else 0)
        == ones[x := if to == b then 1 else 0];
  }

  /** A move between blocks keeps weights and sizes exact. */
  lemma InfoMoved(h: Hypergraph, part: Partition, info: seq<PartInfo>, x: nat, to: nat)
    requires InfoExact(h, part, info) && HasNode(h, x) && x < |part| && 0 <= part[x] < |info| && part[x] != to
    ensures InfoExact(h, part[x := to], Joining(Leaving(info, part[x], h.nodes[x].weight), to, h.nodes[x].weight))
  {
    var info' := Joining(Leaving(info, part[x], h.nodes[x].weight), to, h.nodes[x].weight);
    forall b | 0 <= b < |info'|
      ensures info'[b].weight == BlockWeight(h, part[x := to], b) && info'[b].size == BlockSize(h, part[x := to], b)
    {
      BlockAfterMove(h, part, x, to, b);
      assert info[b].weight == BlockWeight(h, part, b);
    }
  }

  /** So does placing an unassigned node. */
  lemma InfoPlaced(h: Hypergraph, part: Partition, info: seq<PartInfo>, x: nat, to: nat)
    requires InfoExact(h, part, info) && HasNode(h, x) && x < |part| && part[x] == INVALID_PARTITION
    ensures InfoExact(h, part[x := to], Joining(info, to, h.nodes[x].weight))
  {
    var info' := Joining(info, to, h.nodes[x].weight);
    forall b | 0 <= b < |info'|
      ensures info'[b].weight == BlockWeight(h, part[x := to], b) && info'[b].size == BlockSize(h, part[x := to], b)
    {
      BlockAfterMove(h, part, x, to, b);
      assert info[b].weight == BlockWeight(h, part, b);
    }
  }

  /** One node more in block b. */
  function OneMoreIn(info: seq<PartInfo>, b: int): (info': seq<PartInfo>)
    ensures |info'| == |info|
  {
    if 0 <= b < |info| then info[b := info[b].(size := info[b].size + 1)] else info
  }

  /** Uncontraction, which only raises the size of the representative's block, keeps
      weights and sizes exact. */
  lemma InfoUncontracted(h: Hypergraph, u: nat, v: nat, part: Partition, info: seq<PartInfo>)
    requires Valid(h) && HasNode(h, u) && HasNode(h, v) && u != v && |part| == |h.nodes|
    requires InfoExact(Contract(h, u, v), part, info)
    ensures InfoExact(h, part[v := part[u]], OneMoreIn(info, part[u]))
  {
    var info' := OneMoreIn(info, part[u]);
    forall b | 0 <= b < |info'|
      ensures info'[b].weight == BlockWeight(h, part[v := part[u]], b)
              && info'[b].size == BlockSize(h, part[v := part[u]], b)
    {
      assert info[b].weight == BlockWeight(Contract(h, u, v), part, b);
      BlockWeightProjected(h, u, v, part, b);
      BlockSizeProjected(h, u, v, part, b);
    }
  }

  // ----------------------------------------------- removed nets and their return

  /** The state in the middle of removing net e: the pins in done do not list it any more. */
  function PartlyRemoved(h: Hypergraph, e: nat, done: set<nat>): (nodes: seq<Node>)
    ensures |nodes| == |h.nodes|
  {
    seq(|h.nodes|, p requires 0 <= p < |h.nodes| =>
      if p in done then h.nodes[p].(nets := h.nodes[p].nets - {e}) else h.nodes[p])
  }

  /** The state in the middle of restoring net e: the pins in done list it again. */
  function PartlyRestored(h: Hypergraph, e: nat, done: set<nat>): (nodes: seq<Node>)
    ensures |nodes| == |h.nodes|
  {
    seq(|h.nodes|, p requires 0 <= p < |h.nodes| =>
      if p in done then h.nodes[p].(nets := h.nodes[p].nets + {e}) else h.nodes[p])
  }

  lemma RestoredCutNets(h: Hypergraph, e: nat, part: Partition, x: nat)
    requires e < |h.nets| && x < |h.nodes| && e !in h.nodes[x].nets
    ensures BorderCount(RestoreEdge(h, e), part, x)
         == BorderCount(h, part, x) + if x in h.nets[e].pins && IsCut(h.nets[e], part) then 1 else 0
  {
    var before, after := CutNets(h, part, x), CutNets(RestoreEdge(h, e), part, x);
    var counts := x in h.nets[e].pins && IsCut(h.nets[e], part);
    forall d ensures d in after <==> d in before || (d == e && counts) {
      assert d in after ==> d < |h.nets| && RestoreEdge(h, e).nets[d].pins == h.nets[d].pins;
    }
    assert after == if counts then before + {e} else before;
  }

  /** Net e can come back: its pins are enabled, and nobody lists it. */
  ghost predicate Restorable(h: Hypergraph, e: nat) {
    && e < |h.nets| && !h.nets[e].enabled
    && (forall p | p in h.nets[e].pins :: HasNode(h, p))
    && (forall p {:trigger h.nodes[p]} | 0 <= p < |h.nodes| && h.nodes[p].enabled :: e !in h.nodes[p].nets)
  }

  lemma BordersRestored(h: Hypergraph, e: nat, part: Partition, before: seq<int>, after: seq<int>)
    requires Restorable(h, e) && BordersMatch(h, part, before)
    requires Shifted(before, after, h.nets[e].pins, if IsCut(h.nets[e], part) then 1 else 0)
    ensures BordersMatch(RestoreEdge(h, e), part, after)
  {
    forall x | 0 <= x < |h.nodes| ensures after[x] == BorderOf(RestoreEdge(h, e), part, x) {
      assert before[x] == BorderOf(h, part, x);
      if h.nodes[x].enabled {
        RestoredCutNets(h, e, part, x);
      }
    }
  }

  /** What removal leaves can be restored. */
  lemma RemovedIsRestorable(h: Hypergraph, e: nat)
    requires Valid(h) && HasNet(h, e)
    ensures Restorable(RemoveEdge(h, e), e)
  {
    var r := RemoveEdge(h, e);
    forall p | 0 <= p < |r.nodes| && r.nodes[p].enabled ensures e !in r.nodes[p].nets {
      assert e in h.nodes[p].nets ==> p in h.nets[e].pins;
    }
  }

  /** A net that is counted at its pins exactly if it is cut leaves the counters as exact as they were. */
  lemma ErrorsRestored(h: Hypergraph, e: nat, part: Partition, before: seq<int>, after: seq<int>, d: int)
    requires Restorable(h, e) && |before| == |h.nodes| && Shifted(before, after, h.nets[e].pins, d)
    ensures d == (if IsCut(h.nets[e], part) then 1 else 0) ==>
              BorderErrors(RestoreEdge(h, e), part, after) == BorderErrors(h, part, before)
  {
    if d == if IsCut(h.nets[e], part) then 1 else 0 {
      var off := BorderErrors(h, part, before);
      OffByErrors(h, part, before, off);
      ShiftedLess(before, after, off, h.nets[e].pins, d);
      BordersRestored(h, e, part, Less(before, off), Less(after, off));
      OffByErrors(RestoreEdge(h, e), part, after, off);
    }
  }

  /** Restoring a net as it is leaves the border counters exact if and only if the net is
      not cut: on its own account only a net that single-pin removal took out comes back. */
  lemma BordersSurviveRestorationIff(h: Hypergraph, e: nat, part: Partition, borders: seq<int>)
    requires Restorable(h, e) && h.nets[e].pins != {} && BordersMatch(h, part, borders)
    ensures BordersMatch(RestoreEdge(h, e), part, borders) <==> !IsCut(h.nets[e], part)
  {
    if IsCut(h.nets[e], part) {
      var p :| p in h.nets[e].pins;
      assert HasNode(h, p) && borders[p] == BorderOf(h, part, p);
      RestoredCutNets(h, e, part, p);
      assert BorderOf(RestoreEdge(h, e), part, p) == borders[p] + 1;
    } else {
      BordersRestored(h, e, part, borders, borders);
    }
  }

  /** Two nodes in different blocks, and a net of both that has been removed: restored as it
      is, it makes both border counters wrong. */
  lemma CutNetMissed()
    ensures var h, part, borders :=
              Hypergraph([Node({}, 1, true), Node({}, 1, true)], [Net({0, 1}, [], 1, false)]), [0, 1], [0, 0];
            && Valid(h) && Restorable(h, 0) && BordersMatch(h, part, borders)
            && BorderOf(RestoreEdge(h, 0), part, 0) == 1 && BorderOf(RestoreEdge(h, 0), part, 1) == 1
            && !BordersMatch(RestoreEdge(h, 0), part, borders)
  {
    var h, part := Hypergraph([Node({}, 1, true), Node({}, 1, true)], [Net({0, 1}, [], 1, false)]), [0, 1];
    assert BlockOf(part, 0) in Blocks({0, 1}, part) && BlockOf(part, 1) in Blocks({0, 1}, part);
    BoundedBelow(Blocks({0, 1}, part), 0, 1);
    forall x: nat | x < 2 ensures BorderOf(h, part, x) == 0 && BorderOf(RestoreEdge(h, 0), part, x) == 1 {
      assert CutNets(h, part, x) == {};
      RestoredCutNets(h, 0, part, x);
    }
    assert BorderOf(RestoreEdge(h, 0), part, 0) == 1;
  }

  /** What the border counters are off by once net n has been restored without being counted. */
  function Missed(off: seq<int>, n: Net, part: Partition): (off': seq<int>)
    ensures |off'| == |off|
  {
    seq(|off|, x requires 0 <= x < |off| => off[x] - if x in n.pins && IsCut(n, part) then 1 else 0)
  }

  lemma BordersMissed(h: Hypergraph, e: nat, part: Partition, borders: seq<int>, off: seq<int>)
    requires Restorable(h, e) && BordersOff(h, part, borders, off)
    ensures BordersOff(RestoreEdge(h, e), part, borders, Missed(off, h.nets[e], part))
  {
    BordersRestored(h, e, part, Less(borders, off), Less(borders, Missed(off, h.nets[e], part)));
  }

  lemma RestoredIsValid(h: Hypergraph, e: nat)
    requires Valid(h) && Restorable(h, e)
    ensures Valid(RestoreEdge(h, e))
  {
    var r := RestoreEdge(h, e);
    forall d, p | 0 <= d < |r.nets| && r.nets[d].enabled && p in r.nets[d].pins
      ensures HasNode(r, p) && d in r.nodes[p].nets
    {
      assert p in h.nets[d].pins;
    }
    forall v, d | 0 <= v < |r.nodes| && r.nodes[v].enabled && d in r.nodes[v].nets
      ensures HasNet(r, d) && v in r.nets[d].pins
    {
      assert d != e ==> d in h.nodes[v].nets;
    }
    forall d, x | 0 <= d < |r.nets| && x in r.nets[d].cutOff ensures x < |r.nodes| && !r.nodes[x].enabled {
      assert x in h.nets[d].cutOff;
    }
  }
}
