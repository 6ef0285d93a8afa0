/** How nets and nodes are laid out in memory: the pins of all nets share one array, in
    which each net owns the slots up to the first slot of its successor, and a sentinel
    net follows the last. The slots past the end of a net hold what contraction has cut
    off it. This module relates the layout to the n-level hypergraph as a value. */
module Layout {
  import opened Sums
  import opened NLevel

  datatype Hypernode = Hypernode(incidentNets: seq<nat>, weight: int, valid: bool, partId: int, numIncidentCutHes: int)

  datatype Hyperedge = Hyperedge(begin: nat, size: nat, weight: int, valid: bool)
  {
    function FirstInvalidEntry(): nat { begin + size }
  }

  ghost predicate NoDuplicates<T>(s: seq<T>) {
    forall i, j | 0 <= i < j < |s| :: s[i] != s[j]
  }

  /** Nets own consecutive stretches of the array; the last entry is the sentinel. */
  ghost predicate WellLaid(hyperedges: seq<Hyperedge>, inc: seq<nat>) {
    && hyperedges != []
    && (forall i, j {:trigger hyperedges[i], hyperedges[j]} | 0 <= i < j < |hyperedges| ::
          hyperedges[i].FirstInvalidEntry() <= hyperedges[j].begin)
    && (forall i | 0 <= i < |hyperedges| :: hyperedges[i].FirstInvalidEntry() <= |inc|)
  }

  function PinSlots(he: Hyperedge, inc: seq<nat>): seq<nat>
    requires he.FirstInvalidEntry() <= |inc|
  {
    inc[he.begin..he.FirstInvalidEntry()]
  }

  /** The pins of all nets in the order of their slots. */
  ghost function SlotsOf(hyperedges: seq<Hyperedge>, inc: seq<nat>): (slots: seq<seq<nat>>)
    requires WellLaid(hyperedges, inc)
    ensures |slots| == |hyperedges| - 1
    ensures forall e {:trigger slots[e]} | 0 <= e < |slots| :: slots[e] == PinSlots(hyperedges[e], inc)
  {
    seq(|hyperedges| - 1, e requires 0 <= e < |hyperedges| - 1 => PinSlots(hyperedges[e], inc))
  }

  ghost function NetAt(hyperedges: seq<Hyperedge>, inc: seq<nat>, e: nat): Net
    requires WellLaid(hyperedges, inc) && e + 1 < |hyperedges|
  {
    var he := hyperedges[e];
    Net(Elements(PinSlots(he, inc)), inc[he.FirstInvalidEntry()..hyperedges[e + 1].begin], he.weight, he.valid)
  }

  ghost function NetsOf(hyperedges: seq<Hyperedge>, inc: seq<nat>): (nets: seq<Net>)
    requires WellLaid(hyperedges, inc)
    ensures |nets| == |hyperedges| - 1
    ensures forall e {:trigger nets[e]} | 0 <= e < |nets| :: nets[e] == NetAt(hyperedges, inc, e)
  {
    seq(|hyperedges| - 1, e requires 0 <= e < |hyperedges| - 1 => NetAt(hyperedges, inc, e))
  }

  ghost function NodeAt(hn: Hypernode): Node {
    Node(Elements(hn.incidentNets), hn.weight, hn.valid)
  }

  ghost function NodesOf(hypernodes: seq<Hypernode>): (nodes: seq<Node>)
    ensures |nodes| == |hypernodes|
    ensures forall v {:trigger nodes[v]} | 0 <= v < |nodes| :: nodes[v] == NodeAt(hypernodes[v])
  {
    seq(|hypernodes|, v requires 0 <= v < |hypernodes| => NodeAt(hypernodes[v]))
  }

  function BlocksOf(hypernodes: seq<Hypernode>): seq<int> {
    seq(|hypernodes|, v requires 0 <= v < |hypernodes| => hypernodes[v].partId)
  }

  function BordersOf(hypernodes: seq<Hypernode>): seq<int> {
    seq(|hypernodes|, v requires 0 <= v < |hypernodes| => hypernodes[v].numIncidentCutHes)
  }

  ghost predicate DistinctPins(hyperedges: seq<Hyperedge>, inc: seq<nat>)
    requires WellLaid(hyperedges, inc)
  {
    forall e {:trigger PinSlots(hyperedges[e], inc)} | 0 <= e < |hyperedges| - 1 ::
      NoDuplicates(PinSlots(hyperedges[e], inc))
  }

  ghost predicate DistinctNets(hypernodes: seq<Hypernode>) {
    forall v {:trigger hypernodes[v].incidentNets} | 0 <= v < |hypernodes| :: NoDuplicates(hypernodes[v].incidentNets)
  }

  /** Listing net e at node u. */
  lemma NetListed(hypernodes: seq<Hypernode>, u: nat, e: nat)
    requires u < |hypernodes|
    ensures var nodes := NodesOf(hypernodes);
            NodesOf(hypernodes[u := hypernodes[u].(incidentNets := hypernodes[u].incidentNets + [e])])
            == nodes[u := nodes[u].(nets := nodes[u].nets + {e})]
    ensures e in hypernodes[u].incidentNets ==> NodesOf(hypernodes)[u].nets == NodesOf(hypernodes)[u].nets + {e}
  {
    Appended(hypernodes[u].incidentNets, e);
  }

  /** Rearranging and resizing net e within its stretch concerns net e alone. */
  lemma OneNetChanged(hyperedges: seq<Hyperedge>, inc: seq<nat>, e: nat, he: Hyperedge, inc': seq<nat>)
    requires WellLaid(hyperedges, inc) && e + 1 < |hyperedges|
    requires he.begin == hyperedges[e].begin && he.FirstInvalidEntry() <= hyperedges[e + 1].begin
    requires |inc'| == |inc|
    requires forall i | 0 <= i < |inc| && !(hyperedges[e].begin <= i < hyperedges[e + 1].begin) :: inc'[i] == inc[i]
    ensures WellLaid(hyperedges[e := he], inc')
    ensures NetsOf(hyperedges[e := he], inc') == NetsOf(hyperedges, inc)[e := NetAt(hyperedges[e := he], inc', e)]
    ensures DistinctPins(hyperedges, inc) && NoDuplicates(PinSlots(he, inc')) ==>
              DistinctPins(hyperedges[e := he], inc')
  {
    var hs := hyperedges[e := he];
    assert WellLaid(hs, inc');
    forall d | 0 <= d < |hs| - 1 && d != e
      ensures NetAt(hs, inc', d) == NetAt(hyperedges, inc, d)
      ensures PinSlots(hs[d], inc') == PinSlots(hyperedges[d], inc)
    {
      var low, high := hyperedges[d].begin, hyperedges[d + 1].begin;
      assert hyperedges[d].FirstInvalidEntry() <= high;
      if d < e {
        assert d + 1 < e ==> hyperedges[d + 1].FirstInvalidEntry() <= hyperedges[e].begin;
      } else {
        assert e + 1 < d ==> hyperedges[e + 1].FirstInvalidEntry() <= hyperedges[d].begin;
      }
      assert forall i | low <= i < high :: inc'[i] == inc[i];
      assert inc'[low..hyperedges[d].FirstInvalidEntry()] == inc[low..hyperedges[d].FirstInvalidEntry()];
      assert inc'[hyperedges[d].FirstInvalidEntry()..high] == inc[hyperedges[d].FirstInvalidEntry()..high];
    }
    assert NetsOf(hs, inc') == NetsOf(hyperedges, inc)[e := NetAt(hs, inc', e)];
  }

  /** Swapping two elements keeps the set of elements and creates no duplicates. */
  lemma Swapped<T>(s: seq<T>, i: nat, j: nat)
    requires i < |s| && j < |s|
    ensures Elements(s[i := s[j]][j := s[i]]) == Elements(s)
    ensures NoDuplicates(s) ==> NoDuplicates(s[i := s[j]][j := s[i]])
  {
    var t := s[i := s[j]][j := s[i]];
    forall x | x in Elements(s) ensures x in t {
      var a :| 0 <= a < |s| && s[a] == x;
      assert t[if a == i then j else if a == j then i else a] == x;
    }
  }

  /** Dropping the last of several distinct elements removes just that element. */
  lemma DropLast<T>(s: seq<T>)
    requires s != [] && NoDuplicates(s)
    ensures Elements(s[..|s| - 1]) == Elements(s) - {s[|s| - 1]}
    ensures NoDuplicates(s[..|s| - 1])
  {
    var n := |s| - 1;
    forall x | x in Elements(s) - {s[n]} ensures x in s[..n] {
      var a :| 0 <= a < |s| && s[a] == x;
      assert s[..n][a] == x;
    }
    forall x | x in Elements(s[..n]) ensures x != s[n] {
      var a :| 0 <= a < n && s[..n][a] == x;
    }
  }

  lemma Appended<T>(s: seq<T>, x: T)
    ensures Elements(s + [x]) == Elements(s) + {x}
    ensures NoDuplicates(s) && x !in s ==> NoDuplicates(s + [x])
  {
    assert (s + [x])[|s|] == x;
    assert forall y | y in s :: y in s + [x];
  }

  /** Overwriting one of several distinct elements by a new one. */
  lemma Overwritten<T>(s: seq<T>, i: nat, x: T)
    requires i < |s| && NoDuplicates(s) && x !in s
    ensures Elements(s[i := x]) == Elements(s) - {s[i]} + {x}
    ensures NoDuplicates(s[i := x])
  {
    var t := s[i := x];
    assert t[i] == x;
    forall y | y in Elements(s) - {s[i]} ensures y in t {
      var a :| 0 <= a < |s| && s[a] == y;
      assert t[a] == y;
    }
    forall y | y in Elements(t) ensures y in Elements(s) - {s[i]} + {x} {
      var a :| 0 <= a < |t| && t[a] == y;
      assert a != i ==> s[a] == y;
    }
  }

  /** Rearranging the pins of a net within their slots changes no net. */
  lemma Rearranged(hyperedges: seq<Hyperedge>, inc: seq<nat>, inc': seq<nat>, e: nat)
    requires WellLaid(hyperedges, inc) && e + 1 < |hyperedges| && |inc'| == |inc|
    requires NoDuplicates(PinSlots(hyperedges[e], inc'))
    requires Elements(PinSlots(hyperedges[e], inc')) == Elements(PinSlots(hyperedges[e], inc))
    requires forall i | 0 <= i < |inc| && !(hyperedges[e].begin <= i < hyperedges[e].FirstInvalidEntry()) ::
               inc'[i] == inc[i]
    ensures WellLaid(hyperedges, inc') && NetsOf(hyperedges, inc') == NetsOf(hyperedges, inc)
    ensures DistinctPins(hyperedges, inc) ==> DistinctPins(hyperedges, inc')
  {
    var he := hyperedges[e];
    var end, next := he.FirstInvalidEntry(), hyperedges[e + 1].begin;
    assert inc'[end..next] == inc[end..next];
    assert hyperedges[e := he] == hyperedges;
    OneNetChanged(hyperedges, inc, e, he, inc');
    assert NetAt(hyperedges, inc', e) == NetAt(hyperedges, inc, e);
  }

  lemma Shortened(he: Hyperedge, inc: seq<nat>)
    requires he.FirstInvalidEntry() <= |inc| && 0 < he.size
    ensures PinSlots(he.(size := he.size - 1), inc) == PinSlots(he, inc)[..he.size - 1]
  {
    var shorter := he.(size := he.size - 1);
    assert shorter.FirstInvalidEntry() == he.begin + (he.size - 1);
    var begin, end := he.begin, shorter.FirstInvalidEntry();
    assert PinSlots(shorter, inc) == inc[begin..end];
    assert PinSlots(he, inc) == inc[begin..end + 1];
    PrefixOfSlice(inc, begin, end, end + 1);
  }

  lemma PrefixOfSlice<T>(s: seq<T>, begin: nat, end: nat, more: nat)
    requires begin <= end <= more <= |s|
    ensures s[begin..more][..end - begin] == s[begin..end]
  {
    forall i | 0 <= i < end - begin ensures s[begin..more][i] == s[begin..end][i] {}
  }

  lemma SlotWritten(he: Hyperedge, inc: seq<nat>, i: nat, u: nat)
    requires he.begin <= i < he.FirstInvalidEntry() <= |inc|
    ensures PinSlots(he, inc[i := u]) == PinSlots(he, inc)[i - he.begin := u]
  {}

  /** Cutting the last slot off a net. */
  lemma CutOff(hyperedges: seq<Hyperedge>, inc: seq<nat>, e: nat)
    requires WellLaid(hyperedges, inc) && DistinctPins(hyperedges, inc) && e + 1 < |hyperedges|
    requires 0 < hyperedges[e].size
    ensures var he := hyperedges[e].(size := hyperedges[e].size - 1);
            var n, v := NetsOf(hyperedges, inc)[e], inc[he.FirstInvalidEntry()];
            && WellLaid(hyperedges[e := he], inc)
            && DistinctPins(hyperedges[e := he], inc)
            && v in n.pins
            && NetsOf(hyperedges[e := he], inc) ==
               NetsOf(hyperedges, inc)[e := n.(pins := n.pins - {v}, cutOff := [v] + n.cutOff)]
  {
    var he := hyperedges[e];
    var s, end, next := PinSlots(he, inc), he.FirstInvalidEntry(), hyperedges[e + 1].begin;
    DropLast(s);
    assert s[|s| - 1] in s;
    var shorter := he.(size := he.size - 1);
    Shortened(he, inc);
    assert inc[end - 1..next] == [inc[end - 1]] + inc[end..next];
    OneNetChanged(hyperedges, inc, e, shorter, inc);
  }

  /** Writing a new pin over one of a net's slots. */
  lemma TakenOver(hyperedges: seq<Hyperedge>, inc: seq<nat>, e: nat, i: nat, u: nat)
    requires WellLaid(hyperedges, inc) && DistinctPins(hyperedges, inc) && e + 1 < |hyperedges|
    requires hyperedges[e].begin <= i < hyperedges[e].FirstInvalidEntry()
    requires u !in NetsOf(hyperedges, inc)[e].pins
    ensures var n := NetsOf(hyperedges, inc)[e];
            && WellLaid(hyperedges, inc[i := u])
            && DistinctPins(hyperedges, inc[i := u])
            && inc[i] in n.pins
            && NetsOf(hyperedges, inc[i := u]) == NetsOf(hyperedges, inc)[e := n.(pins := n.pins - {inc[i]} + {u})]
  {
    var he := hyperedges[e];
    var s, end, next := PinSlots(he, inc), he.FirstInvalidEntry(), hyperedges[e + 1].begin;
    assert u !in s && s[i - he.begin] == inc[i] && inc[i] in s;
    Overwritten(s, i - he.begin, u);
    SlotWritten(he, inc, i, u);
    assert inc[i := u][end..next] == inc[end..next];
    assert hyperedges[e := he] == hyperedges;
    OneNetChanged(hyperedges, inc, e, he, inc[i := u]);
  }

  /** Joining the slot past the end of a net to it again. */
  lemma JoinedAgain(hyperedges: seq<Hyperedge>, inc: seq<nat>, e: nat)
    requires WellLaid(hyperedges, inc) && DistinctPins(hyperedges, inc) && e + 1 < |hyperedges|
    requires hyperedges[e].FirstInvalidEntry() < hyperedges[e + 1].begin
    requires inc[hyperedges[e].FirstInvalidEntry()] !in NetsOf(hyperedges, inc)[e].pins
    ensures var he := hyperedges[e].(size := hyperedges[e].size + 1);
            var n, v := NetsOf(hyperedges, inc)[e], inc[hyperedges[e].FirstInvalidEntry()];
            && WellLaid(hyperedges[e := he], inc)
            && DistinctPins(hyperedges[e := he], inc)
            && n.cutOff != [] && n.cutOff[0] == v
            && NetsOf(hyperedges[e := he], inc) ==
               NetsOf(hyperedges, inc)[e := n.(pins := n.pins + {v}, cutOff := n.cutOff[1..])]
  {
    var he := hyperedges[e];
    var s, end, next := PinSlots(he, inc), he.FirstInvalidEntry(), hyperedges[e + 1].begin;
    assert inc[end] !in s;
    Appended(s, inc[end]);
    var longer := he.(size := he.size + 1);
    assert PinSlots(longer, inc) == s + [inc[end]];
    assert inc[end + 1..next] == inc[end..next][1..];
    OneNetChanged(hyperedges, inc, e, longer, inc);
  }
}
