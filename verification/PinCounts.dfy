/** The pin counts of a net per block, the number of blocks it connects, and the set of
    those blocks, all maintained incrementally. */
module PinCounts {
  import opened Sums
  import opened NLevel
  import opened Partitions
  import opened Layout

  /** The partition-related data of one net. */
  datatype Row = Row(counts: seq<int>, connectivity: int, blocks: seq<int>)

  /** The net connects exactly the blocks in which it has a positive number of pins. */
  ghost predicate Consistent(r: Row, k: nat) {
    && |r.counts| == k
    && r.connectivity == |r.blocks|
    && NoDuplicates(r.blocks)
    && (forall b {:trigger r.counts[b]} | 0 <= b < k :: 0 <= r.counts[b] && (0 < r.counts[b] ==> b in r.blocks))
    && (forall b | b in r.blocks :: 0 <= b < k && 0 < r.counts[b])
  }

  /** The pin count of a removed net in every block: the largest number of its type. */
  const INVALID_COUNT: int := 0xFFFF_FFFF

  /** What is left of the data of a net that has been removed. */
  ghost predicate Cleared(r: Row, k: nat) {
    |r.counts| == k && r.connectivity == 0 && r.blocks == []
  }

  ghost predicate CountsPins(r: Row, pins: set<nat>, part: Partition) {
    forall b {:trigger r.counts[b]} | 0 <= b < |r.counts| :: r.counts[b] == PinCount(pins, part, b)
  }

  /** The data agree with the pins of the net and their blocks. */
  ghost predicate Exact(r: Row, pins: set<nat>, part: Partition, k: nat) {
    Consistent(r, k) && CountsPins(r, pins, part)
  }

  /** The data of an enabled net are exact, those of a disabled one cleared. */
  ghost predicate RowFits(r: Row, n: Net, part: Partition, k: nat) {
    if n.enabled then Exact(r, n.pins, part, k) else Cleared(r, k)
  }

  /** The incremental connectivity and connectivity set are those of the definition, once
      every pin has a block. */
  lemma ExactConnectivity(r: Row, pins: set<nat>, part: Partition, k: nat)
    requires Exact(r, pins, part, k)
    requires forall p | p in pins :: 0 <= BlockOf(part, p) < k
    ensures Elements(r.blocks) == Blocks(pins, part)
    ensures r.connectivity == |Blocks(pins, part)|
  {
    forall b | b in Blocks(pins, part) ensures b in r.blocks {
      var p :| p in pins && BlockOf(part, p) == b;
      assert p in PinsIn(pins, part, b);
      assert 0 < r.counts[b];
    }
    forall b | b in r.blocks ensures b in Blocks(pins, part) {
      assert r.counts[b] == PinCount(pins, part, b);
      var p :| p in PinsIn(pins, part, b);
      assert BlockOf(part, p) == b;
    }
    DistinctSize(r.blocks);
  }

  /** How a connectivity set or a list of incident nets loses an element. */
  lemma SwapRemoved<T>(s: seq<T>, i: nat)
    requires i < |s| && NoDuplicates(s)
    ensures Elements(SwapRemove(s, i)) == Elements(s) - {s[i]}
    ensures NoDuplicates(SwapRemove(s, i))
  {
    var n := |s| - 1;
    var t := s[i := s[n]][n := s[i]];
    Swapped(s, i, n);
    DropLast(t);
  }

  /** What is left from position i on once the element there has been swapped out, or
      passed. */
  lemma RestAfter<T>(s: seq<T>, i: nat)
    requires i < |s| && NoDuplicates(s)
    ensures Elements(s[i + 1..]) == Elements(s[i..]) - {s[i]}
    ensures Elements(SwapRemove(s, i)[i..]) == Elements(s[i..]) - {s[i]}
    ensures s[i] in Elements(s[i..])
  {
    var n, t := |s| - 1, SwapRemove(s, i);
    assert s[i..][0] == s[i];
    forall x | x in Elements(s[i..]) - {s[i]} ensures x in s[i + 1..] && x in t[i..] {
      var a :| 0 <= a < |s[i..]| && s[i..][a] == x;
      assert s[i + 1..][a - 1] == x;
      assert t[i..][if a + i == n then 0 else a] == x;
    }
    forall x | x in Elements(s[i + 1..]) ensures x in Elements(s[i..]) - {s[i]} {
      var a :| 0 <= a < |s[i + 1..]| && s[i + 1..][a] == x;
      assert s[i..][a + 1] == x;
    }
    forall x | x in Elements(t[i..]) ensures x in Elements(s[i..]) - {s[i]} {
      var a :| 0 <= a < |t[i..]| && t[i..][a] == x;
      assert s[i..][if a == 0 then n - i else a] == x;
    }
  }

  method Find<T(==)>(s: seq<T>, x: T) returns (i: nat)
    requires x in s
    ensures i < |s| && s[i] == x
  {
    i := 0;
    while s[i] != x
      invariant i < |s| && x !in s[..i]
      decreases |s| - i
    {
      i := i + 1;
    }
  }

  /** One pin more in block id; tells whether the net has become connected to it. */
  method Increment(r: Row, id: nat, ghost k: nat) returns (r': Row, increased: bool)
    requires Consistent(r, k) && id < k
    ensures Consistent(r', k)
    ensures r'.counts == r.counts[id := r.counts[id] + 1]
    ensures increased <==> r'.counts[id] == 1
  {
    var counts := r.counts[id := r.counts[id] + 1];
    increased := counts[id] == 1;
    if increased {
      r' := Row(counts, r.connectivity + 1, r.blocks + [id]);
      Appended(r.blocks, id as int);
      assert r'.blocks[|r.blocks|] == id;
      forall b | b in r'.blocks ensures 0 <= b < k && 0 < counts[b] {
        assert b in Elements(r.blocks + [id]);
      }
      assert forall b | b in r.blocks :: b in r'.blocks;
    } else {
      r' := Row(counts, r.connectivity, r.blocks);
    }
  }

  /** One pin less in block id; tells whether the net has lost its last pin there. */
  method Decrement(r: Row, id: nat, ghost k: nat) returns (r': Row, decreased: bool)
    requires Consistent(r, k) && id < k && 0 < r.counts[id]
    ensures Consistent(r', k)
    ensures r'.counts == r.counts[id := r.counts[id] - 1]
    ensures decreased <==> r'.counts[id] == 0
  {
    var counts := r.counts[id := r.counts[id] - 1];
    decreased := counts[id] == 0;
    if decreased {
      var i := Find(r.blocks, id as int);
      SwapRemoved(r.blocks, i);
      r' := Row(counts, r.connectivity - 1, SwapRemove(r.blocks, i));
      forall b | 0 <= b < k ensures 0 <= counts[b] && (0 < counts[b] ==> b in r'.blocks) {
        assert b != id && 0 < counts[b] ==> b in Elements(r.blocks) - {id as int};
      }
      forall b | b in r'.blocks ensures 0 <= b < k && 0 < counts[b] {
        assert b in Elements(r'.blocks);
      }
    } else {
      r' := Row(counts, r.connectivity, r.blocks);
    }
  }

  // ------------------------------------------------ counts of changing pin sets

  lemma CountsOfMore(pins: set<nat>, part: Partition, p: nat, b: int)
    requires p !in pins
    ensures PinCount(pins + {p}, part, b) == PinCount(pins, part, b) + if BlockOf(part, p) == b then 1 else 0
  {
    if BlockOf(part, p) == b {
      assert PinsIn(pins + {p}, part, b) == PinsIn(pins, part, b) + {p};
    } else {
      assert PinsIn(pins + {p}, part, b) == PinsIn(pins, part, b);
    }
  }

  /** A new pin in block id. */
  lemma PinAdded(r: Row, r': Row, pins: set<nat>, part: Partition, p: nat, id: nat)
    requires CountsPins(r, pins, part) && p !in pins && BlockOf(part, p) == id && id < |r.counts|
    requires r'.counts == r.counts[id := r.counts[id] + 1]
    ensures CountsPins(r', pins + {p}, part)
  {
    forall b | 0 <= b < |r'.counts| ensures r'.counts[b] == PinCount(pins + {p}, part, b) {
      CountsOfMore(pins, part, p, b);
      assert r.counts[b] == PinCount(pins, part, b);
    }
  }

  /** A pin of block id less. */
  lemma PinRemoved(r: Row, r': Row, pins: set<nat>, part: Partition, p: nat, id: nat)
    requires CountsPins(r, pins, part) && p in pins && BlockOf(part, p) == id && id < |r.counts|
    requires r'.counts == r.counts[id := r.counts[id] - 1]
    ensures CountsPins(r', pins - {p}, part)
  {
    assert pins == (pins - {p}) + {p};
    forall b | 0 <= b < |r'.counts| ensures r'.counts[b] == PinCount(pins - {p}, part, b) {
      CountsOfMore(pins - {p}, part, p, b);
      assert r.counts[b] == PinCount(pins, part, b);
    }
  }

  /** One pin replaced by another of the same block, or by another without a block. */
  lemma PinReplaced(r: Row, pins: set<nat>, part: Partition, p: nat, q: nat)
    requires CountsPins(r, pins, part) && p in pins && q !in pins && BlockOf(part, p) == BlockOf(part, q)
    ensures CountsPins(r, pins - {p} + {q}, part)
  {
    assert pins == (pins - {p}) + {p};
    forall b | 0 <= b < |r.counts| ensures r.counts[b] == PinCount(pins - {p} + {q}, part, b) {
      CountsOfMore(pins - {p}, part, p, b);
      CountsOfMore(pins - {p}, part, q, b);
      assert r.counts[b] == PinCount(pins, part, b);
    }
  }

  /** A pin that has no block does not count. */
  lemma UnassignedPinRemoved(r: Row, pins: set<nat>, part: Partition, p: nat)
    requires CountsPins(r, pins, part) && p in pins && BlockOf(part, p) == INVALID_PARTITION
    ensures CountsPins(r, pins - {p}, part)
  {
    assert pins == (pins - {p}) + {p};
    forall b | 0 <= b < |r.counts| ensures r.counts[b] == PinCount(pins - {p}, part, b) {
      CountsOfMore(pins - {p}, part, p, b);
      assert r.counts[b] == PinCount(pins, part, b);
    }
  }

  lemma UnassignedPinAdded(r: Row, pins: set<nat>, part: Partition, p: nat)
    requires CountsPins(r, pins, part) && p !in pins && BlockOf(part, p) == INVALID_PARTITION
    ensures CountsPins(r, pins + {p}, part)
  {
    forall b | 0 <= b < |r.counts| ensures r.counts[b] == PinCount(pins + {p}, part, b) {
      CountsOfMore(pins, part, p, b);
      assert r.counts[b] == PinCount(pins, part, b);
    }
  }

  /** Zero counts are exact for a net of which no pin has been counted yet. */
  lemma NoPinsExact(r: Row, part: Partition, k: nat)
    requires |r.counts| == k && r.connectivity == 0 && r.blocks == []
    requires forall b | 0 <= b < k :: r.counts[b] == 0
    ensures Exact(r, {}, part, k)
  {
    forall b | 0 <= b < k ensures r.counts[b] == PinCount({}, part, b) {
      assert PinsIn({}, part, b) == {};
    }
  }

  /** Every node has one of the k blocks or none. */
  ghost predicate BlocksInRange(part: Partition, k: nat) {
    forall x {:trigger part[x]} | 0 <= x < |part| :: INVALID_PARTITION <= part[x] < k
  }

  lemma OtherPinAssigned(r: Row, pins: set<nat>, part: Partition, p: nat, b: int)
    requires CountsPins(r, pins, part) && p !in pins && p < |part|
    ensures CountsPins(r, pins, part[p := b])
  {
    forall c | 0 <= c < |r.counts| ensures r.counts[c] == PinCount(pins, part[p := b], c) {
      assert r.counts[c] == PinCount(pins, part, c);
      assert PinsIn(pins, part[p := b], c) == PinsIn(pins, part, c);
    }
  }

  /** Every pin has one of the k blocks. */
  ghost predicate Assigned(pins: set<nat>, part: Partition, k: nat) {
    forall p | p in pins :: 0 <= BlockOf(part, p) < k
  }

  /** A net is found to be cut by the incremental connectivity exactly when it is. */
  lemma CutIsDetected(r: Row, n: Net, part: Partition, k: nat)
    requires Exact(r, n.pins, part, k) && Assigned(n.pins, part, k)
    ensures r.connectivity == Connectivity(n, part)
  {
    ExactConnectivity(r, n.pins, part, k);
  }

  /** u and v being in the same block, a net connects the same blocks with either or both. */
  lemma TwinPins(pins: set<nat>, part: Partition, u: nat, v: nat)
    requires u in pins && BlockOf(part, u) == BlockOf(part, v)
    ensures Blocks(pins + {v}, part) == Blocks(pins, part)
    ensures Blocks(pins - {u} + {v}, part) == Blocks(pins, part)
  {
    forall b | b in Blocks(pins, part) ensures b in Blocks(pins - {u} + {v}, part) && b in Blocks(pins + {v}, part) {
      var p :| p in pins && BlockOf(part, p) == b;
      assert (if p == u then v else p) in pins - {u} + {v};
    }
    forall b | b in Blocks(pins + {v}, part) ensures b in Blocks(pins, part) {
      var p :| p in pins + {v} && BlockOf(part, p) == b;
      assert (if p == v then u else p) in pins;
    }
    forall b | b in Blocks(pins - {u} + {v}, part) ensures b in Blocks(pins, part) {
      var p :| p in pins - {u} + {v} && BlockOf(part, p) == b;
      assert (if p == v then u else p) in pins;
    }
  }
}
