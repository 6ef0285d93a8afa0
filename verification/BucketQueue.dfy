/** A priority queue of ids with bounded integer keys: one bucket of ids for every key. */
module BucketQueue {
  import opened Sums

  /** The address of no bucket: the least number of its type. */
  const INVALID_ADDRESS: int := -0x8000_0000

  datatype Place = Place(position: nat, key: int)

  /** Every id in a bucket of the index is in the queue and knows its place there, and every
      id in the queue is in the bucket of its key; other buckets may hold anything. */
  ghost predicate Consistent(keyRange: nat, index: set<nat>, repository: seq<Place>, contains: seq<bool>,
                             buckets: seq<seq<nat>>) {
    && |repository| == |contains|
    && (forall a {:trigger a in index} | a in index :: a < |buckets|)
    && (forall a, p {:trigger buckets[a][p]} | a in index && 0 <= p < |buckets[a]| ::
          buckets[a][p] < |contains| && contains[buckets[a][p]] && repository[buckets[a][p]] == Place(p, a - keyRange))
    && (forall id {:trigger contains[id]} | 0 <= id < |contains| && contains[id] ::
          && 0 <= repository[id].key + keyRange && repository[id].key + keyRange in index
          && repository[id].position < |buckets[repository[id].key + keyRange]|
          && buckets[repository[id].key + keyRange][repository[id].position] == id)
  }

  /** Buckets of the index hold something, apart from that at address x. */
  ghost predicate NoneEmptyBut(index: set<nat>, buckets: seq<seq<nat>>, x: int) {
    forall a {:trigger buckets[a]} | a in index && 0 <= a < |buckets| && a != x :: buckets[a] != []
  }

  lemma Opened(keyRange: nat, index: set<nat>, repository: seq<Place>, contains: seq<bool>, buckets: seq<seq<nat>>,
               address: nat)
    requires Consistent(keyRange, index, repository, contains, buckets) && address !in index && address < |buckets|
    ensures Consistent(keyRange, index + {address}, repository, contains, buckets[address := []])
  {}

  lemma Inserted(keyRange: nat, index: set<nat>, repository: seq<Place>, contains: seq<bool>, buckets: seq<seq<nat>>,
                 id: nat, key: int)
    requires Consistent(keyRange, index, repository, contains, buckets)
    requires id < |contains| && !contains[id] && 0 <= key + keyRange < |buckets| && key + keyRange in index
    ensures var address: nat := key + keyRange;
            Consistent(keyRange, index, repository[id := Place(|buckets[address]|, key)], contains[id := true],
                       buckets[address := buckets[address] + [id]])
  {
    var address: nat := key + keyRange;
    var buckets' := buckets[address := buckets[address] + [id]];
    forall a, p | a in index && 0 <= p < |buckets'[a]|
      ensures a != address || p < |buckets[address]| ==>
                p < |buckets[a]| && buckets'[a][p] == buckets[a][p] && buckets[a][p] != id
      ensures a == address && p == |buckets[address]| ==> buckets'[a][p] == id
    {
      if a != address || p < |buckets[address]| {
        var other := buckets[a][p];
        assert contains[other];
      }
    }
  }

  /** An id appended to a bucket leaves the queue right exactly if that bucket is valid. */
  lemma InsertedIff(keyRange: nat, index: set<nat>, repository: seq<Place>, contains: seq<bool>,
                    buckets: seq<seq<nat>>, id: nat, key: int)
    requires Consistent(keyRange, index, repository, contains, buckets)
    requires id < |contains| && !contains[id] && 0 <= key + keyRange < |buckets|
    ensures var address: nat := key + keyRange;
            Consistent(keyRange, index, repository[id := Place(|buckets[address]|, key)], contains[id := true],
                       buckets[address := buckets[address] + [id]])
            <==> address in index
  {
    if key + keyRange in index {
      Inserted(keyRange, index, repository, contains, buckets, id, key);
    } else {
      assert contains[id := true][id];
    }
  }

  /** The repository once the last id of a bucket has moved to position p. */
  function Repositioned(repository: seq<Place>, bucket: seq<nat>, p: nat): seq<Place>
    requires bucket != [] && bucket[|bucket| - 1] < |repository|
  {
    var last := bucket[|bucket| - 1];
    repository[last := repository[last].(position := p)]
  }

  lemma TakenOut(keyRange: nat, index: set<nat>, repository: seq<Place>, contains: seq<bool>, buckets: seq<seq<nat>>,
                 id: nat)
    requires Consistent(keyRange, index, repository, contains, buckets) && id < |contains| && contains[id]
    ensures 0 <= repository[id].key + keyRange < |buckets|
    ensures var address: nat, p := repository[id].key + keyRange, repository[id].position;
            && p < |buckets[address]| && buckets[address][|buckets[address]| - 1] < |repository|
            && Consistent(keyRange, index, Repositioned(repository, buckets[address], p), contains[id := false],
                          buckets[address := SwapRemove(buckets[address], p)])
  {
    assert contains[id];
    var address: nat, p := repository[id].key + keyRange, repository[id].position;
    assert address in index;
    var bucket := buckets[address];
    var n := |bucket| - 1;
    var last := bucket[n];
    assert contains[last] && repository[last] == Place(n, address - keyRange);
    var repository', contains', buckets' :=
      Repositioned(repository, bucket, p), contains[id := false], buckets[address := SwapRemove(bucket, p)];
    forall a, q | a in index && 0 <= q < |buckets'[a]|
      ensures buckets'[a][q] < |contains'| && contains'[buckets'[a][q]]
              && repository'[buckets'[a][q]] == Place(q, a - keyRange)
    {
      var q' := if a == address && q == p then n else q;
      assert buckets'[a][q] == buckets[a][q'];
      assert repository[buckets[a][q']] == Place(q', a - keyRange);
    }
    forall x | 0 <= x < |contains'| && contains'[x]
      ensures 0 <= repository'[x].key + keyRange && repository'[x].key + keyRange in index
      ensures repository'[x].position < |buckets'[repository'[x].key + keyRange]|
      ensures buckets'[repository'[x].key + keyRange][repository'[x].position] == x
    {
      assert contains[x];
      assert buckets[repository[x].key + keyRange][repository[x].position] == x;
    }
  }

  lemma TakenOutLast(keyRange: nat, index: set<nat>, repository: seq<Place>, contains: seq<bool>,
                     buckets: seq<seq<nat>>, id: nat)
    requires Consistent(keyRange, index, repository, contains, buckets) && id < |contains| && contains[id]
    requires 0 <= repository[id].key + keyRange < |buckets| && |buckets[repository[id].key + keyRange]| == 1
    ensures var address: nat := repository[id].key + keyRange;
            Consistent(keyRange, index - {address}, repository, contains[id := false], buckets[address := []])
  {
    var address: nat := repository[id].key + keyRange;
    var contains', buckets' := contains[id := false], buckets[address := []];
    assert buckets[address][0] == id;
    forall x | 0 <= x < |contains'| && contains'[x]
      ensures 0 <= repository[x].key + keyRange && repository[x].key + keyRange in index - {address}
    {
      assert contains[x];
      assert buckets[repository[x].key + keyRange][repository[x].position] == x;
    }
    forall a, q | a in index - {address} && 0 <= q < |buckets'[a]| ensures contains'[buckets'[a][q]] {
      assert buckets'[a][q] == buckets[a][q];
      assert repository[buckets[a][q]] == Place(q, a - keyRange);
    }
  }

  /** The ids that are contained. */
  ghost function IdsOf(contains: seq<bool>): set<nat> {
    set id: nat | id < |contains| && contains[id]
  }

  ghost function KeysOf(contains: seq<bool>, repository: seq<Place>): map<nat, int>
    requires |repository| == |contains|
  {
    map id: nat | id < |contains| && contains[id] :: repository[id].key
  }

  /** What is in the buckets of the index, in order. */
  ghost function ContentsOf(index: set<nat>, buckets: seq<seq<nat>>): map<int, seq<nat>> {
    map a: int | a in index && 0 <= a < |buckets| :: buckets[a]
  }

  /** An id added at the end of its bucket. */
  function Pushed(contents: map<int, seq<nat>>, address: int, id: nat): map<int, seq<nat>> {
    contents[address := (if address in contents then contents[address] else []) + [id]]
  }

  /** The id at a position of a bucket dropped: the last one takes its place. An empty bucket goes. */
  function Dropped(contents: map<int, seq<nat>>, address: int, p: nat): map<int, seq<nat>>
    requires address in contents && p < |contents[address]|
  {
    if |contents[address]| == 1 then contents - {address}
    else contents[address := SwapRemove(contents[address], p)]
  }

  /** The buckets once that of an address has been made valid. */
  function OpenedBuckets(index: set<nat>, buckets: seq<seq<nat>>, address: nat): (ready: seq<seq<nat>>)
    requires address < |buckets|
    ensures |ready| == |buckets|
  {
    if address in index then buckets else buckets[address := []]
  }

  lemma ContentsPushed(index: set<nat>, buckets: seq<seq<nat>>, address: nat, id: nat)
    requires address < |buckets|
    ensures var ready := OpenedBuckets(index, buckets, address);
            ContentsOf(index + {address}, ready[address := ready[address] + [id]])
            == Pushed(ContentsOf(index, buckets), address, id)
  {}

  /** A bucket without the id at position p. */
  function Without(bucket: seq<nat>, p: nat): seq<nat>
    requires p < |bucket|
  {
    if |bucket| == 1 then [] else SwapRemove(bucket, p)
  }

  /** The valid buckets once an id of one with n ids has been taken out. */
  function StillValid(index: set<nat>, address: nat, n: nat): set<nat> {
    if n == 1 then index - {address} else index
  }

  lemma ContentsDropped(index: set<nat>, buckets: seq<seq<nat>>, address: nat, p: nat)
    requires address < |buckets| && address in index && p < |buckets[address]|
    ensures address in ContentsOf(index, buckets) && ContentsOf(index, buckets)[address] == buckets[address]
    ensures ContentsOf(StillValid(index, address, |buckets[address]|), buckets[address := Without(buckets[address], p)])
         == Dropped(ContentsOf(index, buckets), address, p)
  {}

  /** An id that goes to the bucket of another key, or to the end of its own. If it was alone
      there, that bucket is not valid any more. */
  ghost function Rekeyed(contents: map<int, seq<nat>>, address: int, p: nat, newAddress: int,
                         id: nat): map<int, seq<nat>>
    requires address in contents && p < |contents[address]|
  {
    if newAddress == address && |contents[address]| == 1 then contents - {address}
    else Pushed(Dropped(contents, address, p), newAddress, id)
  }

  lemma ContentsRekeyed(index: set<nat>, buckets: seq<seq<nat>>, address: nat, p: nat, newAddress: nat, id: nat)
    requires address < |buckets| && newAddress < |buckets| && address in index && p < |buckets[address]|
    ensures address in ContentsOf(index, buckets) && ContentsOf(index, buckets)[address] == buckets[address]
    ensures var open := OpenedBuckets(index, buckets, newAddress)[address := Without(buckets[address], p)];
            ContentsOf(StillValid(index + {newAddress}, address, |buckets[address]|),
                       open[newAddress := open[newAddress] + [id]])
            == Rekeyed(ContentsOf(index, buckets), address, p, newAddress, id)
  {
    var contents := ContentsOf(index, buckets);
    var open := OpenedBuckets(index, buckets, newAddress)[address := Without(buckets[address], p)];
    var index' := StillValid(index + {newAddress}, address, |buckets[address]|);
    var after := ContentsOf(index', open[newAddress := open[newAddress] + [id]]);
    var goal := Rekeyed(contents, address, p, newAddress, id);
    forall a: int ensures a in after <==> a in goal {}
    forall a: int | a in after ensures after[a] == goal[a] {}
    assert after == goal;
  }

  lemma KeyPut(contains: seq<bool>, repository: seq<Place>, id: nat, place: Place)
    requires |repository| == |contains| && id < |contains|
    ensures KeysOf(contains[id := true], repository[id := place]) == KeysOf(contains, repository)[id := place.key]
    ensures IdsOf(contains[id := true]) == IdsOf(contains) + {id}
  {}

  lemma KeyTaken(contains: seq<bool>, repository: seq<Place>, repository': seq<Place>, id: nat)
    requires |repository| == |repository'| == |contains| && id < |contains|
    requires forall x {:trigger repository'[x]} | 0 <= x < |repository| :: repository'[x].key == repository[x].key
    ensures KeysOf(contains[id := false], repository') == KeysOf(contains, repository) - {id}
    ensures IdsOf(contains[id := false]) == IdsOf(contains) - {id}
  {}

  lemma KeyReplaced(contains: seq<bool>, repository: seq<Place>, id: nat, key: int)
    requires |repository| == |contains| && id < |contains| && contains[id]
    ensures (KeysOf(contains, repository) - {id})[id := key] == KeysOf(contains, repository)[id := key]
    ensures IdsOf(contains) - {id} + {id} == IdsOf(contains)
  {}

  class EnhancedBucketQueue {
    var numElements: int
    const keyRange: nat
    var maxAddress: int
    var index: set<nat>
    var repository: seq<Place>
    var contains: seq<bool>
    var valid: seq<bool>
    var buckets: seq<seq<nat>>

    /** The ids in the queue. */
    ghost function Ids(): set<nat>
      reads `contains
    {
      IdsOf(contains)
    }

    /** The queue as a map from ids to keys. */
    ghost function Keys(): map<nat, int>
      requires |repository| == |contains|
      reads `contains, `repository
    {
      KeysOf(contains, repository)
    }

    /** The buckets that are valid. */
    ghost function Contents(): map<int, seq<nat>>
      reads `index, `buckets
    {
      ContentsOf(index, buckets)
    }

    /** The maximum address is that of the highest bucket of the index, if there is any. */
    ghost predicate MaxRight()
      reads `index, `maxAddress
    {
      && (if index == {} then maxAddress == INVALID_ADDRESS else 0 <= maxAddress && maxAddress in index)
      && forall a {:trigger a in index} | a in index :: a <= maxAddress
    }

    /** The buckets are right, and the index holds the addresses of those that are valid. */
    ghost predicate Shaped()
      reads `index, `repository, `contains, `valid, `buckets
    {
      && Consistent(keyRange, index, repository, contains, buckets)
      && |valid| == |buckets| == 2 * keyRange + 1
      && forall a {:trigger valid[a]} | 0 <= a < |valid| :: valid[a] <==> a in index
    }

    ghost predicate Valid()
      reads this
    {
      Shaped() && NoneEmptyBut(index, buckets, INVALID_ADDRESS) && MaxRight() && numElements == |Ids()|
    }

    constructor (maxSize: nat, maxGain: nat)
      ensures Valid() && Keys() == map[] && Contents() == map[] && keyRange == maxGain && |contains| == maxSize
    {
      numElements := 0;
      keyRange := maxGain;
      maxAddress := INVALID_ADDRESS;
      index := {};
      repository := seq(maxSize, _ => Place(0, 0));
      contains := seq(maxSize, _ => false);
      valid := seq(maxGain * 2 + 1, _ => false);
      buckets := seq(maxGain * 2 + 1, _ => []);
      new;
      assert Ids() == {};
    }

    /** The queue is empty exactly when the index is. */
    lemma EmptyIffNoIndex()
      requires Valid()
      ensures numElements == 0 <==> index == {}
      ensures index != {} ==> 0 <= maxAddress < |buckets| && buckets[maxAddress] != []
    {
      if index == {} {
        forall id | 0 <= id < |contains| ensures !contains[id] {}
        assert Ids() == {};
      } else {
        assert maxAddress in index;
        assert buckets[maxAddress] != [];
        assert contains[buckets[maxAddress][0]];
        assert buckets[maxAddress][0] in Ids();
      }
    }

    /** Makes the bucket of an address valid, dropping what is left in it from before. */
    method OpenBucket(address: nat)
      requires Shaped() && MaxRight() && NoneEmptyBut(index, buckets, INVALID_ADDRESS) && address < |buckets|
      modifies `index, `valid, `buckets, `maxAddress
      ensures NoneEmptyBut(index, buckets, address)
      ensures Shaped() && MaxRight() && index == old(index) + {address as int} && |buckets| == |old(buckets)|
      ensures buckets == OpenedBuckets(old(index), old(buckets), address)
    {
      assert valid[address] <==> address in index;
      if !valid[address] {
        Opened(keyRange, index, repository, contains, buckets, address);
        index := index + {address};
        buckets := buckets[address := []];
        valid := valid[address := true];
      }
      if address > maxAddress {
        maxAddress := address;
      }
    }

    /** Appends an id to the bucket of a key, which must be valid for the queue to be right. */
    method Append(id: nat, key: int)
      requires Shaped() && id < |contains| && !contains[id] && 0 <= key + keyRange < |buckets|
      modifies `repository, `contains, `buckets
      ensures |repository| == |contains| == old(|contains|) && (Shaped() <==> key + keyRange in index)
      ensures Keys() == old(Keys())[id := key] && Ids() == old(Ids()) + {id}
      ensures old(NoneEmptyBut(index, buckets, key + keyRange)) ==> NoneEmptyBut(index, buckets, INVALID_ADDRESS)
      ensures buckets == old(buckets)[key + keyRange := old(buckets)[key + keyRange] + [id]]
    {
      var address: nat := key + keyRange;
      var place := Place(|buckets[address]|, key);
      KeyPut(contains, repository, id, place);
      InsertedIff(keyRange, index, repository, contains, buckets, id, key);
      buckets := buckets[address := buckets[address] + [id]];
      contains := contains[id := true];
      repository := repository[id := place];
    }

    /** Puts an id in the bucket of a key, which becomes valid if it was not. */
    method Enter(id: nat, key: int)
      requires Shaped() && MaxRight() && NoneEmptyBut(index, buckets, INVALID_ADDRESS)
      requires id < |contains| && !contains[id] && 0 <= key + keyRange < |buckets|
      modifies `index, `repository, `contains, `valid, `buckets, `maxAddress
      ensures Shaped() && MaxRight() && NoneEmptyBut(index, buckets, INVALID_ADDRESS)
      ensures |contains| == old(|contains|) && Keys() == old(Keys())[id := key] && Ids() == old(Ids()) + {id}
      ensures Contents() == Pushed(old(Contents()), key + keyRange, id)
    {
      ContentsPushed(index, buckets, key + keyRange, id);
      OpenBucket(key + keyRange);
      Append(id, key);
    }

    /** Inserts an id that is not in the queue. */
    method Push(id: nat, key: int)
      requires Valid() && id < |contains| && !contains[id] && 0 <= key + keyRange <= 2 * keyRange
      modifies this
      ensures Valid() && |contains| == old(|contains|) && Keys() == old(Keys())[id := key]
      ensures Contents() == Pushed(old(Contents()), key + keyRange, id)
    {
      Enter(id, key);
      numElements := numElements + 1;
    }

    /** Empties the queue without touching the buckets. */
    method Clear()
      requires Valid()
      modifies this
      ensures Valid() && |contains| == old(|contains|) && Keys() == map[] && Contents() == map[]
    {
      numElements := 0;
      maxAddress := INVALID_ADDRESS;
      index := {};
      contains := seq(|contains|, _ => false);
      valid := seq(|valid|, _ => false);
      assert Ids() == {};
    }

    /** The last id in the highest bucket. */
    ghost function TopId(): nat
      requires Valid() && numElements > 0
      reads this
    {
      EmptyIffNoIndex();
      buckets[maxAddress][|buckets[maxAddress]| - 1]
    }

    /** An id with the largest key of all, and that key. */
    method Top() returns (id: nat, key: int)
      requires Valid() && numElements > 0
      ensures id == TopId() && id in Keys() && Keys()[id] == key
      ensures forall other {:trigger other in Keys()} | other in Keys() :: Keys()[other] <= key
    {
      EmptyIffNoIndex();
      key := maxAddress - keyRange;
      id := buckets[maxAddress][|buckets[maxAddress]| - 1];
      forall other | other in Keys() ensures Keys()[other] <= key {
        assert contains[other];
      }
    }

    /** The largest element of a set. */
    method Largest(s: set<nat>) returns (x: nat)
      requires s != {}
      ensures x in s && forall y {:trigger y in s} | y in s :: y <= x
    {
      x :| x in s;
      var rest := s - {x};
      while rest != {}
        invariant rest <= s && x in s && forall y {:trigger y in s} | y in s :: y in rest || y <= x
        decreases |rest|
      {
        var y :| y in rest;
        if y > x {
          x := y;
        }
        rest := rest - {y};
      }
    }

    /** The highest address of the index becomes the maximum address. */
    method UpdateMaxAddress()
      requires Shaped() && (numElements > 0 <==> index != {})
      modifies `maxAddress
      ensures MaxRight()
    {
      if numElements > 0 {
        maxAddress := Largest(index);
      } else {
        maxAddress := INVALID_ADDRESS;
      }
    }

    /** Takes an id out of its bucket: the last id takes its place. Returns whether that
        leaves the bucket empty, in which case it is no longer valid. */
    method TakeOut(id: nat) returns (invalidated: bool)
      requires Shaped() && id < |contains| && contains[id]
      modifies `index, `repository, `contains, `valid, `buckets
      ensures Shaped() && |contains| == old(|contains|) && !contains[id]
      ensures Keys() == old(Keys()) - {id} && Ids() == old(Ids()) - {id}
      ensures 0 <= old(repository[id].key) + keyRange < old(|buckets|)
      ensures var address: nat := old(repository[id].key) + keyRange;
              && invalidated == (old(|buckets[address]|) == 1)
              && index == (if invalidated then old(index) - {address} else old(index))
              && old(repository[id].position) < old(|buckets[address]|)
              && buckets == old(buckets)[address := Without(old(buckets)[address], old(repository[id].position))]
      ensures forall x: int {:trigger NoneEmptyBut(index, buckets, x)} | old(NoneEmptyBut(index, buckets, x)) ::
                NoneEmptyBut(index, buckets, x)
    {
      TakenOut(keyRange, index, repository, contains, buckets, id);
      var p, address: nat := repository[id].position, repository[id].key + keyRange;
      ghost var repository' := Repositioned(repository, buckets[address], p);
      KeyTaken(contains, repository, repository', id);
      KeyTaken(contains, repository, repository, id);
      if |buckets[address]| > 1 {
        invalidated := false;
        repository := Repositioned(repository, buckets[address], p);
        buckets := buckets[address := SwapRemove(buckets[address], p)];
        contains := contains[id := false];
      } else {
        invalidated := true;
        TakenOutLast(keyRange, index, repository, contains, buckets, id);
        buckets := buckets[address := []];
        index := index - {address};
        valid := valid[address := false];
        contains := contains[id := false];
      }
    }

    /** The bucket of a lone id is the only one of the index exactly when the id is the only one. */
    lemma LoneBucket(id: nat)
      requires Valid() && id < |contains| && contains[id]
      ensures numElements > 0 && 0 <= repository[id].key + keyRange < |buckets|
      ensures var address: nat := repository[id].key + keyRange;
              |buckets[address]| == 1 ==> (index == {address} <==> numElements == 1)
    {
      var address: nat := repository[id].key + keyRange;
      assert id in Ids();
      assert address in index && buckets[address][repository[id].position] == id;
      if |buckets[address]| == 1 && index == {address} {
        forall other | other in Ids() ensures other == id {
          assert contains[other];
        }
        assert Ids() == {id};
      }
      if numElements == 1 {
        forall a | a in index ensures a == address {
          assert contains[buckets[a][0]];
          assert |Ids() - {id}| == 0;
          assert buckets[a][0] in Ids();
        }
      }
    }

    /** Takes out an id and brings the maximum address up to date. */
    method Leave(id: nat, ghost x: int)
      requires Shaped() && MaxRight() && NoneEmptyBut(index, buckets, x) && id < |contains| && contains[id]
      requires 0 <= repository[id].key + keyRange < |buckets|
      requires var address: nat := repository[id].key + keyRange;
               |buckets[address]| == 1 ==> (numElements > 0 <==> index != {address})
      modifies `index, `repository, `contains, `valid, `buckets, `maxAddress
      ensures Shaped() && MaxRight() && NoneEmptyBut(index, buckets, x)
      ensures |contains| == old(|contains|) && |buckets| == old(|buckets|) && !contains[id]
      ensures Keys() == old(Keys()) - {id} && Ids() == old(Ids()) - {id}
      ensures var address: nat, p := old(repository[id].key) + keyRange, old(repository[id].position);
              && index == StillValid(old(index), address, old(|buckets[address]|))
              && p < old(|buckets[address]|)
              && buckets == old(buckets)[address := Without(old(buckets)[address], p)]
    {
      var address: nat := repository[id].key + keyRange;
      assert address in index;
      assert NoneEmptyBut(index, buckets, x);
      var invalidated := TakeOut(id);
      assert NoneEmptyBut(index, buckets, x);
      if invalidated && address == maxAddress {
        UpdateMaxAddress();
      }
    }

    /** The id is in the bucket of its key, at its position. */
    ghost predicate HasPlaceOf(id: nat)
      reads `index, `repository, `buckets
    {
      id < |repository| && var address, p := repository[id].key + keyRange, repository[id].position;
      address in Contents() && p < |Contents()[address]| && Contents()[address][p] == id
    }

    lemma HasPlace(id: nat)
      requires Shaped() && id < |contains| && contains[id]
      ensures 0 <= repository[id].key + keyRange < |buckets| && HasPlaceOf(id)
    {}

    /** What is in the valid buckets once an id has been removed. */
    ghost function ContentsWithout(id: nat): map<int, seq<nat>>
      requires Shaped() && id < |contains| && contains[id]
      reads `index, `repository, `contains, `valid, `buckets
    {
      HasPlace(id);
      Dropped(Contents(), repository[id].key + keyRange, repository[id].position)
    }

    /** What is in the valid buckets once an id has got a new key. */
    ghost function ContentsAfter(id: nat, newKey: int): map<int, seq<nat>>
      requires Shaped() && id < |contains| && contains[id]
      reads `index, `repository, `contains, `valid, `buckets
    {
      HasPlace(id);
      Rekeyed(Contents(), repository[id].key + keyRange, repository[id].position, newKey + keyRange, id)
    }

    /** Removes an id from the queue. */
    method Remove(id: nat)
      requires Valid() && id < |contains| && contains[id]
      modifies this
      ensures Valid() && |contains| == old(|contains|) && Keys() == old(Keys()) - {id}
      ensures Contents() == old(ContentsWithout(id))
    {
      LoneBucket(id);
      HasPlace(id);
      ContentsDropped(index, buckets, repository[id].key + keyRange, repository[id].position);
      numElements := numElements - 1;
      Leave(id, INVALID_ADDRESS);
    }

    /** The top id is the last one in the highest bucket. */
    lemma TopPlace()
      requires Valid() && numElements > 0
      ensures TopId() < |contains| && contains[TopId()]
      ensures maxAddress in Contents() && Contents()[maxAddress] != []
      ensures ContentsWithout(TopId()) == Dropped(Contents(), maxAddress, |Contents()[maxAddress]| - 1)
    {
      EmptyIffNoIndex();
      assert repository[TopId()] == Place(|buckets[maxAddress]| - 1, maxAddress - keyRange);
    }

    /** Removes the top id. */
    method Pop()
      requires Valid() && numElements > 0
      modifies this
      ensures old(TopId()) in old(Keys())
      ensures Valid() && |contains| == old(|contains|) && Keys() == old(Keys()) - {old(TopId())}
      ensures old(maxAddress) in old(Contents()) && old(Contents())[old(maxAddress)] != []
      ensures Contents() == Dropped(old(Contents()), old(maxAddress), |old(Contents())[old(maxAddress)]| - 1)
    {
      var id, key := Top();
      TopPlace();
      Remove(id);
    }

    /** Whether an id that gets a new key lands in a bucket that stays valid. */
    ghost predicate Survives(id: nat, newKey: int)
      requires Shaped() && id < |contains| && contains[id]
      reads `index, `repository, `contains, `valid, `buckets
    {
      newKey != repository[id].key || |buckets[repository[id].key + keyRange]| > 1
    }

    /** Unless its key changes, the id needs another one with the same key. */
    lemma SurvivesIff(id: nat, newKey: int)
      requires Shaped() && id < |contains| && contains[id]
      ensures Survives(id, newKey) <==>
                newKey != Keys()[id] || exists other {:trigger Keys()[other]} ::
                  other in Keys() && other != id && Keys()[other] == Keys()[id]
    {
      var address: nat := repository[id].key + keyRange;
      assert address in index && buckets[address][repository[id].position] == id;
      if |buckets[address]| > 1 {
        var q := if repository[id].position == 0 then 1 else 0;
        var other := buckets[address][q];
        assert contains[other] && repository[other] == Place(q, address - keyRange);
        assert other in Keys() && other != id && Keys()[other] == Keys()[id];
      }
      if other :| other in Keys() && other != id && Keys()[other] == Keys()[id] {
        assert contains[other] && buckets[address][repository[other].position] == other;
      }
    }

    /** What becomes of the index and of the buckets when the bucket of a new key is made
        valid and the id is taken out of its old bucket. */
    ghost predicate IsWithdrawn(id: nat, newKey: int, stillValid: set<nat>, taken: seq<seq<nat>>)
      requires 0 <= newKey + keyRange < |buckets|
      reads `index, `repository, `buckets
    {
      && id < |repository| && 0 <= repository[id].key + keyRange < |buckets|
      && var address: nat, p, newAddress: nat :=
         repository[id].key + keyRange, repository[id].position, newKey + keyRange;
      && p < |buckets[address]| && stillValid == StillValid(index + {newAddress}, address, |buckets[address]|)
      && taken == OpenedBuckets(index, buckets, newAddress)[address := Without(buckets[address], p)]
    }

    lemma Withdrawal(id: nat, newKey: int) returns (stillValid: set<nat>, taken: seq<seq<nat>>)
      requires Shaped() && id < |contains| && contains[id] && 0 <= newKey + keyRange < |buckets|
      ensures IsWithdrawn(id, newKey, stillValid, taken) && |taken| == |buckets|
      ensures var b: nat := newKey + keyRange;
              ContentsOf(stillValid, taken[b := taken[b] + [id]]) == ContentsAfter(id, newKey)
    {
      HasPlace(id);
      var address: nat, p, b: nat := repository[id].key + keyRange, repository[id].position, newKey + keyRange;
      stillValid := StillValid(index + {b}, address, |buckets[address]|);
      taken := OpenedBuckets(index, buckets, b)[address := Without(buckets[address], p)];
      ContentsRekeyed(index, buckets, address, p, b, id);
    }

    /** Makes the bucket of a new key valid and takes the id out of its old bucket. */
    method Withdraw(id: nat, newKey: int, ghost stillValid: set<nat>, ghost taken: seq<seq<nat>>)
      requires Shaped() && MaxRight() && NoneEmptyBut(index, buckets, INVALID_ADDRESS) && numElements > 0
      requires id < |contains| && contains[id] && 0 <= newKey + keyRange < |buckets|
      requires Survives(id, newKey) || index != {repository[id].key + keyRange}
      requires IsWithdrawn(id, newKey, stillValid, taken)
      modifies `index, `repository, `contains, `valid, `buckets, `maxAddress
      ensures Shaped() && MaxRight() && NoneEmptyBut(index, buckets, newKey + keyRange)
      ensures |contains| == old(|contains|) && |buckets| == old(|buckets|) && !contains[id]
      ensures Keys() == old(Keys()) - {id} && Ids() == old(Ids()) - {id}
      ensures newKey + keyRange in index <==> old(Survives(id, newKey))
      ensures index == stillValid && buckets == taken
    {
      HasPlace(id);
      ghost var address: nat := repository[id].key + keyRange;
      assert address in index;
      OpenBucket(newKey + keyRange);
      assert newKey + keyRange in index;
      Leave(id, newKey + keyRange);
    }

    /** Moves an id to the bucket of a new key, leaving the number of elements alone. */
    method Rekey(id: nat, newKey: int, ghost after: map<int, seq<nat>>)
      requires Shaped() && MaxRight() && NoneEmptyBut(index, buckets, INVALID_ADDRESS) && numElements > 0
      requires id < |contains| && contains[id] && 0 <= newKey + keyRange < |buckets|
      requires Survives(id, newKey) || index != {repository[id].key + keyRange}
      requires after == ContentsAfter(id, newKey)
      modifies `index, `repository, `contains, `valid, `buckets, `maxAddress
      ensures |repository| == |contains| == old(|contains|)
      ensures Keys() == old(Keys())[id := newKey] && Ids() == old(Ids())
      ensures MaxRight() && NoneEmptyBut(index, buckets, INVALID_ADDRESS)
      ensures Shaped() <==> old(Survives(id, newKey))
      ensures Contents() == after
    {
      ghost var stillValid, taken := Withdrawal(id, newKey);
      KeyReplaced(contains, repository, id, newKey);
      Withdraw(id, newKey, stillValid, taken);
      Append(id, newKey);
    }

    /** Moves an id to the bucket of a new key. The queue stays right unless the key is the
        same and the id alone in its bucket: then that bucket is no longer valid. */
    method UpdateKeyInternal(id: nat, newKey: int, ghost survives: bool, ghost after: map<int, seq<nat>>)
      requires Valid() && id < |contains| && contains[id] && 0 <= newKey + keyRange <= 2 * keyRange
      requires newKey != repository[id].key || numElements > 1
      requires survives == Survives(id, newKey) && after == ContentsAfter(id, newKey)
      modifies `index, `repository, `contains, `valid, `buckets, `maxAddress
      ensures |repository| == |contains| == old(|contains|) && Keys() == old(Keys())[id := newKey]
      ensures (Valid() <==> survives) && Contents() == after
    {
      LoneBucket(id);
      Rekey(id, newKey, after);
    }

    /** Sets the key of an id. */
    method UpdateKey(id: nat, newKey: int)
      requires Valid() && id < |contains| && contains[id] && 0 <= newKey + keyRange <= 2 * keyRange
      requires newKey != repository[id].key || numElements > 1
      modifies `index, `repository, `contains, `valid, `buckets, `maxAddress
      ensures |repository| == |contains| == old(|contains|) && Keys() == old(Keys())[id := newKey]
      ensures Valid() <==> old(Survives(id, newKey))
      ensures Contents() == old(ContentsAfter(id, newKey))
    {
      UpdateKeyInternal(id, newKey, Survives(id, newKey), ContentsAfter(id, newKey));
    }

    /** Raises the key of an id by a difference, which may be negative. */
    method UpdateKeyBy(id: nat, keyDelta: int)
      requires Valid() && id < |contains| && contains[id]
               && 0 <= repository[id].key + keyDelta + keyRange <= 2 * keyRange
      requires keyDelta != 0 || numElements > 1
      modifies `index, `repository, `contains, `valid, `buckets, `maxAddress
      ensures |repository| == |contains| == old(|contains|)
              && Keys() == old(Keys())[id := old(repository[id].key) + keyDelta]
      ensures Valid() <==> old(Survives(id, repository[id].key + keyDelta))
      ensures Contents() == old(ContentsAfter(id, repository[id].key + keyDelta))
    {
      var newKey := repository[id].key + keyDelta;
      UpdateKeyInternal(id, newKey, Survives(id, newKey), ContentsAfter(id, newKey));
    }

    /** Lowers the key of an id by a difference. */
    method DecreaseKeyBy(id: nat, keyDelta: int)
      requires Valid() && id < |contains| && contains[id]
               && 0 <= repository[id].key - keyDelta + keyRange <= 2 * keyRange
      requires keyDelta != 0 || numElements > 1
      modifies `index, `repository, `contains, `valid, `buckets, `maxAddress
      ensures |repository| == |contains| == old(|contains|)
              && Keys() == old(Keys())[id := old(repository[id].key) - keyDelta]
      ensures Valid() <==> old(Survives(id, repository[id].key - keyDelta))
      ensures Contents() == old(ContentsAfter(id, repository[id].key - keyDelta))
    {
      var newKey := repository[id].key - keyDelta;
      UpdateKeyInternal(id, newKey, Survives(id, newKey), ContentsAfter(id, newKey));
    }
  }

  method TwoKeys() returns (queue: EnhancedBucketQueue)
    ensures fresh(queue) && queue.Valid() && queue.Keys() == map[0 := 0, 1 := 1]
    ensures queue.keyRange == 1 && |queue.contains| == 2
  {
    queue := new EnhancedBucketQueue(2, 1);
    assert 0 !in queue.Keys();
    queue.Push(0, 0);
    assert queue.Keys() == map[0 := 0] && 1 !in queue.Keys();
    queue.Push(1, 1);
    assert queue.Keys() == map[0 := 0, 1 := 1];
  }

  /** Two ids with different keys, one of which gets the key that it has: the queue is not
      right any more, although it still holds the id. */
  method UpdateToSameKey() returns (queue: EnhancedBucketQueue)
    ensures fresh(queue) && |queue.repository| == |queue.contains|
    ensures queue.Keys() == map[0 := 0, 1 := 1] && !queue.Valid()
  {
    queue := TwoKeys();
    assert 0 in queue.Keys();
    assert queue.Ids() == queue.Keys().Keys;
    assert |{0, 1}| == 2;
    queue.SurvivesIff(0, 0);
    queue.UpdateKey(0, 0);
    assert queue.Keys() == map[0 := 0, 1 := 1];
  }
}
