/** A segment tree with a parameter: the values of all intervals that repeated halving
    leads to are kept in an array of twice the length of the sequence. */
module SegmentTree {

  /** Node q is in the subtree of node r, the children of p being 2p + 1 and 2p + 2. */
  ghost predicate InSubtree(r: nat, q: nat)
    decreases q
  {
    q == r || (q > r && InSubtree(r, (q - 1) / 2))
  }

  lemma {:induction false} ChildrenInSubtree(p: nat, q: nat)
    ensures InSubtree(2 * p + 1, q) || InSubtree(2 * p + 2, q) ==> InSubtree(p, q) && q != p
    decreases q
  {
    assert InSubtree(p, p);
    if q > 0 {
      ChildrenInSubtree(p, (q - 1) / 2);
    }
  }

  lemma {:induction false} ChildrenApart(p: nat, q: nat)
    ensures !(InSubtree(2 * p + 1, q) && InSubtree(2 * p + 2, q))
    decreases q
  {
    if q > 0 {
      ChildrenApart(p, (q - 1) / 2);
      SubtreeBound(2 * p + 1, (q - 1) / 2);
      SubtreeBound(2 * p + 2, (q - 1) / 2);
    }
  }

  lemma SubtreeBound(r: nat, q: nat)
    ensures InSubtree(r, q) ==> r <= q
  {}

  /** A node that covers several of n positions has its place in an array of length 2n:
      power is two to the depth of the node. */
  ghost predicate Fits(n: nat, pos: nat, i: nat, j: nat, power: nat) {
    && i <= j < n && 1 <= power
    && pos <= 2 * power - 2
    && (j - i) * power <= n - 1
  }

  lemma FitsBelow(n: nat, pos: nat, i: nat, j: nat, power: nat)
    requires Fits(n, pos, i, j, power) && i < j
    ensures pos + 3 < 2 * n
    ensures Fits(n, 2 * pos + 1, i, (i + j) / 2, 2 * power)
    ensures Fits(n, 2 * pos + 2, (i + j) / 2 + 1, j, 2 * power)
  {
    var m := (i + j) / 2;
    HalfFits(m - i, j - i, power);
    HalfFits(j - (m + 1), j - i, power);
    AtLeastOnce(j - i, power);
  }

  lemma HalfFits(a: nat, b: nat, power: nat)
    requires 2 * a <= b
    ensures a * (2 * power) <= b * power
  {
    assert a * (2 * power) == (2 * a) * power;
  }

  lemma AtLeastOnce(a: nat, power: nat)
    requires 1 <= a
    ensures power <= a * power
  {}

  class ParametrizedSegmentTree<S, T(!new)> {
    const sequence: seq<S>
    const segTree: array<T>
    const param: T
    const combine: (T, T, T) -> T
    const base: (nat, seq<S>, T) -> T

    /** The values of the positions from i to j, combined one after the other. */
    ghost function Combined(i: nat, j: nat): T
      requires i <= j
      decreases j
    {
      if i == j then base(i, sequence, param) else combine(Combined(i, j - 1), base(j, sequence, param), param)
    }

    ghost predicate Associative() {
      forall a, b, c {:trigger combine(a, combine(b, c, param), param)} ::
        combine(a, combine(b, c, param), param) == combine(combine(a, b, param), c, param)
    }

    /** Two adjacent intervals. */
    lemma {:induction false} CombinedSplits(i: nat, m: nat, j: nat)
      requires Associative() && i <= m < j
      ensures Combined(i, j) == combine(Combined(i, m), Combined(m + 1, j), param)
      decreases j
    {
      if m + 1 < j {
        CombinedSplits(i, m, j - 1);
        assert combine(Combined(i, m), combine(Combined(m + 1, j - 1), base(j, sequence, param), param), param)
            == combine(combine(Combined(i, m), Combined(m + 1, j - 1), param), base(j, sequence, param), param);
      }
    }

    /** The values from i to j, combined in this order, in some bracketing. */
    ghost predicate IsCombination(i: nat, j: nat, value: T)
      requires i <= j
      decreases j - i
    {
      if i == j then value == base(i, sequence, param)
      else exists m: nat, a: T, b: T ::
        i <= m < j && IsCombination(i, m, a) && IsCombination(m + 1, j, b) && value == combine(a, b, param)
    }

    lemma CombinationJoined(i: nat, m: nat, j: nat, a: T, b: T)
      requires i <= m < j && IsCombination(i, m, a) && IsCombination(m + 1, j, b)
      ensures IsCombination(i, j, combine(a, b, param))
    {}

    /** For an associative combination the bracketing makes no difference. */
    lemma {:induction false} CombinationIsUnique(i: nat, j: nat, value: T)
      requires Associative() && i <= j && IsCombination(i, j, value)
      ensures value == Combined(i, j)
      decreases j - i
    {
      if i < j {
        var m: nat, a: T, b: T :|
          i <= m < j && IsCombination(i, m, a) && IsCombination(m + 1, j, b) && value == combine(a, b, param);
        CombinationIsUnique(i, m, a);
        CombinationIsUnique(m + 1, j, b);
        CombinedSplits(i, m, j);
      }
    }

    /** The values from i to j, combined by repeated halving. */
    ghost function Halved(i: nat, j: nat): (value: T)
      requires i <= j
      ensures IsCombination(i, j, value)
      decreases j - i
    {
      if i == j then base(i, sequence, param)
      else
        var m := (i + j) / 2;
        CombinationJoined(i, m, j, Halved(i, m), Halved(m + 1, j));
        combine(Halved(i, m), Halved(m + 1, j), param)
    }

    /** The tree below node pos, which covers i to j, holds the combined values. */
    ghost predicate Built(tree: seq<T>, pos: nat, i: nat, j: nat)
      requires i <= j
      decreases j - i
    {
      i < j ==>
        && pos < |tree| && tree[pos] == Halved(i, j)
        && Built(tree, 2 * pos + 1, i, (i + j) / 2)
        && Built(tree, 2 * pos + 2, (i + j) / 2 + 1, j)
    }

    /** Writing elsewhere leaves a subtree as it is. */
    lemma {:induction false} BuiltElsewhere(tree: seq<T>, tree': seq<T>, pos: nat, i: nat, j: nat)
      requires i <= j && Built(tree, pos, i, j) && |tree'| == |tree|
      requires forall q {:trigger tree'[q]} | 0 <= q < |tree| && InSubtree(pos, q) :: tree'[q] == tree[q]
      ensures Built(tree', pos, i, j)
      decreases j - i
    {
      if i < j {
        forall q | 0 <= q < |tree| && (InSubtree(2 * pos + 1, q) || InSubtree(2 * pos + 2, q))
          ensures tree'[q] == tree[q]
        {
          ChildrenInSubtree(pos, q);
        }
        BuiltElsewhere(tree, tree', 2 * pos + 1, i, (i + j) / 2);
        BuiltElsewhere(tree, tree', 2 * pos + 2, (i + j) / 2 + 1, j);
        assert InSubtree(pos, pos);
      }
    }

    /** Only the subtree of node pos has been written to. */
    ghost predicate SameOutside(tree: seq<T>, tree': seq<T>, pos: nat) {
      && |tree'| == |tree|
      && forall q {:trigger tree'[q]} | 0 <= q < |tree| && !InSubtree(pos, q) :: tree'[q] == tree[q]
    }

    /** Filling in the left subtree, then the right one, and then the node itself. */
    lemma SubtreesBuilt(before: seq<T>, tree: seq<T>, tree': seq<T>, pos: nat, l: nat, r: nat, i: nat, m: nat, j: nat)
      requires i < j && m == (i + j) / 2 && pos < |tree| && l == 2 * pos + 1 && r == 2 * pos + 2
      requires SameOutside(before, tree, l) && SameOutside(tree, tree', r)
      requires Built(tree, l, i, m) && Built(tree', r, m + 1, j)
      ensures SameOutside(before, tree'[pos := Halved(i, j)], pos)
      ensures Built(tree'[pos := Halved(i, j)], pos, i, j)
    {
      var filled := tree'[pos := Halved(i, j)];
      forall q | 0 <= q < |tree| && InSubtree(l, q) ensures filled[q] == tree[q] {
        ChildrenInSubtree(pos, q);
        ChildrenApart(pos, q);
        assert tree'[q] == tree[q];
      }
      forall q | 0 <= q < |tree| && InSubtree(r, q) ensures filled[q] == tree'[q] {
        ChildrenInSubtree(pos, q);
      }
      BuiltElsewhere(tree, filled, l, i, m);
      BuiltElsewhere(tree', filled, r, m + 1, j);
      forall q | 0 <= q < |tree| && !InSubtree(pos, q) ensures filled[q] == before[q] {
        ChildrenInSubtree(pos, q);
        assert q != pos && tree'[q] == tree[q] == before[q];
      }
    }

    ghost predicate Valid()
      reads segTree
    {
      && segTree.Length == 2 * |sequence|
      && (sequence != [] ==> Built(segTree[..], 0, 0, |sequence| - 1))
    }

    constructor (sequence: seq<S>, param: T, combine: (T, T, T) -> T, base: (nat, seq<S>, T) -> T)
      ensures this.sequence == sequence && this.param == param && this.combine == combine && this.base == base
      ensures fresh(segTree)
      ensures Valid()
    {
      this.sequence := sequence;
      this.param := param;
      this.combine := combine;
      this.base := base;
      segTree := new T[2 * |sequence|](_ => param);
      new;
      if |sequence| > 0 {
        var root := BuildSegmentTree(0, 0, |sequence| - 1, 1);
      }
    }

    /** Fills in the subtree of node pos, which covers i to j. Every write is in bounds. */
    method BuildSegmentTree(pos: nat, i: nat, j: nat, ghost power: nat) returns (value: T)
      requires segTree.Length == 2 * |sequence| && Fits(|sequence|, pos, i, j, power)
      modifies segTree
      ensures SameOutside(old(segTree[..]), segTree[..], pos)
      ensures value == Halved(i, j) && Built(segTree[..], pos, i, j)
      decreases j - i
    {
      if i == j {
        return base(i, sequence, param);
      }
      FitsBelow(|sequence|, pos, i, j, power);
      var m := (i + j) / 2;
      ghost var before, l: nat, r: nat := segTree[..], 2 * pos + 1, 2 * pos + 2;
      var left := BuildSegmentTree(2 * pos + 1, i, m, 2 * power);
      ghost var tree := segTree[..];
      assert Built(tree, l, i, m) && SameOutside(before, tree, l);
      var right := BuildSegmentTree(2 * pos + 2, m + 1, j, 2 * power);
      ghost var tree' := segTree[..];
      assert Built(tree', r, m + 1, j) && SameOutside(tree, tree', r);
      SubtreesBuilt(before, tree, tree', pos, l, r, i, m, j);
      segTree[pos] := combine(left, right, param);
      assert segTree[..] == tree'[pos := Halved(i, j)];
      value := segTree[pos];
    }

    function Max(a: nat, b: nat): nat { if a < b then b else a }

    function Min(a: nat, b: nat): nat { if a < b then a else b }

    /** What a query gets for the part of it between i and j: an interval that lies inside the
        query is combined by halving, any other one is halved itself. */
    ghost function Answer(i: nat, j: nat, queryI: nat, queryJ: nat): T
      requires queryI <= queryJ && i <= j && i <= queryJ && queryI <= j
      decreases j - i
    {
      if queryI <= i && j <= queryJ then Halved(i, j)
      else
        var m := (i + j) / 2;
        if m < queryI then Answer(m + 1, j, queryI, queryJ)
        else if queryJ <= m then Answer(i, m, queryI, queryJ)
        else combine(Answer(i, m, queryI, queryJ), Answer(m + 1, j, queryI, queryJ), param)
    }

    lemma {:induction false} AnswerIsCombination(i: nat, j: nat, queryI: nat, queryJ: nat)
      requires queryI <= queryJ && i <= j && i <= queryJ && queryI <= j
      ensures IsCombination(Max(i, queryI), Min(j, queryJ), Answer(i, j, queryI, queryJ))
      decreases j - i
    {
      if !(queryI <= i && j <= queryJ) {
        var m := (i + j) / 2;
        if queryI <= m {
          AnswerIsCombination(i, m, queryI, queryJ);
        }
        if m < queryJ {
          AnswerIsCombination(m + 1, j, queryI, queryJ);
        }
        if queryI <= m < queryJ {
          CombinationJoined(Max(i, queryI), m, Min(j, queryJ), Answer(i, m, queryI, queryJ),
                            Answer(m + 1, j, queryI, queryJ));
        }
      }
    }

    /** The part of the query that node pos, which covers i to j, answers. Every read is in
        bounds. */
    function QueryRec(pos: nat, i: nat, j: nat, queryI: nat, queryJ: nat, ghost power: nat): (value: T)
      requires segTree.Length == 2 * |sequence| && Fits(|sequence|, pos, i, j, power) && Built(segTree[..], pos, i, j)
      requires queryI <= queryJ && i <= queryJ && queryI <= j
      reads segTree
      ensures value == Answer(i, j, queryI, queryJ)
      decreases j - i
    {
      if queryI <= i && j <= queryJ then
        if i == j then base(i, sequence, param)
        else
          FitsBelow(|sequence|, pos, i, j, power);
          segTree[pos]
      else
        FitsBelow(|sequence|, pos, i, j, power);
        var m := (i + j) / 2;
        if i <= queryJ && queryI <= m then
          var left := QueryRec(2 * pos + 1, i, m, queryI, queryJ, 2 * power);
          if m + 1 <= queryJ && queryI <= j then
            var right := QueryRec(2 * pos + 2, m + 1, j, queryI, queryJ, 2 * power);
            combine(left, right, param)
          else left
        else QueryRec(2 * pos + 2, m + 1, j, queryI, queryJ, 2 * power)
    }

    /** The values of the positions from i to j, combined in this order; a query that goes past
        the end is answered as far as the sequence goes. */
    function Query(i: nat, j: nat): (value: T)
      requires Valid() && i <= j && i < |sequence|
      reads segTree
      ensures value == Answer(0, |sequence| - 1, i, j) && IsCombination(i, Min(j, |sequence| - 1), value)
      ensures Associative() ==> value == Combined(i, Min(j, |sequence| - 1))
    {
      var value := QueryRec(0, 0, |sequence| - 1, i, j, 1);
      AnswerIsCombination(0, |sequence| - 1, i, j);
      assert Associative() ==> value == Combined(i, Min(j, |sequence| - 1)) by {
        if Associative() {
          CombinationIsUnique(i, Min(j, |sequence| - 1), value);
        }
      }
      value
    }
  }
}
