/** The state of the whole skip list as values: the 32 lanes, the ghost
    ranks of their nodes and the sorted elements, the invariant tying them
    together, and what insert and remove do to all lanes at once. */
module SkipState {
  import opened SortedSeqs
  import opened Lanes

  /** The number of lanes, head nodes included, fixed at construction. */
  const LaneCount: nat := 32

  /** A position on the search path of an insertion and the rank reached
      there: the pair the search records for every lane. */
  datatype NodeSpan = NodeSpan(pos: nat, spanSum: int)

  /** `rs` numbers `n` nodes 0, 1, ..., n - 1: the bottom lane holds every
      element. */
  ghost predicate IsIota(rs: seq<int>, n: nat) {
    |rs| == n && forall k :: 0 <= k < n ==> rs[k] == k
  }

  /** Every node of lane `i` also stands in the lane below: a node occupies
      the lanes 0 up to its own lane index. */
  ghost predicate Stacked(ranks: seq<seq<int>>, i: nat)
    requires 0 < i < |ranks|
  {
    forall x :: x in ranks[i] ==> x in ranks[i - 1]
  }

  /** One lane array and one rank sequence per lane, of matching lengths. */
  ghost predicate Shaped(lanes: seq<seq<Entry>>, ranks: seq<seq<int>>) {
    |lanes| == LaneCount && |ranks| == LaneCount &&
    forall i :: 0 <= i < LaneCount ==> |lanes[i]| == |ranks[i]|
  }

  /** The invariant of the skip list: the elements are sorted, every lane
      holds the elements at its ranks with spans that sum to ranks, the
      bottom lane holds them all, lanes nest, and the lanes above the
      highest lane index are empty. */
  ghost predicate Coherent(lanes: seq<seq<Entry>>, ranks: seq<seq<int>>, elems: seq<int>, top: nat) {
    Shaped(lanes, ranks) && top < LaneCount &&
    StrictlyIncreasing(elems) &&
    (forall i {:trigger LaneMatches(lanes[i], ranks[i], elems)} :: 0 <= i < LaneCount ==> LaneMatches(lanes[i], ranks[i], elems)) &&
    IsIota(ranks[0], |elems|) &&
    (forall i :: 0 < i < LaneCount ==> Stacked(ranks, i)) &&
    (forall i :: top < i < LaneCount ==> ranks[i] == [])
  }

  /** Insert at rank `e` with a node reaching lane index `h`, on every lane. */
  ghost function InsertLanes(lanes: seq<seq<Entry>>, ranks: seq<seq<int>>, e: int, v: int, h: nat): seq<seq<Entry>>
    requires Shaped(lanes, ranks)
  {
    seq(LaneCount, i requires 0 <= i < LaneCount => LaneAfterInsert(lanes[i], ranks[i], e, v, i <= h))
  }

  ghost function InsertRanks(ranks: seq<seq<int>>, e: int, h: nat): seq<seq<int>>
    requires |ranks| == LaneCount
  {
    seq(LaneCount, i requires 0 <= i < LaneCount => RanksAfterInsert(ranks[i], e, i <= h))
  }

  /** Remove the element at rank `e`, on every lane. */
  ghost function RemoveLanes(lanes: seq<seq<Entry>>, ranks: seq<seq<int>>, e: int): seq<seq<Entry>>
    requires Shaped(lanes, ranks)
  {
    seq(LaneCount, i requires 0 <= i < LaneCount => LaneAfterRemove(lanes[i], ranks[i], e))
  }

  ghost function RemoveRanks(ranks: seq<seq<int>>, e: int): seq<seq<int>>
    requires |ranks| == LaneCount
  {
    seq(LaneCount, i requires 0 <= i < LaneCount => RanksAfterRemove(ranks[i], e))
  }

  /** Every rank below the size is in the bottom lane. */
  lemma IotaHas(rs: seq<int>, n: nat, x: int)
    requires IsIota(rs, n) && 0 <= x < n
    ensures x in rs
  {
    assert rs[x] == x;
  }

  /** A node found in lane `i` stands in every lane below it. */
  lemma {:induction false} StackedDown(ranks: seq<seq<int>>, i: nat, j: nat, x: int)
    requires |ranks| == LaneCount && forall l :: 0 < l < LaneCount ==> Stacked(ranks, l)
    requires j <= i < LaneCount && x in ranks[i]
    ensures x in ranks[j]
  {
    if j < i {
      assert Stacked(ranks, i);
      StackedDown(ranks, i - 1, j, x);
    }
  }

  lemma IotaAfterInsert(rs: seq<int>, n: nat, e: nat)
    requires IsIota(rs, n) && e <= n
    ensures IsIota(RanksAfterInsert(rs, e, true), n + 1)
  {
    CountLessOfSplit(rs, e, e);
    var rs' := RanksAfterInsert(rs, e, true);
    forall k | 0 <= k < n + 1 ensures rs'[k] == k {
      if k > e { assert rs'[k] == rs[k - 1] + 1; }
    }
  }

  lemma IotaAfterRemove(rs: seq<int>, n: nat, e: nat)
    requires IsIota(rs, n) && e < n
    ensures IsIota(RanksAfterRemove(rs, e), n - 1)
  {
    CountLessOfSplit(rs, e, e);
    CountLessOfSplit(rs, e + 1, e + 1);
    var rs' := RanksAfterRemove(rs, e);
    forall k | 0 <= k < n - 1 ensures rs'[k] == k {
      if k >= e { assert rs'[k] == rs[k + 1] - 1; }
    }
  }

  /** Inserting an absent `v` at its rank, in lanes 0 up to `h`, keeps the
      list coherent; the highest lane index rises to `h` if below it. */
  lemma InsertCoherent(lanes: seq<seq<Entry>>, ranks: seq<seq<int>>, elems: seq<int>, top: nat, v: int, h: nat)
    requires Coherent(lanes, ranks, elems, top) && v !in elems && h < LaneCount
    ensures Coherent(InsertLanes(lanes, ranks, CountLess(elems, v), v, h),
                     InsertRanks(ranks, CountLess(elems, v), h),
                     Inserted(elems, v), if top < h then h else top)
  {
    var e := CountLess(elems, v);
    var lanes' := InsertLanes(lanes, ranks, e, v, h);
    var ranks' := InsertRanks(ranks, e, h);
    InsertedIsSortedUnion(elems, v);
    InsertKeepsLanes(lanes, ranks, elems, top, v, h);
    IotaAfterInsert(ranks[0], |elems|, e);
    InsertKeepsStacked(lanes, ranks, elems, top, e, h);
    forall i | (if top < h then h else top) < i < LaneCount ensures ranks'[i] == [] {
      assert |ranks'[i]| == 0;
    }
  }

  lemma InsertKeepsLanes(lanes: seq<seq<Entry>>, ranks: seq<seq<int>>, elems: seq<int>, top: nat, v: int, h: nat)
    requires Coherent(lanes, ranks, elems, top)
    ensures forall i :: 0 <= i < LaneCount ==>
      LaneMatches(InsertLanes(lanes, ranks, CountLess(elems, v), v, h)[i],
                  InsertRanks(ranks, CountLess(elems, v), h)[i], Inserted(elems, v))
  {
    var e := CountLess(elems, v);
    forall i | 0 <= i < LaneCount
      ensures LaneMatches(InsertLanes(lanes, ranks, e, v, h)[i], InsertRanks(ranks, e, h)[i], Inserted(elems, v))
    {
      LaneAfterInsertMatches(lanes[i], ranks[i], elems, e, v, i <= h);
    }
  }

  lemma InsertKeepsStacked(lanes: seq<seq<Entry>>, ranks: seq<seq<int>>, elems: seq<int>, top: nat, e: int, h: nat)
    requires Coherent(lanes, ranks, elems, top)
    ensures forall i :: 0 < i < LaneCount ==> Stacked(InsertRanks(ranks, e, h), i)
  {
    var ranks' := InsertRanks(ranks, e, h);
    forall i | 0 < i < LaneCount ensures Stacked(ranks', i) {
      assert Stacked(ranks, i);
      assert LaneMatches(lanes[i], ranks[i], elems) && LaneMatches(lanes[i - 1], ranks[i - 1], elems);
      forall x | x in ranks'[i] ensures x in ranks'[i - 1] {
        InsertedRankOrigin(ranks[i], e, i <= h, x);
        if x in ranks[i] && x < e {
          InsertedRankKept(ranks[i - 1], e, i - 1 <= h, x);
        } else if x - 1 in ranks[i] && e <= x - 1 {
          InsertedRankKept(ranks[i - 1], e, i - 1 <= h, x - 1);
        } else {
          InsertedRankPresent(ranks[i - 1], e, i - 1 <= h);
        }
      }
    }
  }

  /** Removing the element at rank `e` keeps the list coherent. */
  lemma RemoveCoherent(lanes: seq<seq<Entry>>, ranks: seq<seq<int>>, elems: seq<int>, top: nat, e: nat)
    requires Coherent(lanes, ranks, elems, top) && e < |elems|
    ensures Coherent(RemoveLanes(lanes, ranks, e), RemoveRanks(ranks, e), DeleteAt(elems, e), top)
  {
    var ranks' := RemoveRanks(ranks, e);
    DeleteAtIsRemoved(elems, e);
    RemovedIsSortedDifference(elems, elems[e]);
    RemoveKeepsLanes(lanes, ranks, elems, top, e);
    IotaAfterRemove(ranks[0], |elems|, e);
    RemoveKeepsStacked(lanes, ranks, elems, top, e);
    forall i | top < i < LaneCount ensures ranks'[i] == [] {
      assert |ranks'[i]| == 0;
    }
  }

  lemma RemoveKeepsLanes(lanes: seq<seq<Entry>>, ranks: seq<seq<int>>, elems: seq<int>, top: nat, e: nat)
    requires Coherent(lanes, ranks, elems, top) && e < |elems|
    ensures forall i :: 0 <= i < LaneCount ==>
      LaneMatches(RemoveLanes(lanes, ranks, e)[i], RemoveRanks(ranks, e)[i], DeleteAt(elems, e))
  {
    forall i | 0 <= i < LaneCount
      ensures LaneMatches(RemoveLanes(lanes, ranks, e)[i], RemoveRanks(ranks, e)[i], DeleteAt(elems, e))
    {
      LaneAfterRemoveMatches(lanes[i], ranks[i], elems, e);
    }
  }

  lemma RemoveKeepsStacked(lanes: seq<seq<Entry>>, ranks: seq<seq<int>>, elems: seq<int>, top: nat, e: int)
    requires Coherent(lanes, ranks, elems, top)
    ensures forall i :: 0 < i < LaneCount ==> Stacked(RemoveRanks(ranks, e), i)
  {
    var ranks' := RemoveRanks(ranks, e);
    forall i | 0 < i < LaneCount ensures Stacked(ranks', i) {
      assert Stacked(ranks, i);
      assert LaneMatches(lanes[i], ranks[i], elems) && LaneMatches(lanes[i - 1], ranks[i - 1], elems);
      forall x | x in ranks'[i] ensures x in ranks'[i - 1] {
        RemovedRankOrigin(ranks[i], e, x);
        if x in ranks[i] && x < e {
          RemovedRankKept(ranks[i - 1], e, x);
        } else {
          RemovedRankKept(ranks[i - 1], e, x + 1);
        }
      }
    }
  }

  /** The bottom lane lists every element, in increasing order, and
      summing its spans up to a node gives that node's index. */
  lemma BottomLaneHoldsAll(lanes: seq<seq<Entry>>, ranks: seq<seq<int>>, elems: seq<int>, top: nat)
    requires Coherent(lanes, ranks, elems, top)
    ensures |lanes[0]| == |elems|
    ensures forall k :: 0 <= k < |elems| ==> lanes[0][k].value == elems[k] && lanes[0][k].span == (if k == 0 then 0 else 1)
  {
    assert LaneMatches(lanes[0], ranks[0], elems);
    forall k | 0 <= k < |elems|
      ensures lanes[0][k].value == elems[k] && lanes[0][k].span == (if k == 0 then 0 else 1)
    {
      assert lanes[0][k].value == elems[ranks[0][k]] && lanes[0][k].span == ranks[0][k] - Before(ranks[0], k);
    }
  }

  /** A freshly inserted element stands in exactly the lanes 0 up to `h`. */
  lemma InsertedOccupies(ranks: seq<seq<int>>, e: int, h: nat, i: nat)
    requires |ranks| == LaneCount && i < LaneCount && forall j :: 0 <= j < LaneCount ==> StrictlyIncreasing(ranks[j])
    ensures e in InsertRanks(ranks, e, h)[i] <==> i <= h
  {
    InsertedRankPresent(ranks[i], e, i <= h);
  }

  /** Where an insertion of rank `e` attaches in a lane: the number of nodes
      ranked below `e`, and the rank reached there (0 at the head). */
  ghost function Boundary(rs: seq<int>, e: int): NodeSpan {
    NodeSpan(CountLess(rs, e), Before(rs, CountLess(rs, e)))
  }

  /** In the bottom lane the count of ranks below `x` is `x` itself. */
  lemma IotaCountLess(rs: seq<int>, n: nat, x: nat)
    requires IsIota(rs, n) && x <= n
    ensures CountLess(rs, x) == x
  {
    CountLessOfSplit(rs, x, x);
  }

  /** The node before position `p` of lane `i + 1` also stands in lane `i`. */
  lemma NodeStandsBelow(lanes: seq<seq<Entry>>, ranks: seq<seq<int>>, elems: seq<int>, top: nat, i: nat, p: nat)
    requires Coherent(lanes, ranks, elems, top) && i + 1 < LaneCount && 0 < p <= |lanes[i + 1]|
    ensures HasValue(lanes[i], lanes[i + 1][p - 1].value)
  {
    assert LaneMatches(lanes[i + 1], ranks[i + 1], elems) && LaneMatches(lanes[i], ranks[i], elems);
    assert Stacked(ranks, i + 1);
    var x := ranks[i + 1][p - 1];
    assert lanes[i + 1][p - 1].value == elems[x];
    assert x in ranks[i + 1];
    var k :| 0 <= k < |ranks[i]| && ranks[i][k] == x;
    assert lanes[i][k].value == elems[x];
  }

  /** The node holding the same value in the lane below has the same rank,
      and no node before it has a larger one. */
  lemma SameNodeBelow(lanes: seq<seq<Entry>>, ranks: seq<seq<int>>, elems: seq<int>, top: nat, i: nat, p: nat, q: nat)
    requires Coherent(lanes, ranks, elems, top) && i + 1 < LaneCount && 0 < p <= |lanes[i + 1]|
    requires q < |lanes[i]| && lanes[i][q].value == lanes[i + 1][p - 1].value
    ensures ranks[i][q] == ranks[i + 1][p - 1]
    ensures forall k :: 0 <= k <= q ==> ranks[i][k] <= ranks[i + 1][p - 1]
  {
    assert LaneMatches(lanes[i + 1], ranks[i + 1], elems) && LaneMatches(lanes[i], ranks[i], elems);
    assert lanes[i][q].value == elems[ranks[i][q]];
    assert lanes[i + 1][p - 1].value == elems[ranks[i + 1][p - 1]];
  }
}
