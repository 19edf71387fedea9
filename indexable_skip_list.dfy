/** The indexable skip list: a sorted set of distinct elements kept in 32
    lanes of linked nodes, where every node records its span so that the
    element at a given index is found by summing spans along the search
    path.

    Each lane is held as the sequence of its nodes behind the head (see
    module Lanes). The ghost fields `elems` and `ranks` give the abstract
    value, the sorted sequence of elements, and the 0-based rank of every
    node; `Valid` ties the two views together. */
module SkipList {
  import opened SortedSeqs
  import opened Lanes
  import opened LaneHeight
  import opened SkipState

  /** A node recorded on the way down for a removal: the node right of the
      search position in a lane the removed element does not reach. */
  datatype LaneNode = LaneNode(lane: nat, pos: nat)

  datatype Option<T> = None | Some(value: T)

  /** The outcome of an access by index: the element, or the out-of-bounds
      error for `index`. */
  datatype Result<T> = Ok(value: T) | OutOfBounds(index: int)

  class IndexableSkipList {
    /** The nodes of each lane behind its head, leftmost first. */
    var lanes: seq<seq<Entry>>
    /** The highest lane that may hold nodes; searches start there. */
    var highestLaneIndex: nat
    var size: nat
    /** The elements, in increasing order. */
    ghost var elems: seq<int>
    /** For each lane, the rank in `elems` of each of its nodes. */
    ghost var ranks: seq<seq<int>>

    ghost predicate Valid()
      reads this
    {
      Coherent(lanes, ranks, elems, highestLaneIndex) && size == |elems|
    }

    /** An empty list: 32 empty lanes, searches start at lane 0. */
    constructor ()
      ensures Valid() && elems == [] && size == 0 && highestLaneIndex == 0
      ensures forall i :: 0 <= i < LaneCount ==> lanes[i] == []
    {
      var heads: seq<seq<Entry>> := [];
      for i := 0 to LaneCount
        invariant |heads| == i && forall j :: 0 <= j < i ==> heads[j] == []
      {
        heads := heads + [[]];
      }
      lanes := heads;
      highestLaneIndex := 0;
      size := 0;
      elems := [];
      ranks := seq(LaneCount, _ => []);
    }

    method Size() returns (n: nat)
      requires Valid()
      ensures n == |elems|
    {
      n := size;
    }

    method IsEmpty() returns (empty: bool)
      requires Valid()
      ensures empty <==> elems == []
    {
      empty := size == 0;
    }

    /** Following a node's instances down: the position in lane `i` of the
        node before position `p` of lane `i + 1` (the head stays the head). */
    function DownPos(i: nat, p: nat): (r: nat)
      reads this
      requires Valid() && i + 1 < LaneCount && p <= |lanes[i + 1]|
      ensures r <= |lanes[i]| && (r == 0 <==> p == 0)
      ensures r > 0 ==> lanes[i][r - 1].value == lanes[i + 1][p - 1].value
      ensures Before(ranks[i], r) == Before(ranks[i + 1], p)
      ensures forall k :: 0 <= k < r ==> ranks[i][k] <= Before(ranks[i + 1], p)
    {
      if p == 0 then 0
      else
        NodeStandsBelow(lanes, ranks, elems, highestLaneIndex, i, p);
        var q := IndexOfValue(lanes[i], lanes[i + 1][p - 1].value);
        SameNodeBelow(lanes, ranks, elems, highestLaneIndex, i, p, q);
        q + 1
    }

    /** The inner walk of a search by value along lane `i`: step right past
        every node below `v`, stopping at `v` itself (found) or at the first
        node above it. */
    method AdvanceByValue(i: nat, v: int, p0: nat, s0: int) returns (p: nat, spanSum: int, found: bool)
      requires Valid() && i < LaneCount && p0 <= |lanes[i]|
      requires forall k :: 0 <= k < p0 ==> ranks[i][k] < CountLess(elems, v)
      requires s0 == Before(ranks[i], p0)
      ensures p0 <= p <= |lanes[i]| && spanSum == Before(ranks[i], p)
      ensures SplitsAt(ranks[i], p, CountLess(elems, v))
      ensures found <==> v in elems && CountLess(elems, v) in ranks[i]
      ensures found ==> p < |lanes[i]| && lanes[i][p].value == v
    {
      ghost var e := CountLess(elems, v);
      assert LaneMatches(lanes[i], ranks[i], elems);
      p, spanSum := p0, s0;
      while p < |lanes[i]|
        invariant p0 <= p <= |lanes[i]| && spanSum == Before(ranks[i], p)
        invariant forall k :: 0 <= k < p ==> ranks[i][k] < e
        decreases |lanes[i]| - p
      {
        var next := lanes[i][p];
        ValueOrder(lanes[i], ranks[i], elems, v, p);
        if v == next.value {
          return p, spanSum, true;
        }
        if v < next.value {
          break;
        }
        p := p + 1;
        spanSum := spanSum + next.span;
      }
      found := false;
    }

    /** One lane of a search by value: come down from the position reached
        in lane `i + 1` (or start at the head of the highest lane), then
        walk right along lane `i`. */
    method DescendByValue(i: nat, v: int, p0: nat, s0: int) returns (p: nat, spanSum: int, found: bool)
      requires Valid() && i <= highestLaneIndex
      requires i == highestLaneIndex ==> p0 == 0 && s0 == 0
      requires i < highestLaneIndex ==>
        p0 <= |lanes[i + 1]| && SplitsAt(ranks[i + 1], p0, CountLess(elems, v)) && s0 == Before(ranks[i + 1], p0)
      ensures p <= |lanes[i]| && SplitsAt(ranks[i], p, CountLess(elems, v)) && spanSum == Before(ranks[i], p)
      ensures found <==> v in elems && CountLess(elems, v) in ranks[i]
      ensures found ==> p < |lanes[i]| && lanes[i][p].value == v
      ensures !found ==> p == CountLess(ranks[i], CountLess(elems, v))
    {
      var q := p0;
      if i < highestLaneIndex {
        q := DownPos(i, p0);
      }
      p, spanSum, found := AdvanceByValue(i, v, q, s0);
      CountLessOfSplit(ranks[i], p, CountLess(elems, v));
    }

    /** One lane of a search by index, as `DescendByValue`. */
    method DescendByIndex(i: nat, index: int, p0: nat, s0: int) returns (p: nat, spanSum: int, found: bool)
      requires Valid() && i <= highestLaneIndex
      requires i == highestLaneIndex ==> p0 == 0 && s0 == 0
      requires i < highestLaneIndex ==>
        p0 <= |lanes[i + 1]| && SplitsAt(ranks[i + 1], p0, index) && s0 == Before(ranks[i + 1], p0)
      ensures p <= |lanes[i]| && SplitsAt(ranks[i], p, index) && spanSum == Before(ranks[i], p)
      ensures found <==> index in ranks[i]
      ensures found ==> p < |lanes[i]| && ranks[i][p] == index
      ensures !found ==> p == CountLess(ranks[i], index)
    {
      var q := p0;
      if i < highestLaneIndex {
        q := DownPos(i, p0);
      }
      p, spanSum, found := AdvanceByIndex(i, index, q, s0);
      CountLessOfSplit(ranks[i], p, index);
    }

    /** The inner walk of a search by index along lane `i`: step right while
        the rank reached stays below `index`, stopping at the node of rank
        `index` (found) or at the first node beyond it. */
    method AdvanceByIndex(i: nat, index: int, p0: nat, s0: int) returns (p: nat, spanSum: int, found: bool)
      requires Valid() && i < LaneCount && p0 <= |lanes[i]|
      requires forall k :: 0 <= k < p0 ==> ranks[i][k] < index
      requires s0 == Before(ranks[i], p0)
      ensures p0 <= p <= |lanes[i]| && spanSum == Before(ranks[i], p)
      ensures SplitsAt(ranks[i], p, index)
      ensures found <==> index in ranks[i]
      ensures found ==> p < |lanes[i]| && ranks[i][p] == index
    {
      assert LaneMatches(lanes[i], ranks[i], elems);
      p, spanSum := p0, s0;
      while p < |lanes[i]|
        invariant p0 <= p <= |lanes[i]| && spanSum == Before(ranks[i], p)
        invariant forall k :: 0 <= k < p ==> ranks[i][k] < index
        decreases |lanes[i]| - p
      {
        var next := lanes[i][p];
        var spanSumInc := spanSum + next.span;
        if spanSumInc == index {
          return p, spanSum, true;
        }
        if spanSumInc > index {
          break;
        }
        p := p + 1;
        spanSum := spanSum + next.span;
      }
      found := false;
    }

    /** The search path of an insertion of `v`: for every lane up to the
        highest, where the new node would attach and the rank reached there;
        nothing when `v` is already present. */
    method PathToInsert(v: int) returns (path: Option<seq<NodeSpan>>)
      requires Valid()
      ensures path.None? <==> v in elems
      ensures path.Some? ==> (|path.value| == highestLaneIndex + 1 &&
        forall j :: 0 <= j < |path.value| ==> path.value[j] == Boundary(ranks[j], CountLess(elems, v)))
    {
      ghost var e := CountLess(elems, v);
      PresentAtRank(elems, v);
      if v in elems {
        IotaHas(ranks[0], |elems|, e);
      }
      var leftNodes := new NodeSpan[highestLaneIndex + 1](_ => NodeSpan(0, 0));
      var i: nat := highestLaneIndex + 1;
      var p: nat, spanSum: int := 0, 0;
      while i > 0
        invariant i <= highestLaneIndex + 1
        invariant i == highestLaneIndex + 1 ==> p == 0 && spanSum == 0
        invariant i <= highestLaneIndex ==>
          p <= |lanes[i]| && SplitsAt(ranks[i], p, e) && spanSum == Before(ranks[i], p) && !(v in elems && e in ranks[i])
        invariant forall j :: i <= j <= highestLaneIndex ==> leftNodes[j] == Boundary(ranks[j], e)
        decreases i
      {
        i := i - 1;
        var found;
        p, spanSum, found := DescendByValue(i, v, p, spanSum);
        if found {
          return None;
        }
        leftNodes[i] := NodeSpan(p, spanSum);
      }
      return Some(leftNodes[..]);
    }

    /** Inserts `v` unless present. The new node reaches lane index
        `LaneIndex(size, trailingZeros)`, where `trailingZeros` is the
        number of trailing zero bits of the random draw. */
    method Insert(v: int, trailingZeros: nat) returns (inserted: bool)
      requires Valid() && trailingZeros <= 32
      modifies this
      ensures Valid()
      ensures inserted <==> v !in old(elems)
      ensures !inserted ==> unchanged(this)
      ensures inserted ==> elems == Inserted(old(elems), v) && size == old(size) + 1
      ensures inserted ==> (highestLaneIndex ==
        if old(highestLaneIndex) < LaneIndex(old(size), trailingZeros) then LaneIndex(old(size), trailingZeros) else old(highestLaneIndex))
      ensures inserted ==>
        lanes == InsertLanes(old(lanes), old(ranks), CountLess(old(elems), v), v, LaneIndex(old(size), trailingZeros)) &&
        ranks == InsertRanks(old(ranks), CountLess(old(elems), v), LaneIndex(old(size), trailingZeros))
    {
      var insertPath := PathToInsert(v);
      if insertPath.None? {
        return false;
      }
      var path := insertPath.value;
      ghost var e := CountLess(elems, v);
      IotaCountLess(ranks[0], |elems|, e);

      var elementIndex := if path[0].pos == 0 then 0 else path[0].spanSum + 1;
      assert elementIndex == e;
      var laneIndex := LaneIndex(size, trailingZeros);
      var newTop := if highestLaneIndex < laneIndex then laneIndex else highestLaneIndex;

      var ls := LinkNode(lanes, ranks, path, elementIndex, v, laneIndex, newTop);
      InsertCoherent(lanes, ranks, elems, highestLaneIndex, v, laneIndex);
      lanes := ls;
      highestLaneIndex := newTop;
      size := size + 1;
      elems := Inserted(elems, v);
      ranks := InsertRanks(ranks, e, laneIndex);
      return true;
    }

    /** Whether `v` is present. */
    method Contains(v: int) returns (present: bool)
      requires Valid()
      ensures present <==> v in elems
    {
      ghost var e := CountLess(elems, v);
      PresentAtRank(elems, v);
      if v in elems {
        IotaHas(ranks[0], |elems|, e);
      }
      var i: nat := highestLaneIndex + 1;
      var p: nat, spanSum: int := 0, 0;
      while i > 0
        invariant i <= highestLaneIndex + 1
        invariant i == highestLaneIndex + 1 ==> p == 0 && spanSum == 0
        invariant i <= highestLaneIndex ==>
          p <= |lanes[i]| && SplitsAt(ranks[i], p, e) && spanSum == Before(ranks[i], p) && !(v in elems && e in ranks[i])
        decreases i
      {
        i := i - 1;
        var found;
        p, spanSum, found := DescendByValue(i, v, p, spanSum);
        if found {
          return true;
        }
      }
      return false;
    }

    /** The element at 0-based `index`, or the out-of-bounds error. */
    method GetAtIndex(index: int) returns (r: Result<int>)
      requires Valid()
      ensures 0 <= index < |elems| ==> r == Ok(elems[index])
      ensures !(0 <= index < |elems|) ==> r == OutOfBounds(index)
    {
      if index < 0 || index >= size {
        return OutOfBounds(index);
      }
      IotaHas(ranks[0], |elems|, index);
      var i: nat := highestLaneIndex + 1;
      var p: nat, spanSum: int := 0, 0;
      while i > 0
        invariant i <= highestLaneIndex + 1
        invariant i == highestLaneIndex + 1 ==> p == 0 && spanSum == 0
        invariant i <= highestLaneIndex ==>
          p <= |lanes[i]| && SplitsAt(ranks[i], p, index) && spanSum == Before(ranks[i], p) && index !in ranks[i]
        decreases i
      {
        i := i - 1;
        var found;
        p, spanSum, found := DescendByIndex(i, index, p, spanSum);
        if found {
          assert LaneMatches(lanes[i], ranks[i], elems) && lanes[i][p].value == elems[ranks[i][p]];
          return Ok(lanes[i][p].value);
        }
      }
      // every index below the size is found in the bottom lane at the latest
      assert false;
      return OutOfBounds(index);
    }

    /** Unlinks the node of `v` from lanes 0 up to `nodeTop`, where it
        stands, and shortens the span of every node in `rightNodesAbove`,
        which fly over it in the lanes above. */
    method RemoveNode(nodeTop: nat, v: int, rightNodesAbove: seq<LaneNode>)
      requires Valid() && v in elems && nodeTop <= highestLaneIndex
      requires CountLess(elems, v) in ranks[nodeTop]
      requires forall j :: nodeTop < j < LaneCount ==> CountLess(elems, v) !in ranks[j]
      requires rightNodesAbove == Overflown(ranks, nodeTop + 1, highestLaneIndex, CountLess(elems, v))
      modifies this
      ensures Valid()
      ensures elems == Removed(old(elems), v) && size == old(size) - 1 && highestLaneIndex == old(highestLaneIndex)
      ensures lanes == RemoveLanes(old(lanes), old(ranks), CountLess(old(elems), v))
      ensures ranks == RemoveRanks(old(ranks), CountLess(old(elems), v))
    {
      ghost var e := CountLess(elems, v);
      PresentAtRank(elems, v);
      var ls := DetachNode(lanes, ranks, elems, highestLaneIndex, nodeTop, v, rightNodesAbove);
      RemoveCoherent(lanes, ranks, elems, highestLaneIndex, e);
      DeleteAtIsRemoved(elems, e);
      lanes := ls;
      size := size - 1;
      elems := DeleteAt(elems, e);
      ranks := RemoveRanks(ranks, e);
    }

    /** The search loop of `remove`: from the top lane down, walk right
        past every node below `v`, noting the node each lane stops before,
        until the node of `v` turns up (or the bottom lane is passed). */
    method SearchToRemove(v: int) returns (found: bool, nodeTop: nat, rightNodesAbove: seq<LaneNode>)
      requires Valid()
      ensures found <==> v in elems
      ensures found ==> nodeTop <= highestLaneIndex && CountLess(elems, v) in ranks[nodeTop]
      ensures found ==> forall j :: nodeTop < j < LaneCount ==> CountLess(elems, v) !in ranks[j]
      ensures found ==> rightNodesAbove == Overflown(ranks, nodeTop + 1, highestLaneIndex, CountLess(elems, v))
    {
      ghost var e := CountLess(elems, v);
      PresentAtRank(elems, v);
      if v in elems {
        IotaHas(ranks[0], |elems|, e);
      }
      rightNodesAbove := [];
      var i: nat := highestLaneIndex + 1;
      var p: nat, spanSum: int := 0, 0;
      while i > 0
        invariant i <= highestLaneIndex + 1
        invariant i == highestLaneIndex + 1 ==> p == 0 && spanSum == 0
        invariant i <= highestLaneIndex ==>
          p <= |lanes[i]| && SplitsAt(ranks[i], p, e) && spanSum == Before(ranks[i], p) && !(v in elems && e in ranks[i])
        invariant v in elems ==> forall j :: i <= j < LaneCount ==> e !in ranks[j]
        invariant rightNodesAbove == Overflown(ranks, i, highestLaneIndex, e)
        decreases i
      {
        i := i - 1;
        p, spanSum, found := DescendByValue(i, v, p, spanSum);
        if found {
          return true, i, rightNodesAbove;
        }
        if p < |lanes[i]| {
          rightNodesAbove := rightNodesAbove + [LaneNode(i, p)];
        }
      }
      return false, 0, rightNodesAbove;
    }

    /** Removes `v` if present; reports whether it was. */
    method Remove(v: int) returns (removed: bool)
      requires Valid()
      modifies this
      ensures Valid()
      ensures removed <==> v in old(elems)
      ensures elems == Removed(old(elems), v)
      ensures !removed ==> unchanged(this)
      ensures removed ==> size == old(size) - 1 && highestLaneIndex == old(highestLaneIndex)
      ensures removed ==> lanes == RemoveLanes(old(lanes), old(ranks), CountLess(old(elems), v))
    {
      var nodeTop, rightNodesAbove;
      removed, nodeTop, rightNodesAbove := SearchToRemove(v);
      if removed {
        RemoveNode(nodeTop, v, rightNodesAbove);
      } else {
        PresentAtRank(elems, v);
      }
    }

    /** The search loop of `removeAtIndex`: from the top lane down, walk
        right while the rank reached stays below `index`, noting the node
        each lane stops before, until the node of rank `index` turns up. */
    method SearchIndexToRemove(index: nat) returns (nodeTop: nat, val: int, rightNodesAbove: seq<LaneNode>)
      requires Valid() && index < size
      ensures val == elems[index] && nodeTop <= highestLaneIndex && index in ranks[nodeTop]
      ensures forall j :: nodeTop < j < LaneCount ==> index !in ranks[j]
      ensures rightNodesAbove == Overflown(ranks, nodeTop + 1, highestLaneIndex, index)
    {
      IotaHas(ranks[0], |elems|, index);
      rightNodesAbove := [];
      var i: nat := highestLaneIndex + 1;
      var p: nat, spanSum: int := 0, 0;
      while i > 0
        invariant i <= highestLaneIndex + 1
        invariant i == highestLaneIndex + 1 ==> p == 0 && spanSum == 0
        invariant i <= highestLaneIndex ==>
          p <= |lanes[i]| && SplitsAt(ranks[i], p, index) && spanSum == Before(ranks[i], p) && index !in ranks[i]
        invariant forall j :: i <= j < LaneCount ==> index !in ranks[j]
        invariant rightNodesAbove == Overflown(ranks, i, highestLaneIndex, index)
        decreases i
      {
        i := i - 1;
        var found;
        p, spanSum, found := DescendByIndex(i, index, p, spanSum);
        if found {
          assert LaneMatches(lanes[i], ranks[i], elems);
          return i, lanes[i][p].value, rightNodesAbove;
        }
        if p < |lanes[i]| {
          rightNodesAbove := rightNodesAbove + [LaneNode(i, p)];
        }
      }
      // every index below the size is found in the bottom lane at the latest
      assert false;
    }

    /** Removes and returns the element at 0-based `index`, or reports the
        out-of-bounds error and changes nothing. */
    method RemoveAtIndex(index: int) returns (r: Result<int>)
      requires Valid()
      modifies this
      ensures Valid()
      ensures 0 <= index < old(size) ==> r == Ok(old(elems)[index]) && elems == DeleteAt(old(elems), index)
      ensures 0 <= index < old(size) ==> size == old(size) - 1 && highestLaneIndex == old(highestLaneIndex)
      ensures 0 <= index < old(size) ==> lanes == RemoveLanes(old(lanes), old(ranks), index)
      ensures !(0 <= index < old(size)) ==> r == OutOfBounds(index) && unchanged(this)
    {
      if index < 0 || index >= size {
        return OutOfBounds(index);
      }
      var nodeTop, val, rightNodesAbove := SearchIndexToRemove(index);
      RankOfIndex(elems, index);
      DeleteAtIsRemoved(elems, index);
      RemoveNode(nodeTop, val, rightNodesAbove);
      return Ok(val);
    }
  }

  /** The `rightNodesAbove` list of a removal of rank `e` whose lanes `lo`
      up to `top` have been searched: top lane first, one entry per lane
      whose search stopped before a node, naming that node. */
  ghost function Overflown(ranks: seq<seq<int>>, lo: nat, top: nat, e: int): seq<LaneNode>
    requires top < |ranks|
    decreases top + 1 - lo
  {
    if lo > top then []
    else
      var p := CountLess(ranks[lo], e);
      Overflown(ranks, lo + 1, top, e) + (if p < |ranks[lo]| then [LaneNode(lo, p)] else [])
  }

  /** Each entry of `r` is the first node at rank `e` or beyond of a lane
      between `lo` and `top`. */
  ghost predicate EntriesBetween(r: seq<LaneNode>, ranks: seq<seq<int>>, lo: nat, top: nat, e: int)
    requires top < |ranks|
  {
    forall m :: 0 <= m < |r| ==>
      lo <= r[m].lane <= top && r[m].pos == CountLess(ranks[r[m].lane], e) < |ranks[r[m].lane]|
  }

  /** The entries of `r` name lanes from the highest down, each once. */
  ghost predicate Descending(r: seq<LaneNode>) {
    forall m, m' :: 0 <= m < m' < |r| ==> r[m].lane > r[m'].lane
  }

  lemma {:induction false} OverflownEntries(ranks: seq<seq<int>>, lo: nat, top: nat, e: int)
    requires top < |ranks|
    decreases top + 1 - lo
    ensures EntriesBetween(Overflown(ranks, lo, top, e), ranks, lo, top, e)
  {
    if lo <= top {
      OverflownEntries(ranks, lo + 1, top, e);
      var r0 := Overflown(ranks, lo + 1, top, e);
      var r := Overflown(ranks, lo, top, e);
      var p := CountLess(ranks[lo], e);
      var t := if p < |ranks[lo]| then [LaneNode(lo, p)] else [];
      assert r == r0 + t;
      forall m | 0 <= m < |r|
        ensures lo <= r[m].lane <= top && r[m].pos == CountLess(ranks[r[m].lane], e) < |ranks[r[m].lane]|
      {
        if m < |r0| {
          assert r[m] == r0[m];
        } else {
          assert r[m] == LaneNode(lo, p);
        }
      }
    }
  }

  /** The list runs from the highest lane down, one entry per lane. */
  lemma {:induction false} OverflownDescending(ranks: seq<seq<int>>, lo: nat, top: nat, e: int)
    requires top < |ranks|
    decreases top + 1 - lo
    ensures Descending(Overflown(ranks, lo, top, e))
  {
    if lo <= top {
      OverflownDescending(ranks, lo + 1, top, e);
      OverflownEntries(ranks, lo + 1, top, e);
      var r0 := Overflown(ranks, lo + 1, top, e);
      var r := Overflown(ranks, lo, top, e);
      var p := CountLess(ranks[lo], e);
      var t := if p < |ranks[lo]| then [LaneNode(lo, p)] else [];
      assert r == r0 + t;
      forall m, m' | 0 <= m < m' < |r| ensures r[m].lane > r[m'].lane {
        assert r[m] == r0[m];
        if m' < |r0| { assert r[m'] == r0[m']; } else { assert r[m'] == LaneNode(lo, p); }
      }
    }
  }

  /** The lanes after the nodes of `nodes`, in order, each lose one from
      their span. */
  ghost function Shortened(ls: seq<seq<Entry>>, nodes: seq<LaneNode>): (r: seq<seq<Entry>>)
    ensures |r| == |ls| && forall l :: 0 <= l < |ls| ==> |r[l]| == |ls[l]|
  {
    if nodes == [] then ls
    else
      var r := Shortened(ls, nodes[..|nodes| - 1]);
      var n := nodes[|nodes| - 1];
      if n.lane < |r| && n.pos <= |r[n.lane]| then r[n.lane := AdjustSpan(r[n.lane], n.pos, -1)] else r
  }

  lemma ShortenedLast(ls: seq<seq<Entry>>, nodes: seq<LaneNode>, n: LaneNode)
    ensures var r := Shortened(ls, nodes);
      Shortened(ls, nodes + [n]) == if n.lane < |r| && n.pos <= |r[n.lane]| then r[n.lane := AdjustSpan(r[n.lane], n.pos, -1)] else r
  {
    assert (nodes + [n])[..|nodes|] == nodes;
  }

  /** Shortening the spans of the `rightNodesAbove` list of lanes `lo` up to
      `top` shortens, in each of those lanes, the first node at rank `e` or
      beyond, if there is one, and leaves every other lane alone. */
  lemma {:induction false} ShortenedOverflown(ls0: seq<seq<Entry>>, ranks: seq<seq<int>>, lo: nat, top: nat, e: int, l: nat)
    requires top < |ranks| && |ls0| == |ranks| && forall j :: lo <= j <= top ==> |ls0[j]| == |ranks[j]|
    requires l < |ls0|
    decreases top + 1 - lo
    ensures Shortened(ls0, Overflown(ranks, lo, top, e))[l] ==
      if lo <= l <= top then AdjustSpan(ls0[l], CountLess(ranks[l], e), -1) else ls0[l]
  {
    if lo <= top {
      ShortenedOverflown(ls0, ranks, lo + 1, top, e, l);
      var r0 := Overflown(ranks, lo + 1, top, e);
      var r := Overflown(ranks, lo, top, e);
      var p := CountLess(ranks[lo], e);
      if p < |ranks[lo]| {
        assert r == r0 + [LaneNode(lo, p)];
        ShortenedLast(ls0, r0, LaneNode(lo, p));
      } else {
        assert r == r0;
      }
    }
  }

  /** The lanes the removed node stood in are left alone by the shortening. */
  lemma ShortenedBelow(ls0: seq<seq<Entry>>, ranks: seq<seq<int>>, top: nat, nodeTop: nat, e: int)
    requires top < |ranks| == |ls0| && nodeTop < |ls0|
    requires forall j :: nodeTop < j <= top ==> |ls0[j]| == |ranks[j]|
    ensures forall l :: 0 <= l <= nodeTop ==> Shortened(ls0, Overflown(ranks, nodeTop + 1, top, e))[l] == ls0[l]
  {
    forall l | 0 <= l <= nodeTop ensures Shortened(ls0, Overflown(ranks, nodeTop + 1, top, e))[l] == ls0[l] {
      ShortenedOverflown(ls0, ranks, nodeTop + 1, top, e, l);
    }
  }

  /** Above the removed node, the shortening is what removal at rank `e`
      does to a lane the node does not stand in. */
  lemma ShortenedAbove(ls0: seq<seq<Entry>>, lanes: seq<seq<Entry>>, ranks: seq<seq<int>>, top: nat, nodeTop: nat, e: int)
    requires Shaped(lanes, ranks) && top < LaneCount && |ls0| == LaneCount
    requires forall l :: nodeTop < l < LaneCount ==> ls0[l] == lanes[l] && e !in ranks[l]
    requires forall l :: top < l < LaneCount ==> ranks[l] == []
    ensures forall l :: nodeTop < l < LaneCount ==>
      Shortened(ls0, Overflown(ranks, nodeTop + 1, top, e))[l] == LaneAfterRemove(lanes[l], ranks[l], e)
  {
    forall l | nodeTop < l < LaneCount
      ensures Shortened(ls0, Overflown(ranks, nodeTop + 1, top, e))[l] == LaneAfterRemove(lanes[l], ranks[l], e)
    {
      ShortenedOverflown(ls0, ranks, nodeTop + 1, top, e, l);
      var b := CountLess(ranks[l], e);
      assert !(b < |ranks[l]| && ranks[l][b] == e);
      assert LaneAfterRemove(lanes[l], ranks[l], e) == AdjustSpan(lanes[l], b, -1);
      if top < l {
        assert |lanes[l]| == 0;
      }
    }
  }

  /** The lanes of `removeNode` once both its loops have run: what removal
      at the rank of `v` does to every lane. */
  method DetachNode(lanes: seq<seq<Entry>>, ghost ranks: seq<seq<int>>, ghost elems: seq<int>, ghost top: nat,
                    nodeTop: nat, v: int, rightNodesAbove: seq<LaneNode>) returns (ls: seq<seq<Entry>>)
    requires Coherent(lanes, ranks, elems, top) && v in elems && nodeTop <= top
    requires CountLess(elems, v) in ranks[nodeTop]
    requires forall j :: nodeTop < j < LaneCount ==> CountLess(elems, v) !in ranks[j]
    requires rightNodesAbove == Overflown(ranks, nodeTop + 1, top, CountLess(elems, v))
    ensures ls == RemoveLanes(lanes, ranks, CountLess(elems, v))
  {
    ls := UnlinkInstances(lanes, ranks, elems, top, nodeTop, v);
    ls := ShortenOverflights(ls, lanes, ranks, top, rightNodesAbove, nodeTop, CountLess(elems, v));
  }

  /** The first loop of `removeNode`: unlink the node of `v` from every lane
      it stands in, lanes 0 up to `nodeTop`, found by following it down. */
  method UnlinkInstances(lanes: seq<seq<Entry>>, ghost ranks: seq<seq<int>>, ghost elems: seq<int>, ghost top: nat,
                         nodeTop: nat, v: int) returns (ls: seq<seq<Entry>>)
    requires Coherent(lanes, ranks, elems, top) && v in elems
    requires nodeTop < LaneCount && CountLess(elems, v) in ranks[nodeTop]
    ensures |ls| == LaneCount
    ensures forall l :: 0 <= l <= nodeTop ==> ls[l] == LaneAfterRemove(lanes[l], ranks[l], CountLess(elems, v))
    ensures forall l :: nodeTop < l < LaneCount ==> ls[l] == lanes[l]
  {
    ls := lanes;
    for j := 0 to nodeTop + 1
      invariant |ls| == LaneCount
      invariant forall l :: 0 <= l < j ==> ls[l] == LaneAfterRemove(lanes[l], ranks[l], CountLess(elems, v))
      invariant forall l :: j <= l < LaneCount ==> ls[l] == lanes[l]
    {
      UnlinkFacts(lanes, ranks, elems, top, nodeTop, j, v);
      var q := IndexOfValue(ls[j], v);
      ls := ls[j := Unlink(ls[j], q)];
    }
  }

  /** The second loop of `removeNode`: every node that flies over the
      removed element loses one from its span; the lanes it reaches are
      left as they were. */
  method ShortenOverflights(ls0: seq<seq<Entry>>, lanes: seq<seq<Entry>>, ghost ranks: seq<seq<int>>, ghost top: nat,
                            rightNodesAbove: seq<LaneNode>, nodeTop: nat, ghost e: int) returns (ls: seq<seq<Entry>>)
    requires Shaped(lanes, ranks) && top < LaneCount && nodeTop < LaneCount && |ls0| == LaneCount
    requires forall l :: nodeTop < l < LaneCount ==> ls0[l] == lanes[l] && e !in ranks[l]
    requires forall l :: top < l < LaneCount ==> ranks[l] == []
    requires rightNodesAbove == Overflown(ranks, nodeTop + 1, top, e)
    ensures |ls| == LaneCount
    ensures forall l :: 0 <= l <= nodeTop ==> ls[l] == ls0[l]
    ensures forall l :: nodeTop < l < LaneCount ==> ls[l] == LaneAfterRemove(lanes[l], ranks[l], e)
  {
    OverflownEntries(ranks, nodeTop + 1, top, e);
    ls := ls0;
    for k := 0 to |rightNodesAbove|
      invariant ls == Shortened(ls0, rightNodesAbove[..k])
    {
      var node := rightNodesAbove[k];
      assert rightNodesAbove[..k + 1][..k] == rightNodesAbove[..k];
      ls := ls[node.lane := AdjustSpan(ls[node.lane], node.pos, -1)];
    }
    assert rightNodesAbove[..|rightNodesAbove|] == rightNodesAbove;
    ShortenedBelow(ls0, ranks, top, nodeTop, e);
    ShortenedAbove(ls0, lanes, ranks, top, nodeTop, e);
  }

  /** The lane loop of an insertion at rank `e`: in every lane up to
      `newTop`, link a node for `v` after the path position where the lane
      takes it (lanes 0 up to `laneIndex`), and otherwise widen the span of
      the node that flies over it. Lanes past the path start at the head. */
  method LinkNode(lanes: seq<seq<Entry>>, ghost ranks: seq<seq<int>>, path: seq<NodeSpan>,
                  e: int, v: int, laneIndex: nat, newTop: nat) returns (ls: seq<seq<Entry>>)
    requires Shaped(lanes, ranks) && laneIndex <= newTop < LaneCount && |path| <= newTop + 1
    requires forall j :: 0 <= j < |path| ==> path[j] == Boundary(ranks[j], e)
    requires forall j :: |path| <= j < LaneCount ==> ranks[j] == []
    ensures ls == InsertLanes(lanes, ranks, e, v, laneIndex)
  {
    ls := lanes;
    var i := 0;
    while i <= newTop
      invariant i <= newTop + 1 && |ls| == LaneCount
      invariant forall j :: 0 <= j < i ==> ls[j] == LaneAfterInsert(lanes[j], ranks[j], e, v, j <= laneIndex)
      invariant forall j :: i <= j < LaneCount ==> ls[j] == lanes[j]
    {
      var pos, spanSumLeft := 0, 0;
      if i < |path| {
        pos, spanSumLeft := path[i].pos, path[i].spanSum;
      }
      var nodeSpan := e - spanSumLeft;
      if i <= laneIndex {
        ls := ls[i := SpliceIn(ls[i], pos, v, nodeSpan)];
      } else {
        ls := ls[i := AdjustSpan(ls[i], pos, 1)];
      }
      i := i + 1;
    }
  }

  /** In a lane the node of `v` reaches, following it down lands on its
      rank position, so unlinking there is what remove does to the lane. */
  lemma UnlinkFacts(lanes: seq<seq<Entry>>, ranks: seq<seq<int>>, elems: seq<int>, top: nat, nodeTop: nat, j: nat, v: int)
    requires Coherent(lanes, ranks, elems, top) && v in elems
    requires j <= nodeTop < LaneCount && CountLess(elems, v) in ranks[nodeTop]
    ensures HasValue(lanes[j], v)
    ensures Unlink(lanes[j], IndexOfValue(lanes[j], v)) == LaneAfterRemove(lanes[j], ranks[j], CountLess(elems, v))
  {
    var e := CountLess(elems, v);
    StackedDown(ranks, nodeTop, j, e);
    PresentAtRank(elems, v);
    assert LaneMatches(lanes[j], ranks[j], elems);
    var k :| 0 <= k < |ranks[j]| && ranks[j][k] == e;
    assert lanes[j][k].value == v;
    IndexOfValueIsRank(lanes[j], ranks[j], elems, v);
  }
}
