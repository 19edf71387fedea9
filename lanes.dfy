/** One lane of the skip list: the chain of nodes behind a sentinel head,
    with the span bookkeeping that makes rank lookup possible.

    A lane is a sequence of entries, leftmost first; the head itself is not
    stored. A position `p` in a lane counts the nodes passed so far, so
    `p == 0` is the head and `p > 0` is the node `lane[p - 1]`; the node to
    its right, if any, is `lane[p]`.

    The span of a node is the distance in lane-0 ranks from its lane
    predecessor, where the head counts as rank 0. Summing spans from the head
    to a node therefore gives that node's 0-based rank. The ghost sequence
    `rs` of a lane holds those ranks. */
module Lanes {
  import opened SortedSeqs

  datatype Entry = Entry(value: int, span: int)

  /** The rank accumulated at position `p`: 0 at the head, otherwise the rank
      of the node there. */
  function Before(rs: seq<int>, p: nat): int
    requires p <= |rs|
  {
    if p == 0 then 0 else rs[p - 1]
  }

  /** `lane` holds the elements at ranks `rs` of `elems`, left to right, and
      each span is the rank distance from the node's predecessor. */
  ghost predicate LaneMatches(lane: seq<Entry>, rs: seq<int>, elems: seq<int>) {
    StrictlyIncreasing(rs) && ValuesMatch(lane, rs, elems) && SpansMatch(lane, rs)
  }

  /** The node at index `k` holds the element at rank `rs[k]`. */
  ghost predicate ValuesMatch(lane: seq<Entry>, rs: seq<int>, elems: seq<int>) {
    |lane| == |rs| &&
    forall k {:trigger lane[k]} :: 0 <= k < |rs| ==> 0 <= rs[k] < |elems| && lane[k].value == elems[rs[k]]
  }

  /** The span of the node at index `k` is its rank distance from its lane
      predecessor. */
  ghost predicate SpansMatch(lane: seq<Entry>, rs: seq<int>) {
    |lane| == |rs| &&
    forall k {:trigger lane[k]} :: 0 <= k < |rs| ==> lane[k].span == rs[k] - Before(rs, k)
  }

  /** The values of a lane that matches a sorted sequence increase strictly. */
  lemma LaneIsSorted(lane: seq<Entry>, rs: seq<int>, elems: seq<int>)
    requires LaneMatches(lane, rs, elems) && StrictlyIncreasing(elems)
    ensures forall a, b :: 0 <= a < b < |lane| ==> lane[a].value < lane[b].value
  {
  }

  /** The sum of the spans of a stretch of lane. */
  function SpanSum(lane: seq<Entry>): int {
    if lane == [] then 0 else SpanSum(lane[..|lane| - 1]) + lane[|lane| - 1].span
  }

  /** Summing spans from the head up to a node gives the node's rank. */
  lemma {:induction false} SpanSumIsRank(lane: seq<Entry>, rs: seq<int>, elems: seq<int>, k: nat)
    requires LaneMatches(lane, rs, elems) && k < |lane|
    ensures SpanSum(lane[..k + 1]) == rs[k]
  {
    assert lane[..k + 1][..k] == lane[..k];
    assert lane[k].span == rs[k] - Before(rs, k);
    if k > 0 {
      SpanSumIsRank(lane, rs, elems, k - 1);
    }
  }

  /** Summing spans from the head up to a node gives the number of elements
      below the node's value: its 0-based position in the sorted sequence. */
  lemma SpansGiveRank(lane: seq<Entry>, rs: seq<int>, elems: seq<int>, k: nat)
    requires LaneMatches(lane, rs, elems) && StrictlyIncreasing(elems) && k < |lane|
    ensures SpanSum(lane[..k + 1]) == CountLess(elems, lane[k].value)
  {
    SpanSumIsRank(lane, rs, elems, k);
    RankOfIndex(elems, rs[k]);
  }

  /** Some node of the lane holds `v`. */
  predicate HasValue(lane: seq<Entry>, v: int) {
    exists k :: 0 <= k < |lane| && lane[k].value == v
  }

  /** The position of the node holding `v`; it stands for following a node's
      list of instances down to the lane below. */
  function IndexOfValue(lane: seq<Entry>, v: int): (q: nat)
    requires HasValue(lane, v)
    ensures q < |lane| && lane[q].value == v
    ensures forall k :: 0 <= k < q ==> lane[k].value != v
  {
    if lane[0].value == v then 0
    else
      assert HasValue(lane[1..], v) by {
        var k :| 0 <= k < |lane| && lane[k].value == v;
        assert lane[1..][k - 1] == lane[k];
      }
      1 + IndexOfValue(lane[1..], v)
  }

  // ---- the per-lane edits made by insert and remove ----

  /** Links a node holding `v` with span `nodeSpan` in after position `p`;
      its successor, if any, gives up `nodeSpan - 1` of its span. */
  function SpliceIn(lane: seq<Entry>, p: nat, v: int, nodeSpan: int): (r: seq<Entry>)
    requires p <= |lane|
    ensures |r| == |lane| + 1 && r[p] == Entry(v, nodeSpan)
    ensures forall k :: 0 <= k < p ==> r[k] == lane[k]
    ensures p < |lane| ==> r[p + 1].value == lane[p].value && r[p + 1].span + nodeSpan - 1 == lane[p].span
    ensures forall k :: p + 1 < k < |r| ==> r[k] == lane[k - 1]
  {
    lane[..p] + [Entry(v, nodeSpan)] +
    if p < |lane| then [lane[p].(span := lane[p].span - (nodeSpan - 1))] + lane[p + 1..] else []
  }

  /** Adds `delta` to the span of the node right of position `p`, if any:
      the node that spans over an element inserted or removed below it. */
  function AdjustSpan(lane: seq<Entry>, p: nat, delta: int): (r: seq<Entry>)
    requires p <= |lane|
    ensures |r| == |lane|
    ensures forall k :: 0 <= k < |r| ==> r[k].value == lane[k].value
    ensures forall k :: 0 <= k < |r| && k != p ==> r[k].span == lane[k].span
    ensures p < |lane| ==> r[p].span == lane[p].span + delta
  {
    if p < |lane| then lane[p := lane[p].(span := lane[p].span + delta)] else lane
  }

  /** Unlinks the node at index `q`; its successor, if any, takes over its
      span minus the one rank that disappears. */
  function Unlink(lane: seq<Entry>, q: nat): (r: seq<Entry>)
    requires q < |lane|
    ensures |r| + 1 == |lane|
    ensures forall k :: 0 <= k < q ==> r[k] == lane[k]
    ensures q < |r| ==> r[q].value == lane[q + 1].value && r[q].span == lane[q + 1].span + lane[q].span - 1
    ensures forall k :: q < k < |r| ==> r[k] == lane[k + 1]
  {
    lane[..q] +
    if q + 1 < |lane| then [lane[q + 1].(span := lane[q + 1].span + lane[q].span - 1)] + lane[q + 2..] else []
  }

  // ---- the same edits on the ghost ranks ----

  /** The ranks of a lane after an element is inserted at rank `e`: ranks
      from `e` on move up by one, and `e` joins when the lane gets a node. */
  ghost function RanksAfterInsert(rs: seq<int>, e: int, here: bool): seq<int> {
    var b := CountLess(rs, e);
    rs[..b] + (if here then [e] else []) + Shifted(rs[b..], 1)
  }

  /** The ranks of a lane after the element at rank `e` is removed: `e`
      leaves if present and the ranks above it move down by one. */
  ghost function RanksAfterRemove(rs: seq<int>, e: int): seq<int> {
    rs[..CountLess(rs, e)] + Shifted(rs[CountLess(rs, e + 1)..], -1)
  }

  /** What insert does to a lane, at the boundary position the search finds. */
  ghost function LaneAfterInsert(lane: seq<Entry>, rs: seq<int>, e: int, v: int, here: bool): seq<Entry>
    requires |lane| == |rs|
  {
    var b := CountLess(rs, e);
    if here then SpliceIn(lane, b, v, e - Before(rs, b)) else AdjustSpan(lane, b, 1)
  }

  /** What remove does to a lane: unlink the node at rank `e` where there is
      one, otherwise shorten the span of the node that flies over it. */
  ghost function LaneAfterRemove(lane: seq<Entry>, rs: seq<int>, e: int): seq<Entry>
    requires |lane| == |rs|
  {
    var b := CountLess(rs, e);
    if b < |rs| && rs[b] == e then Unlink(lane, b) else AdjustSpan(lane, b, -1)
  }

  /** Splicing a node in at the boundary keeps the lane in step with the
      sequence grown by `v` at rank `e`. */
  lemma SpliceInMatches(lane: seq<Entry>, rs: seq<int>, elems: seq<int>, e: nat, v: int, b: nat)
    requires LaneMatches(lane, rs, elems) && e <= |elems| && SplitsAt(rs, b, e)
    ensures LaneMatches(SpliceIn(lane, b, v, e - Before(rs, b)),
                        rs[..b] + [e] + Shifted(rs[b..], 1), elems[..e] + [v] + elems[e..])
  {
    SpliceInValues(lane, rs, elems, e, v, b, e - Before(rs, b));
    SpliceInSpans(lane, rs, e, v, b);
    InsertionKeepsIncreasing(rs, b, e);
  }

  lemma SpliceInValues(lane: seq<Entry>, rs: seq<int>, elems: seq<int>, e: nat, v: int, b: nat, w: int)
    requires ValuesMatch(lane, rs, elems) && e <= |elems| && SplitsAt(rs, b, e)
    ensures ValuesMatch(SpliceIn(lane, b, v, w), rs[..b] + [e] + Shifted(rs[b..], 1), elems[..e] + [v] + elems[e..])
  {
    var E' := elems[..e] + [v] + elems[e..];
    var rs' := rs[..b] + [e] + Shifted(rs[b..], 1);
    var lane' := SpliceIn(lane, b, v, w);
    assert |lane'| == |rs'|;
    forall k | 0 <= k < |rs'|
      ensures 0 <= rs'[k] < |E'| && lane'[k].value == E'[rs'[k]]
    {
      if k < b {
        assert lane'[k] == lane[k] && rs'[k] == rs[k];
        assert E'[rs[k]] == elems[rs[k]];
      } else if k == b {
        assert rs'[k] == e && E'[e] == v;
      } else {
        assert lane'[k].value == lane[k - 1].value && rs'[k] == rs[k - 1] + 1;
        assert E'[rs[k - 1] + 1] == elems[rs[k - 1]];
      }
    }
  }

  lemma SpliceInSpans(lane: seq<Entry>, rs: seq<int>, e: nat, v: int, b: nat)
    requires SpansMatch(lane, rs) && SplitsAt(rs, b, e)
    ensures SpansMatch(SpliceIn(lane, b, v, e - Before(rs, b)), rs[..b] + [e] + Shifted(rs[b..], 1))
  {
    var rs' := rs[..b] + [e] + Shifted(rs[b..], 1);
    var lane' := SpliceIn(lane, b, v, e - Before(rs, b));
    forall k {:trigger lane'[k]} | 0 <= k < |rs'|
      ensures lane'[k].span == rs'[k] - Before(rs', k)
    {
      if k < b {
        assert lane'[k] == lane[k] && rs'[k] == rs[k];
        assert lane[k].span == rs[k] - Before(rs, k);
        if k > 0 { assert rs'[k - 1] == rs[k - 1]; }
      } else if k == b {
        assert rs'[k] == e;
        if k > 0 { assert rs'[k - 1] == rs[k - 1]; }
      } else if k == b + 1 {
        assert rs'[k] == rs[b] + 1 && rs'[k - 1] == e;
        assert lane'[k].span == lane[b].span - (e - Before(rs, b) - 1);
        assert lane[b].span == rs[b] - Before(rs, b);
      } else {
        assert lane'[k] == lane[k - 1] && rs'[k] == rs[k - 1] + 1 && rs'[k - 1] == rs[k - 2] + 1;
        assert lane[k - 1].span == rs[k - 1] - Before(rs, k - 1);
      }
    }
  }

  /** Widening the overflight span keeps a lane without the new element in
      step with the sequence grown by `v` at rank `e`. */
  lemma WidenMatches(lane: seq<Entry>, rs: seq<int>, elems: seq<int>, e: nat, v: int, b: nat)
    requires LaneMatches(lane, rs, elems) && e <= |elems| && SplitsAt(rs, b, e)
    ensures LaneMatches(AdjustSpan(lane, b, 1), rs[..b] + Shifted(rs[b..], 1), elems[..e] + [v] + elems[e..])
  {
    ShiftValues(lane, rs, elems, e, v, b, 1);
    ShiftSpans(lane, rs, b, 1);
    ShiftKeepsIncreasing(rs, b, 1);
  }

  /** Moving the ranks from position `b` on up by one, and adjusting only the
      span at `b`, keeps the values in step with the grown sequence. */
  lemma ShiftValues(lane: seq<Entry>, rs: seq<int>, elems: seq<int>, e: nat, v: int, b: nat, delta: int)
    requires ValuesMatch(lane, rs, elems) && e <= |elems| && SplitsAt(rs, b, e)
    ensures ValuesMatch(AdjustSpan(lane, b, delta), rs[..b] + Shifted(rs[b..], 1), elems[..e] + [v] + elems[e..])
  {
    var E' := elems[..e] + [v] + elems[e..];
    var rs' := rs[..b] + Shifted(rs[b..], 1);
    var lane' := AdjustSpan(lane, b, delta);
    assert |lane'| == |rs'|;
    forall k {:trigger lane'[k]} | 0 <= k < |rs'|
      ensures 0 <= rs'[k] < |E'| && lane'[k].value == E'[rs'[k]]
    {
      assert lane'[k].value == lane[k].value;
      if k < b {
        assert rs'[k] == rs[k] && E'[rs[k]] == elems[rs[k]];
      } else {
        assert rs'[k] == rs[k] + 1 && E'[rs[k] + 1] == elems[rs[k]];
      }
    }
  }

  /** Moving the ranks from position `b` on by `d`, and the span at `b` by
      the same, keeps the spans right. */
  lemma ShiftSpans(lane: seq<Entry>, rs: seq<int>, b: nat, d: int)
    requires SpansMatch(lane, rs) && b <= |rs|
    ensures SpansMatch(AdjustSpan(lane, b, d), rs[..b] + Shifted(rs[b..], d))
  {
    var rs' := rs[..b] + Shifted(rs[b..], d);
    var lane' := AdjustSpan(lane, b, d);
    forall k {:trigger lane'[k]} | 0 <= k < |rs'|
      ensures lane'[k].span == rs'[k] - Before(rs', k)
    {
      assert lane'[k].span == lane[k].span + (if k == b then d else 0);
      assert lane[k].span == rs[k] - Before(rs, k);
      if k < b {
        assert rs'[k] == rs[k];
      } else {
        assert rs'[k] == rs[k] + d;
      }
      if 0 < k {
        if k - 1 < b { assert rs'[k - 1] == rs[k - 1]; } else { assert rs'[k - 1] == rs[k - 1] + d; }
      }
    }
  }

  /** Insert keeps a lane in step with the grown sequence, both where it
      splices in a node and where it only widens an overflight span. */
  lemma LaneAfterInsertMatches(lane: seq<Entry>, rs: seq<int>, elems: seq<int>, e: nat, v: int, here: bool)
    requires LaneMatches(lane, rs, elems) && e <= |elems|
    ensures LaneMatches(LaneAfterInsert(lane, rs, e, v, here), RanksAfterInsert(rs, e, here), elems[..e] + [v] + elems[e..])
  {
    CountLessSplits(rs, e);
    var b := CountLess(rs, e);
    if here {
      assert LaneAfterInsert(lane, rs, e, v, here) == SpliceIn(lane, b, v, e - Before(rs, b));
      assert RanksAfterInsert(rs, e, here) == rs[..b] + [e] + Shifted(rs[b..], 1);
      SpliceInMatches(lane, rs, elems, e, v, b);
    } else {
      assert LaneAfterInsert(lane, rs, e, v, here) == AdjustSpan(lane, b, 1);
      assert rs[..b] + [] == rs[..b];
      assert RanksAfterInsert(rs, e, here) == rs[..b] + Shifted(rs[b..], 1);
      WidenMatches(lane, rs, elems, e, v, b);
    }
  }

  /** Unlinking the node at index `q` keeps the lane in step with the
      sequence that lost the element at rank `rs[q]`. */
  lemma UnlinkMatches(lane: seq<Entry>, rs: seq<int>, elems: seq<int>, q: nat)
    requires LaneMatches(lane, rs, elems) && q < |rs| && 0 <= rs[q] < |elems|
    ensures LaneMatches(Unlink(lane, q), rs[..q] + Shifted(rs[q + 1..], -1), DeleteAt(elems, rs[q]))
  {
    UnlinkValues(lane, rs, elems, q);
    UnlinkSpans(lane, rs, q);
    DeletionKeepsIncreasing(rs, q);
  }

  lemma UnlinkValues(lane: seq<Entry>, rs: seq<int>, elems: seq<int>, q: nat)
    requires ValuesMatch(lane, rs, elems) && StrictlyIncreasing(rs) && q < |rs| && 0 <= rs[q] < |elems|
    ensures ValuesMatch(Unlink(lane, q), rs[..q] + Shifted(rs[q + 1..], -1), DeleteAt(elems, rs[q]))
  {
    var e := rs[q];
    var E' := DeleteAt(elems, e);
    var rs' := rs[..q] + Shifted(rs[q + 1..], -1);
    var lane' := Unlink(lane, q);
    assert |lane'| == |rs'|;
    forall k | 0 <= k < |rs'|
      ensures 0 <= rs'[k] < |E'| && lane'[k].value == E'[rs'[k]]
    {
      if k < q {
        assert lane'[k] == lane[k] && rs'[k] == rs[k];
        assert lane[k].value == elems[rs[k]] && rs[k] < e;
        assert E'[rs[k]] == elems[rs[k]];
      } else {
        assert lane'[k].value == lane[k + 1].value && rs'[k] == rs[k + 1] - 1;
        assert lane[k + 1].value == elems[rs[k + 1]] && e < rs[k + 1];
        assert E'[rs[k + 1] - 1] == elems[rs[k + 1]];
      }
    }
  }

  lemma UnlinkSpans(lane: seq<Entry>, rs: seq<int>, q: nat)
    requires SpansMatch(lane, rs) && q < |rs|
    ensures SpansMatch(Unlink(lane, q), rs[..q] + Shifted(rs[q + 1..], -1))
  {
    var rs' := rs[..q] + Shifted(rs[q + 1..], -1);
    var lane' := Unlink(lane, q);
    forall k {:trigger lane'[k]} | 0 <= k < |rs'|
      ensures lane'[k].span == rs'[k] - Before(rs', k)
    {
      if k < q {
        assert lane'[k] == lane[k] && rs'[k] == rs[k];
        assert lane[k].span == rs[k] - Before(rs, k);
        if k > 0 { assert rs'[k - 1] == rs[k - 1]; }
      } else if k == q {
        assert rs'[k] == rs[q + 1] - 1;
        assert lane'[k].span == lane[q + 1].span + lane[q].span - 1;
        assert lane[q].span == rs[q] - Before(rs, q);
        assert lane[q + 1].span == rs[q + 1] - Before(rs, q + 1);
        if k > 0 { assert rs'[k - 1] == rs[k - 1]; }
      } else {
        assert lane'[k] == lane[k + 1] && rs'[k] == rs[k + 1] - 1 && rs'[k - 1] == rs[k] - 1;
        assert lane[k + 1].span == rs[k + 1] - Before(rs, k + 1);
      }
    }
  }

  /** Shortening the overflight span keeps a lane without the removed
      element in step with the sequence that lost it. */
  lemma NarrowMatches(lane: seq<Entry>, rs: seq<int>, elems: seq<int>, e: nat, b: nat)
    requires LaneMatches(lane, rs, elems) && e < |elems| && SplitsAt(rs, b, e) && SplitsAt(rs, b, e + 1)
    ensures LaneMatches(AdjustSpan(lane, b, -1), rs[..b] + Shifted(rs[b..], -1), DeleteAt(elems, e))
  {
    NarrowValues(lane, rs, elems, e, b);
    ShiftSpans(lane, rs, b, -1);
    ShiftKeepsIncreasing(rs, b, -1);
  }

  lemma NarrowValues(lane: seq<Entry>, rs: seq<int>, elems: seq<int>, e: nat, b: nat)
    requires ValuesMatch(lane, rs, elems) && e < |elems| && SplitsAt(rs, b, e) && SplitsAt(rs, b, e + 1)
    ensures ValuesMatch(AdjustSpan(lane, b, -1), rs[..b] + Shifted(rs[b..], -1), DeleteAt(elems, e))
  {
    var E' := DeleteAt(elems, e);
    var rs' := rs[..b] + Shifted(rs[b..], -1);
    var lane' := AdjustSpan(lane, b, -1);
    assert |lane'| == |rs'|;
    forall k | 0 <= k < |rs'|
      ensures 0 <= rs'[k] < |E'| && lane'[k].value == E'[rs'[k]]
    {
      assert lane'[k].value == lane[k].value;
      assert lane[k].value == elems[rs[k]];
      if k < b {
        assert rs'[k] == rs[k] && E'[rs[k]] == elems[rs[k]];
      } else {
        assert rs'[k] == rs[k] - 1 && E'[rs[k] - 1] == elems[rs[k]];
      }
    }
  }

  /** Remove keeps a lane in step with the shrunk sequence, both where it
      unlinks the element's node and where it shortens an overflight span. */
  lemma LaneAfterRemoveMatches(lane: seq<Entry>, rs: seq<int>, elems: seq<int>, e: nat)
    requires LaneMatches(lane, rs, elems) && e < |elems|
    ensures LaneMatches(LaneAfterRemove(lane, rs, e), RanksAfterRemove(rs, e), DeleteAt(elems, e))
  {
    CountLessSplits(rs, e);
    var b := CountLess(rs, e);
    if b < |rs| && rs[b] == e {
      assert SplitsAt(rs, b + 1, e + 1);
      CountLessOfSplit(rs, b + 1, e + 1);
      assert RanksAfterRemove(rs, e) == rs[..b] + Shifted(rs[b + 1..], -1);
      UnlinkMatches(lane, rs, elems, b);
    } else {
      assert SplitsAt(rs, b, e + 1);
      CountLessOfSplit(rs, b, e + 1);
      assert RanksAfterRemove(rs, e) == rs[..b] + Shifted(rs[b..], -1);
      NarrowMatches(lane, rs, elems, e, b);
    }
  }

  // ---- what a search learns from comparing with a node ----

  /** Comparing `v` with a node's value is comparing the node's rank with the
      rank `v` has, or would have, in the sorted sequence. */
  lemma ValueOrder(lane: seq<Entry>, rs: seq<int>, elems: seq<int>, v: int, k: nat)
    requires LaneMatches(lane, rs, elems) && StrictlyIncreasing(elems) && k < |lane|
    ensures lane[k].value < v <==> rs[k] < CountLess(elems, v)
    ensures lane[k].value == v <==> rs[k] == CountLess(elems, v) && v in elems
  {
    CountLessSplits(elems, v);
    PresentAtRank(elems, v);
    assert lane[k].value == elems[rs[k]];
  }

  /** Following the node holding `v` down a lane lands on the position of the
      rank of `v` in that lane. */
  lemma IndexOfValueIsRank(lane: seq<Entry>, rs: seq<int>, elems: seq<int>, v: int)
    requires LaneMatches(lane, rs, elems) && StrictlyIncreasing(elems)
    requires HasValue(lane, v)
    ensures v in elems && rs[IndexOfValue(lane, v)] == CountLess(elems, v)
    ensures IndexOfValue(lane, v) == CountLess(rs, CountLess(elems, v))
  {
    var q := IndexOfValue(lane, v);
    ValueOrder(lane, rs, elems, v, q);
    RankOfIndex(rs, q);
  }

  /** Every rank in a lane after an insertion at `e` comes from a rank
      below `e` kept as it was, from `e` itself, or from a rank at `e` or
      above moved up by one. */
  lemma InsertedRankOrigin(rs: seq<int>, e: int, here: bool, x: int)
    requires StrictlyIncreasing(rs) && x in RanksAfterInsert(rs, e, here)
    ensures (x in rs && x < e) || (here && x == e) || (x - 1 in rs && e <= x - 1)
  {
    CountLessSplits(rs, e);
    var b := CountLess(rs, e);
    var rs' := RanksAfterInsert(rs, e, here);
    var m := if here then 1 else 0;
    var k :| 0 <= k < |rs'| && rs'[k] == x;
    if k < b {
      assert rs'[k] == rs[k];
    } else if k >= b + m {
      assert rs'[k] == rs[k - m] + 1;
    }
  }

  /** Conversely, an insertion at `e` keeps every rank below `e` and moves
      every rank at `e` or above up by one. */
  lemma InsertedRankKept(rs: seq<int>, e: int, here: bool, x: int)
    requires StrictlyIncreasing(rs) && x in rs
    ensures x < e ==> x in RanksAfterInsert(rs, e, here)
    ensures e <= x ==> x + 1 in RanksAfterInsert(rs, e, here)
  {
    CountLessSplits(rs, e);
    var b := CountLess(rs, e);
    var rs' := RanksAfterInsert(rs, e, here);
    var m := if here then 1 else 0;
    var k :| 0 <= k < |rs| && rs[k] == x;
    if x < e {
      assert rs'[k] == x;
    } else {
      assert rs'[k + m] == x + 1;
    }
  }

  /** The inserted rank stands in a lane exactly when the lane took the node. */
  lemma InsertedRankPresent(rs: seq<int>, e: int, here: bool)
    requires StrictlyIncreasing(rs)
    ensures e in RanksAfterInsert(rs, e, here) <==> here
  {
    CountLessSplits(rs, e);
    var b := CountLess(rs, e);
    var rs' := RanksAfterInsert(rs, e, here);
    if here {
      assert rs'[b] == e;
    }
  }

  /** Every rank in a lane after the removal at `e` comes from a rank
      below `e` kept as it was or from a rank above `e` moved down by one. */
  lemma RemovedRankOrigin(rs: seq<int>, e: int, x: int)
    requires StrictlyIncreasing(rs) && x in RanksAfterRemove(rs, e)
    ensures (x in rs && x < e) || (x + 1 in rs && e < x + 1)
  {
    CountLessSplits(rs, e);
    CountLessSplits(rs, e + 1);
    var b := CountLess(rs, e);
    var c := CountLess(rs, e + 1);
    var rs' := RanksAfterRemove(rs, e);
    var k :| 0 <= k < |rs'| && rs'[k] == x;
    if k < b {
      assert rs'[k] == rs[k];
    } else {
      assert rs'[k] == rs[k - b + c] - 1;
    }
  }

  /** Conversely, the removal at `e` keeps every rank below `e` and moves
      every rank above `e` down by one. */
  lemma RemovedRankKept(rs: seq<int>, e: int, x: int)
    requires StrictlyIncreasing(rs) && x in rs
    ensures x < e ==> x in RanksAfterRemove(rs, e)
    ensures e < x ==> x - 1 in RanksAfterRemove(rs, e)
  {
    CountLessSplits(rs, e);
    CountLessSplits(rs, e + 1);
    var b := CountLess(rs, e);
    var c := CountLess(rs, e + 1);
    var rs' := RanksAfterRemove(rs, e);
    var k :| 0 <= k < |rs| && rs[k] == x;
    if x < e {
      assert rs'[k] == x;
    } else if e < x {
      assert rs'[k - c + b] == x - 1;
    }
  }

}
