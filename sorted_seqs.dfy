/** The abstract value of an indexable skip list: a strictly increasing
    sequence of elements, and what insert and remove do to it. */
module SortedSeqs {

  /** Sorted with no duplicates. */
  ghost predicate StrictlyIncreasing(s: seq<int>) {
    forall a, b :: 0 <= a < b < |s| ==> s[a] < s[b]
  }

  /** Position `b` splits `s` around `x`: every element before `b` is below
      `x`, and none from `b` on is. */
  ghost predicate SplitsAt(s: seq<int>, b: nat, x: int) {
    b <= |s| &&
    (forall k :: 0 <= k < b ==> s[k] < x) &&
    (forall k :: b <= k < |s| ==> x <= s[k])
  }

  /** The number of leading elements below `x`: in a sorted sequence, the
      0-based rank that `x` has, or would have once inserted. */
  function CountLess(s: seq<int>, x: int): (n: nat)
    ensures n <= |s|
  {
    if s == [] || x <= s[0] then 0 else 1 + CountLess(s[1..], x)
  }

  /** A split position is unique: it is the count of elements below `x`. */
  lemma {:induction false} CountLessOfSplit(s: seq<int>, b: nat, x: int)
    requires SplitsAt(s, b, x)
    ensures CountLess(s, x) == b
  {
    if b > 0 {
      assert SplitsAt(s[1..], b - 1, x);
      CountLessOfSplit(s[1..], b - 1, x);
    }
  }

  /** In a sorted sequence the count of elements below `x` splits it. */
  lemma {:induction false} CountLessSplits(s: seq<int>, x: int)
    requires StrictlyIncreasing(s)
    ensures SplitsAt(s, CountLess(s, x), x)
  {
    if s != [] && s[0] < x {
      assert StrictlyIncreasing(s[1..]);
      CountLessSplits(s[1..], x);
      var n := CountLess(s[1..], x);
      forall k | 0 <= k < n + 1 ensures s[k] < x {
        if k > 0 { assert s[k] == s[1..][k - 1]; }
      }
      forall k | n + 1 <= k < |s| ensures x <= s[k] {
        assert s[k] == s[1..][k - 1];
      }
    }
  }

  /** In a sorted sequence, the element at index `i` has exactly `i`
      elements below it: it is the i-th smallest. */
  lemma RankOfIndex(s: seq<int>, i: nat)
    requires StrictlyIncreasing(s) && i < |s|
    ensures CountLess(s, s[i]) == i
  {
    CountLessOfSplit(s, i, s[i]);
  }

  /** `x` occurs in a sorted sequence exactly at its rank. */
  lemma PresentAtRank(s: seq<int>, x: int)
    requires StrictlyIncreasing(s)
    ensures x in s <==> CountLess(s, x) < |s| && s[CountLess(s, x)] == x
  {
    CountLessSplits(s, x);
  }

  /** `s` with the element at index `i` deleted. */
  function DeleteAt(s: seq<int>, i: nat): (r: seq<int>)
    requires i < |s|
    ensures |r| == |s| - 1
    ensures forall k :: 0 <= k < i ==> r[k] == s[k]
    ensures forall k :: i <= k < |r| ==> r[k] == s[k + 1]
  {
    s[..i] + s[i + 1..]
  }

  /** The sorted sequence after inserting `x` at its rank. */
  function Inserted(s: seq<int>, x: int): seq<int> {
    s[..CountLess(s, x)] + [x] + s[CountLess(s, x)..]
  }

  /** The sorted sequence after deleting `x`, unchanged when `x` is absent. */
  function Removed(s: seq<int>, x: int): seq<int> {
    var i := CountLess(s, x);
    if i < |s| && s[i] == x then DeleteAt(s, i) else s
  }

  /** Inserting an absent element keeps the sequence sorted, adds exactly
      that element, and places it between its predecessor and successor. */
  lemma InsertedIsSortedUnion(s: seq<int>, x: int)
    requires StrictlyIncreasing(s) && x !in s
    ensures StrictlyIncreasing(Inserted(s, x))
    ensures |Inserted(s, x)| == |s| + 1
    ensures forall y :: y in Inserted(s, x) <==> y == x || y in s
    ensures Inserted(s, x)[CountLess(s, x)] == x
    ensures forall k :: 0 <= k < CountLess(s, x) ==> Inserted(s, x)[k] == s[k] < x
    ensures forall k :: CountLess(s, x) < k < |s| + 1 ==> x < Inserted(s, x)[k] == s[k - 1]
  {
    CountLessSplits(s, x);
    var n := CountLess(s, x);
    var r := Inserted(s, x);
    assert forall k :: 0 <= k < n ==> r[k] == s[k];
    assert forall k :: n < k < |r| ==> r[k] == s[k - 1];
    forall y ensures y in r <==> y == x || y in s {
      if y in s {
        var k :| 0 <= k < |s| && s[k] == y;
        if k < n { assert r[k] == y; } else { assert r[k + 1] == y; }
      }
    }
  }

  /** Removing keeps the sequence sorted and takes out exactly `x`. */
  lemma RemovedIsSortedDifference(s: seq<int>, x: int)
    requires StrictlyIncreasing(s)
    ensures StrictlyIncreasing(Removed(s, x))
    ensures forall y :: y in Removed(s, x) <==> y in s && y != x
    ensures |Removed(s, x)| == if x in s then |s| - 1 else |s|
  {
    PresentAtRank(s, x);
    var i := CountLess(s, x);
    if i < |s| && s[i] == x {
      var r := DeleteAt(s, i);
      forall y ensures y in r <==> y in s && y != x {
        if y in s && y != x {
          var k :| 0 <= k < |s| && s[k] == y;
          if k < i { assert r[k] == y; } else { assert r[k - 1] == y; }
        }
      }
    }
  }

  /** Removing a freshly inserted element restores the sequence. */
  lemma RemoveUndoesInsert(s: seq<int>, x: int)
    requires StrictlyIncreasing(s) && x !in s
    ensures Removed(Inserted(s, x), x) == s
  {
    InsertedIsSortedUnion(s, x);
    var r := Inserted(s, x);
    var n := CountLess(s, x);
    RankOfIndex(r, n);
    assert Removed(r, x) == DeleteAt(r, n);
  }

  /** Deleting by index is deleting the element found at that index. */
  lemma DeleteAtIsRemoved(s: seq<int>, i: nat)
    requires StrictlyIncreasing(s) && i < |s|
    ensures DeleteAt(s, i) == Removed(s, s[i])
  {
    RankOfIndex(s, i);
  }

  // ---- rank sequences: how insert and remove renumber them ----

  /** Every element moved by `d`. */
  ghost function Shifted(s: seq<int>, d: int): seq<int> {
    seq(|s|, k requires 0 <= k < |s| => s[k] + d)
  }

  /** Renumbering for an insertion at `x`: the elements from `b` on move up,
      and `x` itself joins. */
  lemma InsertionKeepsIncreasing(s: seq<int>, b: nat, x: int)
    requires StrictlyIncreasing(s) && SplitsAt(s, b, x)
    ensures StrictlyIncreasing(s[..b] + [x] + Shifted(s[b..], 1))
  {
    var s' := s[..b] + [x] + Shifted(s[b..], 1);
    forall k | 0 <= k < b ensures s'[k] == s[k] {}
    assert s'[b] == x;
    forall k | b < k < |s'| ensures s'[k] == s[k - 1] + 1 {}
    forall a, c | 0 <= a < c < |s'| ensures s'[a] < s'[c] {
      if c < b {
      } else if c == b {
      } else if a < b {
        assert s[a] < x <= s[c - 1];
      } else if a == b {
      } else {
        assert s[a - 1] < s[c - 1];
      }
    }
  }

  /** Renumbering for an insertion at `x` in a lane that does not take it. */
  lemma ShiftKeepsIncreasing(s: seq<int>, b: nat, d: int)
    requires StrictlyIncreasing(s) && b <= |s|
    requires 0 < b < |s| ==> s[b - 1] < s[b] + d
    ensures StrictlyIncreasing(s[..b] + Shifted(s[b..], d))
  {
    var s' := s[..b] + Shifted(s[b..], d);
    forall k | 0 <= k < b ensures s'[k] == s[k] {}
    forall k | b <= k < |s'| ensures s'[k] == s[k] + d {}
    forall a, c | 0 <= a < c < |s'| ensures s'[a] < s'[c] {
      if c < b {
      } else if a < b {
        assert s[a] <= s[b - 1] && s[b] <= s[c];
      } else {
      }
    }
  }

  /** Renumbering for the removal of the element at index `q`. */
  lemma DeletionKeepsIncreasing(s: seq<int>, q: nat)
    requires StrictlyIncreasing(s) && q < |s|
    ensures StrictlyIncreasing(s[..q] + Shifted(s[q + 1..], -1))
  {
    var s' := s[..q] + Shifted(s[q + 1..], -1);
    forall k | 0 <= k < q ensures s'[k] == s[k] {}
    forall k | q <= k < |s'| ensures s'[k] == s[k + 1] - 1 {}
    forall a, c | 0 <= a < c < |s'| ensures s'[a] < s'[c] {
      if c < q {
      } else if a < q {
        assert s[a] < s[q] < s[c + 1];
      } else {
        assert s[a + 1] < s[c + 1];
      }
    }
  }
}
