/** How tall a new node may grow: the number of lanes, the cap that grows
    with the logarithm of the size, and the lane index chosen for a new
    node from the number of trailing zero bits of a random 32-bit draw. */
module LaneHeight {
  import opened SkipState

  /** The lowest cap on a node's lane index, whatever the size. */
  const MinCap: nat := 15

  function Pow2(k: nat): (r: nat)
    ensures r >= 1
  {
    if k == 0 then 1 else 2 * Pow2(k - 1)
  }

  /** `31 - numberOfLeadingZeros(n)` for a non-negative 32-bit `n`: the
      floor of the base-2 logarithm, and -1 for zero. */
  function Log2(n: nat): (r: int)
    ensures n == 0 ==> r == -1
    ensures n > 0 ==> r >= 0 && Pow2(r) <= n < Pow2(r + 1)
  {
    if n <= 1 then n - 1 else 1 + Log2(n / 2)
  }

  /** The floor logarithm is the only exponent bracketing `n`. */
  lemma Log2Unique(n: nat, k: nat)
    requires Pow2(k) <= n < Pow2(k + 1)
    ensures Log2(n) == k
  {
    var r := Log2(n);
    if r < k { Pow2Monotone(r + 1, k); }
    if r > k { Pow2Monotone(k + 1, r); }
  }

  lemma {:induction false} Pow2Monotone(a: nat, b: nat)
    requires a <= b
    ensures Pow2(a) <= Pow2(b)
  {
    if a < b { Pow2Monotone(a, b - 1); }
  }

  /** `getHighestPossibleLaneIndex`: the largest lane index a new node may
      take in a list of `size` elements. */
  function HighestPossibleLaneIndex(size: nat): (r: int)
    ensures r >= MinCap && r >= Log2(size) + 5
    ensures r == MinCap || r == Log2(size) + 5
  {
    if MinCap >= Log2(size) + 5 then MinCap else Log2(size) + 5
  }

  /** Up to 2047 elements the cap is the fixed 15; it grows by one each time
      the size doubles from there. */
  lemma CapIsFixedWhileSmall(size: nat)
    ensures size < 2048 <==> HighestPossibleLaneIndex(size) == MinCap
  {
    if size >= 2048 {
      assert Pow2(11) == 2048;
      if Log2(size) < 11 { Pow2Monotone(Log2(size) + 1, 11); }
    } else if size > 0 {
      assert Pow2(11) == 2048;
      if Log2(size) > 10 { Pow2Monotone(11, Log2(size)); }
    }
  }

  /** The cap never shrinks as the list grows. */
  lemma {:induction false} CapMonotone(m: nat, n: nat)
    requires m <= n
    ensures HighestPossibleLaneIndex(m) <= HighestPossibleLaneIndex(n)
  {
    if 0 < m && Log2(n) < Log2(m) {
      Pow2Monotone(Log2(n) + 1, Log2(m));
    }
  }

  /** `randomLaneIndex` as written: the trailing-zero count of the draw,
      capped; `trailingZeros` ranges over 0..32, 32 for a zero draw. */
  function RandomLaneIndex(size: nat, trailingZeros: nat): (r: int)
    requires trailingZeros <= 32
    ensures r <= HighestPossibleLaneIndex(size) && r <= trailingZeros
    ensures r == HighestPossibleLaneIndex(size) || r == trailingZeros
  {
    if HighestPossibleLaneIndex(size) <= trailingZeros then HighestPossibleLaneIndex(size) else trailingZeros
  }

  /** Once the list holds 2^27 elements the cap reaches 32, so a zero draw
      yields lane index 32, one past the last lane. */
  lemma RandomLaneIndexCanPassLastLane()
    ensures RandomLaneIndex(Pow2(27), 32) == LaneCount
  {
    Log2Unique(Pow2(27), 27);
  }

  /** Below 2^27 elements the cap is at most 31, so the index as written
      always names an existing lane. */
  lemma RandomLaneIndexInRangeWhileSmall(size: nat, trailingZeros: nat)
    requires size < Pow2(27) && trailingZeros <= 32
    ensures RandomLaneIndex(size, trailingZeros) < LaneCount
  {
    if size > 0 && Log2(size) > 26 { Pow2Monotone(27, Log2(size)); }
  }

  /** The lane index of a new node, kept inside the lane array: the index as
      written, clamped to the last lane. */
  function LaneIndex(size: nat, trailingZeros: nat): (r: nat)
    requires trailingZeros <= 32
    ensures r < LaneCount && r <= trailingZeros && r <= HighestPossibleLaneIndex(size)
    ensures RandomLaneIndex(size, trailingZeros) < LaneCount ==> r == RandomLaneIndex(size, trailingZeros)
    ensures RandomLaneIndex(size, trailingZeros) >= LaneCount ==> r == LaneCount - 1
  {
    var h := RandomLaneIndex(size, trailingZeros);
    if h < LaneCount then h else LaneCount - 1
  }
}
