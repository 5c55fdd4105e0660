/** Bisection over a circle of slots, as search_seq performs it in a full buffer: from
    the largest size_t down, in indices that go round the circle many times.  The search
    is for the place of a number: slot j, which holds it, or the gap before slot j. */
module CircularSearch {
  import opened Wrappers
  import opened PendingRing
  import opened PendingSearch

  // ------------------------------------------------------------------- the fates

  /** What becomes of a search. */
  datatype Fate = Finds | Misses | Hangs

  function Pow2(k: nat): (p: nat)
    ensures p >= 1
  {
    if k == 0 then 1 else 2 * Pow2(k - 1)
  }

  /** The middle of the indices. */
  const HALF: nat := 0x8000_0000_0000_0000

  /** The slot that the probe at index 2^k - 1 meets. */
  function PowMod(k: nat, cap: Pos): nat {
    Mod(Pow2(k) - 1, cap)
  }

  /** All probes at 2^63 - 1, 2^62 - 1, ..., 2^k - 1 are too low for slot j. */
  ghost predicate TooLow(k: nat, cap: Pos, j: nat) {
    forall i: nat | k <= i <= 63 :: PowMod(i, cap) < j
  }

  /** The first of those probes that is not too low meets slot j. */
  ghost predicate Meets(k: nat, cap: Pos, j: nat) {
    k <= 62 && PowMod(k, cap) == j && TooLow(k + 1, cap, j)
  }

  /** The search for slot j.  Unless the first probe, at 2^63 - 1, is too low, the search
      goes on in the lower half and finds the slot.  If it is too low, l + r wraps and
      the probes go down through the powers of 2, up to the first that is not too low;
      when there is none, they stay at index 0 for ever. */
  ghost function SlotFate(cap: Pos, j: nat): Fate {
    if j <= PowMod(63, cap) || exists k :: Meets(k, cap, j) then Finds
    else if TooLow(0, cap, j) then Hangs
    else Misses
  }

  /** The search for the gap before slot j; before slot 0 the bounds wrap for ever. */
  ghost function GapFate(cap: Pos, j: nat): Fate {
    if j == 0 || TooLow(0, cap, j) then Hangs else Misses
  }

  ghost function FateOf(cap: Pos, j: nat, hit: bool): Fate {
    if hit then SlotFate(cap, j) else GapFate(cap, j)
  }

  /** The first slot that is too high for the search. */
  function Above(j: nat, hit: bool): nat {
    if hit then j + 1 else j
  }

  // ------------------------------------------------------------------ the stages

  /** Where a search stands: at the first probe, inside the lower half, on its way down
      the powers of 2, or over. */
  datatype Stage = First | Inner | Outer(k: nat) | Over

  /** The first probe that is not too low is too high. */
  ghost predicate Stops(k: nat, cap: Pos, j: nat, hit: bool) {
    k <= 62 && TooLow(k + 1, cap, j) && Above(j, hit) <= PowMod(k, cap)
  }

  ghost predicate Standing(stage: Stage, cap: Pos, j: nat, hit: bool, l: int, r: int) {
    match stage
    case First => l == 0 && r == SIZE - 1
    case Inner =>
      && 0 <= l <= r + 1 < HALF && (l == 0 || Mod(l - 1, cap) < j)
      && Above(j, hit) <= Mod(r + 1, cap) && Above(j, hit) <= PowMod(63, cap)
    case Outer(k) => k <= 63 && l == Pow2(k) && r == SIZE - 1 && TooLow(k, cap, j)
    case Over => l > r >= 0 && exists k :: Stops(k, cap, j, hit)
  }

  lemma {:induction false} ModStep(x: nat, cap: Pos)
    ensures Mod(x + 1, cap) == if Mod(x, cap) + 1 == cap then 0 else Mod(x, cap) + 1
    decreases x
  {
    if x >= cap {
      ModStep(x - cap, cap);
    }
  }

  lemma {:induction false} HalfIsPower()
    ensures Pow2(63) == HALF
  {
    Pow2Plus8(0);
    Pow2Plus8(8);
    Pow2Plus8(16);
    Pow2Plus8(24);
    Pow2Plus8(32);
    Pow2Plus8(40);
    Pow2Plus8(48);
    Pow2Plus8(55);
    assert 2 * Pow2(55) == Pow2(56);
  }

  lemma {:induction false} Pow2Plus8(k: nat)
    ensures Pow2(k + 8) == 256 * Pow2(k)
  {
    assert Pow2(k + 2) == 4 * Pow2(k);
    assert Pow2(k + 4) == 4 * Pow2(k + 2);
    assert Pow2(k + 6) == 4 * Pow2(k + 4);
    assert Pow2(k + 8) == 4 * Pow2(k + 6);
  }

  /** How many stages lie ahead. */
  function Ahead(stage: Stage): nat {
    match stage
    case First => 66
    case Outer(k) => k + 2
    case Inner => 1
    case Over => 0
  }

  /** The stage after a probe at index m. */
  function NextStage(stage: Stage, cap: Pos, j: nat, m: nat): Stage {
    match stage
    case First => if Mod(m, cap) < j then Outer(63) else Inner
    case Outer(k) => if Mod(m, cap) < j then Outer(if k == 0 then 0 else k - 1) else Over
    case _ => stage
  }

  /** A round of the search, told by the probed index alone. */
  ghost predicate Advances(stage: Stage, cap: Pos, j: nat, hit: bool, l: nat, r: nat) {
    var m := Middle(l, r);
    var next := NextStage(stage, cap, j, m);
    && m < HALF && (stage == Inner ==> l <= m <= r)
    && (Mod(m, cap) < j ==> Standing(next, cap, j, hit, m + 1, r))
    && (Above(j, hit) <= Mod(m, cap) ==> m > 0 && Standing(next, cap, j, hit, l, m - 1))
    && (hit && Mod(m, cap) == j ==> SlotFate(cap, j) == Finds)
  }

  lemma {:induction false} AdvanceFirst(cap: Pos, j: nat, hit: bool)
    requires 0 < Above(j, hit)
    ensures Advances(First, cap, j, hit, 0, SIZE - 1)
  {
    HalfIsPower();
    assert Middle(0, SIZE - 1) == Pow2(63) - 1;
    if PowMod(63, cap) < j {
      assert TooLow(63, cap, j);
    }
  }

  lemma {:induction false} AdvanceInner(cap: Pos, j: nat, hit: bool, l: nat, r: nat)
    requires 0 < Above(j, hit) && Standing(Inner, cap, j, hit, l, r) && l <= r
    ensures Advances(Inner, cap, j, hit, l, r)
  {
  }

  /** The search for a slot inside the lower half cannot run out of indices. */
  lemma {:induction false} InnerGoesOn(cap: Pos, j: nat, l: int, r: int)
    requires Standing(Inner, cap, j, true, l, r)
    ensures l <= r
  {
    if l > 0 {
      ModStep(l - 1, cap);
    }
  }

  lemma {:induction false} AdvanceOuter(cap: Pos, j: nat, hit: bool, k: nat)
    requires Standing(Outer(k), cap, j, hit, Pow2(k), SIZE - 1)
    ensures Advances(Outer(k), cap, j, hit, Pow2(k), SIZE - 1)
  {
    if k == 0 {
      LastProbe(cap, j, hit);
    } else {
      AdvanceDown(cap, j, hit, k);
    }
  }

  /** From bound 1 the probe stays at index 0. */
  lemma {:induction false} LastProbe(cap: Pos, j: nat, hit: bool)
    requires Standing(Outer(0), cap, j, hit, Pow2(0), SIZE - 1)
    ensures Advances(Outer(0), cap, j, hit, Pow2(0), SIZE - 1)
  {
    assert PowMod(0, cap) < j;
    assert Middle(1, SIZE - 1) == 0 && Mod(0, cap) == 0;
  }

  lemma {:induction false} AdvanceDown(cap: Pos, j: nat, hit: bool, k: nat)
    requires 0 < k && Standing(Outer(k), cap, j, hit, Pow2(k), SIZE - 1)
    ensures Advances(Outer(k), cap, j, hit, Pow2(k), SIZE - 1)
  {
    OuterMiddle(k);
    if PowMod(k - 1, cap) < j {
      assert TooLow(k - 1, cap, j);
    } else if Above(j, hit) <= PowMod(k - 1, cap) {
      OuterAbove(cap, j, hit, k);
    } else {
      assert Meets(k - 1, cap, j);
    }
  }

  /** After a probe that is too high, the search is over. */
  lemma {:induction false} OuterAbove(cap: Pos, j: nat, hit: bool, k: nat)
    requires 0 < k <= 63 && TooLow(k, cap, j) && Above(j, hit) <= PowMod(k - 1, cap)
    ensures Pow2(k - 1) >= 2 && Stops(k - 1, cap, j, hit)
  {
    assert PowMod(k, cap) < j;
  }

  lemma {:induction false} OuterMiddle(k: nat)
    requires k <= 63
    ensures Middle(Pow2(k), SIZE - 1) == (if k == 0 then 0 else Pow2(k - 1) - 1) < HALF
  {
    PowBound(k);
  }

  lemma {:induction false} PowBound(k: nat)
    requires k <= 63
    ensures Pow2(k) <= HALF
    decreases 63 - k
  {
    if k == 63 {
      HalfIsPower();
    } else {
      PowBound(k + 1);
    }
  }

  lemma {:induction false} Advance(stage: Stage, cap: Pos, j: nat, hit: bool, l: nat, r: nat)
    requires 0 < Above(j, hit) && Standing(stage, cap, j, hit, l, r) && l <= r
    ensures Advances(stage, cap, j, hit, l, r)
  {
    match stage
    case First => AdvanceFirst(cap, j, hit);
    case Inner => AdvanceInner(cap, j, hit, l, r);
    case Outer(k) => AdvanceOuter(cap, j, hit, k);
  }

  // ------------------------------------------------------------ stages and fates

  /** A search that is over has missed; one in the lower half finds its slot, and misses
      its gap as it should; one that came down to index 0 hangs. */
  lemma {:induction false} StageFate(stage: Stage, cap: Pos, j: nat, hit: bool, l: int, r: int)
    requires 0 < Above(j, hit) && Standing(stage, cap, j, hit, l, r)
    ensures stage == Over ==> FateOf(cap, j, hit) == Misses
    ensures stage == Inner ==> FateOf(cap, j, hit) == if hit then Finds else Misses
    ensures stage == Outer(0) ==> FateOf(cap, j, hit) == Hangs
  {
    match stage
    case First =>
    case Inner => InnerFate(cap, j, hit);
    case Outer(k) => ZeroHangs(cap, j, hit);
    case Over =>
      var k :| Stops(k, cap, j, hit);
      StopFate(cap, j, hit, k);
  }

  lemma {:induction false} InnerFate(cap: Pos, j: nat, hit: bool)
    requires 0 < Above(j, hit) <= PowMod(63, cap)
    ensures FateOf(cap, j, hit) == if hit then Finds else Misses
  {
    assert !TooLow(0, cap, j);
  }

  lemma {:induction false} ZeroHangs(cap: Pos, j: nat, hit: bool)
    ensures TooLow(0, cap, j) ==> FateOf(cap, j, hit) == Hangs
  {
    assert TooLow(0, cap, j) ==> PowMod(63, cap) < j;
  }

  lemma {:induction false} StopFate(cap: Pos, j: nat, hit: bool, k: nat)
    requires Stops(k, cap, j, hit)
    ensures FateOf(cap, j, hit) == Misses
  {
    assert PowMod(63, cap) < j && !TooLow(0, cap, j);
    forall i: nat
      ensures !(hit && Meets(i, cap, j))
    {
      assert i < k ==> !TooLow(i + 1, cap, j);
    }
  }
}
