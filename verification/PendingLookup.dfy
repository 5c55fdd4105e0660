/** search_seq on a buffer: what becomes of the search for any number, and the loop. */
module PendingLookup {
  import opened Wrappers
  import opened PendingRing
  import opened PendingSearch
  import opened CircularSearch

  /** search_seq after k rounds. */
  ghost function SearchState(r: Ring, num: nat, k: nat): Search
    requires Shaped(r)
  {
    Probes(RequestAt(r), Before(TotalLen(r)), num, k)
  }

  ghost predicate NeverEnds(r: Ring, num: nat)
    requires Shaped(r)
  {
    forall k: nat :: SearchState(r, num, k).Open?
  }

  // ------------------------------------------------------------- a full buffer

  /** The place of a number in a window: slot j, or the gap before it. */
  ghost predicate Target(w: seq<Slot>, num: nat, j: nat, hit: bool) {
    if hit then j < |w| && w[j].num == num
    else j <= |w| && (forall i | 0 <= i < j :: w[i].num < num) && (forall i | j <= i < |w| :: num < w[i].num)
  }

  /** Every number has a place. */
  lemma {:induction false} HasTarget(w: seq<Slot>, num: nat) returns (j: nat, hit: bool)
    requires Rising(w)
    ensures Target(w, num, j, hit)
  {
    j := 0;
    while j < |w| && w[j].num < num
      invariant j <= |w| && forall i | 0 <= i < j :: w[i].num < num
    {
      j := j + 1;
    }
    hit := j < |w| && w[j].num == num;
    forall i | j < i < |w|
      ensures w[j].num < w[i].num
    {
      Below(w, j, i);
    }
  }

  lemma {:induction false} OneTarget(w: seq<Slot>, num: nat, j: nat, hit: bool, i: nat)
    requires Rising(w) && Target(w, num, j, hit) && i < |w| && w[i].num == num
    ensures hit && i == j
  {
    if hit && i < j {
      Below(w, i, j);
    } else if hit && j < i {
      Below(w, j, i);
    }
  }

  /** Comparing numbers of a full buffer is comparing places. */
  lemma {:induction false} CompareFull(ring: Ring, num: nat, j: nat, hit: bool, m: nat)
    requires Inv(ring) && Full(ring) && Target(Window(ring), num, j, hit)
    ensures RequestAt(ring)(m).num < num <==> Mod(m, ring.cap) < j
    ensures RequestAt(ring)(m).num > num <==> Above(j, hit) <= Mod(m, ring.cap)
    ensures hit && Mod(m, ring.cap) == j ==> RequestAt(ring)(m) == Window(ring)[j]
  {
    var x := Mod(m, ring.cap);
    RequestAtIs(ring, m);
    if hit && x < j {
      Below(Window(ring), x, j);
    } else if hit && j < x {
      Below(Window(ring), j, x);
    }
  }

  /** The search of a full buffer for the number with this place comes back: it finds or
      misses a request, misses a hole, or misses the gap of an absent number. */
  ghost predicate ComesBack(ring: Ring, j: nat, hit: bool)
    requires Shaped(ring) && (hit ==> j < Total(ring))
  {
    var fate := FateOf(ring.cap, j, hit);
    fate == Misses || (fate == Finds && hit && At(ring, j).req.Some?)
  }

  /** The result of a search that comes back; the index may be many times round. */
  ghost predicate Returns(ring: Ring, j: nat, hit: bool, res: Search)
    requires Shaped(ring)
  {
    if hit && SlotFate(ring.cap, j) == Finds then res.Found? && Mod(res.i, ring.cap) == j else res == Absent
  }

  /** A stage from which a search that does not come back goes on. */
  ghost predicate Lasting(stage: Stage, cap: Pos, j: nat, hit: bool, l: int, r: int) {
    0 <= l <= r && Standing(stage, cap, j, hit, l, r) && stage != Over && (stage == Inner ==> hit)
  }

  ghost predicate Lasts(ring: Ring, j: nat, hit: bool, s: Search)
    requires Shaped(ring)
  {
    s.Open? && if Above(j, hit) == 0 then s.l == 0 else exists stage :: Lasting(stage, ring.cap, j, hit, s.l, s.r)
  }

  /** A round of a full buffer's search, by places. */
  lemma {:induction false} FullProbe(ring: Ring, num: nat, j: nat, hit: bool, l: nat, r: nat)
    requires Inv(ring) && Full(ring) && Target(Window(ring), num, j, hit) && l <= r
    ensures var m := Middle(l, r);
            var x := Mod(m, ring.cap);
            Probe(RequestAt(ring), num, Open(l, r)) ==
            if x < j then Open(m + 1, r) else if Above(j, hit) <= x then Open(l, Before(m))
            else if At(ring, j).req.Some? then Found(m) else Open(l, r)
  {
    CompareFull(ring, num, j, hit, Middle(l, r));
  }

  lemma {:induction false} LastsOn(ring: Ring, num: nat, j: nat, hit: bool, s: Search)
    requires Inv(ring) && Full(ring) && Target(Window(ring), num, j, hit) && !ComesBack(ring, j, hit)
    requires Lasts(ring, j, hit, s)
    ensures Lasts(ring, j, hit, Probe(RequestAt(ring), num, s))
  {
    if Above(j, hit) == 0 {
      FullProbe(ring, num, j, hit, s.l, s.r);
    } else {
      var stage :| Lasting(stage, ring.cap, j, hit, s.l, s.r);
      StageLasts(ring, num, j, hit, stage, s.l, s.r);
    }
  }

  lemma {:induction false} StageLasts(ring: Ring, num: nat, j: nat, hit: bool, stage: Stage, l: nat, r: nat)
    requires Inv(ring) && Full(ring) && Target(Window(ring), num, j, hit) && !ComesBack(ring, j, hit)
    requires 0 < Above(j, hit) && Lasting(stage, ring.cap, j, hit, l, r)
    ensures Lasts(ring, j, hit, Probe(RequestAt(ring), num, Open(l, r)))
  {
    FullProbe(ring, num, j, hit, l, r);
    PlaceLasts(ring.cap, j, hit, stage, l, r);
  }

  /** As long as its fate is not to miss, a round of a lasting search leaves it so. */
  lemma {:induction false} PlaceLasts(cap: Pos, j: nat, hit: bool, stage: Stage, l: nat, r: nat)
    requires FateOf(cap, j, hit) != Misses && 0 < Above(j, hit) && Lasting(stage, cap, j, hit, l, r)
    ensures var m := Middle(l, r);
            var next := NextStage(stage, cap, j, m);
            && (Mod(m, cap) < j ==> Lasting(next, cap, j, hit, m + 1, r))
            && (Above(j, hit) <= Mod(m, cap) ==> m > 0 && Lasting(next, cap, j, hit, l, m - 1))
            && (hit && Mod(m, cap) == j ==> FateOf(cap, j, hit) == Finds)
  {
    var m := Middle(l, r);
    Advance(stage, cap, j, hit, l, r);
    if Mod(m, cap) < j {
      StillLasts(NextStage(stage, cap, j, m), cap, j, hit, m + 1, r);
    } else if Above(j, hit) <= Mod(m, cap) {
      StillLasts(NextStage(stage, cap, j, m), cap, j, hit, l, m - 1);
    }
  }

  lemma {:induction false} StillLasts(stage: Stage, cap: Pos, j: nat, hit: bool, l: int, r: int)
    requires 0 < Above(j, hit) && Standing(stage, cap, j, hit, l, r)
    requires FateOf(cap, j, hit) != Misses
    ensures Lasting(stage, cap, j, hit, l, r)
  {
    StageFate(stage, cap, j, hit, l, r);
    if stage.Outer? {
      PowBound(stage.k);
    } else if stage == Inner {
      InnerGoesOn(cap, j, l, r);
    }
  }

  /** A search that does not come back never ends. */
  lemma {:induction false} FullHangs(ring: Ring, num: nat, j: nat, hit: bool, k: nat)
    requires Inv(ring) && Full(ring) && Target(Window(ring), num, j, hit) && !ComesBack(ring, j, hit)
    ensures Lasts(ring, j, hit, SearchState(ring, num, k))
  {
    if k == 0 {
      assert Lasting(First, ring.cap, j, hit, 0, SIZE - 1);
    } else {
      FullHangs(ring, num, j, hit, k - 1);
      LastsOn(ring, num, j, hit, SearchState(ring, num, k - 1));
    }
  }

  /** What holds between two rounds of search_seq: the bounds of a window enclose the
      number's place, those of a full buffer stand at a stage. */
  ghost predicate Narrowed(ring: Ring, num: nat, j: nat, hit: bool, stage: Stage, l: int, r: int)
    requires Shaped(ring)
  {
    if Full(ring) then
      Target(Window(ring), num, j, hit) && ComesBack(ring, j, hit) && Standing(stage, ring.cap, j, hit, l, r)
    else Bracket(Window(ring), num, l, r)
  }

  /** The numbers whose search is known to come back: in a full buffer all that do, in a
      window those that are neither in a hole nor below it. */
  ghost predicate Searchable(r: Ring, num: nat)
    requires Shaped(r)
  {
    var w := Window(r);
    w != [] &&
    if Full(r) then exists j, hit :: Target(w, num, j, hit) && ComesBack(r, j, hit)
    else w[0].num <= num && NoHole(w, num)
  }

  /** The result of the search for a number with this place. */
  ghost predicate Locates(ring: Ring, num: nat, j: nat, hit: bool, res: Search)
    requires Shaped(ring)
  {
    if Full(ring) then Target(Window(ring), num, j, hit) && ComesBack(ring, j, hit) && Returns(ring, j, hit, res)
    else Answers(Window(ring), num, res)
  }

  ghost function StageAfter(ring: Ring, j: nat, stage: Stage, m: nat): Stage
    requires Shaped(ring)
  {
    if Full(ring) then NextStage(stage, ring.cap, j, m) else stage
  }

  /** The stages that are left, of which a search in a window has none. */
  ghost function Left(ring: Ring, stage: Stage): nat {
    if Full(ring) then Ahead(stage) else 0
  }

  /** The number of indices between two bounds. */
  function Span(l: int, r: int): nat {
    if l <= r then r - l + 1 else 0
  }

  /** A round takes the search on: to a later stage, or to closer bounds. */
  ghost predicate Goes(ring: Ring, num: nat, j: nat, hit: bool, stage: Stage, l: int, r: int,
                       stage': Stage, l': int, r': int)
    requires Shaped(ring)
  {
    && Narrowed(ring, num, j, hit, stage', l', r') && 0 <= l' && -1 <= r'
    && (Left(ring, stage') < Left(ring, stage) ||
        (Left(ring, stage') == Left(ring, stage) && Span(l', r') < Span(l, r)))
  }

  /** A round stays in range and takes the search on or ends it. */
  ghost predicate Rounds(ring: Ring, num: nat, j: nat, hit: bool, stage: Stage, l: nat, r: nat)
    requires Shaped(ring)
  {
    var m := Middle(l, r);
    var next := StageAfter(ring, j, stage, m);
    && ring.start + m < SIZE
    && (RequestAt(ring)(m).num < num ==> Goes(ring, num, j, hit, stage, l, r, next, m + 1, r))
    && (num < RequestAt(ring)(m).num ==> m > 0 && Goes(ring, num, j, hit, stage, l, r, next, l, m - 1))
    && (RequestAt(ring)(m).num == num ==> RequestAt(ring)(m).req.Some? && Locates(ring, num, j, hit, Found(m)))
  }

  lemma {:induction false} RoundFull(ring: Ring, num: nat, j: nat, hit: bool, stage: Stage, l: nat, r: nat)
    requires Inv(ring) && Fits(ring) && Full(ring) && Narrowed(ring, num, j, hit, stage, l, r) && l <= r
    ensures Rounds(ring, num, j, hit, stage, l, r)
  {
    var m := Middle(l, r);
    assert 0 < Above(j, hit);
    Advance(stage, ring.cap, j, hit, l, r);
    StageFate(stage, ring.cap, j, hit, l, r);
    CompareFull(ring, num, j, hit, m);
    assert Mod(m, ring.cap) < j || Above(j, hit) <= Mod(m, ring.cap) || (hit && Mod(m, ring.cap) == j);
  }

  lemma {:induction false} RoundWindow(ring: Ring, num: nat, j: nat, hit: bool, stage: Stage, l: nat, r: nat)
    requires Inv(ring) && Fits(ring) && !Full(ring) && Searchable(ring, num)
    requires Narrowed(ring, num, j, hit, stage, l, r) && l <= r
    ensures Rounds(ring, num, j, hit, stage, l, r)
  {
    ShowsWindow(ring);
    ProbeInside(RequestAt(ring), Window(ring), num, l, r);
    assert !IsHole(Window(ring), num, Middle(l, r));
  }

  lemma {:induction false} Round(ring: Ring, num: nat, j: nat, hit: bool, stage: Stage, l: nat, r: nat)
    requires Inv(ring) && Fits(ring) && Searchable(ring, num) && Narrowed(ring, num, j, hit, stage, l, r) && l <= r
    ensures Rounds(ring, num, j, hit, stage, l, r)
  {
    if Full(ring) {
      RoundFull(ring, num, j, hit, stage, l, r);
    } else {
      RoundWindow(ring, num, j, hit, stage, l, r);
    }
  }

  /** The upper end is the newest slot, or the largest size_t in a full buffer. */
  lemma {:induction false} Begins(ring: Ring, num: nat, j: nat, hit: bool)
    requires Inv(ring) && Searchable(ring, num)
    requires Full(ring) ==> Target(Window(ring), num, j, hit) && ComesBack(ring, j, hit)
    ensures 0 <= TotalLen(ring) && Narrowed(ring, num, j, hit, First, 0, Before(TotalLen(ring)))
  {
  }

  lemma {:induction false} EndsAbsent(ring: Ring, num: nat, j: nat, hit: bool, stage: Stage, l: int, r: int)
    requires Inv(ring) && Narrowed(ring, num, j, hit, stage, l, r) && l > r
    ensures Locates(ring, num, j, hit, Absent)
  {
    if Full(ring) {
      StageFate(stage, ring.cap, j, hit, l, r);
      if stage.Outer? {
        PowBound(stage.k);
      } else if stage == Inner && hit {
        InnerGoesOn(ring.cap, j, l, r);
      }
    }
  }

  lemma {:induction false} ProbeGoes(ring: Ring, num: nat, j: nat, hit: bool, stage: Stage, l: nat, r: nat)
    requires Inv(ring) && Fits(ring) && Searchable(ring, num) && Narrowed(ring, num, j, hit, stage, l, r)
    ensures var s := Probe(RequestAt(ring), num, Open(l, r));
            if s.Open? then Goes(ring, num, j, hit, stage, l, r, StageAfter(ring, j, stage, Middle(l, r)), s.l, s.r)
            else Locates(ring, num, j, hit, s)
  {
    if l > r {
      EndsAbsent(ring, num, j, hit, stage, l, r);
    } else {
      RoundGoes(ring, num, j, hit, stage, l, r, RequestAt(ring)(Middle(l, r)));
    }
  }

  lemma {:induction false} RoundGoes(ring: Ring, num: nat, j: nat, hit: bool, stage: Stage, l: nat, r: nat, slot: Slot)
    requires Inv(ring) && Fits(ring) && Searchable(ring, num) && Narrowed(ring, num, j, hit, stage, l, r) && l <= r
    requires slot == RequestAt(ring)(Middle(l, r))
    ensures var m := Middle(l, r);
            var s := if slot.num < num then Open(m + 1, r) else if slot.num > num then Open(l, Before(m)) else Found(m);
            && Probe(RequestAt(ring), num, Open(l, r)) == s
            && (s.Open? ==> Goes(ring, num, j, hit, stage, l, r, StageAfter(ring, j, stage, m), s.l, s.r))
            && (!s.Open? ==> Locates(ring, num, j, hit, s))
  {
    Round(ring, num, j, hit, stage, l, r);
  }

  lemma {:induction false} NextState(ring: Ring, num: nat, j: nat, hit: bool, stage: Stage, l: nat, r: nat, k: nat)
    returns (s: Search, stage': Stage)
    requires Inv(ring) && Fits(ring) && Searchable(ring, num) && Narrowed(ring, num, j, hit, stage, l, r)
    requires SearchState(ring, num, k) == Open(l, r)
    ensures SearchState(ring, num, k + 1) == s
    ensures s.Open? ==> Narrowed(ring, num, j, hit, stage', s.l, s.r)
    ensures s.Open? ==> Left(ring, stage') < Left(ring, stage) ||
                        (Left(ring, stage') == Left(ring, stage) && Span(s.l, s.r) < Span(l, r))
    ensures !s.Open? ==> Locates(ring, num, j, hit, s)
  {
    s, stage' := Probe(RequestAt(ring), num, Open(l, r)), StageAfter(ring, j, stage, Middle(l, r));
    ProbeGoes(ring, num, j, hit, stage, l, r);
  }

  /** A search that comes back ends after finitely many rounds. */
  lemma {:induction false} SearchReturns(ring: Ring, num: nat, j: nat, hit: bool, stage: Stage, l: nat, r: nat, k: nat)
    returns (k': nat)
    requires Inv(ring) && Fits(ring) && Searchable(ring, num) && Narrowed(ring, num, j, hit, stage, l, r)
    requires SearchState(ring, num, k) == Open(l, r)
    ensures Locates(ring, num, j, hit, SearchState(ring, num, k'))
    decreases Left(ring, stage), Span(l, r)
  {
    k' := k + 1;
    var s, stage' := NextState(ring, num, j, hit, stage, l, r, k);
    if s.Open? {
      k' := SearchReturns(ring, num, j, hit, stage', s.l, s.r, k + 1);
    }
  }

  /** The search of a full buffer for any number whatsoever: it ends, with the result
      that its place says, if and only if the place says that it comes back. */
  lemma {:induction false} FullExactly(ring: Ring, num: nat, j: nat, hit: bool)
    requires Inv(ring) && Fits(ring) && Full(ring) && Target(Window(ring), num, j, hit)
    ensures NeverEnds(ring, num) <==> !ComesBack(ring, j, hit)
    ensures ComesBack(ring, j, hit) ==> exists k: nat :: Returns(ring, j, hit, SearchState(ring, num, k))
  {
    if ComesBack(ring, j, hit) {
      Begins(ring, num, j, hit);
      var k := SearchReturns(ring, num, j, hit, First, 0, SIZE - 1, 0);
      assert Returns(ring, j, hit, SearchState(ring, num, k)) && !SearchState(ring, num, k).Open?;
    } else {
      forall k: nat
        ensures SearchState(ring, num, k).Open?
      {
        FullHangs(ring, num, j, hit, k);
      }
    }
  }

  // ------------------------------------------------------------------ the window

  /** Before the search has an answer, its upper end wraps to the largest size_t. */
  ghost predicate UpperEndWraps(r: Ring, num: nat)
    requires Shaped(r)
  {
    exists k: nat :: k > 0 && SearchState(r, num, k) == Open(0, SIZE - 1)
  }

  /** The searches of a window that do not come back as they should: for a number in a
      hole, and for one below the window. */
  lemma {:induction false} WindowSearches(r: Ring, num: nat)
    requires Inv(r) && Fits(r) && Window(r) != [] && !Full(r)
    ensures !NoHole(Window(r), num) ==> NeverEnds(r, num)
    ensures num < Window(r)[0].num ==> UpperEndWraps(r, num)
  {
    var at, last := RequestAt(r), Total(r) - 1;
    assert Before(TotalLen(r)) == last;
    ShowsWindow(r);
    SearchExactly(at, Window(r), last, num);
    if num < Window(r)[0].num {
      var k :| Probes(at, last, num, k) == Open(0, SIZE - 1);
      assert SearchState(r, num, k) == Open(0, SIZE - 1) && k > 0;
    }
  }

  /** The probes at 2^63 - 1 down to 1 meet lower numbers, and index 0 a higher one. */
  ghost predicate Trapped(at: nat -> Slot, num: nat) {
    num < at(0).num && forall k: nat | 1 <= k <= 63 :: at(Pow2(k) - 1).num < num
  }

  /** Where the search for a number below the window stands. */
  ghost predicate Sinking(w: seq<Slot>, num: nat, s: Search) {
    s.Open? && ((s.l == 0 && s.r < |w|) || (s.l == 0 && s.r == SIZE - 1) || exists k :: Trap(k, s))
  }

  ghost predicate Trap(k: nat, s: Search) {
    1 <= k <= 63 && s == Open(Pow2(k), SIZE - 1)
  }

  lemma {:induction false} SinksOn(at: nat -> Slot, w: seq<Slot>, num: nat, s: Search)
    requires Shows(at, w) && num < w[0].num && Trapped(at, num) && Sinking(w, num, s)
    ensures Sinking(w, num, Probe(at, num, s))
  {
    if s.l == 0 && s.r < |w| {
      SinksInside(at, w, num, s.r);
    } else if s.l == 0 && s.r == SIZE - 1 {
      HalfIsPower();
      assert Middle(0, SIZE - 1) == Pow2(63) - 1;
      assert Trap(63, Probe(at, num, s));
    } else {
      var k :| Trap(k, s);
      SinksDown(at, num, k);
    }
  }

  lemma {:induction false} SinksInside(at: nat -> Slot, w: seq<Slot>, num: nat, r: nat)
    requires Shows(at, w) && num < w[0].num && r < |w|
    ensures Sinking(w, num, Probe(at, num, Open(0, r)))
  {
    var m := Middle(0, r);
    assert at(m) == w[m];
    if m > 0 {
      Below(w, 0, m);
    }
  }

  lemma {:induction false} SinksDown(at: nat -> Slot, num: nat, k: nat)
    requires Trapped(at, num) && 1 <= k <= 63
    ensures Trap(if k == 1 then 1 else k - 1, Probe(at, num, Open(Pow2(k), SIZE - 1)))
  {
    OuterMiddle(k);
    PowBound(k);
    if k == 1 {
      assert Middle(Pow2(1), SIZE - 1) == 0;
    }
  }

  lemma {:induction false} Sinks(at: nat -> Slot, w: seq<Slot>, num: nat, k: nat)
    requires Shows(at, w) && num < w[0].num && Trapped(at, num)
    ensures Sinking(w, num, Probes(at, |w| - 1, num, k))
  {
    if k > 0 {
      Sinks(at, w, num, k - 1);
      SinksOn(at, w, num, Probes(at, |w| - 1, num, k - 1));
    }
  }

  /** After its upper end has wrapped, a search below the window is trapped for ever when
      the slots outside it that the powers of 2 meet have lower numbers. */
  lemma {:induction false} BelowHangs(r: Ring, num: nat)
    requires Inv(r) && Fits(r) && Window(r) != [] && !Full(r) && num < Window(r)[0].num && Trapped(RequestAt(r), num)
    ensures NeverEnds(r, num)
  {
    ShowsWindow(r);
    forall k: nat
      ensures SearchState(r, num, k).Open?
    {
      Sinks(RequestAt(r), Window(r), num, k);
    }
  }

  // ------------------------------------------------------------------ the method

  /** One round of the loop: the new bounds, or the index found. */
  method ProbeOnce(ring: Ring, num: nat, l: nat, r: nat) returns (s: Search)
    requires 0 < ring.cap == |ring.slots| && l <= r
    ensures s == Probe(RequestAt(ring), num, Open(l, r))
  {
    var m := Middle(l, r);
    var slot := RequestAt(ring)(m);
    s := Open(l, r);
    if slot.num < num {
      s := Open(m + 1, r);
    } else if slot.num > num {
      s := Open(l, Before(m));
    } else if slot.req.Some? {
      s := Found(m);
    }
  }

  /** search_seq. */
  method SearchSeq(ring: Ring, num: nat) returns (res: Search, ghost j: nat, ghost hit: bool)
    requires Inv(ring) && Fits(ring) && Searchable(ring, num)
    ensures Locates(ring, num, j, hit, res)
  {
    j, hit := 0, false;
    if Full(ring) {
      j, hit := HasTarget(Window(ring), num);
      SamePlace(ring, num, j, hit);
    }
    Begins(ring, num, j, hit);
    var l, r := 0, Before(TotalLen(ring));
    ghost var stage := First;
    while l <= r
      invariant Narrowed(ring, num, j, hit, stage, l, r)
      decreases Left(ring, stage), Span(l, r)
    {
      var s := ProbeOnce(ring, num, l, r);
      ProbeGoes(ring, num, j, hit, stage, l, r);
      if !s.Open? {
        return s, j, hit;
      }
      stage := StageAfter(ring, j, stage, Middle(l, r));
      l, r := s.l, s.r;
    }
    EndsAbsent(ring, num, j, hit, stage, l, r);
    return Absent, j, hit;
  }

  /** A number has one place only. */
  lemma {:induction false} SamePlace(ring: Ring, num: nat, j: nat, hit: bool)
    requires Inv(ring) && Full(ring) && Searchable(ring, num) && Target(Window(ring), num, j, hit)
    ensures ComesBack(ring, j, hit)
  {
    var w := Window(ring);
    var j': nat, hit': bool :| Target(w, num, j', hit') && ComesBack(ring, j', hit');
    if hit' {
      OneTarget(w, num, j, hit, j');
    } else if hit {
      OneTarget(w, num, j', hit', j);
    } else {
      OneGap(w, num, j, j');
    }
  }

  lemma {:induction false} OneGap(w: seq<Slot>, num: nat, j: nat, j': nat)
    requires Target(w, num, j, false) && Target(w, num, j', false)
    ensures j == j'
  {
    var i := if j < j' then j else j';
    if i < |w| {
      assert w[i].num < num <==> i < j;
      assert w[i].num < num <==> i < j';
    }
  }
}
