/** Runs of the pending requests that go wrong, each from a client's first request. */
module PendingCases {
  import opened Wrappers
  import Protocol = SequenceProtocol
  import opened PendingRing
  import opened PendingComplete
  import opened PendingSearch
  import opened CircularSearch
  import opened PendingLookup
  import opened PendingRequests
  import opened PendingRuns

  /** The slots of requests 2, 4, ..., 2k. */
  ghost function Numbered(k: nat): (w: seq<Slot>)
    ensures |w| == k && forall i | 0 <= i < k :: w[i] == Slot(2 * i + 2, Some(i))
  {
    seq(k, (i: nat) => Slot(2 * i + 2, Some(i)))
  }

  /** The window after requests 2, 4, ..., 2k arrived. */
  ghost function Arrived(k: nat): View {
    View(if k == 0 then None else Some(2 * k), Numbered(k), if k <= 12 then 12 else 18)
  }

  lemma {:induction false} NumberedIs(k: nat)
    ensures LiveSlots(Numbered(k)) == Numbered(k) && Follows(Numbered(k), 2 * k + 2)
  {
    LiveAll(Numbered(k));
  }

  lemma {:induction false} NumberedNext(k: nat)
    ensures Numbered(k) + [Slot(2 * k + 2, Some(k))] == Numbered(k + 1)
  {
  }

  lemma {:induction false} NextArrives(k: nat)
    requires k < 18
    ensures var op := Add(2 * k + 2, k);
            Safe(Arrived(k), op) && ViewNext(Arrived(k), op) == Arrived(k + 1)
  {
    NumberedIs(k);
    NumberedNext(k);
  }

  method ArriveOne(q: Requests?, k: nat) returns (q': Requests?)
    requires k < 18 && Represents(q, Arrived(k), k)
    modifies q
    ensures (q' == q || fresh(q')) && q' != null && Represents(q', Arrived(k + 1), k + 1)
  {
    NextArrives(k);
    var out;
    q', out := Call(q, Add(2 * k + 2, k), Arrived(k), k);
  }

  /** Requests 2, 4, ..., 2n arrive. */
  method Arrive(n: nat) returns (p: Requests)
    requires 0 < n <= 18
    ensures fresh(p) && Represents(p, Arrived(n), n)
  {
    assert Arrived(0) == START;
    var q := ArriveOne(null, 0);
    for k := 1 to n
      invariant q != null && fresh(q) && Represents(q, Arrived(k), k)
    {
      q := ArriveOne(q, k);
    }
    p := q;
  }

  /** A request in the middle of a window that is not full is completed. */
  lemma {:induction false} MiddleStep(v: View, i: nat)
    requires Rising(v.w) && 0 < i < |v.w| - 1 && v.w[i].req.Some? && |v.w| != v.cap
    ensures var op := Complete(v.w[i].num);
            Safe(v, op) && ViewNext(v, op) == v.(w := v.w[i := v.w[i].(req := None)])
  {
    var num := v.w[i].num;
    PlaceIs(v.w, num, i);
    Below(v.w, 0, i);
    forall k: nat | k < |v.w| && v.w[k].num == num
      ensures k == i
    {
      PlaceIs(v.w, num, k);
    }
  }

  /** The window after requests 2, ..., 2k arrived and those in slots 1 to m were
      completed. */
  ghost function Punched(k: nat, m: nat): (w: seq<Slot>)
    requires m < k
    ensures |w| == k && Rising(w)
    ensures forall i | 0 <= i < k :: w[i] == Slot(2 * i + 2, if 1 <= i <= m then None else Some(i))
  {
    seq(k, (i: nat) => Slot(2 * i + 2, if 1 <= i <= m then None else Some(i)))
  }

  // ------------------------------------------------------------------- searches

  /** Requests 2, 4 and 6 arrive and 4 is answered.  Searching for 4 again never
      ends. */
  method SearchForTheDoneHangs() returns (p: Requests)
    ensures p.Valid() && !Full(p.Value()) && NeverEnds(p.Value(), 4)
  {
    p := Arrive(3);
    MiddleStep(Arrived(3), 1);
    var q, _ := Call(p, Complete(4), Arrived(3), 3);
    p := q;
    assert IsHole(Window(p.Value()), 4, 1);
    WindowSearches(p.Value(), 4);
  }

  /** Requests 2 and 4 arrive and 2 is answered.  Searching for 2 again makes the upper
      end wrap around. */
  method SearchBelowWraps() returns (p: Requests)
    ensures p.Valid() && !Full(p.Value()) && UpperEndWraps(p.Value(), 2)
  {
    p := Arrive(2);
    OldestStep(Arrived(2));
    var q, _ := Call(p, Complete(2), Arrived(2), 2);
    p := q;
    assert Window(p.Value())[0].num == 4;
    WindowSearches(p.Value(), 2);
  }

  /** The oldest request of a window that is not full is completed. */
  lemma {:induction false} OldestStep(v: View)
    requires Rising(v.w) && v.w != [] && v.w[0].req.Some? && |v.w| != v.cap
    ensures var op := Complete(v.w[0].num);
            Safe(v, op) && ViewNext(v, op) == v.(w := v.w[1..])
  {
    forall k: nat | k < |v.w| && v.w[k].num == v.w[0].num
      ensures k == 0
    {
      PlaceIs(v.w, v.w[0].num, k);
    }
  }

  /** Of twelve pending requests, the ninth cannot be completed: the search for it
      never ends. */
  method NinthOfTwelveHangs() returns (p: Requests)
    ensures p.Valid() && Slot(18, Some(8)) in Pending(p.Value()) && NeverEnds(p.Value(), 18)
  {
    p := Arrive(12);
    LiveAll(Numbered(12));
    assert Window(p.Value())[8] in Window(p.Value());
    FullIs(p.Value());
    TwelveHang(p.cap, 8);
    FullExactly(p.Value(), 18, 8, true);
  }

  lemma {:induction false} TwelveHang(cap: Pos, j: nat)
    requires cap == 12 && 8 <= j
    ensures SlotFate(cap, j) == Hangs
  {
    HalfIsPower();
    forall k: nat
      ensures PowMod(k, cap) < j
    {
      PowerMod12(k);
    }
    assert PowMod(63, cap) < j;
  }

  ghost predicate Residue(x: int) {
    x % 12 == 1 || x % 12 == 2 || x % 12 == 4 || x % 12 == 8
  }

  lemma {:induction false} Doubled(x: nat)
    requires Residue(x)
    ensures Residue(2 * x) && (x >= 1 ==> (x - 1) % 12 < 8)
  {
    var q, r := x / 12, x % 12;
    assert x == 12 * q + r;
    if r == 8 {
      Mod12(2 * q + 1, 4);
    } else {
      Mod12(2 * q, 2 * r);
    }
    Mod12(q, r - 1);
  }

  lemma {:induction false} Mod12(q: nat, r: nat)
    requires r < 12
    ensures (12 * q + r) % 12 == r
  {
  }

  lemma {:induction false} PowerMod12(k: nat)
    ensures Residue(Pow2(k)) && Mod(Pow2(k) - 1, 12) < 8
  {
    if k > 0 {
      PowerMod12(k - 1);
      Doubled(Pow2(k - 1));
    }
    Doubled(Pow2(k));
    ModIsRemainder(Pow2(k) - 1, 12);
  }

  /** Of eighteen pending requests, the ninth is not found: completing it reports that
      there is none. */
  method NinthOfEighteenIsMissed() returns (p: Requests, done: Option<Slot>)
    ensures p.Valid() && done == None && Slot(18, Some(8)) in Pending(p.Value())
  {
    p := Arrive(18);
    LiveAll(Numbered(18));
    assert Window(p.Value())[8] in Window(p.Value());
    FullIs(p.Value());
    EighteenMiss(p.cap, 8);
    assert Target(Window(p.Value()), 18, 8, true) && ComesBack(p.Value(), 8, true);
    forall k | IsLive(Window(p.Value()), 18, k)
      ensures k == 8
    {
      PlaceIs(Window(p.Value()), 18, k);
    }
    ghost var i;
    done, i := p.Complete(18);
  }

  lemma {:induction false} EighteenMiss(cap: Pos, j: nat)
    requires cap == 18 && j == 8
    ensures SlotFate(cap, j) == Misses
  {
    EighteenLow(cap, j, 61);
    EighteenProbe(cap, 60);
    OuterAbove(cap, j, true, 61);
    StopFate(cap, j, true, 60);
  }

  lemma {:induction false} EighteenLow(cap: Pos, j: nat, k: nat)
    requires cap == 18 && j == 8 && k == 61
    ensures TooLow(k, cap, j)
  {
    forall i: nat | k <= i <= 63
      ensures PowMod(i, cap) < j
    {
      EighteenProbe(cap, i);
    }
  }

  lemma {:induction false} EighteenProbe(cap: Pos, k: nat)
    requires cap == 18 && 60 <= k <= 63
    ensures PowMod(k, cap) == if k == 63 then 7 else if k == 62 then 3 else if k == 61 then 1 else 9
  {
    TopPower(k);
    ModIsRemainder(Pow2(k) - 1, cap);
    TopResidues(HALF);
  }

  lemma {:induction false} TopPower(k: nat)
    requires 60 <= k <= 63
    ensures Pow2(k) == if k == 63 then HALF else if k == 62 then HALF / 2 else if k == 61 then HALF / 4 else HALF / 8
    decreases 63 - k
  {
    if k == 63 {
      HalfIsPower();
    } else {
      TopPower(k + 1);
    }
  }

  lemma {:induction false} TopResidues(h: nat)
    requires h == 0x8000_0000_0000_0000
    ensures (h - 1) % 18 == 7 && (h / 2 - 1) % 18 == 3 && (h / 4 - 1) % 18 == 1 && (h / 8 - 1) % 18 == 9
  {
  }

  // ----------------------------------------------------------------- compaction

  /** The window after requests 2, ..., 2k arrived and those in slots 1 to m were
      completed, in the first buffer. */
  ghost function Thinned(k: nat, m: nat): View
    requires m < k
  {
    View(Some(2 * k), Punched(k, m), 12)
  }

  lemma {:induction false} ThinOne(m: nat)
    requires m < 9
    ensures var op := Complete(2 * m + 4);
            Safe(Thinned(11, m), op) && ViewNext(Thinned(11, m), op) == Thinned(11, m + 1)
  {
    MiddleStep(Thinned(11, m), m + 1);
    assert Punched(11, m)[m + 1 := Slot(2 * m + 4, None)] == Punched(11, m + 1);
  }

  lemma {:induction false} NineLeft()
    ensures |LiveSlots(Punched(12, 3))| == 9 && Slot(2, Some(0)) in LiveSlots(Punched(12, 3))
  {
    var w := Punched(12, 3);
    LiveConcat(w[..4], w[4..]);
    assert w == w[..4] + w[4..];
    LiveAll(w[4..]);
    LiveAppend(w[..3], w[3]);
    LiveAppend(w[..2], w[2]);
    LiveAppend(w[..1], w[1]);
    LiveAppend([], w[0]);
    assert w[..4] == w[..3] + [w[3]] && w[..3] == w[..2] + [w[2]] && w[..2] == w[..1] + [w[1]] && w[..1] == [] + [w[0]];
  }

  lemma {:induction false} TwelfthArrives()
    ensures var op := Add(24, 11);
            Safe(Thinned(11, 3), op) && ViewNext(Thinned(11, 3), op) == Thinned(12, 3)
  {
    assert Punched(11, 3) + [Slot(24, Some(11))] == Punched(12, 3);
  }

  method ThinBy(p: Requests, m: nat) returns (p': Requests)
    requires m < 9 && Represents(p, Thinned(11, m), 11 + m)
    modifies p
    ensures (p' == p || fresh(p')) && Represents(p', Thinned(11, m + 1), 12 + m)
  {
    ThinOne(m);
    var q, _ := Call(p, Complete(2 * m + 4), Thinned(11, m), 11 + m);
    p' := q;
  }

  /** Requests 2 to 22 arrive, and the m after the first are answered. */
  method Thin(m: nat) returns (p: Requests)
    requires m <= 9
    ensures fresh(p) && Represents(p, Thinned(11, m), 11 + m)
  {
    if m == 0 {
      p := Arrive(11);
      assert Numbered(11) == Punched(11, 0);
    } else {
      p := Thin(m - 1);
      p := ThinBy(p, m - 1);
    }
  }

  /** Requests 2 to 22 arrive, 4, 6 and 8 are answered, and 24 arrives: twelve slots
      are in use and nine requests pending. */
  method NineOfTwelve() returns (p: Requests)
    ensures fresh(p) && Represents(p, Thinned(12, 3), 15)
  {
    p := Thin(3);
    TwelfthArrives();
    var q, _ := Call(p, Add(24, 11), Thinned(11, 3), 14);
    p := q;
  }

  /** Then 26 arrives.  Request 2 was pending and never answered, and is gone, and so
      are all others but the new one. */
  method CompactionLosesOldest() returns (p: Requests, ghost before: seq<Slot>)
    ensures |before| == 9 && Slot(2, Some(0)) in before
    ensures p.lastSeq == 26 && p.len == 10 && Shaped(p.Value()) && Pending(p.Value()) == [Slot(26, Some(12))]
  {
    p := NineOfTwelve();
    before := Pending(p.Value());
    NineLeft();
    FullIs(p.Value());
    var ok := p.Add(26, 12);
  }

  // -------------------------------------------------------------- leading holes

  /** The window of n slots that starts with the holes of 4 to 18. */
  ghost function Hollow(n: nat): (w: seq<Slot>)
    ensures |w| == n && Rising(w)
    ensures forall i | 0 <= i < n :: w[i] == Slot(2 * i + 4, if i < 8 then None else Some(i + 1))
  {
    seq(n, (i: nat) => Slot(2 * i + 4, if i < 8 then None else Some(i + 1)))
  }

  ghost function HollowView(n: nat): View {
    View(Some(2 * n + 2), Hollow(n), 12)
  }

  lemma {:induction false} HollowGrows(n: nat)
    requires 10 <= n < 12
    ensures var op := Add(2 * n + 4, n + 1);
            Safe(HollowView(n), op) && ViewNext(HollowView(n), op) == HollowView(n + 1)
  {
    assert Hollow(n) + [Slot(2 * n + 4, Some(n + 1))] == Hollow(n + 1);
  }

  lemma {:induction false} HollowHead(w: seq<Slot>, n: nat)
    requires n < |w| && (forall i | 0 <= i < n :: w[i].req == None) && w[n].req.Some?
    ensures LiveSlots(w) != [] && LiveSlots(w)[0] == w[n]
    decreases |w|
  {
    if n == |w| - 1 {
      LiveNone(w[..n]);
    } else {
      HollowHead(w[..|w| - 1], n);
    }
  }

  lemma {:induction false} LiveNone(w: seq<Slot>)
    requires forall i | 0 <= i < |w| :: w[i].req == None
    ensures LiveSlots(w) == []
  {
    if w != [] {
      LiveNone(w[..|w| - 1]);
    }
  }

  method HollowBy(p: Requests, n: nat) returns (p': Requests)
    requires 10 <= n < 12 && Represents(p, HollowView(n), n + 10)
    modifies p
    ensures (p' == p || fresh(p')) && Represents(p', HollowView(n + 1), n + 11)
  {
    HollowGrows(n);
    var q, _ := Call(p, Add(2 * n + 4, n + 1), HollowView(n), n + 10);
    p' := q;
  }

  method HollowTen() returns (p: Requests)
    ensures fresh(p) && Represents(p, HollowView(10), 20)
  {
    p := Thin(8);
    OldestStep(Thinned(11, 8));
    assert Punched(11, 8)[1..] == Hollow(10);
    var q, _ := Call(p, Complete(2), Thinned(11, 8), 19);
    p := q;
  }

  /** Requests 2 to 22 arrive, 4 to 18 are answered and then 2, and 24 and 26 arrive.
      The oldest pending request is 20, behind eight holes, and the search for it never
      ends. */
  method HolesHideOldest() returns (p: Requests)
    ensures p.Valid() && Pending(p.Value()) != [] && Pending(p.Value())[0] == Slot(20, Some(9))
    ensures NeverEnds(p.Value(), 20)
  {
    p := HollowTen();
    p := HollowBy(p, 10);
    p := HollowBy(p, 11);
    HollowHead(Hollow(12), 8);
    FullIs(p.Value());
    TwelveHang(p.cap, 8);
    FullExactly(p.Value(), 20, 8, true);
  }

  // ----------------------------------------------------------------- wraparound

  /** The numbers 2 and 4 are skipped, 6 is pending, and all later numbers up to the last
      are skipped; then 2 is accepted again. */
  method WrapAround(a: nat, b: nat) returns (p: Requests)
    ensures fresh(p) && p.lastSeq == 2 && Shaped(p.Value()) && p.cap == 12
    ensures Window(p.Value()) == [Slot(6, Some(a)), Slot(2, Some(b))]
  {
    p := SixPending(a);
    SkipToTheEnd(p, a);
    var ok := p.Add(2, b);
  }

  method SixPending(a: nat) returns (p: Requests)
    ensures fresh(p) && p.Valid() && p.lastSeq == 6 && p.cap == 12 && Window(p.Value()) == [Slot(6, Some(a))]
  {
    p := new Requests(2);
    SkipAside(p.Value(), 4);
    var ok := p.Skip(4);
    ok := p.Add(6, a);
  }

  method SkipToTheEnd(p: Requests, ghost a: nat)
    requires p.Valid() && p.lastSeq == 6 && p.cap == 12 && Window(p.Value()) == [Slot(6, Some(a))]
    modifies p
    ensures p.Valid() && p.lastSeq == U32 - 2 && p.cap == 12 && Window(p.Value()) == [Slot(6, Some(a))]
  {
    var num := 6;
    while num < U32 - 2
      invariant 6 <= num <= U32 - 2 && num % 2 == 0
      invariant p.Valid() && p.lastSeq == num && p.cap == 12 && Window(p.Value()) == [Slot(6, Some(a))]
    {
      SkipAside(p.Value(), num + 2);
      var ok := p.Skip(num + 2);
      num := num + 2;
    }
  }

  /** Then 4 is accepted as well, into the next slot.  Request 6 is the oldest pending,
      and the search for it ends without finding it. */
  method WraparoundHidesOldest(a: nat, b: nat, c: nat) returns (p: Requests)
    ensures Shaped(p.Value()) && Pending(p.Value()) == [Slot(6, Some(a)), Slot(2, Some(b)), Slot(4, Some(c))]
    ensures p.lastSeq == 4 && SearchState(p.Value(), 6, 3) == Absent
  {
    p := WrapAround(a, b);
    ghost var r := p.Value();
    var ok := p.Skip(4);
    assert Window(p.Value()) == Window(r);
    PushWindow(p.Value(), 4, c);
    p.Store(4, c);
    assert Window(p.Value()) == [Slot(6, Some(a)), Slot(2, Some(b)), Slot(4, Some(c))];
    LiveAll(Window(p.Value()));
    SixIsHidden(p.Value(), a, b, c);
  }

  lemma {:induction false} SixIsHidden(r: Ring, a: nat, b: nat, c: nat)
    requires Shaped(r) && r.cap == 12 && Window(r) == [Slot(6, Some(a)), Slot(2, Some(b)), Slot(4, Some(c))]
    ensures SearchState(r, 6, 3) == Absent
  {
    var at := RequestAt(r);
    RequestAtIs(r, 1);
    RequestAtIs(r, 2);
    assert Before(TotalLen(r)) == 2 && at(1) == Window(r)[1] && at(2) == Window(r)[2];
    assert Probes(at, 2, 6, 1) == Open(2, 2);
    assert Probes(at, 2, 6, 2) == Open(3, 2);
  }

  // ----------------------------------------------------------------- the newest

  /** Requests 2 and 4 have arrived. */
  function TwoArrived(a: nat, b: nat): Ring {
    Push(Push(Vacant(2), 2, a), 4, b)
  }

  lemma {:induction false} TwoInOrder(a: nat, b: nat)
    ensures Inv(TwoArrived(a, b)) && !Full(TwoArrived(a, b)) && Total(TwoArrived(a, b)) == 2
  {
    PushFresh(2, a);
    PushKeeps(Push(Vacant(2), 2, a), 4, b);
  }

  /** Now 4 is answered first, and then 6 and 8 arrive.  Request 2 is pending, and
      the search for it ends without finding it. */
  lemma {:induction false} NewestFirstLosesOldest(a: nat, b: nat, c: nat, d: nat)
    ensures Inv(TwoArrived(a, b)) && Newest(TwoArrived(a, b), 1) && !Inv(Invalidate(TwoArrived(a, b), 1))
    ensures var r := Push(Push(Invalidate(TwoArrived(a, b), 1), 6, c), 8, d);
            && Shaped(r) && Slot(2, Some(a)) in Pending(r)
            && TotalLen(r) == 5 && SearchState(r, 2, 3) == Absent
  {
    TwoInOrder(a, b);
    CompleteNewest(TwoArrived(a, b));
    var r := Push(Push(Invalidate(TwoArrived(a, b), 1), 6, c), 8, d);
    assert At(r, 0) == Slot(2, Some(a)) && At(r, 2) == EMPTY && At(r, 3).num == 6;
    assert Window(r)[0] in Window(r);
    LiveAreLive(Window(r));
    var at := RequestAt(r);
    assert at(2).num == 0 && at(3).num == 6;
    assert Probes(at, 4, 2, 1) == Open(3, 4);
    assert Probes(at, 4, 2, 2) == Open(3, 2);
  }

  /** Requests 2 and 4 arrive and 2 is answered.  Searching for 2 again never ends: after
      the upper end has wrapped, the powers of 2 meet slots that were never used. */
  lemma {:induction false} SearchBelowHangs(a: nat, b: nat)
    ensures var r := Invalidate(TwoArrived(a, b), 0);
            Inv(r) && Window(r) != [] && NeverEnds(r, 2)
  {
    var r := Invalidate(TwoArrived(a, b), 0);
    TwoInOrder(a, b);
    CompleteOldest(TwoArrived(a, b));
    UnusedSlots(a, b);
    forall k: nat | 1 <= k <= 63
      ensures RequestAt(r)(Pow2(k) - 1).num < 2
    {
      OddPower(k, 12);
      RequestAtIs(r, Pow2(k) - 1);
    }
    RequestAtIs(r, 0);
    BelowHangs(r, 2);
  }

  lemma {:induction false} UnusedSlots(a: nat, b: nat)
    ensures var r := Invalidate(TwoArrived(a, b), 0);
            && Shaped(r) && !Full(r) && r.cap == 12 && Total(r) == 1 && At(r, 0).num == 4
            && forall i | 1 <= i < 8 :: At(r, i) == EMPTY
  {
  }

  lemma {:induction false} OddPower(k: nat, cap: Pos)
    requires 1 <= k && cap == 12
    ensures 1 <= Mod(Pow2(k) - 1, cap) < 8
  {
    PowerMod12(k);
    ModIsRemainder(Pow2(k) - 1, cap);
    PowerMod12(k - 1);
    assert Pow2(k) == 2 * Pow2(k - 1);
  }
}
