/** search_seq: a bisection over the window, in size_t arithmetic.  In a full buffer the
    length reads as 0, so that the search starts from the largest size_t. */
module PendingSearch {
  import opened Wrappers
  import opened PendingRing

  /** A buffer small enough that no size_t product about it wraps. */
  ghost predicate Fits(r: Ring) {
    r.cap < SIZE / 512
  }

  /** total_len: 0 for a full buffer. */
  function TotalLen(r: Ring): int {
    if r.end >= r.start then r.end - r.start else r.cap - (r.start - r.end)
  }

  /** The state of search_seq between two rounds, or its result. */
  datatype Search = Open(l: nat, r: nat) | Found(i: nat) | Absent

  /** index_of: the position of any offset from the oldest slot. */
  function IndexOf(r: Ring, m: nat): (i: nat)
    requires 0 < r.cap
    ensures i < r.cap
  {
    Mod(r.start + m, r.cap)
  }

  /** request_at: the slot at any offset from the oldest one. */
  function RequestAt(r: Ring): nat -> Slot
    requires 0 < r.cap == |r.slots|
  {
    (m: nat) => r.slots[IndexOf(r, m)]
  }

  /** Offsets all the way round the buffer come back to the same slots. */
  lemma {:induction false} RequestAtIs(r: Ring, m: nat)
    requires Shaped(r)
    ensures IndexOf(r, m) == Wrap(r.start + Mod(m, r.cap), r.cap)
    ensures RequestAt(r)(m) == At(r, Mod(m, r.cap))
  {
    ModFrom(r.start, m, r.cap);
  }

  /** (l + r) / 2 of two size_t values. */
  function Middle(l: nat, r: nat): nat {
    (if l + r < SIZE then l + r else l + r - SIZE) / 2
  }

  /** m - 1 of a size_t value. */
  function Before(m: nat): nat {
    if m == 0 then SIZE - 1 else m - 1
  }

  /** One round of search_seq over the slots that `at` fetches, in size_t
      arithmetic. */
  function Probe(at: nat -> Slot, num: nat, s: Search): Search {
    if !s.Open? then s
    else if s.l > s.r then Absent
    else
      var m := Middle(s.l, s.r);
      if at(m).num < num then Open(m + 1, s.r)
      else if at(m).num > num then Open(s.l, Before(m))
      else if at(m).req.Some? then Found(m)
      else s
  }

  /** The state after k rounds from an upper end of `last`. */
  function Probes(at: nat -> Slot, last: nat, num: nat, k: nat): Search {
    if k == 0 then Open(0, last) else Probe(at, num, Probes(at, last, num, k - 1))
  }

  /** The slots that a search of the window w sees. */
  ghost predicate Shows(at: nat -> Slot, w: seq<Slot>) {
    0 < |w| < SIZE / 4 && Rising(w) && forall i: nat | i < |w| :: at(i) == w[i]
  }

  /** The number is not outside the open part of the window. */
  ghost predicate Bracket(w: seq<Slot>, num: nat, l: int, r: int) {
    && 0 <= l <= r + 1 <= |w|
    && (forall i | 0 <= i < l :: w[i].num < num)
    && (forall i | r < i < |w| :: num < w[i].num)
  }

  /** A round inside the window compares with the middle slot and narrows the
      bracket. */
  lemma {:induction false} ProbeInside(at: nat -> Slot, w: seq<Slot>, num: nat, l: nat, h: nat)
    requires Shows(at, w) && l <= h && Bracket(w, num, l, h)
    ensures var m := (l + h) / 2;
            && l <= m <= h
            && (w[m].num < num ==> Probe(at, num, Open(l, h)) == Open(m + 1, h) && Bracket(w, num, m + 1, h))
            && (num < w[m].num ==> Probe(at, num, Open(l, h)) == Open(l, Before(m)) && Bracket(w, num, l, m - 1))
            && (w[m].num == num ==>
                  Probe(at, num, Open(l, h)) == if w[m].req.Some? then Found(m) else Open(l, h))
  {
    var m := (l + h) / 2;
    assert Middle(l, h) == m && at(m) == w[m];
    forall i | 0 <= i < m
      ensures w[i].num < w[m].num
    {
      Below(w, i, m);
    }
    forall i | m < i < |w|
      ensures w[m].num < w[i].num
    {
      Below(w, m, i);
    }
  }

  ghost predicate IsHole(w: seq<Slot>, num: nat, i: nat) {
    i < |w| && w[i].num == num && w[i].req == None
  }

  ghost predicate NoHole(w: seq<Slot>, num: nat) {
    forall i :: !IsHole(w, num, i)
  }

  ghost predicate IsLive(w: seq<Slot>, num: nat, i: nat) {
    i < |w| && w[i].num == num && w[i].req.Some?
  }

  /** The right answer of a search. */
  ghost predicate Answers(w: seq<Slot>, num: nat, s: Search) {
    match s
    case Open(_, _) => false
    case Found(i) => IsLive(w, num, i)
    case Absent => forall i | 0 <= i < |w| :: w[i].num != num
  }

  /** A number that is not below the window and not in a hole is found, or found to
      be absent, after finitely many rounds. */
  lemma {:induction false} SearchEnds(at: nat -> Slot, w: seq<Slot>, last: nat, num: nat, k: nat, l: nat, h: nat)
    returns (k': nat)
    requires Shows(at, w) && w[0].num <= num && NoHole(w, num)
    requires Bracket(w, num, l, h) && Probes(at, last, num, k) == Open(l, h)
    ensures Answers(w, num, Probes(at, last, num, k'))
    decreases h + 1 - l
  {
    var s := Probes(at, last, num, k + 1);
    assert s == Probe(at, num, Open(l, h));
    if l <= h {
      RoundInside(at, w, num, l, h);
    }
    if s.Open? {
      k' := SearchEnds(at, w, last, num, k + 1, s.l, s.r);
    } else {
      k' := k + 1;
    }
  }

  /** A round inside the window narrows the bracket or ends the search. */
  lemma {:induction false} RoundInside(at: nat -> Slot, w: seq<Slot>, num: nat, l: nat, h: nat)
    requires Shows(at, w) && w[0].num <= num && NoHole(w, num) && l <= h && Bracket(w, num, l, h)
    ensures match Probe(at, num, Open(l, h))
            case Open(l', h') => Bracket(w, num, l', h') && h' - l' < h - l
            case Found(i) => IsLive(w, num, i)
            case Absent => false
  {
    ProbeInside(at, w, num, l, h);
    assert !IsHole(w, num, (l + h) / 2);
  }

  /** A number that sits in a hole is searched for without end. */
  lemma {:induction false} SearchHangs(at: nat -> Slot, w: seq<Slot>, num: nat, i: nat, k: nat)
    requires Shows(at, w) && IsHole(w, num, i)
    ensures var s := Probes(at, |w| - 1, num, k);
            s.Open? && s.l <= i <= s.r && Bracket(w, num, s.l, s.r)
  {
    if k > 0 {
      SearchHangs(at, w, num, i, k - 1);
      var s := Probes(at, |w| - 1, num, k - 1);
      RoundHole(at, w, num, i, s.l, s.r);
    }
  }

  /** A round never loses sight of a hole. */
  lemma {:induction false} RoundHole(at: nat -> Slot, w: seq<Slot>, num: nat, i: nat, l: nat, h: nat)
    requires Shows(at, w) && IsHole(w, num, i) && l <= i <= h && Bracket(w, num, l, h)
    ensures var s := Probe(at, num, Open(l, h));
            s.Open? && s.l <= i <= s.r && Bracket(w, num, s.l, s.r)
  {
    var m := (l + h) / 2;
    ProbeInside(at, w, num, l, h);
    if m < i {
      Below(w, m, i);
    } else if i < m {
      Below(w, i, m);
    }
  }

  /** A number below the window makes the upper end of the search wrap around. */
  lemma {:induction false} SearchUnderflows(at: nat -> Slot, w: seq<Slot>, last: nat, num: nat, k: nat, h: nat)
    returns (k': nat)
    requires Shows(at, w) && num < w[0].num && Bracket(w, num, 0, h) && Probes(at, last, num, k) == Open(0, h)
    ensures Probes(at, last, num, k') == Open(0, SIZE - 1)
    decreases h
  {
    var m := h / 2;
    ProbeInside(at, w, num, 0, h);
    if m > 0 {
      Below(w, 0, m);
      k' := SearchUnderflows(at, w, last, num, k + 1, m - 1);
    } else {
      k' := k + 1;
    }
  }

  /** What becomes of any search of a window in order. */
  lemma {:induction false} SearchExactly(at: nat -> Slot, w: seq<Slot>, last: nat, num: nat)
    requires Shows(at, w) && last == |w| - 1
    ensures num < w[0].num ==> exists k :: Probes(at, last, num, k) == Open(0, SIZE - 1)
    ensures !NoHole(w, num) ==> forall k :: Probes(at, last, num, k).Open?
    ensures w[0].num <= num && NoHole(w, num) ==>
              exists k :: Answers(w, num, Probes(at, last, num, k))
  {
    assert Probes(at, last, num, 0) == Open(0, last);
    if num < w[0].num {
      BelowAll(w, num);
      var k := SearchUnderflows(at, w, last, num, 0, last);
    } else if i :| IsHole(w, num, i) {
      forall k
        ensures Probes(at, last, num, k).Open?
      {
        SearchHangs(at, w, num, i, k);
      }
    } else {
      var k := SearchEnds(at, w, last, num, 0, 0, last);
    }
  }

  lemma {:induction false} BelowAll(w: seq<Slot>, num: nat)
    requires Rising(w) && w != [] && num < w[0].num
    ensures NoHole(w, num)
  {
    forall i | 0 < i < |w|
      ensures w[0].num < w[i].num
    {
      Below(w, 0, i);
    }
  }

  lemma {:induction false} ShowsWindow(r: Ring)
    requires Inv(r) && Fits(r) && Window(r) != []
    ensures Shows(RequestAt(r), Window(r))
  {
    forall i: nat | i < Total(r)
      ensures RequestAt(r)(i) == Window(r)[i]
    {
      RequestAtIs(r, i);
    }
  }
}
