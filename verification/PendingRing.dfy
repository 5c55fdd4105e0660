/** The server's pending requests of one client: a circular buffer of slots that is
    searched by bisection, loses entries to holes and grows when it is full. */
module PendingRing {
  import opened Wrappers

  // ------------------------------------------------------------------- layout

  /** A slot keeps its number when its request is gone; `req` names the request. */
  datatype Slot = Slot(num: nat, req: Option<nat>)

  const EMPTY: Slot := Slot(0, None)

  /** struct dicey_pending_requests. */
  datatype Ring = Ring(lastSeq: nat, start: nat, end: nat, len: nat, cap: nat, slots: seq<Slot>)

  /** Position x of a buffer of `cap` slots that x may have passed once. */
  function Wrap(x: nat, cap: nat): nat {
    if x < cap then x else x - cap
  }

  /** A capacity that one can divide by. */
  type Pos = n: nat | 0 < n witness 1

  /** x % cap, by repeated subtraction. */
  function Mod(x: nat, cap: Pos): (r: nat)
    ensures r < cap
  {
    if x < cap then x else Mod(x - cap, cap)
  }

  /** Mod is the remainder of the division. */
  lemma {:induction false} ModIsRemainder(x: nat, cap: Pos)
    ensures Mod(x, cap) == x % cap
  {
    var q := Quotient(x, cap);
    OneRemainder(q, Mod(x, cap), x / cap, x % cap, cap);
  }

  lemma {:induction false} OneRemainder(q: int, t: int, q': int, t': int, cap: int)
    requires 0 <= t < cap && 0 <= t' < cap && q * cap + t == cap * q' + t'
    ensures t == t'
  {
    var d := q - q';
    assert d * cap == q * cap - q' * cap;
    assert d > 0 ==> d * cap >= cap;
    assert d < 0 ==> d * cap <= -cap;
  }

  lemma {:induction false} Quotient(x: nat, cap: Pos) returns (q: nat)
    ensures x == q * cap + Mod(x, cap)
  {
    if x < cap {
      return 0;
    }
    var p := Quotient(x - cap, cap);
    assert (p + 1) * cap == p * cap + cap;
    q := p + 1;
  }

  /** An offset counted from `start` lands where its remainder does. */
  lemma {:induction false} ModFrom(start: nat, m: nat, cap: Pos)
    requires start < cap
    ensures Mod(m, cap) < cap && Mod(start + m, cap) == Wrap(start + Mod(m, cap), cap)
    decreases m
  {
    if m >= cap {
      ModFrom(start, m - cap, cap);
    }
  }

  ghost predicate Shaped(r: Ring) {
    0 < r.cap == |r.slots| && r.start < r.cap && r.end < r.cap
  }

  /** The number of slots in use, holes included.  Equal ends mean an empty buffer
      or a full one. */
  function Total(r: Ring): nat {
    if r.start == r.end then if r.len == 0 then 0 else r.cap
    else if r.start < r.end then r.end - r.start
    else if r.start <= r.cap then r.cap - r.start + r.end else 0
  }

  predicate Full(r: Ring) {
    r.start == r.end && r.len != 0
  }

  /** The slot i places after the oldest one. */
  function At(r: Ring, i: nat): Slot
    requires r.start < r.cap <= |r.slots| && i < r.cap
  {
    r.slots[Wrap(r.start + i, r.cap)]
  }

  /** The slots in use, oldest first. */
  ghost function Window(r: Ring): (w: seq<Slot>)
    requires Shaped(r)
    ensures |w| == Total(r) && forall i | 0 <= i < |w| :: w[i] == At(r, i)
  {
    seq(Total(r), (i: nat) requires i < Total(r) => At(r, i))
  }

  /** The slots that hold a request. */
  ghost function LiveSlots(w: seq<Slot>): seq<Slot> {
    if w == [] then []
    else LiveSlots(w[..|w| - 1]) + if w[|w| - 1].req.Some? then [w[|w| - 1]] else []
  }

  /** The pending requests, oldest first. */
  ghost function Pending(r: Ring): seq<Slot>
    requires Shaped(r)
  {
    LiveSlots(Window(r))
  }

  ghost predicate Rising(w: seq<Slot>) {
    forall i | 0 < i < |w| :: w[i - 1].num < w[i].num
  }

  lemma {:induction false} Below(w: seq<Slot>, i: nat, j: nat)
    requires Rising(w) && i < j < |w|
    ensures w[i].num < w[j].num
    decreases j
  {
    assert w[j - 1].num < w[j].num;
    if i < j - 1 {
      Below(w, i, j - 1);
    }
  }

  /** A window in good order: numbers increase, `len` counts the requests, and the
      newest slot is not a hole. */
  ghost predicate InOrder(w: seq<Slot>, len: nat) {
    Rising(w) && len == |LiveSlots(w)| && (w != [] ==> w[|w| - 1].req.Some?)
  }

  /** Slots outside the window hold no request. */
  ghost predicate OutsideEmpty(r: Ring)
    requires Shaped(r)
  {
    forall i | Total(r) <= i < r.cap :: At(r, i).req == None
  }

  ghost predicate Inv(r: Ring) {
    Shaped(r) && InOrder(Window(r), r.len) && OutsideEmpty(r)
  }

  // ---------------------------------------------------------------- live slots

  lemma {:induction false} LiveAppend(w: seq<Slot>, s: Slot)
    ensures LiveSlots(w + [s]) == LiveSlots(w) + if s.req.Some? then [s] else []
  {
    assert (w + [s])[..|w|] == w;
  }

  lemma {:induction false} LiveConcat(v: seq<Slot>, w: seq<Slot>)
    ensures LiveSlots(v + w) == LiveSlots(v) + LiveSlots(w)
  {
    if w == [] {
      assert v + w == v;
    } else {
      var n := |w| - 1;
      assert v + w == (v + w[..n]) + [w[n]] && w == w[..n] + [w[n]];
      LiveAppend(v + w[..n], w[n]);
      LiveConcat(v, w[..n]);
    }
  }

  lemma {:induction false} LiveAll(w: seq<Slot>)
    requires forall i | 0 <= i < |w| :: w[i].req.Some?
    ensures LiveSlots(w) == w
  {
    if w != [] {
      LiveAll(w[..|w| - 1]);
    }
  }

  lemma {:induction false} LiveAreLive(w: seq<Slot>)
    ensures |LiveSlots(w)| <= |w|
    ensures forall s :: s in LiveSlots(w) <==> s in w && s.req.Some?
    ensures Rising(w) ==> Rising(LiveSlots(w))
  {
    LiveFew(w);
    LiveIn(w);
    if Rising(w) {
      LiveRising(w);
    }
  }

  lemma {:induction false} LiveFew(w: seq<Slot>)
    ensures |LiveSlots(w)| <= |w|
  {
    if w != [] {
      LiveFew(w[..|w| - 1]);
    }
  }

  lemma {:induction false} LiveIn(w: seq<Slot>)
    ensures forall s :: s in LiveSlots(w) <==> s in w && s.req.Some?
  {
    if w != [] {
      var n := |w| - 1;
      LiveIn(w[..n]);
      assert w == w[..n] + [w[n]];
    }
  }

  lemma {:induction false} LiveRising(w: seq<Slot>)
    requires Rising(w)
    ensures Rising(LiveSlots(w))
    ensures LiveSlots(w) != [] ==> w != [] && LiveSlots(w)[|LiveSlots(w)| - 1].num <= w[|w| - 1].num
  {
    if w != [] {
      LiveRising(w[..|w| - 1]);
    }
  }

  /** Emptying slot i takes one request out of the middle. */
  lemma {:induction false} LivePunch(w: seq<Slot>, i: nat)
    requires i < |w| && w[i].req.Some?
    ensures LiveSlots(w) == LiveSlots(w[..i]) + [w[i]] + LiveSlots(w[i + 1..])
    ensures LiveSlots(w[i := w[i].(req := None)]) == LiveSlots(w[..i]) + LiveSlots(w[i + 1..])
  {
    var hole := w[i].(req := None);
    assert w == w[..i] + [w[i]] + w[i + 1..];
    assert w[i := hole] == w[..i] + [hole] + w[i + 1..];
    LiveConcat(w[..i] + [w[i]], w[i + 1..]);
    LiveConcat(w[..i] + [hole], w[i + 1..]);
    LiveAppend(w[..i], w[i]);
    LiveAppend(w[..i], hole);
  }

  // ---------------------------------------------------------------------- add

  /** The slot written and the ends moved by an addition that finds room. */
  function Push(r: Ring, num: nat, req: nat): Ring
    requires r.end < |r.slots|
  {
    r.(lastSeq := num, slots := r.slots[r.end := Slot(num, Some(req))], end := Wrap(r.end + 1, r.cap), len := r.len + 1)
  }

  /** Room for one more leaves the window as it is and appends to it. */
  lemma {:induction false} PushWindow(r: Ring, num: nat, req: nat)
    requires Shaped(r) && !Full(r)
    ensures Shaped(Push(r, num, req)) && Total(Push(r, num, req)) == Total(r) + 1
    ensures Window(Push(r, num, req)) == Window(r) + [Slot(num, Some(req))]
    ensures forall i | Total(r) < i < r.cap :: At(Push(r, num, req), i) == At(r, i)
  {
    var r' := Push(r, num, req);
    assert Wrap(r.start + Total(r), r.cap) == r.end;
    forall i | 0 <= i < r.cap
      ensures At(r', i) == if i == Total(r) then Slot(num, Some(req)) else At(r, i)
    {
    }
  }

  /** A new slot at the end keeps the order exactly when its number is the highest. */
  lemma {:induction false} OrderAppend(w: seq<Slot>, len: nat, s: Slot)
    requires InOrder(w, len) && s.req.Some?
    ensures LiveSlots(w + [s]) == LiveSlots(w) + [s]
    ensures InOrder(w + [s], len + 1) <==> forall x | x in w :: x.num < s.num
  {
    LiveAppend(w, s);
    RisingAppend(w, s);
  }

  lemma {:induction false} RisingAppend(w: seq<Slot>, s: Slot)
    requires Rising(w)
    ensures Rising(w + [s]) <==> forall x | x in w :: x.num < s.num
  {
    var v, n := w + [s], |w| - 1;
    if w != [] {
      assert v[n] == w[n] && v[n + 1] == s && w[n] in w;
      forall x | x in w
        ensures x.num <= w[n].num
      {
        var i :| 0 <= i < |w| && w[i] == x;
        if i < n {
          Below(w, i, n);
        }
      }
    }
    assert forall i | 0 <= i < |w| :: v[i] == w[i];
  }

  /** The pending requests after an addition, and when the buffer stays in order:
      exactly when the new number is above all that are stored. */
  lemma {:induction false} PushKeeps(r: Ring, num: nat, req: nat)
    requires Inv(r) && !Full(r)
    ensures Shaped(Push(r, num, req))
    ensures Pending(Push(r, num, req)) == Pending(r) + [Slot(num, Some(req))]
    ensures Inv(Push(r, num, req)) <==> forall s | s in Window(r) :: s.num < num
  {
    PushWindow(r, num, req);
    OrderAppend(Window(r), r.len, Slot(num, Some(req)));
    assert OutsideEmpty(Push(r, num, req));
  }

  // ------------------------------------------------------------------- growth

  /** The larger buffer that a crowded one is compacted into. */
  function Enlarged(r: Ring, live: seq<Slot>): Ring
    requires |live| <= r.cap
  {
    var cap := r.cap * 3 / 2;
    r.(start := 0, end := r.len, cap := cap, slots := live + seq(cap - |live|, _ => EMPTY))
  }

  /** The requests alone, without the holes, are in order too. */
  lemma {:induction false} OrderLive(w: seq<Slot>, len: nat)
    requires InOrder(w, len)
    ensures var live := LiveSlots(w);
            LiveSlots(live) == live && InOrder(live, len)
  {
    LiveAreLive(w);
    var live := LiveSlots(w);
    assert forall i | 0 <= i < |live| :: live[i] in live;
    LiveAll(live);
  }

  /** Growth keeps the pending requests and drops the holes. */
  lemma {:induction false} EnlargedKeeps(r: Ring)
    requires Inv(r) && 2 <= r.cap
    ensures |Pending(r)| <= r.cap
    ensures var r' := Enlarged(r, Pending(r));
            Inv(r') && !Full(r') && Window(r') == Pending(r') == Pending(r)
  {
    LiveAreLive(Window(r));
    OrderLive(Window(r), r.len);
    EnlargedWindow(r, Pending(r));
  }

  lemma {:induction false} EnlargedWindow(r: Ring, live: seq<Slot>)
    requires |live| == r.len <= r.cap && 2 <= r.cap
    ensures var r' := Enlarged(r, live);
            Shaped(r') && !Full(r') && Window(r') == live && OutsideEmpty(r')
  {
    var r' := Enlarged(r, live);
    assert forall i | 0 <= i < r'.cap :: At(r', i) == if i < |live| then live[i] else EMPTY;
  }
}
