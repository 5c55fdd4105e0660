/** pending-reqs.c: the requests of one client that the server has not answered yet,
    in a circular buffer that is updated in place. */
module PendingRequests {
  import opened Wrappers
  import Protocol = SequenceProtocol
  import opened PendingRing
  import opened PendingComplete
  import opened PendingSearch
  import opened CircularSearch
  import opened PendingLookup

  const STARTING_CAP: nat := 12

  // ---------------------------------------------------------- making room

  /** Above 80% occupation a buffer without room is replaced by a larger one. */
  ghost predicate Crowded(r: Ring) {
    r.len * 100 >= 81 * r.cap
  }

  /** The occupation is the share of live requests among the slots. */
  lemma {:induction false} CrowdedExactly(r: Ring)
    requires Inv(r) && 0 < r.cap
    ensures Crowded(r) <==> 100 * |Pending(r)| / r.cap > 80
  {
    Percent(100 * |Pending(r)|, r.cap);
  }

  method Occupation(len: nat, cap: nat) returns (percent: nat)
    requires 0 < cap
    ensures percent > 80 <==> len * 100 % SIZE >= 81 * cap
  {
    percent := len * 100 % SIZE / cap;
    Percent(len * 100 % SIZE, cap);
  }

  lemma {:induction false} Percent(x: nat, cap: nat)
    requires 0 < cap
    ensures x / cap > 80 <==> x >= 81 * cap
  {
    var q := x / cap;
    assert x == q * cap + x % cap;
    assert q >= 81 ==> q * cap >= 81 * cap;
    assert q <= 80 ==> q * cap <= 80 * cap;
  }

  lemma {:induction false} LiveStep(w: seq<Slot>, k: nat)
    requires k < |w|
    ensures LiveSlots(w[..k + 1]) == LiveSlots(w[..k]) + if w[k].req.Some? then [w[k]] else []
    ensures |LiveSlots(w[..k])| <= k
  {
    assert w[..k + 1] == w[..k] + [w[k]];
    LiveAppend(w[..k], w[k]);
    LiveAreLive(w[..k]);
  }

  /** The compaction loop into a new buffer. */
  method CopyLive(r: Ring, cap: nat) returns (out: seq<Slot>)
    requires Shaped(r) && Full(r) && r.cap < cap
    ensures |out| == cap && |Pending(r)| <= cap
    ensures out == Pending(r) + seq(cap - |Pending(r)|, _ => EMPTY)
  {
    out := seq(cap, _ => EMPTY);
    var i, o, first := r.start, 0, true;
    ghost var w, k := Window(r), 0;
    while first || i != r.end
      invariant 0 <= k <= r.cap && (first <==> k == 0) && i == Wrap(r.start + k, r.cap)
      invariant o == |LiveSlots(w[..k])| <= k && |out| == cap
      invariant forall j | 0 <= j < o :: out[j] == LiveSlots(w[..k])[j]
      invariant forall j | o <= j < cap :: out[j] == EMPTY
      decreases r.cap - k
    {
      first := false;
      LiveStep(w, k);
      assert r.slots[i] == w[k];
      if r.slots[i].req.Some? {
        out := out[o := r.slots[i]];
        o := Wrap(o + 1, cap);
      }
      i := Wrap(i + 1, r.cap);
      k := k + 1;
    }
    assert w[..k] == w;
  }

  /** The slots of a buffer from `start` on, all the way round. */
  ghost function Unrolled(slots: seq<Slot>, start: nat): (w: seq<Slot>)
    requires start < |slots|
    ensures |w| == |slots| && forall j | 0 <= j < |w| :: w[j] == slots[Wrap(start + j, |slots|)]
  {
    seq(|slots|, (j: nat) requires j < |slots| => slots[Wrap(start + j, |slots|)])
  }

  lemma {:induction false} UnrolledUpdate(slots: seq<Slot>, start: nat, c: nat, s: Slot, w: seq<Slot>)
    requires start < |slots| && c < |slots| && w == Unrolled(slots, start)
    ensures Unrolled(slots[Wrap(start + c, |slots|) := s], start) == w[c := s]
  {
  }

  /** w after the requests of its first k slots moved to the front: the slots behind
      them stay as they were. */
  ghost function Moved(w: seq<Slot>, k: nat): seq<Slot>
    requires k <= |w|
  {
    LiveAreLive(w[..k]);
    var live := LiveSlots(w[..k]);
    live + w[|live|..]
  }

  lemma {:induction false} MovedStep(w: seq<Slot>, k: nat, c: nat)
    requires k < |w| && c == |LiveSlots(w[..k])|
    ensures c <= k && Moved(w, k)[k] == w[k]
    ensures Moved(w, k + 1) == if w[k].req.Some? then Moved(w, k)[c := w[k]] else Moved(w, k)
    ensures |LiveSlots(w[..k + 1])| == if w[k].req.Some? then c + 1 else c
  {
    LiveStep(w, k);
  }

  /** How far the loop has come after k slots: `o` is where the next request goes. */
  ghost predicate Compacting(w: seq<Slot>, out: seq<Slot>, start: nat, k: nat, o: nat) {
    && start < |w| == |out| && k <= |w| && Unrolled(out, start) == Moved(w, k)
    && o == Wrap(start + |LiveSlots(w[..k])|, |w|)
  }

  /** A hole is passed over. */
  lemma {:induction false} CompactHole(w: seq<Slot>, out: seq<Slot>, start: nat, k: nat, o: nat)
    requires Compacting(w, out, start, k, o) && k < |w| && w[k].req == None
    ensures Compacting(w, out, start, k + 1, o)
  {
    MovedStep(w, k, |LiveSlots(w[..k])|);
  }

  /** A request moves to where the next one goes. */
  lemma {:induction false} CompactLive(w: seq<Slot>, out: seq<Slot>, start: nat, k: nat, o: nat)
    requires Compacting(w, out, start, k, o) && k < |w| && w[k].req.Some?
    ensures o < |out| && Compacting(w, out[o := w[k]], start, k + 1, Wrap(o + 1, |w|))
  {
    MovedNext(w, k, |LiveSlots(w[..k])|, out, start);
  }

  lemma {:induction false} MovedNext(w: seq<Slot>, k: nat, c: nat, out: seq<Slot>, start: nat)
    requires k < |w| == |out| && start < |w| && c == |LiveSlots(w[..k])| && w[k].req.Some?
    requires Unrolled(out, start) == Moved(w, k)
    ensures c <= k && Unrolled(out[Wrap(start + c, |w|) := w[k]], start) == Moved(w, k + 1)
    ensures |LiveSlots(w[..k + 1])| == c + 1
  {
    MovedStep(w, k, c);
    UnrolledUpdate(out, start, c, w[k], Moved(w, k));
  }

  /** The slot under the cursor has not been written yet. */
  lemma {:induction false} CompactReads(w: seq<Slot>, out: seq<Slot>, start: nat, k: nat, o: nat)
    requires Compacting(w, out, start, k, o) && k < |w|
    ensures out[Wrap(start + k, |w|)] == w[k]
  {
    MovedStep(w, k, |LiveSlots(w[..k])|);
    assert Unrolled(out, start)[k] == w[k];
  }

  /** The body of the loop. */
  method CompactSlot(ghost w: seq<Slot>, slots: seq<Slot>, start: nat, ghost k: nat, i: nat, o: nat)
    returns (out: seq<Slot>, o': nat)
    requires Compacting(w, slots, start, k, o) && k < |w| && i == Wrap(start + k, |w|)
    ensures Compacting(w, out, start, k + 1, o')
  {
    CompactReads(w, slots, start, k, o);
    if slots[i].req.Some? {
      CompactLive(w, slots, start, k, o);
      out, o' := slots[o := slots[i]], Wrap(o + 1, |slots|);
    } else {
      CompactHole(w, slots, start, k, o);
      out, o' := slots, o;
    }
  }

  lemma {:induction false} CompactBegins(slots: seq<Slot>, start: nat)
    requires start < |slots|
    ensures Compacting(Unrolled(slots, start), slots, start, 0, start)
  {
    var w := Unrolled(slots, start);
    assert w[..0] == [] && Moved(w, 0) == w;
  }

  /** The same loop within the buffer. */
  method CompactHere(r: Ring) returns (out: seq<Slot>)
    requires Shaped(r) && Full(r)
    ensures |out| == r.cap && Unrolled(out, r.start) == Moved(Unrolled(r.slots, r.start), r.cap)
  {
    CompactBegins(r.slots, r.start);
    out := CompactLoop(Unrolled(r.slots, r.start), r.slots, r.start);
  }

  method CompactLoop(ghost w: seq<Slot>, slots: seq<Slot>, start: nat) returns (out: seq<Slot>)
    requires Compacting(w, slots, start, 0, start)
    ensures |out| == |w| && Unrolled(out, start) == Moved(w, |w|)
  {
    out := slots;
    var i, o, first := start, start, true;
    ghost var k := 0;
    while first || i != start
      invariant 0 <= k <= |w| == |slots| && (first <==> k == 0) && i == Wrap(start + k, |w|)
      invariant Compacting(w, out, start, k, o)
      decreases |w| - k
    {
      first := false;
      out, o := CompactSlot(w, out, start, k, i, o);
      i := Wrap(i + 1, |slots|);
      k := k + 1;
    }
  }

  // ------------------------------------------------------------- additions

  /** The next number comes after the newest slot. */
  ghost predicate Follows(w: seq<Slot>, num: nat) {
    w != [] ==> w[|w| - 1].num < num
  }

  lemma {:induction false} FollowsAll(w: seq<Slot>, num: nat)
    requires Rising(w)
    ensures Follows(w, num) <==> forall s | s in w :: s.num < num
  {
    if w != [] {
      var n := |w| - 1;
      assert w[n] in w;
      forall i | 0 <= i < n
        ensures w[i].num < w[n].num
      {
        Below(w, i, n);
      }
    }
  }

  /** The buffer that an addition writes to when it does not compact in place. */
  ghost function Roomy(r: Ring): Ring
    requires Shaped(r)
  {
    LiveAreLive(Window(r));
    if Full(r) then Enlarged(r, Pending(r)) else r
  }

  lemma {:induction false} RoomyKeeps(r: Ring)
    requires Inv(r) && 2 <= r.cap
    ensures var r' := Roomy(r);
            && Inv(r') && !Full(r') && Pending(r') == Pending(r)
            && Window(r') == if Full(r) then Pending(r) else Window(r)
  {
    EnlargedKeeps(r);
  }

  /** Making room does not look at the last number. */
  lemma {:induction false} RoomyAside(r: Ring, num: nat)
    requires Shaped(r)
    ensures Roomy(r.(lastSeq := num)) == Roomy(r).(lastSeq := num)
  {
    assert Window(r.(lastSeq := num)) == Window(r);
  }

  /** An addition appends to the pending requests, and keeps the buffer in order
      exactly when its number comes after the newest slot's. */
  lemma {:induction false} AddKeeps(r: Ring, num: nat, req: nat)
    requires Inv(r) && 2 <= r.cap
    ensures var r' := Roomy(r);
            r'.end < |r'.slots|
    ensures var r' := Push(Roomy(r), num, req);
            && Shaped(r') && Pending(r') == Pending(r) + [Slot(num, Some(req))]
            && Window(r') == Window(Roomy(r)) + [Slot(num, Some(req))]
            && (Inv(r') <==> Follows(Window(r), num))
  {
    RoomyKeeps(r);
    RoomyNewest(r, num);
    PushKeeps(Roomy(r), num, req);
    PushWindow(Roomy(r), num, req);
    FollowsAll(Window(Roomy(r)), num);
  }

  /** Growth keeps the newest slot, which is not a hole. */
  lemma {:induction false} RoomyNewest(r: Ring, num: nat)
    requires Inv(r) && 2 <= r.cap
    ensures Shaped(Roomy(r)) && (Follows(Window(Roomy(r)), num) <==> Follows(Window(r), num))
  {
    var w := Window(r);
    RoomyKeeps(r);
    if Full(r) {
      assert w[|w| - 1].req.Some? && Pending(r)[|Pending(r)| - 1] == w[|w| - 1];
    }
  }

  /** An addition that compacts in place writes over the oldest request, and its own
      slot is all that is left of the window. */
  lemma {:induction false} AddLoses(r: Ring, num: nat, req: nat)
    requires Shaped(r) && Full(r) && 2 <= r.cap
    ensures var r' := Push(r, num, req);
            Shaped(r') && Window(r') == [Slot(num, Some(req))] == Pending(r') && r'.len > 1 && !Inv(r')
  {
    var r' := Push(r, num, req);
    assert Window(r') == [] + [Slot(num, Some(req))];
    LiveAppend([], Slot(num, Some(req)));
  }

  // ------------------------------------------------------------ the object

  /** Nothing in slot form. */
  function Vacant(num: nat): Ring {
    Ring(num, 0, 0, 0, STARTING_CAP, seq(STARTING_CAP, _ => EMPTY))
  }

  lemma {:induction false} VacantInOrder(num: nat)
    ensures Inv(Vacant(num)) && Window(Vacant(num)) == []
  {
    assert OutsideEmpty(Vacant(num));
  }

  /** struct dicey_pending_requests. */
  class Requests {
    var lastSeq: nat
    var start: nat
    var end: nat
    var len: nat
    var cap: nat
    var reqs: seq<Slot>

    function Value(): Ring
      reads this
    {
      Ring(lastSeq, start, end, len, cap, reqs)
    }

    ghost predicate Valid()
      reads this
    {
      Inv(Value()) && Fits(Value()) && 2 <= cap
    }

    /** pending_requests_new. */
    constructor (num: nat)
      ensures Value() == Vacant(num) && Valid() && Window(Value()) == []
    {
      lastSeq, start, end, len, cap := num, 0, 0, 0, STARTING_CAP;
      reqs := seq(STARTING_CAP, _ => EMPTY);
      new;
      VacantInOrder(num);
    }

    /** The growth of pending_requests_make_room. */
    method Grow()
      requires Shaped(Value()) && Full(Value()) && Fits(Value()) && 2 <= cap
      modifies this
      ensures Value() == Roomy(old(Value()))
    {
      LiveFew(Window(Value()));
      var cap' := cap * 3 % SIZE / 2;
      assert cap' == cap * 3 / 2;
      reqs := CopyLive(Value(), cap');
      cap, start, end := cap', 0, len;
    }

    /** pending_requests_make_room, on a full buffer or an empty one. */
    method MakeRoom()
      requires Shaped(Value()) && start == end && len <= cap && Fits(Value()) && 2 <= cap
      modifies this
      ensures !Full(old(Value())) || Crowded(old(Value())) ==> Value() == Roomy(old(Value()))
      ensures Full(old(Value())) && !Crowded(old(Value())) ==>
                |reqs| == old(cap) && Value() == old(Value()).(slots := reqs) &&
                Unrolled(reqs, start) == Moved(old(Unrolled(reqs, start)), cap)
    {
      var percent := Occupation(len, cap);
      if percent > 80 {
        Grow();
      } else if len != 0 {
        reqs := CompactHere(Value());
      }
    }

    /** The slot and the end that every addition writes. */
    method Store(num: nat, req: nat)
      requires end < |reqs| && lastSeq == num
      modifies this
      ensures Value() == Push(old(Value()), num, req)
    {
      reqs := reqs[end := Slot(num, Some(req))];
      end := Wrap(end + 1, cap);
      len := len + 1;
    }

    /** The new last number is stored, and room is made for its request. */
    method Prepare(num: nat)
      requires Valid()
      modifies this
      ensures Prepared(old(Value()), num, Value())
    {
      RoomyAside(Value(), num);
      LiveAreLive(Window(Value()));
      lastSeq := num;
      if start == end {
        MakeRoom();
      }
    }

    /** dicey_pending_requests_add, on a buffer that exists. */
    method Add(num: nat, req: nat) returns (ok: bool)
      requires Valid()
      modifies this
      ensures ok <==> num == Protocol.ServerNext(old(lastSeq))
      ensures !ok ==> Value() == old(Value())
      ensures ok ==> Added(old(Value()), num, req, Value())
    {
      ghost var r := Value();
      ok := num == Protocol.ServerNext(lastSeq);
      if ok {
        Prepare(num);
        AddedIs(r, num, req, Value());
        Store(num, req);
      }
    }

    /** pending_request_invalidate, on an offset that may go round the buffer. */
    method InvalidateAt(m: nat)
      requires Shaped(Value()) && 0 < len
      modifies this
      ensures Value() == Invalidate(old(Value()), Mod(m, old(cap)))
    {
      RequestAtIs(Value(), m);
      var i := IndexOf(Value(), m);
      reqs := reqs[i := reqs[i].(req := None)];
      if i == start {
        start := Wrap(i + 1, cap);
      } else if Wrap(i + 1, cap) == end {
        end := Wrap(end + 1, cap);
      }
      len := len - 1;
    }

    /** dicey_pending_requests_complete, for the numbers whose search comes back; slot i
        is the one that was completed. */
    method Complete(num: nat) returns (done: Option<Slot>, ghost i: nat)
      requires Valid() && (len != 0 ==> Searchable(Value(), num))
      modifies this
      ensures done == None ==> Value() == old(Value()) && Unanswered(Value(), num)
      ensures done.Some? ==> IsLive(Window(old(Value())), num, i) && done.value == At(old(Value()), i)
      ensures done.Some? ==> Completes(old(Value()), i, Value())
      ensures done.Some? && Full(old(Value())) ==> SlotFate(old(cap), i) == Finds
    {
      i := 0;
      ghost var r := Value();
      if len == 0 {
        NoneLive(r, num);
        return None, 0;
      }
      var res;
      ghost var j, hit;
      res, j, hit := SearchSeq(Value(), num);
      if res == Absent {
        AbsentIs(r, num, j, hit);
        return None, 0;
      }
      LocatedAt(r, num, j, hit, res.i);
      i := Mod(res.i, cap);
      done := Some(RequestAt(Value())(res.i));
      InvalidateAt(res.i);
    }

    /** dicey_pending_request_skip, on a buffer that exists. */
    method Skip(num: nat) returns (ok: bool)
      modifies this
      ensures ok <==> num == Protocol.ServerNext(old(lastSeq))
      ensures Value() == if ok then old(Value()).(lastSeq := num) else old(Value())
    {
      ok := num == Protocol.ServerNext(lastSeq);
      if ok {
        lastSeq := num;
      }
    }
  }

  /** Buffer r with the last number replaced and room made. */
  ghost predicate Prepared(r: Ring, num: nat, r': Ring)
    requires Inv(r)
  {
    if Full(r) && !Crowded(r) then |r'.slots| == r.cap && r' == r.(lastSeq := num, slots := r'.slots)
    else r' == Roomy(r).(lastSeq := num)
  }

  /** No request has the number, or the buffer is full and its search misses it. */
  ghost predicate Unanswered(r: Ring, num: nat)
    requires Shaped(r)
  {
    forall i | IsLive(Window(r), num, i) :: Full(r) && SlotFate(r.cap, i) == Misses
  }

  lemma {:induction false} NoneLive(r: Ring, num: nat)
    requires Inv(r) && r.len == 0
    ensures Unanswered(r, num)
  {
    var w := Window(r);
    if w != [] {
      NewestCounts(w);
    }
  }

  lemma {:induction false} LocatedAt(r: Ring, num: nat, j: nat, hit: bool, m: nat)
    requires Inv(r) && r.len > 0 && Locates(r, num, j, hit, Found(m))
    ensures var i := Mod(m, r.cap);
            && i < Total(r) && IsLive(Window(r), num, i) && RequestAt(r)(m) == At(r, i)
            && Completes(r, i, Invalidate(r, i)) && (Full(r) ==> SlotFate(r.cap, i) == Finds)
  {
    RequestAtIs(r, m);
    Completed(r, Mod(m, r.cap));
  }

  /** A search that ends without a slot has seen no request with its number, or has
      missed it. */
  lemma {:induction false} AbsentIs(r: Ring, num: nat, j: nat, hit: bool)
    requires Inv(r) && Locates(r, num, j, hit, Absent)
    ensures Unanswered(r, num)
  {
    if Full(r) {
      forall i | IsLive(Window(r), num, i)
        ensures SlotFate(r.cap, i) == Misses
      {
        OneTarget(Window(r), num, j, hit, i);
      }
    }
  }

  /** What an accepted addition makes of buffer r. */
  ghost predicate Added(r: Ring, num: nat, req: nat, r': Ring)
    requires Inv(r) && 2 <= r.cap
  {
    && Shaped(r') && r'.lastSeq == num && r'.len == r.len + 1
    && r'.cap == (if Full(r) && Crowded(r) then r.cap * 3 / 2 else r.cap)
    && if Full(r) && !Crowded(r) then
         Window(r') == Pending(r') == [Slot(num, Some(req))] && !Inv(r')
       else
         && Pending(r') == Pending(r) + [Slot(num, Some(req))]
         && Window(r') == (if Full(r) then Pending(r) else Window(r)) + [Slot(num, Some(req))]
         && (Inv(r') <==> Follows(Window(r), num))
  }

  lemma {:induction false} AddedIs(r: Ring, num: nat, req: nat, r': Ring)
    requires Inv(r) && 2 <= r.cap && Prepared(r, num, r')
    ensures r'.end < |r'.slots| && r'.lastSeq == num && Added(r, num, req, Push(r', num, req))
  {
    if Full(r) && !Crowded(r) {
      AddLoses(r', num, req);
    } else {
      AddedRoomy(r, num, req);
      assert Push(r', num, req) == Push(Roomy(r), num, req);
    }
  }

  lemma {:induction false} AddedRoomy(r: Ring, num: nat, req: nat)
    requires Inv(r) && 2 <= r.cap && (Full(r) ==> Crowded(r))
    ensures Roomy(r).end < |Roomy(r).slots| && Added(r, num, req, Push(Roomy(r), num, req))
  {
    RoomyKeeps(r);
    AddKeeps(r, num, req);
  }
}
