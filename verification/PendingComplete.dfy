/** Completing a request: its slot becomes a hole, and one end of the buffer may move. */
module PendingComplete {
  import opened Wrappers
  import opened PendingRing
  import Protocol = SequenceProtocol

  /** pending_request_invalidate on the slot i places after the oldest one. */
  function Invalidate(r: Ring, i: nat): Ring
    requires r.start < r.cap <= |r.slots| && i < r.cap
  {
    var m := Wrap(r.start + i, r.cap);
    var r' := r.(slots := r.slots[m := r.slots[m].(req := None)], len := if r.len == 0 then 0 else r.len - 1);
    if m == r.start then r'.(start := Wrap(m + 1, r.cap))
    else if Wrap(m + 1, r.cap) == r.end then r'.(end := Wrap(r.end + 1, r.cap))
    else r'
  }

  /** The window without its oldest slot, whose request is done. */
  lemma {:induction false} OrderDrop(w: seq<Slot>, len: nat)
    requires InOrder(w, len) && w != [] && w[0].req.Some?
    ensures len > 0 && InOrder(w[1..], len - 1) && LiveSlots(w) == [w[0]] + LiveSlots(w[1..])
    ensures len == 1 <==> |w| == 1
  {
    LiveTail(w);
    if |w| > 1 {
      NewestCounts(w[1..]);
    } else {
      assert w[1..] == [];
    }
  }

  lemma {:induction false} LiveTail(w: seq<Slot>)
    requires w != [] && w[0].req.Some?
    ensures LiveSlots(w) == [w[0]] + LiveSlots(w[1..])
  {
    LiveConcat([w[0]], w[1..]);
    assert w == [w[0]] + w[1..];
    LiveAppend([], w[0]);
    assert [] + [w[0]] == [w[0]];
  }

  /** A window whose newest slot is not a hole holds a request. */
  lemma {:induction false} NewestCounts(w: seq<Slot>)
    requires w != [] && w[|w| - 1].req.Some?
    ensures LiveSlots(w) != []
  {
  }

  /** Completing the oldest slot's request shortens the window by that slot. */
  lemma {:induction false} CompleteOldest(r: Ring)
    requires Inv(r) && Total(r) > 0 && At(r, 0).req.Some?
    ensures Inv(Invalidate(r, 0)) && Pending(r) == [At(r, 0)] + Pending(Invalidate(r, 0))
  {
    OrderDrop(Window(r), r.len);
    ShiftedWindow(r);
  }

  lemma {:induction false} ShiftedWindow(r: Ring)
    requires Shaped(r) && OutsideEmpty(r) && Total(r) > 0 && r.len > 0 && (r.len == 1 <==> Total(r) == 1)
    ensures var r' := Invalidate(r, 0);
            Shaped(r') && Window(r') == Window(r)[1..] && OutsideEmpty(r')
  {
    var r' := Invalidate(r, 0);
    assert Total(r') == Total(r) - 1;
    forall i | 0 <= i < r.cap
      ensures At(r', i) == if i == r.cap - 1 then At(r, 0).(req := None) else At(r, i + 1)
    {
    }
  }

  /** Completing a request between the oldest and the newest slot leaves a hole. */
  lemma {:induction false} CompleteMiddle(r: Ring, i: nat)
    requires Inv(r) && 0 < i < Total(r) - 1 && At(r, i).req.Some?
    ensures var r' := Invalidate(r, i);
            && Inv(r') && Window(r') == Window(r)[i := At(r, i).(req := None)]
            && Pending(r) == LiveSlots(Window(r)[..i]) + [At(r, i)] + LiveSlots(Window(r)[i + 1..])
            && Pending(r') == LiveSlots(Window(r)[..i]) + LiveSlots(Window(r)[i + 1..])
  {
    var w := Window(r);
    LivePunch(w, i);
    OrderPunch(w, r.len, i);
    PunchedWindow(r, i);
  }

  lemma {:induction false} OrderPunch(w: seq<Slot>, len: nat, i: nat)
    requires InOrder(w, len) && i < |w| - 1 && w[i].req.Some?
    ensures len > 1 && InOrder(w[i := w[i].(req := None)], len - 1)
  {
    LivePunch(w, i);
    NewestCounts(w[i + 1..]);
  }

  lemma {:induction false} PunchedWindow(r: Ring, i: nat)
    requires Shaped(r) && OutsideEmpty(r) && 0 < i < Total(r) - 1 && r.len > 1
    ensures var r' := Invalidate(r, i);
            Shaped(r') && Window(r') == Window(r)[i := At(r, i).(req := None)] && OutsideEmpty(r')
  {
    var r' := Invalidate(r, i);
    var m := Wrap(r.start + i, r.cap);
    assert m != r.start && Wrap(m + 1, r.cap) != r.end;
    forall j | 0 <= j < r.cap
      ensures At(r', j) == if j == i then At(r, i).(req := None) else At(r, j)
    {
    }
  }

  // ---------------------------------------------------------------- the newest

  /** With one request left, all slots but the newest are holes. */
  lemma {:induction false} OneLive(w: seq<Slot>, i: nat)
    requires |LiveSlots(w)| == 1 && i < |w| - 1 && w[|w| - 1].req.Some?
    ensures w[i].req == None
  {
    var v := w[..|w| - 1];
    LiveAreLive(v);
    assert v[i] in v;
  }

  /** Invalidating the newest of several slots moves the end one slot on. */
  lemma {:induction false} NewestEnd(r: Ring)
    requires Shaped(r) && 1 < Total(r)
    ensures var n, r' := Total(r) - 1, Invalidate(r, Total(r) - 1);
            && Shaped(r') && r'.start == r.start && r'.end == Wrap(r.end + 1, r.cap) && r'.cap == r.cap
            && forall i | 0 <= i < r.cap :: At(r', i) == if i == n then At(r, n).(req := None) else At(r, i)
  {
    var n := Total(r) - 1;
    var m := Wrap(r.start + n, r.cap);
    assert m != r.start && Wrap(m + 1, r.cap) == r.end;
  }

  lemma {:induction false} NewestTotal(r: Ring)
    requires Shaped(r) && 1 < Total(r) && 0 < r.len
    ensures var r' := Invalidate(r, Total(r) - 1);
            Total(r') == if Full(r) then 1 else if r.len == 1 && Total(r) == r.cap - 1 then 0 else Total(r) + 1
  {
    NewestEnd(r);
  }

  /** The window after completing the newest of several requests: of a full buffer only
      the oldest slot is left, another one comes out a slot longer, or empty. */
  lemma {:induction false} NewestWindow(r: Ring)
    requires Shaped(r) && 1 < Total(r) && 0 < r.len
    ensures var n, r' := Total(r) - 1, Invalidate(r, Total(r) - 1);
            && Shaped(r')
            && if Full(r) then Window(r') == [At(r, 0)]
               else if r.len == 1 && Total(r) == r.cap - 1 then Window(r') == []
               else Window(r') == Window(r)[..n] + [At(r, n).(req := None), At(r, n + 1)]
  {
    NewestEnd(r);
    NewestTotal(r);
  }

  /** Completing the newest of several requests leaves the buffer in order only when
      nothing else is in it, or nothing but the oldest request of a full one. */
  lemma {:induction false} CompleteNewest(r: Ring)
    requires Inv(r) && 1 < Total(r)
    ensures Inv(Invalidate(r, Total(r) - 1)) <==>
            if Full(r) then r.len == 2 && At(r, 0).req.Some? else Total(r) == r.cap - 1 && r.len == 1
  {
    NewestCounts(Window(r));
    NewestWindow(r);
    if Full(r) {
      NewestOfFull(r);
    } else if r.len == 1 && Total(r) == r.cap - 1 {
      NewestOfOne(r);
    } else {
      assert At(r, Total(r)).req == None;
    }
  }

  lemma {:induction false} NewestOfOne(r: Ring)
    requires Inv(r) && !Full(r) && 1 < Total(r) == r.cap - 1 && r.len == 1
    ensures Inv(Invalidate(r, Total(r) - 1))
  {
    var r' := Invalidate(r, Total(r) - 1);
    NewestEnd(r);
    NewestWindow(r);
    forall i | 0 <= i < r.cap
      ensures At(r', i).req == None
    {
      if i < Total(r) - 1 {
        OneLive(Window(r), i);
      }
    }
  }

  lemma {:induction false} NewestOfFull(r: Ring)
    requires Inv(r) && Full(r) && 1 < r.cap
    ensures Inv(Invalidate(r, r.cap - 1)) <==> r.len == 2 && At(r, 0).req.Some?
  {
    var r' := Invalidate(r, r.cap - 1);
    NewestWindow(r);
    NewestEnd(r);
    OneSlot(At(r, 0), r'.len);
    assert InOrder(Window(r'), r'.len) <==> r.len == 2 && At(r, 0).req.Some?;
    if r.len == 2 && At(r, 0).req.Some? {
      OutsideOldest(r);
    }
  }

  lemma {:induction false} OneSlot(s: Slot, len: nat)
    ensures InOrder([s], len) <==> s.req.Some? && len == 1
  {
    LiveAppend([], s);
    assert [] + [s] == [s];
  }

  lemma {:induction false} OutsideOldest(r: Ring)
    requires Inv(r) && Full(r) && 1 < r.cap && r.len == 2 && At(r, 0).req.Some?
    ensures var r' := Invalidate(r, r.cap - 1);
            Shaped(r') && OutsideEmpty(r')
  {
    var w, r' := Window(r), Invalidate(r, r.cap - 1);
    NewestWindow(r);
    NewestEnd(r);
    forall i | 1 <= i < r.cap
      ensures At(r', i).req == None
    {
      if i < r.cap - 1 {
        TwoLive(w, i);
      }
    }
  }

  /** With the oldest and the newest request left, all slots between are holes. */
  lemma {:induction false} TwoLive(w: seq<Slot>, i: nat)
    requires |LiveSlots(w)| == 2 && 0 < i < |w| - 1 && w[0].req.Some? && w[|w| - 1].req.Some?
    ensures w[i].req == None
  {
    LiveTail(w);
    OneLive(w[1..], i - 1);
  }

  /** The requests without the one in slot i. */
  ghost function Others(w: seq<Slot>, i: nat): seq<Slot>
    requires i < |w|
  {
    LiveSlots(w[..i]) + LiveSlots(w[i + 1..])
  }

  /** Taking s out of list p gives list q. */
  ghost predicate Takes(p: seq<Slot>, s: Slot, q: seq<Slot>) {
    exists at: nat :: at < |p| && p[at] == s && q == Protocol.Erase(p, at)
  }

  lemma {:induction false} OthersIsErase(w: seq<Slot>, i: nat)
    requires i < |w| && w[i].req.Some?
    ensures Takes(LiveSlots(w), w[i], Others(w, i))
  {
    LivePunch(w, i);
    TakesMiddle(LiveSlots(w[..i]), w[i], LiveSlots(w[i + 1..]));
  }

  lemma {:induction false} TakesMiddle(p: seq<Slot>, s: Slot, q: seq<Slot>)
    ensures Takes(p + [s] + q, s, p + q)
  {
    var all := p + [s] + q;
    assert all[|p|] == s && p + q == Protocol.Erase(all, |p|);
  }

  /** Completing the newest of several requests still takes just that one away. */
  lemma {:induction false} NewestPending(r: Ring)
    requires Inv(r) && !Full(r) && 1 < Total(r)
    ensures var r' := Invalidate(r, Total(r) - 1);
            Shaped(r') && Pending(r') == Others(Window(r), Total(r) - 1)
  {
    var n, w := Total(r) - 1, Window(r);
    NewestCounts(w);
    NewestWindow(r);
    assert At(r, n + 1).req == None;
    TwoHoles(w[..n], At(r, n).(req := None), At(r, n + 1));
    assert w[n + 1..] == [];
    if r.len == 1 {
      LiveAppend(w[..n], w[n]);
      assert w == w[..n] + [w[n]];
    }
  }

  lemma {:induction false} TwoHoles(w: seq<Slot>, s: Slot, t: Slot)
    requires s.req == t.req == None
    ensures LiveSlots(w + [s, t]) == LiveSlots(w)
  {
    assert w + [s, t] == (w + [s]) + [t];
    LiveAppend(w + [s], t);
    LiveAppend(w, s);
  }

  lemma {:induction false} OldestPending(r: Ring)
    requires Inv(r) && 0 < Total(r) && At(r, 0).req.Some?
    ensures Inv(Invalidate(r, 0)) && Pending(Invalidate(r, 0)) == Others(Window(r), 0)
  {
    CompleteOldest(r);
    LiveTail(Window(r));
    assert Window(r)[..0] == [];
    assert Pending(r)[1..] == Pending(Invalidate(r, 0)) == LiveSlots(Window(r)[1..]);
  }

  // ------------------------------------------------------------------- any slot

  /** Slot i is the newest of several. */
  ghost predicate Newest(r: Ring, i: nat) {
    0 < i == Total(r) - 1
  }

  /** Completing slot i keeps the buffer in order. */
  ghost predicate KeepsOrder(r: Ring, i: nat)
    requires Shaped(r)
  {
    Newest(r, i) ==>
      if Full(r) then r.len == 2 && At(r, 0).req.Some? else Total(r) == r.cap - 1 && r.len == 1
  }

  /** The window after completing slot i. */
  ghost function WindowAfter(r: Ring, i: nat): seq<Slot>
    requires Shaped(r) && i < Total(r)
  {
    var w, hole := Window(r), At(r, i).(req := None);
    if i == 0 then w[1..]
    else if !Newest(r, i) then w[i := hole]
    else if Full(r) then [w[0]]
    else if r.len == 1 && Total(r) == r.cap - 1 then []
    else w[..i] + [hole, At(r, i + 1)]
  }

  /** What completing slot i makes of buffer r: the request there is taken out, except
      that completing the newest request of a full buffer leaves only the oldest slot;
      and the exact condition under which the buffer stays in order. */
  ghost predicate Completes(r: Ring, i: nat, r': Ring)
    requires Shaped(r) && i < Total(r)
  {
    && Shaped(r') && r'.lastSeq == r.lastSeq && r'.cap == r.cap
    && Window(r') == WindowAfter(r, i)
    && (!(Full(r) && Newest(r, i)) ==> Takes(Pending(r), At(r, i), Pending(r')))
    && (Inv(r') <==> KeepsOrder(r, i))
  }

  /** Invalidating any request of any buffer in order. */
  lemma {:induction false} Completed(r: Ring, i: nat)
    requires Inv(r) && i < Total(r) && At(r, i).req.Some?
    ensures Completes(r, i, Invalidate(r, i))
  {
    if i == 0 {
      OldestCompleted(r);
    } else if i < Total(r) - 1 {
      MiddleCompleted(r, i);
    } else {
      NewestCompleted(r);
    }
  }

  lemma {:induction false} OldestCompleted(r: Ring)
    requires Inv(r) && 0 < Total(r) && At(r, 0).req.Some?
    ensures Completes(r, 0, Invalidate(r, 0))
  {
    OthersIsErase(Window(r), 0);
    OldestPending(r);
    OrderDrop(Window(r), r.len);
    ShiftedWindow(r);
  }

  lemma {:induction false} MiddleCompleted(r: Ring, i: nat)
    requires Inv(r) && 0 < i < Total(r) - 1 && At(r, i).req.Some?
    ensures Completes(r, i, Invalidate(r, i))
  {
    OthersIsErase(Window(r), i);
    CompleteMiddle(r, i);
  }

  lemma {:induction false} NewestCompleted(r: Ring)
    requires Inv(r) && 1 < Total(r)
    ensures Completes(r, Total(r) - 1, Invalidate(r, Total(r) - 1))
  {
    NewestCounts(Window(r));
    NewestWindow(r);
    CompleteNewest(r);
    if !Full(r) {
      NewestPending(r);
      OthersIsErase(Window(r), Total(r) - 1);
    }
  }
}
