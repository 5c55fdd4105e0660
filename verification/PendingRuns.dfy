/** Runs of calls on a client's pending requests, completed in any order, against a
    plain list from which requests are taken by number. */
module PendingRuns {
  import opened Wrappers
  import Protocol = SequenceProtocol
  import opened PendingRing
  import opened PendingComplete
  import opened PendingSearch
  import opened CircularSearch
  import opened PendingLookup
  import opened PendingRequests

  datatype Op = Add(num: nat, req: nat) | Skip(num: nat) | Complete(num: nat)

  datatype Out = Accepted | Mismatch | Done(req: Slot) | NoEntry

  // ------------------------------------------------------------------- the list

  /** What the buffer stands for: the last number seen, and the requests in order. */
  datatype Book = Book(last: Option<nat>, list: seq<Slot>)

  const NOTHING: Book := Book(None, [])

  /** The position of the first request with the number, or the length. */
  function Place(list: seq<Slot>, num: nat): (i: nat)
    ensures i <= |list| && (i < |list| ==> list[i].num == num)
    ensures forall j | 0 <= j < i :: list[j].num != num
  {
    if list == [] then 0 else if list[0].num == num then 0 else 1 + Place(list[1..], num)
  }

  function BookOut(b: Book, op: Op): Out {
    match op
    case Complete(num) => var i := Place(b.list, num); if i < |b.list| then Done(b.list[i]) else NoEntry
    case _ => if Protocol.ValidateSeqnum(b.last, op.num) then Accepted else Mismatch
  }

  function BookNext(b: Book, op: Op): Book {
    match op
    case Add(num, req) =>
      if !Protocol.ValidateSeqnum(b.last, num) then b else Book(Some(num), b.list + [Slot(num, Some(req))])
    case Skip(num) =>
      if !Protocol.ValidateSeqnum(b.last, num) then b else b.(last := Some(num))
    case Complete(num) =>
      b.(list := Protocol.Erase(b.list, Place(b.list, num)))
  }

  function BookRun(b: Book, ops: seq<Op>): seq<Out>
    decreases |ops|
  {
    if ops == [] then [] else [BookOut(b, ops[0])] + BookRun(BookNext(b, ops[0]), ops[1..])
  }

  // ----------------------------------------------------------------- the window

  /** The buffer without its place in memory: its slots in use, holes included. */
  datatype View = View(last: Option<nat>, w: seq<Slot>, cap: nat)

  ghost function BookOf(v: View): Book {
    Book(v.last, LiveSlots(v.w))
  }

  /** Completing slot i of a window keeps it in order: the newest of several may go only
      when it is the last request and the end meets the start. */
  ghost predicate SafeSlot(v: View, i: nat) {
    0 < i == |v.w| - 1 ==> |v.w| == v.cap - 1 && |LiveSlots(v.w)| == 1
  }

  /** The search of a full window for the number with this place is answered rightly: a
      request is found, and a hole or a gap missed. */
  ghost predicate SafePlace(v: View, j: nat, hit: bool) {
    0 < v.cap && FateOf(v.cap, j, hit) == if hit && j < |v.w| && v.w[j].req.Some? then Finds else Misses
  }

  /** What a caller who knows the window can check before a call: an accepted number
      comes after the newest slot's, and finds room or a buffer above 80% occupation;
      a completed one is not below the window, not in a hole, not the newest of
      several, and in a full buffer one that the search answers rightly. */
  ghost predicate Safe(v: View, op: Op) {
    match op
    case Add(num, _) =>
      Protocol.ValidateSeqnum(v.last, num) ==>
        Follows(v.w, num) && (|v.w| == v.cap ==> |LiveSlots(v.w)| * 100 >= 81 * v.cap)
    case Skip(_) => true
    case Complete(num) =>
      v.w != [] ==>
        && (forall i | IsLive(v.w, num, i) :: SafeSlot(v, i))
        && if |v.w| == v.cap then exists j, hit :: Target(v.w, num, j, hit) && SafePlace(v, j, hit)
           else v.w[0].num <= num && NoHole(v.w, num)
  }

  ghost function ViewNext(v: View, op: Op): View {
    match op
    case Add(num, req) =>
      if !Protocol.ValidateSeqnum(v.last, num) then v
      else if |v.w| == v.cap then View(Some(num), LiveSlots(v.w) + [Slot(num, Some(req))], v.cap * 3 / 2)
      else View(Some(num), v.w + [Slot(num, Some(req))], v.cap)
    case Skip(num) =>
      if !Protocol.ValidateSeqnum(v.last, num) then v else v.(last := Some(num))
    case Complete(num) =>
      var i := Place(v.w, num);
      if IsLive(v.w, num, i) then v.(w := Without(v.w, i)) else v
  }

  /** A window after completing its slot i. */
  ghost function Without(w: seq<Slot>, i: nat): seq<Slot>
    requires i < |w|
  {
    if i == 0 then w[1..] else if i < |w| - 1 then w[i := w[i].(req := None)] else []
  }

  ghost predicate SafeRun(v: View, ops: seq<Op>)
    decreases |ops|
  {
    ops != [] ==> Safe(v, ops[0]) && SafeRun(ViewNext(v, ops[0]), ops[1..])
  }

  // ------------------------------------------------------- window and list agree

  lemma {:induction false} PlaceIs(w: seq<Slot>, num: nat, i: nat)
    requires Rising(w) && i < |w| && w[i].num == num
    ensures Place(w, num) == i
  {
    if Place(w, num) < i {
      Below(w, Place(w, num), i);
    }
  }

  /** Under a safe call the window answers and changes as its list does. */
  lemma {:induction false} ViewIsBook(v: View, op: Op)
    requires InOrder(v.w, |LiveSlots(v.w)|) && Safe(v, op)
    ensures BookNext(BookOf(v), op) == BookOf(ViewNext(v, op))
  {
    match op
    case Add(num, req) =>
      LiveAppend(v.w, Slot(num, Some(req)));
      LiveAppend(LiveSlots(v.w), Slot(num, Some(req)));
      OrderLive(v.w, |LiveSlots(v.w)|);
    case Skip(_) =>
    case Complete(num) =>
      var i := Place(v.w, num);
      if IsLive(v.w, num, i) {
        TakenOut(v, num, i);
      } else {
        NotListed(v.w, num);
      }
  }

  /** A number without a live slot is not in the list. */
  lemma {:induction false} NotListed(w: seq<Slot>, num: nat)
    requires Rising(w) && !IsLive(w, num, Place(w, num))
    ensures Place(LiveSlots(w), num) == |LiveSlots(w)|
  {
    var live := LiveSlots(w);
    var k := Place(live, num);
    LiveIn(w);
    if k < |live| {
      assert live[k] in live;
      var i :| 0 <= i < |w| && w[i] == live[k];
      PlaceIs(w, num, i);
    }
  }

  lemma {:induction false} TakenOut(v: View, num: nat, i: nat)
    requires InOrder(v.w, |LiveSlots(v.w)|) && IsLive(v.w, num, i) && SafeSlot(v, i)
    ensures var live := LiveSlots(v.w);
            var k := Place(live, num);
            k < |live| && live[k] == v.w[i] && LiveSlots(Without(v.w, i)) == Protocol.Erase(live, k)
  {
    var live := LiveSlots(v.w);
    LivePunch(v.w, i);
    var at := |LiveSlots(v.w[..i])|;
    assert live[at] == v.w[i] && Protocol.Erase(live, at) == Others(v.w, i);
    LiveRising(v.w);
    PlaceIs(live, num, at);
    WithoutLive(v, i);
  }

  lemma {:induction false} WithoutLive(v: View, i: nat)
    requires InOrder(v.w, |LiveSlots(v.w)|) && i < |v.w| && v.w[i].req.Some? && SafeSlot(v, i)
    ensures LiveSlots(Without(v.w, i)) == Others(v.w, i)
  {
    LivePunch(v.w, i);
    if i == 0 {
      assert v.w[..0] == [];
    } else if i == |v.w| - 1 {
      assert v.w[i + 1..] == [];
    }
  }

  // ----------------------------------------------------------------- refinement

  /** The most calls of one run, so that the buffer fits into memory. */
  const CALLS: nat := 0x20_0000_0000_0000

  /** What holds after n calls between the buffer, which may not exist yet, and its
      window. */
  ghost predicate Represents(p: Requests?, v: View, n: nat)
    reads p
  {
    if p == null then v == View(None, [], STARTING_CAP)
    else p.Valid() && v == ViewOf(p.Value()) && Accounted(p.Value(), n)
  }

  ghost function ViewOf(r: Ring): View
    requires Shaped(r)
  {
    View(Some(r.lastSeq), Window(r), r.cap)
  }

  /** Requests and capacity that n calls can account for. */
  ghost predicate Accounted(r: Ring, n: nat) {
    r.len <= n && r.cap <= STARTING_CAP + 2 * n
  }

  lemma {:induction false} FullIs(r: Ring)
    requires Inv(r)
    ensures Full(r) <==> |Window(r)| == r.cap
    ensures Window(r) == [] <==> r.len == 0
  {
    if Window(r) != [] {
      NewestCounts(Window(r));
    }
  }

  method AddTo(p: Requests?, num: nat, req: nat, ghost v: View, ghost n: nat) returns (p': Requests?, ok: bool)
    requires Represents(p, v, n) && n < CALLS && Safe(v, Add(num, req))
    modifies p
    ensures p' == p || fresh(p')
    ensures ok <==> Protocol.ValidateSeqnum(v.last, num)
    ensures Represents(p', ViewNext(v, Add(num, req)), n + 1)
  {
    if p == null {
      p', ok := AddFirst(num, req, n + 1);
    } else {
      p' := p;
      ok := AddMore(p, num, req, v, n);
    }
  }

  method AddFirst(num: nat, req: nat, ghost n: nat) returns (p: Requests?, ok: bool)
    requires 1 <= n
    ensures p == null || fresh(p)
    ensures ok <==> Protocol.ValidateSeqnum(None, num)
    ensures Represents(p, ViewNext(View(None, [], STARTING_CAP), Add(num, req)), n)
  {
    ok := num == Protocol.FIRST;
    p := null;
    if ok {
      p := new Requests(num);
      PushFresh(num, req);
      p.Store(num, req);
    }
  }

  lemma {:induction false} PushFresh(num: nat, req: nat)
    ensures var r := Push(Vacant(num), num, req);
            Inv(r) && Window(r) == [] + [Slot(num, Some(req))] && Pending(r) == [Slot(num, Some(req))]
  {
    VacantInOrder(num);
    PushKeeps(Vacant(num), num, req);
    PushWindow(Vacant(num), num, req);
  }

  method AddMore(p: Requests, num: nat, req: nat, ghost v: View, ghost n: nat) returns (ok: bool)
    requires Represents(p, v, n) && n < CALLS && Safe(v, Add(num, req))
    modifies p
    ensures ok <==> Protocol.ValidateSeqnum(v.last, num)
    ensures Represents(p, ViewNext(v, Add(num, req)), n + 1)
  {
    ghost var r := p.Value();
    ok := p.Add(num, req);
    if ok {
      AddedView(r, num, req, p.Value(), n);
    }
  }

  lemma {:induction false} AddedView(r: Ring, num: nat, req: nat, r': Ring, n: nat)
    requires Inv(r) && Fits(r) && 2 <= r.cap && Accounted(r, n) && n < CALLS
    requires Safe(ViewOf(r), Add(num, req)) && num == Protocol.ServerNext(r.lastSeq) && Added(r, num, req, r')
    ensures Inv(r') && Fits(r') && 2 <= r'.cap && Accounted(r', n + 1)
    ensures ViewOf(r') == ViewNext(ViewOf(r), Add(num, req))
  {
    FullIs(r);
  }

  method SkipOn(p: Requests?, num: nat, ghost v: View, ghost n: nat) returns (p': Requests?, ok: bool)
    requires Represents(p, v, n)
    modifies p
    ensures p' == p || fresh(p')
    ensures ok <==> Protocol.ValidateSeqnum(v.last, num)
    ensures Represents(p', ViewNext(v, Skip(num)), n + 1)
  {
    if p == null {
      p', ok := SkipFirst(num, n + 1);
    } else {
      p' := p;
      ok := SkipMore(p, num, v, n);
    }
  }

  method SkipFirst(num: nat, ghost n: nat) returns (p: Requests?, ok: bool)
    ensures p == null || fresh(p)
    ensures ok <==> Protocol.ValidateSeqnum(None, num)
    ensures Represents(p, ViewNext(View(None, [], STARTING_CAP), Skip(num)), n)
  {
    ok := num == Protocol.FIRST;
    p := null;
    if ok {
      p := new Requests(num);
    }
  }

  method SkipMore(p: Requests, num: nat, ghost v: View, ghost n: nat) returns (ok: bool)
    requires Represents(p, v, n)
    modifies p
    ensures ok <==> Protocol.ValidateSeqnum(v.last, num)
    ensures Represents(p, ViewNext(v, Skip(num)), n + 1)
  {
    SkipAside(p.Value(), num);
    ok := p.Skip(num);
  }

  lemma {:induction false} SkipAside(r: Ring, num: nat)
    requires Inv(r)
    ensures Inv(r.(lastSeq := num)) && Window(r.(lastSeq := num)) == Window(r)
  {
    var r' := r.(lastSeq := num);
    assert Window(r') == Window(r);
    assert forall i | 0 <= i < r.cap :: PendingRing.At(r', i) == PendingRing.At(r, i);
  }

  method CompleteOn(p: Requests?, num: nat, ghost v: View, ghost n: nat) returns (done: Option<Slot>)
    requires Represents(p, v, n) && Safe(v, Complete(num))
    modifies p
    ensures BookOut(BookOf(v), Complete(num)) == if done.Some? then Done(done.value) else NoEntry
    ensures Represents(p, ViewNext(v, Complete(num)), n + 1)
  {
    if p == null {
      return None;
    }
    ghost var r := p.Value();
    FullIs(r);
    ghost var i;
    done, i := p.Complete(num);
    if done.Some? {
      CompletedView(r, num, i, p.Value());
    } else {
      NoneView(r, num);
    }
  }

  lemma {:induction false} CompletedView(r: Ring, num: nat, i: nat, r': Ring)
    requires Inv(r) && Safe(ViewOf(r), Complete(num)) && IsLive(Window(r), num, i) && Completes(r, i, r')
    ensures Inv(r') && ViewOf(r') == ViewNext(ViewOf(r), Complete(num)) && r'.len <= r.len
    ensures BookOut(BookOf(ViewOf(r)), Complete(num)) == Done(PendingRing.At(r, i))
  {
    PlaceIs(Window(r), num, i);
    SafeWindow(r, i);
    FewerLive(ViewOf(r), num, i);
  }

  /** A safe completion keeps the order, and the window is what it should be. */
  lemma {:induction false} SafeWindow(r: Ring, i: nat)
    requires Inv(r) && i < Total(r) && SafeSlot(ViewOf(r), i)
    ensures KeepsOrder(r, i) && WindowAfter(r, i) == Without(Window(r), i)
  {
    FullIs(r);
  }

  lemma {:induction false} FewerLive(v: View, num: nat, i: nat)
    requires InOrder(v.w, |LiveSlots(v.w)|) && IsLive(v.w, num, i) && SafeSlot(v, i)
    ensures |LiveSlots(Without(v.w, i))| <= |LiveSlots(v.w)|
    ensures BookOut(BookOf(v), Complete(num)) == Done(v.w[i])
  {
    TakenOut(v, num, i);
  }

  lemma {:induction false} NoneView(r: Ring, num: nat)
    requires Inv(r) && Safe(ViewOf(r), Complete(num)) && Unanswered(r, num)
    ensures ViewNext(ViewOf(r), Complete(num)) == ViewOf(r) && BookOut(BookOf(ViewOf(r)), Complete(num)) == NoEntry
  {
    var w := Window(r);
    FullIs(r);
    forall i | IsLive(w, num, i)
      ensures !Full(r) || SlotFate(r.cap, i) == Finds
    {
      if Full(r) {
        var j: nat, hit: bool :| Target(w, num, j, hit) && SafePlace(ViewOf(r), j, hit);
        OneTarget(w, num, j, hit, i);
      }
    }
    NotListed(w, num);
  }

  /** One call is answered as the list answers it. */
  method Call(p: Requests?, op: Op, ghost v: View, ghost n: nat) returns (p': Requests?, out: Out)
    requires Represents(p, v, n) && n < CALLS && Safe(v, op)
    modifies p
    ensures p' == p || fresh(p')
    ensures out == BookOut(BookOf(v), op) && Represents(p', ViewNext(v, op), n + 1)
  {
    match op {
      case Add(num, req) =>
        var ok;
        p', ok := AddTo(p, num, req, v, n);
        out := if ok then Accepted else Mismatch;
      case Skip(num) =>
        var ok;
        p', ok := SkipOn(p, num, v, n);
        out := if ok then Accepted else Mismatch;
      case Complete(num) =>
        var done := CompleteOn(p, num, v, n);
        p' := p;
        out := if done.Some? then Done(done.value) else NoEntry;
    }
  }

  lemma {:induction false} RepresentsInOrder(p: Requests?, v: View, n: nat)
    requires Represents(p, v, n)
    ensures InOrder(v.w, |LiveSlots(v.w)|)
  {
  }

  method RunFrom(p: Requests?, ops: seq<Op>, ghost v: View, ghost n: nat) returns (outs: seq<Out>)
    requires Represents(p, v, n) && n + |ops| <= CALLS && SafeRun(v, ops)
    modifies p
    ensures outs == BookRun(BookOf(v), ops)
    decreases |ops|
  {
    if ops == [] {
      return [];
    }
    RepresentsInOrder(p, v, n);
    ViewIsBook(v, ops[0]);
    var p', out := Call(p, ops[0], v, n);
    var rest := RunFrom(p', ops[1..], ViewNext(v, ops[0]), n + 1);
    outs := [out] + rest;
  }

  const START: View := View(None, [], STARTING_CAP)

  /** Every run of additions, skips and completions in any order is answered as by a
      list from which requests are taken by number, through holes and any number of
      growths, as long as each call is safe. */
  method Run(ops: seq<Op>) returns (outs: seq<Out>)
    requires |ops| <= CALLS && SafeRun(START, ops)
    ensures outs == BookRun(NOTHING, ops)
  {
    assert LiveSlots([]) == [];
    outs := RunFrom(null, ops, START, 0);
  }
}
