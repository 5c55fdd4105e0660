/** The runs of a server that answers oldest first: there the pending requests are a
    queue, and no other care is needed. */
module PendingFifo {
  import opened Wrappers
  import Protocol = SequenceProtocol
  import opened PendingRing
  import opened PendingComplete
  import opened PendingSearch
  import opened CircularSearch
  import opened PendingLookup
  import opened PendingRequests
  import opened PendingRuns

  /** The answers of a queue: a completion takes its head, whatever the number. */
  function FifoOut(f: Book, op: Op): Out {
    match op
    case Complete(_) => if f.list == [] then NoEntry else Done(f.list[0])
    case _ => if Protocol.ValidateSeqnum(f.last, op.num) then Accepted else Mismatch
  }

  function FifoNext(f: Book, op: Op): Book {
    match op
    case Add(num, req) =>
      if !Protocol.ValidateSeqnum(f.last, num) then f else Book(Some(num), f.list + [Slot(num, Some(req))])
    case Skip(num) =>
      if !Protocol.ValidateSeqnum(f.last, num) then f else f.(last := Some(num))
    case Complete(_) =>
      if f.list == [] then f else f.(list := f.list[1..])
  }

  function FifoRun(f: Book, ops: seq<Op>): seq<Out>
    decreases |ops|
  {
    if ops == [] then [] else [FifoOut(f, ops[0])] + FifoRun(FifoNext(f, ops[0]), ops[1..])
  }

  /** Requests are answered oldest first. */
  predicate OldestFirst(f: Book, op: Op) {
    op.Complete? && f.list != [] ==> op.num == f.list[0].num
  }

  /** An accepted number comes after those in the queue: the queue does not
      straddle the wraparound of numbers. */
  predicate Unwrapped(f: Book, op: Op) {
    op.Add? && Protocol.ValidateSeqnum(f.last, op.num) && f.list != [] ==> f.list[|f.list| - 1].num < op.num
  }

  predicate Disciplined(f: Book, ops: seq<Op>)
    decreases |ops|
  {
    ops != [] ==>
      OldestFirst(f, ops[0]) && Unwrapped(f, ops[0]) && Disciplined(FifoNext(f, ops[0]), ops[1..])
  }

  predicate AnswersInOrder(f: Book, ops: seq<Op>)
    decreases |ops|
  {
    ops != [] ==> OldestFirst(f, ops[0]) && AnswersInOrder(FifoNext(f, ops[0]), ops[1..])
  }

  /** The numbers seen so far, of which there are at most n, without wraparound. */
  predicate Counted(f: Book, n: nat) {
    && (f.last.Some? ==> f.last.value <= 2 * n)
    && (f.list != [] ==> f.last.Some? && f.list[|f.list| - 1].num <= f.last.value)
  }

  /** Too short a run to wrap needs only answers in order. */
  lemma {:induction false} ShortRuns(f: Book, ops: seq<Op>, n: nat)
    requires Counted(f, n) && n + |ops| < Protocol.PERIOD && AnswersInOrder(f, ops)
    ensures Disciplined(f, ops)
    decreases |ops|
  {
    if ops != [] {
      ShortRuns(FifoNext(f, ops[0]), ops[1..], n + 1);
    }
  }

  /** A window without holes. */
  ghost predicate Solid(v: View) {
    LiveSlots(v.w) == v.w && Rising(v.w) && |v.w| <= v.cap && 2 <= v.cap
  }

  lemma {:induction false} SolidLive(w: seq<Slot>)
    requires LiveSlots(w) == w
    ensures forall i | 0 <= i < |w| :: w[i].req.Some?
  {
    LiveIn(w);
    assert forall i | 0 <= i < |w| :: w[i] in w;
  }

  /** Answering oldest first is safe, and leaves no holes. */
  lemma {:induction false} DisciplinedSafe(v: View, op: Op)
    requires Solid(v) && OldestFirst(BookOf(v), op) && Unwrapped(BookOf(v), op)
    ensures Kept(v, op)
  {
    match op
    case Add(num, req) => AddKept(v, num, req);
    case Skip(num) => SkipKept(v, num);
    case Complete(num) => CompleteKept(v, num);
  }

  /** The call is safe, leaves no holes, and is a queue's. */
  ghost predicate Kept(v: View, op: Op) {
    && Safe(v, op) && Solid(ViewNext(v, op)) && BookOut(BookOf(v), op) == FifoOut(BookOf(v), op)
    && BookOf(ViewNext(v, op)) == FifoNext(BookOf(v), op)
  }

  lemma {:induction false} AddKept(v: View, num: nat, req: nat)
    requires Solid(v) && Unwrapped(BookOf(v), Add(num, req))
    ensures Kept(v, Add(num, req))
  {
    if Protocol.ValidateSeqnum(v.last, num) {
      AddSafe(v, num, req);
      AddNext(v, num, req);
    }
  }

  lemma {:induction false} AddSafe(v: View, num: nat, req: nat)
    requires Solid(v) && Unwrapped(BookOf(v), Add(num, req))
    ensures Safe(v, Add(num, req))
  {
  }

  lemma {:induction false} AddNext(v: View, num: nat, req: nat)
    requires Solid(v) && Protocol.ValidateSeqnum(v.last, num) && Follows(v.w, num)
    ensures var v' := ViewNext(v, Add(num, req));
            Solid(v') && BookOf(v') == Book(Some(num), v.w + [Slot(num, Some(req))])
  {
    AddSolid(v, num, req);
    assert ViewNext(v, Add(num, req)).w == v.w + [Slot(num, Some(req))];
  }

  lemma {:induction false} SkipKept(v: View, num: nat)
    requires Solid(v)
    ensures Kept(v, Skip(num))
  {
  }

  lemma {:induction false} CompleteKept(v: View, num: nat)
    requires Solid(v) && OldestFirst(BookOf(v), Complete(num))
    ensures Kept(v, Complete(num))
  {
    if v.w != [] {
      HeadSafe(v, num);
      HeadGone(v, num);
    }
  }

  lemma {:induction false} AddSolid(v: View, num: nat, req: nat)
    requires Solid(v) && Follows(v.w, num)
    ensures var w := v.w + [Slot(num, Some(req))];
            LiveSlots(w) == w && Rising(w)
  {
    LiveAppend(v.w, Slot(num, Some(req)));
  }

  lemma {:induction false} HeadSafe(v: View, num: nat)
    requires Solid(v) && v.w != [] && num == v.w[0].num
    ensures Safe(v, Complete(num))
  {
    SolidLive(v.w);
    HeadOnly(v.w, num);
    assert Target(v.w, num, 0, true) && SafePlace(v, 0, true);
  }

  lemma {:induction false} HeadOnly(w: seq<Slot>, num: nat)
    requires Rising(w) && w != [] && num == w[0].num
    ensures forall i | IsLive(w, num, i) :: i == 0
  {
    forall i | IsLive(w, num, i)
      ensures i == 0
    {
      PlaceIs(w, num, i);
    }
  }

  lemma {:induction false} HeadGone(v: View, num: nat)
    requires Solid(v) && v.w != [] && num == v.w[0].num
    ensures Place(v.w, num) == 0 && ViewNext(v, Complete(num)) == v.(w := v.w[1..])
    ensures Solid(v.(w := v.w[1..]))
  {
    SolidLive(v.w);
    assert IsLive(v.w, num, 0);
    LiveAll(v.w[1..]);
  }

  lemma {:induction false} DisciplinedRun(v: View, ops: seq<Op>)
    requires Solid(v) && Disciplined(BookOf(v), ops)
    ensures SafeRun(v, ops) && BookRun(BookOf(v), ops) == FifoRun(BookOf(v), ops)
    decreases |ops|
  {
    if ops != [] {
      DisciplinedSafe(v, ops[0]);
      SolidLive(v.w);
      ViewIsBook(v, ops[0]);
      DisciplinedRun(ViewNext(v, ops[0]), ops[1..]);
    }
  }

  /** Every run of additions, skips and oldest-first completions is answered as by a
      queue, through any number of growths, as long as the stored requests do not
      straddle the wraparound of numbers; short runs never do. */
  method Run(ops: seq<Op>) returns (outs: seq<Out>)
    requires |ops| <= CALLS && AnswersInOrder(NOTHING, ops) && (Disciplined(NOTHING, ops) || |ops| < Protocol.PERIOD)
    ensures outs == FifoRun(NOTHING, ops)
  {
    if |ops| < Protocol.PERIOD {
      ShortRuns(NOTHING, ops, 0);
    }
    assert LiveSlots([]) == [];
    DisciplinedRun(START, ops);
    outs := PendingRuns.Run(ops);
  }
}
