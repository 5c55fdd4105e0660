/** A connection with the client's code at one end and the server's pending requests at
    the other: over every run whose calls on the buffer are safe, the buffer holds the
    registered requests that wait for an answer. */
module ServerEnd {
  import opened Wrappers
  import P = SequenceProtocol
  import Routing
  import opened Connection
  import opened PendingRing
  import R = PendingRuns
  import opened PendingRequests

  /** The requests among the unanswered ones that the server keeps pending. */
  ghost function Kept(open: seq<P.Packet>, added: set<nat>): seq<Slot> {
    if open == [] then []
    else
      var n := |open| - 1;
      Kept(open[..n], added) + if open[n].id in added then [Slot(open[n].num, Some(open[n].id))] else []
  }

  lemma {:induction false} KeptAppend(open: seq<P.Packet>, p: P.Packet, added: set<nat>)
    ensures Kept(open + [p], added) == Kept(open, added) + if p.id in added then [Slot(p.num, Some(p.id))] else []
  {
    assert (open + [p])[..|open|] == open;
  }

  lemma {:induction false} KeptConcat(a: seq<P.Packet>, b: seq<P.Packet>, added: set<nat>)
    ensures Kept(a + b, added) == Kept(a, added) + Kept(b, added)
  {
    if b == [] {
      assert a + b == a;
    } else {
      var n := |b| - 1;
      assert a + b == (a + b[..n]) + [b[n]] && b == b[..n] + [b[n]];
      KeptAppend(a + b[..n], b[n], added);
      KeptAppend(b[..n], b[n], added);
      KeptConcat(a, b[..n], added);
    }
  }

  /** A later request changes nothing about the earlier ones. */
  lemma {:induction false} KeptOthers(open: seq<P.Packet>, added: set<nat>, id: nat)
    requires forall i | 0 <= i < |open| :: open[i].id != id
    ensures Kept(open, added + {id}) == Kept(open, added)
  {
    if open != [] {
      KeptOthers(open[..|open| - 1], added, id);
    }
  }

  /** Answering request k takes it from the pending ones, if it is one of them. */
  lemma {:induction false} KeptErase(open: seq<P.Packet>, added: set<nat>, k: nat)
    requires k < |open|
    ensures var kept, i, p := Kept(open, added), |Kept(open[..k], added)|, open[k];
            if p.id in added then
              && i < |kept| && kept[i] == Slot(p.num, Some(p.id))
              && Kept(P.Erase(open, k), added) == P.Erase(kept, i)
            else Kept(P.Erase(open, k), added) == kept
  {
    var a, b := open[..k], open[k + 1..];
    assert open == (a + [open[k]]) + b;
    KeptConcat(a + [open[k]], b, added);
    KeptAppend(a, open[k], added);
    KeptConcat(a, b, added);
  }

  // ------------------------------------------------------------------- the state

  /** The connection, the requests kept pending so far, and the buffer's window. */
  datatype Joint = Joint(s: P.State, added: set<nat>, v: R.View)

  /** The call on the buffer that an event makes. */
  function CallOf(s: P.State, added: set<nat>, e: P.Event): Option<R.Op>
    requires P.Enabled(s, e)
  {
    match e
    case Deliver(how) =>
      var p := s.toServer[0];
      (match how
       case Add => Some(R.Add(p.num, p.id))
       case Skip => Some(R.Skip(p.num))
       case Ignore => None)
    case Respond(k) =>
      var p := s.open[k];
      if p.id in added then Some(R.Complete(p.num)) else None
    case _ => None
  }

  ghost function ViewAfter(v: R.View, call: Option<R.Op>): R.View {
    if call.Some? then R.ViewNext(v, call.value) else v
  }

  function AddedAfter(s: P.State, added: set<nat>, e: P.Event): set<nat>
    requires P.Enabled(s, e)
  {
    if e == P.Deliver(P.Add) && !P.Step(s, e).kicked then added + {s.toServer[0].id} else added
  }

  ghost function After(j: Joint, e: P.Event): Joint
    requires P.Enabled(j.s, e)
  {
    Joint(P.Step(j.s, e), AddedAfter(j.s, j.added, e), ViewAfter(j.v, CallOf(j.s, j.added, e)))
  }

  ghost predicate SafeFor(j: Joint, e: P.Event)
    requires P.Enabled(j.s, e)
  {
    CallOf(j.s, j.added, e).Some? ==> R.Safe(j.v, CallOf(j.s, j.added, e).value)
  }

  /** The buffer holds the kept requests that wait for an answer, in their order. */
  ghost predicate Agrees(open: seq<P.Packet>, added: set<nat>, last: Option<nat>, lastId: nat, v: R.View) {
    && v.last == last && LiveSlots(v.w) == Kept(open, added)
    && (forall id | id in added :: id <= lastId)
    && (forall i | 0 <= i < |open| :: open[i].id <= lastId)
  }

  ghost predicate Matches(j: Joint) {
    Agrees(j.s.open, j.added, j.s.last, j.s.lastId, j.v)
  }

  ghost predicate Sound(j: Joint) {
    P.Inv(j.s) && Matches(j)
  }

  /** What the call answers. */
  ghost function AnswerOf(j: Joint, e: P.Event): Option<R.Out>
    requires P.Enabled(j.s, e)
  {
    match e
    case Deliver(how) =>
      if how == P.Ignore then None else Some(if P.Step(j.s, e).kicked then R.Mismatch else R.Accepted)
    case Respond(k) =>
      var p := j.s.open[k];
      if p.id in j.added then Some(R.Done(Slot(p.num, Some(p.id)))) else None
    case _ => None
  }

  /** A request with a higher index arrives and is kept. */
  lemma {:induction false} AddAgrees(open: seq<P.Packet>, added: set<nat>, lastId: nat, v: R.View, p: P.Packet)
    requires Agrees(open, added, v.last, lastId, v) && lastId < p.id && P.ValidateSeqnum(v.last, p.num)
    requires R.Safe(v, R.Add(p.num, p.id)) && InOrder(v.w, |LiveSlots(v.w)|)
    ensures Agrees(open + [p], added + {p.id}, Some(p.num), p.id, R.ViewNext(v, R.Add(p.num, p.id)))
  {
    AddBook(v, p);
    OneMore(open, added, v.last, lastId, v, R.ViewNext(v, R.Add(p.num, p.id)), p);
  }

  lemma {:induction false} OneMore(open: seq<P.Packet>, added: set<nat>, last: Option<nat>, lastId: nat,
                                   v: R.View, v': R.View, p: P.Packet)
    requires Agrees(open, added, last, lastId, v) && lastId < p.id && v'.last == Some(p.num)
    requires LiveSlots(v'.w) == LiveSlots(v.w) + [Slot(p.num, Some(p.id))]
    ensures Agrees(open + [p], added + {p.id}, Some(p.num), p.id, v')
  {
    KeptNew(open, added, p);
  }

  lemma {:induction false} AddBook(v: R.View, p: P.Packet)
    requires P.ValidateSeqnum(v.last, p.num) && R.Safe(v, R.Add(p.num, p.id)) && InOrder(v.w, |LiveSlots(v.w)|)
    ensures var v' := R.ViewNext(v, R.Add(p.num, p.id));
            v'.last == Some(p.num) && LiveSlots(v'.w) == LiveSlots(v.w) + [Slot(p.num, Some(p.id))]
  {
    R.ViewIsBook(v, R.Add(p.num, p.id));
  }

  lemma {:induction false} KeptNew(open: seq<P.Packet>, added: set<nat>, p: P.Packet)
    requires forall i | 0 <= i < |open| :: open[i].id != p.id
    ensures Kept(open + [p], added + {p.id}) == Kept(open, added) + [Slot(p.num, Some(p.id))]
  {
    KeptOthers(open, added, p.id);
    KeptAppend(open, p, added + {p.id});
  }

  /** It arrives and its number is skipped. */
  lemma {:induction false} SkipAgrees(open: seq<P.Packet>, added: set<nat>, lastId: nat, v: R.View, p: P.Packet)
    requires Agrees(open, added, v.last, lastId, v) && lastId < p.id && P.ValidateSeqnum(v.last, p.num)
    ensures Agrees(open + [p], added, Some(p.num), p.id, R.ViewNext(v, R.Skip(p.num)))
  {
    KeptAppend(open, p, added);
  }

  /** Request k is answered. */
  lemma {:induction false} RespondAgrees(open: seq<P.Packet>, added: set<nat>, lastId: nat, v: R.View, k: nat)
    requires Agrees(open, added, v.last, lastId, v) && k < |open| && InOrder(v.w, |LiveSlots(v.w)|)
    requires open[k].id in added ==> R.Safe(v, R.Complete(open[k].num))
    ensures Agrees(P.Erase(open, k), added, v.last, lastId,
                   if open[k].id in added then R.ViewNext(v, R.Complete(open[k].num)) else v)
    ensures open[k].id in added ==>
              R.BookOut(R.BookOf(v), R.Complete(open[k].num)) == R.Done(Slot(open[k].num, Some(open[k].id)))
  {
    KeptErase(open, added, k);
    if open[k].id in added {
      R.ViewIsBook(v, R.Complete(open[k].num));
      LiveRising(v.w);
      R.PlaceIs(LiveSlots(v.w), open[k].num, |Kept(open[..k], added)|);
    }
  }

  lemma {:induction false} MatchesDeliver(j: Joint, how: P.Handling)
    requires Matches(j) && P.Enabled(j.s, P.Deliver(how)) && SafeFor(j, P.Deliver(how))
    requires j.s.lastId < j.s.toServer[0].id && InOrder(j.v.w, |LiveSlots(j.v.w)|)
    ensures Matches(After(j, P.Deliver(how)))
  {
    var p := j.s.toServer[0];
    if how != P.Ignore && P.ValidateSeqnum(j.s.last, p.num) {
      if how == P.Add {
        AddAgrees(j.s.open, j.added, j.s.lastId, j.v, p);
      } else {
        SkipAgrees(j.s.open, j.added, j.s.lastId, j.v, p);
      }
    }
  }

  lemma {:induction false} MatchesNext(j: Joint, e: P.Event)
    requires Matches(j) && P.Enabled(j.s, e) && SafeFor(j, e) && InOrder(j.v.w, |LiveSlots(j.v.w)|)
    requires e.Deliver? ==> j.s.lastId < j.s.toServer[0].id
    ensures Matches(After(j, e))
  {
    match e
    case Deliver(how) => MatchesDeliver(j, how);
    case Respond(k) => RespondAgrees(j.s.open, j.added, j.s.lastId, j.v, k);
    case _ =>
  }

  lemma {:induction false} AnswerIs(j: Joint, e: P.Event)
    requires Matches(j) && P.Enabled(j.s, e) && SafeFor(j, e) && InOrder(j.v.w, |LiveSlots(j.v.w)|)
    ensures var call := CallOf(j.s, j.added, e);
            AnswerOf(j, e) == if call.Some? then Some(R.BookOut(R.BookOf(j.v), call.value)) else None
  {
    if e.Respond? {
      RespondAgrees(j.s.open, j.added, j.s.lastId, j.v, e.k);
    }
  }

  // ------------------------------------------------------------------ the objects

  /** A connection, and the buffer at its server end. */
  class Session {
    const link: Link
    var ring: Requests?
    var added: set<nat>
    ghost var view: R.View
    ghost var calls: nat

    ghost function Value(): Joint
      reads this, link, link.client
    {
      Joint(link.Value(), added, view)
    }

    ghost predicate Valid()
      reads this, link, link.client, ring
    {
      Sound(Value()) && R.Represents(ring, view, calls)
    }

    constructor (task: nat)
      ensures Valid() && Value() == Start(task) && calls == 0 && fresh(link) && fresh(link.client) && ring == null
    {
      StartMatches(task);
      link := new Link(task);
      ring, added := null, {};
      view, calls := R.START, 0;
      new;
      assert Value() == Start(task);
    }

    /** The connection's part of an event. */
    method Move(e: P.Event)
      requires P.Enabled(link.Value(), e)
      modifies this`added, link, link.client
      ensures link.Value() == P.Step(old(link.Value()), e) && added == AddedAfter(old(link.Value()), old(added), e)
    {
      added := AddedAfter(link.Value(), added, e);
      link.Do(e);
    }

    /** The buffer's part of an event. */
    method Use(call: Option<R.Op>) returns (out: Option<R.Out>)
      requires R.Represents(ring, view, calls) && calls < R.CALLS && (call.Some? ==> R.Safe(view, call.value))
      modifies this`ring, this`view, this`calls, ring
      ensures R.Represents(ring, view, calls) && calls <= old(calls) + 1 && (ring == old(ring) || fresh(ring))
      ensures view == ViewAfter(old(view), call)
      ensures out == if call.Some? then Some(R.BookOut(R.BookOf(old(view)), call.value)) else None
    {
      out := None;
      if call.Some? {
        var answer;
        ring, answer := R.Call(ring, call.value, view, calls);
        view, calls := R.ViewNext(view, call.value), calls + 1;
        out := Some(answer);
      }
    }

    /** One event of the connection, with its call on the buffer. */
    method Do(e: P.Event) returns (out: Option<R.Out>)
      requires Valid() && P.Enabled(link.Value(), e) && SafeFor(Value(), e) && calls < R.CALLS
      modifies this, link, link.client, ring
      ensures Valid() && Value() == After(old(Value()), e) && calls <= old(calls) + 1
      ensures out == AnswerOf(old(Value()), e)
      ensures ring == old(ring) || fresh(ring)
    {
      StepOk(Value(), e, ring, calls);
      var call := CallOf(link.Value(), added, e);
      Move(e);
      out := Use(call);
    }
  }

  lemma {:induction false} StepOk(j: Joint, e: P.Event, ring: Requests?, calls: nat)
    requires Sound(j) && P.Enabled(j.s, e) && SafeFor(j, e) && R.Represents(ring, j.v, calls)
    ensures Sound(After(j, e))
    ensures var call := CallOf(j.s, j.added, e);
            AnswerOf(j, e) == if call.Some? then Some(R.BookOut(R.BookOf(j.v), call.value)) else None
  {
    R.RepresentsInOrder(ring, j.v, calls);
    P.InvStep(j.s, e);
    MatchesNext(j, e);
    AnswerIs(j, e);
  }

  ghost function Start(task: nat): Joint {
    Joint(P.Init(task), {}, R.START)
  }

  lemma {:induction false} StartMatches(task: nat)
    ensures Sound(Start(task)) && R.Represents(null, R.START, 0)
  {
    P.InvInit(task);
    StartAgrees([P.Packet(0, 0)]);
  }

  /** The handshake is not kept. */
  lemma {:induction false} StartAgrees(open: seq<P.Packet>)
    requires open == [P.Packet(0, 0)]
    ensures Agrees(open, {}, None, 0, R.START)
  {
    KeptAppend([], open[0], {});
    assert [] + [open[0]] == open;
    assert LiveSlots([]) == [] == Kept([], {});
  }

  ghost function AfterAll(j: Joint, es: seq<P.Event>): Joint
    requires P.Legal(j.s, es)
    decreases |es|
  {
    if es == [] then j else AfterAll(After(j, es[0]), es[1..])
  }

  ghost predicate SafeAll(j: Joint, es: seq<P.Event>)
    requires P.Legal(j.s, es)
    decreases |es|
  {
    es != [] ==> SafeFor(j, es[0]) && SafeAll(After(j, es[0]), es[1..])
  }

  lemma {:induction false} AfterAllRuns(j: Joint, es: seq<P.Event>)
    requires P.Legal(j.s, es)
    ensures AfterAll(j, es).s == P.Run(j.s, es)
    decreases |es|
  {
    if es != [] {
      AfterAllRuns(After(j, es[0]), es[1..]);
    }
  }

  method RunFrom(session: Session, es: seq<P.Event>)
    requires session.Valid() && P.Legal(session.link.Value(), es) && SafeAll(session.Value(), es)
    requires session.calls + |es| <= R.CALLS
    modifies session, session.link, session.link.client, session.ring
    ensures session.Valid() && session.Value() == AfterAll(old(session.Value()), es)
    decreases |es|
  {
    if es != [] {
      var out := session.Do(es[0]);
      RunFrom(session, es[1..]);
    }
  }

  /** Any run of a new connection whose calls on the buffer are safe: the connection runs
      as its state machine says, and the buffer's pending requests are those that were
      kept and not answered yet, in their order. */
  method RunAll(task: nat, es: seq<P.Event>) returns (session: Session)
    requires P.Legal(P.Init(task), es) && SafeAll(Start(task), es) && |es| <= R.CALLS
    ensures session.Valid() && session.link.Value() == P.Run(P.Init(task), es)
    ensures (forall i | 0 <= i < |es| :: !P.Breaks(es[i])) ==> !session.link.kicked
    ensures session.ring == null ==> Kept(session.link.open, session.added) == []
    ensures session.ring != null ==>
              Pending(session.ring.Value()) == Kept(session.link.open, session.added) &&
              session.link.last == Some(session.ring.lastSeq)
  {
    session := new Session(task);
    RunFrom(session, es);
    AfterAllRuns(Start(task), es);
    Routing.EveryRun(task, es, 0);
    assert LiveSlots([]) == [];
  }
}
