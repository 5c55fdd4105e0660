/** Sequence numbers between one client and its server: the client hands them out
    and routes responses by them, the server checks them against its own successor
    function.  The connection is a state machine over its steps; the code it runs
    is the client and server functions below. */
module SequenceProtocol {
  import opened Wrappers

  /** The first number of a request; the handshake has 0. */
  const FIRST: nat := 2

  /** There are this many request numbers: 2, 4, ..., 2^32 - 2. */
  const PERIOD: nat := 0x7fff_ffff

  // ------------------------------------------------------- the two successors

  /** client_next_seq: add 2 in 32 bits, and restart when that gives 0. */
  function ClientNext(num: nat): nat {
    var n := (num + 2) % U32;
    if n == 0 then FIRST else n
  }

  /** next_seq of pending-reqs.c, below UINT32_MAX - 2. */
  function ServerNext(num: nat): nat {
    if num < U32 - 1 - 2 then num + 2 else FIRST
  }

  /** The two successors agree on every 32-bit number but the two largest odd ones. */
  lemma {:induction false} SuccessorsAgree(num: nat)
    requires num < 0x1_0000_0000
    ensures ClientNext(num) == ServerNext(num) <==> num % 2 == 0 || num < 0xffff_fffd
  {
  }

  /** The number of the request with index id; index 0 is the handshake. */
  function SeqOf(id: nat): nat {
    if id == 0 then 0 else 2 + 2 * ((id - 1) % PERIOD)
  }

  lemma {:induction false} SeqOfNext(id: nat)
    ensures SeqOf(id) % 2 == 0 && SeqOf(id) < U32
    ensures ClientNext(SeqOf(id)) == SeqOf(id + 1)
    ensures ServerNext(SeqOf(id)) == SeqOf(id + 1)
  {
    if id > 0 {
      var q, r := (id - 1) / PERIOD, (id - 1) % PERIOD;
      if r < PERIOD - 1 {
        assert id == PERIOD * q + (r + 1);
        Remainder(id, q, r + 1);
      } else {
        assert id == PERIOD * (q + 1);
        Remainder(id, q + 1, 0);
      }
    }
  }

  lemma {:induction false} Remainder(x: nat, q: nat, r: nat)
    requires x == PERIOD * q + r && r < PERIOD
    ensures x % PERIOD == r
  {
  }

  /** Two requests share a number exactly when a whole number of periods lies
      between them; nothing shares the number of the handshake. */
  lemma {:induction false} SeqOfShared(i: nat, j: nat)
    requires i <= j
    ensures SeqOf(i) == SeqOf(j) <==> if i == 0 then j == 0 else (j - i) % PERIOD == 0
  {
    if i > 0 {
      var a, b := (i - 1) % PERIOD, (j - 1) % PERIOD;
      var qa, qb := (i - 1) / PERIOD, (j - 1) / PERIOD;
      assert j - i == PERIOD * (qb - qa) + (b - a);
      if a == b {
        Remainder(j - i, qb - qa, 0);
      } else if a < b {
        Remainder(j - i, qb - qa, b - a);
      } else {
        assert j - i == PERIOD * (qb - qa - 1) + (PERIOD + b - a);
        Remainder(j - i, qb - qa - 1, PERIOD + b - a);
      }
    }
  }

  // ----------------------------------------------------------- the waiting list

  /** A task that waits for the response numbered `num`.  The request's index `id`
      is for the specification; no code looks at it. */
  datatype Waiting = Waiting(num: nat, task: nat, id: nat)

  /** The position of the first entry with the number, or the length. */
  function FindSeq(list: seq<Waiting>, num: nat): (i: nat)
    ensures i <= |list| && (i < |list| ==> list[i].num == num)
    ensures forall j | 0 <= j < i :: list[j].num != num
  {
    if list == [] then 0 else if list[0].num == num then 0 else 1 + FindSeq(list[1..], num)
  }

  function FindTask(list: seq<Waiting>, task: nat): (i: nat)
    ensures i <= |list| && (i < |list| ==> list[i].task == task)
    ensures forall j | 0 <= j < i :: list[j].task != task
  {
    if list == [] then 0 else if list[0].task == task then 0 else 1 + FindTask(list[1..], task)
  }

  function Erase<T>(list: seq<T>, i: nat): seq<T> {
    if i < |list| then list[..i] + list[i + 1..] else list
  }

  /** dicey_client, as far as numbers go. */
  class Client {
    var nextSeq: nat
    var waiting: seq<Waiting>

    /** send_first_hello: the counter restarts and the connecting task waits for 0. */
    constructor (task: nat)
      ensures nextSeq == FIRST && waiting == [Waiting(0, task, 0)]
    {
      nextSeq, waiting := FIRST, [Waiting(0, task, 0)];
    }

    /** client_next_seq. */
    method NextSeq() returns (num: nat)
      modifies this`nextSeq
      ensures num == old(nextSeq) && nextSeq == ClientNext(num)
    {
      num := nextSeq;
      nextSeq := (nextSeq + 2) % U32;
      if nextSeq == 0 {
        nextSeq := FIRST;
      }
    }

    /** issue_request: the number is taken before the packet is written, and the
        task waits only if the write was accepted. */
    method IssueRequest(task: nat, sent: bool, id: nat) returns (num: nat)
      modifies this
      ensures num == old(nextSeq) && nextSeq == ClientNext(num)
      ensures waiting == if sent then old(waiting) + [Waiting(num, task, id)] else old(waiting)
    {
      num := NextSeq();
      if sent {
        waiting := waiting + [Waiting(num, task, id)];
      }
    }

    /** dicey_waiting_list_remove_seq, as client_got_packet uses it: the task to
        advance, if any. */
    method GotResponse(num: nat) returns (task: Option<nat>)
      modifies this`waiting
      ensures var i := FindSeq(old(waiting), num);
              && task == (if i < |old(waiting)| then Some(old(waiting)[i].task) else None)
              && waiting == Erase(old(waiting), i)
    {
      for i := 0 to |waiting|
        invariant waiting == old(waiting)
        invariant forall j | 0 <= j < i :: waiting[j].num != num
      {
        if waiting[i].num == num {
          task := Some(waiting[i].task);
          waiting := waiting[..i] + waiting[i + 1..];
          return;
        }
      }
      task := None;
    }

    /** clean_up_task: dicey_waiting_list_remove_task. */
    method CleanUpTask(task: nat)
      modifies this`waiting
      ensures waiting == Erase(old(waiting), FindTask(old(waiting), task))
    {
      for i := 0 to |waiting|
        invariant waiting == old(waiting)
        invariant forall j | 0 <= j < i :: waiting[j].task != task
      {
        if waiting[i].task == task {
          waiting := waiting[..i] + waiting[i + 1..];
          return;
        }
      }
    }
  }

  /** validate_seqnum; None is the null list of a connection without requests. */
  predicate ValidateSeqnum(last: Option<nat>, num: nat) {
    match last
    case None => num == FIRST
    case Some(l) => num == ServerNext(l)
  }

  // ------------------------------------------------------------ the connection

  datatype Packet = Packet(num: nat, id: nat)

  /** The two ends of a connection and the in-order pipes between them.  `issued[id]`
      is the task that took number SeqOf(id), `lastId` the index of the last request
      the server registered, and `advanced` the (task, response index) pairs so far. */
  datatype State = State(
    next: nat, waiting: seq<Waiting>, issued: seq<nat>,
    toServer: seq<Packet>, last: Option<nat>, lastId: nat, kicked: bool,
    open: seq<Packet>, toClient: seq<Packet>,
    advanced: seq<(nat, nat)>, ended: set<nat>)

  /** What the server does with a valid request: keep it pending, skip its number
      and answer at once, or, without a request handler, drop it unseen. */
  datatype Handling = Add | Skip | Ignore

  datatype Event =
    | Issue(task: nat, sent: bool)
    | Deliver(how: Handling)
    | Respond(k: nat)
    | Receive
    | End(task: nat)

  function Init(task: nat): State {
    State(FIRST, [Waiting(0, task, 0)], [task], [], None, 0, false, [Packet(0, 0)], [], [], {})
  }

  predicate Enabled(s: State, e: Event) {
    match e
    case Issue(task, _) => task !in s.issued
    case Deliver(_) => s.toServer != [] && !s.kicked
    case Respond(k) => k < |s.open|
    case Receive => s.toClient != []
    case End(task) => task in s.issued && task !in s.ended
  }

  function Step(s: State, e: Event): State
    requires Enabled(s, e)
  {
    match e
    case Issue(task, sent) =>
      var num, id := s.next, |s.issued|;
      var s' := s.(next := ClientNext(num), issued := s.issued + [task]);
      if sent then
        s'.(waiting := s.waiting + [Waiting(num, task, id)], toServer := s.toServer + [Packet(num, id)])
      else s'
    case Deliver(how) =>
      var p := s.toServer[0];
      var s' := s.(toServer := s.toServer[1..]);
      if how == Ignore then s'
      else if ValidateSeqnum(s.last, p.num) then s'.(last := Some(p.num), lastId := p.id, open := s.open + [p])
      else s'.(kicked := true)
    case Respond(k) =>
      s.(open := Erase(s.open, k), toClient := s.toClient + [s.open[k]])
    case Receive =>
      var p := s.toClient[0];
      var i := FindSeq(s.waiting, p.num);
      s.(toClient := s.toClient[1..], waiting := Erase(s.waiting, i),
         advanced := if i < |s.waiting| then s.advanced + [(s.waiting[i].task, p.id)] else s.advanced)
    case End(task) =>
      s.(waiting := Erase(s.waiting, FindTask(s.waiting, task)), ended := s.ended + {task})
  }

  // ------------------------------------------------------------ what every step keeps

  ghost predicate Distinct<T(!new)>(s: seq<T>) {
    forall i, j | 0 <= i < j < |s| :: s[i] != s[j]
  }

  /** Entry w waits under its request's number for the task that issued it, which has
      not ended. */
  ghost predicate EntryOk(w: Waiting, issued: seq<nat>, ended: set<nat>) {
    w.id < |issued| && w.num == SeqOf(w.id) && w.task == issued[w.id] && w.task !in ended
  }

  ghost predicate EntriesOk(waiting: seq<Waiting>, issued: seq<nat>, ended: set<nat>) {
    forall i | 0 <= i < |waiting| :: EntryOk(waiting[i], issued, ended)
  }

  /** Entries wait in the order of their requests. */
  ghost predicate InOrder(waiting: seq<Waiting>) {
    forall i, j | 0 <= i < j < |waiting| :: waiting[i].id < waiting[j].id
  }

  ghost predicate WaitingOk(waiting: seq<Waiting>, issued: seq<nat>, ended: set<nat>) {
    EntriesOk(waiting, issued, ended) && InOrder(waiting)
  }

  ghost predicate Numbered(ps: seq<Packet>, n: nat) {
    forall i | 0 <= i < |ps| :: ps[i].num == SeqOf(ps[i].id) && ps[i].id < n
  }

  /** No task was advanced twice, and none that was advanced still waits. */
  ghost predicate AdvancedOk(advanced: seq<(nat, nat)>, waiting: seq<Waiting>, issued: seq<nat>) {
    && (forall i | 0 <= i < |advanced| :: advanced[i].0 in issued && advanced[i].1 < |issued|)
    && (forall i, j | 0 <= i < j < |advanced| :: advanced[i].0 != advanced[j].0)
    && (forall i, j | 0 <= i < |advanced| && 0 <= j < |waiting| :: advanced[i].0 != waiting[j].task)
  }

  ghost predicate Inv(s: State) {
    && 0 < |s.issued| && Distinct(s.issued)
    && s.next == SeqOf(|s.issued|)
    && s.lastId < |s.issued| && s.last == (if s.lastId == 0 then None else Some(SeqOf(s.lastId)))
    && WaitingOk(s.waiting, s.issued, s.ended)
    && Numbered(s.toServer, |s.issued|) && Numbered(s.open, |s.issued|) && Numbered(s.toClient, |s.issued|)
    && (forall i | 0 <= i < |s.toServer| :: s.lastId < s.toServer[i].id)
    && (forall i, j | 0 <= i < j < |s.toServer| :: s.toServer[i].id < s.toServer[j].id)
    && AdvancedOk(s.advanced, s.waiting, s.issued)
    && (forall t | t in s.ended :: t in s.issued)
  }

  lemma {:induction false} InvInit(task: nat)
    ensures Inv(Init(task))
  {
    assert SeqOf(1) == FIRST;
  }

  /** Every step keeps the invariant. */
  lemma {:induction false} InvStep(s: State, e: Event)
    requires Inv(s) && Enabled(s, e)
    ensures Inv(Step(s, e))
  {
    match e
    case Issue(task, sent) => InvIssue(s, task, sent);
    case Deliver(how) => InvDeliver(s, how);
    case Respond(k) => InvRespond(s, k);
    case Receive => InvReceive(s);
    case End(task) => InvEnd(s, task);
  }

  lemma {:induction false} InvIssue(s: State, task: nat, sent: bool)
    requires Inv(s) && Enabled(s, Issue(task, sent))
    ensures Inv(Step(s, Issue(task, sent)))
  {
    SeqOfNext(|s.issued|);
    IssueWaiting(s, task);
    IssueAdvanced(s, task);
  }

  /** A new entry comes last, and the others stay as they are. */
  lemma {:induction false} IssueWaiting(s: State, task: nat)
    requires WaitingOk(s.waiting, s.issued, s.ended) && task !in s.ended
    ensures WaitingOk(s.waiting, s.issued + [task], s.ended)
    ensures WaitingOk(s.waiting + [Waiting(SeqOf(|s.issued|), task, |s.issued|)], s.issued + [task], s.ended)
  {
    assert forall i | 0 <= i < |s.waiting| :: EntryOk(s.waiting[i], s.issued, s.ended);
  }

  lemma {:induction false} IssueAdvanced(s: State, task: nat)
    requires Inv(s) && task !in s.issued
    ensures AdvancedOk(s.advanced, s.waiting, s.issued + [task])
    ensures AdvancedOk(s.advanced, s.waiting + [Waiting(SeqOf(|s.issued|), task, |s.issued|)], s.issued + [task])
  {
    assert forall i | 0 <= i < |s.advanced| :: s.advanced[i].0 in s.issued;
  }

  lemma {:induction false} InvDeliver(s: State, how: Handling)
    requires Inv(s) && Enabled(s, Deliver(how))
    ensures Inv(Step(s, Deliver(how)))
  {
    var p := s.toServer[0];
    assert p.num == SeqOf(p.id) && s.lastId < p.id < |s.issued|;
    assert forall i | 0 < i < |s.toServer| :: p.id < s.toServer[i].id;
  }

  lemma {:induction false} InvRespond(s: State, k: nat)
    requires Inv(s) && Enabled(s, Respond(k))
    ensures Inv(Step(s, Respond(k)))
  {
  }

  lemma {:induction false} InvReceive(s: State)
    requires Inv(s) && Enabled(s, Receive)
    ensures Inv(Step(s, Receive))
  {
    var i := FindSeq(s.waiting, s.toClient[0].num);
    ErasedOk(s.waiting, s.issued, s.ended, i);
    FewerWait(s.advanced, s.waiting, i, s.issued);
    if i < |s.waiting| {
      assert EntryOk(s.waiting[i], s.issued, s.ended);
      ErasedTask(s.waiting, s.issued, s.ended, i);
      OneMore(s.advanced, Erase(s.waiting, i), s.issued, s.waiting[i].task, s.toClient[0].id);
    }
  }

  lemma {:induction false} InvEnd(s: State, task: nat)
    requires Inv(s) && Enabled(s, End(task))
    ensures Inv(Step(s, End(task)))
  {
    var i := FindTask(s.waiting, task);
    ErasedOk(s.waiting, s.issued, s.ended, i);
    FewerWait(s.advanced, s.waiting, i, s.issued);
    EndedEntries(s.waiting, s.issued, s.ended, task);
  }

  /** The entries behind the erased one move up. */
  lemma {:induction false} ErasedAt(waiting: seq<Waiting>, i: nat, j: nat)
    requires j < |Erase(waiting, i)|
    ensures j < |waiting| && (i <= j && i < |waiting| ==> j + 1 < |waiting|)
    ensures Erase(waiting, i)[j] == if j < i || i >= |waiting| then waiting[j] else waiting[j + 1]
  {
  }

  lemma {:induction false} ErasedOk(waiting: seq<Waiting>, issued: seq<nat>, ended: set<nat>, i: nat)
    requires WaitingOk(waiting, issued, ended)
    ensures WaitingOk(Erase(waiting, i), issued, ended)
  {
    forall j | 0 <= j < |Erase(waiting, i)|
      ensures EntryOk(Erase(waiting, i)[j], issued, ended)
    {
      ErasedAt(waiting, i, j);
    }
    ErasedOrder(waiting, i);
  }

  lemma {:induction false} ErasedOrder(waiting: seq<Waiting>, i: nat)
    requires InOrder(waiting)
    ensures InOrder(Erase(waiting, i))
  {
    forall j, k | 0 <= j < k < |Erase(waiting, i)|
      ensures Erase(waiting, i)[j].id < Erase(waiting, i)[k].id
    {
      ErasedAt(waiting, i, j);
      ErasedAt(waiting, i, k);
    }
  }

  /** No two entries wait for one task. */
  lemma {:induction false} OneEntryEach(waiting: seq<Waiting>, issued: seq<nat>, ended: set<nat>, i: nat, j: nat)
    requires WaitingOk(waiting, issued, ended) && Distinct(issued) && i < |waiting| && j < |waiting| && i != j
    ensures waiting[i].task != waiting[j].task
  {
    assert EntryOk(waiting[i], issued, ended) && EntryOk(waiting[j], issued, ended);
    if i < j {
      assert waiting[i].id < waiting[j].id;
    } else {
      assert waiting[j].id < waiting[i].id;
    }
  }

  /** The task of an erased entry waits no more. */
  lemma {:induction false} ErasedTask(waiting: seq<Waiting>, issued: seq<nat>, ended: set<nat>, i: nat)
    requires WaitingOk(waiting, issued, ended) && Distinct(issued) && i < |waiting|
    ensures forall j | 0 <= j < |Erase(waiting, i)| :: Erase(waiting, i)[j].task != waiting[i].task
  {
    forall j | 0 <= j < |Erase(waiting, i)|
      ensures Erase(waiting, i)[j].task != waiting[i].task
    {
      ErasedAt(waiting, i, j);
      OneEntryEach(waiting, issued, ended, i, if j < i then j else j + 1);
    }
  }

  /** Without the entry of a task, the others do not mind that it ends. */
  lemma {:induction false} EndedEntries(waiting: seq<Waiting>, issued: seq<nat>, ended: set<nat>, task: nat)
    requires WaitingOk(waiting, issued, ended) && Distinct(issued)
    ensures WaitingOk(Erase(waiting, FindTask(waiting, task)), issued, ended + {task})
  {
    var i := FindTask(waiting, task);
    ErasedOk(waiting, issued, ended, i);
    forall j | 0 <= j < |Erase(waiting, i)|
      ensures EntryOk(Erase(waiting, i)[j], issued, ended + {task})
    {
      ErasedAt(waiting, i, j);
      if i < |waiting| {
        ErasedTask(waiting, issued, ended, i);
      }
      assert EntryOk(Erase(waiting, i)[j], issued, ended);
    }
  }

  lemma {:induction false} FewerWait(advanced: seq<(nat, nat)>, waiting: seq<Waiting>, i: nat, issued: seq<nat>)
    requires AdvancedOk(advanced, waiting, issued)
    ensures AdvancedOk(advanced, Erase(waiting, i), issued)
  {
    forall k, j | 0 <= k < |advanced| && 0 <= j < |Erase(waiting, i)|
      ensures advanced[k].0 != Erase(waiting, i)[j].task
    {
      ErasedAt(waiting, i, j);
    }
  }

  lemma {:induction false} OneMore(advanced: seq<(nat, nat)>, waiting: seq<Waiting>, issued: seq<nat>, task: nat, n: nat)
    requires AdvancedOk(advanced, waiting, issued) && task in issued && n < |issued|
    requires forall i | 0 <= i < |advanced| :: advanced[i].0 != task
    requires forall j | 0 <= j < |waiting| :: waiting[j].task != task
    ensures AdvancedOk(advanced + [(task, n)], waiting, issued)
  {
  }

  // --------------------------------------------------------------------- runs

  ghost predicate Legal(s: State, es: seq<Event>)
    decreases |es|
  {
    es == [] || (Enabled(s, es[0]) && Legal(Step(s, es[0]), es[1..]))
  }

  ghost function Run(s: State, es: seq<Event>): State
    requires Legal(s, es)
    decreases |es|
  {
    if es == [] then s else Run(Step(s, es[0]), es[1..])
  }

  lemma {:induction false} InvRun(s: State, es: seq<Event>)
    requires Inv(s) && Legal(s, es)
    ensures Inv(Run(s, es))
    decreases |es|
  {
    if es != [] {
      InvStep(s, es[0]);
      InvRun(Step(s, es[0]), es[1..]);
    }
  }

  // ------------------------------------------------------- the server's check

  /** The server rejects a request exactly when the numbers taken before it and
      never registered do not make up whole periods. */
  lemma {:induction false} RejectedExactly(s: State, how: Handling)
    requires Inv(s) && Enabled(s, Deliver(how)) && how != Ignore
    ensures Step(s, Deliver(how)).kicked <==> (s.toServer[0].id - s.lastId - 1) % PERIOD != 0
  {
    var p := s.toServer[0];
    SeqOfNext(s.lastId);
    SeqOfShared(s.lastId + 1, p.id);
    assert SeqOf(1) == FIRST;
  }

  /** Every number taken so far is registered or in the pipe, in one chain. */
  ghost predicate Unbroken(s: State) {
    && s.lastId + |s.toServer| + 1 == |s.issued|
    && forall i | 0 <= i < |s.toServer| :: s.toServer[i].id == s.lastId + 1 + i
  }

  /** A step that takes a number without sending it, or drops a request unseen. */
  predicate Breaks(e: Event) {
    (e.Issue? && !e.sent) || (e.Deliver? && e.how == Ignore)
  }

  lemma {:induction false} UnbrokenStep(s: State, e: Event)
    requires Inv(s) && Unbroken(s) && !s.kicked && Enabled(s, e) && !Breaks(e)
    ensures Unbroken(Step(s, e)) && !Step(s, e).kicked
  {
    if e.Deliver? {
      RejectedExactly(s, e.how);
    }
  }

  /** As long as every number taken is sent and every request is registered, the
      server never rejects one, wraparounds included. */
  lemma {:induction false} NeverRejected(s: State, es: seq<Event>)
    requires Inv(s) && Unbroken(s) && !s.kicked && Legal(s, es)
    requires forall i | 0 <= i < |es| :: !Breaks(es[i])
    ensures !Run(s, es).kicked && Unbroken(Run(s, es))
    decreases |es|
  {
    if es != [] {
      UnbrokenStep(s, es[0]);
      InvStep(s, es[0]);
      NeverRejected(Step(s, es[0]), es[1..]);
    }
  }

  /** Without that condition the promise fails: after one number taken and not sent,
      the next request gets the client kicked. */
  lemma {:induction false} OneFailedSendKicks(a: nat, b: nat, c: nat)
    requires a != b && a != c && b != c
    ensures var es := [Issue(b, false), Issue(c, true), Deliver(Add)];
            Legal(Init(a), es) && Run(Init(a), es).kicked
  {
    var e1, e2, e3 := Issue(b, false), Issue(c, true), Deliver(Add);
    var s0 := Init(a);
    var s1 := Step(s0, e1);
    var s2 := Step(s1, e2);
    Single(s2, e3);
    Cons(s1, e2, [e3]);
    Cons(s0, e1, [e2, e3]);
    assert [e1, e2, e3] == [e1] + ([e2] + [e3]);
  }

  lemma {:induction false} Single(s: State, e: Event)
    requires Enabled(s, e)
    ensures Legal(s, [e]) && Run(s, [e]) == Step(s, e)
  {
    assert [e][1..] == [];
  }

  lemma {:induction false} Cons(s: State, e: Event, es: seq<Event>)
    requires Enabled(s, e) && Legal(Step(s, e), es)
    ensures Legal(s, [e] + es) && Run(s, [e] + es) == Run(Step(s, e), es)
  {
    assert ([e] + es)[1..] == es;
  }

  lemma {:induction false} Concat(s: State, es: seq<Event>, fs: seq<Event>)
    requires Legal(s, es) && Legal(Run(s, es), fs)
    ensures Legal(s, es + fs) && Run(s, es + fs) == Run(Run(s, es), fs)
    decreases |es|
  {
    if es == [] {
      assert es + fs == fs;
    } else {
      Concat(Step(s, es[0]), es[1..], fs);
      assert es + fs == [es[0]] + (es[1..] + fs);
      Cons(s, es[0], es[1..] + fs);
    }
  }

  // ------------------------------------------------------------ the pipes

  /** The requests that a run sends, those that reach the server, the responses that
      it sends, and those that reach the client, each in the order of the run. */
  datatype Traffic = Traffic(asked: seq<Packet>, delivered: seq<Packet>, answered: seq<Packet>, received: seq<Packet>)

  ghost function Moved(s: State, e: Event): Traffic
    requires Enabled(s, e)
  {
    match e
    case Issue(_, sent) => Traffic(if sent then [Packet(s.next, |s.issued|)] else [], [], [], [])
    case Deliver(_) => Traffic([], [s.toServer[0]], [], [])
    case Respond(k) => Traffic([], [], [s.open[k]], [])
    case Receive => Traffic([], [], [], [s.toClient[0]])
    case End(_) => Traffic([], [], [], [])
  }

  ghost function AllMoved(s: State, es: seq<Event>): Traffic
    requires Legal(s, es)
    decreases |es|
  {
    if es == [] then Traffic([], [], [], [])
    else
      var a, b := Moved(s, es[0]), AllMoved(Step(s, es[0]), es[1..]);
      Traffic(a.asked + b.asked, a.delivered + b.delivered, a.answered + b.answered, a.received + b.received)
  }

  /** What comes out of the pipes, and then what is left in them, is what was in them
      and then what went in. */
  ghost predicate FirstInFirstOut(s: State, t: Traffic, s': State) {
    && s.toServer + t.asked == t.delivered + s'.toServer
    && s.toClient + t.answered == t.received + s'.toClient
  }

  lemma {:induction false} StepInOrder(s: State, e: Event)
    requires Enabled(s, e)
    ensures FirstInFirstOut(s, Moved(s, e), Step(s, e))
  {
  }

  lemma {:induction false} JoinPipes(p: seq<Packet>, a: seq<Packet>, b: seq<Packet>, q: seq<Packet>,
                                     a': seq<Packet>, b': seq<Packet>, r: seq<Packet>)
    requires p + a == b + q && q + a' == b' + r
    ensures p + (a + a') == b + b' + r
  {
    assert p + (a + a') == p + a + a' == b + (q + a');
  }

  /** Over every run, requests and responses arrive in the order they were sent. */
  lemma {:induction false} ArriveInOrder(s: State, es: seq<Event>)
    requires Legal(s, es)
    ensures FirstInFirstOut(s, AllMoved(s, es), Run(s, es))
    decreases |es|
  {
    if es != [] {
      var e, rest := es[0], es[1..];
      var s' := Step(s, e);
      var a, b, s'' := Moved(s, e), AllMoved(s', rest), Run(s', rest);
      StepInOrder(s, e);
      ArriveInOrder(s', rest);
      JoinPipes(s.toServer, a.asked, a.delivered, s'.toServer, b.asked, b.delivered, s''.toServer);
      JoinPipes(s.toClient, a.answered, a.received, s'.toClient, b.answered, b.received, s''.toClient);
    }
  }

  /** From the start of a connection: what arrived is a prefix of what was sent. */
  lemma {:induction false} ArrivedIsPrefix(task: nat, es: seq<Event>)
    requires Legal(Init(task), es)
    ensures var t := AllMoved(Init(task), es);
            t.delivered <= t.asked && t.received <= t.answered
  {
    ArriveInOrder(Init(task), es);
    var t := AllMoved(Init(task), es);
    assert [] + t.asked == t.asked && [] + t.answered == t.answered;
  }
}
