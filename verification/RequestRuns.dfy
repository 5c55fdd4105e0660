/** Runs of calls on one request, by a user with any number of value builders. */
module RequestRuns {
  import opened Wrappers
  import opened Builders
  import opened RequestLifecycle

  /** The user's calls.  `wire` and `server` are what the writer of the wire format
      and the server report, should the call get that far. */
  datatype Move =
    | Start(who: nat)
    | Fill(who: nat, script: Script)
    | Reset(who: nat)
    | Send(who: nat, wire: Error, server: Error)
    | Reply(arg: Arg, wire: Error, server: Error)

  // ----------------------------------------------------------------- the life

  datatype Life = Asked | Held | Answered | Lost

  /** The builder that writes the response's value, which is ready until its script
      has run. */
  datatype Pen = NoPen | Pen(who: nat, value: Arg, ready: bool)

  /** The life so far, the values handed over, and the last call's result. */
  datatype Log = Log(life: Life, pen: Pen, sent: seq<Arg>, last: Error)

  const NEW: Log := Log(Asked, NoPen, [], OK)

  function Refused(l: Log): Log {
    l.(last := EINVAL)
  }

  /** A value is handed over, if the writer of the wire format takes it. */
  function Handed(l: Log, v: Arg, wire: Error, server: Error): Log {
    if wire != OK then Log(Lost, NoPen, l.sent, wire)
    else Log(if server == OK then Answered else Lost, NoPen, l.sent + [v], server)
  }

  function After(l: Log, m: Move): Log {
    match m
    case Start(i) =>
      if l.life.Asked? then Log(Held, Pen(i, Zeroed(NoKind), true), l.sent, OK) else Refused(l)
    case Fill(i, s) =>
      if l.pen.NoPen? || l.pen.who != i || !l.pen.ready then Refused(l)
      else
        var r := Built(KindOf(l.pen.value), s);
        l.(pen := Pen(i, if r.Ok? then r.value else l.pen.value, r.Err? && s.Put?), last := ErrorOf(r))
    case Reset(i) =>
      if l.life.Held? && l.pen.Pen? && l.pen.who == i then Log(Asked, NoPen, l.sent, OK) else Refused(l)
    case Send(i, wire, server) =>
      if !l.life.Held? || l.pen.NoPen? then Refused(l)
      else if l.pen.who != i then Refused(l).(life := Lost)
      else Handed(l, l.pen.value, wire, server)
    case Reply(v, wire, server) =>
      if !l.life.Asked? then Refused(l)
      else if KindOf(v) == NoKind then l.(last := OK)
      else Handed(l, v, wire, server)
  }

  function AfterAll(moves: seq<Move>): Log {
    if moves == [] then NEW else After(AfterAll(moves[..|moves| - 1]), moves[|moves| - 1])
  }

  /** Over every run, at most one response is handed over: none while the request can
      still be answered, and one when it counts as answered. */
  lemma {:induction false} AnsweredOnce(moves: seq<Move>)
    ensures var l := AfterAll(moves);
            && |l.sent| <= 1
            && (l.life.Asked? || l.life.Held? ==> l.sent == [])
            && (l.life.Answered? ==> |l.sent| == 1)
  {
    if moves != [] {
      AnsweredOnce(moves[..|moves| - 1]);
    }
  }

  /** Once answered or lost, nothing more happens to a request. */
  lemma {:induction false} NothingAfterTheEnd(moves: seq<Move>, k: nat)
    requires k <= |moves| && (AfterAll(moves[..k]).life.Answered? || AfterAll(moves[..k]).life.Lost?)
    ensures AfterAll(moves).life == AfterAll(moves[..k]).life && AfterAll(moves).sent == AfterAll(moves[..k]).sent
    ensures k < |moves| && !moves[|moves| - 1].Fill? ==> AfterAll(moves).last == EINVAL
    decreases |moves|
  {
    if k == |moves| {
      assert moves[..k] == moves;
    } else {
      var n := |moves| - 1;
      assert moves[..n][..k] == moves[..k];
      NothingAfterTheEnd(moves[..n], k);
      NothingNext(AfterAll(moves[..n]), moves[n]);
    }
  }

  lemma {:induction false} NothingNext(l: Log, m: Move)
    requires l.life.Answered? || l.life.Lost?
    ensures After(l, m).life == l.life && After(l, m).sent == l.sent && (!m.Fill? ==> After(l, m).last == EINVAL)
  {
  }

  // -------------------------------------------------------------- the real request

  ghost predicate InRange(m: Move, n: nat) {
    m.Reply? || m.who < n
  }

  /** The request and the user's builders are where the log says. */
  ghost predicate Follows(r: Request, bs: seq<ValueBuilder>, l: Log)
    reads r, r.resp, r.resp.root, bs
  {
    && r.InStep() && |r.outbox| == |l.sent|
    && (forall i | 0 <= i < |l.sent| :: r.outbox[i] == r.Answer(l.sent[i]))
    && r.status == StatusOf(l.life) && (l.life.Asked? ==> l.pen.NoPen?) && (l.life.Held? ==> l.pen.Pen?)
    && (l.pen.Pen? ==>
          && l.pen.who < |bs| && r.Lends(bs[l.pen.who]) && r.resp.root[0] == l.pen.value
          && (l.pen.ready <==> bs[l.pen.who].state == Pending)
          && (l.pen.ready ==> bs[l.pen.who].root == r.resp.root && bs[l.pen.who].at == 0))
    && (forall i | 0 <= i < |bs| && (l.pen.NoPen? || i != l.pen.who) :: bs[i].state == Idle)
  }

  function StatusOf(life: Life): Status {
    match life
    case Asked => Awaiting
    case Held => Constructing
    case Answered => Completed
    case Lost => Aborted
  }

  method DoStart(r: Request, bs: seq<ValueBuilder>, i: nat, ghost l: Log) returns (err: Error)
    requires Follows(r, bs, l) && i < |bs| && Distinct(bs)
    modifies r, r.resp, bs[i]
    ensures Follows(r, bs, After(l, Start(i))) && err == After(l, Start(i)).last
    ensures r.resp.root == old(r.resp.root) || fresh(r.resp.root)
  {
    err := r.Start(bs[i]);
  }

  ghost predicate Distinct(bs: seq<ValueBuilder>) {
    forall i, j | 0 <= i < j < |bs| :: bs[i] != bs[j]
  }

  method DoFill(r: Request, bs: seq<ValueBuilder>, i: nat, s: Script, ghost l: Log) returns (err: Error)
    requires Follows(r, bs, l) && i < |bs| && Distinct(bs)
    modifies bs[i], r.resp.root
    ensures Follows(r, bs, After(l, Fill(i, s))) && err == After(l, Fill(i, s)).last
  {
    if bs[i].state != Pending {
      return EINVAL;
    }
    err := Build(bs[i], s);
  }

  method DoReset(r: Request, bs: seq<ValueBuilder>, i: nat, ghost l: Log) returns (err: Error)
    requires Follows(r, bs, l) && i < |bs| && Distinct(bs)
    modifies r, r.resp, bs[i]
    ensures Follows(r, bs, After(l, Reset(i))) && err == After(l, Reset(i)).last
    ensures r.resp.root == old(r.resp.root)
  {
    err := r.Reset(bs[i]);
  }

  method DoSend(r: Request, bs: seq<ValueBuilder>, i: nat, wire: Error, server: Error, ghost l: Log) returns (err: Error)
    requires Follows(r, bs, l) && i < |bs| && Distinct(bs)
    modifies r, r.resp, bs[i]
    ensures Follows(r, bs, After(l, Send(i, wire, server))) && err == After(l, Send(i, wire, server)).last
    ensures r.resp.root == old(r.resp.root) || r.resp.root == null
  {
    assert l.pen.Pen? && l.pen.who != i ==> bs[i] != bs[l.pen.who];
    err := r.Send(bs[i], wire, server);
  }

  method DoReply(r: Request, bs: seq<ValueBuilder>, v: Arg, wire: Error, server: Error, ghost l: Log) returns (err: Error)
    requires Follows(r, bs, l)
    modifies r, r.resp
    ensures Follows(r, bs, After(l, Reply(v, wire, server))) && err == After(l, Reply(v, wire, server)).last
    ensures r.resp.root == null || r.resp.root == old(r.resp.root) || fresh(r.resp.root)
  {
    err := r.Reply(v, wire, server);
  }

  /** One call, answered as the log says. */
  method Do(r: Request, bs: seq<ValueBuilder>, m: Move, ghost l: Log) returns (err: Error)
    requires Follows(r, bs, l) && Distinct(bs) && InRange(m, |bs|)
    modifies r, r.resp, r.resp.root, bs
    ensures Follows(r, bs, After(l, m)) && err == After(l, m).last
    ensures r.resp.root == null || r.resp.root == old(r.resp.root) || fresh(r.resp.root)
  {
    match m {
      case Start(i) => err := DoStart(r, bs, i, l);
      case Fill(i, s) => err := DoFill(r, bs, i, s, l);
      case Reset(i) => err := DoReset(r, bs, i, l);
      case Send(i, wire, server) => err := DoSend(r, bs, i, wire, server, l);
      case Reply(v, wire, server) => err := DoReply(r, bs, v, wire, server, l);
    }
  }

  /** Any run of calls on a new request: each is answered as the log says, the request
      stays in step with its message builder, and at most one response is handed
      over, under the request's own number, path and selector. */
  method Run(num: nat, path: string, selector: Selector, bs: seq<ValueBuilder>, moves: seq<Move>)
    returns (r: Request, outs: seq<Error>)
    requires Distinct(bs) && forall i | 0 <= i < |bs| :: bs[i].Cleared()
    requires forall m | m in moves :: InRange(m, |bs|)
    modifies bs
    ensures r.InStep() && r.status == StatusOf(AfterAll(moves).life)
    ensures |outs| == |moves| && forall k | 0 <= k < |moves| :: outs[k] == AfterAll(moves[..k + 1]).last
    ensures |r.outbox| == |AfterAll(moves).sent| <= 1
    ensures forall p | p in r.outbox :: p == Packet(Response, num, path, selector, Some(AfterAll(moves).sent[0]))
  {
    r := new Request(num, path, selector);
    outs := [];
    var i := 0;
    while i < |moves|
      invariant 0 <= i <= |moves| && |outs| == i
      invariant fresh(r) && fresh(r.resp) && (r.resp.root != null ==> fresh(r.resp.root))
      invariant r.num == num && r.realPath == path && r.selector == selector
      invariant Follows(r, bs, AfterAll(moves[..i]))
      invariant forall k | 0 <= k < i :: outs[k] == AfterAll(moves[..k + 1]).last
    {
      assert moves[..i + 1][..i] == moves[..i];
      var err := Do(r, bs, moves[i], AfterAll(moves[..i]));
      outs := outs + [err];
      i := i + 1;
    }
    assert moves[..i] == moves;
    AnsweredOnce(moves);
  }

  /** Starting a response, running a script and sending it hands over the value that
      the script spells out, exactly when the script is well-formed. */
  lemma {:induction false} ScriptIsDelivered(s: Script)
    ensures var l := AfterAll([Start(0), Fill(0, s), Send(0, OK, OK)]);
            WellFormed(NoKind, s) <==>
            AfterAll([Start(0), Fill(0, s)]).last == OK && l.life.Answered? && l.sent == [Meant(s)]
  {
    var moves := [Start(0), Fill(0, s), Send(0, OK, OK)];
    assert moves[..2] == [Start(0), Fill(0, s)] && moves[..2][..1] == [Start(0)] && [Start(0)][..0] == [];
    var l1 := AfterAll([Start(0)]);
    assert l1 == After(NEW, Start(0)) == Log(Held, Pen(0, Zeroed(NoKind), true), [], OK);
    var l2 := AfterAll([Start(0), Fill(0, s)]);
    assert l2 == After(l1, Fill(0, s)) && AfterAll(moves) == After(l2, Send(0, OK, OK));
    assert AfterAll(moves).sent == [l2.pen.value];
    BuiltIsMeant(NoKind, s);
  }

  /** Two replies to a waiting request, which the writer and the server take.  The
      first is handed over exactly when its value has a type; otherwise it says OK all
      the same, the request still waits, and the second is handed over if it has one. */
  method ReplyExactly(r: Request, v: Arg, u: Arg) returns (first: Error, second: Error)
    requires r.InStep() && r.status == Awaiting
    modifies r, r.resp
    ensures r.InStep() && first == OK
    ensures KindOf(v) != NoKind ==> r.outbox == [r.Answer(v)] && r.status == Completed && second == EINVAL
    ensures KindOf(v) == NoKind && KindOf(u) != NoKind ==>
              r.outbox == [r.Answer(u)] && r.status == Completed && second == OK
    ensures KindOf(v) == NoKind && KindOf(u) == NoKind ==> r.outbox == [] && r.status == Awaiting && second == OK
  {
    first := r.Reply(v, OK, OK);
    assert KindOf(v) == NoKind ==> r.outbox == [] && r.status == Awaiting;
    second := r.Reply(u, OK, OK);
  }
}
