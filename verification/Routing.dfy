/** Which task a response advances, in one step and over whole runs. */
module Routing {
  import opened Wrappers
  import opened SequenceProtocol

  // ----------------------------------------------------------------- one response

  /** Requests m and n have one number: they are the same, or whole periods apart. */
  ghost predicate Shared(m: nat, n: nat) {
    m == n || (0 < m && 0 < n && (if m < n then n - m else m - n) % PERIOD == 0)
  }

  lemma {:induction false} SharedIs(m: nat, n: nat)
    ensures SeqOf(m) == SeqOf(n) <==> Shared(m, n)
  {
    if m <= n {
      SeqOfShared(m, n);
    } else {
      SeqOfShared(n, m);
    }
  }

  /** A response advances the issuer of the oldest waiting request that shares its
      number, and nobody when there is none. */
  lemma {:induction false} RoutedToOldest(s: State)
    requires Inv(s) && s.toClient != []
    ensures var n := s.toClient[0].id;
            var adv := Step(s, Receive).advanced;
            && ((forall i | 0 <= i < |s.waiting| :: !Shared(s.waiting[i].id, n)) ==> adv == s.advanced)
            && (forall i | 0 <= i < |s.waiting| && Shared(s.waiting[i].id, n) &&
                           (forall j | 0 <= j < |s.waiting| && Shared(s.waiting[j].id, n) ::
                              s.waiting[i].id <= s.waiting[j].id) ::
                  s.waiting[i].id < |s.issued| && adv == s.advanced + [(s.issued[s.waiting[i].id], n)])
  {
    var n := s.toClient[0].id;
    var k := FindSeq(s.waiting, s.toClient[0].num);
    forall i | 0 <= i < |s.waiting|
      ensures s.waiting[i].num == s.toClient[0].num <==> Shared(s.waiting[i].id, n)
      ensures i < k ==> !Shared(s.waiting[i].id, n)
      ensures k < i ==> s.waiting[k].id < s.waiting[i].id
    {
      assert EntryOk(s.waiting[i], s.issued, s.ended);
      SharedIs(s.waiting[i].id, n);
    }
    if k < |s.waiting| {
      assert EntryOk(s.waiting[k], s.issued, s.ended);
    }
  }

  /** The next response advances a task that did not issue its request. */
  ghost predicate Misroutes(s: State)
    requires s.toClient != [] && s.toClient[0].id < |s.issued|
  {
    var adv := Step(s, Receive).advanced;
    |adv| > |s.advanced| && adv[|s.advanced|].0 != s.issued[s.toClient[0].id]
  }

  /** Entry i takes the response to request n away from its issuer: it waits for
      another request under the same number, and an older one, or nobody waits for n. */
  ghost predicate Rival(s: State, i: nat, n: nat) {
    && i < |s.waiting| && s.waiting[i].id != n && Shared(s.waiting[i].id, n)
    && (s.waiting[i].id < n || forall j | 0 <= j < |s.waiting| :: s.waiting[j].id != n)
  }

  ghost predicate HasRival(s: State, n: nat) {
    exists i :: Rival(s, i, n)
  }

  /** A response goes astray exactly when its request has a rival. */
  lemma {:induction false} MisroutedExactly(s: State)
    requires Inv(s) && s.toClient != []
    ensures Misroutes(s) <==> HasRival(s, s.toClient[0].id)
  {
    var n := s.toClient[0].id;
    var k := FindSeq(s.waiting, s.toClient[0].num);
    forall i | 0 <= i < |s.waiting|
      ensures EntryOk(s.waiting[i], s.issued, s.ended)
      ensures s.waiting[i].num == s.toClient[0].num <==> Shared(s.waiting[i].id, n)
    {
      SharedIs(s.waiting[i].id, n);
    }
    if k < |s.waiting| && s.waiting[k].id != n {
      FirstIsRival(s, k, n);
    }
    if i: nat :| Rival(s, i, n) {
      assert k <= i && s.waiting[k].id <= s.waiting[i].id;
    }
  }

  lemma {:induction false} FirstIsRival(s: State, k: nat, n: nat)
    requires Inv(s) && k < |s.waiting| && s.waiting[k].id != n && Shared(s.waiting[k].id, n)
    requires forall j | 0 <= j < k :: !Shared(s.waiting[j].id, n)
    ensures Rival(s, k, n)
  {
    forall j | 0 <= j < |s.waiting| && s.waiting[j].id == n
      ensures s.waiting[k].id < n
    {
      assert k < j;
    }
  }

  /** Whom a response advances, exactly. */
  lemma {:induction false} RoutedExactly(s: State)
    requires Inv(s) && s.toClient != []
    ensures var n := s.toClient[0].id;
            Step(s, Receive).advanced == s.advanced + [(s.issued[n], n)] <==>
            (exists i | 0 <= i < |s.waiting| :: s.waiting[i].id == n) && !HasRival(s, n)
  {
    var n := s.toClient[0].id;
    var k := FindSeq(s.waiting, s.toClient[0].num);
    MisroutedExactly(s);
    if i :| 0 <= i < |s.waiting| && s.waiting[i].id == n {
      assert EntryOk(s.waiting[i], s.issued, s.ended) && k <= i;
      assert EntryOk(s.waiting[k], s.issued, s.ended);
    } else if k < |s.waiting| {
      assert EntryOk(s.waiting[k], s.issued, s.ended);
      assert s.waiting[k].id != n && s.waiting[k].task == s.issued[s.waiting[k].id];
    }
  }

  /** Fewer than a period of requests lies between request n and every entry. */
  ghost predicate Close(s: State, n: nat) {
    forall i | 0 <= i < |s.waiting| :: s.waiting[i].id < n + PERIOD && n < s.waiting[i].id + PERIOD
  }

  /** Then the response advances the issuer of its request if that still waits, and
      nobody otherwise. */
  lemma {:induction false} RoutedToIssuer(s: State)
    requires Inv(s) && s.toClient != [] && Close(s, s.toClient[0].id)
    ensures var n := s.toClient[0].id;
            Step(s, Receive).advanced ==
            if exists i | 0 <= i < |s.waiting| :: s.waiting[i].id == n then s.advanced + [(s.issued[n], n)]
            else s.advanced
  {
    var n := s.toClient[0].id;
    assert forall i | 0 <= i < |s.waiting| :: Shared(s.waiting[i].id, n) <==> s.waiting[i].id == n;
    RoutedExactly(s);
    RoutedToOldest(s);
  }

  /** With fewer than a period of requests so far, no request has a rival. */
  lemma {:induction false} NoRivalYet(s: State, n: nat)
    requires Inv(s) && n < |s.issued| <= PERIOD
    ensures !HasRival(s, n)
  {
    assert forall i | 0 <= i < |s.waiting| :: EntryOk(s.waiting[i], s.issued, s.ended);
  }

  /** In any case a response advances only a task that waits: one that has not ended
      and was not advanced before. */
  lemma {:induction false} AdvancedOnceAndAlive(s: State)
    requires Inv(s) && s.toClient != []
    ensures var adv := Step(s, Receive).advanced;
            || adv == s.advanced
            || (|adv| == |s.advanced| + 1 && s.advanced <= adv
                && adv[|s.advanced|].0 !in s.ended
                && forall i | 0 <= i < |s.advanced| :: s.advanced[i].0 != adv[|s.advanced|].0)
  {
    var k := FindSeq(s.waiting, s.toClient[0].num);
    if k < |s.waiting| {
      assert EntryOk(s.waiting[k], s.issued, s.ended);
    }
  }

  /** Entries less than a period apart wait for different numbers, and only the
      handshake waits for 0. */
  lemma {:induction false} WaitingDistinct(s: State, i: nat, j: nat)
    requires Inv(s) && i < j < |s.waiting| && s.waiting[j].id - s.waiting[i].id < PERIOD
    ensures s.waiting[i].num != s.waiting[j].num && s.waiting[j].num != 0
  {
    assert EntryOk(s.waiting[i], s.issued, s.ended) && EntryOk(s.waiting[j], s.issued, s.ended);
    SeqOfShared(s.waiting[i].id, s.waiting[j].id);
  }

  // ------------------------------------------------------------------- whole runs

  /** Every task that was advanced had issued the request of that response. */
  ghost predicate Routed(s: State) {
    forall i | 0 <= i < |s.advanced| ::
      s.advanced[i].1 < |s.issued| && s.advanced[i].0 == s.issued[s.advanced[i].1]
  }

  /** No response of the run meets a rival. */
  ghost predicate Unrivalled(s: State, es: seq<Event>)
    requires Legal(s, es)
    decreases |es|
  {
    es != [] ==>
      (es[0].Receive? ==> !HasRival(s, s.toClient[0].id)) && Unrivalled(Step(s, es[0]), es[1..])
  }

  lemma {:induction false} RoutedStep(s: State, e: Event)
    requires Inv(s) && Enabled(s, e)
    ensures Routed(Step(s, e)) <==> Routed(s) && (e.Receive? ==> !HasRival(s, s.toClient[0].id))
  {
    var s' := Step(s, e);
    if e.Receive? {
      MisroutedExactly(s);
      assert s.advanced <= s'.advanced;
      assert Routed(s') ==> Routed(s);
    } else {
      assert s'.advanced == s.advanced && s.issued <= s'.issued;
    }
  }

  /** Over every run, responses advance only the tasks that asked for them exactly when
      none of them meets a rival. */
  lemma {:induction false} RoutedRun(s: State, es: seq<Event>)
    requires Inv(s) && Legal(s, es)
    ensures Routed(Run(s, es)) <==> Routed(s) && Unrivalled(s, es)
    decreases |es|
  {
    if es != [] {
      RoutedStep(s, es[0]);
      InvStep(s, es[0]);
      RoutedRun(Step(s, es[0]), es[1..]);
    }
  }

  /** Runs with at most a period of requests, the handshake included, have no rivals. */
  lemma {:induction false} ShortRunsUnrivalled(s: State, es: seq<Event>)
    requires Inv(s) && Legal(s, es) && |Run(s, es).issued| <= PERIOD
    ensures |s.issued| <= PERIOD && Unrivalled(s, es)
    decreases |es|
  {
    if es != [] {
      InvStep(s, es[0]);
      ShortRunsUnrivalled(Step(s, es[0]), es[1..]);
      if es[0].Receive? {
        NoRivalYet(s, s.toClient[0].id);
      }
    }
  }

  /** From any moment of any run on, no task is advanced that has ended by then or
      was advanced before. */
  ghost predicate Quiet(s: State, advanced: seq<(nat, nat)>) {
    && s.advanced <= advanced
    && forall i | |s.advanced| <= i < |advanced| ::
         advanced[i].0 !in s.ended && forall j | 0 <= j < |s.advanced| :: s.advanced[j].0 != advanced[i].0
  }

  lemma {:induction false} QuietRun(s: State, es: seq<Event>)
    requires Inv(s) && Legal(s, es)
    ensures Quiet(s, Run(s, es).advanced)
    decreases |es|
  {
    if es != [] {
      var s' := Step(s, es[0]);
      InvStep(s, es[0]);
      QuietRun(s', es[1..]);
      QuietStep(s, es[0], Run(s, es).advanced);
    }
  }

  lemma {:induction false} QuietStep(s: State, e: Event, advanced: seq<(nat, nat)>)
    requires Inv(s) && Enabled(s, e) && Quiet(Step(s, e), advanced)
    ensures Quiet(s, advanced)
  {
    var s' := Step(s, e);
    assert s.advanced <= s'.advanced && s.ended <= s'.ended;
    if e.Receive? {
      AdvancedOnceAndAlive(s);
    }
  }

  /** What holds after every run from a new connection: the invariant; no rejection
      unless numbering was broken; no task advanced by a response to another's request
      exactly when no response met a rival, as in every run within a period; and, from
      any earlier moment on, none advanced that had ended or been advanced by then. */
  lemma {:induction false} EveryRun(task: nat, es: seq<Event>, n: nat)
    requires Legal(Init(task), es) && n <= |es|
    ensures var s := Run(Init(task), es);
            && Inv(s)
            && ((forall i | 0 <= i < |es| :: !Breaks(es[i])) ==> !s.kicked)
            && (Routed(s) <==> Unrivalled(Init(task), es))
            && (|s.issued| <= PERIOD ==> Routed(s))
    ensures Legal(Init(task), es[..n]) && Quiet(Run(Init(task), es[..n]), Run(Init(task), es).advanced)
  {
    var s := Init(task);
    InvInit(task);
    InvRun(s, es);
    if forall i | 0 <= i < |es| :: !Breaks(es[i]) {
      NeverRejected(s, es);
    }
    RoutedRun(s, es);
    if |Run(s, es).issued| <= PERIOD {
      ShortRunsUnrivalled(s, es);
    }
    Split(s, es, n);
    InvRun(s, es[..n]);
    QuietRun(Run(s, es[..n]), es[n..]);
  }

  lemma {:induction false} Split(s: State, es: seq<Event>, n: nat)
    requires Legal(s, es) && n <= |es|
    ensures Legal(s, es[..n]) && Legal(Run(s, es[..n]), es[n..])
    ensures Run(s, es) == Run(Run(s, es[..n]), es[n..])
    decreases |es|
  {
    if n == 0 {
      assert es[..0] == [] && es[0..] == es;
    } else {
      Split(Step(s, es[0]), es[1..], n - 1);
      assert es[..n] == [es[0]] + es[1..][..n - 1] && es[n..] == es[1..][n - 1..];
      Cons(s, es[0], es[1..][..n - 1]);
    }
  }

  // --------------------------------------------- a full period makes a mistake

  /** A connection between two requests: nothing is under way but the response to
      request 1, whose task has ended. */
  ghost predicate Resting(s: State) {
    && |s.issued| >= 2 && s.next == SeqOf(|s.issued|) && s.lastId == |s.issued| - 1
    && s.last == Some(SeqOf(s.lastId)) && !s.kicked
    && s.waiting == [] && s.toServer == [] && s.toClient == [] && s.open == [Packet(2, 1)]
    && s.issued[1] == 1 && forall t | t in s.issued :: t < |s.issued|
  }

  /** Request 1 is registered and its task ends before the response is sent. */
  function Opening(): seq<Event> {
    [Respond(0), Receive] + ([Issue(1, true), Deliver(Add)] + [End(1)])
  }

  /** One request, answered and received, with no number lost. */
  function Served(task: nat): seq<Event> {
    [Issue(task, true), Deliver(Add)] + [Respond(1), Receive]
  }

  function ServedAll(k: nat, task: nat): seq<Event> {
    if k == 0 then [] else Served(task) + ServedAll(k - 1, task + 1)
  }

  lemma {:induction false} Pair(s: State, e: Event, f: Event)
    requires Enabled(s, e) && Enabled(Step(s, e), f)
    ensures Legal(s, [e, f]) && Run(s, [e, f]) == Step(Step(s, e), f)
  {
    Single(Step(s, e), f);
    Cons(s, e, [f]);
    assert [e, f] == [e] + [f];
  }

  const GREETED: State := State(2, [], [0], [], None, 0, false, [], [], [(0, 0)], {})

  /** The handshake is answered. */
  lemma {:induction false} GreetingRuns()
    ensures Legal(Init(0), [Respond(0), Receive]) && Run(Init(0), [Respond(0), Receive]) == GREETED
  {
    Pair(Init(0), Respond(0), Receive);
  }

  lemma {:induction false} AbandonRuns()
    ensures Legal(GREETED, [Issue(1, true), Deliver(Add)] + [End(1)])
    ensures var s := Run(GREETED, [Issue(1, true), Deliver(Add)] + [End(1)]);
            Resting(s) && |s.issued| == 2
  {
    Pair(GREETED, Issue(1, true), Deliver(Add));
    var s := Step(Step(GREETED, Issue(1, true)), Deliver(Add));
    assert s == State(4, [Waiting(2, 1, 1)], [0, 1], [], Some(2), 1, false, [Packet(2, 1)], [], [(0, 0)], {});
    Single(s, End(1));
    Concat(GREETED, [Issue(1, true), Deliver(Add)], [End(1)]);
  }

  lemma {:induction false} OpeningRuns()
    ensures Legal(Init(0), Opening()) && Resting(Run(Init(0), Opening()))
    ensures |Run(Init(0), Opening()).issued| == 2
  {
    GreetingRuns();
    AbandonRuns();
    Concat(Init(0), [Respond(0), Receive], [Issue(1, true), Deliver(Add)] + [End(1)]);
  }

  /** A resting connection with one more request, registered by the server. */
  function Registered(s: State): State {
    var n := |s.issued|;
    s.(next := SeqOf(n + 1), issued := s.issued + [n], waiting := [Waiting(SeqOf(n), n, n)],
       last := Some(SeqOf(n)), lastId := n, open := [Packet(2, 1), Packet(SeqOf(n), n)])
  }

  lemma {:induction false} RegisterRuns(s: State)
    requires Resting(s)
    ensures var es := [Issue(|s.issued|, true), Deliver(Add)];
            Legal(s, es) && Run(s, es) == Registered(s)
  {
    IssueStep(s);
    DeliverStep(s);
    Pair(s, Issue(|s.issued|, true), Deliver(Add));
  }

  /** A resting connection with one more request on its way. */
  function Issued(s: State): State {
    var n := |s.issued|;
    s.(next := SeqOf(n + 1), issued := s.issued + [n], waiting := [Waiting(SeqOf(n), n, n)],
       toServer := [Packet(SeqOf(n), n)])
  }

  lemma {:induction false} IssueStep(s: State)
    requires Resting(s)
    ensures Enabled(s, Issue(|s.issued|, true)) && Step(s, Issue(|s.issued|, true)) == Issued(s)
  {
    SeqOfNext(|s.issued|);
  }

  lemma {:induction false} DeliverStep(s: State)
    requires Resting(s)
    ensures Enabled(Issued(s), Deliver(Add)) && Step(Issued(s), Deliver(Add)) == Registered(s)
  {
    SeqOfNext(|s.issued| - 1);
  }

  lemma {:induction false} AnswerRuns(s: State)
    requires Resting(s)
    ensures var es := [Respond(1), Receive];
            && Legal(Registered(s), es)
            && Run(Registered(s), es).issued == s.issued + [|s.issued|] && Resting(Run(Registered(s), es))
  {
    var n, s2 := |s.issued|, Registered(s);
    Pair(s2, Respond(1), Receive);
    var s4 := Step(Step(s2, Respond(1)), Receive);
    assert s4 == s2.(waiting := [], open := [Packet(2, 1)], advanced := s.advanced + [(n, n)]);
  }

  lemma {:induction false} ServedRuns(s: State)
    requires Resting(s)
    ensures Legal(s, Served(|s.issued|))
    ensures var s' := Run(s, Served(|s.issued|));
            Resting(s') && s'.issued == s.issued + [|s.issued|]
  {
    RegisterRuns(s);
    AnswerRuns(s);
    Concat(s, [Issue(|s.issued|, true), Deliver(Add)], [Respond(1), Receive]);
  }

  lemma {:induction false} ServedAllRuns(s: State, k: nat)
    requires Resting(s)
    ensures Legal(s, ServedAll(k, |s.issued|))
    ensures var s' := Run(s, ServedAll(k, |s.issued|));
            Resting(s') && |s'.issued| == |s.issued| + k
    decreases k
  {
    if k > 0 {
      var n := |s.issued|;
      ServedRuns(s);
      var s' := Run(s, Served(n));
      ServedAllRuns(s', k - 1);
      Concat(s, Served(n), ServedAll(k - 1, n + 1));
    }
  }

  /** A new request takes the number of request 1, and that one's response arrives. */
  function Closing(task: nat): seq<Event> {
    [Issue(task, true)] + [Respond(0), Receive]
  }

  lemma {:induction false} ClosingRuns(s: State)
    requires Resting(s) && |s.issued| == PERIOD + 1
    ensures var n := PERIOD + 1;
            && Legal(s, Closing(n))
            && Run(s, Closing(n)).issued == s.issued + [n]
            && Run(s, Closing(n)).advanced == s.advanced + [(n, 1)]
  {
    var n := PERIOD + 1;
    SeqOfShared(1, n);
    Single(s, Issue(n, true));
    var s1 := Step(s, Issue(n, true));
    assert s1.waiting == [Waiting(2, n, n)] && s1.open == [Packet(2, 1)];
    Pair(s1, Respond(0), Receive);
    Concat(s, [Issue(n, true)], [Respond(0), Receive]);
  }

  /** When a full period of requests passes while a response is under way, and its task
      has ended meanwhile, the response advances a task that never asked for it,
      although every number was sent, registered and answered. */
  lemma {:induction false} PeriodLaterMisroutes() returns (es: seq<Event>)
    ensures Legal(Init(0), es) && forall e | e in es :: !Breaks(e)
    ensures var s := Run(Init(0), es);
            && |s.issued| == PERIOD + 2 && s.issued[1] == 1 && 0 < |s.advanced|
            && s.advanced[|s.advanced| - 1] == (PERIOD + 1, 1)
  {
    OpeningRuns();
    var s1 := Run(Init(0), Opening());
    var k := PERIOD - 1;
    ServedAllRuns(s1, k);
    var s2 := Run(s1, ServedAll(k, 2));
    ClosingRuns(s2);
    Concat(s1, ServedAll(k, 2), Closing(PERIOD + 1));
    Concat(Init(0), Opening(), ServedAll(k, 2) + Closing(PERIOD + 1));
    es := Opening() + (ServedAll(k, 2) + Closing(PERIOD + 1));
    NothingBreaks(k);
  }

  lemma {:induction false} NoBreaks(k: nat, task: nat)
    ensures forall e | e in ServedAll(k, task) :: !Breaks(e)
    decreases k
  {
    if k > 0 {
      NoBreaks(k - 1, task + 1);
    }
  }

  lemma {:induction false} NothingBreaks(k: nat)
    ensures forall e | e in Opening() + (ServedAll(k, 2) + Closing(PERIOD + 1)) :: !Breaks(e)
  {
    NoBreaks(k, 2);
  }
}
