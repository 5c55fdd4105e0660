/** A request's response: the message builder of builders.c inside the request of
    request.c, each with a state of its own. */
module RequestLifecycle {
  import opened Wrappers
  import opened Builders

  datatype Op = InvalidOp | Get | SetOp | Exec | Signal | Response

  /** The selector of an element: its trait and its name. */
  datatype Selector = Selector(traitName: string, elem: string)

  /** A message as it goes to the writer of the wire format. */
  datatype Packet = Packet(op: Op, num: nat, path: string, selector: Selector, value: Option<Arg>)

  // ------------------------------------------------------------ message builder

  datatype Phase = Unused | Open | Lent

  /** struct dicey_message_builder. */
  class MessageBuilder {
    var phase: Phase
    var op: Op
    var num: nat
    var path: Option<string>
    var selector: Option<Selector>
    var root: array?<Arg>
    var lentTo: ValueBuilder?

    constructor ()
      ensures Empty()
    {
      phase, op, num, path, selector, root, lentTo := Unused, InvalidOp, 0, None, None, null, null;
    }

    predicate Empty()
      reads this
    {
      phase == Unused && op == InvalidOp && num == 0 && path == None && selector == None && root == null && lentTo == null
    }

    /** dicey_message_builder_discard. */
    method Discard()
      modifies this
      ensures Empty()
    {
      phase, op, num, path, selector, root, lentTo := Unused, InvalidOp, 0, None, None, null, null;
    }

    /** dicey_message_builder_begin. */
    method Begin(kind: Op) returns (err: Error)
      modifies this
      ensures err == if old(phase) == Unused then OK else EINVAL
      ensures err == OK ==> Heading(kind, 0, None, None) && phase == Open && root == null && lentTo == null
      ensures err != OK ==> unchanged(this)
    {
      if phase != Unused {
        return EINVAL;
      }
      phase, op, num, path, selector, root, lentTo := Open, kind, 0, None, None, null, null;
      err := OK;
    }

    predicate Heading(kind: Op, n: nat, p: Option<string>, s: Option<Selector>)
      reads this
    {
      op == kind && num == n && path == p && selector == s
    }

    /** dicey_message_builder_set_seq, _set_path and _set_selector. */
    method SetHeading(n: nat, p: string, s: Selector) returns (err: Error)
      modifies this`num, this`path, this`selector
      ensures err == if phase == Open then OK else EINVAL
      ensures if err == OK then Heading(op, n, Some(p), Some(s)) else Heading(op, old(num), old(path), old(selector))
    {
      if phase != Open {
        return EINVAL;
      }
      num, path, selector := n, Some(p), Some(s);
      err := OK;
    }

    /** dicey_message_builder_value_start. */
    method ValueStart(value: ValueBuilder) returns (err: Error)
      modifies this`phase, this`root, this`lentTo, value
      ensures err == if old(phase) == Open then OK else EINVAL
      ensures err == OK ==> phase == Lent && lentTo == value && root != null && fresh(root) && root.Length == 1 &&
                            root[0] == Zeroed(NoKind) && value.state == Pending && value.root == root && value.at == 0
      ensures err != OK ==> unchanged(this) && unchanged(value)
    {
      if phase != Open {
        return EINVAL;
      }
      phase := Lent;
      root := new Arg[1](_ => Zeroed(NoKind));
      lentTo := value;
      value.Borrow(root, 0);
      err := OK;
    }

    /** dicey_message_builder_value_end. */
    method ValueEnd(value: ValueBuilder) returns (err: Error)
      modifies this`phase, this`lentTo, value
      ensures err == if old(phase) == Lent && value == old(lentTo) then OK else EINVAL
      ensures err == OK ==> phase == Open && lentTo == null && value.Cleared()
      ensures err != OK ==> unchanged(this) && unchanged(value)
    {
      if phase != Lent || value != lentTo {
        return EINVAL;
      }
      value.Clear();
      phase, lentTo := Open, null;
      err := OK;
    }

    /** msgbuilder_is_complete: all but a get have a value. */
    predicate Complete()
      reads this
    {
      phase == Open && path.Some? && selector.Some? && op != InvalidOp && (op == Get <==> root == null)
    }

    /** dicey_message_builder_build; `wire` is what the writer of the wire format
        reports.  A get has no value, every other message has one. */
    method Finish(wire: Error) returns (err: Error, packet: Option<Packet>)
      requires root != null ==> root.Length == 1
      modifies this
      ensures err == if old(phase) != Open then EINVAL
                     else if old(path.Some? && selector.Some?) &&
                             ((old(op).Get? && old(root) == null) ||
                              (old(op) in {SetOp, Exec, Signal, Response} && old(root) != null)) then wire
                     else EAGAIN
      ensures err != OK ==> unchanged(this) && packet == None
      ensures err == OK ==> Empty() && old(path).Some? && old(selector).Some? &&
                            packet == Some(Packet(old(op), old(num), old(path).value, old(selector).value,
                                                  if old(root) == null then None else Some(old(root[0]))))
    {
      if phase != Open {
        return EINVAL, None;
      }
      if !Complete() {
        return EAGAIN, None;
      }
      if wire != OK {
        return wire, None;
      }
      packet := Some(Packet(op, num, path.value, selector.value, if root == null then None else Some(root[0])));
      Discard();
      err := OK;
    }
  }

  /** A get message from its start to its packet. */
  method GetMessage(n: nat, path: string, s: Selector, wire: Error) returns (err: Error, packet: Option<Packet>)
    ensures err == wire
    ensures packet == if wire == OK then Some(Packet(Get, n, path, s, None)) else None
  {
    var m := new MessageBuilder();
    err := m.Begin(Get);
    err := m.SetHeading(n, path, s);
    err, packet := m.Finish(wire);
  }

  /** Any message with a value, which a script builds: a get is never complete, and the
      others carry what the script spells out exactly when it is well-formed. */
  method ValueMessage(op: Op, n: nat, path: string, s: Selector, script: Script, wire: Error)
    returns (err: Error, packet: Option<Packet>)
    ensures op in {SetOp, Exec, Signal, Response} && wire == OK ==>
              (WellFormed(NoKind, script) <==> packet == Some(Packet(op, n, path, s, Some(Meant(script)))))
    ensures err == if Built(NoKind, script).Err? then Built(NoKind, script).error
                   else if op in {SetOp, Exec, Signal, Response} then wire else EAGAIN
    ensures packet != None ==> err == OK && op in {SetOp, Exec, Signal, Response}
  {
    packet := None;
    var m := new MessageBuilder();
    var b := new ValueBuilder();
    err := m.Begin(op);
    err := m.SetHeading(n, path, s);
    err := m.ValueStart(b);
    err := Build(b, script);
    BuiltIsMeant(NoKind, script);
    if err != OK {
      return;
    }
    err := m.ValueEnd(b);
    if err != OK {
      return;
    }
    err, packet := m.Finish(wire);
  }

  // -------------------------------------------------------------------- request

  datatype Status = Awaiting | Constructing | Completed | Aborted

  /** struct dicey_request; `outbox` is what was handed to the server to send. */
  class Request {
    var status: Status
    const num: nat
    const realPath: string
    const selector: Selector
    const resp: MessageBuilder
    var outbox: seq<Packet>

    /** The response with a value. */
    function Answer(v: Arg): Packet {
      Packet(Response, num, realPath, selector, Some(v))
    }

    /** The request and its message builder are in step, and what was handed over is
        this request's own response, at most once. */
    ghost predicate InStep()
      reads this, resp
    {
      && (match status
          case Awaiting => resp.phase == Open && resp.lentTo == null && outbox == []
          case Constructing => resp.phase == Lent && resp.lentTo != null && resp.root != null && outbox == []
          case Completed => resp.Empty() && |outbox| == 1
          case Aborted => |outbox| <= 1)
      && (status in {Awaiting, Constructing} ==> resp.Heading(Response, num, Some(realPath), Some(selector)))
      && (resp.root != null ==> resp.root.Length == 1)
      && forall p | p in outbox :: p.value.Some? && p == Answer(p.value.value)
    }

    /** The request that dicey_server_request_for sets up. */
    constructor (n: nat, path: string, s: Selector)
      ensures InStep() && status == Awaiting && num == n && realPath == path && selector == s && fresh(resp)
      ensures resp.root == null
    {
      var builder := new MessageBuilder();
      var err := builder.Begin(Response);
      err := builder.SetHeading(n, path, s);
      num, realPath, selector, resp, status, outbox := n, path, s, builder, Awaiting, [];
    }

    /** dicey_request_response_start. */
    method Start(b: ValueBuilder) returns (err: Error)
      requires InStep()
      modifies this`status, resp, b
      ensures InStep()
      ensures err == if old(status) == Awaiting && old(b.state) == Idle then OK else EINVAL
      ensures err == OK ==> status == Constructing && Lends(b) && fresh(resp.root) && resp.root[0] == Zeroed(NoKind) &&
                            b.state == Pending && b.root == resp.root && b.at == 0
      ensures err != OK ==> unchanged(this) && unchanged(resp) && unchanged(b)
    {
      if status != Awaiting || b.state != Idle {
        return EINVAL;
      }
      err := resp.ValueStart(b);
      status := Constructing;
    }

    /** Builder b writes the response's value. */
    ghost predicate Lends(b: ValueBuilder)
      reads resp
    {
      resp.phase == Lent && resp.lentTo == b && resp.root != null && resp.root.Length == 1
    }

    /** dicey_request_response_reset. */
    method Reset(b: ValueBuilder) returns (err: Error)
      requires InStep()
      modifies this`status, resp`phase, resp`lentTo, b
      ensures InStep()
      ensures err == if old(status) == Constructing && old(resp.lentTo) == b then OK else EINVAL
      ensures err == OK ==> status == Awaiting && b.Cleared()
      ensures err != OK ==> unchanged(this) && unchanged(resp) && unchanged(b)
    {
      if status != Constructing {
        return EINVAL;
      }
      err := resp.ValueEnd(b);
      if err == OK {
        status := Awaiting;
      }
    }

    /** finalize_request; `wire` and `server` are what the writer of the wire format
        and the server report. */
    method Send(b: ValueBuilder, wire: Error, server: Error) returns (err: Error)
      requires InStep()
      modifies this, resp, b
      ensures InStep()
      ensures err == if old(status) != Constructing || old(resp.lentTo) != b then EINVAL
                     else if wire != OK then wire else server
      ensures status == if old(status) != Constructing then old(status) else if err == OK then Completed else Aborted
      ensures outbox == old(outbox) +
                        if old(status) == Constructing && old(resp.lentTo) == b && wire == OK
                        then [Answer(old(resp.root[0]))] else []
      ensures old(status) == Constructing && old(resp.lentTo) == b ==> b.Cleared()
      ensures resp.root == old(resp.root) || resp.root == null
      ensures old(status) != Constructing || old(resp.lentTo) != b ==> unchanged(b) && unchanged(resp)
    {
      if status != Constructing {
        return EINVAL;
      }
      err := resp.ValueEnd(b);
      if err != OK {
        status := Aborted;
        return;
      }
      var packet;
      err, packet := resp.Finish(wire);
      if err != OK {
        status := Aborted;
        return;
      }
      outbox := outbox + [packet.value];
      err := server;
      status := if err == OK then Completed else Aborted;
    }

    /** send_reply. */
    method Reply(arg: Arg, wire: Error, server: Error) returns (err: Error)
      requires InStep()
      modifies this, resp
      ensures InStep()
      ensures err == if old(status) != Awaiting then EINVAL
                     else if KindOf(arg) == NoKind then OK
                     else if wire != OK then wire else server
      ensures status == if old(status) != Awaiting || KindOf(arg) == NoKind then old(status)
                        else if err == OK then Completed else Aborted
      ensures outbox == old(outbox) +
                        if old(status) == Awaiting && KindOf(arg) != NoKind && wire == OK then [Answer(arg)] else []
      ensures old(status) != Awaiting ==> unchanged(resp)
      ensures resp.root == null || resp.root == old(resp.root) || fresh(resp.root)
    {
      var builder := new ValueBuilder();
      err := Start(builder);
      if err == OK {
        err := SetAndSend(builder, arg, wire, server);
      }
    }

    /** The rest of send_reply: the builder is set and sent, or else reset. */
    method SetAndSend(b: ValueBuilder, arg: Arg, wire: Error, server: Error) returns (err: Error)
      requires InStep() && status == Constructing && Lends(b) && resp.root[0] == Zeroed(NoKind)
      requires b.state == Pending && b.root == resp.root && b.at == 0
      modifies this, resp, b, resp.root
      ensures InStep()
      ensures err == if KindOf(arg) == NoKind then OK else if wire != OK then wire else server
      ensures status == if KindOf(arg) == NoKind then Awaiting else if err == OK then Completed else Aborted
      ensures outbox == old(outbox) + if KindOf(arg) != NoKind && wire == OK then [Answer(arg)] else []
      ensures resp.root == null || resp.root == old(resp.root)
    {
      err := b.Set(arg);
      if err == OK {
        err := Send(b, wire, server);
      } else {
        err := Reset(b);
      }
    }
  }

  /** dicey_server_request_for: `message` and `number` are what unpacking the packet
      reports, and `found` whether the registry has the element. */
  method RequestFor(message: Error, number: Error, found: bool, n: nat, path: string, s: Selector)
    returns (err: Error, r: Request?)
    ensures err == if message != OK then message else if number != OK then number
                   else if !found then EELEMENT_NOT_FOUND else OK
    ensures r == null <==> err != OK
    ensures r != null ==> r.InStep() && r.status == Awaiting && r.num == n && r.realPath == path && r.selector == s
  {
    r := null;
    if message != OK {
      return message, null;
    }
    if number != OK {
      return number, null;
    }
    if !found {
      return EELEMENT_NOT_FOUND, null;
    }
    r := new Request(n, path, s);
    err := OK;
  }
}
