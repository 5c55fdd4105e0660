/** The protocol's state machine with the client's own code at one end: every run of
    the objects is a run of the machine. */
module Connection {
  import opened Wrappers
  import opened SequenceProtocol
  import opened Routing

  /** A client, its server and the pipes between them. */
  class Link {
    const client: Client
    var issued: seq<nat>
    var toServer: seq<Packet>
    var last: Option<nat>
    var lastId: nat
    var kicked: bool
    var open: seq<Packet>
    var toClient: seq<Packet>
    var advanced: seq<(nat, nat)>
    var ended: set<nat>

    function Value(): State
      reads this, client
    {
      State(client.nextSeq, client.waiting, issued, toServer, last, lastId, kicked, open, toClient, advanced, ended)
    }

    constructor (task: nat)
      ensures Value() == Init(task) && fresh(client)
    {
      client := new Client(task);
      issued, toServer, last, lastId, kicked := [task], [], None, 0, false;
      open, toClient, advanced, ended := [Packet(0, 0)], [], [], {};
    }

    method IssueOne(task: nat, sent: bool)
      requires Enabled(Value(), Issue(task, sent))
      modifies this`issued, this`toServer, client
      ensures Value() == Step(old(Value()), Issue(task, sent))
    {
      var id := |issued|;
      var num := client.IssueRequest(task, sent, id);
      issued := issued + [task];
      if sent {
        toServer := toServer + [Packet(num, id)];
      }
    }

    method DeliverOne(how: Handling)
      requires Enabled(Value(), Deliver(how))
      modifies this`toServer, this`last, this`lastId, this`open, this`kicked
      ensures Value() == Step(old(Value()), Deliver(how))
    {
      var p := toServer[0];
      toServer := toServer[1..];
      if how != Ignore {
        if ValidateSeqnum(last, p.num) {
          last, lastId, open := Some(p.num), p.id, open + [p];
        } else {
          kicked := true;
        }
      }
    }

    method RespondOne(k: nat)
      requires Enabled(Value(), Respond(k))
      modifies this`open, this`toClient
      ensures Value() == Step(old(Value()), Respond(k))
    {
      toClient := toClient + [open[k]];
      open := open[..k] + open[k + 1..];
    }

    method ReceiveOne()
      requires Enabled(Value(), Receive)
      modifies this`toClient, this`advanced, client
      ensures Value() == Step(old(Value()), Receive)
    {
      var p := toClient[0];
      toClient := toClient[1..];
      var task := client.GotResponse(p.num);
      if task.Some? {
        advanced := advanced + [(task.value, p.id)];
      }
    }

    method EndOne(task: nat)
      requires Enabled(Value(), End(task))
      modifies this`ended, client
      ensures Value() == Step(old(Value()), End(task))
    {
      client.CleanUpTask(task);
      ended := ended + {task};
    }

    method Do(e: Event)
      requires Enabled(Value(), e)
      modifies this, client
      ensures Value() == Step(old(Value()), e)
    {
      match e {
        case Issue(task, sent) => IssueOne(task, sent);
        case Deliver(how) => DeliverOne(how);
        case Respond(k) => RespondOne(k);
        case Receive => ReceiveOne();
        case End(task) => EndOne(task);
      }
    }
  }

  method RunFrom(link: Link, es: seq<Event>)
    requires Legal(link.Value(), es)
    modifies link, link.client
    ensures link.Value() == Run(old(link.Value()), es)
    decreases |es|
  {
    if es != [] {
      link.Do(es[0]);
      RunFrom(link, es[1..]);
    }
  }

  /** Any run of a new connection: the client's counter and waiting list are those of
      the machine, the server rejects nothing unless numbering was broken, and the
      client routes every response rightly exactly when none met a rival. */
  method RunAll(task: nat, es: seq<Event>) returns (link: Link)
    requires Legal(Init(task), es)
    ensures link.client.nextSeq == Run(Init(task), es).next && link.client.waiting == Run(Init(task), es).waiting
    ensures link.Value() == Run(Init(task), es) && Inv(link.Value())
    ensures (forall i | 0 <= i < |es| :: !Breaks(es[i])) ==> !link.kicked
    ensures Routed(link.Value()) <==> Unrivalled(Init(task), es)
    ensures |link.issued| <= PERIOD ==> Routed(link.Value())
  {
    link := new Link(task);
    RunFrom(link, es);
    EveryRun(task, es, 0);
  }
}
