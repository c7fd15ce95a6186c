/** Request deduplication between the VR clients and a leader in normal status
    (distributed/replication/vr/replica.cc, distributed/replication/vr/client.cc), as a step system in which any
    message may be lost, duplicated or delayed. */
module AtMostOnce {
  import opened Options

  type ClientId = nat
  type Text(==, !new, 0)

  datatype Request = Request(client: ClientId, id: nat, op: Text)

  datatype Reply = Reply(client: ClientId, id: nat, view: nat, opnum: nat, result: Text)

  /** The last request of a client that the leader has accepted, and the reply to it. */
  datatype Entry = Entry(lastReqId: nat, reply: Option<Reply>)

  datatype Leader = Leader(table: map<ClientId, Entry>, view: nat, lastOp: nat, lastCommitted: nat)

  /** What the application's upcall returns. */
  datatype Upcall = Upcall(result: Text, replicate: bool)

  /** The request is not older than, or the same as, the last one accepted from its client. */
  predicate IsNew(l: Leader, r: Request) {
    r.client !in l.table || l.table[r.client].lastReqId < r.id
  }

  function ReplyTo(l: Leader, r: Request, u: Upcall): Reply {
    if u.replicate then Reply(r.client, r.id, l.view, l.lastOp + 1, u.result) else Reply(r.client, r.id, 0, 0, u.result)
  }

  /** The leader after a new request. */
  function Accepted(l: Leader, r: Request, u: Upcall): Leader {
    var table := l.table[r.client := Entry(r.id, Some(ReplyTo(l, r, u)))];
    if u.replicate then l.(table := table, lastOp := l.lastOp + 1,
        lastCommitted := l.lastCommitted + 1) else l.(table := table)
  }

  /** What the leader sends back for a request that is not new: the reply to the last one, if it is that. */
  function Resent(l: Leader, r: Request): Option<Reply>
    requires !IsNew(l, r)
  {
    if l.table[r.client].lastReqId == r.id then l.table[r.client].reply else None
  }

  class VRReplica {
    var table: map<ClientId, Entry>
    var view: nat
    var lastOp: nat
    var lastCommitted: nat

    function State(): Leader reads this { Leader(table, view, lastOp, lastCommitted) }

    method UpdateClientTable(r: Request)
      requires IsNew(State(), r)
      modifies this`table
      ensures table == old(table)[r.client := Entry(r.id, None)]
    {
      var entry := if r.client in table then table[r.client] else Entry(0, None);
      assert entry.lastReqId <= r.id;
      if entry.lastReqId == r.id {
        table := table[r.client := entry];
        return;
      }
      table := table[r.client := Entry(r.id, None)];
    }

    /** `u` is what the upcall returns, if it is made: for a client's first request, and for one with a larger number
        than the last. The last one again gets its reply again, and an older one nothing. */
    method HandleRequest(r: Request, u: Upcall) returns (called: bool, sent: Option<Reply>)
      modifies this
      ensures called <==> r.client !in old(table) || old(table)[r.client].lastReqId < r.id
      ensures called ==> sent.Some? && sent.value.client == r.client && sent.value.id == r.id
                           && sent.value.result == u.result && table == old(table)[r.client := Entry(r.id, sent)]
      ensures called ==> lastOp == lastCommitted - old(lastCommitted) + old(lastOp)
                           && lastOp == old(lastOp) + (if u.replicate then 1 else 0)
                           && sent.value.view == (if u.replicate then view else 0)
                           && sent.value.opnum == if u.replicate then lastOp else 0
      ensures !called ==> sent == if r.id == old(table)[r.client].lastReqId then old(table)[r.client].reply else None
      ensures called ==> State() == Accepted(old(State()), r, u) && sent == Some(ReplyTo(old(State()), r, u))
      ensures !called ==> State() == old(State()) && sent == Resent(old(State()), r)
    {
      called := false;
      if r.client in table {
        var entry := table[r.client];
        if r.id < entry.lastReqId {
          return false, None;
        }
        if r.id == entry.lastReqId {
          return false, entry.reply;
        }
      }
      UpdateClientTable(r);
      called := true;
      var reply;
      if !u.replicate {
        reply := Reply(r.client, r.id, 0, 0, u.result);
      } else {
        lastOp := lastOp + 1;
        lastCommitted := lastCommitted + 1;
        reply := Reply(r.client, r.id, view, lastOp, u.result);
      }
      table := table[r.client := table[r.client].(reply := Some(reply))];
      sent := Some(reply);
    }
  }

  // ---- The client.

  /** A request that waits for its reply; unlogged requests are not deduplicated. */
  datatype Pending = Pending(op: Text, logged: bool)

  datatype Client = Client(lastReqId: nat, pending: map<nat, Pending>)

  function Invoked(c: Client, op: Text, logged: bool): Client {
    Client(c.lastReqId + 1, c.pending[c.lastReqId + 1 := Pending(op, logged)])
  }

  function Forgotten(c: Client, id: nat): Client { c.(pending := c.pending - {id}) }

  class VRClient {
    const id: ClientId
    var lastReqId: nat
    var pending: map<nat, Pending>

    function State(): Client reads this { Client(lastReqId, pending) }

    constructor (id: ClientId)
      ensures this.id == id && State() == Client(0, map[])
    {
      this.id := id;
      lastReqId, pending := 0, map[];
    }

    method Invoke(op: Text) returns (r: Request)
      modifies this
      ensures lastReqId == old(lastReqId) + 1 && pending == old(pending)[lastReqId := Pending(op, true)]
      ensures State() == Invoked(old(State()), op, true) && r == Request(id, lastReqId, op)
    {
      lastReqId := lastReqId + 1;
      var reqId := lastReqId;
      pending := pending[reqId := Pending(op, true)];
      r := Request(id, reqId, op);
    }

    /** What the resend timer of a logged request sends in a world where this client has its state: the step
        system's `Resend`, and so a request that was issued before. */
    method ResendRequest(reqId: nat, ghost w: World) returns (r: Option<Request>)
      requires ClientsOk(w) && id in w.clients && w.clients[id] == State()
                 && (reqId in pending ==> pending[reqId].logged)
      ensures r == if reqId in pending then Some(Request(id, reqId, pending[reqId].op)) else None
      ensures r.Some? ==> r.value in w.issued
      ensures Apply(w, Resend(id, reqId)) == w.(requests := w.requests + if r.Some? then [r.value] else [])
    {
      if reqId !in pending {
        assert w.requests + [] == w.requests;
        return None;
      }
      r := Some(Request(id, reqId, pending[reqId].op));
    }

    /** Whether the continuation is called. */
    method HandleReply(m: Reply) returns (fires: bool)
      modifies this
      ensures fires <==> m.id in old(pending)
      ensures State() == Forgotten(old(State()), m.id)
    {
      if m.id !in pending {
        assert pending - {m.id} == pending;
        return false;
      }
      pending := pending - {m.id};
      fires := true;
    }
  }

  // ---- Runs.

  /** One upcall, and one call of a continuation. */
  datatype Call = Call(request: Request, result: Text)

  /** `requests` and `replies` are the messages sent so far, in order; each stays deliverable for ever. The last four
      fields record the run; `logged` are the requests that got an operation number, in order. */
  datatype World = World(
    leader: Leader, clients: map<ClientId, Client>, requests: seq<Request>, replies: seq<Reply>,
    issued: set<Request>, upcalls: seq<Call>, logged: seq<Request>, fired: seq<Call>)

  datatype Step =
    | Invoke(client: ClientId, op: Text)
    | InvokeUnlogged(client: ClientId, op: Text)
    | Resend(client: ClientId, id: nat)
    | Forget(client: ClientId, id: nat)
    | DeliverRequest(request: Request, upcall: Upcall)
    | DeliverReply(reply: Reply)

  ghost function Start(clients: set<ClientId>, view: nat): World {
    World(Leader(map[], view, 0, 0), map c | c in clients :: Client(0, map[]), [], [], {}, [], [], [])
  }

  /** `Forget` stands for a send that fails, and for the end of an unlogged request. A reply or a request that
      arrives is not consumed. */
  ghost function Apply(w: World, step: Step): World {
    match step
    case Invoke(c, op) =>
      if c !in w.clients then w
      else
        var r := Request(c, w.clients[c].lastReqId + 1, op);
        w.(clients := w.clients[c := Invoked(w.clients[c], op, true)], requests := w.requests + [r],
            issued := w.issued + {r})
    case InvokeUnlogged(c, op) =>
      if c !in w.clients then w else w.(clients := w.clients[c := Invoked(w.clients[c], op, false)])
    case Resend(c, id) =>
      if c !in w.clients || id !in w.clients[c].pending || !w.clients[c].pending[id].logged then w
      else w.(requests := w.requests + [Request(c, id, w.clients[c].pending[id].op)])
    case Forget(c, id) =>
      if c !in w.clients then w else w.(clients := w.clients[c := Forgotten(w.clients[c], id)])
    case DeliverRequest(r, u) =>
      if r !in w.requests then w
      else if IsNew(w.leader, r) then
        w.(leader := Accepted(w.leader, r, u), replies := w.replies + [ReplyTo(w.leader, r, u)],
            upcalls := w.upcalls + [Call(r, u.result)], logged := w.logged + if u.replicate then [r] else [])
      else if Resent(w.leader, r).Some? then w.(replies := w.replies + [Resent(w.leader, r).value])
      else w
    case DeliverReply(m) =>
      if m !in w.replies || m.client !in w.clients || m.id !in w.clients[m.client].pending then w
      else
        var r := Request(m.client, m.id, w.clients[m.client].pending[m.id].op);
        w.(clients := w.clients[m.client := Forgotten(w.clients[m.client], m.id)],
            fired := w.fired + [Call(r, m.result)])
  }

  ghost function Run(clients: set<ClientId>, view: nat, steps: seq<Step>): World {
    if steps == [] then Start(clients, view)
    else Apply(Run(clients, view, steps[..|steps| - 1]), steps[|steps| - 1])
  }

  ghost predicate SameRequest(a: Request, b: Request) { a.client == b.client && a.id == b.id }

  ghost predicate Once(calls: seq<Call>) {
    forall i, j :: 0 <= i < j < |calls| ==> !SameRequest(calls[i].request, calls[j].request)
  }

  /** The reply carries the result of the upcall for its request. */
  ghost predicate Answers(w: World, m: Reply) {
    exists i :: 0 <= i < |w.upcalls| && w.upcalls[i].request.client == m.client && w.upcalls[i].request.id == m.id
        && w.upcalls[i].result == m.result
  }

  /** A client's numbers: what it has issued is numbered up to its last number, once each, and what waits for a
      reply is what it issued. */
  ghost predicate ClientsOk(w: World) {
    && (forall r :: r in w.issued ==> r.client in w.clients && r.id <= w.clients[r.client].lastReqId)
    && (forall r, s :: r in w.issued && s in w.issued && SameRequest(r, s) ==> r == s)
    && (forall c, id :: c in w.clients && id in w.clients[c].pending ==> id <= w.clients[c].lastReqId)
    && (forall c, id :: c in w.clients && id in w.clients[c].pending && w.clients[c].pending[id].logged ==>
          Request(c, id, w.clients[c].pending[id].op) in w.issued)
    && (forall c, id :: c in w.clients && id in w.clients[c].pending && !w.clients[c].pending[id].logged ==>
          forall r :: r in w.issued && r.client == c ==> r.id != id)
    && (forall r :: r in w.requests ==> r in w.issued)
  }

  ghost predicate LeaderOk(w: World) {
    && Once(w.upcalls)
    && (forall i :: 0 <= i < |w.upcalls| ==>
          var r := w.upcalls[i].request;
          r in w.issued && r.client in w.leader.table && r.id <= w.leader.table[r.client].lastReqId)
    && (forall c :: c in w.leader.table ==> LastAnswered(w, c))
    && (forall m :: m in w.replies ==> Answers(w, m))
  }

  /** The table has the client's last upcall, and the reply to it. */
  ghost predicate LastAnswered(w: World, c: ClientId)
    requires c in w.leader.table
  {
    var entry := w.leader.table[c];
    && entry.reply.Some? && entry.reply.value in w.replies
    && entry.reply.value.client == c && entry.reply.value.id == entry.lastReqId
  }

  /** Operation numbers count the logged requests, and a reply with such a number is to the request of that number. */
  ghost predicate NumbersOk(w: World) {
    && w.leader.lastOp == w.leader.lastCommitted == |w.logged|
    && forall m :: m in w.replies ==> Numbered(w, m)
  }

  ghost predicate Numbered(w: World, m: Reply) {
    || (m.opnum == 0 && m.view == 0)
    || (1 <= m.opnum <= |w.logged| && m.view == w.leader.view
        && w.logged[m.opnum - 1].client == m.client && w.logged[m.opnum - 1].id == m.id)
  }

  ghost predicate FiredOk(w: World) {
    && Once(w.fired)
    && (forall i :: 0 <= i < |w.fired| ==>
          var r := w.fired[i].request;
          && w.fired[i] in w.upcalls
          && r.client in w.clients && r.id <= w.clients[r.client].lastReqId && r.id !in w.clients[r.client].pending)
  }

  ghost predicate Inv(w: World) { ClientsOk(w) && LeaderOk(w) && NumbersOk(w) && FiredOk(w) }

  lemma DeliverRequestKeeps(w: World, r: Request, u: Upcall)
    requires Inv(w)
    ensures Inv(Apply(w, DeliverRequest(r, u)))
  {
    if r in w.requests && IsNew(w.leader, r) {
      NewRequestLeader(w, r, u);
      NewRequestNumbers(w, r, u);
    } else {
      OldRequestKeeps(w, r, u);
    }
  }

  lemma NewRequestLeader(w: World, r: Request, u: Upcall)
    requires Inv(w) && r in w.requests && IsNew(w.leader, r)
    ensures LeaderOk(Apply(w, DeliverRequest(r, u)))
  {
    var w' := Apply(w, DeliverRequest(r, u));
    var reply := ReplyTo(w.leader, r, u);
    assert w'.upcalls[|w.upcalls|] == Call(r, u.result) && w'.replies[|w.replies|] == reply;
    assert Answers(w', reply);
    forall m | m in w.replies ensures m in w'.replies && Answers(w', m) { AnswersMore(w, w', m); }
    forall c | c in w'.leader.table ensures LastAnswered(w', c) { assert c != r.client ==> LastAnswered(w, c); }
  }

  lemma AnswersMore(w: World, w': World, m: Reply)
    requires Answers(w, m) && w.upcalls <= w'.upcalls
    ensures Answers(w', m)
  {
    var i :| 0 <= i < |w.upcalls| && w.upcalls[i].request.client == m.client && w.upcalls[i].request.id == m.id
        && w.upcalls[i].result == m.result;
    assert w'.upcalls[i] == w.upcalls[i];
  }

  lemma NewRequestNumbers(w: World, r: Request, u: Upcall)
    requires NumbersOk(w) && r in w.requests && IsNew(w.leader, r)
    ensures NumbersOk(Apply(w, DeliverRequest(r, u)))
  {
    var w' := Apply(w, DeliverRequest(r, u));
    forall m | m in w'.replies ensures Numbered(w', m) { assert m in w.replies ==> Numbered(w, m); }
  }

  /** A request that is not new leaves the world alone, except that the last reply may be sent again. */
  lemma OldRequestKeeps(w: World, r: Request, u: Upcall)
    requires Inv(w) && !(r in w.requests && IsNew(w.leader, r))
    ensures Inv(Apply(w, DeliverRequest(r, u)))
  {
    var w' := Apply(w, DeliverRequest(r, u));
    forall m | m in w'.replies ensures m in w.replies && Answers(w', m) && Numbered(w', m) {
      assert r.client in w.leader.table ==> LastAnswered(w, r.client);
      assert Answers(w, m) && Numbered(w, m);
    }
    forall c | c in w'.leader.table ensures LastAnswered(w', c) { assert LastAnswered(w, c); }
  }

  /** A reply that meets a waiting request carries the result of that request's upcall. */
  lemma ReplyMatches(w: World, m: Reply)
    requires Inv(w) && m in w.replies && m.client in w.clients && m.id in w.clients[m.client].pending
    ensures Call(Request(m.client, m.id, w.clients[m.client].pending[m.id].op), m.result) in w.upcalls
  {
    assert Answers(w, m);
    var i :| 0 <= i < |w.upcalls| && w.upcalls[i].request.client == m.client && w.upcalls[i].request.id == m.id
        && w.upcalls[i].result == m.result;
    assert w.upcalls[i].request in w.issued;
    assert SameRequest(w.upcalls[i].request, Request(m.client, m.id, w.clients[m.client].pending[m.id].op));
  }

  lemma DeliverReplyKeeps(w: World, m: Reply)
    requires Inv(w)
    ensures Inv(Apply(w, DeliverReply(m)))
  {
    if m in w.replies && m.client in w.clients && m.id in w.clients[m.client].pending {
      ReplyMatches(w, m);
      DeliverReplyFired(w, m);
      DeliverReplyClients(w, m);
      LeaderStays(w, Apply(w, DeliverReply(m)));
    }
  }

  lemma DeliverReplyFired(w: World, m: Reply)
    requires FiredOk(w) && m.client in w.clients && m.id in w.clients[m.client].pending
               && m.id <= w.clients[m.client].lastReqId
    requires Call(Request(m.client, m.id, w.clients[m.client].pending[m.id].op), m.result) in w.upcalls
    ensures FiredOk(Apply(w, DeliverReply(m)))
  {
  }

  lemma DeliverReplyClients(w: World, m: Reply)
    requires ClientsOk(w)
    ensures ClientsOk(Apply(w, DeliverReply(m)))
  {
  }

  /** What concerns the leader does not depend on the clients. */
  lemma LeaderStays(w: World, w': World)
    requires LeaderOk(w) && NumbersOk(w) && w.issued <= w'.issued
    requires w'.upcalls == w.upcalls && w'.replies == w.replies && w'.leader == w.leader && w'.logged == w.logged
    ensures LeaderOk(w') && NumbersOk(w')
  {
    forall m | m in w'.replies ensures Answers(w', m) && Numbered(w', m) { assert Answers(w, m) && Numbered(w, m); }
    forall c | c in w'.leader.table ensures LastAnswered(w', c) { assert LastAnswered(w, c); }
  }

  lemma ClientStepKeeps(w: World, step: Step)
    requires Inv(w) && !step.DeliverRequest? && !step.DeliverReply?
    ensures Inv(Apply(w, step))
  {
    ClientStepClients(w, step);
    LeaderStays(w, Apply(w, step));
    ClientStepFired(w, step);
  }

  lemma ClientStepClients(w: World, step: Step)
    requires ClientsOk(w) && !step.DeliverRequest? && !step.DeliverReply?
    ensures ClientsOk(Apply(w, step))
  {
  }

  lemma ClientStepFired(w: World, step: Step)
    requires FiredOk(w) && !step.DeliverRequest? && !step.DeliverReply?
    ensures FiredOk(Apply(w, step))
  {
  }

  lemma {:induction false} EveryRunKeepsInv(clients: set<ClientId>, view: nat, steps: seq<Step>)
    ensures Inv(Run(clients, view, steps))
  {
    if steps != [] {
      var n := |steps| - 1;
      EveryRunKeepsInv(clients, view, steps[..n]);
      var w := Run(clients, view, steps[..n]);
      match steps[n]
      case DeliverRequest(r, u) => DeliverRequestKeeps(w, r, u);
      case DeliverReply(m) => DeliverReplyKeeps(w, m);
      case _ => ClientStepKeeps(w, steps[n]);
    }
  }

  /** In every run each request reaches the upcall at most once, its continuation is called at most once, and only
      with the result of its own upcall. */
  lemma RequestsRunAtMostOnce(clients: set<ClientId>, view: nat, steps: seq<Step>)
    ensures var w := Run(clients, view, steps);
            && Once(w.upcalls) && Once(w.fired)
            && (forall i :: 0 <= i < |w.upcalls| ==> w.upcalls[i].request in w.issued)
            && (forall i :: 0 <= i < |w.fired| ==> w.fired[i] in w.upcalls)
  {
    EveryRunKeepsInv(clients, view, steps);
  }

  // ---- What becomes of a request that arrives.

  /** The last call of the client so far, if any, is older. */
  ghost predicate NoneSince(w: World, r: Request) {
    forall i :: 0 <= i < |w.upcalls| && w.upcalls[i].request.client == r.client ==> w.upcalls[i].request.id < r.id
  }

  /** What the leader knows of a client is its last upcall. */
  lemma NewIfNoneSince(w: World, r: Request)
    requires LeaderOk(w)
    ensures IsNew(w.leader, r) <==> NoneSince(w, r)
  {
    if r.client in w.leader.table {
      assert LastAnswered(w, r.client);
      var m := w.leader.table[r.client].reply.value;
      assert Answers(w, m);
      var i :| 0 <= i < |w.upcalls| && w.upcalls[i].request.client == m.client && w.upcalls[i].request.id == m.id
          && w.upcalls[i].result == m.result;
    }
  }

  ghost predicate IsReply(m: Reply, r: Request, result: Text) {
    m.client == r.client && m.id == r.id && m.result == result
  }

  /** A request newer than every call of its client so far has its upcall when it arrives, and only then; the result
      is sent back. */
  lemma NewRequestIsCalled(clients: set<ClientId>, view: nat, steps: seq<Step>, r: Request, u: Upcall)
    requires r in Run(clients, view, steps).requests
    ensures var w := Run(clients, view, steps);
            var w' := Apply(w, DeliverRequest(r, u));
            && w'.upcalls == w.upcalls + (if NoneSince(w, r) then [Call(r, u.result)] else [])
            && w'.logged == w.logged + (if NoneSince(w, r) && u.replicate then [r] else [])
            && (NoneSince(w, r) ==>
                  && |w'.replies| == |w.replies| + 1
                  && IsReply(w'.replies[|w.replies|], r, u.result)
                  && w'.replies[|w.replies|].opnum == if u.replicate then |w'.logged| else 0)
  {
    EveryRunKeepsInv(clients, view, steps);
    NewIfNoneSince(Run(clients, view, steps), r);
  }

  /** A client's last call again: its reply is sent again, and nothing else happens. An older one does nothing. */
  lemma OldRequestIsAnswered(clients: set<ClientId>, view: nat, steps: seq<Step>, r: Request, u: Upcall, i: nat)
    requires var w := Run(clients, view, steps);
             r in w.requests && i < |w.upcalls| && w.upcalls[i].request.client == r.client && NoneAfter(w, i)
    requires r.id <= Run(clients, view, steps).upcalls[i].request.id
    ensures var w := Run(clients, view, steps);
            var w', last := Apply(w, DeliverRequest(r, u)), w.upcalls[i];
            && w' == w.(replies := w'.replies)
            && (r.id < last.request.id ==> w'.replies == w.replies)
            && (r.id == last.request.id ==>
                  && |w'.replies| == |w.replies| + 1 && w'.replies[..|w.replies|] == w.replies
                  && IsReply(w'.replies[|w.replies|], r, last.result))
  {
    EveryRunKeepsInv(clients, view, steps);
    var w := Run(clients, view, steps);
    TableHasLast(w, r.client, i);
    assert !IsNew(w.leader, r);
  }

  ghost predicate NoneAfter(w: World, i: nat)
    requires i < |w.upcalls|
  {
    forall j :: 0 <= j < |w.upcalls| && w.upcalls[j].request.client == w.upcalls[i].request.client ==>
      w.upcalls[j].request.id <= w.upcalls[i].request.id
  }

  lemma TableHasLast(w: World, c: ClientId, i: nat)
    requires LeaderOk(w) && i < |w.upcalls| && w.upcalls[i].request.client == c && NoneAfter(w, i)
    ensures c in w.leader.table && w.leader.table[c].lastReqId == w.upcalls[i].request.id
    ensures var reply := w.leader.table[c].reply;
            reply.Some? && IsReply(reply.value, w.upcalls[i].request, w.upcalls[i].result)
  {
    assert LastAnswered(w, c);
    var m := w.leader.table[c].reply.value;
    assert Answers(w, m);
    var j :| 0 <= j < |w.upcalls| && w.upcalls[j].request.client == m.client && w.upcalls[j].request.id == m.id
        && w.upcalls[j].result == m.result;
    assert w.upcalls[j].request.id == w.upcalls[i].request.id;
    assert j == i;
  }

  /** The client invokes an operation, its request arrives and then the reply: the upcall is made, and the
      continuation called with what it returned. */
  ghost predicate Answered(w: World, c: ClientId, op: Text, u: Upcall)
    requires c in w.clients
  {
    var r := Request(c, w.clients[c].lastReqId + 1, op);
    var called := Apply(Apply(w, Invoke(c, op)), DeliverRequest(r, u));
    && called.upcalls == w.upcalls + [Call(r, u.result)] && |called.replies| == |w.replies| + 1
    && Apply(called, DeliverReply(called.replies[|w.replies|])).fired == w.fired + [Call(r, u.result)]
  }

  /** From call to continuation, after any run. */
  lemma InvokeIsAnswered(clients: set<ClientId>, view: nat, steps: seq<Step>, c: ClientId, op: Text, u: Upcall)
    requires c in clients
    ensures c in Run(clients, view, steps).clients && Answered(Run(clients, view, steps), c, op, u)
  {
    EveryRunKeepsInv(clients, view, steps);
    ClientsStay(clients, view, steps);
    var w := Run(clients, view, steps);
    FreshIsNew(w, c, op);
    FreshIsAnswered(w, c, op, u);
  }

  lemma FreshIsNew(w: World, c: ClientId, op: Text)
    requires Inv(w) && c in w.clients
    ensures IsNew(w.leader, Request(c, w.clients[c].lastReqId + 1, op))
  {
    var r := Request(c, w.clients[c].lastReqId + 1, op);
    forall i | 0 <= i < |w.upcalls| && w.upcalls[i].request.client == c ensures w.upcalls[i].request.id < r.id {
      assert w.upcalls[i].request in w.issued;
    }
    NewIfNoneSince(w, r);
  }

  lemma FreshIsAnswered(w: World, c: ClientId, op: Text, u: Upcall)
    requires c in w.clients && IsNew(w.leader, Request(c, w.clients[c].lastReqId + 1, op))
    ensures Answered(w, c, op, u)
  {
    var r := Request(c, w.clients[c].lastReqId + 1, op);
    var asked := Apply(w, Invoke(c, op));
    assert asked.requests[|w.requests|] == r;
    var called := Apply(asked, DeliverRequest(r, u));
    assert called.replies[|w.replies|] in called.replies;
  }

  lemma {:induction false} ClientsStay(clients: set<ClientId>, view: nat, steps: seq<Step>)
    ensures Run(clients, view, steps).clients.Keys == clients
  {
    if steps != [] { ClientsStay(clients, view, steps[..|steps| - 1]); }
  }

  /** Operation numbers: a reply that carries one was to the request logged under that number. */
  lemma OpNumbersNameRequests(clients: set<ClientId>, view: nat, steps: seq<Step>, m: Reply)
    requires m in Run(clients, view, steps).replies
    ensures var w := Run(clients, view, steps);
            w.leader.lastOp == w.leader.lastCommitted == |w.logged| && w.leader.view == view && Numbered(w, m)
  {
    EveryRunKeepsInv(clients, view, steps);
    ViewStays(clients, view, steps);
  }

  lemma {:induction false} ViewStays(clients: set<ClientId>, view: nat, steps: seq<Step>)
    ensures Run(clients, view, steps).leader.view == view
  {
    if steps != [] { ViewStays(clients, view, steps[..|steps| - 1]); }
  }

  /** A request that has had its upcall is no longer new to the leader. */
  lemma HandledIsOld(w: World, r: Request, i: nat)
    requires LeaderOk(w) && i < |w.upcalls| && w.upcalls[i].request == r
    ensures !IsNew(w.leader, r)
  {
  }

  /** Resending is harmless: what is resent was issued before, and if it has had its upcall then delivering it again
      makes no other, whatever the application would answer. */
  lemma ResentRunsNoMore(clients: set<ClientId>, view: nat, steps: seq<Step>, c: ClientId, id: nat, r: Request,
                         u: Upcall)
    requires r in Apply(Run(clients, view, steps), Resend(c, id)).requests
    ensures var w := Run(clients, view, steps);
            && r in w.issued
            && forall i :: 0 <= i < |w.upcalls| && w.upcalls[i].request == r ==>
                 Apply(Apply(w, Resend(c, id)), DeliverRequest(r, u)).upcalls == w.upcalls
  {
    EveryRunKeepsInv(clients, view, steps);
    ResendIsHarmless(Run(clients, view, steps), c, id, r, u);
  }

  lemma ResendIsHarmless(w: World, c: ClientId, id: nat, r: Request, u: Upcall)
    requires Inv(w) && r in Apply(w, Resend(c, id)).requests
    ensures r in w.issued
    ensures forall i :: 0 <= i < |w.upcalls| && w.upcalls[i].request == r ==>
              Apply(Apply(w, Resend(c, id)), DeliverRequest(r, u)).upcalls == w.upcalls
  {
    var w' := Apply(w, Resend(c, id));
    assert ClientsOk(w') by { ClientStepClients(w, Resend(c, id)); }
    assert w'.issued == w.issued && w'.upcalls == w.upcalls && w'.leader == w.leader;
    forall i | 0 <= i < |w.upcalls| && w.upcalls[i].request == r ensures !IsNew(w.leader, r) { HandledIsOld(w, r, i); }
  }
}
