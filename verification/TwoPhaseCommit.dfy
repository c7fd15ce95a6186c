/** Two-phase commit over the shards (distributed/store/strongstore/client.cc), as a step system: any
    number of coordinators and shards, and messages that are handled at most once, in any order, or lost. */
module TwoPhaseCommit {
  import opened Transactions
  import opened OccStore

  /** One client transaction: what it reads and writes, and the shards the client has contacted for it. */
  datatype Job = Job(participants: set<nat>, txn: Txn)

  /** `initial` is the data loaded before the run. */
  datatype System = System(nshards: nat, jobs: map<Tid, Job>, initial: map<Key, Value>)

  predicate Contacted(job: Job, nshards: nat) {
    && nshards > 0
    && (forall s :: s in job.participants ==> s < nshards)
    && (forall k :: k in job.txn.readSet + job.txn.writeSet.Keys ==> ShardOf(k, nshards) in job.participants)
  }

  ghost predicate WellFormed(sys: System) {
    sys.nshards > 0 && forall t :: t in sys.jobs ==> Contacted(sys.jobs[t], sys.nshards)
  }

  function LocalData(data: map<Key, Value>, shard: nat, nshards: nat): map<Key, Value>
    requires nshards > 0
  {
    map k | k in data && ShardOf(k, nshards) == shard :: data[k]
  }

  /** The part of a transaction that one shard's buffering client holds. */
  function Part(txn: Txn, shard: nat, nshards: nat): Txn
    requires nshards > 0
  {
    Txn(set k | k in txn.readSet && ShardOf(k, nshards) == shard :: k, LocalData(txn.writeSet, shard, nshards))
  }

  function PartOf(sys: System, t: Tid, shard: nat): Txn
    requires sys.nshards > 0 && t in sys.jobs
  {
    Part(sys.jobs[t].txn, shard, sys.nshards)
  }

  datatype Msg = To(shard: nat, request: Request) | Vote(id: Tid, shard: nat, ok: bool)

  datatype Phase = Working | Preparing(votes: map<nat, bool>) | Decided(commit: bool)

  datatype Site = Site(id: Tid, shard: nat)

  /** The last five fields record the run: decisions in order, commits and aborts carried out at each shard,
      what every commit read, and the messages that were lost. */
  datatype World = World(
    phase: map<Tid, Phase>, shards: map<nat, Shard>, net: set<Msg>, halted: bool,
    order: seq<Tid>, done: set<Site>, undone: set<Site>, values: map<Site, map<Key, Found>>, lost: set<Msg>)

  datatype Step =
    | StartPrepare(id: Tid)
    | GiveUp(id: Tid)
    | Deliver(shard: nat, request: Request)
    | CountVote(id: Tid, shard: nat, ok: bool)
    | Decide(id: Tid)
    | Lose(msg: Msg)

  function Prepares(sys: System, t: Tid): set<Msg>
    requires sys.nshards > 0 && t in sys.jobs
  {
    set s | s in sys.jobs[t].participants :: To(s, PrepareRequest(t, PartOf(sys, t, s)))
  }

  function Commits(sys: System, t: Tid): set<Msg>
    requires t in sys.jobs
  {
    set s | s in sys.jobs[t].participants :: To(s, CommitRequest(t))
  }

  function Aborts(sys: System, t: Tid): set<Msg>
    requires t in sys.jobs
  {
    set s | s in sys.jobs[t].participants :: To(s, AbortRequest(t))
  }

  ghost function Start(sys: System): World
    requires sys.nshards > 0
  {
    World(map t | t in sys.jobs :: Working,
          map s | 0 <= s < sys.nshards :: Shard(map[], LocalData(sys.initial, s, sys.nshards)),
          {}, false, [], {}, {}, map[], {})
  }

  /** The messages name known transactions and shards. */
  ghost predicate Shaped(sys: System, w: World) {
    && WellFormed(sys)
    && w.phase.Keys == sys.jobs.Keys
    && (forall s :: s in w.shards <==> 0 <= s < sys.nshards)
  }

  ghost predicate Enabled(sys: System, w: World, step: Step)
    requires Shaped(sys, w)
  {
    !w.halted &&
    match step
    case StartPrepare(t) => t in sys.jobs && w.phase[t] == Working
    case GiveUp(t) => t in sys.jobs && w.phase[t] == Working
    case Deliver(s, r) => To(s, r) in w.net && s in w.shards
    case CountVote(t, s, ok) => Vote(t, s, ok) in w.net && t in sys.jobs && w.phase[t].Preparing?
    case Decide(t) => t in sys.jobs && w.phase[t].Preparing? && w.phase[t].votes.Keys == sys.jobs[t].participants
    case Lose(m) => m in w.net
  }

  /** What a shard's answer adds to the run. */
  ghost function Answered(w: World, s: nat, r: Request, reply: Reply, shard: Shard): World {
    var sent := w.(net := w.net - {To(s, r)}, shards := w.shards[s := shard]);
    match r
    case PrepareRequest(t, _) => sent.(net := sent.net + {Vote(t, s, reply.ok)})
    case CommitRequest(t) => sent.(done := w.done + {Site(t, s)}, values := w.values[Site(t, s) := reply.values])
    case AbortRequest(t) => sent.(undone := w.undone + {Site(t, s)})
  }

  ghost predicate AllYes(votes: map<nat, bool>) { forall s :: s in votes ==> votes[s] }

  ghost function Apply(sys: System, w: World, step: Step): World
    requires Shaped(sys, w) && Enabled(sys, w, step)
  {
    match step
    case StartPrepare(t) => w.(phase := w.phase[t := Preparing(map[])], net := w.net + Prepares(sys, t))
    case GiveUp(t) => w.(phase := w.phase[t := Decided(false)], net := w.net + Aborts(sys, t))
    case Deliver(s, r) =>
      (match Serve(w.shards[s], r)
       case Halted => w.(halted := true)
       case Replied(reply, shard) => Answered(w, s, r, reply, shard))
    case CountVote(t, s, ok) =>
      w.(phase := w.phase[t := Preparing(w.phase[t].votes[s := ok])], net := w.net - {Vote(t, s, ok)})
    case Decide(t) =>
      if AllYes(w.phase[t].votes)
      then w.(phase := w.phase[t := Decided(true)], net := w.net + Commits(sys, t), order := w.order + [t])
      else w.(phase := w.phase[t := Decided(false)], net := w.net + Aborts(sys, t))
    case Lose(m) => w.(net := w.net - {m}, lost := w.lost + {m})
  }

  /** Every interleaving: the steps of a run, where a step that is not enabled does nothing. */
  ghost function Run(sys: System, steps: seq<Step>): (w: World)
    requires WellFormed(sys)
    ensures Shaped(sys, w)
  {
    if steps == [] then Start(sys)
    else
      var w := Run(sys, steps[..|steps| - 1]);
      var step := steps[|steps| - 1];
      if Enabled(sys, w, step) then Apply(sys, w, step) else w
  }

  // ---- The serial execution that every run must match.

  ghost predicate Known(sys: System, order: seq<Tid>) { forall i :: 0 <= i < |order| ==> order[i] in sys.jobs }

  /** The data after running the transactions one at a time. */
  ghost function Serial(sys: System, order: seq<Tid>): map<Key, Value>
    requires Known(sys, order)
  {
    if order == [] then sys.initial
    else Serial(sys, order[..|order| - 1]) + sys.jobs[order[|order| - 1]].txn.writeSet
  }

  /** One shard's data when only the transactions it has carried out are replayed. */
  ghost function Replay(sys: System, s: nat, order: seq<Tid>, done: set<Site>): map<Key, Value>
    requires sys.nshards > 0 && Known(sys, order)
  {
    if order == [] then LocalData(sys.initial, s, sys.nshards)
    else
      var before := Replay(sys, s, order[..|order| - 1], done);
      var t := order[|order| - 1];
      if Site(t, s) in done then before + PartOf(sys, t, s).writeSet else before
  }

  lemma {:induction false} ReplayElsewhere(sys: System, s: nat, order: seq<Tid>, done: set<Site>, site: Site)
    requires sys.nshards > 0 && Known(sys, order) && site.shard != s
    ensures Replay(sys, s, order, done + {site}) == Replay(sys, s, order, done)
  {
    if order != [] { ReplayElsewhere(sys, s, order[..|order| - 1], done, site); }
  }

  lemma {:induction false} ReplayUnlisted(sys: System, order: seq<Tid>, done: set<Site>, site: Site)
    requires sys.nshards > 0 && Known(sys, order) && site.id !in order
    ensures Replay(sys, site.shard, order, done + {site}) == Replay(sys, site.shard, order, done)
  {
    if order != [] { ReplayUnlisted(sys, order[..|order| - 1], done, site); }
  }

  ghost predicate Distinct(order: seq<Tid>) {
    forall i, j :: 0 <= i < j < |order| ==> order[i] != order[j]
  }

  ghost predicate WritesKey(sys: System, t: Tid, k: Key)
    requires sys.nshards > 0 && t in sys.jobs
  {
    k in sys.jobs[t].txn.writeSet
  }

  /** Carrying out a transaction late is as good as in turn, if nobody after it in the order wrote its keys. */
  lemma {:induction false} ReplayLate(sys: System, order: seq<Tid>, done: set<Site>, i: nat, s: nat)
    requires sys.nshards > 0 && Known(sys, order) && Distinct(order) && i < |order|
    requires forall j, k :: i < j < |order| && k in PartOf(sys, order[i], s).writeSet ==> !WritesKey(sys, order[j], k)
    ensures Replay(sys, s, order, done + {Site(order[i], s)})
              == Replay(sys, s, order, done) + PartOf(sys, order[i], s).writeSet
  {
    var last := |order| - 1;
    var prefix := order[..last];
    if i == last {
      ReplayUnlisted(sys, prefix, done, Site(order[i], s));
    } else {
      ReplayLate(sys, prefix, done, i, s);
      assert forall k :: k in PartOf(sys, order[i], s).writeSet ==> !WritesKey(sys, order[last], k);
    }
  }

  /** Where every writer of a key has been carried out, replaying gives the serial value. */
  lemma {:induction false} ReplayedKey(sys: System, order: seq<Tid>, done: set<Site>, k: Key)
    requires sys.nshards > 0 && Known(sys, order)
    requires forall j :: 0 <= j < |order| && WritesKey(sys, order[j], k) ==>
               Site(order[j], ShardOf(k, sys.nshards)) in done
    ensures Get(Replay(sys, ShardOf(k, sys.nshards), order, done), k) == Get(Serial(sys, order), k)
  {
    if order != [] {
      var t := order[|order| - 1];
      ReplayedKey(sys, order[..|order| - 1], done, k);
      assert k in PartOf(sys, t, ShardOf(k, sys.nshards)).writeSet <==> WritesKey(sys, t, k);
    }
  }

  lemma {:induction false} ReplayIgnores(sys: System, order: seq<Tid>, done: set<Site>, i: nat, k: Key)
    requires sys.nshards > 0 && Known(sys, order) && i <= |order|
    requires forall j :: i <= j < |order| && WritesKey(sys, order[j], k) ==>
               Site(order[j], ShardOf(k, sys.nshards)) !in done
    ensures Get(Replay(sys, ShardOf(k, sys.nshards), order, done), k)
              == Get(Replay(sys, ShardOf(k, sys.nshards), order[..i], done), k)
  {
    if i < |order| {
      var last := |order| - 1;
      ReplayIgnores(sys, order[..last], done, i, k);
      assert order[..last][..i] == order[..i];
      assert k in PartOf(sys, order[last], ShardOf(k, sys.nshards)).writeSet <==> WritesKey(sys, order[last], k);
    } else {
      assert order[..i] == order;
    }
  }

  lemma {:induction false} ReplayIsLocal(sys: System, s: nat, order: seq<Tid>, done: set<Site>, k: Key)
    requires sys.nshards > 0 && Known(sys, order) && k in Replay(sys, s, order, done)
    ensures ShardOf(k, sys.nshards) == s
  {
    if order != [] && k in Replay(sys, s, order[..|order| - 1], done) {
      ReplayIsLocal(sys, s, order[..|order| - 1], done, k);
    }
  }

  // ---- What every step keeps.

  ghost predicate Holds(w: World, t: Tid, s: nat) {
    s in w.shards && t in w.shards[s].prepared
  }

  /** Decided to commit, and not yet carried out at this participant. */
  ghost predicate Pending(sys: System, w: World, t: Tid, s: nat)
    requires Shaped(sys, w)
  {
    t in sys.jobs && s in sys.jobs[t].participants && w.phase[t] == Decided(true) && Site(t, s) !in w.done
  }

  ghost predicate AwaitsVote(sys: System, w: World, t: Tid, s: nat)
    requires Shaped(sys, w)
  {
    t in sys.jobs && s in sys.jobs[t].participants && w.phase[t].Preparing? && s !in w.phase[t].votes
  }

  ghost predicate MsgOk(sys: System, w: World, m: Msg)
    requires Shaped(sys, w)
  {
    match m
    case To(s, PrepareRequest(t, txn)) =>
      && AwaitsVote(sys, w, t, s) && txn == PartOf(sys, t, s) && !Holds(w, t, s)
      && Vote(t, s, true) !in w.net && Vote(t, s, false) !in w.net
    case To(s, CommitRequest(t)) => Pending(sys, w, t, s)
    case To(s, AbortRequest(t)) => t in sys.jobs && s in sys.jobs[t].participants && w.phase[t] == Decided(false)
    case Vote(t, s, ok) => AwaitsVote(sys, w, t, s) && (ok <==> Holds(w, t, s)) && Vote(t, s, !ok) !in w.net
  }

  ghost predicate HeldOk(sys: System, w: World, t: Tid, s: nat)
    requires Shaped(sys, w) && Holds(w, t, s)
  {
    && t in sys.jobs && s in sys.jobs[t].participants && w.shards[s].prepared[t] == PartOf(sys, t, s)
    && w.phase[t] != Working && (w.phase[t] == Decided(true) ==> Pending(sys, w, t, s))
  }

  /** A yes vote, and no other, and a commit decision rest on the transaction being held at the participant. */
  ghost predicate Backed(sys: System, w: World, t: Tid, s: nat)
    requires Shaped(sys, w) && t in sys.jobs && s in sys.jobs[t].participants
  {
    && (w.phase[t].Preparing? && s in w.phase[t].votes ==> (w.phase[t].votes[s] <==> Holds(w, t, s)))
    && (Pending(sys, w, t, s) ==> Holds(w, t, s))
  }

  ghost predicate VotesOk(sys: System, w: World)
    requires Shaped(sys, w)
  {
    && (forall t :: t in sys.jobs && w.phase[t].Preparing? ==> w.phase[t].votes.Keys <= sys.jobs[t].participants)
    && (forall t, s :: t in sys.jobs && s in sys.jobs[t].participants ==> Backed(sys, w, t, s))
  }

  /** A transaction is never carried out at one participant and abandoned at another, and where it is abandoned it
      is released. */
  ghost predicate Atomic(sys: System, w: World)
    requires Shaped(sys, w)
  {
    && (forall t, s :: Site(t, s) in w.done ==>
          t in sys.jobs && s in sys.jobs[t].participants && w.phase[t] == Decided(true))
    && (forall t, s :: Site(t, s) in w.undone ==>
          t in sys.jobs && s in sys.jobs[t].participants && w.phase[t] == Decided(false) && !Holds(w, t, s))
  }

  ghost predicate Ordered(sys: System, w: World)
    requires Shaped(sys, w)
  {
    && Distinct(w.order)
    && (forall t :: t in w.order <==> t in sys.jobs && w.phase[t] == Decided(true))
  }

  ghost predicate Protocol(sys: System, w: World) {
    && Shaped(sys, w) && !w.halted
    && (forall m :: m in w.net ==> MsgOk(sys, w, m))
    && (forall t, s :: Holds(w, t, s) ==> HeldOk(sys, w, t, s))
    && (forall s :: s in w.shards ==> Compatible(w.shards[s].prepared))
    && VotesOk(sys, w) && Atomic(sys, w) && Ordered(sys, w)
  }

  /** A pending transaction conflicts with nothing decided after it. */
  ghost predicate NothingAfter(sys: System, w: World, i: nat, s: nat)
    requires Shaped(sys, w) && Known(sys, w.order) && i < |w.order|
  {
    Pending(sys, w, w.order[i], s) ==>
      forall j :: i < j < |w.order| ==> !Conflict(PartOf(sys, w.order[i], s), PartOf(sys, w.order[j], s))
  }

  /** What the commit of transaction `i` read at shard `s` is what it reads in the serial execution. */
  ghost predicate ReadSerially(sys: System, w: World, i: nat, s: nat)
    requires Shaped(sys, w) && Known(sys, w.order) && i < |w.order|
  {
    var site := Site(w.order[i], s);
    site in w.done ==>
      && site in w.values
      && w.values[site] == ReadAll(Serial(sys, w.order[..i]), PartOf(sys, w.order[i], s).readSet)
  }

  ghost predicate History(sys: System, w: World) {
    && Shaped(sys, w) && Known(sys, w.order)
    && (forall i, s :: 0 <= i < |w.order| ==> NothingAfter(sys, w, i, s))
    && (forall i, s :: 0 <= i < |w.order| ==> ReadSerially(sys, w, i, s))
    && (forall s :: s in w.shards ==> w.shards[s].data == Replay(sys, s, w.order, w.done))
  }

  ghost predicate Inv(sys: System, w: World) { Protocol(sys, w) && History(sys, w) }

  lemma StartInv(sys: System)
    requires WellFormed(sys)
    ensures Inv(sys, Start(sys))
  {
  }

  /** From `w` to `w'` nothing is decided to commit and nothing carried out. */
  ghost predicate Quiet(sys: System, w: World, w': World) {
    && Shaped(sys, w) && Shaped(sys, w')
    && w'.order == w.order && w'.done == w.done && w'.values == w.values
    && (forall s :: s in w.shards ==> w'.shards[s].data == w.shards[s].data)
    && (forall t :: t in sys.jobs && w'.phase[t] == Decided(true) ==> w.phase[t] == Decided(true))
  }

  ghost predicate IsCommit(step: Step) { step.Deliver? && step.request.CommitRequest? }

  lemma OtherStepsAreQuiet(sys: System, w: World, step: Step)
    requires Shaped(sys, w) && Enabled(sys, w, step) && !IsCommit(step)
    requires step.Decide? ==> !AllYes(w.phase[step.id].votes)
    ensures Quiet(sys, w, Apply(sys, w, step))
  {
    match step
    case Deliver(s, r) => DeliverIsQuiet(sys, w, s, r);
    case Decide(t) => RefusalIsQuiet(sys, w, t);
    case _ =>
  }

  lemma DeliverIsQuiet(sys: System, w: World, s: nat, r: Request)
    requires Shaped(sys, w) && Enabled(sys, w, Deliver(s, r)) && !r.CommitRequest?
    ensures Quiet(sys, w, Apply(sys, w, Deliver(s, r)))
  {
  }

  lemma RefusalIsQuiet(sys: System, w: World, t: Tid)
    requires Shaped(sys, w) && Enabled(sys, w, Decide(t)) && !AllYes(w.phase[t].votes)
    ensures Quiet(sys, w, Apply(sys, w, Decide(t)))
  {
  }

  /** A step that decides and carries out nothing leaves the history as it was. */
  lemma HistoryStays(sys: System, w: World, w': World)
    requires History(sys, w) && Quiet(sys, w, w')
    ensures History(sys, w')
  {
    forall i, s | 0 <= i < |w.order|
      ensures NothingAfter(sys, w', i, s) && ReadSerially(sys, w', i, s)
    {
      assert NothingAfter(sys, w, i, s) && ReadSerially(sys, w, i, s);
    }
  }

  lemma NotHeldYet(sys: System, w: World, t: Tid, s: nat)
    requires Protocol(sys, w) && t in sys.jobs && w.phase[t] == Working
    ensures !Holds(w, t, s)
  {
  }

  lemma StartPrepareProtocol(sys: System, w: World, t: Tid)
    requires Protocol(sys, w) && Enabled(sys, w, StartPrepare(t))
    ensures Protocol(sys, Apply(sys, w, StartPrepare(t)))
  {
    var w' := Apply(sys, w, StartPrepare(t));
    forall m | m in w'.net ensures MsgOk(sys, w', m) {
      if m in w.net { assert MsgOk(sys, w, m); } else { NotHeldYet(sys, w, t, m.shard); }
    }
    forall u, p | u in sys.jobs && p in sys.jobs[u].participants ensures Backed(sys, w', u, p) {
      assert Backed(sys, w, u, p);
    }
    forall u, p | Holds(w', u, p) ensures HeldOk(sys, w', u, p) {
      assert Holds(w, u, p) ==> HeldOk(sys, w, u, p);
    }
  }

  lemma GiveUpProtocol(sys: System, w: World, t: Tid)
    requires Protocol(sys, w) && Enabled(sys, w, GiveUp(t))
    ensures Protocol(sys, Apply(sys, w, GiveUp(t)))
  {
    var w' := Apply(sys, w, GiveUp(t));
    forall m | m in w'.net ensures MsgOk(sys, w', m) {
      assert m in w.net ==> MsgOk(sys, w, m);
    }
    forall u, p | u in sys.jobs && p in sys.jobs[u].participants ensures Backed(sys, w', u, p) {
      assert Backed(sys, w, u, p);
    }
    forall u, p | Holds(w', u, p) ensures HeldOk(sys, w', u, p) {
      assert Holds(w, u, p) ==> HeldOk(sys, w, u, p);
    }
  }

  lemma CountVoteMessages(sys: System, w: World, t: Tid, s: nat, ok: bool)
    requires Protocol(sys, w) && Enabled(sys, w, CountVote(t, s, ok))
    ensures var w' := Apply(sys, w, CountVote(t, s, ok)); forall m :: m in w'.net ==> MsgOk(sys, w', m)
  {
    var w' := Apply(sys, w, CountVote(t, s, ok));
    assert MsgOk(sys, w, Vote(t, s, ok));
    forall m | m in w'.net ensures MsgOk(sys, w', m) { assert MsgOk(sys, w, m); }
  }

  lemma CountVoteProtocol(sys: System, w: World, t: Tid, s: nat, ok: bool)
    requires Protocol(sys, w) && Enabled(sys, w, CountVote(t, s, ok))
    ensures Protocol(sys, Apply(sys, w, CountVote(t, s, ok)))
  {
    var w' := Apply(sys, w, CountVote(t, s, ok));
    CountVoteMessages(sys, w, t, s, ok);
    assert MsgOk(sys, w, Vote(t, s, ok));
    forall u, p | u in sys.jobs && p in sys.jobs[u].participants ensures Backed(sys, w', u, p) {
      assert Backed(sys, w, u, p);
    }
    forall u, p | Holds(w', u, p) ensures HeldOk(sys, w', u, p) {
      assert Holds(w, u, p) ==> HeldOk(sys, w, u, p);
    }
  }

  lemma LoseProtocol(sys: System, w: World, m: Msg)
    requires Protocol(sys, w) && Enabled(sys, w, Lose(m))
    ensures Protocol(sys, Apply(sys, w, Lose(m)))
  {
    var w' := Apply(sys, w, Lose(m));
    forall m | m in w'.net ensures MsgOk(sys, w', m) {
      assert m in w.net ==> MsgOk(sys, w, m);
    }
    forall u, p | u in sys.jobs && p in sys.jobs[u].participants ensures Backed(sys, w', u, p) {
      assert Backed(sys, w, u, p);
    }
    forall u, p | Holds(w', u, p) ensures HeldOk(sys, w', u, p) {
      assert Holds(w, u, p) ==> HeldOk(sys, w, u, p);
    }
  }

  lemma DecideHeld(sys: System, w: World, t: Tid)
    requires Protocol(sys, w) && Enabled(sys, w, Decide(t))
    ensures VotesOk(sys, Apply(sys, w, Decide(t)))
    ensures forall u, p :: Holds(w, u, p) ==> HeldOk(sys, Apply(sys, w, Decide(t)), u, p)
  {
    var w' := Apply(sys, w, Decide(t));
    forall u, p | u in sys.jobs && p in sys.jobs[u].participants ensures Backed(sys, w', u, p) {
      assert Backed(sys, w, u, p);
    }
    forall u, p | Holds(w, u, p) ensures HeldOk(sys, w', u, p) {
      assert HeldOk(sys, w, u, p);
    }
  }

  lemma DecideMessages(sys: System, w: World, t: Tid)
    requires Protocol(sys, w) && Enabled(sys, w, Decide(t))
    ensures forall m :: m in Apply(sys, w, Decide(t)).net ==> MsgOk(sys, Apply(sys, w, Decide(t)), m)
  {
    var w' := Apply(sys, w, Decide(t));
    forall m | m in w'.net ensures MsgOk(sys, w', m) {
      assert m in w.net ==> MsgOk(sys, w, m);
    }
  }

  lemma DecideProtocol(sys: System, w: World, t: Tid)
    requires Protocol(sys, w) && Enabled(sys, w, Decide(t))
    ensures Protocol(sys, Apply(sys, w, Decide(t)))
  {
    var w' := Apply(sys, w, Decide(t));
    DecideMessages(sys, w, t);
    DecideHeld(sys, w, t);
    DecideOrdered(sys, w, t);
    assert w'.shards == w.shards && w'.halted == w.halted;
    forall u, p | Holds(w', u, p) ensures HeldOk(sys, w', u, p) { assert Holds(w, u, p); }
  }

  lemma DecideOrdered(sys: System, w: World, t: Tid)
    requires Shaped(sys, w) && Atomic(sys, w) && Ordered(sys, w) && Enabled(sys, w, Decide(t))
    ensures Shaped(sys, Apply(sys, w, Decide(t)))
    ensures Atomic(sys, Apply(sys, w, Decide(t))) && Ordered(sys, Apply(sys, w, Decide(t)))
  {
  }

  /** The decision to commit is taken while every participant holds the transaction, and so while it conflicts
      with nothing that is pending there. */
  lemma CommitDecisionKeepsHistory(sys: System, w: World, t: Tid)
    requires Inv(sys, w) && Enabled(sys, w, Decide(t)) && AllYes(w.phase[t].votes)
    ensures History(sys, Apply(sys, w, Decide(t)))
  {
    var w' := Apply(sys, w, Decide(t));
    var n := |w.order|;
    assert w'.order[..n] == w.order;
    forall i, s | 0 <= i < |w'.order|
      ensures NothingAfter(sys, w', i, s)
    {
      if i < n && Pending(sys, w, w.order[i], s) {
        assert NothingAfter(sys, w, i, s);
        NoConflictWithHeld(sys, w, w.order[i], t, s);
      }
    }
    forall i, s | 0 <= i < |w'.order|
      ensures ReadSerially(sys, w', i, s)
    {
      if i < n {
        assert ReadSerially(sys, w, i, s);
        assert w'.order[..i] == w.order[..i];
      }
    }
  }

  lemma NoConflictWithHeld(sys: System, w: World, u: Tid, t: Tid, s: nat)
    requires Protocol(sys, w) && Pending(sys, w, u, s)
    requires t in sys.jobs && w.phase[t].Preparing? && w.phase[t].votes.Keys == sys.jobs[t].participants
               && AllYes(w.phase[t].votes)
    ensures !Conflict(PartOf(sys, u, s), PartOf(sys, t, s))
  {
    assert Backed(sys, w, u, s);
    if s in sys.jobs[t].participants {
      assert Backed(sys, w, t, s);
      assert HeldOk(sys, w, u, s) && HeldOk(sys, w, t, s);
    } else {
      assert PartOf(sys, t, s) == EMPTY;
    }
  }

  lemma DeliverPrepareMessages(sys: System, w: World, s: nat, t: Tid, txn: Txn)
    requires Protocol(sys, w) && Enabled(sys, w, Deliver(s, PrepareRequest(t, txn)))
    ensures var w' := Apply(sys, w, Deliver(s, PrepareRequest(t, txn))); forall m :: m in w'.net ==> MsgOk(sys, w', m)
  {
    var w' := Apply(sys, w, Deliver(s, PrepareRequest(t, txn)));
    assert MsgOk(sys, w, To(s, PrepareRequest(t, txn)));
    forall m | m in w'.net ensures MsgOk(sys, w', m) {
      assert m in w.net ==> MsgOk(sys, w, m);
    }
  }

  lemma DeliverPrepareHeld(sys: System, w: World, s: nat, t: Tid, txn: Txn)
    requires Protocol(sys, w) && Enabled(sys, w, Deliver(s, PrepareRequest(t, txn)))
    ensures var w' := Apply(sys, w, Deliver(s, PrepareRequest(t, txn)));
            VotesOk(sys, w') && forall u, p :: Holds(w', u, p) ==> HeldOk(sys, w', u, p)
  {
    var w' := Apply(sys, w, Deliver(s, PrepareRequest(t, txn)));
    assert MsgOk(sys, w, To(s, PrepareRequest(t, txn)));
    forall u, p | u in sys.jobs && p in sys.jobs[u].participants ensures Backed(sys, w', u, p) {
      assert Backed(sys, w, u, p);
    }
    forall u, p | Holds(w', u, p) ensures HeldOk(sys, w', u, p) {
      assert Holds(w, u, p) ==> HeldOk(sys, w, u, p);
    }
  }

  lemma DeliverPrepareProtocol(sys: System, w: World, s: nat, t: Tid, txn: Txn)
    requires Protocol(sys, w) && Enabled(sys, w, Deliver(s, PrepareRequest(t, txn)))
    ensures Protocol(sys, Apply(sys, w, Deliver(s, PrepareRequest(t, txn))))
  {
    assert MsgOk(sys, w, To(s, PrepareRequest(t, txn)));
    PrepareKeepsCompatible(w.shards[s], t, txn);
    DeliverPrepareMessages(sys, w, s, t, txn);
    DeliverPrepareHeld(sys, w, s, t, txn);
  }

  lemma DeliverAbortMessages(sys: System, w: World, s: nat, t: Tid)
    requires Protocol(sys, w) && Enabled(sys, w, Deliver(s, AbortRequest(t)))
    ensures var w' := Apply(sys, w, Deliver(s, AbortRequest(t))); forall m :: m in w'.net ==> MsgOk(sys, w', m)
  {
    var w' := Apply(sys, w, Deliver(s, AbortRequest(t)));
    assert MsgOk(sys, w, To(s, AbortRequest(t)));
    forall m | m in w'.net ensures MsgOk(sys, w', m) {
      assert m in w.net ==> MsgOk(sys, w, m);
    }
  }

  lemma DeliverAbortHeld(sys: System, w: World, s: nat, t: Tid)
    requires Protocol(sys, w) && Enabled(sys, w, Deliver(s, AbortRequest(t)))
    ensures var w' := Apply(sys, w, Deliver(s, AbortRequest(t)));
            VotesOk(sys, w') && forall u, p :: Holds(w', u, p) ==> HeldOk(sys, w', u, p)
  {
    var w' := Apply(sys, w, Deliver(s, AbortRequest(t)));
    assert MsgOk(sys, w, To(s, AbortRequest(t)));
    forall u, p | u in sys.jobs && p in sys.jobs[u].participants ensures Backed(sys, w', u, p) {
      assert Backed(sys, w, u, p);
    }
    forall u, p | Holds(w', u, p) ensures HeldOk(sys, w', u, p) {
      assert Holds(w, u, p) ==> HeldOk(sys, w, u, p);
    }
  }

  lemma DeliverAbortProtocol(sys: System, w: World, s: nat, t: Tid)
    requires Protocol(sys, w) && Enabled(sys, w, Deliver(s, AbortRequest(t)))
    ensures Protocol(sys, Apply(sys, w, Deliver(s, AbortRequest(t))))
  {
    assert MsgOk(sys, w, To(s, AbortRequest(t)));
    DeliverAbortMessages(sys, w, s, t);
    DeliverAbortHeld(sys, w, s, t);
  }

  /** A commit always finds its transaction prepared: the store's assertion holds. */
  lemma CommitFindsPrepared(sys: System, w: World, s: nat, t: Tid)
    requires Protocol(sys, w) && Enabled(sys, w, Deliver(s, CommitRequest(t)))
    ensures Pending(sys, w, t, s) && Holds(w, t, s) && w.shards[s].prepared[t] == PartOf(sys, t, s)
  {
    assert MsgOk(sys, w, To(s, CommitRequest(t)));
    assert Backed(sys, w, t, s);
    assert HeldOk(sys, w, t, s);
  }

  lemma DeliverCommitMessages(sys: System, w: World, s: nat, t: Tid)
    requires Protocol(sys, w) && Enabled(sys, w, Deliver(s, CommitRequest(t)))
    ensures var w' := Apply(sys, w, Deliver(s, CommitRequest(t))); forall m :: m in w'.net ==> MsgOk(sys, w', m)
  {
    var w' := Apply(sys, w, Deliver(s, CommitRequest(t)));
    CommitFindsPrepared(sys, w, s, t);
    forall m | m in w'.net ensures MsgOk(sys, w', m) {
      assert m in w.net ==> MsgOk(sys, w, m);
    }
  }

  lemma DeliverCommitHeld(sys: System, w: World, s: nat, t: Tid)
    requires Protocol(sys, w) && Enabled(sys, w, Deliver(s, CommitRequest(t)))
    ensures var w' := Apply(sys, w, Deliver(s, CommitRequest(t)));
            VotesOk(sys, w') && forall u, p :: Holds(w', u, p) ==> HeldOk(sys, w', u, p)
  {
    var w' := Apply(sys, w, Deliver(s, CommitRequest(t)));
    CommitFindsPrepared(sys, w, s, t);
    forall u, p | u in sys.jobs && p in sys.jobs[u].participants ensures Backed(sys, w', u, p) {
      assert Backed(sys, w, u, p);
    }
    forall u, p | Holds(w', u, p) ensures HeldOk(sys, w', u, p) {
      assert Holds(w, u, p) ==> HeldOk(sys, w, u, p);
    }
  }

  lemma DeliverCommitProtocol(sys: System, w: World, s: nat, t: Tid)
    requires Protocol(sys, w) && Enabled(sys, w, Deliver(s, CommitRequest(t)))
    ensures Protocol(sys, Apply(sys, w, Deliver(s, CommitRequest(t))))
  {
    CommitFindsPrepared(sys, w, s, t);
    DeliverCommitMessages(sys, w, s, t);
    DeliverCommitHeld(sys, w, s, t);
  }

  /** Nothing before or after a pending transaction stands between it and its place in the order. */
  lemma PendingIsIsolated(sys: System, w: World, i: nat, j: nat, s: nat, k: Key)
    requires Inv(sys, w) && i < |w.order| && j < |w.order| && i != j && Pending(sys, w, w.order[i], s)
    requires ShardOf(k, sys.nshards) == s && WritesKey(sys, w.order[j], k)
    requires k in PartOf(sys, w.order[i], s).readSet || k in PartOf(sys, w.order[i], s).writeSet
    ensures j < i && Site(w.order[j], s) in w.done
  {
    var a, b := PartOf(sys, w.order[i], s), PartOf(sys, w.order[j], s);
    assert ClashAt(a, b, k) && ClashAt(b, a, k);
    assert NothingAfter(sys, w, i, s) && NothingAfter(sys, w, j, s);
    assert w.order[j] in w.order;
    assert Contacted(sys.jobs[w.order[j]], sys.nshards);
  }

  lemma PendingReads(sys: System, w: World, i: nat, s: nat, k: Key)
    requires Inv(sys, w) && i < |w.order| && s in w.shards && Pending(sys, w, w.order[i], s)
    requires k in PartOf(sys, w.order[i], s).readSet
    ensures Get(w.shards[s].data, k) == Get(Serial(sys, w.order[..i]), k)
  {
    var before := w.order[..i];
    forall j | i <= j < |w.order| && WritesKey(sys, w.order[j], k) ensures Site(w.order[j], s) !in w.done {
      if i < j { PendingIsIsolated(sys, w, i, j, s, k); }
    }
    ReplayIgnores(sys, w.order, w.done, i, k);
    forall j | 0 <= j < i && WritesKey(sys, before[j], k) ensures Site(before[j], s) in w.done {
      PendingIsIsolated(sys, w, i, j, s, k);
    }
    ReplayedKey(sys, before, w.done, k);
  }

  /** A commit reads what its transaction reads in the serial execution, and leaves the shard as if it had been
      carried out in turn. */
  lemma DeliverCommitHistory(sys: System, w: World, s: nat, t: Tid)
    requires Inv(sys, w) && Enabled(sys, w, Deliver(s, CommitRequest(t)))
    ensures History(sys, Apply(sys, w, Deliver(s, CommitRequest(t))))
  {
    var w' := Apply(sys, w, Deliver(s, CommitRequest(t)));
    CommitFindsPrepared(sys, w, s, t);
    var i :| 0 <= i < |w.order| && w.order[i] == t;
    CommitShards(sys, w, i, s);
    CommitRecords(sys, w, i, s);
  }

  lemma CommitShards(sys: System, w: World, i: nat, s: nat)
    requires Inv(sys, w) && i < |w.order| && Enabled(sys, w, Deliver(s, CommitRequest(w.order[i])))
    ensures var w' := Apply(sys, w, Deliver(s, CommitRequest(w.order[i])));
            forall p :: p in w'.shards ==> w'.shards[p].data == Replay(sys, p, w'.order, w'.done)
  {
    var t := w.order[i];
    var w' := Apply(sys, w, Deliver(s, CommitRequest(t)));
    CommitFindsPrepared(sys, w, s, t);
    CommitReplays(sys, w, i, s);
    forall p | p in w'.shards ensures w'.shards[p].data == Replay(sys, p, w'.order, w'.done) {
      if p != s { ReplayElsewhere(sys, p, w.order, w.done, Site(t, s)); }
    }
  }

  lemma CommitRecords(sys: System, w: World, i: nat, s: nat)
    requires Inv(sys, w) && i < |w.order| && Enabled(sys, w, Deliver(s, CommitRequest(w.order[i])))
    ensures var w' := Apply(sys, w, Deliver(s, CommitRequest(w.order[i])));
            forall j, p :: 0 <= j < |w.order| ==> NothingAfter(sys, w', j, p) && ReadSerially(sys, w', j, p)
  {
    var w' := Apply(sys, w, Deliver(s, CommitRequest(w.order[i])));
    CommitFindsPrepared(sys, w, s, w.order[i]);
    forall j, p | 0 <= j < |w.order| ensures NothingAfter(sys, w', j, p) && ReadSerially(sys, w', j, p) {
      assert NothingAfter(sys, w, j, p);
      RecordAfterCommit(sys, w, i, s, j, p);
    }
  }

  lemma RecordAfterCommit(sys: System, w: World, i: nat, s: nat, j: nat, p: nat)
    requires Inv(sys, w) && i < |w.order| && j < |w.order| && Enabled(sys, w, Deliver(s, CommitRequest(w.order[i])))
    ensures ReadSerially(sys, Apply(sys, w, Deliver(s, CommitRequest(w.order[i]))), j, p)
  {
    CommitEffect(sys, w, s, w.order[i]);
    assert ReadSerially(sys, w, j, p);
    if p == s && w.order[j] == w.order[i] { CommitReadsSerially(sys, w, j, s); }
  }

  /** What a commit records. */
  lemma CommitEffect(sys: System, w: World, s: nat, t: Tid)
    requires Inv(sys, w) && Enabled(sys, w, Deliver(s, CommitRequest(t)))
    ensures Pending(sys, w, t, s) && s in w.shards
    ensures var w' := Apply(sys, w, Deliver(s, CommitRequest(t)));
            && w'.order == w.order && w'.done == w.done + {Site(t, s)}
            && w'.values == w.values[Site(t, s) := ReadAll(w.shards[s].data, PartOf(sys, t, s).readSet)]
  {
    CommitFindsPrepared(sys, w, s, t);
  }

  lemma CommitReplays(sys: System, w: World, i: nat, s: nat)
    requires Inv(sys, w) && i < |w.order| && s in w.shards && Pending(sys, w, w.order[i], s)
    ensures w.shards[s].data + PartOf(sys, w.order[i], s).writeSet
              == Replay(sys, s, w.order, w.done + {Site(w.order[i], s)})
  {
    forall j, k | i < j < |w.order| && k in PartOf(sys, w.order[i], s).writeSet ensures !WritesKey(sys, w.order[j], k) {
      if WritesKey(sys, w.order[j], k) { PendingIsIsolated(sys, w, i, j, s, k); }
    }
    ReplayLate(sys, w.order, w.done, i, s);
  }

  lemma CommitReadsSerially(sys: System, w: World, i: nat, s: nat)
    requires Inv(sys, w) && i < |w.order| && s in w.shards && Pending(sys, w, w.order[i], s)
    ensures ReadAll(w.shards[s].data, PartOf(sys, w.order[i], s).readSet)
      == ReadAll(Serial(sys, w.order[..i]), PartOf(sys, w.order[i], s).readSet)
  {
    forall k | k in PartOf(sys, w.order[i], s).readSet
      ensures Get(w.shards[s].data, k) == Get(Serial(sys, w.order[..i]), k)
    {
      PendingReads(sys, w, i, s, k);
    }
  }

  lemma StepProtocol(sys: System, w: World, step: Step)
    requires Protocol(sys, w) && Enabled(sys, w, step)
    ensures Protocol(sys, Apply(sys, w, step))
  {
    match step
    case StartPrepare(t) => StartPrepareProtocol(sys, w, t);
    case GiveUp(t) => GiveUpProtocol(sys, w, t);
    case Deliver(s, PrepareRequest(t, txn)) => DeliverPrepareProtocol(sys, w, s, t, txn);
    case Deliver(s, CommitRequest(t)) => DeliverCommitProtocol(sys, w, s, t);
    case Deliver(s, AbortRequest(t)) => DeliverAbortProtocol(sys, w, s, t);
    case CountVote(t, s, ok) => CountVoteProtocol(sys, w, t, s, ok);
    case Decide(t) => DecideProtocol(sys, w, t);
    case Lose(m) => LoseProtocol(sys, w, m);
  }

  lemma StepKeepsInv(sys: System, w: World, step: Step)
    requires Inv(sys, w) && Enabled(sys, w, step)
    ensures Inv(sys, Apply(sys, w, step))
  {
    StepProtocol(sys, w, step);
    StepHistory(sys, w, step);
  }

  lemma StepHistory(sys: System, w: World, step: Step)
    requires Inv(sys, w) && Enabled(sys, w, step)
    ensures History(sys, Apply(sys, w, step))
  {
    if IsCommit(step) {
      DeliverCommitHistory(sys, w, step.shard, step.request.id);
    } else if step.Decide? && AllYes(w.phase[step.id].votes) {
      CommitDecisionKeepsHistory(sys, w, step.id);
    } else {
      OtherStepsAreQuiet(sys, w, step);
      HistoryStays(sys, w, Apply(sys, w, step));
    }
  }

  lemma {:induction false} EveryRunKeepsInv(sys: System, steps: seq<Step>)
    requires WellFormed(sys)
    ensures Inv(sys, Run(sys, steps))
  {
    if steps == [] {
      StartInv(sys);
    } else {
      var n := |steps| - 1;
      EveryRunKeepsInv(sys, steps[..n]);
      if Enabled(sys, Run(sys, steps[..n]), steps[n]) {
        StepKeepsInv(sys, Run(sys, steps[..n]), steps[n]);
      }
    }
  }

  // ---- What runs guarantee.

  /** Serializability: every value read at a shard's commit is the one read in the serial execution of the
      committed transactions, ordered by the coordinators' decisions. */
  lemma Serializable(sys: System, steps: seq<Step>, i: nat, s: nat, k: Key)
    requires WellFormed(sys)
    requires i < |Run(sys, steps).order| && Site(Run(sys, steps).order[i], s) in Run(sys, steps).done
    requires Run(sys, steps).order[i] in sys.jobs && k in sys.jobs[Run(sys, steps).order[i]].txn.readSet
               && ShardOf(k, sys.nshards) == s
    ensures var w := Run(sys, steps);
      && Known(sys, w.order) && Site(w.order[i], s) in w.values && k in w.values[Site(w.order[i], s)]
      && w.values[Site(w.order[i], s)][k] == Get(Serial(sys, w.order[..i]), k)
  {
    EveryRunKeepsInv(sys, steps);
    assert ReadSerially(sys, Run(sys, steps), i, s);
  }

  /** Atomic commitment: prepared transactions never conflict, no assertion fails, a transaction is carried out at
      no participant once it is abandoned at one, and where it is carried out or abandoned it is released. */
  lemma AtomicCommitment(sys: System, steps: seq<Step>, t: Tid, s: nat, s': nat)
    requires WellFormed(sys)
    ensures var w := Run(sys, steps);
      && !w.halted
      && (s in w.shards ==> Compatible(w.shards[s].prepared))
      && !(Site(t, s) in w.done && Site(t, s') in w.undone)
      && (Site(t, s) in w.done ==> t in w.order)
      && (Site(t, s) in w.done || Site(t, s) in w.undone ==> !Holds(w, t, s))
  {
    EveryRunKeepsInv(sys, steps);
  }

  /** Nothing that shard `s` holds conflicts with `t` there. */
  ghost predicate Free(sys: System, w: World, t: Tid, s: nat)
    requires sys.nshards > 0 && t in sys.jobs
  {
    forall u :: u in sys.jobs && Holds(w, u, s) ==> !Conflict(PartOf(sys, t, s), PartOf(sys, u, s))
  }

  /** The vote on a transaction that is asked for: yes, and held from then on, exactly if it conflicts with nothing
      that the shard holds. */
  lemma PrepareVerdict(sys: System, steps: seq<Step>, s: nat, t: Tid, txn: Txn)
    requires WellFormed(sys) && Enabled(sys, Run(sys, steps), Deliver(s, PrepareRequest(t, txn)))
    ensures t in sys.jobs
    ensures var w := Run(sys, steps);
            var w', free := Apply(sys, w, Deliver(s, PrepareRequest(t, txn))), Free(sys, w, t, s);
            Vote(t, s, free) in w'.net && Vote(t, s, !free) !in w'.net && (Holds(w', t, s) <==> free)
  {
    EveryRunKeepsInv(sys, steps);
    PrepareVote(sys, Run(sys, steps), s, t, txn);
  }

  lemma PrepareVote(sys: System, w: World, s: nat, t: Tid, txn: Txn)
    requires Protocol(sys, w) && Enabled(sys, w, Deliver(s, PrepareRequest(t, txn)))
    ensures t in sys.jobs
    ensures var w', free := Apply(sys, w, Deliver(s, PrepareRequest(t, txn))), Free(sys, w, t, s);
            Vote(t, s, free) in w'.net && Vote(t, s, !free) !in w'.net && (Holds(w', t, s) <==> free)
  {
    assert MsgOk(sys, w, To(s, PrepareRequest(t, txn)));
    FreeIsAdmissible(sys, w, t, s);
  }

  lemma FreeIsAdmissible(sys: System, w: World, t: Tid, s: nat)
    requires Protocol(sys, w) && t in sys.jobs && s in w.shards
    ensures Free(sys, w, t, s) <==> Admissible(w.shards[s].prepared, PartOf(sys, t, s))
  {
    forall u | u in w.shards[s].prepared ensures u in sys.jobs && w.shards[s].prepared[u] == PartOf(sys, u, s) {
      assert Holds(w, u, s) && HeldOk(sys, w, u, s);
    }
  }

  /** A commit that arrives gives every key that the transaction writes on the shard its value, and no other key of the
      shard another one. */
  lemma CommitVerdict(sys: System, steps: seq<Step>, s: nat, t: Tid, k: Key)
    requires WellFormed(sys) && Enabled(sys, Run(sys, steps), Deliver(s, CommitRequest(t)))
    ensures t in sys.jobs
    ensures var w := Run(sys, steps);
            var w', writes := Apply(sys, w, Deliver(s, CommitRequest(t))), sys.jobs[t].txn.writeSet;
            var was, now := w.shards[s].data, w'.shards[s].data;
            if k in writes && ShardOf(k, sys.nshards) == s then k in now && now[k] == writes[k]
            else (k in now <==> k in was) && (k in now ==> now[k] == was[k])
  {
    EveryRunKeepsInv(sys, steps);
    CommitFindsPrepared(sys, Run(sys, steps), s, t);
  }

  /** The decision, once every participant has voted: to commit exactly if they all hold the transaction; and the
      decision is sent to every participant. */
  lemma DecisionVerdict(sys: System, steps: seq<Step>, t: Tid)
    requires WellFormed(sys) && Enabled(sys, Run(sys, steps), Decide(t))
    ensures var w := Run(sys, steps);
            var w' := Apply(sys, w, Decide(t));
            var all := forall s :: s in sys.jobs[t].participants ==> Holds(w, t, s);
            && w'.phase[t] == Decided(all)
            && forall s :: s in sys.jobs[t].participants ==>
                 To(s, if all then CommitRequest(t) else AbortRequest(t)) in w'.net
  {
    var w := Run(sys, steps);
    EveryRunKeepsInv(sys, steps);
    forall s | s in sys.jobs[t].participants ensures w.phase[t].votes[s] <==> Holds(w, t, s) {
      assert Backed(sys, w, t, s);
    }
  }

  // ---- A transaction that nothing stands against can commit.

  lemma RunOneMore(sys: System, steps: seq<Step>, step: Step)
    requires WellFormed(sys) && Enabled(sys, Run(sys, steps), step)
    ensures Run(sys, steps + [step]) == Apply(sys, Run(sys, steps), step)
  {
    assert (steps + [step])[..|steps|] == steps;
  }

  /** The participants in `rest` still have to be asked, and will agree; the others hold the transaction. */
  ghost predicate Asking(sys: System, w: World, t: Tid, rest: set<nat>)
    requires Shaped(sys, w)
  {
    && !w.halted && t in sys.jobs && w.phase[t].Preparing? && rest <= sys.jobs[t].participants
    && w.phase[t].votes.Keys == sys.jobs[t].participants - rest
    && (forall s :: s in sys.jobs[t].participants - rest ==> Holds(w, t, s))
    && (forall s :: s in rest ==> To(s, PrepareRequest(t, PartOf(sys, t, s))) in w.net && Free(sys, w, t, s))
  }

  lemma AskOne(sys: System, steps: seq<Step>, t: Tid, rest: set<nat>, s: nat) returns (more: seq<Step>)
    requires WellFormed(sys) && Asking(sys, Run(sys, steps), t, rest) && s in rest
    ensures steps <= more && Asking(sys, Run(sys, more), t, rest - {s})
  {
    var w := Run(sys, steps);
    var ask := Deliver(s, PrepareRequest(t, PartOf(sys, t, s)));
    assert Contacted(sys.jobs[t], sys.nshards);
    PrepareVerdict(sys, steps, s, t, PartOf(sys, t, s));
    RunOneMore(sys, steps, ask);
    var w1 := Run(sys, steps + [ask]);
    EveryRunKeepsInv(sys, steps + [ask]);
    RunOneMore(sys, steps + [ask], CountVote(t, s, true));
    more := steps + [ask] + [CountVote(t, s, true)];
    AskedOne(sys, w, w1, Run(sys, more), t, rest, s);
  }

  lemma AskedOne(sys: System, w: World, w1: World, w2: World, t: Tid, rest: set<nat>, s: nat)
    requires Shaped(sys, w) && Shaped(sys, w2) && Asking(sys, w, t, rest) && s in rest && !w1.halted
    requires w1.phase == w.phase && w1.net == w.net - {To(s, PrepareRequest(t, PartOf(sys, t, s)))} + {Vote(t, s, true)}
    requires w1.shards.Keys == w.shards.Keys && (forall p :: p in w.shards && p != s ==> w1.shards[p] == w.shards[p])
    requires Holds(w1, t, s)
    requires w2 == w1.(phase := w1.phase[t := Preparing(w1.phase[t].votes[s := true])],
                       net := w1.net - {Vote(t, s, true)})
    ensures Asking(sys, w2, t, rest - {s})
  {
    forall p, u | p != s ensures Holds(w2, u, p) <==> Holds(w, u, p) {}
  }

  lemma {:induction false} AskAll(sys: System, steps: seq<Step>, t: Tid, rest: set<nat>) returns (more: seq<Step>)
    requires WellFormed(sys) && Asking(sys, Run(sys, steps), t, rest)
    ensures steps <= more && Asking(sys, Run(sys, more), t, {})
    decreases rest
  {
    if rest == {} {
      more := steps;
    } else {
      var s :| s in rest;
      more := AskOne(sys, steps, t, rest, s);
      more := AskAll(sys, more, t, rest - {s});
    }
  }

  /** The commit is on its way to the participants in `rest`, and carried out at the others. */
  ghost predicate Telling(sys: System, w: World, t: Tid, rest: set<nat>)
    requires Shaped(sys, w)
  {
    && t in sys.jobs && w.phase[t] == Decided(true) && rest <= sys.jobs[t].participants
    && (forall s :: s in sys.jobs[t].participants - rest ==> Site(t, s) in w.done)
    && (forall s :: s in rest ==> To(s, CommitRequest(t)) in w.net)
  }

  lemma {:induction false} TellAll(sys: System, steps: seq<Step>, t: Tid, rest: set<nat>) returns (more: seq<Step>)
    requires WellFormed(sys) && Telling(sys, Run(sys, steps), t, rest)
    ensures steps <= more && Telling(sys, Run(sys, more), t, {})
    decreases rest
  {
    if rest == {} {
      more := steps;
    } else {
      var s :| s in rest;
      EveryRunKeepsInv(sys, steps);
      assert Contacted(sys.jobs[t], sys.nshards);
      CommitFindsPrepared(sys, Run(sys, steps), s, t);
      RunOneMore(sys, steps, Deliver(s, CommitRequest(t)));
      more := TellAll(sys, steps + [Deliver(s, CommitRequest(t))], t, rest - {s});
    }
  }

  /** After any run, a transaction that has not been started and conflicts with nothing held at its participants can
      still commit at all of them. */
  lemma FreeTransactionCanCommit(sys: System, steps: seq<Step>, t: Tid) returns (more: seq<Step>)
    requires WellFormed(sys) && t in sys.jobs && Run(sys, steps).phase[t] == Working
    requires forall s :: s in sys.jobs[t].participants ==> Free(sys, Run(sys, steps), t, s)
    ensures steps <= more
    ensures var w := Run(sys, more);
            w.phase[t] == Decided(true) && forall s :: s in sys.jobs[t].participants ==> Site(t, s) in w.done
  {
    more := StartAsking(sys, steps, t);
    more := AskAll(sys, more, t, sys.jobs[t].participants);
    more := DecideToCommit(sys, more, t);
    more := TellAll(sys, more, t, sys.jobs[t].participants);
  }

  lemma StartAsking(sys: System, steps: seq<Step>, t: Tid) returns (more: seq<Step>)
    requires WellFormed(sys) && t in sys.jobs && Run(sys, steps).phase[t] == Working
    requires forall s :: s in sys.jobs[t].participants ==> Free(sys, Run(sys, steps), t, s)
    ensures steps <= more && Asking(sys, Run(sys, more), t, sys.jobs[t].participants)
  {
    EveryRunKeepsInv(sys, steps);
    RunOneMore(sys, steps, StartPrepare(t));
    AskFirst(sys, Run(sys, steps), t);
    more := steps + [StartPrepare(t)];
  }

  lemma DecideToCommit(sys: System, steps: seq<Step>, t: Tid) returns (more: seq<Step>)
    requires WellFormed(sys) && Asking(sys, Run(sys, steps), t, {})
    ensures steps <= more && Telling(sys, Run(sys, more), t, sys.jobs[t].participants)
  {
    DecisionVerdict(sys, steps, t);
    RunOneMore(sys, steps, Decide(t));
    more := steps + [Decide(t)];
  }

  lemma AskFirst(sys: System, w: World, t: Tid)
    requires Protocol(sys, w) && Enabled(sys, w, StartPrepare(t))
    requires forall s :: s in sys.jobs[t].participants ==> Free(sys, w, t, s)
    ensures Asking(sys, Apply(sys, w, StartPrepare(t)), t, sys.jobs[t].participants)
  {
    var w' := Apply(sys, w, StartPrepare(t));
    forall u, s ensures Holds(w', u, s) <==> Holds(w, u, s) {}
  }

  // ---- What is sent has its effect or is lost.

  ghost predicate Sent(w: World, m: Msg) { m in w.net || m in w.lost }

  /** What the coordinator awaits from a participant or has told it is on its way, was lost, or has had its effect. */
  ghost predicate Accounted(sys: System, w: World, t: Tid, s: nat)
    requires Shaped(sys, w) && t in sys.jobs
  {
    var phase := w.phase[t];
    && (phase.Preparing? ==>
          || s in phase.votes || Sent(w, Vote(t, s, true)) || Sent(w, Vote(t, s, false))
          || Sent(w, To(s, PrepareRequest(t, PartOf(sys, t, s)))))
    && (phase == Decided(true) ==> Site(t, s) in w.done || Sent(w, To(s, CommitRequest(t))))
    && (phase == Decided(false) ==> Site(t, s) in w.undone || Sent(w, To(s, AbortRequest(t))))
  }

  ghost predicate AllAccounted(sys: System, w: World)
    requires Shaped(sys, w)
  {
    forall t, s :: t in sys.jobs && s in sys.jobs[t].participants ==> Accounted(sys, w, t, s)
  }

  lemma StepAccounts(sys: System, w: World, step: Step)
    requires Protocol(sys, w) && AllAccounted(sys, w) && Enabled(sys, w, step)
    ensures AllAccounted(sys, Apply(sys, w, step))
  {
    var w' := Apply(sys, w, step);
    if step.Deliver? {
      DeliverAccounts(sys, w, step.shard, step.request);
      return;
    }
    forall t, s | t in sys.jobs && s in sys.jobs[t].participants ensures Accounted(sys, w', t, s) {
      assert Accounted(sys, w, t, s);
    }
  }

  lemma DeliverAccounts(sys: System, w: World, s: nat, r: Request)
    requires Protocol(sys, w) && AllAccounted(sys, w) && Enabled(sys, w, Deliver(s, r))
    ensures AllAccounted(sys, Apply(sys, w, Deliver(s, r)))
  {
    var w' := Apply(sys, w, Deliver(s, r));
    assert MsgOk(sys, w, To(s, r));
    if r.CommitRequest? { CommitFindsPrepared(sys, w, s, r.id); }
    forall t, p | t in sys.jobs && p in sys.jobs[t].participants ensures Accounted(sys, w', t, p) {
      assert Accounted(sys, w, t, p);
    }
  }

  lemma {:induction false} EveryRunAccounts(sys: System, steps: seq<Step>)
    requires WellFormed(sys)
    ensures AllAccounted(sys, Run(sys, steps))
  {
    if steps != [] {
      var n := |steps| - 1;
      EveryRunAccounts(sys, steps[..n]);
      EveryRunKeepsInv(sys, steps[..n]);
      if Enabled(sys, Run(sys, steps[..n]), steps[n]) {
        StepAccounts(sys, Run(sys, steps[..n]), steps[n]);
      }
    }
  }

  /** A run that has lost no message and has none left to deliver: every decision has been carried out at every
      participant, and a transaction that is not decided has all its votes. */
  lemma DrainedRunIsSettled(sys: System, steps: seq<Step>)
    requires WellFormed(sys) && Run(sys, steps).net == {} && Run(sys, steps).lost == {}
    ensures var w := Run(sys, steps);
            && Quiescent(sys, w)
            && (forall t, s :: t in sys.jobs && s in sys.jobs[t].participants && w.phase[t] == Decided(false) ==>
                  Site(t, s) in w.undone && !Holds(w, t, s))
            && (forall t :: t in sys.jobs && w.phase[t].Preparing? ==> Enabled(sys, w, Decide(t)))
  {
    var w := Run(sys, steps);
    EveryRunKeepsInv(sys, steps);
    EveryRunAccounts(sys, steps);
    forall t, s | t in sys.jobs && s in sys.jobs[t].participants
      ensures !Pending(sys, w, t, s) && (w.phase[t] == Decided(false) ==> Site(t, s) in w.undone)
      ensures w.phase[t].Preparing? ==> s in w.phase[t].votes
    {
      assert Accounted(sys, w, t, s);
    }
  }

  /** Every decided commit has been carried out. */
  ghost predicate Quiescent(sys: System, w: World)
    requires Shaped(sys, w)
  {
    forall t, s :: !Pending(sys, w, t, s)
  }

  /** Once every decided commit has been carried out, each shard holds exactly its part of the serial result. */
  lemma QuiescentDataIsSerial(sys: System, steps: seq<Step>, s: nat)
    requires WellFormed(sys) && s < sys.nshards && Quiescent(sys, Run(sys, steps))
    ensures var w := Run(sys, steps);
      Known(sys, w.order) && w.shards[s].data == LocalData(Serial(sys, w.order), s, sys.nshards)
  {
    var w := Run(sys, steps);
    EveryRunKeepsInv(sys, steps);
    var data, serial := w.shards[s].data, Serial(sys, w.order);
    forall k ensures Get(data, k) == Get(LocalData(serial, s, sys.nshards), k) {
      if ShardOf(k, sys.nshards) == s {
        QuiescentKey(sys, w, k);
      } else if k in data {
        ReplayIsLocal(sys, s, w.order, w.done, k);
      }
    }
    SameGets(data, LocalData(serial, s, sys.nshards));
  }

  lemma QuiescentKey(sys: System, w: World, k: Key)
    requires Inv(sys, w) && Quiescent(sys, w)
    ensures Get(w.shards[ShardOf(k, sys.nshards)].data, k) == Get(Serial(sys, w.order), k)
  {
    var s := ShardOf(k, sys.nshards);
    forall j | 0 <= j < |w.order| && WritesKey(sys, w.order[j], k) ensures Site(w.order[j], s) in w.done {
      assert w.order[j] in w.order && Contacted(sys.jobs[w.order[j]], sys.nshards);
      assert !Pending(sys, w, w.order[j], s);
    }
    ReplayedKey(sys, w.order, w.done, k);
  }

  lemma SameGets(a: map<Key, Value>, b: map<Key, Value>)
    requires forall k :: Get(a, k) == Get(b, k)
    ensures a == b
  {
    forall k ensures (k in a <==> k in b) && (k in a ==> a[k] == b[k]) { assert Get(a, k) == Get(b, k); }
  }
}
